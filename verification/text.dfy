/** Python's `str` operations used by the application, on `string` (a sequence
    of Unicode scalar values): substring test (`in`), `find`, `partition`,
    `split`, `join`, `replace`, `strip` and `lower`. */
module Text {

  datatype Option<+T> = None | Some(value: T)

  /** `sub` occurs in `s` starting at index `i`. */
  predicate OccursAt(s: string, sub: string, i: int)
  {
    0 <= i && i + |sub| <= |s| && s[i..i + |sub|] == sub
  }

  /** The first index at or after `from` where `sub` occurs in `s`. */
  function IndexFrom(s: string, sub: string, from: nat): (r: Option<nat>)
    ensures r.Some? ==> from <= r.value && OccursAt(s, sub, r.value)
    ensures r.Some? ==> forall j :: from <= j < r.value ==> !OccursAt(s, sub, j)
    ensures r.None? ==> forall j :: from <= j ==> !OccursAt(s, sub, j)
    decreases |s| - from
  {
    if |s| < from + |sub| then None
    else if s[from..from + |sub|] == sub then Some(from)
    else IndexFrom(s, sub, from + 1)
  }

  /** Python's `s.find(sub)`, with `None` for -1. */
  function IndexOf(s: string, sub: string): (r: Option<nat>)
    ensures r.Some? ==> OccursAt(s, sub, r.value)
    ensures r.Some? ==> forall j :: 0 <= j < r.value ==> !OccursAt(s, sub, j)
    ensures r.None? ==> forall j :: !OccursAt(s, sub, j)
  {
    IndexFrom(s, sub, 0)
  }

  /** Python's `sub in s`. */
  function Contains(s: string, sub: string): (b: bool)
    ensures b <==> exists i :: OccursAt(s, sub, i)
  {
    IndexOf(s, sub).Some?
  }

  /** The occurrences of `sub` inside the prefix `s[..n]` are exactly those of
      `s` that end by `n`. */
  lemma PrefixOccurrences(s: string, n: nat, sub: string)
    requires n <= |s|
    ensures forall j :: OccursAt(s[..n], sub, j) <==> OccursAt(s, sub, j) && j + |sub| <= n
  {
    forall j
      ensures OccursAt(s[..n], sub, j) <==> OccursAt(s, sub, j) && j + |sub| <= n
    {
      if 0 <= j && j + |sub| <= n {
        assert s[..n][j..j + |sub|] == s[j..j + |sub|];
      }
    }
  }

  /** An occurrence inside the slice `s[a..b]` is an occurrence in `s`. */
  lemma SliceOccurrence(s: string, sub: string, a: nat, b: nat, j: int)
    requires a <= b <= |s|
    requires OccursAt(s[a..b], sub, j)
    ensures OccursAt(s, sub, a + j)
  {
    forall k | 0 <= k < |sub|
      ensures s[a + j..a + j + |sub|][k] == sub[k]
    {
      assert s[a..b][j..j + |sub|][k] == sub[k];
    }
  }

  /** A slice of a string that does not contain `sub` does not contain it either. */
  lemma {:induction false} NoOccurrenceInSlice(s: string, sub: string, a: nat, b: nat)
    requires a <= b <= |s|
    requires !Contains(s, sub)
    ensures !Contains(s[a..b], sub)
  {
    if Contains(s[a..b], sub) {
      var j :| OccursAt(s[a..b], sub, j);
      SliceOccurrence(s, sub, a, b, j);
    }
  }

  /** The part of `s` before the first `sep` (all of `s` when there is none):
      the first component of Python's `s.partition(sep)`. */
  function Before(s: string, sep: string): (r: string)
    requires |sep| > 0
    ensures r <= s
    ensures forall j :: 0 <= j < |r| ==> !OccursAt(s, sep, j)
    ensures !Contains(r, sep)
    ensures Contains(s, sep) ==> OccursAt(s, sep, |r|)
    ensures !Contains(s, sep) ==> r == s
  {
    match IndexOf(s, sep)
    case Some(i) => PrefixOccurrences(s, i, sep); s[..i]
    case None => s
  }

  /** The part of `s` after the first `sep`: the last component of Python's
      `s.partition(sep)` when `sep` occurs. */
  function After(s: string, sep: string): (r: string)
    requires |sep| > 0 && Contains(s, sep)
    ensures s == Before(s, sep) + sep + r
    ensures |r| < |s|
  {
    var i := |Before(s, sep)|;
    assert s == s[..i] + s[i..i + |sep|] + s[i + |sep|..];
    s[i + |sep|..]
  }

  /** The total length of some strings. */
  function TotalLength(parts: seq<string>): nat
  {
    if |parts| == 0 then 0 else |parts[0]| + TotalLength(parts[1..])
  }

  /** Python's `sep.join(parts)`: the parts in order with one separator
      between each two; it starts with the first part (and ends with the
      last, `JoinEndsWithLast`), and its length is that of the parts plus one
      separator per gap. */
  function Join(parts: seq<string>, sep: string): (r: string)
    ensures |parts| == 0 ==> r == ""
    ensures |parts| > 0 ==> |r| == TotalLength(parts) + (|parts| - 1) * |sep|
    ensures |parts| > 0 ==> parts[0] <= r
    ensures |parts| > 1 ==> parts[0] + sep <= r
  {
    if |parts| == 0 then ""
    else if |parts| == 1 then parts[0]
    else
      var rest := Join(parts[1..], sep);
      var r := parts[0] + sep + rest;
      assert (|parts| - 2) * |sep| + |sep| == (|parts| - 1) * |sep|;
      r
  }

  /** A join ends with its last part. */
  lemma {:induction false} JoinEndsWithLast(parts: seq<string>, sep: string)
    requires |parts| > 0
    ensures var r, last := Join(parts, sep), parts[|parts| - 1];
      |last| <= |r| && r[|r| - |last|..] == last
    decreases |parts|
  {
    if |parts| > 1 {
      var rest, last := Join(parts[1..], sep), parts[|parts| - 1];
      JoinEndsWithLast(parts[1..], sep);
      assert parts[1..][|parts| - 2] == last;
      var r := parts[0] + sep + rest;
      assert r[|r| - |last|..] == rest[|rest| - |last|..];
    }
  }

  /** Joining one more part appends the separator and that part. */
  lemma {:induction false} JoinSnoc(parts: seq<string>, last: string, sep: string)
    requires |parts| > 0
    ensures Join(parts + [last], sep) == Join(parts, sep) + sep + last
    decreases |parts|
  {
    if |parts| == 1 {
      assert (parts + [last])[1..] == [last];
    } else {
      assert (parts + [last])[1..] == parts[1..] + [last];
      JoinSnoc(parts[1..], last, sep);
    }
  }

  /** Python's `s.split(sep)` for a non-empty separator: the pieces between
      successive non-overlapping occurrences, scanning left to right. */
  function Split(s: string, sep: string): (parts: seq<string>)
    requires |sep| > 0
    ensures |parts| >= 1
    ensures parts[0] == Before(s, sep)
    ensures |parts| >= 2 <==> Contains(s, sep)
    ensures Contains(s, sep) ==> parts[1] == Before(After(s, sep), sep)
    ensures forall k :: 0 <= k < |parts| ==> !Contains(parts[k], sep)
    ensures Join(parts, sep) == s
    decreases |s|
  {
    if Contains(s, sep) then
      var rest := Split(After(s, sep), sep);
      assert ([Before(s, sep)] + rest)[1..] == rest;
      [Before(s, sep)] + rest
    else
      [s]
  }

  /** Python's `s.replace(pattern, repl)` for a non-empty `pattern`: every occurrence
      found by a left-to-right scan is replaced, and the scan resumes after
      the replaced text. */
  function Replace(s: string, pattern: string, repl: string): (r: string)
    requires |pattern| > 0
    ensures !Contains(s, pattern) ==> r == s
    ensures |repl| <= |pattern| ==> |r| <= |s|
    decreases |s|
  {
    if Contains(s, pattern) then
      Before(s, pattern) + repl + Replace(After(s, pattern), pattern, repl)
    else
      s
  }

  /** Replacing is splitting at the pattern and joining with the replacement. */
  lemma {:induction false} ReplaceIsSplitJoin(s: string, pattern: string, repl: string)
    requires |pattern| > 0
    ensures Replace(s, pattern, repl) == Join(Split(s, pattern), repl)
    decreases |s|
  {
    if Contains(s, pattern) {
      ReplaceIsSplitJoin(After(s, pattern), pattern, repl);
      assert Split(s, pattern)[1..] == Split(After(s, pattern), pattern);
    }
  }

  /** A string without `sep`, followed by `sep` and anything: its first piece
      is that string and the remainder is what follows. */
  lemma {:induction false} PartitionAt(x: string, sep: string, y: string)
    requires |sep| > 0
    requires !Contains(x + sep[..|sep| - 1], sep)
    ensures Contains(x + sep + y, sep)
    ensures Before(x + sep + y, sep) == x
    ensures After(x + sep + y, sep) == y
  {
    var s := x + sep + y;
    assert s[|x|..|x| + |sep|] == sep;
    assert OccursAt(s, sep, |x|);
    var n := |x| + |sep| - 1;
    assert s[..n] == x + sep[..|sep| - 1];
    PrefixOccurrences(s, n, sep);
    var b := Before(s, sep);
    assert |b| == |x|;
    assert b == s[..|x|] == x;
    var a := After(s, sep);
    assert s == x + sep + a;
    assert a == s[|x| + |sep|..] == y;
  }

  /** Splitting a join recovers the parts, provided no part, together with all
      but the last character of the separator, contains the separator. */
  lemma {:induction false} SplitJoin(parts: seq<string>, sep: string)
    requires |sep| > 0 && |parts| > 0
    requires forall k :: 0 <= k < |parts| ==> !Contains(parts[k] + sep[..|sep| - 1], sep)
    ensures Split(Join(parts, sep), sep) == parts
    decreases |parts|
  {
    if |parts| == 1 {
      NoOccurrenceInSlice(parts[0] + sep[..|sep| - 1], sep, 0, |parts[0]|);
      assert (parts[0] + sep[..|sep| - 1])[0..|parts[0]|] == parts[0];
    } else {
      var rest := Join(parts[1..], sep);
      var s := Join(parts, sep);
      assert s == parts[0] + sep + rest;
      PartitionAt(parts[0], sep, rest);
      assert Split(s, sep) == [parts[0]] + Split(rest, sep);
      var tail := parts[1..];
      forall k | 0 <= k < |tail|
        ensures !Contains(tail[k] + sep[..|sep| - 1], sep)
      {
        assert tail[k] == parts[k + 1];
      }
      SplitJoin(tail, sep);
      assert parts == [parts[0]] + parts[1..];
    }
  }

  /** Python's `str.isspace()` for one character: the code points CPython
      treats as whitespace. */
  predicate IsSpace(c: char)
  {
    || '\U{9}' <= c <= '\U{D}'
    || '\U{1C}' <= c <= '\U{20}'
    || c == '\U{85}' || c == '\U{A0}' || c == '\U{1680}'
    || '\U{2000}' <= c <= '\U{200A}'
    || c == '\U{2028}' || c == '\U{2029}' || c == '\U{202F}' || c == '\U{205F}'
    || c == '\U{3000}'
  }

  predicate AllSpace(s: string)
  {
    forall i :: 0 <= i < |s| ==> IsSpace(s[i])
  }

  /** `r` has no whitespace at either end. */
  predicate Trimmed(r: string)
  {
    r == [] || (!IsSpace(r[0]) && !IsSpace(r[|r| - 1]))
  }

  /** `r` is `s` with only whitespace removed in front (`a` characters) and
      behind. */
  ghost predicate TrimmedSlice(s: string, r: string, a: int)
  {
    0 <= a && a + |r| <= |s| && s[a..a + |r|] == r && AllSpace(s[..a]) && AllSpace(s[a + |r|..])
  }

  /** Python's `s.lstrip()`. */
  function LStrip(s: string): (r: string)
    ensures |r| <= |s| && r == s[|s| - |r|..]
    ensures AllSpace(s[..|s| - |r|])
    ensures r == [] || !IsSpace(r[0])
  {
    if |s| > 0 && IsSpace(s[0]) then
      var r := LStrip(s[1..]);
      assert s[..|s| - |r|] == [s[0]] + s[1..][..|s| - 1 - |r|];
      r
    else
      s
  }

  /** Python's `s.rstrip()`. */
  function RStrip(s: string): (r: string)
    ensures r <= s
    ensures AllSpace(s[|r|..])
    ensures r == [] || !IsSpace(r[|r| - 1])
  {
    if |s| > 0 && IsSpace(s[|s| - 1]) then
      var r := RStrip(s[..|s| - 1]);
      assert s[|r|..] == s[..|s| - 1][|r|..] + [s[|s| - 1]];
      r
    else
      s
  }

  /** Python's `s.strip()`: whitespace removed at both ends. */
  function Strip(s: string): (r: string)
    ensures Trimmed(r)
    ensures exists a :: TrimmedSlice(s, r, a)
  {
    var l := LStrip(s);
    var r := RStrip(l);
    StripSlice(s, l, r);
    r
  }

  /** Removing leading, then trailing whitespace cuts a trimmed slice. */
  lemma StripSlice(s: string, l: string, r: string)
    requires |l| <= |s| && l == s[|s| - |l|..] && AllSpace(s[..|s| - |l|])
    requires l == [] || !IsSpace(l[0])
    requires r <= l && AllSpace(l[|r|..])
    requires r == [] || !IsSpace(r[|r| - 1])
    ensures Trimmed(r) && TrimmedSlice(s, r, |s| - |l|)
  {
    var a := |s| - |l|;
    assert l == s[a..];
    assert s[a..a + |r|] == l[..|r|] == r;
    assert s[a + |r|..] == l[|r|..];
    assert r != [] ==> r[0] == l[0];
  }

  /** Every character of `s` outside `s[a..e]` is whitespace. */
  ghost predicate SpaceOutside(s: string, a: int, e: int)
  {
    forall i :: 0 <= i < |s| && (i < a || e <= i) ==> IsSpace(s[i])
  }

  lemma TrimmedSliceSpaces(s: string, r: string, a: int)
    requires TrimmedSlice(s, r, a)
    ensures SpaceOutside(s, a, a + |r|)
  {
    forall i | 0 <= i < |s| && (i < a || a + |r| <= i)
      ensures IsSpace(s[i])
    {
      if i < a {
        assert s[..a][i] == s[i];
      } else {
        assert s[a + |r|..][i - a - |r|] == s[i];
      }
    }
  }

  /** A string has at most one trimmed core. */
  lemma TrimmedSliceUnique(s: string, r: string, a: int, t: string, b: int)
    requires Trimmed(r) && TrimmedSlice(s, r, a)
    requires Trimmed(t) && TrimmedSlice(s, t, b)
    ensures r == t
  {
    TrimmedSliceSpaces(s, r, a);
    TrimmedSliceSpaces(s, t, b);
    if r != [] {
      assert s[a] == r[0] && s[a + |r| - 1] == r[|r| - 1];
    }
    if t != [] {
      assert s[b] == t[0] && s[b + |t| - 1] == t[|t| - 1];
    }
    if r != [] && t != [] {
      assert a == b && |r| == |t|;
    }
  }

  /** `Strip` removes as much as it may: any trimmed string that `s` equals up
      to surrounding whitespace is `Strip(s)`. */
  lemma StripUnique(s: string, t: string, b: int)
    requires Trimmed(t) && TrimmedSlice(s, t, b)
    ensures t == Strip(s)
  {
    var r := Strip(s);
    var a :| TrimmedSlice(s, r, a);
    TrimmedSliceUnique(s, r, a, t, b);
  }

  /** Stripping twice is stripping once. */
  lemma StripIdempotent(s: string)
    ensures Strip(Strip(s)) == Strip(s)
  {
    var r := Strip(s);
    assert r[0..|r|] == r;
    assert TrimmedSlice(r, r, 0);
    StripUnique(r, r, 0);
  }

  /** Stripping leaves nothing exactly when the string is all whitespace. */
  lemma StripEmpty(s: string)
    ensures Strip(s) == [] <==> AllSpace(s)
  {
    var r := Strip(s);
    var a :| TrimmedSlice(s, r, a);
    if r == [] {
      assert s == s[..a] + s[a..];
    } else {
      assert s[a] == r[0];
    }
  }

  /** Stripping cannot introduce `sub`. */
  lemma StripKeepsAbsence(s: string, sub: string)
    requires !Contains(s, sub)
    ensures !Contains(Strip(s), sub)
  {
    var r := Strip(s);
    var a :| TrimmedSlice(s, r, a);
    NoOccurrenceInSlice(s, sub, a, a + |r|);
    assert s[a..a + |r|] == r;
  }

  /** The upper-case letters `Lower` maps: ASCII `A`-`Z` and fullwidth
      `Ａ`-`Ｚ`. */
  predicate IsUpper(c: char)
  {
    'A' <= c <= 'Z' || '\U{FF21}' <= c <= '\U{FF3A}'
  }

  function LowerChar(c: char): char
  {
    if IsUpper(c) then (c as int + 32) as char else c
  }

  /** Python's `s.lower()`, restricted to the letters of `IsUpper`; in both
      ranges the lower-case letter is 32 code points above the upper-case
      one. */
  function Lower(s: string): (r: string)
    ensures |r| == |s|
    ensures forall i :: 0 <= i < |r| ==> !IsUpper(r[i])
    ensures forall i :: 0 <= i < |s| && !IsUpper(s[i]) ==> r[i] == s[i]
    ensures forall i :: 0 <= i < |s| && IsUpper(s[i]) ==> r[i] as int == s[i] as int + 32
  {
    seq(|s|, i requires 0 <= i < |s| => LowerChar(s[i]))
  }

  /** Lowering twice is lowering once. */
  lemma LowerIdempotent(s: string)
    ensures Lower(Lower(s)) == Lower(s)
  {
  }

  /** A keyword without upper-case letters found in a string is still found,
      at the same place, after lowering it. */
  lemma LowerKeepsKeyword(s: string, kw: string, i: int)
    requires forall k :: 0 <= k < |kw| ==> !IsUpper(kw[k])
    requires OccursAt(s, kw, i)
    ensures OccursAt(Lower(s), kw, i)
  {
    var l := Lower(s);
    forall k | 0 <= k < |kw|
      ensures l[i..i + |kw|][k] == kw[k]
    {
      assert s[i..i + |kw|][k] == kw[k];
    }
  }

  /** Lowering commutes with cutting out a substring: wherever `kw` occurs in
      `s`, its lowered form occurs at the same place in the lowered `s`. */
  lemma LowerOccurrence(s: string, kw: string, i: int)
    requires OccursAt(s, kw, i)
    ensures OccursAt(Lower(s), Lower(kw), i)
  {
    var l, lk := Lower(s), Lower(kw);
    forall k | 0 <= k < |kw|
      ensures l[i..i + |kw|][k] == lk[k]
    {
      assert s[i..i + |kw|][k] == kw[k];
    }
  }

  /** A string lacking the first character of `sub` does not contain it. */
  lemma MissingFirstChar(s: string, sub: string)
    requires |sub| > 0
    requires forall i :: 0 <= i < |s| ==> s[i] != sub[0]
    ensures !Contains(s, sub)
  {
    forall i ensures !OccursAt(s, sub, i) {
      if 0 <= i && i + |sub| <= |s| {
        assert s[i..i + |sub|][0] == s[i];
      }
    }
  }
}
