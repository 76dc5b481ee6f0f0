/** The deterministic text handling around the language-model call of
    `generate_slides_with_llm`: the sections are serialised into the request
    text, and the reply is cut out of a Markdown code fence before parsing. */
module Generation {
  import opened Text
  import opened Slides

  /** Separator between two serialised sections. */
  const Gap: string := "\n\n"

  /** One section as it appears in the request: `【title】`, a line break,
      then the content. */
  function Block(s: Section): (b: string)
    ensures |b| == |s.title| + |s.content| + 3
    ensures b[0] == '【' && b[1..|s.title| + 1] == s.title
    ensures b[|s.title| + 1..|s.title| + 3] == "】\n"
    ensures b[|s.title| + 3..] == s.content
  {
    "【" + s.title + "】\n" + s.content
  }

  function Blocks(sections: seq<Section>): (bs: seq<string>)
    ensures |bs| == |sections|
    ensures forall i :: 0 <= i < |sections| ==> bs[i] == Block(sections[i])
  {
    seq(|sections|, i requires 0 <= i < |sections| => Block(sections[i]))
  }

  /** `sections_text`: the blocks of all sections, in order, separated by a
      blank line. No sections give the empty text, one section gives its
      block alone, and each further section adds the separator and its
      block at the end. */
  function SectionsText(sections: seq<Section>): (r: string)
    ensures |sections| == 0 ==> r == ""
    ensures |sections| == 1 ==> r == Block(sections[0])
    ensures |sections| > 1 ==>
      r == SectionsText(sections[..|sections| - 1]) + Gap + Block(sections[|sections| - 1])
  {
    var bs := Blocks(sections);
    if |sections| > 1 then
      var init := sections[..|sections| - 1];
      assert bs == Blocks(init) + [Block(sections[|sections| - 1])];
      JoinSnoc(Blocks(init), Block(sections[|sections| - 1]), Gap);
      Join(bs, Gap)
    else
      Join(bs, Gap)
  }

  /** A section whose block can be found again in the text: its title holds
      no `】` directly followed by a line break and no blank line, and its
      content is non-empty, holds no blank line and neither starts nor ends
      with a line break. */
  predicate Recoverable(s: Section)
  {
    && !Contains(s.title, "】\n")
    && !Contains(s.title, Gap)
    && |s.content| > 0
    && s.content[0] != '\n'
    && s.content[|s.content| - 1] != '\n'
    && !Contains(s.content, Gap)
  }

  /** Reads one block back: `【`, the title up to the first `】` and line
      break, then the content. */
  function ParseBlock(b: string): Option<Section>
  {
    if |b| > 0 && b[0] == '【' && Contains(b[1..], "】\n") then
      Some(Section(Before(b[1..], "】\n"), After(b[1..], "】\n")))
    else
      None
  }

  function ParseBlocks(bs: seq<string>): Option<seq<Section>>
  {
    if |bs| == 0 then Some([])
    else
      match (ParseBlock(bs[0]), ParseBlocks(bs[1..]))
      case (Some(s), Some(rest)) => Some([s] + rest)
      case _ => None
  }

  /** Reads a serialised request text back into its sections. */
  function ParseSectionsText(text: string): Option<seq<Section>>
  {
    if text == "" then Some([]) else ParseBlocks(Split(text, Gap))
  }

  /** `s` has no two consecutive characters `x`, `y`. */
  predicate NoPair(s: string, x: char, y: char)
  {
    forall i :: 0 <= i < |s| - 1 ==> !(s[i] == x && s[i + 1] == y)
  }

  lemma NoPairContains(s: string, x: char, y: char)
    ensures NoPair(s, x, y) <==> !Contains(s, [x, y])
  {
    if !NoPair(s, x, y) {
      var i :| 0 <= i < |s| - 1 && s[i] == x && s[i + 1] == y;
      assert OccursAt(s, [x, y], i);
    }
    if Contains(s, [x, y]) {
      var i :| OccursAt(s, [x, y], i);
      assert s[i..i + 2][0] == s[i] && s[i..i + 2][1] == s[i + 1];
    }
  }

  /** A pair occurs in a concatenation only inside one part or across the
      joint. */
  lemma NoPairConcat(a: string, b: string, x: char, y: char)
    requires NoPair(a, x, y) && NoPair(b, x, y)
    requires |a| > 0 && |b| > 0 ==> !(a[|a| - 1] == x && b[0] == y)
    ensures NoPair(a + b, x, y)
  {
    forall i | 0 <= i < |a + b| - 1
      ensures !((a + b)[i] == x && (a + b)[i + 1] == y)
    {
      if i + 1 < |a| {
        assert (a + b)[i] == a[i] && (a + b)[i + 1] == a[i + 1];
      } else if i >= |a| {
        assert (a + b)[i] == b[i - |a|] && (a + b)[i + 1] == b[i - |a| + 1];
      }
    }
  }

  /** The block of a recoverable section, followed by a line break, has no
      blank line; so the first blank line after a block is the separator. */
  lemma BlockSeparable(s: Section)
    requires Recoverable(s)
    ensures !Contains(Block(s) + Gap[..|Gap| - 1], Gap)
  {
    NoPairContains(s.title, '\n', '\n');
    NoPairContains(s.content, '\n', '\n');
    var open, close := "【", "】\n";
    NoPairConcat(open, s.title, '\n', '\n');
    NoPairConcat(open + s.title, close, '\n', '\n');
    NoPairConcat(open + s.title + close, s.content, '\n', '\n');
    NoPairConcat(open + s.title + close + s.content, "\n", '\n', '\n');
    assert Block(s) + Gap[..|Gap| - 1] == open + s.title + close + s.content + "\n";
    NoPairContains(Block(s) + Gap[..|Gap| - 1], '\n', '\n');
  }

  /** A section whose title has no `】` followed by a line break is read
      back from its block. */
  lemma ParseBlockInverse(s: Section)
    requires !Contains(s.title, "】\n")
    ensures ParseBlock(Block(s)) == Some(s)
  {
    var b := Block(s);
    assert b[1..] == s.title + "】\n" + s.content;
    NoPairContains(s.title, '】', '\n');
    NoPairConcat(s.title, "】", '】', '\n');
    NoPairContains(s.title + "】", '】', '\n');
    assert "】\n"[..1] == "】";
    PartitionAt(s.title, "】\n", s.content);
  }

  /** Dropping the first section drops the first block. */
  lemma BlocksTail(sections: seq<Section>)
    requires |sections| > 0
    ensures Blocks(sections)[0] == Block(sections[0])
    ensures Blocks(sections)[1..] == Blocks(sections[1..])
  {
  }

  lemma {:induction false} ParseBlocksInverse(sections: seq<Section>)
    requires forall i :: 0 <= i < |sections| ==> Recoverable(sections[i])
    ensures ParseBlocks(Blocks(sections)) == Some(sections)
    decreases |sections|
  {
    if |sections| > 0 {
      var bs, tail := Blocks(sections), sections[1..];
      assert sections == [sections[0]] + tail;
      assert Recoverable(sections[0]);
      ParseBlockInverse(sections[0]);
      BlocksTail(sections);
      assert forall i :: 0 <= i < |tail| ==> Recoverable(tail[i]);
      ParseBlocksInverse(tail);
      assert ParseBlock(bs[0]) == Some(sections[0]);
      assert ParseBlocks(bs[1..]) == Some(tail);
    }
  }

  /** The serialisation loses nothing for recoverable sections: reading the
      text back gives the same sections in the same order. */
  lemma {:induction false} SectionsTextRoundTrip(sections: seq<Section>)
    requires forall i :: 0 <= i < |sections| ==> Recoverable(sections[i])
    ensures ParseSectionsText(SectionsText(sections)) == Some(sections)
  {
    if |sections| > 0 {
      var bs := Blocks(sections);
      forall k | 0 <= k < |bs|
        ensures !Contains(bs[k] + Gap[..|Gap| - 1], Gap)
      {
        BlockSeparable(sections[k]);
      }
      SplitJoin(bs, Gap);
      assert SectionsText(sections) == Join(bs, Gap);
      assert |Join(bs, Gap)| > 0 by {
        assert bs[0] <= Join(bs, Gap);
      }
      ParseBlocksInverse(sections);
    }
  }

  /** Opening fence of a fenced JSON reply. */
  const JsonFence: string := "```json"

  /** A bare Markdown code fence. */
  const Fence: string := "```"

  /** A ```` ```json ```` fence is also a bare fence. */
  lemma JsonFenceIsFence(content: string)
    requires Contains(content, JsonFence)
    ensures Contains(content, Fence)
  {
    var i := |Before(content, JsonFence)|;
    assert content[i..i + 3] == content[i..i + 7][..3];
    assert OccursAt(content, Fence, i);
  }

  /** The text of a fenced piece up to its first fence, trimmed. */
  function CutAtFence(piece: string): (r: string)
    ensures r == Strip(Before(piece, Fence))
    ensures !Contains(r, Fence) && Trimmed(r)
  {
    StripKeepsAbsence(Before(piece, Fence), Fence);
    Strip(Split(piece, Fence)[0])
  }

  /** The reply with its code fence removed: after a ```` ```json ```` fence,
      the text up to the next fence; otherwise, between the first two bare
      fences; both trimmed. A reply without any fence is returned untouched,
      untrimmed. */
  function ExtractFenced(content: string): (r: string)
    ensures !Contains(content, Fence) ==> r == content
    ensures Contains(content, Fence) ==> !Contains(r, Fence) && Trimmed(r)
    ensures Contains(content, Fence) && !Contains(content, JsonFence) ==>
      r == Strip(Before(After(content, Fence), Fence))
  {
    if Contains(content, JsonFence) then
      JsonFenceIsFence(content);
      CutAtFence(Split(content, JsonFence)[1])
    else if Contains(content, Fence) then
      CutAtFence(Split(content, Fence)[1])
    else
      content
  }

  /** A fence that starts before a ```` ```json ```` ends before it, unless
      a fourth backtick precedes that ```` ```json ````. */
  lemma FenceBeforeJson(t: string, j: int, k: int)
    requires OccursAt(t, Fence, j) && OccursAt(t, JsonFence, k) && j < k
    ensures j + |Fence| <= k || OccursAt(t, "````json", k - 1)
  {
    if k < j + 3 {
      assert t[k - 1] == t[j..j + 3][k - 1 - j] == '`';
      assert t[k..k + 7] == JsonFence;
      assert t[k - 1..k + 7] == ['`'] + JsonFence == "````json";
    }
  }

  /** Cutting at the next ```` ```json ```` and then at the next fence is the
      same as cutting at the next fence, unless a ```` ```json ```` there is
      preceded by a fourth backtick: then the first cut can split a fence. */
  lemma BeforeJsonThenFence(t: string)
    requires !Contains(t, "````json")
    ensures Before(Before(t, JsonFence), Fence) == Before(t, Fence)
  {
    var u := Before(t, JsonFence);
    var k := |u|;
    if Contains(t, JsonFence) {
      assert OccursAt(t, Fence, k) by {
        assert t[k..k + 3] == t[k..k + 7][..3];
      }
      var v := Before(t, Fence);
      var j := |v|;
      if j < k {
        FenceBeforeJson(t, j, k);
      }
      PrefixOccurrences(t, k, Fence);
      var w := Before(u, Fence);
      if j + 3 <= k {
        assert OccursAt(u, Fence, j);
      } else {
        assert !Contains(u, Fence);
      }
      assert |w| == j;
    }
  }

  /** The ```` ```json ```` branch yields the trimmed text between the first
      ```` ```json ```` and the next fence, provided no ```` ```json ```` after
      it is preceded by a fourth backtick. */
  lemma JsonFenceBody(content: string)
    requires Contains(content, JsonFence)
    requires !Contains(After(content, JsonFence), "````json")
    ensures ExtractFenced(content) == Strip(Before(After(content, JsonFence), Fence))
  {
    BeforeJsonThenFence(After(content, JsonFence));
  }
}
