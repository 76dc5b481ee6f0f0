/** The chat-command patch engine: a fixed, first-match-wins table of keyword
    rules that turns the current deck and one instruction into a new deck. */
module Patch {
  import opened Text
  import opened Slides

  /** Keyword tests; they are made on the lower-cased instruction. Each
      holds exactly when one of its keywords occurs somewhere in it. */
  predicate AsksDelete(p: string): (b: bool)
    ensures b <==> exists i ::
      OccursAt(p, "削除", i) || OccursAt(p, "消して", i) || OccursAt(p, "delete", i)
  {
    Contains(p, "削除") || Contains(p, "消して") || Contains(p, "delete")
  }

  predicate AsksAdd(p: string): (b: bool)
    ensures b <==> exists i :: OccursAt(p, "追加", i) || OccursAt(p, "add", i)
  {
    Contains(p, "追加") || Contains(p, "add")
  }

  /** Both retitle keywords are needed, anywhere and in either order. */
  predicate AsksRetitle(p: string): (b: bool)
    ensures b <==> (exists i :: OccursAt(p, "タイトル", i)) && (exists j :: OccursAt(p, "変更", j))
  {
    Contains(p, "タイトル") && Contains(p, "変更")
  }

  predicate AsksBullet(p: string): (b: bool)
    ensures b <==> exists i :: OccursAt(p, "箇条書き", i) || OccursAt(p, "内容", i)
  {
    Contains(p, "箇条書き") || Contains(p, "内容")
  }

  /** Separator between the old and the new title in a retitle instruction. */
  const Arrow: string := "→"

  /** The slide the add rule appends. */
  const NewSlide: Slide := Slide("新しいスライド", ["内容を編集してください"])

  /** Prefix of the bullet the fallback rule appends. */
  const Marker: string := "💡 "

  /** The five rules. */
  datatype Rule = DeleteLast | AddSlide | Retitle | AddBullet | Annotate

  /** The order in which the rules are tried. */
  const Priority: seq<Rule> := [DeleteLast, AddSlide, Retitle, AddBullet, Annotate]

  /** A rule's own keyword test, regardless of the rules before it; the
      fallback always passes. */
  predicate Fires(rule: Rule, p: string)
  {
    match rule
    case DeleteLast => AsksDelete(p)
    case AddSlide => AsksAdd(p)
    case Retitle => AsksRetitle(p)
    case AddBullet => AsksBullet(p)
    case Annotate => true
  }

  /** The place of a rule in `Priority`. */
  function Rank(rule: Rule): (k: nat)
    ensures k < |Priority| && Priority[k] == rule
  {
    match rule
    case DeleteLast => 0
    case AddSlide => 1
    case Retitle => 2
    case AddBullet => 3
    case Annotate => 4
  }

  /** The rule an instruction selects: the first rule in priority order
      whose keyword test passes, so no earlier rule's test passes. */
  function Route(p: string): (r: Rule)
    ensures Fires(r, p)
    ensures forall k :: 0 <= k < Rank(r) ==> !Fires(Priority[k], p)
  {
    if AsksDelete(p) then DeleteLast
    else if AsksAdd(p) then AddSlide
    else if AsksRetitle(p) then Retitle
    else if AsksBullet(p) then AddBullet
    else Annotate
  }

  /** The new title of a retitle instruction: the text between its first and
      second arrow (or its end), stripped. */
  function RetitlePayload(p: string): (t: string)
    requires Contains(p, Arrow)
    ensures t == Strip(Before(After(p, Arrow), Arrow))
    ensures !Contains(t, Arrow) && Trimmed(t)
  {
    StripKeepsAbsence(Split(p, Arrow)[1], Arrow);
    Strip(Split(p, Arrow)[1])
  }

  /** The new bullet of an add-bullet instruction: the instruction with every
      `箇条書き` and then every `追加` removed, stripped; `内容` is kept. */
  function BulletPayload(p: string): (b: string)
    ensures Trimmed(b)
    ensures b == "" <==> AllSpace(Replace(Replace(p, "箇条書き", ""), "追加", ""))
  {
    StripEmpty(Replace(Replace(p, "箇条書き", ""), "追加", ""));
    Strip(Replace(Replace(p, "箇条書き", ""), "追加", ""))
  }

  /** An instruction parsed into the edit it asks for, with its payload. */
  datatype Command =
    | DropLast
    | AppendSlide
    | SetFirstTitle(title: Option<string>)   // None: no arrow, nothing to set
    | AppendBullet(bullet: string)
    | AppendNote(note: string)

  /** The rule a command carries out. */
  function Kind(c: Command): Rule
  {
    match c
    case DropLast => DeleteLast
    case AppendSlide => AddSlide
    case SetFirstTitle(_) => Retitle
    case AppendBullet(_) => AddBullet
    case AppendNote(_) => Annotate
  }

  /** The command of a rule: its payload is cut from the lower-cased
      instruction `p`, except the fallback note, which keeps the instruction
      as typed. */
  function Select(rule: Rule, p: string, typed: string): (c: Command)
    ensures Kind(c) == rule
    ensures c.SetFirstTitle? ==> (c.title.Some? <==> Contains(p, Arrow))
    ensures c.SetFirstTitle? && c.title.Some? ==>
      c.title.value == Strip(Before(After(p, Arrow), Arrow))
      && !Contains(c.title.value, Arrow) && Trimmed(c.title.value)
    ensures c.AppendBullet? ==>
      c.bullet == Strip(Replace(Replace(p, "箇条書き", ""), "追加", "")) && Trimmed(c.bullet)
    ensures c.AppendNote? ==> c.note == Marker + typed
  {
    match rule
    case DeleteLast => DropLast
    case AddSlide => AppendSlide
    case Retitle => SetFirstTitle(if Contains(p, Arrow) then Some(RetitlePayload(p)) else None)
    case AddBullet => AppendBullet(BulletPayload(p))
    case Annotate => AppendNote(Marker + typed)
  }

  /** An instruction parsed into the edit it asks for: the command of the
      rule the lower-cased instruction routes to, with a title only when an
      arrow is present, and with payloads cut from the lower-cased text. */
  function Parse(prompt: string): (c: Command)
    ensures Kind(c) == Route(Lower(prompt))
    ensures c.SetFirstTitle? ==> (c.title.Some? <==> Contains(Lower(prompt), Arrow))
    ensures c.SetFirstTitle? && c.title.Some? ==>
      c.title.value == Strip(Before(After(Lower(prompt), Arrow), Arrow))
    ensures c.AppendBullet? ==>
      c.bullet == Strip(Replace(Replace(Lower(prompt), "箇条書き", ""), "追加", ""))
    ensures c.AppendNote? ==> c.note == Marker + prompt
  {
    Select(Route(Lower(prompt)), Lower(prompt), prompt)
  }

  /** The deck with a new title on its first slide. */
  function WithFirstTitle(slides: seq<Slide>, title: string): (r: seq<Slide>)
    requires |slides| > 0
    ensures |r| == |slides| && r[1..] == slides[1..]
    ensures r[0] == Slide(title, slides[0].bullets)
    ensures BulletsKept(slides, r)
  {
    var r := [Slide(title, slides[0].bullets)] + slides[1..];
    assert forall i :: 0 < i < |r| ==> r[i] == slides[i];
    r
  }

  /** The deck with one more bullet on its last slide. */
  function AppendToLast(slides: seq<Slide>, bullet: string): (r: seq<Slide>)
    requires |slides| > 0
    ensures |r| == |slides|
    ensures r[..|r| - 1] == slides[..|slides| - 1]
    ensures r[|r| - 1].title == slides[|slides| - 1].title
    ensures r[|r| - 1].bullets == slides[|slides| - 1].bullets + [bullet]
    ensures TitlesKept(slides, r) && BulletsKept(slides, r)
  {
    var last := slides[|slides| - 1];
    slides[..|slides| - 1] + [Slide(last.title, last.bullets + [bullet])]
  }

  /** Every slide kept in place keeps its title. */
  predicate TitlesKept(s: seq<Slide>, r: seq<Slide>)
  {
    forall i :: 0 <= i < |s| && i < |r| ==> r[i].title == s[i].title
  }

  /** Every slide kept in place keeps its bullets, with at most one added. */
  predicate BulletsKept(s: seq<Slide>, r: seq<Slide>)
  {
    forall i :: 0 <= i < |s| && i < |r| ==>
      |s[i].bullets| <= |r[i].bullets| <= |s[i].bullets| + 1
      && r[i].bullets[..|s[i].bullets|] == s[i].bullets
  }

  /** A deck that agrees with `s` wherever both have a slide keeps all titles
      and bullets. */
  lemma AgreeingKeeps(s: seq<Slide>, r: seq<Slide>)
    requires forall i :: 0 <= i < |s| && i < |r| ==> r[i] == s[i]
    ensures TitlesKept(s, r) && BulletsKept(s, r)
  {
  }

  /** The effect of a command on the deck, with each rule's size guard:
      deleting needs two slides, retitling one, adding a bullet two and a
      non-empty bullet, and the fallback note one. */
  function Run(c: Command, slides: seq<Slide>): (r: seq<Slide>)
    ensures |r| == |slides| + 1 <==> c.AppendSlide?
    ensures |r| == |slides| - 1 <==> c.DropLast? && |slides| > 1
    ensures |slides| - 1 <= |r| <= |slides| + 1
    ensures |slides| > 0 ==> |r| > 0
    ensures |slides| == 0 ==> r == [] || r == [NewSlide]
    ensures |r| > |slides| ==> r[..|slides|] == slides
    ensures |r| < |slides| ==> r == slides[..|r|]
    ensures |r| == |slides| > 0 ==> r[1..] == slides[1..] || r[..|r| - 1] == slides[..|r| - 1]
    ensures !c.SetFirstTitle? ==> TitlesKept(slides, r)
    ensures BulletsKept(slides, r)
  {
    match c
    case DropLast =>
      var r := if |slides| > 1 then slides[..|slides| - 1] else slides;
      AgreeingKeeps(slides, r);
      r
    case AppendSlide =>
      var r := slides + [NewSlide];
      AgreeingKeeps(slides, r);
      r
    case SetFirstTitle(title) =>
      if |slides| > 0 && title.Some? then WithFirstTitle(slides, title.value)
      else
        AgreeingKeeps(slides, slides);
        slides
    case AppendBullet(bullet) =>
      if |slides| > 1 && bullet != "" then AppendToLast(slides, bullet)
      else
        AgreeingKeeps(slides, slides);
        slides
    case AppendNote(note) =>
      if |slides| > 0 then AppendToLast(slides, note) else slides
  }

  /** `patch_slides`: applies the first rule whose keywords the lower-cased
      instruction contains. Only the add rule lengthens the deck and only the
      delete rule shortens it, by one slide each; a non-empty deck never
      becomes empty; an empty deck only ever becomes the single new slide; at
      most one slide, the first or the last, is edited; only a retitle changes
      a title, and bullets are only ever appended, one at a time. */
  function PatchSlides(req: PatchRequest): (r: SlidesState)
    ensures |r.slides| == |req.slides| + 1 <==> !AsksDelete(Lower(req.prompt)) && AsksAdd(Lower(req.prompt))
    ensures |r.slides| == |req.slides| - 1 <==> AsksDelete(Lower(req.prompt)) && |req.slides| > 1
    ensures |req.slides| - 1 <= |r.slides| <= |req.slides| + 1
    ensures |req.slides| > 0 ==> |r.slides| > 0
    ensures |req.slides| == 0 ==> r.slides == [] || r.slides == [NewSlide]
    ensures |r.slides| > |req.slides| ==> r.slides[..|req.slides|] == req.slides
    ensures |r.slides| < |req.slides| ==> r.slides == req.slides[..|r.slides|]
    ensures |r.slides| == |req.slides| > 0 ==>
      r.slides[1..] == req.slides[1..] || r.slides[..|r.slides| - 1] == req.slides[..|r.slides| - 1]
    ensures Route(Lower(req.prompt)) != Retitle ==> TitlesKept(req.slides, r.slides)
    ensures BulletsKept(req.slides, r.slides)
  {
    SlidesState(Run(Parse(req.prompt), req.slides))
  }

  /** Delete rule: the last slide goes, unless it is the only one (or there
      is none). */
  lemma PatchDeletes(s: seq<Slide>, prompt: string)
    requires AsksDelete(Lower(prompt))
    ensures var r := PatchSlides(PatchRequest(s, prompt)).slides;
      && (|s| > 1 ==> r == s[..|s| - 1])
      && (|s| <= 1 ==> r == s)
  {
  }

  /** Add rule: exactly the fixed new slide is appended. */
  lemma PatchAdds(s: seq<Slide>, prompt: string)
    requires !AsksDelete(Lower(prompt)) && AsksAdd(Lower(prompt))
    ensures PatchSlides(PatchRequest(s, prompt)).slides == s + [NewSlide]
  {
  }

  /** Setting a title replaces the first slide's title and nothing else. */
  lemma RunSetsTitle(s: seq<Slide>, t: string)
    requires |s| > 0
    ensures var r := Run(SetFirstTitle(Some(t)), s);
      |r| == |s| && r[1..] == s[1..] && r[0] == Slide(t, s[0].bullets)
  {
  }

  /** Retitle rule: on a non-empty deck with an arrow in the instruction, the
      first slide's title becomes the stripped text between the first arrow
      and the next one (or the end) of the lower-cased instruction, a title
      that has no arrow and no surrounding whitespace; nothing else changes.
      Otherwise the deck is returned as it was. */
  lemma PatchRetitles(s: seq<Slide>, prompt: string)
    requires var p := Lower(prompt); !AsksDelete(p) && !AsksAdd(p) && AsksRetitle(p)
    ensures var p, r := Lower(prompt), PatchSlides(PatchRequest(s, prompt)).slides;
      if |s| > 0 && Contains(p, Arrow) then
        && |r| == |s| && r[1..] == s[1..]
        && r[0].bullets == s[0].bullets
        && r[0].title == Strip(Before(After(p, Arrow), Arrow))
        && !Contains(r[0].title, Arrow) && Trimmed(r[0].title)
      else
        r == s
  {
    var p := Lower(prompt);
    var c := Parse(prompt);
    assert c == Select(Retitle, p, prompt);
    assert PatchSlides(PatchRequest(s, prompt)).slides == Run(c, s);
    if Contains(p, Arrow) {
      var t := RetitlePayload(p);
      assert c == SetFirstTitle(Some(t));
      if |s| > 0 {
        RunSetsTitle(s, t);
      }
    } else {
      assert c == SetFirstTitle(None);
    }
  }

  /** Add-bullet rule: on a deck of two or more slides, when the instruction
      with `箇条書き` and `追加` removed is not all whitespace, that text,
      stripped, is appended to the last slide's bullets. Otherwise the deck
      is returned as it was. */
  lemma PatchAddsBullet(s: seq<Slide>, prompt: string)
    requires var p := Lower(prompt);
      !AsksDelete(p) && !AsksAdd(p) && !AsksRetitle(p) && AsksBullet(p)
    ensures var p, r := Lower(prompt), PatchSlides(PatchRequest(s, prompt)).slides;
      var rest := Replace(Replace(p, "箇条書き", ""), "追加", "");
      if |s| > 1 && !AllSpace(rest) then
        && |r| == |s| && r[..|s| - 1] == s[..|s| - 1]
        && r[|s| - 1] == Slide(s[|s| - 1].title, s[|s| - 1].bullets + [Strip(rest)])
      else
        r == s
  {
    var p := Lower(prompt);
    var b := BulletPayload(p);
    assert Parse(prompt) == Select(AddBullet, p, prompt) == AppendBullet(b);
    var r := Run(AppendBullet(b), s);
    assert PatchSlides(PatchRequest(s, prompt)).slides == r;
    if |s| > 1 && b != "" {
      assert r == AppendToLast(s, b);
      assert r[|s| - 1] == Slide(s[|s| - 1].title, s[|s| - 1].bullets + [b]);
    }
  }

  /** Fallback rule: on a non-empty deck the last slide gains one bullet, the
      marker followed by the instruction as typed (not lower-cased); an empty
      deck stays empty. */
  lemma PatchAnnotates(s: seq<Slide>, prompt: string)
    requires var p := Lower(prompt);
      !AsksDelete(p) && !AsksAdd(p) && !AsksRetitle(p) && !AsksBullet(p)
    ensures var r := PatchSlides(PatchRequest(s, prompt)).slides;
      if |s| > 0 then
        && |r| == |s| && r[..|s| - 1] == s[..|s| - 1]
        && r[|s| - 1] == Slide(s[|s| - 1].title, s[|s| - 1].bullets + ["💡 " + prompt])
      else
        r == []
  {
  }

  /** The English delete keyword is matched in any letter case: `DELETE`,
      `Delete` and the like route the instruction to the delete rule. */
  lemma DeleteAnyCase(prompt: string, kw: string, i: int)
    requires Lower(kw) == "delete" && OccursAt(prompt, kw, i)
    ensures Route(Lower(prompt)) == DeleteLast
  {
    LowerOccurrence(prompt, kw, i);
  }

  /** The English add keyword is matched in any letter case, when no delete
      keyword comes first. */
  lemma AddAnyCase(prompt: string, kw: string, i: int)
    requires !AsksDelete(Lower(prompt))
    requires Lower(kw) == "add" && OccursAt(prompt, kw, i)
    ensures Route(Lower(prompt)) == AddSlide
  {
    LowerOccurrence(prompt, kw, i);
  }

  /** The delete rule ignores which slide the instruction names: asking to
      delete the second slide removes the last one. */
  lemma NumberedDeleteDropsLast(s: seq<Slide>)
    requires |s| > 1
    ensures PatchSlides(PatchRequest(s, "2番目のスライドを削除して")).slides == s[..|s| - 1]
  {
    var prompt := "2番目のスライドを削除して";
    assert prompt[9..11] == "削除";
    LowerKeepsKeyword(prompt, "削除", 9);
    PatchDeletes(s, prompt);
  }

  /** The new title is cut from the lower-cased instruction, so its letters
      arrive in lower case: `タイトル変更→NEW` sets the title `new`. */
  lemma RetitleLowersTitle(s: seq<Slide>)
    requires |s| > 0
    ensures PatchSlides(PatchRequest(s, "タイトル変更→NEW")).slides[0].title == "new"
  {
    var prompt := "タイトル変更→NEW";
    var p := "タイトル変更→new";
    assert Lower(prompt) == p;
    RoutesToRetitle(p);
    PatchRetitles(s, prompt);
    ExamplePayload(p);
  }

  /** `タイトル変更→new` passes the retitle test and no earlier one. */
  lemma RoutesToRetitle(p: string)
    requires p == "タイトル変更→new"
    ensures !AsksDelete(p) && !AsksAdd(p) && AsksRetitle(p) && Contains(p, Arrow)
  {
    assert OccursAt(p, "タイトル", 0) && OccursAt(p, "変更", 4) && OccursAt(p, Arrow, 6);
    MissingFirstChar(p, "削除");
    MissingFirstChar(p, "消して");
    MissingFirstChar(p, "delete");
    MissingFirstChar(p, "追加");
    MissingFirstChar(p, "add");
  }

  /** The title cut from `タイトル変更→new` is `new`. */
  lemma ExamplePayload(p: string)
    requires p == "タイトル変更→new"
    ensures Contains(p, Arrow) && Strip(Before(After(p, Arrow), Arrow)) == "new"
  {
    var x, y := "タイトル変更", "new";
    MissingFirstChar(x, Arrow);
    assert x + Arrow[..0] == x;
    assert p == x + Arrow + y;
    PartitionAt(x, Arrow, y);
    MissingFirstChar(y, Arrow);
    assert TrimmedSlice(y, y, 0) by {
      assert y[0..3] == y && y[..0] == [] && y[3..] == [];
    }
    StripUnique(y, y, 0);
  }
}
