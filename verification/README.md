# Slide builder core: patch engine and request text handling

The slide builder is a small web service. An applicant's written sections go
in, and it drafts a presentation deck (a sequence of slides, each a title and
bullet lines). The deck can then be edited with short chat instructions and
exported. This project models the service's deterministic core in Dafny:

- **Slides** (`slides.dfy`): the records the core works on: `Section`,
  `Slide`, `SlidesState` and the patch request.
- **Text** (`text.dfy`): the Python string operations the core relies on,
  written out over `seq<char>`:
  - `in` is `Contains`, built on a first-occurrence search;
  - `partition`, `split` and `replace` are built on `Before`/`After`;
  - `join` is a plain recursion over the parts;
  - `strip` uses the exact whitespace set of Python's `str.isspace`;
  - `lower` covers ASCII and fullwidth Latin capitals.
- **Patch** (`patch.dfy`): the chat-command engine `patch_slides`. It is
  a fixed, first-match-wins table of keyword rules over the lower-cased
  instruction, structured in three steps:
  1. `Route` chooses the rule: the first, in the fixed order `Priority`,
     whose keyword test passes.
  2. `Select`/`Parse` turn the rule into a `Command` carrying its payload.
  3. `Run` applies the command under each rule's size guard.
- **Generation** (`generation.dfy`): the two pure text steps around the
  language-model call. The sections are serialised into the request text
  (`【title】` + line break + content, joined by a blank line). The reply is
  cut out of a Markdown code fence (```` ```json ```` first, then a bare
  ```` ``` ````) before it is parsed.

The model is functional: a deck goes in and a new deck comes out.

Behaviour of the code a reader may not expect, kept as written:
- Both payloads are cut from the lower-cased instruction, so they arrive
  lower-cased. This applies to the new title of a retitle and to the new
  bullet of an add-bullet instruction (`Patch.RetitleLowersTitle` shows
  `タイトル変更→NEW` producing the title `new`).
- The fallback bullet keeps the instruction as typed.
- A new title may be empty, for example after `タイトル変更→`.
- The delete rule always removes the last slide, whatever slide the
  instruction names (`Patch.NumberedDeleteDropsLast`).
- The retitle rule takes only the text between the first and the second
  arrow, not everything after the first arrow.
- An instruction that has both retitle keywords but no arrow is still
  claimed by the retitle rule. It leaves the deck unchanged and never falls
  through to the add-bullet rule.
- The add rule makes an empty deck non-empty. It is the only rule that does
  not degrade to a no-op on an empty deck.
- The add-bullet rule removes `箇条書き` and `追加` from the instruction,
  not the keyword that matched: `内容` stays in the bullet text.

## Model

| member | source | states |
|---|---|---|
| Text.IndexOf | main.py:199-199 | the position of the first occurrence of a substring, or none when it does not occur at all |
| Text.Contains | main.py:199-199 | Python's `in`: true exactly when the substring occurs at some position |
| Text.Before | main.py:214-214 | the text before the first separator is a prefix that contains no separator; the separator follows it; without a separator it is the whole string |
| Text.After | main.py:214-214 | the string is the part before the separator, then the separator, then this part |
| Text.Split | main.py:214-214 | Python's `split`: the first piece is the text before the first separator; there are two or more pieces exactly when the separator occurs; the second piece runs up to the next separator; no piece contains the separator; joining the pieces gives back the string |
| Text.Join | main.py:88-88 | Python's `join`: no parts give the empty string; otherwise it starts with the first part (followed by the separator when there are more), and its length is the parts' total plus one separator per gap |
| Text.JoinEndsWithLast | main.py:88-88 | a join ends with its last part |
| Text.SplitJoin | main.py:88-91 | splitting a join at its separator gives back the parts, when no part (with the separator's first characters appended) contains the separator |
| Text.Replace | main.py:220-220 | Python's `replace`: a string without the pattern is unchanged; replacing with shorter text never lengthens the string |
| Text.ReplaceIsSplitJoin | main.py:220-220 | replacing every occurrence is splitting at the pattern and joining with the replacement |
| Text.Strip | main.py:214-214 | Python's `strip`: the result has no whitespace at either end and is a slice of the input with only whitespace cut off on both sides |
| Text.StripUnique | main.py:214-214 | any slice of the input with only whitespace around it and none at its own ends is the stripped string |
| Text.StripIdempotent | main.py:214-214 | stripping twice is stripping once |
| Text.StripEmpty | main.py:220-221 | the stripped string is empty exactly when the input is all whitespace |
| Text.StripKeepsAbsence | main.py:214-214 | stripping cannot create a substring that the input lacks |
| Text.Lower | main.py:196-196 | the lowered string has the same length and no capitals; capitals move 32 code points up, every other character is kept |
| Text.LowerIdempotent | main.py:196-196 | lowering twice is lowering once |
| Text.LowerOccurrence | main.py:196-199 | wherever a text occurs in the instruction, its lowered form occurs at the same place in the lowered instruction |
| Text.LowerKeepsKeyword | main.py:196-199 | a keyword without capitals found in the instruction is still found at the same place after lowering |
| Patch.AsksDelete | main.py:199-199 | the delete test holds exactly when `削除`, `消して` or `delete` occurs somewhere in the lower-cased instruction |
| Patch.AsksAdd | main.py:204-204 | the add test holds exactly when `追加` or `add` occurs somewhere |
| Patch.AsksRetitle | main.py:211-211 | the retitle test needs both `タイトル` and `変更`, each anywhere |
| Patch.AsksBullet | main.py:217-217 | the add-bullet test holds exactly when `箇条書き` or `内容` occurs somewhere |
| Patch.Route | main.py:199-224 | the chosen rule is the first in the fixed order delete, add, retitle, add-bullet, fallback whose test passes: its own test passes and no earlier rule's does |
| Patch.DeleteAnyCase | main.py:196-199 | `delete` written in any letter case (`DELETE`, `Delete`, ...) routes the instruction to the delete rule |
| Patch.AddAnyCase | main.py:196-204 | `add` in any letter case routes to the add rule when no delete keyword is present |
| Patch.RetitlePayload | main.py:214-214 | the new title is the stripped text between the first and the next arrow; it contains no arrow and is trimmed |
| Patch.BulletPayload | main.py:220-221 | the new bullet is trimmed, and it is empty exactly when the instruction without `箇条書き` and `追加` is all whitespace |
| Patch.Select | main.py:198-227 | a rule's command is the command of that rule; it carries a title exactly when the text has an arrow (the stripped text between the first two arrows, arrow-free and trimmed), the stripped text without `箇条書き` and `追加` as its bullet, or the marker followed by the instruction as typed |
| Patch.Parse | main.py:196-227 | an instruction parses to the command of the rule its lower-cased form routes to, with the title and bullet cut from the lower-cased text and the note built from the text as typed |
| Patch.WithFirstTitle | main.py:213-215 | only the first slide's title changes: same length, same later slides, same first bullets |
| Patch.AppendToLast | main.py:222-227 | only the last slide changes, gaining exactly the given bullet at the end; all titles and earlier bullets are kept |
| Patch.Run | main.py:198-227 | a command adds a slide only if it is the add command and removes one only if it is the delete command on two or more slides; the length moves by at most one; a non-empty deck stays non-empty and an empty deck becomes empty or the single new slide; at most the first or the last slide is edited; only retitling changes titles; bullets are only appended, one at most |
| Patch.PatchSlides | main.py:189-229 | the same frame for the whole engine in terms of the instruction: it grows by one exactly when the add keywords fire and no delete keyword does; it shrinks by one exactly when a delete keyword fires on two or more slides; titles change only when the retitle rule is routed |
| Patch.PatchDeletes | main.py:199-202 | with a delete keyword the last slide is removed when there are two or more, and the deck is unchanged otherwise |
| Patch.PatchAdds | main.py:204-209 | with an add keyword and no delete keyword exactly the placeholder slide is appended |
| Patch.RunSetsTitle | main.py:213-215 | setting a title on a non-empty deck replaces the first title and nothing else |
| Patch.PatchRetitles | main.py:211-215 | when the retitle rule fires on a non-empty deck and an arrow is present, the first title becomes the stripped text between the first two arrows of the lower-cased instruction and nothing else changes; otherwise the deck is unchanged |
| Patch.PatchAddsBullet | main.py:217-222 | when the add-bullet rule fires on two or more slides and the instruction without `箇条書き`/`追加` is not all whitespace, that text, stripped, is appended to the last slide; otherwise the deck is unchanged |
| Patch.PatchAnnotates | main.py:224-227 | when no keyword fires, a non-empty deck's last slide gains the marker followed by the instruction as typed, and an empty deck stays empty |
| Patch.NumberedDeleteDropsLast | main.py:199-202 | asking to delete the second slide removes the last slide of any deck with two or more slides |
| Patch.RetitleLowersTitle | main.py:196-215 | `タイトル変更→NEW` sets the first title to the lower-cased `new` |
| Patch.RoutesToRetitle | main.py:199-213 | the single instruction `タイトル変更→new` passes neither the delete nor the add test, passes the retitle test and contains an arrow |
| Patch.ExamplePayload | main.py:214-214 | the text cut after the arrow of `タイトル変更→new` is `new` |
| Generation.SectionsText | main.py:88-91 | no sections give the empty text, one section gives its block without a separator, and each further section appends a blank line and its block |
| Generation.Block | main.py:89-89 | a block is `【`, the title, `】` and a line break, then the content, each at its fixed place; its length is the two texts' plus three |
| Generation.ParseBlockInverse | main.py:89-89 | any section whose title has no `】` followed by a line break, whatever its content, is read back from its block |
| Generation.SectionsTextRoundTrip | main.py:88-91 | reading the request text back gives the same sections in the same order, for sections whose titles and contents hold no blank line and whose contents are non-empty and do not start or end with a line break |
| Generation.CutAtFence | main.py:155-157 | the text up to the first fence, stripped, contains no fence and is trimmed |
| Generation.ExtractFenced | main.py:153-157 | a reply without a fence is returned untouched; a fenced reply yields trimmed text with no fence; with only bare fences it is the stripped text between the first two |
| Generation.BeforeJsonThenFence | main.py:155-155 | cutting at the next ```` ```json ```` and then at the next fence is cutting at the next fence, unless a fourth backtick precedes a later ```` ```json ```` |
| Generation.JsonFenceBody | main.py:154-155 | with a ```` ```json ```` fence, the result is the stripped text between the first ```` ```json ```` and the next fence |

## Left out

- The language-model client and calls (main.py:31-39, 142-148) are not modelled: they are network I/O with non-deterministic output. The request text and the reply text are the boundaries of the model.
- `json.loads` and building `Slide` records from the parsed reply (main.py:160-163) are not modelled: they are library parsing.
- The mapping of errors to HTTP responses (main.py:166-171, 179-183) is plumbing and is not modelled.
- PPTX export (main.py:232-275) is not modelled: it wraps a presentation library, uses a random file name and writes files. The generate and export request records (main.py:60-72) are left out with it, since no modelled operation takes them.
- The download endpoint, static files, the root page, `.env` loading and server start-up are I/O and process plumbing.
- Text.Lower: maps only ASCII `A`-`Z` and fullwidth `Ａ`-`Ｚ`, not the whole Unicode case table of Python's `str.lower()`. Every keyword the engine looks for has no capitals, so the routing of instructions built from these letters, kana, kanji and punctuation is exact.
- The shallow `.copy()` of the deck (main.py:195) lets the Python code change the caller's own `Slide` objects when it sets a title or appends a bullet. The model is functional and returns a new deck instead.
- Generation.JsonFenceBody: proved only when no ```` ```json ```` after the first one is preceded by a fourth backtick. When such a ```` ````json ```` comes before any bare fence, the code can cut one or more backticks later than the next fence and keep them in the result. `Generation.ExtractFenced` states the unconditional facts (no fence in the result, trimmed).
- Generation.SectionsTextRoundTrip: the inverse is stated only for sections that meet all of these conditions. Other sections can run together in the request text, which is how the code writes it.
  - The title holds no blank line and no `】` directly followed by a line break.
  - The content is non-empty.
  - The content neither starts nor ends with a line break.
  - The content holds no blank line.
