# markdown2html in Dafny

A model of the text logic in `markdown2html.py`, which turns a small
Markdown dialect into HTML one line at a time. The file holds two
converters, and both are modelled:

- **The live converter** is `convert_markdown_to_html` (lines 127-136).
  Every input line gives exactly one output line. A line matching
  `^(#+) (.*)$` becomes `<hN>text</hN>`, where `N` is the number of leading
  `#` and `text` is the rest of the line after the first space. Every other
  line is written with its trailing whitespace removed.
  See `live_converter.dfy` and `html.dfy`.
- **The commented-out draft converter** (lines 48-99) is a state machine
  with two flags, `inside_list` and `inside_paragraph`. It classifies lines
  as heading, list item, blank or text, in that order, and closes open
  blocks when needed and at the end of the input.
  - Paragraph text goes through a fixed chain of `str.replace` calls and a
    `strip()`.
  - A line that mentions "private" in any letter case is replaced by its
    MD5 digest.
  - Output lines are modelled as a `Token` datatype (`OpenUl`, `CloseUl`,
    `OpenP`, `CloseP`, `Heading`, `Line`, `Digest`). This keeps a
    structural tag apart from paragraph text that happens to read `<p>`.
  - See `block_converter.dfy` and `inline_rewrite.dfy`. The shape of the
    output is checked in `block_grammar.dfy`, against an automaton over
    tokens whose state is outside, in a list, or in a paragraph.

`text.dfy` models the Python string operations that the converters use:
`startswith`, `in`, `count`, `rstrip`, `strip`, `replace` and `lower`.
`wrappers.dfy` holds `Option`.

Python's `re` module is not modelled. The heading regex is replaced by a
character-level predicate, `RegexAccepts`:

- The `(#+)` group is a run of one or more `#`, followed by one space.
- `.` matches any character except a line feed.
- `$` matches at the end of the line, or just before a final line feed.

`MatchHeading` is shown sound and complete with respect to that predicate.

### Behaviour as written

The module docstring (lines 10-20) and the comments describe some
behaviour that the code does not have. The model follows the code:

- The live converter does not cap the heading level: seven `#` give `<h7>`.
  Only the draft caps the level, at 6.
- In the draft, `replace("**", "<b>")` on line 84 consumes every `**`, so
  the `</b>` replacement on line 85 never finds anything. The same holds
  for `__`, `<em>` and `</em>`. `**Bold**` becomes `<b>Bold<b>`.
- The `<li>` string built on line 67 is never appended, so the draft
  writes no list items: a list becomes just `<ul>` … `</ul>`.
- Line 87 deletes every `c` and `C` from every paragraph line, not only
  inside `((…))`. Line 86 only deletes `[[` and `]]`; nothing hashes the
  text between them.
- The draft heading level is `line.count("#")`, which counts every `#` in
  the line (`# C#` is level 2), capped at 6.
- A draft heading closes an open paragraph but leaves an open list open.

## Model

| member | source | states |
|---|---|---|
| LiveConverter.ConvertLine | markdown2html.py:130-136 | The output line for one input line. HeadingLine characterises it on lines the regex accepts, and PlainLine on all others. |
| LiveConverter.MatchHeading | markdown2html.py:130-133 | A match has a level of at least 1, and the line is that many `#`, one space, then the captured text. The text contains no line feed, and at most one final line feed follows it. |
| LiveConverter.MatchHeadingComplete | markdown2html.py:130-133 | Every line the regex accepts is matched with the same two groups. The greedy `#+` never gives characters back. |
| LiveConverter.HeadingIffMarker | markdown2html.py:128-131 | For a line as the file iterator yields it, the regex matches exactly when the line starts with k ≥ 1 `#` and then a space. |
| LiveConverter.HeadingLine | markdown2html.py:130-134 | A line accepted with k hashes and text t is written as `<hk>t</hk>`. The level is not capped and the text is not trimmed. |
| LiveConverter.PlainLine | markdown2html.py:135-136 | A line the regex rejects is written as a prefix of itself. Every removed character is whitespace, and the last kept character is not. |
| LiveConverter.ConvertFile | markdown2html.py:127-136 | There is one output line per input line, in the same order, and each one is that line's conversion. |
| LiveConverter.ExampleHello | markdown2html.py:128-134 | `# Hello\n` becomes `<h1>Hello</h1>`. The line feed is not part of the heading. |
| LiveConverter.ExampleSevenHashes | markdown2html.py:130-134 | `####### Seven` becomes `<h7>Seven</h7>`. |
| LiveConverter.ExampleHeadingKeepsSpaces | markdown2html.py:133-134 | `## Title  \n` becomes `<h2>Title  </h2>`, keeping the trailing spaces. |
| LiveConverter.ExampleNoSpace | markdown2html.py:135-136 | `#NoSpace  \n` is not a heading and becomes `#NoSpace`. |
| Html.HeadingHtml | markdown2html.py:134 | The `<hN>text</hN>` markup of lines 59 and 134. HeadingHtmlInjective shows it determines level and text, and DecimalRoundTrip shows the digits spell the level. |
| Html.Decimal | markdown2html.py:134 | The level is spelled as a non-empty string of digits with no leading zero. |
| Html.DecimalRoundTrip | markdown2html.py:134 | Reading the spelled digits back gives the level. |
| Html.HeadingHtmlInjective | markdown2html.py:134 | Two headings with the same markup have the same level and the same text. |
| Text.CountIsMultiplicity | markdown2html.py:57 | `line.count("#")` is the number of `#` anywhere in the line. |
| Text.RStrip | markdown2html.py:136 | `rstrip` gives a prefix of the string. Every removed character is in the set, and the last kept character is not. |
| Text.Strip | markdown2html.py:58 | `strip` gives an infix framed on both sides by runs of characters from the set. Its first and last characters are not in the set. |
| Text.StripUnique | markdown2html.py:88 | The `strip` contract determines its result: any infix that meets it is the stripped string. |
| Text.StripContents | markdown2html.py:68 | `strip()` gives the empty string exactly when every character is whitespace, and it never introduces a character. |
| Text.ContainsIff | markdown2html.py:91 | Python's `in` on strings holds exactly when the pattern occurs at some index. |
| Text.Replace | markdown2html.py:84-87 | Every character of the result comes from the input or from the replacement. |
| Text.ReplaceAbsent | markdown2html.py:85 | Replacing a pattern that does not occur changes nothing. |
| Text.ReplaceAtFirst | markdown2html.py:84-87 | At the first occurrence of the pattern, `replace` keeps the text before it unchanged, writes the replacement in place of the occurrence, and continues after it. With ReplaceAbsent, this determines `replace` from the occurrences alone. |
| Text.ReplaceRoundTrip | markdown2html.py:84 | Take a replacement whose first character does not recur in it and which is absent from the input. Replacing it back by the pattern restores the input. |
| Text.ReplaceRemovesPair | markdown2html.py:84-87 | After `xx` is replaced by text without `x`, no `xx` is left. |
| Text.ReplaceRemovesChar | markdown2html.py:87 | After `c` is replaced by text without `c`, no `c` is left. |
| Text.Lower | markdown2html.py:91 | `lower()` keeps the length and lowers each ASCII capital in place. |
| Text.LowerContainsIff | markdown2html.py:91 | `w in s.lower()` holds exactly when `w` occurs in `s` ignoring letter case. |
| InlineRewrite.Rewrite | markdown2html.py:84-88 | The replacement chain and `strip()`. Characterised by OpenTagsLeavesNoMarkers, CloseTagsIsIdentity, DeletionsRemoveMarkers, DeletionKeepsOtherText, RewriteShape and PlainTextUnchanged. |
| InlineRewrite.Paragraph | markdown2html.py:84-92 | A paragraph line after rewriting and redaction. Characterised by ParagraphRedaction (when it is redacted, and from what) and ParagraphKept (what a kept line holds). |
| InlineRewrite.OpenTagsLeavesNoMarkers | markdown2html.py:84 | After line 84 the text contains neither `**` nor `__`. |
| InlineRewrite.CloseTagsIsIdentity | markdown2html.py:84-85 | Line 85 never changes the text that line 84 produced. |
| InlineRewrite.OpenStepReversible | markdown2html.py:84 | On text without the tag, each replacement on line 84 turns every `**` into `<b>` (or every `__` into `<em>`) and changes nothing else. |
| InlineRewrite.DeletionsRemoveMarkers | markdown2html.py:86-87 | No `[[`, `]]`, `((` or `))` survives the deletion of that marker. |
| InlineRewrite.DeletionKeepsOtherText | markdown2html.py:86-87 | Each deletion of `[[`, `]]`, `((`, `))`, `c` or `C` removes the marker and nothing else. Text without the marker is unchanged. Otherwise the text before the first occurrence is kept, the occurrence is dropped, and the rest is processed the same way. |
| InlineRewrite.RewriteShape | markdown2html.py:84-88 | A rewritten line contains no `c` or `C`, whether or not it had `((`, and it has no surrounding whitespace. |
| InlineRewrite.PlainTextUnchanged | markdown2html.py:84-88 | A line with no marker and no `c`/`C` only loses its surrounding whitespace. |
| InlineRewrite.ParagraphRedaction | markdown2html.py:90-92 | A line is redacted exactly when "private" occurs in its rewritten text, ignoring letter case. What is digested is the rewritten text. |
| InlineRewrite.ParagraphKept | markdown2html.py:84-94 | A kept line is the rewritten text, with no `c`, no `C` and no surrounding whitespace. |
| InlineRewrite.ExampleBold | markdown2html.py:84-85 | `**t**` becomes `<b>t<b>` and stays so after line 85: no `</b>` appears. |
| BlockConverter.Classify | markdown2html.py:53-75 | The four tests of the loop body, in order. Characterised by HeadingStep, ListStep, BlankStep and ClassifiedText, and by ExampleHeadingLevelCountsAll for the level. |
| BlockConverter.Transition | markdown2html.py:53-94 | Every branch keeps the two flags from being set together. |
| BlockConverter.ProcessLine | markdown2html.py:51-94 | One loop iteration keeps the two flags from being set together. |
| BlockConverter.Run | markdown2html.py:49-94 | Starting with the flags not both set, they are never both set after any number of lines. |
| BlockConverter.HeadingStep | markdown2html.py:52-59 | A line starting with `#` closes an open paragraph and keeps an open list. It appends one heading whose level is min(number of `#` in the line, 6), between 1 and 6, and whose text is the line stripped of `#` and space. |
| BlockConverter.ListStep | markdown2html.py:60-67 | A line starting with `-` appends nothing if a list is open. Otherwise it appends `</p>` if a paragraph was open, then `<ul>`, and leaves only the list open. |
| BlockConverter.ListItemTextDropped | markdown2html.py:67 | The step for a list line is the same whatever text follows the `-`. |
| BlockConverter.BlankStep | markdown2html.py:68-74 | A whitespace-only line appends `</ul>` if a list is open, then `</p>` if a paragraph is open, and leaves both flags false. |
| BlockConverter.TextStep | markdown2html.py:75-94 | A text line appends `<p>` if no paragraph is open, after `</ul>` if a list was open. It then appends the digest of the rewritten line when that line mentions "private" in any letter case, and the rewritten line otherwise. Afterwards only the paragraph is open. |
| BlockConverter.ClassifiedText | markdown2html.py:53-75 | A line that starts with neither `#` nor `-` and holds a non-whitespace character fails the first three tests and is paragraph text. |
| BlockConverter.Finish | markdown2html.py:96-99 | The closing step: `</ul>` if a list is open, then `</p>` if a paragraph is open. FinishWalks and ConvertWellFormed show it leaves the automaton outside any block. |
| BlockConverter.Convert | markdown2html.py:48-99 | The whole draft conversion, without file I/O. ConvertWellFormed, ConvertBalanced, ConvertAlternates and ConvertTextInsideParagraph characterise its output, and ExampleListItemsDropped gives a concrete run. |
| BlockConverter.Render | markdown2html.py:80-94 | The output line each token stands for, with the MD5 hash passed in as `md5`. RenderingLosesStructure shows that rendering forgets whether a line was a tag or text. |
| BlockConverter.RenderingLosesStructure | markdown2html.py:80 | A paragraph line reading `<p>` renders exactly like the opening tag, although the two tokens differ. |
| BlockConverter.ExampleHeadingLevelCountsAll | markdown2html.py:57 | `# C#` is a level-2 heading. |
| BlockConverter.ExampleListItemsDropped | markdown2html.py:51-99 | Two list items and a blank line give `<ul>`, `</ul>` and nothing else. |
| BlockGrammar.TransitionWalks | markdown2html.py:53-94 | Each branch's output takes the automaton from the block before the line to the block after it. |
| BlockGrammar.RunWalks | markdown2html.py:51-94 | The same holds for the output of any number of lines. |
| BlockGrammar.ConvertWellFormed | markdown2html.py:48-99 | Every conversion output is accepted by the automaton and ends outside any block. |
| BlockGrammar.ConvertBalanced | markdown2html.py:96-99 | In every output, `<ul>` and `</ul>` occur equally often, and so do `<p>` and `</p>`. |
| BlockGrammar.ConvertAlternates | markdown2html.py:48-99 | In every prefix of an output, at most one list and at most one paragraph is open, never both. Opening and closing tags alternate without nesting. |
| BlockGrammar.ConvertTextInsideParagraph | markdown2html.py:75-94 | Paragraph lines appear only inside a paragraph, and headings never do. |

## Left out

- Argument checks, the input-file existence check, `sys.exit`, and reading
  and writing files are not modelled (lines 121-126, 139-156 and draft
  lines 33-46, 101-104). This includes joining the output lines with
  `"\n"`. The model takes the input as a sequence of lines and returns the
  output as a sequence of lines or tokens.
- The file iterator's universal-newline translation is not modelled. Input
  lines arrive already split, and each may end in `"\n"`.
- The MD5 digest on line 92 is a foreign cryptographic call.
  - A redacted line is the token `Digest(source)`, where `source` is the
    text it would be hashed from.
  - `Render` takes the hash as a parameter `md5`.
  - The UTF-8 `encode()` before hashing is not modelled.
- Whitespace is the ASCII set that `str.isspace` accepts: 0x09-0x0D,
  0x1C-0x1F and space. Python's wider Unicode whitespace set for `strip()`
  and `rstrip()` is not modelled, and neither is non-ASCII `lower()`.
- Python's `re` engine is not modelled. The regex on line 130 is stated as
  an explicit predicate, with `.` and `$` as Python defines them without
  flags.
- Two features that the docstring names but the code lacks are not
  modelled: `*` ordered lists (line 13) and hashing of `[[Text]]` (line 19).
- LiveConverter.HeadingIffMarker: stated for lines as the file iterator
  yields them, with a line feed only at the end. For arbitrary strings,
  MatchHeading and MatchHeadingComplete state the exact regex.
- BlockConverter.TextStep: assumes the flags are not both set, which
  BlockConverter.Run shows for every state the loop reaches. It describes a
  text line by its characters rather than by the three failed tests.
