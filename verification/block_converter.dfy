/** The block-level state machine of the earlier, commented-out draft of the
    converter. Each input line is classified, in this order, as a heading
    (starts with `#`), a list item (starts with `-`), a blank line (nothing
    but whitespace) or paragraph text. Two flags record whether a list or a
    paragraph is open; blocks still open at the end of the input are closed.
    Output lines are tokens, so that the structural tags cannot be confused
    with paragraph text that happens to read `<p>`. */
module BlockConverter {
  import opened Text
  import Html
  import InlineRewrite

  /** One output line: `<ul>`, `</ul>`, `<p>`, `</p>`, `<hN>text</hN>`, a
      rewritten paragraph line, or the MD5 digest of a redacted one
      (represented by the text it is computed from). */
  datatype Token =
    | OpenUl
    | CloseUl
    | OpenP
    | CloseP
    | Heading(level: nat, text: string)
    | Line(text: string)
    | Digest(source: string)

  /** The flags `inside_list` and `inside_paragraph`. */
  datatype State = State(insideList: bool, insideParagraph: bool)

  const Initial := State(false, false)

  /** The two flags are never both set. */
  predicate Exclusive(st: State) {
    !(st.insideList && st.insideParagraph)
  }

  function Min(a: int, b: int): int {
    if a < b then a else b
  }

  /** A line as the tests on lines 53, 60, 68 and 75 classify it, in that
      order, with what the taken branch computes from its text: for a
      heading (lines 57-59) the level counts every `#` in the line, capped
      at 6, and the text is the line with `#` and space stripped from both
      ends; for paragraph text (lines 83-92) the rewritten or redacted
      line. */
  datatype LineKind =
    | HeadingLine(level: nat, text: string)
    | ListLine
    | BlankLine
    | TextLine(entry: InlineRewrite.ParagraphLine)

  function Classify(line: string): LineKind {
    if StartsWith(line, "#") then
      HeadingLine(Min(Count(line, '#'), 6), Strip(line, {'#', ' '}))
    else if StartsWith(line, "-") then ListLine
    else if Strip(line, Whitespace) == [] then BlankLine
    else TextLine(InlineRewrite.Paragraph(line))
  }

  /** The state after a line and the tokens it appended. */
  datatype Step = Step(state: State, out: seq<Token>)

  function CloseParagraph(st: State): seq<Token> {
    if st.insideParagraph then [CloseP] else []
  }

  function CloseList(st: State): seq<Token> {
    if st.insideList then [CloseUl] else []
  }

  /** The output line for a paragraph line: the text, or its digest. */
  function ParagraphToken(p: InlineRewrite.ParagraphLine): Token {
    match p
    case Kept(t) => Line(t)
    case Redacted(t) => Digest(t)
  }

  /** The branch of the loop body on lines 53-94 taken for a line of the
      given kind. The `<li>` item built on line 67 is never appended, so a
      list line emits no item. */
  function Transition(st: State, kind: LineKind): (r: Step)
    ensures Exclusive(st) ==> Exclusive(r.state)
  {
    match kind
    case HeadingLine(level, text) =>
      Step(State(st.insideList, false), CloseParagraph(st) + [Heading(level, text)])
    case ListLine =>
      if st.insideList then Step(st, [])
      else Step(State(true, false), CloseParagraph(st) + [OpenUl])
    case BlankLine =>
      Step(State(false, false), CloseList(st) + CloseParagraph(st))
    case TextLine(p) =>
      var entry :=
        if st.insideParagraph then Step(st, [])
        else Step(State(false, true), CloseList(st) + [OpenP]);
      Step(entry.state, entry.out + [ParagraphToken(p)])
  }

  /** One iteration of the loop on lines 51-94: strip the line feed kept by
      `readlines()`, classify, and take the branch. */
  function ProcessLine(st: State, raw: string): (r: Step)
    ensures Exclusive(st) ==> Exclusive(r.state)
  {
    Transition(st, Classify(RStrip(raw, {'\n'})))
  }

  /** The loop over all lines, from state `st`. */
  function Run(st: State, lines: seq<string>): (r: Step)
    ensures Exclusive(st) ==> Exclusive(r.state)
    decreases |lines|
  {
    if |lines| == 0 then Step(st, [])
    else
      var first := ProcessLine(st, lines[0]);
      var rest := Run(first.state, lines[1..]);
      Step(rest.state, first.out + rest.out)
  }

  /** Lines 96-99: close whatever is still open. */
  function Finish(st: State): seq<Token> {
    CloseList(st) + CloseParagraph(st)
  }

  /** Lines 48-99: the whole conversion, from both flags false. */
  function Convert(lines: seq<string>): seq<Token> {
    var r := Run(Initial, lines);
    r.out + Finish(r.state)
  }

  /** `readlines()` keeps the line feed, which line 52 strips; a line that
      begins with a character other than a line feed keeps that first
      character. */
  lemma RStripKeepsHead(raw: string)
    requires |raw| > 0 && raw[0] != '\n'
    ensures var line := RStrip(raw, {'\n'}); |line| > 0 && line[0] == raw[0]
  {
  }

  /** A line starting with `#` is a heading of level min(number of `#` in
      the line, 6), between 1 and 6, whose text is the line with every `#`
      and space stripped from both ends; it closes an open paragraph and
      leaves an open list open. */
  lemma HeadingStep(st: State, raw: string)
    requires StartsWith(raw, "#")
    ensures var r := ProcessLine(st, raw); var line := RStrip(raw, {'\n'});
      var level := Min(multiset(line)['#'], 6);
      && r.state == State(st.insideList, false)
      && r.out == (if st.insideParagraph then [CloseP] else []) + [Heading(level, Strip(line, {'#', ' '}))]
      && 1 <= level <= 6
  {
    var line := RStrip(raw, {'\n'});
    RStripKeepsHead(raw);
    assert StartsWith(line, "#") by {
      assert line[..1] == [line[0]];
    }
    assert Count(line, '#') >= 1;
    CountIsMultiplicity(line, '#');
  }

  /** A line starting with `-` appends at most `</p>` and `<ul>`, appends
      nothing when a list is already open, and leaves a list open and no
      paragraph. */
  lemma ListStep(st: State, raw: string)
    requires StartsWith(raw, "-")
    ensures var r := ProcessLine(st, raw);
      && (r.out == [] || r.out == [OpenUl] || r.out == [CloseP, OpenUl])
      && (st.insideList ==> r == Step(st, []))
      && (!st.insideList ==> r.state == State(true, false))
      && (!st.insideList ==> r.out == (if st.insideParagraph then [CloseP] else []) + [OpenUl])
  {
    var line := RStrip(raw, {'\n'});
    RStripKeepsHead(raw);
    assert line[0] == '-';
    assert StartsWith(line, "-") && !StartsWith(line, "#");
    assert Classify(line) == ListLine;
  }

  /** The text of a list item never reaches the output: the step is the
      same whatever follows the `-`. */
  lemma ListItemTextDropped(st: State, a: string, b: string)
    ensures ProcessLine(st, "-" + a) == ProcessLine(st, "-" + b)
  {
    ListStep(st, "-" + a);
    ListStep(st, "-" + b);
  }

  /** A blank or whitespace-only line closes the open list and the open
      paragraph, in that order, and leaves both flags false. */
  lemma BlankStep(st: State, raw: string)
    requires forall i | 0 <= i < |raw| :: raw[i] in Whitespace
    ensures var r := ProcessLine(st, raw);
      && r.state == Initial
      && r.out == (if st.insideList then [CloseUl] else []) + (if st.insideParagraph then [CloseP] else [])
  {
    var line := RStrip(raw, {'\n'});
    assert forall i | 0 <= i < |line| :: line[i] in Whitespace by {
      assert forall i | 0 <= i < |line| :: line[i] == raw[i];
    }
    StripContents(line, Whitespace);
    assert !StartsWith(line, "#") && !StartsWith(line, "-") by {
      assert |line| > 0 ==> line[0] in Whitespace && line[..1] == [line[0]];
      assert '#' !in Whitespace && '-' !in Whitespace;
    }
    assert Classify(line) == BlankLine;
  }

  /** The flag logic for a paragraph line. */
  lemma TextTransition(st: State, p: InlineRewrite.ParagraphLine)
    requires Exclusive(st)
    ensures var r := Transition(st, TextLine(p));
      && r.state == State(false, true)
      && |r.out| > 0
      && r.out[|r.out| - 1] == ParagraphToken(p)
      && r.out[..|r.out| - 1] ==
           (if st.insideParagraph then [] else (if st.insideList then [CloseUl] else []) + [OpenP])
  {
    var entry := if st.insideParagraph then [] else CloseList(st) + [OpenP];
    assert Transition(st, TextLine(p)).out == entry + [ParagraphToken(p)];
    assert (entry + [ParagraphToken(p)])[..|entry|] == entry;
  }

  /** A paragraph text line (one that does not start with `#` or `-` and
      holds a non-whitespace character) opens a paragraph if none is open,
      closing an open list first. It then appends exactly one line: the
      digest of the rewritten text when that text mentions "private" in any
      letter case, the rewritten text otherwise. Afterwards only the
      paragraph is open. */
  lemma TextStep(st: State, raw: string)
    requires Exclusive(st)
    requires |raw| > 0 && raw[0] != '#' && raw[0] != '-'
    requires exists i | 0 <= i < |raw| :: raw[i] !in Whitespace
    ensures var r := ProcessLine(st, raw); var t := InlineRewrite.Rewrite(RStrip(raw, {'\n'}));
      && r.state == State(false, true)
      && |r.out| > 0
      && r.out[|r.out| - 1] == (if InlineRewrite.MentionsPrivate(t) then Digest(t) else Line(t))
      && r.out[..|r.out| - 1] ==
           (if st.insideParagraph then [] else (if st.insideList then [CloseUl] else []) + [OpenP])
  {
    var line := RStrip(raw, {'\n'});
    var i :| 0 <= i < |raw| && raw[i] !in Whitespace;
    assert '\n' in Whitespace;
    assert i < |line| && line[i] == raw[i] && line[0] == raw[0];
    ClassifiedText(line, i);
    var p := Classify(line).entry;
    TextTransition(st, p);
  }

  /** A line that does not start with `#` or `-` and holds a non-whitespace
      character is paragraph text, carrying its converted paragraph line. */
  lemma ClassifiedText(line: string, i: nat)
    requires |line| > 0 && line[0] != '#' && line[0] != '-'
    requires i < |line| && line[i] !in Whitespace
    ensures Classify(line) == TextLine(InlineRewrite.Paragraph(line))
  {
    assert !StartsWith(line, "#") && !StartsWith(line, "-") by {
      assert line[..1] == [line[0]];
    }
    StripContents(line, Whitespace);
  }

  /** The line a token stands for: the fixed tags, the heading markup of
      line 59, the paragraph text, or the MD5 hex digest of a redacted line,
      which `md5` supplies. */
  function Render(t: Token, md5: string -> string): string {
    match t
    case OpenUl => "<ul>"
    case CloseUl => "</ul>"
    case OpenP => "<p>"
    case CloseP => "</p>"
    case Heading(level, text) => Html.HeadingHtml(level, text)
    case Line(text) => text
    case Digest(source) => md5(source)
  }

  /** Once rendered, a paragraph line reading `<p>` cannot be told apart
      from the tag that opens a paragraph, whereas the tokens differ. */
  lemma RenderingLosesStructure(md5: string -> string)
    ensures Line("<p>") != OpenP
    ensures Render(Line("<p>"), md5) == Render(OpenP, md5)
  {
  }

  /** The heading level counts every `#` in the line, not only the leading
      run: `# C#` is a level-2 heading. */
  lemma ExampleHeadingLevelCountsAll()
    ensures Classify("# C#").level == 2
  {
    assert StartsWith("# C#", "#");
  }

  /** Two list items and a blank line give an empty list: the items
      themselves are never written. */
  lemma ExampleListItemsDropped(a: string, b: string)
    ensures Convert(["-" + a, "-" + b, ""]) == [OpenUl, CloseUl]
  {
    var lines := ["-" + a, "-" + b, ""];
    var inList := State(true, false);
    ListStep(Initial, "-" + a);
    ListStep(inList, "-" + b);
    BlankStep(inList, "");
    assert lines[1..] == ["-" + b, ""];
    assert lines[1..][1..] == [""];
    assert Run(Initial, [""][1..]) == Step(Initial, []);
    assert Run(inList, [""]) == Step(Initial, [CloseUl]);
    assert Run(inList, lines[1..]) == Step(Initial, [CloseUl]);
    assert Run(Initial, lines) == Step(Initial, [OpenUl, CloseUl]);
  }
}
