/** The converter that actually runs: `convert_markdown_to_html` maps every
    line read from the input file to exactly one output line. A line matching
    the regular expression `^(#+) (.*)$` becomes `<hN>text</hN>`, where `N` is
    the number of leading `#` characters (unbounded) and `text` is the rest of
    the line after the first space; every other line is written with its
    trailing whitespace removed. Input lines are taken as the file iterator
    yields them, each possibly ending in a line feed. */
module LiveConverter {
  import opened Wrappers
  import opened Text
  import opened Html

  /** The two capture groups of the heading regex: `len(group(1))` and
      `group(2)`. */
  datatype HeadingMatch = HeadingMatch(level: nat, text: string)

  /** Length of the maximal run of `#` at the start of `line`. */
  function HashRun(line: string): (k: nat)
    ensures k <= |line|
    ensures forall i | 0 <= i < k :: line[i] == '#'
    ensures k == |line| || line[k] != '#'
    decreases |line|
  {
    if |line| > 0 && line[0] == '#' then 1 + HashRun(line[1..]) else 0
  }

  /** The strings matched by `^(#+) (.*)$` with groups `level` hashes and
      `text`: `.` matches any character but a line feed, and `$` matches at
      the end or just before a final line feed. */
  ghost predicate RegexAccepts(line: string, level: nat, text: string) {
    && 1 <= level < |line|
    && (forall i | 0 <= i < level :: line[i] == '#')
    && line[level] == ' '
    && '\n' !in text
    && (line[level + 1..] == text || line[level + 1..] == text + "\n")
  }

  /** A run of `level` hashes followed by a space at the start of `line`
      fixes the maximal hash run. */
  lemma HashRunAt(line: string, level: nat)
    requires level < |line| && line[level] == ' '
    requires forall i | 0 <= i < level :: line[i] == '#'
    ensures HashRun(line) == level
  {
  }

  /** `re.match(r"^(#+) (.*)$", line)`: the greedy hash run cannot give back
      characters, since a shorter run would be followed by `#`, not a
      space. */
  function MatchHeading(line: string): (m: Option<HeadingMatch>)
    ensures m.Some? ==> RegexAccepts(line, m.value.level, m.value.text)
  {
    var k := HashRun(line);
    if 1 <= k < |line| && line[k] == ' ' then
      var rest := line[k + 1..];
      if '\n' !in rest then
        Some(HeadingMatch(k, rest))
      else if rest[|rest| - 1] == '\n' && '\n' !in rest[..|rest| - 1] then
        assert rest == rest[..|rest| - 1] + "\n";
        Some(HeadingMatch(k, rest[..|rest| - 1]))
      else
        None
    else
      None
  }

  /** Every string the regex accepts is matched, with the same groups. */
  lemma MatchHeadingComplete(line: string, level: nat, text: string)
    requires RegexAccepts(line, level, text)
    ensures MatchHeading(line) == Some(HeadingMatch(level, text))
  {
    HashRunAt(line, level);
    var rest := line[level + 1..];
    if rest != text {
      assert rest[..|rest| - 1] == text;
    }
  }

  /** Lines as the file iterator yields them: a line feed can only be the
      last character. */
  predicate IteratorLine(line: string) {
    forall i | 0 <= i < |line| - 1 :: line[i] != '\n'
  }

  /** `line` begins with `k` hashes and then a space. */
  predicate HeadingMarkerAt(line: string, k: nat) {
    1 <= k < |line| && (forall i | 0 <= i < k :: line[i] == '#') && line[k] == ' '
  }

  /** For an iterator line, the heading regex matches exactly when the line
      begins with one or more `#` followed by a space. */
  lemma HeadingIffMarker(line: string)
    requires IteratorLine(line)
    ensures MatchHeading(line).Some? <==> exists k: nat :: HeadingMarkerAt(line, k)
  {
    if MatchHeading(line).Some? {
      assert HeadingMarkerAt(line, MatchHeading(line).value.level);
    }
    if exists k: nat :: HeadingMarkerAt(line, k) {
      var k: nat :| HeadingMarkerAt(line, k);
      MarkerMatches(line, k);
    }
  }

  lemma MarkerMatches(line: string, k: nat)
    requires IteratorLine(line) && HeadingMarkerAt(line, k)
    ensures MatchHeading(line).Some?
  {
    HashRunAt(line, k);
    var rest := line[k + 1..];
    assert forall i | 0 <= i < |rest| - 1 :: rest[i] == line[k + 1 + i];
    if '\n' in rest {
      assert rest[|rest| - 1] == '\n';
      assert '\n' !in rest[..|rest| - 1] by {
        assert forall i | 0 <= i < |rest| - 1 :: rest[..|rest| - 1][i] == rest[i];
      }
    }
  }

  /** The output line for one input line (loop body, lines 130-136). */
  function ConvertLine(line: string): string {
    match MatchHeading(line)
    case Some(h) => HeadingHtml(h.level, h.text)
    case None => RStrip(line, Whitespace)
  }

  /** A heading line with `level` leading hashes becomes a level-`level`
      heading, with no upper bound on the level, holding the text after the
      first space verbatim. */
  lemma HeadingLine(line: string, level: nat, text: string)
    requires RegexAccepts(line, level, text)
    ensures ConvertLine(line) == HeadingHtml(level, text)
  {
    MatchHeadingComplete(line, level, text);
  }

  /** Any other line is emitted as itself minus its trailing whitespace. */
  lemma PlainLine(line: string)
    requires forall level: nat, text: string :: !RegexAccepts(line, level, text)
    ensures var r := ConvertLine(line);
      && |r| <= |line| && r == line[..|r|]
      && (forall i | |r| <= i < |line| :: line[i] in Whitespace)
      && (|r| == 0 || r[|r| - 1] !in Whitespace)
  {
  }

  /** `convert_markdown_to_html` without its file I/O (lines 127-136): one
      output line per input line, in order. */
  function ConvertFile(lines: seq<string>): (html: seq<string>)
    ensures |html| == |lines|
    ensures forall i | 0 <= i < |lines| :: html[i] == ConvertLine(lines[i])
    decreases |lines|
  {
    if |lines| == 0 then []
    else
      var rest := ConvertFile(lines[1..]);
      assert forall i | 1 <= i < |lines| :: rest[i - 1] == ConvertLine(lines[i]);
      [ConvertLine(lines[0])] + rest
  }

  /** A level-1 heading; the line feed is not part of the captured text. */
  lemma ExampleHello(line: string)
    requires line == "# Hello\n"
    ensures ConvertLine(line) == "<h1>Hello</h1>"
  {
    ExampleHelloParts(line);
    HeadingLine(line, 1, "Hello");
  }

  lemma ExampleHelloParts(line: string)
    requires line == "# Hello\n"
    ensures RegexAccepts(line, 1, "Hello")
    ensures HeadingHtml(1, "Hello") == "<h1>Hello</h1>"
  {
    assert line[2..] == "Hello" + "\n";
    HeadingHtmlOneDigit(1, "Hello");
  }

  /** Seven hashes give a level-7 heading: the level is not clamped. */
  lemma ExampleSevenHashes(line: string)
    requires line == "####### Seven"
    ensures ConvertLine(line) == "<h7>Seven</h7>"
  {
    ExampleSevenHashesParts(line);
    HeadingLine(line, 7, "Seven");
  }

  lemma ExampleSevenHashesParts(line: string)
    requires line == "####### Seven"
    ensures RegexAccepts(line, 7, "Seven")
    ensures HeadingHtml(7, "Seven") == "<h7>Seven</h7>"
  {
    assert line[8..] == "Seven";
    HeadingHtmlOneDigit(7, "Seven");
  }

  /** Trailing spaces inside heading text are kept. */
  lemma ExampleHeadingKeepsSpaces(line: string)
    requires line == "## Title  \n"
    ensures ConvertLine(line) == "<h2>Title  </h2>"
  {
    ExampleHeadingKeepsSpacesParts(line);
    HeadingLine(line, 2, "Title  ");
  }

  lemma ExampleHeadingKeepsSpacesParts(line: string)
    requires line == "## Title  \n"
    ensures RegexAccepts(line, 2, "Title  ")
    ensures HeadingHtml(2, "Title  ") == "<h2>Title  </h2>"
  {
    assert line[3..] == "Title  " + "\n";
    HeadingHtmlOneDigit(2, "Title  ");
  }

  /** Without a space after the hashes the line is not a heading and only
      loses its trailing whitespace. */
  lemma ExampleNoSpace(line: string)
    requires line == "#NoSpace  \n"
    ensures ConvertLine(line) == "#NoSpace"
  {
    assert HashRun(line) == 1 by {
      assert HashRun(line[1..]) == 0;
    }
    assert MatchHeading(line) == None;
    var a, b, c := line[..10], line[..9], line[..8];
    assert c == "#NoSpace" && c[7] !in Whitespace;
    assert RStrip(line, Whitespace) == RStrip(a, Whitespace);
    assert a[..9] == b && RStrip(a, Whitespace) == RStrip(b, Whitespace);
    assert b[..8] == c && RStrip(b, Whitespace) == RStrip(c, Whitespace);
  }
}
