/** The shape of the draft converter's output, as an automaton over tokens
    with the three-valued block state outside / in a list / in a paragraph.
    The converter's two flags, kept mutually exclusive, are an encoding of
    that state; the lemmas here show that every output of the conversion is
    accepted, and derive that list and paragraph tags balance and alternate
    without nesting. */
module BlockGrammar {
  import opened Wrappers
  import opened Text
  import opened BlockConverter

  /** Which block the output is inside. */
  datatype Block = Outside | InList | InParagraph

  /** The token that may follow in each block: outside, a list or paragraph
      opens or a heading stands alone; in a list, headings may appear until
      the list closes; in a paragraph, text lines appear until it closes. */
  function Accept(b: Block, t: Token): Option<Block> {
    match b
    case Outside =>
      (match t
       case OpenUl => Some(InList)
       case OpenP => Some(InParagraph)
       case Heading(_, _) => Some(Outside)
       case _ => None)
    case InList =>
      (match t
       case CloseUl => Some(Outside)
       case Heading(_, _) => Some(InList)
       case _ => None)
    case InParagraph =>
      (match t
       case Line(_) => Some(InParagraph)
       case Digest(_) => Some(InParagraph)
       case CloseP => Some(Outside)
       case _ => None)
  }

  /** Runs the automaton over a token sequence. */
  function Walk(b: Block, toks: seq<Token>): Option<Block>
    decreases |toks|
  {
    if |toks| == 0 then Some(b)
    else
      match Accept(b, toks[0])
      case None => None
      case Some(next) => Walk(next, toks[1..])
  }

  /** A complete output: accepted, and every block closed at the end. */
  predicate WellFormed(toks: seq<Token>) {
    Walk(Outside, toks) == Some(Outside)
  }

  /** The block the two exclusive flags denote. */
  function Abstract(st: State): Block
    requires Exclusive(st)
  {
    if st.insideList then InList
    else if st.insideParagraph then InParagraph
    else Outside
  }

  /** Walking a concatenation walks the first part, then the second. */
  lemma {:induction false} WalkAppend(b: Block, x: seq<Token>, y: seq<Token>)
    ensures Walk(b, x + y) ==
      match Walk(b, x)
      case None => None
      case Some(m) => Walk(m, y)
    decreases |x|
  {
    if |x| == 0 {
      assert x + y == y;
    } else {
      assert (x + y)[0] == x[0];
      assert (x + y)[1..] == x[1..] + y;
      match Accept(b, x[0])
      case None =>
      case Some(next) => WalkAppend(next, x[1..], y);
    }
  }

  /** A heading keeps the list block, leaves a paragraph, or stays outside. */
  lemma HeadingWalks(st: State, h: Token)
    requires Exclusive(st) && h.Heading?
    ensures Walk(Abstract(st), CloseParagraph(st) + [h]) == Some(Abstract(State(st.insideList, false)))
  {
    if st.insideParagraph {
      assert CloseParagraph(st) + [h] == [CloseP, h];
      assert Walk(Outside, [h]) == Walk(Outside, []);
    } else {
      assert CloseParagraph(st) + [h] == [h];
    }
  }

  /** A list line enters the list block unless already in it. */
  lemma ListWalks(st: State)
    requires Exclusive(st) && !st.insideList
    ensures Walk(Abstract(st), CloseParagraph(st) + [OpenUl]) == Some(InList)
  {
    if st.insideParagraph {
      assert CloseParagraph(st) + [OpenUl] == [CloseP, OpenUl];
      assert Walk(Outside, [OpenUl]) == Walk(InList, []);
    }
  }

  /** A text line ends inside the paragraph block. */
  lemma TextWalks(st: State, t: Token)
    requires Exclusive(st) && (t.Line? || t.Digest?)
    ensures var entry := if st.insideParagraph then [] else CloseList(st) + [OpenP];
      Walk(Abstract(st), entry + [t]) == Some(InParagraph)
  {
    assert Walk(InParagraph, [t]) == Walk(InParagraph, []);
    if !st.insideParagraph {
      if st.insideList {
        assert CloseList(st) + [OpenP] + [t] == [CloseUl, OpenP, t];
        assert [CloseUl, OpenP, t][1..] == [OpenP, t];
      } else {
        assert CloseList(st) + [OpenP] + [t] == [OpenP, t];
      }
    } else {
      assert [] + [t] == [t];
    }
  }

  /** Every branch of the loop body takes the automaton from the block the
      flags denote before the line to the block they denote after it. */
  lemma TransitionWalks(st: State, kind: LineKind)
    requires Exclusive(st)
    ensures var r := Transition(st, kind);
      Walk(Abstract(st), r.out) == Some(Abstract(r.state))
  {
    match kind
    case HeadingLine(level, text) => HeadingWalks(st, Heading(level, text));
    case ListLine =>
      if !st.insideList {
        ListWalks(st);
      }
    case BlankLine =>
    case TextLine(p) => TextWalks(st, ParagraphToken(p));
  }

  /** The same holds for the loop over any number of lines. */
  lemma {:induction false} RunWalks(st: State, lines: seq<string>)
    requires Exclusive(st)
    ensures Walk(Abstract(st), Run(st, lines).out) == Some(Abstract(Run(st, lines).state))
    decreases |lines|
  {
    if |lines| > 0 {
      var first := ProcessLine(st, lines[0]);
      TransitionWalks(st, Classify(RStrip(lines[0], {'\n'})));
      RunWalks(first.state, lines[1..]);
      WalkAppend(Abstract(st), first.out, Run(first.state, lines[1..]).out);
    }
  }

  /** The closing step at the end of the input returns to the outside. */
  lemma FinishWalks(st: State)
    requires Exclusive(st)
    ensures Walk(Abstract(st), Finish(st)) == Some(Outside)
  {
    if st.insideList {
      assert Finish(st) == [CloseUl];
    } else if st.insideParagraph {
      assert Finish(st) == [CloseP];
    } else {
      assert Finish(st) == [];
    }
  }

  /** Every conversion output is well formed: the closing step at the end of
      the input leaves no block open. */
  lemma ConvertWellFormed(lines: seq<string>)
    ensures WellFormed(Convert(lines))
  {
    var r := Run(Initial, lines);
    assert Convert(lines) == r.out + Finish(r.state);
    RunWalks(Initial, lines);
    FinishWalks(r.state);
    WalkAppend(Outside, r.out, Finish(r.state));
  }

  /** `<ul>` tags minus `</ul>` tags. */
  function UnclosedLists(toks: seq<Token>): int {
    multiset(toks)[OpenUl] as int - multiset(toks)[CloseUl] as int
  }

  /** `<p>` tags minus `</p>` tags. */
  function UnclosedParagraphs(toks: seq<Token>): int {
    multiset(toks)[OpenP] as int - multiset(toks)[CloseP] as int
  }

  function ListDepth(b: Block): int {
    if b == InList then 1 else 0
  }

  function ParagraphDepth(b: Block): int {
    if b == InParagraph then 1 else 0
  }

  /** Along an accepted walk, opening tags minus closing tags track the
      change of block. */
  lemma {:induction false} WalkCounts(b: Block, toks: seq<Token>, e: Block)
    requires Walk(b, toks) == Some(e)
    ensures UnclosedLists(toks) == ListDepth(e) - ListDepth(b)
    ensures UnclosedParagraphs(toks) == ParagraphDepth(e) - ParagraphDepth(b)
    decreases |toks|
  {
    if |toks| > 0 {
      var next := Accept(b, toks[0]).value;
      WalkCounts(next, toks[1..], e);
      assert toks == [toks[0]] + toks[1..];
    }
  }

  /** Every prefix of a well-formed output is accepted. */
  lemma PrefixWalks(toks: seq<Token>, k: nat)
    requires WellFormed(toks) && k <= |toks|
    ensures Walk(Outside, toks[..k]).Some?
  {
    WalkAppend(Outside, toks[..k], toks[k..]);
    assert toks[..k] + toks[k..] == toks;
  }

  /** List tags and paragraph tags each balance in every output. */
  lemma ConvertBalanced(lines: seq<string>)
    ensures var toks := Convert(lines);
      && multiset(toks)[OpenUl] == multiset(toks)[CloseUl]
      && multiset(toks)[OpenP] == multiset(toks)[CloseP]
  {
    ConvertWellFormed(lines);
    WalkCounts(Outside, Convert(lines), Outside);
  }

  /** In every prefix of an output at most one `<ul>` and at most one `<p>`
      is unclosed, never both: `<ul>` and `</ul>` alternate, as do `<p>`
      and `</p>`, and a list and a paragraph never nest. */
  lemma ConvertAlternates(lines: seq<string>)
    ensures var toks := Convert(lines);
      forall k | 0 <= k <= |toks| ::
        && 0 <= UnclosedLists(toks[..k]) && 0 <= UnclosedParagraphs(toks[..k])
        && UnclosedLists(toks[..k]) + UnclosedParagraphs(toks[..k]) <= 1
  {
    var toks := Convert(lines);
    ConvertWellFormed(lines);
    forall k | 0 <= k <= |toks|
      ensures && 0 <= UnclosedLists(toks[..k]) && 0 <= UnclosedParagraphs(toks[..k])
              && UnclosedLists(toks[..k]) + UnclosedParagraphs(toks[..k]) <= 1
    {
      PrefixWalks(toks, k);
      WalkCounts(Outside, toks[..k], Walk(Outside, toks[..k]).value);
    }
  }

  /** In a well-formed token sequence, a token at index `i` is accepted in
      the block reached by the tokens before it. */
  lemma WellFormedStep(toks: seq<Token>, i: nat)
    requires WellFormed(toks) && i < |toks|
    ensures Walk(Outside, toks[..i]).Some?
    ensures Accept(Walk(Outside, toks[..i]).value, toks[i]).Some?
  {
    PrefixWalks(toks, i);
    PrefixWalks(toks, i + 1);
    WalkAppend(Outside, toks[..i], [toks[i]]);
    assert toks[..i] + [toks[i]] == toks[..i + 1];
    var m := Walk(Outside, toks[..i]).value;
    assert Walk(m, [toks[i]]) == match Accept(m, toks[i]) case None => None case Some(n) => Walk(n, []);
  }

  /** In a well-formed token sequence, paragraph lines (kept or redacted)
      appear only inside a paragraph, and headings never do. */
  lemma WellFormedTextInsideParagraph(toks: seq<Token>)
    requires WellFormed(toks)
    ensures forall i | 0 <= i < |toks| ::
      && ((toks[i].Line? || toks[i].Digest?) ==> Walk(Outside, toks[..i]) == Some(InParagraph))
      && (toks[i].Heading? ==> Walk(Outside, toks[..i]) != Some(InParagraph))
  {
    forall i | 0 <= i < |toks|
      ensures (toks[i].Line? || toks[i].Digest?) ==> Walk(Outside, toks[..i]) == Some(InParagraph)
      ensures toks[i].Heading? ==> Walk(Outside, toks[..i]) != Some(InParagraph)
    {
      WellFormedStep(toks, i);
    }
  }

  /** Every conversion output places paragraph lines inside a paragraph
      and headings outside one. */
  lemma ConvertTextInsideParagraph(lines: seq<string>)
    ensures var toks := Convert(lines);
      forall i | 0 <= i < |toks| ::
        && ((toks[i].Line? || toks[i].Digest?) ==> Walk(Outside, toks[..i]) == Some(InParagraph))
        && (toks[i].Heading? ==> Walk(Outside, toks[..i]) != Some(InParagraph))
  {
    ConvertWellFormed(lines);
    WellFormedTextInsideParagraph(Convert(lines));
  }
}
