/** The inline rewrite chain the draft converter applies to every paragraph
    line: a fixed sequence of `str.replace` calls, a `strip()`, and the
    redaction of any line that mentions "private" in any letter case. */
module InlineRewrite {
  import opened Text

  /** Line 84: every `**` becomes `<b>`, then every `__` becomes `<em>`. */
  function OpenTags(s: string): string {
    Replace(Replace(s, "**", "<b>"), "__", "<em>")
  }

  /** Line 85: meant to produce the closing tags. */
  function CloseTags(s: string): string {
    Replace(Replace(s, "**", "</b>"), "__", "</em>")
  }

  /** Line 86: `[[` and `]]` are deleted. */
  function DropBrackets(s: string): string {
    Replace(Replace(s, "[[", ""), "]]", "")
  }

  /** Line 87: `((` and `))` are deleted, then every `c` and every `C`. */
  function DropParensAndC(s: string): string {
    Replace(Replace(Replace(Replace(s, "((", ""), "))", ""), "c", ""), "C", "")
  }

  /** Lines 84-88: the whole chain, ending with `strip()`. */
  function Rewrite(s: string): string {
    Strip(DropParensAndC(DropBrackets(CloseTags(OpenTags(s)))), Whitespace)
  }

  /** A paragraph output line: the rewritten text, or the MD5 digest of the
      rewritten text, represented here by the text it is computed from. */
  datatype ParagraphLine = Kept(text: string) | Redacted(source: string)

  /** The rewritten text is kept unless it contains "private" in any case. */
  predicate MentionsPrivate(t: string) {
    Contains(Lower(t), "private")
  }

  /** Lines 84-92: rewrite a paragraph line and redact it if it mentions
      "private". */
  function Paragraph(line: string): ParagraphLine {
    var t := Rewrite(line);
    if MentionsPrivate(t) then Redacted(t) else Kept(t)
  }

  /** A line is redacted exactly when "private" occurs in its rewritten text
      up to letter case, and what is digested is the rewritten text. */
  lemma ParagraphRedaction(line: string)
    ensures Paragraph(line).Redacted? <==> exists i :: MatchesIgnoringCaseAt(Rewrite(line), "private", i)
    ensures Paragraph(line).Redacted? ==> Paragraph(line).source == Rewrite(line)
  {
    LowerContainsIff(Rewrite(line), "private");
  }

  /** A kept line is the rewritten text, which has no `c`, no `C` and no
      surrounding whitespace. */
  lemma ParagraphKept(line: string)
    ensures var p := Paragraph(line);
      && (p.Kept? ==> p.text == Rewrite(line))
      && (p.Kept? ==> 'c' !in p.text && 'C' !in p.text)
      && (p.Kept? && |p.text| > 0 ==>
            p.text[0] !in Whitespace && p.text[|p.text| - 1] !in Whitespace)
  {
    RewriteShape(line);
  }

  /** After line 84 the text holds neither `**` nor `__`. */
  lemma OpenTagsLeavesNoMarkers(s: string)
    ensures !Contains(OpenTags(s), "**")
    ensures !Contains(OpenTags(s), "__")
  {
    var t := Replace(s, "**", "<b>");
    ReplaceRemovesPair(s, '*', "<b>");
    ReplaceKeepsAbsent(t, "__", "<em>", "**");
    ReplaceRemovesPair(t, '_', "<em>");
  }

  /** Line 85 never changes anything: both of its replacements look for a
      marker line 84 has already consumed, so no closing tag is ever
      produced. */
  lemma CloseTagsIsIdentity(s: string)
    ensures CloseTags(OpenTags(s)) == OpenTags(s)
  {
    var t := OpenTags(s);
    OpenTagsLeavesNoMarkers(s);
    ReplaceAbsent(t, "**", "</b>");
    ReplaceAbsent(t, "__", "</em>");
  }

  /** Each replacement on line 84 turns its marker (`**` or `__`) into its
      opening tag and changes nothing else: on text without that tag,
      turning every tag back into the marker restores the input. */
  lemma OpenStepReversible(s: string, marker: string, tag: string)
    requires (marker == "**" && tag == "<b>") || (marker == "__" && tag == "<em>")
    requires !Contains(s, tag)
    ensures Replace(Replace(s, marker, tag), tag, marker) == s
  {
    ReplaceRoundTrip(s, marker, tag);
  }

  /** Each deletion on lines 86-87 leaves no occurrence of the marker it
      deletes. */
  lemma DeletionsRemoveMarkers(s: string)
    ensures !Contains(Replace(s, "[[", ""), "[[")
    ensures !Contains(Replace(s, "]]", ""), "]]")
    ensures !Contains(Replace(s, "((", ""), "((")
    ensures !Contains(Replace(s, "))", ""), "))")
  {
    ReplaceRemovesPair(s, '[', "");
    ReplaceRemovesPair(s, ']', "");
    ReplaceRemovesPair(s, '(', "");
    ReplaceRemovesPair(s, ')', "");
  }

  /** The markers deleted on lines 86-87. */
  predicate DeletedMarker(p: string) {
    p == "[[" || p == "]]" || p == "((" || p == "))" || p == "c" || p == "C"
  }

  /** Each deletion on lines 86-87 removes its marker and nothing else: the
      text before the first occurrence is kept as it is, the occurrence is
      dropped, and the rest is processed the same way; text without the
      marker is unchanged. */
  lemma DeletionKeepsOtherText(s: string, p: string)
    requires DeletedMarker(p)
    ensures !Contains(s, p) ==> Replace(s, p, "") == s
    ensures forall i: nat | OccursAt(s, p, i) && (forall j | 0 <= j < i :: !OccursAt(s, p, j)) ::
      Replace(s, p, "") == s[..i] + Replace(s[i + |p|..], p, "")
  {
    if !Contains(s, p) {
      ReplaceAbsent(s, p, "");
    }
    forall i: nat | OccursAt(s, p, i) && (forall j | 0 <= j < i :: !OccursAt(s, p, j))
      ensures Replace(s, p, "") == s[..i] + Replace(s[i + |p|..], p, "")
    {
      ReplaceAtFirst(s, p, "", i);
      assert s[..i] + "" == s[..i];
    }
  }

  /** Every rewritten line is free of `c` and `C`, whether or not it held
      `((`, and carries no leading or trailing whitespace. */
  lemma RewriteShape(s: string)
    ensures 'c' !in Rewrite(s) && 'C' !in Rewrite(s)
    ensures var t := Rewrite(s); |t| == 0 || (t[0] !in Whitespace && t[|t| - 1] !in Whitespace)
  {
    var u := Replace(Replace(DropBrackets(CloseTags(OpenTags(s))), "((", ""), "))", "");
    ReplaceRemovesChar(u, 'c', "");
    var v := Replace(u, "c", "");
    ReplaceRemovesChar(v, 'C', "");
    StripContents(DropParensAndC(DropBrackets(CloseTags(OpenTags(s)))), Whitespace);
  }

  /** A line with no inline marker and no letter `c` or `C` comes out as
      itself with surrounding whitespace removed. */
  lemma PlainTextUnchanged(s: string)
    requires !Contains(s, "**") && !Contains(s, "__")
    requires !Contains(s, "[[") && !Contains(s, "]]")
    requires !Contains(s, "((") && !Contains(s, "))")
    requires 'c' !in s && 'C' !in s
    ensures Rewrite(s) == Strip(s, Whitespace)
  {
    ReplaceAbsent(s, "**", "<b>");
    ReplaceAbsent(s, "__", "<em>");
    ReplaceAbsent(s, "**", "</b>");
    ReplaceAbsent(s, "__", "</em>");
    ReplaceAbsent(s, "[[", "");
    ReplaceAbsent(s, "]]", "");
    ReplaceAbsent(s, "((", "");
    ReplaceAbsent(s, "))", "");
    FirstCharAbsent(s, "c");
    FirstCharAbsent(s, "C");
    ReplaceAbsent(s, "c", "");
    ReplaceAbsent(s, "C", "");
  }

  /** `**` on both sides of a word both become `<b>`: no `</b>` appears. */
  lemma ExampleBold(t: string)
    requires '*' !in t && '_' !in t
    ensures OpenTags("**" + t + "**") == "<b>" + t + "<b>"
    ensures CloseTags(OpenTags("**" + t + "**")) == "<b>" + t + "<b>"
  {
    assert "**" + t + "**" == "**" + (t + "**");
    ReplaceMatch("**", t + "**", "<b>");
    ReplaceNoHead(t, "**", "<b>");
    var u := "<b>" + t + "<b>";
    assert "<b>" + (t + "<b>") == u;
    assert forall i | 0 <= i < |u| :: u[i] != '_';
    FirstCharAbsent(u, "__");
    ReplaceAbsent(u, "__", "<em>");
    CloseTagsIsIdentity("**" + t + "**");
  }
}
