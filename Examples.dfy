/** Worked examples of the panel's extraction on concrete notes. */
module PanelExamples {
  import opened Wrappers
  import opened JsText
  import opened CommentPanel

  /** A highlight with its footnote defined on the next line. */
  lemma ExampleWithFootnote(s: string)
    requires s == "==hi== [^a]\n[^a]: ok"
    ensures Extract(s) == Found("hi", "a", "ok", false)
  {
    ExampleHighlightText(s);
    ExampleFootnoteText(s);
    ExtractAtStart(s, "hi", " ", "a", "ok");
  }

  /** The highlight of that note starts at index 0. */
  lemma ExampleHighlightText(s: string)
    requires s == "==hi== [^a]\n[^a]: ok"
    ensures PartsFit("hi", " ", "a") && IsTrimmed("hi") && IsTrimmed("a")
    ensures OccursAt(s, 0, PatternText("hi", " ", "a"))
  {
  }

  /** The footnote of that note: its first `[^a]:` marker is at index 12. */
  lemma ExampleFootnoteText(s: string)
    requires s == "==hi== [^a]\n[^a]: ok"
    ensures FindDef(s, "a") == Some("ok")
  {
    assert ':' !in s[..16];
    NoEarlierOccurrence(s, Marker("a"), 12, 4);
    assert DefinitionAt(s, 12, "a", " ", "ok");
    FindDefFirstTrimmed(s, "a", 12, " ", "ok");
  }

  /** A highlight whose footnote is never defined. */
  lemma ExampleMissingFootnote(s: string)
    requires s == "==hi== [^x]"
    ensures Extract(s) == Found("hi", "x", "", true)
  {
    assert PartsFit("hi", " ", "x");
    assert OccursAt(s, 0, PatternText("hi", " ", "x"));
    assert ':' !in s;
    CharAbsentNoOccurrence(s, Marker("x"), 4);
    ExtractLeftmostTrimmed(s, 0, "hi", " ", "x");
  }

  /** Without white space between `==` and `[^`, nothing is highlighted. */
  lemma ExampleNoGap(s: string)
    requires s == "==hi==[^a]"
    ensures Extract(s).NotFound?
  {
    assert forall c :: c in s ==> !IsSpace(c);
    NoSpaceNotFound(s);
  }

  /** The white space after `[^a]:` may run across a line break, so an empty
      definition takes the next line's text. */
  lemma ExampleDefinitionOnNextLine(s: string)
    requires s == "[^a]:\nnext"
    ensures FindDef(s, "a") == Some("next")
  {
    assert DefinitionAt(s, 0, "a", "\n", "next");
    FindDefFirstTrimmed(s, "a", 0, "\n", "next");
  }
}
