/** Worked cases of the patcher, the classifier and the clean-name predicate. */
module Scenarios {
  import opened Diagnostics
  import opened Patcher
  import opened Paths

  /** A repeated entry stops the cursor: with [3, 3, 5], line 5 is never commented. */
  lemma RepeatedEntryStalls()
    ensures Marked([3, 3, 5], 10) == {3}
  {
    CursorStalls([3, 3, 5], 10, 1);
  }

  /** A diagnostic too short to hold the unused-import form makes the output unfixable. */
  lemma ShortLineUnfixable(a: seq<string>, line: string, b: seq<string>)
    requires !Skipped(line) && |line| < |Message| + 5
    ensures !Fixable(a + [line] + b)
  {
    assert forall e :: WellFormed(e) ==> |Render(e)| >= |Message| + 5;
    assert Unfixable(line);
    ShortCircuit(a, line, b);
  }

  /** Names with a "." or ".." element, which path.Clean would rewrite, are not clean, so no separate plan holds one. */
  lemma DotElementsUnclean()
    ensures !Clean("a/./b") && !Clean("a/.") && !Clean("a/..") && !Clean("x/../y") && !Clean("/..") && !Clean("./a")
  {
    assert DotElement("a/./b", 2) && DotElement("a/.", 2) && DotElement("a/..", 2);
    assert DotElement("x/../y", 2) && DotElement("/..", 1) && DotElement("./a", 0);
  }

  /** Dots inside an element do not make a name unclean. */
  lemma DottedNamesClean()
    ensures Clean("src/tmp.a.go") && Clean(".a/b..")
  {
  }
}
