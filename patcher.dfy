/**
  The line patcher goCommentLines (src/gorun/gorun.go:15-44), on the text of
  the file instead of the file: copy the newline-terminated lines, putting
  "//" in front of a line when its 1-based number is the entry under a cursor
  into the flagged list, and copy the unterminated rest as it is.
 */
module Patcher {
  import opened Wrappers
  import opened Text

  /** The line-comment marker put in front of a flagged line. */
  const Marker: string := "//"

  /**
    The number of entries of flags that the cursor consumes while the lines
    numbered up to bound go by, when each consumed entry has to exceed prev:
    the longest prefix of flags that increases strictly from above prev and
    stays within bound.
   */
  function Consumed(flags: seq<int>, bound: int, prev: int): (c: nat)
    ensures c <= |flags|
  {
    if |flags| == 0 || !(prev < flags[0] <= bound) then 0
    else 1 + Consumed(flags[1..], bound, flags[0])
  }

  /**
    What the cursor consumes is the longest prefix of flags that rises
    strictly from above prev and stays within bound: the entry after it is
    beyond bound or not above its predecessor.
   */
  lemma {:induction false} ConsumedShape(flags: seq<int>, bound: int, prev: int)
    ensures var c := Consumed(flags, bound, prev);
      && (forall j :: 0 <= j < c ==> prev < flags[j] <= bound)
      && (forall j :: 0 < j < c ==> flags[j - 1] < flags[j])
      && (c < |flags| ==> bound < flags[c] || flags[c] <= (if c == 0 then prev else flags[c - 1]))
  {
    if |flags| > 0 && prev < flags[0] <= bound {
      ConsumedShape(flags[1..], bound, flags[0]);
      var c := Consumed(flags, bound, prev);
      assert forall j :: 0 < j < c ==> flags[j] == flags[1..][j - 1];
    }
  }

  /** The line numbers commented once the lines up to bound have gone by. */
  function Marked(flags: seq<int>, bound: int): set<int>
  {
    set j | 0 <= j < Consumed(flags, bound, 0) :: flags[j]
  }

  function Mark(line: string, commented: bool): string
  {
    if commented then Marker + line else line
  }

  /** The lines of q, numbered from 1, with the marker on those whose number is in marked. */
  function Marks(q: seq<string>, marked: set<int>): seq<string>
  {
    seq(|q|, i requires 0 <= i < |q| => Mark(q[i], i + 1 in marked))
  }

  /** The pieces of a text with its terminated lines marked; the last, unterminated piece keeps as it is. */
  function MarkLines(pieces: seq<string>, marked: set<int>): seq<string>
    requires |pieces| >= 1
  {
    Marks(pieces[..|pieces| - 1], marked) + [pieces[|pieces| - 1]]
  }

  /** src with the terminated lines whose numbers are in marked commented out. */
  function CommentOut(src: string, marked: set<int>): string
  {
    Join(MarkLines(Split(src, '\n'), marked), '\n')
  }

  /** The number of newline-terminated lines of src. */
  function LineCount(src: string): nat
  {
    |Split(src, '\n')| - 1
  }

  /** What goCommentLines writes for the text src and the flagged list flags. */
  function Patched(src: string, flags: seq<int>): string
  {
    CommentOut(src, Marked(flags, LineCount(src)))
  }

  /** The number of lines up to n whose numbers are in marked. */
  function MarkedCount(n: nat, marked: set<int>): nat
  {
    if n == 0 then 0 else MarkedCount(n - 1, marked) + (if n in marked then 1 else 0)
  }

  /** Letting line k + 1 go by consumes the entry under the cursor exactly when it is k + 1. */
  lemma {:induction false} ConsumedStep(flags: seq<int>, k: int, prev: int)
    requires prev <= k
    ensures var c := Consumed(flags, k, prev);
      Consumed(flags, k + 1, prev) == if c < |flags| && flags[c] == k + 1 then c + 1 else c
  {
    if |flags| > 0 && prev < flags[0] <= k {
      ConsumedStep(flags[1..], k, flags[0]);
    }
  }

  /** The commented set grows by line k + 1 exactly when the cursor's entry is k + 1. */
  lemma MarkedStep(flags: seq<int>, k: nat)
    ensures forall x :: x in Marked(flags, k) ==> 1 <= x <= k
    ensures var c := Consumed(flags, k, 0);
      Marked(flags, k + 1) ==
        if c < |flags| && flags[c] == k + 1 then Marked(flags, k) + {k + 1} else Marked(flags, k)
  {
    var c := Consumed(flags, k, 0);
    ConsumedStep(flags, k, 0);
    ConsumedShape(flags, k, 0);
    if c < |flags| && flags[c] == k + 1 {
      assert Marked(flags, k + 1) == Marked(flags, k) + {flags[c]};
    }
  }

  /**
    goCommentLines. The loop reads one newline-terminated line per turn, as
    bufio.Reader.ReadString('\n') does, counts it, and puts the marker on it
    when its number is the entry under the cursor, which then moves on; the
    piece after the last newline is copied after the loop.
   */
  method CommentLines(src: string, flags: seq<int>) returns (out: string)
    ensures out == Patched(src, flags)
  {
    ghost var pieces := Split(src, '\n');
    var pos := 0;
    var lineno := 0;
    var idx := 0;
    out := "";
    var nl := IndexOf(src, '\n');
    assert src[pos..] == src && pieces[lineno..] == pieces;
    while nl.Some?
      invariant Reading(src, flags, pieces, pos, lineno, idx, out)
      invariant nl == IndexOf(src[pos..], '\n')
      decreases |src| - pos
    {
      ReadingStep(src, flags, pieces, pos, lineno, idx, out, nl.value);
      var line := src[pos..pos + nl.value + 1];
      var hit := idx < |flags| && lineno + 1 == flags[idx];
      lineno := lineno + 1;
      if hit {
        idx := idx + 1;
        line := Marker + line;
      }
      out := out + line;
      pos := pos + nl.value + 1;
      nl := IndexOf(src[pos..], '\n');
    }
    LastStep(src, flags, pos, pieces, lineno);
    out := out + src[pos..];
  }

  /** The loop's invariant: lineno lines have been read and written, and idx is the cursor. */
  ghost predicate Reading(src: string, flags: seq<int>, pieces: seq<string>, pos: int, lineno: nat, idx: int, out: string)
  {
    && 0 <= pos <= |src|
    && lineno < |pieces|
    && Split(src[pos..], '\n') == pieces[lineno..]
    && idx == Consumed(flags, lineno, 0)
    && out == Terminated(Marks(pieces[..lineno], Marked(flags, lineno)), '\n')
  }

  /** One turn of the loop keeps its invariant. */
  lemma ReadingStep(src: string, flags: seq<int>, pieces: seq<string>, pos: nat, k: nat, idx: int, out: string, j: nat)
    requires Reading(src, flags, pieces, pos, k, idx, out)
    requires IndexOf(src[pos..], '\n') == Some(j)
    ensures pos + j + 1 <= |src|
    ensures var hit := idx < |flags| && k + 1 == flags[idx];
      Reading(src, flags, pieces, pos + j + 1, k + 1, if hit then idx + 1 else idx,
        out + (if hit then "//" + src[pos..pos + j + 1] else src[pos..pos + j + 1]))
  {
    ReadStep(src, pos, pieces, k, j);
    WriteStep(flags, pieces, k);
    var line := src[pos..pos + j + 1];
    assert "//" + line == "//" + pieces[k] + "\n";
    assert line == "" + pieces[k] + "\n";
  }

  /** Reading up to the next newline takes the next piece and its newline. */
  lemma ReadStep(src: string, pos: nat, pieces: seq<string>, k: nat, j: nat)
    requires pos <= |src| && k < |pieces|
    requires Split(src[pos..], '\n') == pieces[k..]
    requires IndexOf(src[pos..], '\n') == Some(j)
    ensures pos + j + 1 <= |src| && k + 1 < |pieces|
    ensures src[pos..pos + j + 1] == pieces[k] + "\n"
    ensures Split(src[pos + j + 1..], '\n') == pieces[k + 1..]
  {
    assert src[pos..][..j] == src[pos..pos + j];
    assert src[pos..][j + 1..] == src[pos + j + 1..];
    assert src[pos..pos + j + 1] == src[pos..pos + j] + [src[pos + j]];
  }

  /** Writing line k + 1, marked or not, extends the output by that line. */
  lemma WriteStep(flags: seq<int>, pieces: seq<string>, k: nat)
    requires k < |pieces|
    ensures var c := Consumed(flags, k, 0);
      var hit := c < |flags| && flags[c] == k + 1;
      && Consumed(flags, k + 1, 0) == (if hit then c + 1 else c)
      && Terminated(Marks(pieces[..k + 1], Marked(flags, k + 1)), '\n') ==
         Terminated(Marks(pieces[..k], Marked(flags, k)), '\n') + ((if hit then "//" else "") + pieces[k] + "\n")
  {
    var c := Consumed(flags, k, 0);
    var hit := c < |flags| && flags[c] == k + 1;
    ConsumedStep(flags, k, 0);
    MarkedStep(flags, k);
    MarksStep(pieces, k, Marked(flags, k), Marked(flags, k + 1));
    assert (k + 1 in Marked(flags, k + 1)) == hit;
    TerminatedSnoc(Marks(pieces[..k], Marked(flags, k)), Mark(pieces[k], hit), '\n');
  }

  /** Once no newline is left, the rest is the last piece and the output is complete. */
  lemma LastStep(src: string, flags: seq<int>, pos: nat, pieces: seq<string>, k: nat)
    requires pieces == Split(src, '\n')
    requires pos <= |src| && k < |pieces|
    requires Split(src[pos..], '\n') == pieces[k..]
    requires IndexOf(src[pos..], '\n').None?
    ensures Terminated(Marks(pieces[..k], Marked(flags, k)), '\n') + src[pos..] == Patched(src, flags)
  {
    assert pieces[k..] == [src[pos..]];
    assert k == |pieces| - 1;
    JoinTerminated(Marks(pieces[..k], Marked(flags, k)), pieces[k], '\n');
  }

  lemma MarksStep(pieces: seq<string>, k: nat, before: set<int>, after: set<int>)
    requires k < |pieces|
    requires forall x :: x in before ==> x <= k
    requires after == before || after == before + {k + 1}
    ensures Marks(pieces[..k + 1], after) == Marks(pieces[..k], before) + [Mark(pieces[k], k + 1 in after)]
  {
  }

  /**
    The copy rule: the patched text has as many lines as src; each terminated
    line is the original, with the marker in front exactly when its number is
    commented; the piece after the last newline is the original.
   */
  lemma PatchedLines(src: string, flags: seq<int>)
    ensures var p, q := Split(src, '\n'), Split(Patched(src, flags), '\n');
      var marked := Marked(flags, |p| - 1);
      && |q| == |p|
      && q[|q| - 1] == p[|p| - 1]
      && forall i :: 0 <= i < |p| - 1 ==> q[i] == if i + 1 in marked then "//" + p[i] else p[i]
  {
    var p := Split(src, '\n');
    var marked := Marked(flags, |p| - 1);
    var lines := MarkLines(p, marked);
    assert Patched(src, flags) == Join(lines, '\n');
    JoinSplit(src, '\n');
    MarkLinesShape(p, marked);
    SplitJoin(lines, '\n');
  }

  /** Marking the terminated pieces keeps their number, the last piece, and the absence of newlines. */
  lemma MarkLinesShape(p: seq<string>, marked: set<int>)
    requires |p| >= 1
    requires forall i :: 0 <= i < |p| ==> '\n' !in p[i]
    ensures var lines := MarkLines(p, marked);
      && |lines| == |p|
      && lines[|p| - 1] == p[|p| - 1]
      && (forall i :: 0 <= i < |p| - 1 ==> lines[i] == if i + 1 in marked then "//" + p[i] else p[i])
      && (forall i :: 0 <= i < |lines| ==> '\n' !in lines[i])
  {
    var lines := MarkLines(p, marked);
    forall i | 0 <= i < |lines| ensures '\n' !in lines[i] {
      if i < |p| - 1 && i + 1 in marked {
        assert lines[i] == Marker + p[i];
      }
    }
  }

  /** A flag list that consumes nothing leaves the text as it is; so does an empty one. */
  lemma PatchedUnflagged(src: string, flags: seq<int>)
    requires Consumed(flags, LineCount(src), 0) == 0
    ensures Patched(src, flags) == src
  {
    var p := Split(src, '\n');
    JoinSplit(src, '\n');
    assert Marked(flags, LineCount(src)) == {};
    assert MarkLines(p, {}) == p;
  }

  /** A strictly ascending list of numbers of terminated lines is consumed whole. */
  lemma PatchedAscending(src: string, flags: seq<int>)
    requires forall j :: 0 <= j < |flags| ==> 1 <= flags[j] <= LineCount(src)
    requires forall j :: 0 < j < |flags| ==> flags[j - 1] < flags[j]
    ensures Consumed(flags, LineCount(src), 0) == |flags|
    ensures Marked(flags, LineCount(src)) == set j | 0 <= j < |flags| :: flags[j]
  {
    ConsumedShape(flags, LineCount(src), 0);
  }

  /** An entry that does not rise above the one before it stops the cursor for good. */
  lemma CursorStalls(flags: seq<int>, bound: int, j: nat)
    requires 0 < j < |flags| && flags[j] <= flags[j - 1]
    ensures Consumed(flags, bound, 0) <= j
  {
    ConsumedShape(flags, bound, 0);
  }

  /** An entry beyond the last terminated line, such as the number of the unterminated rest, stops the cursor too. */
  lemma CursorStopsBeyond(flags: seq<int>, bound: int, j: nat)
    requires j < |flags| && flags[j] > bound
    ensures Consumed(flags, bound, 0) <= j
  {
    ConsumedShape(flags, bound, 0);
  }

  /** Each consumed entry names a different line, so no line is marked twice and every commented line is a consumed entry. */
  lemma MarkedDistinct(flags: seq<int>, bound: int)
    ensures forall i, j :: 0 <= i < j < Consumed(flags, bound, 0) ==> flags[i] < flags[j]
    ensures |Marked(flags, bound)| == Consumed(flags, bound, 0)
  {
    var c := Consumed(flags, bound, 0);
    ConsumedShape(flags, bound, 0);
    Rising(flags, c);
    MarkedCard(flags, c);
  }

  lemma {:induction false} Rising(flags: seq<int>, c: nat)
    requires c <= |flags|
    requires forall j :: 0 < j < c ==> flags[j - 1] < flags[j]
    ensures forall i, j :: 0 <= i < j < c ==> flags[i] < flags[j]
  {
    if c > 1 {
      Rising(flags, c - 1);
      forall i | 0 <= i < c - 1 ensures flags[i] < flags[c - 1] {
        if i < c - 2 {
          assert flags[i] < flags[c - 2];
        }
      }
    }
  }

  lemma {:induction false} MarkedCard(flags: seq<int>, c: nat)
    requires c <= |flags|
    requires forall i, j :: 0 <= i < j < c ==> flags[i] < flags[j]
    ensures |set j | 0 <= j < c :: flags[j]| == c
  {
    if c > 0 {
      MarkedCard(flags, c - 1);
      var before := set j | 0 <= j < c - 1 :: flags[j];
      assert (set j | 0 <= j < c :: flags[j]) == before + {flags[c - 1]};
      assert flags[c - 1] !in before;
    }
  }

  /** The patched text is longer by one marker per consumed entry. */
  lemma PatchedLength(src: string, flags: seq<int>)
    ensures |Patched(src, flags)| == |src| + 2 * Consumed(flags, LineCount(src), 0)
  {
    var p := Split(src, '\n');
    var n := |p| - 1;
    var marked := Marked(flags, n);
    JoinSplit(src, '\n');
    assert p == p[..n] + [p[n]];
    JoinTerminated(p[..n], p[n], '\n');
    JoinTerminated(Marks(p[..n], marked), p[n], '\n');
    TerminatedMarksLength(p[..n], marked);
    MarkedCountConsumed(flags, n);
  }

  lemma {:induction false} TerminatedMarksLength(q: seq<string>, marked: set<int>)
    ensures |Terminated(Marks(q, marked), '\n')| == |Terminated(q, '\n')| + 2 * MarkedCount(|q|, marked)
  {
    if |q| > 0 {
      var n := |q| - 1;
      TerminatedMarksLength(q[..n], marked);
      assert q == q[..n] + [q[n]];
      assert Marks(q, marked) == Marks(q[..n], marked) + [Mark(q[n], n + 1 in marked)];
      TerminatedSnoc(q[..n], q[n], '\n');
      TerminatedSnoc(Marks(q[..n], marked), Mark(q[n], n + 1 in marked), '\n');
    }
  }

  /** As many lines up to n are commented as entries are consumed. */
  lemma {:induction false} MarkedCountConsumed(flags: seq<int>, n: nat)
    ensures MarkedCount(n, Marked(flags, n)) == Consumed(flags, n, 0)
  {
    if n > 0 {
      var k := n - 1;
      MarkedCountConsumed(flags, k);
      MarkedStep(flags, k);
      ConsumedStep(flags, k, 0);
      MarkedCountBeyond(k, Marked(flags, k), Marked(flags, n) - Marked(flags, k));
      assert Marked(flags, n) == Marked(flags, k) + (Marked(flags, n) - Marked(flags, k));
    }
  }

  lemma {:induction false} MarkedCountBeyond(n: nat, marked: set<int>, extra: set<int>)
    requires forall x :: x in extra ==> x > n
    ensures MarkedCount(n, marked + extra) == MarkedCount(n, marked)
  {
    if n > 0 {
      MarkedCountBeyond(n - 1, marked, extra);
    }
  }
}
