/**
  Go's strings.Split and strings.Join for a one-character separator, and the
  newline-terminated concatenation that a line-by-line copy produces.
 */
module Text {
  import opened Wrappers

  /** The index of the first occurrence of c in s, if any. */
  function IndexOf(s: string, c: char): (r: Option<nat>)
    ensures r.None? ==> c !in s
    ensures r.Some? ==> r.value < |s| && s[r.value] == c && c !in s[..r.value]
  {
    if |s| == 0 then None
    else if s[0] == c then Some(0)
    else match IndexOf(s[1..], c)
      case None => None
      case Some(i) =>
        assert s[..i + 1] == [s[0]] + s[1..][..i];
        Some(i + 1)
  }

  /** strings.Join(pieces, string(sep)). */
  function Join(pieces: seq<string>, sep: char): string
  {
    if |pieces| == 0 then ""
    else if |pieces| == 1 then pieces[0]
    else pieces[0] + [sep] + Join(pieces[1..], sep)
  }

  /**
    strings.Split(s, string(sep)): the pieces of s between the occurrences of
    sep, so an empty s gives one empty piece and a trailing sep gives an empty
    last piece.
   */
  function Split(s: string, sep: char): (r: seq<string>)
    ensures |r| >= 1
    decreases |s|
  {
    match IndexOf(s, sep)
    case None => [s]
    case Some(i) => [s[..i]] + Split(s[i + 1..], sep)
  }

  /** Joining the pieces gives back the text, and no piece holds the separator. */
  lemma {:induction false} JoinSplit(s: string, sep: char)
    ensures forall i :: 0 <= i < |Split(s, sep)| ==> sep !in Split(s, sep)[i]
    ensures Join(Split(s, sep), sep) == s
    decreases |s|
  {
    match IndexOf(s, sep)
    case None =>
    case Some(i) =>
      var rest := Split(s[i + 1..], sep);
      JoinSplit(s[i + 1..], sep);
      assert Split(s, sep) == [s[..i]] + rest;
      assert ([s[..i]] + rest)[1..] == rest;
      assert s == s[..i] + [sep] + s[i + 1..];
  }

  /** The text written when every piece is followed by sep. */
  function Terminated(q: seq<string>, sep: char): string
  {
    if |q| == 0 then "" else q[0] + [sep] + Terminated(q[1..], sep)
  }

  lemma {:induction false} IndexOfConcat(a: string, c: char, b: string)
    requires c !in a
    ensures IndexOf(a + [c] + b, c) == Some(|a|)
  {
    if |a| > 0 {
      assert (a + [c] + b)[1..] == a[1..] + [c] + b;
      IndexOfConcat(a[1..], c, b);
    }
  }

  /** Splitting undoes joining, as long as no piece holds the separator. */
  lemma {:induction false} SplitJoin(q: seq<string>, sep: char)
    requires |q| >= 1
    requires forall i :: 0 <= i < |q| ==> sep !in q[i]
    ensures Split(Join(q, sep), sep) == q
  {
    if |q| > 1 {
      var s := Join(q, sep);
      assert s == q[0] + [sep] + Join(q[1..], sep);
      IndexOfConcat(q[0], sep, Join(q[1..], sep));
      assert s[..|q[0]|] == q[0];
      assert s[|q[0]| + 1..] == Join(q[1..], sep);
      SplitJoin(q[1..], sep);
    }
  }

  /** Appending a piece to a terminated text. */
  lemma {:induction false} TerminatedSnoc(q: seq<string>, x: string, sep: char)
    ensures Terminated(q + [x], sep) == Terminated(q, sep) + x + [sep]
  {
    if |q| > 0 {
      assert (q + [x])[1..] == q[1..] + [x];
      TerminatedSnoc(q[1..], x, sep);
    }
  }

  /** Joining is terminating every piece but the last. */
  lemma {:induction false} JoinTerminated(q: seq<string>, t: string, sep: char)
    ensures Join(q + [t], sep) == Terminated(q, sep) + t
  {
    if |q| > 0 {
      assert (q + [t])[1..] == q[1..] + [t];
      JoinTerminated(q[1..], t, sep);
    }
  }

  /** The last piece is what follows the last separator: empty when s ends in one. */
  lemma {:induction false} SplitTrailing(s: string, sep: char)
    requires |s| > 0 && s[|s| - 1] == sep
    ensures Split(s, sep)[|Split(s, sep)| - 1] == ""
    decreases |s|
  {
    match IndexOf(s, sep)
    case None =>
    case Some(i) =>
      if i + 1 < |s| {
        SplitTrailing(s[i + 1..], sep);
      }
  }
}
