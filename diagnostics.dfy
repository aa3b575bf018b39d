/**
  The error classifier of goFix (src/gorun/gorun.go:52-68): the one fixed
  pattern `^([^:]+):(\d+): imported and not used: "([^"]+)"$`, written out as
  a matcher, strconv.Atoi on its digit run, and the loop that groups the
  matching diagnostics by file or gives up at the first line it cannot fix.
 */
module Diagnostics {
  import opened Wrappers
  import opened Text

  /** The three submatches of the unused-import pattern. */
  datatype ImportError = ImportError(file: string, digits: string, importPath: string)

  /** The literal text between the digit run and the quoted import path. */
  const Message: string := ": imported and not used: \""

  /** \d in Go's regular expressions: an ASCII digit. */
  predicate IsDigit(c: char)
  {
    '0' <= c <= '9'
  }

  predicate AllDigits(s: string)
  {
    forall i :: 0 <= i < |s| ==> IsDigit(s[i])
  }

  /** What each group of the pattern admits: [^:]+, \d+ and [^"]+. */
  predicate WellFormed(e: ImportError)
  {
    && |e.file| > 0 && ':' !in e.file
    && |e.digits| > 0 && AllDigits(e.digits)
    && |e.importPath| > 0 && '"' !in e.importPath
  }

  /** The line that the pattern reads as the submatches e. */
  function Render(e: ImportError): string
  {
    e.file + ":" + e.digits + Message + e.importPath + "\""
  }

  /** The length of the run of digits at the start of s. */
  function DigitRun(s: string): (n: nat)
    ensures n <= |s|
    ensures AllDigits(s[..n])
    ensures n < |s| ==> !IsDigit(s[n])
  {
    if |s| == 0 || !IsDigit(s[0]) then 0
    else
      var n := 1 + DigitRun(s[1..]);
      assert s[..n] == [s[0]] + s[1..][..n - 1];
      n
  }

  /** `([^"]+)"$`: a non-empty quote-free import path and the closing quote that ends the line. */
  function MatchQuoted(s: string): (r: Option<string>)
    ensures r.Some? ==> |r.value| > 0 && '"' !in r.value && s == r.value + "\""
  {
    if |s| < 2 || s[|s| - 1] != '"' || '"' in s[..|s| - 1] then None
    else Some(s[..|s| - 1])
  }

  /** `(\d+): imported and not used: "([^"]+)"$`: what follows the first colon. */
  function MatchAfterColon(rest: string): (r: Option<(string, string)>)
    ensures r.Some? ==> |r.value.0| > 0 && AllDigits(r.value.0) && |r.value.1| > 0 && '"' !in r.value.1
    ensures r.Some? ==> rest == r.value.0 + Message + r.value.1 + "\""
  {
    var n := DigitRun(rest);
    var tail := rest[n..];
    if n == 0 || !(Message <= tail) then None
    else match MatchQuoted(tail[|Message|..])
      case None => None
      case Some(path) =>
        assert tail == Message + tail[|Message|..];
        assert rest == rest[..n] + tail;
        Some((rest[..n], path))
  }

  /**
    FindStringSubmatch with the unused-import pattern. [^:]+ followed by ':'
    can only stop at the first colon, \d+ followed by ':' only at the end of
    the digit run, and ([^"]+)"$ leaves exactly the last character to the
    closing quote; so each group has one place to go.
   */
  function MatchImportError(line: string): (r: Option<ImportError>)
    ensures r.Some? ==> WellFormed(r.value) && Render(r.value) == line
  {
    match IndexOf(line, ':')
    case None => None
    case Some(c) =>
      if c == 0 then None
      else match MatchAfterColon(line[c + 1..])
        case None => None
        case Some(groups) =>
          var e := ImportError(line[..c], groups.0, groups.1);
          RenderSplit(e);
          assert line == line[..c] + ":" + line[c + 1..];
          Some(e)
  }

  lemma RenderSplit(e: ImportError)
    ensures Render(e) == e.file + ":" + (e.digits + Message + e.importPath + "\"")
  {
  }

  /** The matcher accepts every line the pattern describes, with those submatches. */
  lemma MatchRender(e: ImportError)
    requires WellFormed(e)
    ensures MatchImportError(Render(e)) == Some(e)
  {
    var line := Render(e);
    var rest := e.digits + Message + e.importPath + "\"";
    RenderSplit(e);
    assert line == e.file + [':'] + rest;
    IndexOfConcat(e.file, ':', rest);
    assert line[..|e.file|] == e.file;
    assert line[|e.file| + 1..] == rest;
    MatchAfterColonRender(e.digits, e.importPath);
  }

  lemma MatchAfterColonRender(digits: string, path: string)
    requires |digits| > 0 && AllDigits(digits) && |path| > 0 && '"' !in path
    ensures MatchAfterColon(digits + Message + path + "\"") == Some((digits, path))
  {
    var quoted := path + "\"";
    var tail := Message + quoted;
    var rest := digits + tail;
    assert rest == digits + Message + path + "\"";
    DigitRunConcat(digits, tail);
    assert rest[|digits|..] == tail;
    assert rest[..|digits|] == digits;
    assert tail[|Message|..] == quoted;
    MatchQuotedRender(path);
  }

  lemma MatchQuotedRender(path: string)
    requires |path| > 0 && '"' !in path
    ensures MatchQuoted(path + "\"") == Some(path)
  {
    var quoted := path + "\"";
    assert quoted[..|quoted| - 1] == path;
  }

  lemma {:induction false} DigitRunConcat(d: string, t: string)
    requires AllDigits(d)
    requires |t| > 0 && !IsDigit(t[0])
    ensures DigitRun(d + t) == |d|
  {
    if |d| > 0 {
      assert (d + t)[1..] == d[1..] + t;
      DigitRunConcat(d[1..], t);
    } else {
      assert d + t == t;
    }
  }

  /** The numeric value of an ASCII digit. */
  function DigitValue(c: char): nat
    requires IsDigit(c)
  {
    c as int - '0' as int
  }

  /** strconv.Atoi on a run of digits, with no bound on the value. */
  function DecimalValue(digits: string): nat
    requires AllDigits(digits)
  {
    if |digits| == 0 then 0
    else 10 * DecimalValue(digits[..|digits| - 1]) + DigitValue(digits[|digits| - 1])
  }

  /** The decimal numeral of n without leading zeros, as the compiler writes line numbers. */
  function DecimalString(n: nat): (s: string)
    ensures |s| > 0 && AllDigits(s)
  {
    if n < 10 then [('0' as int + n) as char]
    else DecimalString(n / 10) + [('0' as int + n % 10) as char]
  }

  /** Reading back a written line number gives the number. */
  lemma {:induction false} DecimalRoundTrip(n: nat)
    ensures DecimalValue(DecimalString(n)) == n
  {
    if n >= 10 {
      var s := DecimalString(n);
      assert s[..|s| - 1] == DecimalString(n / 10);
      DecimalRoundTrip(n / 10);
    }
  }

  /** A blank line or a line starting with '#' (the package header) is passed over. */
  predicate Skipped(line: string)
  {
    line == "" || line[0] == '#'
  }

  /** A line that is neither passed over nor an unused-import diagnostic. */
  predicate Unfixable(line: string)
  {
    !Skipped(line) && MatchImportError(line).None?
  }

  /** Every line is passed over or is an unused-import diagnostic. */
  predicate Fixable(lines: seq<string>)
  {
    forall i :: 0 <= i < |lines| ==> !Unfixable(lines[i])
  }

  /** The file and line number that a diagnostic line contributes to the plan. */
  function Entry(line: string): (r: Option<(string, nat)>)
  {
    if Skipped(line) then None
    else match MatchImportError(line)
      case None => None
      case Some(e) => Some((e.file, DecimalValue(e.digits)))
  }

  predicate Names(line: string, file: string)
  {
    Entry(line).Some? && Entry(line).value.0 == file
  }

  /** The line numbers that the lines flag in file, in the order the lines come. */
  function Flagged(lines: seq<string>, file: string): seq<nat>
  {
    if |lines| == 0 then []
    else
      var last := lines[|lines| - 1];
      Flagged(lines[..|lines| - 1], file) + (if Names(last, file) then [Entry(last).value.1] else [])
  }

  /** The files that some line flags. */
  function Files(lines: seq<string>): set<string>
  {
    if |lines| == 0 then {}
    else
      var last := lines[|lines| - 1];
      Files(lines[..|lines| - 1]) + (if Entry(last).Some? then {Entry(last).value.0} else {})
  }

  /** The fix plan: for each flagged file, its flagged line numbers. */
  function Plan(lines: seq<string>): map<string, seq<nat>>
  {
    map f | f in Files(lines) :: Flagged(lines, f)
  }

  /** The fix plan of a whole build output. */
  function PlanOf(errors: string): map<string, seq<nat>>
  {
    Plan(Split(errors, '\n'))
  }

  function Get(m: map<string, seq<nat>>, f: string): seq<nat>
  {
    if f in m then m[f] else []
  }

  /** One more line either leaves the plan alone or appends its number under its file. */
  lemma PlanSnoc(lines: seq<string>, line: string)
    ensures Plan(lines + [line]) ==
      if Entry(line).Some?
      then Plan(lines)[Entry(line).value.0 := Get(Plan(lines), Entry(line).value.0) + [Entry(line).value.1]]
      else Plan(lines)
  {
    if Entry(line).None? {
      PlanSnocOther(lines, line);
    } else {
      PlanSnocEntry(lines, line);
    }
  }

  lemma FlaggedSnoc(lines: seq<string>, line: string, f: string)
    ensures Flagged(lines + [line], f) == Flagged(lines, f) + (if Names(line, f) then [Entry(line).value.1] else [])
  {
    var all := lines + [line];
    assert all[..|all| - 1] == lines && all[|all| - 1] == line;
  }

  lemma FilesSnoc(lines: seq<string>, line: string)
    ensures Files(lines + [line]) == Files(lines) + (if Entry(line).Some? then {Entry(line).value.0} else {})
  {
    var all := lines + [line];
    assert all[..|all| - 1] == lines && all[|all| - 1] == line;
  }

  lemma PlanSnocOther(lines: seq<string>, line: string)
    requires Entry(line).None?
    ensures Plan(lines + [line]) == Plan(lines)
  {
    var all := lines + [line];
    FilesSnoc(lines, line);
    forall g | g in Plan(all) ensures Plan(all)[g] == Plan(lines)[g] {
      FlaggedSnoc(lines, line, g);
    }
  }

  lemma PlanSnocEntry(lines: seq<string>, line: string)
    requires Entry(line).Some?
    ensures Plan(lines + [line]) ==
      Plan(lines)[Entry(line).value.0 := Get(Plan(lines), Entry(line).value.0) + [Entry(line).value.1]]
  {
    var all := lines + [line];
    var f := Entry(line).value.0;
    var expected := Plan(lines)[f := Get(Plan(lines), f) + [Entry(line).value.1]];
    FilesSnoc(lines, line);
    if f !in Files(lines) {
      FlaggedOutside(lines, f);
    }
    assert Plan(all).Keys == expected.Keys;
    forall g | g in expected ensures Plan(all)[g] == expected[g] {
      FlaggedSnoc(lines, line, g);
    }
  }

  /** A file that no line flags has no flagged numbers. */
  lemma {:induction false} FlaggedOutside(lines: seq<string>, file: string)
    requires file !in Files(lines)
    ensures Flagged(lines, file) == []
  {
    if |lines| > 0 {
      FlaggedOutside(lines[..|lines| - 1], file);
    }
  }

  /** A file is in the plan exactly when some line names it. */
  lemma {:induction false} FilesNamed(lines: seq<string>, file: string)
    ensures file in Files(lines) <==> exists i :: 0 <= i < |lines| && Names(lines[i], file)
  {
    if |lines| > 0 {
      var init := lines[..|lines| - 1];
      FilesNamed(init, file);
      if exists i :: 0 <= i < |lines| && Names(lines[i], file) {
        var i :| 0 <= i < |lines| && Names(lines[i], file);
        if i < |init| {
          assert Names(init[i], file);
        }
      }
      if exists i :: 0 <= i < |init| && Names(init[i], file) {
        var i :| 0 <= i < |init| && Names(init[i], file);
        assert Names(lines[i], file);
      }
    }
  }

  /** The indices of the lines that satisfy p. */
  function Indices(lines: seq<string>, p: string -> bool): set<nat>
  {
    if |lines| == 0 then {}
    else
      var n := |lines| - 1;
      Indices(lines[..n], p) + (if p(lines[n]) then {n} else {})
  }

  lemma {:induction false} IndicesMembers(lines: seq<string>, p: string -> bool, i: nat)
    ensures i in Indices(lines, p) <==> i < |lines| && p(lines[i])
  {
    if |lines| > 0 {
      var n := |lines| - 1;
      IndicesMembers(lines[..n], p, i);
      if i < n {
        assert lines[..n][i] == lines[i];
      }
    }
  }

  /** The indices of the lines that name file. */
  function Naming(lines: seq<string>, file: string): set<nat>
  {
    Indices(lines, line => Names(line, file))
  }

  /** Naming holds exactly the indices of the lines that name file. */
  lemma NamingMembers(lines: seq<string>, file: string, i: nat)
    ensures i in Naming(lines, file) <==> i < |lines| && Names(lines[i], file)
  {
    IndicesMembers(lines, line => Names(line, file), i);
  }

  /** A file's plan entry has one number per line that names it. */
  lemma {:induction false} FlaggedCount(lines: seq<string>, file: string)
    ensures |Flagged(lines, file)| == |Naming(lines, file)|
  {
    if |lines| > 0 {
      var n := |lines| - 1;
      FlaggedCount(lines[..n], file);
      IndicesMembers(lines[..n], line => Names(line, file), n);
    }
  }

  /** The plan is unchanged by a skipped line anywhere in the output. */
  lemma SkippedLineIgnored(a: seq<string>, line: string, b: seq<string>)
    requires Skipped(line)
    ensures Fixable(a + [line] + b) == Fixable(a + b)
    ensures Plan(a + [line] + b) == Plan(a + b)
  {
    FixableSkipped(a, line, b);
    PlanSkipped(a, line, b);
  }

  lemma {:induction false} PlanSkipped(a: seq<string>, line: string, b: seq<string>)
    requires Skipped(line)
    ensures Files(a + [line] + b) == Files(a + b)
    ensures forall f :: Flagged(a + [line] + b, f) == Flagged(a + b, f)
    decreases |b|
  {
    var with, without := a + [line] + b, a + b;
    if |b| == 0 {
      assert with[..|with| - 1] == a && with[|with| - 1] == line && without == a;
    } else {
      var b' := b[..|b| - 1];
      PlanSkipped(a, line, b');
      assert with[..|with| - 1] == a + [line] + b';
      assert without[..|without| - 1] == a + b';
      assert with[|with| - 1] == without[|without| - 1];
    }
  }

  lemma FixableSkipped(a: seq<string>, line: string, b: seq<string>)
    requires Skipped(line)
    ensures Fixable(a + [line] + b) == Fixable(a + b)
  {
    var with, without := a + [line] + b, a + b;
    if Fixable(without) {
      forall i | 0 <= i < |with| ensures !Unfixable(with[i]) {
        if i < |a| {
          assert with[i] == without[i];
        } else if i > |a| {
          assert with[i] == without[i - 1];
        }
      }
    }
    if Fixable(with) {
      forall i | 0 <= i < |without| ensures !Unfixable(without[i]) {
        if i < |a| {
          assert with[i] == without[i];
        } else {
          assert with[i + 1] == without[i];
        }
      }
    }
  }

  /** Once a line cannot be fixed, nothing after it makes the output fixable. */
  lemma ShortCircuit(a: seq<string>, line: string, b: seq<string>)
    requires Unfixable(line)
    ensures !Fixable(a + [line] + b)
  {
    assert (a + [line] + b)[|a|] == line;
  }

  /**
    The classifying loop of goFix: walk the split output, pass over empty and
    '#' lines, stop at the first other line the pattern rejects, and append
    each diagnostic's number to its file's list.
   */
  method Classify(errors: string) returns (canFix: bool, toFix: map<string, seq<nat>>)
    ensures canFix == Fixable(Split(errors, '\n'))
    ensures canFix ==> toFix == PlanOf(errors)
  {
    var lines := Split(errors, '\n');
    toFix := map[];
    var i := 0;
    while i < |lines|
      invariant i <= |lines|
      invariant Fixable(lines[..i])
      invariant toFix == Plan(lines[..i])
    {
      var line := lines[i];
      ClassifyStep(lines, i);
      if line == "" || line[0] == '#' {
        i := i + 1;
        continue;
      }
      var ie := MatchImportError(line);
      if ie.None? {
        canFix := false;
        return;
      }
      var n := DecimalValue(ie.value.digits);
      var listed := if ie.value.file in toFix then toFix[ie.value.file] else [];
      toFix := toFix[ie.value.file := listed + [n]];
      i := i + 1;
    }
    assert lines[..i] == lines;
    canFix := true;
  }

  /** What one more line does to the loop's invariant. */
  lemma ClassifyStep(lines: seq<string>, i: nat)
    requires i < |lines|
    ensures Fixable(lines[..i + 1]) == (Fixable(lines[..i]) && !Unfixable(lines[i]))
    ensures !Fixable(lines[..i + 1]) ==> !Fixable(lines)
    ensures Plan(lines[..i + 1]) ==
      if Entry(lines[i]).Some?
      then Plan(lines[..i])[Entry(lines[i]).value.0 := Get(Plan(lines[..i]), Entry(lines[i]).value.0) + [Entry(lines[i]).value.1]]
      else Plan(lines[..i])
  {
    assert lines[..i + 1] == lines[..i] + [lines[i]];
    PlanSnoc(lines[..i], lines[i]);
    if !Fixable(lines[..i + 1]) {
      var j :| 0 <= j < i + 1 && Unfixable(lines[..i + 1][j]);
      assert lines[j] == lines[..i + 1][j];
    }
  }
}
