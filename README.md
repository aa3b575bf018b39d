# gorun: unused-import patching, modelled in Dafny

gorun builds a set of Go files. When the build fails only because some
imports are unused, it writes a copy of each offending file with the
offending lines commented out. It then runs the copies in place of the
originals. This project models the two core steps of
`src/gorun/gorun.go` and proves properties about them:

- **goCommentLines** (the patcher) copies a file line by line. It puts `//`
  in front of a line when the line's 1-based number equals the entry under a
  cursor into the file's list of flagged lines.
- **goFix** (the classifier and working set) does four things. It splits
  the build output into lines and skips empty lines and lines starting with
  `#`. It matches every other line against
  `^([^:]+):(\d+): imported and not used: "([^"]+)"$`, and gives up at the
  first line that does not match. It groups the flagged line numbers by file
  into a fix plan. Finally it patches each planned file into its sibling
  `tmp.<base>` and swaps that copy into the working set.

Modules, in dependency order:

- `Wrappers`: `Option`.
- `Text`: `strings.Split` and `strings.Join` for a one-character separator.
  Also the newline-terminated concatenation that a line-by-line copy writes.
- `Diagnostics`: a hand-written matcher for the one pattern, with its
  inverse `Render`. It also holds `strconv.Atoi` on the digit run, the fix
  plan as a function of the output's lines (`Plan`, `PlanOf`), and the
  classifying loop `Classify`.
- `Patcher`: the specification `Patched(src, flags)` of what goCommentLines
  writes, and the imperative `CommentLines` proved equal to it.
- `Paths`: `path.Dir`, `path.Base` and `path.Join` on clean paths, and
  `TempPath`.
- `FixState`: the file system is a map from path to contents, passed in and
  handed back. `Visits` is a functional model of the patching loop for a
  given visiting order. `Patching` is the loop's invariant, and `Outcome` is
  what the loop leaves.
- `GoFix`: the imperative goFix, in four methods: `WorkingSet`, `Classify`
  (from `Diagnostics`), `PatchFiles` and `Listing`.
- `Scenarios`: four worked cases: a repeated flagged entry, a diagnostic
  too short to match, and names that are or are not clean.

Go's map iteration order is unspecified. The model picks the next planned
file, and the next working-set entry, with a nondeterministic choice, so
every `ensures` holds for every order. `PatchFiles` returns the order it
took as a ghost value. It is proved to do exactly what `Visits` does along
that order.

One might expect an out-of-order entry in a file's flagged list to be
passed over while the cursor goes on to the next one. In the code
(gorun.go:32-33) the cursor only advances when the current line number
equals the entry under it. So an entry that is repeated, out of order, or
beyond the last terminated line stops the cursor for good, and every later
entry is ignored: with `[3, 3, 5]`, line 5 is never commented.
`CursorStalls`, `CursorStopsBeyond` and `Scenarios.RepeatedEntryStalls`
state this.

## Model

| member | source | states |
|---|---|---|
| Text.Split | src/gorun/gorun.go:54 | strings.Split always yields at least one piece |
| Text.JoinSplit | src/gorun/gorun.go:54 | no piece holds the separator, and joining the pieces gives the text back |
| Text.SplitJoin | src/gorun/gorun.go:54 | splitting undoes joining when no piece holds the separator |
| Text.SplitTrailing | src/gorun/gorun.go:54 | a text ending in the separator has an empty last piece |
| Diagnostics.DigitRun | src/gorun/gorun.go:52 | `\d+` takes the maximal run of ASCII digits: all digits, and the next character is not one |
| Diagnostics.MatchQuoted | src/gorun/gorun.go:52 | `([^"]+)"$` accepts only a non-empty, quote-free path followed by the closing quote at the end of the line |
| Diagnostics.MatchAfterColon | src/gorun/gorun.go:52 | after the first colon, the line is the digits, the fixed message, the path and the closing quote |
| Diagnostics.MatchImportError | src/gorun/gorun.go:52-60 | every accepted line is exactly the rendering of its submatches, and each submatch is what its group admits |
| Diagnostics.MatchRender | src/gorun/gorun.go:52-60 | every line of the pattern's form is accepted with exactly its submatches, the converse of MatchImportError |
| Diagnostics.DecimalValue | src/gorun/gorun.go:65 | strconv.Atoi on the digit run, as an unbounded number; DecimalRoundTrip pins it down as the inverse of the decimal numeral |
| Diagnostics.DecimalString | src/gorun/gorun.go:65 | the decimal rendering of a number is a non-empty digit run |
| Diagnostics.DecimalRoundTrip | src/gorun/gorun.go:65 | Atoi on the digit run is the inverse of decimal rendering |
| Diagnostics.Skipped | src/gorun/gorun.go:55-57 | the lines passed over: empty lines and lines starting with `#`; SkippedLineIgnored states their effect |
| Diagnostics.Entry | src/gorun/gorun.go:55-66 | what one line contributes: nothing for a skipped or unmatched line, otherwise the file submatch and the Atoi of the line-number submatch |
| Diagnostics.Plan | src/gorun/gorun.go:53-67 | the toFix map: each named file with its line numbers in output order; PlanSnoc, FilesNamed and FlaggedCount state its contents |
| Diagnostics.PlanOf | src/gorun/gorun.go:54 | the plan of a whole build output, split at newlines |
| Diagnostics.Classify | src/gorun/gorun.go:53-68 | canFix holds exactly when every line is skipped or an unused import; when it holds, the plan is PlanOf(errors) |
| Diagnostics.ClassifyStep | src/gorun/gorun.go:54-67 | one more line keeps the output fixable exactly when that line is fixable, an unfixable line spoils the whole output, and the plan grows by that line's entry |
| Diagnostics.PlanSnoc | src/gorun/gorun.go:65-66 | a matching line appends its line number to its file's entry and leaves the other files alone |
| Diagnostics.FlaggedSnoc | src/gorun/gorun.go:66 | a matching line extends only its own file's flagged list |
| Diagnostics.FilesSnoc | src/gorun/gorun.go:66 | a matching line adds its file to the planned files |
| Diagnostics.FlaggedOutside | src/gorun/gorun.go:66 | a file that no line names has an empty flagged list |
| Diagnostics.FilesNamed | src/gorun/gorun.go:66 | a file is planned exactly when some line names it |
| Diagnostics.NamingMembers | src/gorun/gorun.go:66 | Naming holds exactly the indices of the lines that name the file |
| Diagnostics.FlaggedCount | src/gorun/gorun.go:65-66 | a file's plan entry has one number per line that names it, repeats included |
| Diagnostics.SkippedLineIgnored | src/gorun/gorun.go:55-57 | an empty or `#` line anywhere changes neither fixability nor the plan |
| Diagnostics.ShortCircuit | src/gorun/gorun.go:59-64 | once one line is unfixable, no other lines make the output fixable |
| Patcher.Consumed | src/gorun/gorun.go:28-35 | how far the cursor idx has moved after the lines up to a bound, never beyond the list; ConsumedShape and ConsumedStep characterise it |
| Patcher.Marked | src/gorun/gorun.go:32-34 | the line numbers that get the `//` marker: the consumed entries; MarkedStep and MarkedDistinct characterise it |
| Patcher.Patched | src/gorun/gorun.go:26-41 | the text goCommentLines writes; PatchedLines, PatchedLength and PatchedUnflagged state what it is |
| Patcher.ConsumedShape | src/gorun/gorun.go:28-35 | the cursor consumes the longest prefix of the flagged list that rises strictly and stays within the lines read; the entry after it is out of range or not above its predecessor |
| Patcher.ConsumedStep | src/gorun/gorun.go:31-35 | reading line k+1 advances the cursor exactly when the entry under it is k+1 |
| Patcher.MarkedStep | src/gorun/gorun.go:31-35 | reading line k+1 adds k+1 to the commented lines exactly when the cursor's entry is k+1, and only lines already read are commented |
| Patcher.CommentLines | src/gorun/gorun.go:15-44 | the line-by-line copy with the cursor writes exactly Patched(src, flags) |
| Patcher.ReadingStep | src/gorun/gorun.go:30-40 | one turn of the read loop keeps the loop invariant: input read, output written and cursor agree with the specification |
| Patcher.LastStep | src/gorun/gorun.go:41 | the unterminated rest, written after the loop, completes the output |
| Patcher.PatchedLines | src/gorun/gorun.go:30-41 | the copy has as many lines as the source; each terminated line is the original, marked exactly when its number is commented; the last piece is unchanged |
| Patcher.PatchedUnflagged | src/gorun/gorun.go:30-41 | a flagged list the cursor consumes nothing of, for instance an empty one, leaves the text unchanged |
| Patcher.PatchedAscending | src/gorun/gorun.go:32-33 | a strictly ascending list of numbers of terminated lines is consumed whole, and exactly its lines are commented |
| Patcher.CursorStalls | src/gorun/gorun.go:32-33 | an entry not above its predecessor stops the cursor for good |
| Patcher.CursorStopsBeyond | src/gorun/gorun.go:30-33 | an entry beyond the last terminated line, including the unterminated rest's number, stops the cursor too |
| Patcher.MarkedDistinct | src/gorun/gorun.go:32-34 | consumed entries strictly increase, so each commented line is commented once and there are as many as entries consumed |
| Patcher.PatchedLength | src/gorun/gorun.go:34 | the copy is longer by two characters per consumed entry |
| Paths.Dir | src/gorun/gorun.go:73 | path.Dir on a clean path: before the last slash, "/" for a root entry, "." without a slash; TempPathParts and JoinParts use it |
| Paths.Base | src/gorun/gorun.go:73 | path.Base on a clean path: everything after the last slash |
| Paths.BaseParts | src/gorun/gorun.go:73 | the base is a slash-free suffix of the path, and the whole path exactly when the path has no slash |
| Paths.Join | src/gorun/gorun.go:73 | path.Join of a clean directory and a slash-free name other than "", "." and "..", as the "tmp." name at its one use is; JoinParts states that Dir and Base take it apart again |
| Paths.TempPath | src/gorun/gorun.go:73 | the copy's name Join(Dir(p), "tmp." + Base(p)); TempPathParts, TempPathDiffers and TempPathInjective state its properties |
| Paths.Clean | src/gorun/gorun.go:71 | a subset of the names path.Clean leaves as they are, on which Dir and Base agree with Go's: non-empty, no trailing slash, no empty, "." or ".." element |
| Paths.JoinParts | src/gorun/gorun.go:73 | Dir and Base of a directory joined with a slash-free name give back the directory and the name |
| Paths.LastIndexOf | src/gorun/gorun.go:73 | the last occurrence of the slash, with none after it |
| Paths.JoinDirBase | src/gorun/gorun.go:73 | a clean path is Join(Dir(p), Base(p)) |
| Paths.TempPathParts | src/gorun/gorun.go:73 | the copy sits in the original's directory, and its base is the original's base prefixed with "tmp." |
| Paths.TempPathDiffers | src/gorun/gorun.go:73 | a copy never has its original's name, so the patcher never overwrites the file it reads |
| Paths.TempPathInjective | src/gorun/gorun.go:71-73 | distinct clean paths have distinct copies |
| FixState.Visit | src/gorun/gorun.go:71-78 | one turn of the patch loop: drop the file from the working set, then either fail to open it, or write its patched copy, record the copy and add it to the working set |
| FixState.Visits | src/gorun/gorun.go:70-79 | the patch loop along a given order, stopping at the first file that cannot be opened; VisitsOutcome states its outcome |
| FixState.PatchStep | src/gorun/gorun.go:72-78 | patching one more openable file keeps the loop invariant |
| FixState.FailedStep | src/gorun/gorun.go:74-76 | a planned file that cannot be opened ends the loop with the error outcome |
| FixState.Finished | src/gorun/gorun.go:70-79 | with every planned file patched, the invariant gives the success outcome |
| FixState.VisitsPatching | src/gorun/gorun.go:70-79 | along any repetition-free order of planned files, the invariant holds while every file opens |
| FixState.VisitsFailure | src/gorun/gorun.go:74-76 | the first planned file that cannot be opened ends the loop with that error, fewer copies than planned files, and nothing written but those copies |
| FixState.VisitsOutcome | src/gorun/gorun.go:70-79 | an order that visits every planned file, or stops at a failure, gives goFix's outcome |
| FixState.VisitsSnoc | src/gorun/gorun.go:70-79 | visiting one more file is one more step of the model, unless an error already stopped it |
| FixState.DistinctStep | src/gorun/gorun.go:80-82 | appending a new element keeps a list free of repeats |
| GoFix.WorkingSet | src/gorun/gorun.go:47-50 | the working set is the set of input files |
| GoFix.PatchFiles | src/gorun/gorun.go:70-79 | the loop visits the planned files in a repetition-free order, all of them unless an open fails, and its state is what Visits gives for that order |
| GoFix.Listing | src/gorun/gorun.go:80-82 | the file list has every working-set entry once |
| GoFix.Fix | src/gorun/gorun.go:46-85 | goFix as a whole, described below |
| Scenarios.RepeatedEntryStalls | src/gorun/gorun.go:32-33 | with flagged lines [3, 3, 5], only line 3 is commented |
| Scenarios.ShortLineUnfixable | src/gorun/gorun.go:59-64 | a non-skipped line shorter than the shortest unused-import diagnostic makes the output unfixable |
| Scenarios.DotElementsUnclean | src/gorun/gorun.go:71 | names with a "." or ".." element, which path.Clean rewrites, are not clean |
| Scenarios.DottedNamesClean | src/gorun/gorun.go:71 | dots inside an element, as in "src/tmp.a.go", leave a name clean |

The `GoFix.Fix` row states the following:
- canFix holds exactly when every line is fixable.
- Unfixable output yields no files, no copies, no error and an unchanged
  file system.
- Otherwise the copies are added to the file system and nothing else
  changes.
- On success:
  - there is exactly one copy per planned file;
  - every unplanned input is listed;
  - only inputs and copies are listed, each once.
- On failure, nothing is listed and the error names a planned file.
- Under a separate plan (defined below):
  - the copies are distinct;
  - an error happens exactly when a planned file is missing;
  - the list is the unplanned inputs plus the copies;
  - each copy holds Patched of its original.

## Left out

- goBuild, goRun, remove and main (gorun.go:87-137) start processes, use
  the standard streams, read os.Args and exit through log.Fatal. They are
  not part of this model.
- File I/O is a map from path to contents. Opening fails exactly when the
  path is absent. The model does not cover failures of os.Create, of a
  Write, or of reading other than end of file. It also leaves out closing
  files, and the case where the final Write's result overrides a loop
  error (gorun.go:36-41).
- Strings are `seq<char>`, not bytes. The pattern, the separator and the
  marker are all ASCII.
- The regular expression engine is not modelled. Only the one fixed pattern
  is, as a matcher proved equivalent to its rendering.
- strings.TrimRight(line, "\n") (gorun.go:59) does nothing to a piece of a
  split on "\n", so it is left out.
- Diagnostics.DecimalValue: does not model strconv.Atoi's 64-bit range.
  For a digit run above 9223372036854775807, Atoi returns that maximum
  together with a range error; the code discards the error and keeps the
  clamped value (gorun.go:65). The model keeps the unbounded number, so the two
  differ only for line numbers above that maximum.
- path.Clean (gorun.go:71) is not modelled: the model uses each planned
  name as the output gives it. For a name that `Clean` accepts, that is what
  path.Clean returns. For other names the model can differ from the code.
  For a plan key "./a.go" with the input "a.go", the code removes "a.go"
  from the working set; the model removes only "./a.go", so "a.go" stays
  listed beside the copy. The copy's name, "tmp.a.go", is the same in both.
  For "a/./b", the code removes "a/b" and writes "a/tmp.b"; the model
  removes "a/./b" and writes "a/./tmp.b". So the bounds on names in
  GoFix.Fix describe the model's names, and only the exact results, which
  need clean names, hold for the code as well. Dir, Base and Join are
  modelled only on clean paths, as far as the copy's name needs.
- GoFix.Fix: states the exact file list and the copies' contents only when
  the plan is separate. A separate plan has only clean file names, and no
  planned file is the copy of another planned file. Otherwise what is read
  and listed depends on the map's iteration order. For such plans the
  contract gives bounds only.
- GoFix.Listing and GoFix.PatchFiles: the order of the returned lists comes
  from Go's map iteration. It is modelled as an unconstrained choice, not as
  any particular order.
- The working set that the loop has partly updated when an open fails is
  dropped, because goFix returns without it.
