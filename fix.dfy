/**
  goFix (src/gorun/gorun.go:46-85): classify the build output, then, when
  every error is an unused import, write a patched copy of each flagged file
  and put the copy in the working set instead of the original. The file
  system is a map from path to contents, passed in and handed back.
 */
module GoFix {
  import opened Wrappers
  import opened Text
  import opened Diagnostics
  import opened Patcher
  import opened Paths
  import opened FixState

  /** The working set goFix starts from: the files it was given (gorun.go:47-50). */
  method WorkingSet(infiles: seq<string>) returns (working: set<string>)
    ensures working == Elems(infiles)
  {
    working := {};
    for i := 0 to |infiles|
      invariant working == Elems(infiles[..i])
    {
      assert infiles[..i + 1] == infiles[..i] + [infiles[i]];
      working := working + {infiles[i]};
    }
    assert infiles[..|infiles|] == infiles;
  }

  /**
    The patching loop of goFix: each planned file, in an order left open as
    Go's map iteration leaves it, is read, patched into its sibling "tmp."
    copy, and replaced by that copy in the working set. A planned file that
    cannot be opened stops the loop with that error. The order taken is
    returned as a ghost value: the loop does what visiting the planned files
    in that order does.
   */
  method PatchFiles(plan: map<string, seq<nat>>, initial: set<string>, fs: map<string, string>)
    returns (working: set<string>, tmps: seq<string>, err: Option<IoError>, files: map<string, string>, ghost order: seq<string>)
    ensures Distinct(order) && Elems(order) <= plan.Keys
    ensures err.None? ==> Elems(order) == plan.Keys
    ensures Visits(plan, Start(initial, fs), order) == (err, Work(working, tmps, files))
  {
    working, tmps, err, files := initial, [], None, fs;
    order := [];
    var pending := plan.Keys;
    while pending != {}
      invariant Distinct(order) && Elems(order) !! pending && Elems(order) + pending == plan.Keys
      invariant Visits(plan, Start(initial, fs), order) == (None, Work(working, tmps, files))
      decreases |pending|
    {
      var fname :| fname in pending;
      pending := pending - {fname};
      VisitsSnoc(plan, Start(initial, fs), order, fname);
      DistinctStep(order, fname);
      order := order + [fname];
      var inf := fname;
      working := working - {inf};
      if inf !in files {
        err := Some(OpenFailed(inf));
        return;
      }
      var tmpf := TempPath(inf);
      var patched := CommentLines(files[inf], plan[fname]);
      files := files[tmpf := patched];
      tmps := tmps + [tmpf];
      working := working + {tmpf};
    }
  }

  /** The final working set as a list, in an order left open as Go's map iteration leaves it. */
  method Listing(working: set<string>) returns (gofiles: seq<string>)
    ensures Elems(gofiles) == working && Distinct(gofiles)
  {
    gofiles := [];
    var rest := working;
    while rest != {}
      invariant rest <= working
      invariant Elems(gofiles) == working - rest
      invariant Distinct(gofiles)
      decreases |rest|
    {
      var k :| k in rest;
      DistinctStep(gofiles, k);
      assert Elems(gofiles + [k]) == Elems(gofiles) + {k};
      gofiles := gofiles + [k];
      rest := rest - {k};
    }
  }

  /**
    goFix. An output with a line that is neither skipped nor an unused import
    gives canFix = false and nothing else. Otherwise every planned file is
    patched into its copy, and the working set, with the copies in place of
    the originals, is returned with the copies written; a planned file that
    cannot be opened gives that error and no files to build.
   */
  method Fix(infiles: seq<string>, errors: string, fs: map<string, string>)
    returns (gofiles: seq<string>, tmps: seq<string>, canFix: bool, err: Option<IoError>, files: map<string, string>)
    ensures canFix == Fixable(Split(errors, '\n'))
    ensures !canFix ==> gofiles == [] && tmps == [] && err.None? && files == fs
    ensures canFix ==> files.Keys == fs.Keys + Elems(tmps)
    ensures canFix ==> forall p :: p in fs && p !in Elems(tmps) ==> files[p] == fs[p]
    ensures canFix ==> Elems(tmps) <= TempPaths(PlanOf(errors).Keys)
    ensures canFix && err.None? ==>
      && Elems(tmps) == TempPaths(PlanOf(errors).Keys)
      && |tmps| == |PlanOf(errors).Keys|
      && Elems(infiles) - PlanOf(errors).Keys <= Elems(gofiles)
      && Elems(gofiles) <= (Elems(infiles) - PlanOf(errors).Keys) + TempPaths(PlanOf(errors).Keys)
      && Distinct(gofiles)
    ensures canFix && err.Some? ==>
      gofiles == [] && err.value.path in PlanOf(errors) && |tmps| < |PlanOf(errors).Keys|
    ensures canFix && Separate(PlanOf(errors).Keys) ==>
      && Distinct(tmps)
      && (err.None? <==> PlanOf(errors).Keys <= fs.Keys)
      && (err.Some? ==> err.value.path !in fs)
    ensures canFix && Separate(PlanOf(errors).Keys) && err.None? ==>
      && Elems(gofiles) == (Elems(infiles) - PlanOf(errors).Keys) + TempPaths(PlanOf(errors).Keys)
      && forall f :: f in PlanOf(errors) ==>
           f in fs && TempPath(f) in files && files[TempPath(f)] == Patched(fs[f], PlanOf(errors)[f])
  {
    var working := WorkingSet(infiles);
    var toFix;
    canFix, toFix := Classify(errors);
    gofiles, tmps, err, files := [], [], None, fs;
    if !canFix {
      return;
    }
    ghost var order;
    ghost var initial := working;
    working, tmps, err, files, order := PatchFiles(toFix, working, fs);
    VisitsOutcome(fs, toFix, initial, order);
    if err.None? {
      gofiles := Listing(working);
    }
  }
}
