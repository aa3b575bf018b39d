/**
  The state goFix builds up while it patches: the error it can stop with,
  the copies it writes, and the invariant of its patching loop with the
  lemmas that carry it from one file to the next.
 */
module FixState {
  import opened Wrappers
  import opened Patcher
  import opened Paths

  /** os.Open failing on a file to patch: the path is not in the file system. */
  datatype IoError = OpenFailed(path: string)

  function Elems(s: seq<string>): set<string>
  {
    set x | x in s
  }

  predicate Distinct(s: seq<string>)
  {
    forall i, j :: 0 <= i < j < |s| ==> s[i] != s[j]
  }

  /** The patched copies of files. */
  function TempPaths(files: set<string>): set<string>
  {
    set f | f in files :: TempPath(f)
  }

  /**
    Planned files that are clean and of which none is the patched copy of
    another; otherwise what is read, written and kept would depend on the
    order in which the plan's files are visited.
   */
  predicate Separate(files: set<string>)
  {
    && (forall f :: f in files ==> Clean(f))
    && (forall f, g :: f in files && g in files ==> g != TempPath(f))
  }

  /** The working set, the copies written so far, and the file system. */
  datatype Work = Work(working: set<string>, tmps: seq<string>, files: map<string, string>)

  /**
    Visiting one planned file: it leaves the working set; if it can be
    opened, its contents with the flagged lines commented out go to its copy,
    which joins the working set and the list of copies.
   */
  function Visit(plan: map<string, seq<nat>>, w: Work, f: string): (Option<IoError>, Work)
    requires f in plan
  {
    var working := w.working - {f};
    if f !in w.files then (Some(OpenFailed(f)), Work(working, w.tmps, w.files))
    else
      var t := TempPath(f);
      (None, Work(working + {t}, w.tmps + [t], w.files[t := Patched(w.files[f], plan[f])]))
  }

  /** Visiting planned files in the order q, stopping at the first that cannot be opened. */
  function Visits(plan: map<string, seq<nat>>, w: Work, q: seq<string>): (Option<IoError>, Work)
    requires Elems(q) <= plan.Keys
  {
    if |q| == 0 then (None, w)
    else
      var last := q[|q| - 1];
      assert last in Elems(q);
      var r := Visits(plan, w, q[..|q| - 1]);
      if r.0.Some? then r else Visit(plan, r.1, last)
  }

  /** The work goFix starts its patching loop from. */
  function Start(initial: set<string>, fs: map<string, string>): Work
  {
    Work(initial, [], fs)
  }

  /**
    What the patching loop leaves: the copies written and nothing else
    changed; on success one copy per planned file and the working set with
    copies for originals; on failure the planned file that could not be
    opened. Under a separate plan, the copies hold the patched contents and
    failure happens exactly when a planned file is missing.
   */
  ghost predicate Outcome(fs: map<string, string>, plan: map<string, seq<nat>>, initial: set<string>,
                          working: set<string>, tmps: seq<string>, err: Option<IoError>, files: map<string, string>)
  {
    && (files.Keys == fs.Keys + Elems(tmps))
    && (forall p :: p in fs && p !in Elems(tmps) ==> files[p] == fs[p])
    && (Elems(tmps) <= TempPaths(plan.Keys))
    && (err.None? ==>
        && Elems(tmps) == TempPaths(plan.Keys)
        && |tmps| == |plan.Keys|
        && initial - plan.Keys <= working <= (initial - plan.Keys) + TempPaths(plan.Keys))
    && (err.Some? ==> err.value.path in plan && |tmps| < |plan.Keys|)
    && (Separate(plan.Keys) ==>
        && Distinct(tmps)
        && (err.None? <==> plan.Keys <= fs.Keys)
        && (err.Some? ==> err.value.path !in fs))
    && (Separate(plan.Keys) && err.None? ==>
        && working == (initial - plan.Keys) + TempPaths(plan.Keys)
        && forall f :: f in plan ==> f in fs && TempPath(f) in files && files[TempPath(f)] == Patched(fs[f], plan[f]))
  }

  /** The files and copies written once the files in done have been patched. */
  ghost predicate Written(fs: map<string, string>, done: set<string>, tmps: seq<string>, files: map<string, string>)
  {
    && files.Keys == fs.Keys + Elems(tmps)
    && (forall p :: p in fs && p !in Elems(tmps) ==> files[p] == fs[p])
    && Elems(tmps) == TempPaths(done)
    && |tmps| == |done|
  }

  /** The working set once the files in done have been replaced by their copies. */
  ghost predicate Replaced(plan: set<string>, initial: set<string>, done: set<string>, working: set<string>)
  {
    initial - plan <= working <= (initial - done) + TempPaths(done)
  }

  /** What holds of the files in done when the plan is separate. */
  ghost predicate Exact(fs: map<string, string>, plan: map<string, seq<nat>>, initial: set<string>,
                        done: set<string>, working: set<string>, tmps: seq<string>, files: map<string, string>)
  {
    && Distinct(tmps)
    && done <= fs.Keys
    && working == (initial - done) + TempPaths(done)
    && Copied(fs, plan, done, files)
  }

  /** Each file in done has its patched contents in its copy. */
  ghost predicate Copied(fs: map<string, string>, plan: map<string, seq<nat>>, done: set<string>, files: map<string, string>)
  {
    forall f :: f in done ==> f in plan && f in fs && TempPath(f) in files && files[TempPath(f)] == Patched(fs[f], plan[f])
  }

  /** The patching loop's invariant once the files in done have been patched. */
  ghost predicate Patching(fs: map<string, string>, plan: map<string, seq<nat>>, initial: set<string>,
                           done: set<string>, working: set<string>, tmps: seq<string>, files: map<string, string>)
  {
    && done <= plan.Keys
    && Written(fs, done, tmps, files)
    && Replaced(plan.Keys, initial, done, working)
    && (Separate(plan.Keys) ==> Exact(fs, plan, initial, done, working, tmps, files))
  }

  lemma ElemsSnoc(s: seq<string>, x: string)
    ensures Elems(s + [x]) == Elems(s) + {x}
  {
    assert forall y :: y in s + [x] <==> y in s || y == x;
  }

  lemma CardAdd(s: set<string>, x: string)
    requires x !in s
    ensures |s + {x}| == |s| + 1
  {
    assert s * {x} == {};
  }

  lemma TempPathsAdd(done: set<string>, f: string)
    ensures TempPaths(done + {f}) == TempPaths(done) + {TempPath(f)}
  {
  }

  /** Under a separate plan, a file not yet patched is untouched and its copy is new. */
  lemma Fresh(fs: map<string, string>, plan: set<string>, done: set<string>, tmps: seq<string>, files: map<string, string>, f: string)
    requires Separate(plan) && done <= plan && f in plan && f !in done
    requires Written(fs, done, tmps, files)
    ensures f !in Elems(tmps) && TempPath(f) !in Elems(tmps)
    ensures f in files <==> f in fs
    ensures f in files ==> files[f] == fs[f]
  {
    forall g | g in done ensures TempPath(g) != TempPath(f) {
      TempPathInjective(g, f);
    }
  }

  lemma WrittenStep(fs: map<string, string>, done: set<string>, tmps: seq<string>, files: map<string, string>, f: string, contents: string)
    requires Written(fs, done, tmps, files) && f !in done
    ensures Written(fs, done + {f}, tmps + [TempPath(f)], files[TempPath(f) := contents])
  {
    var t := TempPath(f);
    ElemsSnoc(tmps, t);
    TempPathsAdd(done, f);
    CardAdd(done, f);
  }

  lemma ReplacedStep(plan: set<string>, initial: set<string>, done: set<string>, working: set<string>, f: string)
    requires Replaced(plan, initial, done, working) && f in plan
    ensures Replaced(plan, initial, done + {f}, (working - {f}) + {TempPath(f)})
  {
    TempPathsAdd(done, f);
  }

  lemma DistinctStep(tmps: seq<string>, t: string)
    requires Distinct(tmps) && t !in Elems(tmps)
    ensures Distinct(tmps + [t])
  {
    var tmps' := tmps + [t];
    forall i, j | 0 <= i < j < |tmps'| ensures tmps'[i] != tmps'[j] {
      if j == |tmps| {
        assert tmps[i] in Elems(tmps);
      }
    }
  }

  lemma ContentsStep(fs: map<string, string>, plan: map<string, seq<nat>>, done: set<string>,
                     files: map<string, string>, f: string)
    requires Separate(plan.Keys) && done <= plan.Keys && f in plan && f !in done && f in fs && f in files && files[f] == fs[f]
    requires Copied(fs, plan, done, files)
    ensures Copied(fs, plan, done + {f}, files[TempPath(f) := Patched(files[f], plan[f])])
  {
    forall g | g in done ensures TempPath(g) != TempPath(f) {
      TempPathInjective(g, f);
    }
  }

  lemma WorkingStep(initial: set<string>, done: set<string>, working: set<string>, f: string)
    requires working == (initial - done) + TempPaths(done)
    requires f !in TempPaths(done)
    ensures (working - {f}) + {TempPath(f)} == (initial - (done + {f})) + TempPaths(done + {f})
  {
    TempPathsAdd(done, f);
  }

  lemma ExactStep(fs: map<string, string>, plan: map<string, seq<nat>>, initial: set<string>,
                  done: set<string>, working: set<string>, tmps: seq<string>, files: map<string, string>, f: string)
    requires Separate(plan.Keys) && done <= plan.Keys && f in plan && f !in done
    requires f in fs && f in files && files[f] == fs[f]
    requires f !in TempPaths(done) && TempPath(f) !in Elems(tmps)
    requires Exact(fs, plan, initial, done, working, tmps, files)
    ensures Exact(fs, plan, initial, done + {f}, (working - {f}) + {TempPath(f)},
                  tmps + [TempPath(f)], files[TempPath(f) := Patched(files[f], plan[f])])
  {
    DistinctStep(tmps, TempPath(f));
    WorkingStep(initial, done, working, f);
    ContentsStep(fs, plan, done, files, f);
  }

  /** Patching one more file keeps the invariant. */
  lemma PatchStep(fs: map<string, string>, plan: map<string, seq<nat>>, initial: set<string>,
                  done: set<string>, working: set<string>, tmps: seq<string>, files: map<string, string>, f: string)
    requires Patching(fs, plan, initial, done, working, tmps, files)
    requires f in plan && f !in done && f in files
    ensures Patching(fs, plan, initial, done + {f}, (working - {f}) + {TempPath(f)},
                     tmps + [TempPath(f)], files[TempPath(f) := Patched(files[f], plan[f])])
  {
    WrittenStep(fs, done, tmps, files, f, Patched(files[f], plan[f]));
    ReplacedStep(plan.Keys, initial, done, working, f);
    if Separate(plan.Keys) {
      Fresh(fs, plan.Keys, done, tmps, files, f);
      assert f !in TempPaths(done);
      ExactStep(fs, plan, initial, done, working, tmps, files, f);
    }
  }

  /** A file that cannot be opened ends the loop with fewer copies than planned files. */
  lemma FailedStep(fs: map<string, string>, plan: map<string, seq<nat>>, initial: set<string>,
                   done: set<string>, pending: set<string>, working: set<string>, working': set<string>,
                   tmps: seq<string>, files: map<string, string>, f: string)
    requires Patching(fs, plan, initial, done, working, tmps, files)
    requires pending !! done && pending + done == plan.Keys
    requires f in pending && f !in files
    ensures Outcome(fs, plan, initial, working', tmps, Some(OpenFailed(f)), files)
  {
    assert |plan.Keys| == |done| + |pending|;
    if Separate(plan.Keys) {
      Fresh(fs, plan.Keys, done, tmps, files, f);
    }
  }

  /** With every planned file patched, the loop's invariant gives goFix's results. */
  lemma Finished(fs: map<string, string>, plan: map<string, seq<nat>>, initial: set<string>,
                 working: set<string>, tmps: seq<string>, files: map<string, string>)
    requires Patching(fs, plan, initial, plan.Keys, working, tmps, files)
    ensures Outcome(fs, plan, initial, working, tmps, None, files)
  {
  }

  /** Along any repetition-free order of planned files, the loop's invariant holds while every file opens. */
  lemma {:induction false} VisitsPatching(fs: map<string, string>, plan: map<string, seq<nat>>, initial: set<string>, q: seq<string>)
    requires Distinct(q) && Elems(q) <= plan.Keys
    ensures var r := Visits(plan, Start(initial, fs), q);
      r.0.None? ==> Patching(fs, plan, initial, Elems(q), r.1.working, r.1.tmps, r.1.files)
  {
    if |q| > 0 {
      var front, last := q[..|q| - 1], q[|q| - 1];
      assert q == front + [last];
      assert Elems(q) == Elems(front) + {last};
      assert Distinct(front);
      VisitsPatching(fs, plan, initial, front);
      var r := Visits(plan, Start(initial, fs), front);
      if r.0.None? && last in r.1.files {
        assert last !in Elems(front);
        PatchStep(fs, plan, initial, Elems(front), r.1.working, r.1.tmps, r.1.files, last);
      }
    } else {
      PatchingStart(fs, plan, initial);
    }
  }

  /** The loop's invariant holds before any file is visited. */
  lemma PatchingStart(fs: map<string, string>, plan: map<string, seq<nat>>, initial: set<string>)
    ensures Patching(fs, plan, initial, Elems([]), initial, [], fs)
  {
    assert TempPaths({}) == {};
  }

  /** The first planned file that cannot be opened ends the loop with goFix's error outcome. */
  lemma {:induction false} VisitsFailure(fs: map<string, string>, plan: map<string, seq<nat>>, initial: set<string>, q: seq<string>)
    requires Distinct(q) && Elems(q) <= plan.Keys
    ensures var r := Visits(plan, Start(initial, fs), q);
      r.0.Some? ==> Outcome(fs, plan, initial, r.1.working, r.1.tmps, r.0, r.1.files)
  {
    if |q| > 0 {
      var front, last := q[..|q| - 1], q[|q| - 1];
      assert q == front + [last];
      assert Elems(q) == Elems(front) + {last};
      assert Distinct(front);
      var r := Visits(plan, Start(initial, fs), front);
      if r.0.Some? {
        VisitsFailure(fs, plan, initial, front);
      } else if last !in r.1.files {
        VisitFails(fs, plan, initial, front, last);
      }
    }
  }

  /** The visit that fails after front went well gives the error outcome. */
  lemma VisitFails(fs: map<string, string>, plan: map<string, seq<nat>>, initial: set<string>, front: seq<string>, last: string)
    requires Distinct(front) && Elems(front) <= plan.Keys && last in plan && last !in Elems(front)
    requires Visits(plan, Start(initial, fs), front).0.None?
    requires last !in Visits(plan, Start(initial, fs), front).1.files
    ensures var w := Visits(plan, Start(initial, fs), front).1;
      Outcome(fs, plan, initial, w.working - {last}, w.tmps, Some(OpenFailed(last)), w.files)
  {
    var w := Visits(plan, Start(initial, fs), front).1;
    VisitsPatching(fs, plan, initial, front);
    FailedStep(fs, plan, initial, Elems(front), plan.Keys - Elems(front), w.working, w.working - {last}, w.tmps, w.files, last);
  }

  /** An order that visits every planned file, or stops early, gives goFix's outcome. */
  lemma VisitsOutcome(fs: map<string, string>, plan: map<string, seq<nat>>, initial: set<string>, q: seq<string>)
    requires Distinct(q) && Elems(q) <= plan.Keys
    requires Visits(plan, Start(initial, fs), q).0.None? ==> Elems(q) == plan.Keys
    ensures var r := Visits(plan, Start(initial, fs), q);
      Outcome(fs, plan, initial, r.1.working, r.1.tmps, r.0, r.1.files)
  {
    VisitsPatching(fs, plan, initial, q);
    VisitsFailure(fs, plan, initial, q);
    var r := Visits(plan, Start(initial, fs), q);
    if r.0.None? {
      Finished(fs, plan, initial, r.1.working, r.1.tmps, r.1.files);
    }
  }

  /** Visiting one more file. */
  lemma VisitsSnoc(plan: map<string, seq<nat>>, w: Work, q: seq<string>, f: string)
    requires Elems(q) <= plan.Keys && f in plan
    ensures Elems(q + [f]) == Elems(q) + {f}
    ensures var r := Visits(plan, w, q);
      Visits(plan, w, q + [f]) == if r.0.Some? then r else Visit(plan, r.1, f)
  {
    assert (q + [f])[..|q|] == q;
    assert Elems(q + [f]) == Elems(q) + {f};
  }
}
