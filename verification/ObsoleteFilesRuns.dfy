/** What holds over every run of the collection of table files. */
module ObsoleteFilesRuns {
  import opened Format
  import opened ObsoleteFiles

  /** Step n leads from state n to the next one. */
  ghost predicate StepAt(states: seq<State>, steps: seq<Step>, n: nat)
    requires n < |steps| == |states| - 1
  {
    Enabled(states[n], steps[n]) && states[n + 1] == Do(states[n], steps[n])
  }

  ghost predicate IsRun(states: seq<State>, steps: seq<Step>) {
    && |states| == |steps| + 1
    && Init(states[0])
    && forall n {:trigger StepAt(states, steps, n)} :: 0 <= n < |steps| ==> StepAt(states, steps, n)
  }

  lemma {:induction false} RunKeeps(states: seq<State>, steps: seq<Step>, n: nat)
    requires IsRun(states, steps) && n < |states|
    ensures Inv(states[n])
  {
    if n == 0 {
      InitHolds(states[0]);
    } else {
      RunKeeps(states, steps, n - 1);
      assert StepAt(states, steps, n - 1);
      StepKeeps(states[n - 1], steps[n - 1]);
    }
  }

  // ---------------------------------------------------------------- what is needed

  /** No scan before state n found f waiting for its commit and below the first pending output. */
  ghost predicate Spared(states: seq<State>, steps: seq<Step>, n: nat, f: FileNo)
    requires |states| == |steps| + 1 && n <= |steps|
  {
    forall m :: 0 <= m < n ==> !Condemns(states[m], steps[m], f)
  }

  lemma {:induction false} SparedIsKept(states: seq<State>, steps: seq<Step>, n: nat, f: FileNo)
    requires IsRun(states, steps) && n < |states| && Spared(states, steps, n, f)
    ensures Kept(states[n], f)
  {
    if n > 0 {
      SparedIsKept(states, steps, n - 1, f);
      RunKeeps(states, steps, n - 1);
      assert StepAt(states, steps, n - 1);
      StepSpares(states[n - 1], steps[n - 1], f);
    }
  }

  ghost predicate MayLose(s: State, f: FileNo) {
    Needed(s, f) && exists c :: Enabled(s, DeleteFile(c, f))
  }

  /** A file that is live, or waits for its commit, can be deleted at some point of a run exactly when
      some scan of the run condemned it. */
  lemma DeletionsAreSafeExactly(states: seq<State>, steps: seq<Step>, f: FileNo)
    requires IsRun(states, steps)
    ensures (exists n :: 0 <= n < |states| && MayLose(states[n], f)) <==> !Spared(states, steps, |steps|, f)
  {
    if m :| 0 <= m < |steps| && Condemns(states[m], steps[m], f) {
      RunKeeps(states, steps, m);
      assert StepAt(states, steps, m);
      CondemnedIsNotKept(states[m], steps[m], f);
      assert MayLose(states[m + 1], f);
    } else {
      forall n | 0 <= n < |states|
        ensures !MayLose(states[n], f)
      {
        SparedIsKept(states, steps, n, f);
        assert forall c :: Enabled(states[n], DeleteFile(c, f)) ==> Doomed(states[n].scans, c, f);
      }
    }
  }

  /** No deletion hits a file that belongs to a running job when it happens, nor, unless a scan
      condemned it, one that is live or waits for its commit. */
  lemma DeletionsAreSafe(states: seq<State>, steps: seq<Step>, n: nat)
    requires IsRun(states, steps) && n < |steps| && steps[n].DeleteFile?
    ensures forall j :: !Owns(states[n].jobs, j, steps[n].f)
    ensures Spared(states, steps, n, steps[n].f) ==> !Needed(states[n], steps[n].f)
  {
    RunKeeps(states, steps, n);
    assert StepAt(states, steps, n);
    assert Doomed(states[n].scans, steps[n].c, steps[n].f);
    if Spared(states, steps, n, steps[n].f) {
      SparedIsKept(states, steps, n, steps[n].f);
    }
  }

  /** Every file that a running job has written is on disk, and, unless a scan condemned it, so is every
      file of every version that is still referenced and every file that waits for its commit. */
  lemma NeededFilesStay(states: seq<State>, steps: seq<Step>, n: nat, f: FileNo)
    requires IsRun(states, steps) && n < |states|
    ensures forall j :: j in states[n].jobs && f in states[n].jobs[j].written + states[n].jobs[j].installed ==>
              f in states[n].disk
    ensures Spared(states, steps, n, f) && (IsLive(states[n].versions, f) || f in states[n].waiting) ==>
              f in states[n].disk
  {
    RunKeeps(states, steps, n);
    forall j | j in states[n].jobs && f in states[n].jobs[j].written + states[n].jobs[j].installed
      ensures f in states[n].disk
    {
      assert Owns(states[n].jobs, j, f);
    }
    if Spared(states, steps, n, f) {
      SparedIsKept(states, steps, n, f);
    }
  }

  /** As long as a job runs whose element is not above a file, no scan condemns the file. */
  lemma {:induction false} GuardSpares(states: seq<State>, steps: seq<Step>, m: nat, n: nat, j: JobId, f: FileNo)
    requires IsRun(states, steps) && m <= n < |steps|
    requires Guarded(states[m].pending, j, f)
    requires forall k :: m <= k < n ==> steps[k] != FinishJob(j)
    ensures Guarded(states[n].pending, j, f) && !Condemns(states[n], steps[n], f)
  {
    RunKeeps(states, steps, n);
    if m < n {
      GuardSpares(states, steps, m, n - 1, j, f);
      RunKeeps(states, steps, n - 1);
      assert steps[n - 1] != FinishJob(j);
      assert StepAt(states, steps, n - 1);
      GuardStays(states[n - 1], steps[n - 1], j, f, f);
    }
    GuardedIsNotBelow(states[n], j, f);
  }

  // ---------------------------------------------------------------- how a live file is lost

  lemma Extend(states: seq<State>, steps: seq<Step>, step: Step)
    requires IsRun(states, steps) && Enabled(states[|steps|], step)
    ensures IsRun(states + [Do(states[|steps|], step)], steps + [step])
  {
    var states', steps' := states + [Do(states[|steps|], step)], steps + [step];
    forall n | 0 <= n < |steps'|
      ensures StepAt(states', steps', n)
    {
      assert n < |steps| ==> StepAt(states, steps, n);
    }
  }

  /** Whatever run leads to a scan that condemns a file, any running job can commit the file before the
      purge gets to it. */
  lemma CondemnedCanBeLost(states: seq<State>, steps: seq<Step>, f: FileNo, j: JobId, v: VersionId)
    returns (states': seq<State>, steps': seq<Step>)
    requires IsRun(states, steps) && |steps| > 0
    requires Condemns(states[|steps| - 1], steps[|steps| - 1], f)
    requires j in states[|steps|].jobs && v !in states[|steps|].versions
    ensures IsRun(states', steps') && states <= states'
    ensures steps' == steps + [Install(j, v, {f}, {}), DeleteFile(steps[|steps| - 1].c, f)]
    ensures IsLive(states'[|steps| + 1].versions, f) && f !in states'[|steps| + 2].disk
  {
    var c := steps[|steps| - 1].c;
    RunKeeps(states, steps, |steps| - 1);
    RunKeeps(states, steps, |steps|);
    assert StepAt(states, steps, |steps| - 1);
    CondemnedIsNotKept(states[|steps| - 1], steps[|steps| - 1], f);
    var install := Install(j, v, {f}, {});
    var s1 := Do(states[|steps|], install);
    assert v in s1.versions && f in s1.versions[v];
    Extend(states, steps, install);
    Extend(states + [s1], steps + [install], DeleteFile(c, f));
    states' := states + [s1] + [Do(s1, DeleteFile(c, f))];
    steps' := steps + [install] + [DeleteFile(c, f)];
  }

  /** A flush that writes f and leaves the commit to another job. */
  function Flush(b: JobId, f: FileNo): seq<Step> {
    [StartJob(b), NewFileNumber(b), WriteFile(b, f), Complete(b, f), FinishJob(b)]
  }

  /** The flush of a younger memtable ends while that of an older one, job a, runs on. */
  function YoungerFlush(s: State, a: JobId, b: JobId): seq<Step> {
    [StartJob(a), NewFileNumber(a)] + Flush(b, s.next + 1)
  }

  lemma FinishErases(s: State, t: State, p: Pending, job: Job)
    requires |s.pending| == 1 && s.pending[0].job != p.job && p.job !in s.jobs
    requires t.pending == s.pending + [p] && t.jobs == s.jobs[p.job := job]
    ensures Enabled(t, FinishJob(p.job)) && Do(t, FinishJob(p.job)) == t.(pending := s.pending, jobs := s.jobs)
  {
    assert PlaceOf(t.pending, p.job) == 1;
    assert t.jobs - {p.job} == s.jobs;
  }

  lemma FlushEnds(s: State, a: JobId, b: JobId, g: FileNo) returns (states: seq<State>)
    requires a != b && s.pending == [Pending(a, g)] && s.jobs == map[a := Job({g}, {}, {})] && s.waiting == {}
    ensures |states| == 6 && states[0] == s
    ensures states[5] == s.(next := s.next + 1, waiting := {s.next}, disk := s.disk + {s.next})
    ensures forall n :: 0 <= n < 5 ==>
      Enabled(states[n], Flush(b, s.next)[n]) && Do(states[n], Flush(b, s.next)[n]) == states[n + 1]
  {
    var f := s.next;
    var s1 := s.(pending := s.pending + [Pending(b, f)], jobs := s.jobs[b := Job({}, {}, {})]);
    var s2 := s1.(next := f + 1, jobs := s.jobs[b := Job({f}, {}, {})]);
    var s3 := s2.(disk := s.disk + {f}, jobs := s.jobs[b := Job({}, {f}, {})]);
    var s4 := s3.(waiting := {f}, jobs := s.jobs[b := Job({}, {}, {})]);
    var s5 := s4.(pending := s.pending, jobs := s.jobs);
    states := [s, s1, s2, s3, s4, s5];
    assert {f} - {f} == {} && {} + {f} == {f};
    assert Do(s1, NewFileNumber(b)) == s2;
    assert Do(s2, WriteFile(b, f)) == s3;
    assert Do(s3, Complete(b, f)) == s4;
    FinishErases(s, s4, Pending(b, f), Job({}, {}, {}));
  }

  lemma OlderFlushStarts(s: State, a: JobId) returns (s1: State, s2: State)
    requires Init(s)
    ensures Enabled(s, StartJob(a)) && s1 == Do(s, StartJob(a))
    ensures Enabled(s1, NewFileNumber(a)) && s2 == Do(s1, NewFileNumber(a))
    ensures s2 == s.(next := s.next + 1, pending := [Pending(a, s.next)], jobs := map[a := Job({s.next}, {}, {})])
  {
    s1 := s.(pending := [Pending(a, s.next)], jobs := map[a := Job({}, {}, {})]);
    s2 := s1.(next := s.next + 1, jobs := map[a := Job({s.next}, {}, {})]);
    assert {} + {s.next} == {s.next};
    assert s1.jobs[a := Job({s.next}, {}, {})] == s2.jobs;
  }

  lemma YoungerFlushWaits(s: State, a: JobId, b: JobId) returns (states: seq<State>)
    requires Init(s) && a != b
    ensures IsRun(states, YoungerFlush(s, a, b)) && states[0] == s
    ensures states[7] == s.(next := s.next + 2, pending := [Pending(a, s.next)],
      jobs := map[a := Job({s.next}, {}, {})],
                            waiting := {s.next + 1}, disk := s.disk + {s.next + 1})
  {
    var s1, s2 := OlderFlushStarts(s, a);
    var rest := FlushEnds(s2, a, b, s.next);
    states := [s, s1] + rest;
    forall n | 0 <= n < 7
      ensures Enabled(states[n], YoungerFlush(s, a, b)[n])
      ensures states[n + 1] == Do(states[n], YoungerFlush(s, a, b)[n])
    {
      if n >= 2 {
        assert states[n] == rest[n - 2] && states[n + 1] == rest[n - 1];
        assert YoungerFlush(s, a, b)[n] == Flush(b, s2.next)[n - 2];
      }
    }
  }

  /** Job c has started to flush the older memtable again, job a has failed and scans the directory. */
  lemma FailedFlushCondemns(s: State, a: JobId, b: JobId, c: JobId, k: ScanId)
    returns (states: seq<State>, steps: seq<Step>)
    requires Init(s) && a != b && a != c
    ensures IsRun(states, steps) && states[0] == s
    ensures steps == YoungerFlush(s, a, b) + [StartJob(c), FinishJob(a), FindObsolete(k, s.disk + {s.next + 1})]
    ensures Condemns(states[9], steps[9], s.next + 1) && c in states[10].jobs && states[10].versions == s.versions
  {
    var f := s.next + 1;
    states := YoungerFlushWaits(s, a, b);
    steps := YoungerFlush(s, a, b);
    var s7 := states[7];
    var s8 := s7.(pending := [Pending(a, s.next), Pending(c, f + 1)], jobs := s7.jobs[c := Job({}, {}, {})]);
    var s9 := s8.(pending := [Pending(c, f + 1)], jobs := s8.jobs - {a});
    assert Do(s8, FinishJob(a)) == s9 by {
      assert PlaceOf(s8.pending, a) == 0;
    }
    assert Do(s7, StartJob(c)) == s8;
    Extend(states, steps, StartJob(c));
    Extend(states + [s8], steps + [StartJob(c)], FinishJob(a));
    Extend(states + [s8] + [s9], steps + [StartJob(c)] + [FinishJob(a)], FindObsolete(k, s7.disk));
    states := states + [s8] + [s9] + [Do(s9, FindObsolete(k, s7.disk))];
    steps := steps + [StartJob(c)] + [FinishJob(a)] + [FindObsolete(k, s7.disk)];
  }

  /** From any initial state: job c commits the younger file, and job a deletes it while it is live. */
  lemma LiveFileIsLost(s: State, a: JobId, b: JobId, c: JobId, k: ScanId, v: VersionId)
    returns (states: seq<State>, steps: seq<Step>)
    requires Init(s) && a != b && a != c && v != s.current
    ensures IsRun(states, steps) && states[0] == s && |steps| == 12
    ensures steps[11] == DeleteFile(k, s.next + 1) && IsLive(states[11].versions, s.next + 1)
  {
    states, steps := FailedFlushCondemns(s, a, b, c, k);
    states, steps := CondemnedCanBeLost(states, steps, s.next + 1, c, v);
  }

  lemma PendingIsSorted(states: seq<State>, steps: seq<Step>, n: nat, i: nat, k: nat)
    requires IsRun(states, steps) && n < |states| && i < k < |states[n].pending|
    ensures states[n].pending[i].number <= states[n].pending[k].number <= states[n].next
  {
    RunKeeps(states, steps, n);
  }

  ghost predicate FullScan(s: State, step: Step, f: FileNo) {
    step.FindObsolete? && step.listing == s.disk && Below(f, MinPending(s))
  }

  ghost predicate AbandonedAt(states: seq<State>, steps: seq<Step>, m: nat, n: nat, f: FileNo)
    requires |states| == |steps| + 1 && m < n <= |steps|
  {
    && Abandons(states[m], steps[m], f)
    && forall k :: m < k < n ==> !FullScan(states[k], steps[k], f)
  }

  lemma UntrackedBefore(states: seq<State>, steps: seq<Step>, n: nat, f: FileNo)
    requires IsRun(states, steps) && n < |states| && Untracked(states[n], f)
    ensures n > 0 && !FullScan(states[n - 1], steps[n - 1], f)
    ensures Untracked(states[n - 1], f) || Abandons(states[n - 1], steps[n - 1], f)
  {
    var s, step := states[n - 1], steps[n - 1];
    RunKeeps(states, steps, n - 1);
    assert StepAt(states, steps, n - 1);
    TrackKept(s, step, f);
    if FullScan(s, step, f) {
      FullScanTracks(s, step, f);
    }
  }

  /** Garbage that no list leads to was abandoned by a job or by a failed commit, and no full scan has
      passed it since. */
  lemma {:induction false} NothingElseIsLost(states: seq<State>, steps: seq<Step>, n: nat, f: FileNo) returns (m: nat)
    requires IsRun(states, steps) && n < |states| && Untracked(states[n], f)
    ensures m < n && AbandonedAt(states, steps, m, n, f)
  {
    UntrackedBefore(states, steps, n, f);
    if Abandons(states[n - 1], steps[n - 1], f) {
      m := n - 1;
    } else {
      m := NothingElseIsLost(states, steps, n - 1, f);
    }
  }

  /** A file that is gone stays gone: numbers are not used again. */
  ghost predicate Gone(s: State, f: FileNo) {
    f < s.next && f !in s.disk && forall j :: !Owns(s.jobs, j, f)
  }

  lemma {:induction false} GoneStaysGone(states: seq<State>, steps: seq<Step>, m: nat, n: nat, f: FileNo)
    requires IsRun(states, steps) && m <= n < |states| && Gone(states[m], f)
    ensures Gone(states[n], f)
  {
    if m < n {
      GoneStaysGone(states, steps, m, n - 1, f);
      var s, step := states[n - 1], steps[n - 1];
      assert StepAt(states, steps, n - 1);
      forall j
        ensures !Owns(states[n].jobs, j, f)
      {
        if Owns(Do(s, step).jobs, j, f) {
          OwnedBefore(s, step, j, f);
        }
      }
      assert step.WriteFile? ==> Owns(s.jobs, step.j, step.f);
    }
  }

  lemma {:induction false} DoomedUntilFinished(states: seq<State>, steps: seq<Step>, m: nat, n: nat, c: ScanId,
          f: FileNo)
    requires IsRun(states, steps) && m <= n < |states| && Doomed(states[m].scans, c, f)
    requires forall k :: m <= k < n ==> steps[k] != FinishPurge(c)
    ensures Doomed(states[n].scans, c, f)
  {
    if m < n {
      DoomedUntilFinished(states, steps, m, n - 1, c, f);
      assert StepAt(states, steps, n - 1);
      assert steps[n - 1] != FinishPurge(c);
    }
  }

  /** Once the purge that follows a scan has finished, every candidate that was garbage at the scan
      and below its first pending output is gone for good. */
  lemma ScanCollects(states: seq<State>, steps: seq<Step>, m: nat, n: nat, f: FileNo)
    requires IsRun(states, steps) && m < n < |steps|
    requires steps[m].FindObsolete? && steps[n] == FinishPurge(steps[m].c)
    requires forall k :: m < k < n ==> steps[k] != FinishPurge(steps[m].c)
    requires f in steps[m].listing || f in states[m].obsolete
    requires !IsLive(states[m].versions, f) && Below(f, MinPending(states[m]))
    ensures forall k :: n <= k < |states| ==> f !in states[k].disk
    ensures steps[m].c !in states[n + 1].scans
  {
    var c := steps[m].c;
    assert StepAt(states, steps, m) && StepAt(states, steps, n);
    assert Doomed(states[m + 1].scans, c, f);
    DoomedUntilFinished(states, steps, m + 1, n, c, f);
    RunKeeps(states, steps, n);
    assert Gone(states[n], f);
    forall k | n <= k < |states|
      ensures f !in states[k].disk
    {
      GoneStaysGone(states, steps, n, k, f);
    }
  }

  lemma {:induction false} NextGrows(states: seq<State>, steps: seq<Step>, m: nat, n: nat)
    requires IsRun(states, steps) && m <= n < |states|
    ensures states[m].next <= states[n].next
    decreases n
  {
    if m < n {
      NextGrows(states, steps, m, n - 1);
      assert StepAt(states, steps, n - 1);
    }
  }

  lemma NoneAbove(s: State, f: FileNo)
    requires Inv(s) && s.next <= f
    ensures f !in s.disk && Unlisted(s, f) && forall j :: !Owns(s.jobs, j, f)
  {
    assert FileOk(s, f);
  }

  /** A number is given to one file only: no file had it before. */
  lemma NumberIsFresh(states: seq<State>, steps: seq<Step>, m: nat, n: nat)
    requires IsRun(states, steps) && m <= n < |steps| && steps[n].NewFileNumber?
    ensures var f, j := states[n].next, steps[n].j;
      && j in states[n + 1].jobs && f in states[n + 1].jobs[j].numbered && states[n + 1].next > f
      && f !in states[m].disk && Unlisted(states[m], f) && forall i :: !Owns(states[m].jobs, i, f)
  {
    NextGrows(states, steps, m, n);
    RunKeeps(states, steps, m);
    assert StepAt(states, steps, n);
    NoneAbove(states[m], states[n].next);
  }

  /** A number given to a file of another kind is never that of a table file. */
  lemma OtherNumberIsNoTable(states: seq<State>, steps: seq<Step>, n: nat, k: nat)
    requires IsRun(states, steps) && n < k < |states| && steps[n].OtherNumber?
    ensures states[n].next !in states[k].disk && forall j :: !Owns(states[k].jobs, j, states[n].next)
  {
    var f := states[n].next;
    RunKeeps(states, steps, n);
    assert StepAt(states, steps, n);
    NoneAbove(states[n], f);
    GoneStaysGone(states, steps, n + 1, k, f);
  }

  // ---------------------------------------------------------------- what a version edit removes

  /** The file has been made part of a version, or will never be. */
  ghost predicate Settled(s: State, f: FileNo) {
    && f < s.next && f !in s.waiting
    && forall j :: j in s.jobs ==> f !in s.jobs[j].numbered && f !in s.jobs[j].written
  }

  lemma LiveIsSettled(s: State, f: FileNo)
    requires Inv(s) && IsLive(s.versions, f)
    ensures Settled(s, f)
  {
    assert FileOk(s, f);
    forall j | j in s.jobs
      ensures f !in s.jobs[j].numbered && f !in s.jobs[j].written
    {
      assert Owns(s.jobs, j, f) ==> OwnedOk(s, j, f);
    }
  }

  lemma SettledStep(s: State, step: Step, f: FileNo)
    requires Enabled(s, step) && Settled(s, f)
    ensures Settled(Do(s, step), f) && !Abandons(s, step, f) && (step.Install? ==> f !in step.added)
  {
  }

  lemma {:induction false} StaysSettled(states: seq<State>, steps: seq<Step>, m: nat, n: nat, f: FileNo)
    requires IsRun(states, steps) && m <= n < |states| && IsLive(states[m].versions, f)
    ensures Settled(states[n], f)
    decreases n
  {
    if m == n {
      RunKeeps(states, steps, m);
      LiveIsSettled(states[m], f);
    } else {
      StaysSettled(states, steps, m, n - 1, f);
      assert StepAt(states, steps, n - 1);
      SettledStep(states[n - 1], steps[n - 1], f);
    }
  }

  /** Version w has f, has had it since state m, and was not dropped. */
  ghost predicate HadSince(states: seq<State>, steps: seq<Step>, m: nat, n: nat, w: VersionId, f: FileNo)
    requires m <= n < |states| == |steps| + 1
  {
    && w in states[m].versions && f in states[m].versions[w]
    && forall k :: m <= k < n ==> steps[k] != DropVersion(w)
  }

  /** The versions that have f are old ones, and the current one is not among them. */
  ghost predicate OnlyOldHave(states: seq<State>, steps: seq<Step>, m: nat, n: nat, f: FileNo)
    requires m <= n < |states| == |steps| + 1
  {
    && (forall w :: w in states[n].versions && f in states[n].versions[w] ==> HadSince(states, steps, m, n, w, f))
    && states[n].current in states[n].versions && f !in states[n].versions[states[n].current]
  }

  lemma OnlyOldNext(states: seq<State>, steps: seq<Step>, m: nat, n: nat, f: FileNo)
    requires IsRun(states, steps) && m <= n < |steps| && Settled(states[n], f)
    requires forall w :: w in states[n].versions && f in states[n].versions[w] ==> HadSince(states, steps, m, n, w, f)
    requires (steps[n].Install? && f in steps[n].removed) || OnlyOldHave(states, steps, m, n, f)
    requires Inv(states[n])
    ensures OnlyOldHave(states, steps, m, n + 1, f)
  {
    assert StepAt(states, steps, n);
    SettledStep(states[n], steps[n], f);
    var s, s' := states[n], states[n + 1];
    forall w | w in s'.versions && f in s'.versions[w]
      ensures HadSince(states, steps, m, n + 1, w, f)
    {
      assert w in s.versions && s'.versions[w] == s.versions[w];
      assert HadSince(states, steps, m, n, w, f) && steps[n] != DropVersion(w);
    }
  }

  /** A file that a version edit removes is in no version made from then on. */
  lemma {:induction false} RemovedStaysOut(states: seq<State>, steps: seq<Step>, m: nat, n: nat, f: FileNo)
    requires IsRun(states, steps) && m < n < |states|
    requires steps[m].Install? && f in steps[m].removed && IsLive(states[m].versions, f)
    ensures OnlyOldHave(states, steps, m, n, f)
    decreases n
  {
    StaysSettled(states, steps, m, n - 1, f);
    RunKeeps(states, steps, n - 1);
    if n > m + 1 {
      RemovedStaysOut(states, steps, m, n - 1, f);
    }
    OnlyOldNext(states, steps, m, n - 1, f);
  }

  /** The new version has exactly the files of the last one that the edit does not remove, and those it adds. */
  lemma NewVersionIs(states: seq<State>, steps: seq<Step>, n: nat, f: FileNo)
    requires IsRun(states, steps) && n < |steps| && steps[n].Install?
    ensures states[n].current in states[n].versions && states[n + 1].current in states[n + 1].versions
    ensures f in states[n + 1].versions[states[n + 1].current] <==>
      f in steps[n].added || (f in states[n].versions[states[n].current] && f !in steps[n].removed)
    ensures f in steps[n].added ==> !IsLive(states[n].versions, f)
  {
    RunKeeps(states, steps, n);
    assert StepAt(states, steps, n);
    assert FileOk(states[n], f);
    assert f in steps[n].added && f !in states[n].waiting ==> Owns(states[n].jobs, steps[n].j, f);
  }

  /** A flushed file waits from its completion until a version edit adds it or its commit fails. */
  lemma WaitsUntilCommitted(states: seq<State>, steps: seq<Step>, n: nat, f: FileNo)
    requires IsRun(states, steps) && n < |steps|
    ensures f in states[n + 1].waiting <==>
      || (steps[n].Complete? && steps[n].f == f)
      || (f in states[n].waiting && steps[n] != GiveUp(f) && !(steps[n].Install? && f in steps[n].added))
  {
    assert StepAt(states, steps, n);
  }

  // ---------------------------------------------------------------- and is deleted

  lemma {:induction false} StaysTracked(states: seq<State>, steps: seq<Step>, m: nat, n: nat, f: FileNo)
    requires IsRun(states, steps) && m <= n < |states| && IsLive(states[m].versions, f)
    ensures !Untracked(states[n], f)
    decreases n
  {
    if m < n {
      StaysTracked(states, steps, m, n - 1, f);
      StaysSettled(states, steps, m, n - 1, f);
      assert StepAt(states, steps, n - 1);
      SettledStep(states[n - 1], steps[n - 1], f);
      RunKeeps(states, steps, n - 1);
      if Untracked(states[n], f) {
        TrackKept(states[n - 1], steps[n - 1], f);
      }
    }
  }

  ghost predicate InPurge(s: State, f: FileNo) {
    exists c :: Doomed(s.scans, c, f)
  }

  /** A file that was live and is in no version any more is on the list of obsolete files, in the hands of a
      purge, or off the disk for good. */
  lemma DroppedIsCollected(states: seq<State>, steps: seq<Step>, m: nat, n: nat, f: FileNo)
    requires IsRun(states, steps) && m <= n < |states|
    requires IsLive(states[m].versions, f) && !IsLive(states[n].versions, f)
    ensures f in states[n].obsolete || InPurge(states[n], f) || Gone(states[n], f)
  {
    StaysTracked(states, steps, m, n, f);
    StaysSettled(states, steps, m, n, f);
    RunKeeps(states, steps, n);
    if j :| Owns(states[n].jobs, j, f) {
      assert OwnedOk(states[n], j, f);
    }
  }

  /** Every version from before step m that has f is dropped before step n. */
  ghost predicate AllDropped(states: seq<State>, steps: seq<Step>, m: nat, n: nat, f: FileNo)
    requires m <= n < |states| == |steps| + 1
  {
    forall w :: w in states[m].versions && f in states[m].versions[w] ==>
      exists k :: m <= k < n && steps[k] == DropVersion(w)
  }

  lemma RemovedIsNotLive(states: seq<State>, steps: seq<Step>, m: nat, n: nat, f: FileNo)
    requires IsRun(states, steps) && m < n < |states|
    requires steps[m].Install? && f in steps[m].removed && IsLive(states[m].versions, f)
    requires AllDropped(states, steps, m, n, f)
    ensures !IsLive(states[n].versions, f)
  {
    RemovedStaysOut(states, steps, m, n, f);
  }

  /** Every purge that runs in state m ends before step n. */
  ghost predicate PurgesEnd(states: seq<State>, steps: seq<Step>, m: nat, n: nat)
    requires m <= n < |states| == |steps| + 1
  {
    forall c :: c in states[m].scans ==> exists k :: m <= k < n && steps[k] == FinishPurge(c)
  }

  lemma FirstEnd(steps: seq<Step>, c: ScanId, m: nat, k: nat) returns (first: nat)
    requires m <= k < |steps| && steps[k] == FinishPurge(c)
    ensures m <= first <= k && steps[first] == FinishPurge(c)
    ensures forall i :: m <= i < first ==> steps[i] != FinishPurge(c)
  {
    first := m;
    while steps[first] != FinishPurge(c)
      invariant m <= first <= k && forall i :: m <= i < first ==> steps[i] != FinishPurge(c)
      decreases k - first
    {
      first := first + 1;
    }
  }

  lemma DoomedIsDeleted(states: seq<State>, steps: seq<Step>, m: nat, n: nat, c: ScanId, f: FileNo)
    requires IsRun(states, steps) && m <= n < |states| && Doomed(states[m].scans, c, f)
    requires exists k :: m <= k < n && steps[k] == FinishPurge(c)
    ensures Gone(states[n], f)
  {
    var k :| m <= k < n && steps[k] == FinishPurge(c);
    var first := FirstEnd(steps, c, m, k);
    DoomedUntilFinished(states, steps, m, first, c, f);
    RunKeeps(states, steps, first);
    assert StepAt(states, steps, first);
    assert Gone(states[first], f);
    GoneStaysGone(states, steps, first, n, f);
  }

  lemma ScanTakesOver(states: seq<State>, steps: seq<Step>, b: nat, f: FileNo)
    requires IsRun(states, steps) && b < |steps| && steps[b].FindObsolete? && Below(f, MinPending(states[b]))
    requires f in states[b].obsolete || InPurge(states[b], f) || Gone(states[b], f)
    ensures InPurge(states[b + 1], f) || Gone(states[b], f)
  {
    RunKeeps(states, steps, b);
    if f in states[b].obsolete {
      assert StepAt(states, steps, b);
      HandedOutIsDoomed(states[b], steps[b], f);
    } else if c :| Doomed(states[b].scans, c, f) {
      assert StepAt(states, steps, b);
      assert Doomed(states[b + 1].scans, c, f);
    }
  }

  /** What an edit removes is deleted: the old versions that have it are dropped, a scan with the file below the
      first pending output follows, and with the end of that purge and of those under way it is gone for good. */
  lemma RemovedIsDeleted(states: seq<State>, steps: seq<Step>, a: nat, b: nat, e: nat, f: FileNo)
    requires IsRun(states, steps) && a < b < e < |states|
    requires steps[a].Install? && f in steps[a].removed && IsLive(states[a].versions, f)
    requires AllDropped(states, steps, a, b, f)
    requires steps[b].FindObsolete? && Below(f, MinPending(states[b])) && PurgesEnd(states, steps, b + 1, e)
    ensures forall n :: e <= n < |states| ==> f !in states[n].disk
  {
    RemovedIsNotLive(states, steps, a, b, f);
    DroppedIsCollected(states, steps, a, b, f);
    ScanTakesOver(states, steps, b, f);
    if InPurge(states[b + 1], f) {
      var after := states[b + 1];
      var c :| Doomed(after.scans, c, f);
      DoomedIsDeleted(states, steps, b + 1, e, c, f);
    } else {
      GoneStaysGone(states, steps, b, e, f);
    }
    forall n | e <= n < |states|
      ensures f !in states[n].disk
    {
      GoneStaysGone(states, steps, e, n, f);
    }
  }
}
