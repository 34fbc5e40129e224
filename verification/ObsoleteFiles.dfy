/** The collection of table files: background jobs that allocate and install files, flushed files that
    wait for another job to commit them, versions that come and go, scans that take a snapshot under the
    mutex and deletions that follow later. */
module ObsoleteFiles {
  import opened Format

  type FileNo = nat
  type JobId = nat
  type VersionId = nat
  type ScanId = nat

  /** An element of pending_outputs_, and the job that will erase it. */
  datatype Pending = Pending(job: JobId, number: FileNo)

  /** The table files of a background job: numbered, written, and made part of a version. */
  datatype Job = Job(numbered: set<FileNo>, written: set<FileNo>, installed: set<FileNo>) {
    predicate Has(f: FileNo) {
      f in numbered || f in written || f in installed
    }

    function Commit(added: set<FileNo>): Job {
      Job(numbered, written - added, installed + written * added)
    }
  }

  /** What FindObsoleteFiles leaves in the job context; no least pending output stands for the
      largest number. */
  datatype Scan = Scan(minPending: Option<FileNo>, candidates: set<FileNo>, live: set<FileNo>) {
    /** The decision of PurgeObsoleteFiles about one candidate. */
    predicate Keeps(f: FileNo) {
      f in live || !Below(f, minPending)
    }

    predicate Dooms(f: FileNo) {
      f in candidates && !Keeps(f)
    }
  }

  predicate Below(f: FileNo, bound: Option<FileNo>) {
    bound.None? || f < bound.value
  }

  datatype State = State(
    next: FileNo,
    pending: seq<Pending>,
    jobs: map<JobId, Job>,
    waiting: set<FileNo>,                   // flushed, and left to whoever commits its memtable
    versions: map<VersionId, set<FileNo>>,
    current: VersionId,
    obsolete: set<FileNo>,
    disk: set<FileNo>,
    scans: map<ScanId, Scan>)

  predicate IsLive(versions: map<VersionId, set<FileNo>>, f: FileNo) {
    exists v :: v in versions && f in versions[v]
  }

  function LiveFiles(versions: map<VersionId, set<FileNo>>): (live: set<FileNo>)
    ensures forall f :: f in live <==> IsLive(versions, f)
  {
    set v, f | v in versions && f in versions[v] :: f
  }

  function MinPending(s: State): Option<FileNo> {
    if s.pending == [] then None else Some(s.pending[0].number)
  }

  /** The obsolete files that GetObsoleteFiles hands out. */
  function Due(s: State): set<FileNo> {
    set f | f in s.obsolete && Below(f, MinPending(s))
  }

  // ---------------------------------------------------------------- the steps

  datatype Step =
    | StartJob(j: JobId)
    | NewFileNumber(j: JobId)
    | WriteFile(j: JobId, f: FileNo)
    | OtherNumber
    | Complete(j: JobId, f: FileNo)
    | GiveUp(f: FileNo)
    | Install(j: JobId, v: VersionId, added: set<FileNo>, removed: set<FileNo>)
    | FinishJob(j: JobId)
    | DropVersion(v: VersionId)
    | FindObsolete(c: ScanId, listing: set<FileNo>)
    | DeleteFile(c: ScanId, f: FileNo)
    | FinishPurge(c: ScanId)

  /** The place of job j's element. */
  function PlaceOf(pending: seq<Pending>, j: JobId): (i: nat)
    ensures i <= |pending|
    ensures forall k :: 0 <= k < i ==> pending[k].job != j
    ensures i < |pending| ==> pending[i].job == j
  {
    if pending == [] || pending[0].job == j then 0 else 1 + PlaceOf(pending[1..], j)
  }

  /** list::erase of the element that job j inserted. */
  function Without(pending: seq<Pending>, j: JobId): seq<Pending> {
    var i := PlaceOf(pending, j);
    if i < |pending| then pending[..i] + pending[i + 1..] else pending
  }

  predicate Enabled(s: State, step: Step) {
    match step
    case StartJob(j) => j !in s.jobs
    case NewFileNumber(j) => j in s.jobs
    case WriteFile(j, f) => j in s.jobs && f in s.jobs[j].numbered
    case OtherNumber => true
    case Complete(j, f) => j in s.jobs && f in s.jobs[j].written
    case GiveUp(f) => f in s.waiting
    case Install(j, v, added, _) =>
      j in s.jobs && added <= s.jobs[j].written + s.waiting && s.current in s.versions && v !in s.versions
    case FinishJob(j) => j in s.jobs
    case DropVersion(v) => v in s.versions && v != s.current
    case FindObsolete(c, listing) => c !in s.scans && listing <= s.disk
    case DeleteFile(c, f) => c in s.scans && s.scans[c].Dooms(f) && f in s.disk
    case FinishPurge(c) => c in s.scans && forall f :: f in s.disk ==> !s.scans[c].Dooms(f)
  }

  function Do(s: State, step: Step): State
    requires Enabled(s, step)
  {
    match step
    case StartJob(j) => s.(pending := s.pending + [Pending(j, s.next)], jobs := s.jobs[j := Job({}, {}, {})])
    case NewFileNumber(j) =>
      s.(next := s.next + 1, jobs := s.jobs[j := s.jobs[j].(numbered := s.jobs[j].numbered + {s.next})])
    case WriteFile(j, f) =>
      s.(disk := s.disk + {f},
         jobs := s.jobs[j := s.jobs[j].(numbered := s.jobs[j].numbered - {f}, written := s.jobs[j].written + {f})])
    case OtherNumber => s.(next := s.next + 1)
    case Complete(j, f) =>
      s.(waiting := s.waiting + {f}, jobs := s.jobs[j := s.jobs[j].(written := s.jobs[j].written - {f})])
    case GiveUp(f) => s.(waiting := s.waiting - {f})
    case Install(j, v, added, removed) =>
      s.(versions := s.versions[v := s.versions[s.current] - removed + added],
         current := v,
         waiting := s.waiting - added,
         jobs := s.jobs[j := s.jobs[j].Commit(added)])
    case FinishJob(j) => s.(pending := Without(s.pending, j), jobs := s.jobs - {j})
    case DropVersion(v) =>
      var rest := s.versions - {v};
      s.(versions := rest, obsolete := s.obsolete + (s.versions[v] - LiveFiles(rest)))
    case FindObsolete(c, listing) =>
      s.(obsolete := s.obsolete - Due(s),
         scans := s.scans[c := Scan(MinPending(s), Due(s) + listing, LiveFiles(s.versions))])
    case DeleteFile(c, f) => s.(disk := s.disk - {f})
    case FinishPurge(c) => s.(scans := s.scans - {c})
  }

  ghost predicate Init(s: State) {
    && s.pending == [] && s.jobs == map[] && s.waiting == {} && s.obsolete == {} && s.scans == map[]
    && s.versions.Keys == {s.current} && s.disk == s.versions[s.current]
    && forall f :: f in s.disk ==> f < s.next
  }

  // ---------------------------------------------------------------- the invariant

  /** pending_outputs_ is sorted, so that its first element is the least. */
  ghost predicate PendingOk(pending: seq<Pending>, next: FileNo) {
    && (forall i, k :: 0 <= i < k < |pending| ==> pending[i].number <= pending[k].number)
    && (forall i :: 0 <= i < |pending| ==> pending[i].number <= next)
  }

  /** Job j has an element not above f. */
  ghost predicate Guarded(pending: seq<Pending>, j: JobId, f: FileNo) {
    exists i :: 0 <= i < |pending| && pending[i].job == j && pending[i].number <= f
  }

  predicate Owns(jobs: map<JobId, Job>, j: JobId, f: FileNo) {
    j in jobs && jobs[j].Has(f)
  }

  predicate Doomed(scans: map<ScanId, Scan>, c: ScanId, f: FileNo) {
    c in scans && scans[c].Dooms(f)
  }

  ghost predicate JobsOk(s: State) {
    && (forall i :: 0 <= i < |s.pending| ==> s.pending[i].job in s.jobs)
    && (forall j :: j in s.jobs ==> Guarded(s.pending, j, s.next))
    && Distinct(s.pending)
    && (forall j, f :: Owns(s.jobs, j, f) ==> Guarded(s.pending, j, f))
    && (forall j, k, f :: Owns(s.jobs, j, f) && Owns(s.jobs, k, f) ==> j == k)
  }

  /** In neither a version nor one of the lists. */
  predicate Unlisted(s: State, f: FileNo) {
    !IsLive(s.versions, f) && f !in s.obsolete && f !in s.waiting
  }

  /** Where a file that job j owns can be. */
  ghost predicate OwnedOk(s: State, j: JobId, f: FileNo)
    requires j in s.jobs
  {
    var job := s.jobs[j];
    && f < s.next && f !in s.waiting
    && (f in job.numbered ==> f !in job.written && f !in job.installed && f !in s.disk && Unlisted(s, f))
    && (f in job.written ==> f !in job.installed && f in s.disk && Unlisted(s, f))
    && (f in job.installed ==> f in s.disk && (IsLive(s.versions, f) || f in s.obsolete))
  }

  ghost predicate OwnedsOk(s: State) {
    forall j, f :: Owns(s.jobs, j, f) ==> OwnedOk(s, j, f)
  }

  ghost predicate DoomedOk(s: State, f: FileNo) {
    f < s.next && forall j :: !Owns(s.jobs, j, f)
  }

  ghost predicate DoomedsOk(s: State) {
    forall c, f :: Doomed(s.scans, c, f) ==> DoomedOk(s, f)
  }

  ghost predicate FileOk(s: State, f: FileNo) {
    && (f in s.disk ==> f < s.next)
    && (f in s.waiting ==> f < s.next && !IsLive(s.versions, f) && f !in s.obsolete)
    && (IsLive(s.versions, f) ==> f < s.next && f !in s.obsolete)
    && (f in s.obsolete ==> f < s.next)
  }

  ghost predicate FilesOk(s: State) {
    s.current in s.versions && forall f :: FileOk(s, f)
  }

  ghost predicate Inv(s: State) {
    PendingOk(s.pending, s.next) && JobsOk(s) && OwnedsOk(s) && DoomedsOk(s) && FilesOk(s)
  }

  // ---------------------------------------------------------------- every step keeps it

  lemma InstallLives(versions: map<VersionId, set<FileNo>>, v: VersionId, fs: set<FileNo>, f: FileNo)
    requires v !in versions
    ensures IsLive(versions[v := fs], f) <==> IsLive(versions, f) || f in fs
  {
    var versions' := versions[v := fs];
    assert v in versions' && versions'[v] == fs;
    if u :| u in versions && f in versions[u] {
      assert u in versions' && f in versions'[u];
    }
  }

  lemma DropLives(versions: map<VersionId, set<FileNo>>, v: VersionId, f: FileNo)
    requires v in versions
    ensures IsLive(versions, f) <==> IsLive(versions - {v}, f) || f in versions[v]
  {
    if u :| u in versions && f in versions[u] {
      assert u != v ==> u in versions - {v} && f in (versions - {v})[u];
    }
  }

  /** How a step changes what is live. */
  lemma LiveAfter(s: State, step: Step, f: FileNo)
    requires FilesOk(s) && Enabled(s, step)
    ensures match step
            case Install(_, _, added, _) =>
              IsLive(Do(s, step).versions, f) <==> IsLive(s.versions, f) || f in added
            case DropVersion(v) =>
              IsLive(s.versions, f) <==> IsLive(Do(s, step).versions, f) || f in s.versions[v]
            case _ =>
              IsLive(s.versions, f) <==> IsLive(Do(s, step).versions, f)
  {
    match step
    case Install(j, v, added, removed) => InstallLives(s.versions, v, s.versions[s.current] - removed + added, f);
    case DropVersion(v) => DropLives(s.versions, v, f);
    case _ =>
  }

  lemma FileKept(s: State, step: Step, f: FileNo)
    requires Inv(s) && Enabled(s, step)
    ensures FileOk(Do(s, step), f)
  {
    assert FileOk(s, f);
    LiveAfter(s, step, f);
    assert step.WriteFile? && f == step.f ==> Owns(s.jobs, step.j, f);
    assert step.Complete? && f == step.f ==> Owns(s.jobs, step.j, f);
    assert step.Install? && f in step.added && f !in s.waiting ==> Owns(s.jobs, step.j, f);
  }

  lemma OwnedKept(s: State, step: Step, j: JobId, f: FileNo)
    requires Inv(s) && Enabled(s, step)
    requires Owns(Do(s, step).jobs, j, f)
    ensures OwnedOk(Do(s, step), j, f)
  {
    assert FileOk(s, f) && FileOk(s, s.next);
    LiveAfter(s, step, f);
    assert step.DeleteFile? && f == step.f ==> Doomed(s.scans, step.c, f);
    assert Owns(s.jobs, j, f) || (step.NewFileNumber? && j == step.j && f == s.next);
    assert step.WriteFile? || step.Complete? ==> Owns(s.jobs, step.j, step.f);
    assert step.Install? && f in step.added && f !in s.waiting ==> Owns(s.jobs, step.j, f);
  }

  lemma GuardedIsNotBelow(s: State, j: JobId, f: FileNo)
    requires PendingOk(s.pending, s.next) && Guarded(s.pending, j, f)
    ensures !Below(f, MinPending(s))
  {
    var i :| 0 <= i < |s.pending| && s.pending[i].job == j && s.pending[i].number <= f;
    assert i > 0 ==> s.pending[0].number <= s.pending[i].number;
  }

  /** No file of a running job is below the first pending output. */
  lemma JobFilesAreNotBelow(s: State, j: JobId, f: FileNo)
    requires PendingOk(s.pending, s.next) && JobsOk(s) && Owns(s.jobs, j, f)
    ensures !Below(f, MinPending(s))
  {
    GuardedIsNotBelow(s, j, f);
  }

  lemma OwnedBefore(s: State, step: Step, j: JobId, f: FileNo)
    requires Enabled(s, step) && Owns(Do(s, step).jobs, j, f)
    ensures Owns(s.jobs, j, f) || (step.NewFileNumber? && j == step.j && f == s.next)
  {
  }

  lemma DoomedKept(s: State, step: Step, c: ScanId, f: FileNo)
    requires Inv(s) && Enabled(s, step)
    requires Doomed(Do(s, step).scans, c, f)
    ensures DoomedOk(Do(s, step), f)
  {
    assert FileOk(s, f) && (Doomed(s.scans, c, f) || (step.FindObsolete? && c == step.c));
    forall j | Owns(Do(s, step).jobs, j, f)
      ensures false
    {
      OwnedBefore(s, step, j, f);
      if step.FindObsolete? {
        JobFilesAreNotBelow(s, j, f);
      }
    }
  }

  predicate Distinct(pending: seq<Pending>) {
    forall i, k :: 0 <= i < k < |pending| ==> pending[i].job != pending[k].job
  }

  lemma WithoutIsDistinct(pending: seq<Pending>, j: JobId)
    requires Distinct(pending)
    ensures Distinct(Without(pending, j))
  {
  }

  lemma WithoutIsSorted(pending: seq<Pending>, j: JobId, next: FileNo)
    requires PendingOk(pending, next)
    ensures PendingOk(Without(pending, j), next)
  {
  }

  lemma WithoutHas(pending: seq<Pending>, j: JobId, i: nat)
    requires Distinct(pending) && i < |pending| && pending[i].job != j
    ensures exists k :: 0 <= k < |Without(pending, j)| && Without(pending, j)[k] == pending[i]
  {
    var place := PlaceOf(pending, j);
    var k := if i < place then i else i - 1;
    assert Without(pending, j)[k] == pending[i];
  }

  lemma WithoutFrom(pending: seq<Pending>, j: JobId, k: nat)
    requires Distinct(pending) && k < |Without(pending, j)|
    ensures Without(pending, j)[k] in pending && Without(pending, j)[k].job != j
  {
  }

  lemma PendingKept(s: State, step: Step)
    requires Inv(s) && Enabled(s, step)
    ensures PendingOk(Do(s, step).pending, Do(s, step).next)
    ensures Distinct(Do(s, step).pending)
    ensures forall i :: 0 <= i < |Do(s, step).pending| ==> Do(s, step).pending[i].job in Do(s, step).jobs
  {
    if step.FinishJob? {
      WithoutIsDistinct(s.pending, step.j);
      WithoutIsSorted(s.pending, step.j, s.next);
      forall k | 0 <= k < |Without(s.pending, step.j)|
        ensures Without(s.pending, step.j)[k].job in s.jobs - {step.j}
      {
        WithoutFrom(s.pending, step.j, k);
      }
    }
  }

  lemma GuardStays(s: State, step: Step, j: JobId, f: FileNo, g: FileNo)
    requires Inv(s) && Enabled(s, step) && j in Do(s, step).jobs
    requires Guarded(s.pending, j, f) && f <= g
    ensures Guarded(Do(s, step).pending, j, g)
  {
    var i :| 0 <= i < |s.pending| && s.pending[i].job == j && s.pending[i].number <= f;
    if step.FinishJob? {
      WithoutHas(s.pending, step.j, i);
    } else {
      assert Do(s, step).pending[i] == s.pending[i];
    }
  }

  lemma JobsKept(s: State, step: Step)
    requires Inv(s) && Enabled(s, step)
    ensures JobsOk(Do(s, step))
  {
    var s' := Do(s, step);
    PendingKept(s, step);
    forall j | j in s'.jobs
      ensures Guarded(s'.pending, j, s'.next)
    {
      if j in s.jobs {
        GuardStays(s, step, j, s.next, s'.next);
      } else {
        assert s'.pending[|s.pending|] == Pending(j, s.next);
      }
    }
    forall j, f | Owns(s'.jobs, j, f)
      ensures Guarded(s'.pending, j, f)
    {
      OwnedBefore(s, step, j, f);
      GuardStays(s, step, j, f, f);
    }
    forall j, k, f | Owns(s'.jobs, j, f) && Owns(s'.jobs, k, f)
      ensures j == k
    {
      OwnedBefore(s, step, j, f);
      OwnedBefore(s, step, k, f);
    }
  }

  lemma StepKeeps(s: State, step: Step)
    requires Inv(s) && Enabled(s, step)
    ensures Inv(Do(s, step))
  {
    var s' := Do(s, step);
    PendingKept(s, step);
    JobsKept(s, step);
    forall f {
      FileKept(s, step, f);
    }
    forall j, f | Owns(s'.jobs, j, f)
      ensures OwnedOk(s', j, f)
    {
      OwnedKept(s, step, j, f);
    }
    forall c, f | Doomed(s'.scans, c, f)
      ensures DoomedOk(s', f)
    {
      DoomedKept(s, step, c, f);
    }
  }

  lemma InitHolds(s: State)
    requires Init(s)
    ensures Inv(s)
  {
  }

  // ---------------------------------------------------------------- nothing needed is deleted

  /** A scan whose candidate f waits for its commit, with no pending output to protect it. */
  predicate Condemns(s: State, step: Step, f: FileNo) {
    step.FindObsolete? && f in step.listing && f in s.waiting && Below(f, MinPending(s))
  }

  predicate Needed(s: State, f: FileNo) {
    IsLive(s.versions, f) || f in s.obsolete || f in s.waiting
  }

  /** A file that is needed is on disk, and no scan that still deletes has doomed it. */
  ghost predicate Kept(s: State, f: FileNo) {
    Needed(s, f) ==> f in s.disk && forall c :: !Doomed(s.scans, c, f)
  }

  lemma StepSpares(s: State, step: Step, f: FileNo)
    requires Inv(s) && Enabled(s, step) && Kept(s, f) && !Condemns(s, step, f)
    ensures Kept(Do(s, step), f)
  {
    var s' := Do(s, step);
    assert FileOk(s, f);
    LiveAfter(s, step, f);
    assert step.Complete? && f == step.f ==> Owns(s.jobs, step.j, f);
    assert step.Install? && f in step.added && f !in s.waiting ==> Owns(s.jobs, step.j, f);
    assert step.DeleteFile? ==> Doomed(s.scans, step.c, step.f);
    forall c | Doomed(s'.scans, c, f)
      ensures !Needed(s', f)
    {
      assert Doomed(s.scans, c, f) || (step.FindObsolete? && c == step.c);
      DoomedKept(s, step, c, f);
    }
  }

  lemma CondemnedIsNotKept(s: State, step: Step, f: FileNo)
    requires Inv(s) && Enabled(s, step) && Condemns(s, step, f)
    ensures !Kept(Do(s, step), f) && Enabled(Do(s, step), DeleteFile(step.c, f))
  {
    assert FileOk(s, f);
    assert Doomed(Do(s, step).scans, step.c, f);
  }

  // ---------------------------------------------------------------- nothing is lost

  /** Garbage that no list leads to. */
  ghost predicate Untracked(s: State, f: FileNo) {
    && f in s.disk && Unlisted(s, f)
    && (forall j :: !Owns(s.jobs, j, f))
    && (forall c :: !Doomed(s.scans, c, f))
  }

  /** A job ends without installing or completing a file it wrote, or a commit fails. */
  predicate Abandons(s: State, step: Step, f: FileNo) {
    || (step.FinishJob? && step.j in s.jobs && f in s.jobs[step.j].written)
    || step == GiveUp(f)
  }

  /** Only abandoning a file leaves untracked garbage. */
  lemma TrackKept(s: State, step: Step, f: FileNo)
    requires Inv(s) && Enabled(s, step) && Untracked(Do(s, step), f)
    ensures Untracked(s, f) || Abandons(s, step, f)
  {
    var s' := Do(s, step);
    LiveAfter(s, step, f);
    forall c
      ensures !Doomed(s.scans, c, f)
    {
      assert !Doomed(s'.scans, c, f);
    }
    forall j
      ensures Owns(s.jobs, j, f) ==> Abandons(s, step, f)
    {
      assert !Owns(s'.jobs, j, f);
    }
    assert step.FindObsolete? ==> !Doomed(s'.scans, step.c, f);
    assert step.WriteFile? ==> !Owns(s'.jobs, step.j, f);
  }

  /** A full scan finds everything below the first pending output. */
  lemma FullScanTracks(s: State, step: Step, f: FileNo)
    requires Inv(s) && Enabled(s, step) && step.FindObsolete? && step.listing == s.disk
    requires Below(f, MinPending(s))
    ensures !Untracked(Do(s, step), f)
  {
    assert f in s.disk && !IsLive(s.versions, f) ==> Doomed(Do(s, step).scans, step.c, f);
  }

  /** What GetObsoleteFiles hands out is never kept by the purge. */
  lemma HandedOutIsDoomed(s: State, step: Step, f: FileNo)
    requires Inv(s) && Enabled(s, step) && step.FindObsolete?
    requires f in s.obsolete && f !in Do(s, step).obsolete
    ensures Doomed(Do(s, step).scans, step.c, f)
  {
    assert FileOk(s, f);
  }
}
