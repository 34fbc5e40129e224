/** What holds over every run of the SuperVersion protocol. */
module SuperVersionRuns {
  import opened Format
  import opened SuperVersion

  ghost predicate IsRun(states: seq<State>, steps: seq<Step>) {
    && |states| == |steps| + 1
    && Init(states[0])
    && forall n {:trigger steps[n]} :: 0 <= n < |steps| ==> Follows(states[n], steps[n], states[n + 1])
  }

  ghost predicate Follows(s: State, step: Step, s': State) {
    Enabled(s, step) && s' == Do(s, step)
  }

  lemma {:induction false} RunKeeps(states: seq<State>, steps: seq<Step>, n: nat)
    requires IsRun(states, steps) && n < |states|
    ensures Inv(states[n])
  {
    if n == 0 {
      InitHolds(states[0]);
    } else {
      RunKeeps(states, steps, n - 1);
      assert Follows(states[n - 1], steps[n - 1], states[n]);
      StepKeeps(states[n - 1], steps[n - 1]);
    }
  }

  /** Reference counts are exact, and a SuperVersion is cleaned up at most once, with no holder left. */
  lemma ReferencesAreHolders(states: seq<State>, steps: seq<Step>, n: nat, sv: SvId)
    requires IsRun(states, steps) && n < |states|
    ensures Refs(states[n], sv) == Holders(states[n], sv)
    ensures Cleanups(states[n], sv) <= 1
    ensures Cleanups(states[n], sv) == 1 ==> Holders(states[n], sv) == 0
  {
    RunKeeps(states, steps, n);
    var s := states[n];
    assert Refs(s, sv) == Holders(s, sv);
    assert Cleanups(s, sv) + |DoomedBy(s.pcs, sv)| == Bit(Dead(s, sv));
  }

  lemma AcquireKeepsCleanups(s: State, t: Tid, a: AcquireStep, sv: SvId)
    requires CanAcquire(s, t, a)
    ensures Cleanups(DoAcquire(s, t, a), sv) >= Cleanups(s, sv)
  {
  }

  lemma ReleaseKeepsCleanups(s: State, t: Tid, r: ReleaseStep, sv: SvId)
    requires CanRelease(s, t, r)
    ensures Cleanups(DoRelease(s, t, r), sv) >= Cleanups(s, sv)
  {
  }

  lemma InstallKeepsCleanups(s: State, t: Tid, i: InstallStep, sv: SvId)
    requires CanInstall(s, t, i) && LivesOk(s)
    ensures Cleanups(DoInstall(s, t, i), sv) >= Cleanups(s, sv)
  {
    assert Cleanups(s, sv) + |DoomedBy(s.pcs, sv)| == Bit(Dead(s, sv));
  }

  lemma CleanupsGrow(states: seq<State>, steps: seq<Step>, n: nat, sv: SvId)
    requires IsRun(states, steps) && n < |steps|
    ensures Cleanups(states[n + 1], sv) >= Cleanups(states[n], sv)
  {
    RunKeeps(states, steps, n);
    match steps[n]
    case Acquire(t, a) => AcquireKeepsCleanups(states[n], t, a, sv);
    case Release(t, r) => ReleaseKeepsCleanups(states[n], t, r, sv);
    case Install(t, i) => InstallKeepsCleanups(states[n], t, i, sv);
  }

  /** Once cleaned up, a SuperVersion is never held again. */
  lemma {:induction false} CleanupIsFinal(states: seq<State>, steps: seq<Step>, m: nat, n: nat, sv: SvId)
    requires IsRun(states, steps) && m <= n < |states|
    requires Cleanups(states[m], sv) > 0
    ensures Cleanups(states[n], sv) == 1 && Holders(states[n], sv) == 0
  {
    ReferencesAreHolders(states, steps, n, sv);
    if m < n {
      CleanupIsFinal(states, steps, m, n - 1, sv);
      CleanupsGrow(states, steps, n - 1, sv);
    }
  }

  ghost predicate Quiet(s: State) {
    forall t :: t in s.pcs ==> s.pcs[t].Idle?
  }

  /** When every thread is idle, exactly the current SuperVersion and those pinned by iterators are
      left; every other one ever installed has been cleaned up exactly once. */
  lemma QuietIsClean(states: seq<State>, steps: seq<Step>, n: nat, sv: SvId)
    requires IsRun(states, steps) && n < |states| && Quiet(states[n]) && sv in states[n].refs
    ensures Cleanups(states[n], sv) == if sv == states[n].current || sv in states[n].handles.Values then 0 else 1
    ensures forall t :: t in states[n].slots && states[n].slots[t].Cached? ==>
      states[n].slots[t].sv == states[n].current
  {
    RunKeeps(states, steps, n);
    var s := states[n];
    assert forall t :: t in s.pcs ==> ThreadOk(s, t);
    assert s.mutex.None?;
    assert ThreadsWith(s.pcs, sv) == {} && PinsWith(s.pcs, sv) == {} && DoomedBy(s.pcs, sv) == {};
    assert With(s.scraped, sv) == {};
    assert sv != s.current ==> SlotsWith(s.slots, sv) == {};
    if h :| h in s.handles && s.handles[h] == sv {
      assert h in With(s.handles, sv);
    } else {
      assert With(s.handles, sv) == {};
    }
    assert Refs(s, sv) == Holders(s, sv);
    assert Cleanups(s, sv) + |DoomedBy(s.pcs, sv)| == Bit(Dead(s, sv));
  }

  /** Outside an installation every cached SuperVersion is the current one; during one, a slot leads
      to the previous SuperVersion or, once scraped, nowhere. */
  lemma CachedIsCurrent(states: seq<State>, steps: seq<Step>, n: nat, t: Tid)
    requires IsRun(states, steps) && n < |states|
    requires t in states[n].slots && states[n].slots[t].Cached?
    ensures match states[n].phase
            case NoInstall => states[n].slots[t].sv == states[n].current
            case Begun => states[n].slots[t].sv == states[n].current
            case Replaced(prev) => states[n].slots[t].sv == prev
            case Numbered(prev) => states[n].slots[t].sv == prev
            case Scraping(prev) => states[n].slots[t].sv == prev && t in states[n].todo
            case Dropping(_) => false
            case Ended => false
  {
    RunKeeps(states, steps, n);
    assert ThreadOk(states[n], t);
  }

  /** Taking a slot never finds it in use, and a slot that is not in use any more when it is
      returned has been scraped. */
  lemma SlotsAreExclusive(states: seq<State>, steps: seq<Step>, n: nat)
    requires IsRun(states, steps) && n < |steps|
    ensures Enabled(states[n], steps[n])
    ensures var s, step := states[n], steps[n];
      && (step.Acquire? && step.a.Swap? ==> !s.slots[step.t].InUse?)
      && (step.Release? && (step.r.Return? || step.r.ReturnPinned?) ==> !s.slots[step.t].Cached?)
      && (step.Release? && step.r.ExitThread? ==> !s.slots[step.t].InUse?)
  {
    RunKeeps(states, steps, n);
    assert Follows(states[n], steps[n], states[n + 1]);
    assert ThreadOk(states[n], steps[n].t);
  }

  /** A slot that is still in use outside an installation leads to the current SuperVersion. */
  lemma ReturnedIsCurrent(states: seq<State>, steps: seq<Step>, n: nat, t: Tid)
    requires IsRun(states, steps) && n < |states| && states[n].phase.NoInstall?
    requires t in states[n].pcs && states[n].pcs[t].Using?
    ensures t in states[n].slots
    ensures states[n].slots[t].InUse? ==> states[n].pcs[t].sv == states[n].current
    ensures states[n].pcs[t].sv == states[n].current <==>
      Version(states[n].versions, states[n].pcs[t].sv) == states[n].number
  {
    RunKeeps(states, steps, n);
    assert ThreadOk(states[n], t);
    var sv := states[n].pcs[t].sv;
    assert sv in states[n].versions && states[n].versions[sv] == states[n].number ==> sv == Numbering(states[n]);
  }

  /** Neither an exiting thread nor GetReferencedSuperVersion ever drops the last reference, so
      neither has to take the mutex. */
  lemma NotTheLastReference(states: seq<State>, steps: seq<Step>, n: nat)
    requires IsRun(states, steps) && n < |steps| && steps[n].Release?
    ensures Enabled(states[n], steps[n])
    ensures var s, t, r := states[n], steps[n].t, steps[n].r;
      && (r.ExitThread? && s.slots[t].Cached? ==> Refs(s, s.slots[t].sv) >= 2)
      && (r.UnrefPinned? ==> Refs(s, s.pcs[t].sv) >= 2)
  {
    RunKeeps(states, steps, n);
    assert Follows(states[n], steps[n], states[n + 1]);
    var s, t := states[n], steps[n].t;
    assert ThreadOk(s, t);
    if steps[n].r.ExitThread? && s.slots[t].Cached? {
      Books(s, t, s.slots[t].sv);
    } else if steps[n].r.UnrefPinned? {
      Books(s, t, s.pcs[t].sv);
    }
  }

  // ---------------------------------------------------------------- what a reader gets

  function SeenOf(pc: Pc): Option<nat> {
    match pc
    case Swapped(_, seen) => Some(seen)
    case Stale(_, seen) => Some(seen)
    case StaleDead(_, seen) => Some(seen)
    case NeedsMutex(seen) => Some(seen)
    case HasMutex(seen) => Some(seen)
    case Referenced(_, seen) => Some(seen)
    case Using(_, seen) => Some(seen)
    case Pinned(_, seen) => Some(seen)
    case _ => None
  }

  predicate Swaps(step: Step, t: Tid) {
    step.Acquire? && step.t == t && step.a.Swap?
  }

  predicate Remembers(pc: Pc, pc': Pc) {
    SeenOf(pc') == SeenOf(pc) || SeenOf(pc').None?
  }

  lemma AcquireKeepsSeen(s: State, t: Tid, a: AcquireStep, u: Tid)
    requires CanAcquire(s, t, a) && u in s.pcs && (u == t ==> !a.Swap?)
    ensures u in DoAcquire(s, t, a).pcs && Remembers(s.pcs[u], DoAcquire(s, t, a).pcs[u])
  {
  }

  lemma ReleaseKeepsSeen(s: State, t: Tid, r: ReleaseStep, u: Tid)
    requires CanRelease(s, t, r) && u in s.pcs
    ensures u in DoRelease(s, t, r).pcs && Remembers(s.pcs[u], DoRelease(s, t, r).pcs[u])
  {
  }

  lemma InstallKeepsSeen(s: State, t: Tid, i: InstallStep, u: Tid)
    requires CanInstall(s, t, i) && u in s.pcs
    ensures u in DoInstall(s, t, i).pcs && Remembers(s.pcs[u], DoInstall(s, t, i).pcs[u])
  {
  }

  /** Until it takes its slot again, a thread remembers the number it saw or nothing. */
  lemma SeenIsKept(states: seq<State>, steps: seq<Step>, n: nat, u: Tid)
    requires IsRun(states, steps) && n < |steps| && u in states[n].pcs && !Swaps(steps[n], u)
    ensures u in states[n + 1].pcs && Remembers(states[n].pcs[u], states[n + 1].pcs[u])
  {
    match steps[n]
    case Acquire(t, a) => AcquireKeepsSeen(states[n], t, a, u);
    case Release(t, r) => ReleaseKeepsSeen(states[n], t, r, u);
    case Install(t, i) => InstallKeepsSeen(states[n], t, i, u);
  }

  lemma {:induction false} SeenIsTheNumberAtSwap(states: seq<State>, steps: seq<Step>, m: nat, n: nat, t: Tid)
    requires IsRun(states, steps) && m < n < |states| && Swaps(steps[m], t)
    requires forall i :: m < i < n ==> !Swaps(steps[i], t)
    ensures t in states[n].pcs
    ensures SeenOf(states[n].pcs[t]).Some? ==> SeenOf(states[n].pcs[t]).value == states[m].number
  {
    if n == m + 1 {
      assert Follows(states[m], steps[m], states[n]);
    } else {
      SeenIsTheNumberAtSwap(states, steps, m, n - 1, t);
      SeenIsKept(states, steps, n - 1, t);
    }
  }

  /** The SuperVersion a reader gets is no older than the one current when it took its slot. */
  lemma ReaderIsUpToDate(states: seq<State>, steps: seq<Step>, m: nat, n: nat, t: Tid)
    requires IsRun(states, steps) && m < n < |states| && Swaps(steps[m], t)
    requires forall i :: m < i < n ==> !Swaps(steps[i], t)
    requires t in states[n].pcs && states[n].pcs[t].Using?
    ensures Version(states[n].versions, states[n].pcs[t].sv) >= states[m].number
  {
    RunKeeps(states, steps, n);
    assert ThreadOk(states[n], t);
    SeenIsTheNumberAtSwap(states, steps, m, n, t);
  }

  // ---------------------------------------------------------------- what becomes of a slot

  predicate Scrapes(step: Step, t: Tid) {
    step.Install? && step.i == ScrapeSlot(t)
  }

  lemma AcquireLeavesSlot(s: State, t: Tid, a: AcquireStep, u: Tid)
    requires CanAcquire(s, t, a) && u in s.slots && (u == t ==> !a.Swap?)
    ensures u in DoAcquire(s, t, a).slots && DoAcquire(s, t, a).slots[u] == s.slots[u]
  {
  }

  lemma ReleaseLeavesSlot(s: State, t: Tid, r: ReleaseStep, u: Tid)
    requires CanRelease(s, t, r) && u in s.slots && u in s.pcs && SeenOf(DoRelease(s, t, r).pcs[u]).Some?
    ensures u in DoRelease(s, t, r).slots && DoRelease(s, t, r).slots[u] == s.slots[u]
  {
  }

  lemma InstallLeavesSlot(s: State, t: Tid, i: InstallStep, u: Tid)
    requires CanInstall(s, t, i) && u in s.slots
    ensures u in DoInstall(s, t, i).slots
    ensures DoInstall(s, t, i).slots[u] == if i == ScrapeSlot(u) then Obsolete else s.slots[u]
  {
  }

  /** While a thread reads, only a scrape touches its slot. */
  lemma SlotIsLeft(states: seq<State>, steps: seq<Step>, n: nat, u: Tid)
    requires IsRun(states, steps) && n < |steps| && u in states[n].slots && u in states[n].pcs && !Swaps(steps[n], u)
    requires u in states[n + 1].pcs && SeenOf(states[n + 1].pcs[u]).Some?
    ensures u in states[n + 1].slots
    ensures states[n + 1].slots[u] == if Scrapes(steps[n], u) then Obsolete else states[n].slots[u]
  {
    match steps[n]
    case Acquire(t, a) => AcquireLeavesSlot(states[n], t, a, u);
    case Release(t, r) => ReleaseLeavesSlot(states[n], t, r, u);
    case Install(t, i) => InstallLeavesSlot(states[n], t, i, u);
  }

  /** A reader can put its SuperVersion back exactly when no installation has scraped its slot since it
      took it. */
  lemma {:induction false} ReturnGoesThrough(states: seq<State>, steps: seq<Step>, m: nat, n: nat, t: Tid)
    requires IsRun(states, steps) && m < n < |states| && Swaps(steps[m], t)
    requires forall i :: m < i < n ==> !Swaps(steps[i], t)
    requires t in states[n].pcs && SeenOf(states[n].pcs[t]).Some?
    ensures t in states[n].slots && !states[n].slots[t].Cached?
    ensures states[n].slots[t].InUse? <==> forall i :: m < i < n ==> !Scrapes(steps[i], t)
  {
    if n == m + 1 {
      assert Follows(states[m], steps[m], states[n]);
    } else {
      SeenIsTheNumberAtSwap(states, steps, m, n - 1, t);
      SeenIsKept(states, steps, n - 1, t);
      ReturnGoesThrough(states, steps, m, n - 1, t);
      SlotIsLeft(states, steps, n - 1, t);
    }
  }

  // ---------------------------------------------------------------- a cached SuperVersion is used again

  lemma AcquireIsForeign(s: State, t: Tid, a: AcquireStep, u: Tid)
    requires CanAcquire(s, t, a) && u in s.pcs && u in s.slots && u != t
    ensures var s' := DoAcquire(s, t, a);
      u in s'.pcs && u in s'.slots && s'.pcs[u] == s.pcs[u] && s'.slots[u] == s.slots[u]
  {
  }

  lemma ReleaseIsForeign(s: State, t: Tid, r: ReleaseStep, u: Tid)
    requires CanRelease(s, t, r) && u in s.pcs && u in s.slots && u != t
    ensures var s' := DoRelease(s, t, r);
      u in s'.pcs && u in s'.slots && s'.pcs[u] == s.pcs[u] && s'.slots[u] == s.slots[u]
  {
  }

  lemma InstallIsForeign(s: State, t: Tid, i: InstallStep, u: Tid)
    requires CanInstall(s, t, i) && u in s.pcs && u in s.slots && u != t && i != ScrapeSlot(u)
    ensures var s' := DoInstall(s, t, i);
      u in s'.pcs && u in s'.slots && s'.pcs[u] == s.pcs[u] && s'.slots[u] == s.slots[u]
  {
  }

  /** Thread t takes no step and its slot is not scraped. */
  predicate LeavesAlone(step: Step, t: Tid) {
    step.t != t && !Scrapes(step, t)
  }

  /** Between its own steps a thread stays where it is, and so does its slot unless it is scraped. */
  lemma {:induction false} ThreadStands(states: seq<State>, steps: seq<Step>, a: nat, b: nat, t: Tid)
    requires IsRun(states, steps) && a <= b < |states| && t in states[a].pcs && t in states[a].slots
    requires forall i :: a <= i < b ==> LeavesAlone(steps[i], t)
    ensures t in states[b].pcs && t in states[b].slots
    ensures states[b].pcs[t] == states[a].pcs[t] && states[b].slots[t] == states[a].slots[t]
    decreases b
  {
    if a < b {
      ThreadStands(states, steps, a, b - 1, t);
      assert Follows(states[b - 1], steps[b - 1], states[b]) && LeavesAlone(steps[b - 1], t);
      match steps[b - 1]
      case Acquire(u, x) => AcquireIsForeign(states[b - 1], u, x, t);
      case Release(u, x) => ReleaseIsForeign(states[b - 1], u, x, t);
      case Install(u, x) => InstallIsForeign(states[b - 1], u, x, t);
    }
  }

  /** ReturnThreadLocalSuperVersion, by a reader or for an iterator that keeps the SuperVersion. */
  predicate GivesBack(step: Step, t: Tid) {
    step.Release? && step.t == t && (step.r.Return? || step.r.ReturnPinned?)
  }

  /** What a reader gives back stands in its slot, unless the slot was scraped while it read. Its reference
      goes with it, and with an iterator's SuperVersion the second reference goes to the iterator. */
  lemma ReturnedIsCached(states: seq<State>, steps: seq<Step>, m: nat, r: nat, t: Tid)
    requires IsRun(states, steps) && m < r < |steps| && Swaps(steps[m], t) && GivesBack(steps[r], t)
    requires forall i :: m < i < r ==> !Swaps(steps[i], t) && !Scrapes(steps[i], t)
    ensures Enabled(states[r], steps[r])
    ensures var s, s', sv := states[r], states[r + 1], states[r].pcs[t].sv;
      && t in s'.pcs && t in s'.slots && s'.pcs[t] == Idle && s'.slots[t] == Cached(sv)
      && s'.refs == s.refs && s'.mutex == s.mutex
      && s'.handles == if steps[r].r.Return? then s.handles else s.handles[steps[r].r.h := sv]
  {
    assert Follows(states[r], steps[r], states[r + 1]);
    ReturnGoesThrough(states, steps, m, r, t);
  }

  lemma CheckFinds(states: seq<State>, steps: seq<Step>, q: nat, t: Tid)
    requires IsRun(states, steps) && q < |steps| && steps[q] == Acquire(t, Check) && Inv(states[q])
    requires t in states[q].pcs && t in states[q].slots
    requires states[q].slots[t].InUse? && states[q].pcs[t].Swapped? && states[q].pcs[t].ptr.Cached?
    ensures var s, s', sv, seen := states[q], states[q + 1], states[q].pcs[t].ptr.sv, states[q].pcs[t].seen;
      && t in s'.pcs && s'.refs == s.refs && s'.mutex == s.mutex
      && s'.pcs[t] == if s.phase.Numbered? || s.phase.Scraping? then Stale(sv, seen) else Using(sv, seen)
  {
    assert Follows(states[q], steps[q], states[q + 1]);
    assert ThreadOk(states[q], t);
  }

  /** A SuperVersion that was given back is used again. If the slot of thread t is not scraped from one read to
      the next, then the next one finds in the slot what the last one gave back. It uses that SuperVersion at
      once, without the mutex and without touching a reference count, unless an installation has counted up. */
  lemma ReturnedIsUsedAgain(states: seq<State>, steps: seq<Step>, m: nat, r: nat, p: nat, q: nat, t: Tid)
    requires IsRun(states, steps) && m < r < p < q < |steps|
    requires Swaps(steps[m], t) && GivesBack(steps[r], t) && Swaps(steps[p], t) && steps[q] == Acquire(t, Check)
    requires forall i :: m < i < r ==> !Swaps(steps[i], t) && !Scrapes(steps[i], t)
    requires forall i :: r < i < q && i != p ==> LeavesAlone(steps[i], t)
    ensures Enabled(states[r], steps[r])
    ensures var sv := states[r].pcs[t].sv;
      && t in states[p + 1].pcs && states[p + 1].pcs[t] == Swapped(Cached(sv), states[p].number)
      && t in states[q + 1].pcs
      && states[q + 1].pcs[t] ==
           (if states[q].phase.Numbered? || states[q].phase.Scraping? then Stale(sv, states[p].number)
            else Using(sv, states[p].number))
      && states[p + 1].refs == states[p].refs && states[p + 1].mutex == states[p].mutex
      && states[q + 1].refs == states[q].refs && states[q + 1].mutex == states[q].mutex
  {
    ReturnedIsCached(states, steps, m, r, t);
    ThreadStands(states, steps, r + 1, p, t);
    assert Follows(states[p], steps[p], states[p + 1]);
    ThreadStands(states, steps, p + 1, q, t);
    RunKeeps(states, steps, q);
    CheckFinds(states, steps, q, t);
  }

  /** The end of a thread takes back what its slot holds, and with it one reference, but no more than that. */
  lemma ExitReleases(states: seq<State>, steps: seq<Step>, n: nat, sv: SvId)
    requires IsRun(states, steps) && n < |steps| && steps[n].Release? && steps[n].r.ExitThread?
    ensures Enabled(states[n], steps[n])
    ensures var s, s', t := states[n], states[n + 1], steps[n].t;
      && t in s'.pcs && s'.pcs[t].Idle? && t in s'.slots && s'.slots[t].Obsolete? && s'.mutex == s.mutex
      && Refs(s', sv) == Refs(s, sv) - (if s.slots[t] == Cached(sv) then 1 else 0)
      && s'.cleanups == s.cleanups
  {
    assert Follows(states[n], steps[n], states[n + 1]);
  }

  /** A reader whose slot holds nothing, or something old, takes a reference to what is current under the
      mutex. */
  lemma MissTakesCurrent(states: seq<State>, steps: seq<Step>, n: nat)
    requires IsRun(states, steps) && n < |steps| && steps[n].Acquire? && steps[n].a.RefCurrent?
    ensures Enabled(states[n], steps[n])
    ensures var s, s', t := states[n], states[n + 1], steps[n].t;
      && s.mutex == Some(t) && t in s'.pcs
      && PcHolds(s'.pcs[t]) == Some(s.current) && Refs(s', s.current) == Refs(s, s.current) + 1
  {
    assert Follows(states[n], steps[n], states[n + 1]);
    RunKeeps(states, steps, n);
    assert ThreadOk(states[n], steps[n].t);
  }

  // ---------------------------------------------------------------- no deadlock

  lemma {:induction false} Unused(used: set<nat>) returns (x: nat)
    ensures x !in used && forall y :: y in used ==> y < x
    decreases |used|
  {
    if used == {} {
      x := 0;
    } else {
      var y :| y in used;
      var z := Unused(used - {y});
      x := if z > y then z else y + 1;
      assert used == used - {y} + {y};
    }
  }

  /** The step that the owner of the mutex can take. */
  lemma OwnerMoves(s: State, t: Tid) returns (step: Step)
    requires Inv(s) && s.mutex == Some(t)
    ensures Enabled(s, step) && step.t == t
  {
    assert ThreadOk(s, t);
    if s.pcs[t].HasMutex? {
      step := Acquire(t, RefCurrent);
    } else if s.pcs[t].Referenced? {
      step := Acquire(t, Unlock);
    } else {
      var i := InstallerMoves(s, t);
      step := Install(t, i);
    }
  }

  lemma InstallerMoves(s: State, t: Tid) returns (i: InstallStep)
    requires InstallOk(s) && t in s.pcs && t in s.slots && s.pcs[t].Installing? && !s.phase.NoInstall?
    ensures CanInstall(s, t, i)
  {
    match s.phase
    case Begun => var id := Unused(s.refs.Keys); i := Replace(id);
    case Replaced(_) => i := Number;
    case Numbered(_) => i := SetVersion;
    case Scraping(_) =>
      if u :| u in s.todo {
        i := ScrapeSlot(u);
      } else {
        i := EndScrape;
      }
    case Dropping(_) =>
      if u :| u in s.scraped {
        i := DropScraped(u);
      } else {
        i := DropPrevious;
      }
    case Ended => i := End;
  }

  /** A thread in the middle of an operation can move, or the thread that owns the mutex can. */
  lemma NoDeadlock(states: seq<State>, steps: seq<Step>, n: nat, t: Tid) returns (step: Step)
    requires IsRun(states, steps) && n < |states|
    requires t in states[n].pcs && !states[n].pcs[t].Idle?
    ensures Enabled(states[n], step)
    ensures step.t == t || states[n].mutex == Some(step.t)
  {
    RunKeeps(states, steps, n);
    var s := states[n];
    assert ThreadOk(s, t);
    if s.mutex.Some? && (s.mutex.value == t || s.pcs[t].NeedsMutex? || s.pcs[t].StaleDead? || s.pcs[t].Dying?) {
      step := OwnerMoves(s, s.mutex.value);
    } else {
      var h := Unused(s.handles.Keys);
      match s.pcs[t]
      case Swapped(_, _) => step := Acquire(t, Check);
      case Stale(_, _) => step := Acquire(t, UnrefStale);
      case StaleDead(_, _) => step := Acquire(t, Lock);
      case NeedsMutex(_) => step := Acquire(t, Lock);
      case Using(_, _) => step := Release(t, Return);
      case Pinned(_, _) => step := Release(t, ReturnPinned(h));
      case PinnedRelease(_) => step := Release(t, UnrefPinned(h));
      case Releasing(_) => step := Release(t, Unref);
      case Dying(_) => step := Release(t, CleanUp);
    }
  }

  // ---------------------------------------------------------------- returning a current SuperVersion can fail

  lemma Extend(states: seq<State>, steps: seq<Step>, step: Step) returns (states': seq<State>, steps': seq<Step>)
    requires IsRun(states, steps) && Enabled(states[|steps|], step)
    ensures IsRun(states', steps') && |steps'| == |steps| + 1 && states'[|steps'|] == Do(states[|steps|], step)
  {
    states' := states + [Do(states[|steps|], step)];
    steps' := steps + [step];
    forall n | 0 <= n < |steps'|
      ensures Follows(states'[n], steps'[n], states'[n + 1])
    {
      assert n < |steps| ==> Follows(states[n], steps[n], states[n + 1]);
    }
  }

  const DEMO_INIT := State(
    map[0 := Idle, 1 := Idle], map[0 := Obsolete, 1 := Obsolete], None, 0, 1,
    map[0 := 1], map[0 := 1], map[0 := 0], NoInstall, {}, map[], map[])

  const DEMO_BEGUN := State(
    map[0 := Swapped(Obsolete, 1), 1 := Installing], map[0 := InUse, 1 := Obsolete], Some(1), 0, 1,
    map[0 := 1], map[0 := 1], map[0 := 0], Begun, {}, map[], map[])

  const DEMO_NUMBERED := State(
    map[0 := Swapped(Obsolete, 1), 1 := Installing], map[0 := InUse, 1 := Obsolete], Some(1), 1, 2,
    map[0 := 1, 1 := 1], map[0 := 1, 1 := 0], map[0 := 0, 1 := 0], Numbered(0), {}, map[], map[])

  const DEMO_SCRAPED := State(
    map[0 := Swapped(Obsolete, 1), 1 := Installing], map[0 := Obsolete, 1 := Obsolete], Some(1), 1, 2,
    map[0 := 1, 1 := 1], map[0 := 1, 1 := 2], map[0 := 0, 1 := 0], Scraping(0), {}, map[], map[])

  const DEMO_INSTALLED := State(
    map[0 := Swapped(Obsolete, 1), 1 := Idle], map[0 := Obsolete, 1 := Obsolete], None, 1, 2,
    map[0 := 0, 1 := 1], map[0 := 1, 1 := 2], map[0 := 1, 1 := 0], NoInstall, {}, map[], map[])

  lemma DemoBegin() returns (states: seq<State>, steps: seq<Step>)
    ensures IsRun(states, steps) && states[|steps|] == DEMO_BEGUN
  {
    states, steps := [DEMO_INIT], [];
    states, steps := Extend(states, steps, Acquire(0, Swap));
    states, steps := Extend(states, steps, Install(1, Begin));
  }

  lemma DemoNumber() returns (states: seq<State>, steps: seq<Step>)
    ensures IsRun(states, steps) && states[|steps|] == DEMO_NUMBERED
  {
    states, steps := DemoBegin();
    states, steps := Extend(states, steps, Install(1, Replace(1)));
    states, steps := Extend(states, steps, Install(1, Number));
  }

  lemma DemoScrape() returns (states: seq<State>, steps: seq<Step>)
    ensures IsRun(states, steps) && states[|steps|] == DEMO_SCRAPED
  {
    states, steps := DemoNumber();
    states, steps := Extend(states, steps, Install(1, SetVersion));
    states, steps := Extend(states, steps, Install(1, ScrapeSlot(0)));
    states, steps := Extend(states, steps, Install(1, ScrapeSlot(1)));
  }

  lemma DemoInstall() returns (states: seq<State>, steps: seq<Step>)
    ensures IsRun(states, steps) && states[|steps|] == DEMO_INSTALLED
  {
    states, steps := DemoScrape();
    states, steps := Extend(states, steps, Install(1, EndScrape));
    states, steps := Extend(states, steps, Install(1, DropPrevious));
    states, steps := Extend(states, steps, Install(1, End));
  }

  /** A reader whose slot was scraped while it held none of the SuperVersions gets the new one, and
      cannot put it back although it is current. */
  lemma ReturnFailsOnCurrent() returns (states: seq<State>, steps: seq<Step>)
    ensures IsRun(states, steps)
    ensures var s := states[|steps|];
      && s.phase.NoInstall? && 0 in s.pcs && 0 in s.slots
      && s.pcs[0].Using? && s.pcs[0].sv == s.current && s.slots[0].Obsolete?
      && CanRelease(s, 0, Return) && DoRelease(s, 0, Return).pcs[0] == Releasing(s.current)
  {
    states, steps := DemoInstall();
    states, steps := Extend(states, steps, Acquire(0, Check));
    states, steps := Extend(states, steps, Acquire(0, Lock));
    states, steps := Extend(states, steps, Acquire(0, RefCurrent));
    states, steps := Extend(states, steps, Acquire(0, Unlock));
  }
}
