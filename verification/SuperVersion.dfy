/** The cache of SuperVersions in thread-local slots: readers, iterators, exiting threads and one
    installer at a time, interleaved step by step. */
module SuperVersion {
  import opened Format

  type Tid = nat
  type SvId = nat

  /** A thread-local slot: kSVInUse, kSVObsolete, or a cached SuperVersion. */
  datatype Slot = InUse | Obsolete | Cached(sv: SvId)

  /** Where a thread stands. seen is the SuperVersion number when a reader took its slot. */
  datatype Pc =
    | Idle
    // GetThreadLocalSuperVersion
    | Swapped(ptr: Slot, seen: nat)
    | Stale(sv: SvId, seen: nat)            // the cached SuperVersion must be dropped
    | StaleDead(sv: SvId, seen: nat)        // ... and it was the last reference
    | NeedsMutex(seen: nat)
    | HasMutex(seen: nat)
    | Referenced(sv: SvId, seen: nat)       // took a reference, still holds the mutex
    | Using(sv: SvId, seen: nat)
    // GetReferencedSuperVersion, with a second reference while it returns the slot
    | Pinned(sv: SvId, seen: nat)
    | PinnedRelease(sv: SvId)
    // a reference to give up, and a SuperVersion to clean up
    | Releasing(sv: SvId)
    | Dying(sv: SvId)
    // InstallSuperVersion
    | Installing

  /** How far the installation under the mutex has come. */
  datatype Phase =
    | NoInstall
    | Begun
    | Replaced(prev: SvId)                  // super_version_ points to the new one
    | Numbered(prev: SvId)                  // super_version_number_ is incremented
    | Scraping(prev: SvId)                  // the new one has its number; slots are being reset
    | Dropping(prev: SvId)                  // the scraped references are being dropped
    | Ended

  datatype State = State(
    pcs: map<Tid, Pc>,
    slots: map<Tid, Slot>,
    mutex: Option<Tid>,
    current: SvId,
    number: nat,
    refs: map<SvId, int>,
    versions: map<SvId, nat>,
    cleanups: map<SvId, nat>,
    phase: Phase,
    todo: set<Tid>,                         // slots the scrape has not reached
    scraped: map<Tid, SvId>,                // cached SuperVersions the scrape collected
    handles: map<nat, SvId>)                // SuperVersions pinned by iterators

  // ---------------------------------------------------------------- the steps

  /** GetThreadLocalSuperVersion. */
  datatype AcquireStep = Swap | Check | UnrefStale | Lock | RefCurrent | Unlock

  /** Giving a SuperVersion back, pinning it for an iterator, and the end of a thread. */
  datatype ReleaseStep =
    | Return
    | Unref
    | CleanUp
    | Pin
    | ReturnPinned(h: nat)
    | UnrefPinned(h: nat)
    | DropHandle(h: nat)
    | ExitThread

  /** InstallSuperVersion and ResetThreadLocalSuperVersions. */
  datatype InstallStep =
    | Begin
    | Replace(id: SvId)
    | Number
    | SetVersion
    | ScrapeSlot(u: Tid)
    | EndScrape
    | DropScraped(u: Tid)
    | DropPrevious
    | End

  datatype Step = Acquire(t: Tid, a: AcquireStep) | Release(t: Tid, r: ReleaseStep) | Install(t: Tid, i: InstallStep)

  function Refs(s: State, sv: SvId): int {
    if sv in s.refs then s.refs[sv] else 0
  }

  function Cleanups(s: State, sv: SvId): nat {
    if sv in s.cleanups then s.cleanups[sv] else 0
  }

  function Version(versions: map<SvId, nat>, sv: SvId): nat {
    if sv in versions then versions[sv] else 0
  }

  /** What a reader's step does: where the thread goes, what it leaves in its slot, and what it adds
      to the reference count and the clean-ups of one SuperVersion. */
  datatype Effect = Effect(
    pc: Pc,
    slot: Slot,
    mutex: Option<Tid>,
    sv: SvId,
    refs: int,
    cleanups: nat,
    handles: map<nat, SvId>)

  function NoEffect(s: State, pc: Pc, slot: Slot): Effect {
    Effect(pc, slot, s.mutex, 0, 0, 0, s.handles)
  }

  function Apply(s: State, t: Tid, e: Effect): State {
    s.(pcs := s.pcs[t := e.pc],
       slots := s.slots[t := e.slot],
       mutex := e.mutex,
       refs := if e.refs == 0 then s.refs else s.refs[e.sv := Refs(s, e.sv) + e.refs],
       cleanups := if e.cleanups == 0 then s.cleanups else s.cleanups[e.sv := Cleanups(s, e.sv) + e.cleanups],
       handles := e.handles)
  }

  predicate CanAcquire(s: State, t: Tid, a: AcquireStep) {
    && t in s.pcs && t in s.slots
    && match a
       case Swap => s.pcs[t].Idle?
       case Check => s.pcs[t].Swapped?
       case UnrefStale => s.pcs[t].Stale?
       case Lock => (s.pcs[t].NeedsMutex? || s.pcs[t].StaleDead?) && s.mutex.None?
       case RefCurrent => s.pcs[t].HasMutex?
       case Unlock => s.pcs[t].Referenced?
  }

  function AcquireEffect(s: State, t: Tid, a: AcquireStep): Effect
    requires CanAcquire(s, t, a)
  {
    var pc, e := s.pcs[t], NoEffect(s, s.pcs[t], s.slots[t]);
    match a
    case Swap => e.(pc := Swapped(s.slots[t], s.number), slot := InUse)
    case Check =>
      if !pc.ptr.Cached? then e.(pc := NeedsMutex(pc.seen))
      else if Version(s.versions, pc.ptr.sv) != s.number then e.(pc := Stale(pc.ptr.sv, pc.seen))
      else e.(pc := Using(pc.ptr.sv, pc.seen))
    case UnrefStale =>
      e.(sv := pc.sv, refs := -1,
         pc := if Refs(s, pc.sv) == 1 then StaleDead(pc.sv, pc.seen) else NeedsMutex(pc.seen))
    case Lock =>
      if pc.StaleDead? then e.(mutex := Some(t), sv := pc.sv, cleanups := 1, pc := HasMutex(pc.seen))
      else e.(mutex := Some(t), pc := HasMutex(pc.seen))
    case RefCurrent => e.(sv := s.current, refs := 1, pc := Referenced(s.current, pc.seen))
    case Unlock => e.(mutex := None, pc := Using(pc.sv, pc.seen))
  }

  function DoAcquire(s: State, t: Tid, a: AcquireStep): State
    requires CanAcquire(s, t, a)
  {
    Apply(s, t, AcquireEffect(s, t, a))
  }

  predicate CanRelease(s: State, t: Tid, r: ReleaseStep) {
    && t in s.pcs && t in s.slots
    && match r
       case Return => s.pcs[t].Using?
       case Unref => s.pcs[t].Releasing?
       case CleanUp => s.pcs[t].Dying? && s.mutex.None?
       case Pin => s.pcs[t].Using?
       case ReturnPinned(h) => s.pcs[t].Pinned? && h !in s.handles
       case UnrefPinned(h) => s.pcs[t].PinnedRelease? && h !in s.handles
       case DropHandle(h) => s.pcs[t].Idle? && h in s.handles
       case ExitThread => s.pcs[t].Idle?
  }

  function ReleaseEffect(s: State, t: Tid, r: ReleaseStep): Effect
    requires CanRelease(s, t, r)
  {
    var pc, slot, e := s.pcs[t], s.slots[t], NoEffect(s, s.pcs[t], s.slots[t]);
    match r
    case Return =>
      if slot.InUse? then e.(pc := Idle, slot := Cached(pc.sv)) else e.(pc := Releasing(pc.sv))
    case Unref =>
      e.(sv := pc.sv, refs := -1, pc := if Refs(s, pc.sv) == 1 then Dying(pc.sv) else Idle)
    case CleanUp => e.(sv := pc.sv, cleanups := 1, pc := Idle)
    case Pin => e.(sv := pc.sv, refs := 1, pc := Pinned(pc.sv, pc.seen))
    case ReturnPinned(h) =>
      if slot.InUse? then e.(pc := Idle, slot := Cached(pc.sv), handles := s.handles[h := pc.sv])
      else e.(pc := PinnedRelease(pc.sv))
    case UnrefPinned(h) => e.(sv := pc.sv, refs := -1, pc := Idle, handles := s.handles[h := pc.sv])
    case DropHandle(h) => e.(pc := Releasing(s.handles[h]), handles := s.handles - {h})
    case ExitThread =>
      if slot.Cached? then e.(sv := slot.sv, refs := -1, slot := Obsolete) else e.(slot := Obsolete)
  }

  function DoRelease(s: State, t: Tid, r: ReleaseStep): State
    requires CanRelease(s, t, r)
  {
    Apply(s, t, ReleaseEffect(s, t, r))
  }

  /** Drops a reference under the mutex, and cleans up at once if it was the last. */
  function DropLocked(s: State, sv: SvId): State {
    s.(refs := s.refs[sv := Refs(s, sv) - 1],
       cleanups := if Refs(s, sv) == 1 then s.cleanups[sv := Cleanups(s, sv) + 1] else s.cleanups)
  }

  predicate CanInstall(s: State, t: Tid, i: InstallStep) {
    && t in s.pcs && t in s.slots
    && if i.Begin? then s.pcs[t].Idle? && s.mutex.None? else
       s.pcs[t].Installing? &&
       match i
       case Begin => false
       case Replace(id) => s.phase.Begun? && id !in s.refs
       case Number => s.phase.Replaced?
       case SetVersion => s.phase.Numbered?
       case ScrapeSlot(u) => s.phase.Scraping? && u in s.todo && u in s.slots
       case EndScrape => s.phase.Scraping? && s.todo == {}
       case DropScraped(u) => s.phase.Dropping? && u in s.scraped
       case DropPrevious => s.phase.Dropping? && s.scraped.Keys == {}
       case End => s.phase.Ended?
  }

  function DoInstall(s: State, t: Tid, i: InstallStep): State
    requires CanInstall(s, t, i)
  {
    match i
    case Begin => s.(pcs := s.pcs[t := Installing], mutex := Some(t), phase := Begun)
    case Replace(id) =>
      s.(phase := Replaced(s.current), current := id,
         refs := s.refs[id := 1], versions := s.versions[id := 0], cleanups := s.cleanups[id := 0])
    case Number => s.(phase := Numbered(s.phase.prev), number := s.number + 1)
    case SetVersion =>
      s.(phase := Scraping(s.phase.prev), versions := s.versions[s.current := s.number], todo := s.slots.Keys)
    case ScrapeSlot(u) =>
      s.(slots := s.slots[u := Obsolete],
         todo := s.todo - {u},
         scraped := if s.slots[u].Cached? then s.scraped[u := s.slots[u].sv] else s.scraped)
    case EndScrape => s.(phase := Dropping(s.phase.prev))
    case DropScraped(u) => DropLocked(s, s.scraped[u]).(scraped := s.scraped - {u})
    case DropPrevious => DropLocked(s, s.phase.prev).(phase := Ended)
    case End => s.(pcs := s.pcs[t := Idle], mutex := None, phase := NoInstall)
  }

  predicate Enabled(s: State, step: Step) {
    match step
    case Acquire(t, a) => CanAcquire(s, t, a)
    case Release(t, r) => CanRelease(s, t, r)
    case Install(t, i) => CanInstall(s, t, i)
  }

  function Do(s: State, step: Step): State
    requires Enabled(s, step)
  {
    match step
    case Acquire(t, a) => DoAcquire(s, t, a)
    case Release(t, r) => DoRelease(s, t, r)
    case Install(t, i) => DoInstall(s, t, i)
  }

  /** One SuperVersion is installed and no thread has used it. */
  ghost predicate Init(s: State) {
    && s.pcs.Keys == s.slots.Keys
    && (forall t :: t in s.pcs ==> s.pcs[t] == Idle && s.slots[t] == Obsolete)
    && s.number > 0
    && s.refs == map[s.current := 1] && s.versions == map[s.current := s.number] && s.cleanups == map[s.current := 0]
    && s.mutex.None? && s.phase.NoInstall? && s.todo == {} && s.scraped == map[] && s.handles == map[]
  }

  // ---------------------------------------------------------------- who holds a reference

  function PcHolds(pc: Pc): Option<SvId> {
    match pc
    case Swapped(Cached(sv), _) => Some(sv)
    case Stale(sv, _) => Some(sv)
    case Referenced(sv, _) => Some(sv)
    case Using(sv, _) => Some(sv)
    case Pinned(sv, _) => Some(sv)
    case PinnedRelease(sv) => Some(sv)
    case Releasing(sv) => Some(sv)
    case _ => None
  }

  function PinHolds(pc: Pc): Option<SvId> {
    if pc.Pinned? || pc.PinnedRelease? then Some(pc.sv) else None
  }

  function SlotHolds(slot: Slot): Option<SvId> {
    if slot.Cached? then Some(slot.sv) else None
  }

  function PhaseHolds(phase: Phase): Option<SvId> {
    if phase.Replaced? || phase.Numbered? || phase.Scraping? || phase.Dropping? then Some(phase.prev) else None
  }

  function SlotsWith(slots: map<Tid, Slot>, sv: SvId): set<Tid> {
    set t | t in slots && SlotHolds(slots[t]) == Some(sv)
  }

  function ThreadsWith(pcs: map<Tid, Pc>, sv: SvId): set<Tid> {
    set t | t in pcs && PcHolds(pcs[t]) == Some(sv)
  }

  function PinsWith(pcs: map<Tid, Pc>, sv: SvId): set<Tid> {
    set t | t in pcs && PinHolds(pcs[t]) == Some(sv)
  }

  function With(m: map<nat, SvId>, sv: SvId): set<nat> {
    set t | t in m && m[t] == sv
  }

  function Bit(b: bool): nat {
    if b then 1 else 0
  }

  /** The column family, the installer, and every slot, thread, pin, scraped reference and handle. */
  function Holders(s: State, sv: SvId): nat {
    Bit(s.current == sv) + Bit(PhaseHolds(s.phase) == Some(sv))
    + |SlotsWith(s.slots, sv)| + |ThreadsWith(s.pcs, sv)| + |PinsWith(s.pcs, sv)|
    + |With(s.scraped, sv)| + |With(s.handles, sv)|
  }

  // ---------------------------------------------------------------- the invariant

  predicate Locked(pc: Pc) {
    pc.HasMutex? || pc.Referenced? || pc.Installing?
  }

  /** Between taking the slot and returning it. */
  predicate InWindow(pc: Pc) {
    || pc.Swapped? || pc.Stale? || pc.StaleDead? || pc.NeedsMutex?
    || pc.HasMutex? || pc.Referenced? || pc.Using? || pc.Pinned?
  }

  /** The SuperVersion a slot may lead to; due says that the scrape has not reached it. */
  predicate Fresh(sv: SvId, current: SvId, phase: Phase, due: bool) {
    match phase
    case NoInstall => sv == current
    case Begun => sv == current
    case Replaced(prev) => sv == prev
    case Numbered(prev) => sv == prev
    case Scraping(prev) => due && sv == prev
    case Dropping(_) => false
    case Ended => false
  }

  predicate MutexOk(pc: Pc, locked: bool, phase: Phase) {
    && (Locked(pc) <==> locked)
    && (pc.Installing? ==> !phase.NoInstall?)
    && (pc.HasMutex? || pc.Referenced? ==> phase.NoInstall?)
  }

  predicate SlotOk(pc: Pc, slot: Slot, current: SvId, phase: Phase, due: bool) {
    && (if InWindow(pc) then !slot.Cached? else !slot.InUse?)
    && (pc.Swapped? ==> !pc.ptr.InUse?)
    && (slot.Cached? ==> Fresh(slot.sv, current, phase, due))
    && (slot.InUse? && PcHolds(pc).Some? ==> Fresh(PcHolds(pc).value, current, phase, due))
    && (pc.Referenced? ==> pc.sv == current)
  }

  /** A reader gets a SuperVersion no older than the number at its Swap. */
  predicate ReaderOk(pc: Pc, number: nat, versions: map<SvId, nat>) {
    match pc
    case Swapped(_, seen) => seen <= number
    case Stale(_, seen) => seen <= number
    case StaleDead(_, seen) => seen <= number
    case NeedsMutex(seen) => seen <= number
    case HasMutex(seen) => seen <= number
    case Referenced(sv, seen) => seen <= Version(versions, sv)
    case Using(sv, seen) => seen <= Version(versions, sv)
    case Pinned(sv, seen) => seen <= Version(versions, sv)
    case _ => true
  }

  predicate ThreadOk(s: State, t: Tid)
    requires t in s.pcs && t in s.slots
  {
    && MutexOk(s.pcs[t], s.mutex == Some(t), s.phase)
    && SlotOk(s.pcs[t], s.slots[t], s.current, s.phase, t in s.todo)
    && ReaderOk(s.pcs[t], s.number, s.versions)
  }

  ghost predicate ThreadsOk(s: State) {
    && s.pcs.Keys == s.slots.Keys
    && (forall t :: t in s.pcs ==> ThreadOk(s, t))
  }

  ghost predicate InstallOk(s: State) {
    && (s.mutex.Some? ==> s.mutex.value in s.pcs)
    && (s.mutex.None? ==> s.phase.NoInstall?)
    && PhaseHolds(s.phase) != Some(s.current)
    && s.todo <= s.slots.Keys
    && (!s.phase.Scraping? ==> s.todo == {})
    && (s.scraped.Keys != {} ==> s.phase.Scraping? || s.phase.Dropping?)
    && (forall t :: t in s.scraped ==> t !in s.todo && PhaseHolds(s.phase) == Some(s.scraped[t]))
  }

  /** The one SuperVersion that may carry the current number. */
  function Numbering(s: State): SvId {
    if s.phase.Replaced? then s.phase.prev else s.current
  }

  ghost predicate NumbersOk(s: State) {
    && s.number > 0
    && (forall sv :: sv in s.versions ==> s.versions[sv] <= s.number)
    && (forall sv :: sv in s.versions && s.versions[sv] == s.number ==> sv == Numbering(s) && !s.phase.Numbered?)
    && (!s.phase.Numbered? ==> Version(s.versions, Numbering(s)) == s.number)
  }

  /** The reference count of every SuperVersion is the number of its holders. */
  ghost predicate Counted(s: State) {
    forall sv: SvId :: Refs(s, sv) == Holders(s, sv)
  }

  function Doomed(pc: Pc): Option<SvId> {
    match pc
    case StaleDead(sv, _) => Some(sv)
    case Dying(sv) => Some(sv)
    case _ => None
  }

  function DoomedBy(pcs: map<Tid, Pc>, sv: SvId): set<Tid> {
    set t | t in pcs && Doomed(pcs[t]) == Some(sv)
  }

  /** A SuperVersion whose count has reached zero has been cleaned up once, or one thread is about
      to; any other has neither. */
  ghost predicate LivesOk(s: State) {
    forall sv: SvId :: Cleanups(s, sv) + |DoomedBy(s.pcs, sv)| == Bit(Dead(s, sv))
  }

  predicate Dead(s: State, sv: SvId) {
    sv in s.refs && s.refs[sv] == 0
  }

  ghost predicate Inv(s: State) {
    ThreadsOk(s) && InstallOk(s) && NumbersOk(s) && Counted(s) && LivesOk(s)
  }

  // ---------------------------------------------------------------- threads and numbers

  /** What a reader's step must establish for its own thread. */
  ghost predicate GoodEffect(s: State, t: Tid, e: Effect) {
    && MutexOk(e.pc, e.mutex == Some(t), s.phase)
    && SlotOk(e.pc, e.slot, s.current, s.phase, t in s.todo)
    && ReaderOk(e.pc, s.number, s.versions)
    && (e.mutex == s.mutex || (s.phase.NoInstall? && OwnOrNone(s.mutex, t) && OwnOrNone(e.mutex, t)))
  }

  predicate OwnOrNone(mutex: Option<Tid>, t: Tid) {
    mutex.None? || mutex == Some(t)
  }

  lemma EffectKeepsThreads(s: State, t: Tid, e: Effect)
    requires t in s.pcs && GoodEffect(s, t, e)
    requires ThreadsOk(s) && InstallOk(s) && NumbersOk(s)
    ensures ThreadsOk(Apply(s, t, e)) && InstallOk(Apply(s, t, e)) && NumbersOk(Apply(s, t, e))
  {
    var s' := Apply(s, t, e);
    forall u | u in s'.pcs
      ensures u in s'.slots && ThreadOk(s', u)
    {
      assert ThreadOk(s, u);
    }
  }

  lemma AcquireIsGood(s: State, t: Tid, a: AcquireStep)
    requires CanAcquire(s, t, a) && ThreadOk(s, t)
    requires s.mutex.None? ==> s.phase.NoInstall?
    requires s.phase.NoInstall? ==> Version(s.versions, s.current) == s.number
    ensures GoodEffect(s, t, AcquireEffect(s, t, a))
  {
  }

  lemma ReleaseIsGood(s: State, t: Tid, r: ReleaseStep)
    requires CanRelease(s, t, r) && ThreadOk(s, t)
    ensures GoodEffect(s, t, ReleaseEffect(s, t, r))
  {
  }

  lemma InstallThread(s: State, t: Tid, i: InstallStep, u: Tid)
    requires CanInstall(s, t, i) && ThreadOk(s, t) && InstallOk(s) && NumbersOk(s)
    requires u in s.pcs && u in s.slots && ThreadOk(s, u)
    requires i.Replace? && PcHolds(s.pcs[u]).Some? ==> PcHolds(s.pcs[u]).value in s.refs
    ensures var s' := DoInstall(s, t, i); u in s'.pcs && u in s'.slots && ThreadOk(s', u)
  {
  }

  lemma InstallNumbers(s: State, t: Tid, i: InstallStep)
    requires CanInstall(s, t, i) && ThreadOk(s, t) && InstallOk(s) && NumbersOk(s) && Counted(s)
    ensures NumbersOk(DoInstall(s, t, i))
  {
    assert i.Replace? ==> Refs(s, i.id) == Holders(s, i.id);
  }

  lemma InstallInstall(s: State, t: Tid, i: InstallStep)
    requires CanInstall(s, t, i) && ThreadOk(s, t) && InstallOk(s) && Counted(s)
    requires i.ScrapeSlot? ==> i.u in s.pcs && ThreadOk(s, i.u)
    ensures InstallOk(DoInstall(s, t, i))
  {
    assert Refs(s, s.current) == Holders(s, s.current);
  }

  // ---------------------------------------------------------------- references

  function Share(pc: Pc, slot: Slot, sv: SvId): nat {
    Bit(PcHolds(pc) == Some(sv)) + Bit(PinHolds(pc) == Some(sv)) + Bit(SlotHolds(slot) == Some(sv))
  }

  lemma SetChanges(a: set<nat>, b: set<nat>, x: nat)
    requires forall y :: y != x ==> (y in a <==> y in b)
    ensures |b| == |a| - Bit(x in a) + Bit(x in b)
  {
    var rest := a - {x};
    assert a == if x in a then rest + {x} else rest;
    assert b == if x in b then rest + {x} else rest;
  }

  lemma HoldersAtLeast(s: State, t: Tid, sv: SvId)
    requires t in s.pcs && t in s.slots
    ensures Holders(s, sv) >= Bit(s.current == sv) + Bit(PhaseHolds(s.phase) ==
      Some(sv)) + Share(s.pcs[t], s.slots[t], sv)
  {
    SetChanges(ThreadsWith(s.pcs, sv), ThreadsWith(s.pcs, sv) - {t}, t);
    SetChanges(PinsWith(s.pcs, sv), PinsWith(s.pcs, sv) - {t}, t);
    SetChanges(SlotsWith(s.slots, sv), SlotsWith(s.slots, sv) - {t}, t);
  }

  /** What the books of one SuperVersion say about thread t. */
  ghost predicate BooksOf(s: State, t: Tid, sv: SvId)
    requires t in s.pcs && t in s.slots
  {
    && Refs(s, sv) >= Bit(s.current == sv) + Bit(PhaseHolds(s.phase) == Some(sv)) + Share(s.pcs[t], s.slots[t], sv)
    && Cleanups(s, sv) + Bit(Doomed(s.pcs[t]) == Some(sv)) <= Bit(Dead(s, sv))
  }

  lemma Books(s: State, t: Tid, sv: SvId)
    requires Counted(s) && LivesOk(s) && t in s.pcs && t in s.slots
    ensures BooksOf(s, t, sv)
  {
    HoldersAtLeast(s, t, sv);
    assert Refs(s, sv) == Holders(s, sv);
    assert Cleanups(s, sv) + |DoomedBy(s.pcs, sv)| == Bit(Dead(s, sv));
    SetChanges(DoomedBy(s.pcs, sv), DoomedBy(s.pcs, sv) - {t}, t);
  }

  function Times(b: bool, n: int): int {
    if b then n else 0
  }

  /** A reader's step keeps the books of one SuperVersion: references move with their holders, and
      the last one leaves a thread that must clean up. */
  ghost predicate Balanced(s: State, t: Tid, e: Effect, sv: SvId)
    requires t in s.pcs && t in s.slots
  {
    && Share(e.pc, e.slot, sv) + |With(e.handles, sv)|
       == Share(s.pcs[t], s.slots[t], sv) + |With(s.handles, sv)| + Times(e.sv == sv, e.refs)
    && Times(e.sv == sv, e.cleanups) + Bit(Doomed(e.pc) == Some(sv)) - Bit(Doomed(s.pcs[t]) == Some(sv))
       == Bit(e.sv == sv && e.refs != 0 && Refs(s, sv) + e.refs == 0)
    && (e.sv == sv && e.refs != 0 ==> Refs(s, sv) > 0)
  }

  lemma EffectMovesHolders(s: State, t: Tid, e: Effect, sv: SvId)
    requires t in s.pcs && t in s.slots
    ensures Holders(Apply(s, t, e), sv) - Share(e.pc, e.slot, sv) - |With(e.handles, sv)|
            == Holders(s, sv) - Share(s.pcs[t], s.slots[t], sv) - |With(s.handles, sv)|
  {
    var s' := Apply(s, t, e);
    SetChanges(ThreadsWith(s.pcs, sv), ThreadsWith(s'.pcs, sv), t);
    SetChanges(PinsWith(s.pcs, sv), PinsWith(s'.pcs, sv), t);
    SetChanges(SlotsWith(s.slots, sv), SlotsWith(s'.slots, sv), t);
  }

  lemma EffectKeepsLives(s: State, t: Tid, e: Effect, sv: SvId)
    requires t in s.pcs && t in s.slots && Balanced(s, t, e, sv)
    requires Cleanups(s, sv) + |DoomedBy(s.pcs, sv)| == Bit(Dead(s, sv))
    ensures var s' := Apply(s, t, e); Cleanups(s', sv) + |DoomedBy(s'.pcs, sv)| == Bit(Dead(s', sv))
  {
    SetChanges(DoomedBy(s.pcs, sv), DoomedBy(Apply(s, t, e).pcs, sv), t);
  }

  lemma EffectKeepsBooks(s: State, t: Tid, e: Effect)
    requires t in s.pcs && t in s.slots && Counted(s) && LivesOk(s)
    requires forall sv: SvId :: Balanced(s, t, e, sv)
    ensures Counted(Apply(s, t, e)) && LivesOk(Apply(s, t, e))
  {
    var s' := Apply(s, t, e);
    forall sv: SvId
      ensures Refs(s', sv) == Holders(s', sv)
      ensures Cleanups(s', sv) + |DoomedBy(s'.pcs, sv)| == Bit(Dead(s', sv))
    {
      assert Balanced(s, t, e, sv) && Refs(s, sv) == Holders(s, sv);
      EffectMovesHolders(s, t, e, sv);
      EffectKeepsLives(s, t, e, sv);
    }
  }

  lemma AcquireIsBalanced(s: State, t: Tid, a: AcquireStep, sv: SvId)
    requires CanAcquire(s, t, a) && BooksOf(s, t, sv)
    requires a.Swap? ==> !s.slots[t].InUse?
    ensures Balanced(s, t, AcquireEffect(s, t, a), sv)
  {
  }

  lemma HandleIsBalanced(s: State, t: Tid, r: ReleaseStep, sv: SvId)
    requires CanRelease(s, t, r) && ThreadOk(s, t) && BooksOf(s, t, sv)
    requires r.ReturnPinned? || r.UnrefPinned? || r.DropHandle?
    ensures Balanced(s, t, ReleaseEffect(s, t, r), sv)
  {
    SetChanges(With(s.handles, sv), With(ReleaseEffect(s, t, r).handles, sv), r.h);
  }

  lemma ReleaseIsBalanced(s: State, t: Tid, r: ReleaseStep, sv: SvId)
    requires CanRelease(s, t, r) && ThreadOk(s, t) && BooksOf(s, t, sv)
    ensures Balanced(s, t, ReleaseEffect(s, t, r), sv)
  {
    if r.ReturnPinned? || r.UnrefPinned? || r.DropHandle? {
      HandleIsBalanced(s, t, r, sv);
    }
  }

  lemma InstallCounted(s: State, t: Tid, i: InstallStep, sv: SvId)
    requires CanInstall(s, t, i) && InstallOk(s) && Counted(s) && !i.ScrapeSlot? && !i.DropScraped?
    ensures var s' := DoInstall(s, t, i); Refs(s', sv) == Holders(s', sv)
  {
    var s' := DoInstall(s, t, i);
    SetChanges(ThreadsWith(s.pcs, sv), ThreadsWith(s'.pcs, sv), t);
    SetChanges(PinsWith(s.pcs, sv), PinsWith(s'.pcs, sv), t);
    assert Refs(s, sv) == Holders(s, sv);
  }

  lemma ScrapeCounted(s: State, t: Tid, i: InstallStep, sv: SvId)
    requires CanInstall(s, t, i) && Counted(s) && (i.ScrapeSlot? || i.DropScraped?)
    requires i.ScrapeSlot? ==> i.u !in s.scraped
    ensures var s' := DoInstall(s, t, i); Refs(s', sv) == Holders(s', sv)
  {
    var s' := DoInstall(s, t, i);
    SetChanges(SlotsWith(s.slots, sv), SlotsWith(s'.slots, sv), i.u);
    SetChanges(With(s.scraped, sv), With(s'.scraped, sv), i.u);
    assert Refs(s, sv) == Holders(s, sv);
  }

  lemma InstallLives(s: State, t: Tid, i: InstallStep, sv: SvId)
    requires CanInstall(s, t, i) && LivesOk(s)
    requires i.DropPrevious? && PhaseHolds(s.phase) == Some(sv) ==> Refs(s, sv) > 0
    requires i.DropScraped? && s.scraped[i.u] == sv ==> Refs(s, sv) > 0
    ensures var s' := DoInstall(s, t, i); Cleanups(s', sv) + |DoomedBy(s'.pcs, sv)| == Bit(Dead(s', sv))
  {
    var s' := DoInstall(s, t, i);
    SetChanges(DoomedBy(s.pcs, sv), DoomedBy(s'.pcs, sv), t);
    assert Cleanups(s, sv) + |DoomedBy(s.pcs, sv)| == Bit(Dead(s, sv));
  }

  // ---------------------------------------------------------------- every step keeps the invariant

  lemma AcquireKeeps(s: State, t: Tid, a: AcquireStep)
    requires Inv(s) && CanAcquire(s, t, a)
    ensures Inv(DoAcquire(s, t, a))
  {
    var e := AcquireEffect(s, t, a);
    assert ThreadOk(s, t);
    AcquireIsGood(s, t, a);
    EffectKeepsThreads(s, t, e);
    forall sv: SvId
      ensures Balanced(s, t, e, sv)
    {
      Books(s, t, sv);
      AcquireIsBalanced(s, t, a, sv);
    }
    EffectKeepsBooks(s, t, e);
  }

  lemma ReleaseKeeps(s: State, t: Tid, r: ReleaseStep)
    requires Inv(s) && CanRelease(s, t, r)
    ensures Inv(DoRelease(s, t, r))
  {
    var e := ReleaseEffect(s, t, r);
    assert ThreadOk(s, t);
    ReleaseIsGood(s, t, r);
    EffectKeepsThreads(s, t, e);
    forall sv: SvId
      ensures Balanced(s, t, e, sv)
    {
      Books(s, t, sv);
      ReleaseIsBalanced(s, t, r, sv);
    }
    EffectKeepsBooks(s, t, e);
  }

  lemma InstallThreads(s: State, t: Tid, i: InstallStep)
    requires Inv(s) && CanInstall(s, t, i)
    ensures ThreadsOk(DoInstall(s, t, i))
  {
    var s' := DoInstall(s, t, i);
    forall u | u in s'.pcs
      ensures u in s'.slots && ThreadOk(s', u)
    {
      if i.Replace? && PcHolds(s.pcs[u]).Some? {
        Books(s, u, PcHolds(s.pcs[u]).value);
      }
      InstallThread(s, t, i, u);
    }
  }

  lemma InstallBooks(s: State, t: Tid, i: InstallStep, sv: SvId)
    requires Inv(s) && CanInstall(s, t, i)
    ensures var s' := DoInstall(s, t, i);
      Refs(s', sv) == Holders(s', sv) && Cleanups(s', sv) + |DoomedBy(s'.pcs, sv)| == Bit(Dead(s', sv))
  {
    Books(s, t, sv);
    if i.ScrapeSlot? || i.DropScraped? {
      ScrapeCounted(s, t, i, sv);
    } else {
      InstallCounted(s, t, i, sv);
    }
    if i.DropScraped? && s.scraped[i.u] == sv {
      assert PhaseHolds(s.phase) == Some(sv);
    }
    InstallLives(s, t, i, sv);
  }

  lemma InstallKeeps(s: State, t: Tid, i: InstallStep)
    requires Inv(s) && CanInstall(s, t, i)
    ensures Inv(DoInstall(s, t, i))
  {
    var s' := DoInstall(s, t, i);
    InstallThreads(s, t, i);
    InstallInstall(s, t, i);
    InstallNumbers(s, t, i);
    forall sv: SvId
      ensures Refs(s', sv) == Holders(s', sv)
      ensures Cleanups(s', sv) + |DoomedBy(s'.pcs, sv)| == Bit(Dead(s', sv))
    {
      InstallBooks(s, t, i, sv);
    }
  }

  lemma StepKeeps(s: State, step: Step)
    requires Inv(s) && Enabled(s, step)
    ensures Inv(Do(s, step))
  {
    match step
    case Acquire(t, a) => AcquireKeeps(s, t, a);
    case Release(t, r) => ReleaseKeeps(s, t, r);
    case Install(t, i) => InstallKeeps(s, t, i);
  }

  lemma InitHolds(s: State)
    requires Init(s)
    ensures Inv(s)
  {
    forall sv: SvId
      ensures Refs(s, sv) == Holders(s, sv)
      ensures Cleanups(s, sv) + |DoomedBy(s.pcs, sv)| == Bit(Dead(s, sv))
    {
      assert SlotsWith(s.slots, sv) == {} && ThreadsWith(s.pcs, sv) == {} && PinsWith(s.pcs, sv) == {};
      assert With(s.scraped, sv) == {} && With(s.handles, sv) == {} && DoomedBy(s.pcs, sv) == {};
    }
  }
}
