/** The bidirectional iterator over user keys that hides sequence numbers, deletions and operands. */
module DBIterImpl {
  import opened Format
  import opened DBIterSpec

  datatype Direction = Forward | Reverse

  /** Collects the merge operands of key k from its record at start on; stops at the first record that
      is none, or at the end of the key. */
  method CollectOperands(es: seq<Entry>, k: UserKey, start: nat) returns (stop: nat, operands: seq<Value>)
    requires Sorted(es) && start < |es| && es[start].key == k && es[start].kind.Merge?
    ensures start < stop <= After(es, k) && Gathered(es, start, stop, operands)
    ensures stop < |es| && es[stop].key == k ==> !es[stop].kind.Merge?
    ensures stop < |es| && es[stop].key != k ==> stop == After(es, k)
    ensures stop == |es| ==> stop == After(es, k)
  {
    stop, operands := start, [];
    GatherNone(es, start);
    while stop < |es| && es[stop].key == k && es[stop].kind.Merge?
      invariant start <= stop <= After(es, k) && Gathered(es, start, stop, operands)
    {
      GatherNext(es, start, stop, operands);
      operands := [es[stop].value] + operands;
      stop := stop + 1;
    }
    assert stop < |es| ==> Precedes(es[start], es[stop]);
  }

  /** How the forward scan leaves a record of key k or one too new, and the new count of records skipped. */
  function PassStep(es: seq<Entry>, k: UserKey, pos: nat, skipping: bool, numSkipped: nat, maxSkip: nat): (nat, nat)
    requires Sorted(es)
  {
    if skipping && numSkipped > maxSkip then (SeekPos(es, k, 0, Deletion), 0) else (pos + 1, numSkipped)
  }

  class DBIter {
    const view: View
    const maxSkip: nat
    const es := view.es                // the internal iterator runs over these records
    const sequence := view.sequence    // reads see records up to here
    const upperBound := view.upperBound
    const op := view.op

    var pos: nat                       // internal iterator; |es| when it is not valid
    var direction: Direction
    var valid: bool
    var currentEntryIsMerged: bool
    var savedKey: UserKey
    var savedValue: Value
    var mergeOperands: seq<Value>

    ghost predicate Config() {
      Usable(view, maxSkip)
    }

    constructor (view: View, maxSkip: nat)
      ensures this.view == view && this.maxSkip == maxSkip
      ensures !valid && pos <= |es|
    {
      this.view, this.maxSkip := view, maxSkip;
      pos, direction, valid, currentEntryIsMerged := |view.es|, Forward, false, false;
      savedKey, savedValue, mergeOperands := 0, "", [];
    }

    ghost function PrevPos(i: nat): nat {
      if i == 0 then |es| else i - 1
    }

    /** Where the internal iterator stands while the iterator shows savedKey. */
    ghost predicate Placed()
      requires Sorted(es)
      reads this
    {
      var v, h := NewestPos(es, savedKey, sequence), After(es, savedKey);
      && v < h
      && (ShowsRecord() ==> pos == v && es[v].kind.Put?)
      && (direction == Forward && currentEntryIsMerged ==> v < pos <= h)
      && (direction == Reverse ==> pos == PrevPos(First(es, savedKey)))
    }

    /** The internal iterator stands on the record whose value is shown. */
    predicate ShowsRecord()
      reads this`direction, this`currentEntryIsMerged
    {
      direction == Forward && !currentEntryIsMerged
    }

    ghost predicate Inv()
      reads this
    {
      && Config() && pos <= |es|
      && (valid ==>
            && Placed() && view.InBound(savedKey) && view.Live(savedKey)
            && (ShowsRecord() || savedValue == view.ReadAt(savedKey).value))
    }

    function Key(): UserKey
      requires valid
      reads this
    {
      savedKey
    }

    method CurrentValue() returns (v: Value)
      requires Inv() && valid
      ensures Some(v) == view.ReadAt(savedKey) && view.InBound(savedKey)
    {
      ReadAtNewest(op, es, savedKey, sequence);
      v := if ShowsRecord() then es[pos].value else savedValue;
    }

    // -------------------------------------------------------------- forward

    /** Merges the versions of one key, newest to oldest, starting at the first operand. */
    method MergeValuesNewToOld()
      requires Sorted(es) && pos < After(es, savedKey) && es[pos].kind.Merge?
      requires pos == NewestPos(es, savedKey, sequence)
      modifies this`pos, this`savedValue
      ensures NewestPos(es, savedKey, sequence) < pos <= After(es, savedKey)
      ensures view.ReadAt(savedKey) == Some(savedValue)
    {
      var stop, operands := CollectOperands(es, savedKey, pos);
      MergedRead(op, es, savedKey, sequence, stop, operands);
      pos := stop;
      if pos < |es| && es[pos].key == savedKey {
        savedValue := op(savedKey, if es[pos].kind.Put? then Some(es[pos].value) else None, operands);
        pos := pos + 1;
      } else {
        savedValue := op(savedKey, None, operands);
      }
    }

    /** Shows the record or the merged operands under the internal iterator. */
    method Yield(ghost lo: UserKey, ghost bar: UserKey)
      requires Config() && direction == Forward && !currentEntryIsMerged && pos < |es| && es[pos].seqno <= sequence
      requires es[pos].key > bar && Scanned(op, es, sequence, pos, lo, bar)
      requires view.InBound(es[pos].key) && (es[pos].kind.Put? || es[pos].kind.Merge?)
      modifies this
      ensures Inv() && valid && view.IsLeast(savedKey, lo) && direction == Forward
    {
      ScannedIsDead(op, es, sequence, pos, lo, bar);
      HereIsNewest(es, sequence, pos, bar);
      ReadAtNewest(op, es, es[pos].key, sequence);
      savedKey := es[pos].key;
      valid := true;
      if es[pos].kind.Merge? {
        currentEntryIsMerged := true;
        MergeValuesNewToOld();
      }
    }

    /** Leaves a record that is not to be shown: by one step, or by a seek past the key being skipped. */
    method PassRecord(skipping: bool, numSkipped: nat, ghost lo: UserKey, ghost bar: UserKey) returns (n: nat)
      requires Config() && pos < |es| && Scanned(op, es, sequence, pos, lo, bar)
      requires es[pos].seqno > sequence || (skipping && es[pos].key <= bar)
      requires if skipping then savedKey == bar else lo <= es[pos].key
      requires numSkipped > maxSkip ==> skipping && es[pos].key <= bar
      modifies this`pos
      ensures (pos, n) == PassStep(es, savedKey, old(pos), skipping, numSkipped, maxSkip)
      ensures Scanned(op, es, sequence, pos, lo, bar) && n <= maxSkip
      ensures old(pos) < pos || (pos == old(pos) && n == 0 < maxSkip < numSkipped)
      ensures pos < |es| && !skipping ==> lo <= es[pos].key
    {
      n := numSkipped;
      if skipping && numSkipped > maxSkip {
        n := 0;
        SeekPastKey(es, savedKey, pos);
        pos := SeekPos(es, savedKey, 0, Deletion);
      } else {
        if pos + 1 < |es| {
          assert Precedes(es[pos], es[pos + 1]);
        }
        pos := pos + 1;
      }
    }

    /** Finds the next key to show, from lo on. With skip, savedKey is the key just left behind. */
    method FindNextUserEntry(skip: bool, ghost lo: UserKey)
      requires Config() && pos < |es| && direction == Forward
      requires Scanned(op, es, sequence, pos, lo, lo - 1)
      requires if skip then savedKey == lo - 1 else lo <= es[pos].key
      modifies this
      ensures Inv() && direction == Forward
      ensures if valid then view.IsLeast(savedKey, lo) else view.NoneFrom(lo)
    {
      currentEntryIsMerged := false;
      var skipping := skip;
      var numSkipped: nat := 0;
      ghost var bar := lo - 1;
      while pos < |es|
        invariant Scanned(op, es, sequence, pos, lo, bar)
        invariant if skipping then savedKey == bar else bar == lo - 1 && (pos < |es| ==> lo <= es[pos].key)
        invariant numSkipped <= maxSkip
        invariant direction == Forward && !currentEntryIsMerged
        decreases |es| - pos, numSkipped
      {
        var e := es[pos];
        if upperBound.Some? && e.key >= upperBound.value {
          break;
        }
        if e.seqno <= sequence {
          if skipping && e.key <= savedKey {
            numSkipped := numSkipped + 1;
          } else if e.kind.Tombstone() {
            RaiseBar(op, es, sequence, pos, lo, bar);
            savedKey, skipping, numSkipped := e.key, true, 0;
            bar := e.key;
          } else {
            Yield(lo, bar);
            return;
          }
        }
        numSkipped := PassRecord(skipping, numSkipped, lo, bar);
      }
      ScannedIsDead(op, es, sequence, pos, lo, bar);
      valid := false;
    }

    // -------------------------------------------------------------- backward

    /** What the oldest-to-newest walk holds after the records from i up to h. */
    ghost predicate Folded(i: nat, h: nat, stale: Value, lastNotMerge: Kind, lastKind: Kind)
      requires i <= h <= |es|
      reads this`mergeOperands, this`savedValue
    {
      && mergeOperands == Operands(es[i..h])
      && savedValue == WalkBuffer(es[i..h], stale)
      && lastNotMerge == LastNotMerge(es[i..h])
      && lastKind == (if i < h then es[i].kind else Deletion)
    }

    /** One record of the walk. */
    method FoldRecord(e: Entry, lastNotMerge: Kind, ghost i: nat, ghost h: nat, ghost stale: Value,
            ghost lastKind: Kind)
      returns (lastNotMerge': Kind)
      requires i + 1 <= h <= |es| && e == es[i] && Folded(i + 1, h, stale, lastNotMerge, lastKind)
      modifies this`mergeOperands, this`savedValue
      ensures Folded(i, h, stale, lastNotMerge', e.kind)
    {
      StepBack(es, i, h);
      WalkBack(es, i, h, stale);
      lastNotMerge' := lastNotMerge;
      match e.kind {
        case Put =>
          mergeOperands := [];
          savedValue := e.value;
          lastNotMerge' := Put;
        case Deletion =>
          mergeOperands := [];
          lastNotMerge' := Deletion;
        case SingleDeletion =>
          mergeOperands := [];
          lastNotMerge' := SingleDeletion;
        case Merge =>
          mergeOperands := mergeOperands + [e.value];
      }
    }

    /** What the lookup of savedKey finds: by the walk, or by a seek when it has too many versions. */
    ghost function LookedUp(stale: Value): Option<Value>
      requires Sorted(es)
      reads this`savedKey
    {
      var v, h := NewestPos(es, savedKey, sequence), After(es, savedKey);
      if h - v > maxSkip then view.ReadAt(savedKey) else Walked(op, savedKey, es[v..h], stale)
    }

    /** Looks up the value of savedKey, walking back from its oldest version; false if it has none. */
    method FindValueForCurrentKey() returns (found: bool)
      requires Sorted(es) && pos < |es| && pos + 1 == After(es, savedKey) && es[pos].key == savedKey
      modifies this`pos, this`valid, this`savedValue, this`mergeOperands
      ensures pos <= |es|
      ensures LookedUp(old(savedValue)) == if found then Some(savedValue) else None
      ensures
        var v, h := NewestPos(es, savedKey, sequence), After(es, savedKey);
        pos == PrevPos(v) || v <= pos < h
    {
      ghost var v, h, stale := NewestPos(es, savedKey, sequence), After(es, savedKey), savedValue;
      mergeOperands := [];
      var lastNotMerge, lastKind := Deletion, Deletion;
      var numSkipped := 0;
      ghost var i := h;
      while pos < |es| && es[pos].seqno <= sequence && es[pos].key == savedKey
        invariant v <= i <= h && pos == PrevPos(i) && numSkipped == h - i <= maxSkip
        invariant Folded(i, h, stale, lastNotMerge, lastKind)
        decreases i
      {
        if numSkipped >= maxSkip {
          found := FindValueForCurrentKeyUsingSeek();
          return;
        }
        i := i - 1;
        lastNotMerge := FoldRecord(es[pos], lastNotMerge, i, h, stale, lastKind);
        lastKind := es[pos].kind;
        pos := if pos == 0 then |es| else pos - 1;
        numSkipped := numSkipped + 1;
      }
      assert i == v;
      found := FinishFold(lastNotMerge, lastKind, stale);
    }

    /** Turns the walk over all visible versions into a value. */
    method FinishFold(lastNotMerge: Kind, lastKind: Kind, ghost stale: Value) returns (found: bool)
      requires Sorted(es)
      requires Folded(NewestPos(es, savedKey, sequence), After(es, savedKey), stale, lastNotMerge, lastKind)
      modifies this`valid, this`savedValue
      ensures Walked(op, savedKey, es[NewestPos(es, savedKey, sequence)..After(es, savedKey)], stale)
        == if found then Some(savedValue) else None
    {
      if lastKind.Tombstone() {
        valid := false;
        return false;
      }
      if lastKind.Merge? {
        if lastNotMerge.Deletion? {
          savedValue := op(savedKey, None, mergeOperands);
        } else {
          savedValue := op(savedKey, Some(savedValue), mergeOperands);
        }
      }
      valid := true;
      return true;
    }

    /** The lookup is a read for every key the iterator may be used on. */
    lemma LookupIsRead(stale: Value)
      requires Config()
      ensures LookedUp(stale) == view.ReadAt(savedKey)
    {
      ReadBySlice(op, es, savedKey, sequence);
      WalkIsRight(savedKey, Versions(es, savedKey, sequence), stale);
    }

    /** The same lookup by a seek to the newest visible version. */
    method FindValueForCurrentKeyUsingSeek() returns (found: bool)
      requires Sorted(es) && NewestPos(es, savedKey, sequence) < After(es, savedKey)
      modifies this`pos, this`valid, this`savedValue
      ensures NewestPos(es, savedKey, sequence) <= pos < After(es, savedKey)
      ensures found <==> view.Live(savedKey)
      ensures found ==> view.ReadAt(savedKey) == Some(savedValue)
    {
      ghost var v, h := NewestPos(es, savedKey, sequence), After(es, savedKey);
      ReadAtNewest(op, es, savedKey, sequence);
      pos := SeekPos(es, savedKey, sequence, KIND_FOR_SEEK);
      if !es[pos].kind.Merge? {
        valid := es[pos].kind.Put?;
        if valid {
          savedValue := es[pos].value;
        }
        return valid;
      }
      MergeFromNewest();
      valid := true;
      return true;
    }

    /** Collects the operands from the newest version on, and comes back to savedKey. */
    method MergeFromNewest()
      requires Sorted(es) && pos == NewestPos(es, savedKey, sequence) < After(es, savedKey) && es[pos].kind.Merge?
      modifies this`pos, this`savedValue
      ensures NewestPos(es, savedKey, sequence) <= pos < After(es, savedKey)
      ensures view.ReadAt(savedKey) == Some(savedValue)
    {
      var stop, operands := CollectOperands(es, savedKey, pos);
      MergedRead(op, es, savedKey, sequence, stop, operands);
      pos := stop;
      if pos == |es| || es[pos].key != savedKey || es[pos].kind.Tombstone() {
        savedValue := op(savedKey, None, operands);
        if pos == |es| || es[pos].key != savedKey {
          pos := SeekPos(es, savedKey, sequence, KIND_FOR_SEEK);
        }
      } else {
        savedValue := op(savedKey, Some(es[pos].value), operands);
      }
    }

    /** Every record from savedKey's last version up to i is too new to be seen. */
    ghost predicate UnseenUpTo(i: nat)
      requires Sorted(es)
      reads this`savedKey
    {
      First(es, savedKey) <= i < |es| && forall x :: After(es, savedKey) <= x <= i ==> es[x].seqno > sequence
    }

    /** Moves before all versions of savedKey. */
    method FindPrevUserKey()
      requires Config() && UnseenUpTo(pos)
      modifies this`pos
      ensures pos == PrevPos(First(es, savedKey))
    {
      var numSkipped := 0;
      while pos < |es| && (es[pos].key == savedKey || (es[pos].key > savedKey && es[pos].seqno > sequence))
        invariant pos == PrevPos(First(es, savedKey)) || UnseenUpTo(pos)
        decreases if pos < |es| then pos + 1 else 0
      {
        if es[pos].key == savedKey {
          if numSkipped >= maxSkip {
            numSkipped := 0;
            SeekFindsFirst(es, savedKey);
            pos := SeekPos(es, savedKey, MAX_SEQ, KIND_FOR_SEEK);
          } else {
            numSkipped := numSkipped + 1;
          }
        }
        pos := if pos == 0 then |es| else pos - 1;
      }
    }

    /** Keys below hi are within the upper bound. */
    ghost predicate WithinBound(hi: Option<UserKey>) {
      upperBound.Some? ==> hi.Some? && hi.value <= upperBound.value
    }

    /** A backward scan for keys below hi stands on the oldest version of some key, and no key between
        that one and hi is visible. */
    ghost predicate ScannedDown(hi: Option<UserKey>, pos: nat)
      requires Sorted(es)
    {
      if pos >= |es| then view.NoneBelow(hi)
      else
        && pos + 1 == After(es, es[pos].key)
        && (hi.Some? ==> es[pos].key < hi.value)
        && forall j :: es[pos].key < j && (hi.Some? ==> j < hi.value) ==> !view.Live(j)
    }

    lemma LeaveKey(hi: Option<UserKey>, k: UserKey)
      requires Sorted(es) && (hi.Some? ==> k <= hi.value)
      requires forall j :: k <= j && (hi.Some? ==> j < hi.value) ==> !view.Live(j)
      ensures ScannedDown(hi, PrevPos(First(es, k)))
    {
      var i := First(es, k);
      forall j | j < k && (i > 0 ==> es[i - 1].key < j)
        ensures !view.Live(j)
      {
        GapBelowIsDead(op, es, sequence, k, j);
      }
      if i > 0 {
        assert i < |es| ==> es[i - 1].key < es[i].key;
        assert After(es, es[i - 1].key) == i;
      }
    }

    /** Looks up the key under the internal iterator, and leaves it behind. */
    method LookUpAndLeave() returns (found: bool)
      requires Config() && pos < |es| && pos + 1 == After(es, es[pos].key)
      modifies this`pos, this`valid, this`savedKey, this`savedValue, this`mergeOperands
      ensures savedKey == old(es[pos].key) && First(es, savedKey) <= old(pos)
      ensures pos == PrevPos(First(es, savedKey))
      ensures found <==> view.Live(savedKey)
      ensures found ==> view.ReadAt(savedKey) == Some(savedValue)
    {
      savedKey := es[pos].key;
      LookupIsRead(savedValue);
      found := FindValueForCurrentKey();
      if pos < |es| && es[pos].key == savedKey {
        FindPrevUserKey();
      }
    }

    lemma FoundBelow(hi: Option<UserKey>, start: nat)
      requires Sorted(es) && WithinBound(hi) && start < |es| && ScannedDown(hi, start) && view.Live(es[start].key)
      ensures view.IsGreatest(es[start].key, hi) && view.InBound(es[start].key)
      ensures NewestPos(es, es[start].key, sequence) < After(es, es[start].key)
    {
      ReadAtNewest(op, es, es[start].key, sequence);
    }

    /** Shows the key under the internal iterator if it is visible, and leaves it behind if not. */
    method TryKey(ghost hi: Option<UserKey>) returns (found: bool)
      requires Config() && pos < |es| && WithinBound(hi) && ScannedDown(hi, pos)
      modifies this`pos, this`valid, this`savedKey, this`savedValue, this`mergeOperands
      ensures pos == PrevPos(First(es, savedKey)) && First(es, savedKey) <= old(pos)
      ensures found ==>
        view.ReadAt(savedKey) == Some(savedValue) && view.IsGreatest(savedKey, hi) && view.InBound(savedKey)
      ensures found ==> NewestPos(es, savedKey, sequence) < After(es, savedKey)
      ensures !found ==> ScannedDown(hi, pos)
    {
      ghost var start := pos;
      found := LookUpAndLeave();
      if found {
        FoundBelow(hi, start);
      } else {
        LeaveKey(hi, savedKey);
      }
    }

    /** Finds the last key below hi to show. */
    method PrevInternal(ghost hi: Option<UserKey>)
      requires Config() && direction == Reverse && pos <= |es| && WithinBound(hi) && ScannedDown(hi, pos)
      modifies this
      ensures Inv() && direction == Reverse
      ensures if valid then view.IsGreatest(savedKey, hi) else view.NoneBelow(hi)
    {
      while pos < |es|
        invariant pos <= |es| && ScannedDown(hi, pos) && direction == Reverse
        decreases if pos < |es| then pos + 1 else 0
      {
        var found := TryKey(hi);
        if found {
          valid := true;
          return;
        }
      }
      valid := false;
    }

    /** Turns around: from the shown key to just before all its versions. */
    method ReverseToBackward()
      requires Inv() && valid && direction == Forward
      modifies this`pos, this`direction
      ensures pos == PrevPos(First(es, savedKey)) && direction == Reverse
    {
      if currentEntryIsMerged {
        if pos == |es| {
          pos := |es| - 1;
        }
        while pos < |es| && es[pos].key > savedKey
          invariant pos < |es| && First(es, savedKey) <= pos <= After(es, savedKey)
          decreases pos
        {
          pos := pos - 1;
        }
      }
      FindPrevUserKey();
      direction := Reverse;
    }

    /** Turns around: from before the shown key to its newest version. */
    method FindNextUserKey()
      requires Config() && pos == PrevPos(First(es, savedKey)) && First(es, savedKey) < After(es, savedKey)
      modifies this`pos
      ensures First(es, savedKey) > 0 ==> pos == First(es, savedKey)
      ensures First(es, savedKey) == 0 ==> pos == |es|
    {
      if pos == |es| {
        return;
      }
      while pos < |es| && es[pos].key != savedKey
        invariant pos <= First(es, savedKey)
      {
        pos := pos + 1;
      }
    }

    // -------------------------------------------------------------- the public operations

    /** Turns forward if need be, and leaves the record shown. */
    method LeaveForward()
      requires Inv() && valid
      modifies this`pos, this`direction
      ensures direction == Forward && Scanned(op, es, sequence, pos, savedKey + 1, savedKey)
    {
      if direction == Reverse {
        FindNextUserKey();
        direction := Forward;
        if pos == |es| {
          pos := 0;
        }
      } else if pos < |es| && !currentEntryIsMerged {
        pos := pos + 1;
      }
    }

    method Next()
      requires Inv() && valid
      modifies this
      ensures Inv()
      ensures if valid then view.IsLeast(savedKey, old(savedKey) + 1) else view.NoneFrom(old(savedKey) + 1)
    {
      LeaveForward();
      ghost var lo := savedKey + 1;
      if pos == |es| {
        ScannedIsDead(op, es, sequence, pos, lo, lo - 1);
        valid := false;
        return;
      }
      FindNextUserEntry(true, lo);
    }

    method Prev()
      requires Inv() && valid
      modifies this
      ensures Inv()
      ensures if valid then view.IsGreatest(savedKey, Some(old(savedKey))) else view.NoneBelow(Some(old(savedKey)))
    {
      if direction == Forward {
        ReverseToBackward();
      }
      LeaveKey(Some(savedKey), savedKey);
      PrevInternal(Some(savedKey));
    }

    method Seek(target: UserKey)
      requires Inv()
      modifies this
      ensures Inv()
      ensures if valid then view.IsLeast(savedKey, target) else view.NoneFrom(target)
    {
      savedKey := target;
      pos := SeekPos(es, target, sequence, KIND_FOR_SEEK);
      assert Scanned(op, es, sequence, pos, target, target - 1);
      if pos < |es| {
        direction := Forward;
        savedValue := "";
        FindNextUserEntry(false, target);
      } else {
        ScannedIsDead(op, es, sequence, pos, target, target - 1);
        valid := false;
      }
    }

    method SeekToFirst()
      requires Inv()
      modifies this
      ensures Inv()
      ensures if valid then view.IsFirst(savedKey) else view.IsEmpty()
    {
      direction := Forward;
      savedValue := "";
      pos := 0;
      if pos < |es| {
        ghost var lo := es[0].key;
        forall j | j < lo
          ensures !view.Live(j)
        {
          GapBelowIsDead(op, es, sequence, lo, j);
        }
        FindNextUserEntry(false, lo);
      } else {
        forall j
          ensures !view.Live(j)
        {
          GapAboveIsDead(op, es, sequence, j);
        }
        valid := false;
      }
    }

    /** Nothing above the last record is visible. */
    lemma NothingAboveLast(j: UserKey)
      requires Sorted(es) && (es != [] ==> es[|es| - 1].key < j)
      ensures !view.Live(j)
    {
      GapAboveIsDead(op, es, sequence, j);
    }

    /** Moves to the last record, or to the last one below the upper bound. */
    method PlaceLast()
      requires Config() && direction == Reverse
      modifies this`pos, this`savedKey
      ensures pos <= |es| && ScannedDown(upperBound, pos)
    {
      pos := if |es| == 0 then 0 else |es| - 1;
      if pos < |es| && upperBound.Some? {
        savedKey := upperBound.value;
        SeekFindsFirst(es, savedKey);
        pos := SeekPos(es, savedKey, MAX_SEQ, KIND_FOR_SEEK);
        LeaveKey(upperBound, savedKey);
        if pos == |es| {
          pos := |es| - 1;
        } else {
          pos := if pos == 0 then |es| else pos - 1;
        }
      } else {
        forall j | es != [] ==> es[|es| - 1].key < j
          ensures !view.Live(j)
        {
          NothingAboveLast(j);
        }
      }
    }

    method SeekToLast()
      requires Inv()
      modifies this
      ensures Inv()
      ensures if valid then view.IsGreatest(savedKey, upperBound) else view.NoneBelow(upperBound)
    {
      direction := Reverse;
      savedValue := "";
      PlaceLast();
      PrevInternal(upperBound);
    }
  }
}
