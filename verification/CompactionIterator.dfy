/** The compaction stream itself: an iterator that turns the sorted input into the output records. */
module CompactionIteratorImpl {
  import opened Format
  import opened CompactionFiles
  import opened CompactionRules
  import opened CompactionSafety
  import opened CompactionOrder

  /** c is the earliest snapshot in which q is visible, MAX_SEQ if there is none. */
  ghost predicate IsEarliestVisible(snapshots: seq<SeqNo>, q: SeqNo, c: SeqNo) {
    && (forall s :: s in snapshots && q <= s ==> c <= s)
    && ((c in snapshots && q <= c) || (c == MAX_SEQ && forall s :: s in snapshots ==> s < q))
  }

  /** p is the latest snapshot before q, 0 if there is none. */
  ghost predicate IsPrevious(snapshots: seq<SeqNo>, q: SeqNo, p: SeqNo) {
    && (forall s :: s in snapshots && s < q ==> s <= p)
    && (p == 0 || (p in snapshots && p < q))
  }

  method FindEarliestVisibleSnapshot(snapshots: seq<SeqNo>, q: SeqNo) returns (cur: SeqNo, prev: SeqNo)
    requires forall i, j :: 0 <= i < j < |snapshots| ==> snapshots[i] <= snapshots[j]
    ensures IsEarliestVisible(snapshots, q, cur)
    ensures IsPrevious(snapshots, q, prev)
  {
    prev := 0;
    for i := 0 to |snapshots|
      invariant forall j :: 0 <= j < i ==> snapshots[j] < q && snapshots[j] <= prev
      invariant prev == 0 || (prev in snapshots && prev < q)
    {
      cur := snapshots[i];
      if cur >= q {
        return;
      }
      prev := cur;
    }
    cur := MAX_SEQ;
  }

  /** The code that stands for the view of q: the tip when there are no snapshots. */
  ghost predicate ViewCode(env: Env, q: SeqNo, c: SeqNo) {
    if env.snapshots == [] then c == env.lastSequence else IsEarliestVisible(env.snapshots, q, c)
  }

  lemma ViewCodesTellViews(env: Env, p: SeqNo, c: SeqNo, q: SeqNo, d: SeqNo)
    requires p <= MAX_SEQ && q <= MAX_SEQ
    requires ViewCode(env, p, c) && ViewCode(env, q, d)
    ensures c == d <==> SameView(env, p, q)
  {
    if c != d && env.snapshots != [] {
      var s := if c < d then c else d;
      assert s in env.snapshots;
    }
  }

  lemma PreviousTellsView(env: Env, q: SeqNo, prev: SeqNo, older: SeqNo)
    requires ValidEnv(env) && older < q
    requires if env.snapshots == [] then prev == 0 else IsPrevious(env.snapshots, q, prev)
    ensures prev == 0 || older > prev <==> SameView(env, q, older)
  {
  }

  ghost predicate HiddenByNewer(env: Env, input: seq<Entry>, i: nat)
    requires i < |input|
  {
    NewerSame(input, i) && SameView(env, input[i - 1].seqno, input[i].seqno)
  }

  /** A key that starts afresh carries the code 0, which no view has. */
  ghost predicate CodeOfNewer(env: Env, input: seq<Entry>, i: nat, c: SeqNo)
    requires i < |input|
  {
    if NewerSame(input, i) then ViewCode(env, input[i - 1].seqno, c) else c == 0
  }

  lemma SameCodeMeansHidden(env: Env, input: seq<Entry>, i: nat, last: SeqNo, cur: SeqNo)
    requires ValidInput(input) && i < |input| && CodeOfNewer(env, input, i, last)
    requires cur != 0 && ViewCode(env, input[i].seqno, cur)
    ensures last == cur <==> HiddenByNewer(env, input, i)
  {
    if NewerSame(input, i) {
      ViewCodesTellViews(env, input[i - 1].seqno, last, input[i].seqno, cur);
    }
  }

  // ---------------------------------------------------------------- one record, given the fates of all

  ghost predicate Follows(env: Env, input: seq<Entry>, fs: seq<Fate>, i: nat) {
    i < |input| == |fs| && fs[i] == Decide(env, input, fs[..i])
  }

  ghost predicate AreFates(env: Env, input: seq<Entry>, fs: seq<Fate>) {
    |fs| == |input| && forall i {:trigger Follows(env, input, fs, i)} :: 0 <= i < |input| ==> Follows(env, input, fs, i)
  }

  lemma FatesAreFates(env: Env, input: seq<Entry>)
    ensures AreFates(env, input, Fates(env, input, |input|))
  {
    forall i | 0 <= i < |input|
      ensures Follows(env, input, Fates(env, input, |input|), i)
    {
      FatesAgree(env, input, i, |input|);
      FateAt(env, input, i, |input|);
    }
  }

  /** The rules leave no choice. */
  lemma {:induction false} FatesAreUnique(env: Env, input: seq<Entry>, fs: seq<Fate>, n: nat)
    requires AreFates(env, input, fs) && n <= |input|
    ensures fs[..n] == Fates(env, input, n)
  {
    if n > 0 {
      FatesAreUnique(env, input, fs, n - 1);
      assert Follows(env, input, fs, n - 1);
      assert fs[..n] == fs[..n - 1] + [fs[n - 1]];
    }
  }

  lemma NewKeyNotOutputted(input: seq<Entry>, past: seq<Fate>)
    requires ValidInput(input) && |past| < |input| && !NewerSame(input, |past|)
    ensures !Outputted(input, past, input[|past|].key)
  {
    FirstOfKey(input, |past|);
  }

  /** A record that is not written leaves the output flag of its key alone. */
  lemma SilentRecord(input: seq<Entry>, past: seq<Fate>, f: Fate, k: UserKey)
    requires |past| < |input| && !f.Emits()
    ensures Outputted(input, past + [f], k) <==> Outputted(input, past, k)
  {
    var now := past + [f];
    if Outputted(input, now, k) {
      var j0, j :| 0 <= j0 < j < |now| && now[j0].Emits() && now[j].Emits() && input[j].key == k;
      assert past[j0].Emits() && past[j].Emits();
    }
    if Outputted(input, past, k) {
      var j0, j :| 0 <= j0 < j < |past| && past[j0].Emits() && past[j].Emits() && input[j].key == k;
      assert now[j0].Emits() && now[j].Emits();
    }
  }

  lemma SilentStep(input: seq<Entry>, fs: seq<Fate>, i: nat, k: UserKey)
    requires i < |input| == |fs|
    ensures !fs[i].Emits() ==> (Outputted(input, fs[..i + 1], k) <==> Outputted(input, fs[..i], k))
  {
    if !fs[i].Emits() {
      SilentRecord(input, fs[..i], fs[i], k);
      assert fs[..i + 1] == fs[..i] + [fs[i]];
    }
  }

  /** A record written after some other record raises the output flag of its key. */
  lemma WrittenRecord(input: seq<Entry>, past: seq<Fate>, f: Fate)
    requires |past| < |input| && f.Emits() && exists j :: 0 <= j < |past| && past[j].Emits()
    ensures Outputted(input, past + [f], input[|past|].key)
  {
    var j0 :| 0 <= j0 < |past| && past[j0].Emits();
    var now := past + [f];
    assert now[j0].Emits() && now[|past|].Emits();
  }

  ghost predicate NotClaimed(fs: seq<Fate>, i: nat)
    requires i <= |fs|
  {
    i > 0 ==> !fs[i - 1].PairHead? && !fs[i - 1].Retained?
  }

  /** Unless the record belongs to the single deletion before it, its own kind decides. */
  lemma PlainFate(env: Env, input: seq<Entry>, fs: seq<Fate>, i: nat)
    requires AreFates(env, input, fs) && i < |input| == |fs| && NotClaimed(fs, i)
    requires !input[i].kind.SingleDeletion?
    ensures fs[i] ==
      if HiddenByNewer(env, input, i) then Hidden
      else if input[i].kind.Deletion? && ObsoleteTombstone(env, input[i]) then Obsolete
      else Kept
  {
    assert Follows(env, input, fs, i);
  }

  lemma LastSingleDeletionFate(env: Env, input: seq<Entry>, fs: seq<Fate>, i: nat)
    requires AreFates(env, input, fs) && i < |input| == |fs| && NotClaimed(fs, i)
    requires input[i].kind.SingleDeletion? && !OlderSame(input, i)
    ensures fs[i] == if ObsoleteTombstone(env, input[i]) then Obsolete else Kept
  {
    assert Follows(env, input, fs, i);
  }

  /** A single deletion above another version of its key. */
  lemma SingleDeletionAbove(env: Env, input: seq<Entry>, fs: seq<Fate>, i: nat)
    requires AreFates(env, input, fs) && i < |input| == |fs| && NotClaimed(fs, i)
    requires input[i].kind.SingleDeletion? && OlderSame(input, i)
    ensures fs[i] ==
      if !SameView(env, input[i].seqno, input[i + 1].seqno) then Kept
      else if input[i + 1].kind.SingleDeletion? then Skipped
      else if input[i].seqno <= env.writeConflictSnapshot || Outputted(input, fs[..i], input[i].key) then PairHead
      else Retained
  {
    assert Follows(env, input, fs, i);
  }

  lemma TailOfPair(env: Env, input: seq<Entry>, fs: seq<Fate>, i: nat)
    requires AreFates(env, input, fs) && i + 1 < |input| == |fs|
    ensures fs[i].PairHead? ==> fs[i + 1].PairTail?
    ensures fs[i].Retained? ==> fs[i + 1].Cleared?
  {
    assert Follows(env, input, fs, i + 1);
  }

  /** A dropped pair leaves the per-key state as its head set it. */
  lemma PairIsSilent(env: Env, input: seq<Entry>, fs: seq<Fate>, i: nat, k: UserKey, c: SeqNo)
    requires AreFates(env, input, fs) && i + 1 < |input| == |fs| && fs[i].PairHead?
    requires SameView(env, input[i].seqno, input[i + 1].seqno) && ViewCode(env, input[i].seqno, c)
    ensures fs[i + 1].PairTail?
    ensures ViewCode(env, input[i + 1].seqno, c)
    ensures Outputted(input, fs[..i + 2], k) <==> Outputted(input, fs[..i], k)
  {
    TailOfPair(env, input, fs, i);
    SilentStep(input, fs, i, k);
    SilentStep(input, fs, i + 1, k);
  }

  class CompactionIterator {
    const input: seq<Entry>
    const env: Env
    const visibleAtTip: SeqNo
    const earliestSnapshot: SeqNo
    const bottommostLevel: bool
    ghost const fates: seq<Fate>

    var pos: nat                 // cursor of the input iterator
    var valid: bool
    var atNext: bool             // the cursor is already past the record returned
    var ikey: Entry              // the current output
    var hasCurrentUserKey: bool
    var currentUserKey: UserKey
    var currentUserKeySequence: SeqNo
    var currentUserKeySnapshot: SeqNo
    var hasOutputtedKey: bool
    var clearAndOutputNextKey: bool
    var levelPtrs: seq<nat>

    ghost predicate Configured()
    {
      && ValidEnv(env) && ValidInput(input)
      && AreFates(env, input, fates)
      && visibleAtTip == (if env.snapshots == [] then env.lastSequence else 0)
      && earliestSnapshot == EarliestSnapshot(env)
      && (bottommostLevel <==> env.compaction.Some? && env.compaction.value.bottommost)
    }

    /** The per-key fields describe record n - 1, unless the key is known to end there; the output
        flag speaks of the first m records. */
    ghost predicate KeyState(n: nat, m: nat)
      requires m <= n <= |input| == |fates|
      reads this`hasCurrentUserKey, this`currentUserKey, this`currentUserKeySequence, this`currentUserKeySnapshot,
            this`hasOutputtedKey
    {
      && (hasCurrentUserKey ==>
            && n > 0
            && currentUserKey == input[n - 1].key
            && currentUserKeySequence >= input[n - 1].seqno
            && ViewCode(env, input[n - 1].seqno, currentUserKeySnapshot)
            && (hasOutputtedKey <==> Outputted(input, fates[..m], currentUserKey)))
      && (!hasCurrentUserKey && n < |input| ==> !NewerSame(input, n))
    }

    /** What the next record inherits besides its key: a pending clear, and cursors behind it. */
    ghost predicate Carried(n: nat)
      requires n <= |input| == |fates|
      reads this`clearAndOutputNextKey, this`levelPtrs
    {
      && (clearAndOutputNextKey <==> n > 0 && fates[n - 1].Retained?)
      && (n > 0 ==> !fates[n - 1].PairHead?)
      && (env.compaction.Some? && n < |input| ==> CursorsBehind(env.compaction.value, levelPtrs, input[n].key))
    }

    /** n input records are consumed. */
    ghost predicate Inv(n: nat, m: nat)
      reads this`hasCurrentUserKey, this`currentUserKey, this`currentUserKeySequence, this`currentUserKeySnapshot,
            this`hasOutputtedKey, this`clearAndOutputNextKey, this`levelPtrs
    {
      Configured() && m <= n <= |input| && KeyState(n, m) && Carried(n)
    }

    ghost function Consumed(): nat
      reads this`valid, this`atNext, this`pos
    {
      if valid && !atNext then pos + 1 else pos
    }

    /** Record n - 1 is on offer, before its sequence number is prepared. */
    ghost predicate Offers(n: nat)
      reads this`ikey, this`currentUserKey
    {
      && 0 < n <= |input| == |fates|
      && fates[n - 1].Emits()
      && currentUserKey == input[n - 1].key
      && ikey == (if fates[n - 1].Cleared? then input[n - 1].(value := "") else input[n - 1])
    }

    /** No record from i up to n was written. */
    ghost predicate Silent(i: nat, n: nat)
      requires n <= |fates|
    {
      forall j :: i <= j < n ==> !fates[j].Emits()
    }

    /** The outcome of one step of the loop that started with record i under the cursor. */
    ghost predicate Stepped(i: nat)
      reads this
    {
      && i < Consumed() <= |input| == |fates|
      && (if valid
          then Offers(Consumed()) && Inv(Consumed(), Consumed() - 1) && Silent(i, Consumed() - 1)
          else !atNext && Inv(pos, pos) && Silent(i, pos))
    }

    constructor (input: seq<Entry>, env: Env)
      requires ValidEnv(env) && ValidInput(input)
      ensures this.input == input && this.env == env
      ensures Inv(0, 0) && !valid && pos == 0 && !atNext
    {
      this.input := input;
      this.env := env;
      bottommostLevel := env.compaction.Some? && env.compaction.value.bottommost;
      visibleAtTip := if env.snapshots == [] then env.lastSequence else 0;
      earliestSnapshot := if env.snapshots == [] then env.lastSequence else env.snapshots[0];
      levelPtrs := if env.compaction.Some? then seq(|env.compaction.value.levels|, _ => 0) else [];
      pos, valid, atNext := 0, false, false;
      ikey := Entry(0, 0, Deletion, "");
      hasCurrentUserKey, currentUserKey, currentUserKeySequence, currentUserKeySnapshot := false, 0, 0, 0;
      hasOutputtedKey, clearAndOutputNextKey := false, false;
      fates := Fates(env, input, |input|);
      FatesAreFates(env, input);
    }

    /** Record i is loaded: the per-key fields speak of it, the output flag of the records before it. */
    ghost predicate Loaded(i: nat)
      reads this
    {
      && i < |input| == |fates| && ikey == input[i]
      && hasCurrentUserKey && currentUserKey == input[i].key && currentUserKeySequence == input[i].seqno
      && ViewCode(env, input[i].seqno, currentUserKeySnapshot)
      && (hasOutputtedKey <==> Outputted(input, fates[..i], currentUserKey))
    }

    ghost predicate PrevSnapshot(i: nat, p: SeqNo)
      requires i < |input|
    {
      if env.snapshots == [] then p == 0 else IsPrevious(env.snapshots, input[i].seqno, p)
    }

    /** Checks whether the user key changed, and resets the per-key fields if so. */
    method NoteUserKey()
      requires ValidInput(input) && pos < |input| == |fates| && ikey == input[pos] && KeyState(pos, pos)
      modifies this`currentUserKey, this`hasCurrentUserKey, this`hasOutputtedKey,
               this`currentUserKeySequence, this`currentUserKeySnapshot
      ensures hasCurrentUserKey && currentUserKey == input[pos].key && currentUserKeySequence >= input[pos].seqno
      ensures hasOutputtedKey <==> Outputted(input, fates[..pos], currentUserKey)
      ensures CodeOfNewer(env, input, pos, currentUserKeySnapshot)
    {
      if !hasCurrentUserKey || ikey.key != currentUserKey {
        NewKeyNotOutputted(input, fates[..pos]);
        currentUserKey := ikey.key;
        hasCurrentUserKey := true;
        hasOutputtedKey := false;
        currentUserKeySequence := MAX_SEQ;
        currentUserKeySnapshot := 0;
      } else {
        assert Precedes(input[pos - 1], input[pos]);
      }
    }

    method FindView(q: SeqNo) returns (cur: SeqNo, prev: SeqNo)
      requires Configured()
      ensures cur != 0 && ViewCode(env, q, cur)
      ensures if env.snapshots == [] then prev == 0 else IsPrevious(env.snapshots, q, prev)
    {
      if visibleAtTip != 0 {
        return visibleAtTip, 0;
      }
      cur, prev := FindEarliestVisibleSnapshot(env.snapshots, q);
    }

    /** Reads the record under the cursor. */
    method LoadRecord() returns (lastSnapshot: SeqNo, prevSnapshot: SeqNo)
      requires pos < |input| && Inv(pos, pos)
      modifies this`ikey, this`currentUserKey, this`hasCurrentUserKey, this`hasOutputtedKey,
               this`currentUserKeySequence, this`currentUserKeySnapshot
      ensures Loaded(pos) && PrevSnapshot(pos, prevSnapshot)
      ensures lastSnapshot == currentUserKeySnapshot <==> HiddenByNewer(env, input, pos)
    {
      ikey := input[pos];
      NoteUserKey();
      assert currentUserKeySequence >= ikey.seqno;
      currentUserKeySequence := ikey.seqno;
      lastSnapshot := currentUserKeySnapshot;
      currentUserKeySnapshot, prevSnapshot := FindView(ikey.seqno);
      SameCodeMeansHidden(env, input, pos, lastSnapshot, currentUserKeySnapshot);
    }

    /** Asks whether a tombstone of the current key can go. */
    method ObsoleteHere() returns (r: bool)
      requires Configured()
      requires env.compaction.Some? ==> CursorsBehind(env.compaction.value, levelPtrs, ikey.key)
      modifies this`levelPtrs
      ensures r <==> ObsoleteTombstone(env, ikey)
      ensures env.compaction.Some? ==> CursorsBehind(env.compaction.value, levelPtrs, ikey.key)
    {
      r := false;
      if env.compaction.Some? && ikey.seqno <= earliestSnapshot {
        r, levelPtrs := KeyNotExistsBeyondOutputLevel(env.compaction.value, ikey.key, levelPtrs);
      }
    }

    /** The single deletion and the record below it cancel out. */
    method DropPair(ghost i: nat)
      requires Configured() && !valid && !atNext && pos == i + 1 && Loaded(i) && !clearAndOutputNextKey
      requires input[i].kind.SingleDeletion? && OlderSame(input, i) && fates[i].PairHead?
      requires SameView(env, input[i].seqno, input[i + 1].seqno)
      requires env.compaction.Some? ==> CursorsBehind(env.compaction.value, levelPtrs, ikey.key)
      modifies this`pos
      ensures Stepped(i)
    {
      PairIsSilent(env, input, fates, i, currentUserKey, currentUserKeySnapshot);
      pos := pos + 1;
      assert Precedes(input[i], input[i + 1]);
      if pos < |input| {
        assert Precedes(input[i], input[pos]);
      }
    }

    /** The record below a single deletion has the same user key. */
    method StepOverSameKey(prevSnapshot: SeqNo, ghost i: nat)
      requires Configured() && !valid && !atNext && pos == i + 1 && Loaded(i) && PrevSnapshot(i, prevSnapshot)
      requires input[i].kind.SingleDeletion? && OlderSame(input, i) && NotClaimed(fates, i)
      requires !clearAndOutputNextKey
      requires env.compaction.Some? ==> CursorsBehind(env.compaction.value, levelPtrs, ikey.key)
      modifies this`pos, this`valid, this`atNext, this`clearAndOutputNextKey
      ensures Stepped(i)
    {
      assert Precedes(input[i], input[i + 1]);
      PreviousTellsView(env, input[i].seqno, prevSnapshot, input[i + 1].seqno);
      SingleDeletionAbove(env, input, fates, i);
      if prevSnapshot == 0 || input[pos].seqno > prevSnapshot {
        if input[pos].kind.SingleDeletion? {
          SilentStep(input, fates, i, currentUserKey);
        } else if ikey.seqno <= env.writeConflictSnapshot || hasOutputtedKey {
          DropPair(i);
        } else {
          valid := true;
          clearAndOutputNextKey := true;
        }
      } else {
        valid := true;
      }
      if valid {
        atNext := true;
      }
    }

    /** A single deletion is judged by peeking at the next record. */
    method StepSingleDeletion(prevSnapshot: SeqNo)
      requires Configured() && !valid && !atNext && Loaded(pos) && PrevSnapshot(pos, prevSnapshot) && Carried(pos)
      requires !clearAndOutputNextKey && input[pos].kind.SingleDeletion?
      modifies this`pos, this`valid, this`atNext, this`hasCurrentUserKey, this`clearAndOutputNextKey, this`levelPtrs
      ensures Stepped(old(pos))
    {
      ghost var i := pos;
      pos := pos + 1;
      if pos < |input| && ikey.key == input[pos].key {
        StepOverSameKey(prevSnapshot, i);
      } else {
        StepOverLast(i);
      }
    }

    /** The single deletion is the last record of its key. */
    method StepOverLast(ghost i: nat)
      requires Configured() && !valid && !atNext && pos == i + 1 && Loaded(i)
      requires input[i].kind.SingleDeletion? && !OlderSame(input, i) && NotClaimed(fates, i)
      requires !clearAndOutputNextKey
      requires env.compaction.Some? ==> CursorsBehind(env.compaction.value, levelPtrs, ikey.key)
      modifies this`valid, this`atNext, this`hasCurrentUserKey, this`levelPtrs
      ensures Stepped(i)
    {
      LastSingleDeletionFate(env, input, fates, i);
      hasCurrentUserKey := false;
      var obsolete := ObsoleteHere();
      if !obsolete {
        valid, atNext := true, true;
      }
      if pos < |input| {
        assert Precedes(input[i], input[pos]);
      }
    }

    /** Drops the record loaded, or offers it. */
    method Conclude(drop: bool)
      requires Configured() && !valid && !atNext && Loaded(pos)
      requires !clearAndOutputNextKey && (drop <==> !fates[pos].Emits()) && !fates[pos].PairHead? &&
        !fates[pos].Retained?
      requires !fates[pos].Cleared?
      requires env.compaction.Some? ==> CursorsBehind(env.compaction.value, levelPtrs, ikey.key)
      modifies this`pos, this`valid
      ensures Stepped(old(pos))
    {
      ghost var i := pos;
      if i + 1 < |input| {
        assert Precedes(input[i], input[i + 1]);
      }
      if drop {
        SilentStep(input, fates, i, currentUserKey);
        pos := pos + 1;
      } else {
        valid := true;
      }
    }

    /** Puts and deletions. */
    method StepPlain(lastSnapshot: SeqNo)
      requires Configured() && !valid && !atNext && Loaded(pos) && Carried(pos)
      requires lastSnapshot == currentUserKeySnapshot <==> HiddenByNewer(env, input, pos)
      requires !clearAndOutputNextKey && !input[pos].kind.SingleDeletion?
      modifies this`pos, this`valid, this`levelPtrs
      ensures Stepped(old(pos))
    {
      PlainFate(env, input, fates, pos);
      var drop := false;
      if lastSnapshot == currentUserKeySnapshot {
        drop := true;
      } else if ikey.kind.Deletion? {
        drop := ObsoleteHere();
      }
      Conclude(drop);
    }

    /** One pass through the loop of NextFromInput. */
    method Step()
      requires !valid && !atNext && pos < |input| && Inv(pos, pos)
      modifies this
      ensures Stepped(old(pos))
    {
      var lastSnapshot, prevSnapshot := LoadRecord();
      if clearAndOutputNextKey {
        TailOfPair(env, input, fates, pos - 1);
        if pos + 1 < |input| {
          assert Precedes(input[pos], input[pos + 1]);
        }
        ikey := ikey.(value := "");
        valid := true;
        clearAndOutputNextKey := false;
      } else if ikey.kind.SingleDeletion? {
        StepSingleDeletion(prevSnapshot);
      } else {
        StepPlain(lastSnapshot);
      }
    }

    /** Processes the input up to the next record to write. */
    method NextFromInput()
      requires pos <= |input| && Inv(pos, pos)
      modifies this
      ensures old(pos) <= Consumed() <= |input| == |fates|
      ensures if valid
              then old(pos) < Consumed() && Offers(Consumed()) && Inv(Consumed(), Consumed() - 1) &&
                  Silent(old(pos), Consumed() - 1)
              else !atNext && pos == |input| && Inv(pos, pos) && Silent(old(pos), pos)
    {
      atNext := false;
      valid := false;
      while !valid && pos < |input|
        invariant old(pos) <= pos <= Consumed() <= |input| == |fates|
        invariant if valid
                  then old(pos) < Consumed() && Offers(Consumed()) && Inv(Consumed(), Consumed() - 1) &&
                      Silent(old(pos), Consumed() - 1)
                  else !atNext && Inv(pos, pos) && Silent(old(pos), pos)
        decreases !valid, |input| - pos
      {
        Step();
      }
    }

    /** How many records have been dealt with, the one on offer not counted. */
    ghost function Written(): nat
      reads this`valid, this`atNext, this`pos
    {
      if !valid then |input| else if atNext && pos > 0 then pos - 1 else pos
    }

    /** The record on offer in its final form. */
    ghost predicate Ready()
      reads this
    {
      && Consumed() <= |input| == |fates|
      && Inv(Consumed(), Consumed())
      && (if valid
          then Consumed() > 0 && fates[Consumed() - 1].Emits() && currentUserKey == input[Consumed() - 1].key
               && ikey == Rewritten(env, input[Consumed() - 1], fates[Consumed() - 1])
          else !atNext && pos == |input|)
    }

    /** Zeroes the sequence number where that is safe. */
    method PrepareOutput()
      requires Configured() && (valid ==> Offers(Consumed()))
      modifies this`ikey
      ensures valid ==> ikey == Rewritten(env, input[Consumed() - 1], fates[Consumed() - 1])
    {
      if bottommostLevel && valid && ikey.seqno < earliestSnapshot && env.compaction.value.largestUserKey != ikey.key {
        ikey := ikey.(seqno := 0);
      }
    }

    method SeekToFirst()
      requires pos == 0 && !valid && !atNext && Inv(0, 0)
      modifies this
      ensures Ready()
      ensures Silent(0, Written())
    {
      NextFromInput();
      if valid {
        FirstWritten();
      }
      PrepareOutput();
    }

    /** The first record written does not raise the output flag. */
    lemma FirstWritten()
      requires Consumed() > 0 && Offers(Consumed()) && Inv(Consumed(), Consumed() - 1) && Silent(0, Consumed() - 1)
      ensures Inv(Consumed(), Consumed())
    {
      var n := Consumed();
      forall k
        ensures !Outputted(input, fates[..n], k) && !Outputted(input, fates[..n - 1], k)
      {
      }
    }

    /** Moves the cursor past the record returned, unless it is there already. */
    method LeaveRecord()
      requires valid && Ready()
      modifies this`pos
      ensures pos == old(Consumed()) == old(Written()) + 1 && pos <= |input| == |fates| && Inv(pos, pos)
    {
      if !atNext {
        pos := pos + 1;
      }
    }

    method Next()
      requires valid && Ready()
      modifies this
      ensures Ready() && Written() > old(Written())
      ensures Silent(old(Written()) + 1, Written())
    {
      ghost var n := Consumed();
      LeaveRecord();
      NextFromInput();
      if valid {
        RecordOutput(n - 1);
      }
      PrepareOutput();
    }

    /** Notes that a record of the current key was written. */
    method RecordOutput(ghost j: nat)
      requires Consumed() > 0 && Inv(Consumed(), Consumed() - 1) && fates[Consumed() - 1].Emits()
      requires j < Consumed() - 1 && fates[j].Emits()
      modifies this`hasOutputtedKey
      ensures Inv(Consumed(), Consumed())
    {
      ghost var n := Consumed();
      assert fates[..n] == fates[..n - 1] + [fates[n - 1]];
      assert fates[..n - 1][j].Emits();
      WrittenRecord(input, fates[..n - 1], fates[n - 1]);
      hasOutputtedKey := true;
    }
  }
}
