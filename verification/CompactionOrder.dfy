/** Order of the output, zeroed sequence numbers, and evidence of writes. */
module CompactionOrder {
  import opened Format
  import opened CompactionFiles
  import opened CompactionRules
  import opened CompactionSafety

  ghost predicate KeysInHull(env: Env, input: seq<Entry>) {
    env.compaction.Some? ==>
      && Built(env.compaction.value)
      && forall i :: 0 <= i < |input| ==> InHull(env.compaction.value, input[i].key)
  }

  lemma ConflictSnapshotIsNotEarlier(env: Env, input: seq<Entry>, i: nat)
    requires ValidEnv(env) && ValidInput(input) && i < |input|
    requires env.writeConflictSnapshot < input[i].seqno
    ensures env.snapshots != [] && EarliestSnapshot(env) <= env.writeConflictSnapshot
  {
  }

  /** The assertion in PrepareOutput: only puts lose their sequence number. A tombstone older than
      every snapshot has already been dropped, because the bottommost level has nothing below it. */
  lemma TombstonesAreNotZeroed(env: Env, input: seq<Entry>, i: nat)
    requires ValidEnv(env) && ValidInput(input) && KeysInHull(env, input)
    requires i < |input| && FateOf(env, input, i).Emits() && Zeroed(env, input[i])
    ensures FateOf(env, input, i).Kept? && input[i].kind.Put?
  {
    var c := env.compaction.value;
    BottommostImpliesNotExists(c, input[i].key);
    assert ObsoleteTombstone(env, input[i]);
    if i > 0 {
      PreviousFate(env, input, i);
      if FateOf(env, input, i - 1).PairHead? || FateOf(env, input, i - 1).Retained? {
        PairedSharesView(env, input, i);
      }
      if FateOf(env, input, i - 1).Retained? {
        ConflictSnapshotIsNotEarlier(env, input, i - 1);
      }
    }
    if OlderSame(input, i) {
      assert Precedes(input[i], input[i + 1]);
      BelowEarliestShareView(env, input[i].seqno, input[i + 1].seqno);
    }
    if FateOf(env, input, i).Retained? {
      ConflictSnapshotIsNotEarlier(env, input, i);
    }
  }

  /** A zeroed record is the only output version of its key below the earliest snapshot. */
  lemma ZeroedStandsAlone(env: Env, input: seq<Entry>, i: nat, j: nat)
    requires ValidEnv(env) && ValidInput(input) && KeysInHull(env, input)
    requires i < j < |input| && input[i].key == input[j].key
    requires FateOf(env, input, j).Emits() && Zeroed(env, input[j])
    ensures EarliestSnapshot(env) <= input[i].seqno
  {
    TombstonesAreNotZeroed(env, input, j);
    assert Precedes(input[j - 1], input[j]);
    if i < j - 1 {
      assert Precedes(input[i], input[j - 1]);
    }
    if input[i].seqno < EarliestSnapshot(env) {
      BelowEarliestShareView(env, input[j - 1].seqno, input[j].seqno);
      PreviousFate(env, input, j);
    }
  }

  lemma OutputPairInOrder(env: Env, input: seq<Entry>, i: nat, j: nat)
    requires ValidEnv(env) && ValidInput(input) && KeysInHull(env, input)
    requires i < j < |input|
    requires FateOf(env, input, i).Emits() && FateOf(env, input, j).Emits()
    ensures Precedes(Rewritten(env, input[i], FateOf(env, input, i)), Rewritten(env, input[j], FateOf(env, input, j)))
  {
    assert Precedes(input[i], input[j]);
    if input[i].key == input[j].key && Zeroed(env, input[j]) {
      ZeroedStandsAlone(env, input, i, j);
    }
  }

  /** Every output record comes from an input record that was written. */
  lemma {:induction false} OutputComesFrom(env: Env, input: seq<Entry>, n: nat, x: nat) returns (i: nat)
    requires n <= |input| && x < |Compacted(env, input, n)|
    ensures i < n && FateOf(env, input, i).Emits()
    ensures Compacted(env, input, n)[x] == Rewritten(env, input[i], FateOf(env, input, i))
    ensures x == |Compacted(env, input, i)|
  {
    CompactsNext(env, input, n - 1);
    if x == |Compacted(env, input, n - 1)| {
      i := n - 1;
    } else {
      i := OutputComesFrom(env, input, n - 1, x);
    }
  }

  lemma {:induction false} OutputGrows(env: Env, input: seq<Entry>, m: nat, n: nat)
    requires m <= n <= |input|
    ensures Compacted(env, input, m) <= Compacted(env, input, n)
    decreases n
  {
    if m < n {
      OutputGrows(env, input, m, n - 1);
      CompactsNext(env, input, n - 1);
    }
  }

  /** The output of a compaction is a sorted run again, zeroed sequence numbers included. */
  lemma OutputIsSorted(env: Env, input: seq<Entry>)
    requires ValidEnv(env) && ValidInput(input) && KeysInHull(env, input)
    ensures Sorted(Compacted(env, input, |input|))
  {
    var out := Compacted(env, input, |input|);
    forall x, y | 0 <= x < y < |out|
      ensures Precedes(out[x], out[y])
    {
      var i := OutputComesFrom(env, input, |input|, x);
      var j := OutputComesFrom(env, input, |input|, y);
      if j <= i {
        OutputGrows(env, input, j, i);
      }
      OutputPairInOrder(env, input, i, j);
    }
  }

  /** A transaction that started at the write-conflict snapshot still finds the newest write of a
      key: the output keeps a record with its sequence number. */
  lemma EvidenceOfWritesSurvives(env: Env, input: seq<Entry>, deeper: seq<Entry>, i: nat)
    requires ValidEnv(env) && ValidInput(input)
    requires i < |input| && !NewerSame(input, i)
    requires Disciplined(input, deeper, input[i].key)
    requires input[i].seqno > env.writeConflictSnapshot
    ensures exists e :: e in Compacted(env, input, |input|) && e.key == input[i].key && e.seqno == input[i].seqno
  {
    ConflictSnapshotIsNotEarlier(env, input, i);
    NewestOfKeyIsWritten(env, input, deeper, i);
    EmittedIsInOutput(env, input, i, |input|);
    var e := Rewritten(env, input[i], FateOf(env, input, i));
    assert e.key == input[i].key && e.seqno == input[i].seqno;
  }

  lemma NewestOfKeyIsWritten(env: Env, input: seq<Entry>, deeper: seq<Entry>, i: nat)
    requires ValidEnv(env) && ValidInput(input)
    requires i < |input| && !NewerSame(input, i)
    requires Disciplined(input, deeper, input[i].key)
    requires EarliestSnapshot(env) <= env.writeConflictSnapshot < input[i].seqno
    ensures FateOf(env, input, i).Emits()
  {
    if i > 0 {
      PreviousFate(env, input, i);
      if FateOf(env, input, i - 1).PairHead? || FateOf(env, input, i - 1).Retained? {
        PairedSharesView(env, input, i);
      }
    }
    if OlderSame(input, i) {
      assert NewerSame(input, i + 1);
    }
    FirstOfKey(input, i);
  }

  lemma FirstOfKey(input: seq<Entry>, i: nat)
    requires Sorted(input) && i < |input| && !NewerSame(input, i)
    ensures forall j :: 0 <= j < i ==> input[j].key != input[i].key
  {
    forall j | 0 <= j < i
      ensures input[j].key != input[i].key
    {
      assert j == i - 1 || Precedes(input[j], input[i - 1]);
      assert Precedes(input[i - 1], input[i]);
    }
  }

  lemma {:induction false} EmittedIsInOutput(env: Env, input: seq<Entry>, i: nat, n: nat)
    requires i < n <= |input| && FateOf(env, input, i).Emits()
    ensures Rewritten(env, input[i], FateOf(env, input, i)) in Compacted(env, input, n)
    decreases n
  {
    CompactsNext(env, input, n - 1);
    if i < n - 1 {
      EmittedIsInOutput(env, input, i, n - 1);
    }
  }
}
