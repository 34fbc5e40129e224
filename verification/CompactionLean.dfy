/** What a compaction leaves out: the records of its output, seen without the rules that chose them. */
module CompactionLean {
  import opened Format
  import opened CompactionFiles
  import opened CompactionRules
  import opened CompactionSafety
  import opened CompactionOrder

  /** Every snapshot sees the number; without snapshots, the newest number does. */
  ghost predicate SeenByAll(env: Env, q: SeqNo) {
    (forall s :: s in env.snapshots ==> q <= s) && (env.snapshots == [] ==> q <= env.lastSequence)
  }

  lemma SeenByAllIs(env: Env, q: SeqNo)
    requires ValidEnv(env)
    ensures SeenByAll(env, q) <==> q <= EarliestSnapshot(env)
  {
    assert env.snapshots != [] ==> env.snapshots[0] in env.snapshots;
  }

  /** A file below the output level may hold the key; universal style asks for any at all. */
  ghost predicate MayHideDeeper(c: Compaction, k: UserKey) {
    if c.universal then !c.bottommost
    else exists l, f :: c.outputLevel < l < |c.levels| && f in c.levels[l] && f.Contains(k)
  }

  // ---------------------------------------------------------------- tombstones

  lemma RetainedIsNotSeen(env: Env, input: seq<Entry>, i: nat)
    requires ValidEnv(env) && ValidInput(input) && i < |input| && FateOf(env, input, i).Retained?
    ensures env.writeConflictSnapshot < input[i].seqno && env.writeConflictSnapshot in env.snapshots
  {
  }

  lemma ClearedIsNotSeen(env: Env, input: seq<Entry>, i: nat)
    requires ValidEnv(env) && ValidInput(input) && i < |input| && FateOf(env, input, i).Cleared?
    ensures i > 0 && FateOf(env, input, i - 1).Retained? && NewerSame(input, i)
    ensures env.writeConflictSnapshot < input[i].seqno && env.writeConflictSnapshot in env.snapshots
  {
    PreviousFate(env, input, i);
    RetainedIsNotSeen(env, input, i - 1);
    PairedSharesView(env, input, i);
  }

  lemma DividedIsNotSeen(env: Env, input: seq<Entry>, i: nat)
    requires ValidEnv(env) && ValidInput(input) && i < |input| && OlderSame(input, i)
    requires !SameView(env, input[i].seqno, input[i + 1].seqno)
    ensures !SeenByAll(env, input[i].seqno)
  {
    assert Precedes(input[i], input[i + 1]);
  }

  lemma TombstoneIsNeeded(env: Env, input: seq<Entry>, i: nat)
    requires ValidEnv(env) && ValidInput(input) && i < |input| && env.compaction.Some?
    requires FateOf(env, input, i).Emits() && input[i].kind.Tombstone() && SeenByAll(env, input[i].seqno)
    ensures MayHideDeeper(env.compaction.value, input[i].key)
  {
    SeenByAllIs(env, input[i].seqno);
    if FateOf(env, input, i).Retained? {
      RetainedIsNotSeen(env, input, i);
    } else if FateOf(env, input, i).Cleared? {
      ClearedIsNotSeen(env, input, i);
    } else if OlderSame(input, i) && !SameView(env, input[i].seqno, input[i + 1].seqno) {
      DividedIsNotSeen(env, input, i);
    }
  }

  /** A tombstone that all snapshots see is written only above a deeper file that may hold its key. */
  lemma WrittenTombstoneIsNeeded(env: Env, input: seq<Entry>, x: nat)
    requires ValidEnv(env) && ValidInput(input) && x < |Compacted(env, input, |input|)| && env.compaction.Some?
    requires var e := Compacted(env, input, |input|)[x]; e.kind.Tombstone() && SeenByAll(env, e.seqno)
    ensures MayHideDeeper(env.compaction.value, Compacted(env, input, |input|)[x].key)
  {
    var i := OutputComesFrom(env, input, |input|, x);
    SeenByAllIs(env, input[i].seqno);
    SeenByAllIs(env, Compacted(env, input, |input|)[x].seqno);
    TombstoneIsNeeded(env, input, i);
  }

  // ---------------------------------------------------------------- numbers

  /** The number of an output record: that of its input record, or zero at the bottommost level when all
      snapshots are newer and the key is not the last. */
  ghost predicate IsRenumbered(env: Env, e: Entry, out: Entry) {
    out.seqno ==
      if env.compaction.Some? && env.compaction.value.bottommost && e.key != env.compaction.value.largestUserKey &&
         (forall s :: s in env.snapshots ==> e.seqno < s) && (env.snapshots == [] ==> e.seqno < env.lastSequence)
      then 0 else e.seqno
  }

  /** Every output record is an input record, with its key and kind, and a number that is zeroed just then. */
  lemma OutputIsRenumbered(env: Env, input: seq<Entry>, x: nat) returns (i: nat)
    requires ValidEnv(env) && x < |Compacted(env, input, |input|)|
    ensures i < |input|
    ensures var e := Compacted(env, input, |input|)[x];
      e.key == input[i].key && e.kind == input[i].kind && IsRenumbered(env, input[i], e)
  {
    i := OutputComesFrom(env, input, |input|, x);
    assert env.snapshots != [] ==> env.snapshots[0] in env.snapshots;
  }

  // ---------------------------------------------------------------- versions that no one can tell apart

  /** A snapshot sees the older record and not the newer one. */
  ghost predicate Separated(env: Env, newer: SeqNo, older: SeqNo) {
    exists s :: s in env.snapshots && older <= s < newer
  }

  lemma SeparatedIs(env: Env, newer: SeqNo, older: SeqNo)
    requires older <= newer
    ensures SameView(env, newer, older) <==> !Separated(env, newer, older)
  {
  }

  /** Two neighbours of one key in the output are told apart by a snapshot, or the older one is a single
      deletion below something else, or the two are a single deletion kept as evidence of a write and the
      record that it cancels, without its value. */
  ghost predicate IsLean(env: Env, newer: Entry, older: Entry) {
    || Separated(env, newer.seqno, older.seqno)
    || (older.kind.SingleDeletion? && !newer.kind.SingleDeletion?)
    || (newer.kind.SingleDeletion? && newer.seqno > env.writeConflictSnapshot && older.value == "")
  }

  lemma KeyGoesOn(input: seq<Entry>, i: nat, j: nat, m: nat)
    requires Sorted(input) && i <= m <= j < |input| && input[i].key == input[j].key
    ensures input[m].key == input[i].key && input[j].seqno <= input[m].seqno <= input[i].seqno
  {
    assert i < m ==> Precedes(input[i], input[m]);
    assert m < j ==> Precedes(input[m], input[j]);
  }

  /** Records i and j of one key are written, and none between them. */
  ghost predicate Neighbours(env: Env, input: seq<Entry>, i: nat, j: nat) {
    && i < j < |input| && input[i].key == input[j].key
    && FateOf(env, input, i).Emits() && FateOf(env, input, j).Emits()
    && forall m :: i < m < j ==> !FateOf(env, input, m).Emits()
  }

  ghost predicate IsEvidence(env: Env, input: seq<Entry>, i: nat, j: nat)
    requires i < |input| && j < |input|
  {
    j == i + 1 && FateOf(env, input, i).Retained? && FateOf(env, input, j).Cleared?
  }

  lemma AfterSingleDeletion(env: Env, input: seq<Entry>, i: nat, j: nat)
    requires ValidEnv(env) && ValidInput(input) && Neighbours(env, input, i, j) && input[i].kind.SingleDeletion?
    ensures Separated(env, input[i].seqno, input[j].seqno) || IsEvidence(env, input, i, j)
  {
    KeyGoesOn(input, i, j, i + 1);
    if FateOf(env, input, i).Retained? {
      PreviousFate(env, input, i + 1);
      assert FateOf(env, input, i + 1).Cleared?;
    } else {
      if i > 0 && (FateOf(env, input, i - 1).PairHead? || FateOf(env, input, i - 1).Retained?) {
        PairedSharesView(env, input, i);
      }
      if i > 0 {
        PreviousFate(env, input, i);
      }
      SeparatedIs(env, input[i].seqno, input[i + 1].seqno);
    }
  }

  lemma BeforePlain(env: Env, input: seq<Entry>, i: nat, j: nat)
    requires ValidEnv(env) && ValidInput(input) && Neighbours(env, input, i, j) && !input[j].kind.SingleDeletion?
    ensures Separated(env, input[i].seqno, input[j].seqno) || IsEvidence(env, input, i, j)
  {
    KeyGoesOn(input, i, j, j - 1);
    PreviousFate(env, input, j);
    if !FateOf(env, input, j).Cleared? {
      SeparatedIs(env, input[j - 1].seqno, input[j].seqno);
    }
  }

  lemma NoneBetween(env: Env, input: seq<Entry>, i: nat, m: nat, j: nat)
    requires i < m < j <= |input| && FateOf(env, input, i).Emits()
    requires |Compacted(env, input, j)| == |Compacted(env, input, i)| + 1
    ensures !FateOf(env, input, m).Emits()
  {
    CompactsNext(env, input, i);
    CompactsNext(env, input, m);
    OutputGrows(env, input, i + 1, m);
    OutputGrows(env, input, m + 1, j);
    assert |Compacted(env, input, i + 1)| <= |Compacted(env, input, m)|;
    assert |Compacted(env, input, m + 1)| <= |Compacted(env, input, j)|;
  }

  /** The input records behind two neighbours of the output. */
  lemma NeighboursComeFrom(env: Env, input: seq<Entry>, x: nat) returns (i: nat, j: nat)
    requires x + 1 < |Compacted(env, input, |input|)|
    ensures i < j < |input| && FateOf(env, input, i).Emits() && FateOf(env, input, j).Emits()
    ensures forall m :: i < m < j ==> !FateOf(env, input, m).Emits()
    ensures Compacted(env, input, |input|)[x] == Rewritten(env, input[i], FateOf(env, input, i))
    ensures Compacted(env, input, |input|)[x + 1] == Rewritten(env, input[j], FateOf(env, input, j))
  {
    i := OutputComesFrom(env, input, |input|, x);
    j := OutputComesFrom(env, input, |input|, x + 1);
    if j <= i {
      OutputGrows(env, input, j, i);
    }
    forall m | i < m < j
      ensures !FateOf(env, input, m).Emits()
    {
      NoneBetween(env, input, i, m, j);
    }
  }

  lemma ZeroedIsNotSeparated(env: Env, newer: SeqNo, older: SeqNo)
    requires ValidEnv(env) && Separated(env, newer, older)
    ensures newer > EarliestSnapshot(env)
  {
  }

  /** The output holds no two versions of a key that no reader and no transaction can tell apart. */
  lemma OutputIsLean(env: Env, input: seq<Entry>, x: nat)
    requires ValidEnv(env) && ValidInput(input) && x + 1 < |Compacted(env, input, |input|)|
    requires Compacted(env, input, |input|)[x].key == Compacted(env, input, |input|)[x + 1].key
    ensures IsLean(env, Compacted(env, input, |input|)[x], Compacted(env, input, |input|)[x + 1])
  {
    var i, j := NeighboursComeFrom(env, input, x);
    if input[j].kind.SingleDeletion? && !input[i].kind.SingleDeletion? {
      return;
    }
    if input[i].kind.SingleDeletion? {
      AfterSingleDeletion(env, input, i, j);
    } else {
      BeforePlain(env, input, i, j);
    }
    if IsEvidence(env, input, i, j) {
      RetainedIsNotSeen(env, input, i);
    } else {
      ZeroedIsNotSeparated(env, input[i].seqno, input[j].seqno);
    }
  }
}
