/** No live snapshot can tell a compacted stream from its input. */
module CompactionSafety {
  import opened Format
  import opened CompactionFiles
  import opened CompactionRules

  /** Read points a compaction must not disturb: the snapshots and the tip. */
  ghost predicate Protected(env: Env, input: seq<Entry>, s: SeqNo) {
    s in env.snapshots || forall i :: 0 <= i < |input| ==> input[i].seqno <= s
  }

  /** deeper holds the versions the compaction leaves below its output. */
  ghost predicate LayeredOn(env: Env, input: seq<Entry>, deeper: seq<Entry>) {
    && (forall e, i :: e in deeper && 0 <= i < |input| && e.key == input[i].key ==> e.seqno < input[i].seqno)
    && (env.compaction.Some? ==>
          var c := env.compaction.value;
          && Built(c)
          && (!c.universal ==> LevelZeroClosed(c))
          && (forall i :: 0 <= i < |input| ==> InHull(c, input[i].key))
          && (forall e :: e in deeper ==> exists f :: Older(c.outputLevel, c.levels, c.inputs, f) && f.Contains(e.key)))
  }

  ghost predicate PutDeleteKey(input: seq<Entry>, k: UserKey) {
    forall i :: 0 <= i < |input| && input[i].key == k ==> input[i].kind.Put? || input[i].kind.Deletion?
  }

  /** Every single deletion of k removes exactly one put, across the input and the deeper data. */
  ghost predicate AlternatingKey(input: seq<Entry>, deeper: seq<Entry>, k: UserKey) {
    && (forall i :: 0 <= i < |input| && input[i].key == k ==> input[i].kind.Put? || input[i].kind.SingleDeletion?)
    && (forall i :: 0 <= i < |input| && input[i].key == k && NewerSame(input, i) ==> input[i - 1].kind != input[i].kind)
    && (forall i, s :: 0 <= i < |input| && input[i].key == k && input[i].kind.Put? && !OlderSame(input, i)
          ==> input[i].seqno <= s && Newest(deeper, k, s).Some? ==> Newest(deeper, k, s).value.kind.SingleDeletion?)
  }

  ghost predicate Disciplined(input: seq<Entry>, deeper: seq<Entry>, k: UserKey) {
    PutDeleteKey(input, k) || AlternatingKey(input, deeper, k)
  }

  // ---------------------------------------------------------------- locating the newest record

  ghost predicate EmittedMatch(env: Env, input: seq<Entry>, i: nat, k: UserKey, s: SeqNo)
    requires i < |input|
  {
    FateOf(env, input, i).Emits() && Matches(input[i], k, s)
  }

  lemma RewritingKeepsMatches(env: Env, input: seq<Entry>, i: nat, k: UserKey, s: SeqNo)
    requires ValidEnv(env) && Protected(env, input, s) && i < |input|
    ensures Matches(Rewritten(env, input[i], FateOf(env, input, i)), k, s) <==> Matches(input[i], k, s)
  {
  }

  /** One more record of the input: it answers if none before it did. */
  lemma NewestNext(env: Env, input: seq<Entry>, n: nat, k: UserKey, s: SeqNo)
    requires ValidEnv(env) && Protected(env, input, s) && n < |input|
    ensures
      var before := Newest(Compacted(env, input, n), k, s);
      Newest(Compacted(env, input, n + 1), k, s) ==
        if before.Some? then before
        else if EmittedMatch(env, input, n, k, s) then Some(Rewritten(env, input[n], FateOf(env, input, n)))
        else None
  {
    CompactsNext(env, input, n);
    RewritingKeepsMatches(env, input, n, k, s);
    NewestOfAppend(Compacted(env, input, n), Emitted(env, input[n], FateOf(env, input, n)), k, s);
  }

  lemma {:induction false} NothingEmitted(env: Env, input: seq<Entry>, n: nat, k: UserKey, s: SeqNo)
    requires ValidEnv(env) && Protected(env, input, s) && n <= |input|
    requires forall i :: 0 <= i < n ==> !EmittedMatch(env, input, i, k, s)
    ensures Newest(Compacted(env, input, n), k, s).None?
  {
    if n > 0 {
      NothingEmitted(env, input, n - 1, k, s);
      NewestNext(env, input, n - 1, k, s);
    }
  }

  /** Later records do not change an answer. */
  lemma {:induction false} AnswerStays(env: Env, input: seq<Entry>, m: nat, n: nat, k: UserKey, s: SeqNo)
    requires m <= n <= |input| && Newest(Compacted(env, input, m), k, s).Some?
    ensures Newest(Compacted(env, input, n), k, s) == Newest(Compacted(env, input, m), k, s)
    decreases n
  {
    if m < n {
      AnswerStays(env, input, m, n - 1, k, s);
      CompactsNext(env, input, n - 1);
      NewestOfAppend(Compacted(env, input, n - 1), Emitted(env, input[n - 1], FateOf(env, input, n - 1)), k, s);
    }
  }

  lemma FirstEmitted(env: Env, input: seq<Entry>, n: nat, i: nat, k: UserKey, s: SeqNo)
    requires ValidEnv(env) && Protected(env, input, s) && i < n <= |input|
    requires EmittedMatch(env, input, i, k, s)
    requires forall j :: 0 <= j < i ==> !EmittedMatch(env, input, j, k, s)
    ensures Newest(Compacted(env, input, n), k, s) == Some(Rewritten(env, input[i], FateOf(env, input, i)))
  {
    NothingEmitted(env, input, i, k, s);
    NewestNext(env, input, i, k, s);
    AnswerStays(env, input, i + 1, n, k, s);
  }

  // ---------------------------------------------------------------- which records survive

  /** i is the record a read of k at s uses in the input. */
  ghost predicate IsNewest(input: seq<Entry>, i: nat, k: UserKey, s: SeqNo) {
    && i < |input|
    && Matches(input[i], k, s)
    && forall j :: 0 <= j < i ==> !Matches(input[j], k, s)
  }

  /** A protected read point separates the record it uses from the next newer one. */
  lemma NewestIsSeparated(env: Env, input: seq<Entry>, i: nat, k: UserKey, s: SeqNo)
    requires Protected(env, input, s) && IsNewest(input, i, k, s)
    ensures NewerSame(input, i) ==> !SameView(env, input[i - 1].seqno, input[i].seqno)
  {
    if NewerSame(input, i) {
      assert !Matches(input[i - 1], k, s);
    }
  }

  /** Records below the earliest snapshot share their view. */
  lemma BelowEarliestShareView(env: Env, p: SeqNo, q: SeqNo)
    requires ValidEnv(env) && p <= EarliestSnapshot(env) && q <= EarliestSnapshot(env)
    ensures SameView(env, p, q)
  {
  }

  /** The record before the previous fate: pairs and retained deletions always share a view. */
  lemma PairedSharesView(env: Env, input: seq<Entry>, i: nat)
    requires 0 < i < |input|
    requires FateOf(env, input, i - 1).PairHead? || FateOf(env, input, i - 1).Retained?
    ensures NewerSame(input, i) && SameView(env, input[i - 1].seqno, input[i].seqno)
    ensures input[i - 1].kind.SingleDeletion? && !input[i].kind.SingleDeletion?
  {
  }

  lemma PreviousFate(env: Env, input: seq<Entry>, i: nat)
    requires 0 < i < |input|
    ensures Fates(env, input, i)[i - 1] == FateOf(env, input, i - 1)
  {
    FateAt(env, input, i - 1, i);
  }

  lemma NewestPutIsKept(env: Env, input: seq<Entry>, i: nat, k: UserKey, s: SeqNo)
    requires ValidEnv(env) && Protected(env, input, s) && IsNewest(input, i, k, s)
    requires input[i].kind.Put?
    ensures FateOf(env, input, i).Kept?
  {
    NewestIsSeparated(env, input, i, k, s);
    if i > 0 {
      PreviousFate(env, input, i);
      if FateOf(env, input, i - 1).PairHead? || FateOf(env, input, i - 1).Retained? {
        PairedSharesView(env, input, i);
      }
    }
  }

  /** The write-conflict snapshot is not older than the earliest one. */
  lemma ConflictsAreNotEarlier(env: Env)
    requires ValidEnv(env) && env.snapshots != []
    ensures EarliestSnapshot(env) <= env.writeConflictSnapshot
  {
  }

  /** Below a record not newer than the earliest snapshot, older versions are not told apart: those of a
      put-and-delete key are hidden, and below an obsolete tombstone no version is written. */
  lemma NothingBelowObsolete(env: Env, input: seq<Entry>, i: nat, j: nat)
    requires ValidEnv(env) && ValidInput(input)
    requires i < j < |input| && input[i].key == input[j].key && input[i].seqno <= EarliestSnapshot(env)
    ensures PutDeleteKey(input, input[i].key) ==> FateOf(env, input, j).Hidden?
    ensures ObsoleteTombstone(env, input[i]) ==> !FateOf(env, input, j).Emits()
  {
    assert Precedes(input[i], input[j - 1]) || i == j - 1;
    assert Precedes(input[j - 1], input[j]);
    BelowEarliestShareView(env, input[j - 1].seqno, input[j].seqno);
    PreviousFate(env, input, j);
    if FateOf(env, input, j - 1).PairHead? || FateOf(env, input, j - 1).Retained? {
      PairedSharesView(env, input, j);
    }
    if OlderSame(input, j) {
      assert Precedes(input[j], input[j + 1]);
      BelowEarliestShareView(env, input[j].seqno, input[j + 1].seqno);
    }
    if env.snapshots != [] {
      ConflictsAreNotEarlier(env);
    }
  }

  /** Where a tombstone is found obsolete, the deeper data has no version of its key. */
  ghost predicate ObsoleteMeansLast(env: Env, input: seq<Entry>, deeper: seq<Entry>, k: UserKey, s: SeqNo) {
    forall i :: 0 <= i < |input| && input[i].key == k && ObsoleteTombstone(env, input[i]) ==> Newest(deeper, k, s).None?
  }

  lemma LayeringMeansLast(env: Env, input: seq<Entry>, deeper: seq<Entry>, k: UserKey, s: SeqNo)
    requires LayeredOn(env, input, deeper)
    ensures ObsoleteMeansLast(env, input, deeper, k, s)
  {
    forall i | 0 <= i < |input| && input[i].key == k && ObsoleteTombstone(env, input[i])
      ensures Newest(deeper, k, s).None?
    {
      NoDeeperVersion(env, input, deeper, i, s);
    }
  }

  lemma NoDeeperVersion(env: Env, input: seq<Entry>, deeper: seq<Entry>, i: nat, s: SeqNo)
    requires LayeredOn(env, input, deeper) && i < |input|
    requires ObsoleteTombstone(env, input[i])
    ensures Newest(deeper, input[i].key, s).None?
  {
    var c := env.compaction.value;
    var r := Newest(deeper, input[i].key, s);
    if r.Some? {
      var f :| Older(c.outputLevel, c.levels, c.inputs, f) && f.Contains(r.value.key);
      NotExistsIsSound(c, input[i].key, f);
    }
  }

  // ---------------------------------------------------------------- the same answer at every protected read point

  ghost function Answer(r: Option<Entry>): Option<Value> {
    if r.Some? && r.value.kind.Put? then Some(r.value.value) else None
  }

  /** When the newest record is no operand, it alone decides the read. */
  lemma ReadOfNewest(op: MergeOperator, a: seq<Entry>, b: seq<Entry>, k: UserKey, s: SeqNo)
    requires Newest(a, k, s).Some? && !Newest(a, k, s).value.kind.Merge?
    ensures Read(op, a + b, k, s) == Answer(Newest(a, k, s))
  {
    VersionsOfAppend(a, b, k, s);
  }

  lemma ReadFallsThrough(op: MergeOperator, a: seq<Entry>, b: seq<Entry>, k: UserKey, s: SeqNo)
    requires Newest(a, k, s).None?
    ensures Read(op, a + b, k, s) == Read(op, b, k, s)
  {
    VersionsOfAppend(a, b, k, s);
    assert Versions(a, k, s) + Versions(b, k, s) == Versions(b, k, s);
  }

  lemma KeptTombstoneDeletes(
    op: MergeOperator, env: Env, input: seq<Entry>, deeper: seq<Entry>, i: nat, k: UserKey, s: SeqNo)
    requires ValidEnv(env) && Protected(env, input, s) && i < |input|
    requires EmittedMatch(env, input, i, k, s) && input[i].kind.Tombstone()
    requires forall j :: 0 <= j < i ==> !EmittedMatch(env, input, j, k, s)
    ensures Read(op, Compacted(env, input, |input|) + deeper, k, s).None?
  {
    FirstEmitted(env, input, |input|, i, k, s);
    ReadOfNewest(op, Compacted(env, input, |input|), deeper, k, s);
  }

  lemma NothingEmittedDeletes(
    op: MergeOperator, env: Env, input: seq<Entry>, deeper: seq<Entry>, k: UserKey, s: SeqNo)
    requires ValidEnv(env) && Protected(env, input, s)
    requires forall j :: 0 <= j < |input| ==> !EmittedMatch(env, input, j, k, s)
    requires Newest(deeper, k, s).Some? ==> Newest(deeper, k, s).value.kind.Tombstone()
    ensures Read(op, Compacted(env, input, |input|) + deeper, k, s).None?
  {
    NothingEmitted(env, input, |input|, k, s);
    ReadFallsThrough(op, Compacted(env, input, |input|), deeper, k, s);
  }

  /** Where a deletion is dropped as obsolete, no record that a read could use is written. */
  lemma ObsoleteSilences(env: Env, input: seq<Entry>, i: nat, k: UserKey, s: SeqNo)
    requires ValidEnv(env) && ValidInput(input) && i < |input| && input[i].key == k
    requires FateOf(env, input, i).Obsolete? && ObsoleteTombstone(env, input[i])
    requires forall j :: 0 <= j < i ==> !EmittedMatch(env, input, j, k, s)
    ensures forall j :: 0 <= j < |input| ==> !EmittedMatch(env, input, j, k, s)
  {
    forall j | 0 <= j < |input|
      ensures !EmittedMatch(env, input, j, k, s)
    {
      if i < j && input[j].key == k {
        NothingBelowObsolete(env, input, i, j);
      }
    }
  }

  lemma NewestDeletionFate(env: Env, input: seq<Entry>, i: nat, k: UserKey, s: SeqNo)
    requires ValidEnv(env) && Protected(env, input, s) && IsNewest(input, i, k, s)
    requires input[i].kind.Deletion?
    ensures FateOf(env, input, i).Kept? || (FateOf(env, input, i).Obsolete? && ObsoleteTombstone(env, input[i]))
  {
    NewestIsSeparated(env, input, i, k, s);
    if i > 0 {
      PreviousFate(env, input, i);
      if FateOf(env, input, i - 1).PairHead? || FateOf(env, input, i - 1).Retained? {
        PairedSharesView(env, input, i);
      }
    }
  }

  lemma {:induction false} FindNewest(input: seq<Entry>, k: UserKey, s: SeqNo) returns (i: nat)
    ensures i <= |input|
    ensures forall j :: 0 <= j < i ==> !Matches(input[j], k, s)
    ensures i < |input| ==> IsNewest(input, i, k, s) && Newest(input, k, s) == Some(input[i])
    ensures i == |input| ==> Newest(input, k, s).None?
  {
    i := 0;
    while i < |input| && !Matches(input[i], k, s)
      invariant i <= |input|
      invariant forall j :: 0 <= j < i ==> !Matches(input[j], k, s)
    {
      i := i + 1;
    }
    if i < |input| {
      NewestAt(input, i, k, s);
    }
  }

  // ---------------------------------------------------------------- what dropped records uncover

  /** A read of k at s finds a value or operands. */
  ghost predicate Shows(es: seq<Entry>, k: UserKey, s: SeqNo) {
    Newest(es, k, s).Some? && !Newest(es, k, s).value.kind.Tombstone()
  }

  /** The single deletion at i goes together with the record below it. */
  ghost predicate DropsPair(env: Env, input: seq<Entry>, i: nat)
    requires i < |input|
  {
    input[i].seqno <= env.writeConflictSnapshot || Outputted(input, Fates(env, input, i), input[i].key)
  }

  /** When nothing was written for a reader of k at s before record i, a value shows. */
  ghost predicate Uncovers(env: Env, input: seq<Entry>, deeper: seq<Entry>, i: nat, k: UserKey, s: SeqNo)
    requires i <= |input|
    decreases |input| - i
  {
    if i == |input| || input[i].key != k then Shows(deeper, k, s)
    else if input[i].kind.SingleDeletion? then
      && OlderSame(input, i) && SameView(env, input[i].seqno, input[i + 1].seqno)
      && if input[i + 1].kind.SingleDeletion? then Uncovers(env, input, deeper, i + 1, k, s)
         else DropsPair(env, input, i) && Uncovers(env, input, deeper, i + 2, k, s)
    else if NewerSame(input, i) && SameView(env, input[i - 1].seqno, input[i].seqno) then
      Uncovers(env, input, deeper, i + 1, k, s)
    else input[i].kind.Put?
  }

  /** A read of k at s finds a single deletion, and something shows once the compaction has dropped it. */
  ghost predicate Resurfaces(env: Env, input: seq<Entry>, deeper: seq<Entry>, k: UserKey, s: SeqNo) {
    exists i: nat ::
      IsNewest(input, i, k, s) && input[i].kind.SingleDeletion? && Uncovers(env, input, deeper, i, k, s)
  }

  /** Nothing was written for the reader before record i, and i is its key's next record if there is one. */
  ghost predicate Reached(env: Env, input: seq<Entry>, i: nat, k: UserKey, s: SeqNo) {
    && i <= |input|
    && (forall j :: 0 <= j < i ==> !EmittedMatch(env, input, j, k, s))
    && (forall j :: i <= j < |input| && input[j].key == k ==> input[j].seqno <= s && input[i].key == k)
    && (0 < i < |input| ==> !FateOf(env, input, i - 1).PairHead? && !FateOf(env, input, i - 1).Retained?)
  }

  lemma ReachNext(env: Env, input: seq<Entry>, i: nat, k: UserKey, s: SeqNo, n: nat)
    requires Sorted(input) && Reached(env, input, i, k, s) && i < n <= |input| && input[i].key == k
    requires forall j :: i <= j < n ==> !EmittedMatch(env, input, j, k, s)
    requires n < |input| ==> !FateOf(env, input, n - 1).PairHead? && !FateOf(env, input, n - 1).Retained?
    ensures Reached(env, input, n, k, s)
  {
    forall j | n <= j < |input| && input[j].key == k
      ensures input[n].key == k
    {
      assert Precedes(input[i], input[n]);
      assert j == n || Precedes(input[n], input[j]);
    }
  }

  /** The fate of a single deletion on the walk. */
  lemma WalkedSingleDeletionFate(env: Env, input: seq<Entry>, i: nat, k: UserKey, s: SeqNo)
    requires Reached(env, input, i, k, s) && i < |input| && input[i].kind.SingleDeletion?
    ensures
      var f := FateOf(env, input, i);
      if !OlderSame(input, i) then f.Kept? || (f.Obsolete? && ObsoleteTombstone(env, input[i]))
      else if !SameView(env, input[i].seqno, input[i + 1].seqno) then f.Kept?
      else if input[i + 1].kind.SingleDeletion? then f.Skipped?
      else if DropsPair(env, input, i) then f.PairHead? && FateOf(env, input, i + 1).PairTail?
      else f.Retained?
  {
    if i > 0 {
      PreviousFate(env, input, i);
    }
    if OlderSame(input, i) {
      PreviousFate(env, input, i + 1);
    }
  }

  /** The fate of any other record on the walk. */
  lemma WalkedPlainFate(env: Env, input: seq<Entry>, i: nat, k: UserKey, s: SeqNo)
    requires Reached(env, input, i, k, s) && i < |input| && !input[i].kind.SingleDeletion?
    ensures
      var f := FateOf(env, input, i);
      if NewerSame(input, i) && SameView(env, input[i - 1].seqno, input[i].seqno) then f.Hidden?
      else f.Kept? || (f.Obsolete? && input[i].kind.Deletion? && ObsoleteTombstone(env, input[i]))
  {
    if i > 0 {
      PreviousFate(env, input, i);
    }
  }

  lemma ObsoleteDeletes(
    op: MergeOperator, env: Env, input: seq<Entry>, deeper: seq<Entry>, i: nat, k: UserKey, s: SeqNo)
    requires ValidEnv(env) && ValidInput(input) && ObsoleteMeansLast(env, input, deeper, k, s)
    requires Protected(env, input, s) && Reached(env, input, i, k, s) && i < |input| && input[i].key == k
    requires FateOf(env, input, i).Obsolete? && ObsoleteTombstone(env, input[i])
    ensures Read(op, Compacted(env, input, |input|) + deeper, k, s).None?
  {
    ObsoleteSilences(env, input, i, k, s);
    NothingEmittedDeletes(op, env, input, deeper, k, s);
  }

  lemma KeptPutShows(
    op: MergeOperator, env: Env, input: seq<Entry>, deeper: seq<Entry>, i: nat, k: UserKey, s: SeqNo)
    requires ValidEnv(env) && Protected(env, input, s) && i < |input|
    requires EmittedMatch(env, input, i, k, s) && input[i].kind.Put?
    requires forall j :: 0 <= j < i ==> !EmittedMatch(env, input, j, k, s)
    ensures Read(op, Compacted(env, input, |input|) + deeper, k, s).Some?
    ensures FateOf(env, input, i).Kept? ==>
      Read(op, Compacted(env, input, |input|) + deeper, k, s) == Some(input[i].value)
  {
    FirstEmitted(env, input, |input|, i, k, s);
    ReadOfNewest(op, Compacted(env, input, |input|), deeper, k, s);
  }

  /** The output shows a value exactly when record i uncovers one. */
  ghost predicate ShownBy(
    op: MergeOperator, env: Env, input: seq<Entry>, deeper: seq<Entry>, i: nat, k: UserKey, s: SeqNo)
    requires i <= |input|
  {
    Read(op, Compacted(env, input, |input|) + deeper, k, s).Some? <==> Uncovers(env, input, deeper, i, k, s)
  }

  /** Where the walk goes on from record i, if it does. */
  ghost function WalkOn(env: Env, input: seq<Entry>, i: nat): (n: nat)
    requires i < |input|
    ensures i <= n <= |input|
  {
    match FateOf(env, input, i)
    case Skipped => i + 1
    case Hidden => i + 1
    case PairHead => if i + 2 <= |input| then i + 2 else |input|
    case _ => i
  }

  lemma ShownByLast(
    op: MergeOperator, env: Env, input: seq<Entry>, deeper: seq<Entry>, i: nat, k: UserKey, s: SeqNo)
    requires ValidEnv(env) && ValidInput(input) && Protected(env, input, s) && Reached(env, input, i, k, s)
    requires i == |input| || input[i].key != k
    ensures ShownBy(op, env, input, deeper, i, k, s)
  {
    NothingEmitted(env, input, |input|, k, s);
    ReadFallsThrough(op, Compacted(env, input, |input|), deeper, k, s);
  }

  lemma ShownBySingleDeletion(
    op: MergeOperator, env: Env, input: seq<Entry>, deeper: seq<Entry>, i: nat, k: UserKey, s: SeqNo)
    requires ValidEnv(env) && ValidInput(input) && ObsoleteMeansLast(env, input, deeper, k, s)
    requires Protected(env, input, s) && Reached(env, input, i, k, s)
    requires i < |input| && input[i].key == k && input[i].kind.SingleDeletion?
    ensures if WalkOn(env, input, i) == i then ShownBy(op, env, input, deeper, i, k, s)
      else
        && Reached(env, input, WalkOn(env, input, i), k, s)
        && (Uncovers(env, input, deeper, i, k, s) <==> Uncovers(env, input, deeper, WalkOn(env, input, i), k, s))
  {
    WalkedSingleDeletionFate(env, input, i, k, s);
    var f := FateOf(env, input, i);
    if f.Emits() {
      KeptTombstoneDeletes(op, env, input, deeper, i, k, s);
    } else if f.Obsolete? {
      ObsoleteDeletes(op, env, input, deeper, i, k, s);
    } else {
      assert !EmittedMatch(env, input, i, k, s) && (f.PairHead? ==> !EmittedMatch(env, input, i + 1, k, s));
      ReachNext(env, input, i, k, s, WalkOn(env, input, i));
    }
  }

  lemma ShownByPlain(
    op: MergeOperator, env: Env, input: seq<Entry>, deeper: seq<Entry>, i: nat, k: UserKey, s: SeqNo)
    requires ValidEnv(env) && ValidInput(input) && ObsoleteMeansLast(env, input, deeper, k, s)
    requires Protected(env, input, s) && Reached(env, input, i, k, s)
    requires i < |input| && input[i].key == k && !input[i].kind.SingleDeletion?
    ensures if WalkOn(env, input, i) == i then ShownBy(op, env, input, deeper, i, k, s)
      else
        && Reached(env, input, WalkOn(env, input, i), k, s)
        && (Uncovers(env, input, deeper, i, k, s) <==> Uncovers(env, input, deeper, WalkOn(env, input, i), k, s))
  {
    WalkedPlainFate(env, input, i, k, s);
    var f := FateOf(env, input, i);
    if f.Hidden? {
      assert !EmittedMatch(env, input, i, k, s);
      ReachNext(env, input, i, k, s, i + 1);
    } else if f.Obsolete? {
      ObsoleteDeletes(op, env, input, deeper, i, k, s);
    } else if input[i].kind.Put? {
      KeptPutShows(op, env, input, deeper, i, k, s);
    } else {
      KeptTombstoneDeletes(op, env, input, deeper, i, k, s);
    }
  }

  /** So it is from any record before which nothing was written for the reader. */
  lemma {:induction false} ShowsExactly(
    op: MergeOperator, env: Env, input: seq<Entry>, deeper: seq<Entry>, i: nat, k: UserKey, s: SeqNo)
    requires ValidEnv(env) && ValidInput(input) && ObsoleteMeansLast(env, input, deeper, k, s)
    requires Protected(env, input, s) && Reached(env, input, i, k, s)
    ensures ShownBy(op, env, input, deeper, i, k, s)
    decreases |input| - i
  {
    if i == |input| || input[i].key != k {
      ShownByLast(op, env, input, deeper, i, k, s);
    } else {
      if input[i].kind.SingleDeletion? {
        ShownBySingleDeletion(op, env, input, deeper, i, k, s);
      } else {
        ShownByPlain(op, env, input, deeper, i, k, s);
      }
      if WalkOn(env, input, i) > i {
        ShowsExactly(op, env, input, deeper, WalkOn(env, input, i), k, s);
      }
    }
  }

  /** A protected reader's newest record starts the walk. */
  lemma NewestIsReached(env: Env, input: seq<Entry>, i: nat, k: UserKey, s: SeqNo)
    requires ValidInput(input) && Protected(env, input, s) && IsNewest(input, i, k, s)
    ensures Reached(env, input, i, k, s)
    ensures NewerSame(input, i) ==> !SameView(env, input[i - 1].seqno, input[i].seqno)
  {
    NewestIsSeparated(env, input, i, k, s);
    if i > 0 && (FateOf(env, input, i - 1).PairHead? || FateOf(env, input, i - 1).Retained?) {
      PairedSharesView(env, input, i);
    }
    forall j | i <= j < |input| && input[j].key == k
      ensures input[j].seqno <= s
    {
      assert i == j || Precedes(input[i], input[j]);
    }
  }

  lemma NewestIsUnique(input: seq<Entry>, i: nat, j: nat, k: UserKey, s: SeqNo)
    requires IsNewest(input, i, k, s) && IsNewest(input, j, k, s)
    ensures i == j
  {
  }

  /** The main result: at every snapshot and at the tip, the compaction output over the untouched deeper
      data answers a key as the input over that data did, exactly when nothing resurfaces. */
  lemma ReadsArePreservedExactly(
    op: MergeOperator, env: Env, input: seq<Entry>, deeper: seq<Entry>, k: UserKey, s: SeqNo)
    requires ValidEnv(env) && ValidInput(input) && LayeredOn(env, input, deeper) && Protected(env, input, s)
    ensures Read(op, Compacted(env, input, |input|) + deeper, k, s) == Read(op, input + deeper, k, s) <==>
      !Resurfaces(env, input, deeper, k, s)
  {
    var i := FindNewest(input, k, s);
    if i == |input| {
      NothingEmitted(env, input, |input|, k, s);
      ReadFallsThrough(op, Compacted(env, input, |input|), deeper, k, s);
      ReadFallsThrough(op, input, deeper, k, s);
    } else {
      LayeringMeansLast(env, input, deeper, k, s);
      NewestIsReached(env, input, i, k, s);
      ReadOfNewest(op, input, deeper, k, s);
      ShowsExactly(op, env, input, deeper, i, k, s);
      if input[i].kind.Put? {
        NewestPutIsKept(env, input, i, k, s);
        KeptPutShows(op, env, input, deeper, i, k, s);
      }
      forall j: nat | IsNewest(input, j, k, s)
        ensures j == i
      {
        NewestIsUnique(input, i, j, k, s);
      }
    }
  }

  // ---------------------------------------------------------------- the discipline

  /** Below a single deletion of an alternating key nothing shows. */
  lemma {:induction false} AlternatingCovers(
    env: Env, input: seq<Entry>, deeper: seq<Entry>, i: nat, k: UserKey, s: SeqNo)
    requires ValidInput(input) && AlternatingKey(input, deeper, k)
    requires i < |input| && Matches(input[i], k, s) && input[i].kind.SingleDeletion?
    ensures !Uncovers(env, input, deeper, i, k, s)
    decreases |input| - i
  {
    if OlderSame(input, i) {
      assert NewerSame(input, i + 1) && Precedes(input[i], input[i + 1]);
      if OlderSame(input, i + 1) {
        assert NewerSame(input, i + 2) && Precedes(input[i + 1], input[i + 2]);
        AlternatingCovers(env, input, deeper, i + 2, k, s);
      }
    }
  }

  /** From a single deletion that meets no earlier match on, the output answers "not found". */
  lemma SingleDeletionStaysDeleted(
    op: MergeOperator, env: Env, input: seq<Entry>, deeper: seq<Entry>, i: nat, k: UserKey, s: SeqNo)
    requires ValidEnv(env) && ValidInput(input) && ObsoleteMeansLast(env, input, deeper, k, s)
    requires Protected(env, input, s) && AlternatingKey(input, deeper, k)
    requires i < |input| && Matches(input[i], k, s) && input[i].kind.SingleDeletion?
    requires forall j :: 0 <= j < i ==> !EmittedMatch(env, input, j, k, s)
    ensures Read(op, Compacted(env, input, |input|) + deeper, k, s).None?
  {
    if i > 0 && (FateOf(env, input, i - 1).PairHead? || FateOf(env, input, i - 1).Retained?) {
      PairedSharesView(env, input, i);
    }
    forall j | i <= j < |input| && input[j].key == k
      ensures input[j].seqno <= s
    {
      assert i == j || Precedes(input[i], input[j]);
    }
    ShowsExactly(op, env, input, deeper, i, k, s);
    AlternatingCovers(env, input, deeper, i, k, s);
  }

  lemma DisciplinedStaysDown(env: Env, input: seq<Entry>, deeper: seq<Entry>, k: UserKey, s: SeqNo)
    requires ValidInput(input) && Disciplined(input, deeper, k)
    ensures !Resurfaces(env, input, deeper, k, s)
  {
    forall i: nat | IsNewest(input, i, k, s) && input[i].kind.SingleDeletion?
      ensures !Uncovers(env, input, deeper, i, k, s)
    {
      AlternatingCovers(env, input, deeper, i, k, s);
    }
  }

  /** So no read of a disciplined key changes. */
  lemma ReadsArePreserved(
    op: MergeOperator, env: Env, input: seq<Entry>, deeper: seq<Entry>, k: UserKey, s: SeqNo)
    requires ValidEnv(env) && ValidInput(input) && LayeredOn(env, input, deeper)
    requires Protected(env, input, s) && Disciplined(input, deeper, k)
    ensures Read(op, Compacted(env, input, |input|) + deeper, k, s) == Read(op, input + deeper, k, s)
  {
    DisciplinedStaysDown(env, input, deeper, k, s);
    ReadsArePreservedExactly(op, env, input, deeper, k, s);
  }

  // ---------------------------------------------------------------- without the discipline

  const PINNED := Env([1], 3, MAX_SEQ, None)

  function Overwritten(k: UserKey, a: Value, b: Value): seq<Entry> {
    [Entry(k, 3, SingleDeletion, ""), Entry(k, 2, Put, b), Entry(k, 1, Put, a)]
  }

  lemma OverwrittenCompacted(k: UserKey, a: Value, b: Value)
    ensures Compacted(PINNED, Overwritten(k, a, b), 3) == [Entry(k, 1, Put, a)]
  {
    var env, input := PINNED, Overwritten(k, a, b);
    assert Fates(env, input, 1) == [PairHead];
    assert Fates(env, input, 2) == [PairHead, PairTail];
    assert 1 in env.snapshots && !SameView(env, 2, 1);
    assert Fates(env, input, 3) == [PairHead, PairTail, Kept];
    CompactsNext(env, input, 0);
    CompactsNext(env, input, 1);
    CompactsNext(env, input, 2);
  }

  lemma OverwrittenIsUndisciplined(k: UserKey, a: Value, b: Value)
    ensures !Disciplined(Overwritten(k, a, b), [], k)
  {
    var input := Overwritten(k, a, b);
    assert input[0].kind.SingleDeletion?;
    assert NewerSame(input, 2) && input[1].kind == input[2].kind;
  }

  lemma ReadOfFirst(op: MergeOperator, es: seq<Entry>, k: UserKey, s: SeqNo)
    requires es != [] && Matches(es[0], k, s) && !es[0].kind.Merge?
    ensures Read(op, es, k, s) == if es[0].kind.Put? then Some(es[0].value) else None
  {
  }

  /** Overwriting a key before a single deletion breaks reads: the pair goes, and the put below it,
      kept for a snapshot, shows at the tip. */
  lemma OverwriteResurfaces(op: MergeOperator, k: UserKey, a: Value, b: Value)
    ensures ValidEnv(PINNED) && ValidInput(Overwritten(k, a, b)) && LayeredOn(PINNED, Overwritten(k, a, b), [])
    ensures Protected(PINNED, Overwritten(k, a, b), 3) && !Disciplined(Overwritten(k, a, b), [], k)
    ensures Read(op, Overwritten(k, a, b), k, 3) == None
    ensures Read(op, Compacted(PINNED, Overwritten(k, a, b), 3), k, 3) == Some(a)
  {
    OverwrittenIsUndisciplined(k, a, b);
    ReadOfFirst(op, Overwritten(k, a, b), k, 3);
    OverwrittenCompacted(k, a, b);
    ReadOfFirst(op, [Entry(k, 1, Put, a)], k, 3);
  }
}
