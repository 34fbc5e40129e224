/** The fate of every input record of a compaction, read off its neighbours in the input. */
module CompactionRules {
  import opened Format
  import opened CompactionFiles

  /** What a compaction or a flush (no compaction) knows when it starts. */
  datatype Env = Env(
    snapshots: seq<SeqNo>,
    lastSequence: SeqNo,
    writeConflictSnapshot: SeqNo,
    compaction: Option<Compaction>)

  ghost predicate ValidEnv(env: Env) {
    && (forall i, j :: 0 <= i < j < |env.snapshots| ==> env.snapshots[i] <= env.snapshots[j])
    && (forall i :: 0 <= i < |env.snapshots| ==> 0 < env.snapshots[i] <= MAX_SEQ)
    && (env.snapshots == [] ==> env.lastSequence > 0)
    && (env.writeConflictSnapshot == MAX_SEQ || env.writeConflictSnapshot in env.snapshots)
    && (env.compaction.Some? ==> SortedLevels(env.compaction.value.levels))
  }

  /** Records the compaction stream handles without the merge helper. */
  ghost predicate ValidInput(input: seq<Entry>) {
    && Sorted(input)
    && forall i :: 0 <= i < |input| ==> input[i].seqno <= MAX_SEQ && !input[i].kind.Merge?
  }

  function EarliestSnapshot(env: Env): SeqNo {
    if env.snapshots == [] then env.lastSequence else env.snapshots[0]
  }

  /** No live snapshot separates the two sequence numbers. */
  ghost predicate SameView(env: Env, p: SeqNo, q: SeqNo) {
    forall s :: s in env.snapshots ==> (p <= s <==> q <= s)
  }

  /** Hidden and Obsolete records are dropped; PairHead and PairTail are a single deletion and the
      record it cancels, dropped together; a Retained single deletion is written together with the
      record it cancels, whose value is Cleared. */
  datatype Fate = Kept | Retained | Cleared | Hidden | Obsolete | Skipped | PairHead | PairTail {
    predicate Emits() {
      Kept? || Retained? || Cleared?
    }
  }

  predicate NewerSame(input: seq<Entry>, i: nat)
    requires i < |input|
  {
    i > 0 && input[i - 1].key == input[i].key
  }

  predicate OlderSame(input: seq<Entry>, i: nat)
    requires i < |input|
  {
    i + 1 < |input| && input[i + 1].key == input[i].key
  }

  ghost predicate ObsoleteTombstone(env: Env, e: Entry) {
    && env.compaction.Some?
    && e.seqno <= EarliestSnapshot(env)
    && NotExistsBeyond(env.compaction.value, e.key)
  }

  /** A record of the same key was written before, and it was not the very first record written:
      the flag behind this is only raised when the consumer asks for a further record. */
  ghost predicate Outputted(input: seq<Entry>, past: seq<Fate>, k: UserKey)
    requires |past| <= |input|
  {
    exists j0, j :: 0 <= j0 < j < |past| && past[j0].Emits() && past[j].Emits() && input[j].key == k
  }

  ghost function DecideSingleDeletion(env: Env, input: seq<Entry>, past: seq<Fate>): Fate
    requires |past| < |input|
  {
    var i := |past|;
    if !OlderSame(input, i) then
      if ObsoleteTombstone(env, input[i]) then Obsolete else Kept
    else if !SameView(env, input[i].seqno, input[i + 1].seqno) then Kept
    else if input[i + 1].kind.SingleDeletion? then Skipped
    else if input[i].seqno <= env.writeConflictSnapshot || Outputted(input, past, input[i].key) then PairHead
    else Retained
  }

  /** The fate of the next record, given the fates of all records before it. */
  ghost function Decide(env: Env, input: seq<Entry>, past: seq<Fate>): Fate
    requires |past| < |input|
  {
    var i := |past|;
    if i > 0 && past[i - 1].PairHead? then PairTail
    else if i > 0 && past[i - 1].Retained? then Cleared
    else if input[i].kind.SingleDeletion? then DecideSingleDeletion(env, input, past)
    else if NewerSame(input, i) && SameView(env, input[i - 1].seqno, input[i].seqno) then Hidden
    else if input[i].kind.Deletion? && ObsoleteTombstone(env, input[i]) then Obsolete
    else Kept
  }

  ghost function Fates(env: Env, input: seq<Entry>, n: nat): (fs: seq<Fate>)
    requires n <= |input|
    ensures |fs| == n
  {
    if n == 0 then []
    else
      var past := Fates(env, input, n - 1);
      past + [Decide(env, input, past)]
  }

  /** The bottommost level forgets sequence numbers older than every snapshot. */
  ghost predicate Zeroed(env: Env, e: Entry) {
    && env.compaction.Some?
    && env.compaction.value.bottommost
    && e.seqno < EarliestSnapshot(env)
    && e.key != env.compaction.value.largestUserKey
  }

  ghost function Rewritten(env: Env, e: Entry, f: Fate): Entry {
    var v := if f.Cleared? then "" else e.value;
    Entry(e.key, if Zeroed(env, e) then 0 else e.seqno, e.kind, v)
  }

  /** Fate of input record i. */
  ghost function FateOf(env: Env, input: seq<Entry>, i: nat): Fate
    requires i < |input|
  {
    Decide(env, input, Fates(env, input, i))
  }

  lemma {:induction false} FatesAgree(env: Env, input: seq<Entry>, m: nat, n: nat)
    requires m <= n <= |input|
    ensures Fates(env, input, n)[..m] == Fates(env, input, m)
    decreases n
  {
    if m < n {
      FatesAgree(env, input, m, n - 1);
      assert Fates(env, input, n)[..m] == Fates(env, input, n - 1)[..m];
    }
  }

  lemma FateAt(env: Env, input: seq<Entry>, i: nat, n: nat)
    requires i < n <= |input|
    ensures Fates(env, input, n)[i] == FateOf(env, input, i)
  {
    FatesAgree(env, input, i + 1, n);
    assert Fates(env, input, n)[i] == Fates(env, input, n)[..i + 1][i];
  }

  ghost function Emitted(env: Env, e: Entry, f: Fate): seq<Entry> {
    if f.Emits() then [Rewritten(env, e, f)] else []
  }

  /** What the first n records leave in the output under given fates. */
  ghost function Selected(env: Env, input: seq<Entry>, fs: seq<Fate>, n: nat): seq<Entry>
    requires n <= |input| && n <= |fs|
  {
    if n == 0 then [] else Selected(env, input, fs, n - 1) + Emitted(env, input[n - 1], fs[n - 1])
  }

  /** What they leave under the rules. */
  ghost function Compacted(env: Env, input: seq<Entry>, n: nat): seq<Entry>
    requires n <= |input|
  {
    Selected(env, input, Fates(env, input, n), n)
  }

  lemma {:induction false} SelectedAgree(env: Env, input: seq<Entry>, fs: seq<Fate>, fs': seq<Fate>, n: nat)
    requires n <= |input| && n <= |fs| && n <= |fs'| && fs[..n] == fs'[..n]
    ensures Selected(env, input, fs, n) == Selected(env, input, fs', n)
  {
    if n > 0 {
      assert fs[n - 1] == fs[..n][n - 1] && fs'[n - 1] == fs'[..n][n - 1];
      assert fs[..n - 1] == fs[..n][..n - 1] && fs'[..n - 1] == fs'[..n][..n - 1];
      SelectedAgree(env, input, fs, fs', n - 1);
    }
  }

  lemma CompactsNext(env: Env, input: seq<Entry>, i: nat)
    requires i < |input|
    ensures Compacted(env, input, i + 1) == Compacted(env, input, i) + Emitted(env, input[i], FateOf(env, input, i))
  {
    FatesAgree(env, input, i, i + 1);
    SelectedAgree(env, input, Fates(env, input, i + 1), Fates(env, input, i), i);
  }
}
