/** Splitting a compaction into key ranges that run separately. */
module Subcompaction {
  import opened Format
  import opened CompactionFiles
  import opened CompactionRules
  import opened CompactionSafety
  import opened CompactionOrder
  import opened CompactionIteratorImpl
  import opened CompactionJob
  import opened SubcompactionBounds

  // ---------------------------------------------------------------- separate runs

  function StartOf(boundaries: seq<UserKey>, i: nat): Option<UserKey>
    requires i <= |boundaries|
  {
    if i == 0 then None else Some(boundaries[i - 1])
  }

  function EndOf(boundaries: seq<UserKey>, i: nat): Option<UserKey>
    requires i <= |boundaries|
  {
    if i == |boundaries| then None else Some(boundaries[i])
  }

  /** The records of subcompaction i. */
  function Piece(input: seq<Entry>, boundaries: seq<UserKey>, i: nat): (r: seq<Entry>)
    requires Sorted(input) && i <= |boundaries|
    ensures Sorted(r)
  {
    InRange(input, StartOf(boundaries, i), EndOf(boundaries, i))
  }

  function Pieces(input: seq<Entry>, boundaries: seq<UserKey>): (r: seq<seq<Entry>>)
    requires Sorted(input)
    ensures |r| == |boundaries| + 1 && forall i :: 0 <= i < |r| ==> r[i] == Piece(input, boundaries, i)
  {
    seq(|boundaries| + 1, i requires 0 <= i < |boundaries| + 1 => Piece(input, boundaries, i))
  }

  /** The first n parts, one after the other. */
  function Joined(parts: seq<seq<Entry>>, n: nat): seq<Entry>
    requires n <= |parts|
  {
    if n == 0 then [] else Joined(parts, n - 1) + parts[n - 1]
  }

  predicate KeysFrom(es: seq<Entry>, lo: Option<UserKey>) {
    lo.Some? ==> forall i :: 0 <= i < |es| ==> lo.value <= es[i].key
  }

  predicate KeysBefore(es: seq<Entry>, hi: Option<UserKey>) {
    hi.Some? ==> forall i :: 0 <= i < |es| ==> es[i].key < hi.value
  }

  /** No user key is on both sides of a boundary. */
  ghost predicate AreCut(parts: seq<seq<Entry>>, boundaries: seq<UserKey>) {
    && |parts| == |boundaries| + 1
    && forall i :: 0 <= i < |parts| ==>
         KeysFrom(parts[i], StartOf(boundaries, i)) && KeysBefore(parts[i], EndOf(boundaries, i))
  }

  lemma SeekKeyIsUnique(es: seq<Entry>, bound: Option<UserKey>, a: nat, b: nat)
    requires Sorted(es) && bound.Some? && a <= |es| && b <= |es|
    ensures SeekKey(es, bound, a) == SeekKey(es, bound, b)
  {
    var i, j := SeekKey(es, bound, a), SeekKey(es, bound, b);
    assert i < |es| ==> bound.value <= es[i].key;
    assert j < |es| ==> bound.value <= es[j].key;
  }

  /** Where subcompaction i starts in the input; the last one ends at the end. */
  function CutAt(input: seq<Entry>, boundaries: seq<UserKey>, i: nat): nat
    requires Sorted(input) && i <= |boundaries| + 1
  {
    if i == 0 then 0 else SeekKey(input, EndOf(boundaries, i - 1), |input|)
  }

  predicate IsSliceOf(input: seq<Entry>, part: seq<Entry>, lo: nat, hi: nat) {
    lo <= hi <= |input| && part == input[lo..hi]
  }

  lemma PieceIsSlice(input: seq<Entry>, boundaries: seq<UserKey>, i: nat)
    requires Sorted(input) && StrictlyIncreasing(boundaries) && i <= |boundaries|
    ensures IsSliceOf(input, Piece(input, boundaries, i), CutAt(input, boundaries, i), CutAt(input, boundaries, i + 1))
  {
    var hi := SeekKey(input, EndOf(boundaries, i), |input|);
    if i > 0 {
      var bound := Some(boundaries[i - 1]);
      SeekKeyIsUnique(input, bound, 0, |input|);
      var lo := SeekKey(input, bound, 0);
      if i < |boundaries| {
        assert boundaries[i - 1] < boundaries[i];
        assert hi < |input| ==> boundaries[i] <= input[hi].key;
      }
    }
  }

  lemma PiecesAreCut(input: seq<Entry>, boundaries: seq<UserKey>)
    requires Sorted(input) && StrictlyIncreasing(boundaries)
    ensures AreCut(Pieces(input, boundaries), boundaries)
  {
    forall i | 0 <= i <= |boundaries|
      ensures KeysFrom(Piece(input, boundaries, i), StartOf(boundaries, i)) &&
        KeysBefore(Piece(input, boundaries, i), EndOf(boundaries, i))
    {
      PieceIsSlice(input, boundaries, i);
    }
  }

  /** The parts are neighbouring slices, cut at the given places. */
  ghost predicate AreSlices(input: seq<Entry>, parts: seq<seq<Entry>>, cuts: seq<nat>) {
    && |cuts| == |parts| + 1 && cuts[0] == 0
    && forall i {:trigger parts[i]} :: 0 <= i < |parts| ==> IsSliceOf(input, parts[i], cuts[i], cuts[i + 1])
  }

  lemma {:induction false} SlicesJoin(input: seq<Entry>, parts: seq<seq<Entry>>, cuts: seq<nat>, n: nat)
    requires AreSlices(input, parts, cuts) && n <= |parts|
    ensures cuts[n] <= |input| && Joined(parts, n) == input[..cuts[n]]
  {
    if n > 0 {
      SlicesJoin(input, parts, cuts, n - 1);
      assert IsSliceOf(input, parts[n - 1], cuts[n - 1], cuts[n]);
      assert input[..cuts[n]] == input[..cuts[n - 1]] + input[cuts[n - 1]..cuts[n]];
    }
  }

  lemma PiecesAreSlices(input: seq<Entry>, boundaries: seq<UserKey>) returns (cuts: seq<nat>)
    requires Sorted(input) && StrictlyIncreasing(boundaries)
    ensures AreSlices(input, Pieces(input, boundaries), cuts) && cuts[|boundaries| + 1] == |input|
  {
    cuts := seq(|boundaries| + 2, i requires 0 <= i < |boundaries| + 2 => CutAt(input, boundaries, i));
    var parts := Pieces(input, boundaries);
    forall i {:trigger parts[i]} | 0 <= i < |parts|
      ensures IsSliceOf(input, parts[i], cuts[i], cuts[i + 1])
    {
      PieceIsSlice(input, boundaries, i);
      assert parts[i] == Piece(input, boundaries, i);
    }
  }

  /** The pieces partition the input. */
  lemma PiecesJoinToInput(input: seq<Entry>, boundaries: seq<UserKey>)
    requires Sorted(input) && StrictlyIncreasing(boundaries)
    ensures Joined(Pieces(input, boundaries), |boundaries| + 1) == input
  {
    var cuts := PiecesAreSlices(input, boundaries);
    SlicesJoin(input, Pieces(input, boundaries), cuts, |boundaries| + 1);
  }

  // ---------------------------------------------------------------- running them

  /** outs holds what each piece compacts to. */
  ghost predicate AreOutputs(env: Env, parts: seq<seq<Entry>>, outs: seq<seq<Entry>>) {
    |outs| == |parts| && forall i :: 0 <= i < |parts| ==> IsOutput(env, parts[i], outs[i])
  }

  ghost predicate IsOutput(env: Env, part: seq<Entry>, out: seq<Entry>) {
    out == Compacted(env, part, |part|)
  }

  method RunSubcompaction(input: seq<Entry>, env: Env, boundaries: seq<UserKey>, i: nat) returns (out: seq<Entry>)
    requires ValidEnv(env) && ValidInput(input) && i <= |boundaries|
    ensures IsOutput(env, Piece(input, boundaries, i), out)
  {
    out := ProcessKeyValueCompaction(input, env, StartOf(boundaries, i), EndOf(boundaries, i));
  }

  /** Runs every subcompaction on the whole input, each within its range. */
  method RunSubcompactions(input: seq<Entry>, env: Env, boundaries: seq<UserKey>) returns (outs: seq<seq<Entry>>)
    requires ValidEnv(env) && ValidInput(input)
    ensures AreOutputs(env, Pieces(input, boundaries), outs)
  {
    outs := [];
    ghost var parts := Pieces(input, boundaries);
    for i := 0 to |boundaries| + 1
      invariant |outs| == i && forall j :: 0 <= j < i ==> IsOutput(env, parts[j], outs[j])
    {
      var out := RunSubcompaction(input, env, boundaries, i);
      outs := outs + [out];
    }
  }

  lemma {:induction false} JoinedIsBefore(parts: seq<seq<Entry>>, boundaries: seq<UserKey>, n: nat)
    requires AreCut(parts, boundaries) && StrictlyIncreasing(boundaries) && 0 < n <= |parts|
    ensures KeysBefore(Joined(parts, n), EndOf(boundaries, n - 1))
  {
    if n > 1 {
      JoinedIsBefore(parts, boundaries, n - 1);
      assert n - 1 < |boundaries| ==> boundaries[n - 2] < boundaries[n - 1];
    }
  }

  // ---------------------------------------------------------------- reads of split runs

  /** Everything the exact read theorem asks of an input. */
  ghost predicate Readable(env: Env, input: seq<Entry>, deeper: seq<Entry>, s: SeqNo) {
    ValidEnv(env) && ValidInput(input) && LayeredOn(env, input, deeper) && Protected(env, input, s)
  }

  lemma SliceIsReadable(env: Env, input: seq<Entry>, deeper: seq<Entry>, lo: nat, hi: nat, s: SeqNo)
    requires lo <= hi <= |input| && Readable(env, input, deeper, s)
    ensures Readable(env, input[lo..hi], deeper, s)
  {
    var r := input[lo..hi];
    forall i, j | 0 <= i < j < |r|
      ensures Precedes(r[i], r[j])
    {
      assert Precedes(input[lo + i], input[lo + j]);
    }
  }

  lemma SliceIsDisciplined(input: seq<Entry>, deeper: seq<Entry>, lo: nat, hi: nat, k: UserKey)
    requires lo <= hi <= |input| && Disciplined(input, deeper, k)
    requires hi < |input| ==> lo < hi ==> !NewerSame(input, hi)
    ensures Disciplined(input[lo..hi], deeper, k)
  {
    var r := input[lo..hi];
    if AlternatingKey(input, deeper, k) {
      forall i | 0 <= i < |r| && r[i].key == k && NewerSame(r, i)
        ensures r[i - 1].kind != r[i].kind
      {
        assert NewerSame(input, lo + i);
      }
      forall i, s | 0 <= i < |r| && r[i].key == k && r[i].kind.Put? && !OlderSame(r, i) && r[i].seqno <= s &&
        Newest(deeper, k, s).Some?
        ensures Newest(deeper, k, s).value.kind.SingleDeletion?
      {
        assert input[lo + i] == r[i] && !OlderSame(input, lo + i);
      }
    }
  }

  /** The piece whose range has the key. */
  lemma PieceOfKey(boundaries: seq<UserKey>, k: UserKey) returns (p: nat)
    requires StrictlyIncreasing(boundaries)
    ensures p <= |boundaries|
    ensures (forall i :: 0 <= i < p ==> boundaries[i] <= k) && forall i :: p <= i < |boundaries| ==> k < boundaries[i]
  {
    p := 0;
    while p < |boundaries| && boundaries[p] <= k
      invariant p <= |boundaries| && forall i :: 0 <= i < p ==> boundaries[i] <= k
    {
      p := p + 1;
    }
  }

  /** All versions of the key are in part p. */
  ghost predicate OnlyIn(parts: seq<seq<Entry>>, p: nat, k: UserKey) {
    p < |parts| && forall i, j :: 0 <= i < |parts| && 0 <= j < |parts[i]| && parts[i][j].key == k ==> i == p
  }

  lemma CutHasKeyOnce(parts: seq<seq<Entry>>, boundaries: seq<UserKey>, p: nat, k: UserKey)
    requires AreCut(parts, boundaries) && p <= |boundaries|
    requires (forall i :: 0 <= i < p ==> boundaries[i] <= k) && forall i :: p <= i < |boundaries| ==> k < boundaries[i]
    ensures OnlyIn(parts, p, k)
  {
    forall i, j | 0 <= i < |parts| && 0 <= j < |parts[i]| && parts[i][j].key == k
      ensures i == p
    {
      assert KeysFrom(parts[i], StartOf(boundaries, i)) && KeysBefore(parts[i], EndOf(boundaries, i));
    }
  }

  lemma OtherKeysAfter(a: seq<Entry>, b: seq<Entry>, k: UserKey, s: SeqNo)
    requires forall j :: 0 <= j < |b| ==> b[j].key != k
    ensures Versions(a + b, k, s) == Versions(a, k, s)
  {
    VersionsOfAppend(a, b, k, s);
    assert Newest(b, k, s).None?;
  }

  lemma OtherKeysBefore(a: seq<Entry>, b: seq<Entry>, k: UserKey, s: SeqNo)
    requires Versions(a, k, s) == []
    ensures Versions(a + b, k, s) == Versions(b, k, s)
  {
    VersionsOfAppend(a, b, k, s);
  }

  /** The versions of the key in the first n parts are those of part p, or there are none. */
  ghost predicate VersionsIn(parts: seq<seq<Entry>>, n: nat, p: nat, k: UserKey, s: SeqNo) {
    && n <= |parts| && p < |parts|
    && Versions(Joined(parts, n), k, s) == if p < n then Versions(parts[p], k, s) else []
  }

  lemma VersionsInNext(parts: seq<seq<Entry>>, n: nat, p: nat, k: UserKey, s: SeqNo)
    requires OnlyIn(parts, p, k) && n < |parts| && VersionsIn(parts, n, p, k, s)
    ensures VersionsIn(parts, n + 1, p, k, s)
  {
    if n == p {
      OtherKeysBefore(Joined(parts, n), parts[n], k, s);
    } else {
      OtherKeysAfter(Joined(parts, n), parts[n], k, s);
    }
  }

  lemma VersionsInNone(parts: seq<seq<Entry>>, p: nat, k: UserKey, s: SeqNo)
    requires p < |parts|
    ensures VersionsIn(parts, 0, p, k, s)
  {
  }

  lemma {:induction false} JoinedVersions(parts: seq<seq<Entry>>, n: nat, p: nat, k: UserKey, s: SeqNo)
    requires OnlyIn(parts, p, k) && n <= |parts|
    ensures VersionsIn(parts, n, p, k, s)
  {
    if n == 0 {
      VersionsInNone(parts, p, k, s);
    } else {
      JoinedVersions(parts, n - 1, p, k, s);
      VersionsInNext(parts, n - 1, p, k, s);
    }
  }

  /** A read of the joined parts is one of the part that has the key. */
  lemma JoinedRead(op: MergeOperator, parts: seq<seq<Entry>>, deeper: seq<Entry>, p: nat, k: UserKey, s: SeqNo)
    requires OnlyIn(parts, p, k)
    ensures Read(op, Joined(parts, |parts|) + deeper, k, s) == Read(op, parts[p] + deeper, k, s)
  {
    JoinedVersions(parts, |parts|, p, k, s);
    VersionsOfAppend(Joined(parts, |parts|), deeper, k, s);
    VersionsOfAppend(parts[p], deeper, k, s);
  }

  lemma OutputsAreCut(env: Env, parts: seq<seq<Entry>>, outs: seq<seq<Entry>>, boundaries: seq<UserKey>)
    requires AreCut(parts, boundaries) && AreOutputs(env, parts, outs)
    ensures AreCut(outs, boundaries)
  {
    forall i | 0 <= i < |outs|
      ensures KeysFrom(outs[i], StartOf(boundaries, i)) && KeysBefore(outs[i], EndOf(boundaries, i))
    {
      forall x | 0 <= x < |outs[i]|
        ensures exists j :: 0 <= j < |parts[i]| && parts[i][j].key == outs[i][x].key
      {
        var j := OutputComesFrom(env, parts[i], |parts[i]|, x);
      }
    }
  }

  /** In some piece a read of k at s finds a single deletion whose end uncovers a value. */
  ghost predicate ResurfacesIn(env: Env, parts: seq<seq<Entry>>, deeper: seq<Entry>, k: UserKey, s: SeqNo) {
    exists i :: 0 <= i < |parts| && Resurfaces(env, parts[i], deeper, k, s)
  }

  /** Split runs answer a key as the input did exactly when nothing resurfaces in the piece that has it. */
  lemma SplitReadsArePreservedExactly(
    op: MergeOperator, env: Env, input: seq<Entry>, deeper: seq<Entry>, boundaries: seq<UserKey>,
    outs: seq<seq<Entry>>, k: UserKey, s: SeqNo)
    requires Readable(env, input, deeper, s) && StrictlyIncreasing(boundaries)
    requires AreOutputs(env, Pieces(input, boundaries), outs)
    ensures Read(op, Joined(outs, |boundaries| + 1) + deeper, k, s) == Read(op, input + deeper, k, s) <==>
      !ResurfacesIn(env, Pieces(input, boundaries), deeper, k, s)
  {
    var parts := Pieces(input, boundaries);
    var p := PieceOfKey(boundaries, k);
    PiecesAreCut(input, boundaries);
    PiecesJoinToInput(input, boundaries);
    OutputsAreCut(env, parts, outs, boundaries);
    CutHasKeyOnce(parts, boundaries, p, k);
    CutHasKeyOnce(outs, boundaries, p, k);
    JoinedRead(op, parts, deeper, p, k, s);
    JoinedRead(op, outs, deeper, p, k, s);
    PieceIsSlice(input, boundaries, p);
    SliceIsReadable(env, input, deeper, CutAt(input, boundaries, p), CutAt(input, boundaries, p + 1), s);
    ReadsArePreservedExactly(op, env, parts[p], deeper, k, s);
    assert IsOutput(env, parts[p], outs[p]);
    assert forall i :: 0 <= i < |parts| && Resurfaces(env, parts[i], deeper, k, s) ==> i == p;
  }

  /** So splitting changes no read of a disciplined key. */
  lemma SplitReadsArePreserved(
    op: MergeOperator, env: Env, input: seq<Entry>, deeper: seq<Entry>, boundaries: seq<UserKey>,
    outs: seq<seq<Entry>>, k: UserKey, s: SeqNo)
    requires Readable(env, input, deeper, s) && Disciplined(input, deeper, k) && StrictlyIncreasing(boundaries)
    requires AreOutputs(env, Pieces(input, boundaries), outs)
    ensures Read(op, Joined(outs, |boundaries| + 1) + deeper, k, s) == Read(op, input + deeper, k, s)
  {
    var parts := Pieces(input, boundaries);
    forall i | 0 <= i < |parts|
      ensures !Resurfaces(env, parts[i], deeper, k, s)
    {
      PieceIsSlice(input, boundaries, i);
      SliceIsReadable(env, input, deeper, CutAt(input, boundaries, i), CutAt(input, boundaries, i + 1), s);
      SliceIsDisciplined(input, deeper, CutAt(input, boundaries, i), CutAt(input, boundaries, i + 1), k);
      DisciplinedStaysDown(env, parts[i], deeper, k, s);
    }
    SplitReadsArePreservedExactly(op, env, input, deeper, boundaries, outs, k, s);
  }
}
