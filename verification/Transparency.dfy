/** What compaction and iteration promise together: an iterator at a protected snapshot shows the same
    whether it walks the records before a compaction or those after it. */
module Transparency {
  import opened Format
  import opened CompactionFiles
  import opened CompactionRules
  import opened CompactionSafety
  import opened CompactionOrder
  import opened DBIterSpec
  import opened DBIterRuns

  // ---------------------------------------------------------------- reads do not depend on the layering

  /** The records of k appear newest first. */
  ghost predicate NewestFirst(es: seq<Entry>, k: UserKey) {
    forall i, j :: 0 <= i < j < |es| && es[i].key == k && es[j].key == k ==> es[i].seqno > es[j].seqno
  }

  ghost predicate Falling(vs: seq<Entry>) {
    forall i, j :: 0 <= i < j < |vs| ==> vs[i].seqno > vs[j].seqno
  }

  lemma {:induction false} VersionsHas(es: seq<Entry>, k: UserKey, s: SeqNo, e: Entry)
    ensures e in Versions(es, k, s) <==> e in es && Matches(e, k, s)
  {
    if es != [] {
      VersionsHas(es[1..], k, s, e);
      assert e in es <==> e == es[0] || e in es[1..];
    }
  }

  lemma {:induction false} VersionsFall(es: seq<Entry>, k: UserKey, s: SeqNo)
    requires NewestFirst(es, k)
    ensures Falling(Versions(es, k, s))
  {
    if es != [] {
      var rest := es[1..];
      assert NewestFirst(rest, k) by {
        assert forall i :: 0 <= i < |rest| ==> rest[i] == es[i + 1];
      }
      VersionsFall(rest, k, s);
      var vs := Versions(rest, k, s);
      if Matches(es[0], k, s) {
        forall j | 0 <= j < |vs|
          ensures es[0].seqno > vs[j].seqno
        {
          VersionsHas(rest, k, s, vs[j]);
          var x :| 0 <= x < |rest| && rest[x] == vs[j];
          assert es[x + 1] == vs[j];
        }
      }
    }
  }

  lemma {:induction false} FallingIsUnique(a: seq<Entry>, b: seq<Entry>)
    requires Falling(a) && Falling(b) && forall e :: e in a <==> e in b
    ensures a == b
  {
    if b != [] {
      assert b[0] in b;
    }
    if a != [] {
      assert a[0] in b && b[0] in a;
      assert a[0] == b[0];
      FallingTails(a, b);
      FallingIsUnique(a[1..], b[1..]);
    }
  }

  lemma FallingTails(a: seq<Entry>, b: seq<Entry>)
    requires Falling(a) && Falling(b) && (forall e :: e in a <==> e in b) && a != [] && b != [] && a[0] == b[0]
    ensures Falling(a[1..]) && Falling(b[1..]) && forall e :: e in a[1..] <==> e in b[1..]
  {
    forall e
      ensures e in a[1..] <==> e in b[1..]
    {
      assert e in a[1..] <==> e in a && e != a[0];
      assert e in b[1..] <==> e in b && e != b[0];
    }
  }

  /** Two streams with the same records have the same versions, if both keep them in order. */
  lemma SameRecordsSameVersions(a: seq<Entry>, b: seq<Entry>, k: UserKey, s: SeqNo)
    requires NewestFirst(a, k) && NewestFirst(b, k) && forall e :: e in a <==> e in b
    ensures Versions(a, k, s) == Versions(b, k, s)
  {
    VersionsFall(a, k, s);
    VersionsFall(b, k, s);
    forall e
      ensures e in Versions(a, k, s) <==> e in Versions(b, k, s)
    {
      VersionsHas(a, k, s, e);
      VersionsHas(b, k, s, e);
    }
    FallingIsUnique(Versions(a, k, s), Versions(b, k, s));
  }

  // ---------------------------------------------------------------- what versions mean to a reader

  /** The operands and what they rest on; without operands, the base alone is the answer. */
  ghost predicate SameMeaning(a: seq<Entry>, b: seq<Entry>) {
    Operands(a) == Operands(b) && BaseValue(a) == BaseValue(b)
  }

  lemma ResolveIsMeaning(op: MergeOperator, k: UserKey, vs: seq<Entry>)
    ensures Resolve(op, k, vs) ==
      if Operands(vs) == [] then BaseValue(vs) else Some(op(k, BaseValue(vs), Operands(vs)))
  {
  }

  /** Newer versions on top leave the same meaning the same. */
  lemma {:induction false} MeaningOnTop(top: seq<Entry>, a: seq<Entry>, b: seq<Entry>)
    requires SameMeaning(a, b)
    ensures SameMeaning(top + a, top + b)
  {
    if top == [] {
      assert top + a == a && top + b == b;
    } else {
      MeaningOnTop(top[1..], a, b);
      assert (top + a)[1..] == top[1..] + a && (top + b)[1..] == top[1..] + b;
    }
  }

  function ValueOr(v: Option<Value>): Value {
    if v.Some? then v.value else ""
  }

  /** A merge operator that tells one meaning from all others, and from two plain values. */
  function Telling(base: Option<Value>, operands: seq<Value>, pad: Value): MergeOperator {
    (k: UserKey, b: Option<Value>, o: seq<Value>) => if b == base && o == operands then pad + "x" else pad + "xx"
  }

  function TellingOf(a: seq<Entry>, b: seq<Entry>): MergeOperator {
    Telling(BaseValue(a), Operands(a), ValueOr(BaseValue(a)) + ValueOr(BaseValue(b)))
  }

  /** Versions that are read alike under that operator mean the same. */
  lemma ReadTellsMeaning(k: UserKey, a: seq<Entry>, b: seq<Entry>)
    requires Resolve(TellingOf(a, b), k, a) == Resolve(TellingOf(a, b), k, b)
    ensures SameMeaning(a, b)
  {
    var pad := ValueOr(BaseValue(a)) + ValueOr(BaseValue(b));
    assert |pad + "x"| == |pad| + 1 && |pad + "xx"| == |pad| + 2;
    ResolveIsMeaning(TellingOf(a, b), k, a);
    ResolveIsMeaning(TellingOf(a, b), k, b);
  }

  // ---------------------------------------------------------------- before and after a compaction

  /** Records of the lower stream are older than records of the upper stream with the same key. */
  ghost predicate Above(upper: seq<Entry>, lower: seq<Entry>) {
    forall i, j :: 0 <= i < |upper| && 0 <= j < |lower| && upper[i].key == lower[j].key ==>
      upper[i].seqno > lower[j].seqno
  }

  lemma StackIsNewestFirst(upper: seq<Entry>, lower: seq<Entry>, k: UserKey)
    requires Sorted(upper) && Sorted(lower) && Above(upper, lower)
    ensures NewestFirst(upper + lower, k)
  {
    var es, n := upper + lower, |upper|;
    forall i, j | 0 <= i < j < |es| && es[i].key == k && es[j].key == k
      ensures es[i].seqno > es[j].seqno
    {
      if j < n {
        assert Precedes(upper[i], upper[j]);
      } else if i >= n {
        assert Precedes(lower[i - n], lower[j - n]);
      } else {
        assert es[i] == upper[i] && es[j] == lower[j - n];
      }
    }
  }

  lemma SortedIsNewestFirst(es: seq<Entry>, k: UserKey)
    requires Sorted(es)
    ensures NewestFirst(es, k)
  {
    forall i, j | 0 <= i < j < |es| && es[i].key == k && es[j].key == k
      ensures es[i].seqno > es[j].seqno
    {
      assert Precedes(es[i], es[j]);
    }
  }

  /** A key that a bottommost compaction covers is nowhere deeper. */
  lemma ZeroedHasNothingBelow(env: Env, input: seq<Entry>, deeper: seq<Entry>, i: nat, e: Entry)
    requires LayeredOn(env, input, deeper) && i < |input| && Zeroed(env, input[i]) && e in deeper
    ensures e.key != input[i].key
  {
    var c := env.compaction.value;
    BottommostImpliesNotExists(c, input[i].key);
    var f :| Older(c.outputLevel, c.levels, c.inputs, f) && f.Contains(e.key);
    NotExistsIsSound(c, input[i].key, f);
  }

  lemma OutputIsAbove(env: Env, input: seq<Entry>, deeper: seq<Entry>)
    requires LayeredOn(env, input, deeper)
    ensures Above(Compacted(env, input, |input|), deeper)
  {
    var out := Compacted(env, input, |input|);
    forall x, j | 0 <= x < |out| && 0 <= j < |deeper| && out[x].key == deeper[j].key
      ensures out[x].seqno > deeper[j].seqno
    {
      var i := OutputComesFrom(env, input, |input|, x);
      assert deeper[j] in deeper;
      if Zeroed(env, input[i]) {
        ZeroedHasNothingBelow(env, input, deeper, i, deeper[j]);
      }
    }
  }

  /** es is the sorted stream of the records of a and b, as a merging iterator delivers it. */
  ghost predicate IsMerged(es: seq<Entry>, a: seq<Entry>, b: seq<Entry>) {
    Sorted(es) && forall e :: e in es <==> e in a || e in b
  }

  lemma MergedIsStack(es: seq<Entry>, a: seq<Entry>, b: seq<Entry>, k: UserKey, s: SeqNo)
    requires IsMerged(es, a, b) && Sorted(a) && Sorted(b) && Above(a, b)
    ensures Versions(es, k, s) == Versions(a + b, k, s)
  {
    SortedIsNewestFirst(es, k);
    StackIsNewestFirst(a, b, k);
    SameRecordsSameVersions(es, a + b, k, s);
  }

  /** A compaction and the streams before and after it. */
  ghost predicate IsCompaction(env: Env, input: seq<Entry>, deeper: seq<Entry>, before: seq<Entry>, after: seq<Entry>) {
    && ValidEnv(env) && ValidInput(input) && Sorted(deeper) && LayeredOn(env, input, deeper)
    && IsMerged(before, input, deeper)
    && IsMerged(after, Compacted(env, input, |input|), deeper)
  }

  lemma BeforeAndAfter(env: Env, input: seq<Entry>, deeper: seq<Entry>, before: seq<Entry>, after: seq<Entry>,
          k: UserKey, s: SeqNo)
    requires IsCompaction(env, input, deeper, before, after)
    ensures Versions(before, k, s) == Versions(input + deeper, k, s)
    ensures Versions(after, k, s) == Versions(Compacted(env, input, |input|) + deeper, k, s)
  {
    assert Above(input, deeper) by {
      assert forall j :: 0 <= j < |deeper| ==> deeper[j] in deeper;
    }
    MergedIsStack(before, input, deeper, k, s);
    OutputIsSorted(env, input);
    OutputIsAbove(env, input, deeper);
    MergedIsStack(after, Compacted(env, input, |input|), deeper, k, s);
  }

  /** The versions of a key mean after the compaction what they meant before, exactly when nothing of it
      resurfaces. */
  lemma MeaningIsPreserved(env: Env, input: seq<Entry>, deeper: seq<Entry>, before: seq<Entry>, after: seq<Entry>,
          k: UserKey, s: SeqNo)
    requires IsCompaction(env, input, deeper, before, after) && Protected(env, input, s)
    ensures SameMeaning(Versions(before, k, s), Versions(after, k, s)) <==> !Resurfaces(env, input, deeper, k, s)
  {
    var a, b := Versions(before, k, s), Versions(after, k, s);
    var op := TellingOf(a, b);
    BeforeAndAfter(env, input, deeper, before, after, k, s);
    ReadsArePreservedExactly(op, env, input, deeper, k, s);
    if Resurfaces(env, input, deeper, k, s) {
      ResolveIsMeaning(op, k, a);
      ResolveIsMeaning(op, k, b);
    } else {
      ReadTellsMeaning(k, a, b);
    }
  }

  // ---------------------------------------------------------------- with newer records on top

  /** The streams an iterator runs over: newer records above those before and after the compaction. */
  ghost predicate IsTopped(newer: seq<Entry>, before: seq<Entry>, after: seq<Entry>, all: seq<Entry>,
          all': seq<Entry>) {
    && Sorted(newer) && Above(newer, before)
    && IsMerged(all, newer, before) && IsMerged(all', newer, after)
  }

  lemma NewerIsAbove(newer: seq<Entry>, env: Env, input: seq<Entry>, deeper: seq<Entry>, before: seq<Entry>,
          after: seq<Entry>)
    requires IsCompaction(env, input, deeper, before, after) && Above(newer, before)
    ensures Above(newer, after)
  {
    var out := Compacted(env, input, |input|);
    forall i, j | 0 <= i < |newer| && 0 <= j < |after| && newer[i].key == after[j].key
      ensures newer[i].seqno > after[j].seqno
    {
      assert after[j] in after;
      if after[j] in deeper {
        assert after[j] in before;
      } else {
        var x :| 0 <= x < |out| && out[x] == after[j];
        var n := OutputComesFrom(env, input, |input|, x);
        assert input[n] in before;
      }
    }
  }

  lemma ToppedVersions(newer: seq<Entry>, es: seq<Entry>, all: seq<Entry>, k: UserKey, s: SeqNo)
    requires Sorted(newer) && Sorted(es) && Above(newer, es) && IsMerged(all, newer, es)
    ensures Versions(all, k, s) == Versions(newer, k, s) + Versions(es, k, s)
  {
    MergedIsStack(all, newer, es, k, s);
    VersionsOfAppend(newer, es, k, s);
  }

  /** Whatever was written since, the merged stream after the compaction answers a key of which nothing
      resurfaces as the one before. */
  lemma MergedReadsArePreserved(
    op: MergeOperator, env: Env, input: seq<Entry>, deeper: seq<Entry>, before: seq<Entry>, after: seq<Entry>,
    newer: seq<Entry>, all: seq<Entry>, all': seq<Entry>, k: UserKey, s: SeqNo)
    requires IsCompaction(env, input, deeper, before, after) && IsTopped(newer, before, after, all, all')
    requires Protected(env, input, s) && !Resurfaces(env, input, deeper, k, s)
    ensures Read(op, all, k, s) == Read(op, all', k, s)
  {
    NewerIsAbove(newer, env, input, deeper, before, after);
    ToppedVersions(newer, before, all, k, s);
    ToppedVersions(newer, after, all', k, s);
    MeaningIsPreserved(env, input, deeper, before, after, k, s);
    MeaningOnTop(Versions(newer, k, s), Versions(before, k, s), Versions(after, k, s));
    ResolveIsMeaning(op, k, Versions(all, k, s));
    ResolveIsMeaning(op, k, Versions(all', k, s));
  }

  // ---------------------------------------------------------------- the iterator can still be used

  lemma LastOfFirst(vs: seq<Entry>)
    requires vs != [] && !vs[0].kind.Merge?
    ensures LastNotMerge(vs) == vs[0].kind
  {
  }

  /** A key whose operands rest on a single deletion after the compaction had them do so before. */
  lemma SingleDeletionWasThere(env: Env, input: seq<Entry>, deeper: seq<Entry>, k: UserKey, s: SeqNo)
    requires ValidEnv(env) && ValidInput(input) && LayeredOn(env, input, deeper)
    requires Protected(env, input, s)
    requires LastNotMerge(Versions(Compacted(env, input, |input|) + deeper, k, s)).SingleDeletion?
    ensures LastNotMerge(Versions(input + deeper, k, s)).SingleDeletion?
  {
    var out := Compacted(env, input, |input|);
    VersionsOfAppend(input, deeper, k, s);
    VersionsOfAppend(out, deeper, k, s);
    var i := FindNewest(input, k, s);
    if i == |input| {
      NothingEmitted(env, input, |input|, k, s);
    } else {
      LastOfFirst(Versions(input + deeper, k, s));
      if input[i].kind.Put? {
        NewestPutIsKept(env, input, i, k, s);
        FirstEmitted(env, input, |input|, i, k, s);
      } else if input[i].kind.Deletion? {
        DeletionLeavesNone(env, input, deeper, i, k, s);
      }
    }
  }

  lemma DeletionLeavesNone(env: Env, input: seq<Entry>, deeper: seq<Entry>, i: nat, k: UserKey, s: SeqNo)
    requires ValidEnv(env) && ValidInput(input) && LayeredOn(env, input, deeper)
    requires Protected(env, input, s)
    requires IsNewest(input, i, k, s) && input[i].kind.Deletion?
    ensures !LastNotMerge(Versions(Compacted(env, input, |input|) + deeper, k, s)).SingleDeletion?
  {
    var out := Compacted(env, input, |input|);
    VersionsOfAppend(out, deeper, k, s);
    NewestDeletionFate(env, input, i, k, s);
    if FateOf(env, input, i).Kept? {
      FirstEmitted(env, input, |input|, i, k, s);
    } else {
      ObsoleteSilences(env, input, i, k, s);
      NothingEmitted(env, input, |input|, k, s);
      NoDeeperVersion(env, input, deeper, i, s);
    }
  }

  lemma {:induction false} LastOnTop(top: seq<Entry>, rest: seq<Entry>)
    ensures LastNotMerge(top + rest) == if AllMerges(top) then LastNotMerge(rest) else LastNotMerge(top)
  {
    if top == [] {
      assert top + rest == rest;
    } else {
      LastOnTop(top[1..], rest);
      assert (top + rest)[1..] == top[1..] + rest;
      assert AllMerges(top) <==> top[0].kind.Merge? && AllMerges(top[1..]);
    }
  }

  lemma StillUsable(env: Env, input: seq<Entry>, deeper: seq<Entry>, before: seq<Entry>, after: seq<Entry>,
          newer: seq<Entry>, all: seq<Entry>, all': seq<Entry>, k: UserKey, s: SeqNo)
    requires IsCompaction(env, input, deeper, before, after) && IsTopped(newer, before, after, all, all')
    requires Protected(env, input, s) && !Resurfaces(env, input, deeper, k, s)
    requires RestsOnSingleDeletion(Versions(all', k, s))
    ensures RestsOnSingleDeletion(Versions(all, k, s))
  {
    NewerIsAbove(newer, env, input, deeper, before, after);
    ToppedVersions(newer, before, all, k, s);
    ToppedVersions(newer, after, all', k, s);
    BeforeAndAfter(env, input, deeper, before, after, k, s);
    LastOnTop(Versions(newer, k, s), Versions(before, k, s));
    LastOnTop(Versions(newer, k, s), Versions(after, k, s));
    if LastNotMerge(Versions(after, k, s)).SingleDeletion? {
      SingleDeletionWasThere(env, input, deeper, k, s);
    }
    MeaningIsPreserved(env, input, deeper, before, after, k, s);
    MeaningOnTop(Versions(newer, k, s), Versions(before, k, s), Versions(after, k, s));
    OperandsOfMerge(Versions(all, k, s));
    OperandsOfMerge(Versions(all', k, s));
  }

  lemma OperandsOfMerge(vs: seq<Entry>)
    ensures Operands(vs) != [] <==> vs != [] && vs[0].kind.Merge?
  {
  }

  /** What a compaction writes is no deletion with number 0, and within the range of numbers. */
  lemma RecordsStayUsable(env: Env, input: seq<Entry>, deeper: seq<Entry>, before: seq<Entry>, after: seq<Entry>,
          newer: seq<Entry>, all: seq<Entry>, all': seq<Entry>, e: Entry)
    requires IsCompaction(env, input, deeper, before, after) && IsTopped(newer, before, after, all, all')
    requires e in all'
    ensures e in all || exists b ::
      b in all && e.seqno <= b.seqno && e.kind == b.kind && (e.seqno == b.seqno || b.kind.Put?)
  {
    var out := Compacted(env, input, |input|);
    if e !in newer && e !in deeper {
      assert e in after && e in out;
      var x :| 0 <= x < |out| && out[x] == e;
      var n := OutputComesFrom(env, input, |input|, x);
      assert input[n] in before && input[n] in all;
      if Zeroed(env, input[n]) {
        TombstonesAreNotZeroed(env, input, n);
      }
    } else {
      assert e in all;
    }
  }

  /** The records before and after the compaction, as an iterator at a protected snapshot sees them. */
  ghost predicate AreViews(env: Env, input: seq<Entry>, deeper: seq<Entry>, before: seq<Entry>, after: seq<Entry>,
    newer: seq<Entry>, view: View, view': View)
  {
    && IsCompaction(env, input, deeper, before, after) && IsTopped(newer, before, after, view.es, view'.es)
    && view.op == view'.op && view.upperBound == view'.upperBound && view.sequence == view'.sequence
    && Protected(env, input, view.sequence) && forall k :: !Resurfaces(env, input, deeper, k, view.sequence)
  }

  /** An iterator that may be used before the compaction may be used after it. */
  lemma UsableStays(env: Env, input: seq<Entry>, deeper: seq<Entry>, before: seq<Entry>, after: seq<Entry>,
          newer: seq<Entry>, view: View, view': View, maxSkip: nat)
    requires AreViews(env, input, deeper, before, after, newer, view, view') && Usable(view, maxSkip)
    ensures Usable(view', maxSkip)
  {
    forall i | 0 <= i < |view'.es|
      ensures view'.es[i].seqno <= MAX_SEQ
      ensures maxSkip > 0 || !(view'.es[i].seqno == 0 && view'.es[i].kind.Deletion?)
    {
      RecordsStayUsable(env, input, deeper, before, after, newer, view.es, view'.es, view'.es[i]);
    }
    forall k
      ensures !RestsOnSingleDeletion(Versions(view'.es, k, view.sequence))
    {
      if RestsOnSingleDeletion(Versions(view'.es, k, view.sequence)) {
        StillUsable(env, input, deeper, before, after, newer, view.es, view'.es, k, view.sequence);
      }
    }
  }

  // ---------------------------------------------------------------- what an iterator notices

  ghost predicate SameAnswers(a: View, b: View) {
    a.upperBound == b.upperBound && forall k :: a.ReadAt(k) == b.ReadAt(k)
  }

  lemma SameMoves(a: View, b: View, op: Op, cur: Option<Pair>, next: Option<Pair>)
    requires SameAnswers(a, b) && Moves(a, op, cur, next)
    ensures Moves(b, op, cur, next)
  {
    assert forall k :: a.Live(k) == b.Live(k) && a.InBound(k) == b.InBound(k);
  }

  /** Whatever calls a program makes on an iterator at a protected snapshot, it sees the same keys and
      values on the records before the compaction and on those after it. */
  lemma CompactionIsInvisible(env: Env, input: seq<Entry>, deeper: seq<Entry>, before: seq<Entry>, after: seq<Entry>,
          newer: seq<Entry>, view: View, view': View, ops: seq<Op>, seen: seq<Option<Pair>>, seen': seq<Option<Pair>>)
    requires AreViews(env, input, deeper, before, after, newer, view, view')
    requires IsTrace(view, ops, seen) && IsTrace(view', ops, seen')
    ensures seen == seen'
  {
    forall k
      ensures view.ReadAt(k) == view'.ReadAt(k)
    {
      MergedReadsArePreserved(view.op, env, input, deeper, before, after, newer, view.es, view'.es, k, view.sequence);
    }
    forall i | 0 <= i < |ops|
      ensures Moves(view', ops[i], seen[i], seen[i + 1])
    {
      SameMoves(view, view', ops[i], seen[i], seen[i + 1]);
    }
    forall n | 0 <= n <= |ops|
      ensures seen[n] == seen'[n]
    {
      TraceIsDetermined(view', ops, seen, seen', n);
    }
  }

  /** A seek to a key tells two views apart that answer it differently. */
  lemma DifferenceIsSeen(a: View, b: View, k: UserKey,
          cur: Option<Pair>, next: Option<Pair>, cur': Option<Pair>, next': Option<Pair>)
    requires a.upperBound == b.upperBound && a.InBound(k) && a.ReadAt(k) != b.ReadAt(k)
    requires Moves(a, OpSeek(k), cur, next) && Moves(b, OpSeek(k), cur', next')
    ensures next != next'
  {
    assert a.Live(k) ==> next.Some? && next.value.key == k;
    assert b.Live(k) ==> next'.Some? && next'.value.key == k;
  }

  /** The condition is needed: what resurfaces is found by a seek, unless newer records cover it. */
  lemma ResurfacedIsSeen(env: Env, input: seq<Entry>, deeper: seq<Entry>, view: View, view': View, k: UserKey,
          seen: seq<Option<Pair>>, seen': seq<Option<Pair>>)
    requires IsCompaction(env, input, deeper, view.es, view'.es) && Protected(env, input, view.sequence)
    requires view.op == view'.op && view.upperBound == view'.upperBound && view.sequence == view'.sequence
    requires Resurfaces(env, input, deeper, k, view.sequence) && view.InBound(k)
    requires IsTrace(view, [OpSeek(k)], seen) && IsTrace(view', [OpSeek(k)], seen')
    ensures seen != seen'
  {
    var s := view.sequence;
    BeforeAndAfter(env, input, deeper, view.es, view'.es, k, s);
    ReadsArePreservedExactly(view.op, env, input, deeper, k, s);
    DifferenceIsSeen(view, view', k, seen[0], seen[1], seen'[0], seen'[1]);
  }

  /** Two iterators given the same calls, one before and one after a compaction. */
  method ReplayBoth(ghost env: Env, ghost input: seq<Entry>, ghost deeper: seq<Entry>, ghost before: seq<Entry>,
          ghost after: seq<Entry>, ghost newer: seq<Entry>, view: View, view': View, maxSkip: nat, ops: seq<Op>)
    returns (seen: seq<Option<Pair>>, seen': seq<Option<Pair>>)
    requires AreViews(env, input, deeper, before, after, newer, view, view') && Usable(view, maxSkip)
    ensures IsTrace(view, ops, seen) && seen == seen'
  {
    UsableStays(env, input, deeper, before, after, newer, view, view', maxSkip);
    seen := Replay(view, maxSkip, ops);
    seen' := Replay(view', maxSkip, ops);
    CompactionIsInvisible(env, input, deeper, before, after, newer, view, view', ops, seen, seen');
  }
}
