/** Running a compaction, whole or split into key ranges. */
module CompactionJob {
  import opened Format
  import opened CompactionFiles
  import opened CompactionRules
  import opened CompactionSafety
  import opened CompactionOrder
  import opened CompactionIteratorImpl

  /** The first record at or after the bound; past the end when there is no bound. */
  function SeekKey(es: seq<Entry>, bound: Option<UserKey>, absent: nat): (i: nat)
    requires Sorted(es) && absent <= |es|
    ensures i <= |es|
    ensures bound.None? ==> i == absent
    ensures bound.Some? ==>
      && (forall j :: 0 <= j < i ==> es[j].key < bound.value)
      && (forall j :: i <= j < |es| ==> bound.value <= es[j].key)
  {
    if bound.None? then absent else FirstKeyFrom(es, bound.value, 0)
  }

  function FirstKeyFrom(es: seq<Entry>, k: UserKey, from: nat): (i: nat)
    requires Sorted(es) && from <= |es| && forall j :: 0 <= j < from ==> es[j].key < k
    ensures from <= i <= |es|
    ensures (forall j :: 0 <= j < i ==> es[j].key < k) && (forall j :: i <= j < |es| ==> k <= es[j].key)
    decreases |es| - from
  {
    if from == |es| then from
    else if k <= es[from].key then
      assert forall j :: from < j < |es| ==> Precedes(es[from], es[j]);
      from
    else FirstKeyFrom(es, k, from + 1)
  }

  /** Records with start <= key < end. */
  function InRange(es: seq<Entry>, start: Option<UserKey>, end: Option<UserKey>): (r: seq<Entry>)
    requires Sorted(es)
    ensures Sorted(r)
  {
    var lo, hi := SeekKey(es, start, 0), SeekKey(es, end, |es|);
    if lo <= hi then es[lo..hi] else []
  }

  // ---------------------------------------------------------------- locality

  /** A prefix that ends between two user keys is compacted as if the rest were not there. */
  lemma {:induction false} PrefixFates(env: Env, input: seq<Entry>, hi: nat, n: nat)
    requires n <= hi <= |input| && (hi < |input| ==> !NewerSame(input, hi))
    ensures Fates(env, input, n) == Fates(env, input[..hi], n)
  {
    if n > 0 {
      PrefixFates(env, input, hi, n - 1);
      var past := Fates(env, input, n - 1);
      assert Outputted(input, past, input[n - 1].key) <==> Outputted(input[..hi], past, input[n - 1].key);
    }
  }

  lemma {:induction false} PrefixCompacts(env: Env, input: seq<Entry>, hi: nat, n: nat)
    requires n <= hi <= |input| && (hi < |input| ==> !NewerSame(input, hi))
    ensures Compacted(env, input, n) == Compacted(env, input[..hi], n)
  {
    if n > 0 {
      PrefixCompacts(env, input, hi, n - 1);
      PrefixFates(env, input, hi, n);
      CompactsNext(env, input, n - 1);
      CompactsNext(env, input[..hi], n - 1);
    }
  }

  /** If nothing at or past the end was written, the records past it do not matter. */
  lemma {:induction false} CutAtEnd(env: Env, input: seq<Entry>, hi: nat, n: nat, end: UserKey)
    requires hi <= n <= |input| && (forall j :: hi <= j < |input| ==> end <= input[j].key)
    requires forall e :: e in Compacted(env, input, n) ==> e.key < end
    ensures Compacted(env, input, n) == Compacted(env, input, hi)
    decreases n
  {
    if hi < n {
      CompactsNext(env, input, n - 1);
      CutAtEnd(env, input, hi, n - 1, end);
    }
  }

  lemma {:induction false} SilenceSelects(env: Env, input: seq<Entry>, fs: seq<Fate>, m: nat, n: nat)
    requires m <= n <= |input| == |fs| && forall j :: m <= j < n ==> !fs[j].Emits()
    ensures Selected(env, input, fs, n) == Selected(env, input, fs, m)
    decreases n
  {
    if m < n {
      SilenceSelects(env, input, fs, m, n - 1);
    }
  }

  lemma WrittenSelects(env: Env, input: seq<Entry>, fs: seq<Fate>, n: nat, m: nat)
    requires n < m <= |input| == |fs| && fs[n].Emits() && forall j :: n < j < m ==> !fs[j].Emits()
    ensures Selected(env, input, fs, m) == Selected(env, input, fs, n) + [Rewritten(env, input[n], fs[n])]
  {
    SilenceSelects(env, input, fs, n + 1, m);
  }

  lemma SelectedIsCompacted(env: Env, input: seq<Entry>, fs: seq<Fate>, n: nat)
    requires AreFates(env, input, fs) && n <= |input|
    ensures Selected(env, input, fs, n) == Compacted(env, input, n)
  {
    FatesAreUnique(env, input, fs, n);
    SelectedAgree(env, input, fs, Fates(env, input, n), n);
  }

  // ---------------------------------------------------------------- the key-value loop

  /** Takes the record on offer and moves on to the next. */
  method TakeRecord(it: CompactionIterator) returns (e: Entry)
    requires it.valid && it.Ready()
    modifies it
    ensures it.Ready() && old(it.Written()) < it.Written() <= |it.input|
    ensures Selected(it.env, it.input, it.fates, it.Written()) ==
      Selected(it.env, it.input, it.fates, old(it.Written())) + [e]
    ensures e.key == old(it.currentUserKey)
  {
    ghost var n := it.Written();
    e := it.ikey;
    assert e == Rewritten(it.env, it.input[n], it.fates[n]) && it.fates[n].Emits();
    it.Next();
    WrittenSelects(it.env, it.input, it.fates, n, it.Written());
  }

  /** Runs the iterator until it is exhausted or its key reaches the end. */
  method Drain(it: CompactionIterator, end: Option<UserKey>) returns (out: seq<Entry>)
    requires it.Ready() && Selected(it.env, it.input, it.fates, it.Written()) == []
    modifies it
    ensures it.Ready() && out == Selected(it.env, it.input, it.fates, it.Written())
    ensures it.valid ==> end.Some? && end.value <= it.currentUserKey
    ensures end.Some? ==> forall e :: e in out ==> e.key < end.value
  {
    out := [];
    while it.valid && !(end.Some? && it.currentUserKey >= end.value)
      invariant it.Ready()
      invariant out == Selected(it.env, it.input, it.fates, it.Written())
      invariant end.Some? ==> forall e :: e in out ==> e.key < end.value
      decreases |it.input| - it.Written()
    {
      var e := TakeRecord(it);
      out := out + [e];
    }
  }

  /** Opens the iterator and moves it to the first record to write. */
  method OpenIterator(input: seq<Entry>, env: Env) returns (it: CompactionIterator)
    requires ValidEnv(env) && ValidInput(input)
    ensures fresh(it) && it.input == input && it.env == env
    ensures it.Ready() && Selected(env, input, it.fates, it.Written()) == []
  {
    it := new CompactionIterator(input, env);
    it.SeekToFirst();
    SilenceSelects(env, input, it.fates, 0, it.Written());
  }

  /** Opens the iterator on the input and drains it. */
  method CompactUpTo(input: seq<Entry>, env: Env, end: Option<UserKey>)
    returns (out: seq<Entry>, ghost n: nat, ghost fs: seq<Fate>)
    requires ValidEnv(env) && ValidInput(input)
    ensures n <= |input| && AreFates(env, input, fs) && out == Selected(env, input, fs, n)
    ensures n < |input| ==> end.Some? && end.value <= input[n].key
    ensures end.Some? ==> forall e :: e in out ==> e.key < end.value
  {
    var it := OpenIterator(input, env);
    out := Drain(it, end);
    n, fs := it.Written(), it.fates;
  }

  /** What was written before the end of the range is the compaction of the range alone. */
  lemma UpToEndIsRange(input: seq<Entry>, env: Env, start: Option<UserKey>, end: Option<UserKey>, n: nat)
    requires ValidInput(input)
    requires var tail := input[SeekKey(input, start, 0)..];
      && n <= |tail| && (n < |tail| ==> end.Some? && end.value <= tail[n].key)
      && (end.Some? ==> forall e :: e in Compacted(env, tail, n) ==> e.key < end.value)
    ensures Compacted(env, input[SeekKey(input, start, 0)..], n) ==
      Compacted(env, InRange(input, start, end), |InRange(input, start, end)|)
  {
    RangeIsPrefix(input, start, end);
    var tail, hi := input[SeekKey(input, start, 0)..], |InRange(input, start, end)|;
    if end.Some? {
      CutAtEnd(env, tail, hi, n, end.value);
    }
    PrefixCompacts(env, tail, hi, hi);
  }

  method ProcessKeyValueCompaction(input: seq<Entry>, env: Env, start: Option<UserKey>, end: Option<UserKey>)
    returns (out: seq<Entry>)
    requires ValidEnv(env) && ValidInput(input)
    ensures out == Compacted(env, InRange(input, start, end), |InRange(input, start, end)|)
  {
    var lo := SeekKey(input, start, 0);
    TailIsValid(input, lo);
    ghost var n, fs;
    out, n, fs := CompactUpTo(input[lo..], env, end);
    SelectedIsCompacted(env, input[lo..], fs, n);
    UpToEndIsRange(input, env, start, end, n);
  }

  /** A range is a prefix of the tail that starts it, and it ends between two user keys. */
  lemma RangeIsPrefix(input: seq<Entry>, start: Option<UserKey>, end: Option<UserKey>)
    requires ValidInput(input)
    ensures
      var lo, hi := SeekKey(input, start, 0), |InRange(input, start, end)|;
      && lo + hi <= |input|
      && InRange(input, start, end) == input[lo..][..hi]
      && (hi < |input[lo..]| ==> !NewerSame(input[lo..], hi))
      && (end.Some? ==> forall j :: hi <= j < |input[lo..]| ==> end.value <= input[lo..][j].key)
      && (end.None? ==> lo + hi == |input|)
      && (forall j :: 0 <= j < hi ==> end.Some? ==> input[lo..][j].key < end.value)
  {
  }

  lemma TailIsValid(input: seq<Entry>, lo: nat)
    requires ValidInput(input) && lo <= |input|
    ensures ValidInput(input[lo..])
  {
    forall i, j | 0 <= i < j < |input[lo..]|
      ensures Precedes(input[lo..][i], input[lo..][j])
    {
      assert Precedes(input[lo + i], input[lo + j]);
    }
  }
}
