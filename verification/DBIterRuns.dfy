/** Whole runs of a database iterator: listings in both directions, and any mix of operations. */
module DBIterRuns {
  import opened Format
  import opened DBIterSpec
  import opened DBIterImpl

  datatype Pair = Pair(key: UserKey, value: Value)

  ghost predicate Ascending(ps: seq<Pair>) {
    forall i, j :: 0 <= i < j < |ps| ==> ps[i].key < ps[j].key
  }

  /** p is a visible key within the bound, with its value. */
  ghost predicate Shown(view: View, p: Pair) {
    view.InBound(p.key) && view.ReadAt(p.key) == Some(p.value)
  }

  /** ps lists the visible map in key order. */
  ghost predicate IsListing(view: View, ps: seq<Pair>) {
    Ascending(ps) && forall p :: p in ps <==> Shown(view, p)
  }

  // ---------------------------------------------------------------- listings are unique

  lemma {:induction false} SameElementsSameList(a: seq<Pair>, b: seq<Pair>)
    requires Ascending(a) && Ascending(b) && forall p :: p in a <==> p in b
    ensures a == b
  {
    if b != [] {
      assert b[0] in b;
    }
    if a != [] {
      assert a[0] in b;
      assert b[0] in a;
      assert a[0] == b[0];
      TailElements(a, b);
      SameElementsSameList(a[1..], b[1..]);
    }
  }

  lemma TailElements(a: seq<Pair>, b: seq<Pair>)
    requires Ascending(a) && Ascending(b) && forall p :: p in a <==> p in b
    requires a != [] && b != [] && a[0] == b[0]
    ensures Ascending(a[1..]) && Ascending(b[1..]) && forall p :: p in a[1..] <==> p in b[1..]
  {
    forall p
      ensures p in a[1..] <==> p in b[1..]
    {
      assert p in a[1..] <==> p in a && p != a[0];
      assert p in b[1..] <==> p in b && p != b[0];
    }
  }

  /** A view has one listing, whatever iterator produced it. */
  lemma ListingIsUnique(view: View, a: seq<Pair>, b: seq<Pair>)
    requires IsListing(view, a) && IsListing(view, b)
    ensures a == b
  {
    SameElementsSameList(a, b);
  }

  // ---------------------------------------------------------------- listings by iterator

  /** ps lists the visible keys up to k. */
  ghost predicate ListedUpTo(view: View, ps: seq<Pair>, k: UserKey) {
    Ascending(ps) && forall p :: p in ps <==> Shown(view, p) && p.key <= k
  }

  method ListForward(view: View, maxSkip: nat) returns (ps: seq<Pair>)
    requires Usable(view, maxSkip)
    ensures IsListing(view, ps)
  {
    var it := new DBIter(view, maxSkip);
    it.SeekToFirst();
    ps := [];
    if it.valid {
      FirstListed(view, it.savedKey);
    } else {
      NoneListed(view);
    }
    while it.valid
      invariant it.Inv() && it.view == view
      invariant if it.valid then ListedUpTo(view, ps, it.savedKey - 1) else IsListing(view, ps)
      decreases it.valid, |view.es| - (if it.valid then After(view.es, it.savedKey) else 0)
    {
      var v := it.CurrentValue();
      var k := it.Key();
      ExtendListing(view, ps, k, v);
      ps := ps + [Pair(k, v)];
      it.Next();
      if it.valid {
        NextListed(view, ps, k, it.savedKey);
        AfterGrows(view, k, it.savedKey);
      } else {
        AllListed(view, ps, k);
      }
    }
  }

  lemma FirstListed(view: View, k: UserKey)
    requires view.IsFirst(k)
    ensures ListedUpTo(view, [], k - 1)
  {
    forall p
      ensures !(Shown(view, p) && p.key <= k - 1)
    {
      if p.key < k {
        assert !view.Live(p.key);
      }
    }
  }

  lemma NoneListed(view: View)
    requires view.IsEmpty()
    ensures IsListing(view, [])
  {
    forall p
      ensures !Shown(view, p)
    {
      if view.InBound(p.key) {
        assert !view.Live(p.key);
      }
    }
  }

  lemma ExtendListing(view: View, ps: seq<Pair>, k: UserKey, v: Value)
    requires ListedUpTo(view, ps, k - 1) && Shown(view, Pair(k, v))
    ensures ListedUpTo(view, ps + [Pair(k, v)], k)
  {
    var qs := ps + [Pair(k, v)];
    forall i | 0 <= i < |ps|
      ensures ps[i].key < k
    {
      assert ps[i] in ps;
    }
    forall p
      ensures p in qs <==> Shown(view, p) && p.key <= k
    {
    }
  }

  lemma NextListed(view: View, ps: seq<Pair>, k: UserKey, k': UserKey)
    requires ListedUpTo(view, ps, k) && view.IsLeast(k', k + 1)
    ensures ListedUpTo(view, ps, k' - 1)
  {
    forall p
      ensures Shown(view, p) && p.key <= k' - 1 ==> p.key <= k
    {
      if Shown(view, p) && k < p.key < k' {
        assert view.Live(p.key);
      }
    }
  }

  lemma AllListed(view: View, ps: seq<Pair>, k: UserKey)
    requires ListedUpTo(view, ps, k) && view.NoneFrom(k + 1)
    ensures IsListing(view, ps)
  {
    forall p
      ensures Shown(view, p) ==> p.key <= k
    {
      if Shown(view, p) && k < p.key {
        assert view.Live(p.key);
      }
    }
  }

  lemma AfterGrows(view: View, k: UserKey, k': UserKey)
    requires Sorted(view.es) && k < k' && view.Live(k')
    ensures After(view.es, k) < After(view.es, k')
  {
    ReadAtNewest(view.op, view.es, k', view.sequence);
    assert NewestPos(view.es, k', view.sequence) < After(view.es, k');
  }

  function Reversed(ps: seq<Pair>): seq<Pair> {
    if ps == [] then [] else [ps[|ps| - 1]] + Reversed(ps[..|ps| - 1])
  }

  lemma ReversedAppend(ps: seq<Pair>, p: Pair)
    ensures Reversed(ps + [p]) == [p] + Reversed(ps)
  {
    assert (ps + [p])[..|ps|] == ps;
  }

  /** ps lists the visible keys from k on. */
  ghost predicate ListedFrom(view: View, ps: seq<Pair>, k: UserKey) {
    Ascending(ps) && forall p :: p in ps <==> Shown(view, p) && k <= p.key
  }

  lemma PrependListing(view: View, ps: seq<Pair>, k: UserKey, v: Value)
    requires ListedFrom(view, ps, k + 1) && Shown(view, Pair(k, v))
    ensures ListedFrom(view, [Pair(k, v)] + ps, k)
  {
    var qs := [Pair(k, v)] + ps;
    forall i | 0 <= i < |ps|
      ensures k < ps[i].key
    {
      assert ps[i] in ps;
    }
    forall p
      ensures p in qs <==> Shown(view, p) && k <= p.key
    {
    }
  }

  lemma LastListed(view: View, k: UserKey)
    requires view.IsGreatest(k, view.upperBound)
    ensures ListedFrom(view, [], k + 1)
  {
    forall p
      ensures !(Shown(view, p) && k + 1 <= p.key)
    {
      if k < p.key && view.InBound(p.key) {
        assert !view.Live(p.key);
      }
    }
  }

  lemma PrevListed(view: View, ps: seq<Pair>, k: UserKey, k': UserKey)
    requires ListedFrom(view, ps, k) && view.IsGreatest(k', Some(k))
    ensures ListedFrom(view, ps, k' + 1)
  {
    forall p
      ensures Shown(view, p) && k' + 1 <= p.key ==> k <= p.key
    {
      if Shown(view, p) && k' < p.key < k {
        assert view.Live(p.key);
      }
    }
  }

  lemma AllListedDown(view: View, ps: seq<Pair>, k: UserKey)
    requires ListedFrom(view, ps, k) && view.NoneBelow(Some(k))
    ensures IsListing(view, ps)
  {
    forall p
      ensures Shown(view, p) ==> k <= p.key
    {
      if Shown(view, p) && p.key < k {
        assert view.Live(p.key);
      }
    }
  }

  lemma EmptyBelowBound(view: View)
    requires view.NoneBelow(view.upperBound)
    ensures view.IsEmpty()
  {
  }

  /** Walking back from the end yields the listing in reverse. */
  method ListBackward(view: View, maxSkip: nat) returns (ps: seq<Pair>)
    requires Usable(view, maxSkip)
    ensures IsListing(view, Reversed(ps))
  {
    var it := new DBIter(view, maxSkip);
    it.SeekToLast();
    ps := [];
    if it.valid {
      LastListed(view, it.savedKey);
    } else {
      EmptyBelowBound(view);
      NoneListed(view);
    }
    while it.valid
      invariant it.Inv() && it.view == view
      invariant if it.valid then ListedFrom(view, Reversed(ps), it.savedKey + 1) else IsListing(view, Reversed(ps))
      decreases it.valid, if it.valid then After(view.es, it.savedKey) else 0
    {
      var v := it.CurrentValue();
      var k := it.Key();
      PrependListing(view, Reversed(ps), k, v);
      ReversedAppend(ps, Pair(k, v));
      ps := ps + [Pair(k, v)];
      it.Prev();
      if it.valid {
        PrevListed(view, Reversed(ps), k, it.savedKey);
        AfterGrows(view, it.savedKey, k);
      } else {
        AllListedDown(view, Reversed(ps), k);
      }
    }
  }

  /** The two directions agree, whatever their skip limits. */
  method ListBothWays(view: View, skipForward: nat, skipBackward: nat) returns (forth: seq<Pair>, back: seq<Pair>)
    requires Usable(view, skipForward) && Usable(view, skipBackward)
    ensures IsListing(view, forth) && forth == Reversed(back)
  {
    forth := ListForward(view, skipForward);
    back := ListBackward(view, skipBackward);
    ListingIsUnique(view, forth, Reversed(back));
  }

  // ---------------------------------------------------------------- any mix of operations

  datatype Op = OpSeek(target: UserKey) | OpSeekToFirst | OpSeekToLast | OpNext | OpPrev

  ghost predicate Holds(view: View, cur: Option<Pair>) {
    cur.Some? ==> Shown(view, cur.value)
  }

  /** A plain cursor over the visible map moves from cur to next. Moving a cursor that shows nothing
      is not allowed; here it stays where it is. */
  ghost predicate Moves(view: View, op: Op, cur: Option<Pair>, next: Option<Pair>) {
    && Holds(view, next)
    && match op
       case OpSeek(t) => if next.Some? then view.IsLeast(next.value.key, t) else view.NoneFrom(t)
       case OpSeekToFirst => if next.Some? then view.IsFirst(next.value.key) else view.IsEmpty()
       case OpSeekToLast => if next.Some? then view.IsGreatest(next.value.key, view.upperBound) else view.IsEmpty()
       case OpNext =>
         if cur.None? then next.None?
         else if next.Some? then view.IsLeast(next.value.key, cur.value.key + 1)
         else view.NoneFrom(cur.value.key + 1)
       case OpPrev =>
         if cur.None? then next.None?
         else if next.Some? then view.IsGreatest(next.value.key, Some(cur.value.key))
         else view.NoneBelow(Some(cur.value.key))
  }

  /** The cursor after each operation, starting with none shown. */
  ghost predicate IsTrace(view: View, ops: seq<Op>, trace: seq<Option<Pair>>) {
    && |trace| == |ops| + 1 && trace[0].None?
    && forall i :: 0 <= i < |ops| ==> Moves(view, ops[i], trace[i], trace[i + 1])
  }

  method Perform(it: DBIter, op: Op, ghost cur: Option<Pair>) returns (next: Option<Pair>)
    requires it.Inv() && it.valid == cur.Some? && (cur.Some? ==> it.savedKey == cur.value.key)
    modifies it
    ensures it.Inv() && it.valid == next.Some? && (next.Some? ==> it.savedKey == next.value.key)
    ensures Moves(it.view, op, cur, next)
  {
    match op {
      case OpSeek(t) => it.Seek(t);
      case OpSeekToFirst => it.SeekToFirst();
      case OpSeekToLast =>
        it.SeekToLast();
        if !it.valid {
          EmptyBelowBound(it.view);
        }
      case OpNext =>
        if it.valid {
          it.Next();
        }
      case OpPrev =>
        if it.valid {
          it.Prev();
        }
    }
    if it.valid {
      var v := it.CurrentValue();
      next := Some(Pair(it.savedKey, v));
    } else {
      next := None;
    }
  }

  /** Any run of operations, with any changes of direction, moves as the plain cursor does. */
  method Replay(view: View, maxSkip: nat, ops: seq<Op>) returns (trace: seq<Option<Pair>>)
    requires Usable(view, maxSkip)
    ensures IsTrace(view, ops, trace)
  {
    var it := new DBIter(view, maxSkip);
    var cur: Option<Pair> := None;
    trace := [cur];
    for i := 0 to |ops|
      invariant it.Inv() && it.view == view && fresh(it)
      invariant it.valid == cur.Some? && (cur.Some? ==> it.savedKey == cur.value.key)
      invariant IsTrace(view, ops[..i], trace) && trace[i] == cur
    {
      cur := Perform(it, ops[i], cur);
      trace := trace + [cur];
    }
    assert ops[..|ops|] == ops;
  }

  lemma MoveIsDetermined(view: View, op: Op, cur: Option<Pair>, a: Option<Pair>, b: Option<Pair>)
    requires Moves(view, op, cur, a) && Moves(view, op, cur, b)
    ensures a == b
  {
    if a.Some? {
      assert view.Live(a.value.key) && view.InBound(a.value.key);
    }
    if b.Some? {
      assert view.Live(b.value.key) && view.InBound(b.value.key);
    }
  }

  /** The keys and values shown do not depend on the skip limit, only on the view and the calls. */
  lemma {:induction false} TraceIsDetermined(view: View, ops: seq<Op>, a: seq<Option<Pair>>, b: seq<Option<Pair>>,
          n: nat)
    requires IsTrace(view, ops, a) && IsTrace(view, ops, b) && n <= |ops|
    ensures a[n] == b[n]
  {
    if n > 0 {
      TraceIsDetermined(view, ops, a, b, n - 1);
      MoveIsDetermined(view, ops[n - 1], a[n - 1], a[n], b[n]);
    }
  }

  // ---------------------------------------------------------------- where the code would go wrong

  /** The forward scan makes no progress exactly when the skip limit is 0 and the record is a deletion
      of the skipped key with sequence number 0. */
  lemma ScanIsStuck(es: seq<Entry>, k: UserKey, pos: nat, numSkipped: nat, maxSkip: nat)
    requires Sorted(es) && pos < |es| && es[pos].key <= k && numSkipped <= maxSkip
    ensures PassStep(es, k, pos, true, numSkipped + 1, maxSkip) == (pos, numSkipped)
      <==> maxSkip == 0 && es[pos].key == k && es[pos].seqno == 0 && es[pos].kind.Deletion?
  {
    SeekPastKey(es, k, pos);
  }
}
