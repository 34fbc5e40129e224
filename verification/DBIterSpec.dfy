/** Positions in a sorted run, and the map of visible keys a database iterator walks over. */
module DBIterSpec {
  import opened Format

  /** e sorts before the internal key (k, s, t): versions of one key newest first, ties by larger tag. */
  predicate Before(e: Entry, k: UserKey, s: SeqNo, t: Kind) {
    || e.key < k
    || (e.key == k && (e.seqno > s || (e.seqno == s && e.kind.Tag() > t.Tag())))
  }

  /** Where an internal iterator lands when it seeks to (k, s, t). */
  function SeekPos(es: seq<Entry>, k: UserKey, s: SeqNo, t: Kind): (i: nat)
    requires Sorted(es)
    ensures i <= |es|
    ensures forall x :: 0 <= x < |es| ==> (x < i <==> Before(es[x], k, s, t))
  {
    if es == [] then 0
    else if Before(es[0], k, s, t) then
      TailSorted(es);
      1 + SeekPos(es[1..], k, s, t)
    else
      assert forall j :: 0 < j < |es| ==> Precedes(es[0], es[j]);
      0
  }

  lemma TailSorted(es: seq<Entry>)
    requires Sorted(es) && es != []
    ensures Sorted(es[1..])
  {
    forall i, j | 0 <= i < j < |es[1..]|
      ensures Precedes(es[1..][i], es[1..][j])
    {
      assert Precedes(es[i + 1], es[j + 1]);
    }
  }

  /** First record with a user key above k. */
  ghost function After(es: seq<Entry>, k: UserKey): (i: nat)
    requires Sorted(es)
    ensures i <= |es|
    ensures forall x :: 0 <= x < |es| ==> (x < i <==> es[x].key <= k)
  {
    if es == [] then 0
    else if es[0].key <= k then
      TailSorted(es);
      1 + After(es[1..], k)
    else
      assert forall j :: 0 < j < |es| ==> Precedes(es[0], es[j]);
      0
  }

  /** First record with user key k or above. */
  ghost function First(es: seq<Entry>, k: UserKey): (i: nat)
    requires Sorted(es)
    ensures i <= After(es, k)
    ensures forall x :: 0 <= x < |es| ==> (x < i <==> es[x].key < k)
  {
    if es == [] then 0
    else if es[0].key < k then
      TailSorted(es);
      1 + First(es[1..], k)
    else
      assert forall j :: 0 < j < |es| ==> Precedes(es[0], es[j]);
      0
  }

  /** The newest version of k that a read at s may use, or the next key. */
  ghost function NewestPos(es: seq<Entry>, k: UserKey, s: SeqNo): (i: nat)
    requires Sorted(es)
    ensures First(es, k) <= i <= After(es, k)
    ensures forall x :: 0 <= x < |es| ==> (i <= x < After(es, k) <==> Matches(es[x], k, s))
  {
    var i := SeekPos(es, k, s, KIND_FOR_SEEK);
    assert i < First(es, k) ==> Before(es[i], k, s, KIND_FOR_SEEK);
    assert After(es, k) < i ==> !Before(es[After(es, k)], k, s, KIND_FOR_SEEK);
    i
  }

  // ---------------------------------------------------------------- what the iterator should show

  /** The map from user keys to values that an iterator presents. */
  datatype View = View(es: seq<Entry>, sequence: SeqNo, upperBound: Option<UserKey>, op: MergeOperator) {

    ghost function ReadAt(k: UserKey): Option<Value> {
      Read(op, es, k, sequence)
    }

    ghost predicate Live(k: UserKey) {
      ReadAt(k).Some?
    }

    predicate InBound(k: UserKey) {
      upperBound.Some? ==> k < upperBound.value
    }

    /** k is the first key at or above lo that the iterator shows. */
    ghost predicate IsLeast(k: UserKey, lo: UserKey) {
      lo <= k && Live(k) && InBound(k) && forall j :: lo <= j < k ==> !Live(j)
    }

    /** k is the first key of all that the iterator shows. */
    ghost predicate IsFirst(k: UserKey) {
      Live(k) && InBound(k) && forall j :: j < k ==> !Live(j)
    }

    ghost predicate IsEmpty() {
      forall j :: InBound(j) ==> !Live(j)
    }

    ghost predicate NoneFrom(lo: UserKey) {
      forall j :: lo <= j && InBound(j) ==> !Live(j)
    }

    /** k is the last key below hi that the iterator shows. */
    ghost predicate IsGreatest(k: UserKey, hi: Option<UserKey>) {
      && Live(k) && (hi.Some? ==> k < hi.value)
      && forall j :: k < j && (hi.Some? ==> j < hi.value) ==> !Live(j)
    }

    ghost predicate NoneBelow(hi: Option<UserKey>) {
      forall j :: (hi.Some? ==> j < hi.value) ==> !Live(j)
    }
  }

  /** The kind of the first record that is no operand. */
  function LastNotMerge(vs: seq<Entry>): (r: Kind)
    ensures !r.Merge?
  {
    if vs == [] then Deletion
    else if vs[0].kind.Merge? then LastNotMerge(vs[1..])
    else vs[0].kind
  }

  /** The newest version is an operand, and the operands rest on a single deletion. Mixing the two on one
      key is documented as undefined. */
  predicate RestsOnSingleDeletion(vs: seq<Entry>) {
    vs != [] && vs[0].kind.Merge? && LastNotMerge(vs).SingleDeletion?
  }

  ghost predicate NoMergeOnSingleDeletion(es: seq<Entry>, s: SeqNo) {
    forall k :: !RestsOnSingleDeletion(Versions(es, k, s))
  }

  ghost predicate NoZeroDeletion(es: seq<Entry>) {
    forall i :: 0 <= i < |es| ==> !(es[i].seqno == 0 && es[i].kind.Deletion?)
  }

  /** What the iterator asks of the records below it. A skip limit of 0 makes it seek past a key after
      one step, and such a seek never passes a deletion with sequence number 0. */
  ghost predicate Usable(view: View, maxSkip: nat) {
    && Sorted(view.es)
    && (forall i :: 0 <= i < |view.es| ==> view.es[i].seqno <= MAX_SEQ)
    && view.sequence <= MAX_SEQ
    && NoMergeOnSingleDeletion(view.es, view.sequence)
    && (maxSkip > 0 || NoZeroDeletion(view.es))
  }

  // ---------------------------------------------------------------- seeks

  /** Seeking with the seek kind lands on the record that a read of k at s uses, if there is one. */
  lemma SeekFindsNewest(es: seq<Entry>, k: UserKey, s: SeqNo)
    requires Sorted(es)
    ensures
      var i := SeekPos(es, k, s, KIND_FOR_SEEK);
      match Newest(es, k, s)
      case Some(e) => i < |es| && es[i] == e
      case None => i < |es| ==> !Matches(es[i], k, s)
  {
    var i := NewestPos(es, k, s);
    if i < After(es, k) {
      NewestAt(es, i, k, s);
    }
  }

  lemma SeekFindsFirst(es: seq<Entry>, k: UserKey)
    requires Sorted(es) && forall i :: 0 <= i < |es| ==> es[i].seqno <= MAX_SEQ
    ensures SeekPos(es, k, MAX_SEQ, KIND_FOR_SEEK) == First(es, k)
  {
    var i := SeekPos(es, k, MAX_SEQ, KIND_FOR_SEEK);
    assert First(es, k) < i ==> Before(es[First(es, k)], k, MAX_SEQ, KIND_FOR_SEEK);
    assert i < First(es, k) ==> Before(es[i], k, MAX_SEQ, KIND_FOR_SEEK);
  }

  /** Seeking to (k, 0, deletion) passes every version of k except a deletion with sequence 0. */
  lemma SeekPastKey(es: seq<Entry>, k: UserKey, i: nat)
    requires Sorted(es) && i < |es| && es[i].key <= k
    ensures
      var j := SeekPos(es, k, 0, Deletion);
      && i <= j <= After(es, k)
      && (i == j <==> es[i].key == k && es[i].seqno == 0 && es[i].kind.Deletion?)
  {
    var j := SeekPos(es, k, 0, Deletion);
    assert j < i ==> Precedes(es[j], es[i]);
    assert After(es, k) < j ==> Before(es[After(es, k)], k, 0, Deletion);
    assert i < j <==> Before(es[i], k, 0, Deletion);
  }

  // ---------------------------------------------------------------- reads by position

  /** The matching records are exactly those from i up to j. */
  ghost predicate MatchRange(es: seq<Entry>, k: UserKey, s: SeqNo, i: nat, j: nat) {
    i <= j <= |es| && forall x :: 0 <= x < |es| ==> (i <= x < j <==> Matches(es[x], k, s))
  }

  lemma TailMatchRange(es: seq<Entry>, k: UserKey, s: SeqNo, i: nat, j: nat)
    requires MatchRange(es, k, s, i, j) && es != []
    ensures MatchRange(es[1..], k, s, if i == 0 then 0 else i - 1, if j == 0 then 0 else j - 1)
  {
    forall x | 0 <= x < |es| - 1
      ensures (if i == 0 then 0 else i - 1) <= x < (if j == 0 then 0 else j - 1) <==> Matches(es[1..][x], k, s)
    {
      assert es[1..][x] == es[x + 1];
    }
  }

  lemma {:induction false} VersionsAreSlice(es: seq<Entry>, k: UserKey, s: SeqNo, i: nat, j: nat)
    requires MatchRange(es, k, s, i, j)
    ensures Versions(es, k, s) == es[i..j]
  {
    if es != [] {
      TailMatchRange(es, k, s, i, j);
      var i', j' := if i == 0 then 0 else i - 1, if j == 0 then 0 else j - 1;
      VersionsAreSlice(es[1..], k, s, i', j');
      assert i <= 0 < j <==> Matches(es[0], k, s);
      assert es[i..j] == (if i <= 0 < j then [es[0]] else []) + es[1..][i'..j'];
    }
  }

  lemma ReadBySlice(op: MergeOperator, es: seq<Entry>, k: UserKey, s: SeqNo)
    requires Sorted(es)
    ensures Versions(es, k, s) == es[NewestPos(es, k, s)..After(es, k)]
    ensures Read(op, es, k, s) == Resolve(op, k, es[NewestPos(es, k, s)..After(es, k)])
  {
    VersionsAreSlice(es, k, s, NewestPos(es, k, s), After(es, k));
  }

  /** What the record at the newest position says by itself. */
  lemma ReadAtNewest(op: MergeOperator, es: seq<Entry>, k: UserKey, s: SeqNo)
    requires Sorted(es)
    ensures
      var v, h := NewestPos(es, k, s), After(es, k);
      && (v == h ==> Read(op, es, k, s).None?)
      && (v < h ==> es[v].key == k && es[v].seqno <= s)
      && (v < h && es[v].kind.Tombstone() ==> Read(op, es, k, s).None?)
      && (v < h && es[v].kind.Put? ==> Read(op, es, k, s) == Some(es[v].value))
      && (v < h && es[v].kind.Merge? ==> Read(op, es, k, s) == Some(op(k, BaseValue(es[v..h]), Operands(es[v..h]))))
  {
    ReadBySlice(op, es, k, s);
  }

  // ---------------------------------------------------------------- scanning forward

  /** Of the records before pos, those above the bar cannot be seen at s. */
  ghost predicate InvisibleAbove(es: seq<Entry>, s: SeqNo, pos: nat, bar: UserKey)
    requires pos <= |es|
  {
    forall x :: 0 <= x < pos && es[x].key > bar ==> es[x].seqno > s
  }

  lemma PassedKeyIsDead(op: MergeOperator, es: seq<Entry>, s: SeqNo, pos: nat, bar: UserKey, k: UserKey)
    requires Sorted(es) && pos <= |es| && InvisibleAbove(es, s, pos, bar)
    requires k > bar && (pos < |es| ==> k < es[pos].key)
    ensures Read(op, es, k, s).None?
  {
    ReadAtNewest(op, es, k, s);
    var v := NewestPos(es, k, s);
    assert pos < |es| ==> pos >= After(es, k);
  }

  lemma HereIsNewest(es: seq<Entry>, s: SeqNo, pos: nat, bar: UserKey)
    requires Sorted(es) && pos < |es| && InvisibleAbove(es, s, pos, bar)
    requires es[pos].key > bar && es[pos].seqno <= s
    ensures NewestPos(es, es[pos].key, s) == pos < After(es, es[pos].key)
  {
    var v := NewestPos(es, es[pos].key, s);
    assert Matches(es[pos], es[pos].key, s);
    assert v < |es| ==> Matches(es[v], es[pos].key, s);
  }

  /** No key from lo up to hi is visible. */
  ghost predicate DeadRange(op: MergeOperator, es: seq<Entry>, s: SeqNo, lo: UserKey, hi: UserKey) {
    forall k :: lo <= k <= hi ==> Read(op, es, k, s).None?
  }

  /** A forward scan for keys from lo on stands at pos: keys up to the bar are dead, and keys above it
      have shown nothing visible yet. */
  ghost predicate Scanned(op: MergeOperator, es: seq<Entry>, s: SeqNo, pos: nat, lo: UserKey, bar: UserKey) {
    pos <= |es| && lo <= bar + 1 && InvisibleAbove(es, s, pos, bar) && DeadRange(op, es, s, lo, bar)
  }

  lemma ScannedIsDead(op: MergeOperator, es: seq<Entry>, s: SeqNo, pos: nat, lo: UserKey, bar: UserKey)
    requires Sorted(es) && Scanned(op, es, s, pos, lo, bar)
    ensures pos == |es| ==> forall k :: lo <= k ==> Read(op, es, k, s).None?
    ensures pos < |es| ==> DeadRange(op, es, s, lo, es[pos].key - 1)
  {
    forall k | lo <= k && (pos < |es| ==> k < es[pos].key)
      ensures Read(op, es, k, s).None?
    {
      if k > bar {
        PassedKeyIsDead(op, es, s, pos, bar, k);
      }
    }
  }

  /** A tombstone raises the bar. */
  lemma RaiseBar(op: MergeOperator, es: seq<Entry>, s: SeqNo, pos: nat, lo: UserKey, bar: UserKey)
    requires Sorted(es) && Scanned(op, es, s, pos, lo, bar) && pos < |es|
    requires es[pos].key > bar && es[pos].seqno <= s && es[pos].kind.Tombstone()
    ensures Scanned(op, es, s, pos, lo, es[pos].key)
  {
    ScannedIsDead(op, es, s, pos, lo, bar);
    HereIsNewest(es, s, pos, bar);
    ReadAtNewest(op, es, es[pos].key, s);
  }

  // ---------------------------------------------------------------- collecting operands

  ghost predicate AllMerges(vs: seq<Entry>) {
    forall x :: 0 <= x < |vs| ==> vs[x].kind.Merge?
  }

  lemma {:induction false} PushOperand(vs: seq<Entry>, e: Entry)
    requires AllMerges(vs) && e.kind.Merge?
    ensures Operands(vs + [e]) == [e.value] + Operands(vs)
  {
    if vs != [] {
      assert (vs + [e])[1..] == vs[1..] + [e];
      PushOperand(vs[1..], e);
    } else {
      assert (vs + [e])[1..] == [];
    }
  }

  /** Operands on top of a stack of versions leave its base alone. */
  lemma {:induction false} OperandsOnTop(top: seq<Entry>, rest: seq<Entry>)
    requires AllMerges(top)
    ensures Operands(top + rest) == Operands(rest) + Operands(top)
    ensures BaseValue(top + rest) == BaseValue(rest)
  {
    if top == [] {
      assert top + rest == rest;
    } else {
      assert (top + rest)[1..] == top[1..] + rest;
      OperandsOnTop(top[1..], rest);
    }
  }

  /** The newest-to-oldest walk: once it has collected the operands of es[v..i] and stands at the
      end of the key or on a record that is no operand, it knows what to merge. */
  lemma OperandsCollected(es: seq<Entry>, v: nat, i: nat, h: nat)
    requires v <= i <= h <= |es| && AllMerges(es[v..i]) && (i < h ==> !es[i].kind.Merge?)
    ensures Operands(es[v..h]) == Operands(es[v..i])
    ensures BaseValue(es[v..h]) == if i < h && es[i].kind.Put? then Some(es[i].value) else None
  {
    assert es[v..h] == es[v..i] + es[i..h];
    OperandsOnTop(es[v..i], es[i..h]);
    assert Operands(es[i..h]) == [];
  }

  /** The records from v up to i are operands, collected oldest first. */
  ghost predicate Gathered(es: seq<Entry>, v: nat, i: nat, operands: seq<Value>) {
    v <= i <= |es| && AllMerges(es[v..i]) && operands == Operands(es[v..i])
  }

  lemma GatherNone(es: seq<Entry>, v: nat)
    requires v <= |es|
    ensures Gathered(es, v, v, [])
  {
  }

  lemma GatherNext(es: seq<Entry>, v: nat, i: nat, operands: seq<Value>)
    requires Gathered(es, v, i, operands) && i < |es| && es[i].kind.Merge?
    ensures Gathered(es, v, i + 1, [es[i].value] + operands)
  {
    PushOperand(es[v..i], es[i]);
    assert es[v..i + 1] == es[v..i] + [es[i]];
  }

  /** What a read returns once the operands above position i are known to be all of them. */
  lemma MergedRead(op: MergeOperator, es: seq<Entry>, k: UserKey, s: SeqNo, i: nat, operands: seq<Value>)
    requires Sorted(es) && NewestPos(es, k, s) < i <= After(es, k)
    requires Gathered(es, NewestPos(es, k, s), i, operands) && (i < After(es, k) ==> !es[i].kind.Merge?)
    ensures
      var base := if i < After(es, k) && es[i].kind.Put? then Some(es[i].value) else None;
      Read(op, es, k, s) == Some(op(k, base, operands))
  {
    ReadAtNewest(op, es, k, s);
    OperandsCollected(es, NewestPos(es, k, s), i, After(es, k));
    assert es[NewestPos(es, k, s)..i][0].kind.Merge?;
  }

  /** The oldest-to-newest walk adds one record on top of those it has seen. */
  lemma StepBack(es: seq<Entry>, i: nat, h: nat)
    requires i < h <= |es|
    ensures Operands(es[i..h]) == if es[i].kind.Merge? then Operands(es[i + 1..h]) + [es[i].value] else []
    ensures BaseValue(es[i..h]) ==
      if es[i].kind.Merge? then BaseValue(es[i + 1..h])
      else if es[i].kind.Put? then Some(es[i].value) else None
  {
    assert es[i..h][1..] == es[i + 1..h];
  }

  // ---------------------------------------------------------------- the walk from old to new

  /** What the walk over all versions has in its value buffer, which held stale before. */
  function WalkBuffer(vs: seq<Entry>, stale: Value): Value {
    if vs == [] then stale
    else if vs[0].kind.Put? then vs[0].value
    else WalkBuffer(vs[1..], stale)
  }

  /** The existing value the walk hands to the merge operator. */
  function WalkBase(vs: seq<Entry>, stale: Value): Option<Value> {
    if LastNotMerge(vs).Deletion? then None else Some(WalkBuffer(vs, stale))
  }

  /** What the walk finds. */
  function Walked(op: MergeOperator, k: UserKey, vs: seq<Entry>, stale: Value): Option<Value> {
    if vs == [] || vs[0].kind.Tombstone() then None
    else if vs[0].kind.Put? then Some(vs[0].value)
    else Some(op(k, WalkBase(vs, stale), Operands(vs)))
  }

  /** The base of the merge is the right one exactly when the operands do not rest on a single deletion. */
  lemma {:induction false} WalkBaseIsRight(vs: seq<Entry>, stale: Value)
    ensures WalkBase(vs, stale) == BaseValue(vs) <==> !LastNotMerge(vs).SingleDeletion?
  {
    if vs != [] {
      WalkBaseIsRight(vs[1..], stale);
    }
  }

  /** The walk finds what a read finds, under every merge operator, exactly when the newest version is not
      an operand that rests on a single deletion. */
  lemma WalkIsRight(k: UserKey, vs: seq<Entry>, stale: Value)
    ensures (forall op: MergeOperator :: Walked(op, k, vs, stale) == Resolve(op, k, vs)) <==> !RestsOnSingleDeletion(vs)
  {
    WalkBaseIsRight(vs, stale);
    if RestsOnSingleDeletion(vs) {
      var op: MergeOperator := (_, base: Option<Value>, _) => if base.Some? then "some" else "none";
      assert BaseValue(vs).None? by {
        BaseOnSingleDeletion(vs);
      }
      assert Walked(op, k, vs, stale) == Some("some") && Resolve(op, k, vs) == Some("none");
    }
  }

  lemma {:induction false} BaseOnSingleDeletion(vs: seq<Entry>)
    requires LastNotMerge(vs).SingleDeletion?
    ensures BaseValue(vs).None?
  {
    if vs != [] {
      if vs[0].kind.Merge? {
        BaseOnSingleDeletion(vs[1..]);
      }
    }
  }

  /** One more record of the walk, and what it changes. */
  lemma WalkBack(es: seq<Entry>, i: nat, h: nat, stale: Value)
    requires i < h <= |es|
    ensures LastNotMerge(es[i..h]) == if es[i].kind.Merge? then LastNotMerge(es[i + 1..h]) else es[i].kind
    ensures WalkBuffer(es[i..h], stale) == if es[i].kind.Put? then es[i].value else WalkBuffer(es[i + 1..h], stale)
  {
    assert es[i..h][1..] == es[i + 1..h];
  }

  /** A key that no record has is not visible. */
  lemma AbsentIsDead(op: MergeOperator, es: seq<Entry>, s: SeqNo, k: UserKey)
    requires Sorted(es) && forall x :: 0 <= x < |es| ==> es[x].key != k
    ensures Read(op, es, k, s).None?
  {
    ReadAtNewest(op, es, k, s);
  }

  /** Between the last record before k and k itself there is no visible key. */
  lemma GapBelowIsDead(op: MergeOperator, es: seq<Entry>, s: SeqNo, k: UserKey, j: UserKey)
    requires Sorted(es) && j < k && (First(es, k) > 0 ==> es[First(es, k) - 1].key < j)
    ensures Read(op, es, j, s).None?
  {
    var i: int := First(es, k);
    forall x | 0 <= x < |es|
      ensures es[x].key != j
    {
      assert x < i - 1 ==> Precedes(es[x], es[i - 1]);
    }
    AbsentIsDead(op, es, s, j);
  }

  lemma GapAboveIsDead(op: MergeOperator, es: seq<Entry>, s: SeqNo, j: UserKey)
    requires Sorted(es) && (es != [] ==> es[|es| - 1].key < j)
    ensures Read(op, es, j, s).None?
  {
    forall x | 0 <= x < |es|
      ensures es[x].key != j
    {
      assert x < |es| - 1 ==> Precedes(es[x], es[|es| - 1]);
    }
    AbsentIsDead(op, es, s, j);
  }
}
