/** Internal keys, the order of a sorted run, and what a read at a sequence number sees. */
module Format {

  datatype Option<+T> = None | Some(value: T)

  function Min(a: nat, b: nat): nat {
    if a < b then a else b
  }

  /** The code only ever compares user keys, so any total order does; integers stand for it. */
  type UserKey = int
  type SeqNo = nat
  type Value = string

  /** The largest sequence number: 56 bits, the low 8 of the packed word hold the type. */
  const MAX_SEQ: SeqNo := 0xFF_FFFF_FFFF_FFFF

  datatype Kind = Deletion | Put | Merge | SingleDeletion {
    /** The on-disk tag of the record type. */
    function Tag(): (t: nat)
      ensures t < 8
    {
      match this
      case Deletion => 0
      case Put => 1
      case Merge => 2
      case SingleDeletion => 7
    }

    predicate Tombstone() {
      Deletion? || SingleDeletion?
    }
  }

  /** The kind that sorts first among records of one key and sequence number. */
  const KIND_FOR_SEEK: Kind := SingleDeletion

  datatype Entry = Entry(key: UserKey, seqno: SeqNo, kind: Kind, value: Value)

  /** A run of records: user keys ascending, and the versions of one key newest first. */
  ghost predicate Sorted(es: seq<Entry>) {
    forall i, j {:trigger Precedes(es[i], es[j])} :: 0 <= i < j < |es| ==> Precedes(es[i], es[j])
  }

  predicate Precedes(a: Entry, b: Entry) {
    a.key < b.key || (a.key == b.key && a.seqno > b.seqno)
  }

  predicate Matches(e: Entry, k: UserKey, s: SeqNo) {
    e.key == k && e.seqno <= s
  }

  /** The first record of the stream that a read of k at s may use. */
  function Newest(es: seq<Entry>, k: UserKey, s: SeqNo): (r: Option<Entry>)
    ensures r.Some? ==> r.value in es && Matches(r.value, k, s)
    ensures r.None? ==> forall e :: e in es ==> !Matches(e, k, s)
  {
    if es == [] then None
    else if Matches(es[0], k, s) then Some(es[0])
    else
      assert forall e :: e in es ==> e == es[0] || e in es[1..];
      Newest(es[1..], k, s)
  }

  lemma {:induction false} NewestOfAppend(a: seq<Entry>, b: seq<Entry>, k: UserKey, s: SeqNo)
    ensures Newest(a + b, k, s) == if Newest(a, k, s).Some? then Newest(a, k, s) else Newest(b, k, s)
  {
    if a == [] {
      assert a + b == b;
    } else {
      assert (a + b)[1..] == a[1..] + b;
      NewestOfAppend(a[1..], b, k, s);
    }
  }

  lemma {:induction false} NewestAt(es: seq<Entry>, i: nat, k: UserKey, s: SeqNo)
    requires i < |es| && Matches(es[i], k, s)
    requires forall j :: 0 <= j < i ==> !Matches(es[j], k, s)
    ensures Newest(es, k, s) == Some(es[i])
  {
    if i > 0 {
      assert !Matches(es[0], k, s);
      NewestAt(es[1..], i - 1, k, s);
    }
  }

  // ---------------------------------------------------------------- reads

  /** Key, existing value if any, operands oldest first. */
  type MergeOperator = (UserKey, Option<Value>, seq<Value>) -> Value

  /** The versions of k that a read at s may use, newest first. */
  function Versions(es: seq<Entry>, k: UserKey, s: SeqNo): (vs: seq<Entry>)
    ensures vs == [] <==> Newest(es, k, s).None?
    ensures vs != [] ==> Newest(es, k, s) == Some(vs[0])
  {
    if es == [] then []
    else if Matches(es[0], k, s) then [es[0]] + Versions(es[1..], k, s)
    else Versions(es[1..], k, s)
  }

  lemma {:induction false} VersionsOfAppend(a: seq<Entry>, b: seq<Entry>, k: UserKey, s: SeqNo)
    ensures Versions(a + b, k, s) == Versions(a, k, s) + Versions(b, k, s)
  {
    if a == [] {
      assert a + b == b;
    } else {
      assert (a + b)[1..] == a[1..] + b;
      VersionsOfAppend(a[1..], b, k, s);
    }
  }

  /** The operands on top, oldest first. */
  function Operands(vs: seq<Entry>): seq<Value> {
    if vs == [] || !vs[0].kind.Merge? then [] else Operands(vs[1..]) + [vs[0].value]
  }

  /** The value below the operands, unless it is deleted or missing. */
  function BaseValue(vs: seq<Entry>): Option<Value> {
    if vs == [] then None
    else if vs[0].kind.Merge? then BaseValue(vs[1..])
    else if vs[0].kind.Put? then Some(vs[0].value)
    else None
  }

  function Resolve(op: MergeOperator, k: UserKey, vs: seq<Entry>): Option<Value> {
    if vs == [] || vs[0].kind.Tombstone() then None
    else if vs[0].kind.Put? then Some(vs[0].value)
    else Some(op(k, BaseValue(vs), Operands(vs)))
  }

  /** What a read of k at s returns. */
  function Read(op: MergeOperator, es: seq<Entry>, k: UserKey, s: SeqNo): Option<Value> {
    Resolve(op, k, Versions(es, k, s))
  }

  /** The versions of a key are its records up to the number, in the order of the stream. */
  lemma {:induction false} VersionsHave(es: seq<Entry>, k: UserKey, s: SeqNo, e: Entry)
    ensures e in Versions(es, k, s) <==> e in es && e.key == k && e.seqno <= s
  {
    if es != [] {
      VersionsHave(es[1..], k, s, e);
      assert e in es <==> e == es[0] || e in es[1..];
    }
  }

  /** The values of the first n versions, oldest first. */
  function OldestFirst(vs: seq<Entry>, n: nat): (r: seq<Value>)
    requires n <= |vs|
    ensures |r| == n && forall i :: 0 <= i < n ==> r[i] == vs[n - 1 - i].value
  {
    seq(n, i requires 0 <= i < n => vs[n - 1 - i].value)
  }

  lemma {:induction false} OperandsAre(vs: seq<Entry>, n: nat)
    requires n <= |vs| && (forall i :: 0 <= i < n ==> vs[i].kind.Merge?) && (n < |vs| ==> !vs[n].kind.Merge?)
    ensures Operands(vs) == OldestFirst(vs, n)
    ensures BaseValue(vs) == if n < |vs| && vs[n].kind.Put? then Some(vs[n].value) else None
  {
    if n > 0 {
      OperandsAre(vs[1..], n - 1);
      assert OldestFirst(vs, n) == OldestFirst(vs[1..], n - 1) + [vs[0].value];
    }
  }

  /** What a read makes of the versions: the newest one decides; n operands on top are merged, oldest first, over the
      put below them, or over nothing. */
  lemma ReadIs(op: MergeOperator, es: seq<Entry>, k: UserKey, s: SeqNo, n: nat)
    requires var vs := Versions(es, k, s);
      n <= |vs| && (forall i :: 0 <= i < n ==> vs[i].kind.Merge?) && (n < |vs| ==> !vs[n].kind.Merge?)
    ensures var vs := Versions(es, k, s);
      Read(op, es, k, s) ==
        if n > 0 then
          Some(op(k, if n < |vs| && vs[n].kind.Put? then Some(vs[n].value) else None, OldestFirst(vs, n)))
        else if vs != [] && vs[0].kind.Put? then Some(vs[0].value)
        else None
  {
    OperandsAre(Versions(es, k, s), n);
  }
}
