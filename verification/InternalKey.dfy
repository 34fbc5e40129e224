/** Internal keys as bytes: the user key followed by eight bytes that hold sequence number and type. */
module InternalKeys {
  import opened Format

  type Byte = b: int | 0 <= b < 256
  type Bytes = seq<Byte>

  const TYPE_MERGE := 0x2
  const TYPE_SINGLE_DELETION := 0x7

  datatype Parsed = Parsed(userKey: Bytes, sequence: nat, tag: nat)

  predicate IsValueType(tag: nat) {
    tag <= TYPE_MERGE || tag == TYPE_SINGLE_DELETION
  }

  predicate Encodable(p: Parsed) {
    p.sequence <= MAX_SEQ && IsValueType(p.tag)
  }

  // ---------------------------------------------------------------- fixed-width numbers

  function Pow256(n: nat): (r: nat)
    ensures r > 0
  {
    if n == 0 then 1 else 256 * Pow256(n - 1)
  }

  /** Little-endian, n bytes; what does not fit is cut off. */
  function EncodeFixed(v: nat, n: nat): (r: Bytes)
    ensures |r| == n
  {
    if n == 0 then [] else [v % 256] + EncodeFixed(v / 256, n - 1)
  }

  function DecodeFixed(b: Bytes): nat {
    if b == [] then 0 else b[0] + 256 * DecodeFixed(b[1..])
  }

  lemma {:induction false} DecodeOfEncode(v: nat, n: nat)
    requires v < Pow256(n)
    ensures DecodeFixed(EncodeFixed(v, n)) == v
  {
    if n > 0 {
      assert v / 256 < Pow256(n - 1);
      DecodeOfEncode(v / 256, n - 1);
      assert EncodeFixed(v, n)[1..] == EncodeFixed(v / 256, n - 1);
    }
  }

  lemma LowByte(low: Byte, high: nat, bound: nat)
    requires high < bound
    ensures (low + 256 * high) % 256 == low && (low + 256 * high) / 256 == high
    ensures low + 256 * high < 256 * bound
  {
  }

  lemma {:induction false} EncodeOfDecode(b: Bytes)
    ensures DecodeFixed(b) < Pow256(|b|)
    ensures EncodeFixed(DecodeFixed(b), |b|) == b
  {
    if b != [] {
      EncodeOfDecode(b[1..]);
      LowByte(b[0], DecodeFixed(b[1..]), Pow256(|b| - 1));
      assert b == [b[0]] + b[1..];
    }
  }

  lemma EightBytes()
    ensures Pow256(8) == 0x1_0000_0000_0000_0000
  {
    assert Pow256(4) == 0x1_0000_0000;
    assert Pow256(6) == 256 * (256 * Pow256(4));
  }

  // ---------------------------------------------------------------- packing

  /** (seq << 8) | type. */
  function PackSequenceAndType(sequence: nat, tag: nat): nat {
    sequence * 256 + tag
  }

  function AppendInternalKey(result: Bytes, p: Parsed): Bytes {
    result + p.userKey + EncodeFixed(PackSequenceAndType(p.sequence, p.tag), 8)
  }

  function Encode(p: Parsed): Bytes {
    AppendInternalKey([], p)
  }

  function Trailer(key: Bytes): nat
    requires |key| >= 8
  {
    DecodeFixed(key[|key| - 8..])
  }

  function ParseInternalKey(key: Bytes): Option<Parsed> {
    if |key| < 8 then None
    else
      var p := Parsed(key[..|key| - 8], Trailer(key) / 256, Trailer(key) % 256);
      if IsValueType(p.tag) then Some(p) else None
  }

  lemma PackedFits(p: Parsed)
    requires Encodable(p)
    ensures PackSequenceAndType(p.sequence, p.tag) < Pow256(8)
  {
    EightBytes();
  }

  lemma EncodedParts(p: Parsed)
    requires Encodable(p)
    ensures var key := Encode(p);
      && |key| == |p.userKey| + 8 && key[..|key| - 8] == p.userKey
      && Trailer(key) == PackSequenceAndType(p.sequence, p.tag)
  {
    var key, packed := Encode(p), PackSequenceAndType(p.sequence, p.tag);
    PackedFits(p);
    DecodeOfEncode(packed, 8);
    assert key[|key| - 8..] == EncodeFixed(packed, 8);
  }

  /** Parsing undoes encoding. */
  lemma ParseOfEncode(p: Parsed)
    requires Encodable(p)
    ensures ParseInternalKey(Encode(p)) == Some(p)
  {
    EncodedParts(p);
  }

  /** Whatever parses is the encoding of the result, so no key has two encodings. */
  lemma EncodeOfParse(key: Bytes)
    requires ParseInternalKey(key).Some?
    ensures Encodable(ParseInternalKey(key).value) && Encode(ParseInternalKey(key).value) == key
  {
    var p := ParseInternalKey(key).value;
    var tail := key[|key| - 8..];
    EncodeOfDecode(tail);
    EightBytes();
    assert PackSequenceAndType(p.sequence, p.tag) == DecodeFixed(tail);
    assert key == key[..|key| - 8] + tail;
  }

  // ---------------------------------------------------------------- the bytes

  lemma {:induction false} ByteOfFixed(v: nat, n: nat, i: nat)
    requires i < n
    ensures EncodeFixed(v, n)[i] == v / Pow256(i) % 256
  {
    if i > 0 {
      ByteOfFixed(v / 256, n - 1, i - 1);
      DivTwice(v, Pow256(i - 1));
    }
  }

  lemma DivTwice(v: nat, p: nat)
    requires p > 0
    ensures v / 256 / p == v / (256 * p)
  {
    var q := v / 256 / p;
    var rest := v / 256 - p * q;
    assert v == 256 * (p * q + rest) + v % 256;
    assert 0 <= rest < p && 256 * rest + v % 256 < 256 * p;
    DivIs(v, 256 * p, q, 256 * rest + v % 256);
  }

  lemma Larger(d: nat, q: nat, r: nat, q': nat, r': nat)
    requires q < q' && r < d
    ensures d * q + r < d * q' + r'
  {
    assert d * q' == d * (q' - q - 1) + d * q + d;
  }

  lemma DivIs(v: nat, d: nat, q: nat, r: nat)
    requires v == d * q + r && r < d
    ensures v / d == q
  {
    if v / d < q {
      Larger(d, v / d, v % d, q, r);
    } else if v / d > q {
      Larger(d, q, r, v / d, v % d);
    }
  }

  /** The stored form: the user key, the byte of the type, and the number in seven bytes, least first. */
  ghost predicate IsStored(key: Bytes, p: Parsed) {
    && |key| == |p.userKey| + 8 && key[..|p.userKey|] == p.userKey
    && key[|p.userKey|] == p.tag
    && forall i: nat :: i < 7 ==> key[|p.userKey| + 1 + i] == p.sequence / Pow256(i) % 256
  }

  lemma EncodedIsStored(p: Parsed)
    requires Encodable(p)
    ensures IsStored(Encode(p), p)
  {
    var packed, n := PackSequenceAndType(p.sequence, p.tag), |p.userKey|;
    assert packed / Pow256(0) % 256 == p.tag;
    ByteOfFixed(packed, 8, 0);
    forall i: nat | i < 7
      ensures Encode(p)[n + 1 + i] == p.sequence / Pow256(i) % 256
    {
      ByteOfFixed(packed, 8, i + 1);
      DivTwice(packed, Pow256(i));
      assert packed / 256 == p.sequence;
    }
  }

  lemma StoredTag(key: Bytes)
    requires |key| >= 8
    ensures Trailer(key) % 256 == key[|key| - 8]
  {
  }

  /** Of the keys with eight bytes or more, exactly those parse whose type byte is that of a deletion, a put, a
      merge operand or a single deletion. */
  lemma ParsesExactly(key: Bytes)
    ensures ParseInternalKey(key).Some? <==> |key| >= 8 && key[|key| - 8] in {0x0, 0x1, 0x2, 0x7}
    ensures ParseInternalKey(key).Some? <==> |key| >= 8 && exists kind: Kind :: kind.Tag() == key[|key| - 8]
  {
    if |key| >= 8 {
      StoredTag(key);
      assert Deletion.Tag() == 0x0 && Put.Tag() == 0x1 && Kind.Merge.Tag() == 0x2 && SingleDeletion.Tag() == 0x7;
    }
  }

  /** A record of any kind has a stored key, and the key tells its kind and its number. */
  lemma KindIsStored(userKey: Bytes, sequence: nat, kind: Kind)
    requires sequence <= MAX_SEQ
    ensures var p := Parsed(userKey, sequence, kind.Tag());
      && Encodable(p) && IsStored(Encode(p), p) && ParseInternalKey(Encode(p)) == Some(p)
      && Encode(p)[|userKey|] ==
           (match kind case Deletion => 0x0 case Put => 0x1 case Merge => 0x2 case SingleDeletion => 0x7)
      && forall other: Kind :: other.Tag() == kind.Tag() ==> other == kind
  {
    var p := Parsed(userKey, sequence, kind.Tag());
    EncodedIsStored(p);
    ParseOfEncode(p);
  }

  /** Seven bytes hold exactly the numbers there are. */
  lemma NumbersFillSevenBytes(sequence: nat)
    ensures sequence <= MAX_SEQ <==> sequence < Pow256(7)
  {
    EightBytes();
    assert Pow256(8) == 256 * Pow256(7);
  }

  /** UpdateInternalKey overwrites the trailer in place. */
  function UpdateInternalKey(key: Bytes, sequence: nat, tag: nat): Bytes
    requires |key| >= 8
  {
    key[..|key| - 8] + EncodeFixed(PackSequenceAndType(sequence, tag), 8)
  }

  lemma ParseOfUpdate(p: Parsed, sequence: nat, tag: nat)
    requires Encodable(p) && sequence <= MAX_SEQ && IsValueType(tag)
    ensures |Encode(p)| >= 8
    ensures ParseInternalKey(UpdateInternalKey(Encode(p), sequence, tag)) == Some(Parsed(p.userKey, sequence, tag))
  {
    EncodedParts(p);
    var q := Parsed(p.userKey, sequence, tag);
    assert UpdateInternalKey(Encode(p), sequence, tag) == Encode(q);
    ParseOfEncode(q);
  }

  // ---------------------------------------------------------------- the two comparators

  type Comparator = (Bytes, Bytes) -> int

  /** What the database asks of a user comparator. */
  ghost predicate IsComparator(cmp: Comparator) {
    && (forall a, b :: cmp(a, b) < 0 <==> cmp(b, a) > 0)
    && (forall a, b, c :: cmp(a, b) <= 0 && cmp(b, c) <= 0 ==> cmp(a, c) <= 0)
    && (forall a :: cmp(a, a) == 0)
  }

  function CompareEncoded(cmp: Comparator, a: Bytes, b: Bytes): int
    requires |a| >= 8 && |b| >= 8
  {
    var r := cmp(a[..|a| - 8], b[..|b| - 8]);
    if r != 0 then r
    else if Trailer(a) > Trailer(b) then -1
    else if Trailer(a) < Trailer(b) then 1
    else 0
  }

  function CompareParsed(cmp: Comparator, a: Parsed, b: Parsed): int {
    var r := cmp(a.userKey, b.userKey);
    if r != 0 then r
    else if a.sequence > b.sequence then -1
    else if a.sequence < b.sequence then 1
    else if a.tag > b.tag then -1
    else if a.tag < b.tag then 1
    else 0
  }

  /** Comparing the bytes and comparing the parts give the same answer. */
  lemma ComparatorsAgree(cmp: Comparator, a: Parsed, b: Parsed)
    requires Encodable(a) && Encodable(b)
    ensures |Encode(a)| >= 8 && |Encode(b)| >= 8
    ensures CompareEncoded(cmp, Encode(a), Encode(b)) == CompareParsed(cmp, a, b)
  {
    EncodedParts(a);
    EncodedParts(b);
  }

  /** Internal keys are totally ordered, and equal only with equal user key, number and type. */
  lemma ParsedIsTotalOrder(cmp: Comparator, a: Parsed, b: Parsed, c: Parsed)
    requires IsComparator(cmp)
    ensures CompareParsed(cmp, a, b) < 0 <==> CompareParsed(cmp, b, a) > 0
    ensures CompareParsed(cmp, a, b) <= 0 && CompareParsed(cmp, b, c) <= 0 ==> CompareParsed(cmp, a, c) <= 0
    ensures CompareParsed(cmp, a, b) == 0 <==>
      cmp(a.userKey, b.userKey) == 0 && a.sequence == b.sequence && a.tag == b.tag
  {
    var x, y, z := a.userKey, b.userKey, c.userKey;
    assert cmp(x, y) < 0 <==> cmp(y, x) > 0;
    assert cmp(y, x) < 0 <==> cmp(x, y) > 0;
    assert cmp(y, z) < 0 <==> cmp(z, y) > 0;
    assert cmp(x, z) < 0 <==> cmp(z, x) > 0;
    assert cmp(x, y) <= 0 && cmp(y, z) <= 0 ==> cmp(x, z) <= 0;
    assert cmp(z, x) <= 0 && cmp(x, y) <= 0 ==> cmp(z, y) <= 0;
    assert cmp(y, z) <= 0 && cmp(z, x) <= 0 ==> cmp(y, x) <= 0;
  }

  /** The internal key of a record, when user keys are stored in some way. */
  function KeyOf(stored: UserKey -> Bytes, e: Entry): Parsed {
    Parsed(stored(e.key), e.seqno, e.kind.Tag())
  }

  /** The order of records is that of their stored keys. */
  lemma RecordsFollowKeys(cmp: Comparator, stored: UserKey -> Bytes, a: Entry, b: Entry)
    requires IsComparator(cmp) && a.seqno <= MAX_SEQ && b.seqno <= MAX_SEQ
    requires forall x, y :: x < y <==> cmp(stored(x), stored(y)) < 0
    ensures |Encode(KeyOf(stored, a))| >= 8 && |Encode(KeyOf(stored, b))| >= 8
    ensures CompareEncoded(cmp, Encode(KeyOf(stored, a)), Encode(KeyOf(stored, b))) < 0 <==>
      Precedes(a, b) || (a.key == b.key && a.seqno == b.seqno && a.kind.Tag() > b.kind.Tag())
  {
    ComparatorsAgree(cmp, KeyOf(stored, a), KeyOf(stored, b));
    assert a.key < b.key <==> cmp(stored(a.key), stored(b.key)) < 0;
    assert b.key < a.key <==> cmp(stored(b.key), stored(a.key)) < 0;
  }

  /** The keys that bound all others of one user key. */
  function MaxPossibleForUserKey(userKey: Bytes): Parsed {
    Parsed(userKey, MAX_SEQ, TYPE_SINGLE_DELETION)
  }

  function MinPossibleForUserKey(userKey: Bytes): Parsed {
    Parsed(userKey, 0, 0)
  }

  /** In the order of internal keys the one called maximal comes first and the one called minimal last. */
  lemma ExtremesOfUserKey(cmp: Comparator, p: Parsed)
    requires IsComparator(cmp) && Encodable(p)
    ensures CompareParsed(cmp, MaxPossibleForUserKey(p.userKey), p) <= 0
    ensures CompareParsed(cmp, p, MinPossibleForUserKey(p.userKey)) <= 0
  {
  }

  /** A user key strictly between two others, with the largest number, separates their internal keys;
      without an upper limit it follows all of the first. */
  lemma SeparatorIsBetween(cmp: Comparator, start: Parsed, limit: Parsed, userKey: Bytes)
    requires IsComparator(cmp) && Encodable(start) && Encodable(limit)
    requires cmp(start.userKey, userKey) < 0 && cmp(userKey, limit.userKey) < 0
    ensures |Encode(start)| >= 8 && |Encode(limit)| >= 8 && |Encode(MaxPossibleForUserKey(userKey))| >= 8
    ensures CompareEncoded(cmp, Encode(start), Encode(MaxPossibleForUserKey(userKey))) < 0
    ensures CompareEncoded(cmp, Encode(MaxPossibleForUserKey(userKey)), Encode(limit)) < 0
  {
    ComparatorsAgree(cmp, start, MaxPossibleForUserKey(userKey));
    ComparatorsAgree(cmp, MaxPossibleForUserKey(userKey), limit);
  }
}
