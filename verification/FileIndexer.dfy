/** Bounds that a search on one level hands to the search on the next. */
module FileIndexing {
  import opened Format
  import opened CompactFiles

  // ---------------------------------------------------------------- lower bounds

  ghost predicate Increasing(ks: seq<UserKey>) {
    forall i, k :: 0 <= i < k < |ks| ==> ks[i] <= ks[k]
  }

  /** The left-most key that is not below k, or the end. */
  function FirstAtLeast(ks: seq<UserKey>, k: UserKey): (r: nat)
    ensures r <= |ks|
    ensures forall i :: 0 <= i < r ==> ks[i] < k
    ensures r < |ks| ==> k <= ks[r]
  {
    if ks == [] || k <= ks[0] then 0 else 1 + FirstAtLeast(ks[1..], k)
  }

  /** The right-most key that is not above k, or -1. */
  function LastAtMost(ks: seq<UserKey>, k: UserKey): (r: int)
    ensures -1 <= r < |ks|
    ensures forall i :: r < i < |ks| ==> ks[i] > k
    ensures r >= 0 ==> ks[r] <= k
  {
    if ks == [] then -1
    else if ks[|ks| - 1] <= k then |ks| - 1
    else LastAtMost(ks[..|ks| - 1], k)
  }

  /** Two equal keys of the upper level meet that key on the lower level. */
  ghost predicate Tie(upper: seq<UserKey>, lower: seq<UserKey>, u: nat) {
    u + 1 < |upper| && upper[u] == upper[u + 1] && upper[u] in lower
  }

  ghost predicate NoTie(upper: seq<UserKey>, lower: seq<UserKey>) {
    forall u: nat :: !Tie(upper, lower, u)
  }

  /** The merge of CalculateLB from the places u and l on. */
  function LowerBounds(upper: seq<UserKey>, lower: seq<UserKey>, u: nat, l: nat): (r: seq<nat>)
    requires u <= |upper| && l <= |lower|
    ensures |r| == |upper| - u
    decreases |upper| - u + |lower| - l
  {
    if u == |upper| then []
    else if l == |lower| then [|lower|] + LowerBounds(upper, lower, u + 1, l)
    else if upper[u] == lower[l] then [l] + LowerBounds(upper, lower, u + 1, l + 1)
    else if upper[u] > lower[l] then LowerBounds(upper, lower, u, l + 1)
    else [l] + LowerBounds(upper, lower, u + 1, l)
  }

  method CalculateLB(upper: seq<UserKey>, lower: seq<UserKey>) returns (r: seq<nat>)
    ensures r == LowerBounds(upper, lower, 0, 0)
  {
    var u, l := 0, 0;
    r := [];
    while u < |upper| && l < |lower|
      invariant u <= |upper| && l <= |lower|
      invariant r + LowerBounds(upper, lower, u, l) == LowerBounds(upper, lower, 0, 0)
      decreases |upper| - u + |lower| - l
    {
      ghost var rest := LowerBounds(upper, lower, u, l);
      if upper[u] == lower[l] {
        assert r + rest == r + [l] + rest[1..];
        r, u, l := r + [l], u + 1, l + 1;
      } else if upper[u] > lower[l] {
        l := l + 1;
      } else {
        assert r + rest == r + [l] + rest[1..];
        r, u := r + [l], u + 1;
      }
    }
    while u < |upper|
      invariant u <= |upper| && (u < |upper| ==> l == |lower|)
      invariant r + LowerBounds(upper, lower, u, l) == LowerBounds(upper, lower, 0, 0)
    {
      ghost var rest := LowerBounds(upper, lower, u, l);
      assert r + rest == r + [|lower|] + rest[1..];
      r, u := r + [|lower|], u + 1;
    }
  }

  /** The key at u stands before u already. */
  predicate Repeats(ks: seq<UserKey>, u: nat) {
    0 < u < |ks| && ks[u - 1] == ks[u]
  }

  /** The merge is about to look for the bound of upper key u, l lower keys having been passed. */
  ghost predicate Reaches(upper: seq<UserKey>, lower: seq<UserKey>, u: nat, l: nat) {
    && u < |upper| && l <= |lower|
    && (forall j :: 0 <= j < l ==> lower[j] < upper[u] || (lower[j] == upper[u] && Repeats(upper, u)))
    && (Repeats(upper, u) && upper[u] in lower ==> FirstAtLeast(lower, upper[u]) < l)
  }

  /** r is the first lower key not below upper key i, unless equal keys before i have used it up. */
  ghost predicate IsLowerBound(upper: seq<UserKey>, lower: seq<UserKey>, i: nat, r: nat)
    requires i < |upper|
  {
    && FirstAtLeast(lower, upper[i]) <= r <= |lower|
    && (forall j :: FirstAtLeast(lower, upper[i]) <= j < r ==> lower[j] == upper[i])
    && (FirstAtLeast(lower, upper[i]) < r <==> Repeats(upper, i) && upper[i] in lower)
  }

  lemma {:induction false} FirstOfMember(lower: seq<UserKey>, k: UserKey)
    requires Increasing(lower)
    ensures k in lower <==> FirstAtLeast(lower, k) < |lower| && lower[FirstAtLeast(lower, k)] == k
  {
    var first := FirstAtLeast(lower, k);
    if i :| 0 <= i < |lower| && lower[i] == k {
      assert first <= i;
      assert first < i ==> lower[first] <= lower[i];
    }
  }

  /** Upper key u gets the bound l. */
  lemma FoundLower(upper: seq<UserKey>, lower: seq<UserKey>, u: nat, l: nat)
    requires Increasing(upper) && Increasing(lower) && Reaches(upper, lower, u, l)
    requires l < |lower| ==> upper[u] <= lower[l]
    ensures IsLowerBound(upper, lower, u, l)
    ensures u + 1 < |upper| ==>
      Reaches(upper, lower, u + 1, if l < |lower| && upper[u] == lower[l] then l + 1 else l)
  {
    FirstOfMember(lower, upper[u]);
    var first := FirstAtLeast(lower, upper[u]);
    assert forall j :: first <= j < l ==> lower[first] <= lower[j];
    assert u + 1 < |upper| ==> upper[u] <= upper[u + 1];
  }

  lemma SkippedLower(upper: seq<UserKey>, lower: seq<UserKey>, u: nat, l: nat)
    requires Reaches(upper, lower, u, l) && l < |lower| && upper[u] > lower[l]
    ensures Reaches(upper, lower, u, l + 1)
    ensures LowerBounds(upper, lower, u, l) == LowerBounds(upper, lower, u, l + 1)
  {
  }

  lemma TookLower(upper: seq<UserKey>, lower: seq<UserKey>, u: nat, l: nat)
    requires u < |upper| && l <= |lower| && (l < |lower| ==> upper[u] <= lower[l])
    ensures var l' := if l < |lower| && upper[u] == lower[l] then l + 1 else l;
      LowerBounds(upper, lower, u, l) == [l] + LowerBounds(upper, lower, u + 1, l')
  {
  }

  lemma {:induction false} LowerBoundAt(upper: seq<UserKey>, lower: seq<UserKey>, u: nat, l: nat, i: nat)
    returns (r: nat)
    requires Increasing(upper) && Increasing(lower) && Reaches(upper, lower, u, l) && u <= i < |upper|
    ensures r == LowerBounds(upper, lower, u, l)[i - u] && IsLowerBound(upper, lower, i, r)
    decreases |upper| - u + |lower| - l
  {
    if l < |lower| && upper[u] > lower[l] {
      SkippedLower(upper, lower, u, l);
      r := LowerBoundAt(upper, lower, u, l + 1, i);
    } else {
      FoundLower(upper, lower, u, l);
      TookLower(upper, lower, u, l);
      r := l;
      if i > u {
        r := LowerBoundAt(upper, lower, u + 1, if l < |lower| && upper[u] == lower[l] then l + 1 else l, i);
      }
    }
  }

  /** The merge is right for every upper key exactly when there is no tie. */
  lemma LowerBoundsExact(upper: seq<UserKey>, lower: seq<UserKey>)
    requires Increasing(upper) && Increasing(lower)
    ensures (forall i :: 0 <= i < |upper| ==> LowerBounds(upper, lower, 0, 0)[i] == FirstAtLeast(lower, upper[i]))
      <==> NoTie(upper, lower)
  {
    forall i | 0 <= i < |upper|
      ensures IsLowerBound(upper, lower, i, LowerBounds(upper, lower, 0, 0)[i])
      ensures i > 0 ==> (Repeats(upper, i) && upper[i] in lower <==> Tie(upper, lower, i - 1))
    {
      var r := LowerBoundAt(upper, lower, 0, 0, i);
    }
    if u: nat :| Tie(upper, lower, u) {
      assert Repeats(upper, u + 1);
    }
  }

  // ---------------------------------------------------------------- upper bounds

  /** The merge of CalculateRB while u upper and l lower keys are left. */
  function UpperBounds(upper: seq<UserKey>, lower: seq<UserKey>, u: nat, l: nat): (r: seq<int>)
    requires u <= |upper| && l <= |lower|
    ensures |r| == u
    decreases u + l
  {
    if u == 0 then []
    else if l == 0 then UpperBounds(upper, lower, u - 1, 0) + [-1]
    else if upper[u - 1] == lower[l - 1] then UpperBounds(upper, lower, u - 1, l - 1) + [l - 1]
    else if upper[u - 1] < lower[l - 1] then UpperBounds(upper, lower, u, l - 1)
    else UpperBounds(upper, lower, u - 1, l) + [l - 1]
  }

  method CalculateRB(upper: seq<UserKey>, lower: seq<UserKey>) returns (r: seq<int>)
    ensures r == UpperBounds(upper, lower, |upper|, |lower|)
  {
    var u, l := |upper| - 1, |lower| - 1;
    r := [];
    while u >= 0 && l >= 0
      invariant -1 <= u < |upper| && -1 <= l < |lower|
      invariant UpperBounds(upper, lower, u + 1, l + 1) + r == UpperBounds(upper, lower, |upper|, |lower|)
      decreases u + l + 2
    {
      ghost var rest := UpperBounds(upper, lower, u + 1, l + 1);
      if upper[u] == lower[l] {
        assert rest + r == rest[..u] + ([l] + r);
        r, u, l := [l] + r, u - 1, l - 1;
      } else if upper[u] < lower[l] {
        l := l - 1;
      } else {
        assert rest + r == rest[..u] + ([l] + r);
        r, u := [l] + r, u - 1;
      }
    }
    while u >= 0
      invariant -1 <= u < |upper| && (u >= 0 ==> l == -1)
      invariant UpperBounds(upper, lower, u + 1, l + 1) + r == UpperBounds(upper, lower, |upper|, |lower|)
      decreases u + 1
    {
      ghost var rest := UpperBounds(upper, lower, u + 1, l + 1);
      assert rest + r == rest[..u] + ([-1] + r);
      r, u := [-1] + r, u - 1;
    }
  }

  /** Before upper key u - 1 is looked at, with l lower keys left. */
  ghost predicate ReachesDown(upper: seq<UserKey>, lower: seq<UserKey>, u: nat, l: nat) {
    && 0 < u <= |upper| && l <= |lower|
    && (forall j :: l <= j < |lower| ==> lower[j] > upper[u - 1] || (lower[j] == upper[u - 1] && Repeats(upper, u)))
    && (Repeats(upper, u) && upper[u - 1] in lower ==> l <= LastAtMost(lower, upper[u - 1]))
  }

  ghost predicate IsUpperBound(upper: seq<UserKey>, lower: seq<UserKey>, i: nat, r: int)
    requires i < |upper|
  {
    && -1 <= r <= LastAtMost(lower, upper[i])
    && (forall j :: r < j <= LastAtMost(lower, upper[i]) ==> 0 <= j && lower[j] == upper[i])
    && (r < LastAtMost(lower, upper[i]) <==> Repeats(upper, i + 1) && upper[i] in lower)
  }

  lemma {:induction false} LastOfMember(lower: seq<UserKey>, k: UserKey)
    requires Increasing(lower)
    ensures k in lower <==> LastAtMost(lower, k) >= 0 && lower[LastAtMost(lower, k)] == k
  {
    var last := LastAtMost(lower, k);
    if i :| 0 <= i < |lower| && lower[i] == k {
      assert i <= last;
      assert i < last ==> lower[i] <= lower[last];
    }
  }

  lemma FoundUpper(upper: seq<UserKey>, lower: seq<UserKey>, u: nat, l: nat)
    requires Increasing(upper) && Increasing(lower) && ReachesDown(upper, lower, u, l)
    requires l > 0 ==> lower[l - 1] <= upper[u - 1]
    ensures IsUpperBound(upper, lower, u - 1, l - 1)
    ensures u > 1 ==> ReachesDown(upper, lower, u - 1, if l > 0 && upper[u - 1] == lower[l - 1] then l - 1 else l)
  {
    LastOfMember(lower, upper[u - 1]);
    var last := LastAtMost(lower, upper[u - 1]);
    assert forall j :: l <= j <= last ==> lower[j] <= lower[last];
    assert u > 1 ==> upper[u - 2] <= upper[u - 1];
  }

  lemma {:induction false} UpperBoundAt(upper: seq<UserKey>, lower: seq<UserKey>, u: nat, l: nat, i: nat)
    requires Increasing(upper) && Increasing(lower) && ReachesDown(upper, lower, u, l) && i < u
    ensures IsUpperBound(upper, lower, i, UpperBounds(upper, lower, u, l)[i])
    decreases u + l
  {
    if l > 0 && upper[u - 1] < lower[l - 1] {
      UpperBoundAt(upper, lower, u, l - 1, i);
    } else {
      FoundUpper(upper, lower, u, l);
      if i < u - 1 {
        UpperBoundAt(upper, lower, u - 1, if l > 0 && upper[u - 1] == lower[l - 1] then l - 1 else l, i);
      }
    }
  }

  lemma UpperBoundsExact(upper: seq<UserKey>, lower: seq<UserKey>)
    requires Increasing(upper) && Increasing(lower)
    ensures (forall i :: 0 <= i < |upper| ==>
      UpperBounds(upper, lower, |upper|, |lower|)[i] == LastAtMost(lower, upper[i]))
      <==> NoTie(upper, lower)
  {
    forall i | 0 <= i < |upper|
      ensures IsUpperBound(upper, lower, i, UpperBounds(upper, lower, |upper|, |lower|)[i])
      ensures Repeats(upper, i + 1) && upper[i] in lower <==> Tie(upper, lower, i)
    {
      UpperBoundAt(upper, lower, |upper|, |lower|, i);
    }
  }

  // ---------------------------------------------------------------- the index of a level

  function Smallests(fs: seq<Meta>): (r: seq<UserKey>)
    ensures |r| == |fs| && forall i :: 0 <= i < |fs| ==> r[i] == fs[i].smallest
  {
    seq(|fs|, i requires 0 <= i < |fs| => fs[i].smallest)
  }

  function Largests(fs: seq<Meta>): (r: seq<UserKey>)
    ensures |r| == |fs| && forall i :: 0 <= i < |fs| ==> r[i] == fs[i].largest
  {
    seq(|fs|, i requires 0 <= i < |fs| => fs[i].largest)
  }

  datatype IndexUnit = IndexUnit(smallestLb: nat, largestLb: nat, smallestRb: int, largestRb: int)

  /** What the four merges compute for upper file u. */
  function UnitOf(upper: seq<Meta>, lower: seq<Meta>, u: nat): IndexUnit
    requires u < |upper|
  {
    IndexUnit(LowerBounds(Smallests(upper), Largests(lower), 0, 0)[u],
              LowerBounds(Largests(upper), Largests(lower), 0, 0)[u],
              UpperBounds(Smallests(upper), Smallests(lower), |upper|, |lower|)[u],
              UpperBounds(Largests(upper), Smallests(lower), |upper|, |lower|)[u])
  }

  ghost predicate IsIndex(upper: seq<Meta>, lower: seq<Meta>, index: seq<IndexUnit>) {
    |index| == |upper| && forall u :: 0 <= u < |upper| ==> index[u] == UnitOf(upper, lower, u)
  }

  /** The four bounds of a file, exactly. */
  ghost predicate IsUnit(upper: seq<Meta>, lower: seq<Meta>, u: nat, unit: IndexUnit)
    requires u < |upper|
  {
    && IsLowerBound(Smallests(upper), Largests(lower), u, unit.smallestLb)
    && IsLowerBound(Largests(upper), Largests(lower), u, unit.largestLb)
    && IsUpperBound(Smallests(upper), Smallests(lower), u, unit.smallestRb)
    && IsUpperBound(Largests(upper), Smallests(lower), u, unit.largestRb)
  }

  ghost predicate NoTies(upper: seq<Meta>, lower: seq<Meta>) {
    && NoTie(Smallests(upper), Largests(lower)) && NoTie(Largests(upper), Largests(lower))
    && NoTie(Smallests(upper), Smallests(lower)) && NoTie(Largests(upper), Smallests(lower))
  }

  /** Files with disjoint ranges leave no ties. */
  lemma DisjointHasNoTies(upper: seq<Meta>, lower: seq<Meta>)
    requires SortedLevel(upper) && forall i, k :: 0 <= i < k < |upper| ==> upper[i].largest < upper[k].smallest
    ensures NoTies(upper, lower)
  {
  }

  lemma KeysIncrease(fs: seq<Meta>)
    requires SortedLevel(fs)
    ensures Increasing(Smallests(fs)) && Increasing(Largests(fs))
  {
  }

  /** The merges give the bounds of every file. */
  lemma MergesAreBounds(upper: seq<UserKey>, largests: seq<UserKey>, smallests: seq<UserKey>, u: nat)
    requires Increasing(upper) && Increasing(largests) && Increasing(smallests) && u < |upper|
    ensures IsLowerBound(upper, largests, u, LowerBounds(upper, largests, 0, 0)[u])
    ensures IsUpperBound(upper, smallests, u, UpperBounds(upper, smallests, |upper|, |smallests|)[u])
  {
    var r := LowerBoundAt(upper, largests, 0, 0, u);
    UpperBoundAt(upper, smallests, |upper|, |smallests|, u);
  }

  lemma UnitIsRight(upper: seq<Meta>, lower: seq<Meta>, u: nat)
    requires SortedLevel(upper) && SortedLevel(lower) && u < |upper|
    ensures IsUnit(upper, lower, u, UnitOf(upper, lower, u))
  {
    KeysIncrease(upper);
    KeysIncrease(lower);
    MergesAreBounds(Smallests(upper), Largests(lower), Smallests(lower), u);
    MergesAreBounds(Largests(upper), Largests(lower), Smallests(lower), u);
  }

  method CalculateIndex(upper: seq<Meta>, lower: seq<Meta>) returns (index: seq<IndexUnit>)
    ensures IsIndex(upper, lower, index)
  {
    var a := CalculateLB(Smallests(upper), Largests(lower));
    var b := CalculateLB(Largests(upper), Largests(lower));
    var c := CalculateRB(Smallests(upper), Smallests(lower));
    var d := CalculateRB(Largests(upper), Smallests(lower));
    index := seq(|upper|, i requires 0 <= i < |upper| => IndexUnit(a[i], b[i], c[i], d[i]));
  }

  function Compare(a: UserKey, b: UserKey): int {
    if a < b then -1 else if a == b then 0 else 1
  }

  /** No file that contains the key lies left of the bound. */
  ghost predicate LeavesNone(lower: seq<Meta>, key: UserKey, left: int) {
    forall j :: 0 <= j < |lower| && lower[j].Contains(key) ==> left <= j
  }

  /** No file that contains the key lies right of the bound. */
  ghost predicate ReachesAll(lower: seq<Meta>, key: UserKey, right: int) {
    forall j :: 0 <= j < |lower| && lower[j].Contains(key) ==> j <= right
  }

  /** The lower file ends before upper file u, or with it and with the file before that. */
  predicate EndsBefore(f: Meta, upper: seq<Meta>, u: nat)
    requires u < |upper|
  {
    f.largest < upper[u].largest || (f.largest == upper[u].largest && Repeats(Largests(upper), u))
  }

  /** The left bound after comparing key with upper file u is past a lower file that contains key: the file
      in front starts at the key, too, and a lower file ends there; or key is before file u, and a lower
      file with the key ends before the file in front, or with it and with the one before that. */
  ghost predicate HidesLeft(upper: seq<Meta>, lower: seq<Meta>, u: nat, key: UserKey)
    requires u < |upper|
  {
    if key < upper[u].smallest then
      u > 0 && exists j :: 0 <= j < |lower| && lower[j].Contains(key) && EndsBefore(lower[j], upper, u - 1)
    else key == upper[u].smallest && Repeats(Smallests(upper), u) && key in Largests(lower)
  }

  /** The right bound is before one: the key is an end of the file that the file behind it shares, and a
      lower file starts there. */
  ghost predicate HidesRight(upper: seq<Meta>, lower: seq<Meta>, u: nat, key: UserKey)
    requires u < |upper|
  {
    && key in Smallests(lower)
    && (|| (key == upper[u].smallest && Repeats(Smallests(upper), u + 1))
        || (upper[u].smallest < key == upper[u].largest && Repeats(Largests(upper), u + 1)))
  }

  /** The bounds that GetNextLevelIndex reads off the index. */
  function LeftBound(upper: seq<Meta>, lower: seq<Meta>, u: nat, key: UserKey): nat
    requires u < |upper|
  {
    if key < upper[u].smallest then (if u > 0 then UnitOf(upper, lower, u - 1).largestLb else 0)
    else if key < upper[u].largest || key == upper[u].smallest then UnitOf(upper, lower, u).smallestLb
    else UnitOf(upper, lower, u).largestLb
  }

  function RightBound(upper: seq<Meta>, lower: seq<Meta>, u: nat, key: UserKey): int
    requires u < |upper|
  {
    if key <= upper[u].smallest then UnitOf(upper, lower, u).smallestRb
    else if key <= upper[u].largest then UnitOf(upper, lower, u).largestRb
    else |lower| - 1
  }

  /** Files left of a lower bound of k end before k, or with it if equal upper keys came before. */
  lemma LeftOf(upper: seq<UserKey>, lower: seq<Meta>, i: nat, r: nat, j: nat)
    requires SortedLevel(lower) && i < |upper| && IsLowerBound(upper, Largests(lower), i, r) && j < |lower|
    ensures j < r ==> lower[j].largest < upper[i] || (lower[j].largest == upper[i] && Repeats(upper, i))
    ensures j >= r ==> upper[i] <= lower[j].largest
    ensures lower[j].largest == upper[i] && Repeats(upper, i) && (j > 0 ==> lower[j - 1].largest < upper[i]) ==> j < r
  {
    KeysIncrease(lower);
    var ks := Largests(lower);
    var first := FirstAtLeast(ks, upper[i]);
    assert j < first ==> ks[j] < upper[i];
    assert first <= j ==> ks[first] <= ks[j];
    assert 0 < first <= |lower| ==> ks[first - 1] < upper[i];
    assert ks[j] in ks;
    assert first < j ==> ks[first] <= ks[j - 1];
  }

  lemma RightOf(upper: seq<UserKey>, lower: seq<Meta>, i: nat, r: int, j: nat)
    requires SortedLevel(lower) && i < |upper| && IsUpperBound(upper, Smallests(lower), i, r) && j < |lower|
    ensures j > r ==> lower[j].smallest > upper[i] || (lower[j].smallest == upper[i] && Repeats(upper, i + 1))
    ensures j <= r ==> lower[j].smallest <= upper[i]
  {
    KeysIncrease(lower);
    var ks := Smallests(lower);
    var last := LastAtMost(ks, upper[i]);
    assert j > last ==> ks[j] > upper[i];
    assert j <= last ==> ks[j] <= ks[last];
    assert ks[j] in ks;
  }

  /** A lower file with the first occurrence of an end is left of the bound of a repeated upper key. */
  lemma TieOnTheLeft(upper: seq<UserKey>, lower: seq<Meta>, i: nat, r: nat)
    requires SortedLevel(lower) && i < |upper| && IsLowerBound(upper, Largests(lower), i, r)
    requires Repeats(upper, i) && upper[i] in Largests(lower)
    ensures exists j :: 0 <= j < |lower| && lower[j].largest == upper[i] && j < r
  {
    KeysIncrease(lower);
    FirstOfMember(Largests(lower), upper[i]);
    var j := FirstAtLeast(Largests(lower), upper[i]);
    assert Largests(lower)[j] == upper[i] && j < r;
  }

  lemma TieOnTheRight(upper: seq<UserKey>, lower: seq<Meta>, i: nat, r: int)
    requires SortedLevel(lower) && i < |upper| && IsUpperBound(upper, Smallests(lower), i, r)
    requires Repeats(upper, i + 1) && upper[i] in Smallests(lower)
    ensures exists j :: 0 <= j < |lower| && lower[j].smallest == upper[i] && j > r
  {
    KeysIncrease(lower);
    LastOfMember(Smallests(lower), upper[i]);
    var j := LastAtMost(Smallests(lower), upper[i]);
    assert Smallests(lower)[j] == upper[i] && j > r;
  }

  lemma HiddenInFront(upper: seq<Meta>, lower: seq<Meta>, u: nat, r: nat, key: UserKey, j: nat)
    requires SortedLevel(lower) && u < |upper| && IsLowerBound(Largests(upper), Largests(lower), u, r) && j < |lower|
    requires lower[j].Contains(key) && EndsBefore(lower[j], upper, u)
    ensures exists i :: 0 <= i < r && i < |lower| && lower[i].Contains(key)
  {
    if lower[j].largest == upper[u].largest == key {
      assert Largests(lower)[j] in Largests(lower);
      TieOnTheLeft(Largests(upper), lower, u, r);
      var i :| 0 <= i < |lower| && lower[i].largest == upper[u].largest && i < r;
      assert lower[i].Contains(key);
    } else {
      assert j > 0 ==> lower[j - 1].largest <= lower[j].smallest;
      LeftOf(Largests(upper), lower, u, r, j);
    }
  }

  lemma PassedOnTheLeft(upper: seq<Meta>, lower: seq<Meta>, u: nat, key: UserKey, j: nat)
    requires SortedLevel(upper) && SortedLevel(lower) && u < |upper| && j < |lower| && lower[j].Contains(key)
    requires j < LeftBound(upper, lower, u, key)
    ensures HidesLeft(upper, lower, u, key)
  {
    var unit := UnitOf(upper, lower, u);
    UnitIsRight(upper, lower, u);
    assert Largests(lower)[j] in Largests(lower);
    if key < upper[u].smallest {
      UnitIsRight(upper, lower, u - 1);
      LeftOf(Largests(upper), lower, u - 1, UnitOf(upper, lower, u - 1).largestLb, j);
    } else if key < upper[u].largest || key == upper[u].smallest {
      LeftOf(Smallests(upper), lower, u, unit.smallestLb, j);
    } else {
      LeftOf(Largests(upper), lower, u, unit.largestLb, j);
    }
  }

  /** The left bound is past a file that contains the key exactly where HidesLeft says. */
  lemma LeftIsExact(upper: seq<Meta>, lower: seq<Meta>, u: nat, key: UserKey)
    requires SortedLevel(upper) && SortedLevel(lower) && u < |upper|
    ensures LeavesNone(lower, key, LeftBound(upper, lower, u, key)) <==> !HidesLeft(upper, lower, u, key)
  {
    if HidesLeft(upper, lower, u, key) {
      if key < upper[u].smallest {
        UnitIsRight(upper, lower, u - 1);
        var j :| 0 <= j < |lower| && lower[j].Contains(key) && EndsBefore(lower[j], upper, u - 1);
        HiddenInFront(upper, lower, u - 1, UnitOf(upper, lower, u - 1).largestLb, key, j);
      } else {
        UnitIsRight(upper, lower, u);
        TieOnTheLeft(Smallests(upper), lower, u, UnitOf(upper, lower, u).smallestLb);
      }
    } else {
      forall j | 0 <= j < |lower| && lower[j].Contains(key)
        ensures LeftBound(upper, lower, u, key) <= j
      {
        if j < LeftBound(upper, lower, u, key) {
          PassedOnTheLeft(upper, lower, u, key, j);
        }
      }
    }
  }

  lemma RightOfUnit(upper: seq<UserKey>, lower: seq<Meta>, u: nat, r: int, key: UserKey, j: nat)
    requires SortedLevel(lower) && u < |upper| && IsUpperBound(upper, Smallests(lower), u, r) && key <= upper[u]
    requires j < |lower| && lower[j].Contains(key) && j > r
    ensures key == upper[u] && Repeats(upper, u + 1) && key in Smallests(lower)
  {
    RightOf(upper, lower, u, r, j);
    assert Smallests(lower)[j] in Smallests(lower);
  }

  lemma MissedOnTheRight(upper: seq<Meta>, lower: seq<Meta>, u: nat, key: UserKey, j: nat)
    requires SortedLevel(upper) && SortedLevel(lower) && u < |upper| && j < |lower| && lower[j].Contains(key)
    requires j > RightBound(upper, lower, u, key)
    ensures HidesRight(upper, lower, u, key)
  {
    UnitIsRight(upper, lower, u);
    if key <= upper[u].smallest {
      RightOfUnit(Smallests(upper), lower, u, UnitOf(upper, lower, u).smallestRb, key, j);
    } else {
      RightOfUnit(Largests(upper), lower, u, UnitOf(upper, lower, u).largestRb, key, j);
    }
  }

  lemma RightIsExact(upper: seq<Meta>, lower: seq<Meta>, u: nat, key: UserKey)
    requires SortedLevel(upper) && SortedLevel(lower) && u < |upper|
    ensures ReachesAll(lower, key, RightBound(upper, lower, u, key)) <==> !HidesRight(upper, lower, u, key)
  {
    if HidesRight(upper, lower, u, key) {
      UnitIsRight(upper, lower, u);
      if key == upper[u].smallest {
        TieOnTheRight(Smallests(upper), lower, u, UnitOf(upper, lower, u).smallestRb);
      } else {
        TieOnTheRight(Largests(upper), lower, u, UnitOf(upper, lower, u).largestRb);
      }
    } else {
      forall j | 0 <= j < |lower| && lower[j].Contains(key)
        ensures j <= RightBound(upper, lower, u, key)
      {
        if j > RightBound(upper, lower, u, key) {
          MissedOnTheRight(upper, lower, u, key, j);
        }
      }
    }
  }

  /** The caller's search stops at the first file that does not end before the key. */
  predicate SearchedTo(upper: seq<Meta>, u: nat, key: UserKey)
    requires u < |upper|
  {
    key < upper[u].smallest && u > 0 ==> upper[u - 1].largest <= key
  }

  /** A left and a right bound can only cross when both are off at one key. */
  lemma BoundsCross(a: seq<UserKey>, i: nat, left: nat, b: seq<UserKey>, k: nat, right: int, lower: seq<Meta>)
    requires SortedLevel(lower) && i < |a| && k < |b| && a[i] <= b[k]
    requires IsLowerBound(a, Largests(lower), i, left) && IsUpperBound(b, Smallests(lower), k, right)
    ensures -1 <= right < |lower| && left <= |lower|
    ensures left <= right + 1 || (a[i] == b[k] && Repeats(a, i) && a[i] in Largests(lower))
  {
    var j := right + 1;
    if j < |lower| {
      LeftOf(a, lower, i, left, j);
      RightOf(b, lower, k, right, j);
      assert Largests(lower)[j] in Largests(lower);
    }
  }

  /** The bounds are in range, and meet unless one of them is off. */
  lemma BoundsMeet(upper: seq<Meta>, lower: seq<Meta>, u: nat, key: UserKey)
    requires SortedLevel(upper) && SortedLevel(lower) && u < |upper|
    ensures LeftBound(upper, lower, u, key) <= |lower| && -1 <= RightBound(upper, lower, u, key) < |lower|
    ensures SearchedTo(upper, u, key) && !HidesLeft(upper, lower, u, key) ==>
      LeftBound(upper, lower, u, key) <= RightBound(upper, lower, u, key) + 1
  {
    var unit, ss, ls := UnitOf(upper, lower, u), Smallests(upper), Largests(upper);
    UnitIsRight(upper, lower, u);
    if key < upper[u].smallest {
      if u > 0 {
        UnitIsRight(upper, lower, u - 1);
        BoundsCross(ls, u - 1, UnitOf(upper, lower, u - 1).largestLb, ss, u, unit.smallestRb, lower);
      }
    } else if key == upper[u].smallest {
      BoundsCross(ss, u, unit.smallestLb, ss, u, unit.smallestRb, lower);
    } else if key < upper[u].largest {
      BoundsCross(ss, u, unit.smallestLb, ls, u, unit.largestRb, lower);
    } else if key == upper[u].largest {
      BoundsCross(ls, u, unit.largestLb, ls, u, unit.largestRb, lower);
    }
  }

  ghost predicate PassedLeft(lower: seq<Meta>, key: UserKey, left: int) {
    forall j :: 0 <= j < left && j < |lower| ==> lower[j].largest <= key
  }

  lemma PassedByBound(upper: seq<UserKey>, lower: seq<Meta>, i: nat, r: nat, key: UserKey)
    requires SortedLevel(lower) && i < |upper| && IsLowerBound(upper, Largests(lower), i, r) && upper[i] <= key
    ensures PassedLeft(lower, key, r)
  {
    forall j | 0 <= j < r && j < |lower|
      ensures lower[j].largest <= key
    {
      LeftOf(upper, lower, i, r, j);
    }
  }

  /** What lies left of the bounds does not reach past the key. */
  lemma LeftIsPassed(upper: seq<Meta>, lower: seq<Meta>, u: nat, key: UserKey)
    requires SortedLevel(upper) && SortedLevel(lower) && u < |upper| && SearchedTo(upper, u, key)
    ensures PassedLeft(lower, key, LeftBound(upper, lower, u, key))
  {
    if key >= upper[u].smallest {
      UnitIsRight(upper, lower, u);
      PassedByBound(Smallests(upper), lower, u, UnitOf(upper, lower, u).smallestLb, key);
      if key >= upper[u].largest {
        PassedByBound(Largests(upper), lower, u, UnitOf(upper, lower, u).largestLb, key);
      }
    } else if u > 0 {
      UnitIsRight(upper, lower, u - 1);
      PassedByBound(Largests(upper), lower, u - 1, UnitOf(upper, lower, u - 1).largestLb, key);
    }
  }

  /** One look, for every outcome of the comparisons. */
  lemma BoundsAreExact(upper: seq<Meta>, lower: seq<Meta>, u: nat, key: UserKey)
    requires SortedLevel(upper) && SortedLevel(lower) && u < |upper|
    ensures var left, right := LeftBound(upper, lower, u, key), RightBound(upper, lower, u, key);
      && (LeavesNone(lower, key, left) <==> !HidesLeft(upper, lower, u, key))
      && (ReachesAll(lower, key, right) <==> !HidesRight(upper, lower, u, key))
      && 0 <= left <= |lower| && -1 <= right < |lower|
      && (SearchedTo(upper, u, key) && !HidesLeft(upper, lower, u, key) ==> left <= right + 1)
      && (SearchedTo(upper, u, key) ==> PassedLeft(lower, key, left))
  {
    LeftIsExact(upper, lower, u, key);
    RightIsExact(upper, lower, u, key);
    BoundsMeet(upper, lower, u, key);
    if SearchedTo(upper, u, key) {
      LeftIsPassed(upper, lower, u, key);
    }
  }

  /** What a place within each bound of a unit says about the file there. */
  lemma UnitIsTight(upper: seq<Meta>, lower: seq<Meta>, u: nat, j: nat)
    requires SortedLevel(upper) && SortedLevel(lower) && u < |upper| && j < |lower|
    ensures var unit := UnitOf(upper, lower, u);
      && (unit.smallestLb <= j ==> upper[u].smallest <= lower[j].largest)
      && (unit.largestLb <= j ==> upper[u].largest <= lower[j].largest)
      && (j <= unit.smallestRb ==> lower[j].smallest <= upper[u].smallest)
      && (j <= unit.largestRb ==> lower[j].smallest <= upper[u].largest)
  {
    UnitIsRight(upper, lower, u);
    var unit := UnitOf(upper, lower, u);
    LeftOf(Smallests(upper), lower, u, unit.smallestLb, j);
    LeftOf(Largests(upper), lower, u, unit.largestLb, j);
    RightOf(Smallests(upper), lower, u, unit.smallestRb, j);
    RightOf(Largests(upper), lower, u, unit.largestRb, j);
  }

  /** No file within the bounds can be left out: it reaches into the keys that the comparisons leave open, which are
      those before the file and after the one in front, one of its ends, those within it, or those after it. */
  lemma BoundsAreTight(upper: seq<Meta>, lower: seq<Meta>, u: nat, key: UserKey, j: nat)
    requires SortedLevel(upper) && SortedLevel(lower) && u < |upper| && j < |lower|
    requires LeftBound(upper, lower, u, key) <= j <= RightBound(upper, lower, u, key)
    ensures var f, g := upper[u], lower[j];
      if key < f.smallest then (u > 0 ==> upper[u - 1].largest <= g.largest) && g.smallest <= f.smallest
      else if key == f.smallest then g.smallest <= f.smallest <= g.largest
      else if key < f.largest then f.smallest <= g.largest && g.smallest <= f.largest
      else if key == f.largest then g.smallest <= f.largest <= g.largest
      else f.largest <= g.largest
  {
    UnitIsTight(upper, lower, u, j);
    if u > 0 {
      UnitIsTight(upper, lower, u - 1, j);
    }
  }

  /** Without ties nothing is hidden from a search that stops where it should. */
  lemma NoTiesHideNothing(upper: seq<Meta>, lower: seq<Meta>, u: nat, key: UserKey)
    requires SortedLevel(upper) && NoTies(upper, lower) && u < |upper| && SearchedTo(upper, u, key)
    ensures !HidesLeft(upper, lower, u, key) && !HidesRight(upper, lower, u, key)
  {
    var ss, ls := Smallests(upper), Largests(upper);
    assert u > 0 ==> !Tie(ss, Largests(lower), u - 1);
    assert !Tie(ss, Smallests(lower), u) && !Tie(ls, Smallests(lower), u);
    if u > 0 && key < upper[u].smallest {
      forall j | 0 <= j < |lower| && lower[j].Contains(key)
        ensures !EndsBefore(lower[j], upper, u - 1)
      {
        assert Largests(lower)[j] in Largests(lower);
        assert u > 1 ==> !Tie(ls, Largests(lower), u - 2);
      }
    }
  }

  class FileIndexer {
    var numLevels: nat
    var nextLevelIndex: seq<seq<IndexUnit>>
    var levelRb: seq<int>

    constructor ()
      ensures numLevels == 0
    {
      numLevels, nextLevelIndex, levelRb := 0, [], [];
    }

    /** The index describes these levels. */
    ghost predicate Describes(files: seq<seq<Meta>>)
      reads this
    {
      && numLevels == |files| == |levelRb| == |nextLevelIndex|
      && forall l :: 1 <= l < |files| ==>
           && levelRb[l] == |files[l]| - 1
           && (l < |files| - 1 ==> IsIndex(files[l], files[l + 1], nextLevelIndex[l]))
    }

    method UpdateIndex(files: seq<seq<Meta>>)
      modifies this
      ensures files != [] ==> Describes(files)
      ensures numLevels == |files|
    {
      numLevels := |files|;
      if numLevels == 0 {
        return;
      }
      var index: seq<seq<IndexUnit>> := seq(numLevels, i => []);
      var rb := seq(numLevels, i => -1);
      var level := 1;
      while level < numLevels - 1
        modifies {}
        invariant 1 <= level && |index| == |rb| == numLevels == |files|
        invariant forall l :: 1 <= l < level && l < numLevels - 1 ==>
          rb[l] == |files[l]| - 1 && IsIndex(files[l], files[l + 1], index[l])
      {
        rb := rb[level := |files[level]| - 1];
        if |files[level]| > 0 {
          var units := CalculateIndex(files[level], files[level + 1]);
          index := index[level := units];
        } else {
          index := index[level := []];
        }
        level := level + 1;
      }
      rb := rb[numLevels - 1 := |files[numLevels - 1]| - 1];
      nextLevelIndex, levelRb := index, rb;
    }

    /** The bounds for the next level after key was compared with one file of this level. */
    method GetNextLevelIndex(files: seq<seq<Meta>>, level: nat, fileIndex: nat, key: UserKey)
      returns (left: int, right: int)
      requires 1 <= level < |files| && fileIndex < |files[level]| && Describes(files)
      requires forall f :: f in files[level] ==> f.smallest <= f.largest
      ensures level == |files| - 1 ==> left == 0 && right == -1
      ensures level < |files| - 1 ==>
        && left == LeftBound(files[level], files[level + 1], fileIndex, key)
        && right == RightBound(files[level], files[level + 1], fileIndex, key)
    {
      if level == numLevels - 1 {
        return 0, -1;
      }
      var units, file := nextLevelIndex[level], files[level][fileIndex];
      assert IsIndex(files[level], files[level + 1], units);
      var index := units[fileIndex];
      var cmpSmallest, cmpLargest := Compare(key, file.smallest), Compare(key, file.largest);
      if cmpSmallest < 0 {
        left, right := if level > 0 && fileIndex > 0 then units[fileIndex - 1].largestLb else 0, index.smallestRb;
      } else if cmpSmallest == 0 {
        left, right := index.smallestLb, index.smallestRb;
      } else if cmpSmallest > 0 && cmpLargest < 0 {
        left, right := index.smallestLb, index.largestRb;
      } else if cmpLargest == 0 {
        left, right := index.largestLb, index.largestRb;
      } else {
        left, right := index.largestLb, levelRb[level + 1];
      }
      assert file in files[level];
    }
  }
}
