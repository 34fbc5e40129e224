/** Where a compaction is split: bounds from the ends of its files, and ranges grouped by size. */
module SubcompactionBounds {
  import opened Format
  import opened CompactionFiles

  ghost predicate StrictlyIncreasing(ks: seq<UserKey>) {
    forall i, j :: 0 <= i < j < |ks| ==> ks[i] < ks[j]
  }

  // ---------------------------------------------------------------- choosing the boundaries

  function Total(xs: seq<nat>): nat {
    if xs == [] then 0 else Total(xs[..|xs| - 1]) + xs[|xs| - 1]
  }

  lemma TotalOfAppend(xs: seq<nat>, x: nat)
    ensures Total(xs + [x]) == Total(xs) + x
  {
    assert (xs + [x])[..|xs|] == xs;
  }

  /** Adds a key to a sorted list without duplicates; stands for sort followed by unique. */
  method InsertKey(ks: seq<UserKey>, k: UserKey) returns (r: seq<UserKey>)
    requires StrictlyIncreasing(ks)
    ensures StrictlyIncreasing(r)
    ensures forall x :: x in r <==> x in ks || x == k
  {
    var i := 0;
    while i < |ks| && ks[i] < k
      invariant 0 <= i <= |ks|
      invariant forall j :: 0 <= j < i ==> ks[j] < k
    {
      i := i + 1;
    }
    if i < |ks| && ks[i] == k {
      return ks;
    }
    r := Inserted(ks, i, k);
    InsertedIsIncreasing(ks, i, k);
  }

  function Inserted(ks: seq<UserKey>, i: nat, k: UserKey): (r: seq<UserKey>)
    requires i <= |ks|
    ensures forall x :: x in r <==> x in ks || x == k
  {
    assert ks == ks[..i] + ks[i..];
    ks[..i] + [k] + ks[i..]
  }

  lemma InsertedIsIncreasing(ks: seq<UserKey>, i: nat, k: UserKey)
    requires StrictlyIncreasing(ks) && i <= |ks|
    requires (forall j :: 0 <= j < i ==> ks[j] < k) && (i < |ks| ==> k < ks[i])
    ensures StrictlyIncreasing(Inserted(ks, i, k))
  {
    var r := Inserted(ks, i, k);
    assert forall j :: 0 <= j < |r| ==> r[j] == if j < i then ks[j] else if j == i then k else ks[j - 1];
  }

  ghost predicate IsEndOfLevel(l: InputLevel, k: UserKey) {
    l.files != [] && (k == l.files[0].smallest || k == Last(l.files).largest)
  }

  /** The keys a level contributes: all file ends on level 0, the ends of the level elsewhere, and on
      the output level the start of every file. */
  ghost predicate Contributes(l: InputLevel, outputLevel: nat, k: UserKey) {
    if l.level == 0 then exists f :: f in l.files && (k == f.smallest || k == f.largest)
    else IsEndOfLevel(l, k) || (l.level == outputLevel && exists i :: 1 <= i < |l.files| && k == l.files[i].smallest)
  }

  method LevelBounds(l: InputLevel, outputLevel: nat, bounds: seq<UserKey>) returns (r: seq<UserKey>)
    requires StrictlyIncreasing(bounds)
    ensures StrictlyIncreasing(r)
    ensures forall k :: k in r <==> k in bounds || Contributes(l, outputLevel, k)
  {
    r := bounds;
    if l.files == [] {
      return;
    }
    if l.level == 0 {
      for i := 0 to |l.files|
        invariant StrictlyIncreasing(r)
        invariant forall k :: k in r <==>
          k in bounds || exists j :: 0 <= j < i && (k == l.files[j].smallest || k == l.files[j].largest)
      {
        r := InsertKey(r, l.files[i].smallest);
        r := InsertKey(r, l.files[i].largest);
      }
    } else {
      r := InsertKey(r, l.files[0].smallest);
      r := InsertKey(r, Last(l.files).largest);
      if l.level == outputLevel {
        for i := 1 to |l.files|
          invariant StrictlyIncreasing(r)
          invariant forall k :: k in r <==>
            k in bounds || IsEndOfLevel(l, k) || exists j :: 1 <= j < i && k == l.files[j].smallest
        {
          r := InsertKey(r, l.files[i].smallest);
        }
      }
    }
  }

  datatype RangeWithSize = RangeWithSize(start: UserKey, limit: UserKey, size: nat)

  type SizeEstimate = (UserKey, UserKey) -> nat

  /** The estimated size of the first n ranges. */
  function SizeOf(ranges: seq<RangeWithSize>, n: nat): nat
    requires n <= |ranges|
  {
    if n == 0 then 0 else SizeOf(ranges, n - 1) + ranges[n - 1].size
  }

  lemma {:induction false} SizeOfPrefix(ranges: seq<RangeWithSize>, r: RangeWithSize, n: nat)
    requires n <= |ranges|
    ensures SizeOf(ranges + [r], n) == SizeOf(ranges, n)
  {
    if n > 0 {
      SizeOfPrefix(ranges, r, n - 1);
    }
  }

  function Ranges(bounds: seq<UserKey>, estimate: SizeEstimate): seq<RangeWithSize>
    requires bounds != []
  {
    seq(|bounds| - 1, i requires 0 <= i < |bounds| - 1 =>
      RangeWithSize(bounds[i], bounds[i + 1], estimate(bounds[i], bounds[i + 1])))
  }

  /** Neighbouring bounds form the ranges. */
  method MakeRanges(bounds: seq<UserKey>, estimate: SizeEstimate) returns (ranges: seq<RangeWithSize>, sum: nat)
    requires bounds != []
    ensures ranges == Ranges(bounds, estimate)
    ensures sum == SizeOf(ranges, |ranges|)
  {
    ranges, sum := [], 0;
    for i := 0 to |bounds| - 1
      invariant ranges == Ranges(bounds, estimate)[..i]
      invariant sum == SizeOf(ranges, |ranges|)
    {
      var r := RangeWithSize(bounds[i], bounds[i + 1], estimate(bounds[i], bounds[i + 1]));
      SizeOfPrefix(ranges, r, |ranges|);
      ranges := ranges + [r];
      sum := sum + r.size;
    }
  }

  ghost predicate ChainOf(ranges: seq<RangeWithSize>, bounds: seq<UserKey>) {
    && |ranges| + 1 == |bounds|
    && forall i :: 0 <= i < |ranges| ==> ranges[i].start == bounds[i] && ranges[i].limit == bounds[i + 1]
  }

  lemma RangesFormChain(bounds: seq<UserKey>, estimate: SizeEstimate)
    requires bounds != []
    ensures ChainOf(Ranges(bounds, estimate), bounds)
  {
  }

  /** The boundaries are keys strictly inside the bounds, in order, and at most bounds[i]. */
  ghost predicate CutsWithin(cuts: seq<UserKey>, bounds: seq<UserKey>, i: nat)
    requires i < |bounds|
  {
    && StrictlyIncreasing(cuts)
    && forall j :: 0 <= j < |cuts| ==> cuts[j] in bounds && bounds[0] < cuts[j] <= bounds[i]
  }

  /** One part of a total; sizes are compared with it without dividing. */
  datatype Share = Share(total: nat, parts: nat) {
    predicate ReachedBy(size: int) {
      size * parts >= total
    }
  }

  predicate NotFull(size: int, share: Share) {
    !share.ReachedBy(size) || size == 0
  }

  /** The estimated size of the ranges from lo up to hi. */
  function SizeBetween(ranges: seq<RangeWithSize>, lo: nat, hi: nat): int
    requires lo <= hi <= |ranges|
  {
    SizeOf(ranges, hi) - SizeOf(ranges, lo)
  }

  /** The ranges from lo up to hi are a group: with the last one it has reached the share, and not before. */
  ghost predicate IsGroup(ranges: seq<RangeWithSize>, share: Share, lo: nat, hi: nat, boundary: UserKey, size: nat) {
    && lo < hi <= |ranges| && boundary == ranges[hi - 1].limit && size == SizeBetween(ranges, lo, hi)
    && share.ReachedBy(size) && NotFull(SizeBetween(ranges, lo, hi - 1), share)
  }

  /** The groups so far end at the given places. */
  ghost predicate AreGroups(ranges: seq<RangeWithSize>, share: Share, places: seq<nat>, boundaries: seq<UserKey>,
          sizes: seq<nat>) {
    && |places| == |boundaries| + 1 <= |sizes| + 1 && places[0] == 0
    && forall j :: 0 <= j < |boundaries| ==> GroupAt(ranges, share, places, boundaries, sizes, j)
  }

  ghost predicate GroupAt(ranges: seq<RangeWithSize>, share: Share, places: seq<nat>, boundaries: seq<UserKey>,
          sizes: seq<nat>, j: nat)
    requires j < |boundaries| == |places| - 1 && |boundaries| <= |sizes|
  {
    IsGroup(ranges, share, places[j], places[j + 1], boundaries[j], sizes[j])
  }

  /** The first i ranges are in closed groups, except for an open group of size sum. */
  ghost predicate Grouped(ranges: seq<RangeWithSize>, bounds: seq<UserKey>, share: Share, i: nat,
          places: seq<nat>, boundaries: seq<UserKey>, sizes: seq<nat>, sum: nat) {
    && i < |bounds| && i <= |ranges|
    && |sizes| == |boundaries| && Total(sizes) + sum == SizeOf(ranges, i)
    && CutsWithin(boundaries, bounds, i)
    && AreGroups(ranges, share, places, boundaries, sizes)
    && places[|boundaries|] <= i && sum == SizeBetween(ranges, places[|boundaries|], i)
  }

  lemma AddRange(ranges: seq<RangeWithSize>, bounds: seq<UserKey>, share: Share, i: nat, places: seq<nat>,
          boundaries: seq<UserKey>, sizes: seq<nat>, sum: nat)
    requires ChainOf(ranges, bounds) && StrictlyIncreasing(bounds) && i < |ranges|
    requires Grouped(ranges, bounds, share, i, places, boundaries, sizes, sum)
    ensures Grouped(ranges, bounds, share, i + 1, places, boundaries, sizes, sum + ranges[i].size)
    ensures forall j :: 0 <= j < |boundaries| ==> boundaries[j] < ranges[i].limit
  {
    assert bounds[i] < bounds[i + 1];
  }

  lemma CloseGroup(ranges: seq<RangeWithSize>, bounds: seq<UserKey>, share: Share, i: nat, places: seq<nat>,
          boundaries: seq<UserKey>, sizes: seq<nat>, sum: nat)
    requires ChainOf(ranges, bounds) && StrictlyIncreasing(bounds) && i < |ranges|
    requires Grouped(ranges, bounds, share, i + 1, places, boundaries, sizes, sum) && places[|boundaries|] <= i
    requires forall j :: 0 <= j < |boundaries| ==> boundaries[j] < ranges[i].limit
    requires share.ReachedBy(sum) && NotFull(sum - ranges[i].size, share)
    ensures Grouped(ranges, bounds, share, i + 1, places + [i + 1], boundaries + [ranges[i].limit], sizes + [sum], 0)
  {
    TotalOfAppend(sizes, sum);
    assert bounds[0] < bounds[i + 1];
    var places', boundaries', sizes' := places + [i + 1], boundaries + [ranges[i].limit], sizes + [sum];
    forall j | 0 <= j < |boundaries'|
      ensures GroupAt(ranges, share, places', boundaries', sizes', j)
    {
      assert j < |boundaries| ==> GroupAt(ranges, share, places, boundaries, sizes, j);
    }
  }

  /** The last group, which goes to the end: it is the last one allowed, or was not full before the last range. */
  ghost predicate IsLastGroup(ranges: seq<RangeWithSize>, share: Share, places: seq<nat>, sizes: seq<nat>) {
    && |places| == |sizes| > 0 && ranges != [] && places[|places| - 1] < |ranges|
    && sizes[|sizes| - 1] == SizeBetween(ranges, places[|places| - 1], |ranges|)
    && (|sizes| == share.parts || NotFull(SizeBetween(ranges, places[|places| - 1], |ranges| - 1), share))
  }

  /** Groups the ranges greedily until a group reaches the mean size. */
  method GroupRanges(ranges: seq<RangeWithSize>, share: Share, ghost bounds: seq<UserKey>)
    returns (boundaries: seq<UserKey>, sizes: seq<nat>, ghost places: seq<nat>)
    requires share.parts >= 1 && |ranges| >= 1
    requires ChainOf(ranges, bounds) && StrictlyIncreasing(bounds)
    ensures |sizes| == |boundaries| + 1 <= share.parts
    ensures Total(sizes) == SizeOf(ranges, |ranges|)
    ensures CutsWithin(boundaries, bounds, |ranges| - 1)
    ensures AreGroups(ranges, share, places, boundaries, sizes) && IsLastGroup(ranges, share, places, sizes)
  {
    var subcompactions: nat, sum: nat := share.parts, 0;
    boundaries, sizes, places := [], [], [0];
    for i := 0 to |ranges| - 1
      invariant subcompactions == share.parts - |boundaries| >= 1
      invariant Grouped(ranges, bounds, share, i, places, boundaries, sizes, sum)
      invariant subcompactions == 1 || NotFull(sum, share)
    {
      AddRange(ranges, bounds, share, i, places, boundaries, sizes, sum);
      sum := sum + ranges[i].size;
      if subcompactions == 1 {
        continue;
      }
      if share.ReachedBy(sum) {
        CloseGroup(ranges, bounds, share, i, places, boundaries, sizes, sum);
        boundaries := boundaries + [ranges[i].limit];
        sizes := sizes + [sum];
        places := places + [i + 1];
        subcompactions := subcompactions - 1;
        sum := 0;
      }
    }
    CloseLast(ranges, bounds, share, places, boundaries, sizes, sum);
    sizes := sizes + [sum + ranges[|ranges| - 1].size];
  }

  lemma CloseLast(ranges: seq<RangeWithSize>, bounds: seq<UserKey>, share: Share, places: seq<nat>,
          boundaries: seq<UserKey>, sizes: seq<nat>, sum: nat)
    requires ranges != [] && Grouped(ranges, bounds, share, |ranges| - 1, places, boundaries, sizes, sum)
    requires |boundaries| + 1 == share.parts || NotFull(sum, share)
    ensures var sizes' := sizes + [sum + ranges[|ranges| - 1].size];
      && Total(sizes') == SizeOf(ranges, |ranges|)
      && AreGroups(ranges, share, places, boundaries, sizes') && IsLastGroup(ranges, share, places, sizes')
  {
    TotalOfAppend(sizes, sum + ranges[|ranges| - 1].size);
    LastGroupKeeps(ranges, share, places, boundaries, sizes, sum + ranges[|ranges| - 1].size);
  }

  lemma LastGroupKeeps(ranges: seq<RangeWithSize>, share: Share, places: seq<nat>, boundaries: seq<UserKey>,
          sizes: seq<nat>, size: nat)
    requires |sizes| == |boundaries| && AreGroups(ranges, share, places, boundaries, sizes)
    ensures AreGroups(ranges, share, places, boundaries, sizes + [size])
  {
    forall j | 0 <= j < |boundaries|
      ensures GroupAt(ranges, share, places, boundaries, sizes + [size], j)
    {
      assert GroupAt(ranges, share, places, boundaries, sizes, j);
    }
  }

  /** k is an end of some input file that counts as a possible boundary. */
  ghost predicate IsBound(inputs: seq<InputLevel>, outputLevel: nat, k: UserKey) {
    exists i :: 0 <= i < |inputs| && inputs[i].level <= outputLevel && Contributes(inputs[i], outputLevel, k)
  }

  method CollectBounds(inputs: seq<InputLevel>, outputLevel: nat) returns (bounds: seq<UserKey>)
    ensures StrictlyIncreasing(bounds)
    ensures forall k :: k in bounds <==> IsBound(inputs, outputLevel, k)
  {
    bounds := [];
    for i := 0 to |inputs|
      invariant StrictlyIncreasing(bounds)
      invariant forall k :: k in bounds <==>
        exists j :: 0 <= j < i && inputs[j].level <= outputLevel && Contributes(inputs[j], outputLevel, k)
    {
      if inputs[i].level <= outputLevel {
        bounds := LevelBounds(inputs[i], outputLevel, bounds);
      }
    }
  }

  /** The quotient, rounded up. */
  function CeilDiv(a: nat, b: nat): (q: nat)
    requires b > 0
  {
    if a % b == 0 then a / b else a / b + 1
  }

  /** How many groups to aim for: one per output file filled to four fifths, within the limits. */
  function WantedSubcompactions(sum: nat, ranges: nat, maxFileSize: nat, maxSubcompactions: nat): (n: nat)
    requires maxFileSize > 0
    ensures n <= ranges && n <= maxSubcompactions
  {
    Min(ranges, Min(maxSubcompactions, CeilDiv(5 * sum, 4 * maxFileSize)))
  }

  lemma CeilDivIs(a: nat, b: nat)
    requires b > 0
    ensures a <= CeilDiv(a, b) * b && (CeilDiv(a, b) > 0 ==> (CeilDiv(a, b) - 1) * b < a)
  {
    var q := a / b;
    assert a == q * b + a % b;
    assert (q + 1) * b == q * b + b;
    assert q > 0 ==> (q - 1) * b == q * b - b;
  }

  lemma Times(a: nat, c: nat, b: nat)
    requires a <= c
    ensures a * b <= c * b
  {
  }

  /** The number aimed for: as many groups as there are output files when each is filled to four fifths, unless
      there are fewer ranges or fewer are allowed. */
  lemma WantedIs(sum: nat, ranges: nat, maxFileSize: nat, maxSubcompactions: nat)
    requires maxFileSize > 0
    ensures var n := WantedSubcompactions(sum, ranges, maxFileSize, maxSubcompactions);
      && n <= ranges && n <= maxSubcompactions
      && (n == ranges || n == maxSubcompactions || 5 * sum <= n * (4 * maxFileSize))
      && (n > 0 ==> (n - 1) * (4 * maxFileSize) < 5 * sum)
  {
    CeilDivIs(5 * sum, 4 * maxFileSize);
    var n := WantedSubcompactions(sum, ranges, maxFileSize, maxSubcompactions);
    if n > 0 {
      Times(n - 1, CeilDiv(5 * sum, 4 * maxFileSize) - 1, 4 * maxFileSize);
    }
  }

  /** One group if no more are wanted, and otherwise groups that each get their share as soon as they can. */
  method GroupInto(ranges: seq<RangeWithSize>, sum: nat, wanted: nat, ghost bounds: seq<UserKey>)
    returns (boundaries: seq<UserKey>, sizes: seq<nat>, ghost places: seq<nat>)
    requires ChainOf(ranges, bounds) && StrictlyIncreasing(bounds) && wanted <= |ranges|
    requires sum == SizeOf(ranges, |ranges|)
    ensures |sizes| == |boundaries| + 1 && (boundaries != [] ==> |sizes| <= wanted)
    ensures CutsWithin(boundaries, bounds, if |bounds| > 1 then |bounds| - 2 else 0)
    ensures Total(sizes) == sum
    ensures if wanted <= 1 then boundaries == [] && sizes == [sum]
            else
              && |sizes| <= wanted
              && AreGroups(ranges, Share(sum, wanted), places, boundaries, sizes)
              && IsLastGroup(ranges, Share(sum, wanted), places, sizes)
  {
    if wanted > 1 {
      boundaries, sizes, places := GroupRanges(ranges, Share(sum, wanted), bounds);
    } else {
      boundaries, sizes, places := [], [sum], [];
      TotalOfAppend([], sum);
    }
  }

  /** Input file ends become ranges, and ranges become groups. */
  method GenSubcompactionBoundaries(
    inputs: seq<InputLevel>, outputLevel: nat, estimate: SizeEstimate, maxFileSize: nat, maxSubcompactions: nat)
    returns (boundaries: seq<UserKey>, sizes: seq<nat>, bounds: seq<UserKey>, ghost places: seq<nat>)
    requires exists k :: IsBound(inputs, outputLevel, k)
    requires maxFileSize > 0
    ensures bounds != [] && StrictlyIncreasing(bounds)
    ensures forall k :: k in bounds <==> IsBound(inputs, outputLevel, k)
    ensures |sizes| == |boundaries| + 1
    ensures |boundaries| > 0 ==> |sizes| <= maxSubcompactions
    ensures StrictlyIncreasing(boundaries)
    ensures forall b :: b in boundaries ==> b in bounds && bounds[0] < b < bounds[|bounds| - 1]
    ensures Total(sizes) == SizeOf(Ranges(bounds, estimate), |bounds| - 1)
    ensures var ranges, sum := Ranges(bounds, estimate), SizeOf(Ranges(bounds, estimate), |bounds| - 1);
      var wanted := WantedSubcompactions(sum, |bounds| - 1, maxFileSize, maxSubcompactions);
      if wanted <= 1 then boundaries == [] && sizes == [sum]
      else
        && |sizes| == |boundaries| + 1 <= wanted
        && AreGroups(ranges, Share(sum, wanted), places, boundaries, sizes)
        && IsLastGroup(ranges, Share(sum, wanted), places, sizes)
  {
    bounds := CollectBounds(inputs, outputLevel);
    assert bounds != [] by {
      var k :| IsBound(inputs, outputLevel, k);
      assert k in bounds;
    }
    var ranges, sum := MakeRanges(bounds, estimate);
    RangesFormChain(bounds, estimate);
    var wanted := WantedSubcompactions(sum, |ranges|, maxFileSize, maxSubcompactions);
    boundaries, sizes, places := GroupInto(ranges, sum, wanted, bounds);
  }

  // ---------------------------------------------------------------- what the bounds and the groups are

  /** The size of a range is what is estimated between its ends. */
  lemma SizeIsEstimated(bounds: seq<UserKey>, estimate: SizeEstimate, n: nat)
    requires 0 < n < |bounds|
    ensures SizeOf(Ranges(bounds, estimate), n) ==
      SizeOf(Ranges(bounds, estimate), n - 1) + estimate(bounds[n - 1], bounds[n])
    ensures SizeOf(Ranges(bounds, estimate), 0) == 0
  {
  }

  /** A group but for the last runs from one boundary to the next. It holds its share of the total, one part in
      as many as are wanted, and without its last range it holds less, or nothing. */
  lemma GroupHoldsItsShare(ranges: seq<RangeWithSize>, sum: nat, wanted: nat, places: seq<nat>,
          boundaries: seq<UserKey>, sizes: seq<nat>, j: nat)
    requires AreGroups(ranges, Share(sum, wanted), places, boundaries, sizes) && j < |boundaries|
    ensures places[0] == 0 && places[j] < places[j + 1] <= |ranges|
    ensures boundaries[j] == ranges[places[j + 1] - 1].limit
    ensures sizes[j] == SizeOf(ranges, places[j + 1]) - SizeOf(ranges, places[j]) && sizes[j] * wanted >= sum
    ensures var short := SizeOf(ranges, places[j + 1] - 1) - SizeOf(ranges, places[j]);
      short * wanted < sum || short == 0
  {
    assert GroupAt(ranges, Share(sum, wanted), places, boundaries, sizes, j);
  }

  /** The last group has the rest. Without its last range it holds less than its share, or nothing, unless it is
      the last one wanted. */
  lemma LastGroupHoldsTheRest(ranges: seq<RangeWithSize>, sum: nat, wanted: nat, places: seq<nat>, sizes: seq<nat>)
    requires IsLastGroup(ranges, Share(sum, wanted), places, sizes)
    ensures |places| == |sizes| > 0 && ranges != [] && places[|places| - 1] < |ranges|
    ensures sizes[|sizes| - 1] == SizeOf(ranges, |ranges|) - SizeOf(ranges, places[|places| - 1])
    ensures var short := SizeOf(ranges, |ranges| - 1) - SizeOf(ranges, places[|places| - 1]);
      |sizes| == wanted || short * wanted < sum || short == 0
  {
  }

  lemma IsWithin(inputs: seq<InputLevel>, outputLevel: nat, bounds: seq<UserKey>, i: nat, k: UserKey)
    requires forall k :: k in bounds <==> IsBound(inputs, outputLevel, k)
    requires StrictlyIncreasing(bounds) && i < |inputs| && inputs[i].level <= outputLevel
    requires Contributes(inputs[i], outputLevel, k)
    ensures k in bounds && bounds[0] <= k <= bounds[|bounds| - 1]
  {
    assert IsBound(inputs, outputLevel, k);
    var n :| 0 <= n < |bounds| && bounds[n] == k;
  }

  /** The bounds reach from the first key of all input files to the last, and the ends of every level-0 file and
      the start of every file on the output level are among them. */
  lemma BoundsReachOut(inputs: seq<InputLevel>, outputLevel: nat, bounds: seq<UserKey>, i: nat, f: File)
    requires forall k :: k in bounds <==> IsBound(inputs, outputLevel, k)
    requires StrictlyIncreasing(bounds) && i < |inputs| && inputs[i].level <= outputLevel && f in inputs[i].files
    requires inputs[i].level > 0 ==> SortedLevel(inputs[i].files)
    ensures bounds != [] && bounds[0] <= f.smallest && f.largest <= bounds[|bounds| - 1]
    ensures inputs[i].level == 0 ==> f.smallest in bounds && f.largest in bounds
    ensures inputs[i].level == outputLevel ==> f.smallest in bounds
  {
    var l := inputs[i];
    var j :| 0 <= j < |l.files| && l.files[j] == f;
    if l.level == 0 {
      IsWithin(inputs, outputLevel, bounds, i, f.smallest);
      IsWithin(inputs, outputLevel, bounds, i, f.largest);
    } else {
      IsWithin(inputs, outputLevel, bounds, i, l.files[0].smallest);
      IsWithin(inputs, outputLevel, bounds, i, Last(l.files).largest);
      assert j > 0 ==> l.files[0].smallest <= l.files[0].largest <= f.smallest;
      assert j < |l.files| - 1 ==> f.largest <= Last(l.files).smallest <= Last(l.files).largest;
      if l.level == outputLevel {
        IsWithin(inputs, outputLevel, bounds, i, f.smallest);
      }
    }
  }

  /** No other keys are bounds. */
  lemma BoundsAreEnds(inputs: seq<InputLevel>, outputLevel: nat, k: UserKey) returns (i: nat, j: nat)
    requires IsBound(inputs, outputLevel, k)
    ensures i < |inputs| && inputs[i].level <= outputLevel && j < |inputs[i].files|
    ensures var f := inputs[i].files[j];
      || (k == f.smallest && (inputs[i].level == 0 || inputs[i].level == outputLevel || j == 0))
      || (k == f.largest && (inputs[i].level == 0 || j == |inputs[i].files| - 1))
  {
    i :| 0 <= i < |inputs| && inputs[i].level <= outputLevel && Contributes(inputs[i], outputLevel, k);
    var l := inputs[i];
    if l.level == 0 {
      var f :| f in l.files && (k == f.smallest || k == f.largest);
      j :| 0 <= j < |l.files| && l.files[j] == f;
    } else if k == l.files[0].smallest {
      j := 0;
    } else if k == Last(l.files).largest {
      j := |l.files| - 1;
    } else {
      j :| 1 <= j < |l.files| && k == l.files[j].smallest;
    }
  }
}
