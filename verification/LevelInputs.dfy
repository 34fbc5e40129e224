/** The inputs of a level compaction: files that meet a key range, grown to a clean cut, and the files
    of the output level that go with them. */
module LevelInputs {
  import opened Format
  import opened CompactFiles

  ghost predicate ValidFiles(level: nat, fs: seq<Meta>) {
    && (forall i :: 0 <= i < |fs| ==> fs[i].smallest <= fs[i].largest)
    && (level > 0 ==> SortedFiles(fs))
  }

  ghost predicate Ascending(inputs: seq<nat>, n: nat) {
    && (forall k :: 0 <= k < |inputs| ==> inputs[k] < n)
    && (forall j, k :: 0 <= j < k < |inputs| ==> inputs[j] < inputs[k])
  }

  /** lo and hi are the ends of the range that the inputs cover. */
  ghost predicate IsRange(fs: seq<Meta>, inputs: seq<nat>, lo: UserKey, hi: UserKey) {
    && (forall k :: 0 <= k < |inputs| ==>
        inputs[k] < |fs| && lo <= fs[inputs[k]].smallest && fs[inputs[k]].largest <= hi)
    && (exists k :: 0 <= k < |inputs| && inputs[k] < |fs| && fs[inputs[k]].smallest == lo)
    && (exists k :: 0 <= k < |inputs| && inputs[k] < |fs| && fs[inputs[k]].largest == hi)
  }

  method GetRange(level: nat, fs: seq<Meta>, inputs: seq<nat>) returns (lo: UserKey, hi: UserKey)
    requires ValidFiles(level, fs) && inputs != [] && Ascending(inputs, |fs|)
    ensures IsRange(fs, inputs, lo, hi)
  {
    lo, hi := fs[inputs[0]].smallest, fs[inputs[|inputs| - 1]].largest;
    if level == 0 {
      hi := fs[inputs[0]].largest;
      for k := 1 to |inputs|
        invariant forall j :: 0 <= j < k ==> lo <= fs[inputs[j]].smallest && fs[inputs[j]].largest <= hi
        invariant exists j :: 0 <= j < k && fs[inputs[j]].smallest == lo
        invariant exists j :: 0 <= j < k && fs[inputs[j]].largest == hi
      {
        var f := fs[inputs[k]];
        if f.smallest < lo {
          lo := f.smallest;
        }
        if f.largest > hi {
          hi := f.largest;
        }
      }
    } else {
      forall k | 0 <= k < |inputs|
        ensures lo <= fs[inputs[k]].smallest && fs[inputs[k]].largest <= hi
      {
        assert k > 0 ==> inputs[0] < inputs[k];
        assert k < |inputs| - 1 ==> inputs[k] < inputs[|inputs| - 1];
      }
    }
  }

  // ---------------------------------------------------------------- the files that meet a range

  /** Finds some file of a sorted level that meets the range, or none if none does. */
  method FindOverlap(fs: seq<Meta>, lo: UserKey, hi: UserKey) returns (r: Option<nat>)
    requires ValidFiles(1, fs) && lo <= hi
    ensures match r
            case None => forall i :: 0 <= i < |fs| ==> !fs[i].Overlaps(lo, hi)
            case Some(m) => m < |fs| && fs[m].Overlaps(lo, hi)
  {
    var min, max := 0, |fs| - 1;
    while min <= max
      invariant 0 <= min <= max + 1 <= |fs|
      invariant forall i :: 0 <= i < |fs| && !(min <= i <= max) ==> !fs[i].Overlaps(lo, hi)
    {
      var mid := (min + max) / 2;
      if fs[mid].largest < lo {
        min := mid + 1;
      } else if hi < fs[mid].smallest {
        max := mid - 1;
      } else {
        return Some(mid);
      }
    }
    r := None;
  }

  /** From one file that meets the range, the first and the last that do. */
  method ExtendOverlap(fs: seq<Meta>, lo: UserKey, hi: UserKey, mid: nat) returns (first: nat, last: nat)
    requires ValidFiles(1, fs) && lo <= hi && mid < |fs| && fs[mid].Overlaps(lo, hi)
    ensures first <= mid <= last < |fs|
    ensures forall i :: 0 <= i < |fs| ==> (first <= i <= last <==> fs[i].Overlaps(lo, hi))
  {
    first, last := mid, mid;
    while first > 0 && fs[first - 1].largest >= lo
      invariant first <= mid && fs[first].largest >= lo
    {
      first := first - 1;
    }
    while last + 1 < |fs| && fs[last + 1].smallest <= hi
      invariant mid <= last < |fs| && fs[last].smallest <= hi
    {
      last := last + 1;
    }
  }

  /** The inputs are exactly the files that meet the range. */
  ghost predicate AreOverlapping(fs: seq<Meta>, lo: UserKey, hi: UserKey, inputs: seq<nat>) {
    && Ascending(inputs, |fs|)
    && forall i: nat :: i in inputs <==> i < |fs| && fs[i].Overlaps(lo, hi)
  }

  /** No file that meets the range sticks out of it. */
  ghost predicate IsClosed(fs: seq<Meta>, lo: UserKey, hi: UserKey) {
    forall i :: 0 <= i < |fs| && fs[i].Overlaps(lo, hi) ==> lo <= fs[i].smallest && fs[i].largest <= hi
  }

  /** Level 0: the files that meet the least closed range that covers the question. */
  ghost predicate IsClosure(fs: seq<Meta>, lo: UserKey, hi: UserKey, inputs: seq<nat>, lo': UserKey, hi': UserKey) {
    && lo' <= lo && hi <= hi' && IsClosed(fs, lo', hi') && IsLeast(fs, lo, hi, lo', hi')
    && AreOverlapping(fs, lo', hi', inputs)
  }

  ghost predicate IsLeast(fs: seq<Meta>, lo: UserKey, hi: UserKey, lo': UserKey, hi': UserKey) {
    forall a, b :: a <= lo && hi <= b && IsClosed(fs, a, b) ==> a <= lo' && hi' <= b
  }

  lemma OverlappingAreUnique(fs: seq<Meta>, lo: UserKey, hi: UserKey, x: seq<nat>, y: seq<nat>)
    requires AreOverlapping(fs, lo, hi, x) && AreOverlapping(fs, lo, hi, y)
    ensures x == y
  {
    AscendingAreUnique(x, y, |fs|);
  }

  lemma {:induction false} AscendingAreUnique(x: seq<nat>, y: seq<nat>, n: nat)
    requires Ascending(x, n) && Ascending(y, n) && forall i: nat :: i in x <==> i in y
    ensures x == y
    decreases |x|
  {
    if x == [] {
      assert forall k :: 0 <= k < |y| ==> y[k] in y;
    } else {
      assert x[0] in x && x[0] in y && y[0] in y && y[0] in x;
      assert x[0] == y[0];
      assert x == [x[0]] + x[1..] && y == [y[0]] + y[1..];
      forall i: nat
        ensures i in x[1..] <==> i in y[1..]
      {
        assert (i in x <==> i == x[0] || i in x[1..]) && (i in x[1..] ==> i != x[0]);
        assert (i in y <==> i == y[0] || i in y[1..]) && (i in y[1..] ==> i != y[0]);
      }
      AscendingAreUnique(x[1..], y[1..], n);
    }
  }

  /** A question on level 0 has one answer. */
  lemma ClosureIsUnique(fs: seq<Meta>, lo: UserKey, hi: UserKey, x: seq<nat>, a: UserKey, b: UserKey,
          y: seq<nat>, c: UserKey, d: UserKey)
    requires IsClosure(fs, lo, hi, x, a, b) && IsClosure(fs, lo, hi, y, c, d)
    ensures x == y && a == c && b == d
  {
    assert a == c && b == d;
    OverlappingAreUnique(fs, a, b, x, y);
  }

  function Before(fs: seq<Meta>, lo: UserKey): set<nat> {
    set i: nat | i < |fs| && fs[i].smallest < lo
  }

  function Beyond(fs: seq<Meta>, hi: UserKey): set<nat> {
    set i: nat | i < |fs| && fs[i].largest > hi
  }

  function MinKey(a: UserKey, b: UserKey): UserKey {
    if a < b then a else b
  }

  function MaxKey(a: UserKey, b: UserKey): UserKey {
    if a < b then b else a
  }

  /** Every closed range that meets a file contains it. */
  lemma Widens(fs: seq<Meta>, lo: UserKey, hi: UserKey, lo': UserKey, hi': UserKey, i: nat)
    requires lo' <= lo && hi <= hi' && IsLeast(fs, lo, hi, lo', hi') && i < |fs|
    ensures fs[i].Overlaps(lo', hi') ==> IsLeast(fs, lo, hi, MinKey(fs[i].smallest, lo'), MaxKey(fs[i].largest, hi'))
  {
    if fs[i].Overlaps(lo', hi') {
      forall a, b | a <= lo && hi <= b && IsClosed(fs, a, b)
        ensures a <= fs[i].smallest && fs[i].largest <= b
      {
        assert fs[i].Overlaps(a, b);
      }
    }
  }

  /** Files of level 0 may overlap one another, so the search starts over whenever a file widens the
      range. */
  method OverlapOnZero(fs: seq<Meta>, lo: UserKey, hi: UserKey) returns (inputs: seq<nat>, lo': UserKey, hi': UserKey)
    requires ValidFiles(0, fs) && lo <= hi
    ensures IsClosure(fs, lo, hi, inputs, lo', hi')
  {
    lo', hi', inputs := lo, hi, [];
    var i := 0;
    while i < |fs|
      invariant 0 <= i <= |fs| && lo' <= lo && hi <= hi'
      invariant Ascending(inputs, i)
      invariant forall k: nat :: k in inputs <==> k < i && fs[k].Overlaps(lo', hi')
      invariant forall k :: k in inputs ==> lo' <= fs[k].smallest && fs[k].largest <= hi'
      invariant IsLeast(fs, lo, hi, lo', hi')
      decreases Before(fs, lo'), Beyond(fs, hi'), |fs| - i
    {
      var f := fs[i];
      assert f.Overlaps(lo', hi') ==> IsLeast(fs, lo, hi, MinKey(f.smallest, lo'), MaxKey(f.largest, hi')) by {
        Widens(fs, lo, hi, lo', hi', i);
      }
      if !f.Overlaps(lo', hi') {
        i := i + 1;
      } else if f.smallest < lo' {
        assert i in Before(fs, lo') && i !in Before(fs, f.smallest);
        lo', inputs, i := f.smallest, [], 0;
      } else if f.largest > hi' {
        assert i in Beyond(fs, hi') && i !in Beyond(fs, f.largest);
        hi', inputs, i := f.largest, [], 0;
      } else {
        inputs, i := inputs + [i], i + 1;
      }
    }
  }

  function Interval(first: nat, end: nat): (r: seq<nat>)
    requires first <= end
    ensures |r| == end - first && forall k :: 0 <= k < |r| ==> r[k] == first + k
  {
    seq(end - first, k requires 0 <= k => first + k)
  }

  lemma IntervalHas(first: nat, end: nat, i: nat)
    requires first <= end
    ensures i in Interval(first, end) <==> first <= i < end
  {
    if first <= i < end {
      assert Interval(first, end)[i - first] == i;
    }
  }

  /** On a sorted level the files that meet a range are neighbours. */
  ghost predicate IsSlice(fs: seq<Meta>, lo: UserKey, hi: UserKey, first: nat, end: nat) {
    && first <= end <= |fs|
    && forall i :: 0 <= i < |fs| ==> (first <= i < end <==> fs[i].Overlaps(lo, hi))
  }

  lemma SliceIsOverlapping(fs: seq<Meta>, lo: UserKey, hi: UserKey, first: nat, end: nat)
    requires IsSlice(fs, lo, hi, first, end)
    ensures AreOverlapping(fs, lo, hi, Interval(first, end))
  {
    forall i: nat {
      IntervalHas(first, end, i);
    }
  }

  /** A wider range meets as many files only if it meets the same ones. */
  lemma WiderHasMore(fs: seq<Meta>, lo: UserKey, hi: UserKey, first: nat, end: nat, lo': UserKey, hi': UserKey,
          first': nat, end': nat)
    requires IsSlice(fs, lo, hi, first, end) && IsSlice(fs, lo', hi', first', end') && lo' <= lo && hi <= hi'
    requires first < end
    ensures first' <= first && end <= end'
  {
    assert fs[first].Overlaps(lo, hi) && fs[end - 1].Overlaps(lo, hi);
  }

  /** GetOverlappingInputs below level 0; a hint, when given, is the place of a file that meets the range. */
  method OverlapBelowZero(fs: seq<Meta>, lo: UserKey, hi: UserKey, hint: Option<nat>)
    returns (first: nat, end: nat, at: Option<nat>)
    requires ValidFiles(1, fs) && lo <= hi
    requires hint.Some? ==> hint.value < |fs| && fs[hint.value].Overlaps(lo, hi)
    ensures IsSlice(fs, lo, hi, first, end)
    ensures if at.None? then first == end else first <= at.value < end
  {
    at := hint;
    if hint.None? {
      at := FindOverlap(fs, lo, hi);
    }
    if at.None? {
      return 0, 0, None;
    }
    var last;
    first, last := ExtendOverlap(fs, lo, hi, at.value);
    end := last + 1;
  }

  // ---------------------------------------------------------------- a clean cut

  method FilesInCompaction(files: seq<Meta>) returns (r: bool)
    ensures r <==> exists k :: 0 <= k < |files| && files[k].beingCompacted
  {
    for k := 0 to |files|
      invariant forall j :: 0 <= j < k ==> !files[j].beingCompacted
    {
      if files[k].beingCompacted {
        return true;
      }
    }
    r := false;
  }

  method SliceInCompaction(fs: seq<Meta>, first: nat, end: nat) returns (r: bool)
    requires first <= end <= |fs|
    ensures r <==> exists i :: first <= i < end && fs[i].beingCompacted
  {
    r := FilesInCompaction(fs[first..end]);
    forall i | first <= i < end && fs[i].beingCompacted
      ensures r
    {
      assert fs[first..end][i - first].beingCompacted;
    }
  }

  /** The files that the range of a slice meets are the slice and its neighbours that share a key. */
  lemma GrownSlice(fs: seq<Meta>, first: nat, end: nat, first': nat, end': nat)
    requires ValidFiles(1, fs) && first < end <= |fs|
    requires IsSlice(fs, fs[first].smallest, fs[end - 1].largest, first', end')
    ensures first' <= first && end <= end' && Stretches(fs, first, end - 1, first', end' - 1)
    ensures end' - first' == end - first ==> CleanCut(fs, first', end' - 1)
  {
    assert fs[first].Overlaps(fs[first].smallest, fs[end - 1].largest);
    assert fs[end - 1].Overlaps(fs[first].smallest, fs[end - 1].largest);
    forall i | first' <= i < first
      ensures fs[i].largest >= fs[i + 1].smallest
    {
      assert fs[i].Overlaps(fs[first].smallest, fs[end - 1].largest);
    }
    forall i | end - 1 < i <= end' - 1
      ensures fs[i].smallest <= fs[i - 1].largest
    {
      assert fs[i].Overlaps(fs[first].smallest, fs[end - 1].largest);
    }
    assert first' > 0 ==> !fs[first' - 1].Overlaps(fs[first].smallest, fs[end - 1].largest);
    assert end' < |fs| ==> !fs[end'].Overlaps(fs[first].smallest, fs[end - 1].largest);
  }

  lemma StretchesCompose(fs: seq<Meta>, a: nat, b: nat, a1: nat, b1: nat, a2: nat, b2: nat)
    requires Stretches(fs, a, b, a1, b1) && Stretches(fs, a1, b1, a2, b2)
    ensures Stretches(fs, a, b, a2, b2)
  {
  }

  /** ExpandWhileOverlapping below level 0: it ends at a clean cut, having added only files that share
      a key with one already chosen; it refuses when one of the files is being compacted. */
  method ExpandWhileOverlapping(fs: seq<Meta>, first: nat, end: nat) returns (ok: bool, first': nat, end': nat)
    requires ValidFiles(1, fs) && first < end <= |fs|
    ensures first' < end' && Stretches(fs, first, end - 1, first', end' - 1) && CleanCut(fs, first', end' - 1)
    ensures ok <==> forall i :: first' <= i < end' ==> !fs[i].beingCompacted
  {
    first', end' := first, end;
    var hint: Option<nat> := None;
    var grew := true;
    while grew
      invariant first' < end' && Stretches(fs, first, end - 1, first', end' - 1)
      invariant hint.Some? ==> first' <= hint.value < end'
      invariant !grew ==> CleanCut(fs, first', end' - 1)
      decreases grew, |fs| - (end' - first')
    {
      var size := end' - first';
      var lo, hi := fs[first'].smallest, fs[end' - 1].largest;
      assert hint.Some? ==> fs[hint.value].Overlaps(lo, hi);
      var a, b, at := OverlapBelowZero(fs, lo, hi, hint);
      GrownSlice(fs, first', end', a, b);
      StretchesCompose(fs, first, end - 1, first', end' - 1, a, b - 1);
      grew := b - a > size;
      first', end', hint := a, b, at;
    }
    var busy := SliceInCompaction(fs, first', end');
    ok := !busy;
  }

  // ---------------------------------------------------------------- the output level

  function Select(fs: seq<Meta>, inputs: seq<nat>): (r: seq<Meta>)
    requires forall k :: 0 <= k < |inputs| ==> inputs[k] < |fs|
    ensures |r| == |inputs| && forall k :: 0 <= k < |inputs| ==> r[k] == fs[inputs[k]]
  {
    seq(|inputs|, k requires 0 <= k < |inputs| => fs[inputs[k]])
  }

  function TotalSize(files: seq<Meta>): nat {
    if files == [] then 0 else files[0].size + TotalSize(files[1..])
  }

  /** The level's files that go with a range: closed under overlap on level 0, exactly those that meet
      the range deeper. */
  ghost predicate AreInputsFor(level: nat, fs: seq<Meta>, lo: UserKey, hi: UserKey, inputs: seq<nat>) {
    if level == 0 then exists lo', hi' :: IsClosure(fs, lo, hi, inputs, lo', hi')
    else AreOverlapping(fs, lo, hi, inputs)
  }

  lemma InputsAreUnique(level: nat, fs: seq<Meta>, lo: UserKey, hi: UserKey, x: seq<nat>, y: seq<nat>)
    requires AreInputsFor(level, fs, lo, hi, x) && AreInputsFor(level, fs, lo, hi, y)
    ensures x == y
  {
    if level == 0 {
      var a, b :| IsClosure(fs, lo, hi, x, a, b);
      var c, d :| IsClosure(fs, lo, hi, y, c, d);
      ClosureIsUnique(fs, lo, hi, x, a, b, y, c, d);
    } else {
      OverlappingAreUnique(fs, lo, hi, x, y);
    }
  }

  method GetOverlappingInputs(level: nat, fs: seq<Meta>, lo: UserKey, hi: UserKey) returns (inputs: seq<nat>)
    requires ValidFiles(level, fs) && lo <= hi
    ensures AreInputsFor(level, fs, lo, hi, inputs)
    ensures Ascending(inputs, |fs|)
    ensures forall i: nat :: i < |fs| && fs[i].Overlaps(lo, hi) ==> i in inputs
  {
    if level == 0 {
      var lo', hi';
      inputs, lo', hi' := OverlapOnZero(fs, lo, hi);
    } else {
      var first, end, at := OverlapBelowZero(fs, lo, hi, None);
      SliceIsOverlapping(fs, lo, hi, first, end);
      inputs := Interval(first, end);
    }
  }

  /** No file outside the inputs shares a key with one inside. */
  ghost predicate IsSevered(fs: seq<Meta>, inputs: seq<nat>) {
    forall i: nat, k: nat :: i < |fs| && i in inputs && k < |fs| && k !in inputs ==>
      !fs[k].Overlaps(fs[i].smallest, fs[i].largest)
  }

  /** HasOverlappingUserKey, for inputs that are neighbours on a sorted level. */
  method HasOverlappingUserKey(level: nat, fs: seq<Meta>, inputs: seq<nat>) returns (r: bool)
    requires ValidFiles(level, fs) && Ascending(inputs, |fs|)
    ensures level == 0 || inputs == [] ==> !r
    ensures level > 0 && inputs != [] ==>
      (r <==> var first, last := inputs[0], inputs[|inputs| - 1];
              || (last + 1 < |fs| && fs[last].largest == fs[last + 1].smallest)
              || (first > 0 && fs[first].smallest == fs[first - 1].largest))
  {
    if inputs == [] || level == 0 {
      return false;
    }
    var last := inputs[|inputs| - 1];
    if last < |fs| - 1 {
      if fs[last].largest == fs[last + 1].smallest {
        return true;
      }
    }
    var first := inputs[0];
    if first > 0 {
      if fs[first].smallest == fs[first - 1].largest {
        return true;
      }
    }
    r := false;
  }

  /** The wider range that covers the inputs and the output files. */
  method GetJointRange(lo: UserKey, hi: UserKey, outs: seq<Meta>, first: nat, end: nat)
    returns (allLo: UserKey, allHi: UserKey)
    requires ValidFiles(1, outs) && lo <= hi && first < end <= |outs|
    ensures allLo == MinKey(lo, outs[first].smallest) && allHi == MaxKey(hi, outs[end - 1].largest)
  {
    allLo := if lo < outs[first].smallest then lo else outs[first].smallest;
    allHi := if hi < outs[end - 1].largest then outs[end - 1].largest else hi;
  }

  lemma GrownIsSevered(level: nat, fs: seq<Meta>, lo: UserKey, hi: UserKey, inputs: seq<nat>)
    requires ValidFiles(level, fs) && AreInputsFor(level, fs, lo, hi, inputs) && inputs != [] && Ascending(inputs, |fs|)
    requires level > 0 ==> CleanCut(fs, inputs[0], inputs[|inputs| - 1])
    ensures IsSevered(fs, inputs)
  {
    forall i: nat, k: nat | i < |fs| && i in inputs && k < |fs| && k !in inputs
      ensures !fs[k].Overlaps(fs[i].smallest, fs[i].largest)
    {
      if level > 0 {
        var first, last := inputs[0], inputs[|inputs| - 1];
        assert first in inputs && last in inputs;
        assert first <= i <= last;
        assert fs[first].Overlaps(lo, hi) && fs[last].Overlaps(lo, hi) && !fs[k].Overlaps(lo, hi);
        assert k < first || last < k;
        assert k < first - 1 ==> fs[k].largest <= fs[first - 1].smallest;
        assert last + 1 < k ==> fs[last + 1].largest <= fs[k].smallest;
      }
    }
  }

  method SumSizes(files: seq<Meta>) returns (size: nat)
    ensures size == TotalSize(files)
  {
    size := 0;
    for i := 0 to |files|
      invariant size + TotalSize(files[i..]) == TotalSize(files)
    {
      assert files[i..][0] == files[i] && files[i..][1..] == files[i + 1..];
      size := size + files[i].size;
    }
  }

  lemma InputsAreInGrown(fs: seq<Meta>, inputs: seq<nat>, lo: UserKey, hi: UserKey, allLo: UserKey, allHi: UserKey,
          grown: seq<nat>, newLo: UserKey, newHi: UserKey)
    requires (forall i :: 0 <= i < |fs| ==> fs[i].smallest <= fs[i].largest) && IsRange(fs, inputs, lo, hi) &&
      allLo <= lo && hi <= allHi
    requires forall i: nat :: i < |fs| && fs[i].Overlaps(allLo, allHi) ==> i in grown
    requires IsRange(fs, grown, newLo, newHi)
    ensures (forall i :: i in inputs ==> i in grown) && newLo <= lo && hi <= newHi
  {
    forall i | i in inputs
      ensures i in grown && i < |fs| && newLo <= fs[i].smallest && fs[i].largest <= newHi
    {
      assert fs[i].Overlaps(allLo, allHi);
    }
    var a :| 0 <= a < |inputs| && inputs[a] < |fs| && fs[inputs[a]].smallest == lo;
    var b :| 0 <= b < |inputs| && inputs[b] < |fs| && fs[inputs[b]].largest == hi;
    assert inputs[a] in inputs && inputs[b] in inputs;
  }

  /** The grown inputs are more, free, within the limit, and end at a clean cut. */
  ghost predicate IsGrown(level: nat, fs: seq<Meta>, inputs: seq<nat>, grown: seq<nat>, outSize: nat, limit: nat) {
    && Ascending(grown, |fs|) && |grown| > |inputs|
    && outSize + TotalSize(Select(fs, grown)) < limit
    && (forall k :: 0 <= k < |grown| ==> !fs[grown[k]].beingCompacted)
    && (level > 0 ==> CleanCut(fs, grown[0], grown[|grown| - 1]))
  }

  /** The output files that the range of the inputs meets are those from first up to end. */
  ghost predicate HasOutputs(fs: seq<Meta>, outs: seq<Meta>, inputs: seq<nat>, first: nat, end: nat) {
    exists lo, hi :: IsRange(fs, inputs, lo, hi) && IsSlice(outs, lo, hi, first, end)
  }

  lemma OutputsAreUnique(fs: seq<Meta>, outs: seq<Meta>, inputs: seq<nat>, lo: UserKey, hi: UserKey, a: nat, b: nat,
          first: nat, end: nat)
    requires IsRange(fs, inputs, lo, hi) && IsSlice(outs, lo, hi, a, b) && first < end
    ensures HasOutputs(fs, outs, inputs, first, end) <==> a == first && b == end
  {
    if HasOutputs(fs, outs, inputs, first, end) {
      var lo', hi' :| IsRange(fs, inputs, lo', hi') && IsSlice(outs, lo', hi', first, end);
      assert lo' == lo && hi' == hi;
      assert outs[first].Overlaps(lo, hi) && outs[end - 1].Overlaps(lo, hi);
      assert a < b ==> outs[a].Overlaps(lo, hi) && outs[b - 1].Overlaps(lo, hi);
    }
  }

  /** Whether the grown inputs may be taken before the output level is looked at again. */
  method MayGrow(level: nat, fs: seq<Meta>, inputs: seq<nat>, grown: seq<nat>, outSize: nat, limit: nat)
    returns (r: bool)
    requires ValidFiles(level, fs) && Ascending(grown, |fs|)
    ensures r <==> IsGrown(level, fs, inputs, grown, outSize, limit)
  {
    if |grown| <= |inputs| {
      return false;
    }
    var size := SumSizes(Select(fs, grown));
    if outSize + size >= limit {
      return false;
    }
    var busy := FilesInCompaction(Select(fs, grown));
    var shares := HasOverlappingUserKey(level, fs, grown);
    assert level > 0 ==> grown[0] == grown[|grown| - 1] || grown[0] < grown[|grown| - 1];
    r := !busy && !shares;
  }

  /** The files of the input level that go with the joint range of inputs and outputs. */
  ghost predicate IsCandidate(level: nat, fs: seq<Meta>, outs: seq<Meta>, lo: UserKey, hi: UserKey,
          first: nat, end: nat, grown: seq<nat>)
    requires first < end <= |outs|
  {
    AreInputsFor(level, fs, MinKey(lo, outs[first].smallest), MaxKey(hi, outs[end - 1].largest), grown)
  }

  /** The inputs become the candidate exactly when it is allowed and adds nothing on the output level. */
  ghost predicate IsGrowth(level: nat, fs: seq<Meta>, outs: seq<Meta>, inputs: seq<nat>, limit: nat,
          lo: UserKey, hi: UserKey, first: nat, end: nat, inputs': seq<nat>)
    requires first < end <= |outs|
  {
    exists grown ::
      && IsCandidate(level, fs, outs, lo, hi, first, end, grown)
      && inputs' == if IsGrown(level, fs, inputs, grown, TotalSize(outs[first..end]), limit) &&
          HasOutputs(fs, outs, grown, first, end)
                    then grown else inputs
  }

  /** So there is one outcome. */
  lemma GrowthIsUnique(level: nat, fs: seq<Meta>, outs: seq<Meta>, inputs: seq<nat>, limit: nat,
          lo: UserKey, hi: UserKey, first: nat, end: nat, x: seq<nat>, y: seq<nat>)
    requires first < end <= |outs|
    requires IsGrowth(level, fs, outs, inputs, limit, lo, hi, first, end, x)
    requires IsGrowth(level, fs, outs, inputs, limit, lo, hi, first, end, y)
    ensures x == y
  {
    forall g, h | IsCandidate(level, fs, outs, lo, hi, first, end, g) &&
      IsCandidate(level, fs, outs, lo, hi, first, end, h)
      ensures g == h
    {
      InputsAreUnique(level, fs, MinKey(lo, outs[first].smallest), MaxKey(hi, outs[end - 1].largest), g, h);
    }
  }

  /** The inputs become the candidates or stay what they are, as the two conditions say. */
  lemma GrowthIs(level: nat, fs: seq<Meta>, outs: seq<Meta>, inputs: seq<nat>, limit: nat, lo: UserKey,
          hi: UserKey, first: nat, end: nat, inputs': seq<nat>, grown: seq<nat>)
    requires first < end <= |outs| && IsGrowth(level, fs, outs, inputs, limit, lo, hi, first, end, inputs')
    requires IsCandidate(level, fs, outs, lo, hi, first, end, grown)
    ensures inputs' == if IsGrown(level, fs, inputs, grown, TotalSize(outs[first..end]), limit) &&
                          HasOutputs(fs, outs, grown, first, end) then grown else inputs
  {
    var g :| IsCandidate(level, fs, outs, lo, hi, first, end, g) &&
      inputs' == if IsGrown(level, fs, inputs, g, TotalSize(outs[first..end]), limit) &&
        HasOutputs(fs, outs, g, first, end) then g else inputs;
    InputsAreUnique(level, fs, MinKey(lo, outs[first].smallest), MaxKey(hi, outs[end - 1].largest), g, grown);
  }

  /** The candidates may become the inputs: they are more, with the outputs they stay below the limit, none is being
      compacted, and below level 0 the files next to them share no key with them. */
  lemma GrownMeans(level: nat, fs: seq<Meta>, inputs: seq<nat>, grown: seq<nat>, outSize: nat, limit: nat)
    requires ValidFiles(level, fs) && grown != [] && Ascending(grown, |fs|)
    ensures IsGrown(level, fs, inputs, grown, outSize, limit) <==>
      && |grown| > |inputs|
      && outSize + TotalSize(Select(fs, grown)) < limit
      && (forall i :: i in grown ==> !fs[i].beingCompacted)
      && (level > 0 && grown[0] > 0 ==> fs[grown[0] - 1].largest < fs[grown[0]].smallest)
      && (level > 0 && grown[|grown| - 1] + 1 < |fs| ==>
            fs[grown[|grown| - 1]].largest < fs[grown[|grown| - 1] + 1].smallest)
  {
    FreeMeans(fs, grown);
    if |grown| > 1 {
      assert grown[0] < grown[|grown| - 1];
    }
  }

  /** The candidates' range meets the outputs found and no other file of the output level. */
  lemma RangeDecides(fs: seq<Meta>, outs: seq<Meta>, grown: seq<nat>, lo: UserKey, hi: UserKey, first: nat, end: nat)
    requires IsRange(fs, grown, lo, hi) && first < end <= |outs|
    ensures HasOutputs(fs, outs, grown, first, end) <==>
      forall i :: 0 <= i < |outs| ==> (first <= i < end <==> lo <= outs[i].largest && outs[i].smallest <= hi)
  {
    if HasOutputs(fs, outs, grown, first, end) {
      var lo', hi' :| IsRange(fs, grown, lo', hi') && IsSlice(outs, lo', hi', first, end);
      assert lo' == lo && hi' == hi;
    } else {
      assert !IsSlice(outs, lo, hi, first, end);
    }
  }

  lemma FreeMeans(fs: seq<Meta>, grown: seq<nat>)
    requires Ascending(grown, |fs|)
    ensures (forall k :: 0 <= k < |grown| ==> !fs[grown[k]].beingCompacted) <==>
      forall i :: i in grown ==> !fs[i].beingCompacted
  {
    assert forall k :: 0 <= k < |grown| ==> grown[k] in grown;
  }

  /** Sizes add up. */
  lemma {:induction false} TotalSizeOfAppend(a: seq<Meta>, f: Meta)
    ensures TotalSize(a + [f]) == TotalSize(a) + f.size
  {
    if a == [] {
      assert a + [f] == [f];
    } else {
      assert (a + [f])[1..] == a[1..] + [f];
      TotalSizeOfAppend(a[1..], f);
    }
  }

  /** Takes more files of the input level if that adds none on the output level. */
  method TryGrow(level: nat, fs: seq<Meta>, outs: seq<Meta>, inputs: seq<nat>, limit: nat,
                 lo: UserKey, hi: UserKey, first: nat, end: nat, at: Option<nat>) returns (inputs': seq<nat>)
    requires ValidFiles(level, fs) && ValidFiles(1, outs) && lo <= hi
    requires IsRange(fs, inputs, lo, hi) && IsSlice(outs, lo, hi, first, end) && first < end
    requires forall i :: first <= i < end ==> !outs[i].beingCompacted
    requires at.Some? ==> first <= at.value < end
    ensures IsGrowth(level, fs, outs, inputs, limit, lo, hi, first, end, inputs')
    ensures inputs' != inputs ==> IsSevered(fs, inputs') && forall i :: i in inputs ==> i in inputs'
  {
    inputs' := inputs;
    var allLo, allHi := GetJointRange(lo, hi, outs, first, end);
    var grown := GetOverlappingInputs(level, fs, allLo, allHi);
    assert IsCandidate(level, fs, outs, lo, hi, first, end, grown);
    var outSize := SumSizes(outs[first..end]);
    var may := MayGrow(level, fs, inputs, grown, outSize, limit);
    if may {
      var newLo, newHi := GetRange(level, fs, grown);
      InputsAreInGrown(fs, inputs, lo, hi, allLo, allHi, grown, newLo, newHi);
      var a, b, _ := OverlapBelowZero(outs, newLo, newHi, at);
      WiderHasMore(outs, lo, hi, first, end, newLo, newHi, a, b);
      OutputsAreUnique(fs, outs, grown, newLo, newHi, a, b, first, end);
      var busy := SliceInCompaction(outs, a, b);
      if b - a == end - first && !busy {
        GrownIsSevered(level, fs, allLo, allHi, grown);
        inputs' := grown;
      }
    }
  }

  /** What SetupOtherInputs settles: the output files are all that meet the range of the inputs, before
      and after the inputs grew, and grown inputs share no key with a file left out. */
  ghost predicate IsSetUp(fs: seq<Meta>, outs: seq<Meta>, inputs: seq<nat>, inputs': seq<nat>, first: nat, end: nat) {
    && HasOutputs(fs, outs, inputs, first, end) && HasOutputs(fs, outs, inputs', first, end)
    && (forall i :: i in inputs ==> i in inputs')
    && (inputs' != inputs ==> IsSevered(fs, inputs'))
    && (forall i :: first <= i < end && i < |outs| ==> !outs[i].beingCompacted)
  }

  /** The inputs grow or stay, with outputs; without any they stay. */
  ghost predicate IsOutcome(level: nat, fs: seq<Meta>, outs: seq<Meta>, inputs: seq<nat>, limit: nat,
          lo: UserKey, hi: UserKey, first: nat, end: nat, inputs': seq<nat>) {
    && IsRange(fs, inputs, lo, hi)
    && if first < end <= |outs| then IsGrowth(level, fs, outs, inputs, limit, lo, hi, first, end, inputs')
       else inputs' == inputs
  }

  /** A file of the output level that the range of the inputs meets is being compacted. */
  ghost predicate MeetsBusy(fs: seq<Meta>, outs: seq<Meta>, inputs: seq<nat>, lo: UserKey, hi: UserKey) {
    && IsRange(fs, inputs, lo, hi)
    && exists i :: 0 <= i < |outs| && outs[i].Overlaps(lo, hi) && outs[i].beingCompacted
  }

  method SetupOtherInputs(level: nat, fs: seq<Meta>, outs: seq<Meta>, inputs: seq<nat>, limit: nat)
    returns (ok: bool, inputs': seq<nat>, first: nat, end: nat)
    requires ValidFiles(level, fs) && ValidFiles(1, outs) && inputs != [] && Ascending(inputs, |fs|)
    ensures ok ==> IsSetUp(fs, outs, inputs, inputs', first, end)
    ensures ok ==> exists lo, hi :: IsOutcome(level, fs, outs, inputs, limit, lo, hi, first, end, inputs')
    ensures !ok ==> exists lo, hi :: MeetsBusy(fs, outs, inputs, lo, hi)
  {
    var lo, hi := GetRange(level, fs, inputs);
    assert lo <= hi by {
      assert lo <= fs[inputs[0]].smallest && fs[inputs[0]].largest <= hi;
    }
    var at;
    first, end, at := OverlapBelowZero(outs, lo, hi, None);
    var busy := SliceInCompaction(outs, first, end);
    if busy {
      assert MeetsBusy(fs, outs, inputs, lo, hi);
      return false, inputs, first, end;
    }
    ok, inputs' := true, inputs;
    if first < end {
      inputs' := TryGrow(level, fs, outs, inputs, limit, lo, hi, first, end, at);
    }
    assert IsOutcome(level, fs, outs, inputs, limit, lo, hi, first, end, inputs');
  }
}
