/** How universal compaction chooses a block of sorted runs, and what holds over every run of flushes,
    picks and finished compactions. */
module UniversalPick {
  import opened Format
  import opened Universal

  const UINT_MAX: nat := 0xFFFF_FFFF

  datatype Options = Options(
    sizeRatio: nat,
    minMergeWidth: nat,
    maxMergeWidth: nat,
    maxSizeAmplificationPercent: nat,
    similarSize: bool,                      // kCompactionStopStyleSimilarSize
    trigger: nat)                           // level0_file_num_compaction_trigger

  function Max(a: nat, b: nat): nat {
    if a > b then a else b
  }

  // ---------------------------------------------------------------- sorted runs of a version

  datatype UFile = UFile(size: nat, compensated: nat, beingCompacted: bool)

  datatype SortedRun = SortedRun(level: nat, size: nat, compensated: nat, beingCompacted: bool)

  function TotalSize(fs: seq<UFile>): nat {
    if fs == [] then 0 else TotalSize(fs[..|fs| - 1]) + fs[|fs| - 1].size
  }

  function TotalCompensated(fs: seq<UFile>): nat {
    if fs == [] then 0 else TotalCompensated(fs[..|fs| - 1]) + fs[|fs| - 1].compensated
  }

  function FileRun(f: UFile): SortedRun {
    SortedRun(0, f.size, f.compensated, f.beingCompacted)
  }

  /** Level 0 has one run for each file; a deeper level below the bound is one run unless it weighs
      nothing. */
  ghost predicate AreSortedRuns(levels: seq<seq<UFile>>, runs: seq<SortedRun>, bound: nat)
    requires 0 < |levels| && bound <= |levels|
  {
    var n := |levels[0]|;
    && n <= |runs|
    && (forall i :: 0 <= i < n ==> runs[i] == FileRun(levels[0][i]))
    && (forall i :: n <= i < |runs| ==> runs[i].level < bound && IsLevelRun(levels, runs[i]))
    && (forall i, k :: n <= i < k < |runs| ==> runs[i].level < runs[k].level)
    && (forall l {:trigger HasLevel(runs, n, l)} :: 1 <= l < bound && TotalCompensated(levels[l]) > 0 ==>
        HasLevel(runs, n, l))
  }

  ghost predicate HasLevel(runs: seq<SortedRun>, n: nat, l: nat) {
    exists i :: n <= i < |runs| && runs[i].level == l
  }

  ghost predicate IsLevelRun(levels: seq<seq<UFile>>, r: SortedRun) {
    && 1 <= r.level < |levels|
    && r.size == TotalSize(levels[r.level])
    && r.compensated == TotalCompensated(levels[r.level]) > 0
    && (r.beingCompacted <==> AnyBeingCompacted(levels[r.level]))
  }

  ghost predicate AnyBeingCompacted(fs: seq<UFile>) {
    exists i :: 0 <= i < |fs| && fs[i].beingCompacted
  }

  /** Outside trivial moves a compaction takes all files of a deeper level or none. */
  ghost predicate LevelsShareFate(levels: seq<seq<UFile>>) {
    forall l, i, k :: 1 <= l < |levels| && 0 <= i < |levels[l]| && 0 <= k < |levels[l]| ==>
      levels[l][i].beingCompacted == levels[l][k].beingCompacted
  }

  /** What a sorted run is: a level-0 file with its sizes, or a deeper level with the sums of its files' sizes, that
      is being compacted exactly when one of its files is. */
  lemma SortedRunIs(levels: seq<seq<UFile>>, runs: seq<SortedRun>, i: nat)
    requires 0 < |levels| && AreSortedRuns(levels, runs, |levels|) && i < |runs|
    ensures i < |levels[0]| ==>
      && runs[i].level == 0 && runs[i].size == levels[0][i].size && runs[i].compensated == levels[0][i].compensated
      && runs[i].beingCompacted == levels[0][i].beingCompacted
    ensures i >= |levels[0]| ==>
      && 0 < runs[i].level < |levels| && runs[i].size == TotalSize(levels[runs[i].level])
      && runs[i].compensated == TotalCompensated(levels[runs[i].level])
      && (runs[i].beingCompacted <==>
            exists k :: 0 <= k < |levels[runs[i].level]| && levels[runs[i].level][k].beingCompacted)
  {
    if i >= |levels[0]| {
      assert IsLevelRun(levels, runs[i]);
    }
  }

  lemma TotalsAddUp(fs: seq<UFile>, f: UFile)
    ensures TotalSize(fs + [f]) == TotalSize(fs) + f.size
    ensures TotalCompensated(fs + [f]) == TotalCompensated(fs) + f.compensated
  {
    assert (fs + [f])[..|fs|] == fs;
  }

  method SumLevel(fs: seq<UFile>, allowTrivialMove: bool) returns (size: nat, compensated: nat, being: bool)
    requires !allowTrivialMove ==> forall i, k :: 0 <= i < |fs| && 0 <= k < |fs| ==>
      fs[i].beingCompacted == fs[k].beingCompacted
    ensures size == TotalSize(fs) && compensated == TotalCompensated(fs)
    ensures being <==> AnyBeingCompacted(fs)
  {
    size, compensated, being := 0, 0, false;
    var isFirst := true;
    for i := 0 to |fs|
      invariant size == TotalSize(fs[..i]) && compensated == TotalCompensated(fs[..i])
      invariant isFirst <==> i == 0
      invariant being <==> exists k :: 0 <= k < i && fs[k].beingCompacted
    {
      assert fs[..i + 1][..i] == fs[..i];
      compensated := compensated + fs[i].compensated;
      size := size + fs[i].size;
      if allowTrivialMove {
        if fs[i].beingCompacted {
          being := true;
        }
      }
      if isFirst {
        being := fs[i].beingCompacted;
        isFirst := false;
      }
    }
    assert fs[..|fs|] == fs;
  }

  lemma AppendLevelRun(levels: seq<seq<UFile>>, runs: seq<SortedRun>, r: SortedRun)
    requires 0 < |levels| && IsLevelRun(levels, r) && AreSortedRuns(levels, runs, r.level)
    ensures AreSortedRuns(levels, runs + [r], r.level + 1)
  {
    var n, runs' := |levels[0]|, runs + [r];
    forall l | 1 <= l < r.level + 1 && TotalCompensated(levels[l]) > 0
      ensures HasLevel(runs', n, l)
    {
      if l == r.level {
        assert runs'[|runs|].level == l;
      } else {
        assert HasLevel(runs, n, l);
        var i :| n <= i < |runs| && runs[i].level == l;
        assert runs'[i].level == l;
      }
    }
  }

  method CalculateSortedRuns(levels: seq<seq<UFile>>, allowTrivialMove: bool) returns (runs: seq<SortedRun>)
    requires |levels| > 0 && (!allowTrivialMove ==> LevelsShareFate(levels))
    ensures AreSortedRuns(levels, runs, |levels|)
  {
    runs := [];
    for i := 0 to |levels[0]|
      invariant |runs| == i
      invariant forall k :: 0 <= k < i ==> runs[k] == FileRun(levels[0][k])
    {
      runs := runs + [FileRun(levels[0][i])];
    }
    for level := 1 to |levels|
      invariant AreSortedRuns(levels, runs, level)
    {
      var size, compensated, being := SumLevel(levels[level], allowTrivialMove);
      if compensated > 0 {
        AppendLevelRun(levels, runs, SortedRun(level, size, compensated, being));
        runs := runs + [SortedRun(level, size, compensated, being)];
      }
    }
  }

  // ---------------------------------------------------------------- read amplification

  function SumCompensated(runs: seq<SortedRun>, lo: nat, hi: nat): nat
    requires lo <= hi <= |runs|
    decreases hi - lo
  {
    if lo == hi then 0 else SumCompensated(runs, lo, hi - 1) + runs[hi - 1].compensated
  }

  /** The next run joins the candidates, whose size is the given one. */
  predicate Joins(r: SortedRun, size: nat, ratio: nat, similar: bool) {
    && !r.beingCompacted
    && 100 * r.size <= size * (100 + ratio)
    && (similar ==> 100 * size <= r.size * (100 + ratio))
  }

  function Grown(r: SortedRun, size: nat, similar: bool): nat {
    if similar then r.compensated else size + r.compensated
  }

  /** The end of the window when the runs before i are in it and room more may join. */
  function WindowEnd(runs: seq<SortedRun>, i: nat, size: nat, room: nat, ratio: nat, similar: bool): (end: nat)
    requires i <= |runs|
    ensures i <= end <= |runs| && end <= i + room
    ensures forall k :: i <= k < end ==> !runs[k].beingCompacted
    decreases |runs| - i
  {
    if i == |runs| || room == 0 || !Joins(runs[i], size, ratio, similar) then i
    else WindowEnd(runs, i + 1, Grown(runs[i], size, similar), room - 1, ratio, similar)
  }

  /** How many runs a window that starts at a free run takes. */
  function Width(runs: seq<SortedRun>, start: nat, max: nat, ratio: nat, similar: bool): nat
    requires start < |runs|
  {
    WindowEnd(runs, start + 1, runs[start].compensated, if max > 1 then max - 1 else 0, ratio, similar) - start
  }

  /** What the candidates before run i weigh against it: all of them, or the last one. */
  function Weight(runs: seq<SortedRun>, start: nat, i: nat, similar: bool): nat
    requires start < i <= |runs|
  {
    if similar then runs[i - 1].compensated else SumCompensated(runs, start, i)
  }

  lemma {:induction false} WindowFits(runs: seq<SortedRun>, start: nat, i: nat, room: nat, ratio: nat, similar: bool)
    requires start < i <= |runs|
    ensures var end := WindowEnd(runs, i, Weight(runs, start, i, similar), room, ratio, similar);
      && (forall k :: i <= k < end ==> Joins(runs[k], Weight(runs, start, k, similar), ratio, similar))
      && (end < |runs| && end < i + room ==> !Joins(runs[end], Weight(runs, start, end, similar), ratio, similar))
    decreases |runs| - i
  {
    if i < |runs| && room > 0 && Joins(runs[i], Weight(runs, start, i, similar), ratio, similar) {
      WindowFits(runs, start, i + 1, room - 1, ratio, similar);
      assert Weight(runs, start, i + 1, similar) == Grown(runs[i], Weight(runs, start, i, similar), similar);
    }
  }

  /** Every run of the window has joined it, and the run behind it has not, unless the window is full. */
  lemma WidthFits(runs: seq<SortedRun>, start: nat, max: nat, ratio: nat, similar: bool, i: nat)
    requires start < i < |runs| && i <= start + Width(runs, start, max, ratio, similar)
    requires i == start + Width(runs, start, max, ratio, similar) ==> i < start + max
    ensures Joins(runs[i], Weight(runs, start, i, similar), ratio, similar) <==>
      i < start + Width(runs, start, max, ratio, similar)
  {
    WindowFits(runs, start, start + 1, if max > 1 then max - 1 else 0, ratio, similar);
    assert SumCompensated(runs, start, start + 1) == SumCompensated(runs, start, start) + runs[start].compensated;
  }

  lemma WidthIsBounded(runs: seq<SortedRun>, start: nat, max: nat, ratio: nat, similar: bool)
    requires start < |runs| && !runs[start].beingCompacted
    ensures var end := start + Width(runs, start, max, ratio, similar);
      && start < end <= |runs| && (end == start + 1 || end <= start + max)
      && forall i :: start <= i < end ==> !runs[i].beingCompacted
  {
  }

  /** In total-size style a run is in the window exactly when it is free and no larger than all runs before it in
      the window together, up to the ratio. */
  lemma TotalSizeJoins(runs: seq<SortedRun>, start: nat, max: nat, ratio: nat, i: nat)
    requires start < i < |runs| && i <= start + Width(runs, start, max, ratio, false)
    requires i == start + Width(runs, start, max, ratio, false) ==> i < start + max
    ensures i < start + Width(runs, start, max, ratio, false) <==>
      !runs[i].beingCompacted && 100 * runs[i].size <= SumCompensated(runs, start, i) * (100 + ratio)
  {
    WidthFits(runs, start, max, ratio, false, i);
  }

  /** In similar-size style it is compared with the run before it, both ways. */
  lemma SimilarSizeJoins(runs: seq<SortedRun>, start: nat, max: nat, ratio: nat, i: nat)
    requires start < i < |runs| && i <= start + Width(runs, start, max, ratio, true)
    requires i == start + Width(runs, start, max, ratio, true) ==> i < start + max
    ensures i < start + Width(runs, start, max, ratio, true) <==>
      && !runs[i].beingCompacted
      && 100 * runs[i].size <= runs[i - 1].compensated * (100 + ratio)
      && 100 * runs[i - 1].compensated <= runs[i].size * (100 + ratio)
  {
    WidthFits(runs, start, max, ratio, true, i);
  }

  /** No window that starts before the bound is wide enough. */
  ghost predicate NoneWide(runs: seq<SortedRun>, bound: nat, width: nat, max: nat, ratio: nat, similar: bool) {
    forall i: nat :: i < bound ==> IsNarrow(runs, i, width, max, ratio, similar)
  }

  ghost predicate IsNarrow(runs: seq<SortedRun>, i: nat, width: nat, max: nat, ratio: nat, similar: bool) {
    i < |runs| && !runs[i].beingCompacted ==> Width(runs, i, max, ratio, similar) < width
  }

  /** At least two neighbouring runs, none in a running compaction. */
  ghost predicate FreeWindow(runs: seq<SortedRun>, start: nat, end: nat) {
    start + 2 <= end <= |runs| && forall i :: start <= i < end ==> !runs[i].beingCompacted
  }

  /** The pick is the first window that is wide enough, as wide as it gets, or there is none. */
  ghost predicate IsReadAmpPick(runs: seq<SortedRun>, o: Options, ratio: nat, maxFiles: nat, r: Option<(nat, nat)>) {
    var width, max := Max(o.minMergeWidth, 2), Min(o.maxMergeWidth, maxFiles);
    match r
    case None => NoneWide(runs, |runs|, width, max, ratio, o.similarSize)
    case Some((start, end)) =>
      && FreeWindow(runs, start, end)
      && end - start == Width(runs, start, max, ratio, o.similarSize) >= width
      && NoneWide(runs, start, width, max, ratio, o.similarSize)
  }

  method PickReadAmp(runs: seq<SortedRun>, o: Options, ratio: nat, maxFiles: nat) returns (r: Option<(nat, nat)>)
    ensures IsReadAmpPick(runs, o, ratio, maxFiles, r)
  {
    var width, max := Max(o.minMergeWidth, 2), Min(o.maxMergeWidth, maxFiles);
    var loop := 0;
    while loop < |runs|
      invariant NoneWide(runs, loop, width, max, ratio, o.similarSize)
    {
      while loop < |runs| && runs[loop].beingCompacted
        invariant NoneWide(runs, loop, width, max, ratio, o.similarSize)
      {
        loop := loop + 1;
      }
      if loop < |runs| {
        var count := CountCandidates(runs, loop, max, ratio, o.similarSize);
        if count >= width {
          return Some((loop, loop + count));
        }
      }
      loop := loop + 1;
    }
    r := None;
  }

  method CountCandidates(runs: seq<SortedRun>, start: nat, max: nat, ratio: nat, similar: bool) returns (count: nat)
    requires start < |runs| && !runs[start].beingCompacted
    ensures count == Width(runs, start, max, ratio, similar)
    ensures start + count <= |runs| && forall k :: start <= k < start + count ==> !runs[k].beingCompacted
  {
    count := 1;
    var size: nat := runs[start].compensated;
    var i := start + 1;
    ghost var room: nat := if max > 1 then max - 1 else 0;
    while count < max && i < |runs|
      invariant i == start + count <= |runs|
      invariant room == if max > count then max - count else 0
      invariant start + Width(runs, start, max, ratio, similar) == WindowEnd(runs, i, size, room, ratio, similar)
    {
      if runs[i].beingCompacted {
        break;
      }
      if size * (100 + ratio) < 100 * runs[i].size {
        break;
      }
      if similar {
        if runs[i].size * (100 + ratio) < 100 * size {
          break;
        }
        size := runs[i].compensated;
      } else {
        size := size + runs[i].compensated;
      }
      room := room - 1;
      count := count + 1;
      i := i + 1;
    }
  }

  // ---------------------------------------------------------------- size amplification

  /** start is the first free run, those after it are free up to the last, which is not looked at, and
      together they are large against the last. */
  ghost predicate AmplifiesFrom(runs: seq<SortedRun>, start: nat, percent: nat) {
    && start + 1 < |runs|
    && (forall i :: 0 <= i < start ==> runs[i].beingCompacted)
    && (forall i :: start <= i < |runs| - 1 ==> !runs[i].beingCompacted)
    && SumCompensated(runs, start, |runs| - 1) * 100 >= percent * runs[|runs| - 1].size
  }

  lemma OneStart(runs: seq<SortedRun>, start: nat, percent: nat, first: nat)
    requires AmplifiesFrom(runs, start, percent) && first < |runs|
    requires forall i :: 0 <= i < first ==> runs[i].beingCompacted
    requires first < |runs| - 1 ==> !runs[first].beingCompacted
    ensures start == first
  {
    assert !runs[start].beingCompacted;
    assert first < |runs| - 1 ==> !runs[first].beingCompacted;
  }

  method PickSizeAmp(runs: seq<SortedRun>, percent: nat) returns (r: Option<nat>)
    requires |runs| > 0
    ensures match r
            case None => forall start :: !AmplifiesFrom(runs, start, percent)
            case Some(start) => AmplifiesFrom(runs, start, percent)
  {
    var start := 0;
    while start < |runs| - 1 && runs[start].beingCompacted
      invariant 0 <= start <= |runs| - 1
      invariant forall i :: 0 <= i < start ==> runs[i].beingCompacted
    {
      start := start + 1;
    }
    forall a | AmplifiesFrom(runs, a, percent)
      ensures a == start
    {
      OneStart(runs, a, percent, start);
    }
    if start == |runs| - 1 {
      return None;
    }
    var size: nat := 0;
    for loop := start to |runs| - 1
      invariant forall i :: start <= i < loop ==> !runs[i].beingCompacted
      invariant size == SumCompensated(runs, start, loop)
    {
      if runs[loop].beingCompacted {
        return None;
      }
      size := size + runs[loop].compensated;
    }
    if size * 100 < percent * runs[|runs| - 1].size {
      r := None;
    } else {
      r := Some(start);
    }
  }

  // ---------------------------------------------------------------- the pick

  /** What a pick can see of the runs. */
  function Seen(runs: seq<Run>): (r: seq<SortedRun>)
    ensures |r| == |runs|
    ensures forall i :: 0 <= i < |runs| ==>
      r[i] == SortedRun(runs[i].level, runs[i].size, runs[i].compensated, BeingCompacted(runs[i]))
  {
    seq(|runs|, i requires 0 <= i < |runs| =>
      SortedRun(runs[i].level, runs[i].size, runs[i].compensated, BeingCompacted(runs[i])))
  }

  /** The first i runs are the same. */
  ghost predicate SameRuns(a: seq<SortedRun>, b: seq<SortedRun>, i: nat) {
    i <= |a| && i <= |b| && forall j :: 0 <= j < i ==> a[j] == b[j]
  }

  /** The level of a's next run is found in b, and not before it. */
  lemma NextLevel(levels: seq<seq<UFile>>, a: seq<SortedRun>, b: seq<SortedRun>, i: nat) returns (j: nat)
    requires |levels| > 0 && AreSortedRuns(levels, a, |levels|) && AreSortedRuns(levels, b, |levels|)
    requires |levels[0]| <= i < |a| && SameRuns(a, b, i)
    ensures i <= j < |b| && IsLevelRun(levels, a[i]) && IsLevelRun(levels, b[j]) && b[j].level == a[i].level
  {
    assert IsLevelRun(levels, a[i]) && HasLevel(b, |levels[0]|, a[i].level);
    j :| |levels[0]| <= j < |b| && b[j].level == a[i].level;
  }

  lemma NextRunAgrees(levels: seq<seq<UFile>>, a: seq<SortedRun>, b: seq<SortedRun>, i: nat)
    requires |levels| > 0 && AreSortedRuns(levels, a, |levels|) && AreSortedRuns(levels, b, |levels|)
    requires |levels[0]| <= i < |a| && SameRuns(a, b, i)
    ensures SameRuns(a, b, i + 1)
  {
    var j := NextLevel(levels, a, b, i);
    var k := NextLevel(levels, b, a, i);
  }

  lemma {:induction false} RunsAgree(levels: seq<seq<UFile>>, a: seq<SortedRun>, b: seq<SortedRun>, i: nat)
    requires |levels| > 0 && AreSortedRuns(levels, a, |levels|) && AreSortedRuns(levels, b, |levels|)
    requires |levels[0]| <= i <= |a|
    ensures SameRuns(a, b, i)
  {
    if i > |levels[0]| {
      RunsAgree(levels, a, b, i - 1);
      NextRunAgrees(levels, a, b, i - 1);
    }
  }

  /** The files of a version determine its sorted runs. */
  lemma SortedRunsAreUnique(levels: seq<seq<UFile>>, a: seq<SortedRun>, b: seq<SortedRun>)
    requires |levels| > 0 && AreSortedRuns(levels, a, |levels|) && AreSortedRuns(levels, b, |levels|)
    ensures a == b
  {
    RunsAgree(levels, a, b, |a|);
    RunsAgree(levels, b, a, |b|);
  }

  /** The last run, which the size-amplification pick does not check, is free as well: a compaction
      has at least two inputs, and the one next to it would have been seen. */
  lemma LastRunIsFree(s: State, start: nat, percent: nat)
    requires BlocksOk(s.runs) && AmplifiesFrom(Seen(s.runs), start, percent)
    ensures FreeBlock(s.runs, start, |s.runs|)
  {
    var last := |s.runs| - 1;
    forall i | start <= i < last
      ensures !BeingCompacted(s.runs[i])
    {
      assert !Seen(s.runs)[i].beingCompacted;
    }
    assert !HasNeighbour(s.runs, last) || s.runs[last].block.None?;
  }

  /** Size amplification comes first, then the size ratio, then the number of runs. */
  ghost predicate IsPick(runs: seq<SortedRun>, o: Options, r: Option<(nat, nat)>) {
    if |runs| == 0 || |runs| < o.trigger then r.None?
    else if exists start :: AmplifiesFrom(runs, start, o.maxSizeAmplificationPercent) then
      r.Some? && AmplifiesFrom(runs, r.value.0, o.maxSizeAmplificationPercent) && r.value.1 == |runs|
    else
      || (r.Some? && IsReadAmpPick(runs, o, o.sizeRatio, UINT_MAX, r))
      || (IsReadAmpPick(runs, o, o.sizeRatio, UINT_MAX, None) &&
          IsReadAmpPick(runs, o, UINT_MAX, |runs| - o.trigger, r))
  }

  method PickFromRuns(runs: seq<SortedRun>, o: Options) returns (r: Option<(nat, nat)>)
    ensures IsPick(runs, o, r)
  {
    if |runs| == 0 || |runs| < o.trigger {
      return None;
    }
    var amp := PickSizeAmp(runs, o.maxSizeAmplificationPercent);
    if amp.Some? {
      return Some((amp.value, |runs|));
    }
    r := PickReadAmp(runs, o, o.sizeRatio, UINT_MAX);
    if r.None? {
      r := PickReadAmp(runs, o, UINT_MAX, |runs| - o.trigger);
    }
  }

  /** A pick for size amplification: the free runs from the first one on, all but the last, weigh enough against
      the last. Then everything from the first free run on is picked. */
  lemma AmplificationIsPicked(runs: seq<SortedRun>, o: Options, r: Option<(nat, nat)>, first: nat)
    requires IsPick(runs, o, r) && |runs| >= o.trigger && first + 1 < |runs|
    requires forall i :: 0 <= i < first ==> runs[i].beingCompacted
    requires forall i :: first <= i < |runs| - 1 ==> !runs[i].beingCompacted
    ensures SumCompensated(runs, first, |runs| - 1) * 100 >= o.maxSizeAmplificationPercent * runs[|runs| - 1].size ==>
      r == Some((first, |runs|))
  {
    if SumCompensated(runs, first, |runs| - 1) * 100 >= o.maxSizeAmplificationPercent * runs[|runs| - 1].size {
      assert AmplifiesFrom(runs, first, o.maxSizeAmplificationPercent);
      OneStart(runs, r.value.0, o.maxSizeAmplificationPercent, first);
    }
  }

  /** A free run before the pick, or any one if there is none, starts no window that is wide enough. */
  lemma BeforeIsNarrow(runs: seq<SortedRun>, o: Options, ratio: nat, maxFiles: nat, r: Option<(nat, nat)>, i: nat)
    requires i < |runs| && !runs[i].beingCompacted
    ensures IsReadAmpPick(runs, o, ratio, maxFiles, r) && (r.Some? ==> i < r.value.0) ==>
      Width(runs, i, Min(o.maxMergeWidth, maxFiles), ratio, o.similarSize) < Max(o.minMergeWidth, 2)
  {
    if IsReadAmpPick(runs, o, ratio, maxFiles, r) && (r.Some? ==> i < r.value.0) {
      assert IsNarrow(runs, i, Max(o.minMergeWidth, 2), Min(o.maxMergeWidth, maxFiles), ratio, o.similarSize);
    }
  }

  /** What else is picked: never a run alone, and nothing below the trigger; the first window that is wide enough
      under the size ratio; failing that, under no ratio, one that brings the number of runs to the trigger. */
  lemma RatioIsPicked(runs: seq<SortedRun>, o: Options, start: nat, end: nat, before: nat)
    requires IsPick(runs, o, Some((start, end))) && before < |runs| && !runs[before].beingCompacted
    ensures |runs| >= o.trigger && start + 2 <= end <= |runs|
    ensures var all, percent := SumCompensated(runs, start, |runs| - 1), o.maxSizeAmplificationPercent;
      end < |runs| || all * 100 < percent * runs[|runs| - 1].size ==>
      var least, most := if o.minMergeWidth > 2 then o.minMergeWidth else 2, o.maxMergeWidth;
      || (&& end - start == Width(runs, start, Min(most, 0xFFFF_FFFF), o.sizeRatio, o.similarSize) >= least
          && (before < start ==> Width(runs, before, Min(most, 0xFFFF_FFFF), o.sizeRatio, o.similarSize) < least))
      || (&& Width(runs, before, Min(most, 0xFFFF_FFFF), o.sizeRatio, o.similarSize) < least
          && end - start == Width(runs, start, Min(most, |runs| - o.trigger), 0xFFFF_FFFF, o.similarSize) >= least
          && (before < start ==>
                Width(runs, before, Min(most, |runs| - o.trigger), 0xFFFF_FFFF, o.similarSize) < least))
  {
    BeforeIsNarrow(runs, o, o.sizeRatio, UINT_MAX, Some((start, end)), before);
    BeforeIsNarrow(runs, o, o.sizeRatio, UINT_MAX, None, before);
    if |runs| >= o.trigger {
      BeforeIsNarrow(runs, o, UINT_MAX, |runs| - o.trigger, Some((start, end)), before);
    }
  }

  /** Nothing is picked only below the trigger, or when no run starts a window that is wide enough in either
      way. */
  lemma NothingIsPicked(runs: seq<SortedRun>, o: Options, start: nat)
    requires IsPick(runs, o, None) && |runs| >= o.trigger && start < |runs| && !runs[start].beingCompacted
    ensures var least, most := if o.minMergeWidth > 2 then o.minMergeWidth else 2, o.maxMergeWidth;
      && Width(runs, start, Min(most, 0xFFFF_FFFF), o.sizeRatio, o.similarSize) < least
      && Width(runs, start, Min(most, |runs| - o.trigger), 0xFFFF_FFFF, o.similarSize) < least
  {
    BeforeIsNarrow(runs, o, o.sizeRatio, UINT_MAX, None, start);
    BeforeIsNarrow(runs, o, UINT_MAX, |runs| - o.trigger, None, start);
  }

  lemma PickIsFree(s: State, o: Options, r: (nat, nat))
    requires BlocksOk(s.runs) && IsPick(Seen(s.runs), o, Some(r))
    ensures FreeBlock(s.runs, r.0, r.1)
  {
    if AmplifiesFrom(Seen(s.runs), r.0, o.maxSizeAmplificationPercent) && r.1 == |s.runs| {
      LastRunIsFree(s, r.0, o.maxSizeAmplificationPercent);
    } else {
      assert FreeWindow(Seen(s.runs), r.0, r.1);
      assert forall i :: r.0 <= i < r.1 ==> !Seen(s.runs)[i].beingCompacted;
    }
  }

  /** PickCompaction, on the files of a version that holds the runs of state s. */
  method PickCompaction(levels: seq<seq<UFile>>, allowTrivialMove: bool, o: Options, ghost s: State)
    returns (r: Option<(nat, nat)>)
    requires |levels| > 0 && (!allowTrivialMove ==> LevelsShareFate(levels))
    requires Inv(s) && AreSortedRuns(levels, Seen(s.runs), |levels|)
    ensures IsPick(Seen(s.runs), o, r)
    ensures r.Some? ==> FreeBlock(s.runs, r.value.0, r.value.1)
  {
    var runs := CalculateSortedRuns(levels, allowTrivialMove);
    SortedRunsAreUnique(levels, runs, Seen(s.runs));
    r := PickFromRuns(runs, o);
    if r.Some? {
      PickIsFree(s, o, r.value);
    }
  }

  // ---------------------------------------------------------------- every run

  ghost predicate IsRun(states: seq<State>, steps: seq<Step>) {
    && |states| == |steps| + 1
    && Init(states[0])
    && forall n {:trigger steps[n]} :: 0 <= n < |steps| ==>
         Enabled(states[n], steps[n]) && states[n + 1] == Do(states[n], steps[n])
  }

  lemma {:induction false} RunKeeps(states: seq<State>, steps: seq<Step>, n: nat)
    requires IsRun(states, steps) && n < |states|
    ensures Inv(states[n])
  {
    if n > 0 {
      RunKeeps(states, steps, n - 1);
      StepKeeps(states[n - 1], steps[n - 1]);
    }
  }

  /** From newest to oldest, runs never overlap in age, and deeper levels hold older runs. */
  lemma RunsStayInOrder(states: seq<State>, steps: seq<Step>, n: nat, i: nat, k: nat)
    requires IsRun(states, steps) && n < |states| && i < k < |states[n].runs|
    ensures states[n].runs[i].oldest > states[n].runs[k].newest
    ensures states[n].runs[i].level < states[n].runs[k].level ||
      (states[n].runs[i].level == 0 && states[n].runs[k].level == 0)
  {
    RunKeeps(states, steps, n);
    assert PairOk(states[n], states[n].runs[i], states[n].runs[k]);
  }

  /** Running compactions have disjoint, contiguous blocks of at least two runs each. */
  lemma BlocksAreIntervals(states: seq<State>, steps: seq<Step>, n: nat, b: BlockId) returns (lo: nat, hi: nat)
    requires IsRun(states, steps) && n < |states| && b in states[n].blocks
    ensures IsBlock(states[n].runs, b, lo, hi) && lo + 2 <= hi
  {
    RunKeeps(states, steps, n);
    lo, hi := BlockBounds(states[n].runs, b);
  }

  /** A flush adds one run, newer than all others, on level 0, with the sizes of the file it wrote. */
  lemma FlushIsNewest(states: seq<State>, steps: seq<Step>, n: nat, i: nat)
    requires IsRun(states, steps) && n < |steps| && steps[n].Flush? && i < |states[n].runs|
    ensures var s, s' := states[n], states[n + 1];
      && |s'.runs| == |s.runs| + 1 && s'.runs[1..] == s.runs && s'.blocks == s.blocks
      && s'.runs[0].level == 0 && s'.runs[0].size == steps[n].size && s'.runs[0].compensated == steps[n].compensated
      && s'.runs[0].oldest > s.runs[i].newest && s'.runs[0].block.None?
  {
    RunKeeps(states, steps, n);
    assert RunOk(states[n], states[n].runs[i]);
  }

  /** A pick reserves exactly its runs, for an output as deep as it can go: no level below the output level
      is free of runs that are not older than the inputs. */
  lemma PickReserves(states: seq<State>, steps: seq<Step>, n: nat, i: nat, level: nat)
    requires IsRun(states, steps) && n < |steps| && steps[n].Pick? && i < |states[n].runs|
    requires level < states[n].numLevels
    ensures var s, s', b, start, end := states[n], states[n + 1], steps[n].b, steps[n].start, steps[n].end;
      && |s'.runs| == |s.runs| && start + 2 <= end <= |s.runs| && b in s'.blocks
      && s'.runs[i] == (if start <= i < end then s.runs[i].(block := Some(b)) else s.runs[i])
      && (start <= i < end ==> s.runs[i].block.None?)
      && s'.blocks[b] < s.numLevels
      && (level <= s'.blocks[b] <==>
            end == |s.runs| || level < s.runs[end].level || (level == 0 && s.runs[end].level == 0))
  {
    RunKeeps(states, steps, n);
    assert RunOk(states[n], states[n].runs[i]);
    if steps[n].end < |states[n].runs| {
      assert RunOk(states[n], states[n].runs[steps[n].end]);
    }
    OutputGoesDeep(states[n].runs, steps[n].end, states[n].numLevels, level);
  }

  /** A compaction without output takes its inputs away. */
  lemma EmptyTakesAway(states: seq<State>, steps: seq<Step>, n: nat) returns (lo: nat, hi: nat)
    requires IsRun(states, steps) && n < |steps| && steps[n].FinishEmpty?
    ensures var s, s', b := states[n], states[n + 1], steps[n].b;
      && b in s.blocks && s'.blocks == s.blocks - {b} && IsBlock(s.runs, b, lo, hi) && lo + 2 <= hi
      && s'.runs == s.runs[..lo] + s.runs[hi..]
  {
    RunKeeps(states, steps, n);
    lo, hi := EmptyIs(states[n], steps[n].b);
  }

  /** One that fails gives them back. */
  lemma FailGivesBack(states: seq<State>, steps: seq<Step>, n: nat, i: nat)
    requires IsRun(states, steps) && n < |steps| && steps[n].Fail? && i < |states[n].runs|
    ensures var s, s', b := states[n], states[n + 1], steps[n].b;
      && b in s.blocks && s'.blocks == s.blocks - {b} && |s'.runs| == |s.runs|
      && s'.runs[i] == if s.runs[i].block == Some(b) then s.runs[i].(block := None) else s.runs[i]
  {
  }

  /** A finished compaction's output stands in its inputs' place, on a level that no other run uses. */
  lemma OutputTakesThePlace(states: seq<State>, steps: seq<Step>, n: nat) returns (lo: nat, hi: nat, r: Run)
    requires IsRun(states, steps) && n < |steps| && steps[n].Finish?
    ensures var s, b := states[n], steps[n].b;
      && b in s.blocks && IsBlock(s.runs, b, lo, hi)
      && states[n + 1].runs == s.runs[..lo] + [r] + s.runs[hi..]
      && r.level == s.blocks[b] && r.size == steps[n].size && r.compensated == steps[n].compensated
      && r.newest == s.runs[lo].newest && r.oldest == s.runs[hi - 1].oldest && r.block.None?
      && (r.level > 0 ==> forall i :: 0 <= i < |s.runs| && !(lo <= i < hi) ==> s.runs[i].level != r.level)
  {
    RunKeeps(states, steps, n);
    var s, b := states[n], steps[n].b;
    lo, hi := BlockBounds(s.runs, b);
    r := Finished(s, b, steps[n].size, steps[n].compensated, lo, hi);
    forall i | 0 <= i < |s.runs| && !(lo <= i < hi)
      ensures LevelsInOrder(s.runs[i].level, r.level) || LevelsInOrder(r.level, s.runs[i].level)
    {
      assert PairOk(states[n + 1], s.runs[i], r) || PairOk(states[n + 1], r, s.runs[i]);
    }
  }
}
