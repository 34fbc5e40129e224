/** Universal compaction: sorted runs from newest to oldest, the blocks of runs being compacted, and
    how flushes, picks and finished compactions change them. */
module Universal {
  import opened Format

  type BlockId = nat

  /** A sorted run: a level-0 file or a whole deeper level. newest and oldest bound the age of its
      records; block is the running compaction it is an input of. */
  datatype Run = Run(level: nat, size: nat, compensated: nat, newest: int, oldest: int, block: Option<BlockId>)

  /** blocks maps a running compaction to its output level. */
  datatype State = State(runs: seq<Run>, numLevels: nat, blocks: map<BlockId, nat>, clock: int)

  predicate BeingCompacted(r: Run) {
    r.block.Some?
  }

  /** The level a run will be on when the compactions now running have finished. */
  function EndLevel(s: State, r: Run): nat {
    if r.block.Some? && r.block.value in s.blocks then s.blocks[r.block.value] else r.level
  }

  /** A run on level a may stand before an older run on level b. */
  predicate LevelsInOrder(a: nat, b: nat) {
    a < b || (a == 0 && b == 0)
  }

  /** Where the compaction of the runs before position end writes. */
  function OutputLevel(runs: seq<Run>, end: nat, numLevels: nat): nat
    requires end <= |runs|
  {
    if end == |runs| then (if numLevels == 0 then 0 else numLevels - 1)
    else if runs[end].level == 0 then 0
    else runs[end].level - 1
  }

  /** What every pick guarantees: at least two neighbouring runs, none in a running compaction. */
  ghost predicate FreeBlock(runs: seq<Run>, start: nat, end: nat) {
    && start + 2 <= end <= |runs|
    && forall i :: start <= i < end ==> !BeingCompacted(runs[i])
  }

  // ---------------------------------------------------------------- the steps

  datatype Step =
    | Flush(size: nat, compensated: nat)
    | Pick(b: BlockId, start: nat, end: nat)
    | Finish(b: BlockId, size: nat, compensated: nat)
    | FinishEmpty(b: BlockId)
    | Fail(b: BlockId)

  function Mark(runs: seq<Run>, start: nat, end: nat, b: BlockId): (r: seq<Run>)
    requires start <= end <= |runs|
    ensures |r| == |runs|
    ensures forall i :: 0 <= i < |runs| ==> r[i] == if start <= i < end then runs[i].(block := Some(b)) else runs[i]
  {
    seq(|runs|, i requires 0 <= i < |runs| => if start <= i < end then runs[i].(block := Some(b)) else runs[i])
  }

  function Release(runs: seq<Run>, b: BlockId): (r: seq<Run>)
    ensures |r| == |runs|
    ensures forall i :: 0 <= i < |runs| ==>
      r[i] == if runs[i].block == Some(b) then runs[i].(block := None) else runs[i]
  {
    seq(|runs|, i requires 0 <= i < |runs| => if runs[i].block == Some(b) then runs[i].(block := None) else runs[i])
  }

  /** The runs left when the inputs of b are deleted. */
  function Rest(runs: seq<Run>, b: BlockId): seq<Run> {
    if runs == [] then []
    else (if runs[0].block == Some(b) then [] else [runs[0]]) + Rest(runs[1..], b)
  }

  /** Where the version puts a new run: level by level, and level 0 from newest to oldest. */
  predicate GoesBefore(r: Run, x: Run) {
    if r.level == 0 && x.level == 0 then r.newest > x.newest else r.level < x.level
  }

  function Place(runs: seq<Run>, r: Run): seq<Run> {
    if runs == [] then [r]
    else if GoesBefore(r, runs[0]) then [r] + runs
    else [runs[0]] + Place(runs[1..], r)
  }

  /** The newest record of the inputs of b, and the oldest. */
  function NewestOf(runs: seq<Run>, b: BlockId): int {
    if runs == [] then 0
    else if runs[0].block == Some(b) then runs[0].newest
    else NewestOf(runs[1..], b)
  }

  function OldestOf(runs: seq<Run>, b: BlockId): int {
    if runs == [] then 0
    else if runs[|runs| - 1].block == Some(b) then runs[|runs| - 1].oldest
    else OldestOf(runs[..|runs| - 1], b)
  }

  predicate Enabled(s: State, step: Step) {
    match step
    case Flush(_, _) => true
    case Pick(b, start, end) =>
      && b !in s.blocks && start + 2 <= end <= |s.runs|
      && forall i :: start <= i < end ==> !BeingCompacted(s.runs[i])
    case Finish(b, _, _) => b in s.blocks
    case FinishEmpty(b) => b in s.blocks
    case Fail(b) => b in s.blocks
  }

  function Do(s: State, step: Step): State
    requires Enabled(s, step)
  {
    match step
    case Flush(size, compensated) =>
      s.(runs := [Run(0, size, compensated, s.clock, s.clock, None)] + s.runs, clock := s.clock + 1)
    case Pick(b, start, end) =>
      s.(runs := Mark(s.runs, start, end, b), blocks := s.blocks[b := OutputLevel(s.runs, end, s.numLevels)])
    case Finish(b, size, compensated) =>
      var merged := Run(s.blocks[b], size, compensated, NewestOf(s.runs, b), OldestOf(s.runs, b), None);
      s.(runs := Place(Rest(s.runs, b), merged), blocks := s.blocks - {b})
    case FinishEmpty(b) => s.(runs := Rest(s.runs, b), blocks := s.blocks - {b})
    case Fail(b) => s.(runs := Release(s.runs, b), blocks := s.blocks - {b})
  }

  ghost predicate Init(s: State) {
    s.runs == [] && s.numLevels > 0 && s.blocks == map[]
  }

  // ---------------------------------------------------------------- the invariant

  predicate RunOk(s: State, r: Run) {
    && r.oldest <= r.newest < s.clock
    && r.level <= EndLevel(s, r) < s.numLevels
    && (r.block.Some? ==> r.block.value in s.blocks)
  }

  ghost predicate RunsOk(s: State) {
    && s.numLevels > 0
    && forall i :: 0 <= i < |s.runs| ==> RunOk(s, s.runs[i])
  }

  /** Two runs, the first before the second. */
  predicate PairOk(s: State, a: Run, z: Run) {
    && a.oldest > z.newest
    && LevelsInOrder(a.level, z.level)
    && (a.block.None? || a.block != z.block ==> LevelsInOrder(EndLevel(s, a), z.level))
  }

  ghost predicate PairsOk(s: State) {
    forall i, k :: 0 <= i < k < |s.runs| ==> PairOk(s, s.runs[i], s.runs[k])
  }

  /** A run between two inputs of one compaction that is not an input. */
  predicate Gap(runs: seq<Run>, i: int, j: int, k: int) {
    0 <= i < j < k < |runs| && runs[i].block.Some? && runs[i].block == runs[k].block && runs[j].block != runs[i].block
  }

  /** The inputs of a compaction are neighbours, and there are at least two. */
  ghost predicate BlocksOk(runs: seq<Run>) {
    && (forall i, j, k :: !Gap(runs, i, j, k))
    && (forall i :: 0 <= i < |runs| && runs[i].block.Some? ==> HasNeighbour(runs, i))
  }

  predicate HasNeighbour(runs: seq<Run>, i: nat)
    requires i < |runs|
  {
    (i > 0 && runs[i - 1].block == runs[i].block) || (i + 1 < |runs| && runs[i + 1].block == runs[i].block)
  }

  /** Every running compaction has inputs. */
  ghost predicate InputsOk(s: State) {
    forall b :: b in s.blocks ==> exists i :: 0 <= i < |s.runs| && s.runs[i].block == Some(b)
  }

  ghost predicate Inv(s: State) {
    RunsOk(s) && PairsOk(s) && BlocksOk(s.runs) && InputsOk(s)
  }

  // ---------------------------------------------------------------- a block is an interval

  /** b's inputs are the runs from lo up to hi. */
  ghost predicate IsBlock(runs: seq<Run>, b: BlockId, lo: nat, hi: nat) {
    && lo < hi <= |runs|
    && forall i :: 0 <= i < |runs| ==> (runs[i].block == Some(b) <==> lo <= i < hi)
  }

  lemma FirstInput(runs: seq<Run>, b: BlockId) returns (lo: nat)
    requires exists i :: 0 <= i < |runs| && runs[i].block == Some(b)
    ensures lo < |runs| && runs[lo].block == Some(b) && forall i :: 0 <= i < lo ==> runs[i].block != Some(b)
  {
    lo := 0;
    while runs[lo].block != Some(b)
      invariant lo < |runs| && forall i :: 0 <= i < lo ==> runs[i].block != Some(b)
      decreases |runs| - lo
    {
      lo := lo + 1;
    }
  }

  lemma BlockBounds(runs: seq<Run>, b: BlockId) returns (lo: nat, hi: nat)
    requires BlocksOk(runs) && exists i :: 0 <= i < |runs| && runs[i].block == Some(b)
    ensures IsBlock(runs, b, lo, hi) && lo + 2 <= hi
  {
    lo := FirstInput(runs, b);
    assert HasNeighbour(runs, lo);
    hi := lo + 2;
    while hi < |runs| && runs[hi].block == Some(b)
      invariant lo + 2 <= hi <= |runs| && forall i :: lo <= i < hi ==> runs[i].block == Some(b)
    {
      hi := hi + 1;
    }
    forall i | hi <= i < |runs|
      ensures runs[i].block != Some(b)
    {
      assert !Gap(runs, lo, hi, i);
    }
  }

  // ---------------------------------------------------------------- replacing a block

  /** The runs from lo up to hi replaced by at most one run. */
  function Spliced(runs: seq<Run>, lo: nat, hi: nat, mid: seq<Run>): seq<Run>
    requires lo <= hi <= |runs|
  {
    runs[..lo] + mid + runs[hi..]
  }

  /** Nothing in front of the runs, or the whole of one block. */
  ghost predicate Replaceable(runs: seq<Run>, lo: nat, hi: nat, mid: seq<Run>) {
    && lo <= hi <= |runs|
    && |mid| <= 1 && (forall r :: r in mid ==> r.block.None?)
    && (hi == 0 || exists b :: IsBlock(runs, b, lo, hi))
  }

  /** Where a run of the spliced list came from. */
  function Source(lo: nat, hi: nat, n: nat, i: int): int {
    if i < lo then i else i - lo - n + hi
  }

  lemma SplicedAt(runs: seq<Run>, lo: nat, hi: nat, mid: seq<Run>, i: nat)
    requires lo <= hi <= |runs| && i < |Spliced(runs, lo, hi, mid)|
    ensures lo <= i < lo + |mid| ==> Spliced(runs, lo, hi, mid)[i] == mid[i - lo]
    ensures !(lo <= i < lo + |mid|) ==>
      var j := Source(lo, hi, |mid|, i);
      0 <= j < |runs| && !(lo <= j < hi) && Spliced(runs, lo, hi, mid)[i] == runs[j]
  {
  }

  lemma SplicedGap(runs: seq<Run>, lo: nat, hi: nat, mid: seq<Run>, i: int, j: int, k: int)
    requires Replaceable(runs, lo, hi, mid) && BlocksOk(runs)
    ensures !Gap(Spliced(runs, lo, hi, mid), i, j, k)
  {
    var runs' := Spliced(runs, lo, hi, mid);
    if 0 <= i < j < k < |runs'| && runs'[i].block.Some? && runs'[i].block == runs'[k].block {
      SplicedAt(runs, lo, hi, mid, i);
      SplicedAt(runs, lo, hi, mid, j);
      SplicedAt(runs, lo, hi, mid, k);
      var n := |mid|;
      var between := if lo <= j < lo + n then lo else Source(lo, hi, n, j);
      assert !Gap(runs, Source(lo, hi, n, i), between, Source(lo, hi, n, k));
    }
  }

  lemma SplicedNeighbour(runs: seq<Run>, lo: nat, hi: nat, mid: seq<Run>, i: nat)
    requires Replaceable(runs, lo, hi, mid) && BlocksOk(runs)
    requires i < |Spliced(runs, lo, hi, mid)| && Spliced(runs, lo, hi, mid)[i].block.Some?
    ensures HasNeighbour(Spliced(runs, lo, hi, mid), i)
  {
    var runs' := Spliced(runs, lo, hi, mid);
    SplicedAt(runs, lo, hi, mid, i);
    var j := Source(lo, hi, |mid|, i);
    assert HasNeighbour(runs, j);
    if j > 0 && runs[j - 1].block == runs[j].block {
      SplicedAt(runs, lo, hi, mid, i - 1);
    } else {
      SplicedAt(runs, lo, hi, mid, i + 1);
    }
  }

  /** The runs that stay keep their standing. */
  ghost predicate Undisturbed(s: State, s': State, lo: nat, hi: nat) {
    && s'.numLevels == s.numLevels && s.clock <= s'.clock
    && forall i :: 0 <= i < |s.runs| && !(lo <= i < hi) && s.runs[i].block.Some? ==>
         SameBlock(s, s', s.runs[i].block.value)
  }

  predicate SameBlock(s: State, s': State, b: BlockId) {
    b in s.blocks && b in s'.blocks && s'.blocks[b] == s.blocks[b]
  }

  /** A new run fits between the runs before lo and those from hi on. */
  ghost predicate Fits(s: State, s': State, lo: nat, hi: nat, r: Run) {
    && RunOk(s', r)
    && (forall i :: 0 <= i < lo && i < |s.runs| ==> PairOk(s', s.runs[i], r))
    && (forall i :: hi <= i < |s.runs| ==> PairOk(s', r, s.runs[i]))
  }

  lemma SplicedPair(s: State, s': State, lo: nat, hi: nat, mid: seq<Run>, i: nat, k: nat)
    requires PairsOk(s) && Replaceable(s.runs, lo, hi, mid) && Undisturbed(s, s', lo, hi)
    requires s'.runs == Spliced(s.runs, lo, hi, mid) && forall r :: r in mid ==> Fits(s, s', lo, hi, r)
    requires i < k < |s'.runs|
    ensures PairOk(s', s'.runs[i], s'.runs[k])
  {
    SplicedAt(s.runs, lo, hi, mid, i);
    SplicedAt(s.runs, lo, hi, mid, k);
    var i', k' := Source(lo, hi, |mid|, i), Source(lo, hi, |mid|, k);
    if lo <= i < lo + |mid| || lo <= k < lo + |mid| {
      assert mid[0] in mid;
    } else {
      assert PairOk(s, s.runs[i'], s.runs[k']);
    }
  }

  lemma SpliceKeeps(s: State, s': State, lo: nat, hi: nat, mid: seq<Run>)
    requires RunsOk(s) && PairsOk(s) && BlocksOk(s.runs)
    requires Replaceable(s.runs, lo, hi, mid) && Undisturbed(s, s', lo, hi)
    requires s'.runs == Spliced(s.runs, lo, hi, mid) && forall r :: r in mid ==> Fits(s, s', lo, hi, r)
    ensures RunsOk(s') && PairsOk(s') && BlocksOk(s'.runs)
  {
    forall i | 0 <= i < |s'.runs|
      ensures RunOk(s', s'.runs[i])
      ensures s'.runs[i].block.Some? ==> HasNeighbour(s'.runs, i)
    {
      SplicedAt(s.runs, lo, hi, mid, i);
      assert lo <= i < lo + |mid| ==> mid[0] in mid;
      assert !(lo <= i < lo + |mid|) ==> RunOk(s, s.runs[Source(lo, hi, |mid|, i)]);
      if s'.runs[i].block.Some? {
        SplicedNeighbour(s.runs, lo, hi, mid, i);
      }
    }
    forall i, k | 0 <= i < k < |s'.runs|
      ensures PairOk(s', s'.runs[i], s'.runs[k])
    {
      SplicedPair(s, s', lo, hi, mid, i, k);
    }
    forall i, j, k
      ensures !Gap(s'.runs, i, j, k)
    {
      SplicedGap(s.runs, lo, hi, mid, i, j, k);
    }
  }

  lemma SplicedInputs(s: State, s': State, lo: nat, hi: nat, mid: seq<Run>, b: BlockId)
    requires Replaceable(s.runs, lo, hi, mid) && s'.runs == Spliced(s.runs, lo, hi, mid)
    requires exists i :: 0 <= i < |s.runs| && !(lo <= i < hi) && s.runs[i].block == Some(b)
    ensures exists i :: 0 <= i < |s'.runs| && s'.runs[i].block == Some(b)
  {
    var i :| 0 <= i < |s.runs| && !(lo <= i < hi) && s.runs[i].block == Some(b);
    var j := if i < lo then i else i - hi + lo + |mid|;
    assert s'.runs[j] == s.runs[i];
  }

  // ---------------------------------------------------------------- flush

  lemma FlushKeeps(s: State, size: nat, compensated: nat)
    requires Inv(s)
    ensures Inv(Do(s, Flush(size, compensated)))
  {
    var s' := Do(s, Flush(size, compensated));
    var mid := s'.runs[..1];
    assert s'.runs == Spliced(s.runs, 0, 0, mid);
    forall i | 0 <= i < |s.runs|
      ensures s.runs[i].block.Some? ==> SameBlock(s, s', s.runs[i].block.value)
      ensures PairOk(s', mid[0], s.runs[i])
    {
      assert RunOk(s, s.runs[i]);
    }
    SpliceKeeps(s, s', 0, 0, mid);
    forall b | b in s'.blocks
      ensures exists i :: 0 <= i < |s'.runs| && s'.runs[i].block == Some(b)
    {
      SplicedInputs(s, s', 0, 0, mid, b);
    }
  }

  // ---------------------------------------------------------------- finish

  /** The compaction's output takes the place of its inputs: its level is free, and in the order of
      levels it stands exactly where they stood. */
  lemma {:induction false} PlaceIsSplice(s: State, b: BlockId, lo: nat, hi: nat, r: Run)
    requires RunsOk(s) && PairsOk(s) && b in s.blocks && IsBlock(s.runs, b, lo, hi)
    requires r.level == s.blocks[b] && r.newest == s.runs[lo].newest
    ensures Rest(s.runs, b) == s.runs[..lo] + s.runs[hi..]
    ensures Place(Rest(s.runs, b), r) == Spliced(s.runs, lo, hi, [r])
  {
    RestIs(s.runs, b, lo, hi);
    var rest := s.runs[..lo] + s.runs[hi..];
    forall i | 0 <= i < |rest|
      ensures GoesBefore(r, rest[i]) <==> i >= lo
    {
      var j := if i < lo then i else i - lo + hi;
      assert rest[i] == s.runs[j];
      if i < lo {
        assert PairOk(s, s.runs[i], s.runs[lo]) && RunOk(s, s.runs[lo]);
      } else {
        assert PairOk(s, s.runs[hi - 1], s.runs[j]) && PairOk(s, s.runs[lo], s.runs[j]);
      }
    }
    PlaceAt(rest, r, lo);
    assert rest[..lo] == s.runs[..lo] && rest[lo..] == s.runs[hi..];
  }

  lemma {:induction false} PlaceAt(runs: seq<Run>, r: Run, at: nat)
    requires at <= |runs| && forall i :: 0 <= i < |runs| ==> (GoesBefore(r, runs[i]) <==> i >= at)
    ensures Place(runs, r) == runs[..at] + [r] + runs[at..]
  {
    if at > 0 {
      PlaceAt(runs[1..], r, at - 1);
      assert runs[..at] + [r] + runs[at..] == [runs[0]] + (runs[1..][..at - 1] + [r] + runs[1..][at - 1..]);
    } else if runs != [] {
      assert GoesBefore(r, runs[0]);
    }
  }

  lemma {:induction false} RestIs(runs: seq<Run>, b: BlockId, lo: nat, hi: nat)
    requires lo <= hi <= |runs|
    requires forall i :: 0 <= i < |runs| ==> (runs[i].block == Some(b) <==> lo <= i < hi)
    ensures Rest(runs, b) == runs[..lo] + runs[hi..]
  {
    if runs != [] {
      var lo', hi' := if lo > 0 then lo - 1 else 0, if hi > 0 then hi - 1 else 0;
      forall i | 0 <= i < |runs[1..]|
        ensures runs[1..][i].block == Some(b) <==> lo' <= i < hi'
      {
        assert runs[1..][i] == runs[i + 1];
      }
      RestIs(runs[1..], b, lo', hi');
      if lo == 0 < hi {
        assert Rest(runs, b) == runs[..lo] + runs[hi..];
      } else {
        assert runs[..lo] + runs[hi..] == [runs[0]] + (runs[1..][..lo'] + runs[1..][hi'..]);
      }
    }
  }

  lemma {:induction false} EndsAre(runs: seq<Run>, b: BlockId, lo: nat, hi: nat)
    requires IsBlock(runs, b, lo, hi)
    ensures NewestOf(runs, b) == runs[lo].newest
    ensures OldestOf(runs, b) == runs[hi - 1].oldest
  {
    NewestIs(runs, b, lo);
    OldestIs(runs, b, hi - 1);
  }

  lemma {:induction false} NewestIs(runs: seq<Run>, b: BlockId, lo: nat)
    requires lo < |runs| && runs[lo].block == Some(b) && forall i :: 0 <= i < lo ==> runs[i].block != Some(b)
    ensures NewestOf(runs, b) == runs[lo].newest
  {
    if lo > 0 {
      NewestIs(runs[1..], b, lo - 1);
    }
  }

  lemma {:induction false} OldestIs(runs: seq<Run>, b: BlockId, last: nat)
    requires last < |runs| && runs[last].block == Some(b) && forall i :: last < i < |runs| ==> runs[i].block != Some(b)
    ensures OldestOf(runs, b) == runs[last].oldest
  {
    if last < |runs| - 1 {
      OldestIs(runs[..|runs| - 1], b, last);
    }
  }

  /** The output fits where the inputs were. */
  lemma OutputFits(s: State, s': State, b: BlockId, lo: nat, hi: nat, r: Run)
    requires RunsOk(s) && PairsOk(s) && b in s.blocks && IsBlock(s.runs, b, lo, hi)
    requires s'.numLevels == s.numLevels && s'.clock == s.clock && s'.blocks == s.blocks - {b}
    requires r.level == s.blocks[b] && r.newest == s.runs[lo].newest && r.oldest == s.runs[hi - 1].oldest &&
      r.block.None?
    ensures Fits(s, s', lo, hi, r)
  {
    assert RunOk(s, s.runs[lo]) && RunOk(s, s.runs[hi - 1]);
    assert lo < hi - 1 ==> PairOk(s, s.runs[lo], s.runs[hi - 1]);
    forall i | 0 <= i < lo
      ensures PairOk(s', s.runs[i], r)
    {
      assert PairOk(s, s.runs[i], s.runs[lo]) && RunOk(s, s.runs[i]);
    }
    forall i | hi <= i < |s.runs|
      ensures PairOk(s', r, s.runs[i])
    {
      assert PairOk(s, s.runs[hi - 1], s.runs[i]);
    }
  }

  lemma ReplaceKeeps(s: State, s': State, b: BlockId, lo: nat, hi: nat, mid: seq<Run>)
    requires Inv(s) && b in s.blocks && IsBlock(s.runs, b, lo, hi)
    requires |mid| <= 1 && forall r :: r in mid ==> r.block.None? && Fits(s, s', lo, hi, r)
    requires s' == s.(runs := Spliced(s.runs, lo, hi, mid), blocks := s.blocks - {b})
    ensures Inv(s')
  {
    forall i | 0 <= i < |s.runs| && !(lo <= i < hi) && s.runs[i].block.Some?
      ensures SameBlock(s, s', s.runs[i].block.value)
    {
      assert RunOk(s, s.runs[i]);
    }
    SpliceKeeps(s, s', lo, hi, mid);
    forall c | c in s'.blocks
      ensures exists i :: 0 <= i < |s'.runs| && s'.runs[i].block == Some(c)
    {
      SplicedInputs(s, s', lo, hi, mid, c);
    }
  }

  lemma Finished(s: State, b: BlockId, size: nat, compensated: nat, lo: nat, hi: nat) returns (r: Run)
    requires RunsOk(s) && PairsOk(s) && b in s.blocks && IsBlock(s.runs, b, lo, hi)
    ensures var s' := Do(s, Finish(b, size, compensated));
      && s' == s.(runs := Spliced(s.runs, lo, hi, [r]), blocks := s.blocks - {b})
      && r == Run(s.blocks[b], size, compensated, s.runs[lo].newest, s.runs[hi - 1].oldest, None)
      && Fits(s, s', lo, hi, r)
  {
    EndsAre(s.runs, b, lo, hi);
    r := Run(s.blocks[b], size, compensated, s.runs[lo].newest, s.runs[hi - 1].oldest, None);
    PlaceIsSplice(s, b, lo, hi, r);
    OutputFits(s, Do(s, Finish(b, size, compensated)), b, lo, hi, r);
  }

  lemma FinishKeeps(s: State, b: BlockId, size: nat, compensated: nat)
    requires Inv(s) && b in s.blocks
    ensures Inv(Do(s, Finish(b, size, compensated)))
  {
    var lo, hi := BlockBounds(s.runs, b);
    var r := Finished(s, b, size, compensated, lo, hi);
    ReplaceKeeps(s, Do(s, Finish(b, size, compensated)), b, lo, hi, [r]);
  }

  lemma FinishedEmpty(s: State, b: BlockId, lo: nat, hi: nat)
    requires b in s.blocks && IsBlock(s.runs, b, lo, hi)
    ensures Do(s, FinishEmpty(b)) == s.(runs := Spliced(s.runs, lo, hi, []), blocks := s.blocks - {b})
  {
    RestIs(s.runs, b, lo, hi);
    assert Spliced(s.runs, lo, hi, []) == s.runs[..lo] + s.runs[hi..];
  }

  lemma EmptyIs(s: State, b: BlockId) returns (lo: nat, hi: nat)
    requires Inv(s) && b in s.blocks
    ensures IsBlock(s.runs, b, lo, hi) && lo + 2 <= hi
    ensures Do(s, FinishEmpty(b)) == s.(runs := s.runs[..lo] + s.runs[hi..], blocks := s.blocks - {b})
  {
    lo, hi := BlockBounds(s.runs, b);
    RestIs(s.runs, b, lo, hi);
  }

  lemma FinishEmptyKeeps(s: State, b: BlockId)
    requires Inv(s) && b in s.blocks
    ensures Inv(Do(s, FinishEmpty(b)))
  {
    var lo, hi := BlockBounds(s.runs, b);
    FinishedEmpty(s, b, lo, hi);
    ReplaceKeeps(s, Do(s, FinishEmpty(b)), b, lo, hi, []);
  }

  // ---------------------------------------------------------------- pick and fail

  /** The output goes as deep as it can: to the last level if nothing is older, and else to the deepest level
      that may stand before the next older run. */
  lemma OutputGoesDeep(runs: seq<Run>, end: nat, numLevels: nat, level: nat)
    requires end <= |runs| && level < numLevels && (end < |runs| ==> runs[end].level < numLevels)
    ensures OutputLevel(runs, end, numLevels) < numLevels
    ensures end == |runs| ==> level <= OutputLevel(runs, end, numLevels)
    ensures end < |runs| ==>
      (level <= OutputLevel(runs, end, numLevels) <==> level < runs[end].level || (level == 0 && runs[end].level == 0))
  {
  }

  lemma OutputLevelFits(s: State, start: nat, end: nat, i: nat)
    requires RunsOk(s) && PairsOk(s) && FreeBlock(s.runs, start, end) && i < |s.runs|
    ensures var e := OutputLevel(s.runs, end, s.numLevels);
      && e < s.numLevels
      && (i < end ==> s.runs[i].level <= e)
      && (i >= end ==> LevelsInOrder(e, s.runs[i].level))
  {
    assert RunOk(s, s.runs[i]);
    if end < |s.runs| {
      assert RunOk(s, s.runs[end]);
      assert i < end ==> PairOk(s, s.runs[i], s.runs[end]);
      assert i > end ==> PairOk(s, s.runs[end], s.runs[i]);
    }
  }

  lemma PickedRun(s: State, b: BlockId, start: nat, end: nat, i: nat)
    requires RunsOk(s) && PairsOk(s) && Enabled(s, Pick(b, start, end)) && i < |s.runs|
    requires s.runs[i].block.Some? ==> HasNeighbour(s.runs, i)
    ensures var s' := Do(s, Pick(b, start, end));
      RunOk(s', s'.runs[i]) && (s'.runs[i].block.Some? ==> HasNeighbour(s'.runs, i))
  {
    assert RunOk(s, s.runs[i]);
    OutputLevelFits(s, start, end, i);
  }

  lemma PickedPair(s: State, b: BlockId, start: nat, end: nat, i: nat, k: nat)
    requires RunsOk(s) && PairsOk(s) && Enabled(s, Pick(b, start, end)) && i < k < |s.runs|
    ensures var s' := Do(s, Pick(b, start, end)); PairOk(s', s'.runs[i], s'.runs[k])
  {
    assert PairOk(s, s.runs[i], s.runs[k]) && RunOk(s, s.runs[i]);
    OutputLevelFits(s, start, end, k);
  }

  lemma PickedGap(s: State, b: BlockId, start: nat, end: nat, i: int, j: int, k: int)
    requires RunsOk(s) && BlocksOk(s.runs) && Enabled(s, Pick(b, start, end))
    ensures !Gap(Do(s, Pick(b, start, end)).runs, i, j, k)
  {
    assert !Gap(s.runs, i, j, k);
    assert 0 <= i < k < |s.runs| ==> RunOk(s, s.runs[i]) && RunOk(s, s.runs[k]);
  }

  lemma PickedInputs(s: State, b: BlockId, start: nat, end: nat, c: BlockId)
    requires InputsOk(s) && Enabled(s, Pick(b, start, end)) && (c == b || c in s.blocks)
    ensures var s' := Do(s, Pick(b, start, end)); exists i :: 0 <= i < |s'.runs| && s'.runs[i].block == Some(c)
  {
    var s' := Do(s, Pick(b, start, end));
    if c == b {
      assert s'.runs[start].block == Some(c);
    } else {
      var i :| 0 <= i < |s.runs| && s.runs[i].block == Some(c);
      assert s'.runs[i].block == Some(c);
    }
  }

  lemma PickKeeps(s: State, b: BlockId, start: nat, end: nat)
    requires Inv(s) && Enabled(s, Pick(b, start, end))
    ensures Inv(Do(s, Pick(b, start, end)))
  {
    var s' := Do(s, Pick(b, start, end));
    forall i | 0 <= i < |s'.runs|
      ensures RunOk(s', s'.runs[i])
      ensures s'.runs[i].block.Some? ==> HasNeighbour(s'.runs, i)
    {
      PickedRun(s, b, start, end, i);
    }
    forall i, k | 0 <= i < k < |s'.runs|
      ensures PairOk(s', s'.runs[i], s'.runs[k])
    {
      PickedPair(s, b, start, end, i, k);
    }
    forall i, j, k
      ensures !Gap(s'.runs, i, j, k)
    {
      PickedGap(s, b, start, end, i, j, k);
    }
    forall c | c in s'.blocks
      ensures exists i :: 0 <= i < |s'.runs| && s'.runs[i].block == Some(c)
    {
      PickedInputs(s, b, start, end, c);
    }
  }

  lemma FailedRun(s: State, b: BlockId, i: nat)
    requires RunsOk(s) && BlocksOk(s.runs) && b in s.blocks && i < |s.runs|
    ensures var s' := Do(s, Fail(b));
      RunOk(s', s'.runs[i]) && (s'.runs[i].block.Some? ==> HasNeighbour(s'.runs, i))
  {
    assert RunOk(s, s.runs[i]);
    assert s.runs[i].block.Some? ==> HasNeighbour(s.runs, i);
  }

  lemma FailedPair(s: State, b: BlockId, i: nat, k: nat)
    requires RunsOk(s) && PairsOk(s) && b in s.blocks && i < k < |s.runs|
    ensures var s' := Do(s, Fail(b)); PairOk(s', s'.runs[i], s'.runs[k])
  {
    assert PairOk(s, s.runs[i], s.runs[k]) && RunOk(s, s.runs[i]);
  }

  lemma FailKeeps(s: State, b: BlockId)
    requires Inv(s) && b in s.blocks
    ensures Inv(Do(s, Fail(b)))
  {
    var s' := Do(s, Fail(b));
    forall i | 0 <= i < |s'.runs|
      ensures RunOk(s', s'.runs[i])
      ensures s'.runs[i].block.Some? ==> HasNeighbour(s'.runs, i)
    {
      FailedRun(s, b, i);
    }
    forall i, k | 0 <= i < k < |s'.runs|
      ensures PairOk(s', s'.runs[i], s'.runs[k])
    {
      FailedPair(s, b, i, k);
    }
    forall i, j, k
      ensures !Gap(s'.runs, i, j, k)
    {
      assert !Gap(s.runs, i, j, k);
    }
    forall c | c in s'.blocks
      ensures exists i :: 0 <= i < |s'.runs| && s'.runs[i].block == Some(c)
    {
      var i :| 0 <= i < |s.runs| && s.runs[i].block == Some(c);
      assert s'.runs[i].block == Some(c);
    }
  }

  lemma StepKeeps(s: State, step: Step)
    requires Inv(s) && Enabled(s, step)
    ensures Inv(Do(s, step))
  {
    match step
    case Flush(size, compensated) => FlushKeeps(s, size, compensated);
    case Pick(b, start, end) => PickKeeps(s, b, start, end);
    case Finish(b, size, compensated) => FinishKeeps(s, b, size, compensated);
    case FinishEmpty(b) => FinishEmptyKeeps(s, b);
    case Fail(b) => FailKeeps(s, b);
  }
}
