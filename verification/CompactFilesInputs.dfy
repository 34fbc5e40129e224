/** The compaction that a completed choice of files becomes, and which level-0 files it leaves behind. */
module CompactFilesInputs {
  import opened Format
  import opened CompactFiles
  import opened CompactFilesImpl
  import CF = CompactionFiles

  // ---------------------------------------------------------------- the input files

  /** On a level files are told apart by their places. */
  function AsFile(levels: Levels, p: Pos): CF.File
    requires At(levels, p)
  {
    CF.File(p.1, FileAt(levels, p).smallest, FileAt(levels, p).largest)
  }

  function AsLevels(levels: Levels): seq<seq<CF.File>> {
    seq(|levels|, l requires 0 <= l < |levels| =>
      seq(|levels[l]|, i requires 0 <= i < |levels[l]| => AsFile(levels, (l, i))))
  }

  /** The chosen ones among the first n files of a level, in their order. */
  ghost function Picked(levels: Levels, t: set<Pos>, l: nat, n: nat): (r: seq<CF.File>)
    requires l < |levels| && n <= |levels[l]|
  {
    if n == 0 then []
    else Picked(levels, t, l, n - 1) + if (l, n - 1) in t then [AsFile(levels, (l, n - 1))] else []
  }

  ghost function PickedOn(levels: Levels, t: set<Pos>, l: nat): seq<CF.File>
    requires l < |levels|
  {
    Picked(levels, t, l, |levels[l]|)
  }

  lemma {:induction false} PickedHas(levels: Levels, t: set<Pos>, l: nat, n: nat, f: CF.File)
    requires l < |levels| && n <= |levels[l]|
    ensures f in Picked(levels, t, l, n) <==> exists i: nat :: i < n && (l, i) in t && f == AsFile(levels, (l, i))
  {
    if n > 0 {
      PickedHas(levels, t, l, n - 1, f);
    }
  }

  lemma {:induction false} PickedIsSorted(levels: Levels, t: set<Pos>, l: nat, n: nat)
    requires ValidLevels(levels) && 1 <= l < |levels| && n <= |levels[l]|
    ensures CF.SortedLevel(Picked(levels, t, l, n))
  {
    if n > 0 {
      PickedIsSorted(levels, t, l, n - 1);
      var fs := Picked(levels, t, l, n - 1);
      assert FileAt(levels, (l, n - 1)).smallest <= FileAt(levels, (l, n - 1)).largest;
      forall i | 0 <= i < |fs|
        ensures fs[i].largest <= levels[l][n - 1].smallest
      {
        PickedHas(levels, t, l, n - 1, fs[i]);
      }
    }
  }

  /** One input per level, from the first level with a chosen file to the last one. */
  ghost predicate AreInputs(levels: Levels, t: set<Pos>, inputs: seq<CF.InputLevel>) {
    && inputs != [] && inputs[0].level + |inputs| <= |levels|
    && (forall i :: 0 <= i < |inputs| ==>
          && inputs[i].level == inputs[0].level + i < |levels|
          && inputs[i].files == PickedOn(levels, t, inputs[i].level))
    && inputs[0].files != [] && inputs[|inputs| - 1].files != []
    && forall p: Pos :: p in t ==> At(levels, p) && inputs[0].level <= p.0 < inputs[0].level + |inputs|
  }

  /** first and last are the first and the last nonempty one, or there is none. */
  predicate NonEmptyEnds(matched: seq<CF.InputLevel>, first: int, last: int) {
    if first < 0 then last < 0 && forall i :: 0 <= i < |matched| ==> matched[i].files == []
    else
      && first <= last < |matched| && matched[first].files != [] && matched[last].files != []
      && forall i :: 0 <= i < |matched| && matched[i].files != [] ==> first <= i <= last
  }

  ghost predicate AreMatched(levels: Levels, t: set<Pos>, matched: seq<CF.InputLevel>) {
    |matched| <= |levels| &&
    forall i: nat :: i < |matched| ==> matched[i] == CF.InputLevel(i, PickedOn(levels, t, i))
  }

  /** The files still to be found after the first n files of level l. */
  ghost predicate IsRest(levels: Levels, t: set<Pos>, l: nat, n: nat, rest: set<Pos>) {
    forall p: Pos :: p in rest <==> p in t && !(At(levels, p) && (p.0 < l || (p.0 == l && p.1 < n)))
  }

  lemma MatchedAreInputs(levels: Levels, t: set<Pos>, matched: seq<CF.InputLevel>, first: int, last: int)
    requires t != {} && forall p: Pos :: p in t ==> At(levels, p)
    requires |matched| == |levels| && AreMatched(levels, t, matched) && NonEmptyEnds(matched, first, last)
    ensures 0 <= first <= last < |levels| && AreInputs(levels, t, matched[first..last + 1])
  {
    forall p: Pos | p in t
      ensures At(levels, p) && first <= p.0 <= last
    {
      PickedHas(levels, t, p.0, |levels[p.0]|, AsFile(levels, p));
      assert p == (p.0, p.1) && matched[p.0].files != [];
    }
    var p: Pos :| p in t;
    assert first <= p.0 <= last;
  }

  /** The chosen files of level l, taken off the rest. */
  method MatchLevel(levels: Levels, ghost input: set<Pos>, l: nat, rest: set<Pos>)
    returns (files: seq<CF.File>, rest': set<Pos>)
    requires l < |levels| && IsRest(levels, input, l, 0, rest)
    ensures files == PickedOn(levels, input, l) && IsRest(levels, input, l + 1, 0, rest')
  {
    files, rest' := [], rest;
    for i := 0 to |levels[l]|
      invariant files == Picked(levels, input, l, i) && IsRest(levels, input, l, i, rest')
    {
      if (l, i) in rest' {
        files, rest' := files + [AsFile(levels, (l, i))], rest' - {(l, i)};
      }
    }
  }

  /** GetCompactionInputsFromFileNumbers: none if a number is not that of a file, or there is no number. */
  method GetInputs(levels: Levels, input: set<Pos>) returns (r: Option<seq<CF.InputLevel>>)
    ensures r.None? <==> input == {} || exists p: Pos :: p in input && !At(levels, p)
    ensures r.Some? ==> AreInputs(levels, input, r.value)
  {
    if input == {} {
      return None;
    }
    var rest, matched: seq<CF.InputLevel>, first, last := input, [], -1, -1;
    for l := 0 to |levels|
      invariant |matched| == l && NonEmptyEnds(matched, first, last)
      invariant AreMatched(levels, input, matched) && IsRest(levels, input, l, 0, rest)
    {
      var files;
      files, rest := MatchLevel(levels, input, l, rest);
      matched := matched + [CF.InputLevel(l, files)];
      if files != [] {
        last := l;
        if first < 0 {
          first := l;
        }
      }
    }
    if rest != {} {
      var p: Pos :| p in rest;
      return None;
    }
    MatchedAreInputs(levels, input, matched, first, last);
    r := Some(matched[first..last + 1]);
  }

  // ---------------------------------------------------------------- level 0

  /** What is asked for, with all files of deeper levels and a range of level-0 files. */
  ghost function WithRange(levels: Levels, start: set<Pos>, lo: nat, hi: nat): set<Pos> {
    start + (set l: nat, k: nat | 1 <= l < |levels| && 0 <= k < |levels[l]| :: (l, k)) +
    set k: nat | lo <= k < hi :: (0, k)
  }

  /** No level-0 file is needed outside a range that has all those asked for. */
  lemma NeededOnZero(levels: Levels, start: set<Pos>, out: nat, lo: nat, hi: nat, i: nat)
    requires Needed(levels, start, out, (0, i)) && At(levels, (0, i))
    requires forall k: nat :: (0, k) in start && At(levels, (0, k)) ==> lo <= k < hi
    ensures lo <= i < hi
  {
    var all := WithRange(levels, start, lo, hi);
    assert LevelZeroDone(levels, all);
    assert Complete(levels, all, out);
    assert (0, i) in all;
  }

  /** Completion takes a level-0 file only between two that were asked for. */
  lemma TakenOnZero(levels: Levels, start: set<Pos>, out: nat, t: set<Pos>, i: nat)
    requires AllNeeded(levels, start, out, t) && (0, i) in t && At(levels, (0, i))
    ensures exists a: nat, b: nat :: a <= i <= b && At(levels, (0, b)) && (0, a) in start && (0, b) in start
  {
    if forall a: nat :: a <= i ==> (0, a) !in start {
      NeededOnZero(levels, start, out, i + 1, |levels[0]|, i);
    }
    if forall b: nat :: i <= b && At(levels, (0, b)) ==> (0, b) !in start {
      NeededOnZero(levels, start, out, 0, i, i);
    }
  }

  /** The level-0 file at place j is not chosen, is older than one asked for, and meets the range of the
      chosen files. */
  ghost predicate IsLeft(levels: Levels, start: set<Pos>, t: set<Pos>, j: nat) {
    && At(levels, (0, j)) && (0, j) !in t && MeetsChosen(levels, t, levels[0][j])
    && exists i: nat :: i < j && (0, i) in start
  }

  ghost predicate LeavesOlder(levels: Levels, start: set<Pos>, t: set<Pos>) {
    exists j: nat :: IsLeft(levels, start, t, j)
  }

  ghost predicate MeetsChosen(levels: Levels, t: set<Pos>, f: Meta) {
    exists a: Pos, b: Pos :: Chosen(levels, t, a, |levels|) && Chosen(levels, t, b, |levels|) && Spans(levels, a, b, f)
  }

  lemma LevelsAreSorted(levels: Levels)
    requires ValidLevels(levels)
    ensures CF.SortedLevels(AsLevels(levels))
  {
    forall l: nat | 1 <= l < |levels|
      ensures CF.SortedLevel(AsLevels(levels)[l])
    {
      assert forall i: nat :: i < |levels[l]| ==> FileAt(levels, (l, i)).smallest <= FileAt(levels, (l, i)).largest;
    }
  }

  /** The last chosen file of a level is the last one picked. */
  lemma {:induction false} LastPicked(levels: Levels, t: set<Pos>, l: nat, n: nat) returns (last: nat)
    requires l < |levels| && n <= |levels[l]| && Picked(levels, t, l, n) != []
    ensures last < n && (l, last) in t && CF.Last(Picked(levels, t, l, n)) == AsFile(levels, (l, last))
    ensures forall i: nat :: last < i < n ==> (l, i) !in t
  {
    if (l, n - 1) in t {
      last := n - 1;
    } else {
      last := LastPicked(levels, t, l, n - 1);
    }
  }

  lemma InputsAreWellFormed(levels: Levels, t: set<Pos>, inputs: seq<CF.InputLevel>)
    requires ValidLevels(levels) && AreInputs(levels, t, inputs)
    ensures CF.WellFormed(AsLevels(levels), inputs)
  {
    LevelsAreSorted(levels);
    forall i | 0 <= i < |inputs| && inputs[i].level > 0
      ensures CF.SortedLevel(inputs[i].files)
    {
      PickedIsSorted(levels, t, inputs[i].level, |levels[inputs[i].level]|);
    }
    if inputs[0].level == 0 {
      var last := LastPicked(levels, t, 0, |levels[0]|);
      assert AsLevels(levels)[0][last] == CF.Last(inputs[0].files);
    }
  }

  lemma InputFilesAre(levels: Levels, t: set<Pos>, inputs: seq<CF.InputLevel>, f: CF.File)
    requires AreInputs(levels, t, inputs)
    ensures f in CF.InputFiles(inputs) <==> exists p: Pos :: p in t && At(levels, p) && f == AsFile(levels, p)
  {
    forall i | 0 <= i < |inputs|
      ensures f in inputs[i].files <==>
        exists k: nat ::
          k < |levels[inputs[i].level]| && (inputs[i].level, k) in t && f == AsFile(levels, (inputs[i].level, k))
    {
      PickedHas(levels, t, inputs[i].level, |levels[inputs[i].level]|, f);
    }
    forall p: Pos | p in t && f == AsFile(levels, p)
      ensures f in CF.InputFiles(inputs)
    {
      var i := p.0 - inputs[0].level;
      assert inputs[i].level == p.0 && p == (p.0, p.1);
    }
  }

  /** The range of the input is that of the chosen files. */
  lemma HullIsChosen(levels: Levels, t: set<Pos>, inputs: seq<CF.InputLevel>, lo: UserKey, hi: UserKey)
    returns (a: Pos, b: Pos)
    requires AreInputs(levels, t, inputs) && CF.IsHull(CF.InputFiles(inputs), lo, hi)
    ensures Chosen(levels, t, a, |levels|) && FileAt(levels, a).smallest == lo
    ensures Chosen(levels, t, b, |levels|) && FileAt(levels, b).largest == hi
  {
    var fa, fb :| fa in CF.InputFiles(inputs) && fb in CF.InputFiles(inputs) && fa.smallest == lo && fb.largest == hi;
    InputFilesAre(levels, t, inputs, fa);
    InputFilesAre(levels, t, inputs, fb);
    a :| a in t && At(levels, a) && fa == AsFile(levels, a);
    b :| b in t && At(levels, b) && fb == AsFile(levels, b);
  }

  lemma HullIsMet(levels: Levels, t: set<Pos>, inputs: seq<CF.InputLevel>, lo: UserKey, hi: UserKey, f: Meta)
    requires AreInputs(levels, t, inputs) && CF.IsHull(CF.InputFiles(inputs), lo, hi)
    ensures MeetsChosen(levels, t, f) <==> f.Overlaps(lo, hi)
  {
    var x, y := HullIsChosen(levels, t, inputs, lo, hi);
    if MeetsChosen(levels, t, f) {
      var a: Pos, b: Pos :|
        Chosen(levels, t, a, |levels|) && Chosen(levels, t, b, |levels|) && Spans(levels, a, b, f);
      InputFilesAre(levels, t, inputs, AsFile(levels, a));
      InputFilesAre(levels, t, inputs, AsFile(levels, b));
    } else {
      assert !Spans(levels, x, y, f);
    }
  }

  lemma InHullIs(c: CF.Compaction, lo: UserKey, hi: UserKey, k: UserKey)
    requires CF.IsHull(CF.InputFiles(c.inputs), lo, hi)
    ensures CF.InHull(c, k) <==> lo <= k <= hi
  {
    if CF.InHull(c, k) {
      var lo', hi' :| CF.IsHull(CF.InputFiles(c.inputs), lo', hi') && lo' <= k <= hi';
      CF.HullIsUnique(CF.InputFiles(c.inputs), lo, hi, lo', hi');
    }
  }

  lemma HullIsRange(levels: Levels, t: set<Pos>, inputs: seq<CF.InputLevel>, lo: UserKey, hi: UserKey)
    requires ValidLevels(levels) && AreInputs(levels, t, inputs) && CF.IsHull(CF.InputFiles(inputs), lo, hi)
    ensures lo <= hi
  {
    var a, _ := HullIsChosen(levels, t, inputs, lo, hi);
    InputFilesAre(levels, t, inputs, AsFile(levels, a));
    assert FileAt(levels, a).smallest <= FileAt(levels, a).largest;
  }

  /** An older file shares a key with the range of the input. */
  ghost predicate SharesKey(c: CF.Compaction, f: CF.File) {
    exists k :: CF.InHull(c, k) && f.Contains(k)
  }

  lemma SharesKeyIs(levels: Levels, t: set<Pos>, c: CF.Compaction, j: nat)
    requires ValidLevels(levels) && AreInputs(levels, t, c.inputs) && CF.Built(c) && At(levels, (0, j))
    ensures SharesKey(c, AsFile(levels, (0, j))) <==> MeetsChosen(levels, t, levels[0][j])
  {
    var lo :| CF.IsHull(CF.InputFiles(c.inputs), lo, c.largestUserKey);
    HullIsMet(levels, t, c.inputs, lo, c.largestUserKey, levels[0][j]);
    HullIsRange(levels, t, c.inputs, lo, c.largestUserKey);
    assert FileAt(levels, (0, j)).smallest <= FileAt(levels, (0, j)).largest;
    SharesKeyOverlaps(c, lo, c.largestUserKey, AsFile(levels, (0, j)));
  }

  lemma SharesKeyOverlaps(c: CF.Compaction, lo: UserKey, hi: UserKey, f: CF.File)
    requires CF.IsHull(CF.InputFiles(c.inputs), lo, hi) && lo <= hi && f.smallest <= f.largest
    ensures SharesKey(c, f) <==> CF.Overlaps(f, lo, hi)
  {
    var k := if lo < f.smallest then f.smallest else lo;
    InHullIs(c, lo, hi, k);
    if k' :| CF.InHull(c, k') && f.Contains(k') {
      InHullIs(c, lo, hi, k');
    }
  }

  // ---------------------------------------------------------------- which older files stay behind

  /** The files behind the input on level 0 are those older than some chosen one, and not chosen. */
  lemma BehindIs(levels: Levels, start: set<Pos>, out: nat, t: set<Pos>, last: nat, j: nat)
    requires start <= t && AllNeeded(levels, start, out, t) && At(levels, (0, last)) && At(levels, (0, j))
    requires (0, last) in t && forall i: nat :: last < i < |levels[0]| ==> (0, i) !in t
    requires LevelZeroDone(levels, t)
    ensures last < j <==> (0, j) !in t && exists i: nat :: i < j && (0, i) in start
  {
    TakenOnZero(levels, start, out, t, last);
  }

  /** The file is behind the input on level 0 and shares a key with its range. */
  ghost predicate StaysBehind(c: CF.Compaction, f: CF.File)
    requires CF.WellFormed(c.levels, c.inputs)
  {
    c.inputs[0].level == 0 && CF.Behind(c.levels[0], CF.Last(c.inputs[0].files), f) && SharesKey(c, f)
  }

  lemma ClosedIs(c: CF.Compaction)
    requires CF.WellFormed(c.levels, c.inputs)
    ensures CF.LevelZeroClosed(c) <==> forall f :: !StaysBehind(c, f)
  {
    if !CF.LevelZeroClosed(c) {
      var f, k :| CF.Behind(c.levels[0], CF.Last(c.inputs[0].files), f) && CF.InHull(c, k) && f.Contains(k);
      assert StaysBehind(c, f);
    }
    if f :| StaysBehind(c, f) {
      var k :| CF.InHull(c, k) && f.Contains(k);
    }
  }

  lemma LeftIs(levels: Levels, start: set<Pos>, out: nat, t: set<Pos>, c: CF.Compaction, last: nat, j: nat)
    requires ValidLevels(levels) && IsSanitized(levels, start, out, Ok(t))
    requires AreInputs(levels, t, c.inputs) && CF.Built(c)
    requires At(levels, (0, last)) && (0, last) in t && forall i: nat :: last < i < |levels[0]| ==> (0, i) !in t
    requires At(levels, (0, j))
    ensures IsLeft(levels, start, t, j) <==> last < j && SharesKey(c, AsFile(levels, (0, j)))
  {
    BehindIs(levels, start, out, t, last, j);
    SharesKeyIs(levels, t, c, j);
  }

  lemma StaysBehindIs(levels: Levels, c: CF.Compaction, last: nat, j: nat)
    requires c.levels == AsLevels(levels) && CF.WellFormed(c.levels, c.inputs) && c.inputs[0].level == 0
    requires At(levels, (0, last)) && CF.Last(c.inputs[0].files) == AsFile(levels, (0, last)) && At(levels, (0, j))
    ensures StaysBehind(c, AsFile(levels, (0, j))) <==> last < j && SharesKey(c, AsFile(levels, (0, j)))
  {
    assert forall i: nat :: i < |levels[0]| ==> c.levels[0][i] == AsFile(levels, (0, i));
  }

  lemma OlderStaysBehind(levels: Levels, start: set<Pos>, t: set<Pos>, c: CF.Compaction)
    requires c.levels == AsLevels(levels) && CF.WellFormed(c.levels, c.inputs) && c.inputs[0].level == 0
    requires forall j: nat :: At(levels, (0, j)) ==>
               (IsLeft(levels, start, t, j) <==> StaysBehind(c, AsFile(levels, (0, j))))
    ensures LeavesOlder(levels, start, t) <==> exists f :: StaysBehind(c, f)
  {
    if f :| StaysBehind(c, f) {
      var j: nat :| j < |c.levels[0]| && c.levels[0][j] == f;
      assert At(levels, (0, j)) && f == AsFile(levels, (0, j));
    }
  }

  /** A completed choice takes every older level-0 file that its keys may be in exactly when none of those
      it leaves is older than a file asked for and meets the range of the chosen files. */
  lemma ClosedExactly(levels: Levels, start: set<Pos>, out: nat, t: set<Pos>, c: CF.Compaction)
    requires ValidLevels(levels) && IsSanitized(levels, start, out, Ok(t))
    requires c.levels == AsLevels(levels) && AreInputs(levels, t, c.inputs) && CF.Built(c)
    ensures CF.LevelZeroClosed(c) <==> !LeavesOlder(levels, start, t)
  {
    ClosedIs(c);
    if c.inputs[0].level == 0 {
      var last := LastPicked(levels, t, 0, |levels[0]|);
      forall j: nat | At(levels, (0, j))
        ensures IsLeft(levels, start, t, j) <==> StaysBehind(c, AsFile(levels, (0, j)))
      {
        LeftIs(levels, start, out, t, c, last, j);
        StaysBehindIs(levels, c, last, j);
      }
      OlderStaysBehind(levels, start, t, c);
    }
  }

  /** The compaction of the files asked for; none where a step fails. It is closed on level 0 exactly when no
      older file is left that meets its range. */
  method CompactionOf(levels: Levels, input: set<Pos>, out: int, maxOutputLevel: nat, universal: bool,
          zeroBusy: bool) returns (t: set<Pos>, r: Option<CF.Compaction>)
    requires ValidLevels(levels)
    ensures r.Some? ==> 0 <= out < |levels| && IsSanitized(levels, input, out, Ok(t))
    ensures r.Some? ==>
      && r.value.levels == AsLevels(levels) && r.value.outputLevel == out && r.value.universal == universal
      && CF.Built(r.value)
      && AreInputs(levels, t, r.value.inputs) && !(r.value.inputs[0].level == 0 && zeroBusy)
      && (CF.LevelZeroClosed(r.value) <==> !LeavesOlder(levels, input, t))
    ensures r.None? && 0 <= out < |levels| && out <= maxOutputLevel && input != {} && !zeroBusy ==>
      || BusyNeeded(levels, input, out)
      || exists p: Pos :: p in input && (!At(levels, p) || (p.0 > out && FileAt(levels, p).beingCompacted))
  {
    t, r := {}, None;
    var s := SanitizeCompactionInputFiles(levels, input, out, maxOutputLevel);
    if !s.OkStatus? {
      return;
    }
    t := s.chosen;
    var inputs := GetInputs(levels, t);
    if inputs.None? || (inputs.value[0].level == 0 && zeroBusy) {
      return;
    }
    InputsAreWellFormed(levels, t, inputs.value);
    var c := CF.NewCompaction(universal, out, AsLevels(levels), inputs.value);
    ClosedExactly(levels, input, out, t, c);
    r := Some(c);
  }

  /** The answer that a tombstone of k can be dropped, though an older file may hold a value of k. */
  ghost predicate Misleads(c: CF.Compaction, k: UserKey)
    requires CF.WellFormed(c.levels, c.inputs)
  {
    && CF.InHull(c, k) && CF.NotExistsBeyond(c, k)
    && exists f: CF.File :: CF.Older(c.outputLevel, c.levels, c.inputs, f) && f.Contains(k)
  }

  /** On its way into the last level, a compaction of level style is misled about some key exactly when it is
      not closed on level 0. */
  lemma OpenIsMisled(c: CF.Compaction)
    requires CF.Built(c) && !c.universal && c.outputLevel + 1 >= |c.levels|
    ensures CF.LevelZeroClosed(c) <==> forall k :: !Misleads(c, k)
  {
    if !CF.LevelZeroClosed(c) {
      var f, k :| CF.Behind(c.levels[0], CF.Last(c.inputs[0].files), f) && CF.InHull(c, k) && f.Contains(k);
      assert Misleads(c, k);
    } else if k :| Misleads(c, k) {
      var f: CF.File :| CF.Older(c.outputLevel, c.levels, c.inputs, f) && f.Contains(k);
      CF.NotExistsIsSound(c, k, f);
    }
  }

  /** Two files on level 0, the newer one first, and nothing below. */
  function TwoFiles(f: Meta, g: Meta): Levels {
    [[f, g], []]
  }

  lemma TwoFilesAreValid(f: Meta, g: Meta)
    requires f.smallest <= f.largest && g.smallest <= g.largest
    ensures ValidLevels(TwoFiles(f, g))
  {
    var levels := TwoFiles(f, g);
    forall p: Pos | At(levels, p)
      ensures FileAt(levels, p).smallest <= FileAt(levels, p).largest
    {
      assert FileAt(levels, p) == if p.1 == 0 then f else g;
    }
  }

  lemma NewerIsComplete(f: Meta, g: Meta)
    requires !f.beingCompacted
    ensures IsSanitized(TwoFiles(f, g), {(0, 0)}, 1, Ok({(0, 0)}))
  {
    assert Complete(TwoFiles(f, g), {(0, 0)}, 1);
  }

  lemma OlderIsLeft(f: Meta, g: Meta)
    requires g.Overlaps(f.smallest, f.largest)
    ensures LeavesOlder(TwoFiles(f, g), {(0, 0)}, {(0, 0)})
  {
    var levels, t: set<Pos> := TwoFiles(f, g), {(0, 0)};
    assert Chosen(levels, t, (0, 0), |levels|) && Spans(levels, (0, 0), (0, 0), g);
    assert IsLeft(levels, t, t, 1);
  }

  /** A request for the newer of two level-0 files with a common key leaves the older one, and the test for
      dropping tombstones is wrong about some key. */
  lemma RequestLeavesOlder(f: Meta, g: Meta, c: CF.Compaction)
    requires f.smallest <= f.largest && g.smallest <= g.largest && g.Overlaps(f.smallest, f.largest)
    requires !f.beingCompacted && c.outputLevel == 1 && !c.universal
    requires c.levels == AsLevels(TwoFiles(f, g)) && AreInputs(TwoFiles(f, g), {(0, 0)}, c.inputs) && CF.Built(c)
    ensures IsSanitized(TwoFiles(f, g), {(0, 0)}, 1, Ok({(0, 0)})) && !CF.LevelZeroClosed(c)
    ensures exists k :: Misleads(c, k)
  {
    NewerIsComplete(f, g);
    OlderIsLeft(f, g);
    TwoFilesAreValid(f, g);
    ClosedExactly(TwoFiles(f, g), {(0, 0)}, 1, {(0, 0)}, c);
    OpenIsMisled(c);
  }
}
