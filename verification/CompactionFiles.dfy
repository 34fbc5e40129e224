/** Which files a compaction reads, and whether older data can hide below its output. */
module CompactionFiles {
  import opened Format

  datatype File = File(number: nat, smallest: UserKey, largest: UserKey) {
    predicate Contains(k: UserKey) {
      smallest <= k <= largest
    }
  }

  datatype InputLevel = InputLevel(level: nat, files: seq<File>)

  /** bottommost and largestUserKey are computed once, when the compaction is formed. */
  datatype Compaction = Compaction(
    universal: bool,
    outputLevel: nat,
    levels: seq<seq<File>>,
    inputs: seq<InputLevel>,
    bottommost: bool,
    largestUserKey: UserKey)

  /** Levels from 1 down are sorted; neighbouring files may share a boundary user key. */
  ghost predicate SortedLevel(files: seq<File>) {
    && (forall i :: 0 <= i < |files| ==> files[i].smallest <= files[i].largest)
    && (forall i, j :: 0 <= i < j < |files| ==> files[i].largest <= files[j].smallest)
  }

  ghost predicate SortedLevels(levels: seq<seq<File>>) {
    forall l :: 1 <= l < |levels| ==> SortedLevel(levels[l])
  }

  ghost predicate WellFormed(levels: seq<seq<File>>, inputs: seq<InputLevel>) {
    && inputs != []
    && inputs[0].files != []
    && SortedLevels(levels)
    && (forall i :: 0 <= i < |inputs| && inputs[i].level > 0 ==> SortedLevel(inputs[i].files))
    && (inputs[0].level == 0 ==> |levels| > 0 && Last(inputs[0].files) in levels[0])
    && (|levels| > 0 ==> forall i, j :: 0 <= i < j < |levels[0]| ==> levels[0][i] != levels[0][j])
  }

  function Last(files: seq<File>): File
    requires files != []
  {
    files[|files| - 1]
  }

  // ---------------------------------------------------------------- boundary keys

  function InputFiles(inputs: seq<InputLevel>): (fs: set<File>)
    ensures forall i, f :: 0 <= i < |inputs| && f in inputs[i].files ==> f in fs
    ensures forall f :: f in fs ==> exists i :: 0 <= i < |inputs| && f in inputs[i].files
  {
    set i, f | 0 <= i < |inputs| && f in inputs[i].files :: f
  }

  /** [lo, hi] is the smallest range that covers the files of fs. */
  ghost predicate IsHull(fs: set<File>, lo: UserKey, hi: UserKey) {
    && (forall f :: f in fs ==> lo <= f.smallest && f.largest <= hi)
    && (exists f :: f in fs && f.smallest == lo)
    && (exists f :: f in fs && f.largest == hi)
  }

  lemma HullIsUnique(fs: set<File>, lo: UserKey, hi: UserKey, lo': UserKey, hi': UserKey)
    requires IsHull(fs, lo, hi) && IsHull(fs, lo', hi')
    ensures lo == lo' && hi == hi'
  {
  }

  function FileSet(files: seq<File>): set<File> {
    set f | f in files
  }

  lemma AddLevel(inputs: seq<InputLevel>, i: nat)
    requires i < |inputs|
    ensures InputFiles(inputs[..i + 1]) == InputFiles(inputs[..i]) + FileSet(inputs[i].files)
  {
    forall f | f in InputFiles(inputs[..i]) + FileSet(inputs[i].files)
      ensures f in InputFiles(inputs[..i + 1])
    {
      if f in InputFiles(inputs[..i]) {
        var j :| 0 <= j < i && f in inputs[..i][j].files;
        assert f in inputs[..i + 1][j].files;
      } else {
        assert f in inputs[..i + 1][i].files;
      }
    }
  }

  lemma JoinHulls(a: set<File>, b: set<File>, lo: UserKey, hi: UserKey, lo': UserKey, hi': UserKey)
    requires IsHull(a, lo, hi) && IsHull(b, lo', hi')
    ensures IsHull(a + b, if lo' < lo then lo' else lo, if hi' > hi then hi' else hi)
  {
    var f0, f1 :| f0 in a && f0.smallest == lo && f1 in b && f1.smallest == lo';
    var f2, f3 :| f2 in a && f2.largest == hi && f3 in b && f3.largest == hi';
    assert {f0, f1, f2, f3} <= a + b;
  }

  /** Every file of a level-0 input counts: those files are not ordered by key. */
  method WidenByFiles(files: seq<File>, ghost fs: set<File>, init: bool, lo: UserKey, hi: UserKey)
    returns (smallest: UserKey, largest: UserKey)
    requires files != []
    requires if init then IsHull(fs, lo, hi) else fs == {}
    ensures IsHull(fs + FileSet(files), smallest, largest)
  {
    var initialized := init;
    smallest, largest := lo, hi;
    for n := 0 to |files|
      invariant initialized <==> init || n > 0
      invariant initialized ==> IsHull(fs + FileSet(files[..n]), smallest, largest)
    {
      var f := files[n];
      assert fs + FileSet(files[..n + 1]) == fs + FileSet(files[..n]) + {f};
      assert IsHull({f}, f.smallest, f.largest) by {
        assert f in {f};
      }
      if initialized {
        JoinHulls(fs + FileSet(files[..n]), {f}, smallest, largest, f.smallest, f.largest);
      } else {
        assert fs + FileSet(files[..n + 1]) == {f};
      }
      if !initialized || f.smallest < smallest {
        smallest := f.smallest;
      }
      if !initialized || f.largest > largest {
        largest := f.largest;
      }
      initialized := true;
    }
    assert files[..|files|] == files;
  }

  lemma EndsAreHull(files: seq<File>)
    requires files != [] && SortedLevel(files)
    ensures IsHull(FileSet(files), files[0].smallest, files[|files| - 1].largest)
  {
    assert files[0] in files && files[|files| - 1] in files;
    forall f | f in FileSet(files)
      ensures files[0].smallest <= f.smallest && f.largest <= files[|files| - 1].largest
    {
      var i :| 0 <= i < |files| && files[i] == f;
    }
  }

  /** On a sorted level the two ends decide. */
  method WidenByEnds(files: seq<File>, ghost fs: set<File>, init: bool, lo: UserKey, hi: UserKey)
    returns (smallest: UserKey, largest: UserKey)
    requires files != [] && SortedLevel(files)
    requires if init then IsHull(fs, lo, hi) else fs == {}
    ensures IsHull(fs + FileSet(files), smallest, largest)
  {
    smallest, largest := lo, hi;
    var first, last := files[0], files[|files| - 1];
    EndsAreHull(files);
    if init {
      JoinHulls(fs, FileSet(files), lo, hi, first.smallest, last.largest);
    } else {
      assert fs + FileSet(files) == FileSet(files);
    }
    if !init || first.smallest < smallest {
      smallest := first.smallest;
    }
    if !init || last.largest > largest {
      largest := last.largest;
    }
  }

  method WidenByLevel(input: InputLevel, ghost fs: set<File>, init: bool, lo: UserKey, hi: UserKey)
    returns (initialized: bool, smallest: UserKey, largest: UserKey)
    requires input.level > 0 ==> SortedLevel(input.files)
    requires if init then IsHull(fs, lo, hi) else fs == {}
    ensures initialized <==> init || input.files != []
    ensures if initialized then IsHull(fs + FileSet(input.files), smallest, largest)
            else fs + FileSet(input.files) == {}
  {
    var files := input.files;
    if files == [] {
      assert fs + FileSet(files) == fs;
      return init, lo, hi;
    }
    if input.level == 0 {
      smallest, largest := WidenByFiles(files, fs, init, lo, hi);
    } else {
      smallest, largest := WidenByEnds(files, fs, init, lo, hi);
    }
    initialized := true;
  }

  /** One of the first n input levels has a file. */
  ghost predicate SomeFile(inputs: seq<InputLevel>, n: nat) {
    exists i :: 0 <= i < n && i < |inputs| && inputs[i].files != []
  }

  method GetBoundaryKeys(inputs: seq<InputLevel>) returns (smallest: UserKey, largest: UserKey)
    requires SomeFile(inputs, |inputs|)
    requires forall i :: 0 <= i < |inputs| && inputs[i].level > 0 ==> SortedLevel(inputs[i].files)
    ensures IsHull(InputFiles(inputs), smallest, largest)
  {
    var initialized := false;
    smallest, largest := 0, 0;
    ghost var fs: set<File> := {};
    for i := 0 to |inputs|
      invariant initialized <==> SomeFile(inputs, i)
      invariant fs == InputFiles(inputs[..i])
      invariant if initialized then IsHull(fs, smallest, largest) else fs == {}
    {
      AddLevel(inputs, i);
      initialized, smallest, largest := WidenByLevel(inputs[i], fs, initialized, smallest, largest);
      fs := fs + FileSet(inputs[i].files);
    }
    assert inputs[..|inputs|] == inputs;
  }

  // ---------------------------------------------------------------- older data

  predicate Overlaps(f: File, lo: UserKey, hi: UserKey) {
    f.smallest <= hi && lo <= f.largest
  }

  /** Some file of the level meets the range of user keys. */
  predicate OverlapInLevel(files: seq<File>, lo: UserKey, hi: UserKey) {
    exists i :: 0 <= i < |files| && Overlaps(files[i], lo, hi)
  }

  /** f is outside the compaction and may hold versions older than its input: it lies below the
      output level, or behind the input on level 0, which is ordered newest first. */
  ghost predicate Older(outputLevel: nat, levels: seq<seq<File>>, inputs: seq<InputLevel>, f: File)
    requires WellFormed(levels, inputs)
  {
    || (exists l :: outputLevel < l < |levels| && f in levels[l])
    || (inputs[0].level == 0 && Behind(levels[0], Last(inputs[0].files), f))
  }

  ghost predicate Behind(files: seq<File>, f: File, g: File) {
    exists i, j :: 0 <= i < j < |files| && files[i] == f && files[j] == g
  }

  method IsBottommostLevel(outputLevel: nat, levels: seq<seq<File>>, inputs: seq<InputLevel>) returns (b: bool)
    requires WellFormed(levels, inputs)
    ensures forall lo, hi, f :: IsHull(InputFiles(inputs), lo, hi) && b && Older(outputLevel, levels, inputs, f)
              ==> !Overlaps(f, lo, hi)
    ensures forall lo, hi :: IsHull(InputFiles(inputs), lo, hi) && !b
              ==> exists f ::
                    Older(outputLevel, levels, inputs, f) && (outputLevel == 0 || f in levels[0] || Overlaps(f, lo, hi))
  {
    if inputs[0].level == 0 && Last(inputs[0].files) != Last(levels[0]) {
      assert Behind(levels[0], Last(inputs[0].files), Last(levels[0]));
      assert Older(outputLevel, levels, inputs, Last(levels[0]));
      return false;
    }
    var smallest, largest := GetBoundaryKeys(inputs);
    forall lo, hi | IsHull(InputFiles(inputs), lo, hi)
      ensures lo == smallest && hi == largest
    {
      HullIsUnique(InputFiles(inputs), lo, hi, smallest, largest);
    }
    var i := outputLevel + 1;
    while i < |levels|
      invariant i > outputLevel
      invariant forall l, f :: outputLevel < l < i && l < |levels| && f in levels[l] ==> !Overlaps(f, smallest, largest)
    {
      if |levels[i]| > 0 && (outputLevel == 0 || OverlapInLevel(levels[i], smallest, largest)) {
        if outputLevel == 0 {
          assert Older(outputLevel, levels, inputs, levels[i][0]);
        } else {
          var j :| 0 <= j < |levels[i]| && Overlaps(levels[i][j], smallest, largest);
          assert Older(outputLevel, levels, inputs, levels[i][j]);
        }
        return false;
      }
      i := i + 1;
    }
    return true;
  }

  /** What the stored flags of a compaction say about its files. */
  ghost predicate Built(c: Compaction) {
    && WellFormed(c.levels, c.inputs)
    && (exists lo :: IsHull(InputFiles(c.inputs), lo, c.largestUserKey))
    && (c.bottommost ==> forall lo, hi, f ::
          IsHull(InputFiles(c.inputs), lo, hi) && Older(c.outputLevel, c.levels, c.inputs, f) ==> !Overlaps(f, lo, hi))
  }

  /** An older file is left that meets the range of the inputs, or is on level 0, or any one if the output
      stays on level 0. */
  ghost predicate HasOlder(c: Compaction)
    requires WellFormed(c.levels, c.inputs)
  {
    exists f, lo, hi ::
      && IsHull(InputFiles(c.inputs), lo, hi) && Older(c.outputLevel, c.levels, c.inputs, f)
      && (c.outputLevel == 0 || f in c.levels[0] || Overlaps(f, lo, hi))
  }

  method NewCompaction(universal: bool, outputLevel: nat, levels: seq<seq<File>>, inputs: seq<InputLevel>)
    returns (c: Compaction)
    requires WellFormed(levels, inputs)
    ensures c.universal == universal && c.outputLevel == outputLevel && c.levels == levels && c.inputs == inputs
    ensures Built(c)
    ensures !c.bottommost ==> HasOlder(c)
  {
    var bottommost := IsBottommostLevel(outputLevel, levels, inputs);
    var _, largest := GetBoundaryKeys(inputs);
    c := Compaction(universal, outputLevel, levels, inputs, bottommost, largest);
  }

  // ---------------------------------------------------------------- tombstones

  /** The answer a scan of every deeper file gives. */
  ghost predicate NotExistsBeyond(c: Compaction, k: UserKey) {
    if c.universal then c.bottommost
    else forall l, f :: c.outputLevel < l < |c.levels| && f in c.levels[l] ==> !f.Contains(k)
  }

  /** Each cursor has only passed files that end before k. */
  ghost predicate CursorsBehind(c: Compaction, ptrs: seq<nat>, k: UserKey) {
    && |ptrs| == |c.levels|
    && forall l :: c.outputLevel < l < |c.levels| ==> PassedBefore(c.levels[l], ptrs[l], k)
  }

  ghost predicate PassedBefore(files: seq<File>, p: nat, k: UserKey) {
    p <= |files| && forall i :: 0 <= i < p ==> files[i].largest < k
  }

  /** One level of the search: the cursor moves on past the files that end before k. */
  method AdvanceCursor(files: seq<File>, p: nat, k: UserKey) returns (q: nat, found: bool)
    requires SortedLevel(files) && PassedBefore(files, p, k)
    ensures p <= q && PassedBefore(files, q, k)
    ensures found <==> exists f :: f in files && f.Contains(k)
  {
    q := p;
    while q < |files|
      invariant p <= q && PassedBefore(files, q, k)
    {
      var f := files[q];
      if k <= f.largest {
        if k >= f.smallest {
          assert f in files && f.Contains(k);
          return q, true;
        }
        break;
      }
      q := q + 1;
    }
    found := false;
  }

  method KeyNotExistsBeyondOutputLevel(c: Compaction, k: UserKey, ptrs: seq<nat>) returns (r: bool, ptrs': seq<nat>)
    requires SortedLevels(c.levels)
    requires CursorsBehind(c, ptrs, k)
    ensures r <==> NotExistsBeyond(c, k)
    ensures CursorsBehind(c, ptrs', k)
  {
    ptrs' := ptrs;
    if c.universal {
      return c.bottommost, ptrs';
    }
    var lvl := c.outputLevel + 1;
    while lvl < |c.levels|
      invariant lvl > c.outputLevel
      invariant CursorsBehind(c, ptrs', k)
      invariant forall l, f :: c.outputLevel < l < lvl && l < |c.levels| && f in c.levels[l] ==> !f.Contains(k)
    {
      var q, found := AdvanceCursor(c.levels[lvl], ptrs'[lvl], k);
      ptrs' := ptrs'[lvl := q];
      if found {
        return false, ptrs';
      }
      lvl := lvl + 1;
    }
    r := true;
  }

  lemma CursorsStayBehind(c: Compaction, ptrs: seq<nat>, k: UserKey, k': UserKey)
    requires CursorsBehind(c, ptrs, k) && k <= k'
    ensures CursorsBehind(c, ptrs, k')
  {
  }

  /** A run of queries with nondecreasing keys, sharing one set of cursors, answers each key as a
      scan of all deeper files would. */
  method QueryAll(c: Compaction, ks: seq<UserKey>) returns (rs: seq<bool>)
    requires SortedLevels(c.levels)
    requires forall i, j :: 0 <= i < j < |ks| ==> ks[i] <= ks[j]
    ensures |rs| == |ks| && forall i :: 0 <= i < |ks| ==> (rs[i] <==> NotExistsBeyond(c, ks[i]))
  {
    rs := [];
    var ptrs := seq(|c.levels|, _ => 0);
    for i := 0 to |ks|
      invariant |rs| == i && forall n :: 0 <= n < i ==> (rs[n] <==> NotExistsBeyond(c, ks[n]))
      invariant i < |ks| ==> CursorsBehind(c, ptrs, ks[i])
    {
      var r, ptrs' := KeyNotExistsBeyondOutputLevel(c, ks[i], ptrs);
      ptrs := ptrs';
      rs := rs + [r];
      if i + 1 < |ks| {
        CursorsStayBehind(c, ptrs, ks[i], ks[i + 1]);
      }
    }
  }

  ghost predicate InHull(c: Compaction, k: UserKey) {
    exists lo, hi :: IsHull(InputFiles(c.inputs), lo, hi) && lo <= k <= hi
  }

  /** Level style takes every overlapping level-0 file, so none is left behind the input. */
  ghost predicate LevelZeroClosed(c: Compaction)
    requires WellFormed(c.levels, c.inputs)
  {
    c.inputs[0].level == 0 ==>
      forall f, k :: Behind(c.levels[0], Last(c.inputs[0].files), f) && InHull(c, k) ==> !f.Contains(k)
  }

  /** A positive answer means that no older file can hold the key. */
  lemma NotExistsIsSound(c: Compaction, k: UserKey, f: File)
    requires Built(c) && InHull(c, k)
    requires !c.universal ==> LevelZeroClosed(c)
    requires NotExistsBeyond(c, k)
    requires Older(c.outputLevel, c.levels, c.inputs, f)
    ensures !f.Contains(k)
  {
    var lo, hi :| IsHull(InputFiles(c.inputs), lo, hi) && lo <= k <= hi;
    if c.universal {
      assert !Overlaps(f, lo, hi);
    }
  }

  /** At the bottommost level every key of the input passes the tombstone test. */
  lemma BottommostImpliesNotExists(c: Compaction, k: UserKey)
    requires Built(c) && InHull(c, k) && c.bottommost
    ensures NotExistsBeyond(c, k)
  {
    if !c.universal {
      var lo, hi :| IsHull(InputFiles(c.inputs), lo, hi) && lo <= k <= hi;
      forall l, f | c.outputLevel < l < |c.levels| && f in c.levels[l]
        ensures !f.Contains(k)
      {
        assert Older(c.outputLevel, c.levels, c.inputs, f);
        assert !Overlaps(f, lo, hi);
      }
    }
  }
}
