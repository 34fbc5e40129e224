/** CompactFiles: completing the set of input files that a user asked to compact. */
module CompactFiles {
  import opened Format

  datatype Meta = Meta(smallest: UserKey, largest: UserKey, size: nat, beingCompacted: bool) {
    predicate Contains(k: UserKey) {
      smallest <= k <= largest
    }

    predicate Overlaps(lo: UserKey, hi: UserKey) {
      lo <= largest && smallest <= hi
    }
  }

  /** A file is known by its level and its place on that level. */
  type Pos = (nat, nat)

  type Levels = seq<seq<Meta>>

  predicate At(levels: Levels, p: Pos) {
    p.0 < |levels| && p.1 < |levels[p.0]|
  }

  function FileAt(levels: Levels, p: Pos): Meta
    requires At(levels, p)
  {
    levels[p.0][p.1]
  }

  /** Files cover nonempty key ranges; below level 0 they are sorted, and neighbours may share a key. */
  ghost predicate ValidLevels(levels: Levels) {
    && (forall p: Pos :: At(levels, p) ==> FileAt(levels, p).smallest <= FileAt(levels, p).largest)
    && (forall l :: 1 <= l < |levels| ==> SortedFiles(levels[l]))
  }

  ghost predicate SortedFiles(fs: seq<Meta>) {
    forall i, k :: 0 <= i < k < |fs| ==> fs[i].largest <= fs[k].smallest
  }

  ghost predicate SortedLevel(fs: seq<Meta>) {
    (forall i :: 0 <= i < |fs| ==> fs[i].smallest <= fs[i].largest) && SortedFiles(fs)
  }

  /** A range of files grown file by file, each sharing a key with the one before. */
  ghost predicate Stretches(fs: seq<Meta>, first: nat, last: nat, first': nat, last': nat) {
    && first' <= first <= last <= last' < |fs|
    && (forall i :: first' <= i < first ==> fs[i].largest >= fs[i + 1].smallest)
    && (forall i :: last < i <= last' ==> fs[i].smallest <= fs[i - 1].largest)
  }

  /** A clean cut: the files next to the range share no key with it. */
  ghost predicate CleanCut(fs: seq<Meta>, first: nat, last: nat) {
    && first <= last < |fs|
    && (first > 0 ==> fs[first - 1].largest < fs[first].smallest)
    && (last + 1 < |fs| ==> fs[last].largest < fs[last + 1].smallest)
  }

  predicate HaveOverlappingKeyRanges(alo: UserKey, ahi: UserKey, blo: UserKey, bhi: UserKey): (r: bool)
    requires alo <= ahi && blo <= bhi
    ensures r <==> alo <= bhi && blo <= ahi
  {
    if alo >= blo && alo <= bhi then true
    else if alo < blo && ahi >= blo then true
    else if ahi <= bhi && ahi >= blo then true
    else ahi > bhi && alo <= bhi
  }

  // ---------------------------------------------------------------- what a complete choice is

  /** p is a chosen file above level bound. */
  predicate Chosen(levels: Levels, t: set<Pos>, p: Pos, bound: nat) {
    p in t && At(levels, p) && p.0 < bound
  }

  /** The key range from the first key of a to the last key of b meets f. */
  predicate Spans(levels: Levels, a: Pos, b: Pos, f: Meta)
    requires At(levels, a) && At(levels, b)
  {
    f.Overlaps(FileAt(levels, a).smallest, FileAt(levels, b).largest)
  }

  /** Every file on level m that the range of the files chosen down to level m meets is chosen. */
  ghost predicate LevelDone(levels: Levels, t: set<Pos>, m: nat) {
    forall i: nat, a: Pos, b: Pos ::
      At(levels, (m, i)) && Chosen(levels, t, a, m + 1) && Chosen(levels, t, b, m + 1) &&
          Spans(levels, a, b, FileAt(levels, (m, i)))
      ==> (m, i) in t
  }

  /** The chosen level-0 files are neighbours in time. */
  ghost predicate LevelZeroDone(levels: Levels, t: set<Pos>) {
    forall i: nat, j: nat, k: nat :: i < j < k && At(levels, (0, k)) && (0, i) in t && (0, k) in t ==> (0, j) in t
  }

  ghost predicate Complete(levels: Levels, t: set<Pos>, out: nat) {
    && LevelZeroDone(levels, t)
    && forall m :: 1 <= m <= out ==> LevelDone(levels, t, m)
  }

  /** p belongs to every complete choice that extends the given one. */
  ghost predicate Needed(levels: Levels, start: set<Pos>, out: nat, p: Pos) {
    forall t: set<Pos> :: start <= t && Complete(levels, t, out) ==> p in t
  }

  ghost predicate AllNeeded(levels: Levels, start: set<Pos>, out: nat, t: set<Pos>) {
    forall p :: p in t ==> Needed(levels, start, out, p)
  }

  datatype Outcome = Ok(chosen: set<Pos>) | Aborted

  /** The key range of the files chosen so far. */
  datatype Hull = NoHull | Hull(lo: UserKey, hi: UserKey)

  ghost predicate IsHull(levels: Levels, t: set<Pos>, bound: nat, h: Hull) {
    match h
    case NoHull => forall p: Pos :: !Chosen(levels, t, p, bound)
    case Hull(lo, hi) =>
      && (exists a: Pos :: Chosen(levels, t, a, bound) && FileAt(levels, a).smallest == lo)
      && (exists b: Pos :: Chosen(levels, t, b, bound) && FileAt(levels, b).largest == hi)
      && (forall p: Pos :: Chosen(levels, t, p, bound) ==>
          lo <= FileAt(levels, p).smallest && FileAt(levels, p).largest <= hi)
  }

  predicate Meets(f: Meta, h: Hull) {
    h.Hull? && f.Overlaps(h.lo, h.hi)
  }

  /** Every file from level m to level out that meets the hull is chosen. */
  ghost predicate HullTaken(levels: Levels, t: set<Pos>, m: nat, out: nat, h: Hull) {
    forall p: Pos :: m <= p.0 <= out && At(levels, p) && Meets(FileAt(levels, p), h) ==> p in t
  }

  // ---------------------------------------------------------------- what must be taken

  lemma MeetsIsNeeded(levels: Levels, start: set<Pos>, out: nat, t: set<Pos>, h: Hull, bound: nat, p: Pos)
    requires AllNeeded(levels, start, out, t) && IsHull(levels, t, bound, h)
    requires bound <= p.0 + 1 && 1 <= p.0 <= out && At(levels, p) && Meets(FileAt(levels, p), h)
    ensures Needed(levels, start, out, p)
  {
    var a: Pos :| Chosen(levels, t, a, bound) && FileAt(levels, a).smallest == h.lo;
    var b: Pos :| Chosen(levels, t, b, bound) && FileAt(levels, b).largest == h.hi;
    SpannedIsNeeded(levels, start, out, a, b, p);
  }

  lemma SpannedIsNeeded(levels: Levels, start: set<Pos>, out: nat, a: Pos, b: Pos, p: Pos)
    requires Needed(levels, start, out, a) && Needed(levels, start, out, b)
    requires At(levels, a) && At(levels, b) && a.0 <= p.0 && b.0 <= p.0
    requires 1 <= p.0 <= out && At(levels, p) && Spans(levels, a, b, FileAt(levels, p))
    ensures Needed(levels, start, out, p)
  {
    forall t: set<Pos> | start <= t && Complete(levels, t, out)
      ensures p in t
    {
      assert a in t && b in t && LevelDone(levels, t, p.0);
      assert Chosen(levels, t, a, p.0 + 1) && Chosen(levels, t, b, p.0 + 1);
      assert p == (p.0, p.1);
    }
  }

  lemma BetweenIsNeeded(levels: Levels, start: set<Pos>, out: nat, i: nat, j: nat, k: nat)
    requires Needed(levels, start, out, (0, i)) && Needed(levels, start, out, (0, k))
    requires i <= j <= k && At(levels, (0, k))
    ensures Needed(levels, start, out, (0, j))
  {
    forall t: set<Pos> | start <= t && Complete(levels, t, out)
      ensures (0, j) in t
    {
      assert (0, i) in t && (0, k) in t && LevelZeroDone(levels, t);
    }
  }
}
