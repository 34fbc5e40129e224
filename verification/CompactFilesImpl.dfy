/** SanitizeCompactionInputFilesForAllLevels, level by level. */
module CompactFilesImpl {
  import opened Format
  import opened CompactFiles

  /** Of the first n files on level l, first and last are the first and the last one chosen. */
  predicate AreEnds(n: nat, l: nat, t: set<Pos>, first: nat, last: int) {
    && first <= last < n && (l, first) in t && (l, last) in t
    && forall i: nat :: i < n && (l, i) in t ==> first <= i <= last
  }

  /** The first and the last chosen file on level l. */
  method FindChosen(n: nat, l: nat, t: set<Pos>) returns (first: nat, last: int)
    ensures if last < 0 then forall i: nat :: i < n ==> (l, i) !in t else AreEnds(n, l, t, first, last)
  {
    first, last := n, -1;
    for f := 0 to n
      invariant if last < 0 then first == n && forall i: nat :: i < f ==> (l, i) !in t
                else AreEnds(f, l, t, first, last)
    {
      if (l, f) in t {
        first := if first < f then first else f;
        last := if last > f then last else f;
      }
    }
  }

  method Stretch(fs: seq<Meta>, first: nat, last: nat) returns (first': nat, last': nat)
    requires first <= last < |fs|
    ensures Stretches(fs, first, last, first', last') && CleanCut(fs, first', last')
  {
    first' := first;
    while first' > 0 && !(fs[first' - 1].largest < fs[first'].smallest)
      invariant first' <= first
      invariant forall i :: first' <= i < first ==> fs[i].largest >= fs[i + 1].smallest
    {
      first' := first' - 1;
    }
    last' := last;
    while last' < |fs| - 1 && !(fs[last' + 1].smallest > fs[last'].largest)
      invariant last <= last' < |fs|
      invariant forall i :: last < i <= last' ==> fs[i].smallest <= fs[i - 1].largest
    {
      last' := last' + 1;
    }
  }

  predicate InRange(p: Pos, l: nat, first: nat, last: nat) {
    p.0 == l && first <= p.1 <= last
  }

  /** Takes the files from first to last, unless one of them is being compacted. */
  method TakeBetween(levels: Levels, l: nat, first: nat, last: nat, t: set<Pos>) returns (ok: bool, t': set<Pos>)
    requires l < |levels| && first <= last < |levels[l]|
    ensures ok ==> forall p: Pos :: p in t' <==> p in t || InRange(p, l, first, last)
    ensures ok <==> forall i :: first <= i <= last ==> !levels[l][i].beingCompacted
  {
    t' := t;
    for f := first to last + 1
      invariant forall p: Pos :: p in t' <==> p in t || (p.0 == l && first <= p.1 < f)
      invariant forall i :: first <= i < f ==> !levels[l][i].beingCompacted
    {
      if levels[l][f].beingCompacted {
        return false, t';
      }
      t' := t' + {(l, f)};
    }
    ok := true;
  }

  function Widen(h: Hull, lo: UserKey, hi: UserKey): Hull {
    if h.NoHull? then Hull(lo, hi)
    else Hull(if lo < h.lo then lo else h.lo, if h.hi < hi then hi else h.hi)
  }

  /** The hull widened by every file from first to last. */
  ghost predicate WidenedBy(fs: seq<Meta>, first: nat, last: nat, h: Hull, h': Hull) {
    && first <= last < |fs|
    && h'.Hull?
    && (h.Hull? ==> h'.lo <= h.lo && h.hi <= h'.hi)
    && (forall i :: first <= i <= last ==> h'.lo <= fs[i].smallest && fs[i].largest <= h'.hi)
    && ((h.Hull? && h'.lo == h.lo) || exists i :: first <= i <= last && fs[i].smallest == h'.lo)
    && ((h.Hull? && h'.hi == h.hi) || exists i :: first <= i <= last && fs[i].largest == h'.hi)
  }

  /** On level 0 every file counts; deeper, the two ends do. */
  method WidenHull(fs: seq<Meta>, l: nat, first: nat, last: nat, seed: nat, h: Hull) returns (h': Hull)
    requires first <= seed <= last < |fs|
    requires forall i :: 0 <= i < |fs| ==> fs[i].smallest <= fs[i].largest
    requires l > 0 ==> SortedFiles(fs)
    ensures WidenedBy(fs, first, last, h, h')
  {
    h' := if h.NoHull? then Hull(fs[seed].smallest, fs[seed].largest) else h;
    if l == 0 {
      for f := first to last + 1
        invariant h'.Hull? && (h.Hull? ==> h'.lo <= h.lo && h.hi <= h'.hi)
        invariant forall i :: first <= i < f ==> h'.lo <= fs[i].smallest && fs[i].largest <= h'.hi
        invariant (h.Hull? && h'.lo == h.lo) || exists i :: first <= i <= last && fs[i].smallest == h'.lo
        invariant (h.Hull? && h'.hi == h.hi) || exists i :: first <= i <= last && fs[i].largest == h'.hi
      {
        h' := Widen(h', fs[f].smallest, fs[f].largest);
      }
    } else {
      h' := Widen(h', fs[first].smallest, fs[last].largest);
    }
  }

  /** Takes the files of levels m to out that meet the hull, unless one of them is being compacted. */
  method TakeMeeting(levels: Levels, m: nat, out: nat, h: Hull, t: set<Pos>) returns (ok: bool, t': set<Pos>)
    requires ValidLevels(levels) && out < |levels| && h.Hull? && h.lo <= h.hi
    ensures ok ==> forall p: Pos :: p in t' <==> p in t || MeetsFrom(levels, m, out, h, p)
    ensures ok <==> forall p: Pos :: MeetsFrom(levels, m, out, h, p) ==> !FileAt(levels, p).beingCompacted
  {
    t' := t;
    var l := m;
    while l <= out
      invariant m <= l
      invariant forall p: Pos :: p in t' <==> p in t || (p.0 < l && MeetsFrom(levels, m, out, h, p))
      invariant forall p: Pos :: p.0 < l && MeetsFrom(levels, m, out, h, p) ==> !FileAt(levels, p).beingCompacted
    {
      ok, t' := TakeMeetingOn(levels, l, h, t');
      if !ok {
        return;
      }
      l := l + 1;
    }
    ok := true;
  }

  predicate MeetsFrom(levels: Levels, m: nat, out: nat, h: Hull, p: Pos) {
    m <= p.0 <= out && At(levels, p) && Meets(FileAt(levels, p), h)
  }

  method TakeMeetingOn(levels: Levels, l: nat, h: Hull, t: set<Pos>) returns (ok: bool, t': set<Pos>)
    requires ValidLevels(levels) && l < |levels| && h.Hull? && h.lo <= h.hi
    ensures ok ==> forall p: Pos :: p in t' <==> p in t || MeetsFrom(levels, l, l, h, p)
    ensures !ok ==> exists p: Pos :: MeetsFrom(levels, l, l, h, p) && FileAt(levels, p).beingCompacted
    ensures ok ==> forall p: Pos :: MeetsFrom(levels, l, l, h, p) ==> !FileAt(levels, p).beingCompacted
  {
    t' := t;
    for i := 0 to |levels[l]|
      invariant forall p: Pos :: p in t' <==> p in t || (p.1 < i && MeetsFrom(levels, l, l, h, p))
      invariant forall p: Pos :: p.1 < i && MeetsFrom(levels, l, l, h, p) ==> !FileAt(levels, p).beingCompacted
    {
      var f := levels[l][i];
      assert f == FileAt(levels, (l, i));
      if HaveOverlappingKeyRanges(h.lo, h.hi, f.smallest, f.largest) {
        if f.beingCompacted {
          assert MeetsFrom(levels, l, l, h, (l, i));
          return false, t';
        }
        t' := t' + {(l, i)};
      }
    }
    ok := true;
  }

  // ---------------------------------------------------------------- one level

  ghost predicate NoneBusy(levels: Levels, t: set<Pos>, bound: nat) {
    forall p: Pos :: Chosen(levels, t, p, bound) ==> !FileAt(levels, p).beingCompacted
  }

  /** Where the choice stands when the levels above l are done. */
  ghost predicate Progress(levels: Levels, start: set<Pos>, out: nat, l: nat, t: set<Pos>, h: Hull) {
    && start <= t && AllNeeded(levels, start, out, t)
    && IsHull(levels, t, l, h)
    && HullTaken(levels, t, if l > 0 then l else 1, out, h)
    && NoneBusy(levels, t, l)
    && (l > 0 ==> LevelZeroDone(levels, t))
    && (forall m :: 1 <= m < l ==> LevelDone(levels, t, m))
  }

  /** A level with no chosen file is done: whatever met the hull would have been chosen. */
  lemma SkipLevel(levels: Levels, start: set<Pos>, out: nat, l: nat, t: set<Pos>, h: Hull)
    requires Progress(levels, start, out, l, t, h) && l <= out < |levels|
    requires forall i: nat :: i < |levels[l]| ==> (l, i) !in t
    ensures Progress(levels, start, out, l + 1, t, h)
  {
    assert forall p: Pos :: Chosen(levels, t, p, l + 1) ==> p == (p.0, p.1) && Chosen(levels, t, p, l);
    assert IsHull(levels, t, l + 1, h);
    if l > 0 {
      LevelIsDone(levels, t, l, out, h);
    }
  }

  /** The files taken between the ends are needed. */
  lemma {:induction false} StretchIsNeeded(levels: Levels, start: set<Pos>, out: nat, l: nat, first: nat,
          last: nat, first': nat, last': nat, i: nat)
    requires ValidLevels(levels) && 1 <= l <= out && l < |levels|
    requires Stretches(levels[l], first, last, first', last') && first' <= i <= last'
    requires Needed(levels, start, out, (l, first)) && Needed(levels, start, out, (l, last))
    ensures Needed(levels, start, out, (l, i))
    decreases if i < first then first - i else if i > last then i - last else 0
  {
    var fs := levels[l];
    assert At(levels, (l, i)) && At(levels, (l, first)) && At(levels, (l, last));
    if i < first {
      StretchIsNeeded(levels, start, out, l, first, last, first', last', i + 1);
      assert fs[i].largest <= fs[i + 1].smallest && fs[i + 1].smallest <= FileAt(levels, (l, i + 1)).largest;
      assert fs[i].smallest <= FileAt(levels, (l, i)).largest;
      SpannedIsNeeded(levels, start, out, (l, i + 1), (l, i + 1), (l, i));
    } else if i > last {
      StretchIsNeeded(levels, start, out, l, first, last, first', last', i - 1);
      assert fs[i - 1].largest <= fs[i].smallest && FileAt(levels, (l, i - 1)).smallest <= fs[i - 1].largest;
      assert FileAt(levels, (l, i)).smallest <= fs[i].largest;
      SpannedIsNeeded(levels, start, out, (l, i - 1), (l, i - 1), (l, i));
    } else {
      assert FileAt(levels, (l, i)).smallest <= FileAt(levels, (l, i)).largest;
      assert FileAt(levels, (l, first)).smallest <= FileAt(levels, (l, first)).largest;
      assert FileAt(levels, (l, last)).smallest <= FileAt(levels, (l, last)).largest;
      SpannedIsNeeded(levels, start, out, (l, first), (l, last), (l, i));
    }
  }

  lemma RangeIsNeeded(levels: Levels, start: set<Pos>, out: nat, l: nat, first: nat, last: nat, first': nat,
          last': nat, t: set<Pos>, t': set<Pos>)
    requires ValidLevels(levels) && l <= out && l < |levels|
    requires Stretches(levels[l], first, last, first', last') && (l == 0 ==> first' == first && last' == last)
    requires AllNeeded(levels, start, out, t) && (l, first) in t && (l, last) in t
    requires forall p: Pos :: p in t' <==> p in t || InRange(p, l, first', last')
    ensures AllNeeded(levels, start, out, t')
  {
    forall p: Pos | p in t'
      ensures Needed(levels, start, out, p)
    {
      if InRange(p, l, first', last') {
        assert p == (l, p.1);
        if l == 0 {
          BetweenIsNeeded(levels, start, out, first, p.1, last);
        } else {
          StretchIsNeeded(levels, start, out, l, first, last, first', last', p.1);
        }
      }
    }
  }

  /** The widened hull is the hull of everything chosen down to this level. */
  lemma WidenedIsHull(levels: Levels, l: nat, first: nat, last: nat, t: set<Pos>, t': set<Pos>, h: Hull, h': Hull)
    requires l < |levels| && WidenedBy(levels[l], first, last, h, h') && IsHull(levels, t, l, h)
    requires forall i: nat :: i < |levels[l]| && (l, i) in t ==> first <= i <= last
    requires forall p: Pos :: p in t' <==> p in t || InRange(p, l, first, last)
    ensures IsHull(levels, t', l + 1, h')
  {
    var fs := levels[l];
    forall p: Pos | Chosen(levels, t', p, l + 1)
      ensures h'.lo <= FileAt(levels, p).smallest && FileAt(levels, p).largest <= h'.hi
    {
      assert p == (p.0, p.1);
      assert p.0 < l ==> Chosen(levels, t, p, l);
    }
    if h.Hull? && h'.lo == h.lo {
      var a: Pos :| Chosen(levels, t, a, l) && FileAt(levels, a).smallest == h.lo;
      assert Chosen(levels, t', a, l + 1);
    } else {
      var i :| first <= i <= last && fs[i].smallest == h'.lo;
      assert Chosen(levels, t', (l, i), l + 1);
    }
    if h.Hull? && h'.hi == h.hi {
      var b: Pos :| Chosen(levels, t, b, l) && FileAt(levels, b).largest == h.hi;
      assert Chosen(levels, t', b, l + 1);
    } else {
      var i :| first <= i <= last && fs[i].largest == h'.hi;
      assert Chosen(levels, t', (l, i), l + 1);
    }
  }

  /** A file of this level that meets the widened hull lies within it: it cannot stick out on either
      side of the clean cut without having met the hull before. */
  lemma MeetingIsInside(levels: Levels, l: nat, first: nat, last: nat, h: Hull, h': Hull, i: nat)
    requires ValidLevels(levels) && 1 <= l < |levels| && i < |levels[l]|
    requires WidenedBy(levels[l], first, last, h, h') && CleanCut(levels[l], first, last)
    requires Meets(levels[l][i], h) ==> first <= i <= last
    requires Meets(levels[l][i], h')
    requires h.Hull? ==> h.lo <= h.hi
    ensures h'.lo <= levels[l][i].smallest && levels[l][i].largest <= h'.hi
  {
    var fs := levels[l];
    assert SortedFiles(fs);
    assert FileAt(levels, (l, i)).smallest <= FileAt(levels, (l, i)).largest;
    assert FileAt(levels, (l, first)).smallest <= FileAt(levels, (l, first)).largest;
    assert FileAt(levels, (l, last)).smallest <= FileAt(levels, (l, last)).largest;
    if i < first {
      assert i < first - 1 ==>
        fs[i].largest <= fs[first - 1].smallest && FileAt(levels, (l, first - 1)).smallest <= fs[first - 1].largest;
      assert fs[i].largest < fs[first].smallest;
    } else if i > last {
      assert i > last + 1 ==>
        fs[last + 1].largest <= fs[i].smallest && FileAt(levels, (l, last + 1)).smallest <= fs[last + 1].largest;
      assert fs[last].largest < fs[i].smallest;
    }
  }

  /** The hull stays the hull when the files it meets are taken. */
  lemma HullAfterMeeting(levels: Levels, out: nat, l: nat, first: nat, last: nat, t: set<Pos>, t': set<Pos>,
          t'': set<Pos>, h: Hull, h': Hull)
    requires ValidLevels(levels) && l < |levels|
    requires WidenedBy(levels[l], first, last, h, h') && (l > 0 ==> CleanCut(levels[l], first, last))
    requires h.Hull? ==> h.lo <= h.hi
    requires forall i: nat :: l > 0 && i < |levels[l]| && Meets(levels[l][i], h) ==> first <= i <= last
    requires IsHull(levels, t', l + 1, h')
    requires forall p: Pos :: p in t'' <==> p in t' || MeetsFrom(levels, if l > 0 then l else 1, out, h', p)
    ensures IsHull(levels, t'', l + 1, h')
  {
    var a: Pos :| Chosen(levels, t', a, l + 1) && FileAt(levels, a).smallest == h'.lo;
    var b: Pos :| Chosen(levels, t', b, l + 1) && FileAt(levels, b).largest == h'.hi;
    assert Chosen(levels, t'', a, l + 1) && Chosen(levels, t'', b, l + 1);
    forall p: Pos | Chosen(levels, t'', p, l + 1)
      ensures h'.lo <= FileAt(levels, p).smallest && FileAt(levels, p).largest <= h'.hi
    {
      if p in t' {
        assert Chosen(levels, t', p, l + 1);
      } else {
        MeetingIsInside(levels, l, first, last, h, h', p.1);
      }
    }
  }

  lemma MeetingIsNeeded(levels: Levels, start: set<Pos>, out: nat, l: nat, t: set<Pos>, t': set<Pos>, h: Hull)
    requires AllNeeded(levels, start, out, t) && IsHull(levels, t, l + 1, h)
    requires forall p: Pos :: p in t' <==> p in t || MeetsFrom(levels, if l > 0 then l else 1, out, h, p)
    ensures AllNeeded(levels, start, out, t')
  {
    forall p: Pos | p in t'
      ensures Needed(levels, start, out, p)
    {
      if p !in t {
        MeetsIsNeeded(levels, start, out, t, h, l + 1, p);
      }
    }
  }

  /** What the files above level m chosen later do not change. */
  lemma LevelStaysDone(levels: Levels, t: set<Pos>, t': set<Pos>, m: nat)
    requires LevelDone(levels, t, m) && t <= t'
    requires forall p: Pos :: p in t' && p !in t ==> p.0 > m
    ensures LevelDone(levels, t', m)
  {
    forall i: nat, a: Pos, b: Pos |
        At(levels, (m, i)) && Chosen(levels, t', a, m + 1) && Chosen(levels, t', b, m + 1) &&
            Spans(levels, a, b, FileAt(levels, (m, i)))
      ensures (m, i) in t'
    {
      assert Chosen(levels, t, a, m + 1) && Chosen(levels, t, b, m + 1);
    }
  }

  lemma LevelIsDone(levels: Levels, t: set<Pos>, l: nat, out: nat, h: Hull)
    requires 1 <= l <= out && IsHull(levels, t, l + 1, h) && HullTaken(levels, t, l, out, h)
    ensures LevelDone(levels, t, l)
  {
    forall i: nat, a: Pos, b: Pos |
        At(levels, (l, i)) && Chosen(levels, t, a, l + 1) && Chosen(levels, t, b, l + 1) &&
            Spans(levels, a, b, FileAt(levels, (l, i)))
      ensures (l, i) in t
    {
      assert Meets(FileAt(levels, (l, i)), h);
    }
  }

  /** The range of files found and stretched on level l. */
  ghost predicate FoundRange(levels: Levels, l: nat, t: set<Pos>, first: nat, last: nat, first': nat, last': nat) {
    && l < |levels|
    && Stretches(levels[l], first, last, first', last')
    && (l, first) in t && (l, last) in t
    && (forall i: nat :: i < |levels[l]| && (l, i) in t ==> first <= i <= last)
    && (if l == 0 then first' == first && last' == last else CleanCut(levels[l], first', last'))
  }

  ghost predicate Extended(levels: Levels, t: set<Pos>, t': set<Pos>, l: nat, first: nat, last: nat) {
    forall p: Pos :: p in t' <==> p in t || InRange(p, l, first, last)
  }

  ghost predicate ExtendedByHull(levels: Levels, t: set<Pos>, t': set<Pos>, l: nat, out: nat, h: Hull) {
    forall p: Pos :: p in t' <==> p in t || MeetsFrom(levels, if l > 0 then l else 1, out, h, p)
  }

  /** The choice after the range and after the hull is that of the next level. */
  lemma LevelTaken(levels: Levels, start: set<Pos>, out: nat, l: nat, first: nat, last: nat, first': nat, last': nat,
                   t: set<Pos>, t1: set<Pos>, t': set<Pos>, h: Hull, h': Hull)
    requires ValidLevels(levels) && l <= out < |levels| && Progress(levels, start, out, l, t, h)
    requires h.Hull? ==> h.lo <= h.hi
    requires FoundRange(levels, l, t, first, last, first', last') && WidenedBy(levels[l], first', last', h, h')
    requires Extended(levels, t, t1, l, first', last') && ExtendedByHull(levels, t1, t', l, out, h')
    ensures start <= t' && AllNeeded(levels, start, out, t') && IsHull(levels, t', l + 1, h')
  {
    RangeIsNeeded(levels, start, out, l, first, last, first', last', t, t1);
    WidenedIsHull(levels, l, first', last', t, t1, h, h');
    MeetingIsNeeded(levels, start, out, l, t1, t', h');
    assert forall i: nat :: l > 0 && i < |levels[l]| && Meets(levels[l][i], h) ==>
      FileAt(levels, (l, i)) == levels[l][i] && (l, i) in t;
    HullAfterMeeting(levels, out, l, first', last', t, t1, t', h, h');
  }

  lemma LevelsAfter(levels: Levels, start: set<Pos>, out: nat, l: nat, first: nat, last: nat,
                    t: set<Pos>, t1: set<Pos>, t': set<Pos>, h: Hull, h': Hull)
    requires l <= out < |levels| && Progress(levels, start, out, l, t, h) && first <= last < |levels[l]|
    requires Extended(levels, t, t1, l, first, last) && ExtendedByHull(levels, t1, t', l, out, h')
    requires IsHull(levels, t', l + 1, h')
    requires l == 0 ==> forall i: nat :: i < |levels[0]| && (0, i) in t ==> first <= i <= last
    ensures LevelZeroDone(levels, t') && forall m :: 1 <= m < l + 1 ==> LevelDone(levels, t', m)
    ensures HullTaken(levels, t', l + 1, out, h')
  {
    if l > 0 {
      LevelIsDone(levels, t', l, out, h');
    }
    forall m | 1 <= m < l
      ensures LevelDone(levels, t', m)
    {
      LevelStaysDone(levels, t, t', m);
    }
  }

  lemma NoneBusyAfter(levels: Levels, out: nat, l: nat, first: nat, last: nat, t: set<Pos>, t1: set<Pos>,
          t': set<Pos>, h': Hull)
    requires l < |levels| && first <= last < |levels[l]| && NoneBusy(levels, t, l)
    requires forall i: nat :: i < |levels[l]| && (l, i) in t ==> first <= i <= last
    requires Extended(levels, t, t1, l, first, last) && ExtendedByHull(levels, t1, t', l, out, h')
    requires forall i :: first <= i <= last ==> !levels[l][i].beingCompacted
    requires forall p: Pos :: MeetsFrom(levels, if l > 0 then l else 1, out, h', p) ==>
      !FileAt(levels, p).beingCompacted
    ensures NoneBusy(levels, t', l + 1)
  {
    forall p: Pos | Chosen(levels, t', p, l + 1)
      ensures !FileAt(levels, p).beingCompacted
    {
      assert p == (p.0, p.1);
      assert p in t && p.0 < l ==> Chosen(levels, t, p, l);
    }
  }

  ghost predicate BusyNeeded(levels: Levels, start: set<Pos>, out: nat) {
    exists p: Pos :: At(levels, p) && p.0 <= out && Needed(levels, start, out, p) && FileAt(levels, p).beingCompacted
  }

  /** Giving up is right: a file that every complete choice needs is being compacted. */
  lemma BusyBetween(levels: Levels, start: set<Pos>, out: nat, l: nat, t: set<Pos>, first: nat, last: nat,
          first': nat, last': nat, i: nat)
    requires ValidLevels(levels) && l <= out < |levels| && AllNeeded(levels, start, out, t)
    requires FoundRange(levels, l, t, first, last, first', last')
    requires first' <= i <= last' && levels[l][i].beingCompacted
    ensures BusyNeeded(levels, start, out)
  {
    var t1 := t + set k: nat | first' <= k <= last' :: (l, k);
    RangeIsNeeded(levels, start, out, l, first, last, first', last', t, t1);
    assert At(levels, (l, i)) && (l, i) in t1;
  }

  lemma BusyMeeting(levels: Levels, start: set<Pos>, out: nat, l: nat, t: set<Pos>, h: Hull, p: Pos)
    requires AllNeeded(levels, start, out, t) && IsHull(levels, t, l + 1, h)
    requires MeetsFrom(levels, if l > 0 then l else 1, out, h, p) && FileAt(levels, p).beingCompacted
    ensures BusyNeeded(levels, start, out)
  {
    MeetsIsNeeded(levels, start, out, t, h, l + 1, p);
  }

  lemma MetaOrder(levels: Levels, l: nat)
    requires ValidLevels(levels) && l < |levels|
    ensures forall i :: 0 <= i < |levels[l]| ==> levels[l][i].smallest <= levels[l][i].largest
  {
    forall i | 0 <= i < |levels[l]|
      ensures levels[l][i].smallest <= levels[l][i].largest
    {
      assert At(levels, (l, i));
    }
  }

  /** The range of chosen files on one level, grown to a clean cut below level 0. */
  method FindRange(levels: Levels, l: nat, t: set<Pos>)
    returns (found: bool, ghost first0: nat, ghost last0: nat, seed: nat, first: nat, last: nat)
    requires l < |levels|
    ensures !found ==> forall i: nat :: i < |levels[l]| ==> (l, i) !in t
    ensures found ==> FoundRange(levels, l, t, first0, last0, first, last) && first <= seed <= last
  {
    var a, b := FindChosen(|levels[l]|, l, t);
    if b < 0 {
      return false, 0, 0, 0, 0, 0;
    }
    found, first0, last0, seed, first, last := true, a, b, a, a, b;
    if l != 0 {
      first, last := Stretch(levels[l], a, b);
    }
  }

  /** One round of the outer loop. */
  method SanitizeLevel(levels: Levels, ghost start: set<Pos>, out: nat, l: nat, t: set<Pos>, h: Hull)
    returns (ok: bool, t': set<Pos>, h': Hull)
    requires ValidLevels(levels) && l <= out < |levels| && Progress(levels, start, out, l, t, h)
    requires h.Hull? ==> h.lo <= h.hi
    ensures ok ==> Progress(levels, start, out, l + 1, t', h') && (h'.Hull? ==> h'.lo <= h'.hi)
    ensures !ok ==> BusyNeeded(levels, start, out)
  {
    ghost var first0, last0;
    var found, seed, first, last;
    found, first0, last0, seed, first, last := FindRange(levels, l, t);
    if !found {
      SkipLevel(levels, start, out, l, t, h);
      return true, t, h;
    }
    var t1;
    ok, t1 := TakeBetween(levels, l, first, last, t);
    if !ok {
      ghost var i :| first <= i <= last && levels[l][i].beingCompacted;
      BusyBetween(levels, start, out, l, t, first0, last0, first, last, i);
      return false, t, h;
    }
    MetaOrder(levels, l);
    h' := WidenHull(levels[l], l, first, last, seed, h);
    ok, t' := TakeMeeting(levels, if l > 0 then l else 1, out, h', t1);
    if !ok {
      RangeIsNeeded(levels, start, out, l, first0, last0, first, last, t, t1);
      WidenedIsHull(levels, l, first, last, t, t1, h, h');
      ghost var p: Pos :| MeetsFrom(levels, if l > 0 then l else 1, out, h', p) && FileAt(levels, p).beingCompacted;
      BusyMeeting(levels, start, out, l, t1, h', p);
      return;
    }
    LevelTaken(levels, start, out, l, first0, last0, first, last, t, t1, t', h, h');
    LevelsAfter(levels, start, out, l, first, last, t, t1, t', h, h');
    NoneBusyAfter(levels, out, l, first, last, t, t1, t', h');
  }

  /** What success and failure mean: the chosen files are the least complete choice and none is being
      compacted, or every complete choice needs a file that is. */
  ghost predicate IsSanitized(levels: Levels, start: set<Pos>, out: nat, r: Outcome) {
    match r
    case Ok(t) => start <= t && Complete(levels, t, out) && AllNeeded(levels, start, out, t) &&
        NoneBusy(levels, t, out + 1)
    case Aborted => BusyNeeded(levels, start, out)
  }

  method SanitizeForAllLevels(levels: Levels, input: set<Pos>, out: nat) returns (r: Outcome)
    requires ValidLevels(levels) && out < |levels|
    ensures IsSanitized(levels, input, out, r)
  {
    var t, h := input, NoHull;
    var l := 0;
    while l <= out
      invariant l <= out + 1 && Progress(levels, input, out, l, t, h)
      invariant h.Hull? ==> h.lo <= h.hi
    {
      var ok;
      ok, t, h := SanitizeLevel(levels, input, out, l, t, h);
      if !ok {
        return Aborted;
      }
      l := l + 1;
    }
    r := Ok(t);
  }

  /** A complete choice with no file being compacted rules out giving up. */
  lemma CompleteIsNotBusy(levels: Levels, start: set<Pos>, out: nat, t: set<Pos>)
    requires start <= t && Complete(levels, t, out) && NoneBusy(levels, t, out + 1)
    ensures !BusyNeeded(levels, start, out)
  {
    forall p: Pos | At(levels, p) && p.0 <= out && Needed(levels, start, out, p)
      ensures !FileAt(levels, p).beingCompacted
    {
      assert Chosen(levels, t, p, out + 1);
    }
  }

  /** The outcome depends on the question alone, whatever the order of the work. */
  lemma SanitizedIsDetermined(levels: Levels, start: set<Pos>, out: nat, r: Outcome, s: Outcome)
    requires IsSanitized(levels, start, out, r) && IsSanitized(levels, start, out, s)
    ensures r == s
  {
    if r.Ok? {
      CompleteIsNotBusy(levels, start, out, r.chosen);
      assert forall p :: p in r.chosen ==> Needed(levels, start, out, p);
      assert forall p :: p in s.chosen ==> Needed(levels, start, out, p);
    } else if s.Ok? {
      CompleteIsNotBusy(levels, start, out, s.chosen);
    }
  }

  /** A successful choice has, on each level from 1 to the output level, every file that meets a range from the first
      key of a chosen file to the last key of another, of that level or above; on level 0, every file between two
      chosen ones. */
  lemma ChosenIsClosed(levels: Levels, start: set<Pos>, out: nat, t: set<Pos>, a: Pos, b: Pos, m: nat, i: nat)
    requires out < |levels| && IsSanitized(levels, start, out, Ok(t)) && a in t && b in t
    requires At(levels, a) && At(levels, b) && m <= out && i < |levels[m]| && a.0 <= m && b.0 <= m
    ensures var f := levels[m][i];
      m > 0 && FileAt(levels, a).smallest <= f.largest && f.smallest <= FileAt(levels, b).largest ==> (m, i) in t
    ensures m == 0 && a.1 < i < b.1 ==> (0, i) in t
  {
    assert a == (a.0, a.1) && b == (b.0, b.1);
    if m > 0 {
      assert LevelDone(levels, t, m);
      assert At(levels, (m, i)) && Chosen(levels, t, a, m + 1) && Chosen(levels, t, b, m + 1);
      assert Spans(levels, a, b, FileAt(levels, (m, i))) ==> (m, i) in t;
    }
  }

  /** The others that span p: two neighbours on level 0, or the ends of a range on levels not below it. */
  ghost predicate IsSpanned(levels: Levels, t: set<Pos>, p: Pos) {
    exists a: Pos, b: Pos ::
      && a in t && b in t && a != p && b != p && At(levels, a) && At(levels, b) && At(levels, p)
      && if p.0 == 0 then a.0 == b.0 == 0 && a.1 < p.1 < b.1
         else
           && a.0 <= p.0 && b.0 <= p.0
           && FileAt(levels, a).smallest <= FileAt(levels, p).largest
           && FileAt(levels, p).smallest <= FileAt(levels, b).largest
  }

  /** And it has no more: every file that was not asked for is spanned by others of the choice. */
  lemma AddedIsSpanned(levels: Levels, start: set<Pos>, out: nat, t: set<Pos>, p: Pos)
    requires out < |levels| && IsSanitized(levels, start, out, Ok(t))
    requires p in t && p !in start && At(levels, p) && p.0 <= out
    ensures IsSpanned(levels, t, p)
  {
    assert Needed(levels, start, out, p) && start <= t - {p};
    if !IsSpanned(levels, t, p) {
      StaysComplete(levels, out, t, p);
    }
  }

  lemma StaysComplete(levels: Levels, out: nat, t: set<Pos>, p: Pos)
    requires Complete(levels, t, out) && At(levels, p) && !IsSpanned(levels, t, p)
    ensures Complete(levels, t - {p}, out)
  {
    var t' := t - {p};
    forall i: nat, j: nat, k: nat | i < j < k && At(levels, (0, k)) && (0, i) in t' && (0, k) in t'
      ensures (0, j) in t'
    {
      assert (0, j) in t;
      if p == (0, j) {
        assert At(levels, (0, i));
      }
    }
    forall m | 1 <= m <= out
      ensures LevelDone(levels, t', m)
    {
      assert LevelDone(levels, t, m);
      forall i: nat, a: Pos, b: Pos | At(levels, (m, i)) && Chosen(levels, t', a, m + 1) &&
        Chosen(levels, t', b, m + 1) && Spans(levels, a, b, FileAt(levels, (m, i)))
        ensures (m, i) in t'
      {
        assert Chosen(levels, t, a, m + 1) && Chosen(levels, t, b, m + 1);
      }
    }
  }

  /** A second pass over a success adds nothing and does not give up. */
  lemma SanitizedOnce(levels: Levels, start: set<Pos>, out: nat, r: Outcome, again: Outcome)
    requires IsSanitized(levels, start, out, r) && r.Ok?
    requires IsSanitized(levels, r.chosen, out, again)
    ensures again == r
  {
    CompleteIsNotBusy(levels, r.chosen, out, r.chosen);
    assert forall p :: p in again.chosen ==> Needed(levels, r.chosen, out, p);
  }

  datatype Status = OkStatus(chosen: set<Pos>) | AbortedStatus | InvalidArgument

  /** SanitizeCompactionInputFiles: the checks around the completion. */
  method SanitizeCompactionInputFiles(levels: Levels, input: set<Pos>, out: int, maxOutputLevel: nat)
    returns (r: Status)
    requires ValidLevels(levels)
    ensures out < 0 || out >= |levels| || out > maxOutputLevel || input == {} ==> r.InvalidArgument?
    ensures r.OkStatus? ==>
      && 0 <= out < |levels| && input <= r.chosen
      && IsSanitized(levels, input, out, Ok(r.chosen))
      && forall p: Pos :: p in r.chosen ==> At(levels, p) && !FileAt(levels, p).beingCompacted
    ensures r.AbortedStatus? ==>
      && 0 <= out < |levels|
      && (|| BusyNeeded(levels, input, out)
          || exists p: Pos :: p in input && At(levels, p) && p.0 > out && FileAt(levels, p).beingCompacted)
    ensures r.InvalidArgument? && 0 <= out < |levels| && out <= maxOutputLevel && input != {} ==>
      exists p: Pos :: p in input && !At(levels, p)
  {
    if out >= |levels| || out > maxOutputLevel || out < 0 || input == {} {
      return InvalidArgument;
    }
    var s := SanitizeForAllLevels(levels, input, out);
    if s.Aborted? {
      return AbortedStatus;
    }
    var rest := s.chosen;
    while rest != {}
      invariant rest <= s.chosen
      invariant forall p: Pos :: p in s.chosen && p !in rest ==> At(levels, p) && !FileAt(levels, p).beingCompacted
      decreases rest
    {
      var p: Pos :| p in rest;
      ghost var elsewhere := OnlyInputElsewhere(levels, input, out, s.chosen, p);
      if !At(levels, p) {
        return InvalidArgument;
      }
      if FileAt(levels, p).beingCompacted {
        assert !Chosen(levels, s.chosen, p, out + 1);
        return AbortedStatus;
      }
      rest := rest - {p};
    }
    r := OkStatus(s.chosen);
  }

  /** Completion only adds files of levels 0 to out. */
  lemma OnlyInputElsewhere(levels: Levels, start: set<Pos>, out: nat, t: set<Pos>, p: Pos) returns (elsewhere: bool)
    requires AllNeeded(levels, start, out, t) && p in t
    ensures elsewhere <==> !At(levels, p) || p.0 > out
    ensures elsewhere ==> p in start
  {
    elsewhere := !At(levels, p) || p.0 > out;
    if elsewhere {
      var all := start + set l: nat, i: nat | 0 <= l <= out && l < |levels| && 0 <= i < |levels[l]| :: (l, i);
      assert Complete(levels, all, out);
      assert p in all;
    }
  }
}
