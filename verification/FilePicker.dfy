/** The search for the files that may hold a key: level by level, each narrowed by the one above. */
module FilePicking {
  import opened Format
  import opened CompactFiles
  import opened FileIndexing

  const LEVEL_MAX_INDEX: int := 0x7FFF_FFFF

  /** The files of a version, the sequence number of each one's largest key, and the key that is looked
      up together with the sequence number of the read. */
  datatype Lookup = Lookup(files: Levels, lastSeqs: seq<seq<SeqNo>>, key: UserKey, sequence: SeqNo) {

    /** The largest internal key of file i comes before the one looked up. */
    predicate Behind(l: nat, i: nat)
      requires l < |files| == |lastSeqs| && i < |files[l]| == |lastSeqs[l]|
    {
      files[l][i].largest < key || (files[l][i].largest == key && lastSeqs[l][i] > sequence)
    }

    /** Below level 0 files are sorted by internal keys. */
    ghost predicate SortedLookup(l: nat)
      requires l < |files| == |lastSeqs|
    {
      && SortedLevel(files[l]) && |files[l]| == |lastSeqs[l]| <= LEVEL_MAX_INDEX
      && forall i, k :: 0 <= i < k < |files[l]| && files[l][i].largest == files[l][k].largest ==>
           lastSeqs[l][i] > lastSeqs[l][k]
    }

    ghost predicate Valid() {
      && |files| == |lastSeqs| > 0 && |files[0]| == |lastSeqs[0]|
      && forall l :: 1 <= l < |files| ==> SortedLookup(l)
    }

    /** The file may hold a version of the key that the read can see. */
    ghost predicate Wanted(l: nat, i: nat)
      requires Valid() && l < |files| && i < |files[l]|
    {
      files[l][i].Contains(key) && (l > 0 ==> SortedLookup(l) && !Behind(l, i))
    }

    /** The wanted files of level l from place i on. */
    ghost function WantedFrom(l: nat, i: nat): seq<Pos>
      requires Valid() && l < |files| && i <= |files[l]|
      decreases |files[l]| - i
    {
      if i == |files[l]| then [] else (if Wanted(l, i) then [(l, i)] else []) + WantedFrom(l, i + 1)
    }

    /** Those of all levels from l down. */
    ghost function WantedBelow(l: nat): seq<Pos>
      requires Valid()
      decreases |files| - l
    {
      if l >= |files| then [] else WantedFrom(l, 0) + WantedBelow(l + 1)
    }

    lemma {:induction false} SkipUnwanted(l: nat, i: nat, j: nat)
      requires Valid() && l < |files| && i <= j <= |files[l]|
      requires forall x :: i <= x < j ==> !Wanted(l, x)
      ensures WantedFrom(l, i) == WantedFrom(l, j)
      decreases j - i
    {
      if i < j {
        SkipUnwanted(l, i + 1, j);
      }
    }
  }

  // ---------------------------------------------------------------- when a file is missed

  /** A file of level l ends at the key. */
  ghost predicate Ends(q: Lookup, l: nat)
    requires l < |q.files|
  {
    exists i :: 0 <= i < |q.files[l]| && q.files[l][i].largest == q.key
  }

  /** The last of the first n files that ends at the key. */
  ghost function LastEndBelow(q: Lookup, l: nat, n: nat): (r: nat)
    requires l < |q.files| && n <= |q.files[l]|
    requires exists i :: 0 <= i < n && q.files[l][i].largest == q.key
    ensures r < n && q.files[l][r].largest == q.key
    ensures forall i :: r < i < n ==> q.files[l][i].largest != q.key
  {
    if q.files[l][n - 1].largest == q.key then n - 1 else LastEndBelow(q, l, n - 1)
  }

  ghost function LastEnd(q: Lookup, l: nat): (r: nat)
    requires l < |q.files| && Ends(q, l)
    ensures r < |q.files[l]| && q.files[l][r].largest == q.key
    ensures forall i :: r < i < |q.files[l]| ==> q.files[l][i].largest != q.key
  {
    LastEndBelow(q, l, |q.files[l]|)
  }

  /** Where the search leaves a level with files that end at the key: at the first file past them, or at the
      last file of the level. */
  ghost function LastLook(q: Lookup, l: nat): (u: nat)
    requires l < |q.files| && Ends(q, l)
    ensures u < |q.files[l]|
  {
    if LastEnd(q, l) + 1 < |q.files[l]| then LastEnd(q, l) + 1 else LastEnd(q, l)
  }

  /** The bounds for the next level after that look. */
  ghost function NextLeft(q: Lookup, l: nat): nat
    requires l + 1 < |q.files| && Ends(q, l)
  {
    LeftBound(q.files[l], q.files[l + 1], LastLook(q, l), q.key)
  }

  ghost function NextRight(q: Lookup, l: nat): int
    requires l + 1 < |q.files| && Ends(q, l)
  {
    RightBound(q.files[l], q.files[l + 1], LastLook(q, l), q.key)
  }

  /** A level with files that end at the key is searched, unless the bounds from the level above it cross. */
  ghost predicate Searched(q: Lookup, l: nat)
    requires l < |q.files|
  {
    l <= 1 || !Ends(q, l - 1) || !Searched(q, l - 1) || NextLeft(q, l - 1) <= NextRight(q, l - 1)
  }

  ghost predicate WantedLeftOf(q: Lookup, l: nat, left: int)
    requires q.Valid() && l < |q.files|
  {
    exists j :: 0 <= j < left && j < |q.files[l]| && q.Wanted(l, j)
  }

  /** The left bound after the last look on level l is past a wanted file of the next level. */
  ghost predicate Misses(q: Lookup, l: nat)
    requires q.Valid()
  {
    1 <= l < |q.files| - 1 && Ends(q, l) && Searched(q, l) && WantedLeftOf(q, l + 1, NextLeft(q, l))
  }

  ghost predicate NoneMissed(q: Lookup, l: nat)
    requires q.Valid()
  {
    forall m :: 1 <= m < l ==> !Misses(q, m)
  }

  ghost predicate AnyMissed(q: Lookup)
    requires q.Valid()
  {
    exists m: nat :: Misses(q, m)
  }

  // ---------------------------------------------------------------- bounds

  ghost predicate InRange(q: Lookup, l: nat, left: int, right: int) {
    1 <= l < |q.files| ==>
      0 <= left <= |q.files[l]| && -1 <= right && if right == LEVEL_MAX_INDEX then left == 0 else right < |q.files[l]|
  }

  /** No level above missed a file, every wanted file of level l lies within the bounds, what is left of them
      does not reach past the key, and no file with the key is right of them. */
  ghost predicate BoundsOk(q: Lookup, l: nat, left: int, right: int) {
    && q.Valid() && NoneMissed(q, l) && InRange(q, l, left, right)
    && (1 <= l < |q.files| ==>
          && !WantedLeftOf(q, l, left)
          && ReachesAll(q.files[l], q.key, right) && PassedLeft(q.files[l], q.key, left)
          && (Ends(q, l) ==> (Searched(q, l) <==> left <= right)))
  }

  /** The first level below level 0 is searched in full. */
  lemma FirstIsWithin(q: Lookup)
    requires q.Valid()
    ensures BoundsOk(q, 1, 0, LEVEL_MAX_INDEX)
  {
    if 1 < |q.files| {
      assert q.SortedLookup(1);
    }
  }

  /** A level without files, or with bounds that leave none, has none wanted; the next is searched in full. */
  lemma SkippedLevel(q: Lookup, l: nat, left: int, right: int)
    requires l < |q.files| && BoundsOk(q, l, left, right) && (q.files[l] == [] || (l > 0 && left > right))
    ensures q.WantedBelow(l) == q.WantedBelow(l + 1) && BoundsOk(q, l + 1, 0, LEVEL_MAX_INDEX)
  {
    q.SkipUnwanted(l, 0, |q.files[l]|);
    if l + 1 < |q.files| {
      assert q.SortedLookup(l + 1);
    }
  }

  /** Without a file that ends at the key, no look hides anything. */
  lemma NoEndNoTie(q: Lookup, l: nat, u: nat)
    requires q.Valid() && 1 <= l < |q.files| - 1 && u < |q.files[l]| && SearchedTo(q.files[l], u, q.key) && !Ends(q, l)
    ensures !HidesLeft(q.files[l], q.files[l + 1], u, q.key) && !HidesRight(q.files[l], q.files[l + 1], u, q.key)
  {
    assert q.SortedLookup(l) && q.SortedLookup(l + 1);
  }

  lemma NoneMissedNext(q: Lookup, l: nat)
    requires q.Valid() && NoneMissed(q, l) && !Misses(q, l)
    ensures NoneMissed(q, l + 1)
  {
  }

  /** What any look gives that is not off on the right. */
  lemma BoundsAfterLook(q: Lookup, l: nat, u: nat, left: int, right: int)
    requires q.Valid() && 1 <= l < |q.files| - 1 && u < |q.files[l]| && SearchedTo(q.files[l], u, q.key)
    requires left == LeftBound(q.files[l], q.files[l + 1], u, q.key)
    requires right == RightBound(q.files[l], q.files[l + 1], u, q.key)
    requires !HidesRight(q.files[l], q.files[l + 1], u, q.key)
    ensures InRange(q, l + 1, left, right)
    ensures ReachesAll(q.files[l + 1], q.key, right) && PassedLeft(q.files[l + 1], q.key, left)
    ensures !HidesLeft(q.files[l], q.files[l + 1], u, q.key) ==> LeavesNone(q.files[l + 1], q.key, left)
  {
    assert q.SortedLookup(l) && q.SortedLookup(l + 1);
    BoundsAreExact(q.files[l], q.files[l + 1], u, q.key);
  }

  lemma EndIsWithin(q: Lookup, l: nat, left: int, right: int)
    requires q.Valid() && 1 <= l < |q.files| && Ends(q, l)
    requires LeavesNone(q.files[l], q.key, left) && ReachesAll(q.files[l], q.key, right)
    ensures left <= right
  {
    assert q.SortedLookup(l);
    assert q.files[l][LastEnd(q, l)].Contains(q.key);
  }

  lemma BoundsWithoutEnd(q: Lookup, l: nat, u: nat, left: int, right: int)
    requires q.Valid() && 1 <= l < |q.files| - 1 && u < |q.files[l]| && SearchedTo(q.files[l], u, q.key) && !Ends(q, l)
    requires left == LeftBound(q.files[l], q.files[l + 1], u, q.key)
    requires right == RightBound(q.files[l], q.files[l + 1], u, q.key)
    requires NoneMissed(q, l)
    ensures BoundsOk(q, l + 1, left, right)
  {
    NoEndNoTie(q, l, u);
    BoundsAfterLook(q, l, u, left, right);
    NoneMissedNext(q, l);
    if Ends(q, l + 1) {
      EndIsWithin(q, l + 1, left, right);
    }
  }

  /** At the last look the right bound is right. */
  lemma LastLookReaches(q: Lookup, l: nat)
    requires q.Valid() && 1 <= l < |q.files| - 1 && Ends(q, l)
    ensures SearchedTo(q.files[l], LastLook(q, l), q.key)
    ensures !HidesRight(q.files[l], q.files[l + 1], LastLook(q, l), q.key)
  {
    assert q.SortedLookup(l);
  }

  lemma BoundsAtEnd(q: Lookup, l: nat, left: int, right: int)
    requires q.Valid() && 1 <= l < |q.files| - 1 && Ends(q, l) && Searched(q, l) && NoneMissed(q, l) && !Misses(q, l)
    requires left == NextLeft(q, l) && right == NextRight(q, l)
    ensures BoundsOk(q, l + 1, left, right)
  {
    LastLookReaches(q, l);
    BoundsAfterLook(q, l, LastLook(q, l), left, right);
    NoneMissedNext(q, l);
  }

  // ---------------------------------------------------------------- where the search stands

  /** The search may look at file i of level l next, and has missed nothing so far. */
  ghost predicate MayLookAt(q: Lookup, l: nat, i: nat)
    requires q.Valid() && l < |q.files| && i < |q.files[l]|
  {
    l > 0 ==>
      && NoneMissed(q, l) && SearchedTo(q.files[l], i, q.key)
      && (q.files[l][i].largest < q.key ==> forall j :: i < j < |q.files[l]| ==> !q.files[l][j].Contains(q.key))
      && (Ends(q, l) ==> Searched(q, l) && q.key <= q.files[l][i].largest && i <= LastEnd(q, l) + 1)
  }

  /** The bounds with which the search leaves level l: past a wanted file, or right. */
  ghost predicate ExitsWith(q: Lookup, l: nat, left: int, right: int)
    requires q.Valid() && l < |q.files|
  {
    && InRange(q, l + 1, left, right)
    && if Misses(q, l) then WantedLeftOf(q, l + 1, left) else BoundsOk(q, l + 1, left, right)
  }

  /** The search stands at file i of level l, with bounds for the next level once this one is done, and
      the wanted files in todo are still to come. */
  ghost predicate Stands(q: Lookup, l: nat, i: nat, left: int, right: int, todo: seq<Pos>) {
    && q.Valid() && l < |q.files| && i <= |q.files[l]|
    && (l == 0 ==> left == 0 && right == LEVEL_MAX_INDEX)
    && (if i < |q.files[l]| then MayLookAt(q, l, i) else ExitsWith(q, l, left, right))
    && todo == q.WantedFrom(l, i) + q.WantedBelow(l + 1)
  }

  /** The search leaves level l after a look at file i. */
  predicate Leaves(q: Lookup, l: nat, i: nat)
    requires l < |q.files| && i < |q.files[l]|
  {
    q.files[l][i].largest != q.key || i + 1 == |q.files[l]|
  }

  /** Then it is the last look, and the bounds for the next level are right unless a file is missed. */
  lemma BoundsOnLeaving(q: Lookup, l: nat, i: nat, left: int, right: int)
    requires q.Valid() && 1 <= l < |q.files| && i < |q.files[l]| && MayLookAt(q, l, i) && Leaves(q, l, i)
    requires l + 1 < |q.files| ==> left == LeftBound(q.files[l], q.files[l + 1], i, q.key)
    requires l + 1 < |q.files| ==> right == RightBound(q.files[l], q.files[l + 1], i, q.key)
    ensures ExitsWith(q, l, left, right)
  {
    assert q.SortedLookup(l);
    if l + 1 < |q.files| {
      assert q.SortedLookup(l + 1);
      BoundsMeet(q.files[l], q.files[l + 1], i, q.key);
      if Ends(q, l) {
        assert i == LastLook(q, l) by {
          assert LastEnd(q, l) + 1 < |q.files[l]| ==> q.files[l][LastEnd(q, l) + 1].largest != q.key;
        }
        if !Misses(q, l) {
          BoundsAtEnd(q, l, left, right);
        }
      } else {
        BoundsWithoutEnd(q, l, i, left, right);
      }
    }
  }

  // ---------------------------------------------------------------- the binary search

  /** The first file from left up to right that is not behind the key, or right. */
  method FindFileInRange(q: Lookup, l: nat, left: nat, right: nat) returns (r: nat)
    requires q.Valid() && 1 <= l < |q.files| && q.SortedLookup(l) && left <= right < |q.files[l]|
    ensures left <= r <= right
    ensures forall i :: left <= i < r ==> q.Behind(l, i)
    ensures r < right ==> !q.Behind(l, r)
  {
    var lo, hi := left, right;
    while lo < hi
      invariant left <= lo <= hi <= right
      invariant forall i :: left <= i < lo ==> q.Behind(l, i)
      invariant hi < right ==> !q.Behind(l, hi)
    {
      var mid := (lo + hi) / 2;
      if q.Behind(l, mid) {
        forall i | left <= i <= mid
          ensures q.Behind(l, i)
        {
          assert i < mid ==> q.files[l][i].largest <= q.files[l][mid].smallest;
        }
        lo := mid + 1;
      } else {
        hi := mid;
      }
    }
    r := hi;
  }

  /** The search starts within the files that end at the key, or just behind them. */
  lemma StartIsInRun(q: Lookup, l: nat, lo: int, hi: int, i: nat)
    requires q.Valid() && 1 <= l < |q.files| && q.SortedLookup(l) && 0 <= lo <= i <= hi < |q.files[l]|
    requires ReachesAll(q.files[l], q.key, hi) && PassedLeft(q.files[l], q.key, lo) && Ends(q, l)
    requires (forall x :: lo <= x < i ==> q.Behind(l, x)) && (i < hi ==> !q.Behind(l, i))
    ensures q.key <= q.files[l][i].largest && i <= LastEnd(q, l) + 1
  {
    var e := LastEnd(q, l);
    assert q.files[l][e].Contains(q.key);
    assert e < hi ==> q.files[l][e].largest <= q.files[l][hi].smallest;
    if e + 1 < |q.files[l]| {
      assert q.files[l][e].largest <= q.files[l][e + 1].smallest && q.files[l][e + 1].largest != q.key;
      assert !q.Behind(l, e + 1);
    }
  }

  /** Where the binary search starts, nothing wanted has been passed. */
  lemma StartIsRight(q: Lookup, l: nat, lo: int, hi: int, i: nat)
    requires q.Valid() && 1 <= l < |q.files| && q.SortedLookup(l) && 0 <= lo <= i <= hi < |q.files[l]|
    requires !WantedLeftOf(q, l, lo) && ReachesAll(q.files[l], q.key, hi) && PassedLeft(q.files[l], q.key, lo)
    requires NoneMissed(q, l) && (Ends(q, l) ==> Searched(q, l))
    requires (forall x :: lo <= x < i ==> q.Behind(l, x)) && (i < hi ==> !q.Behind(l, i))
    ensures MayLookAt(q, l, i) && q.WantedFrom(l, 0) == q.WantedFrom(l, i)
  {
    assert i > lo ==> q.Behind(l, i - 1);
    if Ends(q, l) {
      StartIsInRun(q, l, lo, hi, i);
    }
    q.SkipUnwanted(l, 0, i);
  }

  /** The binary search within the bounds of a level. */
  method StartInLevel(q: Lookup, l: nat, left: int, right: int) returns (i: nat)
    requires q.Valid() && 1 <= l < |q.files| && q.files[l] != [] && left <= right && InRange(q, l, left, right)
    ensures left <= i < |q.files[l]|
    ensures BoundsOk(q, l, left, right) ==> MayLookAt(q, l, i) && q.WantedFrom(l, 0) == q.WantedFrom(l, i)
  {
    assert q.SortedLookup(l);
    var last := if right == LEVEL_MAX_INDEX then |q.files[l]| - 1 else right;
    i := left;
    if left < last {
      i := FindFileInRange(q, l, left, last);
    }
    if BoundsOk(q, l, left, right) {
      StartIsRight(q, l, left, last, i);
    }
  }

  /** Skips levels without files, and levels whose bounds leave none; the next one is searched in full. */
  method SkipLevels(q: Lookup, next: nat, left: int, right: int) returns (l: nat, left': int, right': int)
    requires q.Valid() && next <= |q.files| && InRange(q, next, left, right)
    ensures next <= l <= |q.files| && InRange(q, l, left', right')
    ensures l < |q.files| ==> q.files[l] != [] && (l > 0 ==> left' <= right')
    ensures l == next ==> left' == left && right' == right
    ensures next == 0 && q.files[0] != [] ==> l == 0
    ensures BoundsOk(q, next, left, right) ==> BoundsOk(q, l, left', right') && q.WantedBelow(l) == q.WantedBelow(next)
  {
    l, left', right' := next, left, right;
    ghost var ok := BoundsOk(q, next, left, right);
    while l < |q.files| && (q.files[l] == [] || (l > 0 && left' > right'))
      invariant next <= l <= |q.files| && InRange(q, l, left', right')
      invariant l == next ==> left' == left && right' == right
      invariant next == 0 && q.files[0] != [] ==> l == 0
      invariant ok ==> BoundsOk(q, l, left', right') && q.WantedBelow(l) == q.WantedBelow(next)
    {
      if ok {
        SkippedLevel(q, l, left', right');
      }
      left', right', l := 0, LEVEL_MAX_INDEX, l + 1;
    }
  }

  // ---------------------------------------------------------------- looking at files

  /** Whether the key ranges of files are looked at on a level. */
  predicate Filters(q: Lookup, l: nat)
    requires l < |q.files|
  {
    |q.files| > 1 || |q.files[l]| > 3
  }

  function Look(q: Lookup, l: nat, i: nat): Option<Pos>
    requires l < |q.files| && i < |q.files[l]|
  {
    if q.key < q.files[l][i].smallest || q.key > q.files[l][i].largest then None else Some((l, i))
  }

  ghost predicate MayVisit(q: Lookup, p: Pos) {
    At(q.files, p) && (Filters(q, p.0) ==> FileAt(q.files, p).Contains(q.key))
  }

  ghost predicate IsWanted(q: Lookup, p: Pos) {
    q.Valid() && At(q.files, p) && q.Wanted(p.0, p.1)
  }

  /** A look at a file gives it or nothing, and takes it off the list if it was wanted. */
  ghost predicate Takes(q: Lookup, todo: seq<Pos>, r: Option<Pos>, todo': seq<Pos>) {
    match r
    case None => todo' == todo
    case Some(p) => todo == (if IsWanted(q, p) then [p] else []) + todo'
  }

  lemma StandsAfterNewest(q: Lookup, i: nat, todo: seq<Pos>) returns (todo': seq<Pos>)
    requires Stands(q, 0, i, 0, LEVEL_MAX_INDEX, todo) && i < |q.files[0]|
    ensures Stands(q, 0, i + 1, 0, LEVEL_MAX_INDEX, todo')
    ensures Takes(q, todo, if Filters(q, 0) then Look(q, 0, i) else Some((0, i)), todo')
  {
    todo' := if q.Wanted(0, i) then todo[1..] else todo;
    FirstIsWithin(q);
  }

  /** No wanted file comes after one at which the search leaves the level. */
  lemma NoneAfter(q: Lookup, l: nat, i: nat)
    requires q.Valid() && 1 <= l < |q.files| && i < |q.files[l]| && MayLookAt(q, l, i) && Leaves(q, l, i)
    ensures q.WantedFrom(l, i) == if q.Wanted(l, i) then [(l, i)] else []
  {
    assert q.SortedLookup(l);
    var fs := q.files[l];
    forall j | i < j < |fs|
      ensures !q.Wanted(l, j)
    {
      assert fs[i].largest <= fs[j].smallest;
    }
    q.SkipUnwanted(l, i + 1, |fs|);
  }

  /** After a file that ends at the key comes the next one. */
  lemma StandsAfterEnd(q: Lookup, l: nat, i: nat, left: int, right: int, left': int, right': int, todo: seq<Pos>)
    returns (todo': seq<Pos>)
    requires Stands(q, l, i, left, right, todo) && 1 <= l && i < |q.files[l]| && q.files[l][i].largest == q.key
    requires i + 1 == |q.files[l]| ==> ExitsWith(q, l, left', right')
    ensures Stands(q, l, i + 1, left', right', todo') && Takes(q, todo, Look(q, l, i), todo')
  {
    todo' := q.WantedFrom(l, i + 1) + q.WantedBelow(l + 1);
    if i + 1 < |q.files[l]| {
      MayLookOn(q, l, i);
    }
    TakesOne(q, l, i, todo, todo');
  }

  lemma MayLookOn(q: Lookup, l: nat, i: nat)
    requires q.Valid() && 1 <= l < |q.files| && i + 1 < |q.files[l]| && q.files[l][i].largest == q.key
    requires MayLookAt(q, l, i)
    ensures MayLookAt(q, l, i + 1)
  {
    assert q.SortedLookup(l);
  }

  lemma TakesOne(q: Lookup, l: nat, i: nat, todo: seq<Pos>, todo': seq<Pos>)
    requires q.Valid() && 1 <= l < |q.files| && i < |q.files[l]|
    requires todo == q.WantedFrom(l, i) + q.WantedBelow(l + 1) && todo' == q.WantedFrom(l, i + 1) + q.WantedBelow(l + 1)
    requires q.files[l][i].largest == q.key
    ensures Takes(q, todo, Look(q, l, i), todo')
  {
    assert todo == (if q.Wanted(l, i) then [(l, i)] else []) + todo';
  }

  /** After any other file comes the next level. */
  lemma LevelIsDone(q: Lookup, l: nat, i: nat, left: int, right: int, todo: seq<Pos>)
    requires Stands(q, l, i, left, right, todo) && 1 <= l && i < |q.files[l]| && q.files[l][i].largest != q.key
    ensures Takes(q, todo, Look(q, l, i), q.WantedBelow(l + 1))
  {
    NoneAfter(q, l, i);
  }

  // ---------------------------------------------------------------- a search that has missed a file

  predicate Past(p: Pos, at: Pos) {
    p.0 < at.0 || (p.0 == at.0 && p.1 < at.1)
  }

  /** The search goes on, wherever it stands. */
  ghost predicate Roams(q: Lookup, l: nat, i: nat, left: int, right: int) {
    q.Valid() && 0 < l < |q.files| && i <= |q.files[l]| && (i == |q.files[l]| ==> InRange(q, l + 1, left, right))
  }

  /** Nothing was missed and todo is still to come, or a wanted file was missed and lies behind. */
  ghost predicate StateOk(q: Lookup, ended: bool, l: nat, i: nat, left: int, right: int,
          todo: seq<Pos>, lost: Option<Pos>)
  {
    match lost
    case None => if ended then q.Valid() && todo == [] && !AnyMissed(q) else Stands(q, l, i, left, right, todo)
    case Some(p) => IsWanted(q, p) && AnyMissed(q) && (!ended ==> Roams(q, l, i, left, right) && Past(p, (l, i)))
  }

  /** What a step of the search does: from at it moves forward to at', and gives r or nothing. */
  ghost predicate Moves(q: Lookup, at: Pos, todo: seq<Pos>, lost: Option<Pos>, r: Option<Pos>,
          ended': bool, at': Pos, todo': seq<Pos>, lost': Option<Pos>)
  {
    && (ended' || !Past(at', at))
    && (r.Some? ==> MayVisit(q, r.value) && !Past(r.value, at) && (ended' || Past(r.value, at')))
    && (lost.Some? ==> lost' == lost)
    && (lost.None? && lost'.Some? ==> !Past(lost'.value, at) && r != lost')
    && (lost'.None? ==> Takes(q, todo, r, todo'))
  }

  /** A step that gives nothing, followed by another. */
  lemma MovesOn(q: Lookup, at: Pos, todo: seq<Pos>, lost: Option<Pos>, at1: Pos, todo1: seq<Pos>, lost1: Option<Pos>,
          r: Option<Pos>, ended': bool, at': Pos, todo': seq<Pos>, lost': Option<Pos>)
    requires Moves(q, at, todo, lost, None, false, at1, todo1, lost1) && (lost1.Some? ==> Past(lost1.value, at1))
    requires Moves(q, at1, todo1, lost1, r, ended', at', todo', lost')
    ensures Moves(q, at, todo, lost, r, ended', at', todo', lost')
  {
  }

  lemma MissedFile(q: Lookup, l: nat, left: int) returns (p: Pos)
    requires q.Valid() && Misses(q, l) && WantedLeftOf(q, l + 1, left)
    ensures IsWanted(q, p) && p.0 == l + 1 && p.1 < left && AnyMissed(q)
  {
    var j :| 0 <= j < left && j < |q.files[l + 1]| && q.Wanted(l + 1, j);
    p := (l + 1, j);
  }

  /** With one level of few files the next file is taken without a look at its range, and there is no other end. */
  ghost predicate TakesAll(q: Lookup, ended: bool, l: nat, i: nat, r: Option<Pos>, ended': bool, l': nat, i': nat) {
    |q.files| == 1 && |q.files[0]| <= 3 && !ended && l == 0 ==>
      if i < |q.files[0]| then r == Some((0, i)) && !ended' && l' == 0 && i' == i + 1 else r.None? && ended'
  }

  class FilePicker {
    const q: Lookup
    const indexer: FileIndexer

    var currLevel: nat
    var index: nat                     // in the current level
    var left: int                      // bounds for the next level
    var right: int
    var searchEnded: bool
    ghost var todo: seq<Pos>           // the wanted files still to come
    ghost var lost: Option<Pos>        // a wanted file that was missed

    ghost predicate Config()
      reads indexer
    {
      q.Valid() && indexer.Describes(q.files)
    }

    ghost predicate Valid()
      reads this, indexer
    {
      Config() && StateOk(q, searchEnded, currLevel, index, left, right, todo, lost)
    }

    constructor (q: Lookup, indexer: FileIndexer)
      requires q.Valid() && indexer.Describes(q.files)
      ensures Valid() && lost.None? && todo == q.WantedBelow(0) && this.q == q && this.indexer == indexer
      ensures q.files[0] != [] ==> !searchEnded && currLevel == 0 && index == 0
    {
      this.q, this.indexer := q, indexer;
      currLevel, index, left, right, searchEnded, todo, lost := 0, 0, 0, LEVEL_MAX_INDEX, false, [], None;
      new;
      PrepareNextLevel(0);
    }

    /** Moves to the first file to look at, on this level or a deeper one. */
    method PrepareNextLevel(next: nat)
      requires Config() && next <= |q.files| && InRange(q, next, left, right)
      requires next == 0 ==> left == 0 && right == LEVEL_MAX_INDEX
      requires match lost
               case None => BoundsOk(q, next, left, right)
               case Some(p) =>
                 0 < next && IsWanted(q, p) && AnyMissed(q) && (p.0 < next || (p.0 == next && p.1 < left))
      modifies this`currLevel, this`index, this`left, this`right, this`searchEnded, this`todo
      ensures Valid() && (lost.None? ==> todo == q.WantedBelow(next))
      ensures searchEnded || next <= currLevel
      ensures next == 0 && q.files[0] != [] ==> !searchEnded && currLevel == 0 && index == 0
    {
      currLevel, left, right := SkipLevels(q, next, left, right);
      todo := q.WantedBelow(currLevel);
      index, searchEnded := 0, currLevel == |q.files|;
      if 0 < currLevel < |q.files| {
        index := StartInLevel(q, currLevel, left, right);
      }
    }

    /** Goes on to the next level. */
    method LeaveLevel()
      requires Config() && !searchEnded && currLevel < |q.files| && InRange(q, currLevel + 1, left, right)
      requires match lost
               case None => ExitsWith(q, currLevel, left, right)
               case Some(p) => IsWanted(q, p) && AnyMissed(q) && Past(p, (currLevel, index))
      modifies this
      ensures Valid() && (searchEnded || old(currLevel) < currLevel)
      ensures old(lost).Some? ==> lost == old(lost)
      ensures old(lost).None? && lost.Some? ==> lost.value.0 == old(currLevel) + 1
      ensures lost.None? ==> todo == q.WantedBelow(old(currLevel) + 1)
    {
      if lost.None? && Misses(q, currLevel) {
        ghost var p := MissedFile(q, currLevel, left);
        lost := Some(p);
      }
      PrepareNextLevel(currLevel + 1);
    }

    /** Looks at one file of level 0. */
    method TryNewest() returns (r: Option<Pos>)
      requires Valid() && !searchEnded && currLevel == 0 && index < |q.files[0]|
      modifies this`index, this`todo
      ensures Valid() && index == old(index) + 1 && lost.None?
      ensures !Filters(q, 0) ==> r == Some((0, old(index)))
      ensures Moves(q, (0, old(index)), old(todo), old(lost), r, searchEnded, (0, index), todo, lost)
    {
      r := if Filters(q, 0) then Look(q, 0, index) else Some((0, index));
      todo := StandsAfterNewest(q, index, todo);
      index := index + 1;
    }

    /** Sets the bounds for the next level after a look at file i of level l. */
    method NarrowBounds(l: nat, i: nat)
      requires Config() && 1 <= l < |q.files| && i < |q.files[l]|
      modifies this`left, this`right
      ensures InRange(q, l + 1, left, right)
      ensures MayLookAt(q, l, i) && Leaves(q, l, i) ==> ExitsWith(q, l, left, right)
    {
      assert q.SortedLookup(l);
      left, right := indexer.GetNextLevelIndex(q.files, l, i, q.key);
      if l + 1 < |q.files| {
        assert q.SortedLookup(l + 1);
        BoundsMeet(q.files[l], q.files[l + 1], i, q.key);
      }
      if MayLookAt(q, l, i) && Leaves(q, l, i) {
        BoundsOnLeaving(q, l, i, left, right);
      }
    }

    /** Goes on to the next file of the level. */
    method StepOn(ghost left0: int, ghost right0: int)
      requires Config() && !searchEnded && StateOk(q, false, currLevel, index, left0, right0, todo, lost)
      requires 0 < currLevel < |q.files| && index < |q.files[currLevel]| && InRange(q, currLevel + 1, left, right)
      requires q.key == q.files[currLevel][index].largest
      requires lost.None? && Leaves(q, currLevel, index) ==> ExitsWith(q, currLevel, left, right)
      modifies this`index, this`todo
      ensures Valid() && index == old(index) + 1
      ensures lost.None? ==> Takes(q, old(todo), Look(q, currLevel, old(index)), todo)
    {
      if lost.None? {
        todo := StandsAfterEnd(q, currLevel, index, left0, right0, left, right, todo);
      }
      index := index + 1;
    }

    /** Goes on to the next file, or to the next level when the key cannot be in a later file. */
    method LeaveFile(ghost left0: int, ghost right0: int)
      requires Config() && !searchEnded && StateOk(q, false, currLevel, index, left0, right0, todo, lost)
      requires 0 < currLevel < |q.files| && index < |q.files[currLevel]| && InRange(q, currLevel + 1, left, right)
      requires lost.None? && Leaves(q, currLevel, index) ==> ExitsWith(q, currLevel, left, right)
      modifies this
      ensures Valid()
      ensures searchEnded || old(currLevel) < currLevel || (currLevel == old(currLevel) && index == old(index) + 1)
      ensures old(lost).Some? ==> lost == old(lost)
      ensures old(lost).None? && lost.Some? ==> lost.value.0 == old(currLevel) + 1
      ensures lost.None? ==> Takes(q, old(todo), Look(q, old(currLevel), old(index)), todo)
    {
      if q.key != q.files[currLevel][index].largest {
        if lost.None? {
          LevelIsDone(q, currLevel, index, left0, right0, todo);
        }
        LeaveLevel();
      } else {
        StepOn(left0, right0);
      }
    }

    /** Looks at one file of a deeper level. */
    method TryDeeper() returns (r: Option<Pos>)
      requires Valid() && !searchEnded && 0 < currLevel && index < |q.files[currLevel]|
      modifies this
      ensures Valid()
      ensures searchEnded || old(currLevel) < currLevel || (currLevel == old(currLevel) && index == old(index) + 1)
      ensures
        Moves(q, (old(currLevel), old(index)), old(todo), old(lost), r, searchEnded, (currLevel, index), todo, lost)
    {
      ghost var left0, right0 := left, right;
      NarrowBounds(currLevel, index);
      r := Look(q, currLevel, index);
      LeaveFile(left0, right0);
    }

    /** One round of the search: a look at a file, or the way to the next level. */
    method Advance() returns (r: Option<Pos>)
      requires Valid() && !searchEnded
      modifies this
      ensures Valid()
      ensures TakesAll(q, old(searchEnded), old(currLevel), old(index), r, searchEnded, currLevel, index)
      ensures searchEnded || old(currLevel) < currLevel || (currLevel == old(currLevel) && old(index) < index)
      ensures
        Moves(q, (old(currLevel), old(index)), old(todo), old(lost), r, searchEnded, (currLevel, index), todo, lost)
    {
      if index == |q.files[currLevel]| {
        LeaveLevel();
        r := None;
      } else if currLevel == 0 {
        r := TryNewest();
      } else {
        r := TryDeeper();
      }
    }

    /** The next file to search; none when the search has ended. */
    method GetNextFile() returns (r: Option<Pos>)
      requires Valid()
      modifies this
      ensures Valid() && (r.None? ==> searchEnded)
      ensures TakesAll(q, old(searchEnded), old(currLevel), old(index), r, searchEnded, currLevel, index)
      ensures old(searchEnded) ==> r.None? && todo == old(todo) && lost == old(lost)
      ensures searchEnded || old(currLevel) < currLevel || (currLevel == old(currLevel) && old(index) < index)
      ensures !old(searchEnded) ==>
        Moves(q, (old(currLevel), old(index)), old(todo), old(lost), r, searchEnded, (currLevel, index), todo, lost)
    {
      if searchEnded {
        return None;
      }
      r := Advance();
      while r.None? && !searchEnded
        invariant Valid()
        invariant searchEnded || old(currLevel) < currLevel || (currLevel == old(currLevel) && old(index) < index)
        invariant Moves(q, (old(currLevel), old(index)), old(todo), old(lost), r,
                        searchEnded, (currLevel, index), todo, lost)
        invariant TakesAll(q, false, old(currLevel), old(index), r, searchEnded, currLevel, index)
        decreases !searchEnded, |q.files| - currLevel, if searchEnded then 0 else |q.files[currLevel]| - index
      {
        ghost var l, i, todo1, lost1 := currLevel, index, todo, lost;
        r := Advance();
        MovesOn(q, (old(currLevel), old(index)), old(todo), old(lost), (l, i), todo1, lost1,
                r, searchEnded, (currLevel, index), todo, lost);
      }
    }
  }

  // ---------------------------------------------------------------- the whole search

  lemma {:induction false} WantedFromHas(q: Lookup, l: nat, i: nat, p: Pos)
    requires q.Valid() && l < |q.files| && i <= |q.files[l]|
    ensures p in q.WantedFrom(l, i) <==> p.0 == l && i <= p.1 < |q.files[l]| && q.Wanted(l, p.1)
    decreases |q.files[l]| - i
  {
    if i < |q.files[l]| {
      WantedFromHas(q, l, i + 1, p);
    }
  }

  lemma {:induction false} WantedBelowHas(q: Lookup, l: nat, p: Pos)
    requires q.Valid()
    ensures p in q.WantedBelow(l) <==> l <= p.0 && At(q.files, p) && q.Wanted(p.0, p.1)
    decreases |q.files| - l
  {
    if l < |q.files| {
      WantedFromHas(q, l, 0, p);
      WantedBelowHas(q, l + 1, p);
    }
  }

  /** The wanted files among those visited, in the order of the visits. */
  ghost function WantedOf(q: Lookup, visited: seq<Pos>): (r: seq<Pos>)
    ensures forall p :: p in r ==> p in visited
  {
    if visited == [] then []
    else
      var n := |visited| - 1;
      WantedOf(q, visited[..n]) + if IsWanted(q, visited[n]) then [visited[n]] else []
  }

  /** Every file visited may be looked at, and lies behind. */
  ghost predicate AreBehind(q: Lookup, visited: seq<Pos>, ended: bool, at: Pos) {
    forall i :: 0 <= i < |visited| ==> MayVisit(q, visited[i]) && (ended || Past(visited[i], at))
  }

  /** All wanted files were visited but those in todo, or one that was missed was not visited. */
  ghost predicate Accounts(q: Lookup, visited: seq<Pos>, todo: seq<Pos>, lost: Option<Pos>)
    requires q.Valid()
  {
    match lost
    case None => WantedOf(q, visited) + todo == q.WantedBelow(0)
    case Some(p) => p !in visited
  }

  ghost predicate Visits(q: Lookup, visited: seq<Pos>, ended: bool, at: Pos, todo: seq<Pos>, lost: Option<Pos>) {
    q.Valid() && AreBehind(q, visited, ended, at) && Accounts(q, visited, todo, lost)
  }

  lemma WantedOfOneMore(q: Lookup, visited: seq<Pos>, p: Pos)
    ensures WantedOf(q, visited + [p]) == WantedOf(q, visited) + if IsWanted(q, p) then [p] else []
  {
    assert (visited + [p])[..|visited|] == visited;
  }

  /** The wanted files among those visited, and those still to come, stay the same in all. */
  lemma WantedStay(q: Lookup, visited: seq<Pos>, todo: seq<Pos>, r: Option<Pos>, todo': seq<Pos>)
    requires Takes(q, todo, r, todo')
    ensures WantedOf(q, if r.Some? then visited + [r.value] else visited) + todo' == WantedOf(q, visited) + todo
  {
    if r.Some? {
      WantedOfOneMore(q, visited, r.value);
    }
  }

  lemma StayBehind(q: Lookup, visited: seq<Pos>, at: Pos, r: Option<Pos>, ended': bool, at': Pos)
    requires AreBehind(q, visited, false, at) && (ended' || !Past(at', at))
    requires r.Some? ==> MayVisit(q, r.value) && (ended' || Past(r.value, at'))
    ensures AreBehind(q, if r.Some? then visited + [r.value] else visited, ended', at')
  {
  }

  lemma NotVisited(q: Lookup, visited: seq<Pos>, at: Pos, r: Option<Pos>, p: Pos)
    requires AreBehind(q, visited, false, at) && r != Some(p) && (p in visited ==> !Past(p, at))
    ensures p !in if r.Some? then visited + [r.value] else visited
  {
  }

  lemma VisitOne(q: Lookup, visited: seq<Pos>, at: Pos, todo: seq<Pos>, lost: Option<Pos>,
          r: Option<Pos>, ended': bool, at': Pos, todo': seq<Pos>, lost': Option<Pos>)
    requires Visits(q, visited, false, at, todo, lost) && (lost.Some? ==> Past(lost.value, at))
    requires Moves(q, at, todo, lost, r, ended', at', todo', lost')
    ensures Visits(q, if r.Some? then visited + [r.value] else visited, ended', at', todo', lost')
  {
    StayBehind(q, visited, at, r, ended', at');
    if lost'.None? {
      WantedStay(q, visited, todo, r, todo');
    } else {
      NotVisited(q, visited, at, r, lost'.value);
    }
  }

  /** What a whole search has visited. */
  ghost predicate IsSearch(q: Lookup, visited: seq<Pos>) {
    && q.Valid()
    && (forall i :: 0 <= i < |visited| ==> MayVisit(q, visited[i]))
    && (WantedOf(q, visited) == q.WantedBelow(0) <==> !AnyMissed(q))
    && (AnyMissed(q) ==> exists p :: IsWanted(q, p) && p !in visited)
  }

  lemma SearchIsDone(q: Lookup, visited: seq<Pos>, l: nat, i: nat, left: int, right: int, todo: seq<Pos>,
          lost: Option<Pos>)
    requires Visits(q, visited, true, (l, i), todo, lost) && StateOk(q, true, l, i, left, right, todo, lost)
    ensures IsSearch(q, visited)
    ensures |q.files| > 1 || |q.files[0]| > 3 ==>
      forall i :: 0 <= i < |visited| ==> At(q.files, visited[i]) && FileAt(q.files, visited[i]).Contains(q.key)
  {
    if lost.Some? {
      WantedBelowHas(q, 0, lost.value);
    }
  }

  /** The first n files of level 0. */
  function FirstOnZero(n: nat): (r: seq<Pos>)
    ensures |r| == n && forall i :: 0 <= i < n ==> r[i] == (0, i)
  {
    seq(n, i requires 0 <= i < n => (0, i))
  }

  /** With one level of few files, all of them were visited so far. */
  ghost predicate AllSoFar(q: Lookup, visited: seq<Pos>, ended: bool, l: nat, i: nat) {
    |q.files| == 1 && |q.files[0]| <= 3 ==>
      (ended || (l == 0 && i <= |q.files[0]|)) && visited == FirstOnZero(if ended then |q.files[0]| else i)
  }

  lemma AllNext(q: Lookup, visited: seq<Pos>, l: nat, i: nat, r: Option<Pos>, ended': bool, l': nat, i': nat)
    requires AllSoFar(q, visited, false, l, i) && TakesAll(q, false, l, i, r, ended', l', i')
    ensures AllSoFar(q, if r.Some? then visited + [r.value] else visited, ended', l', i')
  {
  }

  /** Runs the search to its end: it visits all wanted files, in the order of the levels, if and only if no
      level misses one, and where it looks at key ranges no file that does not contain the key. */
  method SearchAll(q: Lookup, indexer: FileIndexer) returns (visited: seq<Pos>)
    requires q.Valid() && indexer.Describes(q.files)
    ensures IsSearch(q, visited)
    ensures |q.files| > 1 || |q.files[0]| > 3 ==>
      forall i :: 0 <= i < |visited| ==> At(q.files, visited[i]) && FileAt(q.files, visited[i]).Contains(q.key)
    ensures |q.files| == 1 && |q.files[0]| <= 3 ==> visited == FirstOnZero(|q.files[0]|)
  {
    var picker := new FilePicker(q, indexer);
    visited := [];
    while !picker.searchEnded
      invariant picker.Valid() && picker.q == q && fresh(picker)
      invariant Visits(q, visited, picker.searchEnded, (picker.currLevel, picker.index), picker.todo, picker.lost)
      invariant AllSoFar(q, visited, picker.searchEnded, picker.currLevel, picker.index)
      decreases !picker.searchEnded, |q.files| - picker.currLevel,
        if picker.searchEnded then 0 else |q.files[picker.currLevel]| - picker.index
    {
      ghost var l, i, todo, lost := picker.currLevel, picker.index, picker.todo, picker.lost;
      var r := picker.GetNextFile();
      VisitOne(q, visited, (l, i), todo, lost,
               r, picker.searchEnded, (picker.currLevel, picker.index), picker.todo, picker.lost);
      AllNext(q, visited, l, i, r, picker.searchEnded, picker.currLevel, picker.index);
      if r.Some? {
        visited := visited + [r.value];
      }
    }
    SearchIsDone(q, visited, picker.currLevel, picker.index, picker.left, picker.right, picker.todo, picker.lost);
  }

  // ---------------------------------------------------------------- which files cause it

  /** Two files of the level start at the key, or two of them end at it and a third follows. */
  ghost predicate Crowded(fs: seq<Meta>, key: UserKey) {
    || (exists u :: 0 < u < |fs| && fs[u - 1].smallest == key == fs[u].smallest)
    || (exists u :: 0 < u < |fs| - 1 && fs[u - 1].largest == key == fs[u].largest)
  }

  /** On a searched level with files that end at the key, the left bound is past some file with the key
      exactly when the level is crowded and a file of the next level ends there. */
  lemma PassesExactly(q: Lookup, l: nat)
    requires q.Valid() && 1 <= l < |q.files| - 1 && Ends(q, l)
    ensures LeavesNone(q.files[l + 1], q.key, NextLeft(q, l)) <==>
      !(Crowded(q.files[l], q.key) && q.key in Largests(q.files[l + 1]))
  {
    var upper, lower, u, e := q.files[l], q.files[l + 1], LastLook(q, l), LastEnd(q, l);
    assert q.SortedLookup(l) && q.SortedLookup(l + 1);
    LeftIsExact(upper, lower, u, q.key);
    LastLookReaches(q, l);
    if HidesLeft(upper, lower, u, q.key) {
      HiddenIsCrowded(q, l);
    }
    if Crowded(upper, q.key) && q.key in Largests(lower) {
      CrowdedIsHidden(q, l);
    }
  }

  lemma HiddenIsCrowded(q: Lookup, l: nat)
    requires q.Valid() && 1 <= l < |q.files| - 1 && Ends(q, l)
    requires HidesLeft(q.files[l], q.files[l + 1], LastLook(q, l), q.key)
    ensures Crowded(q.files[l], q.key) && q.key in Largests(q.files[l + 1])
  {
    var upper, lower, u := q.files[l], q.files[l + 1], LastLook(q, l);
    assert q.SortedLookup(l) && q.SortedLookup(l + 1);
    LastLookReaches(q, l);
    if q.key < upper[u].smallest {
      var j :| 0 <= j < |lower| && lower[j].Contains(q.key) && EndsBefore(lower[j], upper, u - 1);
      assert Largests(lower)[j] in Largests(lower);
      assert upper[u - 2].largest == q.key == upper[u - 1].largest;
    } else {
      assert upper[u - 1].smallest == q.key == upper[u].smallest;
    }
  }

  /** The last look is at a file that starts at the key with the one in front, or past two that end there. */
  ghost predicate TiedLook(q: Lookup, l: nat)
    requires q.Valid() && 1 <= l < |q.files| - 1 && Ends(q, l)
  {
    var upper, u := q.files[l], LastLook(q, l);
    if q.key < upper[u].smallest then u > 1 && upper[u - 2].largest == q.key == upper[u - 1].largest
    else u > 0 && upper[u - 1].smallest == q.key == upper[u].smallest
  }

  lemma StartsAreTied(q: Lookup, l: nat, v: nat)
    requires q.Valid() && 1 <= l < |q.files| - 1 && Ends(q, l) && 0 < v < |q.files[l]|
    requires q.files[l][v - 1].smallest == q.key == q.files[l][v].smallest
    ensures TiedLook(q, l)
  {
    var upper, u, e := q.files[l], LastLook(q, l), LastEnd(q, l);
    assert q.SortedLookup(l);
    assert upper[v - 1].largest == q.key && v - 1 <= e;
    assert v < u ==> upper[v].largest <= upper[u].smallest && upper[v].largest <= upper[u - 1].smallest;
  }

  lemma EndsAreTied(q: Lookup, l: nat, v: nat)
    requires q.Valid() && 1 <= l < |q.files| - 1 && Ends(q, l) && 0 < v < |q.files[l]| - 1
    requires q.files[l][v - 1].largest == q.key == q.files[l][v].largest
    ensures TiedLook(q, l)
  {
    var upper := q.files[l];
    assert q.SortedLookup(l);
    assert upper[v].smallest == q.key;
    if upper[v + 1].smallest == q.key {
      StartsAreTied(q, l, v + 1);
    } else {
      assert forall w :: v < w < |upper| ==> upper[v + 1].smallest <= upper[w].largest;
      assert v == LastEnd(q, l);
    }
  }

  lemma TiedLookHides(q: Lookup, l: nat, j: nat)
    requires q.Valid() && 1 <= l < |q.files| - 1 && Ends(q, l) && TiedLook(q, l)
    requires j < |q.files[l + 1]| && q.files[l + 1][j].largest == q.key
    ensures HidesLeft(q.files[l], q.files[l + 1], LastLook(q, l), q.key)
  {
    var upper, lower, u := q.files[l], q.files[l + 1], LastLook(q, l);
    assert q.SortedLookup(l + 1);
    assert lower[j].Contains(q.key);
    if q.key < upper[u].smallest {
      assert EndsBefore(lower[j], upper, u - 1);
    } else {
      assert Largests(lower)[j] == q.key;
    }
  }

  lemma CrowdedIsHidden(q: Lookup, l: nat)
    requires q.Valid() && 1 <= l < |q.files| - 1 && Ends(q, l)
    requires Crowded(q.files[l], q.key) && q.key in Largests(q.files[l + 1])
    ensures HidesLeft(q.files[l], q.files[l + 1], LastLook(q, l), q.key)
  {
    var upper, lower := q.files[l], q.files[l + 1];
    if v: nat :| 0 < v < |upper| && upper[v - 1].smallest == q.key == upper[v].smallest {
      StartsAreTied(q, l, v);
    } else {
      var v: nat :| 0 < v < |upper| - 1 && upper[v - 1].largest == q.key == upper[v].largest;
      EndsAreTied(q, l, v);
    }
    var j: nat :| j < |lower| && Largests(lower)[j] == q.key;
    TiedLookHides(q, l, j);
  }

  /** Levels without ties miss nothing, whatever the key. */
  lemma NoTiesMissNothing(q: Lookup)
    requires q.Valid() && forall l :: 1 <= l < |q.files| - 1 ==> NoTies(q.files[l], q.files[l + 1])
    ensures !AnyMissed(q)
  {
    forall l: nat | 1 <= l < |q.files| - 1 && Ends(q, l)
      ensures !Misses(q, l)
    {
      assert q.SortedLookup(l) && q.SortedLookup(l + 1);
      LastLookReaches(q, l);
      NoTiesHideNothing(q.files[l], q.files[l + 1], LastLook(q, l), q.key);
      LeftIsExact(q.files[l], q.files[l + 1], LastLook(q, l), q.key);
    }
  }

  /** Nor do levels whose files share no key. */
  lemma DisjointMissesNothing(q: Lookup)
    requires q.Valid()
    requires forall l, i, k :: 1 <= l < |q.files| - 1 && 0 <= i < k < |q.files[l]| ==>
               q.files[l][i].largest < q.files[l][k].smallest
    ensures !AnyMissed(q)
  {
    forall l: nat | 1 <= l < |q.files| - 1
      ensures NoTies(q.files[l], q.files[l + 1])
    {
      assert q.SortedLookup(l);
      DisjointHasNoTies(q.files[l], q.files[l + 1]);
    }
    NoTiesMissNothing(q);
  }

  /** Three files that share a key, above one that ends there. */
  function TiedLookup(a: UserKey, k: UserKey, b: UserKey, c: UserKey, s: SeqNo): Lookup {
    Lookup([[], [Meta(a, k, 0, false), Meta(k, k, 0, false), Meta(k, b, 0, false)], [Meta(c, k, 0, false)]],
           [[], [3, 2, 1], [0]], k, s)
  }

  lemma TiedIsValid(a: UserKey, k: UserKey, b: UserKey, c: UserKey, s: SeqNo)
    requires a <= k <= b && c <= k
    ensures var q := TiedLookup(a, k, b, c, s);
      && q.Valid() && IsWanted(q, (2, 0)) && Ends(q, 1) && Crowded(q.files[1], k) && k in Largests(q.files[2])
  {
    var q := TiedLookup(a, k, b, c, s);
    assert q.SortedLookup(1) && q.SortedLookup(2);
    assert q.files[1][1].largest == k && Largests(q.files[2])[0] == k;
    assert q.files[1][2 - 1].smallest == k == q.files[1][2].smallest;
  }

  /** The search for that key misses the lower file, whatever the other ends and the number of the read. */
  lemma TieHidesAFile(a: UserKey, k: UserKey, b: UserKey, c: UserKey, s: SeqNo)
    requires a <= k <= b && c <= k
    ensures var q := TiedLookup(a, k, b, c, s);
      && q.Valid() && IsWanted(q, (2, 0)) && Misses(q, 1)
      && forall visited :: IsSearch(q, visited) ==> WantedOf(q, visited) != q.WantedBelow(0)
  {
    var q := TiedLookup(a, k, b, c, s);
    TiedIsValid(a, k, b, c, s);
    PassesExactly(q, 1);
    var left := NextLeft(q, 1);
    assert 0 < left && q.Wanted(2, 0);
    assert WantedLeftOf(q, 2, left);
    assert Misses(q, 1);
  }
}
