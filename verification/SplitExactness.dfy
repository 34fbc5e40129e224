/** Exactly when a compaction split into key ranges writes what the unsplit one writes. The flag that a
    key has been written is not raised for the first record of a run, and every range starts a run. */
module SplitExactness {
  import opened Format
  import opened CompactionFiles
  import opened CompactionRules
  import opened CompactionSafety
  import opened CompactionIteratorImpl
  import opened CompactionJob
  import opened Subcompaction
  import opened SubcompactionBounds

  ghost predicate Writes(fs: seq<Fate>) {
    exists i :: 0 <= i < |fs| && fs[i].Emits()
  }

  /** Among the first records, with these fates, one of key k was written. */
  ghost predicate HasWritten(es: seq<Entry>, past: seq<Fate>, k: UserKey)
    requires |past| <= |es|
  {
    exists j :: 0 <= j < |past| && past[j].Emits() && es[j].key == k
  }

  /** Record j, of key k, is the only one written. */
  ghost predicate IsOnlyWrite(es: seq<Entry>, past: seq<Fate>, j: nat, k: UserKey)
    requires |past| <= |es|
  {
    j < |past| && past[j].Emits() && es[j].key == k && forall m :: 0 <= m < |past| && m != j ==> !past[m].Emits()
  }

  /** A single deletion newer than the write-conflict snapshot, above a record that it cancels. */
  ghost predicate Cancels(env: Env, es: seq<Entry>, i: nat)
    requires i < |es|
  {
    && es[i].kind.SingleDeletion? && OlderSame(es, i) && !es[i + 1].kind.SingleDeletion?
    && SameView(env, es[i].seqno, es[i + 1].seqno) && env.writeConflictSnapshot < es[i].seqno
  }

  /** Record i keeps its pair in a run of its own, and loses it if anything was written before the run. */
  ghost predicate Divides(env: Env, es: seq<Entry>, fs: seq<Fate>, i: nat)
    requires |fs| == |es|
  {
    i < |es| && Cancels(env, es, i) && exists j :: IsOnlyWrite(es, fs[..i], j, es[i].key)
  }

  // ---------------------------------------------------------------- the flag

  lemma SameKeyBetween(es: seq<Entry>, j: nat, m: nat, i: nat)
    requires Sorted(es) && j < m < i < |es| && es[j].key == es[i].key
    ensures es[m].key == es[i].key
  {
    assert Precedes(es[j], es[m]) && Precedes(es[m], es[i]);
  }

  /** A key has been written exactly when the flag is up or there was a single record so far. */
  lemma WrittenIs(es: seq<Entry>, past: seq<Fate>)
    requires Sorted(es) && |past| < |es|
    ensures var k := es[|past|].key;
      && (HasWritten(es, past, k) <==> Outputted(es, past, k) || exists j :: IsOnlyWrite(es, past, j, k))
      && (Outputted(es, past, k) ==> !exists j :: IsOnlyWrite(es, past, j, k))
  {
    var k := es[|past|].key;
    if j :| 0 <= j < |past| && past[j].Emits() && es[j].key == k {
      if m :| 0 <= m < |past| && m != j && past[m].Emits() {
        if j < m {
          SameKeyBetween(es, j, m, |past|);
        }
      } else {
        assert IsOnlyWrite(es, past, j, k);
      }
    }
  }

  // ---------------------------------------------------------------- the fates of a range within the whole

  /** The keys of a come before those of b. */
  ghost predicate Apart(a: seq<Entry>, b: seq<Entry>) {
    forall i, j :: 0 <= i < |a| && 0 <= j < |b| ==> a[i].key < b[j].key
  }

  /** The fate of record i of b when something was written before b. */
  ghost function FateBelow(env: Env, b: seq<Entry>, fb: seq<Fate>, i: nat): Fate
    requires i < |b| == |fb|
  {
    if Divides(env, b, fb, i) then PairHead
    else if i > 0 && Divides(env, b, fb, i - 1) then PairTail
    else fb[i]
  }

  ghost function Below(env: Env, b: seq<Entry>, fb: seq<Fate>): (fs: seq<Fate>)
    requires |b| == |fb|
    ensures |fs| == |b| && forall i :: 0 <= i < |b| ==> fs[i] == FateBelow(env, b, fb, i)
  {
    seq(|b|, i requires 0 <= i < |b| => FateBelow(env, b, fb, i))
  }

  /** Both records of the pair are kept when b is a run of its own. */
  lemma DividedPair(env: Env, b: seq<Entry>, fb: seq<Fate>, d: nat)
    requires Sorted(b) && AreFates(env, b, fb) && Divides(env, b, fb, d)
    ensures fb[d].Retained? && d + 1 < |b| && fb[d + 1].Cleared?
  {
    WrittenIs(b, fb[..d]);
    assert Follows(env, b, fb, d) && Follows(env, b, fb, d + 1);
    if d > 0 {
      assert Follows(env, b, fb, d - 1);
    }
  }

  /** At most one record divides: the pair it keeps is written, too. */
  lemma DividesOnce(env: Env, b: seq<Entry>, fb: seq<Fate>, d: nat, i: nat)
    requires Sorted(b) && AreFates(env, b, fb) && Divides(env, b, fb, d) && d < i
    ensures !Divides(env, b, fb, i)
  {
    DividedPair(env, b, fb, d);
    var j: nat :| IsOnlyWrite(b, fb[..d], j, b[d].key);
    if i < |b| {
      forall m: nat
        ensures !IsOnlyWrite(b, fb[..i], m, b[i].key)
      {
        assert fb[..i][j] == fb[..d][j] && fb[..i][d] == fb[d];
      }
    }
  }

  /** A key written in a run of its own is written below others, too. */
  lemma WrittenBelow(env: Env, b: seq<Entry>, fb: seq<Fate>, i: nat, k: UserKey)
    requires Sorted(b) && AreFates(env, b, fb) && i <= |b|
    ensures HasWritten(b, Below(env, b, fb)[..i], k) <==> HasWritten(b, fb[..i], k)
  {
    var fs := Below(env, b, fb);
    forall j | 0 <= j < i && fs[j].Emits()
      ensures fb[j].Emits()
    {
    }
    if j :| 0 <= j < i && fb[..i][j].Emits() && b[j].key == k {
      var m := OtherWrite(env, b, fb, j);
      assert fs[..i][m].Emits();
    }
  }

  lemma OtherWrite(env: Env, b: seq<Entry>, fb: seq<Fate>, i: nat) returns (j: nat)
    requires Sorted(b) && AreFates(env, b, fb) && i < |b| && fb[i].Emits()
    ensures j <= i && b[j].key == b[i].key && Below(env, b, fb)[j].Emits()
  {
    j := i;
    if Divides(env, b, fb, i) || (i > 0 && Divides(env, b, fb, i - 1)) {
      var d := if Divides(env, b, fb, i) then i else i - 1;
      j :| IsOnlyWrite(b, fb[..d], j, b[d].key);
      if Divides(env, b, fb, j) {
        DividesOnce(env, b, fb, j, d);
      }
      if j > 0 && Divides(env, b, fb, j - 1) {
        DividesOnce(env, b, fb, j - 1, d);
      }
    }
  }

  lemma FlagBelow(env: Env, a: seq<Entry>, fa: seq<Fate>, b: seq<Entry>, past: seq<Fate>)
    requires Apart(a, b) && |fa| == |a| && |past| < |b|
    ensures var k := b[|past|].key;
      Outputted(a + b, fa + past, k) <==> Outputted(b, past, k) || (Writes(fa) && HasWritten(b, past, k))
  {
    var k, w, now := b[|past|].key, a + b, fa + past;
    if j0, j :| 0 <= j0 < j < |now| && now[j0].Emits() && now[j].Emits() && w[j].key == k {
      assert j >= |a| && w[j] == b[j - |a|] && past[j - |a|].Emits();
      assert j0 < |a| ==> fa[j0].Emits();
      assert j0 >= |a| ==> past[j0 - |a|].Emits();
    }
    if j0, j :| 0 <= j0 < j < |past| && past[j0].Emits() && past[j].Emits() && b[j].key == k {
      assert now[|a| + j0].Emits() && now[|a| + j].Emits() && w[|a| + j].key == k;
    }
    if Writes(fa) && HasWritten(b, past, k) {
      var j0 :| 0 <= j0 < |fa| && fa[j0].Emits();
      var j :| 0 <= j < |past| && past[j].Emits() && b[j].key == k;
      assert now[j0].Emits() && now[|a| + j].Emits() && w[|a| + j].key == k;
    }
  }

  /** What a fate decides about the next record. */
  function Claim(f: Fate): Option<Fate> {
    if f.PairHead? then Some(PairTail) else if f.Retained? then Some(Cleared) else None
  }

  /** Without the flag, a record is judged by its neighbours. */
  lemma DecideBelow(env: Env, a: seq<Entry>, fa: seq<Fate>, b: seq<Entry>, past: seq<Fate>, alone: seq<Fate>)
    requires Apart(a, b) && AreFates(env, a, fa) && |past| == |alone| < |b|
    requires past != [] ==> Claim(past[|past| - 1]) == Claim(alone[|past| - 1])
    requires Cancels(env, b, |past|) ==> (Outputted(a + b, fa + past, b[|past|].key) <==>
      Outputted(b, alone, b[|past|].key))
    ensures Decide(env, a + b, fa + past) == Decide(env, b, alone)
  {
    var i := |past|;
    assert (a + b)[|a| + i] == b[i];
    if i > 0 {
      assert (a + b)[|a| + i - 1] == b[i - 1];
    } else if a != [] {
      assert Follows(env, a, fa, |a| - 1);
    }
    if i + 1 < |b| {
      assert (a + b)[|a| + i + 1] == b[i + 1];
    }
  }

  /** Nothing written before b: its fates are those of a run of its own. */
  lemma FollowsNothing(env: Env, a: seq<Entry>, fa: seq<Fate>, b: seq<Entry>, fb: seq<Fate>, i: nat)
    requires Apart(a, b) && AreFates(env, a, fa) && AreFates(env, b, fb) && !Writes(fa) && i < |b|
    ensures Follows(env, a + b, fa + fb, |a| + i)
  {
    assert (fa + fb)[..|a| + i] == fa + fb[..i];
    FlagBelow(env, a, fa, b, fb[..i]);
    DecideBelow(env, a, fa, b, fb[..i], fb[..i]);
    assert Follows(env, b, fb, i);
  }

  /** The record before one that cancels has no claim on it. */
  lemma NoClaim(env: Env, b: seq<Entry>, fb: seq<Fate>, i: nat)
    requires AreFates(env, b, fb) && 0 < i < |b| && b[i].kind.SingleDeletion?
    ensures Claim(fb[i - 1]).None? && !Divides(env, b, fb, i - 1)
  {
    assert Follows(env, b, fb, i - 1);
  }

  lemma FlagDivided(env: Env, a: seq<Entry>, fa: seq<Fate>, b: seq<Entry>, fb: seq<Fate>, i: nat)
    requires Sorted(b) && Apart(a, b) && |fa| == |a| && AreFates(env, b, fb) && Writes(fa) && Divides(env, b, fb, i)
    ensures Outputted(a + b, fa + Below(env, b, fb)[..i], b[i].key)
  {
    WrittenIs(b, fb[..i]);
    WrittenBelow(env, b, fb, i, b[i].key);
    FlagBelow(env, a, fa, b, Below(env, b, fb)[..i]);
  }

  lemma FollowsDivided(env: Env, a: seq<Entry>, fa: seq<Fate>, b: seq<Entry>, fb: seq<Fate>, i: nat)
    requires Sorted(b) && Apart(a, b) && AreFates(env, a, fa) && AreFates(env, b, fb) && Writes(fa)
    requires Divides(env, b, fb, i)
    ensures Follows(env, a + b, fa + Below(env, b, fb), |a| + i)
  {
    var past := Below(env, b, fb)[..i];
    assert (fa + Below(env, b, fb))[..|a| + i] == fa + past;
    FlagDivided(env, a, fa, b, fb, i);
    NoClaim(env, b, fb, i);
    assert (a + b)[|a| + i] == b[i] && (a + b)[|a| + i + 1] == b[i + 1];
  }

  lemma FlagPlain(env: Env, a: seq<Entry>, fa: seq<Fate>, b: seq<Entry>, fb: seq<Fate>, i: nat)
    requires Sorted(b) && Apart(a, b) && |fa| == |a| && AreFates(env, b, fb) && Writes(fa) && i < |b|
    requires Cancels(env, b, i) && !Divides(env, b, fb, i)
    ensures Outputted(a + b, fa + Below(env, b, fb)[..i], b[i].key) <==> Outputted(b, fb[..i], b[i].key)
  {
    WrittenIs(b, fb[..i]);
    WrittenBelow(env, b, fb, i, b[i].key);
    FlagBelow(env, a, fa, b, Below(env, b, fb)[..i]);
  }

  lemma SameClaim(env: Env, b: seq<Entry>, fb: seq<Fate>, i: nat)
    requires Sorted(b) && AreFates(env, b, fb) && i < |b| && !Divides(env, b, fb, i)
    ensures Claim(Below(env, b, fb)[i]) == Claim(fb[i])
  {
    if i > 0 && Divides(env, b, fb, i - 1) {
      DividedPair(env, b, fb, i - 1);
    }
  }

  lemma FollowsPlain(env: Env, a: seq<Entry>, fa: seq<Fate>, b: seq<Entry>, fb: seq<Fate>, i: nat)
    requires Sorted(b) && Apart(a, b) && AreFates(env, a, fa) && AreFates(env, b, fb) && Writes(fa) && i < |b|
    requires !Divides(env, b, fb, i) && (i > 0 ==> !Divides(env, b, fb, i - 1))
    ensures Follows(env, a + b, fa + Below(env, b, fb), |a| + i)
  {
    var past := Below(env, b, fb)[..i];
    assert (fa + Below(env, b, fb))[..|a| + i] == fa + past;
    if Cancels(env, b, i) {
      FlagPlain(env, a, fa, b, fb, i);
    }
    if i > 0 {
      SameClaim(env, b, fb, i - 1);
    }
    DecideBelow(env, a, fa, b, past, fb[..i]);
    assert Follows(env, b, fb, i);
  }

  lemma FollowsAbove(env: Env, a: seq<Entry>, fa: seq<Fate>, b: seq<Entry>, fs: seq<Fate>, i: nat)
    requires Apart(a, b) && AreFates(env, a, fa) && |fs| == |b| && i < |a|
    ensures Follows(env, a + b, fa + fs, i)
  {
    var past := fa[..i];
    assert (fa + fs)[..i] == past;
    assert Outputted(a + b, past, a[i].key) <==> Outputted(a, past, a[i].key);
    assert Follows(env, a, fa, i);
  }

  ghost function JoinedFates(env: Env, fa: seq<Fate>, b: seq<Entry>, fb: seq<Fate>): (fs: seq<Fate>)
    requires |fb| == |b|
    ensures |fs| == |fa| + |fb|
  {
    fa + if Writes(fa) then Below(env, b, fb) else fb
  }

  /** The fates of two runs of their own give those of the whole. */
  lemma JoinedFatesAreFates(env: Env, a: seq<Entry>, fa: seq<Fate>, b: seq<Entry>, fb: seq<Fate>)
    requires Sorted(b) && Apart(a, b) && AreFates(env, a, fa) && AreFates(env, b, fb)
    ensures AreFates(env, a + b, JoinedFates(env, fa, b, fb))
  {
    var fs := JoinedFates(env, fa, b, fb);
    forall n | 0 <= n < |a + b|
      ensures Follows(env, a + b, fs, n)
    {
      var i := n - |a|;
      if i < 0 {
        FollowsAbove(env, a, fa, b, fs[|a|..], n);
        assert fa + fs[|a|..] == fs;
      } else if !Writes(fa) {
        FollowsNothing(env, a, fa, b, fb, i);
      } else if Divides(env, b, fb, i) {
        FollowsDivided(env, a, fa, b, fb, i);
      } else if i > 0 && Divides(env, b, fb, i - 1) {
        assert fs[..n][n - 1].PairHead?;
      } else {
        FollowsPlain(env, a, fa, b, fb, i);
      }
    }
  }

  // ---------------------------------------------------------------- the records written

  lemma AppendSelects(env: Env, a: seq<Entry>, fa: seq<Fate>, b: seq<Entry>, fs: seq<Fate>, n: nat)
    requires |fa| == |a| && |fs| == |b| && n < |b|
    ensures Selected(env, a + b, fa + fs, |a| + n + 1) ==
      Selected(env, a + b, fa + fs, |a| + n) + Emitted(env, b[n], fs[n])
  {
    assert (a + b)[|a| + n] == b[n] && (fa + fs)[|a| + n] == fs[n];
  }

  lemma JoinNext(out: seq<Entry>, more: seq<Entry>, all: seq<Entry>, next: seq<Entry>)
    requires all == out + more
    ensures all + next == out + (more + next)
  {
  }

  /** The first n fates of b after those of a select what a selects and then what b does. */
  ghost predicate SelectsBoth(env: Env, a: seq<Entry>, fa: seq<Fate>, b: seq<Entry>, fs: seq<Fate>, n: nat) {
    && |fa| == |a| && |fs| == |b| && n <= |b|
    && Selected(env, a + b, fa + fs, |a| + n) == Selected(env, a, fa, |a|) + Selected(env, b, fs, n)
  }

  lemma SelectsBothNext(env: Env, a: seq<Entry>, fa: seq<Fate>, b: seq<Entry>, fs: seq<Fate>, n: nat)
    requires n < |b| && SelectsBoth(env, a, fa, b, fs, n)
    ensures SelectsBoth(env, a, fa, b, fs, n + 1)
  {
    var next := Emitted(env, b[n], fs[n]);
    var out, more, all := Selected(env, a, fa, |a|), Selected(env, b, fs, n), Selected(env, a + b, fa + fs, |a| + n);
    AppendSelects(env, a, fa, b, fs, n);
    JoinNext(out, more, all, next);
    assert Selected(env, b, fs, n + 1) == more + next;
  }

  lemma {:induction false} SelectedOfAppend(env: Env, a: seq<Entry>, fa: seq<Fate>, b: seq<Entry>, fs: seq<Fate>,
          n: nat)
    requires |fa| == |a| && |fs| == |b| && n <= |b|
    ensures SelectsBoth(env, a, fa, b, fs, n)
  {
    if n == 0 {
      SelectedOfPrefix(env, a, fa, b, fs, |a|);
    } else {
      SelectedOfAppend(env, a, fa, b, fs, n - 1);
      SelectsBothNext(env, a, fa, b, fs, n - 1);
    }
  }

  lemma {:induction false} SelectedOfPrefix(env: Env, a: seq<Entry>, fa: seq<Fate>, b: seq<Entry>, fs: seq<Fate>,
          n: nat)
    requires |fa| == |a| && |fs| == |b| && n <= |a|
    ensures Selected(env, a + b, fa + fs, n) == Selected(env, a, fa, n)
  {
    if n > 0 {
      SelectedOfPrefix(env, a, fa, b, fs, n - 1);
      assert (a + b)[n - 1] == a[n - 1] && (fa + fs)[n - 1] == fa[n - 1];
    }
  }

  function WithoutPair(out: seq<Entry>, p: nat): seq<Entry>
    requires p + 2 <= |out|
  {
    out[..p] + out[p + 2..]
  }

  lemma OthersAgree(env: Env, b: seq<Entry>, fb: seq<Fate>, d: nat, i: nat)
    requires Sorted(b) && AreFates(env, b, fb) && Divides(env, b, fb, d) && i < |b| && i != d && i != d + 1
    ensures Below(env, b, fb)[i] == fb[i]
  {
    if Divides(env, b, fb, i) {
      DividesOnce(env, b, fb, if i < d then i else d, if i < d then d else i);
    }
    if i > 0 && Divides(env, b, fb, i - 1) {
      DividesOnce(env, b, fb, if i < d then i - 1 else d, if i < d then d else i - 1);
    }
  }

  lemma SelectedAtPair(env: Env, b: seq<Entry>, fb: seq<Fate>, d: nat)
    requires Sorted(b) && AreFates(env, b, fb) && Divides(env, b, fb, d)
    ensures |Selected(env, b, fb, d + 2)| == |Selected(env, b, fb, d)| + 2
    ensures Selected(env, b, fb, d) == Selected(env, b, fb, d + 2)[..|Selected(env, b, fb, d)|]
    ensures Selected(env, b, Below(env, b, fb), d + 2) == Selected(env, b, fb, d)
  {
    var fs := Below(env, b, fb);
    DividedPair(env, b, fb, d);
    forall i | 0 <= i < d
      ensures fs[i] == fb[i]
    {
      OthersAgree(env, b, fb, d, i);
    }
    SelectedAgree(env, b, fs, fb, d);
    assert fs[d].PairHead? && !Divides(env, b, fb, d + 1) && fs[d + 1].PairTail?;
    assert Selected(env, b, fs, d + 1) == Selected(env, b, fs, d);
    assert Selected(env, b, fb, d + 1) == Selected(env, b, fb, d) + [Rewritten(env, b[d], fb[d])];
  }

  /** Below others, the run loses exactly the pair. */
  ghost predicate LosesPair(env: Env, b: seq<Entry>, fb: seq<Fate>, p: nat, n: nat)
    requires n <= |b| == |fb|
  {
    && p + 2 <= |Selected(env, b, fb, n)|
    && Selected(env, b, Below(env, b, fb), n) == WithoutPair(Selected(env, b, fb, n), p)
  }

  lemma LosesPairNext(env: Env, b: seq<Entry>, fb: seq<Fate>, p: nat, n: nat)
    requires n < |b| == |fb| && LosesPair(env, b, fb, p, n) && Below(env, b, fb)[n] == fb[n]
    ensures LosesPair(env, b, fb, p, n + 1)
  {
    var out, more := Selected(env, b, fb, n), Emitted(env, b[n], fb[n]);
    assert (out + more)[..p] == out[..p] && (out + more)[p + 2..] == out[p + 2..] + more;
    assert Selected(env, b, Below(env, b, fb), n + 1) == Selected(env, b, Below(env, b, fb), n) + more;
  }

  lemma {:induction false} LosesPairOn(env: Env, b: seq<Entry>, fb: seq<Fate>, p: nat, m: nat, n: nat)
    requires m <= n <= |b| == |fb| && LosesPair(env, b, fb, p, m)
    requires forall i :: m <= i < n ==> Below(env, b, fb)[i] == fb[i]
    ensures LosesPair(env, b, fb, p, n)
    decreases n
  {
    if m < n {
      LosesPairOn(env, b, fb, p, m, n - 1);
      LosesPairNext(env, b, fb, p, n - 1);
    }
  }

  lemma LosesAtPair(env: Env, b: seq<Entry>, fb: seq<Fate>, d: nat)
    requires Sorted(b) && AreFates(env, b, fb) && Divides(env, b, fb, d)
    ensures LosesPair(env, b, fb, |Selected(env, b, fb, d)|, d + 2)
  {
    SelectedAtPair(env, b, fb, d);
    var out := Selected(env, b, fb, d + 2);
    assert WithoutPair(out, |out| - 2) == out[..|out| - 2];
  }

  lemma OlderAgree(env: Env, b: seq<Entry>, fb: seq<Fate>, d: nat, n: nat)
    requires Sorted(b) && AreFates(env, b, fb) && Divides(env, b, fb, d) && d + 2 <= n <= |b|
    ensures forall i :: d + 2 <= i < n ==> Below(env, b, fb)[i] == fb[i]
  {
    forall i | d + 2 <= i < n
      ensures Below(env, b, fb)[i] == fb[i]
    {
      OthersAgree(env, b, fb, d, i);
    }
  }

  lemma SelectedBelow(env: Env, b: seq<Entry>, fb: seq<Fate>, d: nat, n: nat)
    requires Sorted(b) && AreFates(env, b, fb) && Divides(env, b, fb, d) && d + 2 <= n <= |b|
    ensures LosesPair(env, b, fb, |Selected(env, b, fb, d)|, n)
  {
    LosesAtPair(env, b, fb, d);
    OlderAgree(env, b, fb, d, n);
    LosesPairOn(env, b, fb, |Selected(env, b, fb, d)|, d + 2, n);
  }

  // ---------------------------------------------------------------- two runs and their whole

  /** Run b keeps a pair that it would lose if anything were written before it. */
  ghost predicate Divided(env: Env, b: seq<Entry>) {
    exists d :: Divides(env, b, Fates(env, b, |b|), d)
  }

  ghost function Output(env: Env, es: seq<Entry>): seq<Entry> {
    Compacted(env, es, |es|)
  }

  lemma OutputSelects(env: Env, es: seq<Entry>, fs: seq<Fate>)
    requires AreFates(env, es, fs)
    ensures Output(env, es) == Selected(env, es, fs, |es|)
  {
    SelectedIsCompacted(env, es, fs, |es|);
  }

  lemma {:induction false} WritesIsSelected(env: Env, es: seq<Entry>, fs: seq<Fate>, n: nat)
    requires n <= |es| == |fs|
    ensures (exists i :: 0 <= i < n && fs[i].Emits()) <==> Selected(env, es, fs, n) != []
  {
    if n > 0 {
      WritesIsSelected(env, es, fs, n - 1);
    }
  }

  /** What b leaves in the output below out. */
  ghost function SelectedAfter(env: Env, out: seq<Entry>, b: seq<Entry>, fb: seq<Fate>): seq<Entry>
    requires |fb| == |b|
  {
    Selected(env, b, if out == [] then fb else Below(env, b, fb), |b|)
  }

  lemma SelectedWhole(env: Env, a: seq<Entry>, fa: seq<Fate>, b: seq<Entry>, fb: seq<Fate>)
    requires Sorted(b) && Apart(a, b) && AreFates(env, a, fa) && AreFates(env, b, fb)
    ensures AreFates(env, a + b, JoinedFates(env, fa, b, fb))
    ensures var out := Selected(env, a, fa, |a|);
      Selected(env, a + b, JoinedFates(env, fa, b, fb), |a + b|) == out + SelectedAfter(env, out, b, fb)
  {
    JoinedFatesAreFates(env, a, fa, b, fb);
    SelectedOfAppend(env, a, fa, b, if Writes(fa) then Below(env, b, fb) else fb, |b|);
    WritesIsSelected(env, a, fa, |a|);
  }

  lemma OutputOfWhole(env: Env, a: seq<Entry>, b: seq<Entry>, fb: seq<Fate>)
    requires Sorted(b) && Apart(a, b) && AreFates(env, b, fb)
    ensures Output(env, a + b) == Output(env, a) + SelectedAfter(env, Output(env, a), b, fb)
  {
    var fa := Fates(env, a, |a|);
    FatesAreFates(env, a);
    SelectedWhole(env, a, fa, b, fb);
    OutputSelects(env, a, fa);
    OutputSelects(env, a + b, JoinedFates(env, fa, b, fb));
  }

  /** What the run writes after out, in terms of its own output. */
  lemma AfterIs(env: Env, out: seq<Entry>, b: seq<Entry>, fb: seq<Fate>) returns (p: nat)
    requires Sorted(b) && AreFates(env, b, fb)
    ensures out == [] || !(exists d :: Divides(env, b, fb, d)) ==>
      SelectedAfter(env, out, b, fb) == Selected(env, b, fb, |b|)
    ensures out != [] && (exists d :: Divides(env, b, fb, d)) ==>
      p + 2 <= |Selected(env, b, fb, |b|)| &&
          SelectedAfter(env, out, b, fb) == WithoutPair(Selected(env, b, fb, |b|), p)
  {
    p := 0;
    if d: nat :| Divides(env, b, fb, d) {
      SelectedBelow(env, b, fb, d, |b|);
      p := |Selected(env, b, fb, d)|;
    } else {
      assert Below(env, b, fb) == fb;
    }
  }

  /** The whole writes what the two runs write, less the pair if there is one. */
  lemma WholeIsTwoRuns(env: Env, a: seq<Entry>, b: seq<Entry>) returns (p: nat)
    requires Sorted(b) && Apart(a, b)
    ensures Output(env, a) == [] || !Divided(env, b) ==> Output(env, a + b) == Output(env, a) + Output(env, b)
    ensures Output(env, a) != [] && Divided(env, b) ==>
      && p + 2 <= |Output(env, b)|
      && Output(env, a + b) == Output(env, a) + WithoutPair(Output(env, b), p)
  {
    var fb := Fates(env, b, |b|);
    FatesAreFates(env, b);
    OutputOfWhole(env, a, b, fb);
    OutputSelects(env, b, fb);
    p := AfterIs(env, Output(env, a), b, fb);
  }

  // ---------------------------------------------------------------- any number of runs

  /** Some earlier piece wrote a record, and this one keeps a pair that it would then lose. */
  ghost predicate DividedAt(env: Env, parts: seq<seq<Entry>>, outs: seq<seq<Entry>>, n: nat)
    requires n < |parts| == |outs|
  {
    Joined(outs, n) != [] && Divided(env, parts[n])
  }

  ghost predicate Undivided(env: Env, parts: seq<seq<Entry>>, outs: seq<seq<Entry>>, n: nat)
    requires n <= |parts| == |outs|
  {
    forall m :: 0 <= m < n ==> !DividedAt(env, parts, outs, m)
  }

  /** The whole, compared with the outputs of its pieces. */
  ghost predicate Compares(whole: seq<Entry>, joined: seq<Entry>, exact: bool) {
    && (exact ==> whole == joined)
    && (!exact ==> |whole| < |joined|)
    && (whole == [] <==> joined == [])
  }

  lemma ComparesNext(env: Env, a: seq<Entry>, b: seq<Entry>, joined: seq<Entry>, exact: bool)
    requires Sorted(b) && Apart(a, b) && Compares(Output(env, a), joined, exact)
    ensures Compares(Output(env, a + b), joined + Output(env, b), exact && (joined == [] || !Divided(env, b)))
  {
    var p := WholeIsTwoRuns(env, a, b);
  }

  lemma PartIsApart(parts: seq<seq<Entry>>, boundaries: seq<UserKey>, n: nat)
    requires AreCut(parts, boundaries) && StrictlyIncreasing(boundaries) && n < |parts|
    ensures Apart(Joined(parts, n), parts[n])
  {
    if n > 0 {
      JoinedIsBefore(parts, boundaries, n);
    }
  }

  /** Sorted pieces cut at the boundaries, and what each compacts to. */
  ghost predicate AreRuns(env: Env, parts: seq<seq<Entry>>, outs: seq<seq<Entry>>, boundaries: seq<UserKey>) {
    && AreCut(parts, boundaries) && StrictlyIncreasing(boundaries) && AreOutputs(env, parts, outs)
    && forall i :: 0 <= i < |parts| ==> Sorted(parts[i])
  }

  /** After n pieces: the output of the whole, compared with the joined outputs. */
  ghost predicate ComparesAt(env: Env, parts: seq<seq<Entry>>, outs: seq<seq<Entry>>, n: nat) {
    && n <= |parts| == |outs|
    && Compares(Output(env, Joined(parts, n)), Joined(outs, n), Undivided(env, parts, outs, n))
  }

  lemma ComparesAtNext(env: Env, parts: seq<seq<Entry>>, outs: seq<seq<Entry>>, boundaries: seq<UserKey>, n: nat)
    requires AreRuns(env, parts, outs, boundaries) && n < |parts| && ComparesAt(env, parts, outs, n)
    ensures ComparesAt(env, parts, outs, n + 1)
  {
    PartIsApart(parts, boundaries, n);
    ComparesNext(env, Joined(parts, n), parts[n], Joined(outs, n), Undivided(env, parts, outs, n));
    assert IsOutput(env, parts[n], outs[n]);
    assert Undivided(env, parts, outs, n + 1) <==> Undivided(env, parts, outs, n) && !DividedAt(env, parts, outs, n);
  }

  lemma {:induction false} PartsCompare(env: Env, parts: seq<seq<Entry>>, outs: seq<seq<Entry>>,
          boundaries: seq<UserKey>, n: nat)
    requires AreRuns(env, parts, outs, boundaries) && n <= |parts|
    ensures ComparesAt(env, parts, outs, n)
  {
    if n > 0 {
      PartsCompare(env, parts, outs, boundaries, n - 1);
      ComparesAtNext(env, parts, outs, boundaries, n - 1);
    }
  }

  /** The outputs of the pieces join to the output of the unsplit compaction exactly when no piece, after
      something was written for an earlier one, keeps a pair with a single record written before it. */
  lemma SplitRunIsExact(env: Env, input: seq<Entry>, boundaries: seq<UserKey>, outs: seq<seq<Entry>>)
    requires Sorted(input) && StrictlyIncreasing(boundaries)
    requires AreOutputs(env, Pieces(input, boundaries), outs)
    ensures Joined(outs, |boundaries| + 1) == Compacted(env, input, |input|) <==>
      Undivided(env, Pieces(input, boundaries), outs, |boundaries| + 1)
  {
    var parts := Pieces(input, boundaries);
    PiecesAreCut(input, boundaries);
    PiecesJoinToInput(input, boundaries);
    PartsCompare(env, parts, outs, boundaries, |parts|);
  }

  // ---------------------------------------------------------------- easy conditions

  /** Without a single deletion that cancels a record and is newer than the write-conflict snapshot,
      splitting changes nothing; so without single deletions, and without such a snapshot. */
  lemma SplitWithoutConflicts(env: Env, input: seq<Entry>, boundaries: seq<UserKey>, outs: seq<seq<Entry>>)
    requires ValidInput(input) && StrictlyIncreasing(boundaries)
    requires AreOutputs(env, Pieces(input, boundaries), outs)
    requires env.writeConflictSnapshot == MAX_SEQ || forall i :: 0 <= i < |input| ==> !Cancels(env, input, i)
    ensures Joined(outs, |boundaries| + 1) == Compacted(env, input, |input|)
  {
    var parts := Pieces(input, boundaries);
    forall n | 0 <= n < |parts|
      ensures !Divided(env, parts[n])
    {
      PieceIsSlice(input, boundaries, n);
      assert parts[n] == Piece(input, boundaries, n);
      SliceCancels(env, input, CutAt(input, boundaries, n), CutAt(input, boundaries, n + 1));
    }
    SplitRunIsExact(env, input, boundaries, outs);
  }

  lemma SliceCancels(env: Env, input: seq<Entry>, lo: nat, hi: nat)
    requires ValidInput(input) && lo <= hi <= |input|
    requires env.writeConflictSnapshot == MAX_SEQ || forall i :: 0 <= i < |input| ==> !Cancels(env, input, i)
    ensures !Divided(env, input[lo..hi])
  {
    var part := input[lo..hi];
    forall d | 0 <= d < |part|
      ensures !Cancels(env, part, d)
    {
      assert part[d] == input[lo + d] && !Cancels(env, input, lo + d);
    }
  }

  // ---------------------------------------------------------------- a family that differs

  function WatchedEnv(c: Compaction): Env {
    Env([1], 9, 1, Some(c))
  }

  function RewrittenKey(k: UserKey, a: Value, b: Value): seq<Entry> {
    [Entry(k, 8, Put, b), Entry(k, 7, SingleDeletion, ""), Entry(k, 6, Put, a)]
  }

  function TwoKeys(j: UserKey, k: UserKey, a: Value, b: Value): seq<Entry> {
    [Entry(j, 9, Put, a)] + RewrittenKey(k, a, b)
  }

  lemma WatchedIsValid(c: Compaction, j: UserKey, k: UserKey, a: Value, b: Value)
    requires Built(c) && j < k
    ensures ValidEnv(WatchedEnv(c)) && ValidInput(TwoKeys(j, k, a, b)) && ValidInput(RewrittenKey(k, a, b))
  {
  }

  lemma UnsplitFates(c: Compaction, j: UserKey, k: UserKey, a: Value, b: Value)
    requires j < k
    ensures Fates(WatchedEnv(c), TwoKeys(j, k, a, b), 4) == [Kept, Kept, PairHead, PairTail]
  {
    var env, input := WatchedEnv(c), TwoKeys(j, k, a, b);
    assert Fates(env, input, 1) == [Kept];
    assert Fates(env, input, 2) == [Kept, Kept];
    assert Outputted(input, Fates(env, input, 2), k) by {
      assert Fates(env, input, 2)[0].Emits() && Fates(env, input, 2)[1].Emits() && input[1].key == k;
    }
    assert Fates(env, input, 3) == [Kept, Kept, PairHead];
  }

  lemma UnsplitSelects(c: Compaction, j: UserKey, k: UserKey, a: Value, b: Value)
    ensures Selected(WatchedEnv(c), TwoKeys(j, k, a, b), [Kept, Kept, PairHead, PairTail], 4) ==
      TwoKeys(j, k, a, b)[..2]
  {
    var env, input, fs := WatchedEnv(c), TwoKeys(j, k, a, b), [Kept, Kept, PairHead, PairTail];
    assert Selected(env, input, fs, 1) == input[..1];
    assert Selected(env, input, fs, 2) == input[..2];
    assert Selected(env, input, fs, 3) == input[..2];
  }

  /** Cut at the second key, the two keys are two pieces. */
  lemma SecondPieceIsKey(j: UserKey, k: UserKey, a: Value, b: Value)
    requires j < k
    ensures Sorted(TwoKeys(j, k, a, b))
    ensures Pieces(TwoKeys(j, k, a, b), [k]) == [[Entry(j, 9, Put, a)], RewrittenKey(k, a, b)]
  {
    var input := TwoKeys(j, k, a, b);
    var cut := SeekKey(input, Some(k), 0);
    assert input[0].key == j && input[1].key == k && cut == 1;
    assert SeekKey(input, Some(k), |input|) == 1;
    assert input[..1] == [Entry(j, 9, Put, a)] && input[1..] == RewrittenKey(k, a, b);
    assert Piece(input, [k], 0) == input[..1] && Piece(input, [k], 1) == input[1..];
  }

  /** In one run with another key, the pair is dropped. */
  lemma UnsplitDropsPair(c: Compaction, j: UserKey, k: UserKey, a: Value, b: Value)
    requires Built(c) && j < k
    ensures ValidEnv(WatchedEnv(c)) && ValidInput(TwoKeys(j, k, a, b))
    ensures Compacted(WatchedEnv(c), TwoKeys(j, k, a, b), 4) == TwoKeys(j, k, a, b)[..2]
  {
    WatchedIsValid(c, j, k, a, b);
    UnsplitFates(c, j, k, a, b);
    UnsplitSelects(c, j, k, a, b);
  }

  /** As the second piece of that input, cut at its key, the pair is kept and the value cleared. */
  lemma SplitRetainsPair(c: Compaction, j: UserKey, k: UserKey, a: Value, b: Value)
    requires Built(c) && j < k
    ensures ValidEnv(WatchedEnv(c)) && ValidInput(TwoKeys(j, k, a, b))
    ensures Pieces(TwoKeys(j, k, a, b), [k]) == [[Entry(j, 9, Put, a)], RewrittenKey(k, a, b)]
    ensures Compacted(WatchedEnv(c), RewrittenKey(k, a, b), 3) == RewrittenKey(k, "", b)
  {
    WatchedIsValid(c, j, k, a, b);
    SecondPieceIsKey(j, k, a, b);
    var env, piece := WatchedEnv(c), RewrittenKey(k, a, b);
    assert Fates(env, piece, 1) == [Kept];
    assert Fates(env, piece, 2) == [Kept, Retained];
    assert Fates(env, piece, 3) == [Kept, Retained, Cleared];
    CompactsNext(env, piece, 0);
    CompactsNext(env, piece, 1);
    CompactsNext(env, piece, 2);
  }
}
