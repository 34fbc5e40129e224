/** The bookkeeping of table files as the database does it: lists and counters changed in place under
    the mutex, and a purge that decides from its own snapshot. */
module ObsoleteFilesImpl {
  import opened Format
  import opened ObsoleteFiles

  function SetOf(fs: seq<FileNo>): set<FileNo> {
    set f | f in fs
  }

  function HoldersOf(versions: map<VersionId, set<FileNo>>, f: FileNo): set<VersionId> {
    set v | v in versions && f in versions[v]
  }

  lemma NoHolders(versions: map<VersionId, set<FileNo>>, f: FileNo)
    ensures |HoldersOf(versions, f)| == 0 <==> !IsLive(versions, f)
  {
    if v :| v in versions && f in versions[v] {
      assert v in HoldersOf(versions, f);
    } else {
      assert HoldersOf(versions, f) == {};
    }
  }

  lemma HoldersAfterDrop(versions: map<VersionId, set<FileNo>>, v: VersionId, f: FileNo)
    requires v in versions
    ensures |HoldersOf(versions, f)| == |HoldersOf(versions - {v}, f)| + if f in versions[v] then 1 else 0
  {
    if f in versions[v] {
      assert HoldersOf(versions, f) == HoldersOf(versions - {v}, f) + {v};
    } else {
      assert HoldersOf(versions, f) == HoldersOf(versions - {v}, f);
    }
  }

  lemma HoldersAfterInstall(versions: map<VersionId, set<FileNo>>, v: VersionId, files: set<FileNo>, f: FileNo)
    requires v !in versions
    ensures |HoldersOf(versions[v := files], f)| == |HoldersOf(versions, f)| + if f in files then 1 else 0
  {
    assert versions[v := files] - {v} == versions;
    HoldersAfterDrop(versions[v := files], v, f);
  }

  /** Inserts into a list kept in descending order without repetitions. */
  method InsertCandidate(fs: seq<FileNo>, f: FileNo) returns (r: seq<FileNo>)
    requires Descending(fs)
    ensures Descending(r)
    ensures forall g :: g in r <==> g in fs || g == f
  {
    var i := 0;
    while i < |fs| && fs[i] > f
      invariant 0 <= i <= |fs|
      invariant forall k :: 0 <= k < i ==> fs[k] > f
    {
      i := i + 1;
    }
    if i < |fs| && fs[i] == f {
      return fs;
    }
    r := fs[..i] + [f] + fs[i..];
  }

  predicate Descending(fs: seq<FileNo>) {
    forall i, k :: 0 <= i < k < |fs| ==> fs[i] > fs[k]
  }

  /** PurgeObsoleteFiles: the table files it deletes, each once, are exactly those the snapshot dooms. */
  method PurgeObsoleteFiles(scan: Scan, listing: seq<FileNo>, sstDeleteFiles: seq<FileNo>)
    returns (deleted: seq<FileNo>)
    requires forall f :: f in scan.candidates <==> f in listing || f in sstDeleteFiles
    ensures Descending(deleted)
    ensures forall f :: f in deleted <==> scan.Dooms(f)
  {
    var candidates: seq<FileNo> := [];
    var all := listing + sstDeleteFiles;
    for i := 0 to |all|
      invariant Descending(candidates)
      invariant forall f :: f in candidates <==> f in all[..i]
    {
      candidates := InsertCandidate(candidates, all[i]);
      assert all[..i + 1] == all[..i] + [all[i]];
    }
    assert all[..|all|] == all;
    deleted := [];
    for i := 0 to |candidates|
      invariant Descending(deleted)
      invariant forall f :: f in deleted <==> f in candidates[..i] && !scan.Keeps(f)
    {
      assert candidates[..i + 1] == candidates[..i] + [candidates[i]];
      if !scan.Keeps(candidates[i]) {
        forall k | 0 <= k < |deleted|
          ensures deleted[k] > candidates[i]
        {
          assert deleted[k] in candidates[..i];
        }
        deleted := deleted + [candidates[i]];
      }
    }
    assert candidates[..|candidates|] == candidates;
  }

  /** What FindObsoleteFiles collects, list by list, is the step of the protocol. */
  lemma FoundIs(s: State, c: ScanId, listing: seq<FileNo>, found: seq<FileNo>, left: seq<FileNo>, live: set<FileNo>)
    requires Enabled(s, FindObsolete(c, SetOf(listing)))
    requires forall f :: f in found <==> f in s.obsolete && Below(f, MinPending(s))
    requires forall f :: f in left <==> f in s.obsolete && !Below(f, MinPending(s))
    requires forall f :: f in live <==> IsLive(s.versions, f)
    ensures Do(s, FindObsolete(c, SetOf(listing)))
            == s.(obsolete := SetOf(left),
                  scans := s.scans[c := Scan(MinPending(s), SetOf(found) + SetOf(listing), live)])
  {
    assert live == LiveFiles(s.versions);
    assert s.obsolete - Due(s) == SetOf(left);
    assert Due(s) == SetOf(found);
  }

  class DBFiles {
    var nextFileNumber: FileNo
    var pendingOutputs: seq<Pending>
    var versions: map<VersionId, set<FileNo>>
    var current: VersionId
    var refs: map<FileNo, int>              // FileMetaData::refs
    var obsoleteFiles: seq<FileNo>
    ghost var jobs: map<JobId, Job>
    ghost var waiting: set<FileNo>
    ghost var disk: set<FileNo>
    ghost var scans: map<ScanId, Scan>

    ghost function View(): State
      reads this
    {
      State(nextFileNumber, pendingOutputs, jobs, waiting, versions, current, SetOf(obsoleteFiles), disk, scans)
    }

    /** A file has one reference from each version that contains it. */
    ghost predicate RefsOk()
      reads this`refs, this`versions
    {
      forall f :: RefsOf(f) == |HoldersOf(versions, f)|
    }

    function RefsOf(f: FileNo): int
      reads this`refs
    {
      if f in refs then refs[f] else 0
    }

    ghost predicate Valid()
      reads this
    {
      Inv(View()) && RefsOk()
    }

    method CaptureCurrentFileNumberInPendingOutputs(j: JobId)
      requires Valid() && j !in jobs
      modifies this`pendingOutputs, this`jobs
      ensures Valid() && View() == Do(old(View()), StartJob(j))
    {
      StepKeeps(View(), StartJob(j));
      pendingOutputs := pendingOutputs + [Pending(j, nextFileNumber)];
      jobs := jobs[j := Job({}, {}, {})];
    }

    method ReleaseFileNumberFromPendingOutputs(j: JobId)
      requires Valid() && j in jobs
      modifies this`pendingOutputs, this`jobs
      ensures Valid() && View() == Do(old(View()), FinishJob(j))
    {
      StepKeeps(View(), FinishJob(j));
      pendingOutputs := Without(pendingOutputs, j);
      jobs := jobs - {j};
    }

    method NewFileNumber(ghost j: JobId) returns (number: FileNo)
      requires Valid() && j in jobs
      modifies this`nextFileNumber, this`jobs
      ensures Valid() && View() == Do(old(View()), ObsoleteFiles.Step.NewFileNumber(j))
      ensures number == old(nextFileNumber)
    {
      ghost var after := Do(View(), ObsoleteFiles.Step.NewFileNumber(j));
      StepKeeps(View(), ObsoleteFiles.Step.NewFileNumber(j));
      number := nextFileNumber;
      nextFileNumber := nextFileNumber + 1;
      jobs := jobs[j := jobs[j].(numbered := jobs[j].numbered + {number})];
      assert View() == after;
    }

    method RefFiles(files: set<FileNo>)
      modifies this`refs
      ensures forall f :: RefsOf(f) == old(RefsOf(f)) + if f in files then 1 else 0
    {
      var rest := files;
      while rest != {}
        invariant rest <= files
        invariant forall f :: RefsOf(f) == old(RefsOf(f)) + if f in files && f !in rest then 1 else 0
        decreases rest
      {
        var f :| f in rest;
        refs := refs[f := RefsOf(f) + 1];
        rest := rest - {f};
      }
    }

    /** Files that lose their last reference become obsolete. */
    method UnrefFiles(files: set<FileNo>)
      modifies this`refs, this`obsoleteFiles
      ensures forall f :: RefsOf(f) == old(RefsOf(f)) - if f in files then 1 else 0
      ensures forall f :: f in obsoleteFiles <==> f in old(obsoleteFiles) || (f in files && old(RefsOf(f)) <= 1)
    {
      var rest := files;
      while rest != {}
        invariant rest <= files
        invariant forall f :: RefsOf(f) == old(RefsOf(f)) - if f in files && f !in rest then 1 else 0
        invariant forall f :: f in obsoleteFiles <==>
          f in old(obsoleteFiles) || (f in files && f !in rest && old(RefsOf(f)) <= 1)
        decreases rest
      {
        var f :| f in rest;
        assert RefsOf(f) == old(RefsOf(f));
        refs := refs[f := RefsOf(f) - 1];
        rest := rest - {f};
        if refs[f] <= 0 {
          obsoleteFiles := obsoleteFiles + [f];
        }
      }
    }

    /** The end of LogAndApply: a new version of the current one's files, each with one more reference. */
    method AppendVersion(ghost j: JobId, v: VersionId, added: set<FileNo>, removed: set<FileNo>)
      requires Valid() && j in jobs && added <= jobs[j].written + waiting && v !in versions
      modifies this`versions, this`current, this`refs, this`jobs, this`waiting
      ensures Valid() && View() == Do(old(View()), Install(j, v, added, removed))
    {
      StepKeeps(View(), Install(j, v, added, removed));
      var files := versions[current] - removed + added;
      forall f
        ensures |HoldersOf(versions[v := files], f)| == |HoldersOf(versions, f)| + if f in files then 1 else 0
      {
        HoldersAfterInstall(versions, v, files, f);
      }
      RefFiles(files);
      versions := versions[v := files];
      current := v;
      jobs := jobs[j := jobs[j].Commit(added)];
      waiting := waiting - added;
    }

    /** The destructor of a version. */
    method DestroyVersion(v: VersionId)
      requires Valid() && v in versions && v != current
      modifies this`versions, this`refs, this`obsoleteFiles
      ensures Valid() && View() == Do(old(View()), DropVersion(v))
    {
      ghost var before := View();
      StepKeeps(before, DropVersion(v));
      var files := versions[v];
      forall f
        ensures |HoldersOf(versions, f)| == |HoldersOf(versions - {v}, f)| + if f in files then 1 else 0
        ensures |HoldersOf(versions - {v}, f)| == 0 <==> !IsLive(versions - {v}, f)
      {
        HoldersAfterDrop(versions, v, f);
        NoHolders(versions - {v}, f);
      }
      UnrefFiles(files);
      versions := versions - {v};
      assert SetOf(obsoleteFiles) == Do(before, DropVersion(v)).obsolete;
    }

    /** VersionSet::GetObsoleteFiles. */
    method GetObsoleteFiles(minPending: Option<FileNo>) returns (files: seq<FileNo>)
      modifies this`obsoleteFiles
      ensures forall f :: f in files <==> f in old(obsoleteFiles) && Below(f, minPending)
      ensures forall f :: f in obsoleteFiles <==> f in old(obsoleteFiles) && !Below(f, minPending)
    {
      var pendingFiles: seq<FileNo> := [];
      files := [];
      for i := 0 to |obsoleteFiles|
        invariant obsoleteFiles == old(obsoleteFiles)
        invariant forall f :: f in files <==> f in obsoleteFiles[..i] && Below(f, minPending)
        invariant forall f :: f in pendingFiles <==> f in obsoleteFiles[..i] && !Below(f, minPending)
      {
        assert obsoleteFiles[..i + 1] == obsoleteFiles[..i] + [obsoleteFiles[i]];
        if Below(obsoleteFiles[i], minPending) {
          files := files + [obsoleteFiles[i]];
        } else {
          pendingFiles := pendingFiles + [obsoleteFiles[i]];
        }
      }
      assert obsoleteFiles[..|obsoleteFiles|] == obsoleteFiles;
      obsoleteFiles := pendingFiles;
    }

    /** VersionSet::AddLiveFiles: the files of every version in the list. */
    method AddLiveFiles() returns (live: set<FileNo>)
      ensures forall f :: f in live <==> IsLive(versions, f)
    {
      live := {};
      var rest := versions.Keys;
      while rest != {}
        invariant rest <= versions.Keys
        invariant forall f :: f in live <==> exists v :: v in versions && v !in rest && f in versions[v]
        decreases rest
      {
        var v :| v in rest;
        live := live + versions[v];
        rest := rest - {v};
      }
    }

    /** FindObsoleteFiles, for table files; listing is what the directory showed, or empty unless the
        scan is a full one. */
    method FindObsoleteFiles(ghost c: ScanId, listing: seq<FileNo>) returns (scan: Scan, sstDeleteFiles: seq<FileNo>)
      requires Valid() && c !in scans && forall f :: f in listing ==> f in disk
      modifies this`obsoleteFiles, this`scans
      ensures Valid() && View() == Do(old(View()), FindObsolete(c, SetOf(listing)))
      ensures c in scans && scans[c] == scan
      ensures forall f :: f in scan.candidates <==> f in listing || f in sstDeleteFiles
    {
      ghost var before := View();
      StepKeeps(before, FindObsolete(c, SetOf(listing)));
      var minPending := if pendingOutputs != [] then Some(pendingOutputs[0].number) else None;
      sstDeleteFiles := GetObsoleteFiles(minPending);
      var live := AddLiveFiles();
      scan := Scan(minPending, SetOf(sstDeleteFiles) + SetOf(listing), live);
      scans := scans[c := scan];
      FoundIs(before, c, listing, sstDeleteFiles, obsoleteFiles, live);
    }
  }
}
