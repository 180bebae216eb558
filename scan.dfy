/** The scanning loops of FileGatherPro.start_search: search folders, then the directories of
    each, then the files of each directory, with one result record per accepted file.

    The file system is given: each search folder carries whether it exists, the directories
    os.walk would yield for it, and the plain files listing it directly yields (None when the
    listing raises). The cancel flag is polled at the head of every loop; it is set by the user
    while the search runs and never cleared, so it is modelled by the index of the first poll
    that reads it set (None when the user never cancels). */
module Scan {
  import opened Text
  import opened Keyword
  import opened Extract
  import opened Filter
  import opened Conflict

  datatype Dir = Dir(root: string, files: seq<FileEntry>)

  datatype Folder = Folder(path: string, present: bool, tree: seq<Dir>, listing: Option<seq<FileEntry>>)

  /** The path separator of Path(root) / name. */
  const SEP: string := "\\"

  function JoinPath(root: string, name: string): string
  {
    root + SEP + name
  }

  /** Whether the poll with this index reads the cancel flag set. */
  predicate CancelSeen(cancelAt: Option<nat>, poll: nat)
  {
    cancelAt.Some? && cancelAt.value <= poll
  }

  /** The directories scanned in a search folder. */
  function FolderDirs(f: Folder, includeSubfolders: bool): seq<Dir>
  {
    if !f.present then []
    else if includeSubfolders then f.tree
    else match f.listing
      case None => []
      case Some(files) => [Dir(f.path, files)]
  }

  /** The result record for an accepted file. */
  function Record(root: string, e: FileEntry): FileInfo
  {
    FileInfo(JoinPath(root, e.name), e.name, e.size, e.modDate, None, None)
  }

  /** The records of a directory's accepted files, in listing order. */
  function DirMatches(c: Criteria, root: string, files: seq<FileEntry>): seq<FileInfo>
  {
    if files == [] then []
    else
      var last := files[|files| - 1];
      DirMatches(c, root, files[..|files| - 1]) + (if Accepts(c, last) then [Record(root, last)] else [])
  }

  function DirsMatches(c: Criteria, dirs: seq<Dir>): seq<FileInfo>
  {
    if dirs == [] then []
    else
      var last := dirs[|dirs| - 1];
      DirsMatches(c, dirs[..|dirs| - 1]) + DirMatches(c, last.root, last.files)
  }

  /** The records of an uncancelled search, in scanning order. */
  function AllMatches(c: Criteria, folders: seq<Folder>, includeSubfolders: bool): seq<FileInfo>
  {
    if folders == [] then []
    else
      AllMatches(c, folders[..|folders| - 1], includeSubfolders)
      + DirsMatches(c, FolderDirs(folders[|folders| - 1], includeSubfolders))
  }

  /** What a listed record says about its file: the metadata filters held, a file-name search
      matched the name, and it carries no disposition yet. */
  predicate RecordPasses(c: Criteria, r: FileInfo)
  {
    InSize(c.size, r.size) && InDates(c.dates, r.modDate) && TypeAllowed(c.types, r.name)
    && (c.keyword != [] && c.mode == FileName ==> Matches(r.name, c.keyword))
    && r.action.None? && r.newName.None?
  }

  // ---------------------------------------------------------------------------------------
  // The loops.

  /** The file loop. `found` counts the records of the whole search; after every hundredth
      record the flag is polled once more. */
  method ScanFiles(c: Criteria, root: string, files: seq<FileEntry>, results0: seq<FileInfo>,
                   polls0: nat, cancelAt: Option<nat>)
    returns (results: seq<FileInfo>, found: nat, polls: nat, stopped: bool)
    ensures found == |results| && polls >= polls0
    ensures results0 <= results && results <= results0 + DirMatches(c, root, files)
    ensures !stopped ==> results == results0 + DirMatches(c, root, files)
    ensures stopped ==> CancelSeen(cancelAt, polls)
    ensures CancelSeen(cancelAt, polls0) ==> results == results0
    ensures cancelAt.None? ==> !stopped
  {
    results, found, polls, stopped := results0, |results0|, polls0, false;
    var i := 0;
    while i < |files| && !stopped
      decreases |files| - i, if stopped then 0 else 1
      invariant 0 <= i <= |files| && found == |results| && polls >= polls0
      invariant results == results0 + DirMatches(c, root, files[..i])
      invariant stopped ==> CancelSeen(cancelAt, polls)
      invariant CancelSeen(cancelAt, polls0) ==> i == 0
      invariant cancelAt.None? ==> !stopped
    {
      if CancelSeen(cancelAt, polls) {
        stopped := true;
      } else {
        results, found, polls, stopped := NextFile(c, root, files, i, results0, results, found, polls, cancelAt);
        i := i + 1;
      }
      polls := polls + 1;
    }
    if !stopped {
      assert files[..i] == files;
    } else {
      DirMatchesPrefix(c, root, files, i);
    }
  }

  /** One file of the file loop: its record is added when it is accepted, and every hundredth
      record polls the flag. */
  method NextFile(c: Criteria, root: string, files: seq<FileEntry>, i: nat, results0: seq<FileInfo>,
                  results: seq<FileInfo>, found: nat, polls: nat, cancelAt: Option<nat>)
    returns (results': seq<FileInfo>, found': nat, polls': nat, stopped: bool)
    requires i < |files| && found == |results| && results == results0 + DirMatches(c, root, files[..i])
    ensures results' == results0 + DirMatches(c, root, files[..i + 1])
    ensures found' == |results'| && polls' >= polls
    ensures stopped ==> CancelSeen(cancelAt, polls')
    ensures cancelAt.None? ==> !stopped
  {
    results', found', polls', stopped := results, found, polls, false;
    var accepted, _ := AcceptFile(c, files[i]);
    DirMatchesSnoc(c, root, files, i);
    if accepted {
      results' := results + [Record(root, files[i])];
      found' := found + 1;
      if found' % 100 == 0 {
        polls' := polls + 1;
        stopped := CancelSeen(cancelAt, polls');
      }
    }
  }

  /** The directory loop. */
  method ScanDirs(c: Criteria, dirs: seq<Dir>, results0: seq<FileInfo>, polls0: nat, cancelAt: Option<nat>)
    returns (results: seq<FileInfo>, found: nat, polls: nat, stopped: bool)
    ensures found == |results| && polls >= polls0
    ensures results0 <= results && results <= results0 + DirsMatches(c, dirs)
    ensures !stopped ==> results == results0 + DirsMatches(c, dirs)
    ensures stopped ==> CancelSeen(cancelAt, polls)
    ensures CancelSeen(cancelAt, polls0) ==> results == results0
    ensures cancelAt.None? ==> !stopped
  {
    results, found, polls, stopped := results0, |results0|, polls0, false;
    var i := 0;
    while i < |dirs| && !stopped
      decreases |dirs| - i, if stopped then 0 else 1
      invariant 0 <= i <= |dirs| && found == |results| && polls >= polls0
      invariant results0 <= results && results <= results0 + DirsMatches(c, dirs[..i])
      invariant !stopped ==> results == results0 + DirsMatches(c, dirs[..i])
      invariant stopped ==> CancelSeen(cancelAt, polls)
      invariant CancelSeen(cancelAt, polls0) ==> results == results0
      invariant cancelAt.None? ==> !stopped
    {
      if CancelSeen(cancelAt, polls) {
        stopped := true;
        polls := polls + 1;
      } else {
        results, found, polls, stopped := NextDir(c, dirs, i, results0, results, polls + 1, cancelAt);
        i := i + 1;
      }
    }
    if !stopped {
      assert dirs[..i] == dirs;
    } else {
      DirsMatchesPrefix(c, dirs, i);
    }
  }

  /** The search-folder loop and the final reading of the flag. */
  method ScanFolders(c: Criteria, folders: seq<Folder>, includeSubfolders: bool, cancelAt: Option<nat>)
    returns (results: seq<FileInfo>, found: nat, cancelled: bool)
    ensures found == |results|
    ensures results <= AllMatches(c, folders, includeSubfolders)
    ensures !cancelled ==> results == AllMatches(c, folders, includeSubfolders)
    ensures cancelAt.None? ==> !cancelled
    ensures CancelSeen(cancelAt, 0) ==> cancelled && results == []
  {
    results, found := [], 0;
    var polls: nat := 0;
    var stopped := false;
    var i := 0;
    while i < |folders| && !stopped
      decreases |folders| - i, if stopped then 0 else 1
      invariant 0 <= i <= |folders| && found == |results|
      invariant results <= AllMatches(c, folders[..i], includeSubfolders)
      invariant !stopped ==> results == AllMatches(c, folders[..i], includeSubfolders)
      invariant stopped ==> CancelSeen(cancelAt, polls)
      invariant CancelSeen(cancelAt, 0) ==> results == []
      invariant cancelAt.None? ==> !stopped
    {
      if CancelSeen(cancelAt, polls) {
        stopped := true;
        polls := polls + 1;
      } else {
        results, found, polls, stopped := NextFolder(c, folders, includeSubfolders, i, results, polls + 1, cancelAt);
        i := i + 1;
      }
    }
    cancelled := CancelSeen(cancelAt, polls);
    if !stopped {
      assert folders[..i] == folders;
    } else {
      AllMatchesPrefix(c, folders, includeSubfolders, i);
    }
  }

  /** The scan of the directory after the first `i`, continuing the results of those. */
  method NextDir(c: Criteria, dirs: seq<Dir>, i: nat, results0: seq<FileInfo>, before: seq<FileInfo>,
                 polls0: nat, cancelAt: Option<nat>)
    returns (results: seq<FileInfo>, found: nat, polls: nat, stopped: bool)
    requires i < |dirs| && before == results0 + DirsMatches(c, dirs[..i])
    ensures found == |results| && polls >= polls0
    ensures results0 <= results && results <= results0 + DirsMatches(c, dirs[..i + 1])
    ensures !stopped ==> results == results0 + DirsMatches(c, dirs[..i + 1])
    ensures stopped ==> CancelSeen(cancelAt, polls)
    ensures CancelSeen(cancelAt, polls0) ==> results == before
    ensures cancelAt.None? ==> !stopped
  {
    results, found, polls, stopped := ScanFiles(c, dirs[i].root, dirs[i].files, before, polls0, cancelAt);
    DirsMatchesSnoc(c, dirs, i);
    PrefixExtend(results0, before, DirsMatches(c, dirs[..i]), results, DirMatches(c, dirs[i].root, dirs[i].files));
  }

  /** The scan of the search folder after the first `i`, continuing the results of those. */
  method NextFolder(c: Criteria, folders: seq<Folder>, includeSubfolders: bool, i: nat, before: seq<FileInfo>,
                    polls0: nat, cancelAt: Option<nat>)
    returns (results: seq<FileInfo>, found: nat, polls: nat, stopped: bool)
    requires i < |folders| && before == AllMatches(c, folders[..i], includeSubfolders)
    ensures found == |results| && polls >= polls0
    ensures results <= AllMatches(c, folders[..i + 1], includeSubfolders)
    ensures !stopped ==> results == AllMatches(c, folders[..i + 1], includeSubfolders)
    ensures stopped ==> CancelSeen(cancelAt, polls)
    ensures CancelSeen(cancelAt, polls0) ==> results == before
    ensures cancelAt.None? ==> !stopped
  {
    results, found, polls, stopped := ScanFolder(c, folders[i], includeSubfolders, before, polls0, cancelAt);
    AllMatchesSnoc(c, folders, includeSubfolders, i);
    PrefixExtend([], before, AllMatches(c, folders[..i], includeSubfolders), results,
      DirsMatches(c, FolderDirs(folders[i], includeSubfolders)));
  }

  /** One search folder: skipped when it does not exist or cannot be listed, otherwise its
      directories are scanned. */
  method ScanFolder(c: Criteria, folder: Folder, includeSubfolders: bool, results0: seq<FileInfo>,
                    polls0: nat, cancelAt: Option<nat>)
    returns (results: seq<FileInfo>, found: nat, polls: nat, stopped: bool)
    ensures found == |results| && polls >= polls0
    ensures results0 <= results && results <= results0 + DirsMatches(c, FolderDirs(folder, includeSubfolders))
    ensures !stopped ==> results == results0 + DirsMatches(c, FolderDirs(folder, includeSubfolders))
    ensures stopped ==> CancelSeen(cancelAt, polls)
    ensures CancelSeen(cancelAt, polls0) ==> results == results0
    ensures cancelAt.None? ==> !stopped
  {
    results, found, polls, stopped := results0, |results0|, polls0, false;
    if !folder.present {
      return;
    }
    var dirs: seq<Dir>;
    if includeSubfolders {
      dirs := folder.tree;
    } else {
      match folder.listing {
        case None =>
          return;
        case Some(files) =>
          dirs := [Dir(folder.path, files)];
      }
    }
    results, found, polls, stopped := ScanDirs(c, dirs, results0, polls0, cancelAt);
  }

  // ---------------------------------------------------------------------------------------
  // Prefix facts used by the loops.

  /** Appending the same tail to a prefix keeps it a prefix; extending a completed part by a prefix of the next part is a prefix of both. */
  lemma PrefixExtend(base: seq<FileInfo>, before: seq<FileInfo>, part: seq<FileInfo>, after: seq<FileInfo>, next: seq<FileInfo>)
    requires base <= before && before <= base + part
    requires before <= after && after <= before + next
    ensures base <= after
    ensures before == base + part ==> after <= base + part + next
    ensures before == base + part && after == before + next ==> after == base + part + next
  {
  }

  /** One more file extends a directory's matches by that file's record when it is accepted. */
  lemma DirMatchesSnoc(c: Criteria, root: string, files: seq<FileEntry>, i: nat)
    requires i < |files|
    ensures DirMatches(c, root, files[..i + 1])
      == DirMatches(c, root, files[..i]) + (if Accepts(c, files[i]) then [Record(root, files[i])] else [])
  {
    assert files[..i + 1][..i] == files[..i];
  }

  lemma DirsMatchesSnoc(c: Criteria, dirs: seq<Dir>, i: nat)
    requires i < |dirs|
    ensures DirsMatches(c, dirs[..i + 1]) == DirsMatches(c, dirs[..i]) + DirMatches(c, dirs[i].root, dirs[i].files)
  {
    assert dirs[..i + 1][..i] == dirs[..i];
  }

  lemma AllMatchesSnoc(c: Criteria, folders: seq<Folder>, includeSubfolders: bool, i: nat)
    requires i < |folders|
    ensures AllMatches(c, folders[..i + 1], includeSubfolders)
      == AllMatches(c, folders[..i], includeSubfolders) + DirsMatches(c, FolderDirs(folders[i], includeSubfolders))
  {
    assert folders[..i + 1][..i] == folders[..i];
  }

  lemma {:induction false} DirMatchesPrefix(c: Criteria, root: string, files: seq<FileEntry>, i: nat)
    requires i <= |files|
    ensures DirMatches(c, root, files[..i]) <= DirMatches(c, root, files)
    decreases |files| - i
  {
    if i < |files| {
      var longer := files[..i + 1];
      assert longer[..|longer| - 1] == files[..i];
      DirMatchesPrefix(c, root, files, i + 1);
    } else {
      assert files[..i] == files;
    }
  }

  lemma {:induction false} DirsMatchesPrefix(c: Criteria, dirs: seq<Dir>, i: nat)
    requires i <= |dirs|
    ensures DirsMatches(c, dirs[..i]) <= DirsMatches(c, dirs)
    decreases |dirs| - i
  {
    if i < |dirs| {
      var longer := dirs[..i + 1];
      assert longer[..|longer| - 1] == dirs[..i];
      DirsMatchesPrefix(c, dirs, i + 1);
    } else {
      assert dirs[..i] == dirs;
    }
  }

  lemma {:induction false} AllMatchesPrefix(c: Criteria, folders: seq<Folder>, includeSubfolders: bool, i: nat)
    requires i <= |folders|
    ensures AllMatches(c, folders[..i], includeSubfolders) <= AllMatches(c, folders, includeSubfolders)
    decreases |folders| - i
  {
    if i < |folders| {
      var longer := folders[..i + 1];
      assert longer[..|longer| - 1] == folders[..i];
      AllMatchesPrefix(c, folders, includeSubfolders, i + 1);
    } else {
      assert folders[..i] == folders;
    }
  }

  // ---------------------------------------------------------------------------------------
  // What the listed records are.

  /** Every record of a directory comes from an accepted file of it. */
  lemma {:induction false} DirMatchesSound(c: Criteria, root: string, files: seq<FileEntry>)
    ensures forall r :: r in DirMatches(c, root, files) ==>
      exists e :: e in files && Accepts(c, e) && r == Record(root, e)
  {
    if files != [] {
      var init := files[..|files| - 1];
      DirMatchesSound(c, root, init);
      forall r | r in DirMatches(c, root, files)
        ensures exists e :: e in files && Accepts(c, e) && r == Record(root, e)
      {
        if r in DirMatches(c, root, init) {
          var e :| e in init && Accepts(c, e) && r == Record(root, e);
          assert e in files;
        } else {
          assert files[|files| - 1] in files;
        }
      }
    }
  }

  /** Every accepted file of a directory is listed. */
  lemma {:induction false} DirMatchesComplete(c: Criteria, root: string, files: seq<FileEntry>)
    ensures forall e :: e in files && Accepts(c, e) ==> Record(root, e) in DirMatches(c, root, files)
  {
    if files != [] {
      var init := files[..|files| - 1];
      DirMatchesComplete(c, root, init);
      forall e | e in files && Accepts(c, e)
        ensures Record(root, e) in DirMatches(c, root, files)
      {
        if e in init {
        } else {
          assert files == init + [files[|files| - 1]];
          assert e == files[|files| - 1];
        }
      }
    }
  }

  lemma AcceptedPasses(c: Criteria, root: string, e: FileEntry)
    requires Accepts(c, e)
    ensures RecordPasses(c, Record(root, e))
  {
  }

  lemma {:induction false} DirsMatchesPass(c: Criteria, dirs: seq<Dir>)
    ensures forall r :: r in DirsMatches(c, dirs) ==> RecordPasses(c, r)
  {
    if dirs != [] {
      var last := dirs[|dirs| - 1];
      DirsMatchesPass(c, dirs[..|dirs| - 1]);
      DirMatchesSound(c, last.root, last.files);
      forall r | r in DirMatches(c, last.root, last.files)
        ensures RecordPasses(c, r)
      {
        var e :| e in last.files && Accepts(c, e) && r == Record(last.root, e);
        AcceptedPasses(c, last.root, e);
      }
    }
  }

  /** Every record of a search satisfies the size, date, type and name checks. */
  lemma {:induction false} AllMatchesPass(c: Criteria, folders: seq<Folder>, includeSubfolders: bool)
    ensures forall r :: r in AllMatches(c, folders, includeSubfolders) ==> RecordPasses(c, r)
  {
    if folders != [] {
      AllMatchesPass(c, folders[..|folders| - 1], includeSubfolders);
      DirsMatchesPass(c, FolderDirs(folders[|folders| - 1], includeSubfolders));
    }
  }

  lemma {:induction false} DirsMatchesComplete(c: Criteria, dirs: seq<Dir>)
    ensures forall d, e :: d in dirs && e in d.files && Accepts(c, e) ==> Record(d.root, e) in DirsMatches(c, dirs)
  {
    if dirs != [] {
      var init := dirs[..|dirs| - 1];
      var last := dirs[|dirs| - 1];
      DirsMatchesComplete(c, init);
      DirMatchesComplete(c, last.root, last.files);
      forall d, e | d in dirs && e in d.files && Accepts(c, e)
        ensures Record(d.root, e) in DirsMatches(c, dirs)
      {
        if d !in init {
          assert dirs == init + [last];
          assert d == last;
        }
      }
    }
  }

  /** An uncancelled search lists every accepted file of every scanned directory. */
  lemma {:induction false} AllMatchesComplete(c: Criteria, folders: seq<Folder>, includeSubfolders: bool)
    ensures forall f, d, e ::
      (f in folders && d in FolderDirs(f, includeSubfolders) && e in d.files && Accepts(c, e)) ==>
        Record(d.root, e) in AllMatches(c, folders, includeSubfolders)
  {
    if folders != [] {
      var init := folders[..|folders| - 1];
      var last := folders[|folders| - 1];
      AllMatchesComplete(c, init, includeSubfolders);
      DirsMatchesComplete(c, FolderDirs(last, includeSubfolders));
      forall f, d, e | f in folders && d in FolderDirs(f, includeSubfolders) && e in d.files && Accepts(c, e)
        ensures Record(d.root, e) in AllMatches(c, folders, includeSubfolders)
      {
        if f !in init {
          assert folders == init + [last];
          assert f == last;
        }
      }
    }
  }

  /** Without subfolders, only files listed directly in an existing folder are looked at. */
  lemma TopLevelOnly(f: Folder)
    requires f.present && f.listing.Some?
    ensures FolderDirs(f, false) == [Dir(f.path, f.listing.value)]
  {
  }
}
