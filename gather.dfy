/** The FileGatherPro window's state and the operations that change it: the operation log,
    a search, deleting the found files from the disk, and copying them into a target folder.

    The disk is given as values: the set of paths that exist, and for the paths whose delete or
    copy raises, the exception's message. */
module Gather {
  import opened Text
  import opened Filter
  import opened Conflict
  import opened Scan

  /** The log entry a search starts with; `typeLabel` is the text shown in the file-type box. */
  function StartEntry(keyword: string, typeLabel: string): string
  {
    "开始搜索，关键词: " + keyword + "，文件类型: " + typeLabel
  }

  function EndEntry(cancelled: bool, found: nat): string
  {
    if cancelled then "搜索已取消" else "搜索完成，找到 " + Decimal(found) + " 个文件"
  }

  function DeleteEntry(path: string): string { "删除文件: " + path }
  function CopyEntry(dst: string): string { "复制文件到目标文件夹: " + dst }

  /** An entry of a failure list: the path and, in parentheses, why. */
  function Failure(path: string, reason: string): string { path + " (" + reason + ")" }

  const NOT_FOUND: string := "文件不存在"

  /** The entry cancel_search_action logs when the cancel button is pressed. */
  const CANCEL_ENTRY: string := "取消搜索"

  // ---------------------------------------------------------------------------------------
  // The delete pass, as a value.

  datatype DeleteState = DeleteState(
    present: set<string>, remaining: seq<FileInfo>, successCount: nat,
    errorFiles: seq<string>, log: seq<string>, removed: set<string>)

  /** One record: a missing file and a failing unlink keep the record and add a failure; a
      deleted file leaves the disk, is counted and logged. */
  function DeleteStep(s: DeleteState, r: FileInfo, unlinkErrors: map<string, string>): DeleteState
  {
    if r.path !in s.present then
      s.(remaining := s.remaining + [r], errorFiles := s.errorFiles + [Failure(r.path, NOT_FOUND)])
    else if r.path in unlinkErrors then
      s.(remaining := s.remaining + [r], errorFiles := s.errorFiles + [Failure(r.path, unlinkErrors[r.path])])
    else
      s.(present := s.present - {r.path}, successCount := s.successCount + 1,
         log := s.log + [DeleteEntry(r.path)], removed := s.removed + {r.path})
  }

  function DeleteRun(records: seq<FileInfo>, s: DeleteState, unlinkErrors: map<string, string>): DeleteState
  {
    if records == [] then s
    else DeleteStep(DeleteRun(records[..|records| - 1], s, unlinkErrors), records[|records| - 1], unlinkErrors)
  }

  /** Whether an earlier record has the same path as record k. */
  predicate Repeated(records: seq<FileInfo>, k: int)
    requires 0 <= k < |records|
  {
    exists j :: 0 <= j < k && records[j].path == records[k].path
  }

  /** Whether a pass keeps record k: its file was missing from the start, its unlink raises,
      or an earlier record with the same path was handled first (and either removed the file
      or failed the same way). */
  predicate Stays(records: seq<FileInfo>, k: int, present: set<string>, unlinkErrors: map<string, string>)
    requires 0 <= k < |records|
  {
    records[k].path !in present || records[k].path in unlinkErrors || Repeated(records, k)
  }

  /** The records a delete pass keeps, in order: those that stay. */
  function Undeletable(records: seq<FileInfo>, present: set<string>, unlinkErrors: map<string, string>): (r: seq<FileInfo>)
    ensures |r| <= |records|
    ensures forall x :: x in r ==> exists k :: 0 <= k < |records| && records[k] == x && Stays(records, k, present, unlinkErrors)
  {
    if records == [] then []
    else
      var init := records[..|records| - 1];
      var r := Undeletable(init, present, unlinkErrors) + (if Stays(records, |records| - 1, present, unlinkErrors) then [records[|records| - 1]] else []);
      assert forall x :: x in r ==> exists k :: 0 <= k < |records| && records[k] == x && Stays(records, k, present, unlinkErrors) by {
        forall x | x in Undeletable(init, present, unlinkErrors)
          ensures exists k :: 0 <= k < |records| && records[k] == x && Stays(records, k, present, unlinkErrors)
        {
          var k :| 0 <= k < |init| && init[k] == x && Stays(init, k, present, unlinkErrors);
          assert records[k] == init[k];
          if Repeated(init, k) {
            var j :| 0 <= j < k && init[j].path == init[k].path;
            assert records[j] == init[j];
          }
          assert Stays(records, k, present, unlinkErrors);
        }
      }
      r
  }

  predicate DistinctPaths(records: seq<FileInfo>)
  {
    forall i, j :: 0 <= i < j < |records| ==> records[i].path != records[j].path
  }

  lemma DeleteRunSnoc(records: seq<FileInfo>, i: nat, s: DeleteState, unlinkErrors: map<string, string>)
    requires i < |records|
    ensures DeleteRun(records[..i + 1], s, unlinkErrors) == DeleteStep(DeleteRun(records[..i], s, unlinkErrors), records[i], unlinkErrors)
  {
    assert records[..i + 1][..i] == records[..i];
  }

  /** Every record is either deleted and counted, or kept with one failure entry. */
  lemma {:induction false} DeleteTally(records: seq<FileInfo>, s: DeleteState, unlinkErrors: map<string, string>)
    ensures var t := DeleteRun(records, s, unlinkErrors);
      t.successCount + |t.errorFiles| == s.successCount + |s.errorFiles| + |records|
      && |t.remaining| - |s.remaining| == |t.errorFiles| - |s.errorFiles|
      && |t.log| - |s.log| == t.successCount - s.successCount
  {
    if records != [] {
      DeleteTally(records[..|records| - 1], s, unlinkErrors);
    }
  }

  /** A pass removes from the disk exactly the paths of the records whose unlink does not raise. */
  lemma {:induction false} DeletePresent(records: seq<FileInfo>, s: DeleteState, unlinkErrors: map<string, string>)
    ensures DeleteRun(records, s, unlinkErrors).present
      == s.present - set r | r in records && r.path !in unlinkErrors :: r.path
  {
    if records != [] {
      var init := records[..|records| - 1];
      var last := records[|records| - 1];
      DeletePresent(init, s, unlinkErrors);
      UnlinkedSnoc(records, unlinkErrors);
    }
  }

  /** The paths a pass unlinks grow by the last record's path when its unlink does not raise. */
  lemma UnlinkedSnoc(records: seq<FileInfo>, unlinkErrors: map<string, string>)
    requires records != []
    ensures var last := records[|records| - 1];
      (set r | r in records && r.path !in unlinkErrors :: r.path)
      == (set r | r in records[..|records| - 1] && r.path !in unlinkErrors :: r.path)
         + (if last.path !in unlinkErrors then {last.path} else {})
  {
    var init := records[..|records| - 1];
    var last := records[|records| - 1];
    assert records == init + [last];
    var gone := set r | r in records && r.path !in unlinkErrors :: r.path;
    var goneBefore := set r | r in init && r.path !in unlinkErrors :: r.path;
    forall p | p in gone ensures p in goneBefore || (p == last.path && last.path !in unlinkErrors) {
      var r :| r in records && r.path !in unlinkErrors && r.path == p;
      if r != last {
        assert r in init;
      }
    }
  }

  /** After a pass, a record's file is still on the disk iff it was there and unlinking it raised. */
  lemma FileStaysIffUnlinkFails(records: seq<FileInfo>, s: DeleteState, unlinkErrors: map<string, string>)
    ensures forall r :: r in records ==>
      (r.path in DeleteRun(records, s, unlinkErrors).present <==> r.path in s.present && r.path in unlinkErrors)
  {
    DeletePresent(records, s, unlinkErrors);
  }

  /** The records kept are exactly those that stay, in their order: a record whose path an
      earlier record already deleted is kept as missing. */
  lemma {:induction false} DeleteKeepsUndeletable(records: seq<FileInfo>, s: DeleteState, unlinkErrors: map<string, string>)
    ensures DeleteRun(records, s, unlinkErrors).remaining == s.remaining + Undeletable(records, s.present, unlinkErrors)
  {
    if records != [] {
      var init := records[..|records| - 1];
      var last := records[|records| - 1];
      DeleteKeepsUndeletable(init, s, unlinkErrors);
      LastStays(records, s, unlinkErrors);
    }
  }

  /** The last record is kept by its step iff it stays. */
  lemma LastStays(records: seq<FileInfo>, s: DeleteState, unlinkErrors: map<string, string>)
    requires records != []
    ensures var before := DeleteRun(records[..|records| - 1], s, unlinkErrors);
      var last := records[|records| - 1];
      (last.path !in before.present || last.path in unlinkErrors) <==> Stays(records, |records| - 1, s.present, unlinkErrors)
  {
    var init := records[..|records| - 1];
    var last := records[|records| - 1];
    var n := |records| - 1;
    DeletePresent(init, s, unlinkErrors);
    if Repeated(records, n) {
      var j :| 0 <= j < n && records[j].path == last.path;
      assert init[j] == records[j];
    }
    if last.path !in DeleteRun(init, s, unlinkErrors).present && last.path in s.present && last.path !in unlinkErrors {
      var r :| r in init && r.path !in unlinkErrors && r.path == last.path;
      var j :| 0 <= j < |init| && init[j] == r;
      assert records[j] == r;
    }
  }

  /** With distinct paths no record is repeated, so exactly the missing and failing ones stay. */
  lemma DistinctStays(records: seq<FileInfo>, k: nat, present: set<string>, unlinkErrors: map<string, string>)
    requires DistinctPaths(records) && k < |records|
    ensures Stays(records, k, present, unlinkErrors) <==> records[k].path !in present || records[k].path in unlinkErrors
  {
  }

  /** Two records with one path (two overlapping search folders): the first deletes the file, the
      second finds it missing and is kept with a not-found failure. */
  lemma DuplicateKeptAsMissing(a: FileInfo, b: FileInfo, present: set<string>, unlinkErrors: map<string, string>)
    requires a.path == b.path && a.path in present && a.path !in unlinkErrors
    ensures var t := DeleteRun([a, b], DeleteState(present, [], 0, [], [], {}), unlinkErrors);
      t.remaining == [b] && t.errorFiles == [Failure(b.path, NOT_FOUND)] && t.successCount == 1
      && t.log == [DeleteEntry(a.path)] && a.path !in t.present
  {
    var s0 := DeleteState(present, [], 0, [], [], {});
    assert [a][..0] == [];
    assert DeleteRun([a], s0, unlinkErrors) == DeleteStep(s0, a, unlinkErrors);
    assert [a, b][..1] == [a];
    assert DeleteRun([a, b], s0, unlinkErrors) == DeleteStep(DeleteStep(s0, a, unlinkErrors), b, unlinkErrors);
  }

  // ---------------------------------------------------------------------------------------
  // The copy pass, as a value.

  datatype CopyState = CopyState(log: seq<string>, sources: set<string>, errorFiles: seq<string>)

  /** Where a record is copied to: its name, or the new name the conflict dialog settled on. */
  function Destination(target: string, r: FileInfo, useNewName: bool): string
    requires useNewName ==> r.newName.Some?
  {
    JoinPath(target, if useNewName then r.newName.value else r.name)
  }

  predicate AllNamed(records: seq<FileInfo>)
  {
    forall k :: 0 <= k < |records| ==> records[k].newName.Some?
  }

  function CopyRun(records: seq<FileInfo>, target: string, useNewName: bool, copyErrors: map<string, string>): CopyState
    requires useNewName ==> AllNamed(records)
  {
    if records == [] then CopyState([], {}, [])
    else CopyStep(CopyRun(records[..|records| - 1], target, useNewName, copyErrors), records[|records| - 1], target, useNewName, copyErrors)
  }

  /** One record: a failing copy adds a failure, a successful one is logged with its source. */
  function CopyStep(s: CopyState, r: FileInfo, target: string, useNewName: bool, copyErrors: map<string, string>): CopyState
    requires useNewName ==> r.newName.Some?
  {
    if r.path in copyErrors then s.(errorFiles := s.errorFiles + [Failure(r.path, copyErrors[r.path])])
    else s.(log := s.log + [CopyEntry(Destination(target, r, useNewName))], sources := s.sources + {r.path})
  }

  lemma CopyRunSnoc(records: seq<FileInfo>, i: nat, target: string, useNewName: bool, copyErrors: map<string, string>)
    requires i < |records| && (useNewName ==> AllNamed(records))
    ensures useNewName ==> AllNamed(records[..i]) && AllNamed(records[..i + 1])
    ensures CopyRun(records[..i + 1], target, useNewName, copyErrors)
      == CopyStep(CopyRun(records[..i], target, useNewName, copyErrors), records[i], target, useNewName, copyErrors)
  {
    assert records[..i + 1][..i] == records[..i];
  }

  /** Every record is either copied and logged or listed as a failure, so N - len(error_files)
      counts the copies. */
  lemma {:induction false} CopyTally(records: seq<FileInfo>, target: string, useNewName: bool, copyErrors: map<string, string>)
    requires useNewName ==> AllNamed(records)
    ensures |CopyRun(records, target, useNewName, copyErrors).log| + |CopyRun(records, target, useNewName, copyErrors).errorFiles| == |records|
  {
    if records != [] {
      CopyTally(records[..|records| - 1], target, useNewName, copyErrors);
    }
  }

  /** When nothing raises, every record is copied to its destination, in order. */
  lemma {:induction false} CopyAllSucceed(records: seq<FileInfo>, target: string, useNewName: bool, copyErrors: map<string, string>)
    requires useNewName ==> AllNamed(records)
    requires forall k :: 0 <= k < |records| ==> records[k].path !in copyErrors
    ensures CopyRun(records, target, useNewName, copyErrors).errorFiles == []
    ensures CopyRun(records, target, useNewName, copyErrors).log
      == seq(|records|, k requires 0 <= k < |records| => CopyEntry(Destination(target, records[k], useNewName)))
  {
    if records != [] {
      CopyAllSucceed(records[..|records| - 1], target, useNewName, copyErrors);
    }
  }

  datatype CopyOutcome = NoTarget | NothingToCopy | NotWritable | DialogClosed | Copied(copied: nat, errorFiles: seq<string>)

  /** The names of records that are already in the target folder. */
  function ConflictNames(records: seq<FileInfo>, taken: set<string>): set<string>
  {
    set r | r in records && r.name in taken :: r.name
  }

  /** What a search leaves behind: a prefix of all accepted records, all of them unless the
      flag was seen, the flag only when one was raised, and every record passing the filters. */
  predicate SearchOutcome(c: Criteria, folders: seq<Folder>, includeSubfolders: bool, cancelAt: Option<nat>,
                          results: seq<FileInfo>, cancelled: bool)
  {
    results <= AllMatches(c, folders, includeSubfolders)
    && (!cancelled ==> results == AllMatches(c, folders, includeSubfolders))
    && (cancelAt.None? ==> !cancelled)
    && (forall r :: r in results ==> RecordPasses(c, r))
  }

  /** The scan of start_search, with the count of records found. */
  method Search(c: Criteria, folders: seq<Folder>, includeSubfolders: bool, cancelAt: Option<nat>)
    returns (results: seq<FileInfo>, found: nat, cancelled: bool)
    ensures SearchOutcome(c, folders, includeSubfolders, cancelAt, results, cancelled) && found == |results|
  {
    results, found, cancelled := ScanFolders(c, folders, includeSubfolders, cancelAt);
    PrefixPasses(c, folders, includeSubfolders, results);
  }

  /** Every record of a partial search passes the filters. */
  lemma PrefixPasses(c: Criteria, folders: seq<Folder>, includeSubfolders: bool, results: seq<FileInfo>)
    requires results <= AllMatches(c, folders, includeSubfolders)
    ensures forall r :: r in results ==> RecordPasses(c, r)
  {
    AllMatchesPass(c, folders, includeSubfolders);
    forall r | r in results ensures RecordPasses(c, r) {
      var k :| 0 <= k < |results| && results[k] == r;
      assert AllMatches(c, folders, includeSubfolders)[k] == r;
    }
  }

  // ---------------------------------------------------------------------------------------
  // The window.

  class FileGatherPro {
    var searchResults: seq<FileInfo>
    var foundFilesCount: nat
    /** The log entries, without their timestamps. */
    var operationLog: seq<string>
    var operatedFiles: set<string>
    var cancelSearch: bool

    constructor ()
      ensures searchResults == [] && foundFilesCount == 0 && operationLog == [] && operatedFiles == {}
      ensures !cancelSearch
    {
      searchResults := [];
      foundFilesCount := 0;
      operationLog := [];
      operatedFiles := {};
      cancelSearch := false;
    }

    /** add_log: one entry more, and the path among the operated files when one is given. */
    method AddLog(action: string, path: Option<string>)
      modifies this
      ensures operationLog == old(operationLog) + [action]
      ensures operatedFiles == if path.Some? then old(operatedFiles) + {path.value} else old(operatedFiles)
      ensures searchResults == old(searchResults) && foundFilesCount == old(foundFilesCount)
      ensures cancelSearch == old(cancelSearch)
    {
      operationLog := operationLog + [action];
      if path.Some? {
        operatedFiles := operatedFiles + {path.value};
      }
    }

    /** start_search. With no search folder nothing happens. Otherwise the start is logged; a
        cancelled or empty custom-types dialog ends the search there. Otherwise the results are
        replaced by those of the scan, which is a prefix of the uncancelled search's results and
        all of them unless the flag was seen, and the end is logged, after the entry of the
        cancel button when it was pressed during the scan. */
    method StartSearch(folders: seq<Folder>, keyword: string, choice: TypeChoice, typeLabel: string,
                       customTypes: Option<string>, includeSubfolders: bool, mode: SearchMode,
                       size: SizeRange, dates: DateRange, cancelAt: Option<nat>)
      modifies this
      ensures operatedFiles == old(operatedFiles)
      ensures folders == [] ==>
        searchResults == old(searchResults) && foundFilesCount == old(foundFilesCount)
        && operationLog == old(operationLog) && cancelSearch == old(cancelSearch)
      ensures folders != [] && ResolveTypes(choice, customTypes).None? ==>
        searchResults == old(searchResults) && foundFilesCount == old(foundFilesCount)
        && operationLog == old(operationLog) + [StartEntry(keyword, typeLabel)] && !cancelSearch
      ensures folders != [] && ResolveTypes(choice, customTypes).Some? ==>
        var c := Criteria(keyword, ResolveTypes(choice, customTypes).value, size, dates, mode);
        SearchOutcome(c, folders, includeSubfolders, cancelAt, searchResults, cancelSearch)
        && foundFilesCount == |searchResults|
        && operationLog == old(operationLog) + [StartEntry(keyword, typeLabel)]
           + (if cancelSearch then [CANCEL_ENTRY] else []) + [EndEntry(cancelSearch, |searchResults|)]
    {
      if folders == [] {
        return;
      }
      cancelSearch := false;
      AddLog(StartEntry(keyword, typeLabel), None);
      var types := ResolveTypes(choice, customTypes);
      if types.None? {
        return;
      }
      RunSearch(Criteria(keyword, types.value, size, dates, mode), folders, includeSubfolders, cancelAt);
    }

    /** The second half of start_search, once the extension list is known: the results are
        cleared, replaced by those of the scan, and the end of the search is logged. */
    method RunSearch(c: Criteria, folders: seq<Folder>, includeSubfolders: bool, cancelAt: Option<nat>)
      modifies this
      ensures SearchOutcome(c, folders, includeSubfolders, cancelAt, searchResults, cancelSearch)
      ensures foundFilesCount == |searchResults| && operatedFiles == old(operatedFiles)
      ensures operationLog == old(operationLog) + (if cancelSearch then [CANCEL_ENTRY] else [])
        + [EndEntry(cancelSearch, |searchResults|)]
    {
      searchResults := [];
      foundFilesCount := 0;
      var results, found, cancelled := Search(c, folders, includeSubfolders, cancelAt);
      searchResults, foundFilesCount := results, found;
      // The press happened in one of the scan's processEvents calls, and the scan itself logs
      // nothing, so its entry falls between the start entry and the end entry.
      if cancelled {
        CancelSearchAction();
      } else {
        cancelSearch := false;
      }
      AddLog(EndEntry(cancelSearch, foundFilesCount), None);
    }

    /** cancel_search_action: the flag is set and the press is logged. The button is disabled
        by the press and enabled again only by the next search, so a search sees one press at most. */
    method CancelSearchAction()
      modifies this
      ensures cancelSearch
      ensures operationLog == old(operationLog) + [CANCEL_ENTRY] && operatedFiles == old(operatedFiles)
      ensures searchResults == old(searchResults) && foundFilesCount == old(foundFilesCount)
    {
      cancelSearch := true;
      AddLog(CANCEL_ENTRY, None);
    }

    /** delete_files. `confirmed` is the answer to both warnings. The found count is left as it is. */
    method DeleteFiles(confirmed: bool, present: set<string>, unlinkErrors: map<string, string>)
      returns (stillPresent: set<string>, successCount: nat, errorFiles: seq<string>)
      modifies this
      ensures foundFilesCount == old(foundFilesCount) && cancelSearch == old(cancelSearch)
      ensures old(searchResults) == [] || !confirmed ==>
        stillPresent == present && successCount == 0 && errorFiles == []
        && searchResults == old(searchResults) && operationLog == old(operationLog) && operatedFiles == old(operatedFiles)
      ensures old(searchResults) != [] && confirmed ==>
        var t := DeleteRun(old(searchResults), DeleteState(present, [], 0, [], [], {}), unlinkErrors);
        searchResults == t.remaining && stillPresent == t.present
        && successCount == t.successCount && errorFiles == t.errorFiles
        && operationLog == old(operationLog) + t.log && operatedFiles == old(operatedFiles) + t.removed
    {
      stillPresent, successCount, errorFiles := present, 0, [];
      if searchResults == [] || !confirmed {
        return;
      }
      var records := searchResults;
      ghost var log0, ops0 := operationLog, operatedFiles;
      ghost var s0 := DeleteState(present, [], 0, [], [], {});
      ghost var t := s0;
      var remaining: seq<FileInfo> := [];
      var i := 0;
      while i < |records|
        invariant 0 <= i <= |records| && searchResults == records
        invariant foundFilesCount == old(foundFilesCount) && cancelSearch == old(cancelSearch)
        invariant t == DeleteRun(records[..i], s0, unlinkErrors)
        invariant remaining == t.remaining && stillPresent == t.present && successCount == t.successCount
        invariant errorFiles == t.errorFiles && operationLog == log0 + t.log && operatedFiles == ops0 + t.removed
      {
        var r := records[i];
        DeleteRunSnoc(records, i, s0, unlinkErrors);
        t := DeleteStep(t, r, unlinkErrors);
        if r.path !in stillPresent {
          errorFiles := errorFiles + [Failure(r.path, NOT_FOUND)];
          remaining := remaining + [r];
        } else if r.path in unlinkErrors {
          errorFiles := errorFiles + [Failure(r.path, unlinkErrors[r.path])];
          remaining := remaining + [r];
        } else {
          stillPresent := stillPresent - {r.path};
          AddLog(DeleteEntry(r.path), Some(r.path));
          successCount := successCount + 1;
        }
        i := i + 1;
      }
      assert records[..i] == records;
      searchResults := remaining;
    }

    /** The copy loop of both copy methods: each record is copied or its failure recorded. */
    method CopyEach(records: seq<FileInfo>, target: string, useNewName: bool, copyErrors: map<string, string>)
      returns (errorFiles: seq<string>)
      requires useNewName ==> AllNamed(records)
      modifies this
      ensures searchResults == old(searchResults) && foundFilesCount == old(foundFilesCount)
      ensures cancelSearch == old(cancelSearch)
      ensures var t := CopyRun(records, target, useNewName, copyErrors);
        errorFiles == t.errorFiles && operationLog == old(operationLog) + t.log
        && operatedFiles == old(operatedFiles) + t.sources
    {
      errorFiles := [];
      ghost var log0, ops0 := operationLog, operatedFiles;
      ghost var t := CopyState([], {}, []);
      var i := 0;
      while i < |records|
        invariant 0 <= i <= |records|
        invariant searchResults == old(searchResults) && foundFilesCount == old(foundFilesCount)
        invariant cancelSearch == old(cancelSearch)
        invariant t == CopyRun(records[..i], target, useNewName, copyErrors)
        invariant errorFiles == t.errorFiles && operationLog == log0 + t.log && operatedFiles == ops0 + t.sources
      {
        var r := records[i];
        CopyRunSnoc(records, i, target, useNewName, copyErrors);
        t := CopyStep(t, r, target, useNewName, copyErrors);
        var dst := JoinPath(target, if useNewName then r.newName.value else r.name);
        if r.path in copyErrors {
          errorFiles := errorFiles + [Failure(r.path, copyErrors[r.path])];
        } else {
          AddLog(CopyEntry(dst), Some(r.path));
        }
        i := i + 1;
      }
      assert records[..i] == records;
    }

    /** copy_files_without_conflicts: every result to its own name in the target. */
    method CopyFilesWithoutConflicts(target: string, copyErrors: map<string, string>)
      returns (copied: nat, errorFiles: seq<string>)
      modifies this
      ensures searchResults == old(searchResults) && foundFilesCount == old(foundFilesCount)
      ensures cancelSearch == old(cancelSearch)
      ensures var t := CopyRun(searchResults, target, false, copyErrors);
        errorFiles == t.errorFiles && copied == |t.log|
        && operationLog == old(operationLog) + t.log && operatedFiles == old(operatedFiles) + t.sources
    {
      errorFiles := CopyEach(searchResults, target, false, copyErrors);
      CopyTally(searchResults, target, false, copyErrors);
      copied := |searchResults| - |errorFiles|;
    }

    /** copy_selected_files: each chosen record to its new name in the target. */
    method CopySelectedFiles(files: seq<FileInfo>, target: string, copyErrors: map<string, string>)
      returns (copied: nat, errorFiles: seq<string>)
      requires AllNamed(files)
      modifies this
      ensures searchResults == old(searchResults) && foundFilesCount == old(foundFilesCount)
      ensures cancelSearch == old(cancelSearch)
      ensures var t := CopyRun(files, target, true, copyErrors);
        errorFiles == t.errorFiles && copied == |t.log|
        && operationLog == old(operationLog) + t.log && operatedFiles == old(operatedFiles) + t.sources
    {
      errorFiles := CopyEach(files, target, true, copyErrors);
      CopyTally(files, target, true, copyErrors);
      copied := |files| - |errorFiles|;
    }

    /** copy_files. `target` is "" when no target folder is chosen; `writable` says whether it
        exists and may be written; `taken` is the names it holds. When some result's name is taken
        the conflict dialog opens, the user presses `steps`, and `accepted` says whether OK closed
        it. The dialog edits the very records of the search results, so its decisions stay on
        them whether or not it was accepted. */
    method CopyFiles(target: string, writable: bool, taken: set<string>, steps: seq<DialogStep>,
                     accepted: bool, copyErrors: map<string, string>)
      returns (outcome: CopyOutcome)
      requires forall i, a, sel :: 0 <= i < |steps| && steps[i] == Choose(a, sel) ==>
        forall k :: k in sel ==> k < |searchResults|
      modifies this
      ensures foundFilesCount == old(foundFilesCount) && cancelSearch == old(cancelSearch)
      ensures target == [] ==> outcome == NoTarget
      ensures target != [] && old(searchResults) == [] ==> outcome == NothingToCopy
      ensures target != [] && old(searchResults) != [] && !writable ==> outcome == NotWritable
      ensures outcome.NoTarget? || outcome.NothingToCopy? || outcome.NotWritable? ==>
        searchResults == old(searchResults) && operationLog == old(operationLog) && operatedFiles == old(operatedFiles)
      ensures target != [] && old(searchResults) != [] && writable && ConflictNames(old(searchResults), taken) == {} ==>
        var t := CopyRun(old(searchResults), target, false, copyErrors);
        outcome == Copied(|t.log|, t.errorFiles) && searchResults == old(searchResults)
        && operationLog == old(operationLog) + t.log && operatedFiles == old(operatedFiles) + t.sources
      ensures target != [] && old(searchResults) != [] && writable && ConflictNames(old(searchResults), taken) != {} ==>
        var d := AfterSteps(Opened(old(searchResults), taken), steps, taken);
        if accepted then
          var t := CopyRun(Selection(d.files, taken), target, true, copyErrors);
          outcome == Copied(|t.log|, t.errorFiles) && searchResults == FinalisedAll(d.files, taken)
          && operationLog == old(operationLog) + t.log && operatedFiles == old(operatedFiles) + t.sources
        else
          outcome == DialogClosed && searchResults == d.files
          && operationLog == old(operationLog) && operatedFiles == old(operatedFiles)
    {
      if target == [] {
        return NoTarget;
      }
      if searchResults == [] {
        return NothingToCopy;
      }
      if !writable {
        return NotWritable;
      }
      var existing := FindConflicts(searchResults, taken);
      if existing == {} {
        var copied, errorFiles := CopyFilesWithoutConflicts(target, copyErrors);
        return Copied(copied, errorFiles);
      }
      outcome := ResolveAndCopy(target, taken, steps, accepted, copyErrors);
    }

    /** The conflict-dialog branch of copy_files. */
    method ResolveAndCopy(target: string, taken: set<string>, steps: seq<DialogStep>,
                          accepted: bool, copyErrors: map<string, string>)
      returns (outcome: CopyOutcome)
      requires forall i, a, sel :: 0 <= i < |steps| && steps[i] == Choose(a, sel) ==>
        forall k :: k in sel ==> k < |searchResults|
      modifies this
      ensures foundFilesCount == old(foundFilesCount) && cancelSearch == old(cancelSearch)
      ensures var d := AfterSteps(Opened(old(searchResults), taken), steps, taken);
        if accepted then
          var t := CopyRun(Selection(d.files, taken), target, true, copyErrors);
          outcome == Copied(|t.log|, t.errorFiles) && searchResults == FinalisedAll(d.files, taken)
          && operationLog == old(operationLog) + t.log && operatedFiles == old(operatedFiles) + t.sources
        else
          outcome == DialogClosed && searchResults == d.files
          && operationLog == old(operationLog) && operatedFiles == old(operatedFiles)
    {
      var dialog := new FileConflictDialog(searchResults, taken);
      assert Decisions(dialog.files, dialog.texts) == Opened(old(searchResults), taken);
      PressAll(dialog, steps);
      if accepted {
        ghost var decided := dialog.files;
        var toCopy := dialog.GetSelectedFiles();
        searchResults := dialog.files;
        SelectionNames(decided, taken);
        assert AllNamed(toCopy) by {
          forall k | 0 <= k < |toCopy| ensures toCopy[k].newName.Some? {
            assert toCopy[k] in toCopy;
          }
        }
        var copied, errorFiles := CopySelectedFiles(toCopy, target, copyErrors);
        outcome := Copied(copied, errorFiles);
      } else {
        searchResults := dialog.files;
        outcome := DialogClosed;
      }
    }
  }

  /** The loop of copy_files that collects the names already in the target. */
  method FindConflicts(records: seq<FileInfo>, taken: set<string>) returns (existing: set<string>)
    ensures existing == ConflictNames(records, taken)
  {
    existing := {};
    var i := 0;
    while i < |records|
      invariant 0 <= i <= |records|
      invariant existing == set r | r in records[..i] && r.name in taken :: r.name
    {
      assert records[..i + 1] == records[..i] + [records[i]];
      if records[i].name in taken {
        existing := existing + {records[i].name};
      }
      i := i + 1;
    }
    assert records[..i] == records;
  }
}
