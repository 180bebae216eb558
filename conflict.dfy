/** FileConflictDialog: per-file dispositions (overwrite, skip, rename) for copying search
    results into a target folder that already holds files of the same name.

    The target folder is the set of names it contains; it does not change while the dialog is
    open. A rename probes for the least k >= 1 such that stem + "_" + k + suffix is not in the
    folder. Each probe consults only the folder, so names handed out earlier in the same dialog
    are not taken into account: two entries with the same name receive the same new name. */
module Conflict {
  import opened Text

  datatype Action = Overwrite | Skip | Rename

  /** One search result as the copy code sees it: the dict of search_results, with the two keys
      the dialog may add. */
  datatype FileInfo = FileInfo(
    path: string, name: string, size: nat, modDate: int,
    action: Option<Action>, newName: Option<string>)

  /** The marker the dialog puts after the name of an entry whose name is already in the target. */
  const MARK: string := "存在冲突"

  function InitialText(name: string, conflict: bool): string
  {
    name + " - " + (if conflict then MARK else "")
  }

  function OverwriteText(name: string): string { name + " - 将覆盖" }
  function SkipText(name: string): string { name + " - 将跳过" }
  function RenameText(name: string, newName: string): string { name + " -> " + newName }

  // ---------------------------------------------------------------------------------------
  // Rename probing.

  /** The k-th rename candidate: stem + "_" + k + suffix. */
  function Candidate(name: string, k: nat): string
  {
    Stem(name) + "_" + Decimal(k) + Suffix(name)
  }

  /** Different counters give different candidates. */
  lemma CandidateInjective(name: string, j: nat, k: nat)
    requires Candidate(name, j) == Candidate(name, k)
    ensures j == k
  {
    var p := Stem(name) + "_";
    var s := Candidate(name, j);
    assert s == p + Decimal(j) + Suffix(name);
    assert s == p + Decimal(k) + Suffix(name);
    assert |Decimal(j)| == |Decimal(k)|;
    assert Decimal(j) == s[|p|..|p| + |Decimal(j)|];
    assert Decimal(k) == s[|p|..|p| + |Decimal(k)|];
    DecimalInjective(j, k);
  }

  /** The candidates with counters 1 .. k-1. */
  ghost function Tried(name: string, k: nat): set<string>
  {
    set j | 1 <= j < k :: Candidate(name, j)
  }

  /** Trying a candidate that is taken shrinks the set of taken names not yet tried. */
  lemma TriedGrows(name: string, taken: set<string>, k: nat)
    requires k >= 1 && Candidate(name, k) in taken
    ensures taken - Tried(name, k + 1) < taken - Tried(name, k)
  {
    var c := Candidate(name, k);
    if c in Tried(name, k) {
      var j :| 1 <= j < k && Candidate(name, j) == c;
      CandidateInjective(name, j, k);
    }
    assert c in taken - Tried(name, k);
    assert c !in taken - Tried(name, k + 1);
  }

  /** The least counter from k on whose candidate is free. */
  function FirstFree(name: string, taken: set<string>, k: nat): (r: nat)
    requires k >= 1
    ensures r >= k && Candidate(name, r) !in taken
    ensures forall j :: k <= j < r ==> Candidate(name, j) in taken
    decreases taken - Tried(name, k)
  {
    if Candidate(name, k) !in taken then k
    else
      TriedGrows(name, taken, k);
      FirstFree(name, taken, k + 1)
  }

  /** The counter the rename loop stops at. */
  function LeastFree(name: string, taken: set<string>): (r: nat)
    ensures r >= 1 && Candidate(name, r) !in taken
    ensures forall j :: 1 <= j < r ==> Candidate(name, j) in taken
  {
    FirstFree(name, taken, 1)
  }

  function RenameTarget(name: string, taken: set<string>): string
  {
    Candidate(name, LeastFree(name, taken))
  }

  /** The generated name is never one the target already holds, has the shape
      stem + "_" + k + suffix, and no smaller k would have been free. */
  lemma RenameTargetFresh(name: string, taken: set<string>)
    ensures RenameTarget(name, taken) !in taken
    ensures exists k :: k >= 1 && RenameTarget(name, taken) == Stem(name) + "_" + Decimal(k) + Suffix(name)
    ensures forall k :: 1 <= k && Candidate(name, k) !in taken ==> LeastFree(name, taken) <= k
  {
    var k := LeastFree(name, taken);
    assert RenameTarget(name, taken) == Stem(name) + "_" + Decimal(k) + Suffix(name);
  }

  /** A folder that lacks the first candidate gets it. */
  lemma FirstCandidateWhenFree(name: string, taken: set<string>)
    requires Candidate(name, 1) !in taken
    ensures RenameTarget(name, taken) == Stem(name) + "_1" + Suffix(name)
  {
    assert Decimal(1) == "1";
    assert Stem(name) + "_" + "1" == Stem(name) + "_1";
  }

  /** Any counter with the least-free property is the one the probe finds. */
  lemma LeastFreeUnique(name: string, taken: set<string>, k: nat)
    requires k >= 1 && Candidate(name, k) !in taken
    requires forall j :: 1 <= j < k ==> Candidate(name, j) in taken
    ensures LeastFree(name, taken) == k
  {
  }

  /** The while loop with a counter that set_action, auto_rename_all and get_selected_files share. */
  method ProbeRename(name: string, taken: set<string>) returns (newName: string)
    ensures newName == RenameTarget(name, taken)
  {
    var counter := 1;
    newName := Candidate(name, counter);
    while newName in taken
      invariant counter >= 1 && newName == Candidate(name, counter)
      invariant forall j :: 1 <= j < counter ==> Candidate(name, j) in taken
      decreases taken - Tried(name, counter)
    {
      TriedGrows(name, taken, counter);
      counter := counter + 1;
      newName := Candidate(name, counter);
    }
    LeastFreeUnique(name, taken, counter);
  }

  // ---------------------------------------------------------------------------------------
  // Dispositions of one entry.

  /** What set_action does to one selected entry: the entry and its new list text. */
  function Applied(action: Action, f: FileInfo, taken: set<string>): (r: (FileInfo, string))
    ensures r.0.path == f.path && r.0.name == f.name && r.0.size == f.size && r.0.modDate == f.modDate
    ensures r.0.action == Some(action)
    ensures action == Overwrite ==> r.0.newName == Some(f.name) && r.1 == OverwriteText(f.name)
    ensures action == Skip ==> r.0.newName == f.newName && r.1 == SkipText(f.name)
    ensures action == Rename ==>
      (r.0.newName.Some? && r.0.newName.value !in taken && r.1 == RenameText(f.name, r.0.newName.value))
  {
    match action
    case Overwrite => (f.(action := Some(Overwrite), newName := Some(f.name)), OverwriteText(f.name))
    case Skip => (f.(action := Some(Skip)), SkipText(f.name))
    case Rename =>
      RenameTargetFresh(f.name, taken);
      var n := RenameTarget(f.name, taken);
      (f.(action := Some(Rename), newName := Some(n)), RenameText(f.name, n))
  }

  /** What get_selected_files does to an entry it keeps. A missing action counts as overwrite. */
  function Finalised(f: FileInfo, taken: set<string>): (r: FileInfo)
    ensures r.path == f.path && r.name == f.name && r.action == f.action
    ensures !IsSkip(f) ==> r.newName.Some?
    ensures f.action != Some(Rename) && f.action != Some(Skip) ==> r.newName == Some(f.name)
    ensures f.action == Some(Rename) && f.newName.Some? ==> r.newName == f.newName
    ensures f.action == Some(Rename) && f.newName.None? ==> r.newName.value !in taken
  {
    if f.action == Some(Rename) then
      if f.newName.Some? then f
      else
        RenameTargetFresh(f.name, taken);
        f.(newName := Some(RenameTarget(f.name, taken)))
    else if f.action == Some(Skip) then f
    else f.(newName := Some(f.name))
  }

  predicate IsSkip(f: FileInfo) { f.action == Some(Skip) }

  /** The entries that are not skipped, in their order. */
  function Kept(fs: seq<FileInfo>): (r: seq<FileInfo>)
    ensures |r| <= |fs|
    ensures forall k :: 0 <= k < |r| ==> !IsSkip(r[k]) && r[k] in fs
  {
    if fs == [] then []
    else (if IsSkip(fs[0]) then [] else [fs[0]]) + Kept(fs[1..])
  }

  function CountSkips(fs: seq<FileInfo>): nat
  {
    if fs == [] then 0 else (if IsSkip(fs[0]) then 1 else 0) + CountSkips(fs[1..])
  }

  /** The list get_selected_files returns. */
  function Selection(fs: seq<FileInfo>, taken: set<string>): (r: seq<FileInfo>)
    ensures forall k :: 0 <= k < |r| ==> !IsSkip(r[k]) && r[k].newName.Some?
  {
    if fs == [] then []
    else (if IsSkip(fs[0]) then [] else [Finalised(fs[0], taken)]) + Selection(fs[1..], taken)
  }

  /** The entries after get_selected_files: kept ones finalised in place, skipped ones as they were. */
  function FinalisedAll(fs: seq<FileInfo>, taken: set<string>): (r: seq<FileInfo>)
    ensures |r| == |fs|
    ensures forall k :: 0 <= k < |fs| ==> r[k] == Finalised(fs[k], taken)
  {
    if fs == [] then [] else [Finalised(fs[0], taken)] + FinalisedAll(fs[1..], taken)
  }

  /** get_selected_files drops exactly the skipped entries, keeps the order of the others, and
      finalises each kept entry. */
  lemma {:induction false} SelectionIsKeptFinalised(fs: seq<FileInfo>, taken: set<string>)
    ensures |Selection(fs, taken)| == |Kept(fs)| == |fs| - CountSkips(fs)
    ensures forall k :: 0 <= k < |Kept(fs)| ==> Selection(fs, taken)[k] == Finalised(Kept(fs)[k], taken)
  {
    if fs != [] {
      SelectionIsKeptFinalised(fs[1..], taken);
      var head: seq<FileInfo> := if IsSkip(fs[0]) then [] else [fs[0]];
      var selHead: seq<FileInfo> := if IsSkip(fs[0]) then [] else [Finalised(fs[0], taken)];
      assert Kept(fs) == head + Kept(fs[1..]);
      assert Selection(fs, taken) == selHead + Selection(fs[1..], taken);
      forall k | 0 <= k < |Kept(fs)|
        ensures Selection(fs, taken)[k] == Finalised(Kept(fs)[k], taken)
      {
        if k >= |head| {
          assert Kept(fs)[k] == Kept(fs[1..])[k - |head|];
          assert Selection(fs, taken)[k] == Selection(fs[1..], taken)[k - |head|];
        }
      }
    }
  }

  /** Every returned entry has a new name; a non-rename entry's new name is its own name, and a
      rename entry keeps a new name it already had. */
  lemma SelectionNames(fs: seq<FileInfo>, taken: set<string>)
    ensures forall r :: r in Selection(fs, taken) ==>
      !IsSkip(r) && r.newName.Some? && (r.action != Some(Rename) ==> r.newName == Some(r.name))
  {
    SelectionIsKeptFinalised(fs, taken);
    forall r | r in Selection(fs, taken)
      ensures !IsSkip(r) && r.newName.Some? && (r.action != Some(Rename) ==> r.newName == Some(r.name))
    {
      var k :| 0 <= k < |Selection(fs, taken)| && Selection(fs, taken)[k] == r;
      assert !IsSkip(Kept(fs)[k]);
    }
  }

  /** A marker in the text can only come from the marker itself, unless the name holds one. */
  lemma InitialTextMarksConflicts(name: string, conflict: bool)
    requires !Contains(name, MARK)
    ensures Contains(InitialText(name, conflict), MARK) <==> conflict
  {
    var t := InitialText(name, conflict);
    if conflict {
      assert OccursAt(t, MARK, |t| - |MARK|) by {
        assert t[|t| - |MARK|..] == MARK;
      }
      ContainsAt(t, MARK);
    } else {
      assert t == name + " - ";
      NoMarkAcross(name, " - ");
    }
  }

  /** A string none of whose characters end the marker adds no occurrence of it. */
  lemma NoMarkAcross(a: string, b: string)
    requires !Contains(a, MARK)
    requires MARK[|MARK| - 1] !in b
    ensures !Contains(a + b, MARK)
  {
    ContainsAt(a, MARK);
    ContainsAt(a + b, MARK);
    forall i | 0 <= i <= |a + b| - |MARK|
      ensures !OccursAt(a + b, MARK, i)
    {
      if i + |MARK| <= |a| {
        assert (a + b)[i..i + |MARK|] == a[i..i + |MARK|];
        assert !OccursAt(a, MARK, i);
      } else {
        var last := (a + b)[i + |MARK| - 1];
        assert last == b[i + |MARK| - 1 - |a|];
        assert last in b;
      }
    }
  }

  /** A file whose own name carries the marker is renamed by "rename all" even without a conflict. */
  lemma MarkedNameLooksConflicting(name: string)
    requires Contains(name, MARK)
    ensures Contains(InitialText(name, false), MARK)
  {
    ContainsAt(name, MARK);
    var i :| OccursAt(name, MARK, i);
    var t := InitialText(name, false);
    assert t[i..i + |MARK|] == name[i..i + |MARK|];
    assert OccursAt(t, MARK, i);
    ContainsAt(t, MARK);
  }

  // ---------------------------------------------------------------------------------------
  // The dialog.

  class FileConflictDialog {
    /** The dialog's entries; the caller's search results are these very records. */
    var files: seq<FileInfo>
    /** The list item text of each entry. */
    var texts: seq<string>
    /** The names present in the target folder. */
    const taken: set<string>

    predicate Valid()
      reads this
    {
      |texts| == |files|
    }

    /** Lists every entry, marking those whose name is already in the target. */
    constructor (entries: seq<FileInfo>, targetNames: set<string>)
      ensures Valid() && files == entries && taken == targetNames
      ensures forall k :: 0 <= k < |entries| ==>
        texts[k] == InitialText(entries[k].name, entries[k].name in targetNames)
    {
      files := entries;
      taken := targetNames;
      var t: seq<string> := [];
      var i := 0;
      while i < |entries|
        invariant 0 <= i <= |entries| && |t| == i
        invariant forall k :: 0 <= k < i ==> t[k] == InitialText(entries[k].name, entries[k].name in targetNames)
      {
        var conflict := if entries[i].name in targetNames then MARK else "";
        t := t + [entries[i].name + " - " + conflict];
        i := i + 1;
      }
      texts := t;
    }

    /** One of the overwrite, skip and rename buttons, applied to the selected entries; with no
        selection only a warning is shown. */
    method SetAction(action: Action, selected: set<nat>)
      requires Valid()
      requires forall k :: k in selected ==> k < |files|
      modifies this
      ensures Valid() && |files| == old(|files|)
      ensures forall k :: 0 <= k < |files| && k in selected ==>
        (files[k], texts[k]) == Applied(action, old(files[k]), taken)
      ensures forall k :: 0 <= k < |files| && k !in selected ==>
        files[k] == old(files[k]) && texts[k] == old(texts[k])
    {
      if selected == {} {
        return;
      }
      ghost var files0, texts0 := files, texts;
      var i := 0;
      while i < |files|
        invariant 0 <= i <= |files| && |files| == |files0| && |texts| == |files|
        invariant forall k :: 0 <= k < i && k in selected ==> (files[k], texts[k]) == Applied(action, files0[k], taken)
        invariant forall k :: (i <= k < |files| || k !in selected) && 0 <= k < |files| ==>
          files[k] == files0[k] && texts[k] == texts0[k]
      {
        if i in selected {
          var f, text := Apply(action, files[i], taken);
          files := files[i := f];
          texts := texts[i := text];
        }
        i := i + 1;
      }
    }

    /** "Rename all": every entry whose list text carries the conflict marker is renamed. */
    method AutoRenameAll()
      requires Valid()
      modifies this
      ensures Valid() && |files| == old(|files|)
      ensures forall k :: 0 <= k < |files| ==>
        if Contains(old(texts[k]), MARK)
        then (files[k], texts[k]) == Applied(Rename, old(files[k]), taken)
        else files[k] == old(files[k]) && texts[k] == old(texts[k])
    {
      ghost var files0, texts0 := files, texts;
      var i := 0;
      while i < |files|
        invariant 0 <= i <= |files| && |files| == |files0| && |texts| == |files|
        invariant forall k :: 0 <= k < i ==>
          if Contains(texts0[k], MARK)
          then (files[k], texts[k]) == Applied(Rename, files0[k], taken)
          else files[k] == files0[k] && texts[k] == texts0[k]
        invariant forall k :: i <= k < |files| ==> files[k] == files0[k] && texts[k] == texts0[k]
      {
        if Contains(texts[i], MARK) {
          var f, text := Apply(Rename, files[i], taken);
          files := files[i := f];
          texts := texts[i := text];
        }
        i := i + 1;
      }
    }

    /** "Overwrite all": every entry, conflicting or not, is marked for overwriting. */
    method OverwriteAll()
      requires Valid()
      modifies this
      ensures Valid() && |files| == old(|files|)
      ensures forall k :: 0 <= k < |files| ==> (files[k], texts[k]) == Applied(Overwrite, old(files[k]), taken)
    {
      ghost var files0, texts0 := files, texts;
      var i := 0;
      while i < |files|
        invariant 0 <= i <= |files| && |files| == |files0| && |texts| == |files|
        invariant forall k :: 0 <= k < i ==> (files[k], texts[k]) == Applied(Overwrite, files0[k], taken)
        invariant forall k :: i <= k < |files| ==> files[k] == files0[k] && texts[k] == texts0[k]
      {
        var f, text := Apply(Overwrite, files[i], taken);
        files := files[i := f];
        texts := texts[i := text];
        i := i + 1;
      }
    }

    /** The entries to copy. Kept entries get their new name set in place. */
    method GetSelectedFiles() returns (result: seq<FileInfo>)
      requires Valid()
      modifies this
      ensures Valid()
      ensures result == Selection(old(files), taken)
      ensures files == FinalisedAll(old(files), taken) && texts == old(texts)
    {
      result, files := SelectFrom(files, taken);
    }
  }

  /** The loop of get_selected_files over the entries: the kept entries, finalised, and the
      entries with each kept one finalised in place. */
  method SelectFrom(fs: seq<FileInfo>, taken: set<string>) returns (result: seq<FileInfo>, updated: seq<FileInfo>)
    ensures result == Selection(fs, taken)
    ensures updated == FinalisedAll(fs, taken)
  {
    result, updated := [], fs;
    var i := 0;
    while i < |fs|
      invariant 0 <= i <= |fs| && |updated| == |fs|
      invariant result == Selection(fs[..i], taken)
      invariant forall k :: 0 <= k < i ==> updated[k] == Finalised(fs[k], taken)
      invariant forall k :: i <= k < |fs| ==> updated[k] == fs[k]
    {
      result, updated := SelectOne(fs, i, taken, result, updated);
      i := i + 1;
    }
    assert fs[..i] == fs;
  }

  /** One entry of get_selected_files: a kept entry is finalised in place and selected. */
  method SelectOne(fs: seq<FileInfo>, i: nat, taken: set<string>, result: seq<FileInfo>, updated: seq<FileInfo>)
    returns (result': seq<FileInfo>, updated': seq<FileInfo>)
    requires i < |fs| && |updated| == |fs| && result == Selection(fs[..i], taken)
    ensures result' == Selection(fs[..i + 1], taken)
    ensures updated' == updated[i := Finalised(fs[i], taken)]
  {
    var f := fs[i];
    SelectionSnoc(fs[..i], f, taken);
    assert fs[..i + 1] == fs[..i] + [f];
    result', updated' := result, updated[i := f];
    if !IsSkip(f) {
      f := Finalise(f, taken);
      updated' := updated[i := f];
      result' := result + [f];
    }
  }

  /** The per-entry work of set_action: the entry's new disposition and its new list text. */
  method Apply(action: Action, f: FileInfo, taken: set<string>) returns (g: FileInfo, text: string)
    ensures (g, text) == Applied(action, f, taken)
  {
    match action {
      case Overwrite =>
        text := f.name + " - 将覆盖";
        g := f.(action := Some(Overwrite), newName := Some(f.name));
      case Skip =>
        text := f.name + " - 将跳过";
        g := f.(action := Some(Skip));
      case Rename =>
        var newName := ProbeRename(f.name, taken);
        text := f.name + " -> " + newName;
        g := f.(action := Some(Rename), newName := Some(newName));
    }
  }

  /** The per-entry work of get_selected_files for an entry it keeps. */
  method Finalise(f: FileInfo, taken: set<string>) returns (g: FileInfo)
    requires !IsSkip(f)
    ensures g == Finalised(f, taken)
  {
    g := f;
    if f.action == Some(Rename) {
      if f.newName.None? {
        var newName := ProbeRename(f.name, taken);
        g := f.(newName := Some(newName));
      }
    } else {
      g := f.(newName := Some(f.name));
    }
  }

  /** One button press on an open dialog. */
  method Press(dialog: FileConflictDialog, step: DialogStep)
    requires dialog.Valid()
    requires step.Choose? ==> forall k :: k in step.selected ==> k < |dialog.files|
    modifies dialog
    ensures dialog.Valid()
    ensures Decisions(dialog.files, dialog.texts) == AfterStep(old(Decisions(dialog.files, dialog.texts)), step, dialog.taken)
  {
    match step {
      case Choose(action, selected) =>
        dialog.SetAction(action, selected);
      case RenameAll =>
        dialog.AutoRenameAll();
      case OverwriteEvery =>
        dialog.OverwriteAll();
    }
  }

  /** The user's button presses between opening the dialog and closing it. */
  method PressAll(dialog: FileConflictDialog, steps: seq<DialogStep>)
    requires dialog.Valid()
    requires forall i, a, sel :: 0 <= i < |steps| && steps[i] == Choose(a, sel) ==>
      forall k :: k in sel ==> k < |dialog.files|
    modifies dialog
    ensures dialog.Valid()
    ensures Decisions(dialog.files, dialog.texts) == AfterSteps(old(Decisions(dialog.files, dialog.texts)), steps, dialog.taken)
  {
    ghost var start := Decisions(dialog.files, dialog.texts);
    var i := 0;
    while i < |steps|
      invariant 0 <= i <= |steps| && dialog.Valid()
      invariant Decisions(dialog.files, dialog.texts) == AfterSteps(start, steps[..i], dialog.taken)
    {
      assert steps[..i + 1][..i] == steps[..i];
      Press(dialog, steps[i]);
      i := i + 1;
    }
    assert steps[..i] == steps;
  }

  lemma {:induction false} SelectionSnoc(fs: seq<FileInfo>, f: FileInfo, taken: set<string>)
    ensures Selection(fs + [f], taken) == Selection(fs, taken) + (if IsSkip(f) then [] else [Finalised(f, taken)])
    decreases |fs|
  {
    if fs == [] {
      assert [f][1..] == [];
      assert [] + [f] == [f];
    } else {
      assert (fs + [f])[0] == fs[0];
      assert (fs + [f])[1..] == fs[1..] + [f];
      SelectionSnoc(fs[1..], f, taken);
    }
  }

  /** Two entries with the same name that both look conflicting get the same new name from
      "rename all": names are not kept unique within one copy. */
  lemma SameNameSameTarget(a: FileInfo, b: FileInfo, taken: set<string>)
    requires a.name == b.name
    ensures Applied(Rename, a, taken).0.newName == Applied(Rename, b, taken).0.newName
  {
  }

  // ---------------------------------------------------------------------------------------
  // The dialog's state as a value, for stating what a series of button presses leads to.

  /** The entries and their list texts. */
  datatype Decisions = Decisions(files: seq<FileInfo>, texts: seq<string>)

  /** One button press: overwrite, skip or rename on a selection, "rename all", "overwrite all". */
  datatype DialogStep = Choose(action: Action, selected: set<nat>) | RenameAll | OverwriteEvery

  /** The dialog as it opens. */
  function Opened(entries: seq<FileInfo>, taken: set<string>): (r: Decisions)
    ensures r.files == entries && |r.texts| == |entries|
    ensures forall k :: 0 <= k < |entries| ==> r.texts[k] == InitialText(entries[k].name, entries[k].name in taken)
  {
    Decisions(entries, seq(|entries|, k requires 0 <= k < |entries| => InitialText(entries[k].name, entries[k].name in taken)))
  }

  function AfterStep(d: Decisions, step: DialogStep, taken: set<string>): (r: Decisions)
    requires |d.texts| == |d.files|
    ensures |r.files| == |r.texts| == |d.files|
  {
    var n := |d.files|;
    match step
    case Choose(action, selected) =>
      Decisions(
        seq(n, k requires 0 <= k < n => if k in selected then Applied(action, d.files[k], taken).0 else d.files[k]),
        seq(n, k requires 0 <= k < n => if k in selected then Applied(action, d.files[k], taken).1 else d.texts[k]))
    case RenameAll =>
      Decisions(
        seq(n, k requires 0 <= k < n => if Contains(d.texts[k], MARK) then Applied(Rename, d.files[k], taken).0 else d.files[k]),
        seq(n, k requires 0 <= k < n => if Contains(d.texts[k], MARK) then Applied(Rename, d.files[k], taken).1 else d.texts[k]))
    case OverwriteEvery =>
      Decisions(
        seq(n, k requires 0 <= k < n => Applied(Overwrite, d.files[k], taken).0),
        seq(n, k requires 0 <= k < n => Applied(Overwrite, d.files[k], taken).1))
  }

  function AfterSteps(d: Decisions, steps: seq<DialogStep>, taken: set<string>): (r: Decisions)
    requires |d.texts| == |d.files|
    ensures |r.files| == |r.texts| == |d.files|
  {
    if steps == [] then d
    else AfterStep(AfterSteps(d, steps[..|steps| - 1], taken), steps[|steps| - 1], taken)
  }

  /** The dialog changes only the dispositions: every entry keeps its path, name, size and date. */
  lemma {:induction false} StepsKeepFiles(d: Decisions, steps: seq<DialogStep>, taken: set<string>)
    requires |d.texts| == |d.files|
    ensures forall k :: 0 <= k < |d.files| ==>
      var f := AfterSteps(d, steps, taken).files[k];
      f.path == d.files[k].path && f.name == d.files[k].name && f.size == d.files[k].size && f.modDate == d.files[k].modDate
    decreases |steps|
  {
    if steps != [] {
      StepsKeepFiles(d, steps[..|steps| - 1], taken);
    }
  }

  lemma {:induction false} KeptAll(fs: seq<FileInfo>)
    requires forall k :: 0 <= k < |fs| ==> !IsSkip(fs[k])
    ensures Kept(fs) == fs
  {
    if fs != [] {
      KeptAll(fs[1..]);
      assert fs == [fs[0]] + fs[1..];
    }
  }

  /** After "overwrite all", accepting copies every entry under its own name. */
  lemma OverwriteEverySelectsAll(d: Decisions, taken: set<string>)
    requires |d.texts| == |d.files|
    ensures |Selection(AfterStep(d, OverwriteEvery, taken).files, taken)| == |d.files|
    ensures forall k :: 0 <= k < |d.files| ==>
      Selection(AfterStep(d, OverwriteEvery, taken).files, taken)[k].path == d.files[k].path &&
      Selection(AfterStep(d, OverwriteEvery, taken).files, taken)[k].newName == Some(d.files[k].name)
  {
    var fs := AfterStep(d, OverwriteEvery, taken).files;
    KeptAll(fs);
    SelectionIsKeptFinalised(fs, taken);
  }

  /** With no button pressed on entries that carry no disposition yet, accepting copies every
      entry under its own name: a missing action means overwrite. */
  lemma UntouchedDefaultsToOverwrite(entries: seq<FileInfo>, taken: set<string>)
    requires forall k :: 0 <= k < |entries| ==> entries[k].action.None?
    ensures Selection(AfterSteps(Opened(entries, taken), [], taken).files, taken) ==
      seq(|entries|, k requires 0 <= k < |entries| => entries[k].(newName := Some(entries[k].name)))
  {
    KeptAll(entries);
    SelectionIsKeptFinalised(entries, taken);
  }
}
