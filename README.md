# FileGather Pro — model of the search, conflict, copy and delete core

FileGather Pro is a desktop tool that searches folders for files and then copies or deletes them.
- **Search.** The user picks folders, a keyword, a file-type group, a size range, a modification-date range and a search mode: file name, content, or both. `start_search` walks the folders, filters each file and collects the accepted ones in `search_results`.
- **Copy.** `copy_files` copies the results into a target folder. When names clash, it first opens the FileConflictDialog, where each entry is marked overwrite, skip or rename.
- **Delete.** `delete_files` removes the original files.
- **Log.** Every operation appends to an in-memory log.

This Dafny project models that core over an abstract file system.
- A folder is a given walk: a sequence of (root, files) pairs.
- A file is a record holding its name, readability, size, date and body.
- The target folder is the set of names already present in it.
- The outcome of each unlink or copy is a map from path to error text.

Modules, one per concern:
- `Text` — the string built-ins the code relies on: `lower`, `in`, `replace`, `strip`, `split`, whitespace splitting, pathlib's stem and suffix, and decimal rendering.
- `Keyword` — the keyword mini-language of `matches_keyword`. Quoted phrases are exact requirements, `+x` is required, `-x` is excluded, and bare tokens and the pieces of bar-separated tokens form an any-of set.
- `Extract` — `search_content`. It dispatches on the extension. Plain text is read with a 3000-character budget. PDF pages, DOCX paragraphs and XLSX cells are accumulated until the text is longer than 3000 characters.
- `Filter` — the per-file acceptance test of the scan loop, the preset ranges and type groups of the window, and the parsing of custom types.
- `Conflict` — the rename probe (`base_k.ext` for the least free `k ≥ 1`) and the dialog, as a class whose methods change the entries' dispositions.
- `Scan` — the folder → directory → file loops of `start_search`, with a polled cancel flag.
- `Wrap` — `_wrap_text`.
- `Gather` — the main window, as a class holding `search_results`, `found_files_count`, `operation_log` and `operated_files`, with its search, copy, delete and log methods.

The user's cancel button is modelled as `cancelAt`: the number of the first poll of `cancel_search` that reads it set. The flag stays set once set.

## Model

| member | source | states |
|---|---|---|
| Text.Lower | FileGather_Pro2.3.4.py:539 | lowering keeps the length and maps each character by the letter case mapping |
| Text.LowerIdempotent | FileGather_Pro2.3.4.py:552-561 | lowering an already lowered term changes nothing, so terms stored lowered compare equal to `text.lower()` |
| Text.ContainsAt | FileGather_Pro2.3.4.py:539 | the substring test holds iff the needle occurs at some index of the text |
| Text.FindQuoted | FileGather_Pro2.3.4.py:537 | each phrase found between double quotes is itself free of quotes; a quote-free keyword has no phrases |
| Text.Words | FileGather_Pro2.3.4.py:543-550 | splitting the stripped keyword on whitespace runs and skipping empty tokens yields non-empty tokens without whitespace |
| Text.WordsTwo | FileGather_Pro2.3.4.py:543 | two space-separated words split into exactly those two tokens |
| Text.SplitJoin | FileGather_Pro2.3.4.py:556 | splitting on a separator and joining with it gives back the original string |
| Text.JoinSplit | FileGather_Pro2.3.4.py:712 | joining separator-free parts and splitting again gives back the parts |
| Text.Strip | FileGather_Pro2.3.4.py:712 | a stripped string has no whitespace at either end and is unchanged when it had no whitespace |
| Text.StemSuffix | FileGather_Pro2.3.4.py:1575-1577 | pathlib's stem followed by its suffix is the whole file name |
| Text.Suffix | FileGather_Pro2.3.4.py:604 | a suffix is empty or a dot followed by at least one character and no further dot |
| Text.DecimalRoundTrip | FileGather_Pro2.3.4.py:1579 | the decimal rendering of the counter parses back to the counter |
| Keyword.MatchesKeyword | FileGather_Pro2.3.4.py:533-577 | the imperative matcher (phrase loop, token loop, early-return checks) returns exactly the `Matches` predicate |
| Keyword.SortTokens | FileGather_Pro2.3.4.py:544-558 | the token loop fills must-include, must-exclude and any-of lists equal to the classification of the tokens |
| Keyword.CheckPhrases | FileGather_Pro2.3.4.py:537-541 | the phrase loop succeeds iff every quoted phrase occurs, lowered, in the lowered text, and then leaves the keyword with every phrase deleted |
| Keyword.CheckTerms | FileGather_Pro2.3.4.py:560-577 | the three check loops accept iff every required term occurs, no excluded term occurs, and the any-of list is empty or has a term that occurs |
| Keyword.ClassifyRequired | FileGather_Pro2.3.4.py:551-562 | all must-include terms occur iff, for every `+` token, its lowered remainder occurs |
| Keyword.ClassifyExcluded | FileGather_Pro2.3.4.py:553-566 | no must-exclude term occurs iff, for every `-` token, its lowered remainder does not occur |
| Keyword.ClassifyAlternatives | FileGather_Pro2.3.4.py:555-575 | the any-of list is empty iff every token is `+` or `-`; and some any-of term occurs iff some bare token or some piece of a bar-separated token occurs |
| Keyword.ClassifyMeaning | FileGather_Pro2.3.4.py:543-577 | the classified lists are satisfied iff the per-token meaning holds (required present, excluded absent, some alternative present or none given) |
| Keyword.QuoteFreeMeaning | FileGather_Pro2.3.4.py:543-577 | for a non-empty quote-free keyword the match holds iff the per-token meaning holds over the lowered text |
| Keyword.MissingPhraseRejects | FileGather_Pro2.3.4.py:537-540 | a quoted phrase that is not a case-insensitive substring of the text makes the match fail |
| Keyword.EmptyKeywordMatches | FileGather_Pro2.3.4.py:534-535 | the empty keyword matches every text |
| Keyword.QuoteFreeTerms | FileGather_Pro2.3.4.py:541-543 | without quotes no phrase is removed and the match is decided by the token rules alone |
| Keyword.RequireAndExclude | FileGather_Pro2.3.4.py:551-566 | `+a -b` matches iff `a` occurs and `b` does not, case-insensitively |
| Keyword.ClassifyPlusMinus | FileGather_Pro2.3.4.py:551-554 | `+a` and `-b` classify as one lowered required and one lowered excluded term and no alternative |
| Keyword.EitherAlternative | FileGather_Pro2.3.4.py:555-575 | the keyword `a` bar `b` (one piece split at the bar) matches iff `a` or `b` occurs |
| Keyword.ExactPhrase | FileGather_Pro2.3.4.py:537-541 | a keyword made of one quoted phrase matches iff the phrase occurs case-insensitively |
| Keyword.LonePlusMatches | FileGather_Pro2.3.4.py:551-562 | a lone `+` requires the empty term and so matches every text |
| Keyword.LoneMinusRejects | FileGather_Pro2.3.4.py:553-566 | a lone `-` excludes the empty term and so rejects every text |
| Keyword.TrailingBarMatches | FileGather_Pro2.3.4.py:555-575 | `a` followed by a bar puts the empty piece in the any-of set and so matches every text |
| Extract.SearchContent | FileGather_Pro2.3.4.py:601-623 | the dispatch returns exactly `ContentMatches`: the reader chosen by the lowered suffix produces text, and that text matches |
| Extract.SearchTextFile | FileGather_Pro2.3.4.py:625-634 | a readable text file matches iff its first 3000 characters match |
| Extract.TextPrefix | FileGather_Pro2.3.4.py:630 | the read keeps at most 3000 characters from the start and all of a shorter text |
| Extract.JoinPages | FileGather_Pro2.3.4.py:640-644 | the page loop builds the accumulation of the pages under the 3000-character stop rule |
| Extract.JoinParagraphs | FileGather_Pro2.3.4.py:656-660 | the paragraph loop builds the accumulation of each paragraph followed by a space |
| Extract.JoinCells | FileGather_Pro2.3.4.py:671-680 | the sheet, row and cell loops build the accumulation of the row texts, checking the budget after each row |
| Extract.JoinSheet | FileGather_Pro2.3.4.py:673-678 | the row loop continues the accumulation from the text of the earlier sheets |
| Extract.JoinRow | FileGather_Pro2.3.4.py:674-676 | a row contributes each non-empty cell followed by a space |
| Extract.AccumulateReadsPrefix | FileGather_Pro2.3.4.py:641-644 | the accumulated text is the concatenation of the first `k` parts, where `k` is the first count whose concatenation exceeds 3000, or all parts |
| Extract.AccumulateStops | FileGather_Pro2.3.4.py:643-644 | once the text exceeds the budget, later parts are never read |
| Extract.AccumulateAppend | FileGather_Pro2.3.4.py:641-644 | while the budget is not exceeded, accumulating two runs equals accumulating them one after the other |
| Extract.AccumulateFrom | FileGather_Pro2.3.4.py:642 | accumulation only appends: the starting text is a prefix of the result |
| Extract.OvershootKeepsWholePart | FileGather_Pro2.3.4.py:642-644 | a first page longer than the budget is kept whole, so the text can exceed 3000 characters |
| Extract.NoReaderNeverMatches | FileGather_Pro2.3.4.py:618-619 | a file whose suffix has no reader never matches by content |
| Extract.PlainTextWithinBudget | FileGather_Pro2.3.4.py:606-630 | the content of a plain-text file is the 3000-character prefix of its text and never longer |
| Filter.AcceptFile | FileGather_Pro2.3.4.py:764-802 | the per-file checks accept exactly the files that are readable, in the size range, in the date range, of an allowed type and that satisfy the keyword by mode; content is read exactly when the mode asks for it and the name did not already match |
| Filter.CheckMetadata | FileGather_Pro2.3.4.py:764-781 | the metadata checks pass exactly for files that are readable, in the size range, in the date range and of an allowed type |
| Filter.CheckKeyword | FileGather_Pro2.3.4.py:783-802 | the mode checks accept exactly as the keyword rule of the mode says; the content is read iff a keyword is set and the mode is content, or both with a name that did not match |
| Filter.ParseCustomTypes | FileGather_Pro2.3.4.py:712 | every parsed extension is non-empty, lowercase and separator-free |
| Filter.ParseCustomTypesRoundTrip | FileGather_Pro2.3.4.py:712 | parsing clean extensions joined with `;` gives back the same list |
| Filter.BlankCustomTypesSearchAll | FileGather_Pro2.3.4.py:708-712 | input made only of `;` passes the emptiness check but parses to the empty list, which allows every type |
| Filter.ResolveTypes | FileGather_Pro2.3.4.py:698-712 | all files gives the empty list, a preset gives its list, and custom stops the search iff the dialog was cancelled or left empty |
| Filter.BothIsUnion | FileGather_Pro2.3.4.py:786-802 | in both mode a file is accepted iff file-name mode or content mode would accept it |
| Filter.EmptyKeywordIgnoresMode | FileGather_Pro2.3.4.py:786-793 | without a keyword the mode is irrelevant, only metadata decides, and no content is read |
| Filter.BlankKeyword | FileGather_Pro2.3.4.py:786-799 | a keyword of blanks is set, so content mode still opens the file and accepts iff a text was produced; in file-name mode it accepts every file |
| Filter.SizePresetsOverlap | FileGather_Pro2.3.4.py:312-315 | the inclusive bounds put exactly 1 MiB in both lower presets and exactly 10 MiB in both upper presets |
| Filter.CustomDatesNeverFilter | FileGather_Pro2.3.4.py:774-777 | the custom date choice applies no date filter |
| Conflict.CandidateInjective | FileGather_Pro2.3.4.py:1579-1583 | different counters give different candidate names |
| Conflict.LeastFree | FileGather_Pro2.3.4.py:1578-1584 | the probed counter is at least 1, its candidate is absent from the target, and every smaller counter's candidate is present |
| Conflict.RenameTargetFresh | FileGather_Pro2.3.4.py:1575-1587 | the rename is `stem + "_" + k + suffix` for some `k ≥ 1`, is absent from the target, and `k` is the least such counter |
| Conflict.FirstCandidateWhenFree | FileGather_Pro2.3.4.py:1578-1580 | when `stem_1.suffix` is free the rename is that name |
| Conflict.LeastFreeUnique | FileGather_Pro2.3.4.py:1578-1584 | any free counter with all smaller counters taken is the probed counter |
| Conflict.ProbeRename | FileGather_Pro2.3.4.py:1575-1584 | the `while` probe terminates and returns the least free candidate |
| Conflict.Applied | FileGather_Pro2.3.4.py:1565-1588 | overwrite sets the new name to the name, skip keeps the new name, rename sets a fresh probed name; the action is recorded, the item text is set, and the other fields are kept |
| Conflict.Finalised | FileGather_Pro2.3.4.py:1626-1643 | a missing or non-rename action gets new name = name; a rename keeps its new name or gets a free probed one; every non-skip entry ends with a new name |
| Conflict.Kept | FileGather_Pro2.3.4.py:1627-1628 | the kept entries are non-skip entries of the input |
| Conflict.Selection | FileGather_Pro2.3.4.py:1623-1645 | every selected entry is non-skip and carries a new name |
| Conflict.SelectionIsKeptFinalised | FileGather_Pro2.3.4.py:1623-1645 | the selection has one entry per non-skip input, in input order, each finalised; its length is the input length minus the skips |
| Conflict.SelectionNames | FileGather_Pro2.3.4.py:1626-1643 | every selected non-rename entry is copied under its own name |
| Conflict.SelectionSnoc | FileGather_Pro2.3.4.py:1625-1644 | appending an entry appends its finalised form unless it is a skip |
| Conflict.SameNameSameTarget | FileGather_Pro2.3.4.py:1575-1584 | two entries with the same name get the same rename target, so renames are not unique within a batch |
| Conflict.InitialTextMarksConflicts | FileGather_Pro2.3.4.py:1503-1505 | for a name without the marker, the item text carries the conflict marker iff the target has that name |
| Conflict.NoMarkAcross | FileGather_Pro2.3.4.py:1595 | the marker cannot straddle a marker-free name and the text that follows it |
| Conflict.MarkedNameLooksConflicting | FileGather_Pro2.3.4.py:1503-1505 | a name that itself contains the marker makes its item look conflicting even without a clash |
| Conflict.Opened | FileGather_Pro2.3.4.py:1487-1507 | the dialog starts with the given entries and one item text per entry, marked iff the name is taken in the target |
| Conflict.FileConflictDialog.constructor | FileGather_Pro2.3.4.py:1482-1507 | the dialog holds the entries, the target's names, and one marked or unmarked item text per entry |
| Conflict.FileConflictDialog.SetAction | FileGather_Pro2.3.4.py:1556-1588 | each selected entry gets the chosen action's disposition and item text; unselected entries are unchanged; an empty selection changes nothing |
| Conflict.FileConflictDialog.AutoRenameAll | FileGather_Pro2.3.4.py:1590-1612 | exactly the entries whose current item text contains the conflict marker are renamed; the others are unchanged |
| Conflict.FileConflictDialog.OverwriteAll | FileGather_Pro2.3.4.py:1614-1621 | every entry is marked overwrite, with new name = name |
| Conflict.FileConflictDialog.GetSelectedFiles | FileGather_Pro2.3.4.py:1623-1645 | returns the selection of the entries and finalises every entry in place, skips included |
| Conflict.Apply | FileGather_Pro2.3.4.py:1562-1588 | one entry gets exactly the disposition and item text of the chosen action |
| Conflict.Finalise | FileGather_Pro2.3.4.py:1626-1643 | a kept entry gets exactly its finalised form |
| Conflict.SelectFrom | FileGather_Pro2.3.4.py:1623-1645 | the loop returns the selection of the entries and leaves every entry finalised |
| Conflict.SelectOne | FileGather_Pro2.3.4.py:1625-1644 | one more entry extends the selection by its finalised form unless it is skipped, and finalises it in place |
| Conflict.Press | FileGather_Pro2.3.4.py:1522-1538 | one button press changes the dialog's entries and texts exactly as the corresponding step |
| Conflict.PressAll | FileGather_Pro2.3.4.py:1522-1538 | a sequence of presses changes the dialog exactly as the sequence of steps |
| Conflict.StepsKeepFiles | FileGather_Pro2.3.4.py:1556-1621 | no button changes an entry's path, name, size or date |
| Conflict.KeptAll | FileGather_Pro2.3.4.py:1627-1628 | without skips every entry is kept |
| Conflict.OverwriteEverySelectsAll | FileGather_Pro2.3.4.py:1614-1645 | after overwrite-all every entry is selected, each under its own name |
| Conflict.UntouchedDefaultsToOverwrite | FileGather_Pro2.3.4.py:1626-1643 | with no button pressed every entry is copied under its own name, as an overwrite |
| Scan.ScanFiles | FileGather_Pro2.3.4.py:757-836 | the file loop appends the records of accepted files, all of them unless it stops; it stops only after a poll saw the flag, and appends nothing if the flag was already set |
| Scan.NextFile | FileGather_Pro2.3.4.py:804-836 | one more file extends the records by its record exactly when it is accepted; the flag is reported seen only after a poll that saw it |
| Scan.ScanDirs | FileGather_Pro2.3.4.py:748-836 | the directory loop appends the records of all accepted files of its directories, or a prefix of them when the flag was seen |
| Scan.NextDir | FileGather_Pro2.3.4.py:748-836 | one more directory extends the records by a prefix of its matches, all of them unless the flag was seen, and by nothing if it was seen before |
| Scan.ScanFolder | FileGather_Pro2.3.4.py:734-746 | a missing or unlistable folder contributes nothing; otherwise its walk is scanned as above |
| Scan.ScanFolders | FileGather_Pro2.3.4.py:727-836 | the results are a prefix of all accepted records in walk order, all of them when not cancelled; the count equals the number of results; a flag set before the first poll yields no results |
| Scan.NextFolder | FileGather_Pro2.3.4.py:730-836 | one more search folder extends the records by a prefix of its matches, all of them unless the flag was seen, and by nothing if it was seen before |
| Scan.DirMatchesSound | FileGather_Pro2.3.4.py:804-809 | every record of a directory comes from an accepted file of that directory |
| Scan.DirMatchesComplete | FileGather_Pro2.3.4.py:804-809 | every accepted file of a directory has its record among the directory's matches |
| Scan.DirsMatchesComplete | FileGather_Pro2.3.4.py:748-809 | every accepted file of every walked directory has its record among the matches |
| Scan.AllMatchesComplete | FileGather_Pro2.3.4.py:730-809 | every accepted file of every present, listable folder has its record among all matches |
| Scan.AcceptedPasses | FileGather_Pro2.3.4.py:771-809 | an accepted file's record has a size in range, a date in range and an allowed extension |
| Scan.AllMatchesPass | FileGather_Pro2.3.4.py:771-809 | every collected record satisfies the size, date, type and file-name-keyword checks |
| Scan.AllMatchesPrefix | FileGather_Pro2.3.4.py:730-732 | the matches of the first folders are a prefix of the matches of all folders |
| Scan.TopLevelOnly | FileGather_Pro2.3.4.py:741-743 | without subfolders a folder is walked as the single directory of its own listing |
| Wrap.Chunks | FileGather_Pro2.3.4.py:1051 | every chunk is non-empty and at most `max_len` long, every chunk but the last is exactly `max_len` long, and the characters come from the text |
| Wrap.ChunksConcat | FileGather_Pro2.3.4.py:1051 | the chunks concatenate back to the text |
| Wrap.ChunkCount | FileGather_Pro2.3.4.py:1049-1051 | a text longer than `max_len` is split into at least two chunks |
| Wrap.WrapText | FileGather_Pro2.3.4.py:1047-1052 | a text of length at most `max_len` is returned unchanged; a longer one is its chunks joined by `<br/>` |
| Wrap.WrapRoundTrip | FileGather_Pro2.3.4.py:1047-1052 | removing the `<br/>` breaks from the wrapped form of a text free of `<` gives back the text |
| Gather.FileGatherPro.constructor | FileGather_Pro2.3.4.py:54 | the window starts with no results, a zero count, an empty log, no operated files and the cancel flag clear |
| Gather.FileGatherPro.AddLog | FileGather_Pro2.3.4.py:422-426 | exactly one entry is appended to the log; the path joins the operated files only when one is given; nothing else changes |
| Gather.FileGatherPro.StartSearch | FileGather_Pro2.3.4.py:688-851 | with no folders nothing changes; a cancelled custom-type dialog logs the start only; otherwise the results are a prefix of all accepted records, all of them if not cancelled, the count equals their number, every record passes the filters, and the log gains the start entry, the cancel button's entry exactly when the search was cancelled, and the end entry |
| Gather.FileGatherPro.RunSearch | FileGather_Pro2.3.4.py:714-851 | the results are cleared and replaced by a search outcome with its count; the log gains the cancel button's entry exactly when the search was cancelled, then the end entry |
| Gather.FileGatherPro.CancelSearchAction | FileGather_Pro2.3.4.py:441-446 | the cancel flag is set and exactly the cancel entry is logged; the results and the count are unchanged |
| Gather.Search | FileGather_Pro2.3.4.py:727-836 | the scan leaves a prefix of all matches, all of them unless the flag was seen, only sees the flag when one is raised, keeps only records that pass the filters, and counts them |
| Gather.PrefixPasses | FileGather_Pro2.3.4.py:771-809 | every record of a partial search passes the filters |
| Gather.FileGatherPro.DeleteFiles | FileGather_Pro2.3.4.py:967-1045 | with no results or no confirmation nothing changes; otherwise the results, counts, errors, log and files on disk are those of the delete pass over the old results |
| Gather.DeleteTally | FileGather_Pro2.3.4.py:1004-1025 | successes plus failures equal the number of records; one kept record per failure and one log entry per success |
| Gather.DeletePresent | FileGather_Pro2.3.4.py:1007-1013 | after the pass, the files on disk are those before, minus the records' files that unlinked |
| Gather.FileStaysIffUnlinkFails | FileGather_Pro2.3.4.py:1007-1025 | a record's file is still on disk iff it was there and unlinking it raised |
| Gather.DeleteKeepsUndeletable | FileGather_Pro2.3.4.py:1002-1033 | for any results, duplicate paths included, the remaining results are, in order, exactly the records that stay: missing at the start, failing to unlink, or sharing the path of an earlier record |
| Gather.LastStays | FileGather_Pro2.3.4.py:1007-1025 | the last record is kept at its turn iff it stays: the file is missing when its turn comes or its unlink raises exactly when it was missing from the start, an earlier record with its path deleted it, or its unlink raises |
| Gather.DuplicateKeptAsMissing | FileGather_Pro2.3.4.py:1003-1014 | of two records with one present, deletable path, the first deletes the file and is logged, and the second is kept with a not-found failure |
| Gather.DistinctStays | FileGather_Pro2.3.4.py:1007-1025 | with distinct paths a record stays iff its file is missing or its unlink raises |
| Gather.Undeletable | FileGather_Pro2.3.4.py:1007-1025 | every kept record is a record of the pass that stays |
| Gather.FileGatherPro.CopyEach | FileGather_Pro2.3.4.py:903-918 | the copy loop logs one entry per copied file, records its source, and collects one error per failure |
| Gather.FileGatherPro.CopyFilesWithoutConflicts | FileGather_Pro2.3.4.py:895-929 | every result is copied under its own name; the reported count is the number of successes |
| Gather.FileGatherPro.CopySelectedFiles | FileGather_Pro2.3.4.py:931-965 | every selected entry is copied under its new name; the reported count is the number of successes |
| Gather.CopyTally | FileGather_Pro2.3.4.py:921-928 | successes plus failures equal the number of files copied |
| Gather.CopyAllSucceed | FileGather_Pro2.3.4.py:903-910 | when no copy raises there are no errors and one log entry per file, naming its destination, in order |
| Gather.FileGatherPro.CopyFiles | FileGather_Pro2.3.4.py:863-893 | no target, no results and an unwritable target each stop with nothing changed; without conflicts every result is copied; otherwise the dialog decides and, when accepted, its selection is copied |
| Gather.FileGatherPro.ResolveAndCopy | FileGather_Pro2.3.4.py:890-893 | the dialog's button steps decide the entries, which flow back into the results; when accepted the selection is copied, otherwise nothing is copied or logged |
| Gather.FindConflicts | FileGather_Pro2.3.4.py:880-884 | the loop collects exactly the result names already present in the target |

## Left out

- Text.Lower: lowers ASCII letters only; Python's `str.lower()` also maps non-ASCII letters.
- User interface: widgets, message boxes, progress bars, item colours and the result tree are not modelled. The dialog's OK/Cancel answer, the list selection and the delete confirmations are parameters. The two delete confirmations are one `confirmed` flag.
- `QApplication.processEvents` is modelled only as the points where the cancel flag is read. The extra read after every 100 accepted files (lines 830-836) is one such point. A press of the cancel button inside one of these calls is modelled by `CancelSearchAction`, whose log entry is placed after the scan, where it falls in the log since the scan logs nothing.
- Scan.ScanFolders: states that a cancelled search keeps a prefix of the matches, but not which prefix a given poll number leaves.
- Timestamps: `datetime.now()` in log entries is left out, so a log entry is the action text alone. The date presets take today's date as a parameter.
- File dates are day numbers; their `%Y-%m-%d` rendering in a record is not modelled.
- Path handling: a path is the root, a backslash separator and the name. Normalisation by `pathlib` is not modelled.
- `os.walk`, `iterdir`, `exists`, `access` and `stat` are replaced by a given walk with a readable flag on each file. An exception while handling a file is folded into that flag.
- Parsers: the `fitz`, `docx` and `openpyxl` parsers are abstract page, paragraph and cell sequences, or a missing-library or parse-failure outcome. The encoding fallback of text files is one optional text.
- `shutil.copy2` and `unlink`: represented by a map from source path to error text. The copy does not add names to the target's set.
- Gather.FileGatherPro.ResolveAndCopy: the item of each dialog entry is taken to hold the very record the results hold, so what the dialog decides reaches `search_results`. If PyQt5 stores the record as a `QVariantMap` and `item.data(Qt.UserRole)` returns a fresh copy on each call, the dialog only changes its item texts, every entry is selected under its own name, and the results are not changed; the model does not capture that copy.
- Conflict.FileConflictDialog.SetAction, Conflict.FileConflictDialog.AutoRenameAll, Conflict.FileConflictDialog.OverwriteAll, Conflict.FileConflictDialog.GetSelectedFiles: they edit the entries in place as the intended aliasing has it, not a copy returned by `item.data`.
- Gather.FileGatherPro.CopyFiles: the conflict dialog recomputes each conflict from the file system, while the model reuses the single set of target names.
- `print` diagnostics, `format_size`, `_extract_filename_for_log`, reportlab PDF log generation and font registration are not part of this model.
- `os.startfile`, the `win32security` owner lookup and `is_file_locked` are operating-system integration and are not part of this model.
- Renames are not claimed unique within a batch: the probe asks the target folder only, and `Conflict.SameNameSameTarget` shows two entries with the same name get the same target.
- The custom date choice never filters. In the code it applies no date filter at all (line 774), although the window describes a custom range.
