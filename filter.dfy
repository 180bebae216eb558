/** The per-file filters of FileGatherPro.start_search: readability, size range, modification
    date range, extension list and keyword, applied in that order. A file that fails an earlier
    filter is never looked at by a later one; in particular its content is not read. */
module Filter {
  import opened Text
  import opened Keyword
  import opened Extract

  datatype SearchMode = FileName | Content | Both

  /** An inclusive size range in bytes; an absent upper bound is float('inf'). */
  datatype SizeRange = SizeRange(lo: nat, hi: Option<nat>)

  /** A modification-date range; dates are day numbers. CustomDates is the "custom" entry of
      the date box, which start_search does not filter on. */
  datatype DateRange = AnyDate | Between(first: int, last: int) | CustomDates

  /** The entry of the file-type box: all files, a preset extension list, or "custom". */
  datatype TypeChoice = AllTypes | Listed(exts: seq<string>) | CustomTypes

  const MIB: nat := 1024 * 1024

  const SIZE_ANY := SizeRange(0, None)
  const SIZE_UNDER_1MB := SizeRange(0, Some(MIB))
  const SIZE_1MB_TO_10MB := SizeRange(MIB, Some(10 * MIB))
  const SIZE_OVER_10MB := SizeRange(10 * MIB, None)

  const DOCUMENTS: seq<string> := [".doc", ".docx", ".txt", ".pdf", ".xls", ".xlsx", ".ppt", ".pptx"]
  const IMAGES: seq<string> := [".jpg", ".jpeg", ".png", ".gif", ".bmp", ".tiff", ".webp"]
  const VIDEOS: seq<string> := [".mp4", ".avi", ".mov", ".mkv", ".flv", ".wmv", ".mpg"]
  const AUDIO: seq<string> := [".mp3", ".wav", ".flac", ".aac", ".ogg", ".wma"]
  const EXECUTABLES: seq<string> := [".exe", ".msi", ".bat", ".cmd"]
  const ARCHIVES: seq<string> := [".zip", ".rar", ".7z", ".tar", ".gz"]

  /** The date presets, relative to the day the window was built. */
  function Today(today: int): DateRange { Between(today, today) }
  function LastDays(today: int, days: nat): DateRange { Between(today - days, today) }

  /** A directory entry as start_search sees it. `readable` is false when the file is gone,
      is not readable, or stat raises. */
  datatype FileEntry = FileEntry(name: string, readable: bool, size: nat, modDate: int, body: Body)

  /** The search settings read from the window when the search starts; `types` is the resolved
      extension list, empty for all files. */
  datatype Criteria = Criteria(keyword: string, types: seq<string>, size: SizeRange, dates: DateRange, mode: SearchMode)

  predicate InSize(r: SizeRange, n: nat)
  {
    r.lo <= n && (r.hi.None? || n <= r.hi.value)
  }

  predicate InDates(r: DateRange, d: int)
  {
    match r
    case AnyDate => true
    case CustomDates => true
    case Between(first, last) => first <= d <= last
  }

  predicate TypeAllowed(types: seq<string>, name: string)
  {
    types == [] || Lower(Suffix(name)) in types
  }

  /** The metadata filters, which come before any keyword test. */
  predicate PassesMetadata(c: Criteria, f: FileEntry)
  {
    f.readable && InSize(c.size, f.size) && InDates(c.dates, f.modDate) && TypeAllowed(c.types, f.name)
  }

  predicate KeywordAccepts(c: Criteria, f: FileEntry)
  {
    c.keyword == [] ||
    match c.mode
    case FileName => Matches(f.name, c.keyword)
    case Content => ContentMatches(f.name, f.body, c.keyword)
    case Both => Matches(f.name, c.keyword) || ContentMatches(f.name, f.body, c.keyword)
  }

  /** Whether start_search lists the file. */
  predicate Accepts(c: Criteria, f: FileEntry)
  {
    PassesMetadata(c, f) && KeywordAccepts(c, f)
  }

  /** Whether start_search opens the file to search its content: only when the metadata filters
      passed, a keyword is set, and the mode asks for content and the name alone did not match. */
  predicate ReadsContent(c: Criteria, f: FileEntry)
  {
    PassesMetadata(c, f) && c.keyword != [] &&
    (c.mode == Content || (c.mode == Both && !Matches(f.name, c.keyword)))
  }

  /** The body of the per-file try block of start_search. */
  method AcceptFile(c: Criteria, f: FileEntry) returns (accepted: bool, contentRead: bool)
    ensures accepted == Accepts(c, f)
    ensures contentRead == ReadsContent(c, f)
  {
    var passes := CheckMetadata(c, f);
    if !passes {
      return false, false;
    }
    accepted, contentRead := CheckKeyword(c, f);
  }

  /** The existence, size, date and extension checks, in the order start_search makes them. */
  method CheckMetadata(c: Criteria, f: FileEntry) returns (passes: bool)
    ensures passes == PassesMetadata(c, f)
  {
    if !f.readable {
      return false;
    }
    if !(c.size.lo <= f.size && (c.size.hi.None? || f.size <= c.size.hi.value)) {
      return false;
    }
    if c.dates.Between? {
      if !(c.dates.first <= f.modDate <= c.dates.last) {
        return false;
      }
    }
    var ext := Lower(Suffix(f.name));
    if c.types != [] && ext !in c.types {
      return false;
    }
    return true;
  }

  /** The keyword test by search mode; the content is searched only when the name did not match. */
  method CheckKeyword(c: Criteria, f: FileEntry) returns (accepted: bool, contentRead: bool)
    ensures accepted == KeywordAccepts(c, f)
    ensures contentRead == (c.keyword != [] && (c.mode == Content || (c.mode == Both && !Matches(f.name, c.keyword))))
  {
    contentRead := false;
    var nameMatch := false;
    var contentMatch := false;
    if c.keyword != [] {
      if c.mode == FileName || c.mode == Both {
        nameMatch := MatchesKeyword(f.name, c.keyword);
      }
      if (c.mode == Content || c.mode == Both) && !nameMatch {
        contentMatch := SearchContent(f.name, f.body, c.keyword);
        contentRead := true;
      }
      if c.mode == FileName && !nameMatch {
        return false, contentRead;
      } else if c.mode == Content && !contentMatch {
        return false, contentRead;
      } else if c.mode == Both && !(nameMatch || contentMatch) {
        return false, contentRead;
      }
    }
    accepted := true;
  }

  // ---------------------------------------------------------------------------------------
  // Resolving the file-type choice.

  /** `[ext.strip().lower() for ext in text.split(';') if ext.strip()]` */
  function ParseCustomTypes(text: string): (r: seq<string>)
    ensures forall k :: 0 <= k < |r| ==> r[k] != [] && ';' !in r[k] && Lower(r[k]) == r[k]
  {
    KeepStripped(SplitOn(text, ';'))
  }

  function KeepStripped(pieces: seq<string>): (r: seq<string>)
    requires forall k :: 0 <= k < |pieces| ==> ';' !in pieces[k]
    ensures |r| <= |pieces|
    ensures forall k :: 0 <= k < |r| ==> r[k] != [] && ';' !in r[k] && Lower(r[k]) == r[k]
  {
    if pieces == [] then []
    else
      var e := Strip(pieces[0]);
      CleanPiece(pieces[0]);
      (if e == [] then [] else [Lower(e)]) + KeepStripped(pieces[1..])
  }

  /** A stripped, lowered piece between separators holds no separator and is already lower case. */
  lemma CleanPiece(piece: string)
    requires ';' !in piece
    ensures var e := Strip(piece); ';' !in Lower(e) && Lower(Lower(e)) == Lower(e) && |Lower(e)| == |e|
  {
    var e := Strip(piece);
    LowerIdempotent(e);
    assert e == piece[|piece| - |StripStart(piece)|..][..|e|];
    assert ';' !in e;
  }

  /** The extension list the search uses, or None when the custom-types dialog was cancelled or
      left empty, in which case the search stops before scanning anything. `dialog` is the
      dialog's answer: None for Cancel, Some(text) for OK. */
  function ResolveTypes(choice: TypeChoice, dialog: Option<string>): (r: Option<seq<string>>)
    ensures choice.AllTypes? ==> r == Some([])
    ensures choice.Listed? ==> r == Some(choice.exts)
    ensures choice.CustomTypes? ==> (r.None? <==> (dialog.None? || dialog.value == []))
  {
    match choice
    case AllTypes => Some([])
    case Listed(exts) => Some(exts)
    case CustomTypes =>
      if dialog.None? || dialog.value == [] then None else Some(ParseCustomTypes(dialog.value))
  }

  // ---------------------------------------------------------------------------------------
  // Properties.

  /** Typing extensions separated by ';' gives exactly those extensions back, provided each is
      already lower case, free of whitespace and of ';'. */
  lemma ParseCustomTypesRoundTrip(exts: seq<string>)
    requires forall k :: 0 <= k < |exts| ==> exts[k] != [] && ';' !in exts[k] && NoSpace(exts[k]) && Lower(exts[k]) == exts[k]
    ensures ParseCustomTypes(Join(exts, ";")) == exts
  {
    if exts == [] {
      assert SplitOn("", ';') == [""];
      assert Strip("") == "";
    } else {
      JoinSplit(exts, ';');
      KeepClean(exts);
    }
  }

  lemma {:induction false} KeepClean(exts: seq<string>)
    requires forall k :: 0 <= k < |exts| ==> exts[k] != [] && ';' !in exts[k] && NoSpace(exts[k]) && Lower(exts[k]) == exts[k]
    ensures KeepStripped(exts) == exts
  {
    if exts != [] {
      assert Strip(exts[0]) == exts[0];
      KeepClean(exts[1..]);
      assert exts == [exts[0]] + exts[1..];
    }
  }

  /** Input made only of separators and blanks passes the dialog check but yields no
      extension, so every file type is searched. */
  lemma BlankCustomTypesSearchAll(dialog: string)
    requires dialog != [] && forall k :: 0 <= k < |dialog| ==> dialog[k] == ';'
    ensures ResolveTypes(CustomTypes, Some(dialog)) == Some([])
  {
    SeparatorsOnly(dialog);
  }

  lemma {:induction false} SeparatorsOnly(s: string)
    requires forall k :: 0 <= k < |s| ==> s[k] == ';'
    ensures ParseCustomTypes(s) == []
    decreases |s|
  {
    if s == [] {
      assert SplitOn(s, ';') == [""];
      assert Strip("") == "";
    } else {
      assert IndexOf(s, ';') == Some(0);
      assert SplitOn(s, ';') == [""] + SplitOn(s[1..], ';');
      assert Strip("") == "";
      SeparatorsOnly(s[1..]);
    }
  }

  /** Both mode accepts exactly the files that name mode or content mode would accept. */
  lemma BothIsUnion(c: Criteria, f: FileEntry)
    requires c.mode == Both
    ensures Accepts(c, f) <==> Accepts(c.(mode := FileName), f) || Accepts(c.(mode := Content), f)
  {
  }

  /** With an empty keyword the mode makes no difference and no content is read. */
  lemma EmptyKeywordIgnoresMode(c: Criteria, f: FileEntry, mode: SearchMode)
    requires c.keyword == []
    ensures Accepts(c, f) == Accepts(c.(mode := mode), f) == PassesMetadata(c, f)
    ensures !ReadsContent(c, f)
  {
  }

  /** A keyword of blanks only is not empty: in name mode it accepts every file passing the
      metadata filters, while in content mode it still opens the file and accepts only files
      a reader can produce text for. */
  lemma BlankKeyword(c: Criteria, f: FileEntry)
    requires c.keyword != [] && forall k :: 0 <= k < |c.keyword| ==> c.keyword[k] == ' '
    requires PassesMetadata(c, f)
    ensures c.mode == FileName ==> Accepts(c, f)
    ensures c.mode == Content ==> ReadsContent(c, f) && (Accepts(c, f) <==> ContentText(f.name, f.body).Some?)
  {
    BlankMatchesAll(f.name, c.keyword);
    if ContentText(f.name, f.body).Some? {
      BlankMatchesAll(ContentText(f.name, f.body).value, c.keyword);
    }
  }

  lemma BlankMatchesAll(text: string, keyword: string)
    requires keyword != [] && forall k :: 0 <= k < |keyword| ==> keyword[k] == ' '
    ensures Matches(text, keyword)
  {
    assert '"' !in keyword;
    assert FindQuoted(keyword) == [];
    BlankWords(keyword);
  }

  lemma {:induction false} BlankWords(s: string)
    requires forall k :: 0 <= k < |s| ==> s[k] == ' '
    ensures Words(s) == []
  {
    BlankWordsFrom(s);
  }

  lemma {:induction false} BlankWordsFrom(s: string)
    requires forall k :: 0 <= k < |s| ==> s[k] == ' '
    ensures WordsFrom(s, []) == []
    decreases |s|
  {
    if s != [] {
      assert IsSpace(s[0]);
      BlankWordsFrom(s[1..]);
    }
  }

  /** The two middle size presets share their boundary: a file of exactly 1 MiB is in both. */
  lemma SizePresetsOverlap()
    ensures InSize(SIZE_UNDER_1MB, MIB) && InSize(SIZE_1MB_TO_10MB, MIB)
    ensures InSize(SIZE_1MB_TO_10MB, 10 * MIB) && InSize(SIZE_OVER_10MB, 10 * MIB)
  {
  }

  /** The custom date entry lets every modification date through. */
  lemma CustomDatesNeverFilter(d: int)
    ensures InDates(CustomDates, d)
  {
  }
}
