/** Content search (FileGatherPro.search_content and its four readers).

    The extension picks a reader. Plain-text files contribute their first 3000 characters.
    PDF pages, DOCX paragraphs and XLSX rows are appended one at a time, and reading stops
    after the first addition that takes the text past 3000 characters, so the text can run
    over that budget by up to one part. The document libraries are abstract here: what a
    library hands back for a file is part of the file's description, as is the absence of
    the library (the reader then falls back to reading the file as text) and a failure while
    parsing (the search then reports no match). */
module Extract {
  import opened Text
  import opened Keyword

  const BUDGET: nat := 3000

  const TEXT_EXTENSIONS: seq<string> :=
    [".txt", ".py", ".java", ".cpp", ".h", ".html", ".css", ".js", ".csv", ".ini", ".log"]

  /** What a document library yields for a file. */
  datatype Parsed<T> = Parts(parts: T) | LibraryMissing | ParseFailure

  /** A file's content as seen by each reader. `text` is the file opened as UTF-8 text with
      undecodable bytes dropped (None when opening or reading raises); a spreadsheet cell is
      None when it is falsy and Some(str(cell)) otherwise. */
  datatype Body = Body(
    text: Option<string>,
    pdf: Parsed<seq<string>>,
    docx: Parsed<seq<string>>,
    xlsx: Parsed<seq<seq<seq<Option<string>>>>>)

  datatype Reader = PlainText | Pdf | Docx | Xlsx | NoReader

  /** The reader search_content chooses for a lower-cased extension. */
  function ReaderFor(ext: string): Reader
  {
    if ext in TEXT_EXTENSIONS then PlainText
    else if ext == ".pdf" then Pdf
    else if ext == ".docx" then Docx
    else if ext == ".xlsx" then Xlsx
    else NoReader
  }

  /** The text after appending parts to acc one at a time, stopping after the first append
      that leaves more than BUDGET characters. */
  function Accumulate(acc: string, parts: seq<string>): string
    decreases |parts|
  {
    if parts == [] then acc
    else
      var next := acc + parts[0];
      if |next| > BUDGET then next else Accumulate(next, parts[1..])
  }

  /** `text += para.text + " "` for each paragraph. */
  function Spaced(paragraphs: seq<string>): (r: seq<string>)
    ensures |r| == |paragraphs| && forall k :: 0 <= k < |r| ==> r[k] == paragraphs[k] + " "
  {
    if paragraphs == [] then [] else [paragraphs[0] + " "] + Spaced(paragraphs[1..])
  }

  /** What one spreadsheet row adds: each truthy cell followed by a space. */
  function RowText(row: seq<Option<string>>): string
  {
    if row == [] then ""
    else
      var last := row[|row| - 1];
      RowText(row[..|row| - 1]) + (if last.Some? then last.value + " " else "")
  }

  /** The row texts of every sheet, sheet after sheet. */
  function RowTexts(sheets: seq<seq<seq<Option<string>>>>): seq<string>
  {
    if sheets == [] then [] else RowTexts(sheets[..|sheets| - 1]) + SheetRows(sheets[|sheets| - 1])
  }

  function SheetRows(rows: seq<seq<Option<string>>>): (r: seq<string>)
    ensures |r| == |rows| && forall k :: 0 <= k < |rows| ==> r[k] == RowText(rows[k])
  {
    if rows == [] then [] else SheetRows(rows[..|rows| - 1]) + [RowText(rows[|rows| - 1])]
  }

  /** search_text_file: f.read(3000) of the first encoding that opens the file. */
  function TextPrefix(t: string): (r: string)
    ensures |r| <= BUDGET && r <= t
    ensures |t| <= BUDGET ==> r == t
  {
    if |t| <= BUDGET then t else t[..BUDGET]
  }

  function TextOf(body: Body): Option<string>
  {
    match body.text
    case Some(t) => Some(TextPrefix(t))
    case None => None
  }

  /** The text a reader hands to the keyword matcher, or None when it reports no match without matching. */
  function FallbackText<T>(p: Parsed<T>, body: Body, collected: T -> string): Option<string>
  {
    match p
    case Parts(parts) => Some(collected(parts))
    case LibraryMissing => TextOf(body)
    case ParseFailure => None
  }

  function PagesText(pages: seq<string>): string
  {
    Accumulate("", pages)
  }

  function ParagraphsText(paragraphs: seq<string>): string
  {
    Accumulate("", Spaced(paragraphs))
  }

  function CellsText(sheets: seq<seq<seq<Option<string>>>>): string
  {
    Accumulate("", RowTexts(sheets))
  }

  /** The text search_content matches for a file with this name and body, if any. */
  function ContentText(name: string, body: Body): Option<string>
  {
    match ReaderFor(Lower(Suffix(name)))
    case PlainText => TextOf(body)
    case Pdf => FallbackText(body.pdf, body, PagesText)
    case Docx => FallbackText(body.docx, body, ParagraphsText)
    case Xlsx => FallbackText(body.xlsx, body, CellsText)
    case NoReader => None
  }

  /** The verdict of search_content(path, keyword). */
  predicate ContentMatches(name: string, body: Body, keyword: string)
  {
    ContentText(name, body).Some? && Matches(ContentText(name, body).value, keyword)
  }

  // ---------------------------------------------------------------------------------------
  // The readers.

  method SearchContent(name: string, body: Body, keyword: string) returns (found: bool)
    ensures found == ContentMatches(name, body, keyword)
  {
    var ext := Lower(Suffix(name));
    if ext in TEXT_EXTENSIONS {
      found := SearchTextFile(body, keyword);
    } else if ext == ".pdf" {
      match body.pdf
      case Parts(pages) =>
        var text := JoinPages(pages);
        found := MatchesKeyword(text, keyword);
      case LibraryMissing =>
        found := SearchTextFile(body, keyword);
      case ParseFailure =>
        found := false;
    } else if ext == ".docx" {
      match body.docx
      case Parts(paragraphs) =>
        var text := JoinParagraphs(paragraphs);
        found := MatchesKeyword(text, keyword);
      case LibraryMissing =>
        found := SearchTextFile(body, keyword);
      case ParseFailure =>
        found := false;
    } else if ext == ".xlsx" {
      match body.xlsx
      case Parts(sheets) =>
        var text := JoinCells(sheets);
        found := MatchesKeyword(text, keyword);
      case LibraryMissing =>
        found := SearchTextFile(body, keyword);
      case ParseFailure =>
        found := false;
    } else {
      found := false;
    }
  }

  method SearchTextFile(body: Body, keyword: string) returns (found: bool)
    ensures found == (TextOf(body).Some? && Matches(TextOf(body).value, keyword))
  {
    match body.text
    case Some(t) =>
      var content := if |t| <= BUDGET then t else t[..BUDGET];
      found := MatchesKeyword(content, keyword);
    case None =>
      found := false;
  }

  /** The page loop of search_pdf. */
  method JoinPages(pages: seq<string>) returns (text: string)
    ensures text == Accumulate("", pages)
  {
    text := "";
    var i := 0;
    while i < |pages|
      invariant 0 <= i <= |pages|
      invariant |text| <= BUDGET
      invariant Accumulate(text, pages[i..]) == Accumulate("", pages)
    {
      assert pages[i..][1..] == pages[i + 1..];
      text := text + pages[i];
      if |text| > BUDGET {
        break;
      }
      i := i + 1;
    }
  }

  /** The paragraph loop of search_docx. */
  method JoinParagraphs(paragraphs: seq<string>) returns (text: string)
    ensures text == Accumulate("", Spaced(paragraphs))
  {
    text := "";
    var i := 0;
    ghost var parts := Spaced(paragraphs);
    while i < |paragraphs|
      invariant 0 <= i <= |paragraphs|
      invariant |text| <= BUDGET
      invariant Accumulate(text, parts[i..]) == Accumulate("", parts)
    {
      assert parts[i..][1..] == parts[i + 1..];
      ghost var old_text := text;
      text := text + paragraphs[i] + " ";
      assert text == old_text + parts[i];
      if |text| > BUDGET {
        break;
      }
      i := i + 1;
    }
  }

  /** The sheet loop of search_excel: reading stops after the sheet whose rows took the text over the budget. */
  method JoinCells(sheets: seq<seq<seq<Option<string>>>>) returns (text: string)
    ensures text == Accumulate("", RowTexts(sheets))
  {
    text := "";
    var s := 0;
    while s < |sheets|
      invariant 0 <= s <= |sheets|
      invariant |text| <= BUDGET
      invariant text == Accumulate("", RowTexts(sheets[..s]))
    {
      ghost var start := text;
      text := JoinSheet(text, sheets[s]);
      SheetRowsSplit(sheets, s, start, text);
      if |text| > BUDGET {
        SheetsStop(sheets, s);
        return;
      }
      s := s + 1;
    }
    assert sheets[..s] == sheets;
  }

  /** The row loop of search_excel: the budget is checked after each row. */
  method JoinSheet(start: string, rows: seq<seq<Option<string>>>) returns (text: string)
    requires |start| <= BUDGET
    ensures text == Accumulate(start, SheetRows(rows))
  {
    text := start;
    var r := 0;
    while r < |rows|
      invariant 0 <= r <= |rows|
      invariant |text| <= BUDGET
      invariant text == Accumulate(start, SheetRows(rows[..r]))
    {
      ghost var before := text;
      text := JoinRow(text, rows[r]);
      SheetRowStep(start, rows, r, before, text);
      if |text| > BUDGET {
        SheetRowsStop(start, rows, r);
        return;
      }
      r := r + 1;
    }
    assert rows[..r] == rows;
  }

  /** The cell loop of search_excel: each truthy cell followed by a space. */
  method JoinRow(text0: string, row: seq<Option<string>>) returns (text: string)
    ensures text == text0 + RowText(row)
  {
    text := text0;
    var c := 0;
    while c < |row|
      invariant 0 <= c <= |row|
      invariant text == text0 + RowText(row[..c])
    {
      assert row[..c + 1][..c] == row[..c];
      if row[c].Some? {
        text := text + row[c].value + " ";
      }
      c := c + 1;
    }
    assert row[..c] == row;
  }

  // ---------------------------------------------------------------------------------------
  // Facts about the budgeted accumulation.

  /** One more part: either it takes the text over the budget and reading stops with it, or reading goes on. */
  lemma {:induction false} AccumulateStep(acc: string, parts: seq<string>, part: string)
    requires |Accumulate(acc, parts)| <= BUDGET
    requires parts == [] ==> |acc| <= BUDGET
    ensures Accumulate(acc, parts + [part]) == Accumulate(acc, parts) + part
    decreases |parts|
  {
    if parts == [] {
      assert [] + [part] == [part];
    } else {
      var next := acc + parts[0];
      assert (parts + [part])[0] == parts[0];
      assert (parts + [part])[1..] == parts[1..] + [part];
      if |next| > BUDGET {
      } else {
        AccumulateStep(next, parts[1..], part);
      }
    }
  }

  /** Once the text is over the budget, further parts are never read. */
  lemma {:induction false} AccumulateStops(acc: string, parts: seq<string>, more: seq<string>)
    requires parts != [] && |Accumulate(acc, parts)| > BUDGET
    ensures Accumulate(acc, parts + more) == Accumulate(acc, parts)
    decreases |parts|
  {
    var next := acc + parts[0];
    assert (parts + more)[0] == parts[0];
    assert (parts + more)[1..] == parts[1..] + more;
    if |next| <= BUDGET {
      AccumulateStops(next, parts[1..], more);
    }
  }

  /** Reading two runs of parts in sequence is reading their concatenation. */
  lemma {:induction false} AccumulateAppend(acc: string, parts: seq<string>, more: seq<string>)
    requires |acc| <= BUDGET && |Accumulate(acc, parts)| <= BUDGET
    ensures Accumulate(acc, parts + more) == Accumulate(Accumulate(acc, parts), more)
    decreases |parts|
  {
    if parts == [] {
      assert [] + more == more;
    } else {
      var next := acc + parts[0];
      assert (parts + more)[0] == parts[0];
      assert (parts + more)[1..] == parts[1..] + more;
      AccumulateAppend(next, parts[1..], more);
    }
  }

  lemma {:induction false} RowTextsAppend(a: seq<seq<seq<Option<string>>>>, b: seq<seq<seq<Option<string>>>>)
    ensures RowTexts(a + b) == RowTexts(a) + RowTexts(b)
    decreases |b|
  {
    if b == [] {
      assert a + b == a;
    } else {
      var init, last := b[..|b| - 1], b[|b| - 1];
      calc {
        RowTexts(a + b);
      == { assert (a + b)[..|a + b| - 1] == a + init; assert (a + b)[|a + b| - 1] == last; }
        RowTexts(a + init) + SheetRows(last);
      == { RowTextsAppend(a, init); }
        RowTexts(a) + RowTexts(init) + SheetRows(last);
      }
    }
  }

  lemma {:induction false} SheetRowsAppend(a: seq<seq<Option<string>>>, b: seq<seq<Option<string>>>)
    ensures SheetRows(a + b) == SheetRows(a) + SheetRows(b)
    decreases |b|
  {
    if b == [] {
      assert a + b == a;
    } else {
      var init, last := b[..|b| - 1], b[|b| - 1];
      calc {
        SheetRows(a + b);
      == { assert (a + b)[..|a + b| - 1] == a + init; assert (a + b)[|a + b| - 1] == last; }
        SheetRows(a + init) + [RowText(last)];
      == { SheetRowsAppend(a, init); }
        SheetRows(a) + SheetRows(init) + [RowText(last)];
      }
    }
  }

  /** After one more row of a sheet, the text is the accumulation of the rows read so far. */
  lemma SheetRowStep(start: string, rows: seq<seq<Option<string>>>, r: nat, before: string, text: string)
    requires r < |rows| && |start| <= BUDGET
    requires |before| <= BUDGET && before == Accumulate(start, SheetRows(rows[..r]))
    requires text == before + RowText(rows[r])
    ensures text == Accumulate(start, SheetRows(rows[..r + 1]))
  {
    assert SheetRows(rows[..r + 1]) == SheetRows(rows[..r]) + [RowText(rows[r])] by {
      assert rows[..r + 1][..r] == rows[..r];
      assert rows[..r + 1][r] == rows[r];
    }
    AccumulateStep(start, SheetRows(rows[..r]), RowText(rows[r]));
  }

  /** Once a row takes the text over the budget, the rows after it are never read. */
  lemma SheetRowsStop(start: string, rows: seq<seq<Option<string>>>, r: nat)
    requires r < |rows| && |Accumulate(start, SheetRows(rows[..r + 1]))| > BUDGET
    ensures Accumulate(start, SheetRows(rows)) == Accumulate(start, SheetRows(rows[..r + 1]))
  {
    SheetRowsAppend(rows[..r + 1], rows[r + 1..]);
    assert rows[..r + 1] + rows[r + 1..] == rows;
    AccumulateStops(start, SheetRows(rows[..r + 1]), SheetRows(rows[r + 1..]));
  }

  /** Once a sheet takes the text over the budget, the sheets after it are never read. */
  lemma SheetsStop(sheets: seq<seq<seq<Option<string>>>>, s: nat)
    requires s < |sheets| && |Accumulate("", RowTexts(sheets[..s + 1]))| > BUDGET
    ensures Accumulate("", RowTexts(sheets)) == Accumulate("", RowTexts(sheets[..s + 1]))
  {
    RowTextsAppend(sheets[..s + 1], sheets[s + 1..]);
    assert sheets[..s + 1] + sheets[s + 1..] == sheets;
    AccumulateStops("", RowTexts(sheets[..s + 1]), RowTexts(sheets[s + 1..]));
  }

  /** After one sheet, the text of the sheets read so far extends by that sheet's rows. */
  lemma SheetRowsSplit(sheets: seq<seq<seq<Option<string>>>>, s: nat, start: string, text: string)
    requires s < |sheets|
    requires |start| <= BUDGET && start == Accumulate("", RowTexts(sheets[..s]))
    requires text == Accumulate(start, SheetRows(sheets[s]))
    ensures text == Accumulate("", RowTexts(sheets[..s + 1]))
  {
    assert sheets[..s + 1][..s] == sheets[..s];
    assert RowTexts(sheets[..s + 1]) == RowTexts(sheets[..s]) + SheetRows(sheets[s]);
    AccumulateFrom("", RowTexts(sheets[..s]));
    AccumulateAppend("", RowTexts(sheets[..s]), SheetRows(sheets[s]));
  }

  /** The accumulated text begins with the starting text. */
  lemma {:induction false} AccumulateFrom(acc: string, parts: seq<string>)
    ensures acc <= Accumulate(acc, parts)
    decreases |parts|
  {
    if parts != [] {
      var next := acc + parts[0];
      if |next| <= BUDGET {
        AccumulateFrom(next, parts[1..]);
      }
    }
  }

  /** The accumulated text is the concatenation of the first k parts, where k is all of them or the
      first count whose concatenation exceeds the budget; every shorter prefix is within the budget. */
  lemma {:induction false} AccumulateReadsPrefix(parts: seq<string>, k: nat)
    requires k <= |parts|
    requires forall j :: 0 < j < k ==> |Concat(parts[..j])| <= BUDGET
    requires k == |parts| || |Concat(parts[..k])| > BUDGET
    requires k > 0 || parts == []
    ensures Accumulate("", parts) == Concat(parts[..k])
  {
    AccumulateGeneral(parts, 0, k);
    assert parts[..0] == [];
  }

  lemma {:induction false} AccumulateGeneral(parts: seq<string>, i: nat, k: nat)
    requires i <= k <= |parts|
    requires forall j :: 0 < j < k ==> |Concat(parts[..j])| <= BUDGET
    requires k == |parts| || |Concat(parts[..k])| > BUDGET
    requires i < k || i == |parts|
    ensures Accumulate(Concat(parts[..i]), parts[i..]) == Concat(parts[..k])
    decreases |parts| - i
  {
    if i == |parts| {
      assert k == |parts|;
      assert parts[..|parts|] == parts;
    } else {
      var next := Concat(parts[..i]) + parts[i];
      assert parts[..i + 1] == parts[..i] + [parts[i]];
      ConcatAppend(parts[..i], parts[i]);
      assert next == Concat(parts[..i + 1]);
      assert parts[i..][0] == parts[i] && parts[i..][1..] == parts[i + 1..];
      if i + 1 < k {
        assert |next| <= BUDGET;
        AccumulateGeneral(parts, i + 1, k);
      } else {
        assert i + 1 == k;
        if k == |parts| {
          assert parts[k..] == [];
        } else {
          assert |next| > BUDGET;
        }
      }
    }
  }

  /** A first part that alone exceeds the budget is kept whole: the readers can overshoot without bound. */
  lemma OvershootKeepsWholePart(parts: seq<string>)
    requires parts != [] && |parts[0]| > BUDGET
    ensures Accumulate("", parts) == parts[0]
    ensures |Accumulate("", parts)| > BUDGET
  {
    assert "" + parts[0] == parts[0];
  }

  /** A file type without a reader never matches on content, whatever the keyword. */
  lemma NoReaderNeverMatches(name: string, body: Body, keyword: string)
    requires ReaderFor(Lower(Suffix(name))) == NoReader
    ensures !ContentMatches(name, body, keyword)
  {
  }

  /** A plain-text file is matched on at most its first BUDGET characters. */
  lemma PlainTextWithinBudget(name: string, body: Body)
    requires ReaderFor(Lower(Suffix(name))) == PlainText && body.text.Some?
    ensures ContentText(name, body) == Some(TextPrefix(body.text.value))
    ensures |ContentText(name, body).value| <= BUDGET
  {
  }
}
