/**
  * The upload ingestion rules: classification of an uploaded file by its
  * extension, UTF-8 decoding, the `tables.inc` table parser, the word ceiling
  * for text files and the page ceiling for PDFs.
  */
module Ingest {
  import opened Outcomes
  import opened PyStr
  import Utf8

  /** Word ceiling for most files. */
  const MaxContextWords: nat := 10000
  /** Word ceiling for `.data` input decks (the same value). */
  const MaxDataContextWords: nat := 10000

  /** A parsed table: column name to the column's cells, top to bottom (cells kept as their tokens). */
  type Table = map<string, seq<string>>

  /** What ingestion hands back: whether to add `content` to the prompt, and any parsed tables. */
  datatype FileProcessResult = FileProcessResult(addToContext: bool, content: string, data: Option<seq<Table>>)

  /** The one exception the text path can raise: a data row shorter than its header (`row[i]`). */
  datatype IngestError = IndexOutOfRange

  /** An uploaded file: its name as given and its raw bytes. */
  datatype UploadedFile = UploadedFile(name: string, bytes: seq<Utf8.byte>)

  function Min(a: nat, b: nat): nat {
    if a <= b then a else b
  }

  // ---------------------------------------------------------------------------
  // Classification

  /** `name.split('.')[-1].lower()`. */
  function Extension(name: string): string {
    var pieces := SplitOn(name, '.');
    Lower(pieces[|pieces| - 1])
  }

  /** The extension is the lower-cased text after the last `.`, the whole name when there is no dot. */
  lemma ExtensionIsLowerSuffix(name: string)
    ensures Extension(name) == Lower(name[AfterLast(name, '.')..])
  {
    LastPiece(name, '.');
  }

  /** The last dot is at the same place in a name and in its lower-cased form. */
  lemma {:induction false} AfterLastOfLower(s: string)
    ensures AfterLast(Lower(s), '.') == AfterLast(s, '.')
    decreases |s|
  {
    if s != [] {
      assert Lower(s)[..|s| - 1] == Lower(s[..|s| - 1]);
      AfterLastOfLower(s[..|s| - 1]);
    }
  }

  /** Classification is case-insensitive: a name and its lower-cased form have the same extension. */
  lemma ExtensionIgnoresCase(name: string)
    ensures Extension(Lower(name)) == Extension(name)
  {
    ExtensionIsLowerSuffix(name);
    ExtensionIsLowerSuffix(Lower(name));
    AfterLastOfLower(name);
    var k := AfterLast(name, '.');
    assert Lower(name)[k..] == Lower(name[k..]);
    assert Lower(Lower(name[k..])) == Lower(name[k..]);
  }

  /** The extensions that take the text path. */
  predicate IsTextExtension(ext: string) {
    ext in ["data", "dbg", "sch", "inc", "txt"]
  }

  // ---------------------------------------------------------------------------
  // Word ceiling

  /** The ceiling that applies to a text file with extension `ext`. */
  function Ceiling(ext: string): nat {
    if ext == "data" then MaxDataContextWords else MaxContextWords
  }

  /** `' '.join(content.split()[:maxWords])`: the first `maxWords` words, single-spaced. */
  function TruncateWords(content: string, maxWords: nat): (r: string)
    ensures Words(r) == Words(content)[..Min(maxWords, CountWords(content))]
  {
    var ws := Words(content)[..Min(maxWords, CountWords(content))];
    WordsOfSpaceJoin(ws);
    Join(" ", ws)
  }

  // ---------------------------------------------------------------------------
  // tables.inc

  /** `content.split('/')[:-1]`: every piece before the last `/`. */
  function Blocks(content: string): seq<string> {
    var pieces := SplitOn(content, '/');
    pieces[..|pieces| - 1]
  }

  /** There is one block per `/`, and the piece dropped is the text after the last `/`, whatever it holds. */
  lemma BlocksDropLastPiece(content: string)
    ensures |Blocks(content)| == multiset(content)['/']
    ensures Blocks(content) + [content[AfterLast(content, '/')..]] == SplitOn(content, '/')
  {
    SplitOnPieces(content, '/');
    LastPiece(content, '/');
  }

  /** `table.strip().split('\n')`. */
  function TableLines(block: string): (lines: seq<string>)
    ensures |lines| >= 1
  {
    SplitOn(Strip(block), '\n')
  }

  /** `lines[0].strip('-- ').split()`: the column names. */
  function Header(block: string): seq<string> {
    Words(StripChars(TableLines(block)[0], "-- "))
  }

  /** `line and not line.startswith('SGWFN')`. */
  predicate IsDataLine(line: string) {
    line != "" && !StartsWith(line, "SGWFN")
  }

  /** The lines from the third on that hold data: not empty and not an `SGWFN` line. */
  function DataLines(block: string): seq<string> {
    var lines := TableLines(block);
    Filter(lines[Min(2, |lines|)..], IsDataLine)
  }

  /** `[line.split() for line in lines[2:] if ...]`: the tokens of each data line. */
  function DataRows(block: string): seq<seq<string>> {
    var kept := DataLines(block);
    seq(|kept|, k requires 0 <= k < |kept| => Words(kept[k]))
  }

  /**
    * The first two lines of a block are never data; of the rest, exactly the
    * non-empty lines that do not start with `SGWFN` are kept, in order, each
    * split into its tokens.
    */
  lemma DataRowsShape(block: string)
    ensures var lines, kept, rows := TableLines(block), DataLines(block), DataRows(block);
      |rows| == |kept| &&
      (forall k :: 0 <= k < |kept| ==> rows[k] == Words(kept[k])) &&
      (forall line :: line in kept <==> line in lines[Min(2, |lines|)..] && IsDataLine(line))
  {
    var lines := TableLines(block);
    forall line
      ensures line in DataLines(block) <==> line in lines[Min(2, |lines|)..] && IsDataLine(line)
    {
      FilterMembers(lines[Min(2, |lines|)..], IsDataLine, line);
    }
  }

  /** Every row has a cell at position `i`. */
  predicate AllRowsReach(rows: seq<seq<string>>, i: nat) {
    forall k :: 0 <= k < |rows| ==> i < |rows[k]|
  }

  /** `[row[i] for row in rows]`. */
  function Column(rows: seq<seq<string>>, i: nat): (col: seq<string>)
    requires AllRowsReach(rows, i)
    ensures |col| == |rows| && forall k :: 0 <= k < |rows| ==> col[k] == rows[k][i]
  {
    seq(|rows|, k requires 0 <= k < |rows| => rows[k][i])
  }

  /** No later header position carries the same name as position `j`. */
  predicate IsLastOccurrence(header: seq<string>, j: nat)
    requires j < |header|
  {
    forall j' :: j < j' < |header| ==> header[j'] != header[j]
  }

  /**
    * `{col: [row[i] for row in rows] for i, col in enumerate(header)}`, built in
    * the order of the header.
    */
  function Columns(header: seq<string>, rows: seq<seq<string>>): Table
    requires forall k :: 0 <= k < |rows| ==> |header| <= |rows[k]|
    decreases |header|
  {
    if header == [] then map[]
    else
      var last := |header| - 1;
      Columns(header[..last], rows)[header[last] := Column(rows, last)]
  }

  /** The keys of `Columns` are exactly the header names. */
  lemma {:induction false} ColumnsKeys(header: seq<string>, rows: seq<seq<string>>)
    requires forall k :: 0 <= k < |rows| ==> |header| <= |rows[k]|
    ensures forall c :: c in Columns(header, rows) <==> c in header
    decreases |header|
  {
    if header != [] {
      var last := |header| - 1;
      ColumnsKeys(header[..last], rows);
      assert header == header[..last] + [header[last]];
    }
  }

  /** Every entry of `Columns` holds one cell per row. */
  lemma {:induction false} ColumnsLengths(header: seq<string>, rows: seq<seq<string>>)
    requires forall k :: 0 <= k < |rows| ==> |header| <= |rows[k]|
    ensures forall c :: c in Columns(header, rows) ==> |Columns(header, rows)[c]| == |rows|
    decreases |header|
  {
    if header != [] {
      ColumnsLengths(header[..|header| - 1], rows);
    }
  }

  /** The entry of a name is the column of its last occurrence in the header. */
  lemma {:induction false} ColumnsLast(header: seq<string>, rows: seq<seq<string>>, j: nat)
    requires forall k :: 0 <= k < |rows| ==> |header| <= |rows[k]|
    requires j < |header| && IsLastOccurrence(header, j)
    ensures AllRowsReach(rows, j) && header[j] in Columns(header, rows)
    ensures Columns(header, rows)[header[j]] == Column(rows, j)
    decreases |header|
  {
    var last := |header| - 1;
    if j < last {
      var front := header[..last];
      assert header[last] != header[j];
      assert IsLastOccurrence(front, j);
      ColumnsLast(front, rows, j);
    }
  }

  /**
    * One entry per column name, each as long as there are rows; when a name
    * repeats, the later column overwrites the earlier one.
    */
  lemma {:induction false} ColumnsShape(header: seq<string>, rows: seq<seq<string>>)
    requires forall k :: 0 <= k < |rows| ==> |header| <= |rows[k]|
    ensures forall c :: c in Columns(header, rows) <==> c in header
    ensures forall c :: c in Columns(header, rows) ==> |Columns(header, rows)[c]| == |rows|
    ensures forall j :: 0 <= j < |header| && IsLastOccurrence(header, j) ==>
      AllRowsReach(rows, j) && Columns(header, rows)[header[j]] == Column(rows, j)
  {
    ColumnsKeys(header, rows);
    ColumnsLengths(header, rows);
    forall j | 0 <= j < |header| && IsLastOccurrence(header, j)
      ensures AllRowsReach(rows, j) && Columns(header, rows)[header[j]] == Column(rows, j)
    {
      ColumnsLast(header, rows, j);
    }
  }

  /**
    * One block of `tables.inc`: the header columns mapped to their cells over the
    * data rows, or the IndexError raised when a data row is shorter than the header.
    */
  function ParseTable(block: string): Result<Table, IngestError> {
    var header := Header(block);
    var rows := DataRows(block);
    if exists k :: 0 <= k < |rows| && |rows[k]| < |header| then Err(IndexOutOfRange)
    else Ok(Columns(header, rows))
  }

  /**
    * A block parses exactly when no data row is shorter than the header; the table
    * then has one entry per header name, each holding one cell per data row, and
    * a name's entry is the column of its last occurrence in the header.
    */
  lemma ParseTableShape(block: string)
    ensures var header, rows := Header(block), DataRows(block);
      ParseTable(block).Ok? <==> forall k :: 0 <= k < |rows| ==> |header| <= |rows[k]|
    ensures var header, rows, r := Header(block), DataRows(block), ParseTable(block);
      r.Ok? ==>
        (forall c :: c in r.value <==> c in header) &&
        (forall c :: c in r.value ==> |r.value[c]| == |rows|) &&
        (forall j :: 0 <= j < |header| && IsLastOccurrence(header, j) ==>
          AllRowsReach(rows, j) && r.value[header[j]] == Column(rows, j))
  {
    var header, rows := Header(block), DataRows(block);
    if ParseTable(block).Ok? {
      ColumnsShape(header, rows);
    }
  }

  // ---------------------------------------------------------------------------
  // The text path

  /** The `tables.inc` outcome: one table per block, not added to the prompt, or the IndexError of a block. */
  predicate IsTablesResult(content: string, r: Result<FileProcessResult, IngestError>) {
    var blocks := Blocks(content);
    (r.Ok? <==> forall k :: 0 <= k < |blocks| ==> ParseTable(blocks[k]).Ok?) &&
    (r.Ok? ==>
      !r.value.addToContext && r.value.content == "" && r.value.data.Some? &&
      |r.value.data.value| == |blocks| &&
      forall k :: 0 <= k < |blocks| ==> ParseTable(blocks[k]) == Ok(r.value.data.value[k]))
  }

  /** The outcome for other text: added to the prompt, cut to the first `Ceiling(ext)` words when it has more. */
  predicate IsCeilingResult(content: string, ext: string, r: Result<FileProcessResult, IngestError>) {
    r == Ok(FileProcessResult(true,
      if CountWords(content) <= Ceiling(ext) then content else TruncateWords(content, Ceiling(ext)),
      None))
  }

  /** The outcome `process_text_file` promises: tables for `tables.inc`, the word ceiling for anything else. */
  predicate IsTextFileResult(content: string, ext: string, name: string, r: Result<FileProcessResult, IngestError>) {
    if name == "tables.inc" then IsTablesResult(content, r) else IsCeilingResult(content, ext, r)
  }

  /** Appending the table of the next block keeps the tables parsed so far in step with their blocks. */
  lemma ExtendTables(blocks: seq<string>, tables: seq<Table>, t: Table)
    requires |tables| < |blocks| && ParseTable(blocks[|tables|]) == Ok(t)
    requires forall k :: 0 <= k < |tables| ==> ParseTable(blocks[k]) == Ok(tables[k])
    ensures forall k :: 0 <= k < |tables| + 1 ==> ParseTable(blocks[k]) == Ok((tables + [t])[k])
  {
    forall k | 0 <= k < |tables| + 1
      ensures ParseTable(blocks[k]) == Ok((tables + [t])[k])
    {
      if k < |tables| {
        assert (tables + [t])[k] == tables[k];
      }
    }
  }

  /**
    * The `tables.inc` branch of `process_text_file`: parse block after block and
    * append each table, stopping at the first IndexError.
    */
  method ParseTablesInc(content: string) returns (r: Result<seq<Table>, IngestError>)
    ensures var blocks := Blocks(content);
      (r.Ok? <==> forall k :: 0 <= k < |blocks| ==> ParseTable(blocks[k]).Ok?) &&
      (r.Ok? ==> |r.value| == |blocks| && forall k :: 0 <= k < |blocks| ==> ParseTable(blocks[k]) == Ok(r.value[k]))
  {
    var tables := Blocks(content);
    var allData: seq<Table> := [];
    var i := 0;
    while i < |tables|
      invariant 0 <= i <= |tables|
      invariant |allData| == i
      invariant forall k :: 0 <= k < i ==> ParseTable(tables[k]) == Ok(allData[k])
    {
      var tableData := ParseTable(tables[i]);
      if tableData.Err? {
        return Err(tableData.error);
      }
      ExtendTables(tables, allData, tableData.value);
      allData := allData + [tableData.value];
      i := i + 1;
    }
    return Ok(allData);
  }

  /** `process_text_file`: the `tables.inc` parser or the word ceiling. */
  method ProcessTextFile(content: string, fileExtension: string, fileName: string)
    returns (r: Result<FileProcessResult, IngestError>)
    ensures IsTextFileResult(content, fileExtension, fileName, r)
  {
    var wordCount := CountWords(content);
    if fileName == "tables.inc" {
      var allData := ParseTablesInc(content);
      if allData.Err? {
        return Err(allData.error);
      }
      return Ok(FileProcessResult(false, "", Some(allData.value)));
    }
    var maxWords := Ceiling(fileExtension);
    if wordCount <= maxWords {
      return Ok(FileProcessResult(true, content, None));
    } else {
      var truncatedContent := TruncateWords(content, maxWords);
      return Ok(FileProcessResult(true, truncatedContent, None));
    }
  }

  /**
    * Within the ceiling a text file is passed on whole; over it, the result holds
    * exactly the ceiling's number of words, and they are the input's first words.
    */
  lemma TextCeiling(content: string, ext: string, name: string, r: Result<FileProcessResult, IngestError>)
    requires name != "tables.inc" && IsTextFileResult(content, ext, name, r)
    ensures r.Ok? && r.value.addToContext && r.value.data == None
    ensures CountWords(content) <= 10000 ==> r.value.content == content
    ensures CountWords(content) > 10000 ==>
      CountWords(r.value.content) == 10000 && Words(r.value.content) == Words(content)[..10000]
  {
  }

  // ---------------------------------------------------------------------------
  // The PDF path

  /** `int(MaxContextWords // (wordCount / pageCount))` in exact arithmetic: the floor of MaxContextWords * pageCount / wordCount. */
  function PagesKept(pageCount: nat, wordCount: nat): (k: nat)
    requires wordCount > 0
    ensures k * wordCount <= MaxContextWords * pageCount < (k + 1) * wordCount
  {
    MaxContextWords * pageCount / wordCount
  }

  lemma FewerPages(k: nat, p: nat, w: nat)
    requires w > 0 && k * w < p * w
    ensures k < p
  {
  }

  /**
    * The text `process_pdf_file` adds to the prompt, from the loaded pages: all pages
    * joined by newlines when within the ceiling, otherwise a strict prefix of the pages
    * sized by the average words per page.
    */
  function PdfContent(pages: seq<string>): (r: string)
    ensures CountWords(Join("\n", pages)) <= MaxContextWords ==> r == Join("\n", pages)
    ensures CountWords(Join("\n", pages)) > MaxContextWords ==>
      |pages| > 0 && PagesKept(|pages|, CountWords(Join("\n", pages))) < |pages| &&
      r == Join("\n", pages[..PagesKept(|pages|, CountWords(Join("\n", pages)))])
  {
    var content := Join("\n", pages);
    var wordCount := CountWords(content);
    if wordCount <= MaxContextWords then content
    else
      var kept := PagesKept(|pages|, wordCount);
      FewerPages(kept, |pages|, wordCount);
      Join("\n", pages[..kept])
  }

  /** The PDF word count is the sum of the pages' own counts: the newline joins no two words. */
  lemma PdfWordCount(pages: seq<string>)
    ensures CountWords(Join("\n", pages)) == TotalWords(pages)
  {
    CountWordsOfJoin('\n', pages);
  }

  // ---------------------------------------------------------------------------
  // process_file

  /**
    * `process_file`: route by extension; text files are decoded as UTF-8 (a failure is
    * reported inline, never raised), PDFs go through `loadPdf`, anything else is reported
    * as unsupported. The only failure the model keeps is the table parser's IndexError.
    */
  method ProcessFile(file: UploadedFile, loadPdf: seq<Utf8.byte> -> seq<string>)
    returns (r: Result<FileProcessResult, IngestError>)
    ensures var ext := Extension(file.name);
      IsTextExtension(ext) && Utf8.Decode(file.bytes).None? ==>
        r == Ok(FileProcessResult(true, "File " + Lower(file.name) + " could not be decoded", None))
    ensures var ext := Extension(file.name);
      IsTextExtension(ext) && Utf8.Decode(file.bytes).Some? ==>
        IsTextFileResult(Utf8.Decode(file.bytes).value, ext, Lower(file.name), r)
    ensures Extension(file.name) == "pdf" ==>
      r == Ok(FileProcessResult(true, PdfContent(loadPdf(file.bytes)), None))
    ensures var ext := Extension(file.name);
      !IsTextExtension(ext) && ext != "pdf" ==>
        r == Ok(FileProcessResult(true, "Unsupported file type: " + ext, None))
    ensures r.Err? ==> Lower(file.name) == "tables.inc"
  {
    var fileExtension := Extension(file.name);
    var fileName := Lower(file.name);
    if IsTextExtension(fileExtension) {
      var content := Utf8.Decode(file.bytes);
      if content.None? {
        return Ok(FileProcessResult(true, "File " + fileName + " could not be decoded", None));
      }
      r := ProcessTextFile(content.value, fileExtension, fileName);
    } else if fileExtension == "pdf" {
      var pages := loadPdf(file.bytes);
      r := Ok(FileProcessResult(true, PdfContent(pages), None));
    } else {
      r := Ok(FileProcessResult(true, "Unsupported file type: " + fileExtension, None));
    }
  }
}
