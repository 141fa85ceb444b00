/**
  * The corpus cleaning rules applied while the keyword HTML pages are loaded:
  * which files are keyword pages, the title each page's documents receive, and
  * the line filter that removes blank lines and the manual's running banner.
  * The directory walk and the HTML loader are inputs: the files in walk order,
  * each with the documents the loader returned for it.
  */
module Corpus {
  import opened PyStr

  /** A loaded document: its text and its metadata. */
  datatype Document = Document(pageContent: string, metadata: map<string, string>)

  /** A file met by the directory walk, with the documents loaded from it. */
  datatype HtmlFile = HtmlFile(name: string, docs: seq<Document>)

  // ---------------------------------------------------------------------------
  // File filter and title

  /** `file.endswith('.html') and not file.startswith('index')`. */
  predicate IsKeywordPage(name: string) {
    EndsWith(name, ".html") && !StartsWith(name, "index")
  }

  /**
    * `os.path.splitext(name)[0]` for a base name: the name without the text from its
    * last `.` on, except that a `.` preceded only by dots starts no extension.
    */
  function SplitExtRoot(name: string): string {
    var k := AfterLast(name, '.');
    if k > 0 && exists j :: 0 <= j < k - 1 && name[j] != '.' then name[..k - 1] else name
  }

  /** `os.path.splitext(file)[0].upper()`. */
  function KeywordTitle(name: string): string {
    Upper(SplitExtRoot(name))
  }

  /**
    * The title of a keyword page is its name without the `.html`, upper-cased; when
    * only dots precede the `.html` (as in `.html`), nothing is removed.
    */
  lemma KeywordTitleOfPage(name: string)
    requires IsKeywordPage(name)
    ensures (exists j :: 0 <= j < |name| - 5 && name[j] != '.') ==> KeywordTitle(name) == Upper(name[..|name| - 5])
    ensures (forall j :: 0 <= j < |name| - 5 ==> name[j] == '.') ==> KeywordTitle(name) == Upper(name)
  {
    var n := |name|;
    assert name[n - 5..] == ".html";
    assert name[n - 5] == '.' && forall j :: n - 4 <= j < n ==> name[j] != '.' by {
      forall j | n - 5 <= j < n ensures name[j] == ".html"[j - (n - 5)] {
        assert name[n - 5..][j - (n - 5)] == name[j];
      }
    }
    assert AfterLast(name, '.') == n - 4;
  }

  // ---------------------------------------------------------------------------
  // Line filter

  /** The running banner of the manual's pages. */
  const Banner: string := "OPEN POROUS MEDIA"

  /** `line.strip() and 'OPEN POROUS MEDIA' not in line`. */
  predicate KeepLine(line: string) {
    Strip(line) != "" && !Contains(line, Banner)
  }

  /** A line is kept exactly when it has a non-whitespace character and no banner. */
  lemma KeepLineMeans(line: string)
    ensures KeepLine(line) <==> (exists k :: 0 <= k < |line| && !IsSpace(line[k])) && !Contains(line, Banner)
  {
  }

  /** `'\n'.join(line for line in content.split('\n') if ...)`. */
  function CleanContent(content: string): string {
    Join("\n", Filter(SplitOn(content, '\n'), KeepLine))
  }

  /** The kept lines hold no newline. */
  lemma KeptLinesHaveNoNewline(content: string)
    ensures forall i :: 0 <= i < |Filter(SplitOn(content, '\n'), KeepLine)| ==>
      '\n' !in Filter(SplitOn(content, '\n'), KeepLine)[i]
  {
    SplitOnPieces(content, '\n');
    var kept := Filter(SplitOn(content, '\n'), KeepLine);
    forall i | 0 <= i < |kept| ensures '\n' !in kept[i] {
      FilterMembers(SplitOn(content, '\n'), KeepLine, kept[i]);
    }
  }

  /**
    * The lines of the cleaned content are exactly the original lines that are kept,
    * in their original order; when none is kept the content becomes empty.
    */
  lemma CleanedLines(content: string)
    ensures var kept := Filter(SplitOn(content, '\n'), KeepLine);
      (kept == [] ==> CleanContent(content) == "") &&
      (kept != [] ==> SplitOn(CleanContent(content), '\n') == kept)
  {
    var kept := Filter(SplitOn(content, '\n'), KeepLine);
    if kept != [] {
      KeptLinesHaveNoNewline(content);
      SplitOnJoin(kept, '\n');
    }
  }

  /** Cleaning is idempotent: cleaned content comes through a second cleaning unchanged. */
  lemma CleanIdempotent(content: string)
    ensures CleanContent(CleanContent(content)) == CleanContent(content)
  {
    var kept := Filter(SplitOn(content, '\n'), KeepLine);
    CleanedLines(content);
    if kept == [] {
      assert SplitOn("", '\n') == [""];
      assert !KeepLine("");
      assert Filter([""], KeepLine) == [];
    } else {
      forall k | 0 <= k < |kept| ensures KeepLine(kept[k]) {
        FilterMembers(SplitOn(content, '\n'), KeepLine, kept[k]);
      }
      FilterAllKept(kept, KeepLine);
    }
  }

  // ---------------------------------------------------------------------------
  // parse_html_files

  /** The document with its title set and its content cleaned. */
  function Prepare(doc: Document, title: string): Document {
    doc.(metadata := doc.metadata["title" := title], pageContent := CleanContent(doc.pageContent))
  }

  /** What one file contributes: every loaded document, prepared, if it is a keyword page; nothing otherwise. */
  function FileDocuments(f: HtmlFile): seq<Document> {
    if IsKeywordPage(f.name) then
      seq(|f.docs|, k requires 0 <= k < |f.docs| => Prepare(f.docs[k], KeywordTitle(f.name)))
    else []
  }

  /** The documents of all files, file after file in walk order. */
  function Parsed(files: seq<HtmlFile>): seq<Document>
    decreases |files|
  {
    if files == [] then [] else Parsed(files[..|files| - 1]) + FileDocuments(files[|files| - 1])
  }

  /**
    * The inner loop of `parse_html_files` for one keyword page: set each loaded
    * document's title and clean its content, in place.
    */
  method PrepareDocuments(file: HtmlFile) returns (docs: seq<Document>)
    requires IsKeywordPage(file.name)
    ensures docs == FileDocuments(file)
  {
    docs := file.docs;
    var keywordName := KeywordTitle(file.name);
    var j := 0;
    while j < |docs|
      invariant 0 <= j <= |docs| == |file.docs|
      invariant forall k :: 0 <= k < j ==> docs[k] == Prepare(file.docs[k], keywordName)
      invariant forall k :: j <= k < |docs| ==> docs[k] == file.docs[k]
    {
      var doc := docs[j];
      doc := doc.(metadata := doc.metadata["title" := keywordName]);
      doc := doc.(pageContent := CleanContent(doc.pageContent));
      docs := docs[j := doc];
      j := j + 1;
    }
    PreparedAll(file, docs);
  }

  /** `parse_html_files`, on the files of the walk and the documents loaded from each. */
  method ParseHtmlFiles(files: seq<HtmlFile>) returns (documents: seq<Document>)
    ensures documents == Parsed(files)
  {
    documents := [];
    var i := 0;
    while i < |files|
      invariant 0 <= i <= |files|
      invariant documents == Parsed(files[..i])
    {
      var file := files[i];
      if IsKeywordPage(file.name) {
        var docs := PrepareDocuments(file);
        documents := documents + docs;
      }
      ParsedStep(files, i);
      i := i + 1;
    }
    assert files[..i] == files;
  }

  /** Documents that are, one by one, a keyword page's documents prepared with its title are what the page contributes. */
  lemma PreparedAll(f: HtmlFile, docs: seq<Document>)
    requires IsKeywordPage(f.name) && |docs| == |f.docs|
    requires forall k :: 0 <= k < |docs| ==> docs[k] == Prepare(f.docs[k], KeywordTitle(f.name))
    ensures docs == FileDocuments(f)
  {
  }

  /** One more file adds that file's documents at the end. */
  lemma ParsedStep(files: seq<HtmlFile>, i: nat)
    requires i < |files|
    ensures Parsed(files[..i + 1]) == Parsed(files[..i]) + FileDocuments(files[i])
  {
    assert files[..i + 1][..i] == files[..i];
  }

  /** A non-empty walk's result is that of all files but the last, followed by the last file's documents. */
  lemma ParsedLast(s: seq<HtmlFile>)
    requires s != []
    ensures Parsed(s) == Parsed(s[..|s| - 1]) + FileDocuments(s[|s| - 1])
  {
  }

  /** The result for a walk split in two is the result for each half, one after the other. */
  lemma {:induction false} ParsedAppend(a: seq<HtmlFile>, b: seq<HtmlFile>)
    ensures Parsed(a + b) == Parsed(a) + Parsed(b)
    decreases |b|
  {
    if b == [] {
      assert a + b == a;
    } else {
      var ab, front, f := a + b, b[..|b| - 1], b[|b| - 1];
      assert ab[..|ab| - 1] == a + front && ab[|ab| - 1] == f;
      ParsedLast(ab);
      ParsedLast(b);
      ParsedAppend(a, front);
      ConcatAssoc(Parsed(a), Parsed(front), FileDocuments(f));
    }
  }

  /** The number of documents loaded from keyword pages. */
  function KeywordDocCount(files: seq<HtmlFile>): nat
    decreases |files|
  {
    if files == [] then 0
    else (if IsKeywordPage(files[0].name) then |files[0].docs| else 0) + KeywordDocCount(files[1..])
  }

  /** Nothing is dropped or duplicated: one document out per document loaded from a keyword page. */
  lemma {:induction false} ParsedCount(files: seq<HtmlFile>)
    ensures |Parsed(files)| == KeywordDocCount(files)
    decreases |files|
  {
    if files != [] {
      ParsedCount(files[1..]);
      ParsedAppend([files[0]], files[1..]);
      assert [files[0]] + files[1..] == files;
      assert Parsed([files[0]]) == FileDocuments(files[0]) by {
        assert [files[0]][..0] == [];
      }
    }
  }

  /** Every document loaded from a keyword page appears in the result, prepared with its page's title. */
  lemma {:induction false} ParsedKeepsDocument(files: seq<HtmlFile>, i: nat, k: nat) returns (p: nat)
    requires i < |files| && IsKeywordPage(files[i].name) && k < |files[i].docs|
    ensures p < |Parsed(files)|
    ensures Parsed(files)[p] == Prepare(files[i].docs[k], KeywordTitle(files[i].name))
    ensures Parsed(files)[p].metadata["title"] == KeywordTitle(files[i].name)
    ensures Parsed(files)[p].pageContent == CleanContent(files[i].docs[k].pageContent)
    decreases |files|
  {
    var front := files[..|files| - 1];
    var fd := FileDocuments(files[|files| - 1]);
    assert Parsed(files) == Parsed(front) + fd;
    if i == |files| - 1 {
      p := |Parsed(front)| + k;
      assert fd[k] == Prepare(files[i].docs[k], KeywordTitle(files[i].name));
    } else {
      assert front[i] == files[i];
      p := ParsedKeepsDocument(front, i, k);
    }
  }

  /** Every document in the result comes from a keyword page and carries that page's title. */
  lemma {:induction false} ParsedOrigin(files: seq<HtmlFile>, p: nat) returns (i: nat, k: nat)
    requires p < |Parsed(files)|
    ensures i < |files| && IsKeywordPage(files[i].name) && k < |files[i].docs|
    ensures Parsed(files)[p] == Prepare(files[i].docs[k], KeywordTitle(files[i].name))
    ensures Parsed(files)[p].metadata["title"] == KeywordTitle(files[i].name)
    decreases |files|
  {
    var front := files[..|files| - 1];
    if p < |Parsed(front)| {
      i, k := ParsedOrigin(front, p);
    } else {
      i, k := |files| - 1, p - |Parsed(front)|;
    }
  }
}
