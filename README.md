# OPM assistant: ingestion, session and corpus rules in Dafny

The OPM assistant is a chat front end for reservoir engineers who work with the
OPM Flow simulator. Three parts of it make decisions of their own. This project
models those three parts and proves what they guarantee:

- **Upload ingestion** (`process_file.py`, module `Ingest`). An uploaded file is
  classified by the lower-cased text after its last `.`:
  - Text types (`data`, `dbg`, `sch`, `inc`, `txt`) are decoded as strict UTF-8.
    A decode failure is reported in the result and never raised.
  - A file named `tables.inc` (compared after lower-casing) is parsed into tables:
    - one table per `/`-terminated block; the text after the last `/` is always dropped;
    - the header is the first line of the stripped block, with `-` and space removed
      from both ends;
    - data rows are the non-empty lines from the third on that do not start with `SGWFN`;
    - each header name maps to its column, and a repeated name keeps its last column.
  - Any other text file is passed on whole if it has at most 10000 words.
    Otherwise it is cut to its first 10000 words, joined by single spaces.
    The ceiling for `.data` decks is a separate constant, also 10000.
  - A PDF is reduced to its page texts. They are joined by newlines. Over the
    ceiling, only a prefix of the pages is kept; its length is 10000 divided by
    the average words per page, rounded down.
  - Anything else yields an "Unsupported file type" message.
- **Session registry** (`rag_chain.py`, module `Sessions`). A process-wide map
  holds each session's chat history. Looking up a session creates an empty
  history the first time and returns the same object from then on.
- **Corpus cleaning** (`generate_database.py`, module `Corpus`). While the
  keyword pages of the reference manual are loaded, three rules apply:
  - only `.html` files whose names do not start with `index` are kept;
  - each page's documents are titled with the upper-cased file name, minus its extension;
  - blank lines and lines carrying the banner `OPEN POROUS MEDIA` are removed.

Supporting modules:

- `PyStr` models the Python string operations these rules are built from:
  - `split()` with Python's whitespace set, and `split(c)`;
  - `join`, `strip()` and `strip(chars)`;
  - `startswith`, `endswith` and `in`;
  - `lower()` and `upper()`.
  `PyStr` also proves their laws: `split()` returns exactly the maximal
  non-whitespace runs, and `split(c)` and `join` invert each other.
- `Utf8` models the strict codec, and proves both round trips.
- `Outcomes` holds `Option` and `Result`.

Points where the model follows the code rather than a looser reading of it:

- `process_file` passes the lower-cased name (process_file.py:149) to the `tables.inc` test at process_file.py:52, so an upload named `TABLES.INC` is parsed as tables too.
- The second line of every table block is skipped: the header is `lines[0]` and data starts at `lines[2]` (process_file.py:59-60).
- The last piece of `content.split('/')` is dropped even when it is not empty (process_file.py:54). A final block without a closing `/` is therefore lost. `Ingest.BlocksDropLastPiece` states this.
- Both word ceilings are 10000 (process_file.py:13-14).

## Model

| member | source | states |
|---|---|---|
| PyStr.RunLength | process_file.py:23-24 | the first word of a string ends before the first whitespace character or at the end of the string |
| PyStr.Words | process_file.py:23-24 | every element `split()` returns is a non-empty run without whitespace |
| PyStr.WordsAroundSpace | process_file.py:23-24 | a whitespace character keeps the words on its two sides apart and loses none |
| PyStr.WordsOfInterleave | process_file.py:23-24 | words separated by whitespace gaps, with any whitespace around them, split back into exactly those words |
| PyStr.Decompose | process_file.py:23-24 | every string is its `split()` words interleaved with whitespace gaps that are non-empty between words, so the word count is the number of maximal non-whitespace runs |
| PyStr.WordsOfJoin | process_file.py:123-124 | the words of parts joined by a whitespace character are the words of each part, in order |
| PyStr.CountWordsOfJoin | process_file.py:123-124 | parts joined by a whitespace character have as many words as the parts together |
| PyStr.WordsOfSpaceJoin | process_file.py:75 | words joined by single spaces split back into the same words |
| PyStr.SplitOnPieces | process_file.py:54 | `split(c)` gives one more piece than there are `c`, and no piece contains `c` |
| PyStr.JoinSplitOn | generate_database.py:35 | joining the pieces of `split(c)` with `c` gives the string back |
| PyStr.SplitOnAround | generate_database.py:35 | splitting at an occurrence of `c` splits the two sides independently |
| PyStr.SplitOnJoin | generate_database.py:35 | splitting the `c`-join of a non-empty list of `c`-free pieces gives the pieces back |
| PyStr.AfterLast | process_file.py:148 | the position after the last `c`: a `c` precedes it and no `c` follows |
| PyStr.LastPiece | process_file.py:148 | the last piece of `split(c)` is the text after the last `c`, or the whole string when there is none |
| PyStr.StripWith | process_file.py:58-59 | the result is the slice of the input left after removing the longest strippable prefix and suffix: everything removed is strippable, the result is empty exactly when every character is, and otherwise neither of its ends is strippable |
| PyStr.FilterMembers | process_file.py:60 | a generator filter keeps exactly the elements that satisfy its condition |
| PyStr.FilterAllKept | generate_database.py:35 | a filter keeps a sequence whose every element satisfies its condition unchanged |
| Utf8.DecodeFirstOfEncodeChar | process_file.py:157 | decoding the encoding of a character returns that character and consumes exactly its bytes |
| Utf8.EncodeCharOfDecodeFirst | process_file.py:157 | the bytes the decoder accepts for one character are exactly that character's encoding (no overlong form, surrogate or value above U+10FFFF) |
| Utf8.DecodeEncode | process_file.py:156-159 | every string's UTF-8 encoding decodes without error back to the string |
| Utf8.EncodeDecode | process_file.py:156-159 | whatever decodes without error is the encoding of the decoded text |
| Utf8.Decode | process_file.py:157 | `bytes.decode('utf-8')`, None on the UnicodeDecodeError; its meaning is stated by DecodeEncode and EncodeDecode |
| Ingest.ExtensionIsLowerSuffix | process_file.py:148 | the extension is the lower-cased text after the last `.`, the whole name when there is no dot |
| Ingest.ExtensionIgnoresCase | process_file.py:148-149 | a name and its lower-cased form have the same extension |
| Ingest.Extension | process_file.py:148 | `name.split('.')[-1].lower()`; its meaning is stated by ExtensionIsLowerSuffix and ExtensionIgnoresCase |
| Ingest.TruncateWords | process_file.py:75 | the truncated text's words are the first `maxWords` words of the input, or all of them when there are fewer |
| Ingest.Blocks | process_file.py:54 | `content.split('/')[:-1]`; its meaning is stated by BlocksDropLastPiece |
| Ingest.BlocksDropLastPiece | process_file.py:54 | there is one table block per `/`, and the dropped piece is the text after the last `/`, whatever it holds |
| Ingest.Header | process_file.py:59 | the words of the first line of the stripped block, with `-` and space stripped from both ends (StripWith states the strip) |
| Ingest.DataRows | process_file.py:60 | the tokens of the data lines; its meaning is stated by DataRowsShape |
| Ingest.DataRowsShape | process_file.py:58-60 | the rows are, in order, the tokens of the lines from the third on that are non-empty and do not start with `SGWFN` |
| Ingest.ColumnsKeys | process_file.py:61 | the table's keys are exactly the header names |
| Ingest.ColumnsLengths | process_file.py:61 | every column holds one cell per data row |
| Ingest.ColumnsLast | process_file.py:61 | a name's column is the column of its last occurrence in the header |
| Ingest.ColumnsShape | process_file.py:61 | the three facts above together: keys, column lengths and the last-occurrence rule |
| Ingest.Columns | process_file.py:61 | the dict comprehension over the header; its meaning is stated by ColumnsKeys, ColumnsLengths, ColumnsLast and ColumnsShape |
| Ingest.ParseTableShape | process_file.py:58-61 | a block parses exactly when no data row is shorter than the header (otherwise IndexError), and the table then has the shape above |
| Ingest.ParseTable | process_file.py:58-61 | one block's table or its IndexError; its meaning is stated by ParseTableShape |
| Ingest.ExtendTables | process_file.py:57-62 | appending the next block's table keeps the tables built so far matched to their blocks |
| Ingest.ParseTablesInc | process_file.py:52-63 | the loop succeeds exactly when every block parses, and then yields one table per block, in order |
| Ingest.ProcessTextFile | process_file.py:47-79 | `tables.inc` gives its tables with `addToContext` false and empty content, and fails only with a block's IndexError; other text is passed on whole within its ceiling and cut to its first words over it |
| Ingest.TextCeiling | process_file.py:66-79 | over the ceiling a text file keeps exactly 10000 words, the input's first ones; within it the content is unchanged |
| Ingest.PagesKept | process_file.py:135-136 | the pages kept are the floor of 10000 times the page count over the word count |
| Ingest.PdfContent | process_file.py:123-142 | within the ceiling all pages are joined; over it there is at least one page and a strict prefix of the pages of length `PagesKept` is joined |
| Ingest.PdfWordCount | process_file.py:123-124 | the word count of the joined pages is the sum of the pages' word counts |
| Ingest.ProcessFile | process_file.py:147-166 | text types are decoded; a decode failure gives "File <lower-cased name> could not be decoded" instead of an error; PDFs get the page ceiling; other extensions give "Unsupported file type: <ext>"; the only failure the model keeps is the table IndexError, for a file named `tables.inc` after lower-casing |
| Sessions.History.constructor | rag_chain.py:19 | a new history holds no message |
| Sessions.SessionStore.constructor | rag_chain.py:15 | the registry starts empty |
| Sessions.SessionStore.GetSessionHistory | rag_chain.py:17-20 | an unknown id gets a fresh empty history that is stored under it; a known id returns its stored history and leaves the store unchanged; keys only grow by the id and other entries are untouched |
| Sessions.SessionStore.GetSessionHistoryTwice | rag_chain.py:17-20 | two lookups of the same id return the same history and leave the registry exactly as one lookup does: unchanged for a known id, extended by one fresh empty history for an unknown one, with every other entry untouched |
| Corpus.IsKeywordPage | generate_database.py:23 | `file.endswith('.html') and not file.startswith('index')`; ParsedKeepsDocument and ParsedOrigin state that exactly these files contribute documents |
| Corpus.SplitExtRoot | generate_database.py:29 | `os.path.splitext(name)[0]` for a base name; its meaning on keyword pages is stated by KeywordTitleOfPage |
| Corpus.KeywordTitle | generate_database.py:29 | the upper-cased root; its meaning on keyword pages is stated by KeywordTitleOfPage |
| Corpus.KeywordTitleOfPage | generate_database.py:29 | a keyword page's title is its name without `.html`, upper-cased; when only dots precede `.html`, nothing is removed |
| Corpus.KeepLineMeans | generate_database.py:35 | a line is kept exactly when it has a non-whitespace character and does not contain the banner |
| Corpus.CleanContent | generate_database.py:35 | the kept lines joined by newlines; its meaning is stated by CleanedLines and CleanIdempotent |
| Corpus.KeptLinesHaveNoNewline | generate_database.py:35 | no kept line holds a newline |
| Corpus.CleanedLines | generate_database.py:35 | the lines of the cleaned content are exactly the kept original lines, in order; empty content when none is kept |
| Corpus.CleanIdempotent | generate_database.py:35 | cleaning twice gives the same as cleaning once |
| Corpus.PrepareDocuments | generate_database.py:32-35 | the inner loop over one keyword page's documents gives, in order, each document with its title set and its content cleaned |
| Corpus.ParseHtmlFiles | generate_database.py:19-38 | the nested loops yield, file after file in walk order, each keyword page's documents titled and cleaned, and nothing from other files |
| Corpus.ParsedStep | generate_database.py:21-37 | one more file appends that file's documents at the end |
| Corpus.ParsedAppend | generate_database.py:19-38 | the result for two walks in a row is the result for the first followed by the result for the second |
| Corpus.ParsedCount | generate_database.py:32-37 | the result holds one document per document loaded from a keyword page: none dropped, none duplicated |
| Corpus.ParsedKeepsDocument | generate_database.py:32-37 | every document of a keyword page appears in the result, with that page's title and its content cleaned |
| Corpus.ParsedOrigin | generate_database.py:23-37 | every document in the result comes from a keyword page and carries that page's title |

## Left out

- Embedding, vector-store and chunking calls (`add_to_database`, `add_pdf_to_database`, the `main` of `generate_database.py`) are outside the model. They are library calls, and the two ingestion ones are also dead code: their call sites are commented out.
- Reading the PDF is a function parameter (`loadPdf`: bytes to page texts). The temporary file, `PyPDFLoader` and the cleanup are foreign I/O.
- Ingest.ProcessFile: a failure of the PDF loader is not modelled. `loadPdf` is total, but `PyPDFLoader(...).load()` can raise on an unreadable PDF, and that exception passes through the `finally` cleanup to the caller (process_file.py:117-145).
- Ingest.Columns: the map loses the dict's key order. The dict keeps its keys in order of first appearance in the header, and only the plotting (`plot_sgwfn_data`, which is left out) relies on that order.
- `file.read()` is the `bytes` field of the uploaded file.
- The `session_id` parameter of `process_file` and `process_text_file` is dropped. It only reaches the commented-out database calls.
- The `print` calls are not modelled. They only log.
- Ingest.ParseTable: cells stay as their string tokens. `float(row[i])` is IEEE parsing, so the ValueError of a non-numeric cell is not modelled. The IndexError of a short row is modelled as `Err(IndexOutOfRange)`.
- Ingest.PagesKept: Python computes `10000 // (W / P)` in floating point. The model uses the exact floor of 10000·P/W, which can differ from the float result when that value lies on an integer boundary.
- PyStr.Lower: `lower()` and `upper()` (`PyStr.Upper`) change ASCII letters only. Python also maps other Unicode letters, and the model does not.
- `plot_sgwfn_data` is matplotlib rendering.
- `create_conversational_rag_chain` is LangChain prompt and chain wiring with no local logic.
- Appending messages to a history happens inside a library class, so messages are a field that the model never changes.
- Corpus.ParseHtmlFiles: the directory walk and the HTML loader are inputs: the files in walk order, each with its loaded documents. `os.path.splitext` is modelled for a base name.
- Corpus.ParseHtmlFiles: the in-place updates of `doc.metadata` and `doc.page_content` are modelled as updates of document values. The loader returns new documents for each file, so no aliasing is lost.
- `generate_keyword_files.py`, `chainlit_app.py` and `app.py` are a conversion script and UI handlers. They are not part of this model.
