# Ultra Doc Intelligence — a Dafny model of the document pipeline

Ultra Doc Intelligence is a small web service for logistics documents. A
client uploads a PDF, DOCX or TXT file. The service cuts it into labelled
text sections, splits those into chunks and indexes the chunks in a vector
store under a fresh twelve-hex-digit document id. Later the client can ask
a question about the document or request structured shipment data. A
question is answered by a language model only when the best retrieved
chunk is similar enough to the question (similarity at least 0.3);
otherwise the service answers "Not found in document.".

This project models the four core files:

- `app/services/parser.py` → module `Parser` (`parser.dfy`). The section
  builders for PDF pages (tables, then de-duplicated free text), DOCX
  files (tables, then groups of consecutive non-empty paragraphs) and
  plain text (blocks between blank lines), and the dispatch on the
  extension. The loops of the source are methods, each proved equal to a
  specification function. The properties are proved as lemmas about those
  functions.
- `app/services/rag.py` → module `Rag` (`rag.dfy`). The chunk stamping
  loop of `store_chunks` works in place on an array of chunks. `retrieve`
  turns distances into similarities. `get_full_text` reorders the stored
  chunks by `chunk_index`.
- `app/services/llm.py` → module `Llm` (`llm.dfy`). The context block, the
  confidence (mean score) and the source text of `ask_question`. The
  removal of Markdown code fences and the JSON fallback of
  `extract_structured`.
- `app/routers/documents.py` → module `Documents` (`documents.dfy`). The
  endpoints `upload`, `ask` and `extract` as functions of what the
  services return.

Two further modules hold shared pieces:

- `Text` (`text.dfy`) models the Python string operations the core uses:
  `strip`, `split`, `join`, `lower` and `str(int)`, and the search for
  the last occurrence of a character that `rsplit(".", 1)` and
  `os.path.splitext` both perform.
- `Wrappers` (`wrappers.dfy`) holds `Option` and `Result`.

The outside world becomes plain values or function parameters:

- the readers' output, gathered in `ReaderOutput`: the PDF pages
  (`PdfPage`), the DOCX content (`DocxContent`) and the text file's
  content. The text is the decoded UTF-8 text with its line endings
  already turned into "\n", as a text-mode read returns it. Each reader
  may instead raise, and then gives the exception's message;
- whether creating the upload directory or writing the file raised
  (`writeError`);
- the text splitter (`split`);
- the random UUID (`uuidHex`);
- the vector store's search hits and stored documents, or the message of
  the exception a lookup raised (`retrieval`, `fullText`);
- whether embedding or writing the chunks to the vector store raised
  (`storeError`);
- the language model (`complete`), which gives the reply or the message of
  the exception the call raised, and `json.loads` (`parse`).

The readers, the file write, the vector store's lookups and writes and
the language model can each fail, and the model keeps every such
failure. The splitter and the UUID are modelled as total
functions, so an exception from either is not modelled. A reply that
`json.loads` rejects is the parse failure `extract_structured` catches. An exception the code catches becomes the HTTP error the code raises
instead. One it does not catch escapes the handler as `Uncaught` (FastAPI
answers 500). Because a service is only a parameter, "the model is not
called" is stated as "the response does not depend on that parameter".

Scores are `real`. Python's `round(x, 4)` is not modelled.

## Model

| member | source | states |
|---|---|---|
| Text.Strip | app/services/parser.py:42 | defines `strip`: the string without its leading and trailing ASCII whitespace |
| Text.Split | app/services/parser.py:41 | defines `split` on a non-empty separator: the pieces between its occurrences, left to right without overlap |
| Text.Join | app/services/parser.py:10 | defines `join`: the parts with the separator between consecutive ones |
| Text.Lower | app/services/parser.py:107 | defines `lower` on ASCII letters, character by character |
| Text.StripFacts | app/services/parser.py:42-43 | `s.strip()` is empty exactly when `s` is all whitespace; otherwise it starts and ends with a non-whitespace character |
| Text.StripIdempotent | app/services/llm.py:99 | stripping twice is stripping once |
| Text.TrimStartFacts | app/services/parser.py:42 | the leading strip removes only whitespace, keeps a suffix and stops at a non-whitespace character |
| Text.TrimEndFacts | app/services/parser.py:42 | the trailing strip removes only whitespace, keeps a prefix and stops at a non-whitespace character |
| Text.StripKeepsPrefix | app/services/llm.py:113-115 | stripping a string that starts with a non-whitespace run keeps that run at its front |
| Text.JoinSplit | app/services/parser.py:95 | `sep.join(s.split(sep)) == s` for every string and non-empty separator |
| Text.SplitJoin | app/services/parser.py:41 | splitting a join of parts that avoid the one-character separator gives the parts back |
| Text.SplitPiecesAvoidSeparator | app/services/llm.py:114 | no piece of a split on a character contains that character |
| Text.SplitWithoutSeparator | app/services/llm.py:114 | a string without the separator splits into itself alone |
| Text.SplitAtFirst | app/services/llm.py:114 | a split cuts at the first separator and splits the rest in the same way |
| Text.JoinAppend | app/services/parser.py:49 | joining two non-empty lists is joining each with the separator between them |
| Text.JoinStartsWithFirst | app/services/llm.py:85 | a join starts with its first part |
| Text.JoinAvoids | app/services/llm.py:116 | a character absent from the parts and the separator is absent from the join |
| Text.LastIndexOf | app/services/parser.py:107 | the last-occurrence search behind `rsplit(".", 1)` (and `os.path.splitext`): -1 exactly when the character is absent, otherwise the position of its last occurrence |
| Text.LastIndexOfAfterPrefix | app/services/parser.py:107 | a prefix in front does not change which occurrence is last, only its position |
| Text.NatToString | app/services/parser.py:29 | `str(page_num)` is a non-empty string of decimal digits |
| Text.NatToStringRoundTrip | app/services/parser.py:29 | the digits written for a page number denote that number |
| Text.NatToStringInjective | app/services/parser.py:29 | two page numbers are written the same way iff they are equal |
| Parser.PageHeader | app/services/parser.py:29 | defines the section header `[Page n – Table]` or `[Page n – Text]` and a line break |
| Parser.PageHeaderDistinct | app/services/parser.py:29 | two page headers of the same kind are equal iff their page numbers are |
| Parser.TableText | app/services/parser.py:5-11 | defines `_table_to_text`: each row's stripped cells (empty for a missing one) joined by `" \| "`, the rows joined by newlines |
| Parser.TableToText | app/services/parser.py:5-11 | the row loop builds the same text as the table's rows of stripped cells joined by `" \| "` (a missing cell is empty), rows joined by newlines |
| Parser.TableTextRows | app/services/parser.py:5-11 | when no cell holds a newline, splitting the table text on newlines gives back exactly one line per row |
| Parser.CollectRowTexts | app/services/parser.py:37-39 | the cell loop adds exactly the row's non-empty stripped cell texts |
| Parser.CollectTableCellTexts | app/services/parser.py:36-39 | the row loop adds exactly the table's non-empty stripped cell texts |
| Parser.CollectTableTexts | app/services/parser.py:34-39 | the three loops build exactly the set of non-empty stripped cell texts of the page's tables |
| Parser.RowCellSetMembers | app/services/parser.py:37-39 | a text is collected from a row iff it is non-empty and the stripped text of one of its cells |
| Parser.TableCellSetMembers | app/services/parser.py:36-39 | a text is collected from a table iff it is non-empty and the stripped text of one of its cells |
| Parser.CellSetMembers | app/services/parser.py:34-39 | a text is in `table_texts` iff it is non-empty and the stripped text of some cell of some table |
| Parser.CellSet | app/services/parser.py:34-39 | defines `table_texts`: the union over the tables, rows and cells of each present cell's stripped text when non-empty |
| Parser.KeptLines | app/services/parser.py:41-44 | defines `remaining_text_parts`: the stripped lines, in order, that are non-empty and not in the cell set |
| Parser.RemainingTextParts | app/services/parser.py:41-44 | the line loop keeps, in order, the stripped lines that are non-empty and not a table cell's text |
| Parser.KeptLinesMembers | app/services/parser.py:41-44 | a text is kept iff it is non-empty, not a cell text, and the stripped form of some line |
| Parser.KeptLinesAppend | app/services/parser.py:41-44 | the kept lines of two runs of lines are those of each run, in order |
| Parser.KeptLinesEmpty | app/services/parser.py:41-46 | nothing is kept iff every line is blank or repeats a cell text |
| Parser.TableSections | app/services/parser.py:26-29 | defines a page's table sections: the page's table header and the table text, for each table whose text is not blank, in order |
| Parser.PageTextSection | app/services/parser.py:31-54 | defines a page's text section: the header and the kept lines joined by newlines when tables were located, else the header and the stripped page text; none when that is empty |
| Parser.PageSections | app/services/parser.py:20-54 | defines one page's sections: its table sections followed by its text section |
| Parser.PdfSections | app/services/parser.py:14-56 | defines the sections of a PDF: each page's sections in page order, pages numbered from 1 |
| Parser.PageTables | app/services/parser.py:26-29 | the table loop yields one `[Page n – Table]` section per table with non-blank text, in table order |
| Parser.PageText | app/services/parser.py:31-54 | the text branch yields the de-duplicated text section when tables were located, else the stripped page text; nothing when that is empty |
| Parser.ParsePage | app/services/parser.py:20-54 | one page yields its table sections followed by its text section |
| Parser.ParsePdf | app/services/parser.py:14-56 | the page loop yields every page's sections in page order, numbered from 1 |
| Parser.PdfSectionsStep | app/services/parser.py:19 | the sections of the first pages are kept when one more page is read, which is numbered one past them |
| Parser.TableSectionsMembers | app/services/parser.py:26-29 | a table section is exactly the page's table header followed by the text of a table whose text is not blank |
| Parser.TablesBeforeText | app/services/parser.py:26-54 | a page's table sections come first, followed by at most one text section |
| Parser.TableSectionsLabelled | app/services/parser.py:28-29 | every table section carries its page's table header and has non-blank content under it |
| Parser.TextSectionLabelled | app/services/parser.py:46-54 | the text section carries its page's text header and has non-blank content under it |
| Parser.PageSectionsLabelled | app/services/parser.py:19-54 | every section of a page carries that page's table or text header with non-blank content |
| Parser.DedupTextSection | app/services/parser.py:31-50 | on a page with located tables the text section joins the kept lines; none of them is empty or equals any cell's stripped text |
| Parser.FullyTabularPage | app/services/parser.py:41-50 | a located page whose every non-blank line repeats a cell text yields only its table sections |
| Parser.PageWithoutTables | app/services/parser.py:51-54 | a page without tables yields one section with the whole stripped text, or none when the text is missing or blank |
| Parser.DocxTableSections | app/services/parser.py:65-72 | defines the DOCX table sections: `[Table i]` and the table's text for each table whose text is not blank, numbered from 1 over all tables |
| Parser.Step | app/services/parser.py:77-82 | defines one step of the paragraph loop: a non-empty text joins the open block; an empty one closes the open block when it is not empty |
| Parser.Group | app/services/parser.py:75-82 | defines the paragraph loop's state after all paragraphs: the closed blocks and the open block |
| Parser.Blocks | app/services/parser.py:75-85 | defines the emitted blocks: the closed blocks followed by the open block when it is not empty |
| Parser.DocxSections | app/services/parser.py:59-87 | defines the DOCX sections: the table sections followed by one `[Text]` section per block |
| Parser.DocxTableAsPdfTable | app/services/parser.py:65-70 | a DOCX table is rendered like a PDF table whose cells are all present |
| Parser.DocxTables | app/services/parser.py:64-72 | the table loop yields one `[Table i]` section per table with non-blank text, numbered from 1 over all tables |
| Parser.DocxParagraphs | app/services/parser.py:74-85 | the paragraph loop yields one `[Text]` section per maximal run of non-empty stripped paragraphs, in order |
| Parser.ParseDocx | app/services/parser.py:59-87 | the DOCX sections are the table sections followed by the paragraph sections |
| Parser.StripAllMembers | app/services/parser.py:77 | the stripped paragraphs are exactly the stripped forms of the paragraphs |
| Parser.NonEmptyMembers | app/services/parser.py:78 | a text is kept iff it is non-empty and among the inputs |
| Parser.NonEmptyAppend | app/services/parser.py:78 | keeping the non-empty texts distributes over concatenation |
| Parser.GroupSnoc | app/services/parser.py:76-82 | grouping one more paragraph is one more step of the loop's state machine (`sections`, `current_block`) |
| Parser.RenderBlock | app/services/parser.py:81 | defines a paragraph section: `[Text]`, a line break and the block's texts joined by newlines |
| Parser.AddParagraph | app/services/parser.py:77-82 | the body of the paragraph loop takes the grouping one step and keeps the emitted sections equal to the rendered closed blocks |
| Parser.ParagraphStep | app/services/parser.py:76-82 | one more paragraph is one more step of the grouping of the stripped paragraphs |
| Parser.GroupCoversTexts | app/services/parser.py:76-82 | the closed groups followed by the open block hold exactly the non-empty texts, in order |
| Parser.BlocksNonEmpty | app/services/parser.py:80-85 | no emitted block is empty |
| Parser.BlocksCoverTexts | app/services/parser.py:74-85 | the blocks, concatenated, are exactly the non-empty paragraphs in order: nothing lost, nothing repeated |
| Parser.GroupAfterEmpty | app/services/parser.py:80-82 | after an empty paragraph the loop starts over with the earlier blocks closed |
| Parser.EmptyTextSeparates | app/services/parser.py:80-82 | an empty paragraph separates: the blocks of `a + [""] + b` are those of `a` followed by those of `b` |
| Parser.RunIsOneBlock | app/services/parser.py:78-79 | a run of non-empty paragraphs stays open as one block and is emitted as exactly one block |
| Parser.TxtSections | app/services/parser.py:90-102 | defines the TXT sections: `[Text]` and the stripped block for each blank-line-separated block whose stripped form is non-empty |
| Parser.ParseTxt | app/services/parser.py:90-102 | the block loop yields `[Text]` plus the stripped block for each non-blank blank-line-separated block, in order |
| Parser.TextSections | app/services/parser.py:100 | defines the TXT section of each kept body: `[Text]`, a line break and the body |
| Parser.BlockSections | app/services/parser.py:96-100 | the block loop yields one `[Text]` section per block whose stripped text is non-empty, in order |
| Parser.TextSectionsStep | app/services/parser.py:97-100 | one more block adds its section exactly when its stripped text is non-empty |
| Parser.TextSectionsMembers | app/services/parser.py:100 | a section is `[Text]` and a newline in front of one of the kept bodies |
| Parser.TxtBlocksRoundTrip | app/services/parser.py:95 | the blocks joined again by blank lines give back the whole content |
| Parser.TxtSectionsAreBlocks | app/services/parser.py:95-100 | a section is `[Text]` and a newline in front of the stripped form of a non-blank block |
| Parser.AfterLastDot | app/services/parser.py:107 | defines the text after the last dot of the path, or the whole path when it has none |
| Parser.Extension | app/services/parser.py:107 | defines the extension as the lower-cased text after the last dot |
| Parser.ReaderFails | app/services/parser.py:105-113 | defines a reader failure: the extension is pdf, docx or txt and that reader raised |
| Parser.ParseDocument | app/services/parser.py:105-115 | fails iff the extension is unsupported or its reader raises; an unsupported extension fails with `Unsupported file type: .<ext>`; a reader's exception passes through with its message; otherwise the result is that reader's sections |
| Rag.SourceDocs | app/services/rag.py:45 | one document per section |
| Rag.Stamped | app/services/rag.py:48-53 | defines the stamped chunks: each chunk's content with its metadata updated by the document id, the file name and its position as `chunk_index` |
| Rag.Store | app/services/rag.py:38-63 | defines what `store_chunks` returns and stores: the UUID's first twelve hex digits, the number of split chunks, and the stamped chunks |
| Rag.StampedMetadata | app/services/rag.py:48-53 | after stamping, chunk `i` keeps its content, has index `i` and the shared document id and file name, and keeps its other metadata |
| Rag.StampChunks | app/services/rag.py:48-53 | the loop updates the chunks in place to their stamped form |
| Rag.StoreChunks | app/services/rag.py:38-63 | the document id is the first twelve hex digits of the UUID; the count is the number of stored chunks; chunk `i` is stored with index `i`, that id and the file name |
| Rag.Retrieve | app/services/rag.py:66-83 | one result per hit, in the store's order: its text, similarity `1 - distance`, and its `chunk_index` or 0 |
| Rag.Similarity | app/services/rag.py:76 | defines a hit's similarity as one minus its distance |
| Rag.IndexOf | app/services/rag.py:80 | defines a hit's index as its metadata's `chunk_index`, or 0 when absent |
| Rag.SimilarityReversesDistance | app/services/rag.py:76 | a smaller distance is a larger similarity, and the reverse |
| Rag.RetrievedIndexIsPosition | app/services/rag.py:80 | a retrieved chunk that was stored by `store_chunks` reports its position as its index |
| Rag.Zip | app/services/rag.py:91 | `zip` pairs documents with metadata position by position up to the shorter list |
| Rag.Insert | app/services/rag.py:92 | inserting adds exactly one element |
| Rag.InsertSorted | app/services/rag.py:92 | inserting into a list sorted by chunk index keeps it sorted |
| Rag.SortByIndex | app/services/rag.py:92 | the sort is a permutation of its input |
| Rag.SortByIndexSorted | app/services/rag.py:92 | the sort's result is ordered by chunk index |
| Rag.SortedUnique | app/services/rag.py:92 | a sorted list and a strictly sorted list with the same elements are equal |
| Rag.FullText | app/services/rag.py:86-94 | defines the full text: the stored texts paired with their metadata, sorted by `chunk_index`, joined by blank lines; an error when some pair has no integer `chunk_index` |
| Rag.FullTextOrderIndependent | app/services/rag.py:86-94 | with distinct chunk indices the full text does not depend on the order the store returns the chunks in |
| Rag.FullTextAfterStore | app/services/rag.py:86-94 | whatever order the store returns the chunks of `store_chunks` in, the full text is the splitter's chunks joined by blank lines, in order |
| Llm.ContextBlock | app/services/llm.py:84-85 | defines the context: the retrieved chunks' texts joined by the `---` separator |
| Llm.ContextBlockAppend | app/services/llm.py:85 | the context of two runs of chunks is theirs joined by the `---` separator |
| Llm.ContextBlockStartsWithFirst | app/services/llm.py:85 | the context starts with the first chunk's text, and is it when there is one chunk |
| Llm.Confidence | app/services/llm.py:94-95 | the confidence is 0 without chunks, else the mean of the scores |
| Llm.SumBounds | app/services/llm.py:95 | scores within bounds sum to within n times the bounds |
| Llm.ConfidenceBounds | app/services/llm.py:95 | the mean score lies between the lowest and highest bound of the scores |
| Llm.SourceText | app/services/llm.py:96 | the source text is the first retrieved chunk's text, or empty |
| Llm.AskQuestion | app/services/llm.py:77-102 | fails iff the model call on the context, full text and question raises, with its message; otherwise the answer is the stripped reply, with the source text and the confidence |
| Llm.AnswerIsStripped | app/services/llm.py:99 | an answer has no surrounding whitespace |
| Llm.NonFenceLinesMembers | app/services/llm.py:115 | a line is kept iff it is one of the lines and does not start with a fence after stripping |
| Llm.NonFenceLinesAppend | app/services/llm.py:115 | the fence filter distributes over concatenation |
| Llm.StripFences | app/services/llm.py:113-116 | defines the fence removal: a reply starting with a fence keeps only its non-fence lines, joined by newlines; any other reply is unchanged |
| Llm.CleanedReply | app/services/llm.py:111-116 | defines the cleaned reply: the stripped reply with its fences removed |
| Llm.StripFencesLines | app/services/llm.py:113-116 | the cleaned reply's lines are exactly the reply's non-fence lines (one empty line when none is left) |
| Llm.NoFenceLineLeft | app/services/llm.py:113-116 | no line of the cleaned reply is a fence line |
| Llm.StripFencesIdempotent | app/services/llm.py:113-116 | the cleaned reply does not start with a fence, so cleaning again changes nothing |
| Llm.ExtractStructured | app/services/llm.py:105-121 | fails iff the model call raises, with its message; otherwise the parsed JSON of the cleaned reply when it parses, else the cleaned reply with the fixed error message |
| Llm.CleanedReplyShape | app/services/llm.py:111-116 | a reply without an opening fence is only stripped; one with an opening fence loses every fence line; neither starts with a fence afterwards |
| Documents.BestScore | app/routers/documents.py:58 | the best score is 0 without chunks, at least every chunk's score, and some chunk's score |
| Documents.Ask | app/routers/documents.py:50-68 | a failed retrieval is exactly the 404; an uncaught error happens iff the gate passed and the full-text fetch or the model call raised; a missing source text is the "Not found" answer with the best score |
| Documents.AskRejectsExactlyBelowThreshold | app/routers/documents.py:58-64 | the "Not found" answer with the best score is given iff retrieval succeeded and the best score is below 0.3 |
| Documents.RejectionIgnoresModel | app/routers/documents.py:59-64 | below the threshold the response depends neither on the question, the full text nor the model |
| Documents.EmptyRetrievalRejected | app/routers/documents.py:58-64 | no retrieved chunks gives "Not found" with confidence 0 |
| Documents.AcceptedFullTextFailure | app/routers/documents.py:66 | past the gate, a failed full-text fetch escapes uncaught with its own message |
| Documents.AcceptedIsAskQuestion | app/routers/documents.py:66-68 | at or above the threshold the response is `ask_question`'s result, and its failure escapes uncaught with the model's message |
| Documents.ThresholdPasses | app/routers/documents.py:59 | at a best score of exactly 0.3 the model is asked: the response succeeds iff the model answers, and then has the first chunk as source |
| Documents.AcceptedConfidence | app/routers/documents.py:58-68 | past the gate the response succeeds iff the model answers, and then its confidence lies between the lowest score bound and the best score |
| Documents.Extract | app/routers/documents.py:71-79 | a failed full-text fetch is exactly the 404; an uncaught error happens iff the fetch succeeded and the model call raised, with its message; a success is `extract_structured`'s output |
| Documents.SplitExtension | app/routers/documents.py:24 | `os.path.splitext` yields empty or a dot followed by no dot and no slash, and a suffix of the name; it is empty exactly when the last path component has no dot after a non-dot character |
| Documents.HasExtension | app/routers/documents.py:24 | defines when `os.path.splitext` finds an extension: some dot of the last path component follows a character that is not a dot |
| Documents.NameWithExtension | app/routers/documents.py:24 | a file name `stem.e` whose stem is not only dots, with no slash and no further dot in `e`, has the extension `.e` |
| Documents.AfterLastDotAfterPrefix | app/routers/documents.py:32 | the directory put in front of the name does not change the text after the last dot |
| Documents.LowerAfterDot | app/routers/documents.py:24 | lower-casing commutes with dropping the leading dot |
| Documents.SupportedWithoutDot | app/routers/documents.py:14 | each supported extension without its dot is one `parse_document` reads |
| Documents.SavedPathExtension | app/routers/documents.py:24-36 | `parse_document` finds in the saved path the extension `upload` checked, without its dot |
| Documents.PathPrefix | app/routers/documents.py:32 | defines what POSIX path joining puts in front of the name: nothing for an absolute name, else the directory with one slash after it |
| Documents.JoinPath | app/routers/documents.py:32 | defines the saved path as that prefix followed by the name |
| Documents.SupportedUploadParses | app/routers/documents.py:24-36 | for a name accepted by the extension check, `parse_document` picks a reader and fails iff that reader raises |
| Documents.Upload | app/routers/documents.py:18-47 | nothing is stored on failure; the 400 "No filename provided" happens iff the name is missing or empty; a success echoes the name, has a supported extension, had no write or store error, counts the stored chunks and carries the fixed message |
| Documents.UploadRejections | app/routers/documents.py:24-38 | an unsupported extension is the 400 naming it; a document with no sections is the 422; neither stores anything |
| Documents.UploadOkIsStore | app/routers/documents.py:36-47 | a successful upload parsed the saved file and stored exactly what `store_chunks` stores for its sections, under the id it returns |
| Documents.UploadAccepted | app/routers/documents.py:18-47 | a named upload with a supported extension that is written, parses into at least one section and is stored succeeds, with the id and count `store_chunks` returns, the name and the fixed message, and stores those chunks |
| Documents.Upload400Exact | app/routers/documents.py:20-28 | the response is a 400 exactly when the name is missing or empty or its extension is unsupported |
| Documents.Upload422Exact | app/routers/documents.py:36-38 | the response is a 422 exactly when a supported, written file parses into no sections |
| Documents.UploadUncaughtSources | app/routers/documents.py:18-47 | every failure of `upload` is a 400, a 422, or an uncaught error carrying the message of the file write, the chosen reader or the vector store; the unsupported-extension error of `parse_document` never escapes |
| Documents.UploadStoresNumberedChunks | app/routers/documents.py:40-47 | a success returns a twelve-hex-digit id, and chunk `i` is stored with index `i`, that id and the uploaded name |

## Left out

- The file system, `pdfplumber` and `python-docx` are not modelled. What the readers make of the saved file, or the message of the exception a reader raises, is given as a value (`ReaderOutput`). Whether `os.makedirs` or writing the upload raised is the input `writeError`.
- Parser.TxtSections: the UTF-8 decoding and the line-ending translation of the text-mode read are not modelled. The reader's `txt` is the text after both.
- Documents.Upload: a failure part-way through the store write is modelled as storing nothing. Chroma may keep the chunks it wrote before raising. The saved file also stays on disk after a later failure.
- The readers' output is chosen from the path's extension. The file's content is not inspected.
- `RecursiveCharacterTextSplitter` is not modelled. The splitter is a parameter, and so is its chunk size.
- The embeddings and Chroma's similarity search are not modelled. Persistence and the collection name `doc_<id>` are left out too. The search hits, and the documents and metadata the store returns, are inputs.
- Why the store could fail is abstract: a failed lookup is an `Err` carrying a reason.
- The language models (Gemini) and the prompts' wording are not modelled. They are the parameter `complete`, which gives the reply or the message of the exception the call raised.
- `json.loads` is the parameter `parse`.
- `uuid.uuid4()` is not modelled. It is the input `uuidHex`, which is required to be 32 hex digits.
- An exception raised by the splitter or by `uuid.uuid4()` is not modelled. Both are total in the model.
- `round(…, 4)` is not modelled. Scores and confidences are exact reals.
- Floating point is not modelled.
- `str.strip` and `str.lower` are modelled on ASCII only. Unicode whitespace other than `\x1c`–`\x1f` and non-ASCII case mapping are left out.
- Python's `str.split` and `join` are modelled for the separators the core uses.
- The lazily created singletons are not modelled. These are the embeddings, the two model clients and the prompt chains.
- FastAPI routing, request and response schemas and `async` are not modelled.
- The upload's file handle is not modelled.
- Rag.FullText: a stored chunk whose `chunk_index` is missing or not an integer is reported as an error. Python raises `KeyError` for a missing key. For a non-integer index, Python would compare the values and sort, or raise `TypeError`.
- Rag.SortByIndex: Python's sort is stable, and so is the insertion that defines the sort. Stability is not stated as a lemma. The full-text results assume distinct indices, as `store_chunks` produces.
- Documents.Ask: a failure of `get_full_text` or of the model call after the threshold check escapes the handler. FastAPI then answers 500. The model reports it as `Uncaught` rather than as a 404.
- Documents.Ask: a rejected question reports the best score as its confidence. An answered question reports the mean score. The model follows the code here.
- Parser.PageText: the de-duplication drops a line only when the whole stripped line equals a cell's stripped text. The model follows the code in this. A line that merely contains cell texts is kept.
- Documents.Extract: a model reply that is not JSON is not an HTTP error. It is a result carrying `raw_response` and `error`.
- Llm.SourceText: the source text is the first retrieved chunk only.
- Documents.JoinPath: an absolute file name replaces the upload directory, as POSIX `os.path.join` does. Windows path rules are not modelled.
