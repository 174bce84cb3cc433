/**
 * The three endpoints of `app/routers/documents.py` with the services they
 * call replaced by their results: the upload checks, the similarity gate in
 * front of the answering model, and the mapping of lookup failures to 404.
 *
 * An exception that escapes a handler (FastAPI answers 500) is `Uncaught`;
 * an `HTTPException` is `HttpError` with its status and detail.
 */
module Documents {
  import opened Wrappers
  import opened Text
  import opened Parser
  import opened Rag
  import opened Llm

  const SupportedExtensions: set<string> := {".pdf", ".docx", ".txt"}
  const SimilarityThreshold: real := 0.3
  const NotFoundAnswer := "Not found in document."
  const UploadedMessage := "Document uploaded and indexed successfully."

  datatype Fault = HttpError(status: nat, detail: string) | Uncaught(reason: string)

  function NotFoundDetail(docId: string): string {
    "Document '" + docId + "' not found"
  }

  // ---------------------------------------------------------------------
  // ask
  // ---------------------------------------------------------------------

  /** The best retrieval score, or 0 when nothing was retrieved. */
  function BestScore(chunks: seq<Retrieved>): (r: real)
    ensures |chunks| == 0 ==> r == 0.0
    ensures forall i :: 0 <= i < |chunks| ==> chunks[i].score <= r
    ensures |chunks| > 0 ==> exists i :: 0 <= i < |chunks| && chunks[i].score == r
    decreases |chunks|
  {
    if |chunks| == 0 then 0.0
    else if |chunks| == 1 then chunks[0].score
    else
      var init := chunks[..|chunks| - 1];
      var best := BestScore(init);
      var last := chunks[|chunks| - 1].score;
      assert forall i :: 0 <= i < |init| ==> chunks[i] == init[i];
      if best < last then last else best
  }

  /** The `AskResponse` model. */
  datatype AskResponse = AskResponse(answer: string, sourceText: Option<string>, confidence: real)

  /** `ask`. `retrieval` is what `retrieve` returned or the reason it raised;
      `fullText` is what `get_full_text` returns or the reason it raises, and
      `complete` is the answering model, which may raise too. Neither of the
      last two is caught, so their failures escape as `Uncaught`. */
  function Ask(docId: string, question: string, retrieval: Result<seq<Retrieved>, string>,
               fullText: Result<string, string>, complete: AskModel): (r: Result<AskResponse, Fault>)
    ensures retrieval.Err? <==> r == Err(HttpError(404, NotFoundDetail(docId)))
    ensures r.Err? && r.error.Uncaught? <==>
      && retrieval.Ok? && BestScore(retrieval.value) >= SimilarityThreshold
      && (fullText.Err? || AskQuestion(question, retrieval.value, fullText.value, complete).Err?)
    ensures r.Ok? && r.value.sourceText.None? ==>
      r.value == AskResponse(NotFoundAnswer, None, BestScore(retrieval.value))
  {
    match retrieval
    case Err(_) => Err(HttpError(404, NotFoundDetail(docId)))
    case Ok(chunks) =>
      var best := BestScore(chunks);
      if best < SimilarityThreshold then
        Ok(AskResponse(NotFoundAnswer, None, best))
      else
        match fullText
        case Err(reason) => Err(Uncaught(reason))
        case Ok(text) =>
          match AskQuestion(question, chunks, text, complete)
          case Err(reason) => Err(Uncaught(reason))
          case Ok(result) => Ok(AskResponse(result.answer, Some(result.sourceText), result.confidence))
  }

  /** The gate: the fixed "not found" response, with no source text and the
      best score as confidence, comes back exactly when retrieval succeeded
      and the best score is below the threshold. */
  lemma AskRejectsExactlyBelowThreshold(docId: string, question: string, retrieval: Result<seq<Retrieved>, string>,
                                        fullText: Result<string, string>, complete: AskModel)
    ensures Ask(docId, question, retrieval, fullText, complete).Ok? &&
      Ask(docId, question, retrieval, fullText, complete).value.sourceText.None?
      <==> retrieval.Ok? && BestScore(retrieval.value) < SimilarityThreshold
    ensures retrieval.Ok? && BestScore(retrieval.value) < SimilarityThreshold ==>
      Ask(docId, question, retrieval, fullText, complete) ==
        Ok(AskResponse(NotFoundAnswer, None, BestScore(retrieval.value)))
  {
  }

  /** On rejection neither the full text nor the answering model is
      consulted: the response does not depend on them, nor on the question. */
  lemma RejectionIgnoresModel(docId: string, retrieval: Result<seq<Retrieved>, string>,
                              q1: string, f1: Result<string, string>, c1: AskModel,
                              q2: string, f2: Result<string, string>, c2: AskModel)
    requires retrieval.Ok? && BestScore(retrieval.value) < SimilarityThreshold
    ensures Ask(docId, q1, retrieval, f1, c1) == Ask(docId, q2, retrieval, f2, c2)
  {
  }

  /** Retrieving nothing is always a rejection with confidence 0. */
  lemma EmptyRetrievalRejected(docId: string, question: string, fullText: Result<string, string>,
                               complete: AskModel)
    ensures Ask(docId, question, Ok([]), fullText, complete) == Ok(AskResponse(NotFoundAnswer, None, 0.0))
  {
  }

  /** Past the gate, a failed full-text lookup escapes with its own message,
      before the answering model is consulted. */
  lemma AcceptedFullTextFailure(docId: string, question: string, chunks: seq<Retrieved>,
                                reason: string, complete: AskModel)
    requires BestScore(chunks) >= SimilarityThreshold
    ensures Ask(docId, question, Ok(chunks), Err(reason), complete) == Err(Uncaught(reason))
  {
  }

  /** Once the gate passes (a best score of exactly the threshold passes),
      the response is the one `ask_question` builds from the same chunks,
      and a failure of the answering model escapes with its message. */
  lemma AcceptedIsAskQuestion(docId: string, question: string, chunks: seq<Retrieved>,
                              text: string, complete: AskModel)
    requires BestScore(chunks) >= SimilarityThreshold
    ensures var a := AskQuestion(question, chunks, text, complete);
      Ask(docId, question, Ok(chunks), Ok(text), complete) ==
        if a.Ok? then Ok(AskResponse(a.value.answer, Some(a.value.sourceText), a.value.confidence))
        else Err(Uncaught(a.error))
  {
  }

  /** The gate is strict: at a best score equal to the threshold the model
      is asked, and when it answers the response carries the source text. */
  lemma ThresholdPasses(docId: string, question: string, chunks: seq<Retrieved>,
                        text: string, complete: AskModel)
    requires BestScore(chunks) == SimilarityThreshold
    ensures Ask(docId, question, Ok(chunks), Ok(text), complete).Ok? <==>
      complete(ContextBlock(chunks), text, question).Ok?
    ensures Ask(docId, question, Ok(chunks), Ok(text), complete).Ok? ==>
      Ask(docId, question, Ok(chunks), Ok(text), complete).value.sourceText == Some(SourceText(chunks))
  {
  }

  /** An accepted answer reports the mean score, which lies between any lower
      bound of the scores and the best score that let it through. */
  lemma AcceptedConfidence(docId: string, question: string, chunks: seq<Retrieved>,
                           text: string, complete: AskModel, lo: real)
    requires BestScore(chunks) >= SimilarityThreshold
    requires forall i :: 0 <= i < |chunks| ==> lo <= chunks[i].score
    ensures var r := Ask(docId, question, Ok(chunks), Ok(text), complete);
      && (r.Ok? <==> complete(ContextBlock(chunks), text, question).Ok?)
      && (r.Ok? ==> lo <= r.value.confidence <= BestScore(chunks))
  {
    ConfidenceBounds(chunks, lo, BestScore(chunks));
  }

  // ---------------------------------------------------------------------
  // extract
  // ---------------------------------------------------------------------

  /** `extract`: a failed full-text lookup is a 404; otherwise the result of
      `extract_structured`, whose model failure is not caught and escapes as
      `Uncaught`. */
  function Extract<J>(docId: string, fullText: Result<string, string>,
                      complete: ExtractModel, parse: string -> Option<J>): (r: Result<ExtractOutput<J>, Fault>)
    ensures r == Err(HttpError(404, NotFoundDetail(docId))) <==> fullText.Err?
    ensures r.Err? && r.error.Uncaught? <==> fullText.Ok? && complete(fullText.value).Err?
    ensures r.Err? && r.error.Uncaught? ==> r.error.reason == complete(fullText.value).error
    ensures r.Ok? ==> fullText.Ok? && ExtractStructured(fullText.value, complete, parse) == Ok(r.value)
  {
    match fullText
    case Err(_) => Err(HttpError(404, NotFoundDetail(docId)))
    case Ok(text) =>
      match ExtractStructured(text, complete, parse)
      case Err(reason) => Err(Uncaught(reason))
      case Ok(output) => Ok(output)
  }

  // ---------------------------------------------------------------------
  // upload
  // ---------------------------------------------------------------------

  /** The extension `os.path.splitext` reports: from the last dot of the last
      path component, unless that component is only dots up to it (a leading
      dot does not start an extension); empty when there is none. */
  function SplitExtension(path: string): (ext: string)
    ensures ext == "" || (ext[0] == '.' && '.' !in ext[1..] && '/' !in ext)
    ensures ext != "" ==> exists k :: 0 <= k < |path| && path[k..] == ext
    ensures ext == "" <==> !HasExtension(path)
  {
    var sep := LastIndexOf(path, '/');
    var dot := LastIndexOf(path, '.');
    if dot > sep && exists k :: sep < k < dot && path[k] != '.' then
      assert forall k :: dot < k < |path| ==> path[k] != '.' && path[k] != '/';
      path[dot..]
    else ""
  }

  /** The last path component has a dot after some character that is not
      a dot: the case where `os.path.splitext` finds an extension. */
  predicate HasExtension(path: string) {
    exists i, k :: LastIndexOf(path, '/') < k < i < |path| && path[k] != '.' && path[i] == '.'
  }

  /** A plain file name `stem.e` has the extension `.e`, whatever the case
      of its letters, as long as the stem is not only dots. */
  lemma NameWithExtension(stem: string, e: string, k: nat)
    requires '/' !in stem && '/' !in e && '.' !in e
    requires k < |stem| && stem[k] != '.'
    ensures SplitExtension(stem + "." + e) == "." + e
  {
    var path := stem + "." + e;
    assert path[|stem|] == '.';
    assert forall j :: |stem| < j < |path| ==> path[j] == e[j - |stem| - 1];
    assert LastIndexOf(path, '.') == |stem|;
    assert '/' !in path by {
      forall j | 0 <= j < |path|
        ensures path[j] != '/'
      {
        if j < |stem| {
          assert path[j] == stem[j];
        } else if j > |stem| {
          assert path[j] == e[j - |stem| - 1];
        }
      }
    }
    assert path[k] == stem[k];
    assert path[|stem|..] == "." + e;
  }

  /** What `os.path.join(directory, name)` on a POSIX system puts in front
      of `name`: nothing for an absolute name, else the directory with a
      slash after it unless it already ends in one. */
  function PathPrefix(directory: string, name: string): string {
    if StartsWith(name, "/") then ""
    else if directory == "" || directory[|directory| - 1] == '/' then directory
    else directory + "/"
  }

  /** The path the upload is saved under: the name joined to the upload
      directory as POSIX path joining does it. */
  function JoinPath(directory: string, name: string): string {
    PathPrefix(directory, name) + name
  }

  /** The last dot is found again in a path with any prefix in front
      of a name that has a dot. */
  lemma AfterLastDotAfterPrefix(pre: string, name: string)
    requires '.' in name
    ensures AfterLastDot(pre + name) == name[LastIndexOf(name, '.') + 1..]
  {
    var dot := LastIndexOf(name, '.');
    var whole := pre + name;
    LastIndexOfAfterPrefix(pre, name, '.');
    assert LastIndexOf(whole, '.') == |pre| + dot;
    assert AfterLastDot(whole) == whole[|pre| + dot + 1..];
    assert whole[|pre| + dot + 1..] == name[dot + 1..] by {
      assert whole[|pre|..] == name;
    }
  }

  /** Lower-casing the extension keeps its dot in front. */
  lemma LowerAfterDot(name: string, dot: nat)
    requires dot < |name|
    ensures Lower(name[dot..])[1..] == Lower(name[dot + 1..])
  {
    assert name[dot..][1..] == name[dot + 1..];
  }

  /** Without its dot, a supported extension is one `parse_document` reads. */
  lemma SupportedWithoutDot(ext: string)
    requires ext in SupportedExtensions
    ensures ext[1..] in {"pdf", "docx", "txt"}
  {
    if ext == ".pdf" {
      assert ext[1..] == "pdf";
    } else if ext == ".docx" {
      assert ext[1..] == "docx";
    } else {
      assert ext[1..] == "txt";
    }
  }

  /** The extension `upload` checks is, without its dot, the one
      `parse_document` finds again in the saved file's path. */
  lemma SavedPathExtension(directory: string, name: string)
    requires SplitExtension(name) != ""
    ensures Extension(JoinPath(directory, name)) == Lower(SplitExtension(name))[1..]
  {
    var ext := SplitExtension(name);
    var dot := LastIndexOf(name, '.');
    assert ext == name[dot..];
    AfterLastDotAfterPrefix(PathPrefix(directory, name), name);
    LowerAfterDot(name, dot);
  }

  /** An extension that `lower` maps to a supported one makes
      `parse_document` choose a reader: it never raises its `ValueError` on
      a saved upload, and fails only when that reader fails. */
  lemma SupportedUploadParses(directory: string, name: string, file: ReaderOutput)
    requires Lower(SplitExtension(name)) in SupportedExtensions
    ensures Extension(JoinPath(directory, name)) in {"pdf", "docx", "txt"}
    ensures ParseDocument(JoinPath(directory, name), file).Err? <==>
      ReaderFails(JoinPath(directory, name), file)
  {
    var ext := SplitExtension(name);
    SavedPathExtension(directory, name);
    SupportedWithoutDot(Lower(ext));
  }

  /** The `UploadResponse` model. */
  datatype UploadResponse = UploadResponse(docId: string, filename: string, numChunks: nat, message: string)

  /** The response of `upload`, and the chunks it handed to the vector store
      (none when it failed). */
  datatype UploadOutcome = UploadOutcome(response: Result<UploadResponse, Fault>, stored: seq<Chunk>)

  function UnsupportedDetail(ext: string): string {
    "Unsupported file type '" + ext + "'. Supported: PDF, DOCX, TXT."
  }

  /** `upload`. `filename` is the client's file name (`None` when absent);
      `writeError` is the message of the exception raised while creating the
      upload directory or writing the file, if any; `file` is what the
      readers make of the saved file; `split` is the splitter; `storeError`
      is the message of the exception raised while embedding or writing the
      chunks to the vector store, if any; `uuidHex` is the random UUID. */
  function Upload(filename: Option<string>, uploadDir: string, writeError: Option<string>,
                  file: ReaderOutput, split: seq<Chunk> -> seq<Chunk>, storeError: Option<string>,
                  uuidHex: string): (r: UploadOutcome)
    requires IsUuidHex(uuidHex)
    ensures r.response.Err? ==> r.stored == []
    ensures (filename.None? || filename == Some("")) <==> r.response == Err(HttpError(400, "No filename provided"))
    ensures r.response.Ok? ==>
      && filename.Some? && r.response.value.filename == filename.value
      && Lower(SplitExtension(filename.value)) in SupportedExtensions
      && writeError.None? && storeError.None?
      && r.response.value.numChunks == |r.stored|
      && r.response.value.message == UploadedMessage
  {
    match filename
    case None => UploadOutcome(Err(HttpError(400, "No filename provided")), [])
    case Some(name) =>
      if name == "" then UploadOutcome(Err(HttpError(400, "No filename provided")), [])
      else
        var ext := Lower(SplitExtension(name));
        if ext !in SupportedExtensions then
          UploadOutcome(Err(HttpError(400, UnsupportedDetail(ext))), [])
        else if writeError.Some? then
          UploadOutcome(Err(Uncaught(writeError.value)), [])
        else
          match ParseDocument(JoinPath(uploadDir, name), file)
          case Err(reason) => UploadOutcome(Err(Uncaught(reason)), [])
          case Ok(sections) =>
            if sections == [] then
              UploadOutcome(Err(HttpError(422, "No text could be extracted from the document")), [])
            else if storeError.Some? then
              UploadOutcome(Err(Uncaught(storeError.value)), [])
            else
              var st := Store(sections, name, split, uuidHex);
              UploadOutcome(Ok(UploadResponse(st.docId, name, st.numChunks, UploadedMessage)), st.chunks)
  }

  /** The two later rejections of `upload`, each before anything is
      written or stored: an unsupported extension, and a document without
      text. */
  lemma UploadRejections(filename: Option<string>, uploadDir: string, writeError: Option<string>,
                         file: ReaderOutput, split: seq<Chunk> -> seq<Chunk>, storeError: Option<string>,
                         uuidHex: string)
    requires IsUuidHex(uuidHex)
    ensures var r := Upload(filename, uploadDir, writeError, file, split, storeError, uuidHex);
      filename.Some? && filename.value != "" && Lower(SplitExtension(filename.value)) !in SupportedExtensions ==>
        r == UploadOutcome(Err(HttpError(400, UnsupportedDetail(Lower(SplitExtension(filename.value))))), [])
    ensures var r := Upload(filename, uploadDir, writeError, file, split, storeError, uuidHex);
      filename.Some? && filename.value != "" && Lower(SplitExtension(filename.value)) in SupportedExtensions
        && writeError.None? && ParseDocument(JoinPath(uploadDir, filename.value), file) == Ok([]) ==>
        r == UploadOutcome(Err(HttpError(422, "No text could be extracted from the document")), [])
  {
  }

  /** A named upload with a supported extension whose file is written,
      parsed into at least one section and stored is accepted: the
      response carries the result of `store_chunks` and those chunks are
      what is stored. */
  lemma UploadAccepted(name: string, uploadDir: string, file: ReaderOutput, split: seq<Chunk> -> seq<Chunk>,
                       uuidHex: string, sections: seq<string>)
    requires IsUuidHex(uuidHex)
    requires name != "" && Lower(SplitExtension(name)) in SupportedExtensions
    requires ParseDocument(JoinPath(uploadDir, name), file) == Ok(sections) && sections != []
    ensures var st := Store(sections, name, split, uuidHex);
      Upload(Some(name), uploadDir, None, file, split, None, uuidHex) ==
        UploadOutcome(Ok(UploadResponse(st.docId, name, st.numChunks, UploadedMessage)), st.chunks)
  {
  }

  /** The 400 comes exactly from a missing name or an unsupported
      extension. */
  lemma Upload400Exact(filename: Option<string>, uploadDir: string, writeError: Option<string>,
                       file: ReaderOutput, split: seq<Chunk> -> seq<Chunk>, storeError: Option<string>,
                       uuidHex: string)
    requires IsUuidHex(uuidHex)
    ensures var r := Upload(filename, uploadDir, writeError, file, split, storeError, uuidHex).response;
      (r.Err? && r.error.HttpError? && r.error.status == 400) <==>
        filename.None? || filename.value == "" || Lower(SplitExtension(filename.value)) !in SupportedExtensions
  {
  }

  /** The 422 comes exactly from a supported, written file that parses into
      no sections. */
  lemma Upload422Exact(filename: Option<string>, uploadDir: string, writeError: Option<string>,
                       file: ReaderOutput, split: seq<Chunk> -> seq<Chunk>, storeError: Option<string>,
                       uuidHex: string)
    requires IsUuidHex(uuidHex)
    ensures var r := Upload(filename, uploadDir, writeError, file, split, storeError, uuidHex).response;
      (r.Err? && r.error.HttpError? && r.error.status == 422) <==>
        && filename.Some? && filename.value != ""
        && Lower(SplitExtension(filename.value)) in SupportedExtensions
        && writeError.None? && ParseDocument(JoinPath(uploadDir, filename.value), file) == Ok([])
  {
    var r := Upload(filename, uploadDir, writeError, file, split, storeError, uuidHex).response;
    if filename.Some? && filename.value != "" && Lower(SplitExtension(filename.value)) in SupportedExtensions
       && writeError.None?
    {
      var parsed := ParseDocument(JoinPath(uploadDir, filename.value), file);
      if parsed.Ok? && parsed.value != [] && storeError.None? {
        assert r.Ok?;
      }
    }
  }

  /** Where an exception can escape `upload`: only from writing the file,
      from the chosen reader, or from the vector store. The `ValueError` of
      `parse_document` for an unknown extension never escapes, since the
      extension check in front of it admits only extensions it reads. */
  lemma UploadUncaughtSources(filename: Option<string>, uploadDir: string, writeError: Option<string>,
                              file: ReaderOutput, split: seq<Chunk> -> seq<Chunk>, storeError: Option<string>,
                              uuidHex: string)
    requires IsUuidHex(uuidHex)
    ensures var r := Upload(filename, uploadDir, writeError, file, split, storeError, uuidHex).response;
      r.Err? ==>
        || (r.error.HttpError? && r.error.status in {400, 422})
        || (&& r.error.Uncaught? && filename.Some?
            && (|| writeError == Some(r.error.reason)
                || (ReaderFails(JoinPath(uploadDir, filename.value), file)
                    && ParseDocument(JoinPath(uploadDir, filename.value), file) == Err(r.error.reason))
                || storeError == Some(r.error.reason)))
    ensures var r := Upload(filename, uploadDir, writeError, file, split, storeError, uuidHex).response;
      writeError.None? && storeError.None? && filename.Some?
        && !ReaderFails(JoinPath(uploadDir, filename.value), file) ==>
        r.Err? ==> r.error.HttpError? && r.error.status in {400, 422}
  {
    if filename.Some? && filename.value != "" && Lower(SplitExtension(filename.value)) in SupportedExtensions {
      SupportedUploadParses(uploadDir, filename.value, file);
    }
  }

  /** A successful upload is the result of `store_chunks` on the sections
      of the saved file. */
  lemma UploadOkIsStore(filename: Option<string>, uploadDir: string, writeError: Option<string>,
                        file: ReaderOutput, split: seq<Chunk> -> seq<Chunk>, storeError: Option<string>,
                        uuidHex: string)
    requires IsUuidHex(uuidHex)
    requires Upload(filename, uploadDir, writeError, file, split, storeError, uuidHex).response.Ok?
    ensures filename.Some? && ParseDocument(JoinPath(uploadDir, filename.value), file).Ok?
    ensures var r := Upload(filename, uploadDir, writeError, file, split, storeError, uuidHex);
      var st := Store(ParseDocument(JoinPath(uploadDir, filename.value), file).value, filename.value, split, uuidHex);
      r.stored == st.chunks && r.response.value.docId == st.docId
  {
  }

  /** A successful upload stores the chunks numbered from 0 in the
      splitter's order, each tagged with the returned document id (twelve
      hex digits) and the uploaded file's name. */
  lemma UploadStoresNumberedChunks(filename: Option<string>, uploadDir: string, writeError: Option<string>,
                                   file: ReaderOutput, split: seq<Chunk> -> seq<Chunk>, storeError: Option<string>,
                                   uuidHex: string)
    requires IsUuidHex(uuidHex)
    ensures var r := Upload(filename, uploadDir, writeError, file, split, storeError, uuidHex);
      r.response.Ok? ==>
        && filename.Some?
        && |r.response.value.docId| == DocIdLength
        && (forall i :: 0 <= i < |r.response.value.docId| ==> IsHexDigit(r.response.value.docId[i]))
        && forall i :: 0 <= i < |r.stored| ==>
             var m := r.stored[i].metadata;
             && "chunk_index" in m && m["chunk_index"] == Int(i)
             && "doc_id" in m && m["doc_id"] == Str(r.response.value.docId)
             && "filename" in m && m["filename"] == Str(filename.value)
  {
    var r := Upload(filename, uploadDir, writeError, file, split, storeError, uuidHex);
    if r.response.Ok? {
      UploadOkIsStore(filename, uploadDir, writeError, file, split, storeError, uuidHex);
      var name := filename.value;
      var sections := ParseDocument(JoinPath(uploadDir, name), file).value;
      var chunks := split(SourceDocs(sections, name));
      var docId := uuidHex[..DocIdLength];
      assert r.stored == Stamped(chunks, docId, name);
      forall i | 0 <= i < |r.stored|
        ensures var m := r.stored[i].metadata;
                && "chunk_index" in m && m["chunk_index"] == Int(i)
                && "doc_id" in m && m["doc_id"] == Str(docId)
                && "filename" in m && m["filename"] == Str(name)
      {
        StampedMetadata(chunks, docId, name, i);
      }
    }
  }
}
