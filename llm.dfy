/**
 * The deterministic parts of `app/services/llm.py`: how `ask_question`
 * builds its context block, its confidence and its source text, and how
 * `extract_structured` cleans the model's reply before parsing it.
 *
 * The chat model is a function parameter (`complete`). It gives the
 * model's reply, or the message of the exception the call raised (an API
 * or quota error, say), which neither function catches. `json.loads` is a
 * parameter too (`parse`, which gives `None` where Python raises
 * `JSONDecodeError`).
 */
module Llm {
  import opened Wrappers
  import opened Text
  import opened Rag

  // ---------------------------------------------------------------------
  // ask_question
  // ---------------------------------------------------------------------

  /** The text of each retrieved chunk, in retrieval order. */
  function ChunkTexts(chunks: seq<Retrieved>): (r: seq<string>)
    ensures |r| == |chunks|
  {
    seq(|chunks|, i requires 0 <= i < |chunks| => chunks[i].text)
  }

  /** The score of each retrieved chunk, in retrieval order. */
  function Scores(chunks: seq<Retrieved>): (r: seq<real>)
    ensures |r| == |chunks|
  {
    seq(|chunks|, i requires 0 <= i < |chunks| => chunks[i].score)
  }

  const ContextSeparator := "\n\n---\n\n"

  /** The retrieved texts joined by a horizontal rule. */
  function ContextBlock(chunks: seq<Retrieved>): string {
    Join(ChunkTexts(chunks), ContextSeparator)
  }

  /** The context keeps the retrieval order: the block of two runs of chunks
      is the first run's block, a rule, then the second run's block. */
  lemma ContextBlockAppend(a: seq<Retrieved>, b: seq<Retrieved>)
    requires |a| >= 1 && |b| >= 1
    ensures ContextBlock(a + b) == ContextBlock(a) + ContextSeparator + ContextBlock(b)
  {
    assert ChunkTexts(a + b) == ChunkTexts(a) + ChunkTexts(b);
    JoinAppend(ChunkTexts(a), ChunkTexts(b), ContextSeparator);
  }

  /** The context of a single chunk is its text, and the context of several
      starts with the best-ranked text. */
  lemma ContextBlockStartsWithFirst(chunks: seq<Retrieved>)
    requires |chunks| >= 1
    ensures StartsWith(ContextBlock(chunks), chunks[0].text)
    ensures |chunks| == 1 ==> ContextBlock(chunks) == chunks[0].text
  {
    JoinStartsWithFirst(ChunkTexts(chunks), ContextSeparator);
  }

  /** The sum of the scores. */
  function Sum(scores: seq<real>): real
    decreases |scores|
  {
    if scores == [] then 0.0 else Sum(scores[..|scores| - 1]) + scores[|scores| - 1]
  }

  /** The mean of the retrieved chunks' scores, or 0 when nothing was
      retrieved (without the rounding to four places). */
  function Confidence(chunks: seq<Retrieved>): (r: real)
    ensures |chunks| == 0 ==> r == 0.0
    ensures |chunks| > 0 ==> r * (|chunks| as real) == Sum(Scores(chunks))
  {
    if |chunks| == 0 then 0.0 else Sum(Scores(chunks)) / (|chunks| as real)
  }

  /** A sum of `n` values between `lo` and `hi` lies between `n * lo` and
      `n * hi`. */
  lemma {:induction false} SumBounds(scores: seq<real>, lo: real, hi: real)
    requires forall i :: 0 <= i < |scores| ==> lo <= scores[i] <= hi
    ensures (|scores| as real) * lo <= Sum(scores) <= (|scores| as real) * hi
    decreases |scores|
  {
    if scores != [] {
      SumBounds(scores[..|scores| - 1], lo, hi);
    }
  }

  /** With at least one chunk, the confidence lies between the lowest and
      the highest score. */
  lemma ConfidenceBounds(chunks: seq<Retrieved>, lo: real, hi: real)
    requires |chunks| >= 1
    requires forall i :: 0 <= i < |chunks| ==> lo <= chunks[i].score <= hi
    ensures lo <= Confidence(chunks) <= hi
  {
    var n := |chunks| as real;
    SumBounds(Scores(chunks), lo, hi);
    var c := Confidence(chunks);
    assert c * n == Sum(Scores(chunks));
  }

  /** The text of the best-ranked chunk, or the empty string when nothing
      was retrieved. */
  function SourceText(chunks: seq<Retrieved>): (r: string)
    ensures |chunks| > 0 ==> r == chunks[0].text
    ensures |chunks| == 0 ==> r == ""
  {
    if |chunks| > 0 then chunks[0].text else ""
  }

  /** The dictionary `ask_question` returns. */
  datatype AskResult = AskResult(answer: string, sourceText: string, confidence: real)

  /** The answering model: its reply to (context, full text, question), or
      the message of the exception the call raised. */
  type AskModel = (string, string, string) -> Result<string, string>

  /** `ask_question`: the model's reply to the grounded prompt, stripped,
      with the source text and the confidence; an exception of the model
      call leaves the function. */
  function AskQuestion(query: string, chunks: seq<Retrieved>, fullText: string,
                       complete: AskModel): (r: Result<AskResult, string>)
    ensures var reply := complete(ContextBlock(chunks), fullText, query);
      && (r.Err? <==> reply.Err?)
      && (r.Err? ==> r.error == reply.error)
      && (r.Ok? ==> r.value.answer == Strip(reply.value))
    ensures r.Ok? ==> r.value.sourceText == SourceText(chunks) && r.value.confidence == Confidence(chunks)
  {
    match complete(ContextBlock(chunks), fullText, query)
    case Err(reason) => Err(reason)
    case Ok(answer) => Ok(AskResult(Strip(answer), SourceText(chunks), Confidence(chunks)))
  }

  /** The answer carries no surrounding whitespace, so stripping it again
      changes nothing. */
  lemma AnswerIsStripped(query: string, chunks: seq<Retrieved>, fullText: string, complete: AskModel)
    ensures var r := AskQuestion(query, chunks, fullText, complete);
      r.Ok? ==> var a := r.value.answer;
        Strip(a) == a && (a != "" ==> !IsSpace(a[0]) && !IsSpace(a[|a| - 1]))
  {
    var reply := complete(ContextBlock(chunks), fullText, query);
    if reply.Ok? {
      StripIdempotent(reply.value);
      StripFacts(reply.value);
    }
  }

  // ---------------------------------------------------------------------
  // extract_structured
  // ---------------------------------------------------------------------

  const Fence := "```"

  /** A line whose stripped form opens or closes a code fence. */
  predicate IsFenceLine(line: string) {
    StartsWith(Strip(line), Fence)
  }

  /** The lines that are not fence lines, in their order. */
  function NonFenceLines(lines: seq<string>): seq<string>
    decreases |lines|
  {
    if lines == [] then []
    else
      var l := lines[|lines| - 1];
      NonFenceLines(lines[..|lines| - 1]) + (if IsFenceLine(l) then [] else [l])
  }

  /** A line is kept exactly when it is one of the lines and not a fence. */
  lemma {:induction false} NonFenceLinesMembers(lines: seq<string>, x: string)
    ensures x in NonFenceLines(lines) <==> x in lines && !IsFenceLine(x)
    decreases |lines|
  {
    if lines != [] {
      var init := lines[..|lines| - 1];
      NonFenceLinesMembers(init, x);
      assert lines == init + [lines[|lines| - 1]];
    }
  }

  /** The kept lines stay in order: filtering two runs of lines gives the
      two filtered runs one after the other. */
  lemma {:induction false} NonFenceLinesAppend(a: seq<string>, b: seq<string>)
    ensures NonFenceLines(a + b) == NonFenceLines(a) + NonFenceLines(b)
    decreases |b|
  {
    if b == [] {
      assert a + b == a;
    } else {
      var b' := b[..|b| - 1];
      assert (a + b)[..|a + b| - 1] == a + b';
      assert (a + b)[|a + b| - 1] == b[|b| - 1];
      NonFenceLinesAppend(a, b');
    }
  }

  /** The fence removal of `extract_structured`: a reply that starts with a
      fence loses every fence line; any other reply is unchanged. */
  function StripFences(raw: string): string {
    if StartsWith(raw, Fence) then Join(NonFenceLines(Split(raw, "\n")), "\n") else raw
  }

  /** A fenced reply is cut into lines, the fence lines are dropped and the
      others are joined back: the lines of the result are exactly the
      non-fence lines of the reply, in order. */
  lemma StripFencesLines(raw: string)
    requires StartsWith(raw, Fence)
    ensures var kept := NonFenceLines(Split(raw, "\n"));
      Split(StripFences(raw), "\n") == if kept == [] then [""] else kept
  {
    var lines := Split(raw, "\n");
    var kept := NonFenceLines(lines);
    if kept == [] {
      SplitWithoutSeparator("", '\n');
    } else {
      SplitPiecesAvoidSeparator(raw, '\n');
      forall p | p in kept ensures '\n' !in p {
        NonFenceLinesMembers(lines, p);
      }
      SplitJoin(kept, '\n');
    }
  }

  /** No line of a cleaned fenced reply is a fence line. */
  lemma NoFenceLineLeft(raw: string)
    requires StartsWith(raw, Fence)
    ensures forall l :: l in Split(StripFences(raw), "\n") ==> !IsFenceLine(l)
  {
    StripFencesLines(raw);
    var kept := NonFenceLines(Split(raw, "\n"));
    forall l | l in Split(StripFences(raw), "\n") ensures !IsFenceLine(l) {
      if kept == [] {
        assert l == "";
        assert Strip("") == "";
      } else {
        NonFenceLinesMembers(Split(raw, "\n"), l);
      }
    }
  }

  /** Lines joined after a first line shorter than a fence do not start
      with a fence: the line break comes too early. */
  lemma ShortFirstLine(kept: seq<string>)
    requires |kept| >= 1 && |kept[0]| < |Fence|
    ensures !StartsWith(Join(kept, "\n"), Fence)
  {
    if |kept| >= 2 {
      var r := Join(kept, "\n");
      assert r == kept[0] + "\n" + Join(kept[1..], "\n");
      assert r[|kept[0]|] == '\n';
    }
  }

  /** A cleaned reply never starts with a fence, so cleaning it again does
      nothing. */
  lemma StripFencesIdempotent(raw: string)
    ensures !StartsWith(StripFences(raw), Fence)
    ensures StripFences(StripFences(raw)) == StripFences(raw)
  {
    if StartsWith(raw, Fence) {
      var lines := Split(raw, "\n");
      var kept := NonFenceLines(lines);
      var r := Join(kept, "\n");
      if kept != [] && StartsWith(r, Fence) {
        var first := kept[0];
        JoinStartsWithFirst(kept, "\n");
        NonFenceLinesMembers(lines, first);
        if |first| >= |Fence| {
          assert first[..|Fence|] == r[..|Fence|] == Fence;
          StripKeepsPrefix(first, |Fence|);
          assert IsFenceLine(first);
          assert false;
        } else {
          ShortFirstLine(kept);
          assert false;
        }
      }
    }
  }

  /** What `extract_structured` returns: the parsed JSON value, or the
      fallback dictionary with the cleaned reply and a fixed message. */
  datatype ExtractOutput<J> = Parsed(value: J) | ParseFailed(rawResponse: string, error: string)

  const ParseErrorMessage := "Failed to parse LLM JSON output"

  /** The extraction model's reply, stripped and with its fences removed. */
  function CleanedReply(reply: string): string {
    StripFences(Strip(reply))
  }

  /** The extraction model: its reply to the full text, or the message of the
      exception the call raised. */
  type ExtractModel = string -> Result<string, string>

  /** `extract_structured`: `parse` is `json.loads`, giving `None` where it
      raises `JSONDecodeError`. A reply that does not parse gives the
      fallback dictionary; an exception of the model call leaves the
      function. */
  function ExtractStructured<J>(fullText: string, complete: ExtractModel,
                                parse: string -> Option<J>): (r: Result<ExtractOutput<J>, string>)
    ensures r.Err? <==> complete(fullText).Err?
    ensures r.Err? ==> r.error == complete(fullText).error
    ensures r.Ok? ==> var raw := CleanedReply(complete(fullText).value);
      && (r.value.ParseFailed? <==> parse(raw).None?)
      && (r.value.ParseFailed? ==> r.value.rawResponse == raw && r.value.error == ParseErrorMessage)
      && (r.value.Parsed? ==> parse(raw) == Some(r.value.value))
  {
    match complete(fullText)
    case Err(reason) => Err(reason)
    case Ok(reply) =>
      var raw := CleanedReply(reply);
      match parse(raw)
      case Some(v) => Ok(Parsed(v))
      case None => Ok(ParseFailed(raw, ParseErrorMessage))
  }

  /** The text handed to the parser (and echoed on failure) is the model's
      reply unchanged when the stripped reply does not start with a fence,
      and otherwise the reply's non-fence lines, none of which is a fence
      line. */
  lemma CleanedReplyShape(reply: string)
    ensures var raw := Strip(reply);
      var cleaned := CleanedReply(reply);
      && (!StartsWith(raw, Fence) ==> cleaned == raw)
      && (StartsWith(raw, Fence) ==> forall l :: l in Split(cleaned, "\n") ==> !IsFenceLine(l))
      && !StartsWith(cleaned, Fence)
  {
    var raw := Strip(reply);
    if StartsWith(raw, Fence) {
      NoFenceLineLeft(raw);
    }
    StripFencesIdempotent(raw);
  }
}
