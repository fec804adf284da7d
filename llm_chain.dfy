/**
 * The Gemini helpers of models/processors/llm_chain.py with the language
 * model abstracted: every model call is an input `Outcome` (it raised, or it
 * returned this text). What is modelled is the logic around the calls: the
 * fallback message, the markdown clean-ups, the personalisation guard, the
 * document selection and bounded retry of the RAG helper, the guards of the
 * MySQL helper, and the line parsing of the alternatives helper.
 */
module LlmChain {
  import opened Wrappers
  import opened Strings
  import opened Messages

  /** `_FALLBACK_TEMPLATE`: the out-of-scope message with its one field. */
  const FallbackTemplate: string := FallbackPrefix + "{question}" + FallbackSuffix

  /** `_FALLBACK_TEMPLATE.format(question=question)` is the template with the field replaced by the question. */
  lemma FallbackFormats(question: string)
    ensures ReplaceAll(FallbackTemplate, "{question}", question) == FallbackPrefix + question + FallbackSuffix
  {
    FallbackPiecesPlain();
    ReplaceOnce(FallbackPrefix, "{question}", FallbackSuffix, question);
  }

  /** `_fallback(question)`. */
  function Fallback(question: string): (r: string)
    ensures r == FallbackPrefix + question + FallbackSuffix
  {
    FallbackFormats(question);
    ReplaceAll(FallbackTemplate, "{question}", question)
  }

  // ------------------------------------------------------------------
  // Text clean-up
  // ------------------------------------------------------------------

  /** `_OVERBOLD_RE` matches the stripped text: `**`, at least one character, `**`. */
  predicate OverboldMatch(s: string) {
    |s| >= 5 && s[..2] == "**" && s[|s| - 2..] == "**"
  }

  /** The group `(.+)` of that match. */
  function BoldInner(s: string): string
    requires OverboldMatch(s)
  {
    s[2..|s| - 2]
  }

  predicate OverboldWithComma(text: string) {
    OverboldMatch(Strip(text)) && ',' in BoldInner(Strip(text))
  }

  /** `fix_overbold_response`. */
  function FixOverboldResponse(text: string): string {
    if OverboldWithComma(text) then
      var parts := SplitFirst(BoldInner(Strip(text)), ',');
      "**" + Strip(parts.0) + ",**\n" + Strip(parts.1)
    else text
  }

  /**
   * A whole-bold answer `**head,rest**` keeps only `head` in bold, up to its
   * first comma, and puts the rest on the next line, both trimmed.
   */
  lemma FixOverboldSplitsAtFirstComma(text: string, head: string, rest: string)
    requires Strip(text) == "**" + head + "," + rest + "**"
    requires ',' !in head
    ensures FixOverboldResponse(text) == "**" + Strip(head) + ",**\n" + Strip(rest)
  {
    var s := Strip(text);
    var inner := head + "," + rest;
    assert s[2..|s| - 2] == inner;
    assert inner[|head|] == ',';
    assert OverboldWithComma(text);
    var parts := SplitFirst(inner, ',');
    assert |parts.0| == |head|;
    assert parts.0 == inner[..|head|] == head;
    assert parts.1 == inner[|head| + 1..] == rest;
  }

  /** Any other answer is returned as it came. */
  lemma FixOverboldOtherwiseUnchanged(text: string)
    requires !OverboldMatch(Strip(text)) || ',' !in BoldInner(Strip(text))
    ensures FixOverboldResponse(text) == text
  {
  }

  const GreetingGap: string := "**Chào bạn,**\n\n"
  const GreetingTight: string := "**Chào bạn,**\n"

  /**
   * `tighten_greeting_spacing`: each non-overlapping bold greeting followed by
   * a blank line loses one newline; a text without it is unchanged.
   */
  function TightenGreetingSpacing(text: string): (r: string)
    ensures !Contains(text, GreetingGap) ==> r == text
    ensures |r| == |text| - Occurrences(text, GreetingGap)
  {
    ReplaceAllUnchanged(text, GreetingGap, GreetingTight);
    ReplaceAllLength(text, GreetingGap, GreetingTight);
    ReplaceAll(text, GreetingGap, GreetingTight)
  }

  /** `clean_question`, as a strip: its pattern needs a literal backslash before `.pdf` and never matches a plain prompt. */
  function CleanQuestion(q: string): string {
    Strip(q)
  }

  // ------------------------------------------------------------------
  // Personalisation
  // ------------------------------------------------------------------

  predicate Truthy(s: Option<string>) {
    s.Some? && s.value != ""
  }

  /**
   * `personalize_answer`: without a user context, or when the model call
   * fails or returns only whitespace, the original answer comes back;
   * otherwise the model's stripped, non-empty text.
   */
  function PersonalizeAnswer(originalAnswer: string, userContext: Option<string>, llm: Outcome<string>): (r: string)
    ensures !Truthy(userContext) ==> r == originalAnswer
    ensures llm.Raised? ==> r == originalAnswer
    ensures r == originalAnswer || (llm.Returned? && r == Strip(llm.value) && r != "")
  {
    if !Truthy(userContext) then originalAnswer
    else match llm
      case Raised => originalAnswer
      case Returned(out) => if Strip(out) != "" then Strip(out) else originalAnswer
  }

  /** The chain every helper applies before returning: personalise, tighten the greeting, fix the bold. */
  function PostProcess(answer: string, userContext: Option<string>, llm: Outcome<string>): string {
    FixOverboldResponse(TightenGreetingSpacing(PersonalizeAnswer(answer, userContext, llm)))
  }

  /** A non-empty answer stays non-empty through the post-processing chain. */
  lemma PostProcessNonEmpty(answer: string, userContext: Option<string>, llm: Outcome<string>)
    requires answer != ""
    ensures PostProcess(answer, userContext, llm) != ""
  {
    var p := PersonalizeAnswer(answer, userContext, llm);
    ReplaceAllNonEmpty(p, GreetingGap, GreetingTight);
  }

  /** The fallback for a question without `*` passes the post-processing chain untouched when there is no user context. */
  lemma PostProcessKeepsFallback(question: string, llm: Outcome<string>)
    requires '*' !in question
    ensures PostProcess(Fallback(question), None, llm) == Fallback(question)
  {
    var f := Fallback(question);
    FallbackPiecesPlain();
    FallbackEnds();
    assert '*' !in f;
    if Contains(f, GreetingGap) {
      ContainsChar(f, GreetingGap, 0);
      assert false;
    }
    assert f[0] == FallbackPrefix[0];
    assert f[|f| - 1] == FallbackSuffix[|FallbackSuffix| - 1];
    StripTrimmed(f);
  }

  const NotFound: string := "không tìm thấy"

  /** The model's text, stripped, or the fallback when it is empty or says nothing was found. */
  function CheckedAnswer(raw: string, question: string): (r: string)
    ensures r == Strip(raw) || r == Fallback(question)
    ensures (Strip(raw) == "" || Contains(Lower(Strip(raw)), NotFound)) ==> r == Fallback(question)
    ensures !(Strip(raw) == "" || Contains(Lower(Strip(raw)), NotFound)) ==> r == Strip(raw)
    ensures r != ""
  {
    var a := Strip(raw);
    if a == "" || Contains(Lower(a), NotFound) then Fallback(question) else a
  }

  // ------------------------------------------------------------------
  // RAG over the vector store
  // ------------------------------------------------------------------

  datatype MetaValue = MetaStr(text: string) | MetaInt(number: int)

  /** A LangChain `Document`: its text and its metadata (source file, page, ...). */
  datatype Doc = Doc(pageContent: string, metadata: map<string, MetaValue>)

  /** The documents of the FAISS store in the order of its docstore. */
  datatype VectorStore = VectorStore(docstore: seq<Doc>)

  /** `d.metadata.get("source")`. */
  function SourceOf(d: Doc): Option<MetaValue> {
    if "source" in d.metadata then Some(d.metadata["source"]) else None
  }

  /**
   * `[d for d in docstore if d.metadata.get("source") == pdf]`: documents of
   * that source in docstore order, as many as the docstore holds, so each
   * matching position is kept.
   */
  function DocsFromSource(docs: seq<Doc>, pdf: string): (r: seq<Doc>)
    ensures forall k :: 0 <= k < |r| ==> SourceOf(r[k]) == Some(MetaStr(pdf))
    ensures forall k :: 0 <= k < |docs| && SourceOf(docs[k]) == Some(MetaStr(pdf)) ==> docs[k] in r
    ensures IsSubsequence(r, docs)
    ensures |r| == |set k | 0 <= k < |docs| && SourceOf(docs[k]) == Some(MetaStr(pdf))|
  {
    var fromPdf := (d: Doc) => SourceOf(d) == Some(MetaStr(pdf));
    assert Positions(docs, fromPdf) == set k | 0 <= k < |docs| && SourceOf(docs[k]) == Some(MetaStr(pdf));
    if docs == [] then []
    else
      var rest := DocsFromSource(docs[1..], pdf);
      assert forall k :: 1 <= k < |docs| ==> docs[k] == docs[1..][k - 1];
      assert Positions(docs[1..], fromPdf) == set k | 0 <= k < |docs[1..]| && SourceOf(docs[1..][k]) == Some(MetaStr(pdf));
      PositionsCons(docs[0], docs[1..], fromPdf);
      assert [docs[0]] + docs[1..] == docs;
      if SourceOf(docs[0]) == Some(MetaStr(pdf)) then [docs[0]] + rest
      else rest
  }

  /**
   * The documents handed to the model: with a filter, the docstore's
   * documents from that source, or `None` (answer with the fallback) when
   * there are none; without one, the similarity search hits. Either list is
   * cut to `MAX_DOCS`.
   */
  function SelectDocs(store: VectorStore, filterPdf: Option<string>, searchHits: seq<Doc>, maxDocs: int): Option<seq<Doc>> {
    if Truthy(filterPdf) then
      var docs := DocsFromSource(store.docstore, filterPdf.value);
      if docs == [] then None else Some(PyPrefix(docs, maxDocs))
    else Some(PyPrefix(searchHits, maxDocs))
  }

  /**
   * With a filter the selection is exactly the filter's documents in docstore
   * order, at most `MAX_DOCS` of them, and a matching document is left out
   * only when `MAX_DOCS` were already taken; none matching means no selection.
   */
  lemma SelectDocsByFilter(store: VectorStore, pdf: string, searchHits: seq<Doc>, maxDocs: int)
    requires pdf != ""
    ensures var sel := SelectDocs(store, Some(pdf), searchHits, maxDocs);
      (sel.None? <==> forall k :: 0 <= k < |store.docstore| ==> SourceOf(store.docstore[k]) != Some(MetaStr(pdf)))
      && (sel.Some? ==>
            (forall k :: 0 <= k < |sel.value| ==> SourceOf(sel.value[k]) == Some(MetaStr(pdf)))
            && IsSubsequence(sel.value, store.docstore)
            && (0 <= maxDocs ==>
                  var docs := DocsFromSource(store.docstore, pdf);
                  sel.value == docs[..if maxDocs < |docs| then maxDocs else |docs|])
            && (0 <= maxDocs ==> |sel.value| <= maxDocs)
            && (0 <= maxDocs ==>
                  forall k :: (0 <= k < |store.docstore| && SourceOf(store.docstore[k]) == Some(MetaStr(pdf))
                               && store.docstore[k] !in sel.value) ==> |sel.value| == maxDocs))
  {
    var docs := DocsFromSource(store.docstore, pdf);
    if docs != [] {
      assert SourceOf(docs[0]) == Some(MetaStr(pdf));
      SubsequenceMembers(docs, store.docstore);
      var top := PyPrefix(docs, maxDocs);
      SubsequencePrefix(docs, store.docstore, |top|);
      assert top == docs[..|top|];
      forall k | 0 <= maxDocs && 0 <= k < |store.docstore| && SourceOf(store.docstore[k]) == Some(MetaStr(pdf))
                 && store.docstore[k] !in top
        ensures |top| == maxDocs
      {
        var p :| 0 <= p < |docs| && docs[p] == store.docstore[k];
        assert |top| <= p;
      }
    }
  }

  /** The first attempt, from `from` up to `attempts`, whose model call returned; every earlier one raised. */
  function FirstSuccess(invoke: (seq<Doc>, nat) -> Outcome<string>, selected: seq<Doc>, from: nat, attempts: int): (r: Option<(nat, string)>)
    ensures r.Some? ==> from <= r.value.0 < attempts && invoke(selected, r.value.0) == Returned(r.value.1)
                        && forall k :: from <= k < r.value.0 ==> invoke(selected, k).Raised?
    ensures r.None? ==> forall k :: from <= k < attempts ==> invoke(selected, k).Raised?
    decreases attempts - from
  {
    if attempts <= from then None
    else match invoke(selected, from)
      case Returned(out) => Some((from, out))
      case Raised => FirstSuccess(invoke, selected, from + 1, attempts)
  }

  /** What `get_gemini_rag` returns. */
  function RagAnswer(store: VectorStore, userQuestion: string, filterPdf: Option<string>, userContext: Option<string>,
                     searchHits: seq<Doc>, maxDocs: int, maxRetries: int,
                     invoke: (seq<Doc>, nat) -> Outcome<string>, personalizeLlm: Outcome<string>): string
  {
    var question := CleanQuestion(userQuestion);
    match SelectDocs(store, filterPdf, searchHits, maxDocs)
    case None => Fallback(question)
    case Some(selected) =>
      match FirstSuccess(invoke, selected, 0, maxRetries)
      case None => Fallback(question)
      case Some((_, out)) => PostProcess(CheckedAnswer(out, question), userContext, personalizeLlm)
  }

  /** How many times `get_gemini_rag` invokes the model. */
  function RagCalls(store: VectorStore, filterPdf: Option<string>, searchHits: seq<Doc>, maxDocs: int, maxRetries: int,
                    invoke: (seq<Doc>, nat) -> Outcome<string>): nat
  {
    match SelectDocs(store, filterPdf, searchHits, maxDocs)
    case None => 0
    case Some(selected) =>
      match FirstSuccess(invoke, selected, 0, maxRetries)
      case None => if maxRetries < 0 then 0 else maxRetries
      case Some((j, _)) => j + 1
  }

  /**
   * `get_gemini_rag`: select the documents, then invoke the model up to
   * `MAX_RETRIES` times, returning the post-processed answer of the first
   * attempt that does not raise, or the fallback when every attempt raises.
   * `invoke(selected, i)` is the outcome of the `i`-th attempt; the sleep
   * between attempts is not modelled.
   */
  method GetGeminiRag(store: VectorStore, userQuestion: string, filterPdf: Option<string>, userContext: Option<string>,
                      searchHits: seq<Doc>, maxDocs: int, maxRetries: int,
                      invoke: (seq<Doc>, nat) -> Outcome<string>, personalizeLlm: Outcome<string>)
    returns (answer: string, calls: nat)
    ensures answer == RagAnswer(store, userQuestion, filterPdf, userContext, searchHits, maxDocs, maxRetries, invoke, personalizeLlm)
    ensures calls == RagCalls(store, filterPdf, searchHits, maxDocs, maxRetries, invoke)
    ensures calls <= if maxRetries < 0 then 0 else maxRetries
  {
    var question := CleanQuestion(userQuestion);
    var selection := SelectDocs(store, filterPdf, searchHits, maxDocs);
    if selection.None? {
      return Fallback(question), 0;
    }
    var selected := selection.value;
    var i := 0;
    while i < maxRetries
      invariant 0 <= i <= if maxRetries < 0 then 0 else maxRetries
      invariant FirstSuccess(invoke, selected, 0, maxRetries) == FirstSuccess(invoke, selected, i, maxRetries)
    {
      var res := invoke(selected, i);
      if res.Returned? {
        var checked := CheckedAnswer(res.value, question);
        return PostProcess(checked, userContext, personalizeLlm), i + 1;
      }
      i := i + 1;
    }
    return Fallback(question), i;
  }

  /** With a filter that no document matches, the fallback comes back and the model is never invoked. */
  lemma RagNoMatchingDocs(store: VectorStore, userQuestion: string, pdf: string, userContext: Option<string>,
                          searchHits: seq<Doc>, maxDocs: int, maxRetries: int,
                          invoke: (seq<Doc>, nat) -> Outcome<string>, personalizeLlm: Outcome<string>)
    requires pdf != ""
    requires forall k :: 0 <= k < |store.docstore| ==> SourceOf(store.docstore[k]) != Some(MetaStr(pdf))
    ensures RagAnswer(store, userQuestion, Some(pdf), userContext, searchHits, maxDocs, maxRetries, invoke, personalizeLlm)
            == Fallback(Strip(userQuestion))
    ensures RagCalls(store, Some(pdf), searchHits, maxDocs, maxRetries, invoke) == 0
  {
    SelectDocsByFilter(store, pdf, searchHits, maxDocs);
  }

  /**
   * When every one of the `MAX_RETRIES` attempts on the selected documents
   * raises, the result is the fallback for the stripped question.
   */
  lemma RagAllAttemptsRaise(store: VectorStore, userQuestion: string, filterPdf: Option<string>, userContext: Option<string>,
                            searchHits: seq<Doc>, maxDocs: int, maxRetries: int,
                            invoke: (seq<Doc>, nat) -> Outcome<string>, personalizeLlm: Outcome<string>)
    requires SelectDocs(store, filterPdf, searchHits, maxDocs).Some? ==>
      forall k: nat :: k < maxRetries ==> invoke(SelectDocs(store, filterPdf, searchHits, maxDocs).value, k).Raised?
    ensures RagAnswer(store, userQuestion, filterPdf, userContext, searchHits, maxDocs, maxRetries, invoke, personalizeLlm)
            == Fallback(Strip(userQuestion))
  {
    var sel := SelectDocs(store, filterPdf, searchHits, maxDocs);
    if sel.Some? {
      var r := FirstSuccess(invoke, sel.value, 0, maxRetries);
    }
  }

  /**
   * When the first successful attempt's text is empty or says nothing was
   * found, and there is no user context, the result is the fallback itself.
   */
  lemma RagNotFoundGivesFallback(store: VectorStore, userQuestion: string, filterPdf: Option<string>,
                                 searchHits: seq<Doc>, maxDocs: int, maxRetries: int,
                                 invoke: (seq<Doc>, nat) -> Outcome<string>, personalizeLlm: Outcome<string>,
                                 selected: seq<Doc>, j: nat, out: string)
    requires '*' !in userQuestion
    requires SelectDocs(store, filterPdf, searchHits, maxDocs) == Some(selected)
    requires FirstSuccess(invoke, selected, 0, maxRetries) == Some((j, out))
    requires Strip(out) == "" || Contains(Lower(Strip(out)), NotFound)
    ensures RagAnswer(store, userQuestion, filterPdf, None, searchHits, maxDocs, maxRetries, invoke, personalizeLlm)
            == Fallback(Strip(userQuestion))
  {
    var q := Strip(userQuestion);
    StripShape(userQuestion);
    assert '*' !in q by {
      var i :| 0 <= i <= |userQuestion| - |q| && userQuestion[i..i + |q|] == q
               && AllSpace(userQuestion[..i]) && AllSpace(userQuestion[i + |q|..]);
      assert forall k :: 0 <= k < |q| ==> q[k] == userQuestion[i + k];
    }
    PostProcessKeepsFallback(q, personalizeLlm);
  }

  /** `get_gemini_rag` never returns an empty string. */
  lemma RagAnswerNonEmpty(store: VectorStore, userQuestion: string, filterPdf: Option<string>, userContext: Option<string>,
                          searchHits: seq<Doc>, maxDocs: int, maxRetries: int,
                          invoke: (seq<Doc>, nat) -> Outcome<string>, personalizeLlm: Outcome<string>)
    ensures RagAnswer(store, userQuestion, filterPdf, userContext, searchHits, maxDocs, maxRetries, invoke, personalizeLlm) != ""
  {
    var q := CleanQuestion(userQuestion);
    var sel := SelectDocs(store, filterPdf, searchHits, maxDocs);
    if sel.Some? {
      var r := FirstSuccess(invoke, sel.value, 0, maxRetries);
      if r.Some? {
        PostProcessNonEmpty(CheckedAnswer(r.value.1, q), userContext, personalizeLlm);
      }
    }
  }

  // ------------------------------------------------------------------
  // MySQL Q&A
  // ------------------------------------------------------------------

  /**
   * `get_gemini_mysql`. `dataEmpty` is what `fetch_data_from_mysql` gave:
   * whether its frame is empty, or `Raised` when it raised (it is called
   * outside the helper's `try`, so that propagates). `generated` is the
   * `generate_content` call: `Raised`, or the response's `text` attribute
   * (`None` when it has none).
   */
  function GetGeminiMysql(userQuestion: string, userContext: Option<string>, dataEmpty: Outcome<bool>,
                          generated: Outcome<Option<string>>, personalizeLlm: Outcome<string>): Outcome<string>
  {
    match dataEmpty
    case Raised => Raised
    case Returned(empty) =>
      if empty then Returned(Fallback(userQuestion))
      else match generated
        case Raised => Returned(Fallback(userQuestion))
        case Returned(text) =>
          var raw := if text.Some? then text.value else "";
          Returned(PostProcess(CheckedAnswer(raw, userQuestion), userContext, personalizeLlm))
  }

  /**
   * The MySQL helper's guards: for any question and user context, an empty
   * data frame gives the fallback whatever the model would say, a failed
   * model call gives the fallback, and a fetch that raised propagates; with
   * no user context and a question without `*`, an empty or "not found"
   * reply gives the fallback too.
   */
  lemma MysqlFallbacks(userQuestion: string, userContext: Option<string>, generated: Outcome<Option<string>>,
                       personalizeLlm: Outcome<string>)
    ensures GetGeminiMysql(userQuestion, userContext, Returned(true), generated, personalizeLlm) == Returned(Fallback(userQuestion))
    ensures GetGeminiMysql(userQuestion, userContext, Returned(false), Raised, personalizeLlm) == Returned(Fallback(userQuestion))
    ensures '*' !in userQuestion && userContext == None && generated.Returned? &&
            (var raw := if generated.value.Some? then generated.value.value else "";
             Strip(raw) == "" || Contains(Lower(Strip(raw)), NotFound))
            ==> GetGeminiMysql(userQuestion, None, Returned(false), generated, personalizeLlm) == Returned(Fallback(userQuestion))
    ensures GetGeminiMysql(userQuestion, userContext, Raised, generated, personalizeLlm) == Raised
  {
    if '*' !in userQuestion {
      PostProcessKeepsFallback(userQuestion, personalizeLlm);
    }
  }

  // ------------------------------------------------------------------
  // Alternatives
  // ------------------------------------------------------------------

  const MaxAlternatives: int := 5

  function StripAll(lines: seq<string>): (r: seq<string>)
    ensures |r| == |lines| && forall k :: 0 <= k < |lines| ==> r[k] == Strip(lines[k])
  {
    seq(|lines|, k requires 0 <= k < |lines| => Strip(lines[k]))
  }

  predicate NonBlankLine(line: string) {
    Strip(line) != ""
  }

  /**
   * `[l.strip() for l in lines if l.strip()]`: stripped lines in their order,
   * none empty, and as many as there are non-blank lines, so every non-blank
   * line is kept.
   */
  function NonBlankLines(lines: seq<string>): (r: seq<string>)
    ensures forall k :: 0 <= k < |r| ==> r[k] != ""
    ensures IsSubsequence(r, StripAll(lines))
    ensures |r| == |set k | 0 <= k < |lines| && Strip(lines[k]) != ""|
  {
    assert Positions(lines, NonBlankLine) == set k | 0 <= k < |lines| && Strip(lines[k]) != "";
    if lines == [] then []
    else
      assert StripAll(lines)[1..] == StripAll(lines[1..]);
      var rest := NonBlankLines(lines[1..]);
      assert Positions(lines[1..], NonBlankLine) == set k | 0 <= k < |lines[1..]| && Strip(lines[1..][k]) != "";
      PositionsCons(lines[0], lines[1..], NonBlankLine);
      assert [lines[0]] + lines[1..] == lines;
      if Strip(lines[0]) != "" then [Strip(lines[0])] + rest
      else rest
  }

  /** `get_gemini_alternatives` with the model's reply as input. */
  function GetGeminiAlternatives(generated: Outcome<Option<string>>): seq<string> {
    match generated
    case Raised => []
    case Returned(text) =>
      var raw := if text.Some? then text.value else "";
      PyPrefix(NonBlankLines(Split(Strip(raw), '\n')), MaxAlternatives)
  }


  /** A non-empty line of `Split(_, '\n')`, stripped, has no newline and strips to itself. */
  lemma StrippedLine(text: string, line: string)
    requires line in Split(text, '\n')
    ensures Strip(Strip(line)) == Strip(line) && '\n' !in Strip(line)
  {
    SplitJoin(text, '\n');
    StripIdempotent(line);
    StripShape(line);
    var r := Strip(line);
    var i :| 0 <= i <= |line| - |r| && line[i..i + |r|] == r && AllSpace(line[..i]) && AllSpace(line[i + |r|..]);
    assert forall c :: 0 <= c < |r| ==> r[c] == line[i + c];
  }

  /** The first five non-blank lines of `text`: trimmed, non-empty, without a newline, in order. */
  lemma AlternativeLines(text: string)
    ensures var all := NonBlankLines(Split(text, '\n'));
      var r := PyPrefix(all, MaxAlternatives);
      |r| == (if |all| < MaxAlternatives then |all| else MaxAlternatives) && r == all[..|r|]
      && (forall k :: 0 <= k < |r| ==> r[k] != "" && Strip(r[k]) == r[k] && '\n' !in r[k])
      && IsSubsequence(r, StripAll(Split(text, '\n')))
  {
    var lines := Split(text, '\n');
    var all := NonBlankLines(lines);
    var r := PyPrefix(all, MaxAlternatives);
    SubsequencePrefix(all, StripAll(lines), |r|);
    SubsequenceMembers(r, StripAll(lines));
    forall k | 0 <= k < |r|
      ensures Strip(r[k]) == r[k] && '\n' !in r[k]
    {
      var m :| 0 <= m < |lines| && StripAll(lines)[m] == r[k];
      StrippedLine(text, lines[m]);
    }
  }

  /**
   * At most five alternatives: the first five of the reply's non-blank lines
   * (or all of them when there are fewer), each trimmed, non-empty and
   * without a newline, in the reply's order; nothing when the call fails.
   */
  lemma AlternativesSpec(generated: Outcome<Option<string>>)
    ensures var r := GetGeminiAlternatives(generated);
      |r| <= MaxAlternatives
      && (forall k :: 0 <= k < |r| ==> r[k] != "" && Strip(r[k]) == r[k] && '\n' !in r[k])
      && (generated.Raised? ==> r == [])
      && (generated.Returned? ==>
            var raw := if generated.value.Some? then generated.value.value else "";
            var all := NonBlankLines(Split(Strip(raw), '\n'));
            |r| == (if |all| < MaxAlternatives then |all| else MaxAlternatives) && r == all[..|r|]
            && IsSubsequence(r, StripAll(Split(Strip(raw), '\n'))))
  {
    if generated.Returned? {
      var raw := if generated.value.Some? then generated.value.value else "";
      AlternativeLines(Strip(raw));
    }
  }
}
