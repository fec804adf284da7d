/**
 * The query router of models/processors/query_processor.py: answer from the
 * cache, then small talk, then the MySQL Q&A helper, and only when that gave
 * nothing usable, the PDF helper over the lazily loaded vector store; usable
 * answers are cached with a processing time of zero.
 *
 * The router's collaborators are inputs: the small-talk reply, what the
 * MySQL helper returned or that it raised, what loading the vector store
 * gave, and what the PDF helper returned. Its two pieces of module state,
 * the cache and the loaded store, are the fields of `QueryRouter`.
 */
module QueryProcessor {
  import opened Wrappers
  import opened Strings
  import opened Messages
  import opened Cache
  import LlmChain

  /**
   * The out-of-scope message as the router spells it when it screens the
   * MySQL answer: a plain string, so its field is the literal text
   * `{user_question}` and was never filled in.
   */
  const RouterOutOfScope: string := FallbackPrefix + "{user_question}" + FallbackSuffix

  /** The out-of-scope message the router substitutes for a RAG answer that found nothing; its link has no question. */
  const RagOutOfScope: string := LinkOnlyPrefix + FallbackSuffix

  const NotFoundInfo: string := "không tìm thấy thông tin"
  const NoInfo: string := "không có thông tin"

  /** What the PDF helper handed back: the source annotates it as a string, the router reads it as a dictionary. */
  datatype PyValue = PyStr(text: string) | PyDict(fields: map<string, string>)

  /** An opaque, truthy FAISS store. */
  datatype Handle = Handle(id: nat)

  // ------------------------------------------------------------------
  // The cache-hit note
  // ------------------------------------------------------------------

  function DigitChar(d: nat): char
    requires d < 10
  {
    ('0' as int + d) as char
  }

  /** The decimal digits of `n`. */
  function NatToString(n: nat): (s: string)
    ensures s != [] && forall k :: 0 <= k < |s| ==> '0' <= s[k] <= '9'
  {
    if n < 10 then [DigitChar(n)] else NatToString(n / 10) + [DigitChar(n % 10)]
  }

  /** Round to the nearest integer, ties to the even one. */
  function RoundHalfEven(x: real): (n: int)
    ensures x - 0.5 <= n as real <= x + 0.5
    ensures n as real - x == 0.5 || x - n as real == 0.5 ==> n % 2 == 0
  {
    var f := x.Floor;
    var frac := x - f as real;
    if frac > 0.5 || (frac == 0.5 && f % 2 == 1) then f + 1 else f
  }

  /** `f"{t:.2f}"`, on the exact value of `t`. */
  function Fixed2(t: real): string {
    var a := if t < 0.0 then -t else t;
    var n := RoundHalfEven(a * 100.0);
    var cents: nat := n;
    (if t < 0.0 then "-" else "") + NatToString(cents / 100) + "." + [DigitChar(cents % 100 / 10), DigitChar(cents % 10)]
  }

  /** The entries the router itself stores report a saving of `0.00`. */
  lemma Fixed2Zero()
    ensures Fixed2(0.0) == "0.00"
  {
  }

  /** The text appended to a cached answer. */
  function CacheNote(timeSaved: real): string {
    "\n\n*(Kết quả từ cache, tiết kiệm " + Fixed2(timeSaved) + "s)*"
  }

  // ------------------------------------------------------------------
  // The routing decision
  // ------------------------------------------------------------------

  /** A reply, and the answer `set_cache` stores with it, if any. */
  datatype Reply = Reply(text: string, stored: Option<string>)

  /** Whether the MySQL answer is returned (and cached) instead of asking the PDF helper. */
  predicate MysqlAccepted(answer: string) {
    answer != "" && !Contains(answer, RouterOutOfScope)
  }

  /** Whether the lower-cased RAG answer says no information was found. */
  predicate SaysNoInformation(answer: string) {
    Contains(Lower(answer), NotFoundInfo) || Contains(Lower(answer), NoInfo)
  }

  /** The part of `process_query` after the `try`, given what the vector store load gave. */
  function RespondUncached(mysql: Outcome<string>, db: Outcome<Option<Handle>>, rag: Outcome<PyValue>): Reply {
    match mysql
    case Raised => Reply(Apology, None)
    case Returned(m) =>
      if MysqlAccepted(m) then Reply(m, Some(m))
      else StoreReply(db, rag)
  }

  /** The vector-store part of `process_query` (lines 31-51), given what the load and the PDF helper gave. */
  function StoreReply(db: Outcome<Option<Handle>>, rag: Outcome<PyValue>): Reply {
    match db
    case Raised => Reply(Apology, None)
    case Returned(None) => Reply(Apology, None)
    case Returned(Some(_)) =>
      match rag
      case Raised => Reply(Apology, None)
      // an empty string fails `if not response`; subscripting any other string raises
      case Returned(PyStr(_)) => Reply(Apology, None)
      case Returned(PyDict(fields)) =>
        if |fields| == 0 || "output_text" !in fields then Reply(Apology, None)
        else
          var answer := fields["output_text"];
          if answer == "" then Reply(NoAnswer, None)
          else if SaysNoInformation(answer) then Reply(RagOutOfScope, Some(RagOutOfScope))
          else Reply(answer, Some(answer))
  }

  /** `process_query`, given what the cache lookup found and what each collaborator does. */
  function Respond(cached: Option<Entry>, smallTalk: Option<string>, mysql: Outcome<string>,
                   db: Outcome<Option<Handle>>, rag: Outcome<PyValue>): Reply
  {
    if cached.Some? then Reply(cached.value.result + CacheNote(cached.value.processingTime), None)
    else if smallTalk.Some? && smallTalk.value != "" then Reply(smallTalk.value, None)
    else RespondUncached(mysql, db, rag)
  }

  /** Whether `process_query` gets as far as loading the vector store. */
  predicate ReachesRag(cached: Option<Entry>, smallTalk: Option<string>, mysql: Outcome<string>) {
    cached.None? && !(smallTalk.Some? && smallTalk.value != "") && mysql.Returned? && !MysqlAccepted(mysql.value)
  }

  /** What `load_vector_db_once` returns, given the current global and what a load would give. */
  function DbOutcome(current: Option<Handle>, load: Outcome<Option<Handle>>): Outcome<Option<Handle>> {
    if current.Some? then Returned(current) else load
  }

  // ------------------------------------------------------------------
  // Properties of the routing decision
  // ------------------------------------------------------------------

  /**
   * The precedence of `process_query`: a cache hit answers with the note and
   * consults nothing else; then truthy small talk; then an error of the MySQL
   * helper gives the apology; an accepted MySQL answer is cached; a store
   * that failed to load gives the apology. None of these but the accepted
   * answer caches anything.
   */
  lemma RoutePrecedence(cached: Option<Entry>, smallTalk: Option<string>, mysql: Outcome<string>,
                        db: Outcome<Option<Handle>>, rag: Outcome<PyValue>)
    ensures cached.Some? ==>
      Respond(cached, smallTalk, mysql, db, rag) == Reply(cached.value.result + CacheNote(cached.value.processingTime), None)
    ensures cached.None? && smallTalk.Some? && smallTalk.value != "" ==>
      Respond(cached, smallTalk, mysql, db, rag) == Reply(smallTalk.value, None)
    ensures cached.None? && !(smallTalk.Some? && smallTalk.value != "") && mysql.Raised? ==>
      Respond(cached, smallTalk, mysql, db, rag) == Reply(Apology, None)
    ensures cached.None? && !(smallTalk.Some? && smallTalk.value != "") && mysql.Returned? && MysqlAccepted(mysql.value) ==>
      Respond(cached, smallTalk, mysql, db, rag) == Reply(mysql.value, Some(mysql.value))
    ensures ReachesRag(cached, smallTalk, mysql) && (db.Raised? || db == Returned(None)) ==>
      Respond(cached, smallTalk, mysql, db, rag) == Reply(Apology, None)
  {
  }

  /**
   * Whatever is cached is exactly the reply returned, and it is never empty.
   * Only the two `set_cache` calls write: an accepted MySQL answer, or an
   * answer from the dictionary the PDF helper returned over a loaded store.
   * A cache hit, small talk, a raise anywhere, a string from the PDF helper
   * and an empty answer cache nothing.
   */
  lemma StoredIsReply(cached: Option<Entry>, smallTalk: Option<string>, mysql: Outcome<string>,
                      db: Outcome<Option<Handle>>, rag: Outcome<PyValue>)
    ensures var r := Respond(cached, smallTalk, mysql, db, rag);
      r.stored.Some? ==>
        r.stored.value == r.text && r.text != "" && cached.None? && mysql.Returned?
        && !(smallTalk.Some? && smallTalk.value != "")
        && (MysqlAccepted(mysql.value)
            || (db.Returned? && db.value.Some? && rag.Returned? && rag.value.PyDict?
                && "output_text" in rag.value.fields && rag.value.fields["output_text"] != ""))
  {
    assert RagOutOfScope[0] == Prefix0[0];
  }

  /**
   * The router's screen never catches the MySQL helper's own fallback: the
   * helper fills the message's field with the question, and the screen looks
   * for the unfilled `{user_question}`. Unless the question itself holds a
   * brace, the fallback is returned and cached, and the PDF helper is never
   * consulted.
   */
  lemma MysqlFallbackAccepted(question: string)
    requires '{' !in question
    ensures MysqlAccepted(LlmChain.Fallback(question))
  {
    var f := LlmChain.Fallback(question);
    var lit := RouterOutOfScope;
    FallbackPiecesPlain();
    assert '{' !in f;
    assert lit[|FallbackPrefix|] == '{';
    if Contains(f, lit) {
      ContainsChar(f, lit, |FallbackPrefix|);
      assert false;
    }
  }

  /**
   * The screen does catch the fallback for the literal question
   * `{user_question}`; by `MysqlFallbackAccepted`, it can catch it only for a
   * question that holds a brace.
   */
  lemma MysqlFallbackCaughtForPlaceholder()
    ensures !MysqlAccepted(LlmChain.Fallback("{user_question}"))
  {
    var f := LlmChain.Fallback("{user_question}");
    assert f == RouterOutOfScope;
    assert OccursAt(f, RouterOutOfScope, 0);
    ContainsAt(f, RouterOutOfScope);
  }

  /**
   * End to end with the MySQL helper: when the data is empty, and the
   * question has no brace, the router returns the helper's fallback and
   * caches it.
   */
  lemma EmptyDataFallbackCached(prompt: string, generated: Outcome<Option<string>>, personalizeLlm: Outcome<string>,
                                db: Outcome<Option<Handle>>, rag: Outcome<PyValue>)
    requires '{' !in prompt
    ensures var m := LlmChain.GetGeminiMysql(prompt, None, Returned(true), generated, personalizeLlm);
      m == Returned(LlmChain.Fallback(prompt))
      && Respond(None, None, m, db, rag) == Reply(LlmChain.Fallback(prompt), Some(LlmChain.Fallback(prompt)))
  {
    MysqlFallbackAccepted(prompt);
  }

  /**
   * The PDF helper returns a string, which the router subscripts as a
   * dictionary: any string it returns ends in the apology, uncached.
   */
  lemma RagStringGivesApology(mysql: string, h: Handle, text: string)
    requires !MysqlAccepted(mysql)
    ensures Respond(None, None, Returned(mysql), Returned(Some(h)), Returned(PyStr(text))) == Reply(Apology, None)
  {
  }

  /**
   * So whenever the MySQL answer is screened out and the store is loaded, the
   * RAG answer computed for the router's prompt never reaches the user.
   */
  lemma RagAnswerNeverReturned(mysql: string, h: Handle, store: LlmChain.VectorStore, contextPrompt: string,
                               pdfFile: Option<string>, searchHits: seq<LlmChain.Doc>, maxDocs: int, maxRetries: int,
                               invoke: (seq<LlmChain.Doc>, nat) -> Outcome<string>, personalizeLlm: Outcome<string>)
    requires !MysqlAccepted(mysql)
    ensures var rag := LlmChain.RagAnswer(store, contextPrompt, pdfFile, None, searchHits, maxDocs, maxRetries, invoke, personalizeLlm);
      Respond(None, None, Returned(mysql), Returned(Some(h)), Returned(PyStr(rag))) == Reply(Apology, None)
  {
  }

  /** If the helper returned a dictionary, an answer mentioning missing information would be replaced by the link-only message. */
  lemma RagNoInformationReplaced(mysql: string, h: Handle, fields: map<string, string>)
    requires !MysqlAccepted(mysql)
    requires "output_text" in fields && fields["output_text"] != ""
    requires SaysNoInformation(fields["output_text"])
    ensures Respond(None, None, Returned(mysql), Returned(Some(h)), Returned(PyDict(fields))) == Reply(RagOutOfScope, Some(RagOutOfScope))
  {
  }

  // ------------------------------------------------------------------
  // The module state
  // ------------------------------------------------------------------

  class QueryRouter {
    /** The module-level answer cache. */
    const cache: ResponseCache
    /** The global `vector_database`: `None` until a load succeeds. */
    var vectorDatabase: Option<Handle>

    constructor (cache: ResponseCache)
      ensures this.cache == cache && vectorDatabase == None
    {
      this.cache := cache;
      vectorDatabase := None;
    }

    /**
     * `load_vector_db_once`: load only while nothing is loaded, and keep the
     * first store that loads. `load` is what a call to the loader would give
     * (raised, or the first element of its result).
     */
    method LoadVectorDbOnce(load: Outcome<Option<Handle>>) returns (db: Outcome<Option<Handle>>)
      modifies this
      ensures db == DbOutcome(old(vectorDatabase), load)
      ensures old(vectorDatabase).Some? ==> vectorDatabase == old(vectorDatabase)
      ensures old(vectorDatabase).None? ==> vectorDatabase == (if load.Returned? then load.value else None)
      ensures db.Returned? ==> db.value == vectorDatabase
    {
      if vectorDatabase.None? {
        if load.Raised? {
          return Raised;
        }
        vectorDatabase := load.value;
      }
      return Returned(vectorDatabase);
    }

    /**
     * `process_query(prompt)`. The reply and the cache write are those of
     * `Respond`; the store is loaded only when the query gets that far, and a
     * loaded store is never replaced.
     */
    method ProcessQuery(prompt: string, smallTalk: Option<string>, mysql: Outcome<string>,
                        load: Outcome<Option<Handle>>, rag: Outcome<PyValue>, now: real)
      returns (reply: string)
      modifies this, cache
      ensures var r := Respond(Lookup(old(cache.entries), Key(prompt)), smallTalk, mysql,
                               DbOutcome(old(vectorDatabase), load), rag);
        reply == r.text
        && cache.entries == (if r.stored.Some? then [Entry(Key(prompt), prompt, r.stored.value, now, 0.0)] + old(cache.entries)
                             else old(cache.entries))
      ensures vectorDatabase ==
        if ReachesRag(Lookup(old(cache.entries), Key(prompt)), smallTalk, mysql) && old(vectorDatabase).None? && load.Returned?
        then load.value else old(vectorDatabase)
    {
      var cachedResult, cacheHit, timeSaved := cache.Get(prompt);
      if cacheHit {
        return cachedResult.value + CacheNote(timeSaved);
      }
      if smallTalk.Some? && smallTalk.value != "" {
        return smallTalk.value;
      }
      if mysql.Raised? {
        return Apology;
      }
      var mysqlResult := mysql.value;
      if mysqlResult != "" && !Contains(mysqlResult, RouterOutOfScope) {
        cache.Set(prompt, mysqlResult, 0.0, now);
        return mysqlResult;
      }
      reply := AskStore(prompt, load, rag, now);
    }

    /** Lines 31-51 of `process_query`: load the store once, ask the PDF helper, cache its answer. */
    method AskStore(prompt: string, load: Outcome<Option<Handle>>, rag: Outcome<PyValue>, now: real)
      returns (reply: string)
      modifies this, cache
      ensures var r := StoreReply(DbOutcome(old(vectorDatabase), load), rag);
        reply == r.text
        && cache.entries == (if r.stored.Some? then [Entry(Key(prompt), prompt, r.stored.value, now, 0.0)] + old(cache.entries)
                             else old(cache.entries))
      ensures vectorDatabase == if old(vectorDatabase).None? && load.Returned? then load.value else old(vectorDatabase)
    {
      var db := LoadVectorDbOnce(load);
      if db.Raised? || db.value.None? {
        return Apology;
      }
      if rag.Raised? || rag.value.PyStr? {
        return Apology;
      }
      var fields := rag.value.fields;
      if |fields| == 0 || "output_text" !in fields {
        return Apology;
      }
      var answer := fields["output_text"];
      if answer == "" {
        return NoAnswer;
      }
      var result := if SaysNoInformation(answer) then RagOutOfScope else answer;
      cache.Set(prompt, result, 0.0, now);
      return result;
    }
  }

  /**
   * Asking the same question twice: when the first reply was cached, the
   * second is that reply with the cache note, whatever the collaborators
   * would now say, and nothing more is cached.
   */
  method AskTwice(router: QueryRouter, prompt: string, smallTalk: Option<string>, mysql: Outcome<string>,
                  load: Outcome<Option<Handle>>, rag: Outcome<PyValue>, now: real,
                  smallTalk2: Option<string>, mysql2: Outcome<string>, load2: Outcome<Option<Handle>>,
                  rag2: Outcome<PyValue>, later: real)
    returns (first: string, second: string)
    modifies router, router.cache
    ensures Respond(Lookup(old(router.cache.entries), Key(prompt)), smallTalk, mysql,
                    DbOutcome(old(router.vectorDatabase), load), rag).stored.Some?
            ==> second == first + CacheNote(0.0)
                && |router.cache.entries| == |old(router.cache.entries)| + 1
  {
    first := router.ProcessQuery(prompt, smallTalk, mysql, load, rag, now);
    ghost var afterFirst := router.cache.entries;
    second := router.ProcessQuery(prompt, smallTalk2, mysql2, load2, rag2, later);
    if |afterFirst| > 0 && afterFirst[0].key == Key(prompt) && afterFirst[0].result == first && afterFirst[0].processingTime == 0.0 {
      assert Lookup(afterFirst, Key(prompt)) == Some(afterFirst[0]);
    }
  }
}
