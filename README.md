# A verified model of the HCMUTE consultant assistant's core

The HCMUTE consultant assistant answers students' questions. It works through a chain of stages:

- a process-wide answer cache;
- canned small talk;
- a Gemini prompt over the MySQL question-and-answer table;
- a retrieval-augmented Gemini prompt over a FAISS store built from a PDF.

It can also recommend similar questions by TF-IDF similarity. A one-off script, `convert.py`, cleans the old SQL Server questions and answers, loads them into MySQL and exports them as an SQL script.

This project models the decision logic of those pieces in Dafny and proves what the code promises about it. Every external service is an input of the model:

- the language model;
- the databases;
- the vector store;
- the similarity scores;
- the clock.

The modules:

- `Wrappers`: `Option`, and `Outcome` (`Raised` or `Returned(value)`). `Outcome` stands for a collaborator that may raise.
- `Strings`: the Python `str` operations the code relies on, with their lemmas. These are `lower`, `strip`, `in`, `replace`, `split` and slicing.
- `Sorting`: Python's stable `sorted` by a real key, proved to be a sorted permutation that keeps the order of equal keys.
- `Messages`: the fixed Vietnamese messages (the out-of-scope fallback and the apologies).
- `Cache` (`models/managers/cache.py`): class `ResponseCache` holding the entry list, with `Get` and `Set`.
- `SimilarQuestions` (`models/processors/similar_questions.py`): the top-N selection over a score vector.
- `LlmChain` (`models/processors/llm_chain.py`), covering:
  - the fallback message and the clean-up of answers;
  - the personalisation guard;
  - the document selection and the bounded retry loop of `get_gemini_rag`, as the method `GetGeminiRag`;
  - the guards of `get_gemini_mysql`;
  - the line parsing of `get_gemini_alternatives`.
- `QueryProcessor` (`models/processors/query_processor.py`): class `QueryRouter`.
  - Its fields are the cache and the lazily loaded global `vector_database`.
  - Its methods are `LoadVectorDbOnce`, `ProcessQuery` and `AskStore`.
  - The methods are proved against the routing function `Respond`.
- `Convert` and `Migration` (`convert.py`):
  - text clean-up and SQL quote doubling;
  - the planning part of `insert_into_mysql`, written as the source's loops (`DedupLoop`, `PairLoop`, `AnsweredLoop`, `AssignLoop`, `AnswerLoop`, `InsertIntoMysql`) and proved equal to spec functions. The spec functions' properties are proved as lemmas.

Two behaviours of the router are modelled exactly as written:

- **The unfilled placeholder.** The out-of-scope text the router screens for, at `query_processor.py:27`, contains the literal `{user_question}`. The MySQL helper's fallback fills that field with the question.
  - So the screen never catches the fallback of a question without a brace (`MysqlFallbackAccepted`). It does catch it for the literal question `{user_question}` (`MysqlFallbackCaughtForPlaceholder`).
  - For a prompt without a brace, the fallback is then returned and cached (`EmptyDataFallbackCached`).
- **The subscripted string.** `get_gemini_rag` returns a string, and `query_processor.py:41` subscripts it with `"output_text"`. That raises, so the router answers with the apology and caches nothing (`RagStringGivesApology`, `RagAnswerNeverReturned`).
  - The dictionary branch after it is modelled too (`RagNoInformationReplaced`). It is only reachable if the helper returned a dictionary.

## Model

| member | source | states |
|---|---|---|
| Cache.Lookup | models/managers/cache.py:8-11 | no entry found iff no entry has the key; otherwise the found entry has the key and no earlier entry does |
| Cache.KeyIgnoresCaseAndPadding | models/managers/cache.py:7 | queries differing only in letter case or surrounding whitespace get the same key |
| Cache.ResponseCache.Get | models/managers/cache.py:6-11 | hit iff some entry has the query's key; on a hit, the result and processing time of the first such entry; on a miss, `(None, False, 0)`; changes nothing |
| Cache.ResponseCache.Set | models/managers/cache.py:13-21 | the new entry is at index 0, every earlier entry follows in order, and the list grows by exactly one |
| Cache.LatestForIsLatest | models/managers/cache.py:15 | the chosen index is the last stored entry with the key, or no stored entry has it |
| Cache.LookupFindsLatest | models/managers/cache.py:8-15 | after any series of sets, a lookup finds the most recently set entry for the key, and the older list only when no set used the key |
| Cache.SetThenGet | models/managers/cache.py:6-21 | getting a query right after setting it returns the stored result, a hit, and the stored time |
| SimilarQuestions.Candidates | models/processors/similar_questions.py:12 | exactly the indices scoring above 0.1, in index order, each with its own score |
| SimilarQuestions.RankedSpec | models/processors/similar_questions.py:12-13 | the ranked list is a permutation of the candidates, with scores non-increasing and ties in ascending index order |
| SimilarQuestions.Recommend | models/processors/similar_questions.py:18-19 | a failure gives `([], [])` |
| SimilarQuestions.RecommendValid | models/processors/similar_questions.py:12-17 | both lists have the same length, at most `top_n`; every index is a valid, distinct position whose score is the returned score, and is above 0.1 |
| SimilarQuestions.RecommendOrdered | models/processors/similar_questions.py:13 | scores are non-increasing, and equal scores come in ascending index order |
| SimilarQuestions.RecommendComplete | models/processors/similar_questions.py:12-14 | an index scoring above 0.1 is left out only when `top_n` results were returned, and it scores no higher than any of them |
| Sorting.SortByKeySpec | models/processors/similar_questions.py:13 | the sort returns a permutation of its input, ordered by key |
| Sorting.SortByKeyStable | models/processors/similar_questions.py:13 | elements with equal keys keep their input order |
| Sorting.SortDistinctKeys | convert.py:192 | sorting keeps the keys distinct |
| LlmChain.FallbackFormats | models/processors/llm_chain.py:41-51 | formatting the template replaces `{question}` with the question and keeps the rest of the text |
| LlmChain.Fallback | models/processors/llm_chain.py:50-51 | the message is the fixed prefix, the question, then the fixed suffix |
| LlmChain.FixOverboldSplitsAtFirstComma | models/processors/llm_chain.py:60-64 | a stripped text `**X**` with a comma in X becomes `**` + the stripped part before the first comma + `,**` + newline + the stripped rest |
| LlmChain.FixOverboldOtherwiseUnchanged | models/processors/llm_chain.py:60-65 | any other text is returned unchanged |
| LlmChain.TightenGreetingSpacing | models/processors/llm_chain.py:67-68 | a text without the double-newline greeting is unchanged; each occurrence loses exactly one character |
| LlmChain.PersonalizeAnswer | models/processors/llm_chain.py:93-116 | without a truthy user context, or when the stage raises, the original answer; otherwise the stripped model reply, or the original when that is empty |
| LlmChain.PostProcessNonEmpty | models/processors/llm_chain.py:237 | post-processing a non-empty answer never gives an empty one |
| LlmChain.PostProcessKeepsFallback | models/processors/llm_chain.py:237 | for a question without `*` and no user context, post-processing leaves the fallback message as it is |
| LlmChain.CheckedAnswer | models/processors/llm_chain.py:234-236 | the fallback when the stripped answer is empty or mentions "không tìm thấy", and the stripped answer otherwise; never empty |
| LlmChain.DocsFromSource | models/processors/llm_chain.py:224 | the documents whose source equals the filter, in docstore order, as many as there are matching positions, so every match is kept |
| LlmChain.SelectDocsByFilter | models/processors/llm_chain.py:223-227 | with a filter: no selection iff no document matches; otherwise the first `MAX_DOCS` matching documents in docstore order (all of them when there are fewer) |
| LlmChain.FirstSuccess | models/processors/llm_chain.py:231-239 | the first attempt that returned, with every earlier attempt raising; none only if every attempt raised |
| LlmChain.GetGeminiRag | models/processors/llm_chain.py:210-240 | the retry loop returns the answer of `RagAnswer` and invokes the model as often as `RagCalls` says, never more than `MAX_RETRIES` times |
| LlmChain.RagNoMatchingDocs | models/processors/llm_chain.py:223-226 | when no document matches the filter, the fallback is returned and the model is never invoked |
| LlmChain.RagAllAttemptsRaise | models/processors/llm_chain.py:231-240 | when each of the `MAX_RETRIES` attempts on the selected documents raises, the result is the fallback for the cleaned question |
| LlmChain.RagNotFoundGivesFallback | models/processors/llm_chain.py:234-237 | for a question without `*` and no user context, an empty or "không tìm thấy" first answer gives the fallback |
| LlmChain.RagAnswerNonEmpty | models/processors/llm_chain.py:210-240 | `get_gemini_rag` never returns an empty string |
| LlmChain.MysqlFallbacks | models/processors/llm_chain.py:245-274 | for any question and context, an empty frame or a failed model call gives the fallback and a failed fetch propagates; with no context and no `*` in the question, an empty or "không tìm thấy" reply gives the fallback |
| LlmChain.NonBlankLines | models/processors/llm_chain.py:294 | the stripped non-blank lines in their original order, none empty, as many as there are non-blank lines |
| LlmChain.AlternativesSpec | models/processors/llm_chain.py:293-297 | the first five non-blank lines of the reply (all when fewer), each stripped, non-empty and without a newline, in order; `[]` when the call raises |
| QueryProcessor.Fixed2Zero | models/processors/query_processor.py:19 | a saved time of zero prints as `0.00` |
| QueryProcessor.RoutePrecedence | models/processors/query_processor.py:17-33 | a cache hit answers with the note; truthy small talk comes next; a raising MySQL helper gives the apology; an accepted MySQL answer is cached; a failed load gives the apology |
| QueryProcessor.StoredIsReply | models/processors/query_processor.py:17-54 | whatever is cached is exactly the reply returned and is non-empty; only an accepted MySQL answer or a non-empty dictionary answer over a loaded store is cached, so a cache hit, small talk, raises, a string reply and an empty answer cache nothing |
| QueryProcessor.MysqlFallbackAccepted | models/processors/query_processor.py:27 | the MySQL helper's fallback for a question without a brace passes the router's screen |
| QueryProcessor.MysqlFallbackCaughtForPlaceholder | models/processors/query_processor.py:27 | the screen does catch the fallback when the question is the literal `{user_question}`; with `MysqlFallbackAccepted`, a caught question must hold a brace |
| QueryProcessor.EmptyDataFallbackCached | models/processors/query_processor.py:26-29 | for a prompt without `{`, with empty MySQL data, the router returns and caches the helper's fallback |
| QueryProcessor.RagStringGivesApology | models/processors/query_processor.py:41-54 | any string from the PDF helper ends in the apology, uncached |
| QueryProcessor.RagAnswerNeverReturned | models/processors/query_processor.py:37-54 | the RAG answer for the router's prompt never reaches the user |
| QueryProcessor.RagNoInformationReplaced | models/processors/query_processor.py:45-51 | a dictionary answer mentioning missing information becomes the link-only message and is cached |
| QueryProcessor.QueryRouter.LoadVectorDbOnce | models/processors/query_processor.py:8-14 | a loaded store is kept and returned without loading; while none is loaded every call loads again |
| QueryProcessor.QueryRouter.ProcessQuery | models/processors/query_processor.py:16-54 | the reply and the cache write are those of `Respond`, and the store is loaded only when the query reaches the RAG stage |
| QueryProcessor.QueryRouter.AskStore | models/processors/query_processor.py:31-54 | the RAG stage: load once, ask, cache a usable answer with time zero |
| QueryProcessor.AskTwice | models/processors/query_processor.py:17-51 | once a reply is cached, asking again returns it with the cache note, and nothing more is cached |
| Convert.TruncateContent | convert.py:87-90 | a prefix of the content; unchanged when it is within the limit, otherwise exactly `max_length` long |
| Convert.CollapseWhitespaceSpec | convert.py:29 | after collapsing, no two whitespace characters are adjacent |
| Convert.CleanTextSpec | convert.py:24-36 | the cleaned text has no leading or trailing whitespace and no two adjacent whitespace characters |
| Convert.CleanTextTailIdempotent | convert.py:34-35 | applying the whitespace tail twice changes nothing more |
| Convert.HtmlToTextSpec | convert.py:38-55 | `None` gives the empty text, and the result never contains a newline |
| Convert.EscapeRoundTrip | convert.py:332-333 | un-doubling the quotes recovers the text, and every quote of the escaped text is paired |
| Convert.EscapeNoQuote | convert.py:332-333 | a text without quotes is written unchanged |
| Convert.SqlTextRoundTrip | convert.py:332-333 | un-doubling the quotes of a text column recovers the value, with every quote paired, or the column is the default when the value is missing or empty |
| Convert.SqlNullableTextRoundTrip | convert.py:335-338 | the nullable column is a quoted literal whose inside un-doubles to the value, with every quote paired, or `NULL` when the value is missing or empty |
| Migration.TitleOf | convert.py:130 | "Untitled" when the title is missing or empty, otherwise the cleaned title cut to its first 255 characters |
| Migration.DedupLoop | convert.py:119-136 | the question loop computes the kept records and the duplicate count of `DedupQuestions` |
| Migration.DedupNonBlank | convert.py:124-128 | kept questions have non-blank, pairwise distinct contents |
| Migration.DedupComplete | convert.py:119-136 | every non-blank content occurs among the kept questions |
| Migration.DedupKeepsFirst | convert.py:127-136 | each kept question is the first record with its content |
| Migration.DedupCount | convert.py:124-136 | kept plus duplicates equals the number of non-blank records |
| Migration.DedupDistinctOldIds | convert.py:119-134 | distinct source ids stay distinct among the kept questions |
| Migration.FindQuestionContent | convert.py:152-159 | the search finds a content iff some kept question has the answer's old id, and that content is non-empty |
| Migration.PairLoop | convert.py:143-167 | the answer loop computes the pairing of `PairAnswers` |
| Migration.PairComplete | convert.py:143-167 | only kept questions get an answer, and every usable answer's question gets one |
| Migration.PairKeepsFirst | convert.py:161-167 | each question's answer is the first usable answer referencing it |
| Migration.AnsweredLoop | convert.py:171-177 | the loop keeps the questions of `Answered` |
| Migration.AnsweredSpec | convert.py:171-177 | the kept questions are exactly the answered ones, in their order, with distinct ids kept distinct |
| Migration.AssignLoop | convert.py:194-219 | the insert loop computes `AssignIds` |
| Migration.AssignIdsSpec | convert.py:194-219 | the k-th insert gets new id k+1, and every mapped old id has an insert with that new id |
| Migration.AssignIdsOrdered | convert.py:192-219 | inserts come in ascending old id |
| Migration.AssignIdsAllSucceed | convert.py:194-216 | when every insert succeeds, the k-th question is inserted with new id k+1 |
| Migration.AssignIdsAllKeys | convert.py:194-216 | when every insert succeeds, each old id maps to its position plus one, in order |
| Migration.AnswerLoop | convert.py:232-251 | the answer insert loop computes `AnswerInserts` |
| Migration.AnswerInsertsSpec | convert.py:232-251 | every answer insert carries the answer of a mapped question under that question's new id |
| Migration.AnswerInsertsAll | convert.py:232-248 | when every answer insert succeeds, there is one per mapped question, in order |
| Migration.InsertIntoMysql | convert.py:92-256 | the planning loops compute `PlanMigration` |
| Migration.PlanQuestionInserts | convert.py:171-219 | inserted questions are kept, answered, numbered 1, 2, 3, ... and in ascending old id |
| Migration.PlanAnswerInserts | convert.py:232-251 | every inserted answer belongs to an inserted question and carries that question's new id |
| Migration.PlanAllSucceed | convert.py:171-248 | when every insert succeeds, the k-th answered question gets id k+1 and its first answer is inserted with id k+1 |

## Left out

- I/O is not modelled. The database connections, `cursor.execute`, file writes and Flask's `current_app` are replaced by inputs.
  - The fetched rows are sequences of records.
  - A failing INSERT is a position in the `failing` and `answerFailing` sets.
  - The MySQL fetch is whether its frame is empty, or `Raised`.
- Gemini, LangChain and `load_vector_database` are oracles: inputs that return a value or raise. The prompt templates are not modelled.
- `QueryProcessor.Respond` assumes `is_small_talk` returns, because its reply is the plain input `smallTalk`. In the source it runs before the `try` at `query_processor.py:25`, so a raise from it would escape `process_query`; the model does not capture that.
- `LlmChain.RagAnswer` assumes the model and chain construction and the similarity search return. They run before the retry `try` at `llm_chain.py:231`, and the search hits are the plain input `searchHits`. The model does not capture a raise from them; at the router such a raise would be one case of the `Raised` input `rag`.
- The TF-IDF vectorisation, the tokeniser and cosine similarity (floating point) are not modelled. The score vector is an input `seq<real>`, and a failure while computing it is `None`.
- md5 is modelled as the identity on the normalised query. It is an injective key function, so the model ignores hash collisions.
- `Strings.Lower` lower-cases ASCII, Latin-1 and the Vietnamese capitals only. Other characters are unchanged, unlike Python's full Unicode `lower`.
- `LlmChain.CleanQuestion`: modelled as `strip` only. The regex at `llm_chain.py:58` needs a literal backslash before `.pdf` and `s`, so it does not match ordinary prompts.
- The emoji removal and the regex passes of `clean_text` (lines 27-28, 30-33) and `html_to_text` (lines 43-52) are not modelled. They are opaque functions passed as parameters; only the whitespace and newline steps are modelled.
- The `str()` conversion of non-string values in `clean_text` and `html_to_text` is not modelled. The model takes text, or `None` for `html_to_text`.
- The configuration constants `MAX_DOCS`, `MAX_RETRIES`, `VECTOR_SEARCH_K` and `PDF_FILE` are parameters, because `config.py` is not part of this model.
- `time.sleep`, `time.time()` and elapsed-time measurement are not modelled. Timestamps are the parameter `now`.
- A FAISS store is modelled as an always-truthy `Handle`.
- `QueryProcessor.QueryRouter.ProcessQuery` does not model how the exception is raised. The string subscript at `query_processor.py:41` is shown to fail by typing the helper's reply as `PyValue`; the Python `TypeError` is not modelled.
- The `ALTER TABLE` and `DELETE` statements at the start of `insert_into_mysql`, and its progress prints and counters (`answer_count`), are not modelled.
- `Convert.SqlTextRoundTrip`: MySQL's backslash escapes are not modelled. The lemmas show only that un-doubling the quotes recovers the value. In MySQL's default mode a backslash inside a literal is an escape, and `convert.py:332-336` and `361-365` leave backslashes alone. So a value ending in a backslash, such as `C:\`, would not end its literal where intended, and `\n` would read back as a newline. `Convert.SqlNullableTextRoundTrip` and `Convert.EscapeRoundTrip` are subject to the same limit.
- `Migration.AssignIds`: the new ids are the script's own `new_id` counter (`convert.py:190`, `215-216`), not the ids MySQL assigns. A failed INSERT that still uses up an AUTO_INCREMENT value would make them drift apart; the model does not capture the database's ids.
- `export_mysql_data_to_json` and the rest of `export_data_to_sql` are not modelled; only the quote doubling is. The date formatting and the numeric columns are output formatting.
- Concurrency is not modelled: the code has no threads or locks. The module-level cache and store are modelled as one object each.
- `app.py`, `models/managers/json.py`, `mysql.py`, `pdf.py` and `vector_database.py` are not part of this model. They are web routes, I/O wrappers and embedding calls.
