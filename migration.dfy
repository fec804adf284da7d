/**
 * The planning inside `insert_into_mysql` of convert.py: which questions and
 * answers are copied to MySQL, and with which new ids. The database calls
 * are left out; what remains is the sequence of INSERTs the function issues,
 * given the source rows and which INSERTs raise.
 *
 * The dictionaries of the source keep insertion order; they are modelled as
 * a sequence of records with distinct keys (`unique_content_to_question`,
 * whose key is the record's content, and `content_to_id`, which holds the
 * same keys in the same order with the record's old id), as a map
 * (`question_to_answer`, only looked up), and as a map with the sequence of
 * its keys (`old_id_to_new_id`, which is iterated).
 */
module Migration {
  import opened Wrappers
  import opened Strings
  import opened Sorting
  import opened Convert

  /** A row of the SQL Server `Questions` table as the migration reads it: `ID`, `Title`, `Contents`, `Total_view`. */
  datatype QuestionRow = QuestionRow(id: int, title: Option<string>, contents: Option<string>, totalView: Option<int>)

  /** A row of `Answers` as the migration reads it: `ID`, `Contents`, `Ques_ID`. */
  datatype AnswerRow = AnswerRow(id: int, contents: Option<string>, quesId: Option<int>)

  /** The regex passes of `html_to_text` and `clean_text` that are not modelled. */
  datatype Passes = Passes(tags: string -> string, entities: string -> string, punctuation: string -> string)

  /** A value of `unique_content_to_question`. */
  datatype QuestionRecord = QuestionRecord(oldId: int, title: string, content: string, views: int)

  /** A value of `question_to_answer`. */
  datatype AnswerRecord = AnswerRecord(content: string, originalId: int)

  /** One successful question INSERT and the script's `new_id` counter at that point, used as its answer's `question_id`. */
  datatype QuestionInsert = QuestionInsert(newId: int, record: QuestionRecord)

  /** One answer INSERT: its text and the new id of its question. */
  datatype AnswerInsert = AnswerInsert(content: string, questionId: int)

  const ContentLimit: int := 3000
  const TitleLimit: int := 255

  /** `truncate_content(clean_text(html_to_text(contents)))`. */
  function ContentOf(contents: Option<string>, p: Passes): string {
    TruncateContent(CleanText(HtmlToText(contents, p.tags), p.entities, p.punctuation), ContentLimit)
  }

  /** The title: the cleaned source title cut to 255 characters, or "Untitled" when it is missing or empty. */
  function TitleOf(title: Option<string>, p: Passes): (r: string)
    ensures (title.None? || title == Some("")) ==> r == "Untitled"
    ensures title.Some? && title.value != "" ==> |r| <= TitleLimit
    ensures title.Some? && title.value != "" ==>
      var cleaned := CleanText(title.value, p.entities, p.punctuation);
      |r| == (if |cleaned| < TitleLimit then |cleaned| else TitleLimit) && r == cleaned[..|r|]
  {
    if title.Some? && title.value != "" then TruncateContent(CleanText(title.value, p.entities, p.punctuation), TitleLimit)
    else "Untitled"
  }

  function RecordOf(q: QuestionRow, p: Passes): QuestionRecord {
    QuestionRecord(q.id, TitleOf(q.title, p), ContentOf(q.contents, p),
                   if q.totalView.Some? then q.totalView.value else 0)
  }

  predicate Blank(s: string) {
    Strip(s) == ""
  }

  predicate HasContent(unique: seq<QuestionRecord>, c: string) {
    exists k :: 0 <= k < |unique| && unique[k].content == c
  }

  predicate HasOldId(unique: seq<QuestionRecord>, id: int) {
    exists k :: 0 <= k < |unique| && unique[k].oldId == id
  }

  // ------------------------------------------------------------------
  // The loops, as functions of the rows read so far
  // ------------------------------------------------------------------

  datatype Dedup = Dedup(unique: seq<QuestionRecord>, duplicates: nat)

  /** The record each source row would be stored as. */
  function Records(questions: seq<QuestionRow>, p: Passes): seq<QuestionRecord> {
    seq(|questions|, i requires 0 <= i < |questions| => RecordOf(questions[i], p))
  }

  /** The question loop (lines 119-136) after the records `records`. */
  function DedupRecords(records: seq<QuestionRecord>): Dedup
    decreases |records|
  {
    if records == [] then Dedup([], 0)
    else
      var d := DedupRecords(records[..|records| - 1]);
      var r := records[|records| - 1];
      if Blank(r.content) then d
      else if HasContent(d.unique, r.content) then Dedup(d.unique, d.duplicates + 1)
      else Dedup(d.unique + [r], d.duplicates)
  }

  function DedupQuestions(questions: seq<QuestionRow>, p: Passes): Dedup {
    DedupRecords(Records(questions, p))
  }

  datatype Pairing = Pairing(answerFor: map<int, AnswerRecord>, duplicates: nat)

  /** An answer row with its cleaned content. */
  datatype CleanedAnswer = CleanedAnswer(id: int, content: string, quesId: Option<int>)

  function CleanedAnswers(answers: seq<AnswerRow>, p: Passes): seq<CleanedAnswer> {
    seq(|answers|, i requires 0 <= i < |answers| => CleanedAnswer(answers[i].id, ContentOf(answers[i].contents, p), answers[i].quesId))
  }

  /** An answer the loop can pair: its content is not blank and it names a kept question. */
  predicate Usable(a: CleanedAnswer, unique: seq<QuestionRecord>) {
    !Blank(a.content) && a.quesId.Some? && HasOldId(unique, a.quesId.value)
  }

  /** The answer loop (lines 143-167) after the rows `answers`. */
  function PairAnswers(answers: seq<CleanedAnswer>, unique: seq<QuestionRecord>): Pairing
    decreases |answers|
  {
    if answers == [] then Pairing(map[], 0)
    else
      var d := PairAnswers(answers[..|answers| - 1], unique);
      var a := answers[|answers| - 1];
      if !Usable(a, unique) then d
      else if a.quesId.value in d.answerFor then Pairing(d.answerFor, d.duplicates + 1)
      else Pairing(d.answerFor[a.quesId.value := AnswerRecord(a.content, a.id)], d.duplicates)
  }

  /** `valid_questions` (lines 171-177): the kept questions that have an answer, in their order. */
  function Answered(unique: seq<QuestionRecord>, answerFor: map<int, AnswerRecord>): seq<QuestionRecord>
    decreases |unique|
  {
    if unique == [] then []
    else
      var prev := Answered(unique[..|unique| - 1], answerFor);
      if unique[|unique| - 1].oldId in answerFor then prev + [unique[|unique| - 1]] else prev
  }

  /** The sort key of `valid_questions.sort(key=lambda q: q["old_id"])`. */
  function OldIdKey(q: QuestionRecord): real {
    q.oldId as real
  }

  /** `old_id_to_new_id` with its keys in insertion order, the inserts made, and the next `new_id`. */
  datatype Insertion = Insertion(inserted: seq<QuestionInsert>, newIdOf: map<int, int>, order: seq<int>, nextId: int)

  /** The question INSERT loop (lines 194-219); the attempt at position `n` raises when `n` is in `failing`. */
  function AssignIds(sorted: seq<QuestionRecord>, failing: set<nat>): (r: Insertion)
    ensures forall o :: o in r.order ==> o in r.newIdOf
    decreases |sorted|
  {
    if sorted == [] then Insertion([], map[], [], 1)
    else
      var d := AssignIds(sorted[..|sorted| - 1], failing);
      var q := sorted[|sorted| - 1];
      if |sorted| - 1 in failing then d
      else Insertion(d.inserted + [QuestionInsert(d.nextId, q)], d.newIdOf[q.oldId := d.nextId],
                     if q.oldId in d.newIdOf then d.order else d.order + [q.oldId], d.nextId + 1)
  }

  /** The answer INSERT loop (lines 232-251) over the items `order` of `old_id_to_new_id`. */
  function AnswerInserts(order: seq<int>, newIdOf: map<int, int>, answerFor: map<int, AnswerRecord>,
                         answerFailing: set<nat>): seq<AnswerInsert>
    requires forall o :: o in order ==> o in newIdOf
    decreases |order|
  {
    if order == [] then []
    else
      var prev := AnswerInserts(order[..|order| - 1], newIdOf, answerFor, answerFailing);
      var o := order[|order| - 1];
      if o in answerFor && |order| - 1 !in answerFailing then prev + [AnswerInsert(answerFor[o].content, newIdOf[o])]
      else prev
  }

  /** What `insert_into_mysql` does to MySQL, and the counts it reports. */
  datatype Plan = Plan(questionInserts: seq<QuestionInsert>, answerInserts: seq<AnswerInsert>,
                       duplicateCount: nat, duplicateAnswerCount: nat)

  lemma {:induction false} AssignIdsKeys(sorted: seq<QuestionRecord>, failing: set<nat>)
    ensures var ins := AssignIds(sorted, failing);
      (forall o :: o in ins.order <==> o in ins.newIdOf)
      && (forall k, m :: 0 <= k < m < |ins.order| ==> ins.order[k] != ins.order[m])
      && ins.nextId == |ins.inserted| + 1
    decreases |sorted|
  {
    if sorted != [] {
      AssignIdsKeys(sorted[..|sorted| - 1], failing);
    }
  }

  /** `question_to_answer` after both loops. */
  function AnswerMap(questions: seq<QuestionRow>, answers: seq<AnswerRow>, p: Passes): map<int, AnswerRecord> {
    PairAnswers(CleanedAnswers(answers, p), DedupQuestions(questions, p).unique).answerFor
  }

  /** `valid_questions` after its sort by old id. */
  function SortedValid(questions: seq<QuestionRow>, answers: seq<AnswerRow>, p: Passes): seq<QuestionRecord> {
    SortByKey(Answered(DedupQuestions(questions, p).unique, AnswerMap(questions, answers, p)), OldIdKey)
  }

  function PlanMigration(questions: seq<QuestionRow>, answers: seq<AnswerRow>, p: Passes,
                         failing: set<nat>, answerFailing: set<nat>): Plan
  {
    var ins := AssignIds(SortedValid(questions, answers, p), failing);
    Plan(ins.inserted, AnswerInserts(ins.order, ins.newIdOf, AnswerMap(questions, answers, p), answerFailing),
         DedupQuestions(questions, p).duplicates,
         PairAnswers(CleanedAnswers(answers, p), DedupQuestions(questions, p).unique).duplicates)
  }

  // ------------------------------------------------------------------
  // The function itself
  // ------------------------------------------------------------------

  /** The question loop (lines 119-136). */
  method DedupLoop(questions: seq<QuestionRow>, p: Passes) returns (unique: seq<QuestionRecord>, duplicateCount: nat)
    ensures Dedup(unique, duplicateCount) == DedupQuestions(questions, p)
  {
    unique := [];
    duplicateCount := 0;
    var i := 0;
    while i < |questions|
      invariant 0 <= i <= |questions|
      invariant DedupRecords(Records(questions, p)[..i]) == Dedup(unique, duplicateCount)
    {
      var q := questions[i];
      var content := ContentOf(q.contents, p);
      assert Records(questions, p)[..i + 1][..i] == Records(questions, p)[..i];
      if !Blank(content) {
        if !HasContent(unique, content) {
          unique := unique + [QuestionRecord(q.id, TitleOf(q.title, p), content,
                                             if q.totalView.Some? then q.totalView.value else 0)];
        } else {
          duplicateCount := duplicateCount + 1;
        }
      }
      i := i + 1;
    }
    assert Records(questions, p)[..i] == Records(questions, p);
  }

  /** The inner search of `content_to_id` (lines 152-156) for the question an answer points to. */
  method FindQuestionContent(unique: seq<QuestionRecord>, quesId: Option<int>) returns (questionContent: Option<string>)
    requires NonBlankContents(unique)
    ensures questionContent.Some? <==> quesId.Some? && HasOldId(unique, quesId.value)
    ensures questionContent.Some? ==> questionContent.value != ""
  {
    questionContent := None;
    var k := 0;
    while k < |unique|
      invariant 0 <= k <= |unique|
      invariant forall m :: 0 <= m < k ==> quesId != Some(unique[m].oldId)
    {
      if quesId == Some(unique[k].oldId) {
        return Some(unique[k].content);
      }
      k := k + 1;
    }
  }

  /** The answer loop (lines 143-167). */
  method PairLoop(answers: seq<AnswerRow>, unique: seq<QuestionRecord>, p: Passes)
    returns (answerFor: map<int, AnswerRecord>, duplicateAnswerCount: nat)
    requires NonBlankContents(unique)
    ensures Pairing(answerFor, duplicateAnswerCount) == PairAnswers(CleanedAnswers(answers, p), unique)
  {
    answerFor := map[];
    duplicateAnswerCount := 0;
    var j := 0;
    while j < |answers|
      invariant 0 <= j <= |answers|
      invariant PairAnswers(CleanedAnswers(answers, p)[..j], unique) == Pairing(answerFor, duplicateAnswerCount)
    {
      var a := answers[j];
      var content := ContentOf(a.contents, p);
      assert CleanedAnswers(answers, p)[..j + 1][..j] == CleanedAnswers(answers, p)[..j];
      if !Blank(content) {
        var questionContent := FindQuestionContent(unique, a.quesId);
        if questionContent.Some? && questionContent.value != "" {
          var oldQuestionId := a.quesId.value;
          if oldQuestionId !in answerFor {
            answerFor := answerFor[oldQuestionId := AnswerRecord(content, a.id)];
          } else {
            duplicateAnswerCount := duplicateAnswerCount + 1;
          }
        }
      }
      j := j + 1;
    }
    assert CleanedAnswers(answers, p)[..j] == CleanedAnswers(answers, p);
  }

  /** `valid_questions` (lines 171-177). */
  method AnsweredLoop(unique: seq<QuestionRecord>, answerFor: map<int, AnswerRecord>) returns (valid: seq<QuestionRecord>)
    ensures valid == Answered(unique, answerFor)
  {
    valid := [];
    var v := 0;
    while v < |unique|
      invariant 0 <= v <= |unique|
      invariant valid == Answered(unique[..v], answerFor)
    {
      assert unique[..v + 1][..v] == unique[..v];
      if unique[v].oldId in answerFor {
        valid := valid + [unique[v]];
      }
      v := v + 1;
    }
    assert unique[..v] == unique;
  }

  /** The question INSERT loop (lines 194-219). */
  method AssignLoop(sorted: seq<QuestionRecord>, failing: set<nat>) returns (ins: Insertion)
    ensures ins == AssignIds(sorted, failing)
  {
    var newIdOf: map<int, int> := map[];
    var order: seq<int> := [];
    var inserted: seq<QuestionInsert> := [];
    var newId := 1;
    var n := 0;
    while n < |sorted|
      invariant 0 <= n <= |sorted|
      invariant AssignIds(sorted[..n], failing) == Insertion(inserted, newIdOf, order, newId)
    {
      var q := sorted[n];
      assert sorted[..n + 1][..n] == sorted[..n];
      if n !in failing {
        inserted := inserted + [QuestionInsert(newId, q)];
        if q.oldId !in newIdOf {
          order := order + [q.oldId];
        }
        newIdOf := newIdOf[q.oldId := newId];
        newId := newId + 1;
      }
      n := n + 1;
    }
    assert sorted[..n] == sorted;
    ins := Insertion(inserted, newIdOf, order, newId);
  }

  /** The answer INSERT loop (lines 232-251). */
  method AnswerLoop(order: seq<int>, newIdOf: map<int, int>, answerFor: map<int, AnswerRecord>, answerFailing: set<nat>)
    returns (answerInserts: seq<AnswerInsert>)
    requires forall o :: o in order ==> o in newIdOf
    ensures answerInserts == AnswerInserts(order, newIdOf, answerFor, answerFailing)
  {
    answerInserts := [];
    var t := 0;
    while t < |order|
      invariant 0 <= t <= |order|
      invariant answerInserts == AnswerInserts(order[..t], newIdOf, answerFor, answerFailing)
    {
      var o := order[t];
      assert order[..t + 1][..t] == order[..t];
      if o in answerFor && t !in answerFailing {
        answerInserts := answerInserts + [AnswerInsert(answerFor[o].content, newIdOf[o])];
      }
      t := t + 1;
    }
    assert order[..t] == order;
  }

  /**
   * `insert_into_mysql(questions, answers)`: the INSERTs it issues and the
   * counts it prints. `failing` and `answerFailing` are the positions of the
   * question and answer INSERTs that raise.
   */
  method InsertIntoMysql(questions: seq<QuestionRow>, answers: seq<AnswerRow>, p: Passes,
                         failing: set<nat>, answerFailing: set<nat>)
    returns (plan: Plan)
    ensures plan == PlanMigration(questions, answers, p, failing, answerFailing)
  {
    var unique, duplicateCount := DedupLoop(questions, p);
    DedupNonBlank(Records(questions, p));
    var answerFor, duplicateAnswerCount := PairLoop(answers, unique, p);
    var valid := AnsweredLoop(unique, answerFor);
    var sorted := SortByKey(valid, OldIdKey);
    var ins := AssignLoop(sorted, failing);
    AssignIdsKeys(sorted, failing);
    var answerInserts := AnswerLoop(ins.order, ins.newIdOf, answerFor, answerFailing);
    plan := Plan(ins.inserted, answerInserts, duplicateCount, duplicateAnswerCount);
  }

  // ------------------------------------------------------------------
  // Properties
  // ------------------------------------------------------------------

  /** Every record has non-blank content. */
  predicate NonBlankContents(u: seq<QuestionRecord>) {
    forall k :: 0 <= k < |u| ==> !Blank(u[k].content) && u[k].content != ""
  }

  /** No two records share their content: the content is the dictionary's key. */
  predicate DistinctContents(u: seq<QuestionRecord>) {
    forall k, m :: 0 <= k < m < |u| ==> u[k].content != u[m].content
  }

  /** Every kept record has non-blank content, and no two share it. */
  lemma {:induction false} DedupNonBlank(records: seq<QuestionRecord>)
    ensures NonBlankContents(DedupRecords(records).unique)
    ensures DistinctContents(DedupRecords(records).unique)
    decreases |records|
  {
    if records != [] {
      var init := records[..|records| - 1];
      DedupNonBlank(init);
      var u := DedupRecords(init).unique;
      var r := records[|records| - 1];
      if !Blank(r.content) && !HasContent(u, r.content) {
        assert r.content != "";
        var u2 := u + [r];
        assert DedupRecords(records).unique == u2;
        forall k, m | 0 <= k < m < |u2|
          ensures u2[k].content != u2[m].content
        {
          if m < |u| {
            assert u2[k] == u[k] && u2[m] == u[m];
          } else {
            assert u2[k] == u[k] && u2[m] == r;
          }
        }
      }
    }
  }

  lemma HasContentSnoc(u: seq<QuestionRecord>, r: QuestionRecord, c: string)
    requires HasContent(u, c) || r.content == c
    ensures HasContent(u + [r], c)
  {
    if HasContent(u, c) {
      var k :| 0 <= k < |u| && u[k].content == c;
      assert (u + [r])[k] == u[k];
    } else {
      assert (u + [r])[|u|] == r;
    }
  }

  /** Every record with non-blank content has its content among the kept records. */
  lemma {:induction false} DedupComplete(records: seq<QuestionRecord>)
    ensures forall i :: 0 <= i < |records| && !Blank(records[i].content) ==>
      HasContent(DedupRecords(records).unique, records[i].content)
    decreases |records|
  {
    if records != [] {
      var n := |records| - 1;
      var init := records[..n];
      DedupComplete(init);
      var u := DedupRecords(init).unique;
      var u2 := DedupRecords(records).unique;
      var r := records[n];
      assert u2 == u || u2 == u + [r];
      forall i | 0 <= i < |records| && !Blank(records[i].content)
        ensures HasContent(u2, records[i].content)
      {
        if i < n {
          assert init[i] == records[i];
        }
        if u2 != u {
          HasContentSnoc(u, r, records[i].content);
        }
      }
    }
  }

  /** `r` is the first record with its content. */
  predicate FirstWithContent(records: seq<QuestionRecord>, r: QuestionRecord) {
    exists i :: 0 <= i < |records| && records[i] == r
      && forall j :: 0 <= j < i ==> records[j].content != r.content
  }

  /** Dedup keeps the first occurrence: every kept record is the first with its content. */
  lemma {:induction false} DedupKeepsFirst(records: seq<QuestionRecord>)
    ensures forall k :: 0 <= k < |DedupRecords(records).unique| ==>
      FirstWithContent(records, DedupRecords(records).unique[k])
    decreases |records|
  {
    if records != [] {
      var n := |records| - 1;
      var init := records[..n];
      DedupKeepsFirst(init);
      DedupComplete(init);
      var u := DedupRecords(init).unique;
      var u2 := DedupRecords(records).unique;
      var r := records[n];
      assert u2 == u || (u2 == u + [r] && !HasContent(u, r.content) && !Blank(r.content));
      forall k | 0 <= k < |u2|
        ensures FirstWithContent(records, u2[k])
      {
        if k < |u| {
          assert u2[k] == u[k];
          var i :| 0 <= i < |init| && init[i] == u[k]
            && forall j :: 0 <= j < i ==> init[j].content != u[k].content;
          assert records[i] == init[i];
          assert forall j :: 0 <= j < i ==> records[j] == init[j];
        } else {
          assert u2[k] == r;
          forall j | 0 <= j < n
            ensures records[j].content != r.content
          {
            assert records[j] == init[j];
          }
        }
      }
    }
  }

  /** The records whose content is not blank. */
  function NonBlankCount(records: seq<QuestionRecord>): nat
    decreases |records|
  {
    if records == [] then 0
    else NonBlankCount(records[..|records| - 1]) + (if Blank(records[|records| - 1].content) then 0 else 1)
  }

  /** Each non-blank record is either kept or counted as a duplicate. */
  lemma {:induction false} DedupCount(records: seq<QuestionRecord>)
    ensures |DedupRecords(records).unique| + DedupRecords(records).duplicates == NonBlankCount(records)
    decreases |records|
  {
    if records != [] {
      DedupCount(records[..|records| - 1]);
    }
  }

  /** The source table's `ID` is its primary key. */
  predicate DistinctIds(questions: seq<QuestionRow>) {
    forall i, j :: 0 <= i < j < |questions| ==> questions[i].id != questions[j].id
  }

  /** With distinct source ids, the kept records have distinct old ids. */
  lemma DedupDistinctOldIds(questions: seq<QuestionRow>, p: Passes)
    requires DistinctIds(questions)
    ensures DistinctKeys(DedupQuestions(questions, p).unique, OldIdKey)
  {
    var records := Records(questions, p);
    var u := DedupRecords(records).unique;
    DedupKeepsFirst(records);
    DedupNonBlank(records);
    forall k, m | 0 <= k < m < |u|
      ensures OldIdKey(u[k]) != OldIdKey(u[m])
    {
      assert FirstWithContent(records, u[k]) && FirstWithContent(records, u[m]);
      var i :| 0 <= i < |records| && records[i] == u[k];
      var j :| 0 <= j < |records| && records[j] == u[m];
      assert u[k].content != u[m].content;
      assert i != j;
      assert u[k].oldId == questions[i].id && u[m].oldId == questions[j].id;
    }
  }

  /**
   * Answers to unknown or dropped questions are discarded, and every usable
   * answer leaves its question paired.
   */
  lemma {:induction false} PairComplete(answers: seq<CleanedAnswer>, unique: seq<QuestionRecord>)
    ensures forall o :: o in PairAnswers(answers, unique).answerFor ==> HasOldId(unique, o)
    ensures forall i :: 0 <= i < |answers| && Usable(answers[i], unique) ==>
      answers[i].quesId.value in PairAnswers(answers, unique).answerFor
    decreases |answers|
  {
    if answers != [] {
      var n := |answers| - 1;
      var init := answers[..n];
      PairComplete(init, unique);
      forall i | 0 <= i < n
        ensures answers[i] == init[i]
      {
      }
    }
  }

  /** `rec` is the pairing of the first usable answer to question `o`. */
  predicate FirstAnswer(answers: seq<CleanedAnswer>, unique: seq<QuestionRecord>, o: int, rec: AnswerRecord) {
    exists i :: 0 <= i < |answers| && Usable(answers[i], unique) && answers[i].quesId == Some(o)
      && rec == AnswerRecord(answers[i].content, answers[i].id)
      && forall j :: 0 <= j < i ==> !(Usable(answers[j], unique) && answers[j].quesId == Some(o))
  }

  /** A pairing made before the last answer stays the first answer once it is read. */
  lemma FirstAnswerExtends(answers: seq<CleanedAnswer>, unique: seq<QuestionRecord>, o: int, rec: AnswerRecord)
    requires answers != []
    requires FirstAnswer(answers[..|answers| - 1], unique, o, rec)
    ensures FirstAnswer(answers, unique, o, rec)
  {
    var init := answers[..|answers| - 1];
    var i :| 0 <= i < |init| && Usable(init[i], unique) && init[i].quesId == Some(o)
      && rec == AnswerRecord(init[i].content, init[i].id)
      && forall j :: 0 <= j < i ==> !(Usable(init[j], unique) && init[j].quesId == Some(o));
    assert answers[i] == init[i];
    assert forall j :: 0 <= j < i ==> answers[j] == init[j];
  }

  /** The last answer is the first usable one to `o` when no earlier answer paired `o`. */
  lemma FirstAnswerLast(answers: seq<CleanedAnswer>, unique: seq<QuestionRecord>, o: int)
    requires answers != []
    requires Usable(answers[|answers| - 1], unique) && answers[|answers| - 1].quesId == Some(o)
    requires o !in PairAnswers(answers[..|answers| - 1], unique).answerFor
    ensures FirstAnswer(answers, unique, o,
                        AnswerRecord(answers[|answers| - 1].content, answers[|answers| - 1].id))
  {
    var n := |answers| - 1;
    var init := answers[..n];
    PairComplete(init, unique);
    forall j | 0 <= j < n
      ensures !(Usable(answers[j], unique) && answers[j].quesId == Some(o))
    {
      assert answers[j] == init[j];
    }
  }

  /** One answer per question, the first one seen. */
  lemma {:induction false} PairKeepsFirst(answers: seq<CleanedAnswer>, unique: seq<QuestionRecord>)
    ensures forall o :: o in PairAnswers(answers, unique).answerFor ==>
      FirstAnswer(answers, unique, o, PairAnswers(answers, unique).answerFor[o])
    decreases |answers|
  {
    if answers != [] {
      var n := |answers| - 1;
      var init := answers[..n];
      PairKeepsFirst(init, unique);
      var af := PairAnswers(init, unique).answerFor;
      var af2 := PairAnswers(answers, unique).answerFor;
      forall o | o in af2
        ensures FirstAnswer(answers, unique, o, af2[o])
      {
        if o in af {
          assert af2[o] == af[o];
          FirstAnswerExtends(answers, unique, o, af[o]);
        } else {
          FirstAnswerLast(answers, unique, o);
        }
      }
    }
  }

  /**
   * `valid_questions` keeps exactly the kept records whose old id has an
   * answer, in their order, and keeps distinct old ids distinct.
   */
  lemma {:induction false} AnsweredSpec(unique: seq<QuestionRecord>, answerFor: map<int, AnswerRecord>)
    ensures forall q :: q in Answered(unique, answerFor) <==> q in unique && q.oldId in answerFor
    ensures IsSubsequence(Answered(unique, answerFor), unique)
    ensures DistinctKeys(unique, OldIdKey) ==> DistinctKeys(Answered(unique, answerFor), OldIdKey)
    decreases |unique|
  {
    if unique != [] {
      var n := |unique| - 1;
      var init := unique[..n];
      var prev := Answered(init, answerFor);
      AnsweredSpec(init, answerFor);
      SubsequenceSnoc(prev, init, unique[n]);
      assert init + [unique[n]] == unique;
      if DistinctKeys(unique, OldIdKey) && unique[n].oldId in answerFor {
        assert DistinctKeys(init, OldIdKey);
        var v := prev + [unique[n]];
        forall k | 0 <= k < |prev|
          ensures OldIdKey(prev[k]) != OldIdKey(unique[n])
        {
          assert prev[k] in init;
          var m :| 0 <= m < n && init[m] == prev[k];
          assert unique[m] == init[m];
        }
        assert forall k :: 0 <= k < |prev| ==> v[k] == prev[k];
      }
    }
  }

  /**
   * New ids are consecutive from 1 in insert order, every inserted record
   * comes from the sorted list, and `old_id_to_new_id` maps an old id to the
   * new id of an insert of that question.
   */
  lemma {:induction false} AssignIdsSpec(sorted: seq<QuestionRecord>, failing: set<nat>)
    ensures forall k :: 0 <= k < |AssignIds(sorted, failing).inserted| ==>
      AssignIds(sorted, failing).inserted[k].newId == k + 1 && AssignIds(sorted, failing).inserted[k].record in sorted
    ensures forall o :: o in AssignIds(sorted, failing).newIdOf ==>
      (exists k :: 0 <= k < |AssignIds(sorted, failing).inserted|
        && AssignIds(sorted, failing).inserted[k].record.oldId == o
        && AssignIds(sorted, failing).inserted[k].newId == AssignIds(sorted, failing).newIdOf[o])
    decreases |sorted|
  {
    if sorted != [] {
      var n := |sorted| - 1;
      AssignIdsSpec(sorted[..n], failing);
      AssignIdsKeys(sorted[..n], failing);
      var d := AssignIds(sorted[..n], failing);
      var ins := AssignIds(sorted, failing);
      assert forall q :: q in sorted[..n] ==> q in sorted;
      if n !in failing {
        assert ins.inserted == d.inserted + [QuestionInsert(d.nextId, sorted[n])];
        forall o | o in ins.newIdOf
          ensures exists k :: 0 <= k < |ins.inserted| && ins.inserted[k].record.oldId == o && ins.inserted[k].newId == ins.newIdOf[o]
        {
          if o == sorted[n].oldId {
            assert ins.inserted[n - (n - |d.inserted|)].record.oldId == o;
          } else {
            var k :| 0 <= k < |d.inserted| && d.inserted[k].record.oldId == o && d.inserted[k].newId == d.newIdOf[o];
            assert ins.inserted[k] == d.inserted[k];
          }
        }
      }
    }
  }

  /** Over a list sorted by old id, the inserts are in ascending old id. */
  lemma {:induction false} AssignIdsOrdered(sorted: seq<QuestionRecord>, failing: set<nat>)
    requires SortedByKey(sorted, OldIdKey)
    ensures forall k, m :: 0 <= k < m < |AssignIds(sorted, failing).inserted| ==>
      AssignIds(sorted, failing).inserted[k].record.oldId <= AssignIds(sorted, failing).inserted[m].record.oldId
    decreases |sorted|
  {
    if sorted != [] {
      var n := |sorted| - 1;
      assert SortedByKey(sorted[..n], OldIdKey);
      AssignIdsOrdered(sorted[..n], failing);
      AssignIdsSpec(sorted[..n], failing);
      var d := AssignIds(sorted[..n], failing);
      forall k | 0 <= k < |d.inserted|
        ensures d.inserted[k].record.oldId <= sorted[n].oldId
      {
        var m :| 0 <= m < n && sorted[..n][m] == d.inserted[k].record;
        assert OldIdKey(sorted[m]) <= OldIdKey(sorted[n]);
      }
    }
  }

  /** When no INSERT raises, every sorted record is inserted, the k-th with new id k + 1. */
  lemma {:induction false} AssignIdsAllSucceed(sorted: seq<QuestionRecord>)
    ensures |AssignIds(sorted, {}).inserted| == |sorted|
    ensures forall k :: 0 <= k < |sorted| ==> AssignIds(sorted, {}).inserted[k] == QuestionInsert(k + 1, sorted[k])
    decreases |sorted|
  {
    if sorted != [] {
      var n := |sorted| - 1;
      AssignIdsAllSucceed(sorted[..n]);
      AssignIdsKeys(sorted[..n], {});
      assert forall k :: 0 <= k < n ==> sorted[..n][k] == sorted[k];
    }
  }

  /** ... and with distinct old ids, `old_id_to_new_id` lists each old id in order, mapped to k + 1. */
  lemma {:induction false} AssignIdsAllKeys(sorted: seq<QuestionRecord>)
    requires DistinctKeys(sorted, OldIdKey)
    ensures |AssignIds(sorted, {}).order| == |sorted|
    ensures forall k :: 0 <= k < |sorted| ==>
      AssignIds(sorted, {}).order[k] == sorted[k].oldId && sorted[k].oldId in AssignIds(sorted, {}).newIdOf
      && AssignIds(sorted, {}).newIdOf[sorted[k].oldId] == k + 1
    decreases |sorted|
  {
    if sorted != [] {
      var n := |sorted| - 1;
      assert DistinctKeys(sorted[..n], OldIdKey);
      AssignIdsAllKeys(sorted[..n]);
      AssignIdsAllSucceed(sorted[..n]);
      AssignIdsKeys(sorted[..n], {});
      var d := AssignIds(sorted[..n], {});
      assert forall k :: 0 <= k < n ==> sorted[..n][k] == sorted[k];
      assert sorted[n].oldId !in d.newIdOf;
      assert AssignIds(sorted, {}).order == d.order + [sorted[n].oldId];
    }
  }

  /** `ins` carries the answer paired with some old id among `order`, and that question's new id. */
  predicate Linked(ins: AnswerInsert, order: seq<int>, newIdOf: map<int, int>, answerFor: map<int, AnswerRecord>) {
    exists o :: o in order && o in answerFor && o in newIdOf && ins == AnswerInsert(answerFor[o].content, newIdOf[o])
  }

  /**
   * Every answer INSERT carries the answer paired with some old id in
   * `old_id_to_new_id`, and that question's new id.
   */
  lemma {:induction false} AnswerInsertsSpec(order: seq<int>, newIdOf: map<int, int>, answerFor: map<int, AnswerRecord>,
                                             answerFailing: set<nat>)
    requires forall o :: o in order ==> o in newIdOf
    ensures forall t :: 0 <= t < |AnswerInserts(order, newIdOf, answerFor, answerFailing)| ==>
      Linked(AnswerInserts(order, newIdOf, answerFor, answerFailing)[t], order, newIdOf, answerFor)
    decreases |order|
  {
    if order != [] {
      var n := |order| - 1;
      AnswerInsertsSpec(order[..n], newIdOf, answerFor, answerFailing);
      var r := AnswerInserts(order, newIdOf, answerFor, answerFailing);
      var prev := AnswerInserts(order[..n], newIdOf, answerFor, answerFailing);
      forall t | 0 <= t < |r|
        ensures Linked(r[t], order, newIdOf, answerFor)
      {
        if t < |prev| {
          assert Linked(prev[t], order[..n], newIdOf, answerFor);
          var o :| o in order[..n] && o in answerFor && o in newIdOf && prev[t] == AnswerInsert(answerFor[o].content, newIdOf[o]);
          assert r[t] == prev[t];
          assert o in order;
        } else {
          assert r[t] == AnswerInsert(answerFor[order[n]].content, newIdOf[order[n]]);
          assert order[n] in order;
        }
      }
    }
  }

  /** When no answer INSERT raises and every key is answered, each key gets its answer, in order. */
  lemma {:induction false} AnswerInsertsAll(order: seq<int>, newIdOf: map<int, int>, answerFor: map<int, AnswerRecord>)
    requires forall t :: 0 <= t < |order| ==> order[t] in newIdOf && order[t] in answerFor
    ensures var r := AnswerInserts(order, newIdOf, answerFor, {});
      |r| == |order| && forall t :: 0 <= t < |order| ==> r[t] == AnswerInsert(answerFor[order[t]].content, newIdOf[order[t]])
    decreases |order|
  {
    if order != [] {
      var n := |order| - 1;
      assert forall t :: 0 <= t < n ==> order[..n][t] == order[t];
      AnswerInsertsAll(order[..n], newIdOf, answerFor);
      assert forall t :: 0 <= t < n ==> order[..n][t] == order[t];
    }
  }

  /**
   * Only answered, kept questions are inserted, in ascending old id, and the
   * question INSERTs that succeed get the new ids 1, 2, 3, ...
   */
  lemma PlanQuestionInserts(questions: seq<QuestionRow>, answers: seq<AnswerRow>, p: Passes,
                            failing: set<nat>, answerFailing: set<nat>)
    ensures var qi := PlanMigration(questions, answers, p, failing, answerFailing).questionInserts;
      (forall k :: 0 <= k < |qi| ==>
        qi[k].newId == k + 1 && qi[k].record in DedupQuestions(questions, p).unique
        && qi[k].record.oldId in AnswerMap(questions, answers, p))
      && forall k, m :: 0 <= k < m < |qi| ==> qi[k].record.oldId <= qi[m].record.oldId
  {
    var unique := DedupQuestions(questions, p).unique;
    var valid := Answered(unique, AnswerMap(questions, answers, p));
    var sorted := SortedValid(questions, answers, p);
    AnsweredSpec(unique, AnswerMap(questions, answers, p));
    SortByKeySpec(valid, OldIdKey);
    SortMembers(valid, OldIdKey);
    AssignIdsSpec(sorted, failing);
    AssignIdsOrdered(sorted, failing);
  }

  /** `ai` is the answer paired with the old id of an inserted question, under that question's new id. */
  predicate AnswersInserted(ai: AnswerInsert, qi: seq<QuestionInsert>, answerFor: map<int, AnswerRecord>) {
    exists k :: 0 <= k < |qi| && qi[k].newId == ai.questionId && qi[k].record.oldId in answerFor
      && ai.content == answerFor[qi[k].record.oldId].content
  }

  lemma AssignedAnswersInserted(sorted: seq<QuestionRecord>, failing: set<nat>,
                                answerFor: map<int, AnswerRecord>, answerFailing: set<nat>)
    ensures forall t :: 0 <= t < |AnswerInserts(AssignIds(sorted, failing).order, AssignIds(sorted, failing).newIdOf, answerFor, answerFailing)| ==>
      AnswersInserted(AnswerInserts(AssignIds(sorted, failing).order, AssignIds(sorted, failing).newIdOf, answerFor, answerFailing)[t],
                      AssignIds(sorted, failing).inserted, answerFor)
  {
    var ins := AssignIds(sorted, failing);
    AssignIdsKeys(sorted, failing);
    AssignIdsSpec(sorted, failing);
    var ai := AnswerInserts(ins.order, ins.newIdOf, answerFor, answerFailing);
    AnswerInsertsSpec(ins.order, ins.newIdOf, answerFor, answerFailing);
    forall t | 0 <= t < |ai|
      ensures AnswersInserted(ai[t], ins.inserted, answerFor)
    {
      assert Linked(ai[t], ins.order, ins.newIdOf, answerFor);
      var o :| o in ins.order && o in answerFor && o in ins.newIdOf
        && ai[t] == AnswerInsert(answerFor[o].content, ins.newIdOf[o]);
      var k :| 0 <= k < |ins.inserted| && ins.inserted[k].record.oldId == o && ins.inserted[k].newId == ins.newIdOf[o];
    }
  }

  /**
   * Each answer INSERT is the answer paired with the old id of some inserted
   * question, and carries that question's new id.
   */
  lemma PlanAnswerInserts(questions: seq<QuestionRow>, answers: seq<AnswerRow>, p: Passes,
                          failing: set<nat>, answerFailing: set<nat>)
    ensures var plan := PlanMigration(questions, answers, p, failing, answerFailing);
      forall t :: 0 <= t < |plan.answerInserts| ==>
        AnswersInserted(plan.answerInserts[t], plan.questionInserts, AnswerMap(questions, answers, p))
  {
    var sorted := SortedValid(questions, answers, p);
    var af := AnswerMap(questions, answers, p);
    var ins := AssignIds(sorted, failing);
    var plan := PlanMigration(questions, answers, p, failing, answerFailing);
    AssignedAnswersInserted(sorted, failing, af, answerFailing);
    assert plan.questionInserts == ins.inserted;
    assert plan.answerInserts == AnswerInserts(ins.order, ins.newIdOf, af, answerFailing);
  }

  /**
   * When the source ids are distinct and no INSERT raises, every answered
   * question is inserted in ascending old id with new ids 1, 2, 3, ..., and
   * the k-th answer INSERT is that question's answer under its new id.
   */
  lemma PlanAllSucceed(questions: seq<QuestionRow>, answers: seq<AnswerRow>, p: Passes)
    requires DistinctIds(questions)
    ensures var plan := PlanMigration(questions, answers, p, {}, {});
      var sorted := SortedValid(questions, answers, p);
      |plan.questionInserts| == |sorted| && |plan.answerInserts| == |sorted|
      && forall k :: 0 <= k < |sorted| ==>
        plan.questionInserts[k] == QuestionInsert(k + 1, sorted[k])
        && sorted[k].oldId in AnswerMap(questions, answers, p)
        && plan.answerInserts[k] == AnswerInsert(AnswerMap(questions, answers, p)[sorted[k].oldId].content, k + 1)
  {
    var unique := DedupQuestions(questions, p).unique;
    var af := AnswerMap(questions, answers, p);
    var valid := Answered(unique, af);
    var sorted := SortedValid(questions, answers, p);
    DedupDistinctOldIds(questions, p);
    AnsweredSpec(unique, af);
    SortDistinctKeys(valid, OldIdKey);
    SortMembers(valid, OldIdKey);
    AssignIdsAllSucceed(sorted);
    AssignIdsAllKeys(sorted);
    var ins := AssignIds(sorted, {});
    AnswerInsertsAll(ins.order, ins.newIdOf, af);
  }
}
