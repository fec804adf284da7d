/**
 * `recommend_similar_questions` of models/processors/similar_questions.py:
 * given the cosine similarity of the query to every corpus row, keep the rows
 * scoring above 0.1, order them by score (highest first, stable), and return
 * the first `top_n` row indices and their scores.
 *
 * The TF-IDF transform and the cosine similarity belong to sklearn: the score
 * vector is an input, and `None` stands for any exception raised while
 * producing it (no vectorizer configured, a tokenizer or transform failure).
 */
module SimilarQuestions {
  import opened Wrappers
  import opened Strings
  import opened Sorting

  const Threshold: real := 0.1

  /** One `(idx, score)` pair of the comprehension. */
  datatype Scored = Scored(idx: nat, score: real)

  /** The pairs `(idx, score)` of `enumerate(scores)` from `start` on whose score is above the threshold, in index order. */
  function Candidates(scores: seq<real>, start: nat): (c: seq<Scored>)
    ensures forall k :: 0 <= k < |c| ==>
      start <= c[k].idx < |scores| && c[k].score == scores[c[k].idx] && c[k].score > Threshold
    ensures forall k, m :: 0 <= k < m < |c| ==> c[k].idx < c[m].idx
    ensures forall i :: start <= i < |scores| && scores[i] > Threshold ==> Scored(i, scores[i]) in c
    decreases |scores| - start
  {
    if start >= |scores| then []
    else if scores[start] > Threshold then [Scored(start, scores[start])] + Candidates(scores, start + 1)
    else Candidates(scores, start + 1)
  }

  /** The sort key of `sorted(..., key=lambda x: x[1], reverse=True)`, as an ascending key. */
  function DescendingScore(p: Scored): real {
    -p.score
  }

  function Index(p: Scored): int {
    p.idx
  }

  /** The candidates in the order of the stable descending sort. */
  function Ranked(scores: seq<real>): seq<Scored> {
    SortByKey(Candidates(scores, 0), DescendingScore)
  }

  /** `recommend_similar_questions(query, top_n)` with the query's score vector already computed (or `None` if that raised). */
  function Recommend(scores: Option<seq<real>>, topN: int): (r: (seq<nat>, seq<real>))
    ensures scores.None? ==> r == ([], [])
  {
    match scores
    case None => ([], [])
    case Some(s) =>
      var top := PyPrefix(Ranked(s), topN);
      (seq(|top|, k requires 0 <= k < |top| => top[k].idx),
       seq(|top|, k requires 0 <= k < |top| => top[k].score))
  }

  /** Facts about the ranked list that every property below rests on. */
  lemma RankedSpec(s: seq<real>)
    ensures forall k :: 0 <= k < |Ranked(s)| ==>
      Ranked(s)[k].idx < |s| && Ranked(s)[k].score == s[Ranked(s)[k].idx] && Ranked(s)[k].score > Threshold
    ensures forall i :: 0 <= i < |s| && s[i] > Threshold ==> Scored(i, s[i]) in Ranked(s)
    ensures SortedThenRanked(Ranked(s), DescendingScore, Index)
  {
    var c := Candidates(s, 0);
    SortByKeySpec(c, DescendingScore);
    SortMembers(c, DescendingScore);
    SortByKeyStable(c, DescendingScore, Index);
    forall i | 0 <= i < |s| && s[i] > Threshold
      ensures Scored(i, s[i]) in Ranked(s)
    {
      assert Scored(i, s[i]) in multiset(c);
    }
  }

  /**
   * Bounds and validity: as many indices as scores, at most `top_n` of each;
   * every index is a distinct position of the score vector, every score is
   * above 0.1 and is the score at its index.
   */
  lemma RecommendValid(s: seq<real>, topN: int)
    ensures var (ids, scs) := Recommend(Some(s), topN);
      |ids| == |scs|
      && (0 <= topN ==> |ids| <= topN)
      && (forall k :: 0 <= k < |ids| ==> ids[k] < |s| && scs[k] == s[ids[k]] && scs[k] > Threshold)
      && (forall k, m :: 0 <= k < m < |ids| ==> ids[k] != ids[m])
  {
    RankedSpec(s);
    var top := PyPrefix(Ranked(s), topN);
    forall k, m | 0 <= k < m < |top|
      ensures top[k].idx != top[m].idx
    {
      assert top[k] == Ranked(s)[k] && top[m] == Ranked(s)[m];
    }
  }

  /**
   * Ordering: scores never increase along the result, and equal scores keep
   * the ascending index order they had in the vector (the sort is stable).
   */
  lemma RecommendOrdered(s: seq<real>, topN: int)
    ensures var (ids, scs) := Recommend(Some(s), topN);
      (forall k, m :: 0 <= k < m < |scs| ==> scs[k] >= scs[m])
      && (forall k, m :: 0 <= k < m < |scs| && scs[k] == scs[m] ==> ids[k] < ids[m])
  {
    RankedSpec(s);
    var top := PyPrefix(Ranked(s), topN);
    assert forall k :: 0 <= k < |top| ==> top[k] == Ranked(s)[k];
  }

  /**
   * Completeness: an index scoring above 0.1 is left out only when `top_n`
   * results were already returned, and it scores no higher than any of them.
   */
  lemma RecommendComplete(s: seq<real>, topN: int, i: nat)
    requires i < |s| && s[i] > Threshold
    ensures var (ids, scs) := Recommend(Some(s), topN);
      i !in ids ==>
        (0 <= topN ==> |ids| == topN)
        && forall k :: 0 <= k < |scs| ==> s[i] <= scs[k]
  {
    RankedSpec(s);
    var ranked := Ranked(s);
    var top := PyPrefix(ranked, topN);
    var (ids, scs) := Recommend(Some(s), topN);
    var p :| 0 <= p < |ranked| && ranked[p] == Scored(i, s[i]);
    if p < |top| {
      assert top[p] == ranked[p];
      assert ids[p] == i;
    } else {
      forall k | 0 <= k < |scs|
        ensures s[i] <= scs[k]
      {
        assert top[k] == ranked[k];
      }
    }
  }
}
