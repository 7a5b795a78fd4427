/** The ranking part of `search` in text-search.js: every vector is paired with its
    index and its score against the query, the pairs are sorted by score, highest
    first, with a stable sort, and the first `topK` are kept. */
module Ranking {
  import Similarity

  /** The `{ index, similarity }` record built for every document vector. */
  datatype ScoredIndex = ScoredIndex(index: nat, similarity: real)

  /** The number of matches `search` returns when no `top_k` is given. */
  const DefaultTopK: nat := 3

  /** `scores.map((score, index) => ({ index, similarity: score }))` */
  function Pair(scores: seq<real>): (r: seq<ScoredIndex>)
    ensures |r| == |scores| && IndexAscending(r)
    ensures forall k :: 0 <= k < |r| ==> r[k].index < |scores| && r[k].similarity == scores[r[k].index]
  {
    seq(|scores|, i requires 0 <= i < |scores| => ScoredIndex(i, scores[i]))
  }

  /** Where `a` comes before `b` in the result of a stable sort, by descending
      similarity, of entries listed by ascending index: a higher score first, and on
      equal scores the lower index first. */
  predicate Before(a: ScoredIndex, b: ScoredIndex) {
    a.similarity > b.similarity || (a.similarity == b.similarity && a.index < b.index)
  }

  /** Every entry comes Before every later entry. */
  predicate Ranked(t: seq<ScoredIndex>) {
    forall i, j :: 0 <= i < j < |t| ==> Before(t[i], t[j])
  }

  /** The entries are listed by strictly ascending index. */
  predicate IndexAscending(t: seq<ScoredIndex>) {
    forall i, j :: 0 <= i < j < |t| ==> t[i].index < t[j].index
  }

  /** Inserts `x` into `t` in front of the first entry whose similarity is not
      greater than that of `x`: with the comparator `q.similarity - p.similarity`,
      an entry that came earlier stays ahead of later entries with the same score. */
  function Insert(x: ScoredIndex, t: seq<ScoredIndex>): (r: seq<ScoredIndex>)
    ensures multiset(r) == multiset(t) + multiset{x}
  {
    if t == [] || t[0].similarity <= x.similarity then [x] + t
    else
      assert t == [t[0]] + t[1..];
      [t[0]] + Insert(x, t[1..])
  }

  /** `Array.prototype.sort` with the comparator `(p, q) => q.similarity - p.similarity`:
      a stable insertion sort, highest similarity first. The result is a permutation
      of the input. */
  function SortBySimilarity(s: seq<ScoredIndex>): (r: seq<ScoredIndex>)
    ensures multiset(r) == multiset(s)
  {
    if s == [] then []
    else
      assert s == [s[0]] + s[1..];
      Insert(s[0], SortBySimilarity(s[1..]))
  }

  /** Inserting an entry whose index is below every index of a ranked sequence keeps
      it ranked. */
  lemma {:induction false} InsertRanked(x: ScoredIndex, t: seq<ScoredIndex>)
    requires Ranked(t)
    requires forall k :: 0 <= k < |t| ==> x.index < t[k].index
    ensures Ranked(Insert(x, t))
  {
    if t == [] || t[0].similarity <= x.similarity {
      var r := [x] + t;
      forall i, j | 0 <= i < j < |r| ensures Before(r[i], r[j]) {
        if i == 0 {
          assert r[j] == t[j - 1];
          if j > 1 {
            assert Before(t[0], t[j - 1]);
          }
        } else {
          assert r[i] == t[i - 1] && r[j] == t[j - 1];
        }
      }
    } else {
      InsertRanked(x, t[1..]);
      var rest := Insert(x, t[1..]);
      var r := [t[0]] + rest;
      assert multiset(rest) == multiset(t[1..]) + multiset{x};
      forall j | 0 <= j < |rest| ensures Before(t[0], rest[j]) {
        assert rest[j] in multiset(rest);
        if rest[j] != x {
          assert rest[j] in multiset(t[1..]);
          var m :| 0 <= m < |t[1..]| && t[1..][m] == rest[j];
          assert Before(t[0], t[m + 1]);
        }
      }
      forall i, j | 0 <= i < j < |r| ensures Before(r[i], r[j]) {
        if i == 0 {
          assert r[j] == rest[j - 1];
        } else {
          assert r[i] == rest[i - 1] && r[j] == rest[j - 1];
        }
      }
    }
  }

  /** Sorting entries listed by ascending index ranks them: descending by similarity,
      and ascending by index among equal similarities. */
  lemma {:induction false} SortRanked(s: seq<ScoredIndex>)
    requires IndexAscending(s)
    ensures Ranked(SortBySimilarity(s))
  {
    if s != [] {
      assert IndexAscending(s[1..]);
      SortRanked(s[1..]);
      var t := SortBySimilarity(s[1..]);
      forall k | 0 <= k < |t| ensures s[0].index < t[k].index {
        assert t[k] in multiset(t);
        assert t[k] in multiset(s[1..]);
        var m :| 0 <= m < |s[1..]| && s[1..][m] == t[k];
        assert s[m + 1] == t[k];
      }
      InsertRanked(s[0], t);
    }
  }

  /** The ranking of text-search.js:62-66: the scores paired with their indices,
      sorted, and cut to the first `topK` entries. */
  function Rank(scores: seq<real>, topK: nat := DefaultTopK): (r: seq<ScoredIndex>)
    ensures |r| == if topK < |scores| then topK else |scores|
  {
    var sorted := SortBySimilarity(Pair(scores));
    assert |sorted| == |scores| by {
      assert |multiset(sorted)| == |multiset(Pair(scores))|;
    }
    sorted[..if topK < |sorted| then topK else |sorted|]
  }

  /** The entries of Rank come from its input: each one is `ScoredIndex(i, scores[i])`
      for some valid position `i`. */
  lemma RankEntries(scores: seq<real>, topK: nat)
    ensures forall k :: 0 <= k < |Rank(scores, topK)| ==>
              && Rank(scores, topK)[k].index < |scores|
              && Rank(scores, topK)[k].similarity == scores[Rank(scores, topK)[k].index]
  {
    var sorted := SortBySimilarity(Pair(scores));
    forall k | 0 <= k < |Rank(scores, topK)|
      ensures && Rank(scores, topK)[k].index < |scores|
              && Rank(scores, topK)[k].similarity == scores[Rank(scores, topK)[k].index]
    {
      assert Rank(scores, topK)[k] == sorted[k];
      assert sorted[k] in multiset(Pair(scores));
      var i :| 0 <= i < |scores| && Pair(scores)[i] == sorted[k];
    }
  }

  /** Rank is ranked: by descending similarity, and by ascending index among equal
      similarities (the sort is stable and the entries start in index order). */
  lemma RankRanked(scores: seq<real>, topK: nat)
    ensures Ranked(Rank(scores, topK))
  {
    var sorted := SortBySimilarity(Pair(scores));
    SortRanked(Pair(scores));
    var r := Rank(scores, topK);
    forall i, j | 0 <= i < j < |r| ensures Before(r[i], r[j]) {
      assert r[i] == sorted[i] && r[j] == sorted[j];
    }
  }

  /** The result is in non-increasing order of similarity; entries with equal
      similarity are in ascending index order, so no index appears twice. */
  lemma RankOrdered(scores: seq<real>, topK: nat)
    ensures forall k, l :: 0 <= k < l < |Rank(scores, topK)| ==>
              Rank(scores, topK)[k].similarity >= Rank(scores, topK)[l].similarity
    ensures forall k, l :: 0 <= k < l < |Rank(scores, topK)| ==>
              Rank(scores, topK)[k].similarity == Rank(scores, topK)[l].similarity ==>
              Rank(scores, topK)[k].index < Rank(scores, topK)[l].index
    ensures forall k, l :: 0 <= k < l < |Rank(scores, topK)| ==>
              Rank(scores, topK)[k].index != Rank(scores, topK)[l].index
  {
    RankRanked(scores, topK);
    RankEntries(scores, topK);
    var r := Rank(scores, topK);
    forall k, l | 0 <= k < l < |r| ensures r[k].index != r[l].index {
      assert Before(r[k], r[l]);
    }
  }

  /** Where position i of the scores ends up after sorting. */
  lemma SortedPosition(scores: seq<real>, i: nat) returns (m: nat)
    requires i < |scores|
    ensures m < |SortBySimilarity(Pair(scores))|
    ensures SortBySimilarity(Pair(scores))[m] == ScoredIndex(i, scores[i])
  {
    var sorted := SortBySimilarity(Pair(scores));
    assert Pair(scores)[i] == ScoredIndex(i, scores[i]);
    assert ScoredIndex(i, scores[i]) in multiset(sorted);
    m :| 0 <= m < |sorted| && sorted[m] == ScoredIndex(i, scores[i]);
  }

  /** Top-k selection: a position that Rank leaves out scores no higher than any
      entry Rank returns. */
  lemma RankTopK(scores: seq<real>, topK: nat)
    ensures forall i :: 0 <= i < |scores| ==>
              (forall k :: 0 <= k < |Rank(scores, topK)| ==> Rank(scores, topK)[k].index != i) ==>
              forall k :: 0 <= k < |Rank(scores, topK)| ==> scores[i] <= Rank(scores, topK)[k].similarity
  {
    var sorted := SortBySimilarity(Pair(scores));
    SortRanked(Pair(scores));
    var r := Rank(scores, topK);
    assert forall k :: 0 <= k < |r| ==> r[k] == sorted[k];
    forall i | 0 <= i < |scores| && (forall k :: 0 <= k < |r| ==> r[k].index != i)
      ensures forall k :: 0 <= k < |r| ==> scores[i] <= r[k].similarity
    {
      var m := SortedPosition(scores, i);
      assert m >= |r|;
      forall k | 0 <= k < |r| ensures scores[i] <= r[k].similarity {
        assert r[k] == sorted[k];
        assert Before(sorted[k], sorted[m]);
      }
    }
  }

  /** The scores `search` ranks: `sim(vector, ref)` for every document vector. */
  function Scores(vectors: seq<seq<real>>, query: seq<real>, finish: (real, real, real) -> real): (r: seq<real>)
    requires forall i :: 0 <= i < |vectors| ==> |vectors[i]| <= |query|
    ensures |r| == |vectors|
  {
    seq(|vectors|, i requires 0 <= i < |vectors| => Similarity.Similarity(vectors[i], query, finish))
  }

  /** `search(vectors, query, top_k)` once the query is encoded as `query`: the first
      `topK` document indices, best score first. */
  function Search(vectors: seq<seq<real>>, query: seq<real>, finish: (real, real, real) -> real,
                  topK: nat := DefaultTopK): (r: seq<ScoredIndex>)
    requires forall i :: 0 <= i < |vectors| ==> |vectors[i]| <= |query|
    ensures |r| == if topK < |vectors| then topK else |vectors|
  {
    Rank(Scores(vectors, query, finish), topK)
  }

  /** Every match `search` returns names a document vector and carries that vector's
      own similarity to the query. */
  lemma SearchEntries(vectors: seq<seq<real>>, query: seq<real>, finish: (real, real, real) -> real, topK: nat)
    requires forall i :: 0 <= i < |vectors| ==> |vectors[i]| <= |query|
    ensures |Search(vectors, query, finish, topK)| == if topK < |vectors| then topK else |vectors|
    ensures forall k :: 0 <= k < |Search(vectors, query, finish, topK)| ==>
              && Search(vectors, query, finish, topK)[k].index < |vectors|
              && Search(vectors, query, finish, topK)[k].similarity
                 == Similarity.Similarity(vectors[Search(vectors, query, finish, topK)[k].index], query, finish)
  {
    RankEntries(Scores(vectors, query, finish), topK);
  }

  /** Example: scores 0.9, 0.2 and 0.95, paired with their indices, sort as index 2,
      index 0, index 1. */
  lemma SortExample()
    ensures SortBySimilarity([ScoredIndex(0, 0.9), ScoredIndex(1, 0.2), ScoredIndex(2, 0.95)])
         == [ScoredIndex(2, 0.95), ScoredIndex(0, 0.9), ScoredIndex(1, 0.2)]
  {
    var p := [ScoredIndex(0, 0.9), ScoredIndex(1, 0.2), ScoredIndex(2, 0.95)];
    assert p[1..] == [ScoredIndex(1, 0.2), ScoredIndex(2, 0.95)];
    assert p[1..][1..] == [ScoredIndex(2, 0.95)];
    assert SortBySimilarity(p[1..][1..]) == [ScoredIndex(2, 0.95)];
    assert SortBySimilarity(p[1..]) == [ScoredIndex(2, 0.95), ScoredIndex(1, 0.2)];
  }

  /** Example: scores 0.9, 0.2 and 0.95 with top_k = 2 give index 2 first, then
      index 0. */
  lemma RankExample()
    ensures Rank([0.9, 0.2, 0.95], 2) == [ScoredIndex(2, 0.95), ScoredIndex(0, 0.9)]
  {
    assert Pair([0.9, 0.2, 0.95]) == [ScoredIndex(0, 0.9), ScoredIndex(1, 0.2), ScoredIndex(2, 0.95)];
    SortExample();
  }
}
