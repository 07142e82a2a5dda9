/**
 * Ranking, `find_most_similar` in RAG.py: the (score, index) pairs of the
 * haystack sorted with `reverse=True`. The cosine-similarity arithmetic is
 * not modelled; the scores are the input, as real numbers.
 */
module Ranking {

  /** One entry of the ranking: a haystack index and the score computed for it. */
  datatype Scored = Scored(score: real, index: nat)

  /** `a > b` on Python tuples `(score, index)`: by score, then by index. */
  predicate Above(a: Scored, b: Scored) {
    a.score > b.score || (a.score == b.score && a.index > b.index)
  }

  /** What `sorted(..., reverse=True)` produces: every entry is above every later one. */
  predicate Descending(r: seq<Scored>) {
    forall i, j :: 0 <= i < j < |r| ==> Above(r[i], r[j])
  }

  /**
   * `above` is Python's `>` on tuples: a strict total order. No entry is above
   * itself, it is transitive, and of two different entries one is above the
   * other.
   */
  lemma AboveOrder(a: Scored, b: Scored, c: Scored)
    ensures !Above(a, a)
    ensures Above(a, b) ==> !Above(b, a)
    ensures Above(a, b) && Above(b, c) ==> Above(a, c)
    ensures a != b ==> Above(a, b) || Above(b, a)
  {
  }

  /**
   * `zip(similarity_scores, range(len(haystack)))`: entry `k` pairs score `k`
   * with index `k`, so no two entries are equal.
   */
  function Pairs(scores: seq<real>): (ps: seq<Scored>)
    ensures |ps| == |scores|
    ensures forall k :: 0 <= k < |ps| ==> ps[k].index == k && ps[k].score == scores[k]
    ensures Distinct(ps)
  {
    seq(|scores|, k requires 0 <= k < |scores| => Scored(scores[k], k))
  }

  /** Places `e` in a descending sequence that does not contain it. */
  function Insert(e: Scored, s: seq<Scored>): (r: seq<Scored>)
    ensures multiset(r) == multiset(s) + multiset{e}
    ensures |r| == |s| + 1
    ensures r[0] == e || (s != [] && r[0] == s[0])
    ensures Descending(s) && e !in s ==> Descending(r)
  {
    if s == [] || Above(e, s[0]) then
      InsertFront(e, s);
      [e] + s
    else
      var rest := Insert(e, s[1..]);
      InsertBehind(e, s, rest);
      [s[0]] + rest
  }

  /** An entry above the head of a descending sequence may be put in front of it. */
  lemma InsertFront(e: Scored, s: seq<Scored>)
    requires s == [] || Above(e, s[0])
    ensures Descending(s) ==> Descending([e] + s)
  {
    if Descending(s) {
      forall i, j | 0 <= i < j < |[e] + s|
        ensures Above(([e] + s)[i], ([e] + s)[j])
      {
        if i == 0 && j > 1 {
          assert Above(s[0], s[j - 1]);
        }
      }
    }
  }

  /**
   * An entry not above the head goes behind it: the head, above `e` and above
   * every later entry of `s`, may lead the descending `rest` built from them.
   */
  lemma InsertBehind(e: Scored, s: seq<Scored>, rest: seq<Scored>)
    requires s != [] && !Above(e, s[0])
    requires multiset(rest) == multiset(s[1..]) + multiset{e}
    requires Descending(s[1..]) && e !in s[1..] ==> Descending(rest)
    ensures multiset([s[0]] + rest) == multiset(s) + multiset{e}
    ensures Descending(s) && e !in s ==> Descending([s[0]] + rest)
  {
    assert s == [s[0]] + s[1..];
    if Descending(s) && e !in s {
      assert Descending(s[1..]);
      forall j | 0 <= j < |rest|
        ensures Above(s[0], rest[j])
      {
        assert rest[j] in multiset(rest);
        if rest[j] != e {
          assert rest[j] in multiset(s[1..]);
          var k :| 0 <= k < |s[1..]| && s[1..][k] == rest[j];
          assert Above(s[0], s[k + 1]);
        }
      }
    }
  }

  /**
   * A model of Python's `sorted` with `reverse=True`: an insertion sort. Which
   * algorithm is used does not matter, since SortedUnique shows that only one
   * descending arrangement of the entries exists.
   */
  function Sort(ps: seq<Scored>): (r: seq<Scored>)
    ensures multiset(r) == multiset(ps)
    ensures |r| == |ps|
    ensures Distinct(ps) ==> Descending(r)
  {
    if ps == [] then []
    else
      var rest := Sort(ps[1..]);
      assert ps == [ps[0]] + ps[1..];
      assert Distinct(ps) ==> Distinct(ps[1..]) && ps[0] !in ps[1..];
      assert ps[0] in rest <==> ps[0] in multiset(ps[1..]);
      Insert(ps[0], rest)
  }

  /** No entry occurs twice. */
  predicate Distinct(ps: seq<Scored>) {
    forall i, j :: 0 <= i < j < |ps| ==> ps[i] != ps[j]
  }

  /**
   * `find_most_similar` over already computed scores: each index paired with
   * its score, all of them, strictly descending by (score, index).
   */
  function Rank(scores: seq<real>): (r: seq<Scored>)
    ensures |r| == |scores|
    ensures multiset(r) == multiset(Pairs(scores))
    ensures Descending(r)
  {
    Sort(Pairs(scores))
  }

  /** `find_most_similar(needle, haystack)` with the similarity measure as a parameter. */
  function FindMostSimilar<V>(similarity: (V, V) -> real, needle: V, haystack: seq<V>): (r: seq<Scored>)
    ensures |r| == |haystack|
    ensures forall k :: 0 <= k < |r| ==> r[k].index < |haystack| && r[k].score == similarity(needle, haystack[r[k].index])
    ensures Descending(r)
  {
    var scores := seq(|haystack|, i requires 0 <= i < |haystack| => similarity(needle, haystack[i]));
    RankEntries(scores);
    Rank(scores)
  }

  /**
   * The ranking is a permutation of the indices 0..n-1: each entry carries a
   * valid index and the score computed for that index, every index occurs,
   * and no index occurs twice.
   */
  lemma RankEntries(scores: seq<real>)
    ensures forall k :: 0 <= k < |Rank(scores)| ==>
              Rank(scores)[k].index < |scores| && Rank(scores)[k].score == scores[Rank(scores)[k].index]
    ensures forall j :: 0 <= j < |scores| ==> Scored(scores[j], j) in Rank(scores)
    ensures forall k, l :: 0 <= k < l < |Rank(scores)| ==> Rank(scores)[k].index != Rank(scores)[l].index
  {
    var r, ps := Rank(scores), Pairs(scores);
    forall k | 0 <= k < |r|
      ensures r[k].index < |scores| && r[k].score == scores[r[k].index]
    {
      assert r[k] in multiset(ps);
    }
    forall j | 0 <= j < |scores|
      ensures Scored(scores[j], j) in r
    {
      assert ps[j] in multiset(r);
    }
  }

  /**
   * The order of the ranking: scores never increase along it, and among equal
   * scores the larger index comes first (the tuples are compared whole and
   * then reversed).
   */
  lemma RankOrder(scores: seq<real>)
    ensures forall k, l :: 0 <= k < l < |Rank(scores)| ==> Rank(scores)[k].score >= Rank(scores)[l].score
    ensures forall k, l :: 0 <= k < l < |Rank(scores)| && Rank(scores)[k].score == Rank(scores)[l].score ==>
              Rank(scores)[k].index > Rank(scores)[l].index
  {
  }

  /** The first entry of a descending sequence is above every other entry in it. */
  lemma FirstIsTop(r: seq<Scored>, x: Scored)
    requires Descending(r) && x in r && x != r[0]
    ensures Above(r[0], x)
  {
    var k :| 0 <= k < |r| && r[k] == x;
  }

  /**
   * Only one descending arrangement of a given collection of entries exists,
   * so any correct sort, Python's included, returns what Sort returns.
   */
  lemma {:induction false} SortedUnique(a: seq<Scored>, b: seq<Scored>)
    requires Descending(a) && Descending(b)
    requires multiset(a) == multiset(b)
    ensures a == b
    decreases |a|
  {
    if a != [] {
      assert a[0] in multiset(b);
      assert b != [] && b[0] in multiset(a);
      if a[0] != b[0] {
        FirstIsTop(a, b[0]);
        FirstIsTop(b, a[0]);
        assert false;
      }
      MultisetTail(a);
      MultisetTail(b);
      SortedUnique(a[1..], b[1..]);
    } else {
      assert |multiset(b)| == 0;
    }
  }

  lemma MultisetTail(a: seq<Scored>)
    requires a != []
    ensures multiset(a[1..]) == multiset(a) - multiset{a[0]}
  {
    assert a == [a[0]] + a[1..];
  }

  /** Rank is the descending arrangement of the (score, index) pairs, whatever algorithm produces it. */
  lemma RankIsTheSortedPairs(scores: seq<real>, r: seq<Scored>)
    requires Descending(r) && multiset(r) == multiset(Pairs(scores))
    ensures r == Rank(scores)
  {
    SortedUnique(r, Rank(scores));
  }

  /** Equal scores: the later index is ranked first. */
  lemma RankTieExample()
    ensures Rank([0.5, 0.5]) == [Scored(0.5, 1), Scored(0.5, 0)]
  {
    var scores := [0.5, 0.5];
    var r := [Scored(0.5, 1), Scored(0.5, 0)];
    assert Pairs(scores) == [Scored(0.5, 0), Scored(0.5, 1)];
    assert multiset(r) == multiset(Pairs(scores));
    RankIsTheSortedPairs(scores, r);
  }
}
