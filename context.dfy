/**
 * Context assembly (RAG.py, in `main`): the first five ranking entries are
 * mapped back to their paragraphs and joined with newlines, in ranking order.
 */
module Context {
  import opened Text
  import opened Options
  import opened Ranking
  import opened Segmenter

  /** `find_most_similar(...)[:5]`. */
  const TopK: nat := 5
  /** The second slice, `most_similar_chunks[:10]`, applied to the first. */
  const ContextLimit: nat := 10

  /** Python's `s[:n]` for a non-negative `n`. */
  function Take<T>(s: seq<T>, n: nat): (r: seq<T>)
    ensures |r| == if |s| < n then |s| else n
    ensures r == s[..|r|]
  {
    if |s| <= n then s else s[..n]
  }

  /**
   * `paragraphs[item[1]] for item in top`: the paragraph of each entry, in
   * ranking order, or None when an index is past the end of `paragraphs`
   * (Python raises IndexError).
   */
  function Selected(paragraphs: seq<String>, top: seq<Scored>): (r: Option<seq<String>>)
    ensures r.Some? <==> forall k :: 0 <= k < |top| ==> top[k].index < |paragraphs|
    ensures r.Some? ==> |r.value| == |top|
    ensures r.Some? ==> forall k :: 0 <= k < |top| ==> r.value[k] == paragraphs[top[k].index]
  {
    if top == [] then Some([])
    else if top[0].index >= |paragraphs| then None
    else
      match Selected(paragraphs, top[1..])
      case None => None
      case Some(rest) => Some([paragraphs[top[0].index]] + rest)
  }

  /**
   * `context = "\n".join(paragraphs[item[1]] for item in most_similar_chunks[:10])`
   * with `most_similar_chunks` the first TopK entries of the ranking. It is
   * defined exactly when those entries' indices are valid paragraph indices;
   * it is empty for an empty ranking; otherwise, when no paragraph contains a
   * newline, its lines are the chosen paragraphs, one per entry, in ranking
   * order.
   */
  function BuildContext(paragraphs: seq<String>, ranking: seq<Scored>): (r: Option<String>)
    ensures r.Some? <==> forall k :: 0 <= k < |ranking| && k < TopK ==> ranking[k].index < |paragraphs|
    ensures r.Some? && ranking == [] ==> r.value == ""
    ensures r.Some? && ranking != [] && (forall i :: 0 <= i < |paragraphs| ==> '\n' !in paragraphs[i]) ==>
              && |Split(r.value, '\n')| == (if |ranking| < TopK then |ranking| else TopK)
              && forall k :: 0 <= k < |Split(r.value, '\n')| ==> Split(r.value, '\n')[k] == paragraphs[ranking[k].index]
  {
    var mostSimilar := Take(ranking, TopK);
    var top := Take(mostSimilar, ContextLimit);
    assert top == mostSimilar;
    match Selected(paragraphs, top)
    case None => None
    case Some(chosen) =>
      var context := Join(chosen, "\n");
      assert chosen != [] && (forall i :: 0 <= i < |paragraphs| ==> '\n' !in paragraphs[i]) ==>
               Split(context, '\n') == chosen by {
        if chosen != [] && forall i :: 0 <= i < |paragraphs| ==> '\n' !in paragraphs[i] {
          SplitJoin(chosen, '\n');
        }
      }
      Some(context)
  }

  /** When the ranking covers exactly the paragraphs, context assembly never runs past the end. */
  lemma ContextDefinedWhenAligned(paragraphs: seq<String>, scores: seq<real>)
    requires |scores| == |paragraphs|
    ensures BuildContext(paragraphs, Rank(scores)).Some?
  {
    RankEntries(scores);
  }

  // ---------------------------------------------------------------------------
  // Paragraphs never contain a newline when the page lines do not, so the
  // context can be split back into the paragraphs it was built from.

  lemma {:induction false} JoinNoNewline(parts: seq<String>)
    requires forall k :: 0 <= k < |parts| ==> '\n' !in parts[k]
    ensures '\n' !in Join(parts, " ")
  {
    if |parts| > 1 {
      JoinNoNewline(parts[1..]);
    }
  }

  lemma {:induction false} RunsDrawFrom(xs: seq<String>)
    ensures forall k, j :: 0 <= k < |Runs(xs)| && 0 <= j < |Runs(xs)[k]| ==> Runs(xs)[k][j] in xs
    decreases |xs|
  {
    if xs != [] {
      if xs[0] == [] {
        RunsDrawFrom(xs[1..]);
      } else {
        var n := RunLength(xs);
        RunsDrawFrom(xs[n..]);
        assert Runs(xs) == [xs[..n]] + Runs(xs[n..]);
        forall k, j | 0 <= k < |Runs(xs)| && 0 <= j < |Runs(xs)[k]|
          ensures Runs(xs)[k][j] in xs
        {
          if k == 0 {
            assert Runs(xs)[k][j] == xs[j];
          } else {
            assert Runs(xs)[k] == Runs(xs[n..])[k - 1];
          }
        }
      }
    }
  }

  /** Stripping a line adds no character to it. */
  lemma StripNoNewline(line: String)
    requires '\n' !in line
    ensures '\n' !in Strip(line)
  {
    var r := Strip(line);
    assert r == line[LeadingSpace(line)..LeadingSpace(line) + |r|];
  }

  /** The lines given by `splitlines` hold no newline, and so no paragraph does. */
  lemma SegmentNoNewline(pages: seq<Page>)
    requires forall k :: 0 <= k < |Flatten(pages)| ==> '\n' !in Flatten(pages)[k]
    ensures forall i :: 0 <= i < |Segment(pages)| ==> '\n' !in Segment(pages)[i]
  {
    var lines := Flatten(pages);
    var stripped := StripAll(lines);
    forall k | 0 <= k < |stripped|
      ensures '\n' !in stripped[k]
    {
      StripNoNewline(lines[k]);
    }
    RunsDrawFrom(stripped);
    var runs := Runs(stripped);
    forall i | 0 <= i < |runs|
      ensures '\n' !in Join(runs[i], " ")
    {
      JoinNoNewline(runs[i]);
    }
  }

  /**
   * The retrieval pipeline end to end: segment a document, rank its
   * paragraphs by one score each, and assemble the context. The context is
   * always defined; it is empty for a document without paragraphs, and
   * otherwise its lines are the paragraphs of the top entries, at most TopK
   * of them, best first.
   */
  lemma Pipeline(pages: seq<Page>, scores: seq<real>)
    requires forall k :: 0 <= k < |Flatten(pages)| ==> '\n' !in Flatten(pages)[k]
    requires |scores| == |Segment(pages)|
    ensures BuildContext(Segment(pages), Rank(scores)).Some?
    ensures scores == [] ==> BuildContext(Segment(pages), Rank(scores)).value == ""
    ensures scores != [] ==>
              var lines := Split(BuildContext(Segment(pages), Rank(scores)).value, '\n');
              && |lines| == (if |scores| < TopK then |scores| else TopK)
              && forall k :: 0 <= k < |lines| ==> lines[k] == Segment(pages)[Rank(scores)[k].index]
  {
    ContextDefinedWhenAligned(Segment(pages), scores);
    SegmentNoNewline(pages);
  }
}
