/**
 * The paragraph segmenter, `parse_file` in RAG.py. The PDF reader and
 * `splitlines` stay outside: a document is a sequence of pages, each page
 * the sequence of its text lines.
 */
module Segmenter {
  import opened Text

  type Page = seq<String>

  /** All lines of all pages in document order; page boundaries leave no trace. */
  function Flatten(pages: seq<Page>): (lines: seq<String>)
    ensures pages == [] ==> lines == []
  {
    if pages == [] then [] else Flatten(pages[..|pages| - 1]) + pages[|pages| - 1]
  }

  /** Page boundaries leave no trace: flattening two runs of pages is flattening each and concatenating. */
  lemma {:induction false} FlattenAppend(a: seq<Page>, b: seq<Page>)
    ensures Flatten(a + b) == Flatten(a) + Flatten(b)
    decreases |b|
  {
    if b == [] {
      assert a + b == a;
    } else {
      var b' := b[..|b| - 1];
      FlattenAppend(a, b');
      assert (a + b)[..|a + b| - 1] == a + b';
    }
  }

  /** Every line passed through `str.strip()`: one stripped line per line. */
  function StripAll(lines: seq<String>): (stripped: seq<String>)
    ensures |stripped| == |lines|
  {
    seq(|lines|, k requires 0 <= k < |lines| => Strip(lines[k]))
  }

  /** The length of the run of non-empty lines at the front of `xs`. */
  function RunLength(xs: seq<String>): (n: nat)
    ensures n <= |xs|
    ensures forall k :: 0 <= k < n ==> xs[k] != []
    ensures n < |xs| ==> xs[n] == []
  {
    if xs == [] || xs[0] == [] then 0 else 1 + RunLength(xs[1..])
  }

  /**
   * The reference definition of segmentation: the maximal runs of non-empty
   * (stripped) lines, in order. Empty lines only separate runs.
   */
  function Runs(xs: seq<String>): (runs: seq<seq<String>>)
    ensures forall k :: 0 <= k < |runs| ==> runs[k] != []
    ensures forall k, j :: 0 <= k < |runs| && 0 <= j < |runs[k]| ==> runs[k][j] != []
    decreases |xs|
  {
    if xs == [] then []
    else if xs[0] == [] then Runs(xs[1..])
    else
      var n := RunLength(xs);
      [xs[..n]] + Runs(xs[n..])
  }

  /** Each run becomes one paragraph: its lines joined with single spaces. */
  function Paragraphs(runs: seq<seq<String>>): (paragraphs: seq<String>)
    requires forall k :: 0 <= k < |runs| ==> runs[k] != [] && runs[k][0] != []
    ensures |paragraphs| == |runs|
    ensures forall k :: 0 <= k < |runs| ==> paragraphs[k] == Join(runs[k], " ") && paragraphs[k] != []
  {
    seq(|runs|, k requires 0 <= k < |runs| => Join(runs[k], " "))
  }

  /** What `parse_file` returns for a document: the paragraphs of its stripped lines, across pages. */
  function Segment(pages: seq<Page>): (paragraphs: seq<String>)
    ensures forall k :: 0 <= k < |paragraphs| ==> paragraphs[k] != []
  {
    Paragraphs(Runs(StripAll(Flatten(pages))))
  }

  function Last<T>(s: seq<T>): T
    requires s != []
  {
    s[|s| - 1]
  }

  // ---------------------------------------------------------------------------
  // Consuming one more line. These three lemmas are the steps of the loop in
  // ParseFile: a blank line changes nothing, a non-blank line after a blank one
  // (or at the start) opens a new run, and one after a non-blank line extends
  // the last run.

  lemma {:induction false} RunLengthAppend(xs: seq<String>, ys: seq<String>)
    ensures RunLength(xs) < |xs| ==> RunLength(xs + ys) == RunLength(xs)
    ensures RunLength(xs) == |xs| ==> RunLength(xs + ys) == |xs| + RunLength(ys)
  {
    if xs != [] && xs[0] != [] {
      RunLengthAppend(xs[1..], ys);
      assert (xs + ys)[1..] == xs[1..] + ys;
    } else if xs == [] {
      assert xs + ys == ys;
    }
  }

  lemma {:induction false} RunsNonBlankLast(xs: seq<String>)
    requires xs != [] && Last(xs) != []
    ensures Runs(xs) != []
    decreases |xs|
  {
    if xs[0] == [] {
      RunsNonBlankLast(xs[1..]);
    }
  }

  /** Appending a blank line leaves the runs unchanged. */
  lemma {:induction false} RunsSnocBlank(xs: seq<String>)
    ensures Runs(xs + [[]]) == Runs(xs)
    decreases |xs|
  {
    if xs == [] {
      assert Runs([[]]) == Runs([]);
    } else if xs[0] == [] {
      RunsSnocBlank(xs[1..]);
      assert (xs + [[]])[1..] == xs[1..] + [[]];
    } else {
      var n := RunLength(xs);
      RunLengthAppend(xs, [[]]);
      if n < |xs| {
        RunsSnocBlank(xs[n..]);
        RunsAppendCut(xs, [[]]);
      } else {
        assert (xs + [[]])[..n] == xs == xs[..n];
        assert (xs + [[]])[n..] == [[]];
        assert xs[n..] == [];
        var blank: seq<String> := [[]];
        assert blank[1..] == [];
      }
    }
  }

  /** A non-blank line after a blank line, or at the very start, opens a new run. */
  lemma {:induction false} RunsSnocStart(xs: seq<String>, x: String)
    requires x != []
    requires xs == [] || Last(xs) == []
    ensures Runs(xs + [x]) == Runs(xs) + [[x]]
    decreases |xs|
  {
    if xs == [] {
      assert xs + [x] == [x];
      assert [x][1..] == [];
      assert RunLength([x]) == 1;
      assert [x][..1] == [x];
    } else if xs[0] == [] {
      RunsSnocStart(xs[1..], x);
      assert (xs + [x])[1..] == xs[1..] + [x];
    } else {
      var n := RunLength(xs);
      assert n < |xs|;
      RunsSnocStart(xs[n..], x);
      RunsAppendCut(xs, [x]);
    }
  }

  /** A non-blank line right after a non-blank line extends the last run. */
  lemma {:induction false} RunsSnocExtend(xs: seq<String>, x: String)
    requires x != []
    requires xs != [] && Last(xs) != []
    ensures Runs(xs) != []
    ensures Runs(xs + [x]) == Runs(xs)[..|Runs(xs)| - 1] + [Last(Runs(xs)) + [x]]
    decreases |xs|
  {
    RunsNonBlankLast(xs);
    if xs[0] == [] {
      assert Last(xs[1..]) == Last(xs);
      RunsSnocExtend(xs[1..], x);
      assert (xs + [x])[1..] == xs[1..] + [x];
    } else if RunLength(xs) < |xs| {
      var n := RunLength(xs);
      assert Last(xs[n..]) == Last(xs);
      RunsSnocExtend(xs[n..], x);
      RunsExtendAfterRun(xs, x);
    } else {
      RunsExtendRun(xs, x);
    }
  }

  /** RunsSnocExtend when `xs` holds more than its first run: the first run stays as it is. */
  lemma RunsExtendAfterRun(xs: seq<String>, x: String)
    requires xs != [] && xs[0] != [] && RunLength(xs) < |xs|
    requires Runs(xs[RunLength(xs)..]) != []
    requires var rest := Runs(xs[RunLength(xs)..]);
             Runs(xs[RunLength(xs)..] + [x]) == rest[..|rest| - 1] + [Last(rest) + [x]]
    ensures Runs(xs + [x]) == Runs(xs)[..|Runs(xs)| - 1] + [Last(Runs(xs)) + [x]]
  {
    var n := RunLength(xs);
    var rest := Runs(xs[n..]);
    RunsAppendCut(xs, [x]);
    var runs := Runs(xs);
    assert runs == [xs[..n]] + rest;
    DropLastCons(xs[..n], rest, Last(rest) + [x]);
  }

  lemma DropLastCons<T>(h: T, r: seq<T>, y: T)
    requires r != []
    ensures ([h] + r)[..|r|] + [y] == [h] + (r[..|r| - 1] + [y])
    ensures Last([h] + r) == Last(r)
  {
    assert ([h] + r)[..|r|] == [h] + r[..|r| - 1];
  }

  /** RunsSnocExtend when `xs` is a single run: the line joins it. */
  lemma RunsExtendRun(xs: seq<String>, x: String)
    requires xs != [] && xs[0] != [] && RunLength(xs) == |xs| && x != []
    ensures Runs(xs + [x]) == Runs(xs)[..|Runs(xs)| - 1] + [Last(Runs(xs)) + [x]]
  {
    RunLengthAppend(xs, [x]);
    assert [x][1..] == [];
    assert RunLength([x]) == 1;
    assert (xs + [x])[..|xs| + 1] == xs + [x];
    assert (xs + [x])[|xs| + 1..] == [];
    assert xs[..|xs|] == xs && xs[|xs|..] == [];
    assert Runs(xs) == [xs];
  }

  lemma ParagraphsSnoc(runs: seq<seq<String>>, run: seq<String>)
    requires forall k :: 0 <= k < |runs| ==> runs[k] != [] && runs[k][0] != []
    requires run != [] && run[0] != []
    ensures Paragraphs(runs + [run]) == Paragraphs(runs) + [Join(run, " ")]
  {
  }

  lemma StripAllSnoc(lines: seq<String>, line: String)
    ensures StripAll(lines + [line]) == StripAll(lines) + [Strip(line)]
  {
  }

  /**
   * The state of the loop in ParseFile after the stripped lines `seen`: the
   * emitted runs and the buffer together are the runs of `seen`, and the
   * buffer is non-empty exactly when the last line seen was non-blank.
   */
  ghost predicate Consumed(seen: seq<String>, runs: seq<seq<String>>, buffer: seq<String>) {
    && (forall k :: 0 <= k < |runs| ==> runs[k] != [] && runs[k][0] != [])
    && (forall k :: 0 <= k < |buffer| ==> buffer[k] != [])
    && Runs(seen) == runs + (if buffer == [] then [] else [buffer])
    && (buffer != [] <==> seen != [] && Last(seen) != [])
  }

  /** Consuming a non-blank stripped line: it joins the buffer. */
  lemma ConsumeNonBlank(seen: seq<String>, runs: seq<seq<String>>, buffer: seq<String>, line: String)
    requires Consumed(seen, runs, buffer) && line != []
    ensures Consumed(seen + [line], runs, buffer + [line])
  {
    if buffer == [] {
      RunsSnocStart(seen, line);
      assert buffer + [line] == [line];
    } else {
      RunsSnocExtend(seen, line);
    }
  }

  /** Consuming a blank line: a non-empty buffer becomes a run of its own and the buffer empties. */
  lemma ConsumeBlank(seen: seq<String>, runs: seq<seq<String>>, buffer: seq<String>)
    requires Consumed(seen, runs, buffer)
    ensures buffer == [] ==> Consumed(seen + [[]], runs, [])
    ensures buffer != [] ==> Consumed(seen + [[]], runs + [buffer], [])
                             && Paragraphs(runs + [buffer]) == Paragraphs(runs) + [Join(buffer, " ")]
  {
    RunsSnocBlank(seen);
    if buffer != [] {
      ParagraphsSnoc(runs, buffer);
    }
  }

  /** After the last line, flushing a non-empty buffer completes the runs. */
  lemma ConsumeEnd(seen: seq<String>, runs: seq<seq<String>>, buffer: seq<String>)
    requires Consumed(seen, runs, buffer)
    ensures buffer == [] ==> Paragraphs(Runs(seen)) == Paragraphs(runs)
    ensures buffer != [] ==> Paragraphs(Runs(seen)) == Paragraphs(runs) + [Join(buffer, " ")]
  {
    if buffer != [] {
      ParagraphsSnoc(runs, buffer);
    }
  }

  lemma StripAllAppend(xs: seq<String>, ys: seq<String>)
    ensures StripAll(xs + ys) == StripAll(xs) + StripAll(ys)
  {
  }

  /** The stripped lines seen grow by one stripped line per step of the loop over a page. */
  lemma StripAllStep(seen0: seq<String>, lines: seq<String>, i: nat)
    requires i < |lines|
    ensures seen0 + StripAll(lines[..i + 1]) == (seen0 + StripAll(lines[..i])) + [Strip(lines[i])]
  {
    assert lines[..i + 1] == lines[..i] + [lines[i]];
    StripAllSnoc(lines[..i], lines[i]);
  }

  lemma FlattenSnoc(pages: seq<Page>, p: nat)
    requires p < |pages|
    ensures Flatten(pages[..p + 1]) == Flatten(pages[..p]) + pages[p]
  {
    assert pages[..p + 1][..p] == pages[..p];
  }

  // ---------------------------------------------------------------------------
  // What segmentation promises.

  /** The lines kept by the segmenter: the non-blank ones, in order. */
  function NonBlank(xs: seq<String>): seq<String> {
    if xs == [] then [] else (if xs[0] == [] then [] else [xs[0]]) + NonBlank(xs[1..])
  }

  function Concat(runs: seq<seq<String>>): seq<String> {
    if runs == [] then [] else runs[0] + Concat(runs[1..])
  }

  lemma {:induction false} NonBlankAppend(xs: seq<String>, ys: seq<String>)
    ensures NonBlank(xs + ys) == NonBlank(xs) + NonBlank(ys)
  {
    if xs == [] {
      assert xs + ys == ys;
    } else {
      var head: seq<String> := if xs[0] == [] then [] else [xs[0]];
      NonBlankAppend(xs[1..], ys);
      assert (xs + ys)[0] == xs[0];
      assert (xs + ys)[1..] == xs[1..] + ys;
      calc {
        NonBlank(xs + ys);
        head + NonBlank(xs[1..] + ys);
        head + (NonBlank(xs[1..]) + NonBlank(ys));
        (head + NonBlank(xs[1..])) + NonBlank(ys);
      }
    }
  }

  lemma {:induction false} NonBlankKeepsAll(xs: seq<String>)
    requires forall k :: 0 <= k < |xs| ==> xs[k] != []
    ensures NonBlank(xs) == xs
  {
    if xs != [] {
      NonBlankKeepsAll(xs[1..]);
    }
  }

  /** Nothing is lost, duplicated or reordered: the runs, laid end to end, are the non-blank lines. */
  lemma {:induction false} RunsConcat(xs: seq<String>)
    ensures Concat(Runs(xs)) == NonBlank(xs)
    decreases |xs|
  {
    if xs != [] {
      if xs[0] == [] {
        RunsConcat(xs[1..]);
      } else {
        var n := RunLength(xs);
        RunsConcat(xs[n..]);
        assert xs == xs[..n] + xs[n..];
        NonBlankAppend(xs[..n], xs[n..]);
        NonBlankKeepsAll(xs[..n]);
        assert Runs(xs)[1..] == Runs(xs[n..]);
      }
    }
  }

  /** Runs are maximal: a blank line always ends the run before it, and nothing else happens at it. */
  lemma {:induction false} RunsBlankSeparates(a: seq<String>, b: seq<String>)
    ensures Runs(a + [[]] + b) == Runs(a) + Runs(b)
    decreases |a|
  {
    if a == [] {
      var tail: seq<String> := [[]] + b;
      assert a + [[]] + b == tail && tail[1..] == b;
    } else if a[0] == [] {
      RunsBlankSeparates(a[1..], b);
      assert (a + [[]] + b)[1..] == a[1..] + [[]] + b;
    } else if RunLength(a) < |a| {
      RunsBlankSeparates(a[RunLength(a)..], b);
      RunsBlankAfterRun(a, b);
    } else {
      RunsBlankAfterWhole(a, b);
    }
  }

  /** RunsBlankSeparates when `a` holds more than its first run: the first run stays as it is. */
  lemma RunsBlankAfterRun(a: seq<String>, b: seq<String>)
    requires a != [] && a[0] != [] && RunLength(a) < |a|
    requires Runs(a[RunLength(a)..] + [[]] + b) == Runs(a[RunLength(a)..]) + Runs(b)
    ensures Runs(a + [[]] + b) == Runs(a) + Runs(b)
  {
    var n := RunLength(a);
    var tail: seq<String> := [[]] + b;
    assert a + [[]] + b == a + tail;
    RunsAppendCut(a, tail);
    assert a[n..] + tail == a[n..] + [[]] + b;
    var runs := Runs(a);
    assert runs == [a[..n]] + Runs(a[n..]);
  }

  /** RunsBlankSeparates when `a` is a single run: the blank line closes it. */
  lemma RunsBlankAfterWhole(a: seq<String>, b: seq<String>)
    requires a != [] && a[0] != [] && RunLength(a) == |a|
    ensures Runs(a + [[]] + b) == Runs(a) + Runs(b)
  {
    var tail: seq<String> := [[]] + b;
    assert a + [[]] + b == a + tail;
    assert tail[0] == [] && tail[1..] == b;
    RunsAppendWhole(a, tail);
    var n := RunLength(a);
    var runs := Runs(a);
    assert runs == [a[..n]] + Runs(a[n..]);
    assert a[..n] == a && a[n..] == [];
  }

  /** Lines appended after a run that ends inside `a` do not touch that run. */
  lemma RunsAppendCut(a: seq<String>, c: seq<String>)
    requires a != [] && a[0] != [] && RunLength(a) < |a|
    ensures Runs(a + c) == [a[..RunLength(a)]] + Runs(a[RunLength(a)..] + c)
  {
    var n := RunLength(a);
    RunLengthAppend(a, c);
    assert (a + c)[..n] == a[..n];
    assert (a + c)[n..] == a[n..] + c;
  }

  /** Lines starting with a blank one, appended to a single run, leave that run whole. */
  lemma RunsAppendWhole(a: seq<String>, c: seq<String>)
    requires a != [] && a[0] != [] && RunLength(a) == |a|
    requires c != [] && c[0] == []
    ensures Runs(a + c) == [a] + Runs(c)
  {
    RunLengthAppend(a, c);
    assert RunLength(c) == 0;
    assert (a + c)[..|a|] == a;
    assert (a + c)[|a|..] == c;
  }

  /** There are no runs exactly when every line is blank. */
  lemma {:induction false} RunsEmpty(xs: seq<String>)
    ensures Runs(xs) == [] <==> forall k :: 0 <= k < |xs| ==> xs[k] == []
    decreases |xs|
  {
    if xs != [] && xs[0] == [] {
      RunsEmpty(xs[1..]);
      assert forall k :: 1 <= k < |xs| ==> xs[k] == xs[1..][k - 1];
    }
  }

  lemma {:induction false} RunLengthAll(xs: seq<String>)
    requires forall k :: 0 <= k < |xs| ==> xs[k] != []
    ensures RunLength(xs) == |xs|
  {
    if xs != [] {
      RunLengthAll(xs[1..]);
    }
  }

  /** Without a blank line, all the lines form one run. */
  lemma RunsSingle(xs: seq<String>)
    requires xs != []
    requires forall k :: 0 <= k < |xs| ==> xs[k] != []
    ensures Runs(xs) == [xs]
  {
    RunLengthAll(xs);
    assert xs[..|xs|] == xs;
    assert xs[|xs|..] == [];
  }

  /** An empty document, or one whose every line is blank, has no paragraphs; any other has some. */
  lemma SegmentEmpty(pages: seq<Page>)
    ensures Segment(pages) == [] <==> forall k :: 0 <= k < |Flatten(pages)| ==> IsBlank(Flatten(pages)[k])
  {
    var stripped := StripAll(Flatten(pages));
    RunsEmpty(stripped);
    assert forall k :: 0 <= k < |stripped| ==> (stripped[k] == [] <==> IsBlank(Flatten(pages)[k]));
  }

  /** A stripped line is empty exactly where the line is blank; so all stripped lines are empty exactly when every line is blank. */
  lemma StripAllBlank(lines: seq<String>)
    ensures forall k :: 0 <= k < |lines| ==> (StripAll(lines)[k] == [] <==> IsBlank(lines[k]))
    ensures (forall k :: 0 <= k < |lines| ==> StripAll(lines)[k] == []) <==>
            (forall k :: 0 <= k < |lines| ==> IsBlank(lines[k]))
  {
    var stripped := StripAll(lines);
    if forall k :: 0 <= k < |lines| ==> stripped[k] == [] {
      forall k | 0 <= k < |lines| ensures IsBlank(lines[k]) {
        assert stripped[k] == [];
      }
    }
  }

  /** A document with at least one line and no blank line is one paragraph: all its stripped lines, space-joined. */
  lemma SegmentSingle(pages: seq<Page>)
    requires Flatten(pages) != []
    requires forall k :: 0 <= k < |Flatten(pages)| ==> !IsBlank(Flatten(pages)[k])
    ensures Segment(pages) == [Join(StripAll(Flatten(pages)), " ")]
  {
    var stripped := StripAll(Flatten(pages));
    assert forall k :: 0 <= k < |stripped| ==> stripped[k] != [];
    RunsSingle(stripped);
  }

  /** A page boundary is not a paragraph boundary: only the document's lines, in order, matter. */
  lemma SegmentIgnoresPages(pages: seq<Page>)
    ensures Segment(pages) == Segment([Flatten(pages)])
  {
    var whole := [Flatten(pages)];
    assert whole[..0] == [];
    assert Flatten(whole) == [] + Flatten(pages);
    assert Flatten(whole) == Flatten(pages);
  }

  /** A blank line splits the document: the paragraphs before it, then the paragraphs after it. */
  lemma SegmentBlankLine(before: Page, blank: String, after: Page)
    requires IsBlank(blank)
    ensures Segment([before + [blank] + after]) == Segment([before]) + Segment([after])
  {
    SegmentIgnoresPages([before + [blank] + after]);
    assert [before + [blank] + after][..0] == [] && [before][..0] == [] && [after][..0] == [];
    assert Flatten([before + [blank] + after]) == before + [blank] + after;
    assert Flatten([before]) == before && Flatten([after]) == after;
    StripAllAppend(before + [blank], after);
    StripAllAppend(before, [blank]);
    assert StripAll([blank]) == [[]];
    RunsBlankSeparates(StripAll(before), StripAll(after));
  }

  /** The example of a four-line page: two paragraphs, the first of two lines. */
  lemma SegmentExample()
    ensures Segment([["a", "b", "", "c"]]) == ["a b", "c"]
  {
    var page: Page := ["a", "b", "", "c"];
    assert [page][..0] == [];
    assert Flatten([page]) == page;
    ExampleStripped();
    ExampleRuns();
    ExampleParagraphs();
  }

  lemma ExampleParagraphs()
    ensures Paragraphs([["a", "b"], ["c"]]) == ["a b", "c"]
  {
    var ab: seq<String> := ["a", "b"];
    assert ab[1..] == ["b"];
    assert Join(ab, " ") == "a b";
    assert Join(["c"], " ") == "c";
  }

  lemma ExampleStripped()
    ensures StripAll(["a", "b", "", "c"]) == ["a", "b", "", "c"]
  {
    StripUnchanged("a");
    StripUnchanged("b");
    StripUnchanged("c");
    assert Strip("") == "";
  }

  lemma ExampleRuns()
    ensures Runs(["a", "b", "", "c"]) == [["a", "b"], ["c"]]
  {
    var page: seq<String> := ["a", "b", "", "c"];
    assert RunLength(page[2..]) == 0;
    assert RunLength(page) == 2;
    assert page[..2] == ["a", "b"];
    assert page[2..][1..] == ["c"];
    var last: seq<String> := ["c"];
    assert RunLength(last[1..]) == 0;
    assert RunLength(last) == 1;
    assert last[..1] == last && last[1..] == [];
    assert Runs(last) == [last];
    assert Runs(page[2..]) == [last];
  }

  /**
   * One step of the inner loop of `parse_file`: the line is stripped; a
   * non-blank line joins the buffer, and a blank line that finds the buffer
   * non-empty emits it, space-joined, as a paragraph and empties it.
   */
  method ConsumeLine(raw: String, paragraphs0: seq<String>, buffer0: seq<String>,
                     ghost seen: seq<String>, ghost runs0: seq<seq<String>>)
    returns (paragraphs: seq<String>, buffer: seq<String>, ghost runs: seq<seq<String>>)
    requires Consumed(seen, runs0, buffer0) && paragraphs0 == Paragraphs(runs0)
    ensures Consumed(seen + [Strip(raw)], runs, buffer) && paragraphs == Paragraphs(runs)
  {
    paragraphs, buffer, runs := paragraphs0, buffer0, runs0;
    var line := Strip(raw);
    if line != [] {
      ConsumeNonBlank(seen, runs, buffer, line);
      buffer := buffer + [line];
    } else {
      ConsumeBlank(seen, runs, buffer);
      if |buffer| > 0 {
        paragraphs := paragraphs + [Join(buffer, " ")];
        runs := runs + [buffer];
        buffer := [];
      }
    }
  }

  /** The inner loop of `parse_file` over the lines of one page, continuing from the buffer left by earlier pages. */
  method ConsumeLines(lines: seq<String>, paragraphs0: seq<String>, buffer0: seq<String>,
                      ghost seen0: seq<String>, ghost runs0: seq<seq<String>>)
    returns (paragraphs: seq<String>, buffer: seq<String>, ghost runs: seq<seq<String>>)
    requires Consumed(seen0, runs0, buffer0) && paragraphs0 == Paragraphs(runs0)
    ensures Consumed(seen0 + StripAll(lines), runs, buffer) && paragraphs == Paragraphs(runs)
  {
    paragraphs, buffer, runs := paragraphs0, buffer0, runs0;
    ghost var seen := seen0;
    for i := 0 to |lines|
      invariant seen == seen0 + StripAll(lines[..i])
      invariant Consumed(seen, runs, buffer)
      invariant paragraphs == Paragraphs(runs)
    {
      paragraphs, buffer, runs := ConsumeLine(lines[i], paragraphs, buffer, seen, runs);
      StripAllStep(seen0, lines, i);
      seen := seen + [Strip(lines[i])];
    }
    assert lines[..|lines|] == lines;
  }

  /**
   * `parse_file`: walks every line of every page, buffering stripped non-blank
   * lines and emitting the buffer, space-joined, at each blank line that finds
   * it non-empty; the buffer survives page boundaries and is flushed once more
   * after the last page.
   */
  method ParseFile(pages: seq<Page>) returns (paragraphs: seq<String>)
    ensures paragraphs == Segment(pages)
  {
    paragraphs := [];
    var buffer: seq<String> := [];
    ghost var seen: seq<String> := [];        // the stripped lines consumed so far
    ghost var runs: seq<seq<String>> := [];   // the runs already emitted
    for p := 0 to |pages|
      invariant seen == StripAll(Flatten(pages[..p]))
      invariant Consumed(seen, runs, buffer)
      invariant paragraphs == Paragraphs(runs)
    {
      FlattenSnoc(pages, p);
      StripAllAppend(Flatten(pages[..p]), pages[p]);
      paragraphs, buffer, runs := ConsumeLines(pages[p], paragraphs, buffer, seen, runs);
      seen := seen + StripAll(pages[p]);
    }
    ConsumeEnd(seen, runs, buffer);
    if |buffer| > 0 {
      paragraphs := paragraphs + [Join(buffer, " ")];
      runs := runs + [buffer];
    }
    assert pages[..|pages|] == pages;
  }
}
