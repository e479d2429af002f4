/** Concrete runs of the two steps on small inputs. */
module WorkedExamples {
  import opened Results
  import opened Records
  import opened ModelSummary
  import opened CompositeRanking

  /** With Recall tied, the cheaper variant wins even though a third variant has a better
      F1-Score and a lower Cost but a lower Recall. */
  lemma SelectionPrefersRecallThenCost()
    ensures
      var high := ResultRow("tree", 0.80, 0.70, 0.80, 0.70, 100.0);
      var cheap := ResultRow("tree", 0.78, 0.69, 0.80, 0.60, 50.0);
      var low := ResultRow("tree", 0.90, 0.90, 0.70, 0.90, 10.0);
      BestVariant([high, cheap, low]) == cheap
  {
  }

  /** Rows `a` and `b` trade quality for cost: `a` is strictly better on every quality metric,
      `b` is strictly cheaper. */
  predicate TradeOff(a: ResultRow, b: ResultRow) {
    && a.accuracy > b.accuracy && a.precision > b.precision
    && a.recall > b.recall && a.f1 > b.f1
    && a.cost > b.cost
  }

  /** Two single-variant models: each table contributes its only row, and only the cheaper
      model carries the cost flag. */
  lemma TwoModelSummary(a: ResultRow, b: ResultRow)
    requires a.cost > b.cost
    ensures GenerateModelSummary([[a], [b]]) == Ok([SummaryRow(a, false), SummaryRow(b, true)])
  {
    var tables := [[a], [b]];
    assert tables[1..] == [[b]] && tables[1..][1..] == [];
    assert FirstEmpty(tables) == 2;
    assert BestVariant(tables[0]) == a;
    assert BestVariant(tables[1]) == b;
    var best := [a, b];
    var selected := SelectBestVariants(tables);
    assert selected.Ok? && |selected.value| == 2;
    assert selected.value[0] == a && selected.value[1] == b;
    assert selected.value == best;
    var costs := Column(best, Cost);
    assert costs[1..] == [b.cost];
    assert FlagBestCost(best) == [SummaryRow(a, false), SummaryRow(b, true)];
  }

  function PairScale(a: ResultRow, b: ResultRow): Scale {
    Scale(Span(b.accuracy, a.accuracy), Span(b.precision, a.precision), Span(b.recall, a.recall),
          Span(b.f1, a.f1), Span(b.cost, a.cost))
  }

  lemma PairSpanValues(a: ResultRow, b: ResultRow)
    requires TradeOff(a, b)
    ensures SpanOf([a, b], Accuracy) == PairScale(a, b).accuracy
    ensures SpanOf([a, b], Precision) == PairScale(a, b).precision
    ensures SpanOf([a, b], Recall) == PairScale(a, b).recall
    ensures SpanOf([a, b], F1Score) == PairScale(a, b).f1
    ensures SpanOf([a, b], Cost) == PairScale(a, b).cost
  {
  }

  lemma PairSpans(a: ResultRow, b: ResultRow)
    requires TradeOff(a, b)
    ensures ScaleOf([a, b]) == Ok(PairScale(a, b))
  {
    PairSpanValues(a, b);
    ScaleOfProper([a, b]);
  }

  lemma PairScores(a: ResultRow, b: ResultRow)
    requires TradeOff(a, b)
    ensures PairScale(a, b).Valid()
    ensures Score(a, PairScale(a, b)) == 5.0
    ensures Score(b, PairScale(a, b)) == 2.0
  {
  }

  function PairRanking(a: ResultRow, b: ResultRow, fa: bool, fb: bool): seq<RankedRow> {
    [RankedRow(SummaryRow(a, fa), 5.0, true), RankedRow(SummaryRow(b, fb), 2.0, false)]
  }

  lemma PairScored(a: ResultRow, b: ResultRow, fa: bool, fb: bool)
    requires TradeOff(a, b)
    ensures PairScale(a, b).Valid()
    ensures ScoreRows([SummaryRow(a, fa), SummaryRow(b, fb)], PairScale(a, b)) == PairRanking(a, b, fa, fb)
  {
    PairScores(a, b);
    var summary := [SummaryRow(a, fa), SummaryRow(b, fb)];
    var scored := ScoreRows(summary, PairScale(a, b));
    assert scored[0].summary == summary[0] && scored[0].score == 5.0;
    assert scored[1].summary == summary[1] && scored[1].score == 2.0;
    assert scored[0].isOverallBest && !scored[1].isOverallBest;
  }

  lemma PairSorted(a: ResultRow, b: ResultRow, fa: bool, fb: bool)
    ensures SortByScore(PairRanking(a, b, fa, fb)) == PairRanking(a, b, fa, fb)
  {
  }

  /** When one model is better on every quality metric and the other is cheaper, the better
      one scores 1 + 1 + 1.5 + 1.5 + 0 = 5 and the cheaper one 0 + 0 + 0 + 0 + 2 = 2, so the
      better one is ranked first and is the only one flagged, whatever the cost flags say. */
  lemma TwoModelRanking(a: ResultRow, b: ResultRow, fa: bool, fb: bool)
    requires TradeOff(a, b)
    ensures IdentifyOverallBestModel([SummaryRow(a, fa), SummaryRow(b, fb)]) == Ok(PairRanking(a, b, fa, fb))
  {
    var summary := [SummaryRow(a, fa), SummaryRow(b, fb)];
    assert Rows(summary) == [a, b];
    PairSpans(a, b);
    PairScored(a, b, fa, fb);
    PairSorted(a, b, fa, fb);
  }
}
