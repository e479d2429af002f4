/** Composite ranking of the summary rows: each metric is min-max normalised across the
    summary (Cost inverted), the normalised values are combined with fixed weights, the rows
    with the highest score are flagged, and the rows are ordered by score, highest first. */
module CompositeRanking {
  import opened Results
  import opened Records
  import opened Extrema
  import opened ModelSummary

  /** The observed range of one metric across the summary. */
  datatype Span = Span(lo: real, hi: real)

  /** A summary row with its composite score and whether that score is the highest. */
  datatype RankedRow = RankedRow(summary: SummaryRow, score: real, isOverallBest: bool)

  /** A metric takes one value across the whole summary, so its normalisation divides by zero. */
  datatype RankError = DegenerateRange(metric: Metric)

  /** The fixed weight of each metric; Cost weighs most, then Recall and F1-Score. */
  function Weight(m: Metric): (w: real)
    ensures 1.0 <= w <= 2.0
    ensures w == 2.0 <==> m == Cost
    ensures w == 1.5 <==> m == Recall || m == F1Score
  {
    match m
    case Accuracy => 1.0
    case Precision => 1.0
    case Recall => 1.5
    case F1Score => 1.5
    case Cost => 2.0
  }

  /** The sum of all weights: the score a row gets when it is best on every metric. */
  const TopScore: real := 7.0

  lemma WeightsSumToTopScore()
    ensures Weight(Accuracy) + Weight(Precision) + Weight(Recall) + Weight(F1Score) + Weight(Cost) == TopScore
  {
  }

  function Rows(summary: seq<SummaryRow>): (rows: seq<ResultRow>)
    ensures |rows| == |summary|
    ensures forall i :: 0 <= i < |summary| ==> rows[i] == summary[i].row
  {
    seq(|summary|, i requires 0 <= i < |summary| => summary[i].row)
  }

  /** Column minimum and maximum of metric `m`. */
  function SpanOf(rows: seq<ResultRow>, m: Metric): (s: Span)
    requires |rows| > 0
    ensures exists i :: 0 <= i < |rows| && Get(rows[i], m) == s.lo
    ensures exists i :: 0 <= i < |rows| && Get(rows[i], m) == s.hi
    ensures forall i :: 0 <= i < |rows| ==> s.lo <= Get(rows[i], m) <= s.hi
    ensures s.lo <= s.hi
  {
    var c := Column(rows, m);
    var s := Span(Min(c), Max(c));
    assert exists i :: 0 <= i < |c| && c[i] == s.lo;
    assert exists i :: 0 <= i < |c| && c[i] == s.hi;
    s
  }

  /** The spans of all five metrics. */
  datatype Scale = Scale(accuracy: Span, precision: Span, recall: Span, f1: Span, cost: Span) {

    function For(m: Metric): (s: Span)
      ensures Valid() ==> s.lo < s.hi
    {
      match m
      case Accuracy => accuracy
      case Precision => precision
      case Recall => recall
      case F1Score => f1
      case Cost => cost
    }

    /** Every span is non-degenerate, so every normalisation is defined. */
    predicate Valid() {
      && accuracy.lo < accuracy.hi
      && precision.lo < precision.hi
      && recall.lo < recall.hi
      && f1.lo < f1.hi
      && cost.lo < cost.hi
    }
  }

  /** `r` lies inside every span of `scale`. */
  predicate Within(r: ResultRow, scale: Scale) {
    forall m: Metric :: scale.For(m).lo <= Get(r, m) <= scale.For(m).hi
  }

  predicate Degenerate(rows: seq<ResultRow>, m: Metric)
    requires |rows| > 0
  {
    SpanOf(rows, m).lo == SpanOf(rows, m).hi
  }

  /** The spans of the summary's metrics, or the first metric, in the order the comparator
      normalises them, whose span is a single value. */
  function ScaleOf(rows: seq<ResultRow>): (r: Result<Scale, RankError>)
    requires |rows| > 0
    ensures r.Err? ==> Degenerate(rows, r.error.metric)
    ensures r.Ok? ==> r.value.Valid()
    ensures r.Ok? ==> forall m: Metric :: r.value.For(m) == SpanOf(rows, m)
  {
    if Degenerate(rows, Accuracy) then Err(DegenerateRange(Accuracy))
    else if Degenerate(rows, Precision) then Err(DegenerateRange(Precision))
    else if Degenerate(rows, Recall) then Err(DegenerateRange(Recall))
    else if Degenerate(rows, F1Score) then Err(DegenerateRange(F1Score))
    else if Degenerate(rows, Cost) then Err(DegenerateRange(Cost))
    else Ok(SpanScale(rows))
  }

  /** The scale made of the summary's own spans, degenerate or not. */
  function SpanScale(rows: seq<ResultRow>): (scale: Scale)
    requires |rows| > 0
    ensures forall m: Metric :: scale.For(m) == SpanOf(rows, m)
  {
    var scale := Scale(SpanOf(rows, Accuracy), SpanOf(rows, Precision), SpanOf(rows, Recall),
                       SpanOf(rows, F1Score), SpanOf(rows, Cost));
    ScaleFieldsAreSpans(rows, scale);
    scale
  }

  lemma ScaleFieldsAreSpans(rows: seq<ResultRow>, scale: Scale)
    requires |rows| > 0
    requires scale == Scale(SpanOf(rows, Accuracy), SpanOf(rows, Precision), SpanOf(rows, Recall),
                            SpanOf(rows, F1Score), SpanOf(rows, Cost))
    ensures forall m: Metric :: scale.For(m) == SpanOf(rows, m)
  {
    forall m: Metric
      ensures scale.For(m) == SpanOf(rows, m)
    {
      match m
      case Accuracy =>
      case Precision =>
      case Recall =>
      case F1Score =>
      case Cost =>
    }
  }

  /** The ranking fails exactly when some metric takes a single value across the summary. */
  lemma ScaleOfFailsIffDegenerate(rows: seq<ResultRow>)
    requires |rows| > 0
    ensures ScaleOf(rows).Err? <==> exists m: Metric :: Degenerate(rows, m)
  {
    if exists m: Metric :: Degenerate(rows, m) {
      var m: Metric :| Degenerate(rows, m);
      match m
      case Accuracy =>
      case Precision =>
      case Recall =>
      case F1Score =>
      case Cost =>
    } else {
      assert !Degenerate(rows, Accuracy) && !Degenerate(rows, Precision) && !Degenerate(rows, Recall);
      assert !Degenerate(rows, F1Score) && !Degenerate(rows, Cost);
    }
  }

  /** When no metric is degenerate, the scale is made of the summary's own spans. */
  lemma ScaleOfProper(rows: seq<ResultRow>)
    requires |rows| > 0
    requires !Degenerate(rows, Accuracy) && !Degenerate(rows, Precision) && !Degenerate(rows, Recall)
    requires !Degenerate(rows, F1Score) && !Degenerate(rows, Cost)
    ensures ScaleOf(rows) == Ok(Scale(SpanOf(rows, Accuracy), SpanOf(rows, Precision), SpanOf(rows, Recall),
                                      SpanOf(rows, F1Score), SpanOf(rows, Cost)))
  {
  }

  /** Min-max normalisation of `v` against span `s`. */
  function Normalize(v: real, s: Span): (n: real)
    requires s.lo < s.hi
    ensures s.lo <= v <= s.hi ==> 0.0 <= n <= 1.0
    ensures n == 0.0 <==> v == s.lo
    ensures n == 1.0 <==> v == s.hi
  {
    var n := (v - s.lo) / (s.hi - s.lo);
    assert n * (s.hi - s.lo) == v - s.lo;
    n
  }

  /** The normalised value of metric `m` for row `r`; Cost is inverted so the cheapest row
      gets 1 and the most expensive gets 0. */
  function NormalizedValue(r: ResultRow, m: Metric, s: Span): (n: real)
    requires s.lo < s.hi
    ensures s.lo <= Get(r, m) <= s.hi ==> 0.0 <= n <= 1.0
    ensures m != Cost ==> (n == 1.0 <==> Get(r, m) == s.hi) && (n == 0.0 <==> Get(r, m) == s.lo)
    ensures m == Cost ==> (n == 1.0 <==> Get(r, m) == s.lo) && (n == 0.0 <==> Get(r, m) == s.hi)
  {
    if m == Cost then 1.0 - Normalize(Get(r, m), s) else Normalize(Get(r, m), s)
  }

  /** The composite score: the weighted sum of the five normalised values. A row inside the
      spans scores between 0 and the sum of the weights. */
  function Score(r: ResultRow, scale: Scale): (x: real)
    requires scale.Valid()
    ensures Within(r, scale) ==> 0.0 <= x <= TopScore
  {
    Weight(Accuracy) * NormalizedValue(r, Accuracy, scale.accuracy)
    + Weight(Precision) * NormalizedValue(r, Precision, scale.precision)
    + Weight(Recall) * NormalizedValue(r, Recall, scale.recall)
    + Weight(F1Score) * NormalizedValue(r, F1Score, scale.f1)
    + Weight(Cost) * NormalizedValue(r, Cost, scale.cost)
  }

  /** Every row of the summary lies inside the summary's own spans. */
  lemma RowsWithinScale(rows: seq<ResultRow>, scale: Scale, r: ResultRow)
    requires |rows| > 0 && ScaleOf(rows) == Ok(scale)
    requires r in rows
    ensures Within(r, scale)
  {
    var i :| 0 <= i < |rows| && rows[i] == r;
    forall m: Metric
      ensures scale.For(m).lo <= Get(r, m) <= scale.For(m).hi
    {
      assert scale.For(m) == SpanOf(rows, m);
    }
  }

  /** For each metric, the normalised values across the summary lie in [0, 1]; a row holding
      the metric's maximum gets 1 and a row holding its minimum gets 0, the other way round for
      Cost; and both 1 and 0 occur. */
  lemma NormalizedExtremes(rows: seq<ResultRow>, scale: Scale, m: Metric)
    requires |rows| > 0 && ScaleOf(rows) == Ok(scale)
    ensures forall i :: 0 <= i < |rows| ==> 0.0 <= NormalizedValue(rows[i], m, scale.For(m)) <= 1.0
    ensures forall i :: 0 <= i < |rows| && (forall j :: 0 <= j < |rows| ==> Get(rows[j], m) <= Get(rows[i], m)) ==>
              NormalizedValue(rows[i], m, scale.For(m)) == (if m == Cost then 0.0 else 1.0)
    ensures forall i :: 0 <= i < |rows| && (forall j :: 0 <= j < |rows| ==> Get(rows[i], m) <= Get(rows[j], m)) ==>
              NormalizedValue(rows[i], m, scale.For(m)) == (if m == Cost then 1.0 else 0.0)
    ensures exists i :: 0 <= i < |rows| && NormalizedValue(rows[i], m, scale.For(m)) == 1.0
    ensures exists i :: 0 <= i < |rows| && NormalizedValue(rows[i], m, scale.For(m)) == 0.0
  {
    assert scale.Valid() && scale.For(m) == SpanOf(rows, m);
    SpanExtremes(rows, m, scale.For(m));
  }

  /** The facts of NormalizedExtremes for any span that the rows attain at both ends. */
  lemma SpanExtremes(rows: seq<ResultRow>, m: Metric, s: Span)
    requires s.lo < s.hi
    requires exists i :: 0 <= i < |rows| && Get(rows[i], m) == s.lo
    requires exists i :: 0 <= i < |rows| && Get(rows[i], m) == s.hi
    requires forall i :: 0 <= i < |rows| ==> s.lo <= Get(rows[i], m) <= s.hi
    ensures forall i :: 0 <= i < |rows| ==> 0.0 <= NormalizedValue(rows[i], m, s) <= 1.0
    ensures forall i :: 0 <= i < |rows| && (forall j :: 0 <= j < |rows| ==> Get(rows[j], m) <= Get(rows[i], m)) ==>
              NormalizedValue(rows[i], m, s) == (if m == Cost then 0.0 else 1.0)
    ensures forall i :: 0 <= i < |rows| && (forall j :: 0 <= j < |rows| ==> Get(rows[i], m) <= Get(rows[j], m)) ==>
              NormalizedValue(rows[i], m, s) == (if m == Cost then 1.0 else 0.0)
    ensures exists i :: 0 <= i < |rows| && NormalizedValue(rows[i], m, s) == 1.0
    ensures exists i :: 0 <= i < |rows| && NormalizedValue(rows[i], m, s) == 0.0
  {
  }

  /** A row reaches the top score exactly when it has the highest Accuracy, Precision, Recall
      and F1-Score and the lowest Cost of the spans. */
  lemma TopScoreIffBestOnEveryMetric(r: ResultRow, scale: Scale)
    requires scale.Valid() && Within(r, scale)
    ensures Score(r, scale) == TopScore <==>
              && r.accuracy == scale.accuracy.hi
              && r.precision == scale.precision.hi
              && r.recall == scale.recall.hi
              && r.f1 == scale.f1.hi
              && r.cost == scale.cost.lo
  {
  }

  /** A larger value never normalises lower. */
  lemma NormalizeMonotone(v: real, w: real, s: Span)
    requires s.lo < s.hi && v <= w
    ensures Normalize(v, s) <= Normalize(w, s)
  {
    var d := s.hi - s.lo;
    assert (w - s.lo) / d - (v - s.lo) / d == (w - v) / d;
  }

  /** `a` is at least as good as `b` on every metric: no lower Accuracy, Precision, Recall or
      F1-Score, and no higher Cost. */
  predicate AtLeastAsGood(a: ResultRow, b: ResultRow) {
    && a.accuracy >= b.accuracy && a.precision >= b.precision
    && a.recall >= b.recall && a.f1 >= b.f1
    && a.cost <= b.cost
  }

  /** Under the same spans, a row at least as good on every metric scores at least as high. */
  lemma ScoreMonotone(a: ResultRow, b: ResultRow, scale: Scale)
    requires scale.Valid()
    requires AtLeastAsGood(a, b)
    ensures Score(a, scale) >= Score(b, scale)
  {
    NormalizeMonotone(b.accuracy, a.accuracy, scale.accuracy);
    NormalizeMonotone(b.precision, a.precision, scale.precision);
    NormalizeMonotone(b.recall, a.recall, scale.recall);
    NormalizeMonotone(b.f1, a.f1, scale.f1);
    NormalizeMonotone(a.cost, b.cost, scale.cost);
  }

  /** Raising entry `k` of a column, with every other entry unchanged, never lowers entry
      `k`'s normalised value, although the column's span moves with it. */
  lemma RaisedEntryNormalizesHigher(c: seq<real>, c': seq<real>, k: nat)
    requires |c| == |c'| && k < |c|
    requires forall j :: 0 <= j < |c| && j != k ==> c'[j] == c[j]
    requires c[k] <= c'[k]
    requires Min(c) < Max(c) && Min(c') < Max(c')
    ensures Normalize(c[k], Span(Min(c), Max(c))) <= Normalize(c'[k], Span(Min(c'), Max(c')))
  {
    var s, s' := Span(Min(c), Max(c)), Span(Min(c'), Max(c'));
    if c'[k] != s'.hi {
      // Some other entry holds the new maximum, and it held the old one too.
      var jh :| 0 <= jh < |c'| && c'[jh] == s'.hi;
      var ih :| 0 <= ih < |c| && c[ih] == s.hi;
      assert jh != k && c[jh] == s'.hi;
      if ih != k {
        assert c'[ih] == s.hi;
      }
      assert s.hi == s'.hi;
      if c[k] != s.lo {
        // Some other entry holds the old minimum, and it holds the new one too.
        var il :| 0 <= il < |c| && c[il] == s.lo;
        var jl :| 0 <= jl < |c'| && c'[jl] == s'.lo;
        assert il != k && c'[il] == s.lo;
        if jl != k {
          assert c[jl] == s'.lo;
        }
        assert s.lo == s'.lo;
        NormalizeMonotone(c[k], c'[k], s);
      }
    }
  }

  /** The same for metric `m` of a row: raising row `k`'s value, with the other rows unchanged,
      never lowers its normalised value against the recomputed span. */
  lemma RaisedValueNormalizesHigher(rows: seq<ResultRow>, rows': seq<ResultRow>, k: nat, m: Metric)
    requires |rows| == |rows'| && k < |rows|
    requires forall j :: 0 <= j < |rows| && j != k ==> rows'[j] == rows[j]
    requires Get(rows[k], m) <= Get(rows'[k], m)
    requires !Degenerate(rows, m) && !Degenerate(rows', m)
    ensures Normalize(Get(rows[k], m), SpanOf(rows, m)) <= Normalize(Get(rows'[k], m), SpanOf(rows', m))
  {
    var c, c' := Column(rows, m), Column(rows', m);
    assert SpanOf(rows, m) == Span(Min(c), Max(c));
    assert SpanOf(rows', m) == Span(Min(c'), Max(c'));
    RaisedEntryNormalizesHigher(c, c', k);
  }

  /** Improving one summary row on every metric, with the other rows unchanged, never lowers
      that row's composite score, although the spans are recomputed over the new summary. */
  lemma ScoreMonotoneInOwnRow(summary: seq<SummaryRow>, summary': seq<SummaryRow>, k: nat,
                              scale: Scale, scale': Scale)
    requires |summary| == |summary'| && k < |summary|
    requires forall j :: 0 <= j < |summary| && j != k ==> summary'[j].row == summary[j].row
    requires AtLeastAsGood(summary'[k].row, summary[k].row)
    requires ScaleOf(Rows(summary)) == Ok(scale) && ScaleOf(Rows(summary')) == Ok(scale')
    ensures Score(summary'[k].row, scale') >= Score(summary[k].row, scale)
  {
    var rows, rows' := Rows(summary), Rows(summary');
    assert forall j :: 0 <= j < |rows| && j != k ==> rows'[j] == rows[j];
    ImprovedRowScoresHigher(rows, rows', k, scale, scale');
  }

  /** ScoreMonotoneInOwnRow on the rows, with the scales given by their spans. */
  lemma ImprovedRowScoresHigher(rows: seq<ResultRow>, rows': seq<ResultRow>, k: nat, scale: Scale, scale': Scale)
    requires |rows| == |rows'| && k < |rows|
    requires forall j :: 0 <= j < |rows| && j != k ==> rows'[j] == rows[j]
    requires AtLeastAsGood(rows'[k], rows[k])
    requires scale.Valid() && forall m: Metric :: scale.For(m) == SpanOf(rows, m)
    requires scale'.Valid() && forall m: Metric :: scale'.For(m) == SpanOf(rows', m)
    ensures Score(rows'[k], scale') >= Score(rows[k], scale)
  {
    forall m: Metric
      ensures NormalizedValue(rows[k], m, scale.For(m)) <= NormalizedValue(rows'[k], m, scale'.For(m))
    {
      MetricImproves(rows, rows', k, scale, scale', m);
    }
    ScoreFromTerms(rows'[k], rows[k], scale', scale);
  }

  /** A row whose every normalised value is at least another's scores at least as high. */
  lemma ScoreFromTerms(a: ResultRow, b: ResultRow, scale': Scale, scale: Scale)
    requires scale.Valid() && scale'.Valid()
    requires forall m: Metric :: NormalizedValue(b, m, scale.For(m)) <= NormalizedValue(a, m, scale'.For(m))
    ensures Score(a, scale') >= Score(b, scale)
  {
    var da := NormalizedValue(a, Accuracy, scale'.accuracy) - NormalizedValue(b, Accuracy, scale.accuracy);
    var dp := NormalizedValue(a, Precision, scale'.precision) - NormalizedValue(b, Precision, scale.precision);
    var dr := NormalizedValue(a, Recall, scale'.recall) - NormalizedValue(b, Recall, scale.recall);
    var df := NormalizedValue(a, F1Score, scale'.f1) - NormalizedValue(b, F1Score, scale.f1);
    var dc := NormalizedValue(a, Cost, scale'.cost) - NormalizedValue(b, Cost, scale.cost);
    assert scale.For(Accuracy) == scale.accuracy && scale'.For(Accuracy) == scale'.accuracy;
    assert scale.For(Precision) == scale.precision && scale'.For(Precision) == scale'.precision;
    assert scale.For(Recall) == scale.recall && scale'.For(Recall) == scale'.recall;
    assert scale.For(F1Score) == scale.f1 && scale'.For(F1Score) == scale'.f1;
    assert scale.For(Cost) == scale.cost && scale'.For(Cost) == scale'.cost;
    assert da >= 0.0 && dp >= 0.0 && dr >= 0.0 && df >= 0.0 && dc >= 0.0;
    assert Score(a, scale') - Score(b, scale) == 1.0 * da + 1.0 * dp + 1.5 * dr + 1.5 * df + 2.0 * dc;
  }

  /** One metric of the improved row: a quality value that did not drop normalises no lower,
      and a Cost that did not rise normalises no higher, so its inverted value does not drop. */
  lemma MetricImproves(rows: seq<ResultRow>, rows': seq<ResultRow>, k: nat, scale: Scale, scale': Scale, m: Metric)
    requires |rows| == |rows'| && k < |rows|
    requires forall j :: 0 <= j < |rows| && j != k ==> rows'[j] == rows[j]
    requires AtLeastAsGood(rows'[k], rows[k])
    requires scale.Valid() && scale.For(m) == SpanOf(rows, m)
    requires scale'.Valid() && scale'.For(m) == SpanOf(rows', m)
    ensures NormalizedValue(rows[k], m, scale.For(m)) <= NormalizedValue(rows'[k], m, scale'.For(m))
  {
    if m == Cost {
      RaisedValueNormalizesHigher(rows', rows, k, m);
    } else {
      RaisedValueNormalizesHigher(rows, rows', k, m);
    }
  }

  /** Every row is flagged exactly when no row scores higher. */
  predicate FlagsExactlyMax(s: seq<RankedRow>) {
    forall x :: x in s ==> (x.isOverallBest <==> forall y :: y in s ==> y.score <= x.score)
  }

  /** When one row scores strictly higher than every other, it is the only row flagged. */
  lemma UniqueTopScoreUniqueFlag(s: seq<RankedRow>, i: nat)
    requires FlagsExactlyMax(s)
    requires i < |s|
    requires forall j :: 0 <= j < |s| && j != i ==> s[j].score < s[i].score
    ensures s[i].isOverallBest
    ensures forall j :: 0 <= j < |s| && j != i ==> !s[j].isOverallBest
  {
  }

  /** Scores each summary row and flags the rows whose score equals the maximum score. */
  function ScoreRows(summary: seq<SummaryRow>, scale: Scale): (ranked: seq<RankedRow>)
    requires scale.Valid() && |summary| > 0
    ensures |ranked| == |summary|
    ensures forall i :: 0 <= i < |summary| ==>
              ranked[i].summary == summary[i] && ranked[i].score == Score(summary[i].row, scale)
    ensures forall i :: 0 <= i < |summary| ==>
              (ranked[i].isOverallBest <==> forall j :: 0 <= j < |summary| ==> ranked[j].score <= ranked[i].score)
    ensures FlagsExactlyMax(ranked)
    ensures exists i :: 0 <= i < |summary| && ranked[i].isOverallBest
  {
    var scores := seq(|summary|, i requires 0 <= i < |summary| => Score(summary[i].row, scale));
    var top := Max(scores);
    var ranked := seq(|summary|, i requires 0 <= i < |summary| => RankedRow(summary[i], scores[i], scores[i] == top));
    assert exists i :: 0 <= i < |scores| && scores[i] == top;
    ranked
  }

  predicate SortedByScore(s: seq<RankedRow>) {
    forall i, j :: 0 <= i < j < |s| ==> s[i].score >= s[j].score
  }

  /** Inserts `x` before the first row whose score is not higher than its own. */
  function Insert(x: RankedRow, s: seq<RankedRow>): (r: seq<RankedRow>)
    requires SortedByScore(s)
    ensures SortedByScore(r)
    ensures multiset(r) == multiset(s) + multiset{x}
    ensures forall y :: y in r ==> y == x || y in s
  {
    if |s| == 0 then [x]
    else if x.score >= s[0].score then [x] + s
    else
      var rest := Insert(x, s[1..]);
      assert s == [s[0]] + s[1..];
      assert forall y :: y in rest ==> s[0].score >= y.score;
      [s[0]] + rest
  }

  /** Orders rows by score, highest first (an insertion sort). */
  function SortByScore(s: seq<RankedRow>): (r: seq<RankedRow>)
    ensures SortedByScore(r)
    ensures multiset(r) == multiset(s)
  {
    if |s| == 0 then []
    else
      assert s == [s[0]] + s[1..];
      Insert(s[0], SortByScore(s[1..]))
  }

  lemma PermutationKeepsFlags(a: seq<RankedRow>, b: seq<RankedRow>)
    requires multiset(a) == multiset(b)
    requires FlagsExactlyMax(a)
    ensures FlagsExactlyMax(b)
  {
    assert forall x :: x in a <==> x in multiset(a);
    assert forall x :: x in b <==> x in multiset(b);
  }

  /** Scores, flags and orders a summary whose spans are all non-degenerate. */
  function RankRows(summary: seq<SummaryRow>, scale: Scale): (ranked: seq<RankedRow>)
    requires scale.Valid() && |summary| > 0
    ensures multiset(ranked) == multiset(ScoreRows(summary, scale))
    ensures |ranked| == |summary|
    ensures SortedByScore(ranked)
    ensures FlagsExactlyMax(ranked)
    ensures exists x :: x in ranked && x.isOverallBest
    ensures forall x :: x in ranked ==> x.summary in summary && x.score == Score(x.summary.row, scale)
  {
    var scored := ScoreRows(summary, scale);
    var ranked := SortByScore(scored);
    PermutationKeepsFlags(scored, ranked);
    PermutationKeepsMembers(scored, ranked);
    ScoredRowsFromSummary(summary, scale, scored);
    var i :| 0 <= i < |summary| && scored[i].isOverallBest;
    assert scored[i] in scored;
    ranked
  }

  lemma PermutationKeepsMembers(a: seq<RankedRow>, b: seq<RankedRow>)
    requires multiset(a) == multiset(b)
    ensures |a| == |b|
    ensures forall x :: x in a <==> x in b
  {
    assert |a| == |multiset(a)| == |multiset(b)| == |b|;
    assert forall x :: x in a <==> x in multiset(a);
    assert forall x :: x in b <==> x in multiset(b);
  }

  lemma ScoredRowsFromSummary(summary: seq<SummaryRow>, scale: Scale, scored: seq<RankedRow>)
    requires scale.Valid() && |summary| > 0 && scored == ScoreRows(summary, scale)
    ensures forall x :: x in scored ==> x.summary in summary && x.score == Score(x.summary.row, scale)
  {
  }

  /** Every score given to a row of the summary, against the summary's own spans, is in [0, 7]. */
  lemma RankedScoresBounded(summary: seq<SummaryRow>, scale: Scale, ranked: seq<RankedRow>)
    requires |summary| > 0 && ScaleOf(Rows(summary)) == Ok(scale)
    requires forall x :: x in ranked ==> x.summary in summary && x.score == Score(x.summary.row, scale)
    ensures forall x :: x in ranked ==> 0.0 <= x.score <= TopScore
  {
    var rows := Rows(summary);
    forall x | x in ranked
      ensures 0.0 <= x.score <= TopScore
    {
      var i :| 0 <= i < |summary| && summary[i] == x.summary;
      assert rows[i] in rows;
      RowsWithinScale(rows, scale, rows[i]);
    }
  }

  /** identify_overall_best_model without the charts. */
  function IdentifyOverallBestModel(summary: seq<SummaryRow>): (r: Result<seq<RankedRow>, RankError>)
    ensures |summary| == 0 ==> r == Ok([])
    ensures r.Err? <==> |summary| > 0 && exists m: Metric :: Degenerate(Rows(summary), m)
    ensures r.Err? ==> |summary| > 0 && Degenerate(Rows(summary), r.error.metric)
    ensures r.Ok? && |summary| > 0 ==>
              && ScaleOf(Rows(summary)).Ok?
              && multiset(r.value) == multiset(ScoreRows(summary, ScaleOf(Rows(summary)).value))
    ensures r.Ok? ==> |r.value| == |summary|
    ensures r.Ok? ==> SortedByScore(r.value)
    ensures r.Ok? ==> FlagsExactlyMax(r.value)
    ensures r.Ok? && |summary| > 0 ==> exists x :: x in r.value && x.isOverallBest
    ensures r.Ok? ==> forall x :: x in r.value ==> x.summary in summary && 0.0 <= x.score <= TopScore
  {
    if |summary| == 0 then Ok([])
    else
      ScaleOfFailsIffDegenerate(Rows(summary));
      match ScaleOf(Rows(summary))
      case Err(e) => Err(e)
      case Ok(scale) =>
        var ranked := RankRows(summary, scale);
        RankedScoresBounded(summary, scale, ranked);
        Ok(ranked)
  }
}
