/** Best-variant selection: one row per model, chosen by Recall (higher first), then
    Cost (lower first), then F1-Score (higher first), followed by the minimum-cost flag. */
module ModelSummary {
  import opened Results
  import opened Records
  import opened Extrema

  /** A summary row: the selected variant and whether its cost is the lowest in the summary. */
  datatype SummaryRow = SummaryRow(row: ResultRow, isBestCost: bool)

  datatype SummaryError =
    | EmptyTable(index: nat)  // the table at `index` has no variant to select
    | NoModels                // no tables at all: the summary has no cost column

  /** `a` comes strictly before `b` in the selection order. Recall decides first; Cost and
      F1-Score only break ties. */
  predicate Outranks(a: ResultRow, b: ResultRow)
    ensures a.recall > b.recall ==> Outranks(a, b)
    ensures a.recall < b.recall ==> !Outranks(a, b)
    ensures a.recall == b.recall && a.cost != b.cost ==> (Outranks(a, b) <==> a.cost < b.cost)
    ensures SameKeys(a, b) ==> !Outranks(a, b)
  {
    || a.recall > b.recall
    || (a.recall == b.recall && a.cost < b.cost)
    || (a.recall == b.recall && a.cost == b.cost && a.f1 > b.f1)
  }

  /** `a` and `b` agree on all three selection keys. */
  predicate SameKeys(a: ResultRow, b: ResultRow) {
    a.recall == b.recall && a.cost == b.cost && a.f1 == b.f1
  }

  /** Position of the row a stable sort by the selection order puts first: no row outranks it,
      and it outranks every row before it (so among rows with equal keys it is the earliest). */
  function BestVariantIndex(table: seq<ResultRow>): (i: nat)
    requires |table| > 0
    ensures i < |table|
    ensures forall j :: 0 <= j < |table| ==> !Outranks(table[j], table[i])
    ensures forall j :: 0 <= j < i ==> Outranks(table[i], table[j])
  {
    if |table| == 1 then 0
    else
      var k := BestVariantIndex(table[..|table| - 1]);
      if Outranks(table[|table| - 1], table[k]) then |table| - 1 else k
  }

  function BestVariant(table: seq<ResultRow>): (r: ResultRow)
    requires |table| > 0
    ensures r in table
    ensures forall x :: x in table ==> !Outranks(x, r)
  {
    table[BestVariantIndex(table)]
  }

  /** The selection order is a strict weak order: any two rows either have the same keys or
      exactly one outranks the other. */
  lemma OutranksTrichotomy(a: ResultRow, b: ResultRow)
    ensures SameKeys(a, b) || Outranks(a, b) || Outranks(b, a)
    ensures !(Outranks(a, b) && Outranks(b, a))
    ensures SameKeys(a, b) ==> !Outranks(a, b) && !Outranks(b, a)
  {
  }

  /** The selection order is transitive. */
  lemma OutranksTransitive(a: ResultRow, b: ResultRow, c: ResultRow)
    requires Outranks(a, b) && Outranks(b, c)
    ensures Outranks(a, c)
  {
  }

  /** Among rows with the selected row's keys, the selected one comes first in the table. */
  lemma BestVariantFirstAmongEquals(table: seq<ResultRow>, j: nat)
    requires j < |table| && SameKeys(table[j], table[BestVariantIndex(table)])
    ensures BestVariantIndex(table) <= j
  {
  }

  /** Every row of the table either has the selected row's keys or is outranked by it. */
  lemma BestVariantDominates(table: seq<ResultRow>, x: ResultRow)
    requires |table| > 0 && x in table
    ensures SameKeys(x, BestVariant(table)) || Outranks(BestVariant(table), x)
  {
  }

  /** Any two rows that are optimal under the selection order have the same keys, so the
      selected row's Recall, Cost and F1-Score do not depend on how ties are broken. */
  lemma OptimalRowsShareKeys(table: seq<ResultRow>, x: ResultRow, y: ResultRow)
    requires x in table && y in table
    requires forall z :: z in table ==> !Outranks(z, x)
    requires forall z :: z in table ==> !Outranks(z, y)
    ensures SameKeys(x, y)
  {
  }

  /** Index of the first table with no rows, if any. */
  function FirstEmpty(tables: seq<seq<ResultRow>>): (k: nat)
    ensures k <= |tables|
    ensures k < |tables| ==> |tables[k]| == 0
    ensures forall j :: 0 <= j < k ==> |tables[j]| > 0
  {
    if |tables| == 0 then 0
    else if |tables[0]| == 0 then 0
    else 1 + FirstEmpty(tables[1..])
  }

  /** The loop over the tables: the best variant of each, in table order, or the error the
      first empty table raises. */
  function SelectBestVariants(tables: seq<seq<ResultRow>>): (r: Result<seq<ResultRow>, nat>)
    ensures r.Err? <==> exists j :: 0 <= j < |tables| && |tables[j]| == 0
    ensures r.Err? ==> r.error < |tables| && |tables[r.error]| == 0
                       && forall j :: 0 <= j < r.error ==> |tables[j]| > 0
    ensures r.Ok? ==> |r.value| == |tables|
    ensures r.Ok? ==> forall i :: 0 <= i < |tables| ==> |tables[i]| > 0 && r.value[i] == BestVariant(tables[i])
  {
    var k := FirstEmpty(tables);
    if k < |tables| then Err(k)
    else Ok(seq(|tables|, i requires 0 <= i < |tables| => BestVariant(tables[i])))
  }

  /** Flags every row whose cost equals the minimum cost; no row is dropped or reordered. */
  function FlagBestCost(rows: seq<ResultRow>): (s: seq<SummaryRow>)
    requires |rows| > 0
    ensures |s| == |rows|
    ensures forall i :: 0 <= i < |rows| ==> s[i].row == rows[i]
    ensures forall i :: 0 <= i < |rows| ==>
              (s[i].isBestCost <==> forall j :: 0 <= j < |rows| ==> rows[i].cost <= rows[j].cost)
    ensures exists i :: 0 <= i < |rows| && s[i].isBestCost
  {
    var m := Min(Column(rows, Cost));
    var s := seq(|rows|, i requires 0 <= i < |rows| => SummaryRow(rows[i], rows[i].cost == m));
    assert exists i :: 0 <= i < |rows| && Column(rows, Cost)[i] == m;
    s
  }

  /** generate_model_summary: one summary row per table, in table order, each the best
      variant of its table, flagged when its cost is the lowest of the summary. */
  function GenerateModelSummary(tables: seq<seq<ResultRow>>): (r: Result<seq<SummaryRow>, SummaryError>)
    ensures r.Err? <==> |tables| == 0 || exists j :: 0 <= j < |tables| && |tables[j]| == 0
    ensures r.Err? && r.error.EmptyTable? ==>
              r.error.index < |tables| && |tables[r.error.index]| == 0
              && forall j :: 0 <= j < r.error.index ==> |tables[j]| > 0
    ensures r == Err(NoModels) ==> |tables| == 0
    ensures r.Ok? ==> |r.value| == |tables|
    ensures r.Ok? ==> forall i :: 0 <= i < |tables| ==>
              && |tables[i]| > 0
              && r.value[i].row in tables[i]
              && forall x :: x in tables[i] ==> !Outranks(x, r.value[i].row)
    ensures r.Ok? ==> forall i :: 0 <= i < |tables| ==>
              (r.value[i].isBestCost <==> forall j :: 0 <= j < |tables| ==> r.value[i].row.cost <= r.value[j].row.cost)
    ensures r.Ok? ==> exists i :: 0 <= i < |tables| && r.value[i].isBestCost
  {
    var best :- SelectBestVariants(tables).MapError(i => EmptyTable(i));
    if |best| == 0 then Err(NoModels)
    else Ok(FlagBestCost(best))
  }
}
