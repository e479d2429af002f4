/** The evaluation record of one model configuration variant and the five numeric columns
    the comparator reads from it. */
module Records {

  /** One row of a model's result table. Metric values and cost are exact reals; any other
      columns a table carries are represented by the model name alone. */
  datatype ResultRow = ResultRow(
    model: string,
    accuracy: real,
    precision: real,
    recall: real,
    f1: real,
    cost: real)

  /** The numeric columns that take part in selection and scoring. */
  datatype Metric = Accuracy | Precision | Recall | F1Score | Cost

  function Get(r: ResultRow, m: Metric): real {
    match m
    case Accuracy => r.accuracy
    case Precision => r.precision
    case Recall => r.recall
    case F1Score => r.f1
    case Cost => r.cost
  }

  /** The column of metric `m` across `rows`, in row order. */
  function Column(rows: seq<ResultRow>, m: Metric): (c: seq<real>)
    ensures |c| == |rows|
    ensures forall i :: 0 <= i < |rows| ==> c[i] == Get(rows[i], m)
  {
    seq(|rows|, i requires 0 <= i < |rows| => Get(rows[i], m))
  }
}
