/** Records and datasets: every field is text, and the last field of a record
    is its class label. */
module Data {

  type Row = seq<string>
  type Dataset = seq<Row>

  /** Every record carries at least its label. */
  predicate Labelled(data: Dataset)
  {
    forall row <- data :: |row| > 0
  }

  /** All records have the same number of fields as the first one. */
  predicate Uniform(data: Dataset)
  {
    forall row <- data :: |row| == |data[0]|
  }

  /** The number of attribute columns: every field but the label. */
  function NumFeatures(data: Dataset): nat
  {
    if |data| == 0 || |data[0]| == 0 then 0 else |data[0]| - 1
  }

  /** The class label of a record, `row[len(row)-1]`. */
  function Label(row: Row): string
    requires |row| > 0
  {
    row[|row| - 1]
  }

  /** The label column of a dataset, in row order. */
  function Labels(data: Dataset): (y: seq<string>)
    requires Labelled(data)
    ensures |y| == |data|
    ensures forall i :: 0 <= i < |data| ==> y[i] == Label(data[i])
  {
    seq(|data|, i requires 0 <= i < |data| => Label(data[i]))
  }

  /** Column `c` of a dataset, in row order. */
  function Column(data: Dataset, c: nat): (x: seq<string>)
    requires forall row <- data :: c < |row|
    ensures |x| == |data|
    ensures forall i :: 0 <= i < |data| ==> x[i] == data[i][c]
  {
    seq(|data|, i requires 0 <= i < |data| => data[i][c])
  }

  /** Rows drawn from a uniform dataset form a uniform dataset of the same width. */
  lemma UniformSubset(sub: Dataset, data: Dataset)
    requires |data| > 0 && Uniform(data)
    requires forall row <- sub :: row in data
    ensures Uniform(sub)
    ensures forall row <- sub :: |row| == |data[0]|
  {
  }
}
