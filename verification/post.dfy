/** Prediction and evaluation (post/post.go): descending a tree by string
    order, and the accuracy of a tree on labelled rows. */
module Post {
  import opened GoStrings
  import opened Data
  import opened SplitSearch
  import opened TreeConstruction

  /** The class labels carried by the leaves of a tree. */
  function LeafLabels(t: Tree): set<string>
  {
    match t
    case Leaf(l) => {l}
    case Node(_, _, left, right) => LeafLabels(left) + LeafLabels(right)
  }

  /** `Predict`: at a node, go left when the row's value in the node's
      attribute is below the node's threshold in string order, else right;
      the answer is the label of the leaf reached. The source indexes the
      row without a check, so the row must have every tested attribute. */
  function Predict(t: Tree, row: Row): (p: string)
    requires AttrsBelow(t, |row|)
    ensures p in LeafLabels(t)
  {
    match t
    case Leaf(l) => l
    case Node(a, v, left, right) =>
      if StrLt(row[a], v) then Predict(left, row) else Predict(right, row)
  }

  /** The rows a tree can be evaluated on: each has a label and every
      attribute the tree tests. */
  predicate Fits(t: Tree, data: Dataset)
  {
    forall row <- data :: |row| > 0 && AttrsBelow(t, |row|)
  }

  /** The number of rows whose prediction equals their label: the source's
      `correct` counter after its loop. */
  function Correct(t: Tree, data: Dataset): (n: nat)
    requires Fits(t, data)
    ensures n <= |data|
    decreases |data|
  {
    if |data| == 0 then 0
    else
      assert forall row <- data[1..] :: row in data;
      (if Predict(t, data[0]) == Label(data[0]) then 1 else 0) + Correct(t, data[1..])
  }

  /** `Evaluate`: the fraction of rows predicted correctly. The source divides
      by the row count, so the data must not be empty. */
  function Evaluate(t: Tree, data: Dataset): (acc: real)
    requires |data| > 0 && Fits(t, data)
    ensures 0.0 <= acc <= 1.0
  {
    var c, n := Correct(t, data) as real, |data| as real;
    UnitQuotient(c, n);
    c / n
  }

  /** Two trees compare on accuracy exactly as they compare on correct
      counts: accuracies over the same rows share their denominator. */
  lemma EvaluateOrder(t1: Tree, t2: Tree, data: Dataset)
    requires |data| > 0 && Fits(t1, data) && Fits(t2, data)
    ensures Evaluate(t1, data) <= Evaluate(t2, data) <==> Correct(t1, data) <= Correct(t2, data)
    ensures Evaluate(t1, data) == Evaluate(t2, data) <==> Correct(t1, data) == Correct(t2, data)
  {
    QuotientOrder(Correct(t1, data) as real, Correct(t2, data) as real, |data| as real);
  }

  /** A part divided by its positive whole lies between 0 and 1. */
  lemma UnitQuotient(c: real, n: real)
    requires 0.0 <= c <= n && n > 0.0
    ensures 0.0 <= c / n <= 1.0
  {
    var q := c / n;
    assert q * n == c;
  }

  /** Dividing by the same positive number keeps order and equality. */
  lemma QuotientOrder(x: real, y: real, n: real)
    requires n > 0.0
    ensures x / n <= y / n <==> x <= y
    ensures x / n == y / n <==> x == y
  {
    assert x == (x / n) * n && y == (y / n) * n;
    if x / n <= y / n {
      assert (x / n) * n <= (y / n) * n;
    }
  }

  /** A single leaf is right on exactly the rows carrying its label. */
  lemma {:induction false} LeafCorrect(l: string, data: Dataset)
    requires Labelled(data)
    ensures Fits(Leaf(l), data)
    ensures Correct(Leaf(l), data) == LabelCount(data, l)
    decreases |data|
  {
    if |data| > 0 {
      assert forall row <- data[1..] :: row in data;
      LeafCorrect(l, data[1..]);
      assert Labels(data) == [Label(data[0])] + Labels(data[1..]);
      assert multiset(Labels(data)) == multiset{Label(data[0])} + multiset(Labels(data[1..]));
      assert Correct(Leaf(l), data)
          == (if Label(data[0]) == l then 1 else 0) + Correct(Leaf(l), data[1..]);
    }
  }

  /** The accuracy of a single leaf is the share of rows carrying its label. */
  lemma EvaluateLeaf(l: string, data: Dataset)
    requires |data| > 0 && Labelled(data)
    ensures Fits(Leaf(l), data)
    ensures Evaluate(Leaf(l), data) == (LabelCount(data, l) as real) / (|data| as real)
  {
    LeafCorrect(l, data);
  }

  /** The correct count adds up over consecutive blocks of rows. */
  lemma {:induction false} CorrectConcat(t: Tree, a: Dataset, b: Dataset)
    requires Fits(t, a) && Fits(t, b)
    ensures Fits(t, a + b)
    ensures Correct(t, a + b) == Correct(t, a) + Correct(t, b)
    decreases |a|
  {
    if |a| > 0 {
      assert forall row <- a[1..] :: row in a;
      assert (a + b)[0] == a[0] && (a + b)[1..] == a[1..] + b;
      CorrectConcat(t, a[1..], b);
    } else {
      assert a + b == b;
    }
  }

  /** Prediction routes rows exactly as the partitioner splits them on the
      same test: a node's correct count is its left child's count on the
      rows `MakeSplit` sends left plus its right child's count on the rest. */
  lemma {:induction false} CorrectNode(a: nat, v: string, left: Tree, right: Tree, data: Dataset)
    requires Fits(Node(a, v, left, right), data)
    ensures forall row <- data :: a < |row|
    ensures var (toLeft, toRight) := MakeSplit(a, v, data, true);
      && Fits(left, toLeft) && Fits(right, toRight)
      && Correct(Node(a, v, left, right), data) == Correct(left, toLeft) + Correct(right, toRight)
    decreases |data|
  {
    if |data| > 0 {
      assert forall row <- data[1..] :: row in data;
      CorrectNode(a, v, left, right, data[1..]);
      var (l0, r0) := MakeSplit(a, v, data[1..], true);
      var row := data[0];
      var hit := Predict(Node(a, v, left, right), row) == Label(row);
      assert Correct(Node(a, v, left, right), data)
          == (if hit then 1 else 0) + Correct(Node(a, v, left, right), data[1..]);
      if StrLt(row[a], v) {
        assert MakeSplit(a, v, data, true) == ([row] + l0, r0);
        assert ([row] + l0)[1..] == l0;
      } else {
        assert MakeSplit(a, v, data, true) == (l0, [row] + r0);
        assert ([row] + r0)[1..] == r0;
      }
    }
  }
}
