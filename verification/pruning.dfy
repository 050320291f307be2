/** Post-pruning (postPruning/pruning.go): bottom-up, a node whose children
    are both leaves is replaced by a single majority leaf when that raises
    accuracy on held-out validation rows. */
module Pruning {
  import opened GoStrings
  import opened Data
  import opened SplitSearch
  import opened TreeConstruction
  import opened Post

  /** `allChildrenAreLeaves`: a leaf has no children, so it qualifies. */
  predicate AllChildrenAreLeaves(t: Tree)
  {
    match t
    case Leaf(_) => true
    case Node(_, _, left, right) => left.Leaf? && right.Leaf?
  }

  /** A tree qualifies for collapsing exactly when it has at most one level
      of tests: a leaf, or a node over two leaves. */
  lemma AllChildrenAreLeavesIsShallow(t: Tree)
    ensures AllChildrenAreLeaves(t) <==> Height(t) <= 1
  {
    if t.Node? && !AllChildrenAreLeaves(t) {
      assert Height(t.left) >= 1 || Height(t.right) >= 1;
    }
  }

  /** `p` arises from `t` by replacing some subtrees with single leaves and
      leaving every other node's test in place. */
  predicate PrunedFrom(p: Tree, t: Tree)
  {
    match t
    case Leaf(_) => p == t
    case Node(a, v, left, right) =>
      p.Leaf? ||
      (p.Node? && p.attributeIndex == a && p.attributeValue == v &&
       PrunedFrom(p.left, left) && PrunedFrom(p.right, right))
  }

  /** Pruning never deepens a tree and never tests an attribute the
      original does not, so the pruned tree fits every row the original fits. */
  lemma {:induction false} PrunedFromShape(p: Tree, t: Tree, data: Dataset)
    requires PrunedFrom(p, t)
    ensures Height(p) <= Height(t)
    ensures Fits(t, data) ==> Fits(p, data)
  {
    if t.Node? && p.Node? {
      PrunedFromShape(p.left, t.left, data);
      PrunedFromShape(p.right, t.right, data);
      if Fits(t, data) {
        assert Fits(t.left, data) && Fits(t.right, data);
      }
    }
  }

  // ---------------------------------------------------------------------
  // Prune as written: each candidate is judged on the whole validation set
  // ---------------------------------------------------------------------

  /** `Prune`: prune both children first; then, if both are leaves, try
      replacing the node by a leaf carrying the validation set's majority
      label, and keep the replacement only when the accuracy of this subtree
      on the whole validation set strictly rises. */
  function Prune(t: Tree, validation: Dataset): (p: Tree)
    requires |validation| > 0 && Fits(t, validation)
    ensures PrunedFrom(p, t)
    ensures Height(p) <= Height(t)
    ensures Fits(p, validation)
  {
    match t
    case Leaf(_) => t
    case Node(a, v, left, right) =>
      var kept := Node(a, v, Prune(left, validation), Prune(right, validation));
      if AllChildrenAreLeaves(kept) then
        var collapsed := Leaf(MakePrediction(validation));
        if Evaluate(collapsed, validation) <= Evaluate(kept, validation) then kept else collapsed
      else kept
  }

  /** The decision at a node, in correct counts: with both pruned children
      leaves, the node collapses to the majority leaf exactly when that leaf
      is right on strictly more validation rows than the node; in every
      other case the node keeps its test over its pruned children. */
  lemma PruneNodeDecision(t: Tree, validation: Dataset)
    requires |validation| > 0 && Fits(t, validation) && t.Node?
    ensures Fits(t.left, validation) && Fits(t.right, validation)
    ensures var kept := Node(t.attributeIndex, t.attributeValue,
                             Prune(t.left, validation), Prune(t.right, validation));
            var collapsed := Leaf(MakePrediction(validation));
            && Fits(kept, validation) && Fits(collapsed, validation)
            && Prune(t, validation)
               == if kept.left.Leaf? && kept.right.Leaf?
                     && Correct(collapsed, validation) > Correct(kept, validation)
                  then collapsed else kept
  {
    var kept := Node(t.attributeIndex, t.attributeValue,
                     Prune(t.left, validation), Prune(t.right, validation));
    var collapsed := Leaf(MakePrediction(validation));
    EvaluateOrder(collapsed, kept, validation);
  }

  /** A collapsed node carries a label of the validation set that no other
      single leaf beats on the validation rows. */
  lemma PruneCollapseIsMajority(t: Tree, validation: Dataset)
    requires |validation| > 0 && Fits(t, validation) && t.Node?
    requires Prune(t, validation).Leaf?
    ensures Prune(t, validation).classLabel in Labels(validation)
    ensures forall l :: Correct(Leaf(l), validation) <= Correct(Prune(t, validation), validation)
  {
    var winner := MakePrediction(validation);
    PruneNodeDecision(t, validation);
    assert Prune(t, validation) == Leaf(winner);
    LeafCorrect(winner, validation);
    forall l ensures Correct(Leaf(l), validation) <= Correct(Leaf(winner), validation) {
      LeafCorrect(l, validation);
    }
  }

  /** Pruning an already pruned tree changes nothing. */
  lemma {:induction false} PruneIdempotent(t: Tree, validation: Dataset)
    requires |validation| > 0 && Fits(t, validation)
    ensures Prune(Prune(t, validation), validation) == Prune(t, validation)
  {
    if t.Node? {
      var p := Prune(t, validation);
      PruneNodeDecision(t, validation);
      if p.Node? {
        PruneIdempotent(t.left, validation);
        PruneIdempotent(t.right, validation);
        PruneNodeDecision(p, validation);
      }
    }
  }

  /** The tree `Node(0, "b", A, N)` with `A = Node(1, "q", m, w)` and
      `N = Node(0, "c", y, z)` classifies every row of `ExampleRows` correctly. */
  function ExampleTree(): Tree
  {
    Node(0, "b",
      Node(1, "q", Leaf("m"), Leaf("w")),
      Node(0, "c", Leaf("y"), Leaf("z")))
  }

  /** Three rows labelled m that go left at the root, one labelled y and one
      labelled z that go right. */
  function ExampleRows(): Dataset
  {
    [["a", "p", "m"], ["a", "p", "m"], ["a", "p", "m"], ["b", "p", "y"], ["c", "p", "z"]]
  }

  /** Judged on all five rows, the right subtree `N` gets only 2 right (the
      three m rows reach `y`), while a leaf m gets 3, so it collapses; on the
      rows that actually reach it, `N` was perfect. The pruned tree gets 3 of
      the 5 validation rows right where the original got all 5. */
  lemma PruneCanLowerAccuracy()
    ensures Fits(ExampleTree(), ExampleRows())
    ensures Prune(ExampleTree(), ExampleRows()) == Node(0, "b", Node(1, "q", Leaf("m"), Leaf("w")), Leaf("m"))
    ensures Correct(ExampleTree(), ExampleRows()) == 5
    ensures Correct(Prune(ExampleTree(), ExampleRows()), ExampleRows()) == 3
  {
    var rows := ExampleRows();
    var a := Node(1, "q", Leaf("m"), Leaf("w"));
    var n := Node(0, "c", Leaf("y"), Leaf("z"));
    ExampleMajority();
    ExampleTreeCorrect();
    ExampleLeftCorrect();
    ExampleRightCorrect();
    ExampleLeafCorrect();
    ExamplePrunedCorrect();
    PruneNodeDecision(a, rows);
    assert Prune(a, rows) == a;
    PruneNodeDecision(n, rows);
    assert Prune(n, rows) == Leaf("m");
    PruneNodeDecision(ExampleTree(), rows);
  }

  /** The majority label of the example rows is m: it is on three rows,
      every other label on at most one. */
  lemma ExampleMajority()
    ensures MakePrediction(ExampleRows()) == "m"
  {
    var rows := ExampleRows();
    var winner := MakePrediction(rows);
    LeafCorrect("m", rows);
    LeafCorrect(winner, rows);
    ExampleCorrect(Leaf("m"));
    ExampleCorrect(Leaf(winner));
  }

  /** Whether `t` predicts the label of `row`, as 1 or 0. */
  function Hit(t: Tree, row: Row): nat
    requires |row| > 0 && AttrsBelow(t, |row|)
  {
    if Predict(t, row) == Label(row) then 1 else 0
  }

  /** The correct count of any tree testing the first two columns, on the
      example rows: three times its verdict on the m row plus its verdicts on
      the y and z rows. */
  lemma ExampleCorrect(t: Tree)
    requires AttrsBelow(t, 3)
    ensures Fits(t, ExampleRows())
    ensures var m, y, z := ["a", "p", "m"], ["b", "p", "y"], ["c", "p", "z"];
      Correct(t, ExampleRows()) == 3 * Hit(t, m) + Hit(t, y) + Hit(t, z)
  {
    var m, y, z := ["a", "p", "m"], ["b", "p", "y"], ["c", "p", "z"];
    assert ExampleRows() == [m] + ([m] + ([m] + ([y] + [z])));
    CorrectCons(t, z, []);
    CorrectCons(t, y, [z]);
    CorrectCons(t, m, [y] + [z]);
    CorrectCons(t, m, [m] + ([y] + [z]));
    CorrectCons(t, m, [m] + ([m] + ([y] + [z])));
  }

  /** The correct count of a row followed by more rows. */
  lemma CorrectCons(t: Tree, row: Row, rest: Dataset)
    requires |row| > 0 && AttrsBelow(t, |row|) && Fits(t, rest)
    ensures Fits(t, [row] + rest)
    ensures Correct(t, [row] + rest) == Hit(t, row) + Correct(t, rest)
  {
    assert ([row] + rest)[0] == row && ([row] + rest)[1..] == rest;
  }

  /** The string comparisons the example's tests make. */
  lemma ExampleOrder()
    ensures StrLt("a", "b") && !StrLt("b", "b") && !StrLt("c", "b")
    ensures StrLt("a", "c") && StrLt("b", "c") && !StrLt("c", "c")
    ensures StrLt("p", "q")
  {
    StrLtIrreflexive("b");
    StrLtIrreflexive("c");
    assert !StrLt("c", "b") by { StrLtAsymmetric("b", "c"); }
  }

  /** The full example tree is right on every example row. */
  lemma ExampleTreeCorrect()
    ensures Fits(ExampleTree(), ExampleRows())
    ensures Correct(ExampleTree(), ExampleRows()) == 5
  {
    var t := ExampleTree();
    ExampleOrder();
    var m, y, z := ["a", "p", "m"], ["b", "p", "y"], ["c", "p", "z"];
    assert |m| == 3 && |y| == 3 && |z| == 3 && AttrsBelow(t, 3);
    assert m[0] == "a" && y[0] == "b" && z[0] == "c" && m[1] == "p" && y[1] == "p" && z[1] == "p";
    assert Predict(t, m) == Predict(t.left, m) == "m";
    assert Predict(t, y) == Predict(t.right, y) == "y";
    assert Predict(t, z) == Predict(t.right, z) == "z";
    ExampleCorrect(t);
  }

  /** Judged on every example row, the left subtree is right on the m rows only. */
  lemma ExampleLeftCorrect()
    ensures Fits(Node(1, "q", Leaf("m"), Leaf("w")), ExampleRows())
    ensures Correct(Node(1, "q", Leaf("m"), Leaf("w")), ExampleRows()) == 3
  {
    var t := Node(1, "q", Leaf("m"), Leaf("w"));
    ExampleOrder();
    var m, y, z := ["a", "p", "m"], ["b", "p", "y"], ["c", "p", "z"];
    assert |m| == 3 && |y| == 3 && |z| == 3 && AttrsBelow(t, 3);
    assert m[0] == "a" && y[0] == "b" && z[0] == "c" && m[1] == "p" && y[1] == "p" && z[1] == "p";
    assert Predict(t, m) == "m";
    assert Predict(t, y) == "m";
    assert Predict(t, z) == "m";
    ExampleCorrect(t);
  }

  /** Judged on every example row, the right subtree is right on the y and z
      rows only: the m rows reach its y leaf. */
  lemma ExampleRightCorrect()
    ensures Fits(Node(0, "c", Leaf("y"), Leaf("z")), ExampleRows())
    ensures Correct(Node(0, "c", Leaf("y"), Leaf("z")), ExampleRows()) == 2
  {
    var t := Node(0, "c", Leaf("y"), Leaf("z"));
    ExampleOrder();
    var m, y, z := ["a", "p", "m"], ["b", "p", "y"], ["c", "p", "z"];
    assert |m| == 3 && |y| == 3 && |z| == 3 && AttrsBelow(t, 3);
    assert m[0] == "a" && y[0] == "b" && z[0] == "c" && m[1] == "p" && y[1] == "p" && z[1] == "p";
    assert Predict(t, m) == "y";
    assert Predict(t, y) == "y";
    assert Predict(t, z) == "z";
    ExampleCorrect(t);
  }

  /** A leaf m is right on the three m rows. */
  lemma ExampleLeafCorrect()
    ensures Fits(Leaf("m"), ExampleRows())
    ensures Correct(Leaf("m"), ExampleRows()) == 3
  {
    ExampleCorrect(Leaf("m"));
  }

  /** The tree left by pruning is right on the m rows only. */
  lemma ExamplePrunedCorrect()
    ensures Fits(Node(0, "b", Node(1, "q", Leaf("m"), Leaf("w")), Leaf("m")), ExampleRows())
    ensures Correct(Node(0, "b", Node(1, "q", Leaf("m"), Leaf("w")), Leaf("m")), ExampleRows()) == 3
  {
    var t := Node(0, "b", Node(1, "q", Leaf("m"), Leaf("w")), Leaf("m"));
    ExampleOrder();
    var m, y, z := ["a", "p", "m"], ["b", "p", "y"], ["c", "p", "z"];
    assert |m| == 3 && |y| == 3 && |z| == 3 && AttrsBelow(t, 3);
    assert m[0] == "a" && y[0] == "b" && z[0] == "c" && m[1] == "p" && y[1] == "p" && z[1] == "p";
    assert Predict(t, m) == Predict(t.left, m) == "m";
    assert Predict(t, y) == "m";
    assert Predict(t, z) == "m";
    ExampleCorrect(t);
  }

  // ---------------------------------------------------------------------
  // Reduced-error pruning: each candidate judged on the rows reaching it
  // ---------------------------------------------------------------------

  /** The intended pruning: rows are routed down the tree with the node's
      own test, and a node whose pruned children are both leaves collapses to
      the majority leaf of the rows reaching it when that leaf is right on
      strictly more of those rows than the node. */
  function PruneReducedError(t: Tree, reaching: Dataset): (p: Tree)
    requires Fits(t, reaching)
    ensures PrunedFrom(p, t)
    ensures Height(p) <= Height(t)
    ensures Fits(p, reaching)
  {
    match t
    case Leaf(_) => t
    case Node(a, v, left, right) =>
      var (toLeft, toRight) := CorrectNodeSides(a, v, left, right, reaching);
      var prunedLeft, prunedRight := PruneReducedError(left, toLeft), PruneReducedError(right, toRight);
      PrunedFromShape(prunedLeft, left, reaching);
      PrunedFromShape(prunedRight, right, reaching);
      var kept := Node(a, v, prunedLeft, prunedRight);
      if AllChildrenAreLeaves(kept) then
        var collapsed := Leaf(MakePrediction(reaching));
        if Correct(collapsed, reaching) <= Correct(kept, reaching) then kept else collapsed
      else kept
  }

  /** The sides `MakeSplit` routes a node's rows to, with the facts needed to
      recurse on them. */
  function CorrectNodeSides(a: nat, v: string, left: Tree, right: Tree, data: Dataset): (r: (Dataset, Dataset))
    requires Fits(Node(a, v, left, right), data)
    ensures forall row <- data :: a < |row|
    ensures r == MakeSplit(a, v, data, true)
    ensures Fits(left, r.0) && Fits(right, r.1)
    ensures Correct(Node(a, v, left, right), data) == Correct(left, r.0) + Correct(right, r.1)
  {
    CorrectNode(a, v, left, right, data);
    MakeSplit(a, v, data, true)
  }

  /** Reduced-error pruning never lowers the number of rows the tree gets
      right on the data it was pruned with. */
  lemma {:induction false} PruneReducedErrorNeverHurts(t: Tree, reaching: Dataset)
    requires Fits(t, reaching)
    ensures Correct(PruneReducedError(t, reaching), reaching) >= Correct(t, reaching)
  {
    if t.Node? {
      var (a, v, left, right) := (t.attributeIndex, t.attributeValue, t.left, t.right);
      var (toLeft, toRight) := CorrectNodeSides(a, v, left, right, reaching);
      var prunedLeft, prunedRight := PruneReducedError(left, toLeft), PruneReducedError(right, toRight);
      PruneReducedErrorNeverHurts(left, toLeft);
      PruneReducedErrorNeverHurts(right, toRight);
      PrunedFromShape(prunedLeft, left, reaching);
      PrunedFromShape(prunedRight, right, reaching);
      var kept := Node(a, v, prunedLeft, prunedRight);
      var (keptLeft, keptRight) := CorrectNodeSides(a, v, prunedLeft, prunedRight, reaching);
      assert Correct(kept, reaching) >= Correct(t, reaching);
    }
  }

  /** Pruned against the validation set, the corrected procedure never lowers
      the tree's validation accuracy. */
  lemma PruneReducedErrorKeepsAccuracy(t: Tree, validation: Dataset)
    requires |validation| > 0 && Fits(t, validation)
    ensures Fits(PruneReducedError(t, validation), validation)
    ensures Evaluate(PruneReducedError(t, validation), validation) >= Evaluate(t, validation)
  {
    PruneReducedErrorNeverHurts(t, validation);
    EvaluateOrder(t, PruneReducedError(t, validation), validation);
  }
}
