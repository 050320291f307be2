/** Tree construction (treeMaking/treeconstruction.go): oversampling of the
    "true"-labelled rows and the depth-bounded recursive builder.

    A node is either a leaf carrying a class label or an internal node with an
    attribute index, a threshold and exactly two children; the source's
    `Children` map with keys "left" and "right" becomes the two fields
    `left` and `right`, so every tree is a full binary tree by construction. */
module TreeConstruction {
  import opened Results
  import opened Seqs
  import opened Data
  import opened SplitSearch

  /** The source's `maxDepth`. */
  const MaxDepth: nat := 8

  datatype Tree =
    | Leaf(classLabel: string)
    | Node(attributeIndex: nat, attributeValue: string, left: Tree, right: Tree)

  /** Number of internal nodes on the longest root-to-leaf path. */
  function Height(t: Tree): nat
  {
    match t
    case Leaf(_) => 0
    case Node(_, _, l, r) => 1 + (if Height(l) < Height(r) then Height(r) else Height(l))
  }

  /** Every attribute index in the tree is below `w`. */
  predicate AttrsBelow(t: Tree, w: nat)
  {
    match t
    case Leaf(_) => true
    case Node(a, _, l, r) => a < w && AttrsBelow(l, w) && AttrsBelow(r, w)
  }

  // ---------------------------------------------------------------------
  // Oversampling
  // ---------------------------------------------------------------------

  /** A row counts as "yes" when its label is exactly "true". */
  predicate IsYes(row: Row)
  {
    |row| > 0 && Label(row) == "true"
  }

  /** The "yes" rows, in order. */
  function YesRecords(data: Dataset): (yes: Dataset)
    ensures forall row :: row in yes <==> row in data && IsYes(row)
  {
    FilterMembers(data, IsYes);
    Filter(data, IsYes)
  }

  /** All other rows, in order. */
  function NoRecords(data: Dataset): (no: Dataset)
    ensures forall row :: row in no <==> row in data && !IsYes(row)
  {
    FilterMembers(data, Not(IsYes));
    Filter(data, Not(IsYes))
  }

  /** The duplication loop: while there are fewer yes rows than `target`,
      append a copy of the yes row at index `pick(n) % n`, `n` being the
      current number of yes rows (the source draws it with `rand.Intn(n)`). */
  function Duplicate(yes: Dataset, target: nat, pick: nat -> nat): (r: Dataset)
    requires |yes| == 0 ==> target == 0
    ensures |r| == if |yes| < target then target else |yes|
    ensures r[..|yes|] == yes
    ensures forall row <- r :: row in yes
    decreases target - |yes|
  {
    if |yes| >= target then yes
    else
      var grown := yes + [yes[pick(|yes|) % |yes|]];
      var r := Duplicate(grown, target, pick);
      assert r[..|yes|] == r[..|grown|][..|yes|];
      r
  }

  /** `oversampleRecords`: the yes rows, then duplicates of yes rows until
      there are as many as no rows, then the no rows in their original order. */
  function OversampleRecords(data: Dataset, pick: nat -> nat): (r: Dataset)
    requires Labelled(data)
    requires |NoRecords(data)| > 0 ==> |YesRecords(data)| > 0
    ensures var yes, no := YesRecords(data), NoRecords(data);
      && |r| == (if |yes| < |no| then |no| else |yes|) + |no|
      && r[..|yes|] == yes
      && r[|r| - |no|..] == no
      && forall row <- r[..|r| - |no|] :: row in yes
  {
    var yes, no := YesRecords(data), NoRecords(data);
    var grown := Duplicate(yes, |no|, pick);
    var r := grown + no;
    assert r[..|yes|] == grown[..|yes|];
    assert r[..|r| - |no|] == grown;
    r
  }

  /** The oversampled data holds exactly the rows of the input: every yes
      row keeps its place at the front, copies are of yes rows, and every no
      row is in the tail. */
  lemma OversampleSameRows(data: Dataset, pick: nat -> nat)
    requires Labelled(data)
    requires |NoRecords(data)| > 0 ==> |YesRecords(data)| > 0
    ensures forall row :: row in OversampleRecords(data, pick) <==> row in data
  {
    var r, yes, no := OversampleRecords(data, pick), YesRecords(data), NoRecords(data);
    var head, tail := r[..|r| - |no|], r[|r| - |no|..];
    assert r == head + tail;
    forall row ensures row in r <==> row in data {
      if row in data {
        FilterPartition(data, IsYes);
        assert row in multiset(data);
        assert row in yes || row in no;
        if row in yes { assert row == r[..|yes|][IndexOf(yes, row)]; }
      }
    }
  }

  /** The front of the oversampled data is all yes rows and the tail all no rows. */
  lemma OversampleSides(data: Dataset, pick: nat -> nat)
    requires Labelled(data)
    requires |NoRecords(data)| > 0 ==> |YesRecords(data)| > 0
    ensures var r, no := OversampleRecords(data, pick), NoRecords(data);
      && (forall row <- r[..|r| - |no|] :: IsYes(row))
      && (forall row <- r[|r| - |no|..] :: !IsYes(row))
  {
    var yes, no := YesRecords(data), NoRecords(data);
    assert forall row <- yes :: IsYes(row);
    assert forall row <- no :: Not(IsYes)(row);
  }

  /** After oversampling with fewer yes than no rows, the classes are balanced. */
  lemma OversampleBalances(data: Dataset, pick: nat -> nat)
    requires Labelled(data)
    requires 0 < |YesRecords(data)| < |NoRecords(data)|
    ensures |YesRecords(OversampleRecords(data, pick))| == |NoRecords(data)|
    ensures NoRecords(OversampleRecords(data, pick)) == NoRecords(data)
  {
    var r, no := OversampleRecords(data, pick), NoRecords(data);
    var head := r[..|r| - |no|];
    assert r == head + no;
    OversampleSides(data, pick);
    SelectHeadTail(head, no, IsYes);
    SelectHeadTail(head, no, Not(IsYes));
  }

  /** Selection on `head + tail` where the predicate holds throughout
      `head` and nowhere in `tail`, and the reverse. */
  lemma SelectHeadTail(head: Dataset, tail: Dataset, p: Row -> bool)
    ensures (forall row <- head :: p(row)) && (forall row <- tail :: !p(row)) ==> Filter(head + tail, p) == head
    ensures (forall row <- head :: !p(row)) && (forall row <- tail :: p(row)) ==> Filter(head + tail, p) == tail
  {
    FilterConcat(head, tail, p);
    FilterKeepsOrDrops(head, p);
    FilterKeepsOrDrops(tail, p);
  }

  /** With at least as many yes as no rows, oversampling only reorders the
      rows (yes rows first) and keeps every row as often as before. */
  lemma OversampleKeepsBalancedData(data: Dataset, pick: nat -> nat)
    requires Labelled(data)
    requires |YesRecords(data)| >= |NoRecords(data)|
    ensures OversampleRecords(data, pick) == YesRecords(data) + NoRecords(data)
    ensures multiset(OversampleRecords(data, pick)) == multiset(data)
  {
    FilterPartition(data, IsYes);
  }

  // ---------------------------------------------------------------------
  // Recursive construction
  // ---------------------------------------------------------------------

  /** `constructDecisionTreeRecursive`: a leaf labelled with the majority
      class when the depth is exhausted, the data is empty or no split has
      positive gain; otherwise a node on the best split with the two
      partitions built one level shallower. Any error aborts the build. */
  function BuildTree(data: Dataset, depth: nat, loss: Loss): (r: Result<Tree>)
    requires Labelled(data) && Uniform(data)
    ensures r.Ok? ==> Height(r.value) <= depth
    ensures r.Ok? ==> AttrsBelow(r.value, NumFeatures(data))
    ensures SearchNeverFails(loss) ==> r.Ok?
    decreases depth
  {
    if depth == 0 || |data| == 0 then Ok(Leaf(MakePrediction(data)))
    else
      match GetBestSplit(data, loss)
      case Err(e) => Err(e)
      case Ok(s) =>
        if s.gain == 0.0 then Ok(Leaf(MakePrediction(data)))
        else
          var (leftData, rightData) := MakeSplit(s.attr, s.value, data, s.isNumeric);
          UniformSubset(leftData, data);
          UniformSubset(rightData, data);
          match BuildTree(leftData, depth - 1, loss)
          case Err(e) => Err(e)
          case Ok(leftTree) =>
            match BuildTree(rightData, depth - 1, loss)
            case Err(e) => Err(e)
            case Ok(rightTree) =>
              SameWidth(leftData, data);
              SameWidth(rightData, data);
              AttrsBelowMono(leftTree, NumFeatures(leftData), NumFeatures(data));
              AttrsBelowMono(rightTree, NumFeatures(rightData), NumFeatures(data));
              Ok(Node(s.attr, s.value, leftTree, rightTree))
  }

  /** The three outcomes of one build step: a leaf with the majority class
      when the depth is exhausted, the data is empty or the best split has no
      gain; the split search's error; or a node on the best split whose
      children are built from the two sides of that split. */
  lemma BuildTreeStep(data: Dataset, depth: nat, loss: Loss)
    requires Labelled(data) && Uniform(data)
    ensures depth == 0 || |data| == 0 ==> BuildTree(data, depth, loss) == Ok(Leaf(MakePrediction(data)))
    ensures depth > 0 && |data| > 0 && GetBestSplit(data, loss).Err? ==>
      BuildTree(data, depth, loss) == Err(GetBestSplit(data, loss).error)
    ensures depth > 0 && |data| > 0 && GetBestSplit(data, loss).Ok? && GetBestSplit(data, loss).value.gain == 0.0 ==>
      BuildTree(data, depth, loss) == Ok(Leaf(MakePrediction(data)))
  {
  }

  /** A step whose best split has non-zero gain builds the left side, then
      the right side, one level shallower: an error of the left build aborts
      the whole build, then an error of the right build, and otherwise the
      node on the split joins the two trees. */
  lemma BuildTreeSplitStep(data: Dataset, depth: nat, loss: Loss, s: Split, leftData: Dataset, rightData: Dataset)
    requires Labelled(data) && Uniform(data)
    requires depth > 0 && |data| > 0
    requires GetBestSplit(data, loss) == Ok(s) && s.gain != 0.0
    requires (leftData, rightData) == MakeSplit(s.attr, s.value, data, s.isNumeric)
    ensures Labelled(leftData) && Uniform(leftData) && Labelled(rightData) && Uniform(rightData)
    ensures BuildTree(leftData, depth - 1, loss).Err? ==>
      BuildTree(data, depth, loss) == Err(BuildTree(leftData, depth - 1, loss).error)
    ensures BuildTree(leftData, depth - 1, loss).Ok? && BuildTree(rightData, depth - 1, loss).Err? ==>
      BuildTree(data, depth, loss) == Err(BuildTree(rightData, depth - 1, loss).error)
    ensures BuildTree(leftData, depth - 1, loss).Ok? && BuildTree(rightData, depth - 1, loss).Ok? ==>
      BuildTree(data, depth, loss)
        == Ok(Node(s.attr, s.value, BuildTree(leftData, depth - 1, loss).value, BuildTree(rightData, depth - 1, loss).value))
  {
    UniformSubset(leftData, data);
    UniformSubset(rightData, data);
  }

  /** A node comes only from a best split with non-zero gain, and its
      children are the builds of the two sides of that split. */
  lemma BuildTreeNodeStep(data: Dataset, depth: nat, loss: Loss)
    returns (s: Split, leftData: Dataset, rightData: Dataset)
    requires Labelled(data) && Uniform(data)
    requires BuildTree(data, depth, loss).Ok? && BuildTree(data, depth, loss).value.Node?
    ensures depth > 0 && |data| > 0 && GetBestSplit(data, loss) == Ok(s)
    ensures s.gain > 0.0 && s.isNumeric && s.attr < NumFeatures(data)
    ensures (leftData, rightData) == MakeSplit(s.attr, s.value, data, true)
    ensures Labelled(leftData) && Uniform(leftData) && Labelled(rightData) && Uniform(rightData)
    ensures NumFeatures(leftData) <= NumFeatures(data) && NumFeatures(rightData) <= NumFeatures(data)
    ensures var t := BuildTree(data, depth, loss).value;
      && t.attributeIndex == s.attr && t.attributeValue == s.value
      && BuildTree(leftData, depth - 1, loss) == Ok(t.left)
      && BuildTree(rightData, depth - 1, loss) == Ok(t.right)
  {
    s := GetBestSplit(data, loss).value;
    leftData, rightData := MakeSplit(s.attr, s.value, data, true).0, MakeSplit(s.attr, s.value, data, true).1;
    UniformSubset(leftData, data);
    UniformSubset(rightData, data);
    SameWidth(leftData, data);
    SameWidth(rightData, data);
  }

  /** An empty part has no features, so its tree is a single leaf; a
      non-empty part of a uniform dataset has the dataset's width. */
  lemma SameWidth(part: Dataset, data: Dataset)
    requires |data| > 0 && Uniform(data)
    requires forall row <- part :: row in data
    ensures NumFeatures(part) <= NumFeatures(data)
  {
    if |part| > 0 {
      assert part[0] in part;
    }
  }

  lemma {:induction false} AttrsBelowMono(t: Tree, w: nat, w': nat)
    requires w <= w' && AttrsBelow(t, w)
    ensures AttrsBelow(t, w')
  {
    if t.Node? {
      AttrsBelowMono(t.left, w, w');
      AttrsBelowMono(t.right, w, w');
    }
  }

  /** `ConstructDecisionTree` without the shuffle: oversample, then build to
      the maximum depth. */
  function ConstructDecisionTree(data: Dataset, pick: nat -> nat, loss: Loss): (r: Result<Tree>)
    requires Labelled(data) && Uniform(data)
    requires |NoRecords(data)| > 0 ==> |YesRecords(data)| > 0
    ensures r.Ok? ==> Height(r.value) <= MaxDepth
    ensures r.Ok? ==> AttrsBelow(r.value, NumFeatures(data))
  {
    var balanced := OversampleRecords(data, pick);
    OversampleSameRows(data, pick);
    if |data| == 0 then
      BuildTree(balanced, MaxDepth, loss)
    else
      UniformSubset(balanced, data);
      SameWidth(balanced, data);
      var r := BuildTree(balanced, MaxDepth, loss);
      assert r.Ok? ==> AttrsBelow(r.value, NumFeatures(data)) by {
        if r.Ok? { AttrsBelowMono(r.value, NumFeatures(balanced), NumFeatures(data)); }
      }
      r
  }

  /** The split search succeeds on every non-empty uniform dataset. */
  ghost predicate SearchNeverFails(loss: Loss)
  {
    forall d: Dataset | |d| > 0 && Uniform(d) :: GetBestSplit(d, loss).Ok?
  }

  /** With the source's entropy loss the build always succeeds. */
  lemma EntropyBuildNeverFails(data: Dataset, depth: nat, h: multiset<string> -> real)
    requires Labelled(data) && Uniform(data)
    ensures BuildTree(data, depth, EntropyLoss(h)).Ok?
  {
    forall d: Dataset | |d| > 0 && Uniform(d) ensures GetBestSplit(d, EntropyLoss(h)).Ok? {
      EntropySplitNeverFails(d, h);
    }

  }
}
