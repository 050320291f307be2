/** The split search of the tree builder (treeMaking/utils.go): candidate
    thresholds per column, information gain of a `<` mask, the first best
    candidate per column and across columns, the row partitioner and the
    majority label.

    The loss function is a parameter, as in the source's
    `MaxInformationGainSplit`; the source always passes `CalculateEntropy`,
    which is `EntropyLoss` here. Gains are real numbers: floating-point
    rounding is not modelled. */
module SplitSearch {
  import opened Results
  import opened GoStrings
  import opened Seqs
  import opened StringSort
  import opened Data

  /** A loss function over a label column: a value or an error. */
  type Loss = seq<string> -> Result<real>

  const EmptyColumnError: string := "input must be a non-empty slice"

  // ---------------------------------------------------------------------
  // Entropy and information gain
  // ---------------------------------------------------------------------

  /** `CalculateEntropy`: an error on an empty column, otherwise the entropy
      of the column's label distribution. The entropy value itself (a sum of
      `p * log2(p + 1e-10)` terms) is the abstract `h` of the label multiset. */
  function CalculateEntropy(h: multiset<string> -> real, column: seq<string>): (r: Result<real>)
    ensures r.Err? <==> |column| == 0
    ensures r.Err? ==> r.error == EmptyColumnError
  {
    if |column| == 0 then Err(EmptyColumnError) else Ok(h(multiset(column)))
  }

  /** The loss function the source hands to the split search. */
  function EntropyLoss(h: multiset<string> -> real): Loss
  {
    column => CalculateEntropy(h, column)
  }

  /** The entropy depends only on how often each label occurs, not on the
      order of the column. */
  lemma EntropyIgnoresOrder(h: multiset<string> -> real, a: seq<string>, b: seq<string>)
    requires multiset(a) == multiset(b)
    ensures CalculateEntropy(h, a) == CalculateEntropy(h, b)
  {
    if |a| == 0 {
      assert |multiset(b)| == 0;
    } else {
      assert |multiset(b)| > 0;
    }
  }

  /** Number of `true` entries of a mask (`numPositive`). */
  function NumTrue(mask: seq<bool>): (n: nat)
    ensures n <= |mask|
  {
    if |mask| == 0 then 0 else (if mask[0] then 1 else 0) + NumTrue(mask[1..])
  }

  lemma {:induction false} NumTrueWitness(mask: seq<bool>, i: int)
    requires 0 <= i < |mask|
    ensures mask[i] ==> NumTrue(mask) > 0
    ensures !mask[i] ==> NumTrue(mask) < |mask|
    decreases |mask|
  {
    if i > 0 {
      NumTrueWitness(mask[1..], i - 1);
    }
  }

  /** The labels on the `side` of the mask, in order: `yPositive` for
      `side == true` and `yNegative` for `side == false`. */
  function Select(y: seq<string>, mask: seq<bool>, side: bool): seq<string>
    requires |mask| <= |y|
    decreases |mask|
  {
    if |mask| == 0 then []
    else (if mask[0] == side then [y[0]] else []) + Select(y[1..], mask[1..], side)
  }

  /** The two label lists together hold every masked label exactly once:
      the positives are as many as the `true` entries, the negatives as many
      as the `false` ones. */
  lemma SelectPartition(y: seq<string>, mask: seq<bool>)
    requires |mask| <= |y|
    ensures |Select(y, mask, true)| == NumTrue(mask)
    ensures |Select(y, mask, false)| == |mask| - NumTrue(mask)
    ensures multiset(Select(y, mask, true)) + multiset(Select(y, mask, false)) == multiset(y[..|mask|])
  {
    SelectSizes(y, mask);
    SelectMultiset(y, mask);
  }

  /** The side sizes are the mask's true and false counts. */
  lemma {:induction false} SelectSizes(y: seq<string>, mask: seq<bool>)
    requires |mask| <= |y|
    ensures |Select(y, mask, true)| == NumTrue(mask)
    ensures |Select(y, mask, false)| == |mask| - NumTrue(mask)
    decreases |mask|
  {
    if |mask| > 0 {
      SelectSizes(y[1..], mask[1..]);
      assert NumTrue(mask) == (if mask[0] then 1 else 0) + NumTrue(mask[1..]);
    }
  }

  /** The two sides together hold every masked label exactly once. */
  lemma {:induction false} SelectMultiset(y: seq<string>, mask: seq<bool>)
    requires |mask| <= |y|
    ensures multiset(Select(y, mask, true)) + multiset(Select(y, mask, false)) == multiset(y[..|mask|])
    decreases |mask|
  {
    if |mask| > 0 {
      var y', mask' := y[1..], mask[1..];
      SelectMultiset(y', mask');
      var pos, neg := Select(y', mask', true), Select(y', mask', false);
      var rest := y'[..|mask'|];
      assert multiset(pos) + multiset(neg) == multiset(rest);
      assert y[..|mask|] == [y[0]] + rest;
      var whole := multiset(y[..|mask|]);
      assert whole == multiset{y[0]} + multiset(rest);
      SelectCons(y, mask, true);
      SelectCons(y, mask, false);
    }
  }

  /** The labels of one side, as a multiset, after the first mask entry. */
  lemma SelectCons(y: seq<string>, mask: seq<bool>, side: bool)
    requires 0 < |mask| <= |y|
    ensures multiset(Select(y, mask, side))
         == (if mask[0] == side then multiset{y[0]} else multiset{}) + multiset(Select(y[1..], mask[1..], side))
  {
    var tail := Select(y[1..], mask[1..], side);
    if mask[0] == side {
      assert Select(y, mask, side) == [y[0]] + tail;
    } else {
      assert Select(y, mask, side) == tail;
    }
  }

  /** `InformationGain`: zero, without consulting the loss, when the mask
      puts every label on one side; otherwise the loss of all labels minus
      the size-weighted losses of the two sides, or the first loss error. */
  function InformationGain(y: seq<string>, mask: seq<bool>, loss: Loss): (r: Result<real>)
    requires |mask| <= |y|
    ensures NumTrue(mask) == 0 || NumTrue(mask) == |mask| ==> r == Ok(0.0)
    ensures 0 < NumTrue(mask) < |mask| ==>
      (r.Ok? <==> loss(y).Ok? && loss(Select(y, mask, true)).Ok? && loss(Select(y, mask, false)).Ok?)
    ensures r.Err? ==> r == loss(y) || r == loss(Select(y, mask, true)) || r == loss(Select(y, mask, false))
  {
    var numPositive := NumTrue(mask);
    var numNegative := |mask| - numPositive;
    if numPositive == 0 || numNegative == 0 then Ok(0.0)
    else
      match loss(y)
      case Err(e) => Err(e)
      case Ok(lossFull) =>
        match loss(Select(y, mask, true))
        case Err(e) => Err(e)
        case Ok(lossPositive) =>
          match loss(Select(y, mask, false))
          case Err(e) => Err(e)
          case Ok(lossNegative) =>
            var total := (numPositive + numNegative) as real;
            Ok(lossFull - (numPositive as real / total) * lossPositive
                        - (numNegative as real / total) * lossNegative)
  }

  /** With the entropy loss, the information gain never fails: the loss is
      only consulted when both sides, and hence all labels, are non-empty. */
  lemma EntropyGainNeverFails(h: multiset<string> -> real, y: seq<string>, mask: seq<bool>)
    requires |mask| <= |y|
    ensures InformationGain(y, mask, EntropyLoss(h)).Ok?
  {
    var p := NumTrue(mask);
    if 0 < p < |mask| {
      SelectPartition(y, mask);
      assert |Select(y, mask, true)| > 0 && |Select(y, mask, false)| > 0;
    }
  }

  // ---------------------------------------------------------------------
  // Best threshold within one column
  // ---------------------------------------------------------------------

  /** Outcome of the per-column search: `(maxIG, split, isNumeric, valid)`. */
  datatype Best = Best(gain: real, value: string, isNumeric: bool, valid: bool)

  /** The zero result returned when a column offers no candidate. */
  const NoCandidate: Best := Best(0.0, "", false, false)

  /** Every entry of the column is the same value. */
  predicate AllSame(x: seq<string>)
    requires |x| > 0
  {
    forall i :: 0 <= i < |x| ==> x[i] == x[0]
  }

  /** Candidate thresholds: the distinct values, sorted, without the smallest. */
  function Candidates(x: seq<string>): (c: seq<string>)
    requires |x| > 0
    ensures StrictlySorted(c)
    ensures forall v :: v in c ==> v in x
  {
    var sorted := SortedDistinct(x);
    assert forall k :: 0 <= k < |sorted| - 1 ==> sorted[1..][k] == sorted[k + 1];
    sorted[1..]
  }

  /** The candidates are exactly the values of the column that lie above
      some other value of the column: every distinct value but the minimum. */
  lemma CandidatesAreNonMinimal(x: seq<string>, v: string)
    requires |x| > 0
    ensures v in Candidates(x) <==> v in x && exists i :: 0 <= i < |x| && StrLt(x[i], v)
  {
    var sorted := SortedDistinct(x);
    var c := Candidates(x);
    assert sorted == [sorted[0]] + c;
    if v in c {
      var k :| 0 <= k < |c| && c[k] == v;
      assert sorted[k + 1] == v;
      SortedIndexOrder(sorted, 0, k + 1);
      assert sorted[0] in x;
      var i :| 0 <= i < |x| && x[i] == sorted[0];
    }
    if v in x && exists i :: 0 <= i < |x| && StrLt(x[i], v) {
      var i :| 0 <= i < |x| && StrLt(x[i], v);
      assert x[i] in sorted;
      assert v in sorted;
      if v == sorted[0] {
        StrLtIrreflexive(v);
        SortedHeadIsLeast(sorted, x[i]);
        StrLtAsymmetric(v, x[i]);
      }
    }
  }

  /** A column has no candidate exactly when all its values are equal. */
  lemma CandidatesEmptyIffAllSame(x: seq<string>)
    requires |x| > 0
    ensures |Candidates(x)| == 0 <==> AllSame(x)
  {
    var sorted := SortedDistinct(x);
    var c := Candidates(x);
    assert sorted == [sorted[0]] + c;
    if |c| == 0 {
      forall i | 0 <= i < |x| ensures x[i] == x[0] {
        assert x[i] in sorted && x[0] in sorted;
      }
    } else {
      assert c[0] in x;
      var i :| 0 <= i < |x| && x[i] == c[0];
      assert sorted[0] in x;
      var j :| 0 <= j < |x| && x[j] == sorted[0];
      SortedIndexOrder(sorted, 0, 1);
      StrLtIrreflexive(sorted[0]);
      assert x[i] != x[j];
    }
  }

  /** The `value < threshold` mask of a column. */
  function Mask(x: seq<string>, threshold: string): (m: seq<bool>)
    ensures |m| == |x|
    ensures forall i :: 0 <= i < |x| ==> m[i] == StrLt(x[i], threshold)
  {
    seq(|x|, i requires 0 <= i < |x| => StrLt(x[i], threshold))
  }

  /** Every candidate threshold splits the column into two non-empty sides:
      the smallest value falls below it and the candidate itself does not. */
  lemma CandidateMaskIsProper(x: seq<string>, c: string)
    requires |x| > 0 && c in Candidates(x)
    ensures 0 < NumTrue(Mask(x, c)) < |x|
  {
    CandidatesAreNonMinimal(x, c);
    var i :| 0 <= i < |x| && StrLt(x[i], c);
    var j :| 0 <= j < |x| && x[j] == c;
    StrLtIrreflexive(c);
    NumTrueWitness(Mask(x, c), i);
    NumTrueWitness(Mask(x, c), j);
  }

  /** The information gain of threshold `c` on column `x` (labels from `data`). */
  function CandidateGain(x: seq<string>, data: Dataset, loss: Loss, c: string): Result<real>
    requires |x| <= |data| && Labelled(data)
  {
    InformationGain(Labels(data), Mask(x, c), loss)
  }

  /** Gains of the candidates in order; the first failing candidate aborts. */
  function GainsOf(x: seq<string>, data: Dataset, loss: Loss, cands: seq<string>): (r: Result<seq<real>>)
    requires |x| <= |data| && Labelled(data)
    ensures r.Ok? <==> forall k :: 0 <= k < |cands| ==> CandidateGain(x, data, loss, cands[k]).Ok?
    ensures r.Ok? ==> |r.value| == |cands|
    ensures r.Ok? ==> forall k :: 0 <= k < |cands| ==> CandidateGain(x, data, loss, cands[k]) == Ok(r.value[k])
    ensures r.Err? ==> exists k :: 0 <= k < |cands| && CandidateGain(x, data, loss, cands[k]) == Err(r.error)
    decreases |cands|
  {
    if |cands| == 0 then Ok([])
    else
      match CandidateGain(x, data, loss, cands[0])
      case Err(e) => Err(e)
      case Ok(g) =>
        match GainsOf(x, data, loss, cands[1..])
        case Err(e) =>
          assert forall k :: 0 <= k < |cands| - 1 ==> cands[1..][k] == cands[k + 1];
          Err(e)
        case Ok(gs) =>
          assert forall k :: 0 < k < |cands| ==> cands[k] == cands[1..][k - 1];
          Ok([g] + gs)
  }

  /** A failing gain list carries the error of the first failing candidate. */
  lemma {:induction false} GainsOfFirstError(x: seq<string>, data: Dataset, loss: Loss, cands: seq<string>)
    requires |x| <= |data| && Labelled(data)
    ensures var r := GainsOf(x, data, loss, cands);
      r.Err? ==> exists k :: 0 <= k < |cands| && CandidateGain(x, data, loss, cands[k]) == Err(r.error)
                   && forall j :: 0 <= j < k ==> CandidateGain(x, data, loss, cands[j]).Ok?
    decreases |cands|
  {
    if |cands| > 0 && CandidateGain(x, data, loss, cands[0]).Ok? {
      var r := GainsOf(x, data, loss, cands);
      GainsOfFirstError(x, data, loss, cands[1..]);
      if r.Err? {
        assert GainsOf(x, data, loss, cands[1..]) == r;
        var k :| 0 <= k < |cands[1..]| && CandidateGain(x, data, loss, cands[1..][k]) == Err(r.error)
                   && forall j :: 0 <= j < k ==> CandidateGain(x, data, loss, cands[1..][j]).Ok?;
        assert cands[k + 1] == cands[1..][k];
        forall j | 0 <= j < k + 1 ensures CandidateGain(x, data, loss, cands[j]).Ok? {
          if j > 0 { assert cands[j] == cands[1..][j - 1]; }
        }
      }
    }
  }

  /** The position of the first maximum, found by a left-to-right scan that
      only moves on a strictly greater value. */
  function FirstMaxIndex(gs: seq<real>): (k: nat)
    requires |gs| > 0
    ensures k < |gs|
    ensures forall j :: 0 <= j < |gs| ==> gs[j] <= gs[k]
    ensures forall j :: 0 <= j < k ==> gs[j] < gs[k]
  {
    MaxFrom(gs, 1, 0)
  }

  function MaxFrom(gs: seq<real>, i: nat, best: nat): (k: nat)
    requires 0 < i <= |gs| && best < i
    requires forall j :: 0 <= j < i ==> gs[j] <= gs[best]
    requires forall j :: 0 <= j < best ==> gs[j] < gs[best]
    ensures k < |gs|
    ensures forall j :: 0 <= j < |gs| ==> gs[j] <= gs[k]
    ensures forall j :: 0 <= j < k ==> gs[j] < gs[k]
    decreases |gs| - i
  {
    if i == |gs| then best
    else MaxFrom(gs, i + 1, if gs[i] > gs[best] then i else best)
  }

  /** `MaxInformationGainSplit`: the first candidate threshold of maximal gain,
      or the zero result when the column has a single distinct value. */
  function MaxInformationGainSplit(x: seq<string>, data: Dataset, loss: Loss): (r: Result<Best>)
    requires 0 < |x| <= |data| && Labelled(data)
    ensures AllSame(x) ==> r == Ok(NoCandidate)
    ensures r.Ok? <==> forall c :: c in Candidates(x) ==> CandidateGain(x, data, loss, c).Ok?
    ensures r.Err? ==> exists c :: c in Candidates(x) && CandidateGain(x, data, loss, c) == Err(r.error)
    ensures r.Ok? && !AllSame(x) ==>
      && r.value.valid && r.value.isNumeric
      && r.value.value in Candidates(x)
      && CandidateGain(x, data, loss, r.value.value) == Ok(r.value.gain)
      && (forall c :: c in Candidates(x) ==> CandidateGain(x, data, loss, c).value <= r.value.gain)
      && (forall c :: c in Candidates(x) && StrLt(c, r.value.value) ==>
            CandidateGain(x, data, loss, c).value < r.value.gain)
  {
    var cands := Candidates(x);
    CandidatesEmptyIffAllSame(x);
    match GainsOf(x, data, loss, cands)
    case Err(e) =>
      var k :| 0 <= k < |cands| && CandidateGain(x, data, loss, cands[k]) == Err(e);
      assert cands[k] in cands;
      Err(e)
    case Ok(gs) =>
      if |gs| == 0 then Ok(NoCandidate)
      else
        var k := FirstMaxIndex(gs);
        FirstBestCandidate(x, data, loss, cands, gs);
        Ok(Best(gs[k], cands[k], true, true))
  }

  /** A failing column search reports the error of the smallest candidate
      threshold whose gain fails, the first one the source's loop reaches. */
  lemma MaxInformationGainSplitFirstError(x: seq<string>, data: Dataset, loss: Loss)
    requires 0 < |x| <= |data| && Labelled(data)
    ensures var r := MaxInformationGainSplit(x, data, loss);
      r.Err? ==> exists c :: c in Candidates(x) && CandidateGain(x, data, loss, c) == Err(r.error)
                   && forall c' :: c' in Candidates(x) && StrLt(c', c) ==> CandidateGain(x, data, loss, c').Ok?
  {
    var cands := Candidates(x);
    var r := MaxInformationGainSplit(x, data, loss);
    GainsOfFirstError(x, data, loss, cands);
    if r.Err? {
      var g := GainsOf(x, data, loss, cands);
      assert g.Err? && r.error == g.error;
      var k :| 0 <= k < |cands| && CandidateGain(x, data, loss, cands[k]) == Err(g.error)
                 && forall j :: 0 <= j < k ==> CandidateGain(x, data, loss, cands[j]).Ok?;
      forall c' | c' in cands && StrLt(c', cands[k])
        ensures CandidateGain(x, data, loss, c').Ok?
      {
        var j :| 0 <= j < |cands| && cands[j] == c';
        SortedIndexOrder(cands, j, k);
      }
      assert cands[k] in cands;
    }
  }

  /** Moving from positions to values: in the strictly sorted candidate list,
      the first maximal gain belongs to the smallest candidate of maximal gain. */
  lemma FirstBestCandidate(x: seq<string>, data: Dataset, loss: Loss, cands: seq<string>, gs: seq<real>)
    requires |x| <= |data| && Labelled(data)
    requires StrictlySorted(cands)
    requires GainsOf(x, data, loss, cands) == Ok(gs) && |gs| > 0
    ensures FirstMaxIndex(gs) < |cands|
    ensures forall c :: c in cands ==> CandidateGain(x, data, loss, c).Ok?
    ensures forall c :: c in cands ==> CandidateGain(x, data, loss, c).value <= gs[FirstMaxIndex(gs)]
    ensures forall c :: c in cands && StrLt(c, cands[FirstMaxIndex(gs)]) ==>
      CandidateGain(x, data, loss, c).value < gs[FirstMaxIndex(gs)]
  {
    var k := FirstMaxIndex(gs);
    forall c | c in cands
      ensures CandidateGain(x, data, loss, c).Ok?
      ensures CandidateGain(x, data, loss, c).value <= gs[k]
      ensures StrLt(c, cands[k]) ==> CandidateGain(x, data, loss, c).value < gs[k]
    {
      var j :| 0 <= j < |cands| && cands[j] == c;
      SortedIndexOrder(cands, j, k);
    }
  }

  // ---------------------------------------------------------------------
  // Best split across columns
  // ---------------------------------------------------------------------

  /** Outcome of `GetBestSplit`: `(bestSplitVar, bestSplit, maxIG, isNumeric)`. */
  datatype Split = Split(attr: nat, value: string, gain: real, isNumeric: bool)

  /** The sentinel `(0, "", 0, false)` returned when no column has positive gain. */
  const NoSplit: Split := Split(0, "", 0.0, false)

  /** The per-column search on attribute column `i`. */
  function ColumnSplit(data: Dataset, loss: Loss, i: nat): Result<Best>
    requires |data| > 0 && Uniform(data) && i < NumFeatures(data)
  {
    MaxInformationGainSplit(Column(data, i), data, loss)
  }

  /** The per-column results of every attribute column, in column order. */
  function ColumnResults(data: Dataset, loss: Loss): (rs: seq<Result<Best>>)
    requires |data| > 0 && Uniform(data)
    ensures |rs| == NumFeatures(data)
    ensures forall j :: 0 <= j < |rs| ==> rs[j] == ColumnSplit(data, loss, j)
    ensures ValidAreNumeric(rs)
  {
    seq(NumFeatures(data), j requires 0 <= j < NumFeatures(data) => ColumnSplit(data, loss, j))
  }

  /** Every valid per-column result is a numeric split, as
      `MaxInformationGainSplit` promises. */
  predicate ValidAreNumeric(rs: seq<Result<Best>>)
  {
    forall j :: 0 <= j < |rs| && rs[j].Ok? && rs[j].value.valid ==> rs[j].value.isNumeric
  }

  /** A column result that the scan accepts as an improvement over `g`. */
  predicate Beats(b: Best, g: real)
  {
    b.valid && b.gain > g
  }

  /** `s` is the first strict maximum, above zero, among the valid results
      `rs[0..n]`, or the sentinel when none is above zero; and none of these
      results is an error. */
  ghost predicate IsBestSplit(rs: seq<Result<Best>>, n: nat, s: Split)
    requires n <= |rs|
  {
    && (forall j :: 0 <= j < n ==> rs[j].Ok?)
    && s.gain >= 0.0
    && (s.gain == 0.0 ==> s == NoSplit && forall j :: 0 <= j < n ==> !Beats(rs[j].value, 0.0))
    && (s.gain > 0.0 ==>
          && s.attr < n
          && rs[s.attr] == Ok(Best(s.gain, s.value, s.isNumeric, true))
          && (forall j :: 0 <= j < n ==> !Beats(rs[j].value, s.gain))
          && (forall j :: 0 <= j < s.attr ==> !(rs[j].value.valid && rs[j].value.gain == s.gain)))
  }

  /** The column loop of `GetBestSplit` from column `i` on, over the
      per-column results `rs`, with the best split of the earlier columns in
      `acc`: a column replaces the best so far only when its result is valid
      and strictly better, and the first failing column aborts the loop.
      The results are pure values, so reading them from a sequence computed
      up front is the same as computing each inside the loop. */
  function ScanColumns(rs: seq<Result<Best>>, i: nat, acc: Split): (r: Result<Split>)
    requires i <= |rs| && ValidAreNumeric(rs)
    requires acc.gain >= 0.0 && (acc.gain > 0.0 ==> acc.attr < i && acc.isNumeric)
    ensures r.Ok? ==> r.value.gain >= 0.0
    ensures r.Ok? && r.value.gain > 0.0 ==> r.value.attr < |rs| && r.value.isNumeric
    decreases |rs| - i
  {
    if i == |rs| then Ok(acc)
    else
      match rs[i]
      case Err(e) => Err(e)
      case Ok(b) =>
        ScanColumns(rs, i + 1, if Beats(b, acc.gain) then Split(i, b.value, b.gain, b.isNumeric) else acc)
  }

  /** The column loop computes the first strict maximum of the per-column
      results, and fails exactly when some column from `i` on fails. */
  lemma {:induction false} ScanColumnsIsBest(rs: seq<Result<Best>>, i: nat, acc: Split)
    requires i <= |rs| && ValidAreNumeric(rs)
    requires acc.gain >= 0.0 && (acc.gain > 0.0 ==> acc.attr < i && acc.isNumeric)
    requires IsBestSplit(rs, i, acc)
    ensures var r := ScanColumns(rs, i, acc);
      && (r.Ok? <==> forall j :: i <= j < |rs| ==> rs[j].Ok?)
      && (r.Ok? ==> IsBestSplit(rs, |rs|, r.value))
      && (r.Err? ==> exists j :: i <= j < |rs| && rs[j] == Err(r.error))
    decreases |rs| - i
  {
    if i < |rs| {
      if rs[i].Ok? {
        var b := rs[i].value;
        var next := if Beats(b, acc.gain) then Split(i, b.value, b.gain, b.isNumeric) else acc;
        assert ScanColumns(rs, i, acc) == ScanColumns(rs, i + 1, next);
        ScanStep(rs, i, acc, b);
        ScanColumnsIsBest(rs, i + 1, next);
      } else {
        assert ScanColumns(rs, i, acc) == Err(rs[i].error);
      }
    }
  }

  /** The column loop stops at the first failing column from `i` on and
      reports its error. */
  lemma {:induction false} ScanColumnsFirstError(rs: seq<Result<Best>>, i: nat, acc: Split)
    requires i <= |rs| && ValidAreNumeric(rs)
    requires acc.gain >= 0.0 && (acc.gain > 0.0 ==> acc.attr < i && acc.isNumeric)
    ensures var r := ScanColumns(rs, i, acc);
      r.Err? ==> exists j :: i <= j < |rs| && rs[j] == Err(r.error) && forall j' :: i <= j' < j ==> rs[j'].Ok?
    decreases |rs| - i
  {
    if i < |rs| && rs[i].Ok? {
      var b := rs[i].value;
      var next := if Beats(b, acc.gain) then Split(i, b.value, b.gain, b.isNumeric) else acc;
      assert ScanColumns(rs, i, acc) == ScanColumns(rs, i + 1, next);
      ScanColumnsFirstError(rs, i + 1, next);
    }
  }

  /** One iteration of the column loop keeps `IsBestSplit`: a column result
      replaces the best so far only when it is valid and strictly better. */
  lemma ScanStep(rs: seq<Result<Best>>, i: nat, acc: Split, b: Best)
    requires i < |rs|
    requires IsBestSplit(rs, i, acc)
    requires rs[i] == Ok(b)
    ensures IsBestSplit(rs, i + 1, if Beats(b, acc.gain) then Split(i, b.value, b.gain, b.isNumeric) else acc)
  {
    if Beats(b, acc.gain) {
      var next := Split(i, b.value, b.gain, b.isNumeric);
      assert b == Best(next.gain, next.value, next.isNumeric, true);
      forall j | 0 <= j < i
        ensures !Beats(rs[j].value, next.gain)
        ensures !(rs[j].value.valid && rs[j].value.gain == next.gain)
      {
        if acc.gain == 0.0 {
          assert !Beats(rs[j].value, 0.0);
        } else {
          assert !Beats(rs[j].value, acc.gain);
        }
      }
    }
  }

  /** `GetBestSplit`: the column loop started at the first column with the
      zero sentinel; a best split of zero gain is reported as the sentinel.
      A reported split always tests an attribute column, never the label. */
  function GetBestSplit(data: Dataset, loss: Loss): (r: Result<Split>)
    requires |data| > 0 && Uniform(data)
    ensures r.Ok? && r.value.gain == 0.0 ==> r.value == NoSplit
    ensures r.Ok? && r.value.gain != 0.0 ==>
      r.value.gain > 0.0 && r.value.attr < NumFeatures(data) && r.value.isNumeric
  {
    match ScanColumns(ColumnResults(data, loss), 0, NoSplit)
    case Err(e) => Err(e)
    case Ok(s) => if s.gain == 0.0 then Ok(NoSplit) else Ok(s)
  }

  /** The split search finds the first (column, threshold) of strictly
      maximal positive gain over all attribute columns, or the sentinel
      when no column has positive gain, and fails exactly when some column's
      search fails, with that column's error. */
  lemma GetBestSplitIsBest(data: Dataset, loss: Loss)
    requires |data| > 0 && Uniform(data)
    ensures var r := GetBestSplit(data, loss);
      && (r.Ok? <==> forall j :: 0 <= j < NumFeatures(data) ==> ColumnSplit(data, loss, j).Ok?)
      && (r.Err? ==> exists j :: 0 <= j < NumFeatures(data) && ColumnSplit(data, loss, j) == Err(r.error))
      && (r.Ok? ==> IsBestSplit(ColumnResults(data, loss), NumFeatures(data), r.value))
  {
    ScanColumnsIsBest(ColumnResults(data, loss), 0, NoSplit);
  }

  /** Column `j` is the first attribute column whose search fails, and it
      fails with error `e`. */
  predicate FirstFailingColumn(data: Dataset, loss: Loss, j: nat, e: string)
    requires |data| > 0 && Uniform(data)
  {
    && j < NumFeatures(data)
    && ColumnSplit(data, loss, j) == Err(e)
    && forall j' :: 0 <= j' < j ==> ColumnSplit(data, loss, j').Ok?
  }

  /** A failing split search reports the error of the first failing column,
      every earlier column's search having succeeded. */
  lemma GetBestSplitFirstError(data: Dataset, loss: Loss)
    requires |data| > 0 && Uniform(data)
    ensures GetBestSplit(data, loss).Err? ==> exists j :: FirstFailingColumn(data, loss, j, GetBestSplit(data, loss).error)
  {
    var rs := ColumnResults(data, loss);
    ScanColumnsFirstError(rs, 0, NoSplit);
    var scan := ScanColumns(rs, 0, NoSplit);
    if scan.Err? {
      var j :| 0 <= j < |rs| && rs[j] == Err(scan.error) && forall j' :: 0 <= j' < j ==> rs[j'].Ok?;
      assert FirstFailingColumn(data, loss, j, scan.error);
    }
  }

  /** With the entropy loss, the split search never fails. */
  lemma EntropySplitNeverFails(data: Dataset, h: multiset<string> -> real)
    requires |data| > 0 && Uniform(data)
    ensures GetBestSplit(data, EntropyLoss(h)).Ok?
  {
    GetBestSplitIsBest(data, EntropyLoss(h));
    forall j | 0 <= j < NumFeatures(data)
      ensures ColumnSplit(data, EntropyLoss(h), j).Ok?
    {
      var x := Column(data, j);
      forall c | c in Candidates(x)
        ensures CandidateGain(x, data, EntropyLoss(h), c).Ok?
      {
        EntropyGainNeverFails(h, Labels(data), Mask(x, c));
      }
    }
  }

  // ---------------------------------------------------------------------
  // Partitioning and majority label
  // ---------------------------------------------------------------------

  /** The split predicate: `val < value` for numeric splits, `val == value` otherwise. */
  predicate GoesLeft(row: Row, variable: nat, value: string, isNumeric: bool)
    requires variable < |row|
  {
    if isNumeric then StrLt(row[variable], value) else row[variable] == value
  }

  /** The split predicate as a selection function over rows. */
  function LeftTest(variable: nat, value: string, isNumeric: bool): Row -> bool
  {
    row => variable < |row| && GoesLeft(row, variable, value, isNumeric)
  }

  /** `MakeSplit`: every row goes to exactly one side, the left side holding
      the rows that pass the split predicate. (The source's error result is
      always nil and is not modelled.) */
  function MakeSplit(variable: nat, value: string, data: Dataset, isNumeric: bool): (r: (Dataset, Dataset))
    requires forall row <- data :: variable < |row|
    ensures |r.0| + |r.1| == |data|
    ensures forall row <- r.0 :: row in data && GoesLeft(row, variable, value, isNumeric)
    ensures forall row <- r.1 :: row in data && !GoesLeft(row, variable, value, isNumeric)
    ensures multiset(r.0) + multiset(r.1) == multiset(data)
    decreases |data|
  {
    if |data| == 0 then ([], [])
    else
      var (left, right) := MakeSplit(variable, value, data[1..], isNumeric);
      assert data == [data[0]] + data[1..];
      if GoesLeft(data[0], variable, value, isNumeric) then ([data[0]] + left, right)
      else (left, [data[0]] + right)
  }

  /** Each side keeps the original relative order of its rows: the sides are
      the order-preserving selections by the split predicate and its negation. */
  lemma {:induction false} MakeSplitPreservesOrder(variable: nat, value: string, data: Dataset, isNumeric: bool)
    requires forall row <- data :: variable < |row|
    ensures MakeSplit(variable, value, data, isNumeric).0 == Filter(data, LeftTest(variable, value, isNumeric))
    ensures MakeSplit(variable, value, data, isNumeric).1 == Filter(data, Not(LeftTest(variable, value, isNumeric)))
    decreases |data|
  {
    if |data| > 0 {
      MakeSplitPreservesOrder(variable, value, data[1..], isNumeric);
    }
  }

  /** The builder partitions the rows with the very test that scored the
      winning threshold: the labels `MakeSplit` sends left on column `i`
      and threshold `c` are the positive labels of that column's mask, and
      the labels it sends right are the negative ones, in the same order. */
  lemma SelectIsMakeSplit(data: Dataset, i: nat, c: string)
    requires Labelled(data) && forall row <- data :: i < |row|
    ensures var (left, right) := MakeSplit(i, c, data, true);
      && Labelled(left) && Labelled(right)
      && Labels(left) == Select(Labels(data), Mask(Column(data, i), c), true)
      && Labels(right) == Select(Labels(data), Mask(Column(data, i), c), false)
  {
    MakeSplitPreservesOrder(i, c, data, true);
    FilterLabelsAreSelect(data, i, c, true, LeftTest(i, c, true));
    FilterLabelsAreSelect(data, i, c, false, Not(LeftTest(i, c, true)));
  }

  /** One side of `SelectIsMakeSplit`, on the order-preserving selection
      by a row test that agrees with the mask on every row. */
  lemma {:induction false} FilterLabelsAreSelect(data: Dataset, i: nat, c: string, side: bool, p: Row -> bool)
    requires Labelled(data) && forall row <- data :: i < |row| && (p(row) <==> StrLt(row[i], c) == side)
    ensures Labelled(Filter(data, p))
    ensures Labels(Filter(data, p)) == Select(Labels(data), Mask(Column(data, i), c), side)
    decreases |data|
  {
    if |data| > 0 {
      var rest, row := data[1..], data[0];
      assert row in data;
      assert forall r <- rest :: r in data;
      FilterLabelsAreSelect(rest, i, c, side, p);
      var tail := Filter(rest, p);
      var head := if p(row) then [row] else [];
      assert Filter(data, p) == head + tail;
      LabelsConcat(head, tail);
      SelectStep(data, i, c, side);
      if p(row) {
        assert Labels(head) == [Label(row)];
      } else {
        assert Labels(head) == [];
      }
    }
  }

  /** The labels of two blocks of rows, one after the other. */
  lemma LabelsConcat(a: Dataset, b: Dataset)
    requires Labelled(a) && Labelled(b)
    ensures Labelled(a + b) && Labels(a + b) == Labels(a) + Labels(b)
  {
  }

  /** The mask's selection over a column, peeled by one row. */
  lemma SelectStep(data: Dataset, i: nat, c: string, side: bool)
    requires |data| > 0 && Labelled(data) && forall row <- data :: i < |row|
    ensures forall row <- data[1..] :: i < |row|
    ensures Select(Labels(data), Mask(Column(data, i), c), side)
         == (if StrLt(data[0][i], c) == side then [Label(data[0])] else [])
            + Select(Labels(data[1..]), Mask(Column(data[1..], i), c), side)
  {
    assert forall row <- data[1..] :: row in data;
    var y, m := Labels(data), Mask(Column(data, i), c);
    assert y[1..] == Labels(data[1..]);
    assert m[1..] == Mask(Column(data[1..], i), c);
  }

  /** Number of rows whose label is `l`. */
  function LabelCount(data: Dataset, l: string): nat
    requires Labelled(data)
  {
    multiset(Labels(data))[l]
  }

  /** `MakePrediction`: `""` on no data, otherwise a winner of maximal count.
      (The source breaks ties by map iteration order; the scan here takes the
      first such winner in row order, and the contract promises only maximality.) */
  function MakePrediction(data: Dataset): (winner: string)
    requires Labelled(data)
    ensures |data| == 0 ==> winner == ""
    ensures |data| > 0 ==> winner in Labels(data) && LabelCount(data, winner) > 0
    ensures forall l :: LabelCount(data, l) <= LabelCount(data, winner)
  {
    var y := Labels(data);
    var winner := MajorityFrom(y, 0, "", 0);
    assert forall l :: multiset(y)[l] <= multiset(y)[winner] by {
      forall l ensures multiset(y)[l] <= multiset(y)[winner] {
        if l in y {
          var j :| 0 <= j < |y| && y[j] == l;
        }
      }
    }
    winner
  }

  function MajorityFrom(y: seq<string>, i: nat, best: string, bestCount: nat): (winner: string)
    requires i <= |y|
    requires (i == 0 && best == "" && bestCount == 0) || (0 < i && best in y && bestCount == multiset(y)[best])
    requires forall j :: 0 <= j < i ==> multiset(y)[y[j]] <= bestCount
    ensures |y| == 0 ==> winner == ""
    ensures |y| > 0 ==> winner in y && forall j :: 0 <= j < |y| ==> multiset(y)[y[j]] <= multiset(y)[winner]
    decreases |y| - i
  {
    if i == |y| then best
    else
      var c := multiset(y)[y[i]];
      if c > bestCount then MajorityFrom(y, i + 1, y[i], c)
      else MajorityFrom(y, i + 1, best, bestCount)
  }
}
