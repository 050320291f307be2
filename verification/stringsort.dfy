/** Go's `sort.Strings` applied to the keys of a set: the distinct values of a
    column in strictly increasing string order. */
module StringSort {
  import opened GoStrings

  predicate StrictlySorted(s: seq<string>)
  {
    forall i, j :: 0 <= i < j < |s| ==> StrLt(s[i], s[j])
  }

  /** In a strictly sorted sequence, the order of positions is the order of values. */
  lemma SortedIndexOrder(s: seq<string>, i: int, j: int)
    requires StrictlySorted(s)
    requires 0 <= i < |s| && 0 <= j < |s|
    ensures i < j <==> StrLt(s[i], s[j])
  {
    if i == j {
      StrLtIrreflexive(s[i]);
    } else if j < i {
      StrLtAsymmetric(s[j], s[i]);
    }
  }

  /** The head of a strictly sorted sequence is below every other element. */
  lemma SortedHeadIsLeast(s: seq<string>, v: string)
    requires StrictlySorted(s) && |s| > 0
    requires v in s && v != s[0]
    ensures StrLt(s[0], v)
  {
    var k :| 0 <= k < |s| && s[k] == v;
  }

  /** Inserts `v` into a strictly sorted sequence unless it is already there. */
  function Insert(s: seq<string>, v: string): (r: seq<string>)
    requires StrictlySorted(s)
    ensures StrictlySorted(r)
    ensures forall u :: u in r <==> u in s || u == v
    decreases |s|
  {
    if |s| == 0 then [v]
    else if v == s[0] then s
    else if StrLt(v, s[0]) then
      assert forall j :: 0 < j < |s| ==> StrLt(v, s[j]) by {
        forall j | 0 < j < |s| ensures StrLt(v, s[j]) {
          StrLtTransitive(v, s[0], s[j]);
        }
      }
      [v] + s
    else
      var rest := Insert(s[1..], v);
      StrLtTotal(v, s[0]);
      assert forall u :: u in rest ==> StrLt(s[0], u) by {
        forall u | u in rest ensures StrLt(s[0], u) {
          if u != v {
            assert u in s[1..];
            var k :| 0 <= k < |s[1..]| && s[1..][k] == u;
            assert s[k + 1] == u;
          }
        }
      }
      var r := [s[0]] + rest;
      assert forall i, j :: 0 <= i < j < |r| ==> StrLt(r[i], r[j]) by {
        forall i, j | 0 <= i < j < |r| ensures StrLt(r[i], r[j]) {
          if i == 0 {
            assert r[j] == rest[j - 1];
            assert r[j] in rest;
          } else {
            assert r[i] == rest[i - 1] && r[j] == rest[j - 1];
          }
        }
      }
      assert s == [s[0]] + s[1..];
      r
  }

  /** The distinct values of `x`, sorted ascending (the source collects them in
      a map and sorts the keys). */
  function SortedDistinct(x: seq<string>): (r: seq<string>)
    ensures StrictlySorted(r)
    ensures forall v :: v in r <==> v in x
    ensures |x| > 0 ==> |r| > 0
    decreases |x|
  {
    if |x| == 0 then []
    else
      var r := Insert(SortedDistinct(x[..|x| - 1]), x[|x| - 1]);
      assert x == x[..|x| - 1] + [x[|x| - 1]];
      r
  }

  /** There is only one strictly sorted arrangement of a set of strings, so
      the candidate list does not depend on the order in which the source's
      map hands out its keys. */
  lemma {:induction false} SortedUnique(a: seq<string>, b: seq<string>)
    requires StrictlySorted(a) && StrictlySorted(b)
    requires forall v :: v in a <==> v in b
    ensures a == b
    decreases |a|
  {
    if |a| > 0 { assert a[0] in b; }
    if |b| > 0 { assert b[0] in a; }
    if |a| > 0 && |b| > 0 {
      if a[0] != b[0] {
        SortedHeadIsLeast(b, a[0]);
        SortedHeadIsLeast(a, b[0]);
        StrLtAsymmetric(a[0], b[0]);
      }
      assert StrictlySorted(a[1..]) && StrictlySorted(b[1..]);
      forall v ensures v in a[1..] <==> v in b[1..] {
        if v in a[1..] {
          var i :| 0 <= i < |a[1..]| && a[1..][i] == v;
          assert StrLt(a[0], v) by { assert a[i + 1] == v; }
          StrLtIrreflexive(v);
          assert v != b[0];
          assert v in b;
        }
        if v in b[1..] {
          var i :| 0 <= i < |b[1..]| && b[1..][i] == v;
          assert StrLt(b[0], v) by { assert b[i + 1] == v; }
          StrLtIrreflexive(v);
          assert v != a[0];
          assert v in a;
        }
      }
      SortedUnique(a[1..], b[1..]);
      assert a == [a[0]] + a[1..] && b == [b[0]] + b[1..];
    }
  }
}
