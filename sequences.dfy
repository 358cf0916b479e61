/** Order-preserving selection from a table, which is how the model reads the
    effect of a `delete ... where` or a `find ... where` on a list of rows. */
module Sequences {

  /** The elements of `s` that `keep` accepts, in their original order and multiplicity. */
  function Filter<T>(s: seq<T>, keep: T -> bool): (r: seq<T>)
    ensures |r| <= |s|
    ensures forall k :: 0 <= k < |r| ==> r[k] in s && keep(r[k])
    ensures forall k :: 0 <= k < |s| && keep(s[k]) ==> s[k] in r
  {
    if s == [] then []
    else if keep(s[0]) then [s[0]] + Filter(s[1..], keep)
    else Filter(s[1..], keep)
  }

  lemma {:induction false} FilterAppend<T>(a: seq<T>, b: seq<T>, keep: T -> bool)
    ensures Filter(a + b, keep) == Filter(a, keep) + Filter(b, keep)
  {
    if a == [] {
      assert a + b == b;
    } else {
      assert (a + b)[1..] == a[1..] + b;
      FilterAppend(a[1..], b, keep);
    }
  }

  lemma {:induction false} FilterKeepsAll<T>(s: seq<T>, keep: T -> bool)
    requires forall k :: 0 <= k < |s| ==> keep(s[k])
    ensures Filter(s, keep) == s
  {
    if s != [] {
      FilterKeepsAll(s[1..], keep);
    }
  }

  lemma {:induction false} FilterKeepsNone<T>(s: seq<T>, keep: T -> bool)
    requires forall k :: 0 <= k < |s| ==> !keep(s[k])
    ensures Filter(s, keep) == []
  {
    if s != [] {
      FilterKeepsNone(s[1..], keep);
    }
  }

  /** Filtering twice is filtering once by the conjunction. */
  lemma {:induction false} FilterFilter<T>(s: seq<T>, f: T -> bool, g: T -> bool, both: T -> bool)
    requires forall x :: both(x) == (f(x) && g(x))
    ensures Filter(Filter(s, f), g) == Filter(s, both)
  {
    if s != [] {
      FilterFilter(s[1..], f, g, both);
      if f(s[0]) {
        assert Filter(s, f) == [s[0]] + Filter(s[1..], f);
        assert Filter(s, f)[1..] == Filter(s[1..], f);
      }
    }
  }

  /** Two positions of the filtered sequence come from two positions `i'` < `j'` of `s`. */
  lemma {:induction false} FilterIndices<T>(s: seq<T>, keep: T -> bool, i: nat, j: nat) returns (i': nat, j': nat)
    requires i < j < |Filter(s, keep)|
    ensures i' < j' < |s| && Filter(s, keep)[i] == s[i'] && Filter(s, keep)[j] == s[j']
  {
    var tail := s[1..];
    var r := Filter(tail, keep);
    if keep(s[0]) {
      assert Filter(s, keep) == [s[0]] + r;
      if i == 0 {
        assert r[j - 1] in tail;
        var m :| 0 <= m < |tail| && tail[m] == r[j - 1];
        i', j' := 0, m + 1;
      } else {
        var a, b := FilterIndices(tail, keep, i - 1, j - 1);
        i', j' := a + 1, b + 1;
      }
    } else {
      assert Filter(s, keep) == r;
      var a, b := FilterIndices(tail, keep, i, j);
      i', j' := a + 1, b + 1;
    }
  }
}
