/** Sequence operations shared by both scripts: boolean-mask selection of
    rows, pandas' `duplicated(keep=False)`, and "distinct values in order of
    first occurrence" (the key order of a Python dict, `Series.unique()`).
    Sequences are taken apart from the end, the way the scripts' loops
    extend their results. */
module Seqs {

  datatype Option<+T> = None | Some(value: T)

  function Elems<T>(xs: seq<T>): set<T>
  {
    set x | x in xs
  }

  lemma ElemsEmpty<T>(xs: seq<T>)
    ensures Elems(xs) == {} <==> xs == []
  {
    if xs != [] {
      assert xs[0] in Elems(xs);
    }
  }

  predicate Distinct<T(==)>(xs: seq<T>)
  {
    forall i, j :: 0 <= i < j < |xs| ==> xs[i] != xs[j]
  }

  /** `a` is `b` with some elements deleted, the rest kept in order. */
  ghost predicate IsSubsequence<T>(a: seq<T>, b: seq<T>)
    decreases |b|
  {
    a == [] ||
    (b != [] &&
     ((a[|a| - 1] == b[|b| - 1] && IsSubsequence(a[..|a| - 1], b[..|b| - 1])) ||
      IsSubsequence(a, b[..|b| - 1])))
  }

  lemma {:induction false} SubsequenceExtend<T>(a: seq<T>, b: seq<T>, x: T)
    requires IsSubsequence(a, b)
    ensures IsSubsequence(a, b + [x])
    ensures IsSubsequence(a + [x], b + [x])
  {
    assert (b + [x])[..|b|] == b;
    assert (a + [x])[..|a|] == a;
  }

  lemma {:induction false} SubsequenceMembers<T>(a: seq<T>, b: seq<T>)
    requires IsSubsequence(a, b)
    ensures Elems(a) <= Elems(b)
    decreases |b|
  {
    if a != [] {
      var a', b' := a[..|a| - 1], b[..|b| - 1];
      assert a == a' + [a[|a| - 1]] && b == b' + [b[|b| - 1]];
      assert Elems(a) == Elems(a') + {a[|a| - 1]} && Elems(b) == Elems(b') + {b[|b| - 1]};
      if a[|a| - 1] == b[|b| - 1] && IsSubsequence(a', b') {
        SubsequenceMembers(a', b');
      } else {
        SubsequenceMembers(a, b');
      }
    }
  }

  /** `xs[mask]` where the mask is `p`: exactly the elements satisfying `p`,
      each as often as in `xs`, in their original order. */
  function Filter<T>(xs: seq<T>, p: T -> bool): (r: seq<T>)
    ensures IsSubsequence(r, xs)
    ensures multiset(r) <= multiset(xs)
    ensures forall x :: x in r ==> p(x)
    ensures forall x :: x in xs && p(x) ==> multiset(r)[x] == multiset(xs)[x]
  {
    if xs == [] then []
    else
      var init, last := xs[..|xs| - 1], xs[|xs| - 1];
      assert xs == init + [last];
      assert multiset(xs) == multiset(init) + multiset{last};
      var rest := Filter(init, p);
      SubsequenceExtend(rest, init, last);
      if p(last) then
        assert multiset(rest + [last]) == multiset(rest) + multiset{last};
        rest + [last]
      else
        rest
  }

  /** An element is selected exactly when it occurs and satisfies `p`. */
  lemma FilterMembers<T>(xs: seq<T>, p: T -> bool)
    ensures forall x :: x in Filter(xs, p) <==> x in xs && p(x)
  {
    forall x | x in xs && p(x)
      ensures x in Filter(xs, p)
    {
      assert multiset(xs)[x] > 0;
    }
  }

  lemma {:induction false} FilterPartition<T>(xs: seq<T>, p: T -> bool, q: T -> bool)
    requires forall x :: x in xs ==> (p(x) <==> !q(x))
    ensures |Filter(xs, p)| + |Filter(xs, q)| == |xs|
  {
    if xs != [] {
      FilterPartition(xs[..|xs| - 1], p, q);
    }
  }

  lemma {:induction false} FilterMonotone<T>(xs: seq<T>, p: T -> bool, q: T -> bool)
    requires forall x :: x in xs && p(x) ==> q(x)
    ensures IsSubsequence(Filter(xs, p), Filter(xs, q))
  {
    if xs != [] {
      var init, last := xs[..|xs| - 1], xs[|xs| - 1];
      FilterMonotone(init, p, q);
      SubsequenceExtend(Filter(init, p), Filter(init, q), last);
    }
  }

  /** The column of keys of `xs`. */
  function KeyColumn<T, K>(xs: seq<T>, key: T -> K): (ks: seq<K>)
    ensures |ks| == |xs|
    ensures forall i :: 0 <= i < |xs| ==> ks[i] == key(xs[i])
  {
    if xs == [] then [] else KeyColumn(xs[..|xs| - 1], key) + [key(xs[|xs| - 1])]
  }

  /** pandas `df[df.duplicated(subset, keep=False)]`: every element whose
      key occurs at least twice, all members of each group, in order. */
  function Duplicated<T, K(==)>(xs: seq<T>, key: T -> K): (r: seq<T>)
    ensures IsSubsequence(r, xs)
    ensures forall x :: x in r ==> multiset(KeyColumn(xs, key))[key(x)] >= 2
    ensures forall x :: x in xs && multiset(KeyColumn(xs, key))[key(x)] >= 2 ==> multiset(r)[x] == multiset(xs)[x]
  {
    var counts := multiset(KeyColumn(xs, key));
    Filter(xs, x => counts[key(x)] >= 2)
  }

  lemma CountAtLeastTwo<K>(ks: seq<K>, i: nat)
    requires i < |ks|
    ensures multiset(ks)[ks[i]] >= 2 <==> exists j :: 0 <= j < |ks| && j != i && ks[j] == ks[i]
  {
    var v := ks[i];
    assert ks == ks[..i] + [v] + ks[i + 1..];
    assert multiset(ks)[v] == multiset(ks[..i])[v] + 1 + multiset(ks[i + 1..])[v];
    if multiset(ks)[v] >= 2 {
      if v in ks[..i] {
        var j :| 0 <= j < i && ks[..i][j] == v;
        assert ks[j] == v;
      } else {
        assert v in multiset(ks[i + 1..]);
        var j :| 0 <= j < |ks| - i - 1 && ks[i + 1..][j] == v;
        assert ks[i + 1 + j] == v;
      }
    }
    if exists j :: 0 <= j < |ks| && j != i && ks[j] == v {
      var j :| 0 <= j < |ks| && j != i && ks[j] == v;
      if j < i {
        assert ks[..i][j] == v;
      } else {
        assert ks[i + 1..][j - i - 1] == v;
      }
    }
  }

  /** Element `i` is kept by `Duplicated` exactly when another element
      shares its key. */
  lemma DuplicatedAt<T, K>(xs: seq<T>, key: T -> K, i: nat)
    requires i < |xs|
    ensures xs[i] in Duplicated(xs, key) <==>
            exists j :: 0 <= j < |xs| && j != i && key(xs[j]) == key(xs[i])
  {
    var ks := KeyColumn(xs, key);
    CountAtLeastTwo(ks, i);
    if exists j :: 0 <= j < |xs| && j != i && key(xs[j]) == key(xs[i]) {
      var j :| 0 <= j < |xs| && j != i && key(xs[j]) == key(xs[i]);
      assert ks[j] == ks[i];
      assert multiset(Duplicated(xs, key))[xs[i]] == multiset(xs)[xs[i]];
    }
    if xs[i] in Duplicated(xs, key) {
      assert multiset(ks)[ks[i]] >= 2;
      var j :| 0 <= j < |ks| && j != i && ks[j] == ks[i];
      assert key(xs[j]) == key(xs[i]);
    }
  }

  /** Distinct elements of `xs` in order of first occurrence. */
  function FirstSeen<T(==)>(xs: seq<T>): (r: seq<T>)
    ensures Distinct(r)
    ensures Elems(r) == Elems(xs)
    ensures IsSubsequence(r, xs)
  {
    if xs == [] then []
    else
      var init, last := xs[..|xs| - 1], xs[|xs| - 1];
      assert xs == init + [last];
      var u := FirstSeen(init);
      SubsequenceExtend(u, init, last);
      assert Elems(xs) == Elems(init) + {last};
      if last in u then u
      else
        assert Elems(u + [last]) == Elems(u) + {last};
        u + [last]
  }

  /** `FirstSeen` lists the values in order of first occurrence: each value's
      first position in `xs` comes before the first position of every value
      listed after it. */
  lemma {:induction false} FirstSeenOrder<T>(xs: seq<T>)
    ensures forall i, j :: 0 <= i < j < |FirstSeen(xs)| ==>
              exists a :: 0 <= a < |xs| && xs[a] == FirstSeen(xs)[i] && FirstSeen(xs)[j] !in xs[..a + 1]
  {
    if xs == [] {
      assert FirstSeen(xs) == [];
    } else {
      var init, last := xs[..|xs| - 1], xs[|xs| - 1];
      assert xs == init + [last];
      FirstSeenOrder(init);
      var u := FirstSeen(init);
      assert FirstSeen(xs) == if last in u then u else u + [last];
      forall i, j | 0 <= i < j < |FirstSeen(xs)|
        ensures exists a :: 0 <= a < |xs| && xs[a] == FirstSeen(xs)[i] && FirstSeen(xs)[j] !in xs[..a + 1]
      {
        var a := FirstSeenOrderStep(init, last, i, j);
        assert xs[..a + 1] == init[..a + 1];
      }
    }
  }

  /** One step of `FirstSeenOrder`: a witness in `init` for the pair (i, j)
      of `FirstSeen(init + [last])`. */
  lemma FirstSeenOrderStep<T>(init: seq<T>, last: T, i: nat, j: nat) returns (a: nat)
    requires forall i, j :: 0 <= i < j < |FirstSeen(init)| ==>
               exists a :: 0 <= a < |init| && init[a] == FirstSeen(init)[i] && FirstSeen(init)[j] !in init[..a + 1]
    requires i < j < |if last in FirstSeen(init) then FirstSeen(init) else FirstSeen(init) + [last]|
    ensures a < |init|
    ensures init[a] == FirstSeen(init)[i]
    ensures (if last in FirstSeen(init) then FirstSeen(init) else FirstSeen(init) + [last])[j] !in init[..a + 1]
  {
    var u := FirstSeen(init);
    if j < |u| {
      a :| 0 <= a < |init| && init[a] == u[i] && u[j] !in init[..a + 1];
    } else {
      assert u[i] in Elems(init);
      a :| 0 <= a < |init| && init[a] == u[i];
      assert last !in Elems(init);
    }
  }

  /** Sum, over the keys `ks`, of how often each key occurs in `xs`. */
  function SumCounts<T(==)>(ks: seq<T>, xs: seq<T>): nat
  {
    if ks == [] then 0 else SumCounts(ks[..|ks| - 1], xs) + multiset(xs)[ks[|ks| - 1]]
  }

  lemma {:induction false} SumCountsSnoc<T>(ks: seq<T>, xs: seq<T>, x: T)
    requires Distinct(ks)
    ensures SumCounts(ks, xs + [x]) == SumCounts(ks, xs) + (if x in ks then 1 else 0)
  {
    if ks != [] {
      var init := ks[..|ks| - 1];
      assert x in ks <==> x in init || x == ks[|ks| - 1];
      assert x == ks[|ks| - 1] ==> x !in init;
      SumCountsSnoc(init, xs, x);
    }
  }

  /** Grouping `xs` by value loses nothing: the group sizes, over the
      distinct values, add up to the length of `xs`. */
  lemma {:induction false} FirstSeenCountsSum<T>(xs: seq<T>)
    ensures SumCounts(FirstSeen(xs), xs) == |xs|
  {
    if xs != [] {
      var init, last := xs[..|xs| - 1], xs[|xs| - 1];
      assert xs == init + [last];
      var u := FirstSeen(init);
      FirstSeenCountsSum(init);
      SumCountsSnoc(u, init, last);
      if last !in u {
        assert last !in Elems(init);
        assert multiset(init)[last] == 0;
        assert (u + [last])[..|u|] == u;
      }
    }
  }

  lemma ManyIffTwoDistinct<T>(xs: seq<T>)
    ensures |Elems(xs)| > 1 <==> exists i, j :: 0 <= i < |xs| && 0 <= j < |xs| && xs[i] != xs[j]
  {
    if exists i, j :: 0 <= i < |xs| && 0 <= j < |xs| && xs[i] != xs[j] {
      var i, j :| 0 <= i < |xs| && 0 <= j < |xs| && xs[i] != xs[j];
      var two := {xs[i], xs[j]};
      assert |two| == 2;
      assert Elems(xs) == two + (Elems(xs) - two);
      assert two * (Elems(xs) - two) == {};
    } else if xs != [] {
      assert Elems(xs) == {xs[0]};
    } else {
      assert Elems(xs) == {};
    }
  }
}
