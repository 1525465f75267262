/** List comprehension shapes the core uses: `[f(x) for x in s]` and
    `[x for x in s if keep(x)]`. */
module Seqs {

  function Map<T, U>(s: seq<T>, f: T -> U): (r: seq<U>)
    ensures |r| == |s|
  {
    if s == [] then [] else Map(s[..|s| - 1], f) + [f(s[|s| - 1])]
  }

  lemma {:induction false} MapAt<T, U>(s: seq<T>, f: T -> U, k: nat)
    requires k < |s|
    ensures Map(s, f)[k] == f(s[k])
  {
    var n := |s| - 1;
    if k < n {
      MapAt(s[..n], f, k);
    }
  }

  /** Mapping distributes over concatenation. */
  lemma {:induction false} MapAppend<T, U>(a: seq<T>, b: seq<T>, f: T -> U)
    ensures Map(a + b, f) == Map(a, f) + Map(b, f)
    decreases |b|
  {
    if b == [] {
      assert a + b == a;
    } else {
      var n := |b| - 1;
      assert (a + b)[..|a + b| - 1] == a + b[..n];
      MapAppend(a, b[..n], f);
    }
  }

  /** The elements of `s` that `keep` accepts, in their order in `s`.
      Defined from the back so that a loop appending one element per step
      follows it directly. */
  function Filter<T>(s: seq<T>, keep: T -> bool): (r: seq<T>)
    ensures |r| <= |s|
  {
    if s == [] then []
    else Filter(s[..|s| - 1], keep) + (if keep(s[|s| - 1]) then [s[|s| - 1]] else [])
  }

  /** Every kept element is an element of the input that `keep` accepts. */
  lemma {:induction false} FilterMembers<T>(s: seq<T>, keep: T -> bool)
    ensures forall x :: x in Filter(s, keep) ==> x in s && keep(x)
    decreases |s|
  {
    if s != [] {
      FilterMembers(s[..|s| - 1], keep);
      assert forall x :: x in s[..|s| - 1] ==> x in s;
    }
  }

  /** Filtering distributes over concatenation. */
  lemma {:induction false} FilterAppend<T>(a: seq<T>, b: seq<T>, keep: T -> bool)
    ensures Filter(a + b, keep) == Filter(a, keep) + Filter(b, keep)
    decreases |b|
  {
    if b == [] {
      assert a + b == a;
    } else {
      var n := |b| - 1;
      assert (a + b)[..|a + b| - 1] == a + b[..n];
      FilterAppend(a, b[..n], keep);
    }
  }

  /** The positions of the elements of `s` that `keep` accepts, in
      increasing order. */
  function KeptIndices<T>(s: seq<T>, keep: T -> bool): (idx: seq<nat>)
    ensures |idx| == |Filter(s, keep)|
    ensures forall k :: 0 <= k < |idx| ==> idx[k] < |s|
  {
    if s == [] then []
    else
      var n := |s| - 1;
      KeptIndices(s[..n], keep) + (if keep(s[n]) then [n] else [])
  }

  /** The k-th kept element sits at the k-th kept position. */
  lemma {:induction false} KeptIndicesAt<T>(s: seq<T>, keep: T -> bool, k: nat)
    requires k < |Filter(s, keep)|
    ensures Filter(s, keep)[k] == s[KeptIndices(s, keep)[k]]
  {
    var n := |s| - 1;
    var front := KeptIndices(s[..n], keep);
    if k < |front| {
      KeptIndicesAt(s[..n], keep, k);
      assert Filter(s, keep)[k] == Filter(s[..n], keep)[k];
    }
  }

  /** The kept positions are strictly increasing. */
  lemma {:induction false} KeptIndicesIncreasing<T>(s: seq<T>, keep: T -> bool, k: nat, l: nat)
    requires k < l < |KeptIndices(s, keep)|
    ensures KeptIndices(s, keep)[k] < KeptIndices(s, keep)[l]
  {
    var n := |s| - 1;
    var front := KeptIndices(s[..n], keep);
    if l < |front| {
      KeptIndicesIncreasing(s[..n], keep, k, l);
    } else {
      assert KeptIndices(s, keep)[k] == front[k] < n;
    }
  }

  /** A position is kept exactly when `keep` accepts its element. */
  lemma {:induction false} KeptIndicesExact<T>(s: seq<T>, keep: T -> bool, j: nat)
    requires j < |s|
    ensures keep(s[j]) <==> j in KeptIndices(s, keep)
  {
    var n := |s| - 1;
    var front := KeptIndices(s[..n], keep);
    var tail: seq<nat> := if keep(s[n]) then [n] else [];
    assert KeptIndices(s, keep) == front + tail;
    if j < n {
      KeptIndicesExact(s[..n], keep, j);
      assert j !in tail;
    } else {
      assert j !in front;
    }
  }

  /** The filter is the subsequence of `s` at strictly increasing indices
      `idx`, and those are exactly the indices whose element is kept. */
  lemma FilterIndices<T>(s: seq<T>, keep: T -> bool) returns (idx: seq<nat>)
    ensures |idx| == |Filter(s, keep)|
    ensures forall k :: 0 <= k < |idx| ==> idx[k] < |s| && Filter(s, keep)[k] == s[idx[k]]
    ensures forall k, l :: 0 <= k < l < |idx| ==> idx[k] < idx[l]
    ensures forall j :: 0 <= j < |s| ==> (keep(s[j]) <==> j in idx)
  {
    idx := KeptIndices(s, keep);
    forall k | 0 <= k < |idx| ensures Filter(s, keep)[k] == s[idx[k]] {
      KeptIndicesAt(s, keep, k);
    }
    forall k, l | 0 <= k < l < |idx| ensures idx[k] < idx[l] {
      KeptIndicesIncreasing(s, keep, k, l);
    }
    forall j | 0 <= j < |s| ensures keep(s[j]) <==> j in idx {
      KeptIndicesExact(s, keep, j);
    }
  }

  lemma FilterSingle<T>(x: T, keep: T -> bool)
    ensures Filter([x], keep) == if keep(x) then [x] else []
  {
    assert [x][..0] == [];
  }

  /** Filtering one element more. */
  lemma FilterSnoc<T>(s: seq<T>, x: T, keep: T -> bool)
    ensures Filter(s + [x], keep) == Filter(s, keep) + (if keep(x) then [x] else [])
  {
    assert (s + [x])[..|s|] == s;
  }

  /** Filtering four elements of which only the second is rejected. */
  lemma FilterSecondOut<T>(a: T, b: T, c: T, d: T, keep: T -> bool)
    requires keep(a) && !keep(b) && keep(c) && keep(d)
    ensures Filter([a, b, c, d], keep) == [a, c, d]
  {
    FilterSnoc([], a, keep);
    assert [] + [a] == [a];
    FilterSnoc([a], b, keep);
    assert [a] + [b] == [a, b];
    FilterSnoc([a, b], c, keep);
    assert [a, b] + [c] == [a, b, c];
    FilterSnoc([a, b, c], d, keep);
    assert [a, b, c] + [d] == [a, b, c, d];
  }
}
