/**
 * Whole-column operations over row sequences: a per-row map, a row filter
 * (a boolean mask), and the flattening that `explode` followed by a per-row
 * mapping amounts to.
 */
module Rows {
  import opened Wrappers

  function Map<A, B>(f: A -> B, xs: seq<A>): (ys: seq<B>)
    ensures |ys| == |xs|
    ensures forall i :: 0 <= i < |xs| ==> ys[i] == f(xs[i])
  {
    if xs == [] then [] else [f(xs[0])] + Map(f, xs[1..])
  }

  /** `df[mask]`: the rows that satisfy `p`, in their original relative order. */
  function Filter<T>(p: T -> bool, xs: seq<T>): seq<T>
  {
    if xs == [] then [] else (if p(xs[0]) then [xs[0]] else []) + Filter(p, xs[1..])
  }

  /** How many rows satisfy `p`. */
  function Count<T>(p: T -> bool, xs: seq<T>): nat
  {
    if xs == [] then 0 else (if p(xs[0]) then 1 else 0) + Count(p, xs[1..])
  }

  /** Each row of `xs` contributes the rows `f` gives for it, in order. */
  function FlatMap<A, B>(f: A -> seq<B>, xs: seq<A>): seq<B>
  {
    if xs == [] then [] else f(xs[0]) + FlatMap(f, xs[1..])
  }

  /** A single input row contributes exactly its own block. */
  lemma FlatMapSingle<A, B>(f: A -> seq<B>, x: A)
    ensures FlatMap(f, [x]) == f(x)
  {
    assert [x][1..] == [];
    assert f(x) + [] == f(x);
  }

  /** The sum of the block sizes. */
  function SumOfSizes<A, B>(f: A -> seq<B>, xs: seq<A>): nat
  {
    if xs == [] then 0 else |f(xs[0])| + SumOfSizes(f, xs[1..])
  }

  /** Filtering a concatenation filters each part: the kept rows keep their relative order. */
  lemma {:induction false} FilterAppend<T>(p: T -> bool, xs: seq<T>, ys: seq<T>)
    ensures Filter(p, xs + ys) == Filter(p, xs) + Filter(p, ys)
    decreases |xs|
  {
    if xs != [] {
      assert (xs + ys)[1..] == xs[1..] + ys;
      FilterAppend(p, xs[1..], ys);
    } else {
      assert xs + ys == ys;
    }
  }

  /** The filter keeps exactly the rows that satisfy `p`: each kept row does, and there are as many as satisfy it. */
  lemma {:induction false} FilterSpec<T>(p: T -> bool, xs: seq<T>)
    ensures |Filter(p, xs)| == Count(p, xs)
    ensures forall i :: 0 <= i < |Filter(p, xs)| ==> p(Filter(p, xs)[i]) && Filter(p, xs)[i] in xs
    decreases |xs|
  {
    if xs != [] {
      FilterSpec(p, xs[1..]);
      var r := Filter(p, xs);
      var head := if p(xs[0]) then [xs[0]] else [];
      assert r == head + Filter(p, xs[1..]);
      forall i | 0 <= i < |r| ensures p(r[i]) && r[i] in xs {
        if i >= |head| {
          assert r[i] == Filter(p, xs[1..])[i - |head|];
          assert Filter(p, xs[1..])[i - |head|] in xs[1..];
        }
      }
    }
  }

  /** Rows none of which satisfy `p` are all dropped. */
  lemma {:induction false} FilterNone<T>(p: T -> bool, xs: seq<T>)
    requires forall i :: 0 <= i < |xs| ==> !p(xs[i])
    ensures Filter(p, xs) == []
    decreases |xs|
  {
    if xs != [] {
      FilterNone(p, xs[1..]);
    }
  }

  lemma {:induction false} FlatMapAppend<A, B>(f: A -> seq<B>, xs: seq<A>, ys: seq<A>)
    ensures FlatMap(f, xs + ys) == FlatMap(f, xs) + FlatMap(f, ys)
    decreases |xs|
  {
    if xs != [] {
      assert (xs + ys)[1..] == xs[1..] + ys;
      FlatMapAppend(f, xs[1..], ys);
    } else {
      assert xs + ys == ys;
    }
  }

  lemma {:induction false} FlatMapLength<A, B>(f: A -> seq<B>, xs: seq<A>)
    ensures |FlatMap(f, xs)| == SumOfSizes(f, xs)
    decreases |xs|
  {
    if xs != [] {
      FlatMapLength(f, xs[1..]);
    }
  }

  /**
   * The rows of input `i` form one contiguous block of the output, placed
   * after the blocks of the inputs before it.
   */
  lemma FlatMapBlock<A, B>(f: A -> seq<B>, xs: seq<A>, i: nat)
    requires i < |xs|
    ensures var offset := |FlatMap(f, xs[..i])|;
      offset + |f(xs[i])| <= |FlatMap(f, xs)|
      && FlatMap(f, xs)[offset..offset + |f(xs[i])|] == f(xs[i])
  {
    assert xs == xs[..i] + ([xs[i]] + xs[i + 1..]);
    FlatMapAppend(f, xs[..i], [xs[i]] + xs[i + 1..]);
    assert ([xs[i]] + xs[i + 1..])[1..] == xs[i + 1..];
    assert FlatMap(f, [xs[i]] + xs[i + 1..]) == f(xs[i]) + FlatMap(f, xs[i + 1..]);
  }

  /** Every output row comes from some input row. */
  lemma {:induction false} FlatMapOrigin<A, B>(f: A -> seq<B>, xs: seq<A>, y: B)
    requires y in FlatMap(f, xs)
    ensures exists i :: 0 <= i < |xs| && y in f(xs[i])
    decreases |xs|
  {
    if y !in f(xs[0]) {
      FlatMapOrigin(f, xs[1..], y);
      var i :| 0 <= i < |xs[1..]| && y in f(xs[1..][i]);
      assert y in f(xs[i + 1]);
    }
  }

  /**
   * A conversion applied to a whole column that raises on the first value it
   * cannot convert: every converted row, or the position of the first failure.
   */
  function Traverse<A, B>(f: A -> Option<B>, xs: seq<A>): (r: Result<seq<B>, nat>)
    ensures r.Failure? ==> r.error < |xs|
  {
    if xs == [] then Success([])
    else match f(xs[0])
      case None => Failure(0)
      case Some(y) =>
        match Traverse(f, xs[1..])
        case Success(ys) => Success([y] + ys)
        case Failure(j) => Failure(j + 1)
  }

  /** The conversion succeeds exactly when every row converts, and then gives each row's conversion in order. */
  lemma {:induction false} TraverseSuccess<A, B>(f: A -> Option<B>, xs: seq<A>)
    ensures Traverse(f, xs).Success? <==> (forall i :: 0 <= i < |xs| ==> f(xs[i]).Some?)
    ensures Traverse(f, xs).Success? ==>
      |Traverse(f, xs).value| == |xs| &&
      forall i :: 0 <= i < |xs| ==> Some(Traverse(f, xs).value[i]) == f(xs[i])
  {
    if xs != [] {
      TraverseSuccess(f, xs[1..]);
      if f(xs[0]).Some? && Traverse(f, xs[1..]).Success? {
        var ys := Traverse(f, xs[1..]).value;
        var r := [f(xs[0]).value] + ys;
        assert Traverse(f, xs) == Success(r);
        forall i | 0 <= i < |xs| ensures Some(r[i]) == f(xs[i]) {
          if i > 0 {
            assert r[i] == ys[i - 1] && xs[i] == xs[1..][i - 1];
          }
        }
      } else if f(xs[0]).Some? {
        var j :| 0 <= j < |xs[1..]| && f(xs[1..][j]).None?;
        assert f(xs[j + 1]).None?;
      }
    }
  }

  /** On failure, the position reported is the first row that does not convert. */
  lemma {:induction false} TraverseFailure<A, B>(f: A -> Option<B>, xs: seq<A>)
    requires Traverse(f, xs).Failure?
    ensures f(xs[Traverse(f, xs).error]).None?
    ensures forall i :: 0 <= i < Traverse(f, xs).error ==> f(xs[i]).Some?
  {
    if f(xs[0]).Some? {
      TraverseFailure(f, xs[1..]);
      var j := Traverse(f, xs[1..]).error;
      assert Traverse(f, xs).error == j + 1;
      forall i | 0 < i < j + 1 ensures f(xs[i]).Some? {
        assert xs[i] == xs[1..][i - 1];
      }
    }
  }
}
