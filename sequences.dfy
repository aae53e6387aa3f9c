/** Facts about sequences that the loops over blocks and content nodes use,
    and the present values of a sequence of optional ones. */
module Sequences {
  import opened Wrappers

  /** A prefix one element longer is the shorter prefix and that element. */
  lemma TakeOneMore<T>(xs: seq<T>, j: nat)
    requires j < |xs|
    ensures xs[..j + 1] == xs[..j] + [xs[j]]
  {
  }

  /** `xs.map(f)`. */
  function Map<A, B>(f: A -> B, xs: seq<A>): (r: seq<B>)
    ensures |r| == |xs| && forall i :: 0 <= i < |xs| ==> r[i] == f(xs[i])
  {
    seq(|xs|, i requires 0 <= i < |xs| => f(xs[i]))
  }

  lemma MapAppend<A, B>(f: A -> B, xs: seq<A>, ys: seq<A>)
    ensures Map(f, xs + ys) == Map(f, xs) + Map(f, ys)
  {
    assert forall i :: 0 <= i < |xs| ==> (xs + ys)[i] == xs[i];
  }

  lemma MapPair<A, B>(f: A -> B, x: A)
    ensures Map(f, [x, x]) == [f(x), f(x)]
  {
  }

  /** The present values of `xs`, in order, repeats kept: what a loop that
      pushes only the present ones collects. */
  function Somes<T>(xs: seq<Option<T>>): (r: seq<T>)
    ensures |r| <= |xs|
  {
    if xs == [] then []
    else
      var prefix := Somes(xs[..|xs| - 1]);
      match xs[|xs| - 1]
      case Some(x) => prefix + [x]
      case None => prefix
  }

  /** One more element: a present value is appended, an absent one adds nothing. */
  lemma SomesSnoc<T>(xs: seq<Option<T>>, x: Option<T>)
    ensures Somes(xs + [x]) == if x.Some? then Somes(xs) + [x.value] else Somes(xs)
  {
    assert (xs + [x])[..|xs|] == xs;
  }

  /** Order is kept: the values of a concatenation are the values of its parts, in turn. */
  lemma {:induction false} SomesAppend<T>(xs: seq<Option<T>>, ys: seq<Option<T>>)
    ensures Somes(xs + ys) == Somes(xs) + Somes(ys)
    decreases |ys|
  {
    if ys == [] {
      assert xs + ys == xs;
    } else {
      var init := ys[..|ys| - 1];
      var last := ys[|ys| - 1];
      var tail := if last.Some? then [last.value] else [];
      calc {
        Somes(xs + ys);
        == { assert xs + ys == (xs + init) + [last]; }
        Somes((xs + init) + [last]);
        == { SomesSnoc(xs + init, last); }
        Somes(xs + init) + tail;
        == { SomesAppend(xs, init); }
        Somes(xs) + Somes(init) + tail;
        == { SomesSnoc(init, last); assert ys == init + [last]; }
        Somes(xs) + Somes(ys);
      }
    }
  }

  /** Every value of the result is present in `xs`, and every present value of
      `xs` is in the result. */
  lemma {:induction false} SomesMembers<T>(xs: seq<Option<T>>)
    ensures forall k :: 0 <= k < |Somes(xs)| ==> Some(Somes(xs)[k]) in xs
    ensures forall i :: 0 <= i < |xs| && xs[i].Some? ==> xs[i].value in Somes(xs)
  {
    if xs != [] {
      var init := xs[..|xs| - 1];
      SomesMembers(init);
      assert xs == init + [xs[|xs| - 1]];
      SomesSnoc(init, xs[|xs| - 1]);
      assert forall i :: 0 <= i < |init| ==> init[i] == xs[i];
    }
  }

  /** A present value given twice is kept twice. */
  lemma SomesPair<T>(x: Option<T>)
    requires x.Some?
    ensures Somes([x, x]) == [x.value, x.value]
  {
    assert [x, x][..1] == [x];
    assert [x][..0] == [];
  }
}
