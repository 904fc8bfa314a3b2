/**
 * Two folds over sequences that the file codec is built from: mapping every
 * element, and mapping through a partial function while keeping only the
 * values that come out. Stated once, generically, so that the codec's lemmas
 * about whole files reduce to facts about a single line.
 */
module Seqs {
  import opened Wrappers

  /** f applied to every element, in order. */
  function Map<A, B>(f: A -> B, xs: seq<A>): (r: seq<B>)
    ensures |r| == |xs|
    ensures forall i :: 0 <= i < |xs| ==> r[i] == f(xs[i])
  {
    seq(|xs|, i requires 0 <= i < |xs| => f(xs[i]))
  }

  lemma MapPrefix<A, B>(f: A -> B, xs: seq<A>, i: nat)
    requires i < |xs|
    ensures Map(f, xs[..i + 1]) == Map(f, xs[..i]) + [f(xs[i])]
  {
  }

  /** The values f yields on xs, in order, skipping the elements f maps to None. */
  function FilterMap<A, B>(f: A -> Option<B>, xs: seq<A>): (r: seq<B>)
    ensures |r| <= |xs|
  {
    if xs == [] then []
    else
      var last := xs[|xs| - 1];
      FilterMap(f, xs[..|xs| - 1]) + if f(last).Some? then [f(last).value] else []
  }

  lemma FilterMapSnoc<A, B>(f: A -> Option<B>, xs: seq<A>, x: A)
    ensures FilterMap(f, xs + [x]) == FilterMap(f, xs) + if f(x).Some? then [f(x).value] else []
  {
    assert (xs + [x])[..|xs|] == xs;
  }

  lemma FilterMapPrefix<A, B>(f: A -> Option<B>, xs: seq<A>, i: nat)
    requires i < |xs|
    ensures FilterMap(f, xs[..i + 1]) == FilterMap(f, xs[..i]) + if f(xs[i]).Some? then [f(xs[i]).value] else []
  {
    assert xs[..i + 1][..i] == xs[..i];
  }

  /** The fold distributes over concatenation, so the kept values keep their order. */
  lemma {:induction false} FilterMapAppend<A, B>(f: A -> Option<B>, a: seq<A>, b: seq<A>)
    ensures FilterMap(f, a + b) == FilterMap(f, a) + FilterMap(f, b)
  {
    if b == [] {
      assert a + b == a;
    } else {
      var b', x := b[..|b| - 1], b[|b| - 1];
      assert a + b == (a + b') + [x];
      assert b == b' + [x];
      FilterMapAppend(f, a, b');
      FilterMapSnoc(f, a + b', x);
      FilterMapSnoc(f, b', x);
    }
  }

  /** Every kept value comes from some element of the input. */
  lemma {:induction false} FilterMapOrigin<A, B>(f: A -> Option<B>, xs: seq<A>, y: B)
    requires y in FilterMap(f, xs)
    ensures exists i :: 0 <= i < |xs| && f(xs[i]) == Some(y)
  {
    var init, last := xs[..|xs| - 1], xs[|xs| - 1];
    if y in FilterMap(f, init) {
      FilterMapOrigin(f, init, y);
      var i :| 0 <= i < |init| && f(init[i]) == Some(y);
      assert xs[i] == init[i];
    } else {
      assert f(xs[|xs| - 1]) == Some(y);
    }
  }

  /** A partial inverse undoes a map: when f(g(y)) == Some(y) for every y, nothing is dropped. */
  lemma {:induction false} FilterMapInverse<A, B>(f: A -> Option<B>, g: B -> A, ys: seq<B>)
    requires forall y :: y in ys ==> f(g(y)) == Some(y)
    ensures FilterMap(f, Map(g, ys)) == ys
  {
    if ys != [] {
      var init := ys[..|ys| - 1];
      assert Map(g, ys)[..|ys| - 1] == Map(g, init);
      FilterMapInverse(f, g, init);
      assert init + [ys[|ys| - 1]] == ys;
    }
  }
}
