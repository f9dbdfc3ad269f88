/** Order-preserving subsequences. */
module Seqs {

  /** Concatenation regroups freely. */
  lemma AppendAssoc<T>(a: seq<T>, b: seq<T>, c: seq<T>)
    ensures a + (b + c) == a + b + c
  {
  }

  /** `xs` can be obtained from `ys` by deleting elements: an order-preserving
      injection of the positions of `xs` into those of `ys`. */
  ghost predicate IsSubseq<T>(xs: seq<T>, ys: seq<T>)
    decreases |ys|
  {
    if xs == [] then true
    else if ys == [] then false
    else (xs[|xs| - 1] == ys[|ys| - 1] && IsSubseq(xs[..|xs| - 1], ys[..|ys| - 1]))
         || IsSubseq(xs, ys[..|ys| - 1])
  }

  lemma {:induction false} SubseqLength<T>(xs: seq<T>, ys: seq<T>)
    requires IsSubseq(xs, ys)
    ensures |xs| <= |ys|
    decreases |ys|
  {
    if xs != [] {
      if xs[|xs| - 1] == ys[|ys| - 1] && IsSubseq(xs[..|xs| - 1], ys[..|ys| - 1]) {
        SubseqLength(xs[..|xs| - 1], ys[..|ys| - 1]);
      } else {
        SubseqLength(xs, ys[..|ys| - 1]);
      }
    }
  }

  lemma {:induction false} SubseqMembers<T>(xs: seq<T>, ys: seq<T>)
    requires IsSubseq(xs, ys)
    ensures forall x :: x in xs ==> x in ys
    decreases |ys|
  {
    if xs != [] {
      if xs[|xs| - 1] == ys[|ys| - 1] && IsSubseq(xs[..|xs| - 1], ys[..|ys| - 1]) {
        SubseqMembers(xs[..|xs| - 1], ys[..|ys| - 1]);
        assert xs == xs[..|xs| - 1] + [xs[|xs| - 1]];
        assert ys == ys[..|ys| - 1] + [ys[|ys| - 1]];
      } else {
        SubseqMembers(xs, ys[..|ys| - 1]);
        assert ys == ys[..|ys| - 1] + [ys[|ys| - 1]];
      }
    }
  }

  lemma SubseqExtendBoth<T>(xs: seq<T>, ys: seq<T>, y: T)
    requires IsSubseq(xs, ys)
    ensures IsSubseq(xs + [y], ys + [y])
  {
    assert (xs + [y])[..|xs|] == xs;
    assert (ys + [y])[..|ys|] == ys;
  }

  lemma SubseqExtendRight<T>(xs: seq<T>, ys: seq<T>, y: T)
    requires IsSubseq(xs, ys)
    ensures IsSubseq(xs, ys + [y])
  {
    assert (ys + [y])[..|ys|] == ys;
  }

  lemma {:induction false} SubseqRefl<T>(xs: seq<T>)
    ensures IsSubseq(xs, xs)
    decreases |xs|
  {
    if xs != [] {
      SubseqRefl(xs[..|xs| - 1]);
    }
  }

  lemma {:induction false} SubseqPrependRight<T>(xs: seq<T>, ys: seq<T>, y: T)
    requires IsSubseq(xs, ys)
    ensures IsSubseq(xs, [y] + ys)
    decreases |ys|
  {
    if xs != [] {
      var yy := [y] + ys;
      assert yy[..|yy| - 1] == [y] + ys[..|ys| - 1];
      if xs[|xs| - 1] == ys[|ys| - 1] && IsSubseq(xs[..|xs| - 1], ys[..|ys| - 1]) {
        SubseqPrependRight(xs[..|xs| - 1], ys[..|ys| - 1], y);
      } else {
        SubseqPrependRight(xs, ys[..|ys| - 1], y);
      }
    }
  }

  lemma {:induction false} SubseqPrependBoth<T>(xs: seq<T>, ys: seq<T>, y: T)
    requires IsSubseq(xs, ys)
    ensures IsSubseq([y] + xs, [y] + ys)
    decreases |ys|
  {
    var yy := [y] + ys;
    if ys == [] {
      assert xs == [];
      assert yy[..0] == [];
    } else {
      assert yy[..|yy| - 1] == [y] + ys[..|ys| - 1];
      if xs == [] {
        SubseqPrependBoth(xs, ys[..|ys| - 1], y);
        assert xs + [y] == [y] + xs;
      } else {
        var xx := [y] + xs;
        assert xx[..|xx| - 1] == [y] + xs[..|xs| - 1];
        if xs[|xs| - 1] == ys[|ys| - 1] && IsSubseq(xs[..|xs| - 1], ys[..|ys| - 1]) {
          SubseqPrependBoth(xs[..|xs| - 1], ys[..|ys| - 1], y);
        } else {
          SubseqPrependBoth(xs, ys[..|ys| - 1], y);
        }
      }
    }
  }
}
