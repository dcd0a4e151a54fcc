/** Sequences without repeats, and their members that satisfy a predicate. */
module Seqs {
  ghost predicate NoDup<T>(xs: seq<T>) { forall i, j :: 0 <= i < j < |xs| ==> xs[i] != xs[j] }

  /** The members for which `p` holds, in order. */
  function Keep<T>(p: T -> bool, xs: seq<T>): seq<T> {
    if xs == [] then [] else Keep(p, xs[..|xs| - 1]) + if p(xs[|xs| - 1]) then [xs[|xs| - 1]] else []
  }

  lemma KeepSnoc<T>(p: T -> bool, xs: seq<T>, x: T)
    ensures Keep(p, xs + [x]) == Keep(p, xs) + if p(x) then [x] else []
  {
    assert (xs + [x])[..|xs|] == xs;
  }

  lemma {:induction false} KeepSame<T>(p: T -> bool, q: T -> bool, xs: seq<T>)
    requires forall x :: x in xs ==> p(x) == q(x)
    ensures Keep(p, xs) == Keep(q, xs)
  {
    if xs != [] {
      assert xs == xs[..|xs| - 1] + [xs[|xs| - 1]];
      KeepSame(p, q, xs[..|xs| - 1]);
    }
  }

  lemma {:induction false} KeepConcat<T>(p: T -> bool, a: seq<T>, b: seq<T>)
    ensures Keep(p, a + b) == Keep(p, a) + Keep(p, b)
  {
    if b == [] {
      assert a + b == a;
    } else {
      var init, x := b[..|b| - 1], b[|b| - 1];
      assert a + b == (a + init) + [x];
      KeepConcat(p, a, init);
      KeepSnoc(p, a + init, x);
    }
  }

  lemma {:induction false} KeepNone<T>(p: T -> bool, xs: seq<T>)
    requires forall x :: x in xs ==> !p(x)
    ensures Keep(p, xs) == []
  {
    if xs != [] {
      assert xs == xs[..|xs| - 1] + [xs[|xs| - 1]];
      KeepNone(p, xs[..|xs| - 1]);
    }
  }

  lemma {:induction false} KeptMembers<T>(p: T -> bool, xs: seq<T>)
    ensures forall x :: x in Keep(p, xs) <==> x in xs && p(x)
  {
    if xs != [] {
      assert xs == xs[..|xs| - 1] + [xs[|xs| - 1]];
      KeptMembers(p, xs[..|xs| - 1]);
    }
  }
}
