/** Iteration and left folds over an arbitrary state, with the facts about them
    that do not depend on what one step does. */
module Folds {

  function Iterate<T>(f: T -> T, c: T, n: nat): T {
    if n == 0 then c else Iterate(f, f(c), n - 1)
  }

  function FoldLeft<T, B>(f: (T, B) -> T, c: T, data: seq<B>): T {
    if data == [] then c
    else f(FoldLeft(f, c, data[..|data| - 1]), data[|data| - 1])
  }

  ghost predicate Injective<T(!new)>(f: T -> T) {
    forall a, b :: f(a) == f(b) ==> a == b
  }

  /** Every input symbol acts injectively on the state. */
  ghost predicate ActsInjectively<T(!new), B(!new)>(f: (T, B) -> T) {
    forall a, b, x :: f(a, x) == f(b, x) ==> a == b
  }

  lemma {:induction false} IterateInjective<T(!new)>(f: T -> T, a: T, b: T, n: nat)
    requires Injective(f)
    requires Iterate(f, a, n) == Iterate(f, b, n)
    ensures a == b
  {
    if n > 0 {
      IterateInjective(f, f(a), f(b), n - 1);
    }
  }

  lemma {:induction false} IterateSplit<T>(f: T -> T, x: T, m: nat, n: nat)
    ensures Iterate(f, x, m + n) == Iterate(f, Iterate(f, x, m), n)
  {
    if m > 0 {
      IterateSplit(f, f(x), m - 1, n);
    }
  }

  /** Folding in two pieces is folding the whole. */
  lemma {:induction false} FoldSplit<T, B>(f: (T, B) -> T, c: T, a: seq<B>, b: seq<B>)
    ensures FoldLeft(f, c, a + b) == FoldLeft(f, FoldLeft(f, c, a), b)
  {
    if b == [] {
      assert a + b == a;
    } else {
      var n := |b| - 1;
      assert (a + b)[..|a + b| - 1] == a + b[..n];
      FoldSplit(f, c, a, b[..n]);
    }
  }

  lemma FoldFirst<T, B>(f: (T, B) -> T, c: T, data: seq<B>)
    requires data != []
    ensures FoldLeft(f, c, data) == FoldLeft(f, f(c, data[0]), data[1..])
  {
    assert data == [data[0]] + data[1..];
    FoldSplit(f, c, [data[0]], data[1..]);
    assert [data[0]][..0] == [];
  }

  lemma FoldThree<T, B>(f: (T, B) -> T, c: T, a: seq<B>, b: seq<B>, d: seq<B>)
    ensures FoldLeft(f, c, a + b + d) == FoldLeft(f, FoldLeft(f, FoldLeft(f, c, a), b), d)
  {
    FoldSplit(f, c, a + b, d);
    FoldSplit(f, c, a, b);
  }

  /** Different states stay different under the same continuation. */
  lemma {:induction false} FoldInjective<T(!new), B(!new)>(f: (T, B) -> T, a: T, b: T, data: seq<B>)
    requires ActsInjectively(f)
    requires FoldLeft(f, a, data) == FoldLeft(f, b, data)
    ensures a == b
  {
    if data != [] {
      FoldInjective(f, a, b, data[..|data| - 1]);
    }
  }

  /** `mix` slides through `f`: mixing in a word that `low` does not reach, then
      stepping, is stepping first and mixing in the word moved down by `down`. */
  ghost predicate Slides<T(!new)>(f: T -> T, mix: (T, T) -> T, down: T -> T, low: T -> bool) {
    forall x, y :: !low(y) ==> f(mix(x, y)) == mix(f(x), down(y))
  }

  /** The first `n` moves down of `y` all stay clear of `low`. */
  ghost predicate ClearFor<T>(down: T -> T, low: T -> bool, y: T, n: nat) {
    n == 0 || (!low(y) && ClearFor(down, low, down(y), n - 1))
  }

  lemma {:induction false} IterateSlides<T(!new)>(f: T -> T, mix: (T, T) -> T, down: T -> T,
                                                  low: T -> bool, x: T, y: T, n: nat)
    requires Slides(f, mix, down, low) && ClearFor(down, low, y, n)
    ensures Iterate(f, mix(x, y), n) == mix(Iterate(f, x, n), Iterate(down, y, n))
  {
    if n > 0 {
      IterateSlides(f, mix, down, low, f(x), down(y), n - 1);
    }
  }
}
