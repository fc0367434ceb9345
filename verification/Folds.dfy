/** Machines that read a sequence of symbols. */
module Folds {

  /** The state of a machine with step `f` after it read `s`. */
  function Fold<S, B>(f: (S, B) -> S, c: S, s: seq<B>): S
    decreases |s|
  {
    if s == [] then c else Fold(f, f(c, s[0]), s[1..])
  }

  lemma {:induction false} FoldConcat<S, B>(f: (S, B) -> S, c: S, s: seq<B>, t: seq<B>)
    ensures Fold(f, c, s + t) == Fold(f, Fold(f, c, s), t)
    decreases |s|
  {
    if s == [] {
      assert s + t == t;
    } else {
      assert (s + t)[1..] == s[1..] + t;
      FoldConcat(f, f(c, s[0]), s[1..], t);
    }
  }

  lemma FoldLast<S, B>(f: (S, B) -> S, c: S, s: seq<B>, i: nat)
    requires i < |s|
    ensures Fold(f, c, s[..i + 1]) == f(Fold(f, c, s[..i]), s[i])
  {
    assert s[..i + 1] == s[..i] + [s[i]];
    FoldConcat(f, c, s[..i], [s[i]]);
  }

  ghost predicate Injective<S(!new), B(!new)>(f: (S, B) -> S) {
    forall a, b, m {:trigger f(a, m), f(b, m)} :: f(a, m) == f(b, m) ==> a == b
  }

  /** A machine whose steps lose nothing never forgets a difference. */
  lemma {:induction false} FoldInjective<S(!new), B(!new)>(f: (S, B) -> S, a: S, b: S, s: seq<B>)
    requires Injective(f) && a != b
    ensures Fold(f, a, s) != Fold(f, b, s)
    decreases |s|
  {
    if s != [] { FoldInjective(f, f(a, s[0]), f(b, s[0]), s[1..]); }
  }

  lemma FoldAround<S, B>(f: (S, B) -> S, c: S, p: seq<B>, u: seq<B>, s: seq<B>)
    ensures Fold(f, c, p + u + s) == Fold(f, Fold(f, Fold(f, c, p), u), s)
  {
    FoldConcat(f, c, p + u, s);
    FoldConcat(f, c, p, u);
  }
}
