/** An optional value, for the program's NULL results and "not found" answers. */
module Optional {

  datatype Option<+T> = None | Some(value: T)

  /** The index of the first occurrence of `x` in `xs`, if any: the answer of a
      front-to-back scan that stops at the first match. */
  function FirstIndex<T(==)>(xs: seq<T>, x: T): (r: Option<nat>)
    ensures r.None? <==> x !in xs
    ensures r.Some? ==> r.value < |xs| && xs[r.value] == x && x !in xs[..r.value]
  {
    if xs == [] then None
    else if xs[0] == x then Some(0)
    else match FirstIndex(xs[1..], x)
      case None => None
      case Some(k) =>
        assert xs[..k + 1] == [xs[0]] + xs[1..][..k];
        Some(k + 1)
  }

  /** A scan that finds `x` at index `i` with no earlier `x` has found the first one. */
  lemma {:induction false} FirstIndexUnique<T>(xs: seq<T>, x: T, i: nat)
    requires i < |xs| && xs[i] == x && x !in xs[..i]
    ensures FirstIndex(xs, x) == Some(i)
  {
    if i > 0 {
      assert xs[0] == xs[..i][0];
      assert xs[1..][..i - 1] == xs[1..i];
      FirstIndexUnique(xs[1..], x, i - 1);
    }
  }

  /** Past a stretch `xs` without `x`, the first `x` of `xs + ys` is the first `x` of
      `ys`, moved along by `|xs|`. */
  lemma {:induction false} FirstIndexAfter<T>(xs: seq<T>, ys: seq<T>, x: T)
    requires x !in xs
    ensures FirstIndex(ys, x).None? ==> FirstIndex(xs + ys, x).None?
    ensures FirstIndex(ys, x).Some? ==>
      FirstIndex(xs + ys, x) == Some(|xs| + FirstIndex(ys, x).value)
  {
    if xs == [] {
      assert xs + ys == ys;
    } else {
      assert (xs + ys)[0] == xs[0] && (xs + ys)[1..] == xs[1..] + ys;
      FirstIndexAfter(xs[1..], ys, x);
    }
  }
}
