/** The counting behind `makeArrayPermutations`: an odometer whose wheel `i` has
    `lens[i]` positions and whose last wheel turns fastest. */
module MixedRadix {

  ghost predicate Positive(lens: seq<nat>) {
    forall i :: 0 <= i < |lens| ==> lens[i] > 0
  }

  function Product(lens: seq<nat>): nat {
    if lens == [] then 1 else Product(lens[..|lens| - 1]) * lens[|lens| - 1]
  }

  ghost predicate Valid(lens: seq<nat>, d: seq<nat>) {
    |d| == |lens| && forall i :: 0 <= i < |d| ==> d[i] < lens[i]
  }

  /** The reading of an odometer position as a number, last wheel least significant. */
  function Eval(lens: seq<nat>, d: seq<nat>): nat
    requires |d| == |lens|
  {
    if d == [] then 0 else
      Eval(lens[..|d| - 1], d[..|d| - 1]) * lens[|d| - 1] + d[|d| - 1]
  }

  /** The position of the odometer after `k` steps. */
  function Digits(lens: seq<nat>, k: nat): (d: seq<nat>)
    requires Positive(lens)
    ensures |d| == |lens|
  {
    if lens == [] then [] else
      Digits(lens[..|lens| - 1], k / lens[|lens| - 1]) + [k % lens[|lens| - 1]]
  }

  lemma DivModUnique(q: nat, r: nat, n: nat)
    requires r < n
    ensures (q * n + r) / n == q && (q * n + r) % n == r
  {
    var d, m := (q * n + r) / n, (q * n + r) % n;
    assert d * n + m == q * n + r;
    if d < q {
      MulLess(d, q, n);
    } else if d > q {
      MulLess(q, d, n);
    }
  }

  lemma MulLess(a: nat, b: nat, n: nat)
    requires a < b
    ensures a * n + n <= b * n
  {
    assert (a + 1) * n == a * n + n;
    MulMono(a + 1, b, n);
  }

  lemma MulMono(a: nat, b: nat, n: nat)
    requires a <= b
    ensures a * n <= b * n
  {
  }

  lemma QuotientBound(k: nat, p: nat, n: nat)
    requires n > 0 && k < p * n
    ensures k / n < p && k % n < n && (k / n) * n + k % n == k
  {
    var q, r := k / n, k % n;
    assert q * n + r == k;
    if q >= p {
      MulMono(p, q, n);
    }
  }

  lemma Split(k: nat, p: nat, n: nat) returns (q: nat, r: nat)
    requires k < p * n
    ensures q < p && r < n && k == q * n + r
  {
    assert n > 0;
    QuotientBound(k, p, n);
    q, r := k / n, k % n;
  }

  lemma EvalSnoc(lens: seq<nat>, d: seq<nat>, r: nat)
    requires |d| + 1 == |lens|
    ensures Eval(lens, d + [r]) == Eval(lens[..|d|], d) * lens[|d|] + r
  {
    assert (d + [r])[..|d|] == d;
  }

  lemma {:induction false} EvalBound(lens: seq<nat>, d: seq<nat>)
    requires Valid(lens, d)
    ensures Eval(lens, d) < Product(lens)
  {
    if d == [] {
    } else {
      var n := |d| - 1;
      EvalBound(lens[..n], d[..n]);
      MulLess(Eval(lens[..n], d[..n]), Product(lens[..n]), lens[n]);
    }
  }

  /** No position is missed: every valid position is the one reached after Eval steps. */
  lemma {:induction false} DigitsOfEval(lens: seq<nat>, d: seq<nat>)
    requires Positive(lens) && Valid(lens, d)
    ensures Digits(lens, Eval(lens, d)) == d
  {
    if d == [] {
    } else {
      var n := |d| - 1;
      DigitsOfEval(lens[..n], d[..n]);
      DivModUnique(Eval(lens[..n], d[..n]), d[n], lens[n]);
      assert d == d[..n] + [d[n]];
    }
  }

  lemma ValidSnoc(lens: seq<nat>, d: seq<nat>, r: nat)
    requires lens != [] && Valid(lens[..|lens| - 1], d) && r < lens[|lens| - 1]
    ensures Valid(lens, d + [r])
  {
  }

  /** No position is repeated: the step count is recovered from the position. */
  lemma {:induction false} EvalOfDigits(lens: seq<nat>, k: nat)
    requires Positive(lens) && k < Product(lens)
    ensures Valid(lens, Digits(lens, k)) && Eval(lens, Digits(lens, k)) == k
  {
    if lens == [] {
    } else {
      var n := |lens| - 1;
      var q, r := k / lens[n], k % lens[n];
      var d := Digits(lens[..n], q);
      QuotientBound(k, Product(lens[..n]), lens[n]);
      EvalOfDigits(lens[..n], q);
      hide Valid, Eval;
      assert Digits(lens, k) == d + [r];
      ValidSnoc(lens, d, r);
      EvalSnoc(lens, d, r);
    }
  }

  /** One step: `d` is at its limit after `next`, and `e` advances wheel `next` and resets the rest. */
  lemma {:induction false} Step(lens: seq<nat>, d: seq<nat>, e: seq<nat>, next: nat)
    requires Valid(lens, d) && |e| == |d| && next < |d|
    requires e[..next] == d[..next] && e[next] == d[next] + 1
    requires forall i :: next < i < |d| ==> d[i] == lens[i] - 1 && e[i] == 0
    ensures Eval(lens, e) == Eval(lens, d) + 1
  {
    var n := |d| - 1;
    if next == n {
      assert e[..n] == d[..n];
    } else {
      assert e[..n][..next] == e[..next] == d[..next] == d[..n][..next];
      Step(lens[..n], d[..n], e[..n], next);
      var x := Eval(lens[..n], d[..n]);
      assert (x + 1) * lens[n] == x * lens[n] + lens[n];
    }
  }

  /** The odometer stands at its last position exactly when every wheel is at its limit. */
  lemma {:induction false} LastPosition(lens: seq<nat>, d: seq<nat>)
    requires Valid(lens, d)
    requires forall i :: 0 <= i < |d| ==> d[i] == lens[i] - 1
    ensures Eval(lens, d) + 1 == Product(lens)
  {
    if d == [] {
    } else {
      var n := |d| - 1;
      LastPosition(lens[..n], d[..n]);
      var x := Eval(lens[..n], d[..n]);
      assert (x + 1) * lens[n] == x * lens[n] + lens[n];
    }
  }

  lemma {:induction false} FirstPosition(lens: seq<nat>, d: seq<nat>)
    requires |d| == |lens| && forall i :: 0 <= i < |d| ==> d[i] == 0
    ensures Eval(lens, d) == 0
  {
    if d == [] {
    } else {
      FirstPosition(lens[..|d| - 1], d[..|d| - 1]);
    }
  }

  lemma {:induction false} ProductPositive(lens: seq<nat>)
    requires Positive(lens)
    ensures Product(lens) > 0
  {
    if lens == [] {
    } else {
      ProductPositive(lens[..|lens| - 1]);
      MulMono(1, Product(lens[..|lens| - 1]), lens[|lens| - 1]);
    }
  }
}
