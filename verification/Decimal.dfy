/** Go's %d and strconv printing of integers, and texts joined by a separator. */
module Decimal {
  function Digit(d: nat): (c: char)
    requires d < 10
  {
    "0123456789"[d]
  }

  function DigitValue(c: char): int {
    c as int - '0' as int
  }

  lemma DigitRoundTrip(d: nat)
    requires d < 10
    ensures DigitValue(Digit(d)) == d && '0' <= Digit(d) <= '9'
  {
  }

  function Nat(n: nat): (s: string)
    ensures s != [] && forall i :: 0 <= i < |s| ==> '0' <= s[i] <= '9'
  {
    if n < 10 then [Digit(n)] else Nat(n / 10) + [Digit(n % 10)]
  }

  /** %d of a possibly negative integer. */
  function Int(n: int): string {
    if n < 0 then "-" + Nat(-n) else Nat(n)
  }

  function ParseNat(s: string): int {
    if s == [] then 0 else 10 * ParseNat(s[..|s| - 1]) + DigitValue(s[|s| - 1])
  }

  function ParseInt(s: string): int {
    if s != [] && s[0] == '-' then -ParseNat(s[1..]) else ParseNat(s)
  }

  lemma {:induction false} NatRoundTrip(n: nat)
    ensures ParseNat(Nat(n)) == n
  {
    DigitRoundTrip(n % 10);
    if n < 10 {
      assert Nat(n)[..0] == [];
    } else {
      NatRoundTrip(n / 10);
      assert Nat(n)[..|Nat(n)| - 1] == Nat(n / 10);
    }
  }

  lemma MinusFirst(s: string)
    ensures ParseInt("-" + s) == -ParseNat(s)
  {
    assert ("-" + s)[1..] == s;
  }

  lemma NoMinus(s: string)
    requires s != [] && s[0] != '-'
    ensures ParseInt(s) == ParseNat(s)
  {
  }

  lemma IntRoundTrip(n: int)
    ensures ParseInt(Int(n)) == n
  {
    var s := Nat(if n < 0 then -n else n);
    NatRoundTrip(if n < 0 then -n else n);
    assert '0' <= s[0];
    NoMinus(s);
    MinusFirst(s);
  }

  /** The first position of `c` at or after `from`, or |s|. */
  function IndexFrom(s: string, c: char, from: nat): (i: nat)
    requires from <= |s|
    ensures from <= i <= |s|
    ensures forall k :: from <= k < i ==> s[k] != c
    ensures i < |s| ==> s[i] == c
    decreases |s| - from
  {
    if from == |s| || s[from] == c then from else IndexFrom(s, c, from + 1)
  }

  /** A text without the separator is recovered as everything before the first separator. */
  lemma CutFirst(a: string, c: char, rest: string, from: nat)
    requires from <= |a| && forall k :: from <= k < |a| ==> a[k] != c
    ensures IndexFrom(a + [c] + rest, c, from) == |a|
    ensures (a + [c] + rest)[..|a|] == a && (a + [c] + rest)[|a| + 1..] == rest
  {
    var s := a + [c] + rest;
    assert s[|a|] == c;
    assert forall k :: 0 <= k < |a| ==> s[k] == a[k];
    assert forall k :: from <= k < |a| ==> s[k] != c;
  }

  /** Two joins with separator-free left parts agree only if both parts agree. */
  lemma JoinIsInjective(a: string, r: string, b: string, t: string, c: char)
    requires c !in a && c !in b
    requires a + [c] + r == b + [c] + t
    ensures a == b && r == t
  {
    CutFirst(a, c, r, 0);
    CutFirst(b, c, t, 0);
  }

  lemma NatIsInjective(m: nat, n: nat)
    requires Nat(m) == Nat(n)
    ensures m == n
  {
    NatRoundTrip(m);
    NatRoundTrip(n);
  }
}
