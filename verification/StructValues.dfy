/** Decoded selector values (a protobuf Struct) and the leaves that take part in matching. */
module StructValues {
  import opened Common
  import Decimal

  datatype Value =
    | Null
    | Bool(b: bool)
    | Number(x: real)
    | Str(s: string)
    | List(vs: seq<Value>)
    | Struct(fields: Fields)

  type Fields = map<string, Value>

  /** Round half to even, as Go's %.0f does on an exactly represented number. */
  function Round(x: real): (n: nat)
    requires x >= 0.0
  {
    var f := x.Floor;
    if x - f as real < 0.5 then f
    else if x - f as real > 0.5 then f + 1
    else if f % 2 == 0 then f else f + 1
  }

  /** The rounding is to a nearest integer, and a tie goes to the even one. */
  lemma RoundIsNearest(x: real, n: nat)
    requires x >= 0.0
    ensures -0.5 <= Round(x) as real - x <= 0.5
    ensures n == Round(x) <==>
            (-0.5 < n as real - x < 0.5 || ((n as real - x == 0.5 || x - n as real == 0.5) && n % 2 == 0))
  {
    var f := x.Floor;
    assert f as real <= x < f as real + 1.0;
    if n < f {
      assert n as real <= f as real - 1.0;
    } else if n > f + 1 {
      assert n as real >= f as real + 2.0;
    }
  }

  /** fmt.Sprintf("%0.0f", x) */
  function RenderNumber(x: real): string {
    if x < 0.0 then "-" + Decimal.Nat(Round(-x)) else Decimal.Nat(Round(x))
  }

  /** A whole number is printed as itself. */
  lemma WholeNumbersPrint(n: int)
    ensures RenderNumber(n as real) == Decimal.Int(n)
  {
    var m: nat := if n < 0 then -n else n;
    assert (m as real).Floor == m;
    assert Round(m as real) == m;
  }

  ghost predicate IsNearest(m: int, x: real) {
    && -0.5 <= m as real - x <= 0.5
    && forall n: int :: n == m <==>
         -0.5 < n as real - x < 0.5 || ((n as real - x == 0.5 || x - n as real == 0.5) && n % 2 == 0)
  }

  lemma RoundIsTheNearest(x: real)
    requires x >= 0.0
    ensures IsNearest(Round(x), x)
  {
    RoundIsNearest(x, 0);
    forall n: int ensures n == Round(x) <==>
        -0.5 < n as real - x < 0.5 || ((n as real - x == 0.5 || x - n as real == 0.5) && n % 2 == 0)
    {
      if n >= 0 {
        RoundIsNearest(x, n);
      } else {
        assert n as real <= -1.0;
      }
    }
  }

  lemma NearestOfOpposite(m: int, x: real)
    requires IsNearest(m, x)
    ensures IsNearest(-m, -x)
  {
    forall n: int ensures n == -m <==>
        -0.5 < n as real + x < 0.5 || ((n as real + x == 0.5 || -x - n as real == 0.5) && n % 2 == 0)
    {
      assert -n == m <==>
        -0.5 < (-n) as real - x < 0.5 || (((-n) as real - x == 0.5 || x - (-n) as real == 0.5) && (-n) % 2 == 0);
      assert (-n) as real == -(n as real) && (n % 2 == 0 <==> (-n) % 2 == 0);
    }
  }

  lemma PrintedText(n: int)
    requires n >= 0
    ensures var text := Decimal.Nat(n);
            && text != "" && text[0] != '-' && ("-" + text)[0] == '-'
            && Decimal.ParseInt(text) == n && Decimal.ParseInt("-" + text) == -n
  {
    var text := Decimal.Nat(n);
    assert '0' <= text[0];
    Decimal.NatRoundTrip(n);
    Decimal.MinusFirst(text);
    Decimal.NoMinus(text);
  }

  /** Any number is printed as a nearest integer, on a tie as the even one, and no other integer
      is; with a '-' in front exactly when the number is negative. */
  lemma PrintsNearest(x: real)
    ensures IsNearest(Decimal.ParseInt(RenderNumber(x)), x)
    ensures RenderNumber(x) != "" && (RenderNumber(x)[0] == '-' <==> x < 0.0)
  {
    hide Round, IsNearest, Decimal.Nat, Decimal.ParseInt;
    var y := if x < 0.0 then -x else x;
    RoundIsTheNearest(y);
    PrintedText(Round(y));
    if x < 0.0 {
      NearestOfOpposite(Round(y), y);
      assert -y == x;
    }
  }

  /** `s` is the text of a number or string inside `v`, at any depth of list nesting. */
  ghost predicate HasLeaf(v: Value, s: string) {
    match v
    case Number(x) => s == RenderNumber(x)
    case Str(t) => s == t
    case List(vs) => exists i :: 0 <= i < |vs| && HasLeaf(vs[i], s)
    case _ => false
  }

  function Leaves(v: Value): seq<string> {
    match v
    case Number(x) => [RenderNumber(x)]
    case Str(s) => [s]
    case List(vs) => LeavesOfAll(vs)
    case _ => []
  }

  function LeavesOfAll(vs: seq<Value>): seq<string> {
    if vs == [] then [] else LeavesOfAll(vs[..|vs| - 1]) + Leaves(vs[|vs| - 1])
  }

  lemma {:induction false} LeavesAreTheLeaves(v: Value, s: string)
    ensures s in Leaves(v) <==> HasLeaf(v, s)
    decreases v, 0
  {
    if v.List? {
      LeavesOfAllAreTheLeaves(v.vs, s);
    }
  }

  ghost predicate SomeHasLeaf(vs: seq<Value>, s: string) {
    exists i :: 0 <= i < |vs| && HasLeaf(vs[i], s)
  }

  lemma SomeHasLeafSnoc(vs: seq<Value>, v: Value, s: string)
    ensures SomeHasLeaf(vs + [v], s) <==> SomeHasLeaf(vs, s) || HasLeaf(v, s)
  {
    hide HasLeaf;
    if i :| 0 <= i < |vs| && HasLeaf(vs[i], s) {
      assert HasLeaf((vs + [v])[i], s);
    }
    if HasLeaf(v, s) {
      assert HasLeaf((vs + [v])[|vs|], s);
    }
  }

  lemma {:induction false} LeavesOfAllAreTheLeaves(vs: seq<Value>, s: string)
    ensures s in LeavesOfAll(vs) <==> SomeHasLeaf(vs, s)
    decreases vs, 1
  {
    if vs == [] {
    } else {
      hide HasLeaf, SomeHasLeaf;
      var n := |vs| - 1;
      LeavesOfAllAreTheLeaves(vs[..n], s);
      LeavesAreTheLeaves(vs[n], s);
      SomeHasLeafSnoc(vs[..n], vs[n], s);
      DropLast(vs);
    }
  }

  lemma LeavesSnoc(vs: seq<Value>, v: Value)
    ensures LeavesOfAll(vs + [v]) == LeavesOfAll(vs) + Leaves(v)
  {
    assert (vs + [v])[..|vs|] == vs;
  }

  lemma {:induction false} LeavesAppend(a: seq<Value>, b: seq<Value>)
    ensures LeavesOfAll(a + b) == LeavesOfAll(a) + LeavesOfAll(b)
  {
    if b == [] {
      assert a + b == a;
    } else {
      hide LeavesOfAll, Leaves;
      var n := |b| - 1;
      LeavesAppend(a, b[..n]);
      AppendDropLast(a, b);
      DropLast(b);
      LeavesSnoc(a + b[..n], b[n]);
      LeavesSnoc(b[..n], b[n]);
      Assoc(LeavesOfAll(a), LeavesOfAll(b[..n]), Leaves(b[n]));
    }
  }

  /** Lists are read from left to right, repetitions included; of the rest only numbers and texts
      have a leaf, one each. */
  lemma LeavesInOrder(n: int, s: string, a: seq<Value>, b: seq<Value>, flag: bool, fields: Fields)
    ensures Leaves(Number(n as real)) == [Decimal.Int(n)] && Leaves(Str(s)) == [s]
    ensures Leaves(Null) == [] && Leaves(Bool(flag)) == [] && Leaves(Struct(fields)) == []
    ensures Leaves(List([])) == [] && Leaves(List(a + b)) == Leaves(List(a)) + Leaves(List(b))
    ensures a != [] ==> Leaves(List([a[0]])) == Leaves(a[0])
  {
    WholeNumbersPrint(n);
    LeavesAppend(a, b);
    if a != [] {
      assert [a[0]][..0] == [];
    }
  }

  method GetValueForKind(value: Value) returns (values: seq<string>)
    ensures values == Leaves(value)
    ensures forall s :: s in values <==> HasLeaf(value, s)
    decreases value
  {
    values := [];
    match value {
      case Number(x) =>
        values := values + [RenderNumber(x)];
      case Str(s) =>
        values := values + [s];
      case List(vs) =>
        for i := 0 to |vs|
          invariant values == LeavesOfAll(vs[..i])
        {
          var nested := GetValueForKind(vs[i]);
          values := values + nested;
          assert vs[..i + 1][..i] == vs[..i];
        }
        assert vs[..|vs|] == vs;
      case _ =>
    }
    forall s ensures s in values <==> HasLeaf(value, s) {
      LeavesAreTheLeaves(value, s);
    }
  }
}
