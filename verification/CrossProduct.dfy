/** Conversion does not depend on the order in which Go happens to visit a selector's
    fields: the multiset of label maps is the same for every order. */
module CrossProduct {
  import opened Common
  import opened StructValues
  import opened Selectors
  import Radix = MixedRadix

  function Spread(m: Selector, f: seq<string>): (s: seq<Selector>)
    ensures |s| == |f|
  {
    seq(|f|, i requires 0 <= i < |f| => m[f[i] := true])
  }

  /** Every map of `ms` extended by every entry of one more factor. */
  function Times(ms: seq<Selector>, f: seq<string>): seq<Selector> {
    if ms == [] then [] else Times(ms[..|ms| - 1], f) + Spread(ms[|ms| - 1], f)
  }

  /** The cross product as a fold over the factors: a form without index arithmetic. */
  function Cross(arrays: seq<seq<string>>): seq<Selector> {
    if arrays == [] then [map[]] else Times(Cross(arrays[..|arrays| - 1]), arrays[|arrays| - 1])
  }

  // ----- the fold computes the odometer's rows, in the same order -----

  lemma {:induction false} TimesLength(ms: seq<Selector>, f: seq<string>)
    ensures |Times(ms, f)| == |ms| * |f|
  {
    if ms == [] {
    } else {
      TimesLength(ms[..|ms| - 1], f);
      assert |ms| * |f| == (|ms| - 1) * |f| + |f|;
    }
  }

  lemma {:induction false} TimesAt(ms: seq<Selector>, f: seq<string>, q: nat, r: nat)
    requires q < |ms| && r < |f|
    ensures q * |f| + r < |Times(ms, f)|
    ensures Times(ms, f)[q * |f| + r] == ms[q][f[r] := true]
  {
    var n := |ms| - 1;
    TimesLength(ms, f);
    TimesLength(ms[..n], f);
    Radix.MulLess(q, |ms|, |f|);
    if q < n {
      TimesAt(ms[..n], f, q, r);
      Radix.MulLess(q, n, |f|);
      assert Times(ms, f)[q * |f| + r] == Times(ms[..n], f)[q * |f| + r];
    } else {
      assert Times(ms, f)[n * |f| + r] == Spread(ms[n], f)[r];
    }
  }

  lemma SelectSnoc(arrays: seq<seq<string>>, d: seq<nat>, r: nat)
    requires |d| + 1 == |arrays| && r < |arrays[|d|]|
    requires forall i :: 0 <= i < |d| ==> d[i] < |arrays[i]|
    ensures Select(arrays, d + [r]) == Select(arrays[..|d|], d) + [arrays[|d|][r]]
  {
  }

  /** Row q * |f| + r takes row q of the other factors and entry r of the last factor f. */
  lemma RowAtSplits(arrays: seq<seq<string>>, f: seq<string>, q: nat, r: nat)
    requires NoneEmpty(arrays)
    requires q < Radix.Product(Lens(arrays)) && r < |f|
    ensures Lens(arrays + [f]) == Lens(arrays) + [|f|]
    ensures q * |f| + r < Radix.Product(Lens(arrays + [f]))
    ensures RowAt(arrays + [f], q * |f| + r) == RowAt(arrays, q) + [f[r]]
  {
    var lens := Lens(arrays);
    ProductSnoc(lens, |f|);
    Radix.MulLess(q, Radix.Product(lens), |f|);
    Radix.DivModUnique(q, r, |f|);
    Radix.EvalOfDigits(lens, q);
    assert (lens + [|f|])[..|lens|] == lens && (arrays + [f])[..|arrays|] == arrays;
    SelectSnoc(arrays + [f], Radix.Digits(lens, q), r);
  }

  lemma ProductSnoc(lens: seq<nat>, n: nat)
    ensures Radix.Product(lens + [n]) == Radix.Product(lens) * n
  {
    assert (lens + [n])[..|lens|] == lens;
  }

  lemma ToMapSnoc(row: seq<string>, x: string)
    ensures ToMap(row + [x]) == ToMap(row)[x := true]
  {
  }

  lemma RowsSnocAt(arrays: seq<seq<string>>, f: seq<string>, k: nat)
    requires NoneEmpty(arrays) && |f| > 0
    requires NoneEmpty(arrays + [f]) && k < |Rows(arrays + [f])|
    requires |Rows(arrays + [f])| == |Rows(arrays)| * |f| == |Times(ToMaps(Rows(arrays)), f)|
    ensures ToMap(Rows(arrays + [f])[k]) == Times(ToMaps(Rows(arrays)), f)[k]
  {
    var q, r := Radix.Split(k, |Rows(arrays)|, |f|);
    RowAtSplits(arrays, f, q, r);
    ToMapSnoc(RowAt(arrays, q), f[r]);
    TimesAt(ToMaps(Rows(arrays)), f, q, r);
  }

  lemma RowsLength(arrays: seq<seq<string>>, f: seq<string>)
    requires NoneEmpty(arrays) && |f| > 0
    ensures NoneEmpty(arrays + [f])
    ensures |Rows(arrays + [f])| == |Rows(arrays)| * |f|
  {
    assert Lens(arrays + [f]) == Lens(arrays) + [|f|];
    ProductSnoc(Lens(arrays), |f|);
  }

  lemma RowsSnoc(arrays: seq<seq<string>>, f: seq<string>)
    requires NoneEmpty(arrays) && |f| > 0
    ensures NoneEmpty(arrays + [f])
    ensures ToMaps(Rows(arrays + [f])) == Times(ToMaps(Rows(arrays)), f)
  {
    RowsLength(arrays, f);
    var rows, t := Rows(arrays + [f]), Times(ToMaps(Rows(arrays)), f);
    TimesLength(ToMaps(Rows(arrays)), f);
    forall k | 0 <= k < |rows| ensures ToMap(rows[k]) == t[k] {
      RowsSnocAt(arrays, f, k);
    }
    MapsByIndex(rows, t);
  }

  lemma MapsByIndex(rows: seq<seq<string>>, t: seq<Selector>)
    requires |rows| == |t| && forall k :: 0 <= k < |t| ==> ToMap(rows[k]) == t[k]
    ensures ToMaps(rows) == t
  {
  }

  lemma {:induction false} CrossIsTheRows(arrays: seq<seq<string>>)
    requires NoneEmpty(arrays)
    ensures ToMaps(Rows(arrays)) == Cross(arrays)
  {
    if arrays == [] {
      assert ToMaps(Rows([])) == [ToMap(RowAt([], 0))] == [map[]];
    } else {
      var n := |arrays| - 1;
      assert arrays == arrays[..n] + [arrays[n]];
      CrossIsTheRows(arrays[..n]);
      RowsSnoc(arrays[..n], arrays[n]);
    }
  }

  // ----- the fold as a multiset is commutative in the factors -----

  lemma TimesSnoc(ms: seq<Selector>, m: Selector, f: seq<string>)
    ensures Times(ms + [m], f) == Times(ms, f) + Spread(m, f)
  {
    assert (ms + [m])[..|ms|] == ms;
  }

  lemma {:induction false} TimesAppend(a: seq<Selector>, b: seq<Selector>, f: seq<string>)
    ensures Times(a + b, f) == Times(a, f) + Times(b, f)
  {
    if b == [] {
      assert a + b == a;
    } else {
      hide Times, Spread;
      var n := |b| - 1;
      AppendDropLast(a, b);
      DropLast(b);
      TimesAppend(a, b[..n], f);
      TimesSnoc(a + b[..n], b[n], f);
      TimesSnoc(b[..n], b[n], f);
      Assoc(Times(a, f), Times(b[..n], f), Spread(b[n], f));
    }
  }

  lemma TimesInsert(x: seq<Selector>, m: Selector, y: seq<Selector>, f: seq<string>)
    ensures multiset(Times(x + [m] + y, f)) == multiset(Times(x + y, f)) + multiset(Spread(m, f))
  {
    TimesAppend(x + [m], y, f);
    TimesAppend(x, [m], f);
    TimesAppend(x, y, f);
    TimesOne(m, f);
  }

  lemma {:induction false} TimesPermuted(a: seq<Selector>, b: seq<Selector>, f: seq<string>)
    requires multiset(a) == multiset(b)
    ensures multiset(Times(a, f)) == multiset(Times(b, f))
  {
    if a == [] {
      assert |multiset(b)| == 0;
    } else {
      var n := |a| - 1;
      var i := FindLast(a, b);
      TimesPermuted(a[..n], b[..i] + b[i + 1..], f);
      SplitAt(b, i);
      TimesInsert(b[..i], b[i], b[i + 1..], f);
    }
  }

  lemma TimesOne(m: Selector, f: seq<string>)
    ensures Times([m], f) == Spread(m, f)
  {
    assert [m][..0] == [];
  }

  lemma SpreadSnoc(m: Selector, f: seq<string>, x: string)
    ensures Spread(m, f + [x]) == Spread(m, f) + [m[x := true]]
  {
  }

  lemma {:induction false} TimesSnocFactor(ms: seq<Selector>, f: seq<string>, x: string)
    ensures multiset(Times(ms, f + [x])) == multiset(Times(ms, f)) + multiset(Times(ms, [x]))
  {
    if ms == [] {
    } else {
      var n := |ms| - 1;
      TimesSnocFactor(ms[..n], f, x);
      SpreadSnoc(ms[n], f, x);
      assert Spread(ms[n], [x]) == [ms[n][x := true]];
    }
  }

  lemma {:induction false} SpreadThenOne(m: Selector, f: seq<string>, x: string)
    ensures Times(Spread(m, f), [x]) == Spread(m[x := true], f)
  {
    var s := Spread(m, f);
    if f == [] {
    } else {
      var n := |f| - 1;
      SpreadThenOne(m, f[..n], x);
      assert f == f[..n] + [f[n]];
      SpreadSnoc(m, f[..n], f[n]);
      SpreadSnoc(m[x := true], f[..n], f[n]);
      assert s[..n] == Spread(m, f[..n]);
      assert m[f[n] := true][x := true] == m[x := true][f[n] := true];
    }
  }

  lemma {:induction false} SpreadCommutes(m: Selector, f: seq<string>, g: seq<string>)
    ensures multiset(Times(Spread(m, f), g)) == multiset(Times(Spread(m, g), f))
  {
    if g == [] {
      TimesEmptyFactor(Spread(m, f));
    } else {
      var n := |g| - 1;
      var x := g[n];
      assert g == g[..n] + [x];
      SpreadCommutes(m, f, g[..n]);
      TimesSnocFactor(Spread(m, f), g[..n], x);
      SpreadThenOne(m, f, x);
      SpreadSnoc(m, g[..n], x);
      TimesAppend(Spread(m, g[..n]), [m[x := true]], f);
      TimesOne(m[x := true], f);
    }
  }

  lemma {:induction false} TimesEmptyFactor(ms: seq<Selector>)
    ensures Times(ms, []) == []
  {
    if ms == [] {
    } else {
      TimesEmptyFactor(ms[..|ms| - 1]);
    }
  }

  lemma {:induction false} TimesCommutes(ms: seq<Selector>, f: seq<string>, g: seq<string>)
    ensures multiset(Times(Times(ms, f), g)) == multiset(Times(Times(ms, g), f))
  {
    if ms == [] {
    } else {
      var n := |ms| - 1;
      TimesCommutes(ms[..n], f, g);
      SpreadCommutes(ms[n], f, g);
      TimesAppend(Times(ms[..n], f), Spread(ms[n], f), g);
      TimesAppend(Times(ms[..n], g), Spread(ms[n], g), f);
    }
  }

  lemma CrossSnoc(arrays: seq<seq<string>>, f: seq<string>)
    ensures Cross(arrays + [f]) == Times(Cross(arrays), f)
  {
    assert (arrays + [f])[..|arrays|] == arrays;
  }

  lemma {:induction false} CrossMoveToEnd(x: seq<seq<string>>, f: seq<string>, y: seq<seq<string>>)
    ensures multiset(Cross(x + [f] + y)) == multiset(Cross(x + y + [f]))
  {
    if y == [] {
      assert x + [f] + y == x + y + [f];
    } else {
      var n := |y| - 1;
      var g := y[n];
      assert y == y[..n] + [g];
      CrossMoveToEnd(x, f, y[..n]);
      assert x + [f] + y == (x + [f] + y[..n]) + [g];
      CrossSnoc(x + [f] + y[..n], g);
      TimesPermuted(Cross(x + [f] + y[..n]), Cross(x + y[..n] + [f]), g);
      CrossSnoc(x + y[..n], f);
      TimesCommutes(Cross(x + y[..n]), f, g);
      CrossSnoc(x + y[..n], g);
      assert x + y == x + y[..n] + [g];
      CrossSnoc(x + y, f);
    }
  }

  /** The cross product is invariant under permuting the factors. */
  lemma {:induction false} CrossPermuted(a: seq<seq<string>>, b: seq<seq<string>>)
    requires multiset(a) == multiset(b)
    ensures multiset(Cross(a)) == multiset(Cross(b))
  {
    if a == [] {
      assert |multiset(b)| == 0;
    } else {
      var n := |a| - 1;
      var i := FindLast(a, b);
      var rest := b[..i] + b[i + 1..];
      CrossPermuted(a[..n], rest);
      TimesPermuted(Cross(a[..n]), Cross(rest), a[n]);
      CrossSnoc(rest, a[n]);
      SplitAt(b, i);
      CrossMoveToEnd(b[..i], b[i], b[i + 1..]);
    }
  }

  lemma FactorsSnoc(fields: Fields, order: seq<string>, k: string)
    requires forall j :: j in order + [k] ==> j in fields
    requires forall j :: j in order ==> j in fields
    requires k in fields
    ensures Factors(fields, order + [k])
         == if Factor(fields, k) == [] then Factors(fields, order) else Factors(fields, order) + [Factor(fields, k)]
  {
    assert (order + [k])[..|order|] == order;
  }

  lemma {:induction false} FactorsAppend(fields: Fields, a: seq<string>, b: seq<string>)
    requires forall k :: k in a + b ==> k in fields
    requires forall k :: k in a ==> k in fields
    requires forall k :: k in b ==> k in fields
    ensures Factors(fields, a + b) == Factors(fields, a) + Factors(fields, b)
  {
    if b == [] {
      assert a + b == a;
    } else {
      hide Factors, Factor;
      var n := |b| - 1;
      AppendDropLast(a, b);
      DropLast(b);
      assert forall k :: k in a + b[..n] ==> k in a + b;
      FactorsAppend(fields, a, b[..n]);
      FactorsSnoc(fields, a + b[..n], b[n]);
      FactorsSnoc(fields, b[..n], b[n]);
      Assoc(Factors(fields, a), Factors(fields, b[..n]), [Factor(fields, b[n])]);
    }
  }

  lemma FactorsInsert(fields: Fields, x: seq<string>, k: string, y: seq<string>)
    requires forall j :: j in x + [k] + y ==> j in fields
    requires forall j :: j in x + y ==> j in fields
    requires k in fields
    ensures multiset(Factors(fields, x + [k] + y)) == multiset(Factors(fields, x + y)) + multiset(Factors(fields, [k]))
  {
    assert forall j :: j in x || j in y ==> j in x + y;
    FactorsAppend(fields, x + [k], y);
    FactorsAppend(fields, x, [k]);
    FactorsAppend(fields, x, y);
  }

  lemma {:induction false} FactorsPermuted(fields: Fields, a: seq<string>, b: seq<string>)
    requires multiset(a) == multiset(b)
    requires forall k :: k in a ==> k in fields
    requires forall k :: k in b ==> k in fields
    ensures multiset(Factors(fields, a)) == multiset(Factors(fields, b))
  {
    if a == [] {
      assert |multiset(b)| == 0;
    } else {
      var n := |a| - 1;
      var i := FindLast(a, b);
      FactorsPermuted(fields, a[..n], b[..i] + b[i + 1..]);
      SplitAt(b, i);
      FactorsInsert(fields, b[..i], b[i], b[i + 1..]);
      DropLast(a);
      FactorsAppend(fields, a[..n], [a[n]]);
    }
  }

  /** Any two visiting orders of the fields yield the same label maps, as a multiset. */
  lemma ExpandIgnoresOrder(fields: Fields, order1: seq<string>, order2: seq<string>)
    requires IsOrder(order1, fields.Keys) && IsOrder(order2, fields.Keys)
    requires forall k :: k in order1 ==> k in fields
    requires forall k :: k in order2 ==> k in fields
    ensures multiset(Expand(fields, order1)) == multiset(Expand(fields, order2))
  {
    FactorsPermuted(fields, order1, order2);
    CrossIsTheRows(Factors(fields, order1));
    CrossIsTheRows(Factors(fields, order2));
    CrossPermuted(Factors(fields, order1), Factors(fields, order2));
  }
}
