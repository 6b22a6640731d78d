/** Policy files on which the order goes wrong, whatever orders the conversion meets. */
module Counterexamples {
  import opened Common
  import opened StructValues
  import opened Selectors
  import opened CrossProduct
  import opened PolicyOrder
  import opened OrderTheorems
  import opened OrganizeSpec
  import opened SecondRun
  import opened Conversion
  import opened Extension

  // ----- selectors of single texts convert to one map -----

  lemma NoFieldsConvert()
    ensures ExpandsOne(map[], [map[]])
  {
    CrossIsTheRows([]);
    assert IsFieldOrder(map[], []) && Factors(map[], []) == [];
  }

  lemma TextFieldConverts(base: Fields, m: Selector, k: string, s: string)
    requires ExpandsOne(base, [m]) && k !in base
    ensures ExpandsOne(base[k := Str(s)], [m[k + "=" + s := true]])
  {
    hide Factors, Rows, Times, Spread, IsOrder;
    var order :| IsFieldOrder(base, order) && [m] == Expand(base, order);
    KeyAdded(base, order, k, Str(s));
    ExpandSnoc(base[k := Str(s)], order, k);
    OnePair(m, k, s);
  }

  lemma OnePair(m: Selector, k: string, s: string)
    ensures Pairs(k, Leaves(Str(s))) == [k + "=" + s]
    ensures Times([m], [k + "=" + s]) == [m[k + "=" + s := true]]
  {
    TimesOne(m, [k + "=" + s]);
  }

  /** There is no other conversion. */
  lemma OnlyConversion(fields: Fields, m: Selector, sels: seq<Selector>)
    requires ExpandsOne(fields, [m]) && ExpandsOne(fields, sels)
    ensures sels == [m]
  {
    hide ExpandsOne, FieldsBag;
    ExpandsOneBag(fields, [m]);
    ExpandsOneBag(fields, sels);
    assert |sels| == |multiset(sels)| == |multiset([m])| == 1;
    assert sels[0] in multiset(sels);
  }

  lemma OneSelector(fields: Fields, m: Selector, sels: seq<Selector>)
    requires ExpandsOne(fields, [m]) && ExpandsTo([fields], sels)
    ensures sels == [m]
  {
    var a, b := ExpandsToSplits([fields], sels);
    assert [fields][..0] == [];
    OnlyConversion(fields, m, b);
  }

  lemma TwoSelectors(f: Fields, m: Selector, g: Fields, n: Selector, sels: seq<Selector>)
    requires ExpandsOne(f, [m]) && ExpandsOne(g, [n]) && ExpandsTo([f, g], sels)
    ensures sels == [m, n]
  {
    hide ExpandsOne, ExpandsTo;
    var a, b := ExpandsToSplits([f, g], sels);
    assert [f, g][..1] == [f];
    OneSelector(f, m, a);
    OnlyConversion(g, n, b);
    Pair(m, n);
  }

  // ----- the files -----

  const A: Fields := map["a" := Str("1")]
  const B: Fields := map["b" := Str("1")]
  const AC: Fields := map["a" := Str("1"), "c" := Str("1")]
  const BC: Fields := map["b" := Str("1"), "c" := Str("1")]

  lemma FieldsConvert()
    ensures ExpandsOne(A, [map["a=1" := true]]) && ExpandsOne(AC, [map["a=1" := true, "c=1" := true]])
    ensures ExpandsOne(B, [map["b=1" := true]]) && ExpandsOne(BC, [map["b=1" := true, "c=1" := true]])
  {
    hide ExpandsOne;
    assert "a" + "=" + "1" == "a=1" && "b" + "=" + "1" == "b=1" && "c" + "=" + "1" == "c=1";
    NoFieldsConvert();
    TextFieldConverts(map[], map[], "a", "1");
    TextFieldConverts(map[], map[], "b", "1");
    TextFieldConverts(A, map["a=1" := true], "c", "1");
    TextFieldConverts(B, map["b=1" := true], "c", "1");
    assert A["c" := Str("1")] == AC && B["c" := Str("1")] == BC;
  }

  function Raw(selectors: seq<Fields>): RawPolicy {
    RawPolicy(selectors, None, None, [])
  }

  lemma ConvertsAt(id: IdOf, raws: seq<RawPolicy>, ts: seq<PolicyTree>, k: nat)
    requires ConvertsAll(id, raws, ts) && k < |raws|
    ensures |ts| == |raws| && ExpandsTo(raws[k].selectors, ts[k].selectors)
  {
    assert ConvertsTo(id, raws[k], ts[k]);
  }

  lemma WrongOrderStays(a: PolicyTree, b: PolicyTree, ac: PolicyTree)
    requires a.selectors == [map["a=1" := true]] && b.selectors == [map["b=1" := true]]
    requires ac.selectors == [map["a=1" := true, "c=1" := true]]
    ensures Sort([a, b, ac]) == [a, b, ac] && Before(ac, a)
  {
    hide Before, Sort;
    OrderCanFail();
    var x, y, z := Plain(a.selectors), Plain(b.selectors), Plain(ac.selectors);
    SameSelectorsSameBefore(a, ac, x, z);
    SameSelectorsSameBefore(b, ac, y, z);
    SameSelectorsSameBefore(a, b, x, y);
    SortStays(a, b, ac);
  }

  /** Three entries of a file that stay in the wrong order. */
  lemma LoadedOutOfOrder(id: IdOf, ts: seq<PolicyTree>)
    requires ConvertsAll(id, [Raw([A]), Raw([B]), Raw([AC])], ts)
    ensures Sort(ts) == ts && Before(ts[2], ts[0])
  {
    hide ExpandsTo, ExpandsOne, Before, Sort, ConvertsAll;
    var raws := [Raw([A]), Raw([B]), Raw([AC])];
    ConvertsAt(id, raws, ts, 0);
    ConvertsAt(id, raws, ts, 1);
    ConvertsAt(id, raws, ts, 2);
    FieldsConvert();
    OneSelector(A, map["a=1" := true], ts[0].selectors);
    OneSelector(B, map["b=1" := true], ts[1].selectors);
    OneSelector(AC, map["a=1" := true, "c=1" := true], ts[2].selectors);
    WrongOrderStays(ts[0], ts[1], ts[2]);
    assert ts == [ts[0], ts[1], ts[2]];
  }

  /** Two entries of a file that the loader hands on in one order and the agent reports in the
      other. */
  lemma ReportedInOtherOrder(id: IdOf, ts: seq<PolicyTree>)
    requires ConvertsAll(id, [Raw([A, BC]), Raw([B, AC])], ts)
    ensures Organized(ts)[0].selectors == ts[1].selectors != ts[0].selectors
    ensures Organized(Organized(ts))[0].selectors == ts[0].selectors
  {
    hide ExpandsTo, ExpandsOne, Before, Organized, ConvertsAll;
    ConvertsAt(id, [Raw([A, BC]), Raw([B, AC])], ts, 0);
    ConvertsAt(id, [Raw([A, BC]), Raw([B, AC])], ts, 1);
    FieldsConvert();
    TwoSelectors(A, map["a=1" := true], BC, map["b=1" := true, "c=1" := true], ts[0].selectors);
    TwoSelectors(B, map["b=1" := true], AC, map["a=1" := true, "c=1" := true], ts[1].selectors);
    AsymmetryCanFail();
    var p, q := Plain(ts[0].selectors), Plain(ts[1].selectors);
    SameSelectorsSameBefore(ts[0], ts[1], p, q);
    SameSelectorsSameBefore(ts[1], ts[0], q, p);
    MutualPairIsReported(ts[0], ts[1]);
    assert ts == [ts[0], ts[1]];
    assert "a=1" in ts[0].selectors[0] && "a=1" !in ts[1].selectors[0];
  }
}
