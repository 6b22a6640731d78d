/** A policy that asks for one field more: exactly when the comparator puts it first. */
module Extension {
  import opened Common
  import opened StructValues
  import opened Selectors
  import opened CrossProduct
  import opened PolicyOrder
  import opened Conversion
  import Decimal

  // ----- one field more, on label maps -----

  lemma SpreadMember(x: Selector, f: seq<string>, m: Selector)
    ensures m in Spread(x, f) <==> exists l :: l in f && m == x[l := true]
  {
    if m in Spread(x, f) {
      var i :| 0 <= i < |f| && Spread(x, f)[i] == m;
      assert f[i] in f;
    }
    if l :| l in f && m == x[l := true] {
      var i :| 0 <= i < |f| && f[i] == l;
      assert Spread(x, f)[i] == m;
    }
  }

  /** The product holds every map of `ms` extended by an entry of `f`, and nothing else. */
  lemma {:induction false} TimesMember(ms: seq<Selector>, f: seq<string>, m: Selector)
    ensures m in Times(ms, f) <==> exists x :: x in ms && m in Spread(x, f)
  {
    hide Spread;
    if ms == [] {
    } else {
      var n := |ms| - 1;
      TimesMember(ms[..n], f, m);
      assert forall x :: x in ms <==> x in ms[..n] || x == ms[n];
    }
  }

  lemma ExpandSnoc(fields: Fields, order: seq<string>, k: string)
    requires IsFieldOrder(fields, order + [k])
    ensures Expand(fields, order + [k])
         == if Factor(fields, k) == [] then Expand(fields, order) else Times(Expand(fields, order), Factor(fields, k))
  {
    assert k in order + [k];
    assert forall j :: j in order ==> j in order + [k];
    assert (order + [k])[..|order|] == order;
    if Factor(fields, k) != [] {
      RowsSnoc(Factors(fields, order), Factor(fields, k));
    }
  }

  lemma {:induction false} FactorsIgnoreOthers(fields: Fields, bigger: Fields, order: seq<string>)
    requires forall k :: k in order ==> k in fields && k in bigger && fields[k] == bigger[k]
    ensures Factors(fields, order) == Factors(bigger, order)
  {
    if order == [] {
    } else {
      FactorsIgnoreOthers(fields, bigger, order[..|order| - 1]);
    }
  }

  /** `sels` and `extended` are conversions of a selector and of the same with one field more. */
  ghost predicate ExtendsBy(base: Fields, k: string, v: Value, sels: seq<Selector>, extended: seq<Selector>) {
    k !in base && ExpandsOne(base, sels) && ExpandsOne(base[k := v], extended)
  }

  /** Every map of `sels`, extended by every label of the new field if it has any. */
  function Extended(sels: seq<Selector>, k: string, v: Value): seq<Selector> {
    if Leaves(v) == [] then sels else Times(sels, Pairs(k, Leaves(v)))
  }

  lemma OrderWithKey(base: Fields, order: seq<string>, k: string, v: Value)
    requires k !in base && IsFieldOrder(base, order)
    ensures IsFieldOrder(base[k := v], order + [k])
  {
    assert base[k := v].Keys == base.Keys + {k};
    assert multiset(base.Keys + {k}) == multiset(base.Keys) + multiset{k};
    assert multiset(order + [k]) == multiset(order) + multiset{k};
  }

  lemma KeyAdded(base: Fields, order: seq<string>, k: string, v: Value)
    requires k !in base && IsFieldOrder(base, order)
    ensures IsFieldOrder(base[k := v], order + [k])
    ensures Factors(base[k := v], order) == Factors(base, order) && Factor(base[k := v], k) == Pairs(k, Leaves(v))
  {
    hide IsOrder;
    OrderWithKey(base, order, k, v);
    FactorsIgnoreOthers(base, base[k := v], order);
  }

  lemma ExtensionIsExtended(base: Fields, k: string, v: Value, sels: seq<Selector>, extended: seq<Selector>)
    requires ExtendsBy(base, k, v, sels, extended)
    ensures multiset(extended) == multiset(Extended(sels, k, v))
  {
    hide Factors, Rows, Times, Pairs, Leaves, IsOrder;
    var order :| IsFieldOrder(base, order) && sels == Expand(base, order);
    var order2 :| IsFieldOrder(base[k := v], order2) && extended == Expand(base[k := v], order2);
    KeyAdded(base, order, k, v);
    ExpandIgnoresOrder(base[k := v], order2, order + [k]);
    ExpandSnoc(base[k := v], order, k);
  }

  lemma PairsMember(k: string, leaves: seq<string>, l: string)
    ensures l in Pairs(k, leaves) <==> exists s :: s in leaves && l == k + "=" + s
  {
    var p := Pairs(k, leaves);
    if s :| s in leaves && l == k + "=" + s {
      var i :| 0 <= i < |leaves| && leaves[i] == s;
      assert p[i] == l;
    }
    if l in p {
      var i :| 0 <= i < |p| && p[i] == l;
      assert leaves[i] in leaves;
    }
  }

  /** A map of the extended selector is one of the base, with a label of the new field if it has any. */
  lemma MapOfExtension(base: Fields, k: string, v: Value, sels: seq<Selector>, extended: seq<Selector>, m: Selector)
    returns (x: Selector, s: string)
    requires ExtendsBy(base, k, v, sels, extended) && m in extended
    ensures x in sels
    ensures if Leaves(v) == [] then m == x else s in Leaves(v) && m == x[k + "=" + s := true]
  {
    hide Times, Spread, ExtendsBy, Leaves, Pairs;
    ExtensionIsExtended(base, k, v, sels, extended);
    assert m in multiset(Extended(sels, k, v));
    x, s := m, "";
    if Leaves(v) != [] {
      var f := Pairs(k, Leaves(v));
      TimesMember(sels, f, m);
      x :| x in sels && m in Spread(x, f);
      SpreadMember(x, f, m);
      var l :| l in f && m == x[l := true];
      PairsMember(k, Leaves(v), l);
      s :| s in Leaves(v) && l == k + "=" + s;
    }
  }

  lemma ExtensionHasMap(base: Fields, k: string, v: Value, sels: seq<Selector>, extended: seq<Selector>, x: Selector,
                        s: string)
    requires ExtendsBy(base, k, v, sels, extended) && x in sels && s in Leaves(v)
    ensures x[k + "=" + s := true] in extended
  {
    hide Times, Spread, ExtendsBy, Leaves, Pairs;
    ExtensionIsExtended(base, k, v, sels, extended);
    PairsMember(k, Leaves(v), k + "=" + s);
    SpreadMember(x, Pairs(k, Leaves(v)), x[k + "=" + s := true]);
    TimesMember(sels, Pairs(k, Leaves(v)), x[k + "=" + s := true]);
    assert x[k + "=" + s := true] in multiset(Extended(sels, k, v));
  }

  lemma ExtensionKeepsMap(base: Fields, k: string, v: Value, sels: seq<Selector>, extended: seq<Selector>, x: Selector)
    requires ExtendsBy(base, k, v, sels, extended) && x in sels && Leaves(v) == []
    ensures x in extended
  {
    ExtensionIsExtended(base, k, v, sels, extended);
    assert x in multiset(Extended(sels, k, v));
  }

  // ----- what a new field says -----

  /** The field constrains, and this label is its only one. */
  predicate OnlyLabel(key: string, v: Value, pair: string) {
    Leaves(v) != [] && forall s :: s in Leaves(v) ==> key + "=" + s == pair
  }

  predicate Implied(base: Fields, pair: string) {
    exists b :: b in base && OnlyLabel(b, base[b], pair)
  }

  /** Some label of the new field is not one that a field of the base always demands. */
  predicate SaysSomethingNew(base: Fields, k: string, v: Value) {
    exists s :: s in Leaves(v) && !Implied(base, k + "=" + s)
  }

  /** A map of the expansion satisfies its own raw selector. */
  lemma MapMeetsItsSelector(fields: Fields, sels: seq<Selector>, x: Selector)
    requires ExpandsOne(fields, sels) && x in sels
    ensures RawMatches(fields, x)
  {
    var order :| IsFieldOrder(fields, order) && sels == Expand(fields, order);
    var i :| 0 <= i < |sels| && sels[i] == x;
    assert SubsetOf(sels[i], x);
    ExpandPreservesMeaning(fields, order, x);
  }

  lemma ImpliedIsInEveryMap(base: Fields, sels: seq<Selector>, pair: string, x: Selector)
    requires ExpandsOne(base, sels) && x in sels && Implied(base, pair)
    ensures Holds(x, pair)
  {
    hide ExpandsOne;
    MapMeetsItsSelector(base, sels, x);
    var b :| b in base && OnlyLabel(b, base[b], pair);
    LeavesAreTheLeaves(base[b], Leaves(base[b])[0]);
    assert FieldHolds(b, base[b], x);
    var s :| HasLeaf(base[b], s) && Holds(x, b + "=" + s);
    LeavesAreTheLeaves(base[b], s);
  }

  ghost predicate HasOther(f: seq<string>, pair: string) {
    exists other :: other in f && other != pair
  }

  /** An entry other than `pair`. */
  ghost function Other(f: seq<string>, pair: string): (other: string)
    requires HasOther(f, pair)
    ensures other in f && other != pair
  {
    var other :| other in f && other != pair;
    other
  }

  lemma FactorHasOther(base: Fields, order: seq<string>, f: seq<string>, pair: string)
    requires IsFieldOrder(base, order) && !Implied(base, pair) && f in Factors(base, order)
    ensures HasOther(f, pair)
  {
    FactorsMembers(base, order, f);
    var k :| k in order && f == Factor(base, k);
    assert !OnlyLabel(k, base[k], pair);
    assert |f| == |Leaves(base[k])|;
    var s :| s in Leaves(base[k]) && k + "=" + s != pair;
    PairsMember(k, Leaves(base[k]), k + "=" + s);
  }

  lemma RowWithout(arrays: seq<seq<string>>, pair: string) returns (row: seq<string>)
    requires forall i :: 0 <= i < |arrays| ==> HasOther(arrays[i], pair)
    ensures IsChoice(arrays, row) && pair !in row
  {
    row := seq(|arrays|, i requires 0 <= i < |arrays| => Other(arrays[i], pair));
  }

  lemma ChoiceIsAMap(fields: Fields, order: seq<string>, row: seq<string>)
    requires IsFieldOrder(fields, order) && IsChoice(Factors(fields, order), row)
    ensures ToMap(row) in Expand(fields, order)
  {
    hide IsChoice, Factors, Rows;
    var rows := Rows(Factors(fields, order));
    RowsAreTheChoices(Factors(fields, order), row);
    var j :| 0 <= j < |rows| && rows[j] == row;
    assert ToMaps(rows)[j] == ToMap(row);
  }

  /** A map without a label that no field always demands: take another entry everywhere. */
  lemma MapWithout(base: Fields, sels: seq<Selector>, pair: string) returns (x: Selector)
    requires ExpandsOne(base, sels) && !Implied(base, pair)
    ensures x in sels && pair !in x
  {
    hide Implied, Factors, Expand, IsChoice;
    var order :| IsFieldOrder(base, order) && sels == Expand(base, order);
    var arrays := Factors(base, order);
    forall i | 0 <= i < |arrays| ensures HasOther(arrays[i], pair) {
      FactorHasOther(base, order, arrays[i], pair);
    }
    var row := RowWithout(arrays, pair);
    ChoiceIsAMap(base, order, row);
    x := ToMap(row);
  }

  lemma MapsAreTrue(fields: Fields, sels: seq<Selector>, x: Selector, pair: string)
    requires ExpandsOne(fields, sels) && x in sels
    ensures pair in x ==> x[pair]
  {
  }

  // ----- the comparator on a policy and its extension -----

  lemma MoreSpecificByMembers(a: seq<Selector>, b: seq<Selector>)
    ensures MoreSpecific(a, b) <==> exists x, y :: x in a && y in b && Above(x, y)
  {
    if i, j :| 0 <= i < |a| && 0 <= j < |b| && Above(a[i], b[j]) {
      assert a[i] in a && b[j] in b;
    }
    if x, y :| x in a && y in b && Above(x, y) {
      var i :| 0 <= i < |a| && a[i] == x;
      var j :| 0 <= j < |b| && b[j] == y;
      assert Above(a[i], b[j]);
    }
  }

  lemma NewLabelIsAbove(x: Selector, pair: string)
    requires pair !in x
    ensures Above(x[pair := true], x)
  {
  }

  lemma WithLabel(x: Selector, pair: string)
    requires pair in x ==> x[pair]
    ensures SubsetOf(x, x[pair := true])
    ensures pair in x ==> x[pair := true] == x
  {
  }

  /** What contains a larger map is above what that one is above; what is above the one that
      contains a map is above the map. */
  lemma AboveGrows(x: Selector, y: Selector, bigger: Selector)
    requires SubsetOf(x, bigger)
    ensures Above(x, y) ==> Above(bigger, y)
    ensures Above(y, bigger) ==> Above(y, x)
  {
    if Above(x, y) && bigger == y {
      MutualSubset(x, y);
    }
    if Above(y, bigger) && y == x {
      MutualSubset(y, bigger);
    }
  }

  /** Every map has one above or equal to it in the extension. */
  lemma MapGrows(base: Fields, k: string, v: Value, sels: seq<Selector>, extended: seq<Selector>, x: Selector)
    returns (bigger: Selector)
    requires ExtendsBy(base, k, v, sels, extended) && x in sels
    ensures bigger in extended && SubsetOf(x, bigger)
  {
    hide Leaves, ExpandsOne;
    if Leaves(v) == [] {
      ExtensionKeepsMap(base, k, v, sels, extended, x);
      bigger := x;
    } else {
      var pair := k + "=" + Leaves(v)[0];
      ExtensionHasMap(base, k, v, sels, extended, x, Leaves(v)[0]);
      MapsAreTrue(base, sels, x, pair);
      WithLabel(x, pair);
      bigger := x[pair := true];
    }
  }

  lemma NewFieldIsAbove(base: Fields, k: string, v: Value, sels: seq<Selector>, extended: seq<Selector>)
    requires ExtendsBy(base, k, v, sels, extended) && SaysSomethingNew(base, k, v)
    ensures MoreSpecific(extended, sels)
  {
    hide Leaves, ExpandsOne, Implied, Above;
    var s :| s in Leaves(v) && !Implied(base, k + "=" + s);
    var x := MapWithout(base, sels, k + "=" + s);
    ExtensionHasMap(base, k, v, sels, extended, x, s);
    NewLabelIsAbove(x, k + "=" + s);
    MoreSpecificByMembers(extended, sels);
  }

  lemma SelfAboveExtends(base: Fields, k: string, v: Value, sels: seq<Selector>, extended: seq<Selector>)
    requires ExtendsBy(base, k, v, sels, extended)
    ensures MoreSpecific(sels, sels) ==> MoreSpecific(extended, sels)
  {
    hide ExtendsBy, Above, SubsetOf, MoreSpecific;
    MoreSpecificByMembers(sels, sels);
    MoreSpecificByMembers(extended, sels);
    if x, y :| x in sels && y in sels && Above(x, y) {
      var bigger := MapGrows(base, k, v, sels, extended, x);
      AboveGrows(x, y, bigger);
    }
  }

  /** A field that says nothing new adds no label to any map. */
  lemma NothingNewIsAMap(base: Fields, k: string, v: Value, sels: seq<Selector>, extended: seq<Selector>, m: Selector)
    requires ExtendsBy(base, k, v, sels, extended) && !SaysSomethingNew(base, k, v) && m in extended
    ensures m in sels
  {
    hide Leaves, ExpandsOne, Implied;
    var x, s := MapOfExtension(base, k, v, sels, extended, m);
    if Leaves(v) != [] {
      ImpliedIsInEveryMap(base, sels, k + "=" + s, x);
      WithLabel(x, k + "=" + s);
    }
  }

  lemma NothingNewKeepsMap(base: Fields, k: string, v: Value, sels: seq<Selector>, extended: seq<Selector>, x: Selector)
    requires ExtendsBy(base, k, v, sels, extended) && !SaysSomethingNew(base, k, v) && x in sels
    ensures x in extended
  {
    hide Leaves, ExpandsOne, Implied;
    if Leaves(v) == [] {
      ExtensionKeepsMap(base, k, v, sels, extended, x);
    } else {
      var s := Leaves(v)[0];
      ExtensionHasMap(base, k, v, sels, extended, x, s);
      ImpliedIsInEveryMap(base, sels, k + "=" + s, x);
      WithLabel(x, k + "=" + s);
    }
  }

  /** Exactly when a policy with one field more is ranked more specific, with no assumption on the
      keys: some label of the field is new, or some map of the policy is already above another. */
  lemma ExtensionIsAboveIff(base: Fields, k: string, v: Value, sels: seq<Selector>, extended: seq<Selector>)
    requires ExtendsBy(base, k, v, sels, extended)
    ensures MoreSpecific(extended, sels) <==> SaysSomethingNew(base, k, v) || MoreSpecific(sels, sels)
  {
    hide ExtendsBy, SaysSomethingNew, Above;
    if SaysSomethingNew(base, k, v) {
      NewFieldIsAbove(base, k, v, sels, extended);
    } else if MoreSpecific(sels, sels) {
      SelfAboveExtends(base, k, v, sels, extended);
    } else if MoreSpecific(extended, sels) {
      MoreSpecificByMembers(extended, sels);
      var m, y :| m in extended && y in sels && Above(m, y);
      NothingNewIsAMap(base, k, v, sels, extended, m);
      MoreSpecificByMembers(sels, sels);
      assert false;
    }
  }

  /** The reverse ranking needs a policy that is already above itself. */
  lemma ExtensionIsRarelyBelow(base: Fields, k: string, v: Value, sels: seq<Selector>, extended: seq<Selector>)
    requires ExtendsBy(base, k, v, sels, extended)
    ensures MoreSpecific(sels, extended) ==> MoreSpecific(sels, sels)
  {
    hide Above, ExpandsOne, MoreSpecific;
    MoreSpecificByMembers(sels, extended);
    MoreSpecificByMembers(sels, sels);
    if y, m :| y in sels && m in extended && Above(y, m) {
      var x, s := MapOfExtension(base, k, v, sels, extended, m);
      MapsAreTrue(base, sels, x, k + "=" + s);
      WithLabel(x, k + "=" + s);
      AboveGrows(x, y, m);
    }
  }

  /** Some map of the policy is above another one even after that one is extended. */
  ghost predicate AboveSomeExtended(sels: seq<Selector>, k: string, v: Value) {
    exists y, x :: y in sels && x in sels && AboveExtended(y, x, k, v)
  }

  ghost predicate AboveExtended(y: Selector, x: Selector, k: string, v: Value) {
    if Leaves(v) == [] then Above(y, x) else exists s :: s in Leaves(v) && Above(y, x[k + "=" + s := true])
  }

  lemma ExtensionIsBelowIff(base: Fields, k: string, v: Value, sels: seq<Selector>, extended: seq<Selector>)
    requires ExtendsBy(base, k, v, sels, extended)
    ensures MoreSpecific(sels, extended) <==> AboveSomeExtended(sels, k, v)
  {
    hide Above, ExpandsOne, Leaves;
    MoreSpecificByMembers(sels, extended);
    if MoreSpecific(sels, extended) {
      var y, m :| y in sels && m in extended && Above(y, m);
      var x, s := MapOfExtension(base, k, v, sels, extended, m);
      assert AboveExtended(y, x, k, v);
    }
    if y, x :| y in sels && x in sels && AboveExtended(y, x, k, v) {
      if Leaves(v) == [] {
        ExtensionKeepsMap(base, k, v, sels, extended, x);
      } else {
        var s :| s in Leaves(v) && Above(y, x[k + "=" + s := true]);
        ExtensionHasMap(base, k, v, sels, extended, x, s);
      }
    }
  }

  /** Over all selectors, keys and values: exactly when adding a field ranks the policy first and
      never the reverse, read off the policy without the field. */
  lemma ExtensionComesFirstExactly(base: Fields, k: string, v: Value, sels: seq<Selector>, extended: seq<Selector>)
    requires ExtendsBy(base, k, v, sels, extended)
    ensures MoreSpecific(extended, sels) && !MoreSpecific(sels, extended) <==>
            (SaysSomethingNew(base, k, v) || MoreSpecific(sels, sels)) && !AboveSomeExtended(sels, k, v)
  {
    hide ExtendsBy, MoreSpecific, SaysSomethingNew, AboveSomeExtended;
    ExtensionIsAboveIff(base, k, v, sels, extended);
    ExtensionIsBelowIff(base, k, v, sels, extended);
  }

  // ----- keys without '=' -----

  ghost predicate PlainKeys(fields: Fields) {
    forall k :: k in fields ==> '=' !in k
  }

  lemma LabelKey(k1: string, v1: string, k2: string, v2: string)
    requires '=' !in k1 && '=' !in k2 && k1 + "=" + v1 == k2 + "=" + v2
    ensures k1 == k2
  {
    Decimal.JoinIsInjective(k1, v1, k2, v2, '=');
  }

  ghost predicate Distinct(order: seq<string>) {
    forall i, j :: 0 <= i < j < |order| ==> order[i] != order[j]
  }

  /** A label that only field `b` has. */
  ghost predicate OnlyFrom(fields: Fields, order: seq<string>, b: string, pair: string)
    requires forall k :: k in order ==> k in fields
  {
    forall k :: k in order && pair in Factor(fields, k) ==> k == b
  }

  /** A row takes one label per field. */
  lemma {:induction false} OneLabelPerField(fields: Fields, order: seq<string>, row: seq<string>, b: string,
                                            p: string, q: string)
    requires forall k :: k in order ==> k in fields
    requires Distinct(order) && IsChoice(Factors(fields, order), row)
    requires p in row && q in row && OnlyFrom(fields, order, b, p) && OnlyFrom(fields, order, b, q)
    ensures p == q
  {
    if order == [] {
    } else {
      var n := |order| - 1;
      var k, rest := order[n], Factors(fields, order[..n]);
      if Factor(fields, k) == [] {
        OneLabelPerField(fields, order[..n], row, b, p, q);
      } else {
        var m := |row| - 1;
        assert row == row[..m] + [row[m]] && row[m] in Factor(fields, k);
        assert IsChoice(rest, row[..m]) by {
          assert forall i :: 0 <= i < m ==> row[..m][i] in Factors(fields, order)[i];
        }
        if k != b {
          OneLabelPerField(fields, order[..n], row[..m], b, p, q);
        } else {
          NotFromOthers(fields, order[..n], row[..m], b, p);
          NotFromOthers(fields, order[..n], row[..m], b, q);
        }
      }
    }
  }

  lemma NotFromOthers(fields: Fields, order: seq<string>, row: seq<string>, b: string, p: string)
    requires forall k :: k in order ==> k in fields
    requires b !in order && IsChoice(Factors(fields, order), row) && OnlyFrom(fields, order, b, p)
    ensures p !in row
  {
    if i :| 0 <= i < |row| && row[i] == p {
      FactorsMembers(fields, order, Factors(fields, order)[i]);
    }
  }

  /** Every label of a map comes from a field. */
  lemma LabelComesFromField(fields: Fields, order: seq<string>, row: seq<string>, pair: string) returns (b: string)
    requires IsFieldOrder(fields, order) && IsChoice(Factors(fields, order), row) && pair in row
    ensures b in fields && pair in Factor(fields, b)
  {
    var j :| 0 <= j < |row| && row[j] == pair;
    FactorsMembers(fields, order, Factors(fields, order)[j]);
    b :| b in order && Factors(fields, order)[j] == Factor(fields, b);
  }

  lemma PlainKeyIsOnlySource(fields: Fields, order: seq<string>, b: string, pair: string)
    requires IsFieldOrder(fields, order) && PlainKeys(fields) && b in fields && pair in Factor(fields, b)
    ensures OnlyFrom(fields, order, b, pair)
  {
    PairsMember(b, Leaves(fields[b]), pair);
    forall k | k in order && pair in Factor(fields, k) ensures k == b {
      PairsMember(k, Leaves(fields[k]), pair);
      var s :| s in Leaves(fields[b]) && pair == b + "=" + s;
      var t :| t in Leaves(fields[k]) && pair == k + "=" + t;
      LabelKey(b, s, k, t);
    }
  }

  /** Among the maps of a selector with plain keys, none contains another. */
  lemma ContainedLabel(fields: Fields, order: seq<string>, x: seq<string>, y: seq<string>, pair: string)
    requires IsFieldOrder(fields, order) && PlainKeys(fields)
    requires IsChoice(Factors(fields, order), x) && IsChoice(Factors(fields, order), y)
    requires (forall q :: q in x ==> q in y) && pair in y
    ensures pair in x
  {
    var b := LabelComesFromField(fields, order, y, pair);
    FactorsMembers(fields, order, Factor(fields, b));
    OrderElements(order, fields.Keys);
    var j :| 0 <= j < |Factors(fields, order)| && Factors(fields, order)[j] == Factor(fields, b);
    PlainKeyIsOnlySource(fields, order, b, pair);
    PlainKeyIsOnlySource(fields, order, b, x[j]);
    forall i, l | 0 <= i < l < |order| ensures order[i] != order[l] {
      OrderIsInjective(order, fields.Keys, i, l);
    }
    OneLabelPerField(fields, order, y, b, pair, x[j]);
  }

  lemma ContainedRow(fields: Fields, order: seq<string>, x: seq<string>, y: seq<string>)
    requires IsFieldOrder(fields, order) && PlainKeys(fields)
    requires IsChoice(Factors(fields, order), x) && IsChoice(Factors(fields, order), y)
    requires SubsetOf(ToMap(x), ToMap(y))
    ensures ToMap(x) == ToMap(y)
  {
    hide IsFieldOrder, IsChoice, Factors, PlainKeys;
    assert forall q :: q in x ==> q in ToMap(x);
    forall pair | pair in y ensures pair in x {
      ContainedLabel(fields, order, x, y, pair);
    }
  }

  lemma PlainKeysAreIncomparable(fields: Fields, sels: seq<Selector>)
    requires ExpandsOne(fields, sels) && PlainKeys(fields)
    ensures !MoreSpecific(sels, sels)
  {
    hide IsChoice, Factors, Rows, PlainKeys, SubsetOf;
    var order :| IsFieldOrder(fields, order) && sels == Expand(fields, order);
    var arrays := Factors(fields, order);
    forall i, j | 0 <= i < |sels| && 0 <= j < |sels| ensures !Above(sels[i], sels[j]) {
      RowsAreTheChoices(arrays, Rows(arrays)[i]);
      RowsAreTheChoices(arrays, Rows(arrays)[j]);
      if SubsetOf(sels[j], sels[i]) {
        ContainedRow(fields, order, Rows(arrays)[j], Rows(arrays)[i]);
      }
    }
  }

  /** Exactly when adding a field to a selector with plain keys ranks the policy first and never
      the reverse, whatever the new key looks like: some label of the field is new. */
  lemma ExtensionComesFirstIff(base: Fields, k: string, v: Value, sels: seq<Selector>, extended: seq<Selector>)
    requires ExtendsBy(base, k, v, sels, extended) && PlainKeys(base)
    ensures MoreSpecific(extended, sels) && !MoreSpecific(sels, extended) <==> SaysSomethingNew(base, k, v)
  {
    hide ExpandsOne, MoreSpecific, SaysSomethingNew;
    PlainKeysAreIncomparable(base, sels);
    ExtensionIsAboveIff(base, k, v, sels, extended);
    ExtensionIsRarelyBelow(base, k, v, sels, extended);
  }

  lemma PlainKeyIsNew(base: Fields, k: string, v: Value)
    requires k !in base && HasAnyLeaf(v) && '=' !in k && PlainKeys(base)
    ensures SaysSomethingNew(base, k, v)
  {
    var s :| HasLeaf(v, s);
    LeavesAreTheLeaves(v, s);
    if b :| b in base && OnlyLabel(b, base[b], k + "=" + s) {
      assert Leaves(base[b])[0] in Leaves(base[b]);
      LabelKey(b, Leaves(base[b])[0], k, s);
    }
  }

  /** In particular a field with a leaf, when its key contains no '=' either. */
  lemma ExtensionComesFirst(base: Fields, k: string, v: Value, sels: seq<Selector>, extended: seq<Selector>)
    requires k !in base && HasAnyLeaf(v) && '=' !in k && PlainKeys(base)
    requires ExpandsOne(base, sels) && ExpandsOne(base[k := v], extended)
    ensures MoreSpecific(extended, sels) && !MoreSpecific(sels, extended)
  {
    PlainKeyIsNew(base, k, v);
    ExtensionComesFirstIff(base, k, v, sels, extended);
  }

  /** A field that says nothing new changes no match. */
  lemma NothingNewMatchesTheSame(base: Fields, k: string, v: Value, sels: seq<Selector>, extended: seq<Selector>,
                                 labels: Selector)
    requires ExtendsBy(base, k, v, sels, extended) && !SaysSomethingNew(base, k, v)
    ensures Matches(extended, labels) <==> Matches(sels, labels)
  {
    hide ExtendsBy, SaysSomethingNew;
    if i :| 0 <= i < |extended| && SubsetOf(extended[i], labels) {
      NothingNewIsAMap(base, k, v, sels, extended, extended[i]);
      var j :| 0 <= j < |sels| && sels[j] == extended[i];
      assert SubsetOf(sels[j], labels);
    }
    if i :| 0 <= i < |sels| && SubsetOf(sels[i], labels) {
      NothingNewKeepsMap(base, k, v, sels, extended, sels[i]);
      var j :| 0 <= j < |extended| && extended[j] == sels[i];
      assert SubsetOf(extended[j], labels);
    }
  }

  /** With '=' inside a key a field can say what another already demands: then the comparator
      does not rank the policy first, and the field changes nothing about what it matches. */
  lemma EqualsSignHidesExtension(sels: seq<Selector>, extended: seq<Selector>, labels: Selector)
    requires var base: Fields := map["a" := Str("b=c")];
             ExpandsOne(base, sels) && ExpandsOne(base["a=b" := Str("c")], extended)
    ensures !MoreSpecific(extended, sels)
    ensures Matches(extended, labels) <==> Matches(sels, labels)
  {
    var base: Fields := map["a" := Str("b=c")];
    assert "a" + "=" + "b=c" == "a=b" + "=" + "c";
    assert Leaves(Str("b=c")) == ["b=c"] && Leaves(Str("c")) == ["c"];
    assert OnlyLabel("a", base["a"], "a=b" + "=" + "c");
    assert !SaysSomethingNew(base, "a=b", Str("c"));
    ExtensionComesFirstIff(base, "a=b", Str("c"), sels, extended);
    PlainKeysAreIncomparable(base, sels);
    ExtensionIsAboveIff(base, "a=b", Str("c"), sels, extended);
    NothingNewMatchesTheSame(base, "a=b", Str("c"), sels, extended, labels);
  }
}
