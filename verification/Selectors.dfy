/** internal/policy/convert.go: from a raw selector, an AND over fields of an OR over
    leaves, to the list of label maps whose disjunction means the same. */
module Selectors {
  import opened Common
  import opened StructValues
  import Radix = MixedRadix

  /** A set of "key=value" labels; conversion always maps to true. */
  type Selector = map<string, bool>

  // ----- meaning -----

  /** `sub` is contained in `m`, values included. */
  ghost predicate SubsetOf<K, V>(sub: map<K, V>, m: map<K, V>) {
    forall k :: k in sub ==> k in m && m[k] == sub[k]
  }

  /** A compiled selector list matches a labelled process when one of its maps does. */
  ghost predicate Matches(sels: seq<Selector>, labels: Selector) {
    exists i :: 0 <= i < |sels| && SubsetOf(sels[i], labels)
  }

  ghost predicate Holds(labels: Selector, pair: string) {
    pair in labels && labels[pair]
  }

  ghost predicate HasAnyLeaf(v: Value) {
    exists s :: HasLeaf(v, s)
  }

  /** Some leaf of the field is among the labels. */
  ghost predicate FieldHolds(key: string, v: Value, labels: Selector) {
    exists s :: HasLeaf(v, s) && Holds(labels, key + "=" + s)
  }

  /** What a raw selector asks for: every field that has a leaf at all must hold. */
  ghost predicate RawMatches(fields: Fields, labels: Selector) {
    forall k :: k in fields && HasAnyLeaf(fields[k]) ==> FieldHolds(k, fields[k], labels)
  }

  // ----- factors: one list of "key=value" texts per constraining field -----

  function Pairs(key: string, leaves: seq<string>): (p: seq<string>)
    ensures |p| == |leaves|
  {
    seq(|leaves|, i requires 0 <= i < |leaves| => key + "=" + leaves[i])
  }

  function Factor(fields: Fields, key: string): seq<string>
    requires key in fields
  {
    Pairs(key, Leaves(fields[key]))
  }

  function Factors(fields: Fields, order: seq<string>): (arrays: seq<seq<string>>)
    requires forall k :: k in order ==> k in fields
    ensures NoneEmpty(arrays)
  {
    if order == [] then [] else
      var k := order[|order| - 1];
      var rest := Factors(fields, order[..|order| - 1]);
      if Factor(fields, k) == [] then rest else rest + [Factor(fields, k)]
  }

  lemma {:induction false} FactorsMembers(fields: Fields, order: seq<string>, f: seq<string>)
    requires forall k :: k in order ==> k in fields
    ensures f in Factors(fields, order) <==> f != [] && exists k :: k in order && f == Factor(fields, k)
  {
    if order == [] {
    } else {
      var last := order[|order| - 1];
      FactorsMembers(fields, order[..|order| - 1], f);
      assert forall k :: k in order <==> k in order[..|order| - 1] || k == last;
    }
  }

  lemma PairMembers(key: string, v: Value, pair: string)
    ensures pair in Pairs(key, Leaves(v)) <==> exists s :: HasLeaf(v, s) && pair == key + "=" + s
  {
    forall s ensures s in Leaves(v) <==> HasLeaf(v, s) {
      LeavesAreTheLeaves(v, s);
    }
    var p := Pairs(key, Leaves(v));
    if pair in p {
      var i :| 0 <= i < |p| && p[i] == pair;
      assert Leaves(v)[i] in Leaves(v);
    }
    if s :| HasLeaf(v, s) && pair == key + "=" + s {
      var i :| 0 <= i < |Leaves(v)| && Leaves(v)[i] == s;
      assert p[i] == pair;
    }
  }

  lemma EmptyFactor(fields: Fields, key: string)
    requires key in fields
    ensures Factor(fields, key) != [] <==> HasAnyLeaf(fields[key])
  {
    var v := fields[key];
    if Factor(fields, key) != [] {
      LeavesAreTheLeaves(v, Leaves(v)[0]);
    }
    if s :| HasLeaf(v, s) {
      LeavesAreTheLeaves(v, s);
    }
  }

  // ----- rows: the cross product of the factors -----

  ghost predicate NoneEmpty(arrays: seq<seq<string>>) {
    forall i :: 0 <= i < |arrays| ==> |arrays[i]| > 0
  }

  function Lens(arrays: seq<seq<string>>): (lens: seq<nat>)
    ensures |lens| == |arrays|
    ensures NoneEmpty(arrays) ==> Radix.Positive(lens)
  {
    seq(|arrays|, i requires 0 <= i < |arrays| => |arrays[i]|)
  }

  function Select(arrays: seq<seq<string>>, d: seq<nat>): (row: seq<string>)
    requires |d| == |arrays| && forall i :: 0 <= i < |d| ==> d[i] < |arrays[i]|
    ensures |row| == |arrays|
  {
    seq(|arrays|, i requires 0 <= i < |arrays| => arrays[i][d[i]])
  }

  /** Row `k` of the product: the mixed-radix expansion of `k`, last array least significant. */
  function RowAt(arrays: seq<seq<string>>, k: nat): seq<string>
    requires NoneEmpty(arrays)
    requires k < Radix.Product(Lens(arrays))
  {
    Radix.EvalOfDigits(Lens(arrays), k);
    Select(arrays, Radix.Digits(Lens(arrays), k))
  }

  function Rows(arrays: seq<seq<string>>): (rows: seq<seq<string>>)
    requires NoneEmpty(arrays)
  {
    seq(Radix.Product(Lens(arrays)), k requires 0 <= k < Radix.Product(Lens(arrays)) => RowAt(arrays, k))
  }

  /** The odometer at position `d` has taken Eval(d) steps, so it stands on that row. */
  lemma RowOfPosition(arrays: seq<seq<string>>, d: seq<nat>)
    requires NoneEmpty(arrays)
    requires Radix.Valid(Lens(arrays), d)
    ensures Radix.Eval(Lens(arrays), d) < |Rows(arrays)|
    ensures Rows(arrays)[Radix.Eval(Lens(arrays), d)] == Select(arrays, d)
  {
    Radix.EvalBound(Lens(arrays), d);
    Radix.DigitsOfEval(Lens(arrays), d);
  }

  ghost predicate IsChoice(arrays: seq<seq<string>>, row: seq<string>) {
    |row| == |arrays| && forall i :: 0 <= i < |row| ==> row[i] in arrays[i]
  }

  /** The rows are exactly the ways of taking one entry from every array. */
  lemma RowsAreTheChoices(arrays: seq<seq<string>>, row: seq<string>)
    requires NoneEmpty(arrays)
    ensures row in Rows(arrays) <==> IsChoice(arrays, row)
  {
    var lens := Lens(arrays);
    if row in Rows(arrays) {
      var k :| 0 <= k < |Rows(arrays)| && Rows(arrays)[k] == row;
      Radix.EvalOfDigits(lens, k);
    }
    if IsChoice(arrays, row) {
      var d := PositionOf(arrays, row);
      RowOfPosition(arrays, d);
    }
  }

  lemma {:induction false} PositionOf(arrays: seq<seq<string>>, row: seq<string>) returns (d: seq<nat>)
    requires IsChoice(arrays, row)
    ensures Radix.Valid(Lens(arrays), d) && Select(arrays, d) == row
  {
    if row == [] {
      d := [];
    } else {
      var n := |row| - 1;
      d := PositionOf(arrays[..n], row[..n]);
      var j: nat :| j < |arrays[n]| && arrays[n][j] == row[n];
      assert forall i :: 0 <= i < n ==> d[i] < |arrays[..n][i]| && row[i] == Select(arrays[..n], d)[i];
      d := d + [j];
    }
  }

  /** No combination of positions is produced twice. */
  lemma RowPositionsDistinct(arrays: seq<seq<string>>, j: nat, k: nat)
    requires NoneEmpty(arrays)
    requires j < Radix.Product(Lens(arrays)) && k < Radix.Product(Lens(arrays)) && j != k
    ensures Radix.Digits(Lens(arrays), j) != Radix.Digits(Lens(arrays), k)
  {
    Radix.EvalOfDigits(Lens(arrays), j);
    Radix.EvalOfDigits(Lens(arrays), k);
  }

  /** The step between two rows: the last wheel that can still turn advances, the wheels
      after it go back to 0. When none can turn, every row has been produced. */
  method Advance(arrays: seq<seq<string>>, indices: array<nat>) returns (more: bool)
    requires Radix.Valid(Lens(arrays), indices[..])
    modifies indices
    ensures !more ==> Radix.Eval(Lens(arrays), old(indices[..])) + 1 == Radix.Product(Lens(arrays))
    ensures more ==> Radix.Valid(Lens(arrays), indices[..])
    ensures more ==> Radix.Eval(Lens(arrays), indices[..]) == Radix.Eval(Lens(arrays), old(indices[..])) + 1
  {
    var n := |arrays|;
    ghost var lens, d := Lens(arrays), indices[..];
    var next := n - 1;
    while next >= 0 && indices[next] + 1 >= |arrays[next]|
      invariant -1 <= next < n
      invariant forall i :: next < i < n ==> d[i] == lens[i] - 1
    {
      next := next - 1;
    }
    if next < 0 {
      Radix.LastPosition(lens, d);
      return false;
    }

    indices[next] := indices[next] + 1;
    for i := next + 1 to n
      invariant forall j :: 0 <= j < next ==> indices[j] == d[j]
      invariant indices[next] == d[next] + 1
      invariant forall j :: next < j < i ==> indices[j] == 0
    {
      indices[i] := 0;
    }
    Radix.Step(lens, d, indices[..], next);
    return true;
  }

  /** The row the odometer stands on. */
  method CurrentRow(arrays: seq<seq<string>>, indices: array<nat>) returns (r: seq<string>)
    requires Radix.Valid(Lens(arrays), indices[..])
    ensures r == Select(arrays, indices[..])
  {
    r := [];
    for i := 0 to |arrays|
      invariant |r| == i && forall j :: 0 <= j < i ==> r[j] == arrays[j][indices[j]]
    {
      r := r + [arrays[i][indices[i]]];
    }
  }

  method MakeArrayPermutations(arrays: seq<seq<string>>) returns (rest: seq<seq<string>>)
    requires NoneEmpty(arrays)
    ensures |rest| == Radix.Product(Lens(arrays))
    ensures rest == Rows(arrays)
  {
    var n := |arrays|;
    rest := [];
    var indices := new nat[n];
    for i := 0 to n
      invariant forall j :: 0 <= j < i ==> indices[j] == 0
    {
      indices[i] := 0;
    }

    hide Rows, Select, Radix.Product, Radix.Eval;
    ghost var lens, rows := Lens(arrays), Rows(arrays);
    assert |rows| == Radix.Product(lens);
    Radix.FirstPosition(lens, indices[..]);
    Radix.ProductPositive(lens);
    var more := true;
    while more
      invariant more ==> Radix.Valid(lens, indices[..]) && Radix.Eval(lens, indices[..]) == |rest|
      invariant if more then |rest| < |rows| else |rest| == |rows|
      invariant rest == rows[..|rest|]
      decreases more, |rows| - |rest|
    {
      RowOfPosition(arrays, indices[..]);
      var r := CurrentRow(arrays, indices);
      Grow(rows, |rest|);
      rest := rest + [r];
      more := Advance(arrays, indices);
      if more {
        Radix.EvalBound(lens, indices[..]);
      }
    }
    assert rest == rows;
  }

  // ----- label maps -----

  function ToMap(row: seq<string>): Selector {
    map pair | pair in row :: true
  }

  function ToMaps(rows: seq<seq<string>>): (maps: seq<Selector>)
    ensures |maps| == |rows|
  {
    seq(|rows|, i requires 0 <= i < |rows| => ToMap(rows[i]))
  }

  method ConvertStringArraysSelectorsToMap(arrays: seq<seq<string>>) returns (result: seq<Selector>)
    ensures result == ToMaps(arrays)
  {
    result := [];
    for i := 0 to |arrays|
      invariant result == ToMaps(arrays)[..i]
    {
      var m: Selector := map[];
      for j := 0 to |arrays[i]|
        invariant m == ToMap(arrays[i][..j])
      {
        m := m[arrays[i][j] := true];
        assert arrays[i][..j + 1] == arrays[i][..j] + [arrays[i][j]];
      }
      assert arrays[i][..|arrays[i]|] == arrays[i];
      result := result + [m];
    }
  }

  method FlattenAndStringifySelectors(fields: Fields) returns (results: seq<seq<string>>, ghost order: seq<string>)
    ensures IsOrder(order, fields.Keys)
    ensures forall k :: k in order ==> k in fields
    ensures results == Factors(fields, order)
    ensures forall f :: f in results <==> f != [] && exists k :: k in fields && f == Factor(fields, k)
  {
    results, order := [], [];
    var remaining := fields.Keys;
    while remaining != {}
      invariant remaining <= fields.Keys
      invariant multiset(order) + multiset(remaining) == multiset(fields.Keys)
      invariant forall k :: k in order ==> k in fields
      invariant results == Factors(fields, order)
      decreases |remaining|
    {
      var k :| k in remaining;
      var m := [];
      var values := GetValueForKind(fields[k]);
      for i := 0 to |values|
        invariant m == Factor(fields, k)[..i]
      {
        m := m + [k + "=" + values[i]];
      }
      assert m == Factor(fields, k);
      if |m| > 0 {
        results := results + [m];
      }
      assert (order + [k])[..|order|] == order;
      assert multiset(remaining) == multiset(remaining - {k}) + multiset{k};
      order := order + [k];
      remaining := remaining - {k};
    }
    OrderElements(order, fields.Keys);
    forall f ensures f in results <==> f != [] && exists k :: k in fields && f == Factor(fields, k) {
      FactorsMembers(fields, order, f);
    }
  }

  /** The label maps of one raw selector when its fields are visited in `order`. */
  function Expand(fields: Fields, order: seq<string>): seq<Selector>
    requires forall k :: k in order ==> k in fields
  {
    ToMaps(Rows(Factors(fields, order)))
  }

  method ConvertSelectors(fields: Fields) returns (sels: seq<Selector>, ghost order: seq<string>)
    ensures IsOrder(order, fields.Keys)
    ensures forall k :: k in order ==> k in fields
    ensures sels == Expand(fields, order)
    ensures forall labels :: Matches(sels, labels) <==> RawMatches(fields, labels)
  {
    var arrays;
    arrays, order := FlattenAndStringifySelectors(fields);
    var rows := MakeArrayPermutations(arrays);
    sels := ConvertStringArraysSelectorsToMap(rows);
    forall labels ensures Matches(sels, labels) <==> RawMatches(fields, labels) {
      ExpandPreservesMeaning(fields, order, labels);
    }
  }

  // ----- meaning preservation -----

  lemma MapSubset(row: seq<string>, labels: Selector)
    ensures SubsetOf(ToMap(row), labels) <==> forall i :: 0 <= i < |row| ==> Holds(labels, row[i])
  {
    if SubsetOf(ToMap(row), labels) {
      forall i | 0 <= i < |row| ensures Holds(labels, row[i]) {
        assert row[i] in ToMap(row);
      }
    }
  }

  /** Conversion preserves meaning, whatever order the fields are visited in. */
  lemma ExpandPreservesMeaning(fields: Fields, order: seq<string>, labels: Selector)
    requires IsOrder(order, fields.Keys)
    requires forall k :: k in order ==> k in fields
    ensures Matches(Expand(fields, order), labels) <==> RawMatches(fields, labels)
  {
    if Matches(Expand(fields, order), labels) {
      ExpandIsSound(fields, order, labels);
    }
    if RawMatches(fields, labels) {
      ExpandIsComplete(fields, order, labels);
    }
  }

  lemma ExpandIsSound(fields: Fields, order: seq<string>, labels: Selector)
    requires IsOrder(order, fields.Keys)
    requires forall k :: k in order ==> k in fields
    requires Matches(Expand(fields, order), labels)
    ensures RawMatches(fields, labels)
  {
    OrderElements(order, fields.Keys);
    var arrays := Factors(fields, order);
    var i :| 0 <= i < |Rows(arrays)| && SubsetOf(Expand(fields, order)[i], labels);
    var row := Rows(arrays)[i];
    RowsAreTheChoices(arrays, row);
    MapSubset(row, labels);
    forall k | k in fields && HasAnyLeaf(fields[k]) ensures FieldHolds(k, fields[k], labels) {
      var f := Factor(fields, k);
      EmptyFactor(fields, k);
      FactorsMembers(fields, order, f);
      var j :| 0 <= j < |arrays| && arrays[j] == f;
      PairMembers(k, fields[k], row[j]);
    }
  }

  /** The first entry of `f` that is among the labels. */
  ghost function Pick(f: seq<string>, labels: Selector): (pair: string)
    requires exists pair :: pair in f && Holds(labels, pair)
    ensures pair in f && Holds(labels, pair)
  {
    var pair :| pair in f && Holds(labels, pair);
    pair
  }

  lemma ExpandIsComplete(fields: Fields, order: seq<string>, labels: Selector)
    requires IsOrder(order, fields.Keys)
    requires forall k :: k in order ==> k in fields
    requires RawMatches(fields, labels)
    ensures Matches(Expand(fields, order), labels)
  {
    var arrays := Factors(fields, order);
    forall i | 0 <= i < |arrays| ensures exists pair :: pair in arrays[i] && Holds(labels, pair) {
      FactorsMembers(fields, order, arrays[i]);
      var k :| k in order && arrays[i] == Factor(fields, k);
      EmptyFactor(fields, k);
      var s :| HasLeaf(fields[k], s) && Holds(labels, k + "=" + s);
      PairMembers(k, fields[k], k + "=" + s);
    }
    var row := seq(|arrays|, i requires 0 <= i < |arrays| => Pick(arrays[i], labels));
    assert IsChoice(arrays, row);
    RowsAreTheChoices(arrays, row);
    MapSubset(row, labels);
    var j :| 0 <= j < |Rows(arrays)| && Rows(arrays)[j] == row;
    assert SubsetOf(Expand(fields, order)[j], labels);
  }
}
