/** The `generate-policy` command: a policy built from a process's own labels, and why the
    labels the agent later computes for that process always match it. */
module GeneratePolicy {
  import opened Common
  import opened StructValues
  import opened Selectors
  import opened Conversion
  import Radix = MixedRadix

  datatype Label = Label(name: string, value: string)

  /** A pattern ending in '*' matches every name with the prefix before it; any pattern
      matches itself. */
  ghost predicate Accepts(pattern: string, name: string) {
    (pattern != "" && pattern[|pattern| - 1] == '*' && pattern[..|pattern| - 1] <= name) || pattern == name
  }

  ghost predicate AcceptedBy(patterns: seq<string>, name: string) {
    exists i :: 0 <= i < |patterns| && Accepts(patterns[i], name)
  }

  method MatchLabel(patterns: seq<string>, name: string) returns (r: bool)
    ensures r <==> AcceptedBy(patterns, name)
  {
    for i := 0 to |patterns|
      invariant forall j :: 0 <= j < i ==> !Accepts(patterns[j], name)
    {
      var l := patterns[i];
      if |l| > 0 && l[|l| - 1] == '*' && l[..|l| - 1] <= name {
        return true;
      }
      if l == name {
        return true;
      }
    }
    return false;
  }

  /** The fields of the generated selector: for every accepted name, its last value. */
  ghost function FieldsOf(labels: seq<Label>, patterns: seq<string>): Fields {
    if labels == [] then map[] else
      var l := labels[|labels| - 1];
      var rest := FieldsOf(labels[..|labels| - 1], patterns);
      if AcceptedBy(patterns, l.name) then rest[l.name := Str(l.value)] else rest
  }

  /** The label set the agent reports for a process with these labels. */
  function AugmentLabels(labels: seq<Label>): Selector {
    if labels == [] then map[] else
      AugmentLabels(labels[..|labels| - 1])[labels[|labels| - 1].name + "=" + labels[|labels| - 1].value := true]
  }

  method Generate(labels: seq<Label>, patterns: seq<string>) returns (r: Result<Fields, string>)
    ensures r.Ok? <==> exists i :: 0 <= i < |labels| && AcceptedBy(patterns, labels[i].name)
    ensures r.Ok? ==> r.value == FieldsOf(labels, patterns)
  {
    var fields: Fields := map[];
    for i := 0 to |labels|
      invariant fields == FieldsOf(labels[..i], patterns)
    {
      Grow(labels, i);
      var ok := MatchLabel(patterns, labels[i].name);
      if !ok {
        continue;
      }
      fields := fields[labels[i].name := Str(labels[i].value)];
    }
    assert labels[..|labels|] == labels;
    FieldsAreLabels(labels, patterns);
    if fields == map[] {
      assert forall k :: k !in fields;
      return Err("could not find selectors");
    }
    assert exists k :: k in fields;
    return Ok(fields);
  }

  /** Fields are exactly the accepted names, and every field is one of the labels. */
  lemma {:induction false} FieldsAreLabels(labels: seq<Label>, patterns: seq<string>)
    ensures forall i :: 0 <= i < |labels| && AcceptedBy(patterns, labels[i].name) ==>
        labels[i].name in FieldsOf(labels, patterns)
    ensures forall k :: k in FieldsOf(labels, patterns) ==>
              exists i :: 0 <= i < |labels| && AcceptedBy(patterns, labels[i].name)
                          && labels[i].name == k && FieldsOf(labels, patterns)[k] == Str(labels[i].value)
  {
    if labels == [] {
    } else {
      var n := |labels| - 1;
      var rest := FieldsOf(labels[..n], patterns);
      FieldsAreLabels(labels[..n], patterns);
      forall k | k in FieldsOf(labels, patterns)
        ensures exists i :: 0 <= i < |labels| && AcceptedBy(patterns, labels[i].name)
                            && labels[i].name == k && FieldsOf(labels, patterns)[k] == Str(labels[i].value)
      {
        if AcceptedBy(patterns, labels[n].name) && k == labels[n].name {
          assert FieldsOf(labels, patterns)[k] == Str(labels[n].value);
        } else {
          var i :| 0 <= i < n && AcceptedBy(patterns, labels[..n][i].name)
                   && labels[..n][i].name == k && rest[k] == Str(labels[..n][i].value);
          assert labels[i] == labels[..n][i];
        }
      }
      forall i | 0 <= i < |labels| && AcceptedBy(patterns, labels[i].name)
        ensures labels[i].name in FieldsOf(labels, patterns)
      {
        if i < n {
          assert labels[i] == labels[..n][i];
        }
      }
    }
  }

  lemma {:induction false} AugmentHolds(labels: seq<Label>, i: nat)
    requires i < |labels|
    ensures Holds(AugmentLabels(labels), labels[i].name + "=" + labels[i].value)
  {
    if i < |labels| - 1 {
      AugmentHolds(labels[..|labels| - 1], i);
    }
  }

  /** The labels reported are exactly those of the process, each mapped to true. */
  lemma {:induction false} AugmentLabelsAre(labels: seq<Label>, pair: string)
    ensures pair in AugmentLabels(labels) <==>
            exists i :: 0 <= i < |labels| && pair == labels[i].name + "=" + labels[i].value
    ensures pair in AugmentLabels(labels) ==> AugmentLabels(labels)[pair]
  {
    if labels == [] {
    } else {
      var n := |labels| - 1;
      AugmentLabelsAre(labels[..n], pair);
      assert forall i :: 0 <= i < n ==> labels[..n][i] == labels[i];
      if i :| 0 <= i < |labels| && pair == labels[i].name + "=" + labels[i].value {
        assert i < n ==> pair == labels[..n][i].name + "=" + labels[..n][i].value;
      }
    }
  }

  /** `i` is the last label of its name. */
  ghost predicate LastOfName(labels: seq<Label>, i: nat) {
    i < |labels| && forall j :: i < j < |labels| ==> labels[j].name != labels[i].name
  }

  /** Of a repeated name the last value counts. */
  lemma {:induction false} LastValueCounts(labels: seq<Label>, patterns: seq<string>, i: nat)
    requires LastOfName(labels, i) && AcceptedBy(patterns, labels[i].name)
    ensures labels[i].name in FieldsOf(labels, patterns)
    ensures FieldsOf(labels, patterns)[labels[i].name] == Str(labels[i].value)
  {
    var n := |labels| - 1;
    if i < n {
      assert labels[n].name != labels[i].name;
      assert forall j :: 0 <= j < n ==> labels[..n][j] == labels[j];
      LastValueCounts(labels[..n], patterns, i);
    }
  }

  /** A pattern with a star accepts exactly the continuations of what stands before it; any other
      accepts itself alone. */
  lemma StarAcceptsContinuations(pattern: string, name: string)
    ensures Accepts(pattern + "*", name) <==> exists rest :: name == pattern + rest
    ensures pattern == "" || pattern[|pattern| - 1] != '*' ==> (Accepts(pattern, name) <==> name == pattern)
  {
    assert (pattern + "*")[..|pattern|] == pattern && (pattern + "*")[|pattern|] == '*';
    if pattern <= name {
      assert name == pattern + name[|pattern|..];
    }
  }

  lemma StrHasItsLeaf(s: string)
    ensures HasLeaf(Str(s), s) && Leaves(Str(s)) == [s]
  {
  }

  /** The generated selector asks only for labels the process has. */
  lemma GeneratedMatchesItself(labels: seq<Label>, patterns: seq<string>)
    ensures RawMatches(FieldsOf(labels, patterns), AugmentLabels(labels))
  {
    FieldsAreLabels(labels, patterns);
    var fields := FieldsOf(labels, patterns);
    forall k | k in fields ensures FieldHolds(k, fields[k], AugmentLabels(labels)) {
      var i :| 0 <= i < |labels| && labels[i].name == k && fields[k] == Str(labels[i].value);
      StrHasItsLeaf(labels[i].value);
      AugmentHolds(labels, i);
    }
  }

  /** One leaf per field: the expansion is a single map. */
  lemma {:induction false} SingleLeaves(fields: Fields, order: seq<string>)
    requires forall k :: k in order ==> k in fields
    requires forall k :: k in fields ==> |Leaves(fields[k])| == 1
    ensures Radix.Product(Lens(Factors(fields, order))) == 1
  {
    if order == [] {
    } else {
      var n := |order| - 1;
      SingleLeaves(fields, order[..n]);
      var arrays := Factors(fields, order);
      assert arrays == Factors(fields, order[..n]) + [Factor(fields, order[n])];
      assert Lens(arrays)[..|arrays| - 1] == Lens(arrays[..|arrays| - 1]);
    }
  }

  lemma GeneratedHasSingleLeaves(labels: seq<Label>, patterns: seq<string>)
    ensures forall k :: k in FieldsOf(labels, patterns) ==> |Leaves(FieldsOf(labels, patterns)[k])| == 1
  {
    FieldsAreLabels(labels, patterns);
    forall k | k in FieldsOf(labels, patterns) ensures |Leaves(FieldsOf(labels, patterns)[k])| == 1 {
      var i :| 0 <= i < |labels| && labels[i].name == k && FieldsOf(labels, patterns)[k] == Str(labels[i].value);
      StrHasItsLeaf(labels[i].value);
    }
  }

  lemma SingleLeavesSingleMap(fields: Fields, order: seq<string>)
    requires IsFieldOrder(fields, order)
    requires forall k :: k in fields ==> |Leaves(fields[k])| == 1
    ensures |Expand(fields, order)| == 1
  {
    SingleLeaves(fields, order);
  }

  /** Converting a generated policy gives exactly one map, and it is a subset of the labels
      reported for the process it was generated from, repeated label names included. */
  lemma GeneratedPolicyMatchesItsProcess(labels: seq<Label>, patterns: seq<string>, sels: seq<Selector>)
    requires ExpandsOne(FieldsOf(labels, patterns), sels)
    ensures |sels| == 1 && SubsetOf(sels[0], AugmentLabels(labels))
  {
    hide FieldsOf, AugmentLabels, Expand, Leaves, RawMatches, SubsetOf, AcceptedBy, IsOrder;
    var fields := FieldsOf(labels, patterns);
    var order :| IsFieldOrder(fields, order) && sels == Expand(fields, order);
    GeneratedHasSingleLeaves(labels, patterns);
    SingleLeavesSingleMap(fields, order);
    GeneratedMatchesItself(labels, patterns);
    ExpandPreservesMeaning(fields, order, AugmentLabels(labels));
    var i :| 0 <= i < |sels| && SubsetOf(sels[i], AugmentLabels(labels));
  }
}
