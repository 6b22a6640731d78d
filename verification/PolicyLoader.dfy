/** ConvertPolicy/ConvertPolicies building the heap tree, and the file loader that collects
    policies from all files and organizes them. */
module PolicyLoader {
  import opened Common
  import opened FileContents
  import opened StructValues
  import opened Selectors
  import opened PolicyOrder
  import opened OrganizeSpec
  import opened Conversion
  import opened Policies

  method ConvertSelectorList(raws: seq<Fields>) returns (sels: seq<Selector>)
    ensures ExpandsTo(raws, sels)
    ensures forall labels :: Matches(sels, labels) <==> SomeRawMatches(raws, labels)
  {
    sels := [];
    for i := 0 to |raws|
      invariant ExpandsTo(raws[..i], sels)
    {
      var expanded, order := ConvertSelectors(raws[i]);
      assert IsFieldOrder(raws[i], order);
      ExpandsToSnoc(raws[..i], sels, raws[i], expanded);
      Grow(raws, i);
      sels := sels + expanded;
    }
    assert raws[..|raws|] == raws;
    forall labels ensures Matches(sels, labels) <==> SomeRawMatches(raws, labels) {
      ConversionPreservesMeaning(raws, sels, labels);
    }
  }

  lemma ExpandsToSnoc(raws: seq<Fields>, sels: seq<Selector>, fields: Fields, expanded: seq<Selector>)
    requires ExpandsTo(raws, sels) && ExpandsOne(fields, expanded)
    ensures ExpandsTo(raws + [fields], sels + expanded)
  {
    assert (raws + [fields])[..|raws|] == raws;
    assert (sels + expanded)[..|sels|] == sels && (sels + expanded)[|sels|..] == expanded;
  }

  method ConvertPolicy(id: IdOf, raw: RawPolicy) returns (p: Policy)
    ensures fresh(p.footprint) && p.Valid()
    ensures ConvertsTo(id, raw, p.Tree())
    ensures p.info.id == id(raw.certificate)
    ensures p.info.certificate == raw.certificate && p.info.connection == raw.connection
    decreases raw, 0
  {
    hide Siblings, Trees, ExpandsTo, ConvertsAll, Matches, SomeRawMatches, Policy.Valid, Policy.Tree;
    var converted, below := ConvertPolicies(id, raw.egress);
    var sels := ConvertSelectorList(raw.selectors);
    var egress := new Policy[|converted|](i requires 0 <= i < |converted| => converted[i]);
    assert egress[..] == converted;
    p := new Policy(InfoOf(id, raw), sels, egress, below);
  }

  method ConvertPolicies(id: IdOf, raws: seq<RawPolicy>) returns (ps: seq<Policy>, ghost region: set<object>)
    ensures fresh(region) && Siblings(ps, region)
    ensures ConvertsAll(id, raws, Trees(ps, region))
    decreases raws, 1
  {
    ps, region := [], {};
    for i := 0 to |raws|
      invariant fresh(region) && Siblings(ps, region)
      invariant ConvertsAll(id, raws[..i], Trees(ps, region))
    {
      var p := ConvertPolicy(id, raws[i]);
      AddSibling(ps, region, p);
      ps, region := ps + [p], region + p.footprint;
    }
    assert raws[..|raws|] == raws;
  }

  lemma AddSibling(ps: seq<Policy>, region: set<object>, p: Policy)
    requires Siblings(ps, region) && p.Valid() && p.footprint !! region
    ensures Siblings(ps + [p], region + p.footprint)
    ensures Trees(ps + [p], region + p.footprint) == Trees(ps, region) + [p.Tree()]
  {
  }

  lemma DisjointParts(ps: seq<Policy>, r: set<object>, qs: seq<Policy>, s: set<object>, i: nat, j: nat)
    requires Siblings(ps, r) && Siblings(qs, s) && r !! s && i < j < |ps + qs|
    ensures (ps + qs)[i].footprint !! (ps + qs)[j].footprint
  {
    hide Policy.Valid;
    if j < |ps| {
      assert (ps + qs)[i] == ps[i] && (ps + qs)[j] == ps[j];
    } else if i < |ps| {
      assert (ps + qs)[i] == ps[i] && (ps + qs)[j] == qs[j - |ps|];
      assert ps[i].footprint <= r && qs[j - |ps|].footprint <= s;
    } else {
      assert (ps + qs)[i] == qs[i - |ps|] && (ps + qs)[j] == qs[j - |ps|];
    }
  }

  lemma PartsInside(ps: seq<Policy>, r: set<object>, qs: seq<Policy>, s: set<object>, i: nat)
    requires Siblings(ps, r) && Siblings(qs, s) && i < |ps + qs|
    ensures var p := (ps + qs)[i]; p in r + s && p.footprint <= r + s && p.Valid()
  {
    hide Policy.Valid;
    if i < |ps| {
      assert (ps + qs)[i] == ps[i];
    } else {
      assert (ps + qs)[i] == qs[i - |ps|];
    }
  }

  lemma JoinSiblings(ps: seq<Policy>, r: set<object>, qs: seq<Policy>, s: set<object>)
    requires Siblings(ps, r) && Siblings(qs, s) && r !! s
    ensures Siblings(ps + qs, r + s)
    ensures Trees(ps + qs, r + s) == Trees(ps, r) + Trees(qs, s)
  {
    hide Policy.Valid, Policy.Tree, Trees;
    forall i | 0 <= i < |ps + qs| ensures var p := (ps + qs)[i]; p in r + s && p.footprint <= r + s && p.Valid() {
      PartsInside(ps, r, qs, s, i);
    }
    forall i, j | 0 <= i < j < |ps + qs| ensures (ps + qs)[i].footprint !! (ps + qs)[j].footprint {
      DisjointParts(ps, r, qs, s, i, j);
    }
    assert Siblings(ps + qs, r + s);
    var ts, us := Trees(ps + qs, r + s), Trees(ps, r) + Trees(qs, s);
    forall i | 0 <= i < |ps + qs| ensures ts[i] == us[i] {
      assert ts[i] == (ps + qs)[i].Tree();
    }
  }

  /** The entries of one file that decode and validate, converted; an error for a file that
      is not a YAML list. */
  method Unmarshal(id: IdOf, content: Content<RawPolicy>)
    returns (r: Result<seq<Policy>, string>, ghost region: set<object>)
    ensures r.Ok? <==> content.Items?
    ensures fresh(region)
    ensures r.Ok? ==> Siblings(r.value, region) && ConvertsAll(id, KeptOf(content), Trees(r.value, region))
  {
    match content {
      case Unparsable =>
        return Err("could not parse"), {};
      case Items(items) =>
        var raws := Decode(items);
        var ps;
        ps, region := ConvertPolicies(id, raws);
        r := Ok(ps);
    }
  }

  lemma LoadedFromSnoc(id: IdOf, files: Files, order: seq<string>, ts: seq<PolicyTree>, f: string,
                       more: seq<PolicyTree>)
    requires AllIn(order, files) && f in files && AllIn(order + [f], files)
    requires LoadedFrom(id, files, order, ts) && ConvertsAll(id, KeptOf(files[f]), more)
    ensures LoadedFrom(id, files, order + [f], ts + more)
  {
    assert (order + [f])[..|order|] == order;
    assert (ts + more)[..|ts|] == ts && (ts + more)[|ts|..] == more;
  }

  /** The policies of all files, visited in some order; bad files are skipped. */
  method Collect(id: IdOf, files: Files)
    returns (collected: seq<Policy>, ghost region: set<object>, ghost order: seq<string>)
    ensures fresh(region) && Siblings(collected, region)
    ensures IsOrder(order, files.Keys) && AllIn(order, files)
    ensures LoadedFrom(id, files, order, Trees(collected, region))
  {
    hide Siblings, Trees, LoadedFrom;
    collected, region, order := [], {}, [];
    NothingLoaded(id, files);
    var remaining := files.Keys;
    while remaining != {}
      invariant remaining <= files.Keys
      invariant multiset(order) + multiset(remaining) == multiset(files.Keys)
      invariant fresh(region) && Siblings(collected, region)
      invariant AllIn(order, files) && LoadedFrom(id, files, order, Trees(collected, region))
      decreases |remaining|
    {
      var f :| f in remaining;
      var r, part := Unmarshal(id, files[f]);
      ghost var before := order;
      assert multiset(remaining) == multiset(remaining - {f}) + multiset{f};
      order, remaining := order + [f], remaining - {f};
      if r.Err? {
        LoadedFromSnoc(id, files, before, Trees(collected, region), f, []);
        assert Trees(collected, region) + [] == Trees(collected, region);
        continue;
      }
      LoadedFromSnoc(id, files, before, Trees(collected, region), f, Trees(r.value, part));
      JoinSiblings(collected, region, r.value, part);
      collected, region := collected + r.value, region + part;
    }
  }

  lemma NothingLoaded(id: IdOf, files: Files)
    ensures Siblings([], {}) && Trees([], {}) == [] && LoadedFrom(id, files, [], [])
  {
  }

  /** One load: what is handed on is the collected policies, organized. */
  method Run(id: IdOf, files: Files)
    returns (policies: array<Policy>, ghost region: set<object>, ghost order: seq<string>,
             ghost loaded: seq<PolicyTree>)
    ensures fresh(policies) && fresh(region) && policies !in region && Siblings(policies[..], region)
    ensures IsOrder(order, files.Keys) && AllIn(order, files) && LoadedFrom(id, files, order, loaded)
    ensures Trees(policies[..], region) == Organized(loaded)
    ensures OrganizedFrom(false, loaded, Trees(policies[..], region)) && PositionsOnHeap(policies[..], region)
    ensures BagsOf(Trees(policies[..], region)) == LoadBag(id, files)
  {
    hide Siblings, Trees, Organized, OrganizedFrom, PositionsOnHeap, BagsOf, LoadedFrom, LoadBag;
    var collected;
    collected, region, order := Collect(id, files);
    loaded := Trees(collected, region);
    policies := new Policy[|collected|](i requires 0 <= i < |collected| => collected[i]);
    assert policies[..] == collected;
    assert Trees(policies[..], region) == loaded;
    Organize(policies, region);
    LoadHandsOnAll(id, files, order, loaded, Organized(loaded));
  }
}
