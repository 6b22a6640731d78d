/** What ConvertPolicy and the file loader produce, up to the map iteration orders they
    happen to meet, and what is the same for all of them. */
module Conversion {
  import opened Common
  import opened FileContents
  import opened StructValues
  import opened Selectors
  import opened CrossProduct
  import opened PolicyOrder
  import opened OrganizeSpec

  /** A decoded policy file entry. */
  datatype RawPolicy = RawPolicy(
    selectors: seq<Fields>,
    certificate: Option<Certificate>,
    connection: Option<Connection>,
    egress: seq<RawPolicy>)

  /** The policy ID: some function of the certificate. */
  type IdOf = Option<Certificate> -> string

  function InfoOf(id: IdOf, raw: RawPolicy): PolicyInfo {
    PolicyInfo(id(raw.certificate), raw.certificate, raw.connection)
  }

  /** `sels` is what one raw selector converts to under some field order. */
  ghost predicate ExpandsOne(fields: Fields, sels: seq<Selector>) {
    exists order :: IsFieldOrder(fields, order) && sels == Expand(fields, order)
  }

  ghost predicate IsFieldOrder(fields: Fields, order: seq<string>) {
    IsOrder(order, fields.Keys) && forall k :: k in order ==> k in fields
  }

  /** `sels` is the concatenation of what each raw selector converts to. */
  ghost predicate ExpandsTo(raws: seq<Fields>, sels: seq<Selector>) {
    if raws == [] then sels == [] else
      exists n :: 0 <= n <= |sels| && ExpandsTo(raws[..|raws| - 1], sels[..n])
                  && ExpandsOne(raws[|raws| - 1], sels[n..])
  }

  /** The policy tree `t` is a conversion of `raw`: same shape, same data, selectors expanded. */
  ghost predicate ConvertsTo(id: IdOf, raw: RawPolicy, t: PolicyTree)
    decreases raw
  {
    && t.position == 0
    && t.info.id == id(raw.certificate) && t.info.certificate == raw.certificate && t.info.connection == raw.connection
    && ExpandsTo(raw.selectors, t.selectors)
    && ConvertsAll(id, raw.egress, t.egress)
  }

  ghost predicate ConvertsAll(id: IdOf, raws: seq<RawPolicy>, ts: seq<PolicyTree>)
    decreases raws
  {
    |ts| == |raws| && forall i :: 0 <= i < |raws| ==> ConvertsTo(id, raws[i], ts[i])
  }

  // ----- data -----

  /** The policy reached by following `path` through egress lists. */
  function RawAt(raws: seq<RawPolicy>, path: seq<nat>): Option<RawPolicy>
    decreases |path|
  {
    if path == [] || path[0] >= |raws| then None
    else if |path| == 1 then Some(raws[path[0]])
    else RawAt(raws[path[0]].egress, path[1..])
  }

  function TreeAt(ts: seq<PolicyTree>, path: seq<nat>): Option<PolicyTree>
    decreases |path|
  {
    if path == [] || path[0] >= |ts| then None
    else if |path| == 1 then Some(ts[path[0]])
    else TreeAt(ts[path[0]].egress, path[1..])
  }

  /** Along every egress path a converted policy carries the data of the raw one, and there is no
      policy more or less. */
  lemma {:induction false} DataAlongPath(id: IdOf, raws: seq<RawPolicy>, ts: seq<PolicyTree>, path: seq<nat>)
    requires ConvertsAll(id, raws, ts)
    ensures RawAt(raws, path).Some? <==> TreeAt(ts, path).Some?
    ensures RawAt(raws, path).Some? ==>
              var raw, t := RawAt(raws, path).value, TreeAt(ts, path).value;
              && t.info.certificate == raw.certificate && t.info.connection == raw.connection
              && t.info.id == id(raw.certificate)
    decreases |path|
  {
    hide ExpandsTo;
    if path != [] && path[0] < |raws| {
      assert ConvertsTo(id, raws[path[0]], ts[path[0]]);
      if |path| > 1 {
        DataAlongPath(id, raws[path[0]].egress, ts[path[0]].egress, path[1..]);
      }
    }
  }

  // ----- meaning -----

  ghost predicate SomeRawMatches(raws: seq<Fields>, labels: Selector) {
    exists i :: 0 <= i < |raws| && RawMatches(raws[i], labels)
  }

  lemma SomeRawMatchesSnoc(raws: seq<Fields>, fields: Fields, labels: Selector)
    ensures SomeRawMatches(raws + [fields], labels) <==> SomeRawMatches(raws, labels) || RawMatches(fields, labels)
  {
    if i :| 0 <= i < |raws| && RawMatches(raws[i], labels) {
      assert RawMatches((raws + [fields])[i], labels);
    }
    if RawMatches(fields, labels) {
      assert RawMatches((raws + [fields])[|raws|], labels);
    }
  }

  lemma ExpandsToSplits(raws: seq<Fields>, sels: seq<Selector>) returns (a: seq<Selector>, b: seq<Selector>)
    requires raws != [] && ExpandsTo(raws, sels)
    ensures sels == a + b
    ensures ExpandsTo(raws[..|raws| - 1], a) && ExpandsOne(raws[|raws| - 1], b)
  {
    hide ExpandsOne;
    var m := |raws| - 1;
    var n :| 0 <= n <= |sels| && ExpandsTo(raws[..m], sels[..n]) && ExpandsOne(raws[m], sels[n..]);
    a, b := sels[..n], sels[n..];
  }

  /** A compiled policy matches exactly when one of its raw selectors does. */
  lemma {:induction false} ConversionPreservesMeaning(raws: seq<Fields>, sels: seq<Selector>, labels: Selector)
    requires ExpandsTo(raws, sels)
    ensures Matches(sels, labels) <==> SomeRawMatches(raws, labels)
  {
    if raws == [] {
    } else {
      var m := |raws| - 1;
      var a, b := ExpandsToSplits(raws, sels);
      var order :| IsFieldOrder(raws[m], order) && b == Expand(raws[m], order);
      ConversionPreservesMeaning(raws[..m], a, labels);
      ExpandPreservesMeaning(raws[m], order, labels);
      MatchesAppend(a, b, labels);
      SomeRawMatchesSnoc(raws[..m], raws[m], labels);
      DropLast(raws);
    }
  }

  lemma MatchesAppend(a: seq<Selector>, b: seq<Selector>, labels: Selector)
    ensures Matches(a + b, labels) <==> Matches(a, labels) || Matches(b, labels)
  {
    if i :| 0 <= i < |a| && SubsetOf(a[i], labels) {
      assert SubsetOf((a + b)[i], labels);
    }
    if i :| 0 <= i < |b| && SubsetOf(b[i], labels) {
      assert SubsetOf((a + b)[|a| + i], labels);
    }
  }

  // ----- independence from every iteration order -----

  ghost function FieldsBag(fields: Fields): multiset<Selector> {
    var order := SomeOrder(fields.Keys);
    OrderElements(order, fields.Keys);
    multiset(Expand(fields, order))
  }

  ghost function SelectorsBag(raws: seq<Fields>): multiset<Selector> {
    if raws == [] then multiset{} else SelectorsBag(raws[..|raws| - 1]) + FieldsBag(raws[|raws| - 1])
  }

  ghost function RawBag(id: IdOf, raw: RawPolicy): Bag {
    Bag(InfoOf(id, raw), SelectorsBag(raw.selectors), RawBags(id, raw.egress))
  }

  ghost function RawBags(id: IdOf, raws: seq<RawPolicy>): multiset<Bag> {
    if raws == [] then multiset{} else RawBags(id, raws[..|raws| - 1]) + multiset{RawBag(id, raws[|raws| - 1])}
  }

  lemma ExpandsOneBag(fields: Fields, sels: seq<Selector>)
    requires ExpandsOne(fields, sels)
    ensures multiset(sels) == FieldsBag(fields)
  {
    var order :| IsFieldOrder(fields, order) && sels == Expand(fields, order);
    OrderElements(SomeOrder(fields.Keys), fields.Keys);
    ExpandIgnoresOrder(fields, order, SomeOrder(fields.Keys));
  }

  lemma {:induction false} ExpandsToBag(raws: seq<Fields>, sels: seq<Selector>)
    requires ExpandsTo(raws, sels)
    ensures multiset(sels) == SelectorsBag(raws)
  {
    if raws == [] {
    } else {
      var m := |raws| - 1;
      var a, b := ExpandsToSplits(raws, sels);
      ExpandsToBag(raws[..m], a);
      ExpandsOneBag(raws[m], b);
    }
  }

  lemma {:induction false} ConvertsToBag(id: IdOf, raw: RawPolicy, t: PolicyTree)
    requires ConvertsTo(id, raw, t)
    ensures BagOf(t) == RawBag(id, raw)
    decreases raw
  {
    ExpandsToBag(raw.selectors, t.selectors);
    ConvertsAllBags(id, raw.egress, t.egress);
  }

  lemma {:induction false} ConvertsAllBags(id: IdOf, raws: seq<RawPolicy>, ts: seq<PolicyTree>)
    requires ConvertsAll(id, raws, ts)
    ensures BagsOf(ts) == RawBags(id, raws)
    decreases raws
  {
    if raws == [] {
    } else {
      var m := |raws| - 1;
      ConvertsAllBags(id, raws[..m], ts[..m]);
      ConvertsToBag(id, raws[m], ts[m]);
    }
  }

  // ----- the loader -----

  type Files = map<string, Content<RawPolicy>>

  /** `ts` is what the files give when visited in `order`, before Organize. */
  ghost predicate LoadedFrom(id: IdOf, files: Files, order: seq<string>, ts: seq<PolicyTree>)
    requires AllIn(order, files)
  {
    if order == [] then ts == [] else
      exists n :: 0 <= n <= |ts| && LoadedFrom(id, files, order[..|order| - 1], ts[..n])
                  && ConvertsAll(id, KeptOf(files[order[|order| - 1]]), ts[n..])
  }

  ghost function FilesBag(id: IdOf, files: Files, order: seq<string>): multiset<Bag>
    requires AllIn(order, files)
  {
    if order == [] then multiset{} else
      FilesBag(id, files, order[..|order| - 1]) + RawBags(id, KeptOf(files[order[|order| - 1]]))
  }

  lemma LoadedSplits(id: IdOf, files: Files, order: seq<string>, ts: seq<PolicyTree>)
    returns (a: seq<PolicyTree>, b: seq<PolicyTree>)
    requires AllIn(order, files) && order != [] && LoadedFrom(id, files, order, ts)
    ensures ts == a + b
    ensures LoadedFrom(id, files, order[..|order| - 1], a) && ConvertsAll(id, KeptOf(files[order[|order| - 1]]), b)
  {
    hide ConvertsAll, KeptOf;
    var m := |order| - 1;
    var n :| 0 <= n <= |ts| && LoadedFrom(id, files, order[..m], ts[..n])
             && ConvertsAll(id, KeptOf(files[order[m]]), ts[n..]);
    a, b := ts[..n], ts[n..];
  }

  lemma {:induction false} LoadedBags(id: IdOf, files: Files, order: seq<string>, ts: seq<PolicyTree>)
    requires AllIn(order, files)
    requires LoadedFrom(id, files, order, ts)
    ensures BagsOf(ts) == FilesBag(id, files, order)
  {
    if order == [] {
    } else {
      var m := |order| - 1;
      var a, b := LoadedSplits(id, files, order, ts);
      LoadedBags(id, files, order[..m], a);
      ConvertsAllBags(id, KeptOf(files[order[m]]), b);
      BagsAppend(a, b);
    }
  }

  lemma FilesBagSnoc(id: IdOf, files: Files, order: seq<string>, f: string)
    requires AllIn(order + [f], files) && AllIn(order, files) && f in files
    ensures FilesBag(id, files, order + [f]) == FilesBag(id, files, order) + RawBags(id, KeptOf(files[f]))
  {
    assert (order + [f])[..|order|] == order;
  }

  lemma {:induction false} FilesBagInsert(id: IdOf, files: Files, x: seq<string>, f: string, y: seq<string>)
    requires AllIn(x + [f] + y, files)
    requires AllIn(x + y, files)
    requires f in files
    ensures FilesBag(id, files, x + [f] + y) == FilesBag(id, files, x + y) + RawBags(id, KeptOf(files[f]))
  {
    if y == [] {
      assert x + [f] + y == x + [f] && x + y == x;
      FilesBagSnoc(id, files, x, f);
    } else {
      var m := |y| - 1;
      AppendDropLast(x + [f], y);
      AppendDropLast(x, y);
      FilesBagInsert(id, files, x, f, y[..m]);
      FilesBagSnoc(id, files, x + [f] + y[..m], y[m]);
      FilesBagSnoc(id, files, x + y[..m], y[m]);
    }
  }

  lemma {:induction false} FilesBagPermuted(id: IdOf, files: Files, a: seq<string>, b: seq<string>)
    requires multiset(a) == multiset(b)
    requires AllIn(a, files)
    requires AllIn(b, files)
    ensures FilesBag(id, files, a) == FilesBag(id, files, b)
  {
    if a == [] {
      assert |multiset(b)| == 0;
    } else {
      var i := FindLast(a, b);
      FilesBagPermuted(id, files, a[..|a| - 1], b[..i] + b[i + 1..]);
      SplitAt(b, i);
      FilesBagInsert(id, files, b[..i], b[i], b[i + 1..]);
    }
  }

  /** All policies of the files, as collections at every depth. */
  ghost function LoadBag(id: IdOf, files: Files): multiset<Bag> {
    var order := SomeOrder(files.Keys);
    OrderElements(order, files.Keys);
    FilesBag(id, files, order)
  }

  ghost predicate BagAmong(id: IdOf, raws: seq<RawPolicy>, b: Bag) {
    exists raw :: raw in raws && b == RawBag(id, raw)
  }

  lemma BagAmongSnoc(id: IdOf, raws: seq<RawPolicy>, raw: RawPolicy, b: Bag)
    ensures BagAmong(id, raws + [raw], b) <==> BagAmong(id, raws, b) || b == RawBag(id, raw)
  {
    hide RawBag;
    assert raw in raws + [raw];
    assert forall r :: r in raws + [raw] <==> r in raws || r == raw;
  }

  lemma RawBagsSnoc(id: IdOf, raws: seq<RawPolicy>, raw: RawPolicy)
    ensures RawBags(id, raws + [raw]) == RawBags(id, raws) + multiset{RawBag(id, raw)}
  {
    hide RawBag;
    assert (raws + [raw])[..|raws|] == raws;
  }

  lemma {:induction false} RawBagsMember(id: IdOf, raws: seq<RawPolicy>, b: Bag)
    ensures b in RawBags(id, raws) <==> BagAmong(id, raws, b)
  {
    if raws == [] {
    } else {
      hide RawBag, BagAmong;
      var n := |raws| - 1;
      RawBagsMember(id, raws[..n], b);
      DropLast(raws);
      BagAmongSnoc(id, raws[..n], raws[n], b);
      RawBagsSnoc(id, raws[..n], raws[n]);
    }
  }

  ghost predicate BagInFiles(id: IdOf, files: Files, order: seq<string>, b: Bag)
    requires AllIn(order, files)
  {
    exists f :: f in order && b in RawBags(id, KeptOf(files[f]))
  }

  lemma BagInFilesSnoc(id: IdOf, files: Files, order: seq<string>, f: string, b: Bag)
    requires AllIn(order, files) && f in files && AllIn(order + [f], files)
    ensures BagInFiles(id, files, order + [f], b) <==>
            BagInFiles(id, files, order, b) || b in RawBags(id, KeptOf(files[f]))
  {
    hide RawBags, KeptOf;
    assert f in order + [f];
    assert forall x :: x in order + [f] <==> x in order || x == f;
  }

  lemma {:induction false} FilesBagMember(id: IdOf, files: Files, order: seq<string>, b: Bag)
    requires AllIn(order, files)
    ensures b in FilesBag(id, files, order) <==> BagInFiles(id, files, order, b)
  {
    if order == [] {
    } else {
      hide RawBags, KeptOf, FilesBag, BagInFiles;
      var n := |order| - 1;
      DropLast(order);
      FilesBagMember(id, files, order[..n], b);
      FilesBagSnoc(id, files, order[..n], order[n]);
      BagInFilesSnoc(id, files, order[..n], order[n], b);
    }
  }

  /** `b` is the bag of a valid entry of a readable file. */
  ghost predicate BagInFile(id: IdOf, content: Content<RawPolicy>, b: Bag) {
    content.Items? && exists raw :: Some(raw) in content.items && b == RawBag(id, raw)
  }

  lemma FileBagMember(id: IdOf, content: Content<RawPolicy>, b: Bag)
    ensures b in RawBags(id, KeptOf(content)) <==> BagInFile(id, content, b)
  {
    hide RawBag, RawBags, KeptOf;
    RawBagsMember(id, KeptOf(content), b);
    forall raw ensures raw in KeptOf(content) <==> content.Items? && Some(raw) in content.items {
      KeptOfMember(content, raw);
    }
  }

  /** What the files hold is what their readable, valid entries are. */
  lemma LoadBagMember(id: IdOf, files: Files, b: Bag)
    ensures b in LoadBag(id, files) <==> exists f :: f in files && BagInFile(id, files[f], b)
  {
    hide RawBags, KeptOf, BagInFile, FilesBag;
    var order := SomeOrder(files.Keys);
    OrderElements(order, files.Keys);
    FilesBagMember(id, files, order, b);
    forall f | f in files ensures b in RawBags(id, KeptOf(files[f])) <==> BagInFile(id, files[f], b) {
      FileBagMember(id, files[f], b);
    }
  }

  /** What is handed on by any reordering of the loaded policies, whatever the comparator and the
      sort do with it and in whatever order the files were met. */
  lemma LoadHandsOnAll(id: IdOf, files: Files, order: seq<string>, loaded: seq<PolicyTree>, us: seq<PolicyTree>)
    requires IsOrder(order, files.Keys) && AllIn(order, files)
    requires LoadedFrom(id, files, order, loaded) && OrganizedFrom(false, loaded, us)
    ensures BagsOf(us) == LoadBag(id, files)
  {
    hide LoadedFrom, OrganizedFrom, BagsOf, FilesBag;
    LoadedBags(id, files, order, loaded);
    RearrangingKeepsBags(loaded, us);
    OrderElements(SomeOrder(files.Keys), files.Keys);
    FilesBagPermuted(id, files, order, SomeOrder(files.Keys));
  }

  /** Two loads of the same files hand on the same policies, whatever orders they met and
      however each was sorted. */
  lemma LoadIgnoresOrder(id: IdOf, files: Files,
                         order1: seq<string>, loaded1: seq<PolicyTree>, us1: seq<PolicyTree>,
                         order2: seq<string>, loaded2: seq<PolicyTree>, us2: seq<PolicyTree>)
    requires IsOrder(order1, files.Keys) && AllIn(order1, files)
    requires IsOrder(order2, files.Keys) && AllIn(order2, files)
    requires LoadedFrom(id, files, order1, loaded1) && OrganizedFrom(false, loaded1, us1)
    requires LoadedFrom(id, files, order2, loaded2) && OrganizedFrom(false, loaded2, us2)
    ensures BagsOf(us1) == BagsOf(us2)
  {
    LoadHandsOnAll(id, files, order1, loaded1, us1);
    LoadHandsOnAll(id, files, order2, loaded2, us2);
  }
}
