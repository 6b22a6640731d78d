/** internal/service/file_loader.go: merging the registries of all files, and what the result
    contains whatever order files and labels are visited in. */
module ServiceLoader {
  import opened Common
  import opened FileContents
  import opened Addresses
  import opened Services

  type Files = map<string, Content<RawService>>

  ghost predicate FilesWellFormed(files: Files) {
    forall f :: f in files ==> AllWellFormed(KeptOf(files[f]))
  }

  /** The kept triples of all files, in visiting order. */
  ghost function FilesTriples(files: Files, order: seq<string>, withTags: set<string>): seq<Triple>
    requires FilesWellFormed(files) && AllIn(order, files)
  {
    if order == [] then [] else
      FilesTriples(files, order[..|order| - 1], withTags) + Triples(KeptOf(files[order[|order| - 1]]), withTags)
  }

  lemma FilesTriplesSnoc(files: Files, order: seq<string>, f: string, withTags: set<string>)
    requires FilesWellFormed(files) && AllIn(order, files) && AllIn(order + [f], files) && f in files
    ensures FilesTriples(files, order + [f], withTags) ==
        FilesTriples(files, order, withTags) + Triples(KeptOf(files[f]), withTags)
  {
    assert (order + [f])[..|order|] == order;
  }

  // ----- what a registry holds after filing -----

  /** Merging registries is filing one after the other. */
  lemma {:induction false} FiledAppend(s: seq<Emission>, t: seq<Emission>)
    ensures Filed(s + t) == Merge(Filed(s), Filed(t))
  {
    if t == [] {
      assert s + t == s;
      MergeNothing(Filed(s));
    } else {
      var n := |t| - 1;
      var last := map[t[n].key := t[n].labels];
      FiledAppend(s, t[..n]);
      AppendDropLast(s, t);
      FiledSnoc(s + t[..n], t[n]);
      MergeIsAssociative(Filed(s), Filed(t[..n]), last);
    }
  }

  /** The labels filed under `k`: those of every emission for `k`, in order. */
  ghost function LabelsFor(trace: seq<Emission>, k: string): seq<string> {
    if trace == [] then [] else
      LabelsFor(trace[..|trace| - 1], k) + if trace[|trace| - 1].key == k then trace[|trace| - 1].labels else []
  }

  ghost predicate HasKey(trace: seq<Emission>, k: string) {
    exists i :: 0 <= i < |trace| && trace[i].key == k
  }

  lemma HasKeySnoc(trace: seq<Emission>, e: Emission, k: string)
    ensures HasKey(trace + [e], k) <==> HasKey(trace, k) || e.key == k
  {
    if i :| 0 <= i < |trace| && trace[i].key == k {
      assert (trace + [e])[i].key == k;
    }
    if e.key == k {
      assert (trace + [e])[|trace|].key == k;
    }
  }

  lemma {:induction false} FiledKeys(trace: seq<Emission>, k: string)
    ensures k in Filed(trace) <==> HasKey(trace, k)
  {
    if trace == [] {
    } else {
      var n := |trace| - 1;
      FiledKeys(trace[..n], k);
      HasKeySnoc(trace[..n], trace[n], k);
      DropLast(trace);
    }
  }

  lemma {:induction false} FiledLabels(trace: seq<Emission>, k: string)
    ensures At(Filed(trace), k) == LabelsFor(trace, k)
  {
    if trace == [] {
    } else {
      var n := |trace| - 1;
      FiledLabels(trace[..n], k);
      AtMerge(Filed(trace[..n]), map[trace[n].key := trace[n].labels], k);
    }
  }

  /** Under each key the registry holds, in order, the labels of every emission for it. */
  lemma FiledAt(trace: seq<Emission>, k: string)
    ensures k in Filed(trace) <==> HasKey(trace, k)
    ensures At(Filed(trace), k) == LabelsFor(trace, k)
  {
    FiledKeys(trace, k);
    FiledLabels(trace, k);
  }

  // ----- label counts are conserved -----

  function Size(trace: seq<Emission>): nat {
    if trace == [] then 0 else Size(trace[..|trace| - 1]) + |trace[|trace| - 1].labels|
  }

  /** The labels held under the listed keys. */
  function TotalOver(c: Contents, keys: seq<string>): nat {
    if keys == [] then 0 else TotalOver(c, keys[..|keys| - 1]) + |At(c, keys[|keys| - 1])|
  }

  lemma AtAfterOne(c: Contents, e: Emission, k: string)
    ensures |At(Merge(c, map[e.key := e.labels]), k)| == |At(c, k)| + if e.key == k then |e.labels| else 0
  {
    AtMerge(c, map[e.key := e.labels], k);
  }

  ghost predicate NoRepeats(keys: seq<string>) {
    forall i, j :: 0 <= i < j < |keys| ==> keys[i] != keys[j]
  }

  lemma InOneOf(keys: seq<string>, k: string)
    requires keys != [] && NoRepeats(keys)
    ensures keys[|keys| - 1] !in keys[..|keys| - 1]
    ensures k in keys <==> k in keys[..|keys| - 1] || k == keys[|keys| - 1]
  {
    DropLast(keys);
  }

  lemma {:induction false} TotalAfterOne(c: Contents, e: Emission, keys: seq<string>)
    requires NoRepeats(keys)
    ensures TotalOver(Merge(c, map[e.key := e.labels]), keys) ==
        TotalOver(c, keys) + if e.key in keys then |e.labels| else 0
  {
    if keys == [] {
    } else {
      hide Merge, At;
      var n := |keys| - 1;
      TotalAfterOne(c, e, keys[..n]);
      AtAfterOne(c, e, keys[n]);
      InOneOf(keys, e.key);
    }
  }

  lemma {:induction false} TotalOfNothing(keys: seq<string>)
    ensures TotalOver(map[], keys) == 0
  {
    if keys == [] {
    } else {
      TotalOfNothing(keys[..|keys| - 1]);
    }
  }

  lemma {:induction false} TotalIsSize(trace: seq<Emission>, keys: seq<string>)
    requires NoRepeats(keys)
    requires forall i :: 0 <= i < |trace| ==> trace[i].key in keys
    ensures TotalOver(Filed(trace), keys) == Size(trace)
  {
    if trace == [] {
      TotalOfNothing(keys);
    } else {
      var n := |trace| - 1;
      forall i | 0 <= i < n ensures trace[..n][i].key in keys {
        assert trace[..n][i] == trace[i];
      }
      TotalIsSize(trace[..n], keys);
      TotalAfterOne(Filed(trace[..n]), trace[n], keys);
    }
  }

  /** The number of labels the triples bring. */
  function TripleSize(triples: seq<Triple>): nat {
    if triples == [] then 0 else TripleSize(triples[..|triples| - 1]) + |triples[|triples| - 1].labels|
  }

  lemma {:induction false} EmittedSize(trace: seq<Emission>, triples: seq<Triple>)
    requires Emits(trace, triples)
    ensures Size(trace) == TripleSize(triples)
  {
    if trace == [] {
    } else {
      var n := |trace| - 1;
      EmittedSize(trace[..n], triples[..n]);
      var order :| IsLabelOrder(triples[n].labels, order) && trace[n].labels == InOrder(triples[n].labels, order);
      OrderElements(order, triples[n].labels.Keys);
    }
  }

  /** No label is lost or invented: over all its keys the registry holds exactly as many
      labels as the kept triples bring. */
  lemma LabelsAreConserved(trace: seq<Emission>, triples: seq<Triple>, keys: seq<string>)
    requires Emits(trace, triples) && IsOrder(keys, Filed(trace).Keys)
    ensures TotalOver(Filed(trace), keys) == TripleSize(triples)
  {
    OrderElements(keys, Filed(trace).Keys);
    forall i, j | 0 <= i < j < |keys| ensures keys[i] != keys[j] {
      OrderIsInjective(keys, Filed(trace).Keys, i, j);
    }
    forall i | 0 <= i < |trace| ensures trace[i].key in keys {
      FiledAt(trace, trace[i].key);
    }
    TotalIsSize(trace, keys);
    EmittedSize(trace, triples);
  }

  // ----- independence from every visiting order -----

  ghost function LabelBag(labels: map<string, string>): multiset<string> {
    var order := SomeOrder(labels.Keys);
    OrderElements(order, labels.Keys);
    multiset(InOrder(labels, order))
  }

  lemma InOrderSnoc(labels: map<string, string>, order: seq<string>, k: string)
    requires k in labels && forall j :: j in order ==> j in labels
    ensures forall j :: j in order + [k] ==> j in labels
    ensures InOrder(labels, order + [k]) == InOrder(labels, order) + [k + "=" + labels[k]]
  {
  }

  lemma {:induction false} InOrderPermuted(labels: map<string, string>, a: seq<string>, b: seq<string>)
    requires multiset(a) == multiset(b)
    requires forall k :: k in a ==> k in labels
    requires forall k :: k in b ==> k in labels
    ensures multiset(InOrder(labels, a)) == multiset(InOrder(labels, b))
  {
    if a == [] {
      assert |multiset(b)| == 0;
    } else {
      var i := FindLast(a, b);
      var k, x, y := b[i], b[..i], b[i + 1..];
      InOrderPermuted(labels, a[..|a| - 1], x + y);
      DropLast(a);
      InOrderSnoc(labels, a[..|a| - 1], k);
      SplitAt(b, i);
      assert InOrder(labels, b) == InOrder(labels, x) + [k + "=" + labels[k]] + InOrder(labels, y);
      assert InOrder(labels, x + y) == InOrder(labels, x) + InOrder(labels, y);
    }
  }

  lemma FlatteningBag(labels: map<string, string>, flat: seq<string>)
    requires Flattening(labels, flat)
    ensures multiset(flat) == LabelBag(labels)
  {
    var order :| IsLabelOrder(labels, order) && flat == InOrder(labels, order);
    OrderElements(SomeOrder(labels.Keys), labels.Keys);
    InOrderPermuted(labels, order, SomeOrder(labels.Keys));
  }

  /** The labels the triples bring for `k`, as a multiset. */
  ghost function BagFor(triples: seq<Triple>, k: string): multiset<string> {
    if triples == [] then multiset{} else
      BagFor(triples[..|triples| - 1], k) +
      if triples[|triples| - 1].key == k then LabelBag(triples[|triples| - 1].labels) else multiset{}
  }

  lemma {:induction false} EmittedBag(trace: seq<Emission>, triples: seq<Triple>, k: string)
    requires Emits(trace, triples)
    ensures multiset(LabelsFor(trace, k)) == BagFor(triples, k)
  {
    if trace == [] {
    } else {
      var n := |trace| - 1;
      EmittedBag(trace[..n], triples[..n], k);
      FlatteningBag(triples[n].labels, trace[n].labels);
    }
  }

  lemma {:induction false} BagAppend(a: seq<Triple>, b: seq<Triple>, k: string)
    ensures BagFor(a + b, k) == BagFor(a, k) + BagFor(b, k)
  {
    if b == [] {
      assert a + b == a;
    } else {
      var n := |b| - 1;
      BagAppend(a, b[..n], k);
      AppendDropLast(a, b);
      BagSnoc(a + b[..n], b[n], k);
    }
  }

  lemma BagSnoc(a: seq<Triple>, t: Triple, k: string)
    ensures BagFor(a + [t], k) == BagFor(a, k) + if t.key == k then LabelBag(t.labels) else multiset{}
  {
    assert (a + [t])[..|a|] == a;
  }

  lemma {:induction false} FilesTriplesAppend(files: Files, a: seq<string>, b: seq<string>, withTags: set<string>)
    requires FilesWellFormed(files) && AllIn(a, files) && AllIn(b, files) && AllIn(a + b, files)
    ensures FilesTriples(files, a + b, withTags) == FilesTriples(files, a, withTags) + FilesTriples(files, b, withTags)
  {
    if b == [] {
      assert a + b == a;
    } else {
      var n := |b| - 1;
      FilesTriplesAppend(files, a, b[..n], withTags);
      AppendDropLast(a, b);
      FilesTriplesSnoc(files, a + b[..n], b[n], withTags);
      var last := Triples(KeptOf(files[b[n]]), withTags);
      Assoc(FilesTriples(files, a, withTags), FilesTriples(files, b[..n], withTags), last);
    }
  }

  lemma {:induction false} BagPermuted(a: seq<Triple>, b: seq<Triple>, k: string)
    requires multiset(a) == multiset(b)
    ensures BagFor(a, k) == BagFor(b, k)
  {
    if a == [] {
      assert |multiset(b)| == 0;
    } else {
      hide LabelBag;
      var i := FindLast(a, b);
      BagPermuted(a[..|a| - 1], b[..i] + b[i + 1..], k);
      SplitAt(b, i);
      DropLast(a);
      BagSnoc(a[..|a| - 1], b[i], k);
      BagAppend(b[..i] + [b[i]], b[i + 1..], k);
      BagAppend(b[..i], b[i + 1..], k);
      BagSnoc(b[..i], b[i], k);
    }
  }

  lemma FilesTriplesInsert(files: Files, x: seq<string>, f: string, y: seq<string>, withTags: set<string>)
    requires FilesWellFormed(files) && AllIn(x + [f] + y, files) && AllIn(x + y, files)
    requires AllIn(x, files) && AllIn([f], files) && AllIn(y, files) && AllIn(x + [f], files)
    ensures multiset(FilesTriples(files, x + [f] + y, withTags))
         == multiset(FilesTriples(files, x + y, withTags)) + multiset(FilesTriples(files, [f], withTags))
  {
    hide FilesTriples, AllIn;
    FilesTriplesAppend(files, x + [f], y, withTags);
    FilesTriplesAppend(files, x, [f], withTags);
    FilesTriplesAppend(files, x, y, withTags);
  }

  /** Visiting the files in another order permutes the triples. */
  lemma {:induction false} FilesTriplesPermuted(files: Files, a: seq<string>, b: seq<string>, withTags: set<string>)
    requires FilesWellFormed(files) && AllIn(a, files) && AllIn(b, files) && multiset(a) == multiset(b)
    ensures multiset(FilesTriples(files, a, withTags)) == multiset(FilesTriples(files, b, withTags))
  {
    if a == [] {
      assert |multiset(b)| == 0;
    } else {
      var i := FindLast(a, b);
      var n := |a| - 1;
      FilesTriplesPermuted(files, a[..n], b[..i] + b[i + 1..], withTags);
      hide FilesTriples;
      DropLast(a);
      SplitAt(b, i);
      FilesTriplesAppend(files, a[..n], [a[n]], withTags);
      FilesTriplesInsert(files, b[..i], b[i], b[i + 1..], withTags);
    }
  }

  // ----- a resolver that answers in another order -----

  ghost predicate SameAddress(a: Address, b: Address) {
    a.tags == b.tags && multiset(a.resolved) == multiset(b.resolved)
  }

  ghost predicate SameService(a: RawService, b: RawService) {
    && a.labels == b.labels && |a.addresses| == |b.addresses|
    && forall i :: 0 <= i < |a.addresses| ==> SameAddress(a.addresses[i], b.addresses[i])
  }

  ghost predicate SameServices(a: seq<RawService>, b: seq<RawService>) {
    |a| == |b| && forall i :: 0 <= i < |a| ==> SameService(a[i], b[i])
  }

  /** The same entries, for which the resolver gave the same addresses, each in some order. */
  ghost predicate SameFiles(a: Files, b: Files) {
    a.Keys == b.Keys && forall f :: f in a ==> SameServices(KeptOf(a[f]), KeptOf(b[f]))
  }

  ghost predicate ResolvedWellFormed(resolved: seq<AddrPort>) {
    forall j :: 0 <= j < |resolved| ==> WellFormedPort(resolved[j])
  }

  lemma OfResolvedSnoc(labels: map<string, string>, a: seq<AddrPort>, x: AddrPort)
    requires ResolvedWellFormed(a + [x]) && ResolvedWellFormed(a) && WellFormedPort(x)
    ensures OfResolved(labels, a + [x]) == OfResolved(labels, a) + [Triple(AddressToString(x), labels)]
  {
    hide AddressToString, WellFormedPort;
  }

  lemma OfResolvedInsert(labels: map<string, string>, a: seq<AddrPort>, x: AddrPort, b: seq<AddrPort>)
    requires ResolvedWellFormed(a + [x] + b) && ResolvedWellFormed(a + b) && WellFormedPort(x)
    ensures multiset(OfResolved(labels, a + [x] + b))
         == multiset(OfResolved(labels, a + b)) + multiset{Triple(AddressToString(x), labels)}
  {
    hide AddressToString, WellFormedPort;
    var t := OfResolved(labels, a + [x] + b);
    SplitAt(t, |a|);
    assert t[..|a|] + t[|a| + 1..] == OfResolved(labels, a + b);
  }

  lemma {:induction false} OfResolvedPermuted(labels: map<string, string>, a: seq<AddrPort>, b: seq<AddrPort>)
    requires ResolvedWellFormed(a) && ResolvedWellFormed(b) && multiset(a) == multiset(b)
    ensures multiset(OfResolved(labels, a)) == multiset(OfResolved(labels, b))
  {
    if a == [] {
      assert |multiset(b)| == 0;
    } else {
      hide AddressToString, WellFormedPort;
      var i := FindLast(a, b);
      var n := |a| - 1;
      OfResolvedPermuted(labels, a[..n], b[..i] + b[i + 1..]);
      DropLast(a);
      OfResolvedSnoc(labels, a[..n], a[n]);
      SplitAt(b, i);
      OfResolvedInsert(labels, b[..i], b[i], b[i + 1..]);
    }
  }

  lemma SameTagsSameWanted(a: Address, b: Address, withTags: set<string>)
    ensures a.tags == b.tags ==> Wanted(a, withTags) == Wanted(b, withTags)
  {
  }

  /** What one address adds. */
  ghost function OfAddress(svc: RawService, i: nat, withTags: set<string>): seq<Triple>
    requires WellFormedService(svc) && i < |svc.addresses|
  {
    if Wanted(svc.addresses[i], withTags) then OfResolved(svc.labels, svc.addresses[i].resolved) else []
  }

  lemma OfAddressNext(svc: RawService, i: nat, withTags: set<string>)
    requires WellFormedService(svc) && i < |svc.addresses|
    ensures OfAddresses(svc, i + 1, withTags) == OfAddresses(svc, i, withTags) + OfAddress(svc, i, withTags)
  {
    hide Wanted, OfResolved;
  }

  lemma OfAddressSame(a: RawService, b: RawService, i: nat, withTags: set<string>)
    requires WellFormedService(a) && WellFormedService(b) && SameService(a, b) && i < |a.addresses|
    ensures multiset(OfAddress(a, i, withTags)) == multiset(OfAddress(b, i, withTags))
  {
    assert SameAddress(a.addresses[i], b.addresses[i]);
    SameTagsSameWanted(a.addresses[i], b.addresses[i], withTags);
    OfResolvedPermuted(a.labels, a.addresses[i].resolved, b.addresses[i].resolved);
    hide Wanted, OfResolved, WellFormedPort;
  }

  lemma SumsAgree(x: seq<Triple>, y: seq<Triple>, u: seq<Triple>, v: seq<Triple>)
    requires multiset(x) == multiset(u) && multiset(y) == multiset(v)
    ensures multiset(x + y) == multiset(u + v)
  {
  }

  lemma {:induction false} OfAddressesSame(a: RawService, b: RawService, n: nat, withTags: set<string>)
    requires WellFormedService(a) && WellFormedService(b) && SameService(a, b) && n <= |a.addresses| == |b.addresses|
    ensures multiset(OfAddresses(a, n, withTags)) == multiset(OfAddresses(b, n, withTags))
  {
    if n == 0 {
    } else {
      hide OfAddress, OfAddresses, WellFormedService, SameService;
      var m := n - 1;
      OfAddressesSame(a, b, m, withTags);
      OfAddressNext(a, m, withTags);
      OfAddressNext(b, m, withTags);
      OfAddressSame(a, b, m, withTags);
      SumsAgree(OfAddresses(a, m, withTags), OfAddress(a, m, withTags),
                OfAddresses(b, m, withTags), OfAddress(b, m, withTags));
    }
  }

  lemma {:induction false} TriplesSame(a: seq<RawService>, b: seq<RawService>, withTags: set<string>)
    requires AllWellFormed(a) && AllWellFormed(b) && SameServices(a, b)
    ensures multiset(Triples(a, withTags)) == multiset(Triples(b, withTags))
  {
    if a == [] {
    } else {
      hide OfAddresses, WellFormedService;
      var n := |a| - 1;
      TriplesSame(a[..n], b[..n], withTags);
      assert SameService(a[n], b[n]);
      OfAddressesSame(a[n], b[n], |a[n].addresses|, withTags);
    }
  }

  lemma {:induction false} FilesTriplesSame(a: Files, b: Files, order: seq<string>, withTags: set<string>)
    requires FilesWellFormed(a) && FilesWellFormed(b) && SameFiles(a, b) && AllIn(order, a) && AllIn(order, b)
    ensures multiset(FilesTriples(a, order, withTags)) == multiset(FilesTriples(b, order, withTags))
  {
    if order == [] {
    } else {
      hide Triples, KeptOf, AllWellFormed;
      var n := |order| - 1;
      FilesTriplesSame(a, b, order[..n], withTags);
      TriplesSame(KeptOf(a[order[n]]), KeptOf(b[order[n]]), withTags);
    }
  }

  /** A key is filed exactly when a kept triple resolves to it. */
  lemma KeysAreTheTriples(trace: seq<Emission>, triples: seq<Triple>, k: string)
    requires Emits(trace, triples)
    ensures k in Filed(trace) <==> exists t :: t in triples && t.key == k
  {
    FiledAt(trace, k);
    if t :| t in triples && t.key == k {
      var i :| 0 <= i < |triples| && triples[i] == t;
      assert trace[i].key == k;
    }
    if i :| 0 <= i < |trace| && trace[i].key == k {
      assert triples[i] in triples;
    }
  }

  lemma SameTriplesSameContents(trace1: seq<Emission>, triples1: seq<Triple>, trace2: seq<Emission>,
                                triples2: seq<Triple>,
                                k: string)
    requires Emits(trace1, triples1) && Emits(trace2, triples2) && multiset(triples1) == multiset(triples2)
    ensures k in Filed(trace1) <==> k in Filed(trace2)
    ensures multiset(At(Filed(trace1), k)) == multiset(At(Filed(trace2), k)) == BagFor(triples1, k)
  {
    hide Emits, Filed, LabelsFor, BagFor;
    KeysAreTheTriples(trace1, triples1, k);
    KeysAreTheTriples(trace2, triples2, k);
    assert forall t :: t in triples1 <==> t in multiset(triples1);
    assert forall t :: t in triples2 <==> t in multiset(triples2);
    FiledAt(trace1, k);
    FiledAt(trace2, k);
    EmittedBag(trace1, triples1, k);
    EmittedBag(trace2, triples2, k);
    BagPermuted(triples1, triples2, k);
  }

  /** Two loads of the same files, whatever orders they met files, labels and the resolver's
      answers in: the same keys, and under each key the same labels as a multiset. */
  lemma LoadIgnoresOrder(files1: Files, order1: seq<string>, trace1: seq<Emission>,
                         files2: Files, order2: seq<string>, trace2: seq<Emission>, withTags: set<string>, k: string)
    requires FilesWellFormed(files1) && AllIn(order1, files1) && IsOrder(order1, files1.Keys)
    requires FilesWellFormed(files2) && AllIn(order2, files2) && IsOrder(order2, files2.Keys)
    requires SameFiles(files1, files2)
    requires Emits(trace1, FilesTriples(files1, order1, withTags))
    requires Emits(trace2, FilesTriples(files2, order2, withTags))
    ensures k in Filed(trace1) <==> k in Filed(trace2)
    ensures multiset(At(Filed(trace1), k)) == multiset(At(Filed(trace2), k))
         == BagFor(FilesTriples(files1, order1, withTags), k)
  {
    hide Emits, Filed, FilesTriples, FilesWellFormed, BagFor;
    FilesTriplesSame(files1, files2, order1, withTags);
    FilesTriplesPermuted(files2, order1, order2, withTags);
    var triples1, triples2 := FilesTriples(files1, order1, withTags), FilesTriples(files2, order2, withTags);
    SameTriplesSameContents(trace1, triples1, trace2, triples2, k);
  }

  // ----- which triples there are -----

  /** `t` is filed for a valid entry of a readable file. */
  ghost predicate FiledForFile(content: Content<RawService>, withTags: set<string>, t: Triple) {
    content.Items? && exists svc :: Some(svc) in content.items && FiledForSome(svc, withTags, t)
  }

  lemma FileTriplesMember(content: Content<RawService>, withTags: set<string>, t: Triple)
    requires AllWellFormed(KeptOf(content))
    ensures t in Triples(KeptOf(content), withTags) <==> FiledForFile(content, withTags, t)
  {
    hide FiledForSome, KeptOf, Triples, AllWellFormed;
    TriplesMember(KeptOf(content), withTags, t);
    forall svc ensures svc in KeptOf(content) <==> content.Items? && Some(svc) in content.items {
      KeptOfMember(content, svc);
    }
  }

  ghost predicate FiledForFiles(files: Files, order: seq<string>, withTags: set<string>, t: Triple)
    requires AllIn(order, files)
  {
    exists f :: f in order && FiledForFile(files[f], withTags, t)
  }

  lemma FiledForFilesSnoc(files: Files, order: seq<string>, f: string, withTags: set<string>, t: Triple)
    requires AllIn(order, files) && f in files && AllIn(order + [f], files)
    ensures FiledForFiles(files, order + [f], withTags, t) <==>
            FiledForFiles(files, order, withTags, t) || FiledForFile(files[f], withTags, t)
  {
    hide FiledForFile;
    assert f in order + [f];
    assert forall x :: x in order + [f] <==> x in order || x == f;
  }

  /** The triples of a load are those of the valid entries of its readable files. */
  lemma {:induction false} FilesTriplesMember(files: Files, order: seq<string>, withTags: set<string>, t: Triple)
    requires FilesWellFormed(files) && AllIn(order, files)
    ensures t in FilesTriples(files, order, withTags) <==> FiledForFiles(files, order, withTags, t)
  {
    if order == [] {
    } else {
      hide FiledForFile, FiledForFiles, FilesTriples, KeptOf, Triples, AllWellFormed;
      var n := |order| - 1;
      DropLast(order);
      FilesTriplesMember(files, order[..n], withTags, t);
      FilesTriplesSnoc(files, order[..n], order[n], withTags);
      FileTriplesMember(files[order[n]], withTags, t);
      FiledForFilesSnoc(files, order[..n], order[n], withTags, t);
    }
  }

  // ----- the loader -----

  method Unmarshal(content: Content<RawService>, withTags: set<string>)
    returns (r: Result<Registry, string>, ghost trace: seq<Emission>)
    requires AllWellFormed(KeptOf(content))
    ensures r.Ok? <==> content.Items?
    ensures r.Ok? ==> fresh(r.value) && fresh(r.value.entries.Values) && r.value.Unshared()
    ensures r.Ok? ==> Emits(trace, Triples(KeptOf(content), withTags)) && r.value.Contents() == Filed(trace)
  {
    match content {
      case Unparsable =>
        return Err("could not parse"), [];
      case Items(items) =>
        var raws := Decode(items);
        var entries;
        entries, trace := ConvertEntries(raws, withTags);
        r := Ok(entries);
    }
  }

  lemma SkippedFile(files: Files, order: seq<string>, f: string, withTags: set<string>)
    requires FilesWellFormed(files) && AllIn(order, files) && AllIn(order + [f], files)
    requires f in files && files[f].Unparsable?
    ensures FilesTriples(files, order + [f], withTags) == FilesTriples(files, order, withTags)
  {
    FilesTriplesSnoc(files, order, f, withTags);
  }

  lemma NothingLoaded(files: Files, withTags: set<string>)
    requires FilesWellFormed(files)
    ensures Filed([]) == map[] && Emits([], FilesTriples(files, [], withTags)) && Triples([], withTags) == []
  {
  }

  /** One load: the registries of all readable files, merged in visiting order. */
  method Run(files: Files, withTags: set<string>)
    returns (services: Registry, ghost order: seq<string>, ghost trace: seq<Emission>)
    requires FilesWellFormed(files)
    ensures IsOrder(order, files.Keys) && AllIn(order, files)
    ensures Emits(trace, FilesTriples(files, order, withTags))
    ensures fresh(services) && services.Unshared() && services.Contents() == Filed(trace)
  {
    hide Filed, Merge, Injective, Triples, FilesTriples, Emits, Registry.Contents, KeptOf;
    services := new Registry();
    order, trace := [], [];
    NothingLoaded(files, withTags);
    var remaining := files.Keys;
    while remaining != {}
      invariant remaining <= files.Keys
      invariant multiset(order) + multiset(remaining) == multiset(files.Keys)
      invariant AllIn(order, files) && Emits(trace, FilesTriples(files, order, withTags))
      invariant fresh(services) && fresh(services.entries.Values)
      invariant services.Unshared() && services.Contents() == Filed(trace)
      decreases remaining
    {
      var f :| f in remaining;
      var r, more := Unmarshal(files[f], withTags);
      FilesTriplesSnoc(files, order, f, withTags);
      assert multiset(remaining) == multiset(remaining - {f}) + multiset{f};
      ghost var before := order;
      order, remaining := order + [f], remaining - {f};
      if r.Err? {
        SkippedFile(files, before, f, withTags);
        continue;
      }
      MergeEntries(services, r.value);
      FiledAppend(trace, more);
      EmitsAppend(trace, FilesTriples(files, before, withTags), more, Triples(KeptOf(files[f]), withTags));
      trace := trace + more;
    }
  }
}
