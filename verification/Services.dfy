/** internal/service: compiling service entries into a registry of labels per address key. */
module Services {
  import opened Common
  import opened Addresses

  /** What a registry holds: the labels of each address key. */
  type Contents = map<string, seq<string>>

  function At(c: Contents, k: string): seq<string> {
    if k in c then c[k] else []
  }

  /** Keys of both, the labels of the second after those of the first. */
  function Merge(a: Contents, b: Contents): (c: Contents)
    ensures c.Keys == a.Keys + b.Keys
  {
    map k | k in a.Keys + b.Keys :: At(a, k) + At(b, k)
  }

  lemma AtMerge(a: Contents, b: Contents, k: string)
    ensures At(Merge(a, b), k) == At(a, k) + At(b, k)
  {
  }

  lemma SameContents(a: Contents, b: Contents)
    requires a.Keys == b.Keys && forall k :: k in a ==> At(a, k) == At(b, k)
    ensures a == b
  {
    assert forall k :: k in a ==> a[k] == At(a, k) == At(b, k) == b[k];
  }

  lemma MergeIsAssociative(a: Contents, b: Contents, c: Contents)
    ensures Merge(Merge(a, b), c) == Merge(a, Merge(b, c))
  {
    var x, y := Merge(Merge(a, b), c), Merge(a, Merge(b, c));
    forall k | k in x ensures At(x, k) == At(y, k) {
      AtMerge(Merge(a, b), c, k);
      AtMerge(a, b, k);
      AtMerge(a, Merge(b, c), k);
      AtMerge(b, c, k);
      Assoc(At(a, k), At(b, k), At(c, k));
    }
    SameContents(x, y);
  }

  lemma MergeNothing(a: Contents)
    ensures Merge(a, map[]) == a == Merge(map[], a)
  {
    forall k ensures At(Merge(a, map[]), k) == At(a, k) == At(Merge(map[], a), k) {
      AtMerge(a, map[], k);
      AtMerge(map[], a, k);
    }
    SameContents(Merge(a, map[]), a);
    SameContents(Merge(map[], a), a);
  }

  class Service {
    var labels: seq<string>

    constructor (labels: seq<string>)
      ensures this.labels == labels
    {
      this.labels := labels;
    }
  }

  ghost predicate Injective(m: map<string, Service>) {
    forall j, k :: j in m && k in m && j != k ==> m[j] != m[k]
  }

  /** The first map's services where it has some, the second's elsewhere. */
  lemma InjectiveSum(was: map<string, Service>, more: map<string, Service>)
    requires Injective(was) && Injective(more) && was.Values !! more.Values
    ensures Injective(more + was) && (more + was).Values <= was.Values + more.Values
  {
    forall j, k | j in more + was && k in more + was && j != k ensures (more + was)[j] != (more + was)[k] {
      assert j in was ==> was[j] in was.Values;
      assert k in was ==> was[k] in was.Values;
      assert j in more ==> more[j] in more.Values;
      assert k in more ==> more[k] in more.Values;
    }
  }

  class Registry {
    var entries: map<string, Service>

    constructor ()
      ensures entries == map[] && Unshared() && Contents() == map[]
    {
      entries := map[];
    }

    constructor Single(k: string, s: Service)
      ensures entries == map[k := s] && Unshared() && Contents() == map[k := s.labels]
    {
      entries := map[k := s];
    }

    /** No service object is filed under two keys. */
    ghost predicate Unshared()
      reads this
    {
      Injective(entries)
    }

    ghost function Contents(): Contents
      reads this, entries.Values
    {
      map k | k in entries :: entries[k].labels
    }

    lemma Holds(c: Contents)
      requires entries.Keys == c.Keys && forall k :: k in c ==> entries[k].labels == At(c, k)
      ensures Contents() == c
    {
    }
  }

  /** Midway through a merge of `more` (contents b) into `was` (contents a). */
  ghost predicate Merging(l: Registry, was: map<string, Service>, more: map<string, Service>, a: Contents,
                          b: Contents, remaining: set<string>)
    reads l, was.Values, more.Values
  {
    && remaining <= more.Keys && l.entries == (more - remaining) + was
    && (forall k :: k in was ==> was[k].labels == At(a, k) + if k in remaining then [] else At(b, k))
    && (forall k :: k in more ==> more[k].labels == At(b, k))
  }

  method MergeOne(l: Registry, k: string, e: Service,
                  ghost was: map<string, Service>, ghost more: map<string, Service>, ghost a: Contents,
                  ghost b: Contents, ghost remaining: set<string>)
    requires Merging(l, was, more, a, b, remaining) && k in remaining && more[k] == e
    requires Injective(was) && was.Values !! more.Values
    modifies l, was.Values
    ensures Merging(l, was, more, a, b, remaining - {k})
  {
    TakeOne(more, remaining, was, k);
    if k !in l.entries {
      l.entries := l.entries[k := e];
    } else {
      Separate(was, more, k);
      l.entries[k].labels := l.entries[k].labels + e.labels;
    }
  }

  lemma MergedAt(l: Registry, was: map<string, Service>, more: map<string, Service>, a: Contents, b: Contents,
                 k: string)
    requires Merging(l, was, more, a, b, {}) && l.entries == more + was
    requires a.Keys == was.Keys && b.Keys == more.Keys && k in was.Keys + more.Keys
    ensures k in l.entries && l.entries[k].labels == At(Merge(a, b), k)
  {
    AtMerge(a, b, k);
  }

  lemma Merged(l: Registry, was: map<string, Service>, more: map<string, Service>, a: Contents, b: Contents)
    requires Merging(l, was, more, a, b, {})
    requires a.Keys == was.Keys && b.Keys == more.Keys
    ensures l.entries == more + was && l.Contents() == Merge(a, b)
  {
    TakeNoneOrAll(more, was);
    forall k | k in was.Keys + more.Keys ensures l.entries[k].labels == At(Merge(a, b), k) {
      MergedAt(l, was, more, a, b, k);
    }
    l.Holds(Merge(a, b));
  }

  /** `l` takes over the services of `r` under new keys and appends the labels of the others.
      Nothing of `r` changes, and no service ends up under two keys. */
  method MergeEntries(l: Registry, r: Registry)
    requires l != r && l.Unshared() && r.Unshared() && l.entries.Values !! r.entries.Values
    modifies l, l.entries.Values
    ensures l.Contents() == Merge(old(l.Contents()), old(r.Contents()))
    ensures l.Unshared() && l.entries.Values <= old(l.entries.Values) + r.entries.Values
    ensures r.entries == old(r.entries) && r.Contents() == old(r.Contents())
  {
    hide Merge, Injective;
    ghost var was, more, a, b := l.entries, r.entries, l.Contents(), r.Contents();
    var remaining := r.entries.Keys;
    TakeNoneOrAll(more, was);
    while remaining != {}
      invariant r.entries == more && Merging(l, was, more, a, b, remaining)
      decreases remaining
    {
      var k :| k in remaining;
      MergeOne(l, k, r.entries[k], was, more, a, b, remaining);
      remaining := remaining - {k};
    }
    Merged(l, was, more, a, b);
    InjectiveSum(was, more);
    r.Holds(b);
  }

  lemma TakeNoneOrAll(more: map<string, Service>, was: map<string, Service>)
    ensures (more - more.Keys) + was == was && (more - {}) + was == more + was
  {
    assert more - more.Keys == map[] && more - {} == more;
  }

  lemma TakeOne(more: map<string, Service>, remaining: set<string>, was: map<string, Service>, k: string)
    requires remaining <= more.Keys && k in remaining
    ensures var now, next := (more - remaining) + was, (more - (remaining - {k})) + was;
            (k in now <==> k in was) && next == if k in was then now else now[k := more[k]]
  {
  }

  lemma Separate(was: map<string, Service>, more: map<string, Service>, k: string)
    requires Injective(was) && was.Values !! more.Values && k in was
    ensures was[k] in was.Values
    ensures forall j :: j in more ==> more[j] != was[k]
    ensures forall j :: j in was && j != k ==> was[j] != was[k]
  {
    assert was[k] in was.Values;
    assert forall j :: j in more ==> more[j] in more.Values;
  }

  // ----- entries -----

  /** A decoded address entry, with what the resolver answered for it. */
  datatype Address = Address(tags: seq<string>, resolved: seq<AddrPort>)

  datatype RawService = RawService(labels: map<string, string>, addresses: seq<Address>)

  ghost predicate WellFormedService(svc: RawService) {
    forall i, j :: 0 <= i < |svc.addresses| && 0 <= j < |svc.addresses[i].resolved| ==>
      WellFormedPort(svc.addresses[i].resolved[j])
  }

  /** An untagged address is always kept, and so is every address when no tags are asked for. */
  ghost predicate Wanted(address: Address, withTags: set<string>) {
    address.tags == [] || withTags == {} || exists i :: 0 <= i < |address.tags| && address.tags[i] in withTags
  }

  method FilterAddressByTag(address: Address, withTags: set<string>) returns (r: bool)
    ensures r <==> Wanted(address, withTags)
  {
    if |address.tags| == 0 || |withTags| == 0 {
      return true;
    }
    var found := false;
    for i := 0 to |address.tags|
      invariant found <==> exists j :: 0 <= j < i && address.tags[j] in withTags
    {
      if address.tags[i] in withTags {
        found := true;
      }
    }
    return found;
  }

  /** `flat` lists every label of `labels` once, as "key=value". */
  ghost predicate Flattening(labels: map<string, string>, flat: seq<string>) {
    exists order :: IsLabelOrder(labels, order) && flat == InOrder(labels, order)
  }

  ghost predicate IsLabelOrder(labels: map<string, string>, order: seq<string>) {
    IsOrder(order, labels.Keys) && forall k :: k in order ==> k in labels
  }

  function InOrder(labels: map<string, string>, order: seq<string>): seq<string>
    requires forall k :: k in order ==> k in labels
  {
    seq(|order|, i requires 0 <= i < |order| => order[i] + "=" + labels[order[i]])
  }

  /** A flattening holds "key=value" for every label, and nothing else. */
  lemma FlatteningHolds(labels: map<string, string>, flat: seq<string>, pair: string)
    requires Flattening(labels, flat)
    ensures |flat| == |labels|
    ensures pair in flat <==> exists k :: k in labels && pair == k + "=" + labels[k]
  {
    var order :| IsLabelOrder(labels, order) && flat == InOrder(labels, order);
    OrderElements(order, labels.Keys);
    assert |labels| == |labels.Keys|;
    if k :| k in labels && pair == k + "=" + labels[k] {
      var i :| 0 <= i < |order| && order[i] == k;
      assert flat[i] == pair;
    }
    if i :| 0 <= i < |flat| && flat[i] == pair {
      assert order[i] in labels;
    }
  }

  method FlattenLabels(labels: map<string, string>) returns (flat: seq<string>)
    ensures Flattening(labels, flat)
  {
    flat := [];
    ghost var order: seq<string> := [];
    var remaining := labels.Keys;
    while remaining != {}
      invariant remaining <= labels.Keys
      invariant multiset(order) + multiset(remaining) == multiset(labels.Keys)
      invariant forall k :: k in order ==> k in labels
      invariant flat == InOrder(labels, order)
      decreases |remaining|
    {
      var k :| k in remaining;
      assert multiset(remaining) == multiset(remaining - {k}) + multiset{k};
      flat := flat + [k + "=" + labels[k]];
      order := order + [k];
      remaining := remaining - {k};
    }
    assert IsLabelOrder(labels, order);
  }

  /** One kept (service, address, resolved address): a key and the labels to file under it. */
  datatype Triple = Triple(key: string, labels: map<string, string>)

  ghost function OfResolved(labels: map<string, string>, resolved: seq<AddrPort>): seq<Triple>
    requires forall j :: 0 <= j < |resolved| ==> WellFormedPort(resolved[j])
  {
    seq(|resolved|, j requires 0 <= j < |resolved| => Triple(AddressToString(resolved[j]), labels))
  }

  ghost function OfAddresses(svc: RawService, n: nat, withTags: set<string>): seq<Triple>
    requires WellFormedService(svc) && n <= |svc.addresses|
  {
    if n == 0 then [] else
      OfAddresses(svc, n - 1, withTags) +
      if Wanted(svc.addresses[n - 1], withTags) then OfResolved(svc.labels, svc.addresses[n - 1].resolved) else []
  }

  /** Entries without labels or without addresses are skipped. */
  ghost function OfService(svc: RawService, withTags: set<string>): seq<Triple>
    requires WellFormedService(svc)
  {
    if svc.labels == map[] || svc.addresses == [] then [] else OfAddresses(svc, |svc.addresses|, withTags)
  }

  ghost predicate AllWellFormed(raws: seq<RawService>) {
    forall i :: 0 <= i < |raws| ==> WellFormedService(raws[i])
  }

  ghost function Triples(raws: seq<RawService>, withTags: set<string>): seq<Triple>
    requires AllWellFormed(raws)
  {
    if raws == [] then [] else
      Triples(raws[..|raws| - 1], withTags) + OfService(raws[|raws| - 1], withTags)
  }

  /** One address of a service: without labels nothing is filed; with tags of its own, and tags asked
      for, it needs one of those. */
  ghost predicate FiledFor(svc: RawService, withTags: set<string>, address: Address, t: Triple) {
    && address in svc.addresses && svc.labels != map[] && t.labels == svc.labels
    && (address.tags != [] && withTags != {} ==> exists tag :: tag in address.tags && tag in withTags)
    && exists a :: a in address.resolved && WellFormedPort(a) && t.key == AddressToString(a)
  }

  ghost predicate FiledForSome(svc: RawService, withTags: set<string>, t: Triple) {
    exists address :: FiledFor(svc, withTags, address, t)
  }

  lemma OfResolvedMember(labels: map<string, string>, resolved: seq<AddrPort>, t: Triple)
    requires forall j :: 0 <= j < |resolved| ==> WellFormedPort(resolved[j])
    ensures t in OfResolved(labels, resolved) <==>
            t.labels == labels && exists a :: a in resolved && WellFormedPort(a) && t.key == AddressToString(a)
  {
    hide AddressToString, WellFormedPort;
    if a :| a in resolved && WellFormedPort(a) && t.labels == labels && t.key == AddressToString(a) {
      var j :| 0 <= j < |resolved| && resolved[j] == a;
      assert OfResolved(labels, resolved)[j] == t;
    }
    if t in OfResolved(labels, resolved) {
      var j :| 0 <= j < |resolved| && OfResolved(labels, resolved)[j] == t;
      assert resolved[j] in resolved;
    }
  }

  lemma WantedByTag(address: Address, withTags: set<string>)
    ensures Wanted(address, withTags) <==>
            (address.tags != [] && withTags != {} ==> exists tag :: tag in address.tags && tag in withTags)
  {
    if tag :| tag in address.tags && tag in withTags {
      var i :| 0 <= i < |address.tags| && address.tags[i] == tag;
    }
    if i :| 0 <= i < |address.tags| && address.tags[i] in withTags {
      assert address.tags[i] in address.tags;
    }
  }

  lemma FiledForIs(svc: RawService, withTags: set<string>, address: Address, t: Triple)
    requires WellFormedService(svc) && svc.labels != map[] && address in svc.addresses
    ensures FiledFor(svc, withTags, address, t) <==>
            Wanted(address, withTags) && t in OfResolved(svc.labels, address.resolved)
  {
    WantedByTag(address, withTags);
    OfResolvedMember(svc.labels, address.resolved, t);
    hide OfResolved, Wanted, AddressToString, WellFormedPort;
  }

  ghost predicate FiledUpTo(svc: RawService, n: nat, withTags: set<string>, t: Triple)
    requires n <= |svc.addresses|
  {
    exists i :: 0 <= i < n && FiledFor(svc, withTags, svc.addresses[i], t)
  }

  lemma FiledUpToNext(svc: RawService, n: nat, withTags: set<string>, t: Triple)
    requires n < |svc.addresses|
    ensures FiledUpTo(svc, n + 1, withTags, t) <==>
            FiledUpTo(svc, n, withTags, t) || FiledFor(svc, withTags, svc.addresses[n], t)
  {
    hide FiledFor;
  }

  lemma {:induction false} OfAddressesMember(svc: RawService, n: nat, withTags: set<string>, t: Triple)
    requires WellFormedService(svc) && n <= |svc.addresses| && svc.labels != map[]
    ensures t in OfAddresses(svc, n, withTags) <==> FiledUpTo(svc, n, withTags, t)
  {
    if n == 0 {
    } else {
      OfAddressesMember(svc, n - 1, withTags, t);
      FiledUpToNext(svc, n - 1, withTags, t);
      FiledForIs(svc, withTags, svc.addresses[n - 1], t);
      hide OfResolved, Wanted, FiledFor, FiledUpTo, WellFormedService;
    }
  }

  lemma OfServiceMember(svc: RawService, withTags: set<string>, t: Triple)
    requires WellFormedService(svc)
    ensures t in OfService(svc, withTags) <==> FiledForSome(svc, withTags, t)
  {
    if svc.labels != map[] {
      OfAddressesMember(svc, |svc.addresses|, withTags, t);
      hide FiledFor, OfAddresses;
      if address :| address in svc.addresses && FiledFor(svc, withTags, address, t) {
        var i :| 0 <= i < |svc.addresses| && svc.addresses[i] == address;
      }
    }
  }

  ghost predicate FiledForAny(raws: seq<RawService>, withTags: set<string>, t: Triple) {
    exists svc :: svc in raws && FiledForSome(svc, withTags, t)
  }

  lemma FiledForAnySnoc(raws: seq<RawService>, svc: RawService, withTags: set<string>, t: Triple)
    ensures FiledForAny(raws + [svc], withTags, t) <==> FiledForAny(raws, withTags, t) || FiledForSome(svc, withTags, t)
  {
    hide FiledForSome;
    assert svc in raws + [svc];
    assert forall x :: x in raws + [svc] <==> x in raws || x == svc;
  }

  lemma TriplesSnoc(raws: seq<RawService>, svc: RawService, withTags: set<string>)
    requires AllWellFormed(raws) && WellFormedService(svc) && AllWellFormed(raws + [svc])
    ensures Triples(raws + [svc], withTags) == Triples(raws, withTags) + OfService(svc, withTags)
  {
    hide OfService, WellFormedService;
    assert (raws + [svc])[..|raws|] == raws;
  }

  /** A triple is filed exactly if some address of some entry asks for it. */
  lemma {:induction false} TriplesMember(raws: seq<RawService>, withTags: set<string>, t: Triple)
    requires AllWellFormed(raws)
    ensures t in Triples(raws, withTags) <==> FiledForAny(raws, withTags, t)
  {
    if raws == [] {
    } else {
      hide FiledForSome, FiledForAny, OfService, Triples, WellFormedService;
      var n := |raws| - 1;
      TriplesMember(raws[..n], withTags, t);
      DropLast(raws);
      TriplesSnoc(raws[..n], raws[n], withTags);
      OfServiceMember(raws[n], withTags, t);
      FiledForAnySnoc(raws[..n], raws[n], withTags, t);
    }
  }

  /** Entries are filed one after the other. */
  lemma {:induction false} TriplesAppend(a: seq<RawService>, b: seq<RawService>, withTags: set<string>)
    requires AllWellFormed(a) && AllWellFormed(b) && AllWellFormed(a + b)
    ensures Triples(a + b, withTags) == Triples(a, withTags) + Triples(b, withTags)
  {
    if b == [] {
      assert a + b == a;
    } else {
      hide OfService, Triples, WellFormedService;
      var n := |b| - 1;
      AppendDropLast(a, b);
      DropLast(b);
      WellFormedParts(a, b);
      TriplesAppend(a, b[..n], withTags);
      TriplesSnoc(a + b[..n], b[n], withTags);
      TriplesSnoc(b[..n], b[n], withTags);
      Assoc(Triples(a, withTags), Triples(b[..n], withTags), OfService(b[n], withTags));
    }
  }

  lemma WellFormedParts(a: seq<RawService>, b: seq<RawService>)
    requires AllWellFormed(a) && AllWellFormed(b) && b != []
    ensures AllWellFormed(a + b[..|b| - 1]) && AllWellFormed(b[..|b| - 1]) && WellFormedService(b[|b| - 1])
  {
    hide WellFormedService;
  }

  // ----- what is filed, in which order -----

  datatype Emission = Emission(key: string, labels: seq<string>)

  /** The emissions are the triples in order, each with its labels in some order. */
  ghost predicate Emits(trace: seq<Emission>, triples: seq<Triple>) {
    |trace| == |triples| &&
    forall i :: 0 <= i < |trace| ==> trace[i].key == triples[i].key && Flattening(triples[i].labels, trace[i].labels)
  }

  /** Filing the emissions one after the other. */
  ghost function Filed(trace: seq<Emission>): Contents {
    if trace == [] then map[] else
      Merge(Filed(trace[..|trace| - 1]), map[trace[|trace| - 1].key := trace[|trace| - 1].labels])
  }

  lemma FiledNothing()
    ensures Filed([]) == map[]
  {
  }

  lemma FiledSnoc(trace: seq<Emission>, e: Emission)
    ensures Filed(trace + [e]) == Merge(Filed(trace), map[e.key := e.labels])
  {
    assert (trace + [e])[..|trace|] == trace;
  }

  /** One resolved address is filed. */
  method FileOne(entries: Registry, addr: AddrPort, labels: map<string, string>) returns (ghost e: Emission)
    requires WellFormedPort(addr) && entries.Unshared()
    modifies entries, entries.entries.Values
    ensures e.key == AddressToString(addr) && Flattening(labels, e.labels)
    ensures entries.Contents() == Merge(old(entries.Contents()), map[e.key := e.labels])
    ensures entries.Unshared() && fresh(entries.entries.Values - old(entries.entries.Values))
  {
    hide Merge, Flattening, AddressToString, Injective;
    var flat := FlattenLabels(labels);
    var key := AddressToString(addr);
    var svc := new Service(flat);
    var single := new Registry.Single(key, svc);
    MergeEntries(entries, single);
    e := Emission(key, flat);
  }

  method FileAddress(entries: Registry, labels: map<string, string>, resolved: seq<AddrPort>,
                     ghost before: seq<Emission>)
    returns (ghost trace: seq<Emission>)
    requires forall j :: 0 <= j < |resolved| ==> WellFormedPort(resolved[j])
    requires entries.Unshared() && entries.Contents() == Filed(before)
    modifies entries, entries.entries.Values
    ensures Emits(trace, OfResolved(labels, resolved))
    ensures entries.Unshared() && entries.Contents() == Filed(before + trace)
    ensures fresh(entries.entries.Values - old(entries.entries.Values))
  {
    hide Merge, Filed, Injective, AddressToString, Registry.Contents, Registry.Unshared;
    trace := [];
    assert before + [] == before;
    ghost var triples := OfResolved(labels, resolved);
    for j := 0 to |resolved|
      invariant Emits(trace, triples[..j])
      invariant entries.Unshared() && entries.Contents() == Filed(before + trace)
      invariant fresh(entries.entries.Values - old(entries.entries.Values))
    {
      ghost var e := FileOne(entries, resolved[j], labels);
      FiledSnoc(before + trace, e);
      Assoc(before, trace, [e]);
      Grow(triples, j);
      EmitsAppend(trace, triples[..j], [e], [triples[j]]);
      trace := trace + [e];
    }
    assert triples[..|resolved|] == triples;
  }

  lemma EmitsNothing()
    ensures Emits([], [])
  {
  }

  lemma EmitsAppend(s: seq<Emission>, a: seq<Triple>, t: seq<Emission>, b: seq<Triple>)
    requires Emits(s, a) && Emits(t, b)
    ensures Emits(s + t, a + b)
  {
  }

  lemma OfAddressesNext(svc: RawService, i: nat, withTags: set<string>)
    requires WellFormedService(svc) && i < |svc.addresses|
    ensures OfAddresses(svc, i + 1, withTags) == OfAddresses(svc, i, withTags)
         + if Wanted(svc.addresses[i], withTags) then OfResolved(svc.labels, svc.addresses[i].resolved) else []
    ensures !Wanted(svc.addresses[i], withTags) ==> OfAddresses(svc, i + 1, withTags) == OfAddresses(svc, i, withTags)
  {
  }

  method FileService(entries: Registry, svc: RawService, withTags: set<string>, ghost before: seq<Emission>)
    returns (ghost trace: seq<Emission>)
    requires WellFormedService(svc)
    requires entries.Unshared() && entries.Contents() == Filed(before)
    modifies entries, entries.entries.Values
    ensures Emits(trace, OfService(svc, withTags))
    ensures entries.Unshared() && entries.Contents() == Filed(before + trace)
    ensures fresh(entries.entries.Values - old(entries.entries.Values))
  {
    hide Merge, Filed, Injective, Emits, Registry.Contents, Registry.Unshared, OfResolved, Wanted;
    trace := [];
    EmitsNothing();
    assert before + [] == before;
    if |svc.labels| == 0 || |svc.addresses| == 0 {
      return;
    }
    for i := 0 to |svc.addresses|
      invariant Emits(trace, OfAddresses(svc, i, withTags))
      invariant entries.Unshared() && entries.Contents() == Filed(before + trace)
      invariant fresh(entries.entries.Values - old(entries.entries.Values))
    {
      OfAddressesNext(svc, i, withTags);
      var wanted := FilterAddressByTag(svc.addresses[i], withTags);
      if !wanted {
        continue;
      }
      ghost var more := FileAddress(entries, svc.labels, svc.addresses[i].resolved, before + trace);
      EmitsAppend(trace, OfAddresses(svc, i, withTags), more, OfResolved(svc.labels, svc.addresses[i].resolved));
      Assoc(before, trace, more);
      trace := trace + more;
    }
  }

  method ConvertEntries(raws: seq<RawService>, withTags: set<string>)
    returns (entries: Registry, ghost trace: seq<Emission>)
    requires AllWellFormed(raws)
    ensures Emits(trace, Triples(raws, withTags))
    ensures entries.Contents() == Filed(trace)
    ensures fresh(entries) && fresh(entries.entries.Values) && entries.Unshared()
  {
    hide Merge, Filed, Injective, Emits, OfService, Registry.Contents, Registry.Unshared;
    entries := new Registry();
    trace := [];
    EmitsNothing();
    FiledNothing();
    for i := 0 to |raws|
      invariant Emits(trace, Triples(raws[..i], withTags))
      invariant fresh(entries) && fresh(entries.entries.Values)
      invariant entries.Unshared() && entries.Contents() == Filed(trace)
    {
      ghost var more := FileService(entries, raws[i], withTags, trace);
      assert raws[..i + 1][..i] == raws[..i];
      EmitsAppend(trace, Triples(raws[..i], withTags), more, OfService(raws[i], withTags));
      trace := trace + more;
    }
    assert raws[..|raws|] == raws;
  }
}
