/** The bundles that `create-root` and `create-intermediate` print: what they load as, and what any
    number of runs keeps. */
module Bundles {
  import opened Common
  import opened X509
  import opened Authority
  import opened Issuing

  // ----- bundles as the ca commands print them -----

  function Certs(chain: seq<Cert>): seq<Block> {
    seq(|chain|, i requires 0 <= i < |chain| => CertificateBlock(Some(chain[i])))
  }

  /** The newest certificate and its key, then the certificates above it, the root last. */
  function Dump(chain: seq<Cert>): seq<Block>
    requires chain != []
  {
    [CertificateBlock(Some(chain[0])), PrivateKeyBlock(Some(chain[0].key))] + Certs(chain[1..])
  }

  function Converted(chain: seq<Cert>): seq<X509Certificate> {
    seq(|chain|, i requires 0 <= i < |chain| => Convert(chain[i]))
  }

  function Members(chain: seq<Cert>): set<Cert> {
    set i | 0 <= i < |chain| :: chain[i]
  }

  ghost predicate AllSupported(chain: seq<Cert>) {
    forall i :: 0 <= i < |chain| ==> chain[i].key.alg != Ed25519
  }

  lemma ParsedSnoc(content: seq<Block>, b: Block)
    ensures Parsed(content + [b]) == Parsed(content) + match ParsePEM(b) case Ok(c) => [c] case Err(_) => []
  {
    assert (content + [b])[..|content|] == content;
  }

  lemma CertsSnoc(before: seq<Block>, chain: seq<Cert>, c: Cert)
    ensures before + Certs(chain + [c]) == before + Certs(chain) + [CertificateBlock(Some(c))]
    ensures Converted(chain + [c]) == Converted(chain) + [Convert(c)]
  {
  }

  lemma {:induction false} CertsParse(before: seq<Block>, chain: seq<Cert>)
    requires AllSupported(chain)
    ensures CertsOf(Parsed(before + Certs(chain))) == CertsOf(Parsed(before)) + Converted(chain)
    ensures FirstKey(Parsed(before)).Some? ==> FirstKey(Parsed(before + Certs(chain))) == FirstKey(Parsed(before))
  {
    if chain == [] {
      assert before + Certs(chain) == before;
    } else {
      hide Convert, Parsed, CertsOf, FirstKey, Certs, Converted;
      var n := |chain| - 1;
      DropLast(chain);
      CertsParse(before, chain[..n]);
      CertsSnoc(before, chain[..n], chain[n]);
      OneMoreCert(before + Certs(chain[..n]), chain[n]);
      Assoc(CertsOf(Parsed(before)), Converted(chain[..n]), [Convert(chain[n])]);
    }
  }

  lemma OneMoreCert(content: seq<Block>, c: Cert)
    requires c.key.alg != Ed25519
    ensures var more := content + [CertificateBlock(Some(c))];
            && CertsOf(Parsed(more)) == CertsOf(Parsed(content)) + [Convert(c)]
            && (FirstKey(Parsed(content)).Some? ==> FirstKey(Parsed(more)) == FirstKey(Parsed(content)))
  {
    hide Convert, Parsed, CertsOf, FirstKey;
    ParsedSnoc(content, CertificateBlock(Some(c)));
    CertsOfSnoc(Parsed(content), CertificateContainer(Convert(c)));
    FirstKeySnoc(Parsed(content), CertificateContainer(Convert(c)));
  }

  lemma {:induction false} FirstKeySnoc(cs: seq<Container>, c: Container)
    ensures FirstKey(cs).Some? ==> FirstKey(cs + [c]) == FirstKey(cs)
  {
    if cs == [] {
    } else {
      FirstKeySnoc(cs[1..], c);
      assert (cs + [c])[1..] == cs[1..] + [c];
    }
  }

  lemma HeadParses(c: Cert)
    requires c.key.alg != Ed25519
    ensures var head := [CertificateBlock(Some(c)), PrivateKeyBlock(Some(c.key))];
            Parsed(head) == [CertificateContainer(Convert(c)), PrivateKeyContainer(c.key)]
  {
    var b0, b1 := CertificateBlock(Some(c)), PrivateKeyBlock(Some(c.key));
    Pair(b0, b1);
    ParsedSnoc([], b0);
    ParsedSnoc([b0], b1);
    Pair(CertificateContainer(Convert(c)), PrivateKeyContainer(c.key));
  }

  lemma HeadContainers(x: X509Certificate, key: Key)
    ensures var cs := [CertificateContainer(x), PrivateKeyContainer(key)];
            CertsOf(cs) == [x] && FirstKey(cs) == Some(key)
  {
    var c0, c1 := CertificateContainer(x), PrivateKeyContainer(key);
    Pair(c0, c1);
    CertsOfSnoc([], c0);
    CertsOfSnoc([c0], c1);
    assert [c0, c1][1..] == [c1];
  }

  lemma ConvertedCons(chain: seq<Cert>)
    requires chain != []
    ensures [Convert(chain[0])] + Converted(chain[1..]) == Converted(chain)
  {
  }

  lemma DumpParses(chain: seq<Cert>)
    requires chain != [] && AllSupported(chain)
    ensures AllParse(Dump(chain))
    ensures CertsOf(Parsed(Dump(chain))) == Converted(chain)
    ensures FirstKey(Parsed(Dump(chain))) == Some(chain[0].key)
  {
    HeadParses(chain[0]);
    HeadContainers(Convert(chain[0]), chain[0].key);
    CertsParse([CertificateBlock(Some(chain[0])), PrivateKeyBlock(Some(chain[0].key))], chain[1..]);
    ConvertedCons(chain);
    DumpAllParse(chain);
  }

  lemma DumpAllParse(chain: seq<Cert>)
    requires chain != [] && AllSupported(chain)
    ensures AllParse(Dump(chain))
  {
  }

  /** Authorities from the newest down to the root: each but the last is not self-signed. */
  ghost predicate Hierarchy(chain: seq<Cert>) {
    && chain != [] && AllSupported(chain)
    && TypeOf(chain[|chain| - 1]) == RootCA
    && forall i :: 0 <= i < |chain| - 1 ==> TypeOf(chain[i]) == IntermediateCA
  }

  lemma {:induction false} RootOfHierarchy(chain: seq<Cert>)
    requires Hierarchy(chain)
    ensures FirstRoot(Converted(chain)) == Some(Convert(chain[|chain| - 1]))
  {
    if |chain| > 1 {
      RootOfHierarchy(chain[1..]);
      assert Converted(chain)[1..] == Converted(chain[1..]);
    }
  }

  lemma {:induction false} AllIntermediates(chain: seq<Cert>)
    requires forall i :: 0 <= i < |chain| ==> TypeOf(chain[i]) == IntermediateCA
    ensures Intermediates(Converted(chain)) == Converted(chain)
  {
    if chain == [] {
    } else {
      AllIntermediates(chain[..|chain| - 1]);
      assert Converted(chain)[..|chain| - 1] == Converted(chain[..|chain| - 1]);
    }
  }

  lemma IntermediatesOfHierarchy(chain: seq<Cert>)
    requires Hierarchy(chain)
    ensures Intermediates(Converted(chain)) == Converted(chain[..|chain| - 1])
    ensures Pool(Converted(chain)) == Members(chain[..|chain| - 1])
  {
    var n := |chain| - 1;
    AllIntermediates(chain[..n]);
    assert Converted(chain)[..n] == Converted(chain[..n]);
    forall x ensures x in Pool(Converted(chain)) <==> x in chain[..n] {
      if x in chain[..n] {
        var i :| 0 <= i < n && chain[..n][i] == x;
        assert Converted(chain[..n])[i].cert == x;
        assert Converted(chain[..n])[i] in Intermediates(Converted(chain));
      }
    }
  }

  function Reloaded(chain: seq<Cert>): Loaded
    requires chain != []
  {
    Loaded(chain[0].key, Convert(chain[0]), Converted(chain))
  }

  /** What a printed hierarchy loads as: itself, if its newest certificate verifies. */
  function LoadedDump(chain: seq<Cert>, t: int): Result<Loaded, LoadError>
    requires chain != []
  {
    var n := |chain| - 1;
    if Search(chain[0], 0, {}, chain[n], Members(chain[..n]), t) then Ok(Reloaded(chain)) else Err(Unverified)
  }

  lemma DumpLoads(chain: seq<Cert>, t: int)
    requires Hierarchy(chain)
    ensures Load(Dump(chain), t) == LoadedDump(chain, t)
  {
    DumpParses(chain);
    RootOfHierarchy(chain);
    IntermediatesOfHierarchy(chain);
    assert Converted(chain)[0].cert.isCA;
    assert FirstCA(Converted(chain)) == Some(Convert(chain[0]));
  }

  /** A root that allows no authority below another one, and an authority below it. */
  const K0 := Key(RSA, 0)
  const K1 := Key(RSA, 1)
  const NARROW_ROOT := Cert("r", "", "r", K0, K0, true, true, true, Some(0), 0, 100)
  const BELOW := Cert("i", "", "r", K1, K0, true, true, true, None, 0, 100)

  lemma NoRoomBelow(leaf: Cert, t: int)
    requires leaf.issuer == "i" && !leaf.isCA
    ensures !Search(leaf, 0, {}, NARROW_ROOT, {BELOW}, t)
  {
    assert !Issues(NARROW_ROOT, leaf) && leaf != NARROW_ROOT;
    assert !Usable(NARROW_ROOT, 2, t) && BELOW != NARROW_ROOT;
    assert {BELOW} - {BELOW} == {} && {} + {leaf} == {leaf};
    assert !Search(BELOW, 1, {leaf}, NARROW_ROOT, {}, t);
  }

  /** A bundle that loads and yet issues nothing that verifies. */
  lemma LoadableButUseless(req: Request, ttl: int, signedAt: int, t: int)
    ensures var l := Reloaded([BELOW, NARROW_ROOT]);
            && Load(Dump([BELOW, NARROW_ROOT]), 1) == Ok(l)
            && FirstRoot(l.certificates) == Some(Convert(NARROW_ROOT))
            && !Verifies(LeafCert(req, l, signedAt, ttl), NARROW_ROOT, Pool(l.certificates), t)
  {
    var chain := [BELOW, NARROW_ROOT];
    assert Usable(BELOW, 0, 1) && Issues(NARROW_ROOT, BELOW) && Usable(NARROW_ROOT, 1, 1);
    DumpLoads(chain, 1);
    RootOfHierarchy(chain);
    IntermediatesOfHierarchy(chain);
    assert chain[..1] == [BELOW] && Members([BELOW]) == {BELOW};
    var leaf := LeafCert(req, Reloaded(chain), signedAt, ttl);
    NoRoomBelow(leaf, t);
    SearchDecides(leaf, NARROW_ROOT, {BELOW}, t);
  }

  /** No certificate may issue to one that the verifier takes for it: a request in the name of
      the authority, with its key and alternative names, gets a leaf that never verifies. */
  lemma OwnNameNeverVerifies(l: Loaded, req: Request, ttl: int, signedAt: int, t: int)
    requires FirstRoot(l.certificates).Some? && Anchor(l).isCA
    requires forall p :: p in Known(l) && MayIssue(p, l) ==> Twins(LeafCert(req, l, signedAt, ttl), p)
    ensures !Verifies(LeafCert(req, l, signedAt, ttl), Anchor(l), Pool(l.certificates), t)
  {
    LeafVerifiesIff(l, req, ttl, signedAt, t);
  }

  // ----- create-root, and any number of create-intermediate runs -----

  /** One run of a ca command: names, lifetime, the key it generates, when it ran. Creating a
      root takes no alternative names. */
  datatype Step = Step(subject: string, sans: string, ttl: int, key: nat, now: int)

  function RootCert(root: Step): Cert {
    CACert(root.subject, "", root.subject, Key(RSA, root.key), Key(RSA, root.key), root.now, root.ttl)
  }

  /** The certificates after the given runs, newest first. */
  function History(root: Step, steps: seq<Step>): (chain: seq<Cert>)
    ensures |chain| == |steps| + 1
  {
    if steps == [] then [RootCert(root)]
    else
      var above := History(root, steps[..|steps| - 1]);
      var s := steps[|steps| - 1];
      [CACert(s.subject, s.sans, above[0].subject, Key(RSA, s.key), above[0].key, s.now, s.ttl)] + above
  }

  /** The key that run `i` signs with: the one the run before it generated. */
  function SigningKey(root: Step, steps: seq<Step>, i: nat): nat
    requires i < |steps|
  {
    if i == 0 then root.key else steps[i - 1].key
  }

  /** Every run generates a key other than the one it signs with. */
  ghost predicate NewKeys(root: Step, steps: seq<Step>) {
    forall i :: 0 <= i < |steps| ==> steps[i].key != SigningKey(root, steps, i)
  }

  ghost predicate AllValid(chain: seq<Cert>, t: int) {
    forall i :: 0 <= i < |chain| ==> ValidAt(chain[i], t)
  }

  /** Whenever the tool ran, every certificate so far was in its validity period. */
  ghost predicate RunInTime(root: Step, steps: seq<Step>) {
    forall i :: 0 <= i < |steps| ==> AllValid(History(root, steps[..i]), steps[i].now)
  }

  lemma NewKeysBefore(root: Step, steps: seq<Step>)
    requires NewKeys(root, steps) && steps != []
    ensures NewKeys(root, steps[..|steps| - 1])
  {
    var before := steps[..|steps| - 1];
    forall i | 0 <= i < |before| ensures before[i].key != SigningKey(root, before, i) {
      assert SigningKey(root, before, i) == SigningKey(root, steps, i);
    }
  }

  /** What create-root and create-intermediate put into every certificate. */
  predicate Made(c: Cert) {
    c.isCA && c.certSign && c.serverAuth && c.maxPathLen.None? && c.key.alg == RSA
  }

  /** Each certificate was issued by the next one. */
  ghost predicate Linked(chain: seq<Cert>) {
    && (forall i :: 0 <= i < |chain| ==> Made(chain[i]))
    && (forall i :: 0 <= i < |chain| - 1 ==> Issues(chain[i + 1], chain[i]))
  }

  lemma LinkedCons(c: Cert, above: seq<Cert>)
    requires Hierarchy(above) && Linked(above)
    requires Made(c) && TypeOf(c) == IntermediateCA && Issues(above[0], c)
    ensures Hierarchy([c] + above) && Linked([c] + above)
  {
    hide Made, Issues, TypeOf;
    var chain := [c] + above;
    assert c.key.alg != Ed25519 by {
      MadeKey(c);
    }
    assert forall i :: 0 < i < |chain| ==> chain[i] == above[i - 1];
    assert chain[|chain| - 1] == above[|above| - 1];
  }

  lemma MadeKey(c: Cert)
    requires Made(c)
    ensures c.key.alg == RSA
  {
  }

  lemma {:induction false} HistoryIsHierarchy(root: Step, steps: seq<Step>)
    requires NewKeys(root, steps)
    ensures var chain := History(root, steps); Hierarchy(chain) && Linked(chain) && chain[|steps|] == RootCert(root)
    ensures History(root, steps)[0].key == Key(RSA, if steps == [] then root.key else steps[|steps| - 1].key)
  {
    if steps == [] {
    } else {
      hide Hierarchy, Linked, NewKeys;
      var n := |steps| - 1;
      NewKeysBefore(root, steps);
      HistoryIsHierarchy(root, steps[..n]);
      NewestIsNew(root, steps);
      var above := History(root, steps[..n]);
      LinkedInside(above);
      LinkedCons(History(root, steps)[0], above);
    }
  }

  lemma NewestIsNew(root: Step, steps: seq<Step>)
    requires NewKeys(root, steps) && steps != []
    ensures steps[|steps| - 1].key != SigningKey(root, steps, |steps| - 1)
  {
  }

  lemma LinkedInside(chain: seq<Cert>)
    requires Hierarchy(chain) && Linked(chain)
    ensures Made(chain[0])
  {
  }

  /** The chain of authorities is itself the path to the root. */
  lemma {:induction false} LinkedIsChain(chain: seq<Cert>, depth: nat, anchor: Cert, pool: set<Cert>, t: int)
    requires chain != [] && chain[|chain| - 1] == anchor && AllValid(chain, t) && Linked(chain)
    requires forall i :: 0 < i < |chain| - 1 ==> chain[i] in pool
    ensures Chain(chain, depth, anchor, pool, t)
  {
    if |chain| > 1 {
      LinkedIsChain(chain[1..], depth + 1, anchor, pool, t);
    }
  }

  /** No two commands make certificates that the verifier takes for one another. */
  ghost predicate NewEntities(root: Step, steps: seq<Step>) {
    NewKeys(root, steps) && NoTwins(History(root, steps))
  }

  lemma NewEntitiesBefore(root: Step, steps: seq<Step>)
    requires NewEntities(root, steps) && steps != []
    ensures NewEntities(root, steps[..|steps| - 1])
  {
    NewKeysBefore(root, steps);
    var above := History(root, steps[..|steps| - 1]);
    assert forall i :: 0 <= i < |above| ==> above[i] == History(root, steps)[i + 1];
  }

  /** Every key differs from all the earlier ones. */
  ghost predicate FreshKeys(root: Step, steps: seq<Step>) {
    forall i, j :: 0 <= i < j <= |steps| ==> KeyOf(root, steps, i) != KeyOf(root, steps, j)
  }

  function KeyOf(root: Step, steps: seq<Step>, i: nat): nat
    requires i <= |steps|
  {
    if i == 0 then root.key else steps[i - 1].key
  }

  lemma {:induction false} KeysOfHistory(root: Step, steps: seq<Step>, i: nat)
    requires i <= |steps|
    ensures History(root, steps)[|steps| - i].key == Key(RSA, KeyOf(root, steps, i))
  {
    if i < |steps| {
      var n := |steps| - 1;
      KeysOfHistory(root, steps[..n], i);
      assert History(root, steps)[|steps| - i] == History(root, steps[..n])[n - i];
    }
  }

  /** Fresh keys make new entities, whatever the names. */
  lemma FreshKeysAreNewEntities(root: Step, steps: seq<Step>)
    requires FreshKeys(root, steps)
    ensures NewEntities(root, steps)
  {
    hide History;
    var chain, n := History(root, steps), |steps|;
    forall a, b | 0 <= a < b < |chain| ensures !Twins(chain[a], chain[b]) {
      KeysOfHistory(root, steps, n - a);
      KeysOfHistory(root, steps, n - b);
    }
    forall i | 0 <= i < |steps| ensures steps[i].key != SigningKey(root, steps, i) {
      assert KeyOf(root, steps, i) != KeyOf(root, steps, i + 1);
    }
  }

  lemma HistoryVerifies(root: Step, steps: seq<Step>, t: int)
    requires NewEntities(root, steps) && AllValid(History(root, steps), t)
    ensures var chain := History(root, steps);
            Verifies(chain[0], chain[|steps|], Members(chain[..|steps|]), t)
  {
    hide History, NewKeys, AllValid;
    var chain := History(root, steps);
    var pool := Members(chain[..|steps|]);
    HistoryIsHierarchy(root, steps);
    forall i | 0 < i < |chain| - 1 ensures chain[i] in pool {
      assert chain[..|steps|][i] == chain[i];
    }
    LinkedIsChain(chain, 0, chain[|steps|], pool, t);
  }

  /** The bundle of any history loads again at any time all its certificates are valid: it
      selects the newest certificate and its key, the original root is the trust anchor, and
      the intermediates are exactly the ones created, newest first. */
  lemma HistoryReloads(root: Step, steps: seq<Step>, t: int)
    requires NewEntities(root, steps) && AllValid(History(root, steps), t)
    ensures var chain := History(root, steps);
            && Load(Dump(chain), t) == Ok(Reloaded(chain))
            && FirstRoot(Converted(chain)) == Some(Convert(RootCert(root)))
            && Intermediates(Converted(chain)) == Converted(chain[..|steps|])
            && Verifies(chain[0], RootCert(root), Pool(Converted(chain)), t)
  {
    hide History, NewKeys, AllValid, Hierarchy, Load, Dump, Verifies, Search;
    var chain := History(root, steps);
    HistoryVerifies(root, steps, t);
    HistoryIsHierarchy(root, steps);
    RootOfHierarchy(chain);
    IntermediatesOfHierarchy(chain);
    SearchDecides(chain[0], chain[|steps|], Members(chain[..|steps|]), t);
    DumpLoads(chain, t);
  }

  function Blocks(certs: seq<X509Certificate>): (blocks: seq<Block>)
    ensures |blocks| == |certs|
  {
    seq(|certs|, i requires 0 <= i < |certs| => CertificateBlock(Some(certs[i].cert)))
  }

  /** What `create-intermediate` prints for a bundle: the new certificate and key, the
      intermediates of the bundle, its trust anchor. */
  function Printed(l: Loaded, s: Step): seq<Block>
    requires FirstRoot(l.certificates).Some?
  {
    var key := Key(RSA, s.key);
    [CertificateBlock(Some(CACert(s.subject, s.sans, l.certificate.cert.subject, key, l.privateKey, s.now, s.ttl))),
     PrivateKeyBlock(Some(key))]
    + (Blocks(Intermediates(l.certificates)) + [CertificateBlock(Some(Anchor(l)))])
  }

  /** The new certificate, its key, the intermediates of the bundle, its anchor. */
  ghost predicate PrintedInOrder(l: Loaded, s: Step, out: seq<Block>)
    requires FirstRoot(l.certificates).Some?
  {
    var ims, key := Intermediates(l.certificates), Key(RSA, s.key);
    && |out| == 3 + |ims| && out[0].CertificateBlock? && out[0].cert.Some? && out[1] == PrivateKeyBlock(Some(key))
    && IssuedCA(out[0].cert.value, s.subject, s.sans, l.certificate.cert.subject, key, l.privateKey, s.now, s.ttl)
    && (forall i :: 0 <= i < |ims| ==> out[2 + i] == CertificateBlock(Some(ims[i].cert)))
    && out[2 + |ims|] == CertificateBlock(Some(FirstRoot(l.certificates).value.cert))
  }

  lemma PrintingKeepsOrder(l: Loaded, s: Step)
    requires FirstRoot(l.certificates).Some?
    ensures PrintedInOrder(l, s, Printed(l, s))
  {
  }

  lemma LoadedHasRoot(content: seq<Block>, now: int)
    requires Load(content, now).Ok?
    ensures FirstRoot(Load(content, now).value.certificates).Some?
    ensures Load(content, now).value.certificate.cert.key == Load(content, now).value.privateKey
  {
  }

  method CreateRoot(s: Step) returns (out: seq<Block>)
    ensures out == Dump(History(s, []))
    ensures var key := Key(RSA, s.key);
            && |out| == 2 && out[0].CertificateBlock? && out[0].cert.Some? && out[1] == PrivateKeyBlock(Some(key))
            && IssuedCA(out[0].cert.value, s.subject, "", s.subject, key, key, s.now, s.ttl)
  {
    var r := CreateCACertificate(s.subject, "", s.ttl, None, None, s.key, s.now);
    out := [CertificateBlock(Some(r.value.0.cert)), PrivateKeyBlock(Some(r.value.1))];
  }

  /** The source asserts that the key of a loaded authority is an RSA key. */
  method CreateIntermediate(content: seq<Block>, s: Step) returns (r: Result<seq<Block>, LoadError>)
    requires Load(content, s.now).Ok? ==> Load(content, s.now).value.privateKey.alg == RSA
    ensures Load(content, s.now).Err? ==> r == Err(Load(content, s.now).error)
    ensures Load(content, s.now).Ok? ==>
              var l := Load(content, s.now).value;
              FirstRoot(l.certificates).Some? && r == Ok(Printed(l, s))
  {
    var loaded := NewCertificateAuthority(Some(content), s.now);
    if loaded.Err? {
      return Err(loaded.error);
    }
    var ca := loaded.value;
    LoadedHasRoot(content, s.now);
    ghost var l := Load(content, s.now).value;
    var cert, key, chain := ca.CreateIntermediate(s.subject, s.sans, s.ttl, s.key, s.now, l);
    var out := [CertificateBlock(Some(cert.cert)), PrivateKeyBlock(Some(key))];
    ghost var head := out;
    for i := 0 to |chain|
      invariant out == head + Blocks(chain)[..i]
    {
      out := out + [CertificateBlock(Some(chain[i].cert))];
    }
    var anchor := ca.GetTrustAnchor();
    out := out + [CertificateBlock(Some(anchor.value.cert))];
    assert Blocks(chain)[..|chain|] == Blocks(chain);
    Assoc(head, Blocks(chain), [CertificateBlock(Some(anchor.value.cert))]);
    return Ok(out);
  }

  /** The bundle printed from a reloaded history is the bundle of the longer history. */
  lemma BlocksOfConverted(chain: seq<Cert>, root: Cert)
    ensures Blocks(Converted(chain)) + [CertificateBlock(Some(root))] == Certs(chain + [root])
  {
  }

  lemma HistorySnoc(root: Step, steps: seq<Step>, s: Step)
    ensures var above := History(root, steps);
            History(root, steps + [s])
            == [CACert(s.subject, s.sans, above[0].subject, Key(RSA, s.key), above[0].key, s.now, s.ttl)] + above
  {
    assert (steps + [s])[..|steps|] == steps;
  }

  lemma DumpCons(c: Cert, above: seq<Cert>)
    ensures Dump([c] + above) == [CertificateBlock(Some(c)), PrivateKeyBlock(Some(c.key))] + Certs(above)
  {
    assert ([c] + above)[1..] == above;
  }

  lemma PrintedExtendsHistory(root: Step, steps: seq<Step>, s: Step)
    requires NewEntities(root, steps)
    ensures FirstRoot(Converted(History(root, steps))).Some?
    ensures Printed(Reloaded(History(root, steps)), s) == Dump(History(root, steps + [s]))
  {
    hide History, Linked, NewKeys, Blocks, Certs, Dump;
    var chain, n := History(root, steps), |steps|;
    HistoryIsHierarchy(root, steps);
    RootOfHierarchy(chain);
    IntermediatesOfHierarchy(chain);
    HistorySnoc(root, steps, s);
    DumpCons(History(root, steps + [s])[0], chain);
    DropLast(chain);
    BlocksOfConverted(chain[..n], chain[n]);
  }

  /** create-root, then each create-intermediate on the bundle the previous command printed. */
  ghost function RunAll(root: Step, steps: seq<Step>): Result<seq<Block>, LoadError> {
    if steps == [] then Ok(Dump(History(root, []))) else
      match RunAll(root, steps[..|steps| - 1])
      case Err(e) => Err(e)
      case Ok(content) =>
        var s := steps[|steps| - 1];
        match Load(content, s.now)
        case Err(e) => Err(e)
        case Ok(l) => LoadedHasRoot(content, s.now); Ok(Printed(l, s))
  }

  lemma RunInTimeBefore(root: Step, steps: seq<Step>)
    requires RunInTime(root, steps) && steps != []
    ensures RunInTime(root, steps[..|steps| - 1])
    ensures AllValid(History(root, steps[..|steps| - 1]), steps[|steps| - 1].now)
  {
    var before := steps[..|steps| - 1];
    forall i | 0 <= i < |before| ensures AllValid(History(root, before[..i]), before[i].now) {
      assert before[..i] == steps[..i];
    }
  }

  /** Any number of create-intermediate runs succeeds and prints exactly the history. */
  lemma {:induction false} EveryRunSucceeds(root: Step, steps: seq<Step>)
    requires NewEntities(root, steps) && RunInTime(root, steps)
    ensures RunAll(root, steps) == Ok(Dump(History(root, steps)))
  {
    if steps == [] {
    } else {
      hide Load, Dump, Printed, Reloaded, NewEntities, RunInTime;
      var n := |steps| - 1;
      RunInTimeBefore(root, steps);
      NewEntitiesBefore(root, steps);
      EveryRunSucceeds(root, steps[..n]);
      HistoryReloads(root, steps[..n], steps[n].now);
      PrintedExtendsHistory(root, steps[..n], steps[n]);
      DropLast(steps);
    }
  }

  lemma HistoryIsUnlimited(root: Step, steps: seq<Step>)
    requires NewEntities(root, steps)
    ensures FirstRoot(Converted(History(root, steps))) == Some(Convert(RootCert(root)))
    ensures Unlimited(Reloaded(History(root, steps)))
    ensures Known(Reloaded(History(root, steps))) == Members(History(root, steps))
  {
    hide History, NewKeys, Hierarchy;
    var chain := History(root, steps);
    HistoryIsHierarchy(root, steps);
    RootOfHierarchy(chain);
    IntermediatesOfHierarchy(chain);
    assert chain == chain[..|steps|] + [chain[|steps|]];
  }

  /** End to end: after any number of runs, a leaf signed with the reloaded bundle for anyone who
      is not one of its authorities verifies to the original root through the intermediates. */
  lemma LeavesOfHistoryVerify(root: Step, steps: seq<Step>, loadedAt: int, req: Request, ttl: int, signedAt: int,
                              t: int)
    requires NewEntities(root, steps) && AllValid(History(root, steps), loadedAt) && AllValid(History(root, steps), t)
    requires var leaf := LeafCert(req, Reloaded(History(root, steps)), signedAt, ttl);
             ValidAt(leaf, t) && forall x :: x in Members(History(root, steps)) ==> !Twins(leaf, x)
    ensures Verifies(LeafCert(req, Reloaded(History(root, steps)), signedAt, ttl), RootCert(root),
                     Pool(Converted(History(root, steps))), t)
  {
    hide History, AllValid, NewEntities, Verifies, Load, Unlimited, Pool;
    var chain := History(root, steps);
    HistoryReloads(root, steps, loadedAt);
    HistoryReloads(root, steps, t);
    HistoryIsUnlimited(root, steps);
    NewestMaySign(root, steps);
    LeafVerifies(Dump(chain), loadedAt, Reloaded(chain), req, ttl, signedAt, t);
  }

  lemma NewestMaySign(root: Step, steps: seq<Step>)
    ensures History(root, steps)[0].certSign
  {
  }

  /** And for one of its authorities it need not: a root asked for a leaf in its own name loads,
      signs, and the leaf never verifies. */
  lemma RootCannotIssueToItself(root: Step, ttl: int, signedAt: int, loadedAt: int, t: int)
    requires ValidAt(RootCert(root), loadedAt)
    ensures var l := Reloaded([RootCert(root)]);
            && Load(Dump([RootCert(root)]), loadedAt) == Ok(l)
            && var leaf := LeafCert(Request(root.subject, "", Key(RSA, root.key)), l, signedAt, ttl);
               !Verifies(leaf, RootCert(root), Pool(l.certificates), t)
  {
    var l := Reloaded(History(root, []));
    var req := Request(root.subject, "", Key(RSA, root.key));
    HistoryReloads(root, [], loadedAt);
    HistoryIsUnlimited(root, []);
    assert Members([RootCert(root)]) == {RootCert(root)};
    OwnNameNeverVerifies(l, req, ttl, signedAt, t);
  }
}
