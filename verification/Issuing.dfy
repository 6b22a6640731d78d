/** What a loaded authority's certificates are worth: exactly when the leaves it signs verify
    through the returned chain. */
module Issuing {
  import opened Common
  import opened X509
  import opened Authority

  // ----- any loaded authority -----

  lemma {:induction false} ParsedAreConverted(content: seq<Block>, x: X509Certificate)
    requires x in CertsOf(Parsed(content))
    ensures x == Convert(x.cert)
  {
    var n := |content| - 1;
    var before := Parsed(content[..n]);
    if Parsed(content) == before {
      ParsedAreConverted(content[..n], x);
    } else {
      var c := ParsePEM(content[n]).value;
      CertsOfSnoc(before, c);
      if x in CertsOf(before) {
        ParsedAreConverted(content[..n], x);
      }
    }
  }

  lemma CertsOfSnoc(cs: seq<Container>, c: Container)
    ensures CertsOf(cs + [c]) == CertsOf(cs) + if c.CertificateContainer? then [c.certificate] else []
  {
    assert (cs + [c])[..|cs|] == cs;
  }

  lemma {:induction false} FirstCAIsMember(certs: seq<X509Certificate>)
    requires FirstCA(certs).Some?
    ensures FirstCA(certs).value in certs && FirstCA(certs).value.cert.isCA
  {
    if !certs[0].cert.isCA {
      FirstCAIsMember(certs[1..]);
    }
  }

  lemma {:induction false} FirstRootIsRoot(certs: seq<X509Certificate>)
    requires FirstRoot(certs).Some?
    ensures FirstRoot(certs).value in certs && FirstRoot(certs).value.kind == RootCA
  {
    if certs[0].kind != RootCA {
      FirstRootIsRoot(certs[1..]);
    }
  }

  lemma {:induction false} IntermediatesMember(certs: seq<X509Certificate>, x: X509Certificate)
    ensures x in Intermediates(certs) <==> x in certs && x.kind == IntermediateCA
  {
    if certs == [] {
    } else {
      IntermediatesMember(certs[..|certs| - 1], x);
      assert certs == certs[..|certs| - 1] + [certs[|certs| - 1]];
    }
  }

  /** In bundle order: what stands in front stays in front, one at a time. */
  lemma {:induction false} IntermediatesAppend(a: seq<X509Certificate>, b: seq<X509Certificate>)
    ensures Intermediates(a + b) == Intermediates(a) + Intermediates(b)
  {
    if b == [] {
      assert a + b == a;
    } else {
      var n := |b| - 1;
      IntermediatesAppend(a, b[..n]);
      assert (a + b)[..|a| + n] == a + b[..n];
    }
  }

  /** If the first CA certificate is a root, it is the trust anchor itself. */
  lemma {:induction false} RootSignerIsTheAnchor(certs: seq<X509Certificate>)
    requires forall x :: x in certs ==> x.kind == TypeOf(x.cert)
    requires FirstCA(certs).Some? && FirstCA(certs).value.kind == RootCA
    ensures FirstRoot(certs) == FirstCA(certs)
  {
    if !certs[0].cert.isCA {
      assert certs[0] in certs;
      assert forall x :: x in certs[1..] ==> x in certs;
      RootSignerIsTheAnchor(certs[1..]);
    } else {
      assert FirstCA(certs) == Some(certs[0]);
    }
  }

  function Anchor(l: Loaded): Cert
    requires FirstRoot(l.certificates).Some?
  {
    FirstRoot(l.certificates).value.cert
  }

  /** The signing certificate is the anchor or one of the certificates returned as chain. */
  lemma SignerIsReachable(content: seq<Block>, now: int, l: Loaded)
    requires Load(content, now) == Ok(l)
    ensures FirstRoot(l.certificates).Some?
    ensures l.certificate.cert == Anchor(l) || l.certificate.cert in Pool(l.certificates)
    ensures l.certificate.cert.isCA && l.certificate.cert.key == l.privateKey
    ensures Anchor(l).isCA && Verifies(l.certificate.cert, Anchor(l), Pool(l.certificates), now)
  {
    var certs := l.certificates;
    forall x | x in certs ensures x.kind == TypeOf(x.cert) {
      ParsedAreConverted(content, x);
    }
    FirstCAIsMember(certs);
    FirstRootIsRoot(certs);
    SearchDecides(l.certificate.cert, Anchor(l), Pool(certs), now);
    if l.certificate.kind == RootCA {
      RootSignerIsTheAnchor(certs);
    } else {
      IntermediatesMember(certs, l.certificate);
    }
  }

  /** A certificate of the authority that carries its name and key and may sign. */
  predicate MayIssue(p: Cert, l: Loaded) {
    p.subject == l.certificate.cert.subject && p.key == l.privateKey && p.isCA && p.certSign
  }

  /** The anchor and the certificates that are returned with a leaf. */
  function Known(l: Loaded): set<Cert>
    requires FirstRoot(l.certificates).Some?
  {
    Pool(l.certificates) + {Anchor(l)}
  }

  /** A search from some such certificate reaches the anchor with room for `leaf` below it. */
  predicate CanIssueTo(l: Loaded, leaf: Cert, t: int)
    requires FirstRoot(l.certificates).Some?
  {
    exists p :: p in Known(l) && MayIssue(p, l) && !Twins(leaf, p)
                && Search(p, 1, {leaf}, Anchor(l), Pool(l.certificates), t)
  }

  lemma LeafChainCanIssue(l: Loaded, req: Request, ttl: int, signedAt: int, t: int, path: seq<Cert>)
    requires FirstRoot(l.certificates).Some? && Anchor(l).isCA
    requires Chain(path, 0, Anchor(l), Pool(l.certificates), t) && NoTwins(path)
    requires path[0] == LeafCert(req, l, signedAt, ttl)
    ensures ValidAt(path[0], t) && CanIssueTo(l, path[0], t)
  {
    hide Search, FirstRoot;
    var anchor, pool := Anchor(l), Pool(l.certificates);
    assert |path| > 1;
    ChainLink(path, 0, anchor, pool, t, 1);
    TailApart({}, path);
    assert {} + {path[0]} == {path[0]};
    ChainIsFound(path[1..], 1, {path[0]}, anchor, pool, t);
    assert path[1..][0] == path[1];
  }

  lemma IssuedLeafVerifies(l: Loaded, leaf: Cert, p: Cert, up: seq<Cert>, t: int)
    requires FirstRoot(l.certificates).Some? && leaf.serverAuth && leaf.maxPathLen.None?
    requires Chain(up, 1, Anchor(l), Pool(l.certificates), t) && up[0] == p && NoTwins(up)
    requires p in Known(l) && Issues(p, leaf) && ValidAt(leaf, t)
    requires forall i :: 0 <= i < |up| ==> !Twins(leaf, up[i])
    ensures Verifies(leaf, Anchor(l), Pool(l.certificates), t)
  {
    hide FirstRoot, Pool;
    var path := if p == Anchor(l) then [p] else up;
    ChainCons(leaf, path, 0, Anchor(l), Pool(l.certificates), t);
    NoTwinsCons(leaf, path);
    assert ([leaf] + path)[0] == leaf;
  }

  /** Exactly when a leaf verifies to the trust anchor through the returned chain alone. */
  lemma LeafVerifiesIff(l: Loaded, req: Request, ttl: int, signedAt: int, t: int)
    requires FirstRoot(l.certificates).Some? && Anchor(l).isCA
    ensures var leaf := LeafCert(req, l, signedAt, ttl);
            Verifies(leaf, Anchor(l), Pool(l.certificates), t) <==> ValidAt(leaf, t) && CanIssueTo(l, leaf, t)
  {
    hide Search, FirstRoot, Pool;
    var leaf, anchor, pool := LeafCert(req, l, signedAt, ttl), Anchor(l), Pool(l.certificates);
    if path :| Chain(path, 0, anchor, pool, t) && path[0] == leaf && NoTwins(path) {
      LeafChainCanIssue(l, req, ttl, signedAt, t, path);
    }
    if ValidAt(leaf, t) && CanIssueTo(l, leaf, t) {
      var p :| p in Known(l) && MayIssue(p, l) && !Twins(leaf, p) && Search(p, 1, {leaf}, anchor, pool, t);
      var up := SearchFindsChain(p, 1, {leaf}, anchor, pool, t);
      assert forall i :: 0 < i < |up| ==> NewTo({leaf}, up[i]);
      IssuedLeafVerifies(l, leaf, p, up, t);
    }
  }

  /** The leaf is nobody the authority knows by the same name, key and alternative names. */
  predicate Stranger(leaf: Cert, l: Loaded)
    requires FirstRoot(l.certificates).Some?
  {
    forall x :: x in Known(l) ==> !Twins(leaf, x)
  }

  ghost predicate Unlimited(l: Loaded)
    requires FirstRoot(l.certificates).Some?
  {
    Anchor(l).maxPathLen.None? && forall c :: c in Pool(l.certificates) ==> c.maxPathLen.None?
  }

  lemma {:induction false} ChainRaise(path: seq<Cert>, depth: nat, anchor: Cert, pool: set<Cert>, t: int)
    requires Chain(path, depth, anchor, pool, t)
    requires anchor.maxPathLen.None? && forall c :: c in pool ==> c.maxPathLen.None?
    requires |path| == 1 || path[0] in pool
    ensures Chain(path, depth + 1, anchor, pool, t)
  {
    if |path| > 1 {
      ChainRaise(path[1..], depth + 1, anchor, pool, t);
    }
  }

  /** Some certificate that may issue verifies itself. */
  ghost predicate SignerVerifies(l: Loaded, t: int)
    requires FirstRoot(l.certificates).Some?
  {
    exists p :: p in Known(l) && MayIssue(p, l) && Verifies(p, Anchor(l), Pool(l.certificates), t)
  }

  lemma VerifyingSignerIssues(l: Loaded, leaf: Cert, p: Cert, t: int)
    requires FirstRoot(l.certificates).Some? && leaf.serverAuth && leaf.maxPathLen.None?
    requires Unlimited(l) && Stranger(leaf, l) && ValidAt(leaf, t)
    requires p in Known(l) && Issues(p, leaf) && Verifies(p, Anchor(l), Pool(l.certificates), t)
    ensures Verifies(leaf, Anchor(l), Pool(l.certificates), t)
  {
    hide FirstRoot, Pool, Twins;
    var anchor, pool := Anchor(l), Pool(l.certificates);
    var path :| Chain(path, 0, anchor, pool, t) && path[0] == p && NoTwins(path);
    var up := if p == anchor then [anchor] else path;
    ChainRaise(up, 0, anchor, pool, t);
    forall i | 0 <= i < |up| ensures !Twins(leaf, up[i]) {
      if i > 0 {
        ChainLink(up, 0, anchor, pool, t, i);
      }
      assert up[i] in Known(l);
    }
    IssuedLeafVerifies(l, leaf, p, up, t);
  }

  /** With no path length limits and a stranger's request: exactly when a certificate that may
      issue still verifies. */
  lemma LeafVerifiesIffSignerDoes(l: Loaded, req: Request, ttl: int, signedAt: int, t: int)
    requires FirstRoot(l.certificates).Some? && Anchor(l).isCA && Unlimited(l)
    requires Stranger(LeafCert(req, l, signedAt, ttl), l)
    ensures var leaf := LeafCert(req, l, signedAt, ttl);
            Verifies(leaf, Anchor(l), Pool(l.certificates), t) <==> ValidAt(leaf, t) && SignerVerifies(l, t)
  {
    hide FirstRoot, Pool, Known, Unlimited, Stranger;
    var leaf, anchor, pool := LeafCert(req, l, signedAt, ttl), Anchor(l), Pool(l.certificates);
    if path :| Chain(path, 0, anchor, pool, t) && path[0] == leaf && NoTwins(path) {
      SignerOfChainVerifies(l, path, t);
      assert MayIssue(path[1], l);
    }
    if ValidAt(leaf, t) && SignerVerifies(l, t) {
      var p :| p in Known(l) && MayIssue(p, l) && Verifies(p, anchor, pool, t);
      VerifyingSignerIssues(l, leaf, p, t);
    }
  }

  lemma SignerOfChainVerifies(l: Loaded, path: seq<Cert>, t: int)
    requires FirstRoot(l.certificates).Some?
    requires Chain(path, 0, Anchor(l), Pool(l.certificates), t) && NoTwins(path) && path[0] != Anchor(l)
    ensures |path| > 1 && path[1] in Known(l) && Issues(path[1], path[0]) && ValidAt(path[0], t)
    ensures Verifies(path[1], Anchor(l), Pool(l.certificates), t)
  {
    hide FirstRoot, Pool;
    var anchor, pool := Anchor(l), Pool(l.certificates);
    ChainLink(path, 0, anchor, pool, t, 1);
    TailApart({}, path);
    ChainLower(path[1..], 1, 0, anchor, pool, t);
    assert path[1..][0] == path[1];
  }

  /** With no path length limits, a signing certificate that still verifies at `t` and may sign
      issues leaves that verify at `t` to strangers. */
  lemma LeafVerifies(content: seq<Block>, now: int, l: Loaded, req: Request, ttl: int, signedAt: int, t: int)
    requires Load(content, now) == Ok(l)
    ensures FirstRoot(l.certificates).Some?
    ensures var leaf := LeafCert(req, l, signedAt, ttl);
            Unlimited(l) && Stranger(leaf, l) && l.certificate.cert.certSign && ValidAt(leaf, t)
            && Verifies(l.certificate.cert, Anchor(l), Pool(l.certificates), t)
            ==> Verifies(leaf, Anchor(l), Pool(l.certificates), t)
  {
    SignerIsReachable(content, now, l);
    hide Load, FirstRoot, Pool, Unlimited, Stranger, Verifies;
    if Unlimited(l) && Stranger(LeafCert(req, l, signedAt, ttl), l) {
      LeafVerifiesIffSignerDoes(l, req, ttl, signedAt, t);
      assert MayIssue(l.certificate.cert, l) || !l.certificate.cert.certSign;
    }
  }
}
