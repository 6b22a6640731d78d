/** pkg/tls: reading a PEM bundle, loading a certificate authority from it, and issuing. */
module Authority {
  import opened Common
  import opened X509

  // ----- parser.go -----

  /** One PEM block; None where the DER inside does not parse. */
  datatype Block =
    | CertificateBlock(cert: Option<Cert>)
    | RequestBlock(requestKey: Option<Key>)
    | PublicKeyBlock(publicKey: Option<Key>)
    | PrivateKeyBlock(privateKey: Option<Key>)
    | OtherBlock(kind: string)

  datatype X509Certificate = X509Certificate(kind: CertType, cert: Cert)

  datatype Container =
    | CertificateContainer(certificate: X509Certificate)
    | RequestContainer(request: Key)
    | PublicKeyContainer(public: Key)
    | PrivateKeyContainer(private: Key)

  /** Only RSA and ECDSA keys are supported. */
  predicate Supported(k: Option<Key>) {
    k.Some? && k.value.alg != Ed25519
  }

  function Convert(c: Cert): X509Certificate {
    X509Certificate(TypeOf(c), c)
  }

  function ParsePEM(block: Block): Result<Container, string> {
    match block
    case CertificateBlock(cert) =>
      if cert.Some? && Supported(Some(cert.value.key)) then Ok(CertificateContainer(Convert(cert.value)))
      else Err("unsupported certificate")
    case RequestBlock(key) => if Supported(key) then Ok(RequestContainer(key.value)) else Err("unsupported request")
    case PublicKeyBlock(key) =>
      if Supported(key) then Ok(PublicKeyContainer(key.value)) else Err("unsupported public key")
    case PrivateKeyBlock(key) =>
      if Supported(key) then Ok(PrivateKeyContainer(key.value)) else Err("unsupported private key")
    case OtherBlock(_) => Err("unsupported PEM type")
  }

  function Parsed(content: seq<Block>): seq<Container> {
    if content == [] then [] else
      Parsed(content[..|content| - 1]) +
      match ParsePEM(content[|content| - 1]) case Ok(c) => [c] case Err(_) => []
  }

  ghost predicate AllParse(content: seq<Block>) {
    forall i :: 0 <= i < |content| ==> ParsePEM(content[i]).Ok?
  }

  /** Every block is read; a bad one is reported and skipped. */
  method ParsePEMs(content: seq<Block>) returns (containers: seq<Container>, errors: seq<string>)
    ensures containers == Parsed(content)
    ensures errors == [] <==> AllParse(content)
  {
    containers, errors := [], [];
    var rest := content;
    ghost var done := 0;
    while rest != []
      invariant 0 <= done <= |content| && rest == content[done..]
      invariant containers == Parsed(content[..done])
      invariant errors == [] <==> AllParse(content[..done])
    {
      var block := rest[0];
      rest := rest[1..];
      assert content[..done + 1] == content[..done] + [block];
      done := done + 1;
      match ParsePEM(block) {
        case Err(e) =>
          errors := errors + [e];
          assert content[..done][done - 1] == block;
        case Ok(c) =>
          containers := containers + [c];
      }
    }
    assert content[..done] == content;
  }

  // ----- what init picks out of the containers -----

  function CertsOf(cs: seq<Container>): seq<X509Certificate> {
    if cs == [] then [] else
      CertsOf(cs[..|cs| - 1]) +
      if cs[|cs| - 1].CertificateContainer? then [cs[|cs| - 1].certificate] else []
  }

  function FirstKey(cs: seq<Container>): Option<Key> {
    if cs == [] then None
    else if cs[0].PrivateKeyContainer? then Some(cs[0].private)
    else FirstKey(cs[1..])
  }

  function FirstCA(certs: seq<X509Certificate>): Option<X509Certificate> {
    if certs == [] then None
    else if certs[0].cert.isCA then Some(certs[0])
    else FirstCA(certs[1..])
  }

  function FirstRoot(certs: seq<X509Certificate>): Option<X509Certificate> {
    if certs == [] then None
    else if certs[0].kind == RootCA then Some(certs[0])
    else FirstRoot(certs[1..])
  }

  function Intermediates(certs: seq<X509Certificate>): seq<X509Certificate> {
    if certs == [] then [] else
      Intermediates(certs[..|certs| - 1]) +
      if certs[|certs| - 1].kind == IntermediateCA then [certs[|certs| - 1]] else []
  }

  function Pool(certs: seq<X509Certificate>): set<Cert> {
    set x | x in Intermediates(certs) :: x.cert
  }

  datatype LoadError =
    | MissingSigningCertificate | BadPEM | MissingCAPrivateKey | MissingCACertificate
    | KeyMismatch | MissingTrustAnchor | Unverified

  datatype Loaded = Loaded(privateKey: Key, certificate: X509Certificate, certificates: seq<X509Certificate>)

  /** Loading a bundle: the first private key, the first CA certificate, which must carry the
      key and must verify at `now` against the first root through the bundle's intermediates. */
  function Load(content: seq<Block>, now: int): Result<Loaded, LoadError> {
    var cs := Parsed(content);
    var certs := CertsOf(cs);
    var key, cert, root := FirstKey(cs), FirstCA(certs), FirstRoot(certs);
    if exists i :: 0 <= i < |content| && ParsePEM(content[i]).Err? then Err(BadPEM)
    else if key.None? then Err(MissingCAPrivateKey)
    else if cert.None? then Err(MissingCACertificate)
    else if cert.value.cert.key != key.value then Err(KeyMismatch)
    else if root.None? then Err(MissingTrustAnchor)
    else if !Search(cert.value.cert, 0, {}, root.value.cert, Pool(certs), now) then Err(Unverified)
    else Ok(Loaded(key.value, cert.value, certs))
  }

  // ----- util.go -----

  const DEFAULT_CA_TTL := 3650 * 24 * 3600
  const DEFAULT_LEAF_TTL := 24 * 3600

  /** x509.CreateCertificate: the template signed by `priv` as issued by `parentSubject`; an
      error when the parent has a public key that is not the one of `priv`. */
  function Sign(template: Cert, parentSubject: string, parentKey: Option<Key>, priv: Key): Result<Cert, string> {
    if parentKey.Some? && parentKey.value != priv then Err("provided PrivateKey doesn't match parent's PublicKey")
    else Ok(template.(issuer := parentSubject, signer := priv))
  }

  function CACert(subject: string, sans: string, issuer: string, key: Key, signer: Key, now: int, ttl: int): Cert {
    Cert(subject, sans, issuer, key, signer, true, true, true, None, now,
         now + if ttl == 0 then DEFAULT_CA_TTL else ttl)
  }

  /** The certificate lives for the given seconds from now, and for `default` of them when 0 is given. */
  predicate LivesFor(c: Cert, now: int, ttl: int, default: int) {
    c.notBefore == now && c.notAfter - now == if ttl != 0 then ttl else default
  }

  /** An authority without a path length limit; ten years of 365 days by default. */
  predicate IssuedCA(c: Cert, subject: string, sans: string, issuer: string, key: Key, signer: Key, now: int, ttl: int)
  {
    && c.subject == subject && c.sans == sans && c.issuer == issuer && c.key == key && c.signer == signer
    && c.isCA && c.certSign && c.serverAuth && c.maxPathLen.None?
    && LivesFor(c, now, ttl, 10 * 365 * 86400)
  }

  /** A new CA certificate over the freshly generated RSA key `newKey`: self-signed without a
      parent, issued by the parent otherwise. */
  method CreateCACertificate(subject: string, sans: string, ttl: int, parent: Option<Cert>, priv: Option<Key>,
                             newKey: nat, now: int)
    returns (r: Result<(X509Certificate, Key), string>)
    ensures var signer := if priv.None? then Key(RSA, newKey) else priv.value;
            var issuer := if parent.None? then subject else parent.value.subject;
            && (r.Ok? <==> (parent.Some? ==> parent.value.key == signer))
            && (r.Ok? ==> r.value.0 == Convert(CACert(subject, sans, issuer, Key(RSA, newKey), signer, now, ttl)))
            && (r.Ok? ==> IssuedCA(r.value.0.cert, subject, sans, issuer, Key(RSA, newKey), signer, now, ttl))
            && (r.Ok? ==> r.value.1 == Key(RSA, newKey))
  {
    var lifetime := ttl;
    if lifetime == 0 {
      lifetime := DEFAULT_CA_TTL;
    }
    var key := Key(RSA, newKey);
    var ca := Cert(subject, sans, "", key, key, true, true, true, None, now, now + lifetime);
    var parentSubject, parentKey := ca.subject, None;
    if parent.Some? {
      parentSubject, parentKey := parent.value.subject, Some(parent.value.key);
    }
    var signer := key;
    if priv.Some? {
      signer := priv.value;
    }
    match Sign(ca, parentSubject, parentKey, signer) {
      case Err(e) => return Err(e);
      case Ok(cert) => return Ok((Convert(cert), key));
    }
  }

  // ----- authority.go -----

  datatype Request = Request(subject: string, sans: string, key: Key)

  function LeafCert(req: Request, ca: Loaded, now: int, ttl: int): Cert {
    Cert(req.subject, req.sans, ca.certificate.cert.subject, req.key, ca.privateKey, false, false, true, None,
         now, now + if ttl == 0 then DEFAULT_LEAF_TTL else ttl)
  }

  /** No authority and no signer of certificates; one day by default. */
  predicate IssuedLeaf(c: Cert, req: Request, issuer: string, signer: Key, now: int, ttl: int) {
    && c.subject == req.subject && c.sans == req.sans && c.key == req.key && c.issuer == issuer && c.signer == signer
    && !c.isCA && !c.certSign && c.serverAuth && c.maxPathLen.None?
    && LivesFor(c, now, ttl, 86400)
  }

  class CA {
    var privateKey: Option<Key>
    var certificate: Option<X509Certificate>
    var certificates: seq<X509Certificate>

    constructor ()
      ensures privateKey == None && certificate == None && certificates == []
    {
      privateKey, certificate, certificates := None, None, [];
    }

    /** The state of a successfully loaded authority. */
    ghost predicate Is(l: Loaded)
      reads this
    {
      privateKey == Some(l.privateKey) && certificate == Some(l.certificate) && certificates == l.certificates
    }

    method GetIntermediates() returns (ims: seq<X509Certificate>)
      ensures ims == Intermediates(certificates)
    {
      ims := [];
      for i := 0 to |certificates|
        invariant ims == Intermediates(certificates[..i])
      {
        assert certificates[..i + 1][..i] == certificates[..i];
        if certificates[i].kind == IntermediateCA {
          ims := ims + [certificates[i]];
        }
      }
      assert certificates[..|certificates|] == certificates;
    }

    method GetTrustAnchor() returns (root: Option<X509Certificate>)
      ensures root == FirstRoot(certificates)
      ensures root.None? ==> forall i :: 0 <= i < |certificates| ==> certificates[i].kind != RootCA
      ensures root.Some? ==> root.value.kind == RootCA
      ensures root.Some? ==> exists i :: 0 <= i < |certificates| && certificates[i] == root.value
                                         && forall j :: 0 <= j < i ==> certificates[j].kind != RootCA
    {
      for i := 0 to |certificates|
        invariant FirstRoot(certificates) == FirstRoot(certificates[i..])
        invariant forall j :: 0 <= j < i ==> certificates[j].kind != RootCA
      {
        if certificates[i].kind == RootCA {
          return Some(certificates[i]);
        }
      }
      return None;
    }

    method PickCertificate()
      requires certificate == None
      modifies this`certificate
      ensures certificate == FirstCA(certificates)
    {
      for i := 0 to |certificates|
        invariant certificate == None && FirstCA(certificates) == FirstCA(certificates[i..])
      {
        if certificates[i].cert.isCA {
          certificate := Some(certificates[i]);
          return;
        }
      }
    }

    method Init(content: seq<Block>, now: int) returns (err: Option<LoadError>)
      requires privateKey == None && certificate == None && certificates == []
      modifies this
      ensures err.None? <==> Load(content, now).Ok?
      ensures err.Some? ==> Load(content, now) == Err(err.value)
      ensures err.None? ==> Is(Load(content, now).value)
    {
      var containers, errors := ParsePEMs(content);
      if errors != [] {
        return Some(BadPEM);
      }
      for i := 0 to |containers|
        invariant certificates == CertsOf(containers[..i])
        invariant certificate == None
        invariant privateKey == None ==> FirstKey(containers) == FirstKey(containers[i..])
        invariant privateKey.Some? ==> FirstKey(containers) == privateKey
      {
        assert containers[..i + 1][..i] == containers[..i];
        match containers[i] {
          case PrivateKeyContainer(key) =>
            if privateKey == None {
              privateKey := Some(key);
            }
          case CertificateContainer(c) =>
            certificates := certificates + [c];
          case _ =>
        }
      }
      assert containers[..|containers|] == containers;
      PickCertificate();
      if privateKey == None {
        return Some(MissingCAPrivateKey);
      }
      if certificate == None {
        return Some(MissingCACertificate);
      }
      if certificate.value.cert.key != privateKey.value {
        return Some(KeyMismatch);
      }
      var ta := GetTrustAnchor();
      if ta == None {
        return Some(MissingTrustAnchor);
      }
      var ims := GetIntermediates();
      var pool := set x | x in ims :: x.cert;
      if !Search(certificate.value.cert, 0, {}, ta.value.cert, pool, now) {
        return Some(Unverified);
      }
      return None;
    }

    /** A leaf certificate for the request, with the intermediates that link it to the anchor.
        The source asserts that the authority's key is an RSA key. */
    method SignCertificateRequest(req: Request, ttl: int, now: int, ghost l: Loaded)
      returns (r: Result<X509Certificate, string>, chain: seq<X509Certificate>)
      requires Is(l) && l.privateKey.alg == RSA && l.certificate.cert.key == l.privateKey
      ensures r.Ok? <==> Supported(Some(req.key))
      ensures r.Ok? ==> r.value == Convert(LeafCert(req, l, now, ttl))
      ensures r.Ok? ==> r.value.kind == Leaf
                        && IssuedLeaf(r.value.cert, req, l.certificate.cert.subject, l.privateKey, now, ttl)
      ensures chain == Intermediates(l.certificates)
    {
      var lifetime := ttl;
      if lifetime == 0 {
        lifetime := DEFAULT_LEAF_TTL;
      }
      var template := Cert(req.subject, req.sans, "", req.key, req.key, false, false, true, None, now, now + lifetime);
      var parent := certificate.value.cert;
      var signed := Sign(template, parent.subject, Some(parent.key), privateKey.value);
      chain := GetIntermediates();
      match ParsePEM(CertificateBlock(Some(signed.value))) {
        case Err(e) => r := Err(e);
        case Ok(c) => r := Ok(c.certificate);
      }
    }

    method CreateIntermediate(subject: string, sans: string, ttl: int, newKey: nat, now: int, ghost l: Loaded)
      returns (cert: X509Certificate, key: Key, chain: seq<X509Certificate>)
      requires Is(l) && l.privateKey.alg == RSA && l.certificate.cert.key == l.privateKey
      ensures key == Key(RSA, newKey)
      ensures cert == Convert(CACert(subject, sans, l.certificate.cert.subject, key, l.privateKey, now, ttl))
      ensures IssuedCA(cert.cert, subject, sans, l.certificate.cert.subject, key, l.privateKey, now, ttl)
      ensures chain == Intermediates(l.certificates)
    {
      var r := CreateCACertificate(subject, sans, ttl, Some(certificate.value.cert), privateKey, newKey, now);
      chain := GetIntermediates();
      cert, key := r.value.0, r.value.1;
    }
  }

  /** A certificate authority from a bundle, if one was given at all. */
  method NewCertificateAuthority(content: Option<seq<Block>>, now: int) returns (r: Result<CA, LoadError>)
    ensures content.None? ==> r == Err(MissingSigningCertificate)
    ensures content.Some? ==> (r.Ok? <==> Load(content.value, now).Ok?)
    ensures content.Some? && r.Err? ==> Load(content.value, now) == Err(r.error)
    ensures content.Some? && r.Ok? ==> fresh(r.value) && r.value.Is(Load(content.value, now).value)
  {
    if content.None? {
      return Err(MissingSigningCertificate);
    }
    var ca := new CA();
    var err := ca.Init(content.value, now);
    if err.Some? {
      return Err(err.value);
    }
    return Ok(ca);
  }
}
