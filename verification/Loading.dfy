/** Exactly which bundles load, as what, and with which error the others are refused: read off the
    blocks of the bundle. */
module Loading {
  import opened Common
  import opened X509
  import opened Authority
  import opened Issuing
  import opened Bundles

  // ----- blocks -----

  predicate RSAOrECDSA(k: Option<Key>) {
    k.Some? && (k.value.alg == RSA || k.value.alg == ECDSA)
  }

  /** A block of a known kind whose content parses, with a supported key. */
  predicate Readable(b: Block) {
    match b
    case CertificateBlock(cert) => cert.Some? && RSAOrECDSA(Some(cert.value.key))
    case RequestBlock(key) => RSAOrECDSA(key)
    case PublicKeyBlock(key) => RSAOrECDSA(key)
    case PrivateKeyBlock(key) => RSAOrECDSA(key)
    case OtherBlock(_) => false
  }

  ghost predicate AllReadable(content: seq<Block>) {
    forall i :: 0 <= i < |content| ==> Readable(content[i])
  }

  predicate IsAuthority(b: Block) {
    b.CertificateBlock? && b.cert.Some? && b.cert.value.isCA
  }

  /** An authority in its own name, signed with its own key. */
  predicate IsRoot(b: Block) {
    IsAuthority(b) && b.cert.value.subject == b.cert.value.issuer && b.cert.value.signer == b.cert.value.key
  }

  ghost predicate EarliestKey(content: seq<Block>, i: nat) {
    i < |content| && content[i].PrivateKeyBlock? && forall j :: 0 <= j < i ==> !content[j].PrivateKeyBlock?
  }

  ghost predicate EarliestAuthority(content: seq<Block>, i: nat) {
    i < |content| && IsAuthority(content[i]) && forall j :: 0 <= j < i ==> !IsAuthority(content[j])
  }

  ghost predicate EarliestRoot(content: seq<Block>, i: nat) {
    i < |content| && IsRoot(content[i]) && forall j :: 0 <= j < i ==> !IsRoot(content[j])
  }

  ghost predicate NoKey(content: seq<Block>) {
    forall i :: 0 <= i < |content| ==> !content[i].PrivateKeyBlock?
  }

  ghost predicate NoAuthority(content: seq<Block>) {
    forall i :: 0 <= i < |content| ==> !IsAuthority(content[i])
  }

  ghost predicate NoRoot(content: seq<Block>) {
    forall i :: 0 <= i < |content| ==> !IsRoot(content[i])
  }

  /** The other authorities. */
  function Between(content: seq<Block>): set<Cert> {
    set i | 0 <= i < |content| && IsAuthority(content[i]) && !IsRoot(content[i]) :: content[i].cert.value
  }

  /** The certificates of the bundle, in its order. */
  function Certificates(content: seq<Block>): seq<Cert> {
    if content == [] then [] else
      Certificates(content[..|content| - 1]) + match content[|content| - 1]
                                               case CertificateBlock(Some(c)) => [c]
                                               case _ => []
  }

  /** The earliest key belongs to the earliest authority. */
  ghost predicate KeyMatches(content: seq<Block>, k: nat, c: nat) {
    && EarliestKey(content, k) && EarliestAuthority(content, c)
    && content[k].privateKey == Some(content[c].cert.value.key)
  }

  ghost predicate KeyDiffers(content: seq<Block>, k: nat, c: nat) {
    && EarliestKey(content, k) && EarliestAuthority(content, c)
    && content[k].privateKey != Some(content[c].cert.value.key)
  }

  ghost predicate VerifiesAt(content: seq<Block>, c: nat, r: nat, now: int) {
    EarliestAuthority(content, c) && EarliestRoot(content, r)
    && Verifies(content[c].cert.value, content[r].cert.value, Between(content), now)
  }

  ghost predicate FailsAt(content: seq<Block>, c: nat, r: nat, now: int) {
    EarliestAuthority(content, c) && EarliestRoot(content, r)
    && !Verifies(content[c].cert.value, content[r].cert.value, Between(content), now)
  }

  // ----- what the selection functions pick -----

  lemma ReadableIsParsed(b: Block)
    ensures Readable(b) <==> ParsePEM(b).Ok?
  {
  }

  lemma {:induction false} ParsedAppend(a: seq<Block>, b: seq<Block>)
    ensures Parsed(a + b) == Parsed(a) + Parsed(b)
  {
    if b == [] {
      assert a + b == a;
    } else {
      var n := |b| - 1;
      ParsedAppend(a, b[..n]);
      assert (a + b)[..|a| + n] == a + b[..n];
    }
  }

  /** A block is read on its own: as what it holds, or not at all. */
  lemma ParsedOne(b: Block)
    ensures !Readable(b) ==> Parsed([b]) == []
    ensures Readable(b) ==>
              |Parsed([b])| == 1 &&
              match b
              case CertificateBlock(cert) => Parsed([b])[0] == CertificateContainer(Convert(cert.value))
              case RequestBlock(key) => Parsed([b])[0] == RequestContainer(key.value)
              case PublicKeyBlock(key) => Parsed([b])[0] == PublicKeyContainer(key.value)
              case PrivateKeyBlock(key) => Parsed([b])[0] == PrivateKeyContainer(key.value)
  {
    assert [b][..0] == [];
  }

  ghost predicate PicksKey(content: seq<Block>, key: Option<Key>) {
    if key.None? then NoKey(content) else exists i: nat :: EarliestKey(content, i) && content[i].privateKey == key
  }

  ghost predicate PicksAuthority(content: seq<Block>, x: Option<X509Certificate>) {
    if x.None? then NoAuthority(content)
    else x.value == Convert(x.value.cert)
         && exists i: nat :: EarliestAuthority(content, i) && content[i].cert == Some(x.value.cert)
  }

  ghost predicate PicksRoot(content: seq<Block>, x: Option<X509Certificate>) {
    if x.None? then NoRoot(content)
    else x.value == Convert(x.value.cert)
         && exists i: nat :: EarliestRoot(content, i) && content[i].cert == Some(x.value.cert)
  }

  lemma PicksKeySnoc(content: seq<Block>, b: Block, key: Option<Key>)
    requires PicksKey(content, key) && (b.PrivateKeyBlock? ==> b.privateKey.Some?)
    ensures PicksKey(content + [b], if key.Some? then key else if b.PrivateKeyBlock? then b.privateKey else None)
  {
    var more := content + [b];
    assert forall i :: 0 <= i < |content| ==> more[i] == content[i];
    if key.Some? {
      var i: nat :| EarliestKey(content, i) && content[i].privateKey == key;
      assert EarliestKey(more, i);
    } else if b.PrivateKeyBlock? {
      assert EarliestKey(more, |content|);
    }
  }

  lemma PicksAuthoritySnoc(content: seq<Block>, b: Block, x: Option<X509Certificate>)
    requires PicksAuthority(content, x)
    ensures PicksAuthority(content + [b],
                           if x.Some? then x else if IsAuthority(b) then Some(Convert(b.cert.value)) else None)
  {
    hide Convert;
    var more := content + [b];
    assert forall i :: 0 <= i < |content| ==> more[i] == content[i];
    if x.Some? {
      var i: nat :| EarliestAuthority(content, i) && content[i].cert == Some(x.value.cert);
      assert EarliestAuthority(more, i);
    } else if IsAuthority(b) {
      assert EarliestAuthority(more, |content|);
      ConvertKeeps(b.cert.value);
    }
  }

  lemma PicksRootSnoc(content: seq<Block>, b: Block, x: Option<X509Certificate>)
    requires PicksRoot(content, x)
    ensures PicksRoot(content + [b], if x.Some? then x else if IsRoot(b) then Some(Convert(b.cert.value)) else None)
  {
    hide Convert;
    var more := content + [b];
    assert forall i :: 0 <= i < |content| ==> more[i] == content[i];
    if x.Some? {
      var i: nat :| EarliestRoot(content, i) && content[i].cert == Some(x.value.cert);
      assert EarliestRoot(more, i);
    } else if IsRoot(b) {
      assert EarliestRoot(more, |content|);
      ConvertKeeps(b.cert.value);
    }
  }

  lemma ConvertKeeps(c: Cert)
    ensures Convert(c).cert == c
    ensures Convert(c).kind == RootCA <==> IsRoot(CertificateBlock(Some(c)))
    ensures var b := CertificateBlock(Some(c));
            Convert(c).kind == IntermediateCA <==> IsAuthority(b) && !IsRoot(b)
  {
  }

  lemma {:induction false} FirstCASnoc(certs: seq<X509Certificate>, x: X509Certificate)
    ensures FirstCA(certs + [x])
         == if FirstCA(certs).Some? then FirstCA(certs) else if x.cert.isCA then Some(x) else None
  {
    if certs == [] {
    } else {
      FirstCASnoc(certs[1..], x);
      assert (certs + [x])[1..] == certs[1..] + [x];
    }
  }

  lemma {:induction false} FirstRootSnoc(certs: seq<X509Certificate>, x: X509Certificate)
    ensures FirstRoot(certs + [x])
         == if FirstRoot(certs).Some? then FirstRoot(certs) else if x.kind == RootCA then Some(x) else None
  {
    if certs == [] {
    } else {
      FirstRootSnoc(certs[1..], x);
      assert (certs + [x])[1..] == certs[1..] + [x];
    }
  }

  lemma {:induction false} FirstKeyOfSnoc(cs: seq<Container>, c: Container)
    ensures FirstKey(cs + [c])
         == if FirstKey(cs).Some? then FirstKey(cs) else if c.PrivateKeyContainer? then Some(c.private) else None
  {
    if cs == [] {
    } else {
      FirstKeyOfSnoc(cs[1..], c);
      assert (cs + [c])[1..] == cs[1..] + [c];
    }
  }

  lemma AllReadableSnoc(content: seq<Block>, b: Block)
    ensures AllReadable(content + [b]) <==> AllReadable(content) && Readable(b)
  {
    assert (content + [b])[|content|] == b;
    assert forall i :: 0 <= i < |content| ==> (content + [b])[i] == content[i];
  }

  lemma {:induction false} KeyIsPicked(content: seq<Block>)
    requires AllReadable(content)
    ensures PicksKey(content, FirstKey(Parsed(content)))
  {
    if content == [] {
    } else {
      hide PicksKey, Convert, FirstKey, Parsed, AllReadable;
      var n := |content| - 1;
      var b := content[n];
      DropLast(content);
      AllReadableSnoc(content[..n], b);
      KeyIsPicked(content[..n]);
      ParsedSnoc(content[..n], b);
      ReadableIsParsed(b);
      FirstKeyOfSnoc(Parsed(content[..n]), ParsePEM(b).value);
      PicksKeySnoc(content[..n], b, FirstKey(Parsed(content[..n])));
    }
  }

  /** What the next block adds to the certificates. */
  lemma CertsOfParsedSnoc(content: seq<Block>, b: Block)
    requires Readable(b)
    ensures CertsOf(Parsed(content + [b]))
         == CertsOf(Parsed(content)) + if b.CertificateBlock? then [Convert(b.cert.value)] else []
  {
    hide Convert, Parsed, CertsOf;
    ParsedSnoc(content, b);
    CertsOfSnoc(Parsed(content), ParsePEM(b).value);
  }

  lemma {:induction false} CertsArePicked(content: seq<Block>)
    requires AllReadable(content)
    ensures PicksAuthority(content, FirstCA(CertsOf(Parsed(content))))
    ensures PicksRoot(content, FirstRoot(CertsOf(Parsed(content))))
  {
    if content == [] {
    } else {
      hide PicksAuthority, PicksRoot, Convert, FirstCA, FirstRoot, CertsOf, Parsed, AllReadable;
      var n := |content| - 1;
      var b, certs := content[n], CertsOf(Parsed(content[..n]));
      DropLast(content);
      AllReadableSnoc(content[..n], b);
      CertsArePicked(content[..n]);
      CertsOfParsedSnoc(content[..n], b);
      PicksAuthoritySnoc(content[..n], b, FirstCA(certs));
      PicksRootSnoc(content[..n], b, FirstRoot(certs));
      if b.CertificateBlock? {
        ConvertKeeps(b.cert.value);
        FirstCASnoc(certs, Convert(b.cert.value));
        FirstRootSnoc(certs, Convert(b.cert.value));
      } else {
        assert certs + [] == certs;
      }
    }
  }

  lemma {:induction false} CertsAreConverted(content: seq<Block>)
    requires AllReadable(content)
    ensures CertsOf(Parsed(content)) == Converted(Certificates(content))
  {
    if content == [] {
    } else {
      hide Convert, CertsOf, Parsed, AllReadable;
      var n := |content| - 1;
      var b := content[n];
      DropLast(content);
      AllReadableSnoc(content[..n], b);
      CertsAreConverted(content[..n]);
      CertsOfParsedSnoc(content[..n], b);
      if b.CertificateBlock? {
        CertsSnoc([], Certificates(content[..n]), b.cert.value);
      }
    }
  }

  lemma {:induction false} CertificatesMember(content: seq<Block>, c: Cert)
    ensures c in Certificates(content) <==> CertificateBlock(Some(c)) in content
  {
    if content == [] {
    } else {
      var n := |content| - 1;
      CertificatesMember(content[..n], c);
      DropLast(content);
    }
  }

  lemma PoolIsBetween(content: seq<Block>)
    requires AllReadable(content)
    ensures Pool(CertsOf(Parsed(content))) == Between(content)
  {
    CertsAreConverted(content);
    hide CertsOf, Parsed, AllReadable;
    var certs := Converted(Certificates(content));
    forall c ensures c in Pool(certs) <==> c in Between(content) {
      PoolMember(content, c);
    }
  }

  lemma PoolMember(content: seq<Block>, c: Cert)
    ensures c in Pool(Converted(Certificates(content))) <==> c in Between(content)
  {
    hide Convert, Intermediates, Certificates;
    var certs := Converted(Certificates(content));
    CertificatesMember(content, c);
    IntermediatesMember(certs, Convert(c));
    ConvertKeeps(c);
    if c in Pool(certs) {
      var x :| x in Intermediates(certs) && x.cert == c;
      IntermediatesMember(certs, x);
      var i :| 0 <= i < |certs| && certs[i] == x;
      ConvertKeeps(Certificates(content)[i]);
      assert Certificates(content)[i] == c;
    }
    if c in Between(content) {
      var i :| 0 <= i < |content| && IsAuthority(content[i]) && !IsRoot(content[i]) && content[i].cert.value == c;
      assert content[i] == CertificateBlock(Some(c));
      var j :| 0 <= j < |Certificates(content)| && Certificates(content)[j] == c;
      assert certs[j] == Convert(c);
    }
  }

  // ----- the selection, by block -----

  lemma KeyAt(content: seq<Block>)
    requires AllReadable(content)
    ensures NoKey(content) ==> FirstKey(Parsed(content)) == None
    ensures forall k: nat :: EarliestKey(content, k) ==> FirstKey(Parsed(content)) == content[k].privateKey
  {
    KeyIsPicked(content);
    hide FirstKey, Parsed, AllReadable;
  }

  lemma AuthorityAt(content: seq<Block>)
    requires AllReadable(content)
    ensures var certs := CertsOf(Parsed(content));
            && (NoAuthority(content) ==> FirstCA(certs) == None)
            && forall c: nat :: EarliestAuthority(content, c) ==> FirstCA(certs) == Some(Convert(content[c].cert.value))
  {
    CertsArePicked(content);
    hide FirstCA, CertsOf, Parsed, AllReadable, Convert, PicksRoot;
  }

  lemma RootAt(content: seq<Block>)
    requires AllReadable(content)
    ensures var certs := CertsOf(Parsed(content));
            && (NoRoot(content) ==> FirstRoot(certs) == None)
            && forall r: nat :: EarliestRoot(content, r) ==> FirstRoot(certs) == Some(Convert(content[r].cert.value))
  {
    CertsArePicked(content);
    hide FirstRoot, CertsOf, Parsed, AllReadable, Convert, PicksAuthority;
  }

  lemma {:induction false} EarliestOfAll(content: seq<Block>, n: nat) returns (k: nat, c: nat, r: nat)
    requires n <= |content|
    ensures EarliestKey(content, k) || forall i :: 0 <= i < n ==> !content[i].PrivateKeyBlock?
    ensures EarliestAuthority(content, c) || forall i :: 0 <= i < n ==> !IsAuthority(content[i])
    ensures EarliestRoot(content, r) || forall i :: 0 <= i < n ==> !IsRoot(content[i])
  {
    if n == 0 {
      k, c, r := 0, 0, 0;
    } else {
      k, c, r := EarliestOfAll(content, n - 1);
      var i := n - 1;
      k := if !EarliestKey(content, k) && content[i].PrivateKeyBlock? then i else k;
      c := if !EarliestAuthority(content, c) && IsAuthority(content[i]) then i else c;
      r := if !EarliestRoot(content, r) && IsRoot(content[i]) then i else r;
    }
  }

  // ----- every bundle -----

  lemma UnreadableIsRefused(content: seq<Block>, now: int)
    ensures !AllReadable(content) ==> Load(content, now) == Err(BadPEM)
    ensures AllReadable(content) ==> AllParse(content) && Load(content, now) != Err(BadPEM)
  {
    hide Parsed, CertsOf, FirstKey, FirstCA, FirstRoot, Pool, Search;
    forall i | 0 <= i < |content| ensures Readable(content[i]) <==> ParsePEM(content[i]).Ok? {
      ReadableIsParsed(content[i]);
    }
    hide ParsePEM, Readable;
  }

  lemma RefusedEarly(content: seq<Block>, now: int)
    requires AllReadable(content)
    ensures NoKey(content) ==> Load(content, now) == Err(MissingCAPrivateKey)
    ensures !NoKey(content) && NoAuthority(content) ==> Load(content, now) == Err(MissingCACertificate)
  {
    KeyAt(content);
    AuthorityAt(content);
    UnreadableIsRefused(content, now);
    var k, c, r := EarliestOfAll(content, |content|);
    hide Parsed, CertsOf, FirstKey, FirstCA, FirstRoot, Pool, Search, ParsePEM, AllReadable, Convert;
    if EarliestKey(content, k) {
      assert FirstKey(Parsed(content)) == content[k].privateKey;
    }
  }

  lemma EarliestKeyIsSome(content: seq<Block>, k: nat)
    requires AllReadable(content) && EarliestKey(content, k)
    ensures content[k].privateKey.Some?
  {
    assert Readable(content[k]);
  }

  lemma RefusedForKey(content: seq<Block>, now: int, k: nat, c: nat)
    requires AllReadable(content)
    ensures KeyDiffers(content, k, c) ==> Load(content, now) == Err(KeyMismatch)
    ensures KeyMatches(content, k, c) && NoRoot(content) ==> Load(content, now) == Err(MissingTrustAnchor)
  {
    if KeyDiffers(content, k, c) || KeyMatches(content, k, c) {
      KeyAt(content);
      AuthorityAt(content);
      RootAt(content);
      UnreadableIsRefused(content, now);
      EarliestKeyIsSome(content, k);
      ConvertKeeps(content[c].cert.value);
      hide Parsed, CertsOf, FirstKey, FirstCA, FirstRoot, Pool, Search, ParsePEM, AllReadable, Convert, NoRoot;
    }
  }

  /** What a bundle that is not refused before is loaded as, if its authority verifies. */
  lemma DecidedByVerification(content: seq<Block>, now: int, k: nat, c: nat, r: nat)
    requires AllReadable(content) && KeyMatches(content, k, c) && EarliestRoot(content, r)
    ensures content[k].privateKey.Some?
    ensures var key, cert := content[k].privateKey.value, content[c].cert.value;
            Load(content, now)
            == if Verifies(cert, content[r].cert.value, Between(content), now)
               then Ok(Loaded(key, Convert(cert), Converted(Certificates(content)))) else Err(Unverified)
    ensures FirstRoot(Converted(Certificates(content))) == Some(Convert(content[r].cert.value))
  {
    KeyAt(content);
    AuthorityAt(content);
    RootAt(content);
    UnreadableIsRefused(content, now);
    EarliestKeyIsSome(content, k);
    ConvertKeeps(content[c].cert.value);
    ConvertKeeps(content[r].cert.value);
    PoolIsBetween(content);
    CertsAreConverted(content);
    SearchDecides(content[c].cert.value, content[r].cert.value, Between(content), now);
    hide Parsed, CertsOf, FirstKey, FirstCA, FirstRoot, Pool, Search, Verifies, ParsePEM, AllReadable, Convert, Between;
  }

  ghost predicate SomeKeyDiffers(content: seq<Block>) {
    exists k: nat, c: nat :: KeyDiffers(content, k, c)
  }

  ghost predicate SomeKeyMatches(content: seq<Block>) {
    exists k: nat, c: nat :: KeyMatches(content, k, c)
  }

  ghost predicate SomeVerifies(content: seq<Block>, now: int) {
    exists k: nat, c: nat, r: nat :: KeyMatches(content, k, c) && VerifiesAt(content, c, r, now)
  }

  ghost predicate SomeFails(content: seq<Block>, now: int) {
    exists k: nat, c: nat, r: nat :: KeyMatches(content, k, c) && FailsAt(content, c, r, now)
  }

  /** Every bundle falls under one of these. */
  lemma EveryBundleIsJudged(content: seq<Block>, now: int)
    ensures NoKey(content) || NoAuthority(content) || SomeKeyDiffers(content)
            || (SomeKeyMatches(content) && NoRoot(content)) || SomeFails(content, now) || SomeVerifies(content, now)
  {
    hide Verifies, Between, IsRoot, IsAuthority;
    var k, c, r := EarliestOfAll(content, |content|);
    if EarliestKey(content, k) && EarliestAuthority(content, c) {
      assert KeyMatches(content, k, c) || KeyDiffers(content, k, c);
      if EarliestRoot(content, r) {
        assert FailsAt(content, c, r, now) || VerifiesAt(content, c, r, now);
      }
    }
  }

  /** And under each of these it has one outcome. */
  lemma Verdicts(content: seq<Block>, now: int)
    requires AllReadable(content)
    ensures SomeKeyDiffers(content) ==> Load(content, now) == Err(KeyMismatch)
    ensures SomeKeyMatches(content) && NoRoot(content) ==> Load(content, now) == Err(MissingTrustAnchor)
    ensures SomeFails(content, now) ==> Load(content, now) == Err(Unverified)
    ensures SomeVerifies(content, now) ==> Load(content, now).Ok?
  {
    hide Load, KeyMatches, KeyDiffers, Verifies, Between, AllReadable, NoRoot, EarliestAuthority, EarliestRoot;
    if k: nat, c: nat :| KeyDiffers(content, k, c) {
      RefusedForKey(content, now, k, c);
    }
    if k: nat, c: nat :| KeyMatches(content, k, c) {
      RefusedForKey(content, now, k, c);
    }
    if k: nat, c: nat, r: nat :| KeyMatches(content, k, c) && FailsAt(content, c, r, now) {
      DecidedByVerification(content, now, k, c, r);
    }
    if k: nat, c: nat, r: nat :| KeyMatches(content, k, c) && VerifiesAt(content, c, r, now) {
      DecidedByVerification(content, now, k, c, r);
    }
  }

  /** Exactly when a bundle loads: all blocks parse, the earliest private key is that of the earliest
      authority, and that one verifies to the earliest root through the other authorities. And
      exactly when it is refused, for each error. */
  lemma LoadsOrIsRefusedIff(content: seq<Block>, now: int)
    ensures Load(content, now) == Err(BadPEM) <==> !AllReadable(content)
    ensures Load(content, now) == Err(MissingCAPrivateKey) <==> AllReadable(content) && NoKey(content)
    ensures Load(content, now) == Err(MissingCACertificate) <==>
            AllReadable(content) && !NoKey(content) && NoAuthority(content)
    ensures Load(content, now) == Err(KeyMismatch) <==> AllReadable(content) && SomeKeyDiffers(content)
    ensures Load(content, now) == Err(MissingTrustAnchor) <==>
            AllReadable(content) && SomeKeyMatches(content) && NoRoot(content)
    ensures Load(content, now) == Err(Unverified) <==> AllReadable(content) && SomeFails(content, now)
    ensures Load(content, now).Ok? <==> AllReadable(content) && SomeVerifies(content, now)
  {
    UnreadableIsRefused(content, now);
    if AllReadable(content) {
      RefusedEarly(content, now);
      Verdicts(content, now);
      EveryBundleIsJudged(content, now);
    }
    hide Load, AllReadable, NoKey, NoAuthority, NoRoot, SomeKeyDiffers, SomeKeyMatches, SomeFails, SomeVerifies;
  }
}
