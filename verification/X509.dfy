/** Certificates with signatures reduced to "signed by this key", and path validation
    (RFC 5280, section 6.1) as the existence of a chain to the trust anchor. */
module X509 {
  import opened Common

  datatype Algorithm = RSA | ECDSA | Ed25519

  /** A key pair; a certificate carries its public half, a signature names the pair that made it. */
  datatype Key = Key(alg: Algorithm, id: nat)

  /** `sans` stands for the encoded subject alternative names. */
  datatype Cert = Cert(
    subject: string,
    sans: string,
    issuer: string,
    key: Key,
    signer: Key,
    isCA: bool,
    certSign: bool,            // key usage absent, or including certificate signing
    serverAuth: bool,          // extended key usage absent, or including server authentication
    maxPathLen: Option<nat>,
    notBefore: int,
    notAfter: int)

  datatype CertType = RootCA | IntermediateCA | Leaf

  function TypeOf(c: Cert): CertType {
    if c.subject == c.issuer && c.signer == c.key && c.isCA then RootCA
    else if c.isCA then IntermediateCA
    else Leaf
  }

  predicate ValidAt(c: Cert, t: int) {
    c.notBefore <= t <= c.notAfter
  }

  /** `parent` is an authority that signed `child`. */
  predicate Issues(parent: Cert, child: Cert) {
    child.issuer == parent.subject && child.signer == parent.key && parent.isCA && parent.certSign
  }

  /** What is asked of a certificate that has `depth` certificates below it in a chain; a path
      length limit counts the authorities below, not the certificate at the bottom. */
  predicate Usable(c: Cert, depth: nat, t: int) {
    ValidAt(c, t) && c.serverAuth && (c.maxPathLen.Some? ==> depth <= c.maxPathLen.value + 1)
  }

  /** `path` leads from its first certificate, at `depth`, up to the anchor through `pool`. */
  ghost predicate Chain(path: seq<Cert>, depth: nat, anchor: Cert, pool: set<Cert>, t: int) {
    && path != [] && Usable(path[0], depth, t)
    && if |path| == 1 then path[0] == anchor
       else (Issues(path[1], path[0]) && (|path| == 2 || path[1] in pool)
             && Chain(path[1..], depth + 1, anchor, pool, t))
  }

  /** One entity to the verifier, which never puts an entity into a chain twice. */
  predicate Twins(a: Cert, b: Cert) {
    a.subject == b.subject && a.key == b.key && a.sans == b.sans
  }

  ghost predicate NoTwins(path: seq<Cert>) {
    forall i, j :: 0 <= i < j < |path| ==> !Twins(path[i], path[j])
  }

  /** A certificate verifies when some chain leads from it to the anchor. */
  ghost predicate Verifies(c: Cert, anchor: Cert, pool: set<Cert>, t: int) {
    exists path :: Chain(path, 0, anchor, pool, t) && path[0] == c && NoTwins(path)
  }

  predicate NewTo(below: set<Cert>, c: Cert) {
    forall x :: x in below ==> !Twins(x, c)
  }

  /** The search for such a chain, going up from `c`; `below` are the certificates under it. */
  predicate Search(c: Cert, depth: nat, below: set<Cert>, anchor: Cert, pool: set<Cert>, t: int)
    decreases |pool|
  {
    var chain := below + {c};
    Usable(c, depth, t) &&
    (c == anchor
     || (Issues(anchor, c) && NewTo(chain, anchor) && Usable(anchor, depth + 1, t))
     || exists p :: p in pool && Issues(p, c) && NewTo(chain, p) && Search(p, depth + 1, chain, anchor, pool - {p}, t))
  }

  /** What is asked of the certificate at place `k` of a chain: in its validity period and fit for
      servers; with no more authorities below it than its limit; issued by the next one, which is
      an authority that may sign and is in the pool unless it is the last; and the last the anchor. */
  ghost predicate HoldsAt(path: seq<Cert>, k: nat, depth: nat, anchor: Cert, pool: set<Cert>, t: int)
    requires k < |path|
  {
    var c := path[k];
    && c.notBefore <= t <= c.notAfter && c.serverAuth
    && (c.maxPathLen.Some? ==> depth + k - 1 <= c.maxPathLen.value)
    && if k == |path| - 1 then c == anchor
       else path[k + 1].isCA && path[k + 1].certSign
            && c.issuer == path[k + 1].subject && c.signer == path[k + 1].key
            && (k + 1 < |path| - 1 ==> path[k + 1] in pool)
  }

  ghost predicate HoldsEverywhere(path: seq<Cert>, depth: nat, anchor: Cert, pool: set<Cert>, t: int) {
    path != [] && forall k :: 0 <= k < |path| ==> HoldsAt(path, k, depth, anchor, pool, t)
  }

  lemma HoldsAbove(path: seq<Cert>, depth: nat, anchor: Cert, pool: set<Cert>, t: int)
    requires |path| > 1
    ensures HoldsEverywhere(path, depth, anchor, pool, t) <==>
            HoldsAt(path, 0, depth, anchor, pool, t) && HoldsEverywhere(path[1..], depth + 1, anchor, pool, t)
  {
    forall k | 0 < k < |path|
      ensures HoldsAt(path, k, depth, anchor, pool, t) <==> HoldsAt(path[1..], k - 1, depth + 1, anchor, pool, t)
    {
    }
    if HoldsEverywhere(path, depth, anchor, pool, t) {
      var up, d := path[1..], depth + 1;
      forall k | 0 <= k < |up| ensures HoldsAt(up, k, d, anchor, pool, t) {
        assert HoldsAt(path, k + 1, depth, anchor, pool, t);
      }
    }
    hide HoldsAt;
  }

  lemma ChainStep(path: seq<Cert>, depth: nat, anchor: Cert, pool: set<Cert>, t: int)
    requires |path| > 1
    ensures Chain(path, depth, anchor, pool, t) <==>
            HoldsAt(path, 0, depth, anchor, pool, t) && Chain(path[1..], depth + 1, anchor, pool, t)
  {
  }

  /** A chain, place by place. */
  lemma {:induction false} ChainIff(path: seq<Cert>, depth: nat, anchor: Cert, pool: set<Cert>, t: int)
    ensures Chain(path, depth, anchor, pool, t) <==> HoldsEverywhere(path, depth, anchor, pool, t)
  {
    if |path| > 1 {
      ChainIff(path[1..], depth + 1, anchor, pool, t);
      ChainStep(path, depth, anchor, pool, t);
      HoldsAbove(path, depth, anchor, pool, t);
      hide HoldsEverywhere, HoldsAt, Chain;
    } else if |path| == 1 {
      assert HoldsEverywhere(path, depth, anchor, pool, t) <==> HoldsAt(path, 0, depth, anchor, pool, t);
    }
  }

  lemma ChainMonotone(path: seq<Cert>, depth: nat, anchor: Cert, pool: set<Cert>, bigger: set<Cert>, t: int)
    requires Chain(path, depth, anchor, pool, t) && pool <= bigger
    ensures Chain(path, depth, anchor, bigger, t)
  {
  }

  /** A chain stays usable with fewer certificates below it. */
  lemma {:induction false} ChainLower(path: seq<Cert>, depth: nat, lower: nat, anchor: Cert, pool: set<Cert>, t: int)
    requires Chain(path, depth, anchor, pool, t) && lower <= depth
    ensures Chain(path, lower, anchor, pool, t)
  {
    if |path| > 1 {
      ChainLower(path[1..], depth + 1, lower + 1, anchor, pool, t);
    }
  }

  lemma {:induction false} ChainSuffix(path: seq<Cert>, depth: nat, anchor: Cert, pool: set<Cert>, t: int, j: nat)
    requires Chain(path, depth, anchor, pool, t) && j < |path|
    ensures Chain(path[j..], depth + j, anchor, pool, t)
  {
    if j > 0 {
      ChainSuffix(path[1..], depth + 1, anchor, pool, t, j - 1);
      assert path[1..][j - 1..] == path[j..];
    } else {
      assert path[0..] == path;
    }
  }

  lemma ChainCons(c: Cert, path: seq<Cert>, depth: nat, anchor: Cert, pool: set<Cert>, t: int)
    requires Chain(path, depth + 1, anchor, pool, t) && Usable(c, depth, t) && Issues(path[0], c)
    requires |path| == 1 || path[0] in pool
    ensures Chain([c] + path, depth, anchor, pool, t)
  {
    assert ([c] + path)[1..] == path;
  }

  /** No certificate of `path` above its first is a twin of one in `below`. */
  ghost predicate Apart(below: set<Cert>, path: seq<Cert>) {
    forall i :: 0 < i < |path| ==> NewTo(below, path[i])
  }

  lemma NoTwinsCons(c: Cert, path: seq<Cert>)
    requires NoTwins(path) && forall i :: 0 <= i < |path| ==> !Twins(c, path[i])
    ensures NoTwins([c] + path)
  {
  }

  lemma {:induction false} SearchFindsChain(c: Cert, depth: nat, below: set<Cert>, anchor: Cert, pool: set<Cert>,
                                            t: int)
    returns (path: seq<Cert>)
    requires Search(c, depth, below, anchor, pool, t)
    ensures Chain(path, depth, anchor, pool, t) && path[0] == c && NoTwins(path) && Apart(below, path)
    decreases |pool|
  {
    var chain := below + {c};
    if c == anchor {
      path := [c];
    } else if Issues(anchor, c) && NewTo(chain, anchor) && Usable(anchor, depth + 1, t) {
      path := [c, anchor];
      assert path[1..] == [anchor];
    } else {
      var p :| p in pool && Issues(p, c) && NewTo(chain, p) && Search(p, depth + 1, chain, anchor, pool - {p}, t);
      var rest := SearchFindsChain(p, depth + 1, chain, anchor, pool - {p}, t);
      hide Usable, Issues, Twins, Search;
      ChainMonotone(rest, depth + 1, anchor, pool - {p}, pool, t);
      path := [c] + rest;
      ChainCons(c, rest, depth, anchor, pool, t);
      assert forall i :: 0 <= i < |rest| ==> NewTo(chain, rest[i]);
      NoTwinsCons(c, rest);
    }
  }

  /** Dropping a certificate from the pool that a chain does not pass through. */
  lemma {:induction false} ChainAvoids(path: seq<Cert>, depth: nat, anchor: Cert, pool: set<Cert>, t: int, p: Cert)
    requires Chain(path, depth, anchor, pool, t)
    requires p !in path[1..]
    ensures Chain(path, depth, anchor, pool - {p}, t)
  {
    if |path| > 1 {
      assert path[1] in path[1..];
      assert forall x :: x in path[1..][1..] ==> x in path[1..];
      ChainAvoids(path[1..], depth + 1, anchor, pool, t, p);
    }
  }

  lemma TailApart(below: set<Cert>, path: seq<Cert>)
    requires |path| > 1 && NoTwins(path) && Apart(below, path)
    ensures NoTwins(path[1..]) && NewTo(below + {path[0]}, path[1]) && Apart(below + {path[0]}, path[1..])
    ensures path[1] !in path[1..][1..]
  {
    assert forall i :: 0 < i < |path| ==> !Twins(path[0], path[i]);
    assert forall i :: 0 <= i < |path| - 1 ==> path[1..][i] == path[i + 1];
  }

  /** The search misses no chain. */
  lemma {:induction false} ChainIsFound(path: seq<Cert>, depth: nat, below: set<Cert>, anchor: Cert, pool: set<Cert>,
                                        t: int)
    requires Chain(path, depth, anchor, pool, t) && NoTwins(path) && Apart(below, path)
    ensures Search(path[0], depth, below, anchor, pool, t)
    decreases |path|
  {
    if |path| > 1 {
      var p := path[1];
      TailApart(below, path);
      if |path| == 2 {
        assert path[1..][0] == anchor;
      } else {
        ChainAvoids(path[1..], depth + 1, anchor, pool, t, p);
        ChainIsFound(path[1..], depth + 1, below + {path[0]}, anchor, pool - {p}, t);
      }
    }
  }

  /** The search decides verification. */
  lemma SearchDecides(c: Cert, anchor: Cert, pool: set<Cert>, t: int)
    ensures Search(c, 0, {}, anchor, pool, t) <==> Verifies(c, anchor, pool, t)
  {
    if Search(c, 0, {}, anchor, pool, t) {
      var path := SearchFindsChain(c, 0, {}, anchor, pool, t);
    }
    if path :| Chain(path, 0, anchor, pool, t) && path[0] == c && NoTwins(path) {
      ChainIsFound(path, 0, {}, anchor, pool, t);
    }
  }

  // ----- what the rule against twins costs -----

  lemma {:induction false} ChainLink(path: seq<Cert>, depth: nat, anchor: Cert, pool: set<Cert>, t: int, k: nat)
    requires Chain(path, depth, anchor, pool, t) && 0 < k < |path|
    ensures Issues(path[k], path[k - 1])
    ensures path[k] == anchor || path[k] in pool
    ensures k < |path| - 1 ==> path[k] in pool
  {
    if k > 1 {
      ChainLink(path[1..], depth + 1, anchor, pool, t, k - 1);
    } else if |path| == 2 {
      assert path[1..][0] == anchor;
    }
  }

  /** Between two twins a chain can be cut out. */
  lemma {:induction false} Splice(path: seq<Cert>, depth: nat, anchor: Cert, pool: set<Cert>, t: int, i: nat, j: nat)
    requires Chain(path, depth, anchor, pool, t) && 0 < i < j < |path| && Twins(path[i], path[j])
    ensures Chain(path[..i] + path[j..], depth, anchor, pool, t)
  {
    ChainLink(path, depth, anchor, pool, t, 1);
    if i == 1 {
      ChainLink(path, depth, anchor, pool, t, j);
      ChainSuffix(path, depth, anchor, pool, t, j);
      ChainLower(path[j..], depth + j, depth + 1, anchor, pool, t);
      ChainCons(path[0], path[j..], depth, anchor, pool, t);
      assert path[..1] == [path[0]];
    } else {
      Splice(path[1..], depth + 1, anchor, pool, t, i - 1, j - 1);
      var rest := path[1..][..i - 1] + path[1..][j - 1..];
      assert rest[0] == path[1];
      ChainCons(path[0], rest, depth, anchor, pool, t);
      assert [path[0]] + rest == path[..i] + path[j..];
    }
  }

  /** Every chain can be cut until only its first certificate may still have twins in it. */
  lemma {:induction false} ChainCanBeCut(path: seq<Cert>, depth: nat, anchor: Cert, pool: set<Cert>, t: int)
    returns (short: seq<Cert>)
    requires Chain(path, depth, anchor, pool, t) && Apart({path[0]}, path)
    ensures Chain(short, depth, anchor, pool, t) && short[0] == path[0] && NoTwins(short)
    decreases |path|
  {
    hide Usable, Issues;
    if NoTwins(path) {
      short := path;
    } else {
      var i, j :| 0 <= i < j < |path| && Twins(path[i], path[j]);
      assert NewTo({path[0]}, path[j]);
      Splice(path, depth, anchor, pool, t, i, j);
      var cut := path[..i] + path[j..];
      forall k | 0 < k < |cut| ensures NewTo({path[0]}, cut[k]) {
        assert cut[k] == path[if k < i then k else k - i + j];
      }
      short := ChainCanBeCut(cut, depth, anchor, pool, t);
    }
  }

  /** So the rule matters only for the certificate that is verified: it verifies exactly when
      some chain of signatures leads from it to the anchor past none of its own twins. */
  lemma VerifiesIffChain(c: Cert, anchor: Cert, pool: set<Cert>, t: int)
    ensures Verifies(c, anchor, pool, t) <==>
        exists path :: Chain(path, 0, anchor, pool, t) && path[0] == c && Apart({c}, path)
  {
    if path :| Chain(path, 0, anchor, pool, t) && path[0] == c && NoTwins(path) {
      assert Apart({c}, path);
    }
    if path :| Chain(path, 0, anchor, pool, t) && path[0] == c && Apart({c}, path) {
      var short := ChainCanBeCut(path, 0, anchor, pool, t);
    }
  }
}
