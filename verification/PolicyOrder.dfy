/** internal/policy/policy.go on values: the comparator, the stable sort it drives, and
    when that sort puts more specific policies first. */
module PolicyOrder {
  import opened Common
  import opened Selectors

  datatype Certificate = Certificate(workloadID: string, dnsNames: seq<string>, ttl: int)

  datatype Connection = Connection(strict: bool, allowedSPIFFEIDs: seq<string>)

  /** The part of a policy that ordering neither reads nor writes. */
  datatype PolicyInfo = PolicyInfo(id: string, certificate: Option<Certificate>, connection: Option<Connection>)

  datatype PolicyTree = PolicyTree(position: int, info: PolicyInfo, selectors: seq<Selector>, egress: seq<PolicyTree>)

  // ----- map inclusion -----

  lemma SubsetIsSmaller<K, V>(sub: map<K, V>, m: map<K, V>)
    requires SubsetOf(sub, m)
    ensures |sub| <= |m|
  {
    assert sub.Keys <= m.Keys;
    CardinalityOfSubset(sub.Keys, m.Keys);
    assert |sub.Keys| == |sub| && |m.Keys| == |m|;
  }

  lemma {:induction false} CardinalityOfSubset<T>(a: set<T>, b: set<T>)
    requires a <= b
    ensures |a| <= |b|
  {
    if x :| x in a {
      CardinalityOfSubset(a - {x}, b - {x});
    }
  }

  lemma MutualSubset<K, V>(a: map<K, V>, b: map<K, V>)
    requires SubsetOf(a, b) && SubsetOf(b, a)
    ensures a == b
  {
    assert a.Keys == b.Keys;
  }

  /** The early exit on sizes never changes the answer. */
  method IsMapSubset<K(==), V(==)>(m: map<K, V>, sub: map<K, V>) returns (r: bool)
    ensures r <==> SubsetOf(sub, m)
  {
    if |sub| > |m| {
      if SubsetOf(sub, m) {
        SubsetIsSmaller(sub, m);
      }
      return false;
    }
    var rest := sub.Keys;
    while rest != {}
      invariant rest <= sub.Keys
      invariant forall k :: k in sub && k !in rest ==> k in m && m[k] == sub[k]
      decreases |rest|
    {
      var k :| k in rest;
      if k !in m || m[k] != sub[k] {
        return false;
      }
      rest := rest - {k};
    }
    return true;
  }

  // ----- the comparator -----

  /** One map is a proper superset of the other. */
  ghost predicate Above(x: Selector, y: Selector) {
    x != y && SubsetOf(y, x)
  }

  /** Some selector of `a` is a proper superset of some selector of `b`. */
  ghost predicate MoreSpecific(a: seq<Selector>, b: seq<Selector>) {
    exists i, j :: 0 <= i < |a| && 0 <= j < |b| && Above(a[i], b[j])
  }

  method Less(a: seq<Selector>, b: seq<Selector>) returns (r: bool)
    ensures r <==> MoreSpecific(a, b)
  {
    for i := 0 to |a|
      invariant forall k, j :: 0 <= k < i && 0 <= j < |b| ==> !Above(a[k], b[j])
    {
      for j := 0 to |b|
        invariant forall k :: 0 <= k < j ==> !Above(a[i], b[k])
      {
        if a[i] == b[j] {
          continue;
        }
        var sub := IsMapSubset(a[i], b[j]);
        if sub {
          assert Above(a[i], b[j]);
          return true;
        }
      }
    }
    return false;
  }

  lemma AboveIsAStrictOrder(x: Selector, y: Selector, z: Selector)
    ensures !Above(x, x)
    ensures Above(x, y) ==> !Above(y, x)
    ensures Above(x, y) && Above(y, z) ==> Above(x, z)
  {
    if Above(x, y) && SubsetOf(x, y) {
      MutualSubset(x, y);
    }
    if Above(x, y) && Above(y, z) && x == z {
      MutualSubset(x, y);
    }
  }

  /** On policies with one selector each the comparator is proper superset itself, hence
      irreflexive, asymmetric and transitive. */
  lemma SingleSelectorsAreStrictlyOrdered(a: seq<Selector>, b: seq<Selector>, c: seq<Selector>)
    requires |a| == 1 && |b| == 1 && |c| == 1
    ensures MoreSpecific(a, b) <==> Above(a[0], b[0])
    ensures !MoreSpecific(a, a)
    ensures MoreSpecific(a, b) ==> !MoreSpecific(b, a)
    ensures MoreSpecific(a, b) && MoreSpecific(b, c) ==> MoreSpecific(a, c)
  {
    AboveIsAStrictOrder(a[0], b[0], c[0]);
    AboveIsAStrictOrder(a[0], a[0], a[0]);
    assert Above(a[0], b[0]) ==> MoreSpecific(a, b);
    assert Above(a[0], c[0]) ==> MoreSpecific(a, c);
  }

  ghost predicate Before(p: PolicyTree, q: PolicyTree) {
    MoreSpecific(p.selectors, q.selectors)
  }

  // ----- the stable sort -----

  /** One round of the insertion sort: `x` moves left while it is less than its neighbour. */
  ghost function Insert(s: seq<PolicyTree>, x: PolicyTree): (t: seq<PolicyTree>)
    ensures multiset(t) == multiset(s) + multiset{x}
  {
    if s == [] then [x] else
      DropLast(s);
      var last := s[|s| - 1];
      if Before(x, last) then Insert(s[..|s| - 1], x) + [last] else s + [x]
  }

  ghost function Sort(s: seq<PolicyTree>): (t: seq<PolicyTree>)
    ensures multiset(t) == multiset(s)
  {
    if s == [] then [] else
      DropLast(s);
      Insert(Sort(s[..|s| - 1]), s[|s| - 1])
  }

  /** No policy precedes a strictly more specific one. */
  ghost predicate Ordered(s: seq<PolicyTree>) {
    forall i, j :: 0 <= i < j < |s| ==> !Before(s[j], s[i])
  }

  /** The comparator is a strict weak order on the policies of `m`, compared as different
      list members: no two are each less than the other, and what is less than another
      stays comparable to one of the two for every third. */
  ghost predicate WeakOrder(m: multiset<PolicyTree>) {
    && (forall x, y :: multiset{x, y} <= m ==> !(Before(x, y) && Before(y, x)))
    && (forall x, y, z :: multiset{x, y, z} <= m && Before(x, y) ==> Before(x, z) || Before(z, y))
  }

  lemma TwoMembers(s: seq<PolicyTree>, i: nat, j: nat)
    requires i < j < |s|
    ensures multiset{s[i], s[j]} <= multiset(s)
  {
    SplitAt(s, j);
    assert s[i] == (s[..j] + s[j + 1..])[i];
  }

  lemma WeakOrderOfPart(m: multiset<PolicyTree>, part: multiset<PolicyTree>)
    requires part <= m && WeakOrder(m)
    ensures WeakOrder(part)
  {
  }

  lemma WeakThird(m: multiset<PolicyTree>, x: PolicyTree, y: PolicyTree, z: PolicyTree)
    requires WeakOrder(m) && multiset{x, y, z} <= m
    ensures Before(x, y) ==> Before(x, z) || Before(z, y)
  {
  }

  lemma ThreeMembers(s: seq<PolicyTree>, i: nat, j: nat, x: PolicyTree)
    requires i < j < |s|
    ensures multiset{x, s[i], s[j]} <= multiset(s) + multiset{x}
  {
    TwoMembers(s, i, j);
  }

  /** Where `x` stops, nothing further left is below it. */
  lemma StopsInTime(s: seq<PolicyTree>, x: PolicyTree, i: nat)
    requires Ordered(s) && WeakOrder(multiset(s) + multiset{x})
    requires i < |s| && !Before(x, s[|s| - 1])
    ensures !Before(x, s[i])
  {
    var n := |s| - 1;
    if i < n {
      ThreeMembers(s, i, n, x);
      WeakThird(multiset(s) + multiset{x}, x, s[i], s[n]);
    }
  }

  /** What `x` passes stays below everything to its left. */
  lemma PassesSafely(s: seq<PolicyTree>, x: PolicyTree, e: PolicyTree)
    requires Ordered(s) && WeakOrder(multiset(s) + multiset{x})
    requires s != [] && Before(x, s[|s| - 1])
    requires e in multiset(s[..|s| - 1]) + multiset{x}
    ensures !Before(s[|s| - 1], e)
  {
    var n := |s| - 1;
    if e == x {
      assert multiset{x, s[n]} <= multiset(s) + multiset{x};
    } else {
      assert e in s[..n];
      var i :| 0 <= i < n && s[i] == e;
    }
  }

  lemma OrderedSnoc(s: seq<PolicyTree>, x: PolicyTree)
    requires Ordered(s) && forall i :: 0 <= i < |s| ==> !Before(x, s[i])
    ensures Ordered(s + [x])
  {
  }

  lemma {:induction false} InsertKeepsOrder(s: seq<PolicyTree>, x: PolicyTree)
    requires Ordered(s) && WeakOrder(multiset(s) + multiset{x})
    ensures Ordered(Insert(s, x))
  {
    if s == [] {
    } else {
      var n := |s| - 1;
      DropLast(s);
      if Before(x, s[n]) {
        WeakOrderOfPart(multiset(s) + multiset{x}, multiset(s[..n]) + multiset{x});
        InsertKeepsOrder(s[..n], x);
        var t := Insert(s[..n], x);
        forall i | 0 <= i < |t| ensures !Before(s[n], t[i]) {
          assert t[i] in multiset(t);
          PassesSafely(s, x, t[i]);
        }
        OrderedSnoc(t, s[n]);
      } else {
        forall i | 0 <= i < |s| ensures !Before(x, s[i]) {
          StopsInTime(s, x, i);
        }
        OrderedSnoc(s, x);
      }
    }
  }

  lemma {:induction false} SortOrders(s: seq<PolicyTree>)
    requires WeakOrder(multiset(s))
    ensures Ordered(Sort(s))
  {
    if s == [] {
    } else {
      var n := |s| - 1;
      DropLast(s);
      WeakOrderOfPart(multiset(s), multiset(s[..n]));
      SortOrders(s[..n]);
      InsertKeepsOrder(Sort(s[..n]), s[n]);
    }
  }
}
