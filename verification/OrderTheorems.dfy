/** What the sort guarantees and exactly when: ordered for every arrangement iff the
    comparator is a weak order, stable, and the only result a stable sort may give. */
module OrderTheorems {
  import opened Common
  import opened Selectors
  import opened PolicyOrder

  // ----- exactly when more specific policies come first -----

  ghost predicate Precedes(s: seq<PolicyTree>, y: PolicyTree, x: PolicyTree) {
    exists i, j :: 0 <= i < j < |s| && s[i] == y && s[j] == x
  }

  lemma PrecedesSnoc(s: seq<PolicyTree>, w: PolicyTree, y: PolicyTree, x: PolicyTree)
    requires Precedes(s, y, x) || (y in s && x == w)
    ensures Precedes(s + [w], y, x)
  {
    if Precedes(s, y, x) {
      var i, j :| 0 <= i < j < |s| && s[i] == y && s[j] == x;
      assert (s + [w])[i] == y && (s + [w])[j] == x;
    } else {
      var i :| 0 <= i < |s| && s[i] == y;
      assert (s + [w])[i] == y && (s + [w])[|s|] == x;
    }
  }

  lemma PrecedesInit(s: seq<PolicyTree>, y: PolicyTree, x: PolicyTree)
    requires Precedes(s, y, x)
    ensures Precedes(s[..|s| - 1], y, x) || (y in s[..|s| - 1] && x == s[|s| - 1])
  {
    var n := |s| - 1;
    var i, j :| 0 <= i < j < |s| && s[i] == y && s[j] == x;
    assert s[..n][i] == y;
    if j < n {
      assert s[..n][j] == x;
    }
  }

  lemma {:induction false} InsertKeepsPrecedence(s: seq<PolicyTree>, w: PolicyTree, y: PolicyTree, x: PolicyTree)
    requires Precedes(s, y, x)
    ensures Precedes(Insert(s, w), y, x)
  {
    var n := |s| - 1;
    if !Before(w, s[n]) {
      PrecedesSnoc(s, w, y, x);
    } else {
      hide Before;
      var t := Insert(s[..n], w);
      PrecedesInit(s, y, x);
      if Precedes(s[..n], y, x) {
        InsertKeepsPrecedence(s[..n], w, y, x);
      } else {
        assert y in multiset(t);
      }
      PrecedesSnoc(t, s[n], y, x);
    }
  }

  lemma SortSnoc(s: seq<PolicyTree>, w: PolicyTree)
    ensures Sort(s + [w]) == Insert(Sort(s), w)
  {
    assert (s + [w])[..|s|] == s;
  }

  lemma {:induction false} SortKeepsPrecedence(s: seq<PolicyTree>, rest: seq<PolicyTree>, y: PolicyTree, x: PolicyTree)
    requires Precedes(Sort(s), y, x)
    ensures Precedes(Sort(s + rest), y, x)
  {
    hide Sort, Insert, Precedes;
    if rest == [] {
      assert s + rest == s;
    } else {
      var n := |rest| - 1;
      SortKeepsPrecedence(s, rest[..n], y, x);
      AppendDropLast(s, rest);
      SortSnoc(s + rest[..n], rest[n]);
      InsertKeepsPrecedence(Sort(s + rest[..n]), rest[n], y, x);
    }
  }

  lemma {:induction false} ListMembers(m: multiset<PolicyTree>) returns (s: seq<PolicyTree>)
    ensures multiset(s) == m
    decreases |m|
  {
    s := [];
    if x :| x in m {
      s := ListMembers(m - multiset{x});
      s := s + [x];
    }
  }

  lemma TakeOut(m: multiset<PolicyTree>, part: multiset<PolicyTree>)
    requires part <= m
    ensures part + (m - part) == m
  {
  }

  lemma TwoPositions(s: seq<PolicyTree>, x: PolicyTree, y: PolicyTree)
    requires multiset{x, y} <= multiset(s)
    ensures Precedes(s, x, y) || Precedes(s, y, x)
  {
    assert x in multiset(s);
    var i :| 0 <= i < |s| && s[i] == x;
    SplitAt(s, i);
    var rest := s[..i] + s[i + 1..];
    assert y in multiset(rest);
    var j :| 0 <= j < |rest| && rest[j] == y;
    assert rest[j] == if j < i then s[j] else s[j + 1];
  }

  lemma PrecedingIsUnordered(s: seq<PolicyTree>, y: PolicyTree, x: PolicyTree)
    requires Precedes(s, y, x) && Before(x, y)
    ensures !Ordered(s)
  {
    hide Before;
  }

  ghost predicate OrderedForEveryArrangement(m: multiset<PolicyTree>) {
    forall s :: multiset(s) == m ==> Ordered(Sort(s))
  }

  lemma AsymmetryIsNeeded(ts: seq<PolicyTree>, x: PolicyTree, y: PolicyTree)
    requires multiset{x, y} <= multiset(ts) && Before(x, y) && Before(y, x)
    ensures !OrderedForEveryArrangement(multiset(ts))
  {
    TwoPositions(Sort(ts), x, y);
  }

  lemma ListOfThree(x: PolicyTree, y: PolicyTree, z: PolicyTree)
    ensures multiset([y, z, x]) == multiset{x, y, z} && Precedes([y, z, x], y, x)
  {
    hide Before;
    var s := [y, z, x];
    assert s[0] == y && s[2] == x;
  }

  /** An arrangement of the policies that puts y, z, x first. */
  lemma Arrange(ts: seq<PolicyTree>, x: PolicyTree, y: PolicyTree, z: PolicyTree) returns (s: seq<PolicyTree>)
    requires multiset{x, y, z} <= multiset(ts)
    ensures multiset([y, z, x] + s) == multiset(ts)
  {
    s := ListMembers(multiset(ts) - multiset{x, y, z});
    ListOfThree(x, y, z);
    TakeOut(multiset(ts), multiset{x, y, z});
  }

  lemma ComparabilityIsNeeded(ts: seq<PolicyTree>, x: PolicyTree, y: PolicyTree, z: PolicyTree)
    requires multiset{x, y, z} <= multiset(ts) && Before(x, y) && !Before(x, z) && !Before(z, y)
    ensures !OrderedForEveryArrangement(multiset(ts))
  {
    var rest := Arrange(ts, x, y, z);
    SortStays(y, z, x);
    var head := [y, z, x];
    assert head[0] == y && head[2] == x;
    SortKeepsPrecedence(head, rest, y, x);
    PrecedingIsUnordered(Sort(head + rest), y, x);
  }

  lemma InsertStays(s: seq<PolicyTree>, x: PolicyTree)
    requires s == [] || !Before(x, s[|s| - 1])
    ensures Insert(s, x) == s + [x]
  {
  }

  lemma InsertPasses(s: seq<PolicyTree>, y: PolicyTree, x: PolicyTree)
    requires Before(x, y)
    ensures Insert(s + [y], x) == Insert(s, x) + [y]
  {
    assert (s + [y])[..|s|] == s;
  }

  lemma SortOfOne(y: PolicyTree)
    ensures Sort([y]) == [y]
  {
    hide Before;
    SortSnoc([], y);
    InsertStays([], y);
    Pair(y, y);
  }

  lemma SortOfTwo(y: PolicyTree, z: PolicyTree)
    requires !Before(z, y)
    ensures Sort([y, z]) == [y, z]
  {
    hide Before, Sort;
    SortOfOne(y);
    SortSnoc([y], z);
    InsertStays([y], z);
    Pair(y, z);
  }

  lemma SortStays(y: PolicyTree, z: PolicyTree, x: PolicyTree)
    requires !Before(x, z) && !Before(z, y)
    ensures Sort([y, z, x]) == [y, z, x]
  {
    SortOfTwo(y, z);
    SortSnoc([y, z], x);
    InsertStays([y, z], x);
    assert [y, z] + [x] == [y, z, x];
  }

  /** The sort puts no policy before a strictly more specific one, however the policies
      happen to be arranged beforehand, exactly when the comparator is a weak order on them. */
  lemma OrderedIffWeakOrder(ts: seq<PolicyTree>)
    ensures OrderedForEveryArrangement(multiset(ts)) <==> WeakOrder(multiset(ts))
  {
    var m := multiset(ts);
    if WeakOrder(m) {
      forall s | multiset(s) == m ensures Ordered(Sort(s)) {
        SortOrders(s);
      }
    } else if x, y :| multiset{x, y} <= m && Before(x, y) && Before(y, x) {
      AsymmetryIsNeeded(ts, x, y);
    } else {
      var x, y, z :| multiset{x, y, z} <= m && Before(x, y) && !Before(x, z) && !Before(z, y);
      ComparabilityIsNeeded(ts, x, y, z);
    }
  }

  /** Up to this length the sort package sorts by insertion alone. */
  const INSERTION_BLOCK := 20

  ghost predicate ShortListsOrdered(m: multiset<PolicyTree>) {
    forall s :: multiset(s) <= m && |s| <= INSERTION_BLOCK ==> Ordered(Sort(s))
  }

  lemma MutualPairIsUnordered(m: multiset<PolicyTree>, x: PolicyTree, y: PolicyTree)
    requires multiset{x, y} <= m && Before(x, y) && Before(y, x)
    ensures !ShortListsOrdered(m)
  {
    hide Before, Sort, Ordered, Precedes;
    var s := [x, y];
    assert multiset(s) == multiset{x, y};
    TwoPositions(Sort(s), x, y);
    if Precedes(Sort(s), x, y) {
      PrecedingIsUnordered(Sort(s), x, y);
    } else {
      PrecedingIsUnordered(Sort(s), y, x);
    }
  }

  lemma TripleIsUnordered(m: multiset<PolicyTree>, x: PolicyTree, y: PolicyTree, z: PolicyTree)
    requires multiset{x, y, z} <= m && Before(x, y) && !Before(x, z) && !Before(z, y)
    ensures !ShortListsOrdered(m)
  {
    hide Before, Sort, Ordered, Precedes;
    ListOfThree(x, y, z);
    SortStays(y, z, x);
    PrecedingIsUnordered([y, z, x], y, x);
    assert |[y, z, x]| <= INSERTION_BLOCK;
  }

  /** So does every list that Go sorts by insertion, exactly then: what goes wrong in a longer
      list already goes wrong in one of two or three of its policies. */
  lemma ShortListsOrderedIff(m: multiset<PolicyTree>)
    ensures ShortListsOrdered(m) <==> WeakOrder(m)
  {
    hide Before, Sort, Ordered, ShortListsOrdered;
    if WeakOrder(m) {
      WeakOrderSorts(m);
    } else if x, y :| multiset{x, y} <= m && Before(x, y) && Before(y, x) {
      MutualPairIsUnordered(m, x, y);
    } else {
      var x, y, z :| multiset{x, y, z} <= m && Before(x, y) && !Before(x, z) && !Before(z, y);
      TripleIsUnordered(m, x, y, z);
    }
  }

  lemma WeakOrderSorts(m: multiset<PolicyTree>)
    requires WeakOrder(m)
    ensures ShortListsOrdered(m)
  {
    hide WeakOrder, Sort, Ordered;
    forall s | multiset(s) <= m && |s| <= INSERTION_BLOCK ensures Ordered(Sort(s)) {
      WeakOrderOfPart(m, multiset(s));
      SortOrders(s);
    }
  }

  ghost predicate Nested(a: Selector, b: Selector) {
    SubsetOf(a, b) || SubsetOf(b, a)
  }

  /** Policies with one selector each, pairwise nested or equal, are always put in order. */
  lemma NestedSelectorsAreWeaklyOrdered(m: multiset<PolicyTree>)
    requires forall p :: p in m ==> |p.selectors| == 1
    requires forall p, q :: p in m && q in m ==> Nested(p.selectors[0], q.selectors[0])
    ensures WeakOrder(m)
  {
    forall x, y | multiset{x, y} <= m ensures !(Before(x, y) && Before(y, x)) {
      assert x in m && y in m;
      SingleSelectorsAreStrictlyOrdered(x.selectors, y.selectors, x.selectors);
    }
    forall x, y, z | multiset{x, y, z} <= m && Before(x, y) ensures Before(x, z) || Before(z, y) {
      assert x in m && y in m && z in m;
      SingleSelectorsAreStrictlyOrdered(x.selectors, y.selectors, z.selectors);
      SingleSelectorsAreStrictlyOrdered(x.selectors, z.selectors, y.selectors);
      SingleSelectorsAreStrictlyOrdered(z.selectors, y.selectors, x.selectors);
      NestedThird(x.selectors[0], y.selectors[0], z.selectors[0]);
    }
  }

  lemma NestedThird(a: Selector, b: Selector, c: Selector)
    requires Above(a, b) && Nested(a, c) && Nested(c, b)
    ensures Above(a, c) || Above(c, b)
  {
    AboveIsAStrictOrder(a, c, b);
    AboveIsAStrictOrder(a, b, c);
    if a != c && c != b && !SubsetOf(c, a) && !SubsetOf(b, c) {
      SubsetTransitive(a, c, b);
      MutualSubset(a, b);
      assert false;
    }
  }

  lemma SubsetTransitive(a: Selector, b: Selector, c: Selector)
    requires SubsetOf(a, b) && SubsetOf(b, c)
    ensures SubsetOf(a, c)
  {
  }

  ghost function Plain(selectors: seq<Selector>): PolicyTree {
    PolicyTree(0, PolicyInfo("", None, None), selectors, [])
  }

  /** Three single-selector policies that the sort leaves in the wrong order. */
  lemma OrderCanFail()
    ensures var a, b, ac := Plain([map["a=1" := true]]), Plain([map["b=1" := true]]),
                            Plain([map["a=1" := true, "c=1" := true]]);
            && Before(ac, a) && !Before(ac, b) && !Before(b, a)
            && Sort([a, b, ac]) == [a, b, ac]
  {
    var ma: Selector, mb: Selector := map["a=1" := true], map["b=1" := true];
    var mac: Selector := map["a=1" := true, "c=1" := true];
    var a, b, ac := Plain([ma]), Plain([mb]), Plain([mac]);
    SingleSelectorsAreStrictlyOrdered([mac], [ma], [mb]);
    SingleSelectorsAreStrictlyOrdered([mac], [mb], [ma]);
    SingleSelectorsAreStrictlyOrdered([mb], [ma], [mac]);
    assert "c=1" in mac && "c=1" !in ma;
    assert "b=1" in mb && "b=1" !in mac && "a=1" in ma && "a=1" !in mb;
    assert !Above(mac, mb) && !Above(mb, ma) && Above(mac, ma);
    SortStays(a, b, ac);
  }

  /** Two two-selector policies that are each less than the other. */
  lemma AsymmetryCanFail()
    ensures var p, q := Plain([map["a=1" := true], map["b=1" := true, "c=1" := true]]),
                        Plain([map["b=1" := true], map["a=1" := true, "c=1" := true]]);
            Before(p, q) && Before(q, p)
  {
    var a: Selector, b: Selector := map["a=1" := true], map["b=1" := true];
    var ac: Selector, bc: Selector := map["a=1" := true, "c=1" := true], map["b=1" := true, "c=1" := true];
    assert "c=1" in ac && "c=1" !in a && "c=1" in bc && "c=1" !in b;
    assert Above(bc, b) && Above(ac, a);
    var p, q := [a, bc], [b, ac];
    assert Above(p[1], q[0]) && Above(q[1], p[0]);
  }

  // ----- stability and uniqueness -----

  /** Neither policy has to come before the other. */
  ghost predicate Tied(x: PolicyTree, y: PolicyTree) {
    x == y || (!Before(x, y) && !Before(y, x))
  }

  ghost function Only(x: PolicyTree, y: PolicyTree): seq<PolicyTree> {
    if Tied(x, y) then [y] else []
  }

  /** The policies tied with `x`, in list order. */
  ghost function Ties(s: seq<PolicyTree>, x: PolicyTree): seq<PolicyTree> {
    if s == [] then [] else
      Ties(s[..|s| - 1], x) + Only(x, s[|s| - 1])
  }

  /** `t` keeps the order `s` has among the policies tied with each of its members. */
  ghost predicate Stable(s: seq<PolicyTree>, t: seq<PolicyTree>) {
    forall x :: x in multiset(s) ==> Ties(t, x) == Ties(s, x)
  }

  lemma TiesSnoc(s: seq<PolicyTree>, y: PolicyTree, x: PolicyTree)
    ensures Ties(s + [y], x) == Ties(s, x) + Only(x, y)
  {
    assert (s + [y])[..|s|] == s;
  }

  lemma NotBothTied(m: multiset<PolicyTree>, x: PolicyTree, y: PolicyTree, w: PolicyTree)
    requires WeakOrder(m) && w in m && multiset{x, y} <= m && Before(x, y)
    ensures !(Tied(w, x) && Tied(w, y))
  {
    if w != x && w != y {
      assert multiset{x, y, w} <= m;
    }
  }

  lemma SwapOneEmpty(a: seq<PolicyTree>, b: seq<PolicyTree>, c: seq<PolicyTree>)
    requires b == [] || c == []
    ensures a + b + c == a + c + b
  {
  }

  lemma {:induction false} InsertIsStable(m: multiset<PolicyTree>, s: seq<PolicyTree>, x: PolicyTree, w: PolicyTree)
    requires WeakOrder(m) && w in m && multiset(s) + multiset{x} <= m
    ensures Ties(Insert(s, x), w) == Ties(s, w) + Only(w, x)
  {
    if s == [] {
      TiesSnoc([], x, w);
      assert [] + [x] == [x];
    } else {
      var n := |s| - 1;
      DropLast(s);
      TiesSnoc(s[..n], s[n], w);
      if Before(x, s[n]) {
        assert multiset{x, s[n]} <= multiset(s) + multiset{x};
        NotBothTied(m, x, s[n], w);
        InsertIsStable(m, s[..n], x, w);
        InsertPasses(s[..n], s[n], x);
        TiesSnoc(Insert(s[..n], x), s[n], w);
        SwapOneEmpty(Ties(s[..n], w), Only(w, x), Only(w, s[n]));
      } else {
        InsertStays(s, x);
        TiesSnoc(s, x, w);
      }
    }
  }

  lemma {:induction false} SortIsStable(m: multiset<PolicyTree>, s: seq<PolicyTree>, w: PolicyTree)
    requires WeakOrder(m) && w in m && multiset(s) <= m
    ensures Ties(Sort(s), w) == Ties(s, w)
  {
    if s == [] {
    } else {
      var n := |s| - 1;
      DropLast(s);
      SortIsStable(m, s[..n], w);
      InsertIsStable(m, Sort(s[..n]), s[n], w);
      TiesSnoc(s[..n], s[n], w);
    }
  }

  lemma {:induction false} TiesCons(y: PolicyTree, s: seq<PolicyTree>, x: PolicyTree)
    ensures Ties([y] + s, x) == Only(x, y) + Ties(s, x)
  {
    if s == [] {
      TiesSnoc([], y, x);
      Pair(y, y);
      assert [y] + s == [y];
    } else {
      hide Only;
      var n := |s| - 1;
      TiesCons(y, s[..n], x);
      DropLast(s);
      TiesSnoc(s[..n], s[n], x);
      TiesSnoc([y] + s[..n], s[n], x);
      AppendDropLast([y], s);
      Assoc(Only(x, y), Ties(s[..n], x), Only(x, s[n]));
    }
  }

  lemma SplitHead(s: seq<PolicyTree>)
    requires s != []
    ensures s == [s[0]] + s[1..] && multiset(s) == multiset(s[1..]) + multiset{s[0]}
  {
    assert s == [s[0]] + s[1..];
  }

  lemma TiesHead(s: seq<PolicyTree>, x: PolicyTree)
    requires s != []
    ensures Ties(s, x) == Only(x, s[0]) + Ties(s[1..], x)
  {
    SplitHead(s);
    TiesCons(s[0], s[1..], x);
  }

  /** A member that an ordered list puts behind its head is not less than the head. */
  lemma HeadIsLeast(s: seq<PolicyTree>, x: PolicyTree)
    requires Ordered(s) && x in multiset(s)
    ensures s != [] && (x == s[0] || !Before(x, s[0]))
  {
    var i :| 0 <= i < |s| && s[i] == x;
  }

  lemma FirstIsDetermined(s: seq<PolicyTree>, t: seq<PolicyTree>)
    requires multiset(s) == multiset(t) && Ordered(s) && Ordered(t) && Stable(s, t)
    requires s != [] && t != []
    ensures s[0] == t[0]
  {
    assert s[0] in multiset(s) && t[0] in multiset(t);
    HeadIsLeast(s, t[0]);
    HeadIsLeast(t, s[0]);
    TiesHead(s, s[0]);
    TiesHead(t, s[0]);
    assert Ties(s, s[0])[0] == s[0] && Ties(t, s[0])[0] == t[0];
  }

  lemma TailsAgree(s: seq<PolicyTree>, t: seq<PolicyTree>)
    requires s != [] && t != [] && s[0] == t[0]
    requires multiset(s) == multiset(t) && Stable(s, t)
    ensures multiset(s[1..]) == multiset(t[1..]) && Stable(s[1..], t[1..])
  {
    SplitHead(s);
    SplitHead(t);
    CancelOne(multiset(s[1..]), multiset(t[1..]), s[0]);
    forall x | x in multiset(s[1..]) ensures Ties(t[1..], x) == Ties(s[1..], x) {
      assert x in multiset(s);
      TiesHead(s, x);
      TiesHead(t, x);
      CancelPrefix(Only(x, s[0]), Ties(s[1..], x), Ties(t[1..], x));
    }
  }

  /** An ordered, stable permutation is determined: any stable sort gives the same list. */
  lemma {:induction false} StableSortIsUnique(s: seq<PolicyTree>, t: seq<PolicyTree>)
    requires multiset(s) == multiset(t) && Ordered(s) && Ordered(t) && Stable(s, t)
    ensures s == t
  {
    assert |s| == |multiset(s)| == |multiset(t)| == |t|;
    if s == [] {
    } else {
      FirstIsDetermined(s, t);
      TailsAgree(s, t);
      StableSortIsUnique(s[1..], t[1..]);
      SplitHead(s);
      SplitHead(t);
    }
  }

  // ----- the sort of the standard library -----

  /** What is used of `sort.SliceStable`: lists of at most 20 are sorted by insertion, and where the
      comparator is a weak order the result is ordered and stable. */
  ghost predicate SortsLikeGo(f: seq<PolicyTree> -> seq<PolicyTree>) {
    && (forall s :: |s| <= INSERTION_BLOCK ==> f(s) == Sort(s))
    && (forall s :: WeakOrder(multiset(s)) ==> SortsStably(s, f(s)))
  }

  ghost predicate SortsStably(s: seq<PolicyTree>, t: seq<PolicyTree>) {
    multiset(t) == multiset(s) && Ordered(t) && Stable(s, t)
  }

  lemma SortSortsStably(s: seq<PolicyTree>)
    requires WeakOrder(multiset(s))
    ensures SortsStably(s, Sort(s))
  {
    SortOrders(s);
    forall x | x in multiset(s) ensures Ties(Sort(s), x) == Ties(s, x) {
      SortIsStable(multiset(s), s, x);
    }
  }

  /** The insertion sort is one such sort. */
  lemma InsertionSortsLikeGo()
    ensures SortsLikeGo(s => Sort(s))
  {
    hide WeakOrder, SortsStably;
    forall s | WeakOrder(multiset(s)) ensures SortsStably(s, Sort(s)) {
      SortSortsStably(s);
    }
  }

  /** Lists of any length, sorted by any such sort: every list of the policies comes out in order
      exactly when the comparator is a weak order on them. */
  lemma LikeGoOrdersIff(f: seq<PolicyTree> -> seq<PolicyTree>, m: multiset<PolicyTree>)
    ensures SortsLikeGo(f) ==> ((forall s :: multiset(s) <= m ==> Ordered(f(s))) <==> WeakOrder(m))
  {
    hide WeakOrder, Ordered, Stable, Sort;
    if SortsLikeGo(f) {
      ShortListsOrderedIff(m);
      if WeakOrder(m) {
        forall s | multiset(s) <= m ensures Ordered(f(s)) {
          WeakOrderOfPart(m, multiset(s));
        }
      } else {
        var s :| multiset(s) <= m && |s| <= INSERTION_BLOCK && !Ordered(Sort(s));
        assert f(s) == Sort(s);
      }
    }
  }
}
