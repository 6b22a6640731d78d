/** The agent organizes what the loader has organized already: when that changes nothing. */
module SecondRun {
  import opened Common
  import opened PolicyOrder
  import opened OrderTheorems
  import opened OrganizeSpec

  // ----- under a weak order, for any stable sort -----

  lemma LevelStaysOrdered(s: seq<PolicyTree>, us: seq<PolicyTree>)
    requires Ordered(s) && |s| == |us| && forall k :: 0 <= k < |us| ==> us[k].selectors == s[k].selectors
    ensures Ordered(us)
  {
    forall i, j | 0 <= i < j < |us| ensures !Before(us[j], us[i]) {
      assert !Before(s[j], s[i]);
    }
  }

  lemma SecondReorderingIsTheFirst(s: seq<PolicyTree>, us: seq<PolicyTree>, t: seq<PolicyTree>)
    requires Ordered(s) && LevelFrom(true, s, us) && Reorders(true, us, t)
    ensures t == us
  {
    hide OrganizedFrom, Stable;
    LevelStaysOrdered(s, us);
    StableSortIsUnique(us, t);
  }

  /** Both runs done by any stable sorts: the second changes neither order nor Position. */
  lemma {:induction false} SecondRunChangesNothing(ts: seq<PolicyTree>, us: seq<PolicyTree>, vs: seq<PolicyTree>)
    requires OrganizedFrom(true, ts, us) && OrganizedFrom(true, us, vs)
    ensures vs == us
    decreases us
  {
    hide Ordered, Stable;
    var s: seq<PolicyTree> :| Reorders(true, ts, s) && LevelFrom(true, s, us);
    var t: seq<PolicyTree> :| Reorders(true, us, t) && LevelFrom(true, t, vs);
    SecondReorderingIsTheFirst(s, us, t);
    forall k | 0 <= k < |us| ensures vs[k] == us[k] {
      SecondRunChangesNothing(s[k].egress, us[k].egress, vs[k].egress);
    }
  }

  // ----- without a weak order -----

  /** No two different policies are each less than the other. */
  ghost predicate NoMutualPairs(m: multiset<PolicyTree>) {
    forall x, y :: multiset{x, y} <= m && Before(x, y) && Before(y, x) ==> x == y
  }

  ghost predicate NoMutualPairsBelow(ts: seq<PolicyTree>) {
    NoMutualPairs(multiset(ts)) && forall k :: 0 <= k < |ts| ==> NoMutualPairsBelow(ts[k].egress)
  }

  /** Policies with one selector each have none. */
  lemma SingleSelectorsHaveNoMutualPairs(s: seq<PolicyTree>)
    requires forall k :: 0 <= k < |s| ==> |s[k].selectors| == 1
    ensures NoMutualPairs(multiset(s))
  {
    forall x, y | multiset{x, y} <= multiset(s) && Before(x, y) ensures !Before(y, x) {
      assert x in multiset(s) && y in multiset(s);
      SingleSelectorsAreStrictlyOrdered(x.selectors, y.selectors, x.selectors);
    }
  }

  /** Neighbours are equal or in order: where an insertion sort has nothing to do. */
  ghost predicate Settled(s: seq<PolicyTree>) {
    forall i :: 0 < i < |s| ==> SettledPair(s[i - 1], s[i])
  }

  ghost predicate SettledPair(y: PolicyTree, x: PolicyTree) {
    x == y || !Before(x, y)
  }

  lemma SettledSnoc(s: seq<PolicyTree>, x: PolicyTree)
    requires Settled(s) && (s == [] || SettledPair(s[|s| - 1], x))
    ensures Settled(s + [x])
  {
  }

  lemma SettledInit(s: seq<PolicyTree>)
    requires Settled(s) && s != []
    ensures Settled(s[..|s| - 1])
    ensures |s| > 1 ==> SettledPair(s[|s| - 2], s[|s| - 1])
  {
  }

  /** `x` forms a mutual pair with nothing but its equals in `s`. */
  ghost predicate MeetsNoMutual(s: seq<PolicyTree>, x: PolicyTree) {
    forall y :: y in s && Before(x, y) && Before(y, x) ==> x == y
  }

  lemma {:induction false} InsertSettles(s: seq<PolicyTree>, x: PolicyTree)
    requires Settled(s) && MeetsNoMutual(s, x)
    ensures Settled(Insert(s, x))
    ensures var t := Insert(s, x); t[|t| - 1] == x || (s != [] && t[|t| - 1] == s[|s| - 1])
  {
    hide Before, Settled;
    if s == [] || !Before(x, s[|s| - 1]) {
      InsertStays(s, x);
      SettledSnoc(s, x);
    } else {
      var n := |s| - 1;
      DropLast(s);
      SettledInit(s);
      InsertSettles(s[..n], x);
      InsertPasses(s[..n], s[n], x);
      SettledSnoc(Insert(s[..n], x), s[n]);
    }
  }

  lemma MeetsNoMutualBefore(s: seq<PolicyTree>, t: seq<PolicyTree>, x: PolicyTree)
    requires NoMutualPairs(multiset(s) + multiset{x}) && multiset(t) == multiset(s)
    ensures MeetsNoMutual(t, x)
  {
    forall y | y in t && Before(x, y) && Before(y, x) ensures x == y {
      assert y in multiset(t);
      assert multiset{x, y} <= multiset(s) + multiset{x};
    }
  }

  lemma {:induction false} SortSettles(s: seq<PolicyTree>)
    requires NoMutualPairs(multiset(s))
    ensures Settled(Sort(s))
  {
    if s == [] {
    } else {
      hide Before, Settled, MeetsNoMutual;
      var n := |s| - 1;
      DropLast(s);
      SortSettles(s[..n]);
      MeetsNoMutualBefore(s[..n], Sort(s[..n]), s[n]);
      InsertSettles(Sort(s[..n]), s[n]);
    }
  }

  lemma {:induction false} InsertFits(s: seq<PolicyTree>, x: PolicyTree)
    requires Settled(s) && (s == [] || SettledPair(s[|s| - 1], x))
    ensures Insert(s, x) == s + [x]
  {
    hide Before, Settled;
    if s == [] || !Before(x, s[|s| - 1]) {
      InsertStays(s, x);
    } else {
      var n := |s| - 1;
      DropLast(s);
      SettledInit(s);
      InsertFits(s[..n], x);
      InsertPasses(s[..n], s[n], x);
    }
  }

  lemma {:induction false} SettledIsFixed(s: seq<PolicyTree>)
    requires Settled(s)
    ensures Sort(s) == s
  {
    if s == [] {
    } else {
      hide Before, Settled;
      var n := |s| - 1;
      SettledInit(s);
      SettledIsFixed(s[..n]);
      DropLast(s);
      SortSnoc(s[..n], s[n]);
      InsertFits(s[..n], s[n]);
    }
  }

  lemma SortSwapsPair(x: PolicyTree, y: PolicyTree)
    requires Before(y, x)
    ensures Sort([x, y]) == [y, x]
  {
    hide Before, Sort;
    SortOfOne(x);
    Pair(x, y);
    SortSnoc([x], y);
    InsertStays([], y);
    InsertPasses([], x, y);
    Pair(y, x);
  }

  lemma SortOfPair(x: PolicyTree, y: PolicyTree)
    ensures Sort([x, y]) == if Before(y, x) then [y, x] else [x, y]
  {
    hide Before, Sort;
    if Before(y, x) {
      SortSwapsPair(x, y);
    } else {
      SortOfTwo(x, y);
    }
  }

  /** Two policies that are each less than the other change places in every run. */
  lemma MutualPairsSwap(x: PolicyTree, y: PolicyTree)
    requires Before(x, y) && Before(y, x)
    ensures Sort([x, y]) == [y, x] && Sort([y, x]) == [x, y]
  {
    SortOfPair(x, y);
    SortOfPair(y, x);
  }

  /** Sorting the lists of at most 20 of these policies again changes none of them. */
  ghost predicate ShortListsStay(m: multiset<PolicyTree>) {
    forall s :: multiset(s) <= m && |s| <= INSERTION_BLOCK ==> Sort(Sort(s)) == Sort(s)
  }

  /** Exactly when a second sort of lists that Go sorts by insertion changes nothing. */
  lemma ShortListsStayIff(m: multiset<PolicyTree>)
    ensures ShortListsStay(m) <==> NoMutualPairs(m)
  {
    hide Before, Sort, Settled;
    if NoMutualPairs(m) {
      forall s | multiset(s) <= m && |s| <= INSERTION_BLOCK ensures Sort(Sort(s)) == Sort(s) {
        SortSettles(s);
        SettledIsFixed(Sort(s));
      }
    }
    if x, y :| multiset{x, y} <= m && Before(x, y) && Before(y, x) && x != y {
      MutualPairsSwap(x, y);
      assert multiset([x, y]) == multiset{x, y};
      assert [x, y][0] != [y, x][0];
    }
  }

  /** Sorting lists of these policies again, by any sort like Go's, changes nothing only without
      mutual pairs, and surely under a weak order. */
  lemma LikeGoStays(f: seq<PolicyTree> -> seq<PolicyTree>, m: multiset<PolicyTree>)
    ensures SortsLikeGo(f) && (forall s :: multiset(s) <= m ==> f(f(s)) == f(s)) ==> NoMutualPairs(m)
    ensures SortsLikeGo(f) && WeakOrder(m) ==> forall s :: multiset(s) <= m ==> f(f(s)) == f(s)
  {
    hide WeakOrder, Ordered, Stable, Sort, NoMutualPairs;
    if SortsLikeGo(f) && forall s :: multiset(s) <= m ==> f(f(s)) == f(s) {
      forall s | multiset(s) <= m && |s| <= INSERTION_BLOCK ensures Sort(Sort(s)) == Sort(s) {
        SortLength(s);
        assert f(s) == Sort(s) && f(Sort(s)) == Sort(Sort(s));
      }
      ShortListsStayIff(m);
    }
    if SortsLikeGo(f) && WeakOrder(m) {
      forall s | multiset(s) <= m ensures f(f(s)) == f(s) {
        WeakOrderOfPart(m, multiset(s));
        assert SortsStably(s, f(s)) && SortsStably(f(s), f(f(s)));
        StableSortIsUnique(f(s), f(f(s)));
      }
    }
  }

  // ----- the whole tree -----

  function Bare(t: PolicyTree): PolicyTree {
    PolicyTree(0, t.info, t.selectors, t.egress)
  }

  function BareAll(s: seq<PolicyTree>): (b: seq<PolicyTree>)
    ensures |b| == |s|
  {
    seq(|s|, i requires 0 <= i < |s| => Bare(s[i]))
  }

  lemma BareSnoc(s: seq<PolicyTree>, x: PolicyTree)
    ensures BareAll(s + [x]) == BareAll(s) + [Bare(x)]
  {
  }

  lemma BareBefore(x: PolicyTree, y: PolicyTree)
    ensures Before(Bare(x), Bare(y)) == Before(x, y)
  {
  }

  lemma {:induction false} InsertBare(s: seq<PolicyTree>, x: PolicyTree)
    ensures BareAll(Insert(s, x)) == Insert(BareAll(s), Bare(x))
  {
    hide Before;
    if s == [] {
      assert BareAll([x]) == [Bare(x)];
    } else {
      var n := |s| - 1;
      DropLast(s);
      BareSnoc(s[..n], s[n]);
      BareBefore(x, s[n]);
      if Before(x, s[n]) {
        InsertBare(s[..n], x);
        InsertPasses(s[..n], s[n], x);
        BareSnoc(Insert(s[..n], x), s[n]);
        InsertPasses(BareAll(s[..n]), Bare(s[n]), Bare(x));
      } else {
        InsertStays(s, x);
        BareSnoc(s, x);
        InsertStays(BareAll(s), Bare(x));
      }
    }
  }

  /** The sort does not look at positions. */
  lemma {:induction false} SortBare(s: seq<PolicyTree>)
    ensures BareAll(Sort(s)) == Sort(BareAll(s))
  {
    if s == [] {
    } else {
      hide Insert;
      var n := |s| - 1;
      DropLast(s);
      SortBare(s[..n]);
      BareSnoc(s[..n], s[n]);
      InsertBare(Sort(s[..n]), s[n]);
      SortSnoc(s[..n], s[n]);
      SortSnoc(BareAll(s[..n]), Bare(s[n]));
    }
  }

  lemma OrganizedSettled(ts: seq<PolicyTree>)
    requires NoMutualPairs(multiset(ts))
    ensures Settled(BareAll(Organized(ts)))
  {
    hide Sort, Before;
    SortSettles(ts);
    var s, b := Sort(ts), BareAll(Organized(ts));
    forall i | 0 < i < |b| ensures SettledPair(b[i - 1], b[i]) {
      OrganizedAt(ts, i - 1);
      OrganizedAt(ts, i);
      BareOrganizedBefore(s[i - 1], s[i]);
      assert SettledPair(s[i - 1], s[i]);
    }
  }

  lemma BareOrganizedBefore(y: PolicyTree, x: PolicyTree)
    ensures Before(PolicyTree(0, x.info, x.selectors, Organized(x.egress)),
                   PolicyTree(0, y.info, y.selectors, Organized(y.egress))) == Before(x, y)
  {
  }

  lemma SecondSortKeeps(ts: seq<PolicyTree>, k: nat)
    requires NoMutualPairs(multiset(ts)) && k < |ts|
    ensures |Sort(Organized(ts))| == |ts| && Bare(Sort(Organized(ts))[k]) == Bare(Organized(ts)[k])
  {
    hide Organized, Sort, Settled;
    var us := Organized(ts);
    OrganizedSettled(ts);
    SettledIsFixed(BareAll(us));
    SortBare(us);
    SortLength(us);
    assert BareAll(Sort(us))[k] == BareAll(us)[k];
  }

  /** Without mutual pairs among siblings, and no weak order, organizing what an insertion sort
      has organized changes nothing at any depth. */
  lemma {:induction false} OrganizeIsIdempotent(ts: seq<PolicyTree>)
    requires NoMutualPairsBelow(ts)
    ensures Organized(Organized(ts)) == Organized(ts)
    decreases ts
  {
    hide Organized, Sort, NoMutualPairs;
    var us := Organized(ts);
    SortLength(ts);
    forall k | 0 <= k < |us| ensures Organized(us)[k] == us[k] {
      OrganizedAt(ts, k);
      OrganizedAt(us, k);
      SecondSortKeeps(ts, k);
      InSorted(ts, k);
      OrganizeIsIdempotent(Sort(ts)[k].egress);
    }
  }

  /** With a mutual pair the second run does change the order: the loader hands on one order,
      the agent reports the other. */
  lemma MutualPairIsReported(p: PolicyTree, q: PolicyTree)
    requires Before(p, q) && Before(q, p)
    ensures Organized([p, q])[0].selectors == q.selectors
    ensures Organized(Organized([p, q]))[0].selectors == p.selectors
  {
    hide Organized, Sort, Before;
    var us := Organized([p, q]);
    MutualPairsSwap(p, q);
    OrganizedAt([p, q], 0);
    OrganizedAt([p, q], 1);
    SameSelectorsSameBefore(us[0], us[1], q, p);
    SortOfPair(us[0], us[1]);
    assert us == [us[0], us[1]];
    OrganizedAt(us, 0);
  }

  lemma SecondRunCanChange()
    ensures var p, q := Plain([map["a=1" := true], map["b=1" := true, "c=1" := true]]),
                        Plain([map["b=1" := true], map["a=1" := true, "c=1" := true]]);
            && Organized([p, q])[0].selectors == q.selectors
            && Organized(Organized([p, q]))[0].selectors == p.selectors != q.selectors
  {
    hide Organized, Before;
    AsymmetryCanFail();
    var p, q := Plain([map["a=1" := true], map["b=1" := true, "c=1" := true]]),
                Plain([map["b=1" := true], map["a=1" := true, "c=1" := true]]);
    MutualPairIsReported(p, q);
    assert "a=1" in p.selectors[0] && "a=1" !in q.selectors[0];
  }

  lemma SameSelectorsSameBefore(a: PolicyTree, b: PolicyTree, x: PolicyTree, y: PolicyTree)
    requires a.selectors == x.selectors && b.selectors == y.selectors
    ensures Before(b, a) == Before(y, x)
  {
  }
}
