/** `Organize` on values, at every depth of the egress tree. */
module OrganizeSpec {
  import opened Common
  import opened Selectors
  import opened PolicyOrder
  import opened OrderTheorems

  /** Sort the siblings, number them by position, and do the same below each. */
  ghost function Organized(ts: seq<PolicyTree>): (us: seq<PolicyTree>)
    ensures |us| == |ts|
    decreases ts
  {
    var s := Sort(ts);
    assert |s| == |multiset(s)| == |multiset(ts)| == |ts|;
    seq(|s|, k requires 0 <= k < |s| => (InSorted(ts, k); Numbered(k, s[k], Organized(s[k].egress))))
  }

  ghost function Numbered(k: int, t: PolicyTree, egress: seq<PolicyTree>): PolicyTree {
    PolicyTree(k, t.info, t.selectors, egress)
  }

  lemma InSorted(ts: seq<PolicyTree>, k: nat)
    requires k < |Sort(ts)|
    ensures Sort(ts)[k] in ts
  {
    assert Sort(ts)[k] in multiset(Sort(ts));
  }

  lemma SortLength(s: seq<PolicyTree>)
    ensures |Sort(s)| == |s|
  {
    assert |multiset(Sort(s))| == |multiset(s)|;
  }

  lemma OrganizedAt(ts: seq<PolicyTree>, k: nat)
    requires k < |ts|
    ensures |Sort(ts)| == |ts|
    ensures Organized(ts)[k] == Numbered(k, Sort(ts)[k], Organized(Sort(ts)[k].egress))
  {
    SortLength(ts);
  }

  // ----- what Organize promises, without naming a sorting algorithm -----

  /** `s` is a permutation of `ts`; a strict one is also ordered and keeps ties in place. */
  ghost predicate Reorders(strict: bool, ts: seq<PolicyTree>, s: seq<PolicyTree>) {
    multiset(s) == multiset(ts) && (strict ==> Ordered(s) && Stable(ts, s))
  }

  /** `us` is `ts` with the siblings of every egress list reordered and their Position set
      to their index, and nothing else changed. */
  ghost predicate OrganizedFrom(strict: bool, ts: seq<PolicyTree>, us: seq<PolicyTree>)
    decreases us
  {
    exists s :: Reorders(strict, ts, s) && LevelFrom(strict, s, us)
  }

  ghost predicate LevelFrom(strict: bool, s: seq<PolicyTree>, us: seq<PolicyTree>)
    decreases us, 0
  {
    |us| == |s| &&
    forall k :: 0 <= k < |us| ==>
      us[k].position == k && us[k].info == s[k].info && us[k].selectors == s[k].selectors
      && OrganizedFrom(strict, s[k].egress, us[k].egress)
  }

  /** The Position of every policy is its index among its siblings, at every depth. */
  ghost predicate PositionsAreIndices(us: seq<PolicyTree>) {
    forall k :: 0 <= k < |us| ==> us[k].position == k && PositionsAreIndices(us[k].egress)
  }

  lemma {:induction false} OrganizedPositions(strict: bool, ts: seq<PolicyTree>, us: seq<PolicyTree>)
    requires OrganizedFrom(strict, ts, us)
    ensures PositionsAreIndices(us)
    decreases us
  {
    hide Reorders;
    var s: seq<PolicyTree> :| Reorders(strict, ts, s) && LevelFrom(strict, s, us);
    forall k | 0 <= k < |us| ensures us[k].position == k && PositionsAreIndices(us[k].egress) {
      OrganizedPositions(strict, s[k].egress, us[k].egress);
    }
  }

  ghost predicate WeakAtEveryDepth(ts: seq<PolicyTree>) {
    WeakOrder(multiset(ts)) && forall k :: 0 <= k < |ts| ==> WeakAtEveryDepth(ts[k].egress)
  }

  /** With no assumption on the comparator: every sibling list is permuted, positions become
      0..n-1, and nothing but order and Position changes. */
  lemma {:induction false} OrganizeRearranges(ts: seq<PolicyTree>)
    ensures OrganizedFrom(false, ts, Organized(ts))
    decreases ts
  {
    var s, us := Sort(ts), Organized(ts);
    forall k | 0 <= k < |us| ensures OrganizedFrom(false, s[k].egress, us[k].egress) {
      InSorted(ts, k);
      OrganizeRearranges(s[k].egress);
    }
    assert Reorders(false, ts, s) && LevelFrom(false, s, us);
  }

  lemma WeakBelow(ts: seq<PolicyTree>, t: PolicyTree)
    requires WeakAtEveryDepth(ts) && t in ts
    ensures WeakAtEveryDepth(t.egress)
  {
  }

  lemma SortReorders(ts: seq<PolicyTree>)
    requires WeakOrder(multiset(ts))
    ensures Reorders(true, ts, Sort(ts))
  {
    SortOrders(ts);
    forall x | x in multiset(ts) ensures Ties(Sort(ts), x) == Ties(ts, x) {
      SortIsStable(multiset(ts), ts, x);
    }
  }

  /** Where the comparator is a weak order, the result meets the full promise at every depth. */
  lemma {:induction false} OrganizeOrders(ts: seq<PolicyTree>)
    requires WeakAtEveryDepth(ts)
    ensures OrganizedFrom(true, ts, Organized(ts))
    decreases ts
  {
    var s, us := Sort(ts), Organized(ts);
    forall k | 0 <= k < |us| ensures OrganizedFrom(true, s[k].egress, us[k].egress) {
      InSorted(ts, k);
      WeakBelow(ts, s[k]);
      OrganizeOrders(s[k].egress);
    }
    SortReorders(ts);
    assert Reorders(true, ts, s) && LevelFrom(true, s, us);
  }

  /** A strict reordering of one list is unique. */
  lemma ReorderIsUnique(ts: seq<PolicyTree>, s: seq<PolicyTree>, t: seq<PolicyTree>)
    requires Reorders(true, ts, s) && Reorders(true, ts, t)
    ensures s == t
  {
    forall x | x in multiset(s) ensures Ties(t, x) == Ties(s, x) {
      assert x in multiset(ts);
    }
    StableSortIsUnique(s, t);
  }

  /** A level that reorders `ts` strictly has the organized siblings at its top. */
  lemma TopLevel(ts: seq<PolicyTree>, us: seq<PolicyTree>)
    requires WeakOrder(multiset(ts)) && OrganizedFrom(true, ts, us)
    ensures LevelFrom(true, Sort(ts), us)
  {
    hide WeakOrder, Ordered, Stable, LevelFrom;
    var s: seq<PolicyTree> :| Reorders(true, ts, s) && LevelFrom(true, s, us);
    SortReorders(ts);
    ReorderIsUnique(ts, s, Sort(ts));
  }

  lemma LevelAt(strict: bool, s: seq<PolicyTree>, us: seq<PolicyTree>, k: nat)
    requires LevelFrom(strict, s, us) && k < |us|
    ensures |us| == |s| && us[k].position == k && us[k].info == s[k].info && us[k].selectors == s[k].selectors
    ensures OrganizedFrom(strict, s[k].egress, us[k].egress)
  {
  }

  /** The promise determines the result: whatever stable sort is used, at every depth. */
  lemma {:induction false} OrganizeIsDetermined(ts: seq<PolicyTree>, us: seq<PolicyTree>)
    requires WeakAtEveryDepth(ts)
    ensures OrganizedFrom(true, ts, us) <==> us == Organized(ts)
    decreases ts
  {
    hide WeakOrder, Organized, OrganizedFrom, Sort;
    OrganizeOrders(ts);
    if OrganizedFrom(true, ts, us) {
      TopLevel(ts, us);
      SortLength(ts);
      forall k | 0 <= k < |us| ensures us[k] == Organized(ts)[k] {
        LevelAt(true, Sort(ts), us, k);
        InSorted(ts, k);
        OrganizedAt(ts, k);
        WeakBelow(ts, Sort(ts)[k]);
        OrganizeIsDetermined(Sort(ts)[k].egress, us[k].egress);
      }
    }
  }

  // ----- what survives every reordering -----

  /** A policy with its selectors and egress policies as unordered collections. */
  datatype Bag = Bag(info: PolicyInfo, selectors: multiset<Selector>, egress: multiset<Bag>)

  ghost function BagOf(t: PolicyTree): Bag {
    Bag(t.info, multiset(t.selectors), BagsOf(t.egress))
  }

  ghost function BagsOf(ts: seq<PolicyTree>): multiset<Bag> {
    if ts == [] then multiset{} else BagsOf(ts[..|ts| - 1]) + multiset{BagOf(ts[|ts| - 1])}
  }

  lemma BagsSnoc(ts: seq<PolicyTree>, t: PolicyTree)
    ensures BagsOf(ts + [t]) == BagsOf(ts) + multiset{BagOf(t)}
  {
    assert (ts + [t])[..|ts|] == ts;
  }

  lemma {:induction false} BagsAppend(a: seq<PolicyTree>, b: seq<PolicyTree>)
    ensures BagsOf(a + b) == BagsOf(a) + BagsOf(b)
  {
    if b == [] {
      assert a + b == a;
    } else {
      var n := |b| - 1;
      BagsAppend(a, b[..n]);
      AppendDropLast(a, b);
      BagsSnoc(a + b[..n], b[n]);
    }
  }

  lemma BagsOfOne(t: PolicyTree)
    ensures BagsOf([t]) == multiset{BagOf(t)}
  {
    assert [t][..0] == [];
  }

  lemma {:induction false} BagsPermuted(a: seq<PolicyTree>, b: seq<PolicyTree>)
    requires multiset(a) == multiset(b)
    ensures BagsOf(a) == BagsOf(b)
  {
    if a == [] {
      assert |multiset(b)| == 0;
    } else {
      var i := FindLast(a, b);
      BagsPermuted(a[..|a| - 1], b[..i] + b[i + 1..]);
      SplitAt(b, i);
      BagsAppend(b[..i] + [b[i]], b[i + 1..]);
      BagsAppend(b[..i], [b[i]]);
      BagsAppend(b[..i], b[i + 1..]);
      BagsOfOne(b[i]);
    }
  }

  lemma {:induction false} BagsPointwise(s: seq<PolicyTree>, us: seq<PolicyTree>)
    requires |s| == |us| && forall k :: 0 <= k < |us| ==> BagOf(s[k]) == BagOf(us[k])
    ensures BagsOf(s) == BagsOf(us)
  {
    if s == [] {
    } else {
      BagsPointwise(s[..|s| - 1], us[..|s| - 1]);
    }
  }

  lemma {:induction false} RearrangingKeepsBags(ts: seq<PolicyTree>, us: seq<PolicyTree>)
    requires OrganizedFrom(false, ts, us)
    ensures BagsOf(us) == BagsOf(ts)
    decreases us
  {
    var s: seq<PolicyTree> :| Reorders(false, ts, s) && LevelFrom(false, s, us);
    forall k | 0 <= k < |us| ensures BagOf(s[k]) == BagOf(us[k]) {
      RearrangingKeepsBags(s[k].egress, us[k].egress);
    }
    BagsPointwise(s, us);
    BagsPermuted(ts, s);
  }
}
