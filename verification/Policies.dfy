/** The policy tree on the heap: `Policies.Organize` in place, against `Organized`. */
module Policies {
  import opened Common
  import opened Selectors
  import opened PolicyOrder
  import opened OrderTheorems
  import opened OrganizeSpec

  class Policy {
    var position: int
    const info: PolicyInfo
    const selectors: seq<Selector>
    const egress: array<Policy>
    /** Every object of this policy's tree: the policy, its egress array and what is below. */
    ghost const footprint: set<object>

    ghost predicate Valid()
      reads this, footprint
      decreases footprint, 0
    {
      && this in footprint && egress in footprint
      && Siblings(egress[..], footprint - {this, egress})
    }

    ghost function Tree(): PolicyTree
      requires Valid()
      reads this, footprint
      decreases footprint, 0
    {
      PolicyTree(position, info, selectors, Trees(egress[..], footprint - {this, egress}))
    }

    constructor (info: PolicyInfo, selectors: seq<Selector>, egress: array<Policy>, ghost below: set<object>)
      requires egress !in below && Siblings(egress[..], below)
      ensures Valid() && position == 0 && this.info == info && this.selectors == selectors && this.egress == egress
      ensures fresh(this) && footprint == {this, egress} + below
      ensures Tree() == PolicyTree(0, info, selectors, Trees(egress[..], below))
    {
      position := 0;
      this.info, this.selectors, this.egress := info, selectors, egress;
      footprint := {this, egress} + below;
      new;
      assert footprint - {this, egress} == below;
    }
  }

  /** A list of policies whose trees lie inside `region` and share no object. */
  ghost predicate Siblings(ps: seq<Policy>, region: set<object>)
    reads region
    decreases region, 1
  {
    && (forall i :: 0 <= i < |ps| ==> ps[i] in region && ps[i].footprint <= region && ps[i].Valid())
    && (forall i, j :: 0 <= i < |ps| && 0 <= j < |ps| && i != j ==> ps[i].footprint !! ps[j].footprint)
  }

  ghost function Trees(ps: seq<Policy>, region: set<object>): (ts: seq<PolicyTree>)
    requires Siblings(ps, region)
    reads region
    ensures |ts| == |ps| && forall i :: 0 <= i < |ps| ==> ts[i] == ps[i].Tree()
    decreases region, 1, |ps|
  {
    if ps == [] then [] else
      Trees(ps[..|ps| - 1], region) + [ps[|ps| - 1].Tree()]
  }

  ghost function Swapped<T>(s: seq<T>, j: nat): seq<T>
    requires 0 < j < |s|
  {
    s[j := s[j - 1]][j - 1 := s[j]]
  }

  method Swap(a: array<Policy>, j: nat, ghost region: set<object>)
    requires 0 < j < a.Length && a !in region && Siblings(a[..], region)
    modifies a
    ensures a[..] == Swapped(old(a[..]), j) && multiset(a[..]) == multiset(old(a[..]))
    ensures Siblings(a[..], region)
    ensures Trees(a[..], region) == Swapped(old(Trees(a[..], region)), j)
  {
    hide Siblings, Trees;
    ghost var ps, ts := a[..], Trees(a[..], region);
    a[j], a[j - 1] := a[j - 1], a[j];
    assert a[..] == Swapped(ps, j);
    assert Siblings(ps, region) && Trees(ps, region) == ts;
    SwappedSiblings(ps, j, region);
    SwappedIsPermutation(ps, j);
  }

  lemma SwappedSiblings(ps: seq<Policy>, j: nat, region: set<object>)
    requires 0 < j < |ps| && Siblings(ps, region)
    ensures Siblings(Swapped(ps, j), region)
    ensures Trees(Swapped(ps, j), region) == Swapped(Trees(ps, region), j)
  {
    hide Policy.Valid, Policy.Tree, Trees;
    var qs := Swapped(ps, j);
    assert Siblings(qs, region);
    forall i | 0 <= i < |ps| ensures Trees(qs, region)[i] == Swapped(Trees(ps, region), j)[i] {
      assert Trees(qs, region)[i] == qs[i].Tree();
    }
  }

  lemma SwappedIsPermutation<T>(s: seq<T>, j: nat)
    requires 0 < j < |s|
    ensures multiset(Swapped(s, j)) == multiset(s)
  {
  }

  lemma SwappedInside<T>(p: seq<T>, y: T, x: T, q: seq<T>)
    ensures Swapped(p + [y] + [x] + q, |p| + 1) == p + [x] + ([y] + q)
  {
  }

  /** The list while `x` is on its way left, between the policies it has still to meet and
      those it has passed: finishing the insertion of x gives `goal`. */
  ghost predicate Inserting(ts: seq<PolicyTree>, left: seq<PolicyTree>, x: PolicyTree, passed: seq<PolicyTree>,
                            goal: seq<PolicyTree>)
  {
    ts == left + [x] + passed && goal == Insert(left, x) + passed
  }

  lemma InsertingStarts(ts: seq<PolicyTree>, i: nat, goal: seq<PolicyTree>)
    requires i < |ts| && goal == Insert(ts[..i], ts[i]) + ts[i + 1..]
    ensures Inserting(ts, ts[..i], ts[i], ts[i + 1..], goal)
  {
  }

  lemma InsertingAt(ts: seq<PolicyTree>, left: seq<PolicyTree>, x: PolicyTree, passed: seq<PolicyTree>,
                    goal: seq<PolicyTree>)
    requires Inserting(ts, left, x, passed, goal) && left != []
    ensures |ts| > |left| && ts[|left|] == x && ts[|left| - 1] == left[|left| - 1]
  {
  }

  lemma InsertingStep(ts: seq<PolicyTree>, left: seq<PolicyTree>, y: PolicyTree, x: PolicyTree,
                      passed: seq<PolicyTree>, goal: seq<PolicyTree>)
    requires Inserting(ts, left + [y], x, passed, goal) && Before(x, y)
    ensures |ts| > |left| + 1 && Inserting(Swapped(ts, |left| + 1), left, x, [y] + passed, goal)
  {
    InsertPasses(left, y, x);
    SwappedInside(left, y, x, passed);
    Assoc(Insert(left, x), [y], passed);
  }

  lemma InsertingStops(ts: seq<PolicyTree>, left: seq<PolicyTree>, x: PolicyTree, passed: seq<PolicyTree>,
                       goal: seq<PolicyTree>)
    requires Inserting(ts, left, x, passed, goal) && (left == [] || !Before(x, left[|left| - 1]))
    ensures ts == goal
  {
    InsertStays(left, x);
  }

  method LessThanNeighbour(a: array<Policy>, j: nat, ghost region: set<object>) returns (less: bool)
    requires 0 < j < a.Length && Siblings(a[..], region)
    ensures less <==> Before(Trees(a[..], region)[j], Trees(a[..], region)[j - 1])
  {
    less := Less(a[j].selectors, a[j - 1].selectors);
  }

  /** a[i] moves left past its neighbour for as long as it is less than it. */
  method InsertAt(a: array<Policy>, i: nat, ghost region: set<object>)
    requires i < a.Length && a !in region && Siblings(a[..], region)
    modifies a
    ensures Siblings(a[..], region)
    ensures multiset(a[..]) == multiset(old(a[..]))
    ensures var ts := old(Trees(a[..], region)); Trees(a[..], region) == Insert(ts[..i], ts[i]) + ts[i + 1..]
  {
    hide Insert, Before, Siblings, Trees, Swapped, Inserting;
    ghost var ts := Trees(a[..], region);
    ghost var left, x, passed := ts[..i], ts[i], ts[i + 1..];
    ghost var goal := Insert(left, x) + passed;
    var j := i;
    InsertingStarts(ts, i, goal);
    while j > 0
      invariant 0 <= j <= i < a.Length && |left| == j
      invariant Siblings(a[..], region) && multiset(a[..]) == multiset(old(a[..]))
      invariant Inserting(Trees(a[..], region), left, x, passed, goal)
    {
      ghost var now, y := Trees(a[..], region), left[j - 1];
      DropLast(left);
      InsertingAt(now, left, x, passed, goal);
      var less := LessThanNeighbour(a, j, region);
      if !less {
        InsertingStops(now, left, x, passed, goal);
        return;
      }
      InsertingStep(now, left[..j - 1], y, x, passed, goal);
      Swap(a, j, region);
      left, passed := left[..j - 1], [y] + passed;
      j := j - 1;
    }
    InsertingStops(Trees(a[..], region), left, x, passed, goal);
  }

  ghost function SortedUpTo(ts: seq<PolicyTree>, i: nat): seq<PolicyTree>
    requires i <= |ts|
  {
    Sort(ts[..i]) + ts[i..]
  }

  lemma SortedUpToStart(ts: seq<PolicyTree>)
    ensures SortedUpTo(ts, 0) == ts
  {
  }

  lemma SortedUpToEnd(ts: seq<PolicyTree>)
    ensures SortedUpTo(ts, |ts|) == Sort(ts)
  {
    assert ts[..|ts|] == ts;
  }

  lemma SortedUpToStep(ts: seq<PolicyTree>, i: nat)
    requires i < |ts|
    ensures var s := SortedUpTo(ts, i);
            |s| == |ts| && SortedUpTo(ts, i + 1) == Insert(s[..i], s[i]) + s[i + 1..]
  {
    hide Sort, Insert;
    SortLength(ts[..i]);
    SortSnoc(ts[..i], ts[i]);
    Grow(ts, i);
    Parts(Sort(ts[..i]), ts[i], ts[i + 1..]);
    HeadOfRest(Sort(ts[..i]), ts, i);
  }

  lemma HeadOfRest(p: seq<PolicyTree>, ts: seq<PolicyTree>, i: nat)
    requires i < |ts|
    ensures p + ts[i..] == p + [ts[i]] + ts[i + 1..]
  {
    assert ts[i..] == [ts[i]] + ts[i + 1..];
  }

  /** The comparator-driven stable sort, in place. */
  method SortStable(a: array<Policy>, ghost region: set<object>)
    requires a !in region && Siblings(a[..], region)
    modifies a
    ensures Siblings(a[..], region)
    ensures multiset(a[..]) == multiset(old(a[..]))
    ensures Trees(a[..], region) == Sort(old(Trees(a[..], region)))
  {
    hide Siblings, Trees, Insert, Sort, SortedUpTo;
    ghost var ts := Trees(a[..], region);
    SortedUpToStart(ts);
    for i := 0 to a.Length
      invariant Siblings(a[..], region) && multiset(a[..]) == multiset(old(a[..]))
      invariant Trees(a[..], region) == SortedUpTo(ts, i)
    {
      SortedUpToStep(ts, i);
      InsertAt(a, i, region);
    }
    SortedUpToEnd(ts);
  }

  /** Number one policy and organize its egress policies. */
  method Settle(policy: Policy, k: nat)
    requires policy.Valid()
    modifies policy.footprint
    ensures policy.Valid()
    ensures var t := old(policy.Tree()); policy.Tree() == Numbered(k, t, Organized(t.egress))
    ensures policy.position == k
    decreases policy.footprint, 0
  {
    hide Organized;
    policy.position := k;
    Organize(policy.egress, policy.footprint - {policy, policy.egress});
  }

  /** Settling one sibling leaves the others as they are. */
  method SettleAt(ps: seq<Policy>, k: nat, ghost region: set<object>)
    requires k < |ps| && Siblings(ps, region)
    modifies region
    ensures Siblings(ps, region)
    ensures var ts := old(Trees(ps, region));
            Trees(ps, region) == ts[k := Numbered(k, ts[k], Organized(ts[k].egress))]
    decreases region, 1
  {
    hide Organized, Numbered;
    ghost var ts := Trees(ps, region);
    Settle(ps[k], k);
    assert forall i :: 0 <= i < |ps| && i != k ==> ps[i].Valid() && ps[i].Tree() == ts[i];
    assert Siblings(ps, region);
  }

  ghost function SettledUpTo(goal: seq<PolicyTree>, ts: seq<PolicyTree>, k: nat): seq<PolicyTree>
    requires k <= |ts| == |goal|
  {
    goal[..k] + ts[k..]
  }

  lemma SettledStart(goal: seq<PolicyTree>, ts: seq<PolicyTree>)
    requires |ts| == |goal|
    ensures SettledUpTo(goal, ts, 0) == ts && SettledUpTo(goal, ts, |ts|) == goal
  {
  }

  lemma SettledStep(goal: seq<PolicyTree>, ts: seq<PolicyTree>, k: nat)
    requires k < |ts| == |goal|
    ensures SettledUpTo(goal, ts, k)[k] == ts[k]
    ensures SettledUpTo(goal, ts, k)[k := goal[k]] == SettledUpTo(goal, ts, k + 1)
  {
  }

  ghost function AllSettled(ts: seq<PolicyTree>): (us: seq<PolicyTree>)
    ensures |us| == |ts|
  {
    seq(|ts|, k requires 0 <= k < |ts| => Numbered(k, ts[k], Organized(ts[k].egress)))
  }

  lemma SortThenSettle(ts: seq<PolicyTree>)
    ensures Organized(ts) == AllSettled(Sort(ts))
  {
    SortLength(ts);
    forall k | 0 <= k < |ts| ensures Organized(ts)[k] == AllSettled(Sort(ts))[k] {
      OrganizedAt(ts, k);
    }
  }

  method SettleAll(ps: seq<Policy>, ghost region: set<object>)
    requires Siblings(ps, region)
    modifies region
    ensures Siblings(ps, region)
    ensures Trees(ps, region) == AllSettled(old(Trees(ps, region)))
    decreases region, 2
  {
    hide Siblings, Trees;
    ghost var ts := Trees(ps, region);
    ghost var goal := AllSettled(ts);
    SettledStart(goal, ts);
    for k := 0 to |ps|
      invariant Siblings(ps, region)
      invariant Trees(ps, region) == SettledUpTo(goal, ts, k)
    {
      SettledStep(goal, ts, k);
      SettleAt(ps, k, region);
    }
  }

  /** The Position field of every policy object is its index among its siblings, at every depth. */
  ghost predicate PositionsOnHeap(ps: seq<Policy>, region: set<object>)
    reads region
    decreases region, 1
  {
    forall k :: 0 <= k < |ps| ==>
      ps[k] in region && ps[k].egress in region && ps[k].footprint <= region && PositionAt(ps[k], k)
  }

  ghost predicate PositionAt(p: Policy, k: nat)
    reads p, p.egress, p.footprint
    decreases p.footprint, 0
  {
    p in p.footprint && p.position == k && PositionsOnHeap(p.egress[..], p.footprint - {p, p.egress})
  }

  lemma {:induction false} PositionsFollow(ps: seq<Policy>, region: set<object>)
    requires Siblings(ps, region) && PositionsAreIndices(Trees(ps, region))
    ensures PositionsOnHeap(ps, region)
    decreases region
  {
    forall k | 0 <= k < |ps| ensures PositionAt(ps[k], k) {
      assert Trees(ps, region)[k] == ps[k].Tree();
      PositionsFollow(ps[k].egress[..], ps[k].footprint - {ps[k], ps[k].egress});
    }
  }

  lemma OrganizedOnHeap(ts: seq<PolicyTree>, ps: seq<Policy>, region: set<object>)
    requires Siblings(ps, region) && Trees(ps, region) == Organized(ts)
    ensures OrganizedFrom(false, ts, Trees(ps, region)) && PositionsOnHeap(ps, region)
  {
    OrganizeRearranges(ts);
    OrganizedPositions(false, ts, Trees(ps, region));
    PositionsFollow(ps, region);
  }

  /** Sort the policies, number them, and organize the egress policies of each. */
  method Organize(a: array<Policy>, ghost region: set<object>)
    requires a !in region && Siblings(a[..], region)
    modifies a, region
    ensures Siblings(a[..], region)
    ensures multiset(a[..]) == multiset(old(a[..]))
    ensures Trees(a[..], region) == Organized(old(Trees(a[..], region)))
    ensures OrganizedFrom(false, old(Trees(a[..], region)), Trees(a[..], region)) && PositionsOnHeap(a[..], region)
    decreases region, 3
  {
    hide Siblings, Trees, Organized, OrganizedFrom, PositionsOnHeap, Sort, AllSettled;
    ghost var ts := Trees(a[..], region);
    SortThenSettle(ts);
    SortStable(a, region);
    var ps := a[..];
    SettleAll(ps, region);
    assert a[..] == ps;
    OrganizedOnHeap(ts, ps, region);
  }
}
