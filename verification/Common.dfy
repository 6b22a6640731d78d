/** Stock types, enumerations of finite sets, and facts about permuted sequences. */
module Common {

  datatype Option<+T> = None | Some(value: T)

  datatype Result<+T, +E> = Ok(value: T) | Err(error: E)

  /** `order` visits every element of `elements` exactly once. A Go `range` over a map
      may use any such order, so results are stated for all of them. */
  ghost predicate IsOrder<T>(order: seq<T>, elements: set<T>) {
    multiset(order) == multiset(elements)
  }

  lemma OrderElements<T>(order: seq<T>, elements: set<T>)
    requires IsOrder(order, elements)
    ensures forall x :: x in order <==> x in elements
    ensures |order| == |elements|
  {
    assert forall x :: x in order <==> x in multiset(order);
    assert |multiset(order)| == |multiset(elements)|;
  }

  lemma OrderIsInjective<T>(order: seq<T>, elements: set<T>, i: nat, j: nat)
    requires IsOrder(order, elements) && i < j < |order|
    ensures order[i] != order[j]
  {
    SplitAt(order, i);
    SplitAt(order[i + 1..], j - i - 1);
    assert multiset(order)[order[i]] == multiset(elements)[order[i]] <= 1;
  }

  /** One particular order, for definitions that need to name a result. */
  ghost function SomeOrder<T>(elements: set<T>): (order: seq<T>)
    ensures IsOrder(order, elements)
  {
    if elements == {} then [] else
      var x :| x in elements;
      assert multiset(elements) == multiset(elements - {x}) + multiset{x};
      SomeOrder(elements - {x}) + [x]
  }

  lemma SplitAt<T>(s: seq<T>, i: nat)
    requires i < |s|
    ensures s == s[..i] + [s[i]] + s[i + 1..]
    ensures multiset(s) == multiset(s[..i] + s[i + 1..]) + multiset{s[i]}
  {
    assert s == s[..i] + [s[i]] + s[i + 1..];
    assert multiset(s) == multiset(s[..i]) + multiset{s[i]} + multiset(s[i + 1..]);
  }

  lemma DropLast<T>(s: seq<T>)
    requires s != []
    ensures s == s[..|s| - 1] + [s[|s| - 1]]
    ensures multiset(s) == multiset(s[..|s| - 1]) + multiset{s[|s| - 1]}
  {
    assert s == s[..|s| - 1] + [s[|s| - 1]];
  }

  /** Where the last element of `s` sits in a permutation `t` of `s`. */
  lemma FindLast<T>(s: seq<T>, t: seq<T>) returns (i: nat)
    requires s != [] && multiset(s) == multiset(t)
    ensures i < |t| && t[i] == s[|s| - 1]
    ensures multiset(s[..|s| - 1]) == multiset(t[..i] + t[i + 1..])
  {
    DropLast(s);
    assert s[|s| - 1] in multiset(t);
    i :| 0 <= i < |t| && t[i] == s[|s| - 1];
    SplitAt(t, i);
    CancelOne(multiset(s[..|s| - 1]), multiset(t[..i] + t[i + 1..]), t[i]);
  }

  lemma CancelOne<T>(a: multiset<T>, b: multiset<T>, x: T)
    requires a + multiset{x} == b + multiset{x}
    ensures a == b
  {
    assert a == (a + multiset{x}) - multiset{x};
    assert b == (b + multiset{x}) - multiset{x};
  }

  lemma Grow<T>(s: seq<T>, n: nat)
    requires n < |s|
    ensures s[..n + 1] == s[..n] + [s[n]]
  {
  }

  lemma Assoc<T>(a: seq<T>, b: seq<T>, c: seq<T>)
    ensures a + b + c == a + (b + c)
  {
  }

  lemma AppendDropLast<T>(a: seq<T>, b: seq<T>)
    requires b != []
    ensures a + b == a + b[..|b| - 1] + [b[|b| - 1]]
  {
  }

  /** The three parts of a sequence around one of its elements. */
  lemma Parts<T>(p: seq<T>, x: T, q: seq<T>)
    ensures (p + [x] + q)[..|p|] == p && (p + [x] + q)[|p|] == x && (p + [x] + q)[|p| + 1..] == q
  {
  }

  lemma Pair<T>(x: T, y: T)
    ensures [] + [x] == [x] && [x] + [y] == [x, y]
  {
  }

  lemma CancelPrefix<T>(p: seq<T>, s: seq<T>, t: seq<T>)
    requires p + s == p + t
    ensures s == t
  {
    assert s == (p + s)[|p|..] && t == (p + t)[|p|..];
  }
}
