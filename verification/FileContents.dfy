/** The files a loader is handed: their contents after decoding. */
module FileContents {
  import opened Common

  /** A file's content: not a YAML list at all, or a list whose entries may each be invalid. */
  datatype Content<T> = Unparsable | Items(items: seq<Option<T>>)

  function Kept<T>(items: seq<Option<T>>): seq<T> {
    if items == [] then [] else
      Kept(items[..|items| - 1]) + match items[|items| - 1] case Some(raw) => [raw] case None => []
  }

  /** The entries that take part; none for a file that does not parse. */
  function KeptOf<T>(content: Content<T>): seq<T> {
    match content case Unparsable => [] case Items(items) => Kept(items)
  }

  /** The valid entries and no others. */
  lemma {:induction false} KeptMember<T>(items: seq<Option<T>>, x: T)
    ensures x in Kept(items) <==> Some(x) in items
  {
    if items == [] {
    } else {
      KeptMember(items[..|items| - 1], x);
      DropLast(items);
    }
  }

  lemma KeptSnoc<T>(items: seq<Option<T>>, item: Option<T>)
    ensures Kept(items + [item]) == Kept(items) + if item.Some? then [item.value] else []
  {
    assert (items + [item])[..|items|] == items;
  }

  lemma {:induction false} KeptAppend<T>(a: seq<Option<T>>, b: seq<Option<T>>)
    ensures Kept(a + b) == Kept(a) + Kept(b)
  {
    if b == [] {
      assert a + b == a;
    } else {
      hide Kept;
      var n := |b| - 1;
      KeptAppend(a, b[..n]);
      AppendDropLast(a, b);
      DropLast(b);
      KeptSnoc(a + b[..n], b[n]);
      KeptSnoc(b[..n], b[n]);
      Assoc(Kept(a), Kept(b[..n]), if b[n].Some? then [b[n].value] else []);
    }
  }

  /** One by one and in order: a valid entry is kept where it stands, an invalid one is dropped. */
  lemma KeptInOrder<T>(a: seq<Option<T>>, x: T, b: seq<Option<T>>)
    ensures Kept(a + [Some(x)] + b) == Kept(a) + [x] + Kept(b)
    ensures Kept(a + [None] + b) == Kept(a) + Kept(b)
  {
    KeptAppend(a + [Some(x)], b);
    KeptAppend(a + [None], b);
    assert (a + [Some(x)])[..|a|] == a && (a + [None])[..|a|] == a;
  }

  lemma KeptOfMember<T>(content: Content<T>, x: T)
    ensures x in KeptOf(content) <==> content.Items? && Some(x) in content.items
  {
    if content.Items? {
      KeptMember(content.items, x);
    }
  }

  ghost predicate AllIn<T>(order: seq<string>, files: map<string, Content<T>>) {
    forall f :: f in order ==> f in files
  }

  /** The loop of both unmarshal functions: invalid entries are skipped. */
  method Decode<T>(items: seq<Option<T>>) returns (raws: seq<T>)
    ensures raws == Kept(items)
  {
    raws := [];
    for i := 0 to |items|
      invariant raws == Kept(items[..i])
    {
      assert items[..i + 1][..i] == items[..i];
      if items[i].Some? {
        raws := raws + [items[i].value];
      }
    }
    assert items[..|items|] == items;
  }
}
