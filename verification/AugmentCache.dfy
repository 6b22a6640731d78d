/** The augment command: a TTL cache keyed by the printed context in front of the metadata
    collector, and what its answers are worth over whole runs. */
module AugmentCache {
  import opened Common
  import opened Selectors
  import opened ContextKey
  import opened GeneratePolicy

  const TTL := 5 * 60

  datatype Item = Item(answer: Selector, expires: int)

  type Cache = map<string, Item>

  /** A request with what the collector would find for it now, or the cache library's own
      background removal of expired items. */
  datatype Event =
    | Request(ctx: CommandContext, now: int, labels: seq<Label>)
    | Cleanup(now: int)

  /** The uncached answer. */
  function Collected(e: Event): Selector
    requires e.Request?
  {
    AugmentLabels(e.labels)
  }

  function Key(e: Event): string
    requires e.Request?
  {
    UniqueString(e.ctx)
  }

  function Unexpired(cache: Cache, now: int): Cache {
    map k | k in cache && now <= cache[k].expires :: cache[k]
  }

  predicate IsMiss(cache: Cache, e: Event)
    requires e.Request?
  {
    Key(e) !in Unexpired(cache, e.now)
  }

  /** One event; a hit renews the item's lifetime when the cache is set to touch on hit. */
  function Step(touch: bool, cache: Cache, e: Event): Cache {
    var kept := Unexpired(cache, e.now);
    if e.Cleanup? then kept
    else if IsMiss(cache, e) then kept[Key(e) := Item(Collected(e), e.now + TTL)]
    else if touch then kept[Key(e) := kept[Key(e)].(expires := e.now + TTL)]
    else kept
  }

  function Answer(cache: Cache, e: Event): Selector
    requires e.Request?
  {
    if IsMiss(cache, e) then Collected(e) else cache[Key(e)].answer
  }

  // ----- the handler -----

  /** An item is given out up to the second it expires in. */
  predicate Alive(cache: Cache, k: string, now: int) {
    k in cache && cache[k].expires >= now
  }

  /** The labels of the process, each as "name=value" and each mapped to true. */
  ghost predicate IsLabelMap(answer: Selector, labels: seq<Label>) {
    forall pair :: (pair in answer <==> exists i :: 0 <= i < |labels| && pair == labels[i].name + "=" + labels[i].value)
                   && (pair in answer ==> answer[pair])
  }

  lemma AugmentLabelsAreTheMap(labels: seq<Label>)
    ensures IsLabelMap(AugmentLabels(labels), labels)
  {
    forall pair {
      AugmentLabelsAre(labels, pair);
    }
  }

  /** Why a process could not be inspected at start-up. */
  datatype ProbeError = NotExist | Permission | NotRunning | Failed

  datatype Probe = Probe(error: Option<ProbeError>, request: Event)

  predicate Skipped(p: Probe) {
    p.error == Some(Failed)
  }

  function Requests(probes: seq<Probe>): seq<Event> {
    if probes == [] then [] else
      Requests(probes[..|probes| - 1]) + if Skipped(probes[|probes| - 1]) then [] else [probes[|probes| - 1].request]
  }

  function CacheFrom(touch: bool, cache: Cache, events: seq<Event>): Cache {
    if events == [] then cache else
      Step(touch, CacheFrom(touch, cache, events[..|events| - 1]), events[|events| - 1])
  }

  class AugmentCommand {
    const touch: bool
    var cache: Cache

    constructor (touch: bool, probes: seq<Probe>)
      requires forall i :: 0 <= i < |probes| ==> probes[i].request.Request?
      ensures this.touch == touch && cache == CacheFrom(touch, map[], Requests(probes))
    {
      this.touch := touch;
      cache := map[];
      new;
      Warm(probes);
    }

    method HandleCommand(ctx: CommandContext, now: int, labels: seq<Label>) returns (answer: Selector)
      modifies this
      ensures answer == Answer(old(cache), Request(ctx, now, labels))
      ensures cache == Step(touch, old(cache), Request(ctx, now, labels))
      ensures var key := UniqueString(ctx);
              && key in cache && cache[key].answer == answer
              && (if Alive(old(cache), key, now)
                  then answer == old(cache)[key].answer
                       && cache[key].expires == if touch then now + 300 else old(cache)[key].expires
                  else IsLabelMap(answer, labels) && cache[key].expires == now + 300)
              && forall k :: k != key ==>
                   (k in cache <==> Alive(old(cache), k, now)) && (k in cache ==> cache[k] == old(cache)[k])
    {
      cache := Unexpired(cache, now);
      var key := UniqueString(ctx);
      if key in cache {
        answer := cache[key].answer;
        if touch {
          cache := cache[key := cache[key].(expires := now + TTL)];
        }
        return answer;
      }
      answer := map[];
      for i := 0 to |labels|
        invariant answer == AugmentLabels(labels[..i])
      {
        assert labels[..i + 1][..i] == labels[..i];
        answer := answer[labels[i].name + "=" + labels[i].value := true];
      }
      assert labels[..|labels|] == labels;
      AugmentLabelsAreTheMap(labels);
      cache := cache[key := Item(answer, now + TTL)];
    }

    /** Every process that can be inspected well enough is asked for once. */
    method Warm(probes: seq<Probe>)
      requires forall i :: 0 <= i < |probes| ==> probes[i].request.Request?
      modifies this
      ensures cache == CacheFrom(touch, old(cache), Requests(probes))
    {
      hide CacheFrom, Requests, Step, Answer;
      ghost var before := cache;
      CacheFromNothing(touch, before);
      for i := 0 to |probes|
        invariant cache == CacheFrom(touch, before, Requests(probes[..i]))
      {
        RequestsSnoc(probes[..i], probes[i]);
        Grow(probes, i);
        if Skipped(probes[i]) {
          continue;
        }
        var r := probes[i].request;
        var answer := HandleCommand(r.ctx, r.now, r.labels);
        CacheFromSnoc(touch, before, Requests(probes[..i]), r);
      }
      assert probes[..|probes|] == probes;
    }
  }

  lemma CacheFromNothing(touch: bool, cache: Cache)
    ensures Requests([]) == [] && CacheFrom(touch, cache, []) == cache
  {
  }

  /** Asked for are the processes that could be inspected, are gone, forbidden or not running. */
  lemma {:induction false} RequestsAre(probes: seq<Probe>, e: Event)
    ensures e in Requests(probes) <==> exists p :: p in probes && p.error != Some(Failed) && p.request == e
  {
    if probes == [] {
    } else {
      var n := |probes| - 1;
      RequestsAre(probes[..n], e);
      assert forall p :: p in probes <==> p in probes[..n] || p == probes[n];
    }
  }

  lemma RequestsSnoc(probes: seq<Probe>, p: Probe)
    ensures Requests(probes + [p]) == Requests(probes) + if Skipped(p) then [] else [p.request]
    ensures Skipped(p) ==> Requests(probes + [p]) == Requests(probes)
  {
    assert (probes + [p])[..|probes|] == probes;
  }

  lemma {:induction false} RequestsAppend(a: seq<Probe>, b: seq<Probe>)
    ensures Requests(a + b) == Requests(a) + Requests(b)
  {
    if b == [] {
      assert a + b == a;
    } else {
      hide Requests, Skipped;
      var n := |b| - 1;
      RequestsAppend(a, b[..n]);
      AppendDropLast(a, b);
      DropLast(b);
      RequestsSnoc(a + b[..n], b[n]);
      RequestsSnoc(b[..n], b[n]);
      Assoc(Requests(a), Requests(b[..n]), if Skipped(b[n]) then [] else [b[n].request]);
    }
  }

  lemma CacheFromSnoc(touch: bool, cache: Cache, events: seq<Event>, e: Event)
    ensures CacheFrom(touch, cache, events + [e]) == Step(touch, CacheFrom(touch, cache, events), e)
  {
    assert (events + [e])[..|events|] == events;
  }

  // ----- whole runs, from an empty cache -----

  function CacheAfter(touch: bool, events: seq<Event>): Cache {
    CacheFrom(touch, map[], events)
  }

  ghost predicate MissAt(touch: bool, events: seq<Event>, i: nat)
    requires i < |events|
  {
    events[i].Request? && IsMiss(CacheAfter(touch, events[..i]), events[i])
  }

  function AnswerAt(touch: bool, events: seq<Event>, i: nat): Selector
    requires i < |events| && events[i].Request?
  {
    Answer(CacheAfter(touch, events[..i]), events[i])
  }

  /** `j` is the latest miss on key `k` among the events. */
  ghost predicate LatestMiss(touch: bool, events: seq<Event>, k: string, j: nat) {
    && j < |events| && MissAt(touch, events, j) && Key(events[j]) == k
    && forall i :: j < i < |events| && MissAt(touch, events, i) ==> Key(events[i]) != k
  }

  /** `j` is the latest request for key `k` among the events. */
  ghost predicate LatestRequest(events: seq<Event>, k: string, j: nat) {
    && j < |events| && events[j].Request? && Key(events[j]) == k
    && forall i :: j < i < |events| && events[i].Request? ==> Key(events[i]) != k
  }

  lemma MissAtPrefix(touch: bool, events: seq<Event>, e: Event, i: nat)
    requires i < |events|
    ensures MissAt(touch, events + [e], i) == MissAt(touch, events, i)
  {
    assert (events + [e])[..i] == events[..i];
  }

  lemma LatestMissKept(touch: bool, events: seq<Event>, e: Event, k: string, j: nat)
    requires LatestMiss(touch, events, k, j)
    requires !(e.Request? && IsMiss(CacheAfter(touch, events), e) && Key(e) == k)
    ensures LatestMiss(touch, events + [e], k, j)
  {
    MissAtPrefix(touch, events, e, j);
    forall i | j < i < |events + [e]| && MissAt(touch, events + [e], i) ensures Key((events + [e])[i]) != k {
      if i < |events| {
        MissAtPrefix(touch, events, e, i);
      } else {
        assert (events + [e])[..i] == events;
      }
    }
  }

  lemma LatestMissNow(touch: bool, events: seq<Event>, e: Event)
    requires e.Request? && IsMiss(CacheAfter(touch, events), e)
    ensures LatestMiss(touch, events + [e], Key(e), |events|)
  {
    assert (events + [e])[..|events|] == events;
  }

  /** Every cached item holds the answer computed by the latest miss on its key. */
  lemma {:induction false} ItemsComeFromMisses(touch: bool, events: seq<Event>, k: string) returns (j: nat)
    requires k in CacheAfter(touch, events)
    ensures LatestMiss(touch, events, k, j) && CacheAfter(touch, events)[k].answer == Collected(events[j])
  {
    var n := |events| - 1;
    var before, e := events[..n], events[n];
    assert events == before + [e];
    if e.Request? && IsMiss(CacheAfter(touch, before), e) && Key(e) == k {
      j := n;
      LatestMissNow(touch, before, e);
    } else {
      j := ItemsComeFromMisses(touch, before, k);
      LatestMissKept(touch, before, e, k, j);
    }
  }

  /** In every run, each answer equals the one computed by the latest miss on the same key. */
  lemma AnswersComeFromMisses(touch: bool, events: seq<Event>, i: nat) returns (j: nat)
    requires i < |events| && events[i].Request?
    ensures j <= i && LatestMiss(touch, events[..i + 1], Key(events[i]), j)
    ensures AnswerAt(touch, events, i) == Collected(events[j])
  {
    var before, e := events[..i], events[i];
    assert events[..i + 1] == before + [e];
    if IsMiss(CacheAfter(touch, before), e) {
      j := i;
      LatestMissNow(touch, before, e);
    } else {
      j := ItemsComeFromMisses(touch, before, Key(e));
      LatestMissKept(touch, before, e, Key(e), j);
    }
  }

  // ----- how old an answer may be -----

  lemma {:induction false} ItemAge(events: seq<Event>, k: string) returns (j: nat)
    requires k in CacheAfter(false, events)
    ensures LatestMiss(false, events, k, j) && CacheAfter(false, events)[k].answer == Collected(events[j])
    ensures CacheAfter(false, events)[k].expires == events[j].now + TTL
  {
    var n := |events| - 1;
    var before, e := events[..n], events[n];
    assert events == before + [e];
    if e.Request? && IsMiss(CacheAfter(false, before), e) && Key(e) == k {
      j := n;
      LatestMissNow(false, before, e);
    } else {
      j := ItemAge(before, k);
      LatestMissKept(false, before, e, k, j);
    }
  }

  /** Without touch-on-hit an answer is never older than the lifetime of an item. */
  lemma AnswersAreRecent(events: seq<Event>, i: nat) returns (j: nat)
    requires i < |events| && events[i].Request?
    ensures j <= i && LatestMiss(false, events[..i + 1], Key(events[i]), j)
    ensures AnswerAt(false, events, i) == Collected(events[j]) && events[i].now <= events[j].now + TTL
  {
    var before, e := events[..i], events[i];
    assert events[..i + 1] == before + [e];
    if IsMiss(CacheAfter(false, before), e) {
      j := i;
      LatestMissNow(false, before, e);
    } else {
      j := ItemAge(before, Key(e));
      LatestMissKept(false, before, e, Key(e), j);
    }
  }

  /** One key asked for again each time its item is about to expire; only the first answer is
      collected from `first`. */
  function Late(ctx: CommandContext, first: seq<Label>, later: seq<Label>, n: nat): (events: seq<Event>)
    ensures |events| == n + 1
    ensures forall i :: 0 <= i <= n ==> events[i] == Request(ctx, i * TTL, if i == 0 then first else later)
  {
    if n == 0 then [Request(ctx, 0, first)]
    else Late(ctx, first, later, n - 1) + [Request(ctx, n * TTL, later)]
  }

  lemma LateInit(ctx: CommandContext, first: seq<Label>, later: seq<Label>, n: nat)
    requires n > 0
    ensures Late(ctx, first, later, n)[..n] == Late(ctx, first, later, n - 1)
    ensures Late(ctx, first, later, n) == Late(ctx, first, later, n - 1) + [Request(ctx, n * TTL, later)]
  {
  }

  lemma RenewedInTime(cache: Cache, e: Event)
    requires e.Request? && Key(e) in cache && e.now <= cache[Key(e)].expires
    ensures !IsMiss(cache, e) && Answer(cache, e) == cache[Key(e)].answer
    ensures Key(e) in Step(true, cache, e) && Step(true, cache, e)[Key(e)] == Item(cache[Key(e)].answer, e.now + TTL)
  {
  }

  lemma FirstIsCollected(ctx: CommandContext, first: seq<Label>)
    ensures var e := Request(ctx, 0, first); var cache := CacheAfter(true, [e]);
            UniqueString(ctx) in cache && cache[UniqueString(ctx)] == Item(AugmentLabels(first), TTL)
  {
    hide AugmentLabels, UniqueString;
    CacheFromSnoc(true, map[], [], Request(ctx, 0, first));
    assert [] + [Request(ctx, 0, first)] == [Request(ctx, 0, first)];
  }

  lemma {:induction false} LateItem(ctx: CommandContext, first: seq<Label>, later: seq<Label>, n: nat)
    ensures var cache := CacheAfter(true, Late(ctx, first, later, n));
            UniqueString(ctx) in cache && cache[UniqueString(ctx)] == Item(AugmentLabels(first), n * TTL + TTL)
  {
    hide AugmentLabels, UniqueString, Step;
    if n == 0 {
      FirstIsCollected(ctx, first);
    } else {
      var e := Request(ctx, n * TTL, later);
      LateItem(ctx, first, later, n - 1);
      LateInit(ctx, first, later, n);
      CacheFromSnoc(true, map[], Late(ctx, first, later, n - 1), e);
      RenewedInTime(CacheAfter(true, Late(ctx, first, later, n - 1)), e);
    }
  }

  /** With touch-on-hit an answer may be any number of lifetimes old: what was collected first is
      still given out, whatever the collector would find by then. */
  lemma RenewalKeepsOldAnswers(ctx: CommandContext, first: seq<Label>, later: seq<Label>, n: nat)
    ensures AnswerAt(true, Late(ctx, first, later, n), n) == AugmentLabels(first)
    ensures n > 0 ==> !MissAt(true, Late(ctx, first, later, n), n)
  {
    hide AugmentLabels, UniqueString, Step, Answer, IsMiss, CacheFrom;
    var events := Late(ctx, first, later, n);
    if n == 0 {
      assert events[..0] == [];
      CacheFromNothing(true, map[]);
      AnswerOfMiss(events[0]);
    } else {
      LateItem(ctx, first, later, n - 1);
      LateInit(ctx, first, later, n);
      RenewedInTime(CacheAfter(true, events[..n]), events[n]);
    }
  }

  lemma AnswerOfMiss(e: Event)
    requires e.Request?
    ensures Answer(map[], e) == Collected(e)
  {
  }

  /** Every answer was computed within the lifetime of an item, by the latest miss on its key. */
  ghost predicate AnswersAreFresh(touch: bool, events: seq<Event>) {
    forall i :: 0 <= i < |events| && events[i].Request? ==> FreshAt(touch, events, i)
  }

  ghost predicate FreshAt(touch: bool, events: seq<Event>, i: nat)
    requires i < |events| && events[i].Request?
  {
    exists j: nat :: LatestMiss(touch, events[..i + 1], Key(events[i]), j) && events[i].now <= events[j].now + TTL
  }

  /** The third request of three comes too late to be fresh, and is answered all the same. */
  lemma ThirdIsNotFresh(ctx: CommandContext)
    ensures !AnswersAreFresh(true, Late(ctx, [], [], 2))
  {
    hide UniqueString, IsMiss;
    var events := Late(ctx, [], [], 2);
    RenewalKeepsOldAnswers(ctx, [], [], 1);
    RenewalKeepsOldAnswers(ctx, [], [], 2);
    LateInit(ctx, [], [], 2);
    MissAtPrefix(true, Late(ctx, [], [], 1), events[2], 1);
    assert events[..3] == events;
    forall j: nat | LatestMiss(true, events[..3], Key(events[2]), j) ensures events[j].now == 0 {
      assert !MissAt(true, events, 1) && !MissAt(true, events, 2);
    }
    assert !FreshAt(true, events, 2);
  }

  /** Exactly when no answer of any run is older than the lifetime of an item: without renewal. */
  lemma AnswersAreFreshIff(touch: bool)
    ensures (forall events :: AnswersAreFresh(touch, events)) <==> !touch
  {
    if touch {
      ThirdIsNotFresh(CommandContext(0, 0, 0, "", "", ""));
    } else {
      forall events: seq<Event>, i | 0 <= i < |events| && events[i].Request? ensures FreshAt(false, events, i) {
        var j := AnswersAreRecent(events, i);
        assert events[..i + 1][j] == events[j];
      }
    }
  }

  lemma {:induction false} ItemLastUse(events: seq<Event>, k: string) returns (j: nat)
    requires k in CacheAfter(true, events)
    ensures LatestRequest(events, k, j) && CacheAfter(true, events)[k].expires == events[j].now + TTL
  {
    var n := |events| - 1;
    var before, e := events[..n], events[n];
    assert events == before + [e];
    if e.Request? && Key(e) == k {
      j := n;
    } else {
      j := ItemLastUse(before, k);
      assert forall i :: 0 <= i < n ==> events[i] == before[i];
    }
  }

  /** With touch-on-hit what is bounded is the time since the key was last asked for. */
  lemma HitsFollowClosely(events: seq<Event>, i: nat) returns (j: nat)
    requires i < |events| && events[i].Request? && !MissAt(true, events, i)
    ensures LatestRequest(events[..i], Key(events[i]), j) && events[i].now <= events[j].now + TTL
  {
    j := ItemLastUse(events[..i], Key(events[i]));
  }

  // ----- when the cached handler refines the uncached one -----

  datatype Ask = Ask(ctx: CommandContext, labels: seq<Label>)

  /** What is asked for in a run, without the times and the background removals. */
  function AsksOf(events: seq<Event>): seq<Ask> {
    if events == [] then [] else
      AsksOf(events[..|events| - 1]) + AskOf(events[|events| - 1])
  }

  function AskOf(e: Event): seq<Ask> {
    if e.Request? then [Ask(e.ctx, e.labels)] else []
  }

  lemma {:induction false} AskIsAsked(events: seq<Event>, i: nat)
    requires i < |events| && events[i].Request?
    ensures Ask(events[i].ctx, events[i].labels) in AsksOf(events)
  {
    var n := |events| - 1;
    if i < n {
      AskIsAsked(events[..n], i);
    }
  }

  /** Every answer is the one the collector would give at that moment. */
  ghost predicate Refines(touch: bool, events: seq<Event>) {
    forall i :: 0 <= i < |events| && events[i].Request? ==> AnswerAt(touch, events, i) == Collected(events[i])
  }

  /** The collector's result is a function of the key, over the whole run. */
  ghost predicate KeyDetermined(asks: seq<Ask>) {
    forall a, b :: a in asks && b in asks && UniqueString(a.ctx) == UniqueString(b.ctx) ==>
      AugmentLabels(a.labels) == AugmentLabels(b.labels)
  }

  /** Whatever the times, and however background removals are interleaved. */
  lemma KeyDeterminedRefines(touch: bool, events: seq<Event>)
    requires KeyDetermined(AsksOf(events))
    ensures Refines(touch, events)
  {
    hide AugmentLabels, UniqueString;
    forall i | 0 <= i < |events| && events[i].Request? ensures AnswerAt(touch, events, i) == Collected(events[i]) {
      var j := AnswersComeFromMisses(touch, events, i);
      assert events[..i + 1][j] == events[j];
      AskIsAsked(events, i);
      AskIsAsked(events, j);
    }
  }

  ghost predicate AllFresh(cache: Cache) {
    forall k :: k in cache ==> cache[k].expires == TTL
  }

  /** When no time passes, an item once filed stays as it is. */
  lemma NothingExpiresInStep(touch: bool, cache: Cache, e: Event)
    requires AllFresh(cache) && e.Request? && e.now == 0
    ensures AllFresh(Step(touch, cache, e))
    ensures Key(e) in Step(touch, cache, e) && Step(touch, cache, e)[Key(e)].answer == Answer(cache, e)
    ensures forall k :: k in cache ==> k in Step(touch, cache, e) && Step(touch, cache, e)[k].answer == cache[k].answer
  {
  }

  ghost predicate AtOnce(events: seq<Event>) {
    forall i :: 0 <= i < |events| ==> events[i].Request? && events[i].now == 0
  }

  lemma {:induction false} StaysFresh(touch: bool, events: seq<Event>)
    requires AtOnce(events)
    ensures AllFresh(CacheAfter(touch, events))
  {
    if events == [] {
    } else {
      StaysFresh(touch, events[..|events| - 1]);
      NothingExpiresInStep(touch, CacheAfter(touch, events[..|events| - 1]), events[|events| - 1]);
    }
  }

  lemma {:induction false} NothingExpires(touch: bool, events: seq<Event>, i: nat)
    requires i < |events| && AtOnce(events)
    ensures Key(events[i]) in CacheAfter(touch, events)
    ensures CacheAfter(touch, events)[Key(events[i])].answer == AnswerAt(touch, events, i)
  {
    hide Step, Answer, Key;
    var n := |events| - 1;
    StaysFresh(touch, events[..n]);
    NothingExpiresInStep(touch, CacheAfter(touch, events[..n]), events[n]);
    if i < n {
      NothingExpires(touch, events[..n], i);
      assert events[..n][..i] == events[..i];
    }
  }

  lemma AtOnceSameAnswer(touch: bool, events: seq<Event>, i: nat, j: nat)
    requires AtOnce(events) && i < j < |events| && Key(events[i]) == Key(events[j])
    ensures AnswerAt(touch, events, i) == AnswerAt(touch, events, j)
  {
    hide AugmentLabels, UniqueString;
    NothingExpires(touch, events[..j], i);
    StaysFresh(touch, events[..j]);
    assert events[..j][..i] == events[..i];
  }

  /** The run that asks for everything at time 0. */
  function Immediately(asks: seq<Ask>): (events: seq<Event>)
    ensures |events| == |asks| && AtOnce(events)
  {
    seq(|asks|, i requires 0 <= i < |asks| => Request(asks[i].ctx, 0, asks[i].labels))
  }

  lemma AsksSnoc(events: seq<Event>, e: Event)
    ensures AsksOf(events + [e]) == AsksOf(events) + AskOf(e)
  {
    assert (events + [e])[..|events|] == events;
  }

  lemma {:induction false} ImmediatelyAsks(asks: seq<Ask>)
    ensures AsksOf(Immediately(asks)) == asks
  {
    if asks == [] {
    } else {
      hide AsksOf, AtOnce;
      var n := |asks| - 1;
      ImmediatelyAsks(asks[..n]);
      AsksSnoc(Immediately(asks[..n]), Request(asks[n].ctx, 0, asks[n].labels));
      assert Immediately(asks) == Immediately(asks[..n]) + [Request(asks[n].ctx, 0, asks[n].labels)];
      DropLast(asks);
    }
  }

  lemma SameAnswersAtOnce(touch: bool, asks: seq<Ask>, i: nat, j: nat)
    requires Refines(touch, Immediately(asks))
    requires i < |asks| && j < |asks| && UniqueString(asks[i].ctx) == UniqueString(asks[j].ctx)
    ensures AugmentLabels(asks[i].labels) == AugmentLabels(asks[j].labels)
  {
    hide AugmentLabels, UniqueString;
    var events := Immediately(asks);
    if i < j {
      AtOnceSameAnswer(touch, events, i, j);
    } else if j < i {
      AtOnceSameAnswer(touch, events, j, i);
    }
    assert Collected(events[i]) == AnswerAt(touch, events, i);
    assert Collected(events[j]) == AnswerAt(touch, events, j);
  }

  lemma RefiningAtOnceDetermines(touch: bool, asks: seq<Ask>)
    requires Refines(touch, Immediately(asks))
    ensures KeyDetermined(asks)
  {
    hide Refines, AugmentLabels, UniqueString;
    forall a, b | a in asks && b in asks && UniqueString(a.ctx) == UniqueString(b.ctx)
      ensures AugmentLabels(a.labels) == AugmentLabels(b.labels)
    {
      var i :| 0 <= i < |asks| && asks[i] == a;
      var j :| 0 <= j < |asks| && asks[j] == b;
      SameAnswersAtOnce(touch, asks, i, j);
    }
  }

  /** The cached handler gives the collector's answers under every timing, and however background
      removals are interleaved, exactly when the collector's result depends on nothing but the key. */
  lemma RefinesIffKeyDetermined(touch: bool, asks: seq<Ask>)
    ensures (forall events :: AsksOf(events) == asks ==> Refines(touch, events)) <==> KeyDetermined(asks)
  {
    hide Refines;
    if KeyDetermined(asks) {
      forall events | AsksOf(events) == asks ensures Refines(touch, events) {
        KeyDeterminedRefines(touch, events);
      }
    }
    ImmediatelyAsks(asks);
    if Refines(touch, Immediately(asks)) {
      RefiningAtOnceDetermines(touch, asks);
    }
  }

  /** Contexts whose key can be read back, or that have it to themselves. */
  predicate KeyIsReadable(c: CommandContext) {
    ('-' !in c.cgroupPath && '-' !in c.commandName) || StandsAlone(c)
  }

  lemma ReadableKeysDetermineFields(c: CommandContext, d: CommandContext)
    requires KeyIsReadable(c) && KeyIsReadable(d) && UniqueString(c) == UniqueString(d)
    ensures KeyFields(c) == KeyFields(d)
  {
    hide StandsAlone, UniqueString;
    if StandsAlone(c) {
      OwnsKeyIff(c);
    } else if StandsAlone(d) {
      OwnsKeyIff(d);
    } else {
      KeyDeterminesFields(c, d);
    }
  }

  /** A collector that looks only at the printed fields is key-determined on such contexts. */
  lemma FieldDeterminedIsKeyDetermined(asks: seq<Ask>)
    requires forall a :: a in asks ==> KeyIsReadable(a.ctx)
    requires forall a, b :: a in asks && b in asks && KeyFields(a.ctx) == KeyFields(b.ctx) ==>
               AugmentLabels(a.labels) == AugmentLabels(b.labels)
    ensures KeyDetermined(asks)
  {
    hide KeyIsReadable, UniqueString, AugmentLabels;
    forall a, b | a in asks && b in asks && UniqueString(a.ctx) == UniqueString(b.ctx)
      ensures AugmentLabels(a.labels) == AugmentLabels(b.labels)
    {
      ReadableKeysDetermineFields(a.ctx, b.ctx);
    }
  }
}
