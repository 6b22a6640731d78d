/** The Trace RPC: any number of sessions announcing, watching and withdrawing a request on
    the event bus, in any interleaving. */
module Trace {
  import opened Common

  datatype TraceRequest = TraceRequest(pid: nat, uid: Option<nat>, commandName: string)

  datatype Response = Response(pid: nat, uid: nat, commandName: string, message: string)

  /** Each filter that is set must agree with the response. */
  predicate MatchResponse(req: TraceRequest, resp: Response) {
    if req.pid > 0 && req.pid != resp.pid then false
    else if req.uid.Some? && req.uid.value != resp.uid then false
    else !(req.commandName != "" && req.commandName != resp.commandName)
  }

  datatype Fact = Pid(pid: nat) | Uid(uid: nat) | Name(name: string)

  /** What a request asks for: one fact for every filter that is set. */
  function Filters(req: TraceRequest): set<Fact> {
    (if req.pid > 0 then {Pid(req.pid)} else {})
    + (if req.uid.Some? then {Uid(req.uid.value)} else {})
    + (if req.commandName != "" then {Name(req.commandName)} else {})
  }

  function Facts(resp: Response): set<Fact> {
    {Pid(resp.pid), Uid(resp.uid), Name(resp.commandName)}
  }

  /** A response matches when it has every fact asked for; so a request with more filters
      set matches fewer responses. */
  lemma MatchesIffFactsHold(req: TraceRequest, resp: Response)
    ensures MatchResponse(req, resp) <==> Filters(req) <= Facts(resp)
  {
    assert req.pid > 0 ==> Pid(req.pid) in Filters(req);
    assert req.uid.Some? ==> Uid(req.uid.value) in Filters(req);
    assert req.commandName != "" ==> Name(req.commandName) in Filters(req);
  }

  datatype Action = Add | Remove

  datatype Message = Message(req: TraceRequest, action: Action)

  /** Where a session is in the sequence publish-add, subscribe, unsubscribe, publish-remove. */
  datatype Phase = Started | AddFailed | Added | Subscribed | Unsubscribed | Removed | RemoveFailed

  datatype Session = Session(req: TraceRequest, phase: Phase)

  /** `handlers` are the sessions whose handler the bus may call. */
  datatype State = State(
    sessions: map<nat, Session>,
    published: seq<Message>,
    handlers: set<nat>,
    sent: seq<(nat, Response)>)

  /** What may happen next; publishing can fail, the bus calls whichever handlers it calls, and
      which of them it forgets on unsubscription is its own affair. */
  datatype Step =
    | Start(id: nat, req: TraceRequest)
    | PublishAdd(id: nat, ok: bool)
    | Subscribe(id: nat)
    | Deliver(id: nat, resp: Response)
    | Unsubscribe(id: nat, kept: set<nat>)
    | PublishRemove(id: nat, ok: bool)

  const INIT := State(map[], [], {}, [])

  predicate InPhase(s: State, id: nat, phase: Phase) {
    id in s.sessions && s.sessions[id].phase == phase
  }

  predicate Enabled(s: State, step: Step) {
    match step
    case Start(id, _) => id !in s.sessions
    case PublishAdd(id, _) => InPhase(s, id, Started)
    case Subscribe(id) => InPhase(s, id, Added)
    case Deliver(id, _) => id in s.handlers && id in s.sessions
    case Unsubscribe(id, kept) => InPhase(s, id, Subscribed) && kept <= s.handlers
    case PublishRemove(id, _) => InPhase(s, id, Unsubscribed)
  }

  function Enter(s: State, id: nat, phase: Phase): map<nat, Session>
    requires id in s.sessions
  {
    s.sessions[id := s.sessions[id].(phase := phase)]
  }

  function Next(s: State, step: Step): State
    requires Enabled(s, step)
  {
    match step
    case Start(id, req) => s.(sessions := s.sessions[id := Session(req, Started)])
    case PublishAdd(id, ok) =>
      if ok then s.(sessions := Enter(s, id, Added), published := s.published + [Message(s.sessions[id].req, Add)])
      else s.(sessions := Enter(s, id, AddFailed))
    case Subscribe(id) => s.(sessions := Enter(s, id, Subscribed), handlers := s.handlers + {id})
    case Deliver(id, resp) =>
      if MatchResponse(s.sessions[id].req, resp) then s.(sent := s.sent + [(id, resp)]) else s
    case Unsubscribe(id, kept) => s.(sessions := Enter(s, id, Unsubscribed), handlers := kept)
    case PublishRemove(id, ok) =>
      if ok then s.(sessions := Enter(s, id, Removed), published := s.published + [Message(s.sessions[id].req, Remove)])
      else s.(sessions := Enter(s, id, RemoveFailed))
  }

  /** The state after a run of steps, if every step is enabled where it is taken. */
  function Exec(steps: seq<Step>): Option<State> {
    if steps == [] then Some(INIT) else
      match Exec(steps[..|steps| - 1])
      case None => None
      case Some(s) => if Enabled(s, steps[|steps| - 1]) then Some(Next(s, steps[|steps| - 1])) else None
  }

  // ----- what holds in every reachable state -----

  function Count(published: seq<Message>, m: Message): nat {
    multiset(published)[m]
  }

  /** Announced and not withdrawn; a failed withdrawal leaves the request outstanding. */
  predicate Outstanding(x: Session) {
    x.phase in {Added, Subscribed, Unsubscribed, RemoveFailed}
  }

  predicate Counts(x: Session, req: TraceRequest) {
    x.req == req && Outstanding(x)
  }

  function OutstandingFor(s: State, req: TraceRequest): set<nat> {
    set id | id in s.sessions && Counts(s.sessions[id], req)
  }

  /** Per request, the adds minus the removes published are the outstanding sessions. */
  ghost predicate Balanced(s: State) {
    forall req :: BalancedFor(s, req)
  }

  ghost predicate BalancedFor(s: State, req: TraceRequest) {
    Count(s.published, Message(req, Add)) == Count(s.published, Message(req, Remove)) + |OutstandingFor(s, req)|
  }

  /** A session was only ever sent what its own request matches, and only after announcing it. */
  ghost predicate SentMatches(s: State) {
    && (forall id :: id in s.handlers ==> Announced(s, id))
    && (forall i :: 0 <= i < |s.sent| ==>
        Announced(s, s.sent[i].0) && MatchResponse(s.sessions[s.sent[i].0].req, s.sent[i].1))
    && (forall id :: id in s.sessions && (Outstanding(s.sessions[id]) || s.sessions[id].phase == Removed) ==>
        Announced(s, id))
  }

  predicate Announced(s: State, id: nat) {
    id in s.sessions && Message(s.sessions[id].req, Add) in s.published
  }

  lemma CountAppend(published: seq<Message>, last: Message, m: Message)
    ensures Count(published + [last], m) == Count(published, m) + if last == m then 1 else 0
  {
  }

  lemma OutstandingMoves(s: State, t: State, id: nat, phase: Phase, req: TraceRequest)
    requires id in s.sessions && t.sessions == Enter(s, id, phase)
    ensures id in OutstandingFor(s, req) <==> Counts(s.sessions[id], req)
    ensures OutstandingFor(t, req) == OutstandingFor(s, req) - {id} + if Counts(t.sessions[id], req) then {id} else {}
  {
    var moved := if Counts(t.sessions[id], req) then {id} else {};
    forall k ensures k in OutstandingFor(t, req) <==> k in OutstandingFor(s, req) - {id} + moved {
      if k != id && k in s.sessions {
        assert t.sessions[k] == s.sessions[k];
      }
    }
  }

  /** A session that enters a phase joins or leaves the outstanding ones of its own request. */
  lemma OutstandingAfter(s: State, t: State, id: nat, phase: Phase, req: TraceRequest)
    requires id in s.sessions && t.sessions == Enter(s, id, phase)
    ensures |OutstandingFor(t, req)| == |OutstandingFor(s, req)|
              + (if Counts(t.sessions[id], req) then 1 else 0) - (if Counts(s.sessions[id], req) then 1 else 0)
  {
    hide OutstandingFor, Counts;
    OutstandingMoves(s, t, id, phase, req);
    var rest := OutstandingFor(s, req) - {id};
    assert id in OutstandingFor(s, req) ==> OutstandingFor(s, req) == rest + {id};
  }

  lemma StepKeepsBalance(s: State, step: Step)
    requires Balanced(s) && Enabled(s, step)
    ensures Balanced(Next(s, step))
  {
    hide BalancedFor, Next, Enabled;
    forall req ensures BalancedFor(Next(s, step), req) {
      BalanceOf(s, step, req);
    }
  }

  /** A session that enters a phase, and what it publishes on the way. */
  lemma EnteringKeepsBalance(s: State, t: State, id: nat, phase: Phase, sent: seq<Action>, req: TraceRequest)
    requires id in s.sessions && t.sessions == Enter(s, id, phase) && BalancedFor(s, req)
    requires if sent == [] then t.published == s.published
             else |sent| == 1 && t.published == s.published + [Message(s.sessions[id].req, sent[0])]
    requires Outstanding(t.sessions[id]) <==> if sent == [] then Outstanding(s.sessions[id]) else sent[0] == Add
    requires sent != [] ==> (Outstanding(s.sessions[id]) <==> sent[0] == Remove)
    ensures BalancedFor(t, req)
  {
    hide OutstandingFor, Outstanding, Count;
    OutstandingAfter(s, t, id, phase, req);
    if sent != [] {
      CountAppend(s.published, Message(s.sessions[id].req, sent[0]), Message(req, Add));
      CountAppend(s.published, Message(s.sessions[id].req, sent[0]), Message(req, Remove));
    }
  }

  lemma StartKeepsBalance(s: State, t: State, id: nat, req: TraceRequest, started: TraceRequest)
    requires id !in s.sessions && BalancedFor(s, req)
    requires t == s.(sessions := s.sessions[id := Session(started, Started)])
    ensures BalancedFor(t, req)
  {
    assert OutstandingFor(t, req) == OutstandingFor(s, req);
  }

  lemma SameSessionsSameBalance(s: State, t: State, req: TraceRequest)
    requires t.sessions == s.sessions && t.published == s.published && BalancedFor(s, req)
    ensures BalancedFor(t, req)
  {
    assert OutstandingFor(t, req) == OutstandingFor(s, req);
  }

  lemma BalanceOf(s: State, step: Step, req: TraceRequest)
    requires Enabled(s, step) && BalancedFor(s, req)
    ensures BalancedFor(Next(s, step), req)
  {
    hide BalancedFor;
    var t := Next(s, step);
    match step {
      case Start(id, started) =>
        StartKeepsBalance(s, t, id, req, started);
      case PublishAdd(id, ok) =>
        EnteringKeepsBalance(s, t, id, if ok then Added else AddFailed, if ok then [Add] else [], req);
      case Subscribe(id) =>
        EnteringKeepsBalance(s, t, id, Subscribed, [], req);
      case Deliver(_, _) =>
        SameSessionsSameBalance(s, t, req);
      case Unsubscribe(id, _) =>
        EnteringKeepsBalance(s, t, id, Unsubscribed, [], req);
      case PublishRemove(id, ok) =>
        EnteringKeepsBalance(s, t, id, if ok then Removed else RemoveFailed, if ok then [Remove] else [], req);
    }
  }

  lemma StepKeepsAnnounced(s: State, step: Step, id: nat)
    requires Enabled(s, step) && Announced(s, id)
    ensures Announced(Next(s, step), id) && Next(s, step).sessions[id].req == s.sessions[id].req
  {
    var t := Next(s, step);
    assert s.published <= t.published;
    assert forall m :: m in s.published ==> m in t.published;
  }

  lemma StepKeepsSentMatches(s: State, step: Step)
    requires SentMatches(s) && Enabled(s, step)
    ensures SentMatches(Next(s, step))
  {
    hide MatchResponse;
    var t := Next(s, step);
    forall id | Announced(s, id) ensures Announced(t, id) && t.sessions[id].req == s.sessions[id].req {
      StepKeepsAnnounced(s, step, id);
    }
  }

  /** Every interleaving of any number of sessions keeps the books balanced and sends only
      matching responses. */
  lemma {:induction false} EveryRunIsSafe(steps: seq<Step>)
    requires Exec(steps).Some?
    ensures Balanced(Exec(steps).value) && SentMatches(Exec(steps).value)
  {
    var s := Exec(steps).value;
    if steps == [] {
      forall req ensures |OutstandingFor(s, req)| == 0 {
        assert OutstandingFor(s, req) == {};
      }
    } else {
      var n := |steps| - 1;
      var before := Exec(steps[..n]).value;
      EveryRunIsSafe(steps[..n]);
      StepKeepsBalance(before, steps[n]);
      StepKeepsSentMatches(before, steps[n]);
    }
  }

  ghost predicate NoneOutstanding(s: State, req: TraceRequest) {
    forall id :: id in s.sessions && s.sessions[id].req == req ==> !Outstanding(s.sessions[id])
  }

  lemma NoneOutstandingIsEmpty(s: State, req: TraceRequest)
    ensures NoneOutstanding(s, req) <==> |OutstandingFor(s, req)| == 0
  {
    var out := OutstandingFor(s, req);
    forall id | id in s.sessions && s.sessions[id].req == req ensures Outstanding(s.sessions[id]) ==> id in out {
    }
    if NoneOutstanding(s, req) {
      assert out == {};
    }
  }

  /** In every run: as many removes as adds were published for a request exactly when no
      session with that request is outstanding. */
  lemma NothingLeftBehind(steps: seq<Step>, req: TraceRequest)
    requires Exec(steps).Some?
    ensures var s := Exec(steps).value;
            Count(s.published, Message(req, Add)) == Count(s.published, Message(req, Remove))
            <==> NoneOutstanding(s, req)
  {
    EveryRunIsSafe(steps);
    assert BalancedFor(Exec(steps).value, req);
    NoneOutstandingIsEmpty(Exec(steps).value, req);
  }

  // ----- what a session does, and what it sends -----

  /** The steps of session `id` other than deliveries, in their order. */
  function StepsOf(steps: seq<Step>, id: nat): seq<Step> {
    if steps == [] then [] else
      StepsOf(steps[..|steps| - 1], id)
      + if steps[|steps| - 1].id == id && !steps[|steps| - 1].Deliver? then [steps[|steps| - 1]] else []
  }

  /** Started, announced, and if that went well subscribed, unsubscribed and withdrawn. */
  predicate FollowsTheCall(own: seq<Step>) {
    && |own| <= 5
    && (|own| > 0 ==> own[0].Start?)
    && (|own| > 1 ==> own[1].PublishAdd?)
    && (|own| > 2 ==> own[1].ok && own[2].Subscribe?)
    && (|own| > 3 ==> own[3].Unsubscribe?)
    && (|own| > 4 ==> own[4].PublishRemove?)
  }

  /** How far the steps of a session have taken it. */
  predicate HasReached(s: State, id: nat, own: seq<Step>) {
    FollowsTheCall(own) &&
    if own == [] then id !in s.sessions
    else id in s.sessions && s.sessions[id].req == own[0].req && s.sessions[id].phase ==
         if |own| == 1 then Started
         else if |own| == 2 then (if own[1].ok then Added else AddFailed)
         else if |own| == 3 then Subscribed
         else if |own| == 4 then Unsubscribed
         else if own[4].ok then Removed else RemoveFailed
  }

  lemma StepTakesFurther(s: State, step: Step, id: nat, own: seq<Step>)
    requires Enabled(s, step) && HasReached(s, id, own)
    ensures HasReached(Next(s, step), id, own + if step.id == id && !step.Deliver? then [step] else [])
  {
    if step.id != id || step.Deliver? {
      assert own + [] == own;
    }
  }

  /** In every interleaving each session goes through the steps of the call in their order. */
  lemma {:induction false} SessionsFollowTheCall(steps: seq<Step>, id: nat)
    requires Exec(steps).Some?
    ensures HasReached(Exec(steps).value, id, StepsOf(steps, id))
  {
    if steps == [] {
    } else {
      hide HasReached;
      var n := |steps| - 1;
      SessionsFollowTheCall(steps[..n], id);
      StepTakesFurther(Exec(steps[..n]).value, steps[n], id, StepsOf(steps[..n], id));
    }
  }

  lemma StepHandlers(s: State, step: Step, id: nat)
    requires Enabled(s, step)
    ensures id in Next(s, step).handlers ==> id in s.handlers || step == Subscribe(id)
    ensures step == Subscribe(id) ==> id in Next(s, step).handlers
    ensures id in s.handlers && !step.Unsubscribe? ==> id in Next(s, step).handlers
  {
  }

  /** Only a session that has subscribed is called, and it can be called from then on until someone
      unsubscribes. */
  lemma {:induction false} CalledAfterSubscribing(steps: seq<Step>, id: nat, i: nat)
    requires Exec(steps).Some?
    ensures id in Exec(steps).value.handlers ==> Subscribe(id) in steps
    ensures i < |steps| && steps[i] == Subscribe(id) && (forall j :: i < j < |steps| ==> !steps[j].Unsubscribe?) ==>
              id in Exec(steps).value.handlers
  {
    if steps == [] {
    } else {
      hide Next, Enabled;
      var n := |steps| - 1;
      CalledAfterSubscribing(steps[..n], id, i);
      StepHandlers(Exec(steps[..n]).value, steps[n], id);
      DropLast(steps);
      assert forall j :: 0 <= j < n ==> steps[..n][j] == steps[j];
    }
  }

  /** A call of a session's handler with what its own request, given when it started, asks for. */
  ghost predicate Matched(steps: seq<Step>, id: nat, resp: Response) {
    exists req :: Start(id, req) in steps && Filters(req) <= Facts(resp)
  }

  /** The matching calls of a run, in their order. */
  ghost function MatchedCalls(steps: seq<Step>): seq<(nat, Response)> {
    if steps == [] then [] else
      var step := steps[|steps| - 1];
      MatchedCalls(steps[..|steps| - 1])
      + if step.Deliver? && Matched(steps, step.id, step.resp) then [(step.id, step.resp)] else []
  }

  lemma {:induction false} StepsOfMember(steps: seq<Step>, id: nat, step: Step)
    ensures step in StepsOf(steps, id) <==> step in steps && step.id == id && !step.Deliver?
  {
    if steps == [] {
    } else {
      StepsOfMember(steps[..|steps| - 1], id, step);
      DropLast(steps);
    }
  }

  /** A session has the one request it was started with. */
  lemma StartedWith(steps: seq<Step>, id: nat, req: TraceRequest)
    requires Exec(steps).Some? && id in Exec(steps).value.sessions
    ensures Start(id, req) in steps <==> req == Exec(steps).value.sessions[id].req
  {
    var own := StepsOf(steps, id);
    SessionsFollowTheCall(steps, id);
    StepsOfMember(steps, id, Start(id, req));
    StepsOfMember(steps, id, own[0]);
    assert own[0] in own;
  }

  lemma StepSends(s: State, step: Step)
    requires Enabled(s, step)
    ensures step.Deliver? && Filters(s.sessions[step.id].req) <= Facts(step.resp) ==>
              Next(s, step).sent == s.sent + [(step.id, step.resp)]
    ensures !step.Deliver? || !(Filters(s.sessions[step.id].req) <= Facts(step.resp)) ==> Next(s, step).sent == s.sent
  {
    if step.Deliver? {
      MatchesIffFactsHold(s.sessions[step.id].req, step.resp);
    }
  }

  /** In every run exactly the matching calls are sent on, each once and in the order they came. */
  lemma {:induction false} MatchedCallsAreSent(steps: seq<Step>)
    requires Exec(steps).Some?
    ensures Exec(steps).value.sent == MatchedCalls(steps)
  {
    if steps == [] {
    } else {
      hide Filters, Facts, Next;
      var n := |steps| - 1;
      var before, step := Exec(steps[..n]).value, steps[n];
      MatchedCallsAreSent(steps[..n]);
      StepSends(before, step);
      if step.Deliver? {
        DropLast(steps);
        StartedWith(steps[..n], step.id, before.sessions[step.id].req);
        forall req ensures Start(step.id, req) in steps <==> req == before.sessions[step.id].req {
          StartedWith(steps[..n], step.id, req);
        }
      }
    }
  }
}
