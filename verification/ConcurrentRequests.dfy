/**
 Any number of requests interleaved over one breaker. Between two suspension points a request runs
 alone, so a system move is one request's admission check together with its first send, one attempt's
 reply together with the report it causes, or one request waking from its backoff and sending again.
 */
module ConcurrentRequests {
  import opened Wrappers
  import opened CircuitBreakers
  import opened BreakerRuns
  import opened IntegrationClients

  /** `pause(n)` is the least backoff after the `n`-th attempt; jitter adds to it. */
  datatype Policy = Policy(limit: nat, pause: nat -> nat)

  /** An attempt is on the wire, the next one is due later, or the request is over; `left` counts both kinds of attempt. */
  datatype Stage = OnWire(left: nat) | Backoff(left: nat, due: int) | Ended(result: Result)

  datatype Request = Request(stage: Stage, received: seq<Reply>)

  datatype TaggedEvent = TaggedEvent(id: nat, event: Event)

  datatype System = System(breaker: Snapshot, requests: map<nat, Request>, history: seq<TaggedEvent>)

  datatype Move =
    | Begin(id: nat, now: int)
    | Receive(id: nat, reply: Reply, jitter: nat)
    | Resume(id: nat, now: int)

  const IDLE := System(FRESH, map[], [])

  /** The clock when the move is made. */
  function Time(m: Move): int {
    match m
    case Begin(_, now) => now
    case Receive(_, reply, _) => reply.at
    case Resume(_, now) => now
  }

  /** Where the lone request is at that stage: it does not tell an attempt on the wire from one due later. */
  function PhaseOf(stage: Stage): Phase {
    match stage
    case OnWire(left) => Waiting(left)
    case Backoff(left, _) => Waiting(left)
    case Ended(result) => Done(result)
  }

  /** Attempts sent so far: one per reply received, one more while one is on the wire. */
  function Sends(r: Request): nat {
    |r.received| + if r.stage.OnWire? then 1 else 0
  }

  function Tag(id: nat, es: seq<Event>): seq<TaggedEvent>
    requires |es| <= 1
  {
    if es == [] then [] else [TaggedEvent(id, es[0])]
  }

  predicate Receives(sys: System, id: nat) {
    id in sys.requests && sys.requests[id].stage.OnWire?
  }

  /** The request once the reply to its `n`-th attempt is in. */
  function Replied(policy: Policy, r: Request, reply: Reply, jitter: nat): Request
    requires r.stage.OnWire?
  {
    var received := r.received + [reply];
    var stage := match Deliver(r.stage.left, reply).phase
                 case Waiting(left) => Backoff(left, reply.at + policy.pause(|received|) + jitter)
                 case Done(result) => Ended(result);
    Request(stage, received)
  }

  /**
   A request begins once, only an attempt on the wire is answered, and only a backoff that has run out
   is resumed; other moves are no moves.
   */
  function Next(cfg: Config, policy: Policy, sys: System, m: Move): System {
    match m
    case Begin(id, now) =>
      if id in sys.requests then sys
      else
        var stage := if Admits(cfg, sys.breaker, now) then OnWire(policy.limit) else Ended(CircuitOpen);
        System(Step(cfg, sys.breaker, Event(Allow, now)),
               sys.requests[id := Request(stage, [])],
               sys.history + [TaggedEvent(id, Event(Allow, now))])
    case Receive(id, reply, jitter) =>
      if Receives(sys, id) then
        var r := sys.requests[id];
        var d := Deliver(r.stage.left, reply);
        System(Run(cfg, sys.breaker, d.events),
               sys.requests[id := Replied(policy, r, reply, jitter)],
               sys.history + Tag(id, d.events))
      else sys
    case Resume(id, now) =>
      if id in sys.requests && sys.requests[id].stage.Backoff? && sys.requests[id].stage.due <= now then
        var r := sys.requests[id];
        sys.(requests := sys.requests[id := Request(OnWire(r.stage.left), r.received)])
      else sys
  }

  /**
   A retried reply with attempts left puts the request to sleep for the backoff and the jitter from its arrival,
   and it sends again if and only if it is resumed at or after that moment.
   */
  lemma ResumesExactlyWhenDue(cfg: Config, policy: Policy, sys: System, id: nat, reply: Reply, jitter: nat, now: int)
    requires Receives(sys, id) && sys.requests[id].stage.left > 1 && Retried(reply.outcome)
    ensures var r, asleep := sys.requests[id], Next(cfg, policy, sys, Receive(id, reply, jitter));
            var next := Next(cfg, policy, asleep, Resume(id, now));
            && Sends(asleep.requests[id]) == Sends(r)
            && (now >= reply.at + policy.pause(|r.received| + 1) + jitter ==>
                  next.requests[id] == Request(OnWire(r.stage.left - 1), r.received + [reply])
                  && Sends(next.requests[id]) == Sends(r) + 1)
            && (now < reply.at + policy.pause(|r.received| + 1) + jitter ==> next == asleep)
  {
  }

  function Moves(cfg: Config, policy: Policy, sys: System, ms: seq<Move>): System {
    if ms == [] then sys
    else Next(cfg, policy, Moves(cfg, policy, sys, ms[..|ms| - 1]), ms[|ms| - 1])
  }

  // ---- Projection: what a request does in the crowd is what it would do alone ----

  function Untag(h: seq<TaggedEvent>): seq<Event> {
    if h == [] then [] else Untag(h[..|h| - 1]) + [h[|h| - 1].event]
  }

  /** The events of one request, in order. */
  function EventsOf(h: seq<TaggedEvent>, id: nat): seq<Event> {
    if h == [] then []
    else EventsOf(h[..|h| - 1], id) + if h[|h| - 1].id == id then [h[|h| - 1].event] else []
  }

  lemma UntagSnoc(h: seq<TaggedEvent>, t: TaggedEvent)
    ensures Untag(h + [t]) == Untag(h) + [t.event]
  {
    assert (h + [t])[..|h + [t]| - 1] == h;
  }

  lemma EventsOfSnoc(h: seq<TaggedEvent>, t: TaggedEvent, id: nat)
    ensures EventsOf(h + [t], id) == EventsOf(h, id) + if t.id == id then [t.event] else []
  {
    assert (h + [t])[..|h + [t]| - 1] == h;
  }

  /** The request's events are its admission check followed by what the lone request reports on the same replies. */
  ghost predicate ActsAlone(limit: nat, r: Request, es: seq<Event>) {
    && es != [] && es[0].kind == Allow
    && if r.stage == Ended(CircuitOpen) then r.received == [] && es[1..] == []
       else
         && AllAwaited(limit, r.received)
         && PhaseOf(r.stage) == Local(limit, r.received).phase
         && (r.stage.Backoff? ==> r.received != [])
         && es[1..] == Local(limit, r.received).events
  }

  ghost predicate ProjectsAt(limit: nat, sys: System, id: nat) {
    if id in sys.requests then ActsAlone(limit, sys.requests[id], EventsOf(sys.history, id))
    else EventsOf(sys.history, id) == []
  }

  ghost predicate Projects(cfg: Config, limit: nat, sys: System) {
    && sys.breaker == Run(cfg, FRESH, Untag(sys.history))
    && forall id: nat :: ProjectsAt(limit, sys, id)
  }

  lemma ReplyActsAlone(policy: Policy, r: Request, es: seq<Event>, reply: Reply, jitter: nat, fs: seq<Event>)
    requires ActsAlone(policy.limit, r, es) && r.stage.OnWire?
    requires fs == es + Deliver(r.stage.left, reply).events
    ensures ActsAlone(policy.limit, Replied(policy, r, reply, jitter), fs)
  {
    LocalSnoc(policy.limit, r.received, reply, r.stage.left);
    AwaitedSnoc(policy.limit, r.received, reply);
    assert fs[1..] == es[1..] + Deliver(r.stage.left, reply).events;
  }

  lemma MoveProjects(cfg: Config, policy: Policy, sys: System, m: Move)
    requires Projects(cfg, policy.limit, sys)
    ensures Projects(cfg, policy.limit, Next(cfg, policy, sys, m))
  {
    match m
    case Begin(id, now) => BeginProjects(cfg, policy, sys, id, now);
    case Receive(id, reply, jitter) => ReceiveProjects(cfg, policy, sys, id, reply, jitter);
    case Resume(id, now) =>
      forall j: nat ensures ProjectsAt(policy.limit, Next(cfg, policy, sys, m), j) {
        assert ProjectsAt(policy.limit, sys, j);
      }
  }

  lemma BeginProjects(cfg: Config, policy: Policy, sys: System, id: nat, now: int)
    requires Projects(cfg, policy.limit, sys)
    ensures Projects(cfg, policy.limit, Next(cfg, policy, sys, Begin(id, now)))
  {
    if id !in sys.requests {
      var next := Next(cfg, policy, sys, Begin(id, now));
      var t := TaggedEvent(id, Event(Allow, now));
      UntagSnoc(sys.history, t);
      RunSnoc(cfg, FRESH, Untag(sys.history), t.event);
      forall j: nat ensures ProjectsAt(policy.limit, next, j) {
        assert ProjectsAt(policy.limit, sys, j);
        EventsOfSnoc(sys.history, t, j);
      }
    }
  }

  lemma ReceiveProjects(cfg: Config, policy: Policy, sys: System, id: nat, reply: Reply, jitter: nat)
    requires Projects(cfg, policy.limit, sys)
    ensures Projects(cfg, policy.limit, Next(cfg, policy, sys, Receive(id, reply, jitter)))
  {
    if Receives(sys, id) {
      ReportRun(cfg, sys.breaker, sys.history, id, Deliver(sys.requests[id].stage.left, reply).events);
      forall j: nat ensures ProjectsAt(policy.limit, Next(cfg, policy, sys, Receive(id, reply, jitter)), j) {
        assert ProjectsAt(policy.limit, sys, j) && ProjectsAt(policy.limit, sys, id);
        ReceiveProjectsAt(cfg, policy, sys, id, reply, jitter, j);
      }
    }
  }

  lemma ReceiveProjectsAt(cfg: Config, policy: Policy, sys: System, id: nat, reply: Reply, jitter: nat, j: nat)
    requires Receives(sys, id)
    requires ProjectsAt(policy.limit, sys, j) && ProjectsAt(policy.limit, sys, id)
    ensures ProjectsAt(policy.limit, Next(cfg, policy, sys, Receive(id, reply, jitter)), j)
  {
    var next := Next(cfg, policy, sys, Receive(id, reply, jitter));
    var fs := Deliver(sys.requests[id].stage.left, reply).events;
    ReportEvents(sys.history, id, fs, j);
    if j == id {
      ReplyActsAlone(policy, sys.requests[id], EventsOf(sys.history, id), reply, jitter, EventsOf(next.history, id));
    } else {
      assert EventsOf(next.history, j) == EventsOf(sys.history, j);
    }
  }

  lemma ReportRun(cfg: Config, breaker: Snapshot, h: seq<TaggedEvent>, id: nat, fs: seq<Event>)
    requires |fs| <= 1 && breaker == Run(cfg, FRESH, Untag(h))
    ensures Run(cfg, breaker, fs) == Run(cfg, FRESH, Untag(h + Tag(id, fs)))
  {
    if fs == [] {
      assert h + Tag(id, fs) == h;
    } else {
      UntagSnoc(h, TaggedEvent(id, fs[0]));
      RunAppend(cfg, FRESH, Untag(h), fs);
      assert fs == [fs[0]];
    }
  }

  lemma ReportEvents(h: seq<TaggedEvent>, id: nat, fs: seq<Event>, j: nat)
    requires |fs| <= 1
    ensures EventsOf(h + Tag(id, fs), j) == EventsOf(h, j) + if j == id then fs else []
  {
    if fs == [] {
      assert h + Tag(id, fs) == h;
    } else {
      EventsOfSnoc(h, TaggedEvent(id, fs[0]), j);
      assert fs == [fs[0]];
    }
  }

  /** In every reachable system, each request has acted exactly as it would have alone on the replies it got. */
  lemma {:induction false} InterleavingProjects(cfg: Config, policy: Policy, ms: seq<Move>)
    ensures Projects(cfg, policy.limit, Moves(cfg, policy, IDLE, ms))
  {
    if ms != [] {
      InterleavingProjects(cfg, policy, ms[..|ms| - 1]);
      MoveProjects(cfg, policy, Moves(cfg, policy, IDLE, ms[..|ms| - 1]), ms[|ms| - 1]);
    }
  }

  /** The request's share of the history, counted from its own replies. */
  ghost predicate Accounted(limit: nat, r: Request, es: seq<Event>) {
    && Count(es, Allow) == 1
    && Count(es, Failure) == ServerErrors(r.received) + (if r.stage == Ended(NetworkError) then 1 else 0)
    && Count(es, Success) == (if r.stage.Ended? && r.stage.result.Returned? then 1 else 0)
    && Sends(r) <= limit
    && (r.stage.Ended? && r.stage != Ended(CircuitOpen) ==>
          r.received != [] && r.stage.result == Ending(r.received[|r.received| - 1].outcome))
  }

  /** Retry accounting for one request among many: its share of the shared history depends on its own replies only. */
  lemma {:induction false} InterleavedAccounting(cfg: Config, policy: Policy, ms: seq<Move>, id: nat)
    requires policy.limit >= 1 && id in Moves(cfg, policy, IDLE, ms).requests
    ensures var sys := Moves(cfg, policy, IDLE, ms);
            Accounted(policy.limit, sys.requests[id], EventsOf(sys.history, id))
  {
    InterleavingProjects(cfg, policy, ms);
    var sys := Moves(cfg, policy, IDLE, ms);
    assert ProjectsAt(policy.limit, sys, id);
    AccountAlone(policy.limit, sys.requests[id], EventsOf(sys.history, id));
  }

  lemma AccountAlone(limit: nat, r: Request, es: seq<Event>)
    requires limit >= 1 && ActsAlone(limit, r, es)
    ensures Accounted(limit, r, es)
  {
    assert es == [es[0]] + es[1..];
    CountCons(es[0], es[1..], Allow);
    CountCons(es[0], es[1..], Failure);
    CountCons(es[0], es[1..], Success);
    if r.stage != Ended(CircuitOpen) {
      RetryAccounting(limit, r.received);
      assert PhaseOf(r.stage) == Done(NetworkError) <==> r.stage == Ended(NetworkError);
    }
  }

  /** A request that was admitted and is over sent twice or more exactly when it might and its first reply was retryable. */
  lemma SentTwiceExactly(limit: nat, r: Request, es: seq<Event>)
    requires limit >= 1 && ActsAlone(limit, r, es) && r.stage.Ended? && r.stage != Ended(CircuitOpen)
    ensures r.received != []
    ensures Sends(r) >= 2 <==> limit >= 2 && Retryable(r.received[0].outcome)
  {
    RetryAccounting(limit, r.received);
  }

  lemma {:induction false} CountCons(e: Event, es: seq<Event>, k: EventKind)
    ensures Count([e] + es, k) == Count(es, k) + if e.kind == k then 1 else 0
  {
    var all := [e] + es;
    if es == [] {
      assert all[..|all| - 1] == [];
    } else {
      CountCons(e, es[..|es| - 1], k);
      assert all[..|all| - 1] == [e] + es[..|es| - 1];
    }
  }

  // ---- What an open circuit really blocks ----

  /** The attempts a request has made or can still make. */
  function Budget(r: Request): nat {
    |r.received| + if r.stage.Ended? then 0 else r.stage.left
  }

  ghost predicate AttemptsLeft(sys: System) {
    forall id :: id in sys.requests && !sys.requests[id].stage.Ended? ==> sys.requests[id].stage.left >= 1
  }

  /** Requests begun inside the window were refused and sent nothing; the others only spend their own retries. */
  ghost predicate OnlyOldRetries(before: System, after: System) {
    && (forall id :: id in before.requests ==>
          id in after.requests && Budget(after.requests[id]) <= Budget(before.requests[id]))
    && (forall id :: id in after.requests && id !in before.requests ==>
          after.requests[id] == Request(Ended(CircuitOpen), []))
  }

  function Deadline(cfg: Config, s: Snapshot): int
    requires s.state.Open?
  {
    s.openedAt.value + Window(cfg)
  }

  /**
   From any state whose circuit is open, as long as every admission check reads the clock inside the
   refusal window: the circuit stays open with the same opening time, every new request is refused
   without sending, and a request already in flight sends at most the attempts it had left.
   */
  lemma {:induction false} OpenCircuitBlocksNewRequests(cfg: Config, policy: Policy, sys: System, ms: seq<Move>)
    requires sys.breaker.state.Open? && AttemptsLeft(sys)
    requires forall j :: 0 <= j < |ms| && ms[j].Begin? ==> ms[j].now < Deadline(cfg, sys.breaker)
    ensures var after := Moves(cfg, policy, sys, ms);
            && after.breaker.state.Open? && after.breaker.openedAt == sys.breaker.openedAt
            && AttemptsLeft(after) && OnlyOldRetries(sys, after)
  {
    if ms != [] {
      OpenCircuitBlocksNewRequests(cfg, policy, sys, ms[..|ms| - 1]);
      WindowMove(cfg, policy, Moves(cfg, policy, sys, ms[..|ms| - 1]), ms[|ms| - 1]);
    }
  }

  lemma WindowMove(cfg: Config, policy: Policy, sys: System, m: Move)
    requires sys.breaker.state.Open? && AttemptsLeft(sys)
    requires m.Begin? ==> m.now < Deadline(cfg, sys.breaker)
    ensures var after := Next(cfg, policy, sys, m);
            && after.breaker.state.Open? && after.breaker.openedAt == sys.breaker.openedAt
            && AttemptsLeft(after) && OnlyOldRetries(sys, after)
  {
    if m.Receive? && Receives(sys, m.id) {
      OpenWindowHolds(cfg, sys.breaker, Deliver(sys.requests[m.id].stage.left, m.reply).events);
    }
  }

  /** Moves made between `now` and the end of the window, in the order of the clock. */
  ghost predicate Inside(ms: seq<Move>, now: int, deadline: int) {
    && (forall i :: 0 <= i < |ms| ==> now <= Time(ms[i]) < deadline)
    && (forall i, j :: 0 <= i < j < |ms| ==> Time(ms[i]) <= Time(ms[j]))
  }

  ghost predicate SameSends(before: System, after: System) {
    && (forall id :: id in before.requests ==>
          id in after.requests && Sends(after.requests[id]) == Sends(before.requests[id]))
    && (forall id :: id in after.requests && id !in before.requests ==> Sends(after.requests[id]) == 0)
  }

  /**
   From `now` on the request cannot send before `deadline`: a backoff it is in runs past it, and so does
   the backoff after the attempt on the wire, if another may follow.
   */
  ghost predicate HeldBack(policy: Policy, r: Request, now: int, deadline: int) {
    match r.stage
    case OnWire(left) => left <= 1 || now + policy.pause(|r.received| + 1) >= deadline
    case Backoff(_, due) => due >= deadline
    case Ended(_) => true
  }

  ghost predicate AllHeldBack(policy: Policy, sys: System, now: int, deadline: int) {
    forall id :: id in sys.requests ==> HeldBack(policy, sys.requests[id], now, deadline)
  }

  lemma {:induction false} HeldBackSendNothing(cfg: Config, policy: Policy, sys: System, now: int, ms: seq<Move>)
    requires sys.breaker.state.Open? && AttemptsLeft(sys)
    requires AllHeldBack(policy, sys, now, Deadline(cfg, sys.breaker)) && Inside(ms, now, Deadline(cfg, sys.breaker))
    ensures var after := Moves(cfg, policy, sys, ms);
            SameSends(sys, after) && AllHeldBack(policy, after, now, Deadline(cfg, sys.breaker))
  {
    if ms != [] {
      var init, m := ms[..|ms| - 1], ms[|ms| - 1];
      HeldBackSendNothing(cfg, policy, sys, now, init);
      OpenCircuitBlocksNewRequests(cfg, policy, sys, init);
      assert Time(ms[|ms| - 1]) < Deadline(cfg, sys.breaker);
      HeldBackMove(cfg, policy, Moves(cfg, policy, sys, init), now, m);
    }
  }

  lemma HeldBackMove(cfg: Config, policy: Policy, sys: System, now: int, m: Move)
    requires sys.breaker.state.Open? && AttemptsLeft(sys)
    requires AllHeldBack(policy, sys, now, Deadline(cfg, sys.breaker)) && now <= Time(m) < Deadline(cfg, sys.breaker)
    ensures var after := Next(cfg, policy, sys, m);
            SameSends(sys, after) && AllHeldBack(policy, after, now, Deadline(cfg, sys.breaker))
  {
    if m.id in sys.requests {
      assert HeldBack(policy, sys.requests[m.id], now, Deadline(cfg, sys.breaker));
    }
  }

  /** A request that is not held back does send inside the window, in one move or two. */
  lemma RetryReachesTheWire(cfg: Config, policy: Policy, sys: System, now: int, id: nat) returns (ms: seq<Move>)
    requires sys.breaker.state.Open? && AttemptsLeft(sys) && now < Deadline(cfg, sys.breaker)
    requires id in sys.requests && !HeldBack(policy, sys.requests[id], now, Deadline(cfg, sys.breaker))
    ensures Inside(ms, now, Deadline(cfg, sys.breaker))
    ensures !SameSends(sys, Moves(cfg, policy, sys, ms))
  {
    var r := sys.requests[id];
    if r.stage.Backoff? {
      var m := Resume(id, if r.stage.due <= now then now else r.stage.due);
      ms := [m];
      assert ms[..0] == [];
      assert Sends(Next(cfg, policy, sys, m).requests[id]) == Sends(r) + 1;
    } else {
      var m := Receive(id, Reply(TransportFailure, now), 0);
      var again := Resume(id, now + policy.pause(|r.received| + 1));
      ms := [m, again];
      assert ms[..1] == [m] && [m][..0] == [];
      var s := Next(cfg, policy, sys, m);
      assert Moves(cfg, policy, sys, [m]) == s;
      assert s.requests[id] == Request(Backoff(r.stage.left - 1, again.now), r.received + [m.reply]);
      assert Sends(Next(cfg, policy, s, again).requests[id]) == Sends(r) + 1;
    }
  }

  /**
   "Calls blocked" is what an open circuit is for. Retries never consult the breaker, so it is true of
   every continuation inside the refusal window exactly when every request is held back: none wakes
   from a backoff before the window ends, and none on the wire has a further attempt whose backoff ends
   before it.
   */
  lemma OpenBlocksEverySendExactlyWithoutRetries(cfg: Config, policy: Policy, sys: System, now: int)
    requires sys.breaker.state.Open? && AttemptsLeft(sys) && now < Deadline(cfg, sys.breaker)
    ensures (forall ms :: Inside(ms, now, Deadline(cfg, sys.breaker)) ==> SameSends(sys, Moves(cfg, policy, sys, ms)))
            <==> AllHeldBack(policy, sys, now, Deadline(cfg, sys.breaker))
  {
    var deadline := Deadline(cfg, sys.breaker);
    if AllHeldBack(policy, sys, now, deadline) {
      forall ms | Inside(ms, now, deadline) ensures SameSends(sys, Moves(cfg, policy, sys, ms)) {
        HeldBackSendNothing(cfg, policy, sys, now, ms);
      }
    } else {
      var id :| id in sys.requests && !HeldBack(policy, sys.requests[id], now, deadline);
      var ms := RetryReachesTheWire(cfg, policy, sys, now, id);
    }
  }

  /** Every reachable system leaves each unfinished request an attempt, so the theorem is about all of them. */
  lemma {:induction false} ReachableAttemptsLeft(cfg: Config, policy: Policy, ms: seq<Move>)
    requires policy.limit >= 1
    ensures AttemptsLeft(Moves(cfg, policy, IDLE, ms))
  {
    if ms != [] {
      ReachableAttemptsLeft(cfg, policy, ms[..|ms| - 1]);
    }
  }

  // ---- The failing case, concretely ----

  const SECOND := MICROS_PER_SECOND

  /** The clients' policy: three attempts, and two seconds at least before the second and the third. */
  const CLIENT_POLICY := Policy(3, (_: nat) => 2 * SECOND)

  function ServerDown(id: nat, at: int): Move {
    Receive(id, Reply(Response(503), at), 0)
  }

  /** One request fails three times, the next one twice: the fifth failure opens the circuit. */
  function OpeningRun(at: int): seq<Move> {
    [Begin(0, at), ServerDown(0, at),
     Resume(0, at + 2 * SECOND), ServerDown(0, at + 2 * SECOND),
     Resume(0, at + 4 * SECOND), ServerDown(0, at + 4 * SECOND),
     Begin(1, at + 4 * SECOND), ServerDown(1, at + 4 * SECOND),
     Resume(1, at + 6 * SECOND), ServerDown(1, at + 6 * SECOND)]
  }

  lemma MovesTake(cfg: Config, policy: Policy, ms: seq<Move>, k: nat)
    requires k < |ms|
    ensures Moves(cfg, policy, IDLE, ms[..k + 1]) == Next(cfg, policy, Moves(cfg, policy, IDLE, ms[..k]), ms[k])
  {
    assert ms[..k + 1][..k] == ms[..k];
  }

  /** A closed circuit, `failures` into a streak, and the requests so far. */
  ghost predicate InStreak(sys: System, failures: nat, requests: map<nat, Request>) {
    sys.breaker == Snapshot(Closed, failures, 0, None) && sys.requests == requests
  }

  lemma FailureRun(cfg: Config, s: Snapshot, at: int, failures: nat)
    requires s == Snapshot(Closed, failures, 0, None)
    ensures Run(cfg, s, [Event(Failure, at)]) ==
            if failures + 1 < cfg.failureThreshold then Snapshot(Closed, failures + 1, 0, None)
            else Snapshot(Open, failures + 1, 0, Some(at))
  {
    RunOne(cfg, s, Event(Failure, at));
  }

  lemma FailureReply(cfg: Config, policy: Policy, sys: System, id: nat, at: int, failures: nat, requests: map<nat, Request>)
    requires InStreak(sys, failures, requests) && Receives(sys, id)
    ensures var next := Next(cfg, policy, sys, ServerDown(id, at));
            && next.requests == requests[id := Replied(policy, requests[id], Reply(Response(503), at), 0)]
            && next.breaker == if failures + 1 < cfg.failureThreshold then Snapshot(Closed, failures + 1, 0, None)
                               else Snapshot(Open, failures + 1, 0, Some(at))
  {
    assert Deliver(requests[id].stage.left, Reply(Response(503), at)).events == [Event(Failure, at)];
    FailureRun(cfg, sys.breaker, at, failures);
  }

  function Down(at: int): Reply {
    Reply(Response(503), at)
  }

  /** A backoff runs out and the attempt fails as well, with the circuit still closed after it. */
  lemma RetryFails(sys: System, id: nat, left: nat, at: int, failures: nat, requests: map<nat, Request>,
                   received: seq<Reply>, more: seq<Reply>)
    requires InStreak(sys, failures, requests[id := Request(Backoff(left, at), received)]) && failures + 1 < 5
    requires more == received + [Down(at)]
    ensures var next := Next(CLIENT_CONFIG, CLIENT_POLICY, Next(CLIENT_CONFIG, CLIENT_POLICY, sys, Resume(id, at)),
                             ServerDown(id, at));
            var stage := if left <= 1 then Ended(StatusError(503)) else Backoff(left - 1, at + 2 * SECOND);
            InStreak(next, failures + 1, requests[id := Request(stage, more)])
  {
    var s := Next(CLIENT_CONFIG, CLIENT_POLICY, sys, Resume(id, at));
    var awake := requests[id := Request(OnWire(left), received)];
    assert InStreak(s, failures, awake);
    FailureReply(CLIENT_CONFIG, CLIENT_POLICY, s, id, at, failures, awake);
  }

  /** The first request's part: three failures, and over. */
  lemma FirstRequestFails(at: int)
    ensures var sys := Moves(CLIENT_CONFIG, CLIENT_POLICY, IDLE, OpeningRun(at)[..6]);
            exists replies :: InStreak(sys, 3, map[0 := Request(Ended(StatusError(503)), replies)])
  {
    var c, p, ms := CLIENT_CONFIG, CLIENT_POLICY, OpeningRun(at);
    SecondReplyFails(at);
    var d0, d1, d2 := Down(at), Down(at + 2 * SECOND), Down(at + 4 * SECOND);
    RetryFails(Moves(c, p, IDLE, ms[..4]), 0, 1, at + 4 * SECOND, 2, map[], [d0, d1], [d0, d1, d2]);
    MovesTake(c, p, ms, 4);
    MovesTake(c, p, ms, 5);
  }

  lemma SecondReplyFails(at: int)
    ensures InStreak(Moves(CLIENT_CONFIG, CLIENT_POLICY, IDLE, OpeningRun(at)[..4]), 2,
                     map[][0 := Request(Backoff(1, at + 4 * SECOND), [Down(at), Down(at + 2 * SECOND)])])
  {
    var c, p, ms := CLIENT_CONFIG, CLIENT_POLICY, OpeningRun(at);
    FirstReplyFails(at);
    var d0, d1 := Down(at), Down(at + 2 * SECOND);
    RetryFails(Moves(c, p, IDLE, ms[..2]), 0, 2, at + 2 * SECOND, 1, map[], [d0], [d0, d1]);
    MovesTake(c, p, ms, 2);
    MovesTake(c, p, ms, 3);
  }

  lemma FirstReplyFails(at: int)
    ensures InStreak(Moves(CLIENT_CONFIG, CLIENT_POLICY, IDLE, OpeningRun(at)[..2]), 1,
                     map[][0 := Request(Backoff(2, at + 2 * SECOND), [Down(at)])])
  {
    var c, p, ms := CLIENT_CONFIG, CLIENT_POLICY, OpeningRun(at);
    assert [] + [Down(at)] == [Down(at)];
    MovesTake(c, p, ms, 0);
    FailureReply(c, p, Moves(c, p, IDLE, ms[..1]), 0, at, 0, map[0 := Request(OnWire(3), [])]);
    MovesTake(c, p, ms, 1);
  }

  /** The run leaves the circuit open, and its second request asleep with one attempt left. */
  lemma OpeningRunOpens(at: int)
    ensures var sys := Moves(CLIENT_CONFIG, CLIENT_POLICY, IDLE, OpeningRun(at));
            && sys.breaker == Snapshot(Open, 5, 0, Some(at + 6 * SECOND))
            && sys.requests.Keys == {0, 1}
            && sys.requests[1] == Request(Backoff(1, at + 8 * SECOND), [Down(at + 4 * SECOND), Down(at + 6 * SECOND)])
  {
    var c, p, ms := CLIENT_CONFIG, CLIENT_POLICY, OpeningRun(at);
    var d0, d1 := Down(at + 4 * SECOND), Down(at + 6 * SECOND);
    assert [] + [d0] == [d0] && [d0] + [d1] == [d0, d1];
    SecondRequestFailsOnce(at);
    var s := Moves(c, p, IDLE, ms[..8]);
    MovesTake(c, p, ms, 8);
    s := Next(c, p, s, ms[8]);
    FailureReply(c, p, s, 1, at + 6 * SECOND, 4, s.requests);
    MovesTake(c, p, ms, 9);
    assert ms[..10] == ms;
  }

  lemma SecondRequestFailsOnce(at: int)
    ensures var sys := Moves(CLIENT_CONFIG, CLIENT_POLICY, IDLE, OpeningRun(at)[..8]);
            && sys.breaker == Snapshot(Closed, 4, 0, None) && sys.requests.Keys == {0, 1}
            && sys.requests[1] == Request(Backoff(2, at + 6 * SECOND), [Down(at + 4 * SECOND)])
  {
    var c, p, ms := CLIENT_CONFIG, CLIENT_POLICY, OpeningRun(at);
    FirstRequestFails(at);
    assert [] + [Down(at + 4 * SECOND)] == [Down(at + 4 * SECOND)];
    MovesTake(c, p, ms, 6);
    var s := Moves(c, p, IDLE, ms[..7]);
    FailureReply(c, p, s, 1, at + 4 * SECOND, 3, s.requests);
    MovesTake(c, p, ms, 7);
  }

  /**
   With the clients' own thresholds, attempts and backoff: two seconds after the circuit opened the second
   request's third attempt goes out, and it is answered with the circuit still open.
   */
  lemma OpenCircuitStillSends(at: int)
    ensures var c, p := CLIENT_CONFIG, CLIENT_POLICY;
            var s := Moves(c, p, IDLE, OpeningRun(at));
            var sent := Next(c, p, s, Resume(1, at + 8 * SECOND));
            var answered := Next(c, p, sent, Receive(1, Reply(Response(200), at + 9 * SECOND), 0));
            && s.breaker.state.Open? && at + 9 * SECOND < Deadline(c, s.breaker)
            && 1 in s.requests && Sends(s.requests[1]) == 2
            && sent.breaker.state.Open? && Sends(sent.requests[1]) == 3
            && answered.breaker.state.Open? && answered.requests[1].stage == Ended(Returned(200))
  {
    OpeningRunOpens(at);
    var s := Moves(CLIENT_CONFIG, CLIENT_POLICY, IDLE, OpeningRun(at));
    RunOne(CLIENT_CONFIG, s.breaker, Event(Success, at + 9 * SECOND));
  }
}
