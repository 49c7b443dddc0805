/**
 The retrying client on top of the breaker, one request at a time.

 A request consults the breaker once, then sends attempts until one is not retryable or the attempt
 limit is reached. What the remote answers, and when, is an input.
 */
module IntegrationClients {
  import opened Wrappers
  import opened CircuitBreakers
  import opened BreakerRuns

  /** Every client's breaker: five failures open it, for sixty seconds, and two successes close it. */
  const CLIENT_CONFIG := Config(5, 60, 2)

  /** What one attempt meets; `OtherFailure` is any exception the retry policy does not name. */
  datatype Outcome = Response(status: int) | TransportFailure | OtherFailure

  datatype Reply = Reply(outcome: Outcome, at: int)

  datatype Result =
    | CircuitOpen
    | Returned(status: int)
    | StatusError(status: int)
    | NetworkError
    | Propagated

  datatype Phase = Waiting(left: nat) | Done(result: Result)

  datatype Progress = Progress(phase: Phase, events: seq<Event>)

  /** The retry policy always makes a first attempt, whatever limit is configured. */
  function AttemptLimit(maxAttempts: int): (limit: nat)
    ensures limit >= 1
    ensures maxAttempts >= 1 ==> limit == maxAttempts
    ensures maxAttempts < 1 ==> limit == 1
  {
    if maxAttempts < 1 then 1 else maxAttempts
  }

  predicate ServerError(o: Outcome) {
    o.Response? && o.status >= 500
  }

  predicate TransportError(o: Outcome) {
    o.TransportFailure?
  }

  predicate Retryable(o: Outcome) {
    TransportError(o) || ServerError(o)
  }

  /** One attempt's reply, while `left` attempts (this one included) remain. */
  function Deliver(left: nat, r: Reply): Progress {
    match r.outcome
    case Response(status) =>
      if status >= 500 then
        Progress(if left <= 1 then Done(StatusError(status)) else Waiting(left - 1), [Event(Failure, r.at)])
      else
        Progress(Done(Returned(status)), [Event(Success, r.at)])
    case TransportFailure =>
      if left <= 1 then Progress(Done(NetworkError), [Event(Failure, r.at)])
      else Progress(Waiting(left - 1), [])
    case OtherFailure => Progress(Done(Propagated), [])
  }

  /** Where an admitted request is after the replies `rs`, and what it has reported to the breaker. */
  function Local(limit: nat, rs: seq<Reply>): Progress {
    if rs == [] then Progress(Waiting(limit), [])
    else
      var p := Local(limit, rs[..|rs| - 1]);
      match p.phase
      case Waiting(left) =>
        var d := Deliver(left, rs[|rs| - 1]);
        Progress(d.phase, p.events + d.events)
      case Done(_) => p
  }

  predicate AwaitedAt(limit: nat, rs: seq<Reply>, k: nat)
    requires k <= |rs|
  {
    Local(limit, rs[..k]).phase.Waiting?
  }

  /** Every reply in `rs` was one the request was still waiting for. */
  ghost predicate AllAwaited(limit: nat, rs: seq<Reply>) {
    forall k :: 0 <= k < |rs| ==> AwaitedAt(limit, rs, k)
  }

  lemma LocalSnoc(limit: nat, rs: seq<Reply>, r: Reply, left: nat)
    requires Local(limit, rs).phase == Waiting(left)
    ensures Local(limit, rs + [r]).phase == Deliver(left, r).phase
    ensures Local(limit, rs + [r]).events == Local(limit, rs).events + Deliver(left, r).events
  {
    var more := rs + [r];
    assert more[..|more| - 1] == rs && more[|more| - 1] == r;
  }

  lemma AwaitedSnoc(limit: nat, rs: seq<Reply>, r: Reply)
    requires AllAwaited(limit, rs) && Local(limit, rs).phase.Waiting?
    ensures AllAwaited(limit, rs + [r])
  {
    forall k | 0 <= k < |rs + [r]| ensures AwaitedAt(limit, rs + [r], k) {
      assert (rs + [r])[..k] == if k < |rs| then rs[..k] else rs;
      assert k < |rs| ==> AwaitedAt(limit, rs, k);
    }
  }

  /** The breaker after one attempt's reply. */
  function AfterReply(cfg: Config, s: Snapshot, left: nat, r: Reply): Snapshot {
    match r.outcome
    case Response(status) => Step(cfg, s, Event(if status >= 500 then Failure else Success, r.at))
    case TransportFailure => if left <= 1 then Step(cfg, s, Event(Failure, r.at)) else s
    case OtherFailure => s
  }

  lemma AttemptReported(cfg: Config, s: Snapshot, limit: nat, rs: seq<Reply>, r: Reply, left: nat)
    requires Local(limit, rs).phase == Waiting(left)
    ensures Run(cfg, s, Local(limit, rs + [r]).events) == AfterReply(cfg, Run(cfg, s, Local(limit, rs).events), left, r)
  {
    LocalSnoc(limit, rs, r, left);
    ReportedRun(cfg, s, Local(limit, rs).events, left, r);
  }

  lemma ReportedRun(cfg: Config, s: Snapshot, es: seq<Event>, left: nat, r: Reply)
    ensures Run(cfg, s, es + Deliver(left, r).events) == AfterReply(cfg, Run(cfg, s, es), left, r)
  {
    var fs := Deliver(left, r).events;
    if fs == [] {
      assert es + fs == es;
    } else {
      RunSnoc(cfg, s, es, fs[0]);
      assert fs == [fs[0]];
    }
  }

  /** The request and the breaker after one more reply, `replies[n]`. */
  lemma ReplyDelivered(cfg: Config, s: Snapshot, limit: nat, replies: seq<Reply>, n: nat, left: nat)
    requires n < |replies| && AllAwaited(limit, replies[..n]) && Local(limit, replies[..n]).phase == Waiting(left)
    ensures AllAwaited(limit, replies[..n + 1])
    ensures Local(limit, replies[..n + 1]).phase == Deliver(left, replies[n]).phase
    ensures Run(cfg, s, Local(limit, replies[..n + 1]).events)
            == AfterReply(cfg, Run(cfg, s, Local(limit, replies[..n]).events), left, replies[n])
  {
    var before, more := replies[..n], replies[..n + 1];
    assert more == before + [replies[n]];
    AwaitedSnoc(limit, before, replies[n]);
    LocalSnoc(limit, before, replies[n], left);
    AttemptReported(cfg, s, limit, before, replies[n], left);
  }

  /** The policy retries a reply: a transport error, or a status from 500 up. */
  predicate Retried(o: Outcome) {
    match o
    case Response(status) => status >= 500
    case TransportFailure => true
    case OtherFailure => false
  }

  /** `sent` attempts were made of which all but the last were retried, and the last one decides the result. */
  ghost predicate SentUntil(maxAttempts: int, replies: seq<Reply>, sent: nat, result: Result) {
    && 1 <= sent <= |replies|
    && (if maxAttempts < 1 then sent == 1 else sent <= maxAttempts)
    && (forall k :: 0 <= k < sent - 1 ==> Retried(replies[k].outcome))
    && (sent < maxAttempts ==> !Retried(replies[sent - 1].outcome))
    && Decides(replies[sent - 1].outcome, result)
  }

  predicate Decides(o: Outcome, result: Result) {
    match o
    case Response(status) => result == if status < 500 then Returned(status) else StatusError(status)
    case TransportFailure => result == NetworkError
    case OtherFailure => result == Propagated
  }

  /** A whole request: refused unsent with the breaker as it was, or sent as the policy says and reported. */
  ghost predicate Requested(cfg: Config, maxAttempts: int, before: Snapshot, after: Snapshot, now: int, replies: seq<Reply>,
                            sent: nat, result: Result)
  {
    var limit := AttemptLimit(maxAttempts);
    if !Admits(cfg, before, now) then result == CircuitOpen && sent == 0 && after == before
    else
      && SentUntil(maxAttempts, replies, sent, result)
      && AllAwaited(limit, replies[..sent]) && Local(limit, replies[..sent]).phase == Done(result)
      && after == Run(cfg, Step(cfg, before, Event(Allow, now)), Local(limit, replies[..sent]).events)
  }

  class IntegrationClient {
    const maxAttempts: int
    const circuit: CircuitBreaker

    constructor (maxAttempts: int)
      ensures this.maxAttempts == maxAttempts && fresh(circuit)
      ensures circuit.Valid() && circuit.View() == FRESH && circuit.config == Config(5, 60, 2)
    {
      this.maxAttempts := maxAttempts;
      this.circuit := new CircuitBreaker(CLIENT_CONFIG);
    }

    /** The retry loop of one admitted request with nothing else running. */
    method SendWithRetries(replies: seq<Reply>) returns (result: Result, sent: nat)
      requires circuit.Valid() && |replies| >= AttemptLimit(maxAttempts)
      modifies circuit
      ensures circuit.Valid() && 1 <= sent <= AttemptLimit(maxAttempts)
      ensures AllAwaited(AttemptLimit(maxAttempts), replies[..sent])
      ensures Local(AttemptLimit(maxAttempts), replies[..sent]).phase == Done(result)
      ensures circuit.View() == Run(circuit.config, old(circuit.View()), Local(AttemptLimit(maxAttempts), replies[..sent]).events)
    {
      ghost var admitted, limit := circuit.View(), AttemptLimit(maxAttempts);
      var attempt := 0;
      while true
        invariant 0 <= attempt < limit
        invariant circuit.Valid()
        invariant AllAwaited(limit, replies[..attempt])
        invariant Local(limit, replies[..attempt]).phase == Waiting(limit - attempt)
        invariant circuit.View() == Run(circuit.config, admitted, Local(limit, replies[..attempt]).events)
        decreases limit - attempt
      {
        var reply := replies[attempt];
        ReplyDelivered(circuit.config, admitted, limit, replies, attempt, limit - attempt);
        attempt := attempt + 1;
        match reply.outcome
        case Response(status) =>
          if status >= 500 {
            circuit.RecordFailure(reply.at);
            if attempt >= maxAttempts {
              return StatusError(status), attempt;
            }
          } else {
            circuit.RecordSuccess(reply.at);
            return Returned(status), attempt;
          }
        case TransportFailure =>
          if attempt >= maxAttempts {
            circuit.RecordFailure(reply.at);
            return NetworkError, attempt;
          }
        case OtherFailure =>
          return Propagated, attempt;
      }
    }

    /**
     One request with nothing else running. `replies` are the remote's answers to as many attempts
     as could be made; `sent` counts the attempts actually made.
     */
    method Request(now: int, replies: seq<Reply>) returns (result: Result, sent: nat)
      requires circuit.Valid()
      requires |replies| >= AttemptLimit(maxAttempts)
      modifies circuit
      ensures circuit.Valid()
      ensures Requested(circuit.config, maxAttempts, old(circuit.View()), circuit.View(), now, replies, sent, result)
      ensures sent > 0 && maxAttempts >= 1 && (forall k :: 0 <= k < |replies| ==> Retried(replies[k].outcome)) ==>
                sent == maxAttempts
    {
      var allowed := circuit.AllowRequest(now);
      if !allowed {
        return CircuitOpen, 0;
      }
      result, sent := SendWithRetries(replies);
      SentAsRetried(maxAttempts, replies, sent, result);
    }
  }

  lemma SentAsRetried(maxAttempts: int, replies: seq<Reply>, sent: nat, result: Result)
    requires 1 <= sent <= AttemptLimit(maxAttempts) && sent <= |replies|
    requires AllAwaited(AttemptLimit(maxAttempts), replies[..sent])
    requires Local(AttemptLimit(maxAttempts), replies[..sent]).phase == Done(result)
    ensures SentUntil(maxAttempts, replies, sent, result)
  {
    RetryAccounting(AttemptLimit(maxAttempts), replies[..sent]);
    StoppedPlainly(AttemptLimit(maxAttempts), replies[..sent], result);
    forall k | 0 <= k < sent - 1 ensures Retried(replies[k].outcome) {
      assert replies[..sent][k] == replies[k];
    }
  }

  lemma StoppedPlainly(limit: nat, rs: seq<Reply>, result: Result)
    requires Stopped(limit, rs) && Local(limit, rs).phase == Done(result)
    ensures rs != [] && Decides(rs[|rs| - 1].outcome, result)
    ensures forall k :: 0 <= k < |rs| - 1 ==> Retried(rs[k].outcome)
    ensures |rs| < limit ==> !Retried(rs[|rs| - 1].outcome)
  {
  }

  // ---- Retry accounting ----

  function ServerErrors(rs: seq<Reply>): nat {
    if rs == [] then 0
    else ServerErrors(rs[..|rs| - 1]) + if ServerError(rs[|rs| - 1].outcome) then 1 else 0
  }

  /** What the caller gets when the last reply ends the request. */
  function Ending(o: Outcome): Result {
    match o
    case Response(status) => if status >= 500 then StatusError(status) else Returned(status)
    case TransportFailure => NetworkError
    case OtherFailure => Propagated
  }

  /** What the request has reported to the breaker, counted from the replies. */
  ghost predicate Reported(limit: nat, rs: seq<Reply>) {
    var p := Local(limit, rs);
    && Count(p.events, Failure) == ServerErrors(rs) + (if p.phase == Done(NetworkError) then 1 else 0)
    && Count(p.events, Success) == (if p.phase.Done? && p.phase.result.Returned? then 1 else 0)
    && Count(p.events, Allow) == 0
  }

  /** How many attempts there were, why they stopped, and what the caller gets. */
  ghost predicate Stopped(limit: nat, rs: seq<Reply>) {
    var p := Local(limit, rs);
    && |rs| <= limit
    && (forall k :: 0 <= k < |rs| - 1 ==> Retryable(rs[k].outcome))
    && (p.phase.Waiting? <==> |rs| < limit && (rs != [] ==> Retryable(rs[|rs| - 1].outcome)))
    && (p.phase.Waiting? ==> p.phase.left == limit - |rs|)
    && (p.phase.Done? ==> rs != [] && p.phase.result == Ending(rs[|rs| - 1].outcome))
  }

  /**
   One failure per 5xx reply, one more if the request ends in a transport error, one success if it
   returns; attempts never exceed the limit, and the request ends at the first reply that is not
   retryable or at the limit, whichever comes first.
   */
  lemma {:induction false} RetryAccounting(limit: nat, rs: seq<Reply>)
    requires limit >= 1 && AllAwaited(limit, rs)
    ensures Reported(limit, rs) && Stopped(limit, rs)
  {
    if rs != [] {
      var init, r := rs[..|rs| - 1], rs[|rs| - 1];
      forall k | 0 <= k < |init| ensures AwaitedAt(limit, init, k) {
        assert AwaitedAt(limit, rs, k) && init[..k] == rs[..k];
      }
      assert AwaitedAt(limit, rs, |init|) && rs[..|init|] == init && init + [r] == rs;
      RetryAccounting(limit, init);
      ReportReply(limit, init, r);
      StopAtReply(limit, init, r);
    }
  }

  lemma ReportReply(limit: nat, rs: seq<Reply>, r: Reply)
    requires Reported(limit, rs) && Local(limit, rs).phase.Waiting?
    ensures Reported(limit, rs + [r])
  {
    var p, q := Local(limit, rs), Local(limit, rs + [r]);
    LocalSnoc(limit, rs, r, p.phase.left);
    ServerErrorsSnoc(rs, r);
    DeliveryReported(p.phase.left, r, p.events, q.events);
  }

  lemma DeliveryReported(left: nat, r: Reply, es: seq<Event>, gs: seq<Event>)
    requires gs == es + Deliver(left, r).events
    ensures var phase := Deliver(left, r).phase;
            && Count(gs, Failure) == Count(es, Failure) + (if ServerError(r.outcome) then 1 else 0)
                                     + (if phase == Done(NetworkError) then 1 else 0)
            && Count(gs, Success) == Count(es, Success) + (if phase.Done? && phase.result.Returned? then 1 else 0)
            && Count(gs, Allow) == Count(es, Allow)
  {
    var fs := Deliver(left, r).events;
    CountAppend(es, fs, Failure);
    CountAppend(es, fs, Success);
    CountAppend(es, fs, Allow);
  }

  lemma ServerErrorsSnoc(rs: seq<Reply>, r: Reply)
    ensures ServerErrors(rs + [r]) == ServerErrors(rs) + if ServerError(r.outcome) then 1 else 0
  {
    assert (rs + [r])[..|rs + [r]| - 1] == rs;
  }

  lemma StopAtReply(limit: nat, rs: seq<Reply>, r: Reply)
    requires Stopped(limit, rs) && Local(limit, rs).phase.Waiting?
    ensures Stopped(limit, rs + [r])
  {
    var p, q := Local(limit, rs), Local(limit, rs + [r]);
    LocalSnoc(limit, rs, r, p.phase.left);
    var more := rs + [r];
    assert more[|more| - 1] == r;
    assert |more| == |rs| + 1;
    assert forall k :: 0 <= k < |more| - 1 ==> more[k] == rs[k];
  }

  lemma CountAppend(es: seq<Event>, fs: seq<Event>, k: EventKind)
    requires |fs| <= 1
    ensures Count(es + fs, k) == Count(es, k) + if fs != [] && fs[0].kind == k then 1 else 0
  {
    if fs == [] {
      assert es + fs == es;
    } else {
      assert (es + fs)[..|es + fs| - 1] == es;
    }
  }

  // ---- How many failing requests it takes to open a fresh circuit ----

  datatype Call = Call(now: int, replies: seq<Reply>)

  /** The call failed after retrying: it ended in a transport error or a 5xx status. */
  ghost predicate FailingCall(limit: nat, c: Call) {
    && AllAwaited(limit, c.replies)
    && Local(limit, c.replies).phase.Done?
    && c.replies != [] && Retryable(c.replies[|c.replies| - 1].outcome)
  }

  /** The breaker after calls made one after another. */
  function AfterCalls(cfg: Config, limit: nat, calls: seq<Call>): Snapshot {
    if calls == [] then FRESH
    else
      var s, c := AfterCalls(cfg, limit, calls[..|calls| - 1]), calls[|calls| - 1];
      if Admits(cfg, s, c.now) then
        Run(cfg, Step(cfg, s, Event(Allow, c.now)), Local(limit, c.replies).events)
      else s
  }

  lemma {:induction false} FailureStreak(cfg: Config, s: Snapshot, es: seq<Event>)
    requires s.state.Closed? && s.failureCount >= 0 && cfg.failureThreshold >= 1
    requires s.failureCount < cfg.failureThreshold
    requires Count(es, Success) == 0 && Count(es, Allow) == 0
    ensures |es| == Count(es, Failure)
    ensures var t := Run(cfg, s, es);
            && t.failureCount == s.failureCount + |es|
            && (t.state.Closed? <==> s.failureCount + |es| < cfg.failureThreshold)
            && (t.state.Open? <==> s.failureCount + |es| >= cfg.failureThreshold)
  {
    if es != [] {
      FailureStreak(cfg, s, es[..|es| - 1]);
    }
  }

  lemma FailingCallCost(limit: nat, c: Call)
    requires limit >= 1 && FailingCall(limit, c)
    ensures var es := Local(limit, c.replies).events;
            && Count(es, Success) == 0 && Count(es, Allow) == 0
            && 1 <= Count(es, Failure) <= limit
  {
    RetryAccounting(limit, c.replies);
    ServerErrorsBound(c.replies);
  }

  lemma {:induction false} ServerErrorsBound(rs: seq<Reply>)
    ensures ServerErrors(rs) <= |rs|
    ensures rs != [] && !ServerError(rs[|rs| - 1].outcome) ==> ServerErrors(rs) <= |rs| - 1
    ensures rs != [] && ServerError(rs[|rs| - 1].outcome) ==> ServerErrors(rs) >= 1
  {
    if rs != [] {
      ServerErrorsBound(rs[..|rs| - 1]);
    }
  }

  function StateAfter(cfg: Config, limit: nat, calls: seq<Call>, k: nat): State
    requires k <= |calls|
  {
    AfterCalls(cfg, limit, calls[..k]).state
  }

  /** Call number `n` (counting from one) is the first to leave the circuit open. */
  ghost predicate FirstOpeningAt(cfg: Config, limit: nat, calls: seq<Call>, n: nat) {
    && n <= |calls|
    && StateAfter(cfg, limit, calls, n).Open?
    && forall k :: 0 <= k < n ==> StateAfter(cfg, limit, calls, k).Closed?
  }

  /** A failing call that costs the breaker between `low` and `high` failures. */
  ghost predicate Costs(limit: nat, c: Call, low: nat, high: nat) {
    var es := Local(limit, c.replies).events;
    && Count(es, Success) == 0 && Count(es, Allow) == 0
    && low <= Count(es, Failure) <= high
  }

  /** After `k` such calls the circuit is still closed, on a streak of between `k * low` and `k * high` failures. */
  ghost predicate StillClosed(cfg: Config, s: Snapshot, k: nat, low: nat, high: nat) {
    s.state.Closed? && k * low <= s.failureCount <= k * high && s.failureCount < cfg.failureThreshold
  }

  lemma AfterFailingCall(cfg: Config, limit: nat, calls: seq<Call>, c: Call, low: nat, high: nat)
    requires Costs(limit, c, low, high)
    requires StillClosed(cfg, AfterCalls(cfg, limit, calls), |calls|, low, high)
    ensures var t := AfterCalls(cfg, limit, calls + [c]);
            || StillClosed(cfg, t, |calls| + 1, low, high)
            || (t.state.Open? && |calls| * low < cfg.failureThreshold <= (|calls| + 1) * high)
  {
    assert (calls + [c])[..|calls + [c]| - 1] == calls;
    FailureStreak(cfg, AfterCalls(cfg, limit, calls), Local(limit, c.replies).events);
    assert (|calls| + 1) * high == |calls| * high + high;
    assert (|calls| + 1) * low == |calls| * low + low;
  }

  lemma {:induction false} OpeningSearch(cfg: Config, limit: nat, calls: seq<Call>, low: nat, high: nat, k: nat)
    requires low >= 1 && k <= |calls| && cfg.failureThreshold <= |calls| * low
    requires forall i :: 0 <= i < |calls| ==> Costs(limit, calls[i], low, high)
    requires forall j :: 0 <= j <= k ==> StateAfter(cfg, limit, calls, j).Closed?
    requires StillClosed(cfg, AfterCalls(cfg, limit, calls[..k]), k, low, high)
    ensures exists n: nat :: n > 0 && FirstOpeningAt(cfg, limit, calls, n)
                             && (n - 1) * low < cfg.failureThreshold <= n * high
    decreases |calls| - k
  {
    if k == |calls| {
      assert false;
    }
    assert calls[..k + 1] == calls[..k] + [calls[k]];
    AfterFailingCall(cfg, limit, calls[..k], calls[k], low, high);
    if StateAfter(cfg, limit, calls, k + 1).Open? {
      assert FirstOpeningAt(cfg, limit, calls, k + 1);
    } else {
      OpeningSearch(cfg, limit, calls, low, high, k + 1);
    }
  }

  /**
   Sequential failing requests open a fresh circuit no later than the threshold-th request and no
   sooner than the ceil(threshold / limit)-th.
   */
  lemma FailingCallsOpenCircuit(cfg: Config, limit: nat, calls: seq<Call>)
    requires limit >= 1 && cfg.failureThreshold >= 1
    requires |calls| >= cfg.failureThreshold
    requires forall i :: 0 <= i < |calls| ==> FailingCall(limit, calls[i])
    ensures exists n: nat :: FirstOpeningAt(cfg, limit, calls, n) && n <= cfg.failureThreshold <= n * limit
  {
    forall i | 0 <= i < |calls| ensures Costs(limit, calls[i], 1, limit) {
      FailingCallCost(limit, calls[i]);
    }
    OpeningSearch(cfg, limit, calls, 1, limit, 0);
  }

  // ---- Both bounds are met ----

  /** All attempts were used up, each on a reply with outcome `o`. */
  ghost predicate Exhausted(limit: nat, c: Call, o: Outcome -> bool) {
    |c.replies| == limit && forall k :: 0 <= k < limit ==> o(c.replies[k].outcome)
  }

  lemma {:induction false} RetriesAwaited(limit: nat, rs: seq<Reply>)
    requires limit >= 1 && |rs| <= limit && forall k :: 0 <= k < |rs| ==> Retryable(rs[k].outcome)
    ensures AllAwaited(limit, rs)
  {
    if rs != [] {
      var init, r := rs[..|rs| - 1], rs[|rs| - 1];
      RetriesAwaited(limit, init);
      RetryAccounting(limit, init);
      assert init + [r] == rs;
      AwaitedSnoc(limit, init, r);
    }
  }

  lemma {:induction false} ServerErrorsUniform(rs: seq<Reply>)
    ensures (forall k :: 0 <= k < |rs| ==> ServerError(rs[k].outcome)) ==> ServerErrors(rs) == |rs|
    ensures (forall k :: 0 <= k < |rs| ==> !ServerError(rs[k].outcome)) ==> ServerErrors(rs) == 0
  {
    if rs != [] {
      ServerErrorsUniform(rs[..|rs| - 1]);
    }
  }

  lemma ExhaustedCost(limit: nat, c: Call)
    requires limit >= 1
    requires Exhausted(limit, c, ServerError) || Exhausted(limit, c, TransportError)
    ensures FailingCall(limit, c)
    ensures Exhausted(limit, c, ServerError) ==> Costs(limit, c, limit, limit)
    ensures !Exhausted(limit, c, ServerError) ==> Costs(limit, c, 1, 1)
  {
    var rs := c.replies;
    RetriesAwaited(limit, rs);
    RetryAccounting(limit, rs);
    ServerErrorsUniform(rs);
    assert Retryable(rs[limit - 1].outcome);
  }

  /** Requests that meet nothing but 5xx replies open the circuit at exactly the ceil(threshold / limit)-th. */
  lemma ServerErrorsOpenSoonest(cfg: Config, limit: nat, calls: seq<Call>)
    requires limit >= 1 && cfg.failureThreshold >= 1
    requires |calls| * limit >= cfg.failureThreshold
    requires forall i :: 0 <= i < |calls| ==> Exhausted(limit, calls[i], ServerError)
    ensures exists n: nat :: n > 0 && FirstOpeningAt(cfg, limit, calls, n)
                             && (n - 1) * limit < cfg.failureThreshold <= n * limit
  {
    forall i | 0 <= i < |calls| ensures Costs(limit, calls[i], limit, limit) {
      ExhaustedCost(limit, calls[i]);
    }
    OpeningSearch(cfg, limit, calls, limit, limit, 0);
  }

  /** Requests that meet nothing but transport errors open it at exactly the threshold-th. */
  lemma TransportErrorsOpenLatest(cfg: Config, limit: nat, calls: seq<Call>)
    requires limit >= 1 && cfg.failureThreshold >= 1
    requires |calls| >= cfg.failureThreshold
    requires forall i :: 0 <= i < |calls| ==> Exhausted(limit, calls[i], TransportError)
    ensures FirstOpeningAt(cfg, limit, calls, cfg.failureThreshold)
  {
    forall i | 0 <= i < |calls| ensures Costs(limit, calls[i], 1, 1) {
      ExhaustedCost(limit, calls[i]);
      assert calls[i].replies[0].outcome.TransportFailure?;
    }
    OpeningSearch(cfg, limit, calls, 1, 1, 0);
  }
}
