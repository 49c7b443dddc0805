/**
 The three-state circuit breaker shared by every request of one integration client.

 `CircuitBreaker` is the stateful object: every method body runs under the lock, so each call is
 one atomic step. `Step` is the same step on values, on which runs are folded; clock readings are
 integer microseconds and are part of the event that reads them.
 */
module CircuitBreakers {
  import opened Wrappers

  const MICROS_PER_SECOND := 1_000_000

  datatype State = Closed | Open | HalfOpen

  /** The thresholds may be any integers; `recoveryTimeout` is in seconds. */
  datatype Config = Config(failureThreshold: int, recoveryTimeout: int, successThreshold: int)

  /** How long an open circuit refuses, in clock units. */
  function Window(cfg: Config): (w: int)
    ensures w == cfg.recoveryTimeout * 1_000_000
  {
    cfg.recoveryTimeout * MICROS_PER_SECOND
  }

  datatype RawSnapshot = Snapshot(state: State, failureCount: int, successCount: int, openedAt: Option<int>)

  /** Reading an open breaker subtracts `openedAt` from the clock, so it has to be set. */
  type Snapshot = s: RawSnapshot | s.state.Open? ==> s.openedAt.Some? witness Snapshot(Closed, 0, 0, None)

  const FRESH: Snapshot := Snapshot(Closed, 0, 0, None)

  datatype EventKind = Allow | Success | Failure

  /** One atomic call on the breaker, at the time the clock showed. */
  datatype Event = Event(kind: EventKind, at: int)

  predicate Admits(cfg: Config, s: Snapshot, now: int) {
    s.state.Open? ==> now - s.openedAt.value >= Window(cfg)
  }

  predicate Trips(cfg: Config, s: Snapshot) {
    s.state.HalfOpen? || (s.state.Closed? && s.failureCount + 1 >= cfg.failureThreshold)
  }

  function Step(cfg: Config, s: Snapshot, e: Event): Snapshot {
    match e.kind
    case Allow =>
      if s.state.Open? && Admits(cfg, s, e.at) then s.(state := HalfOpen, successCount := 0) else s
    case Success =>
      if s.state.HalfOpen? then
        s.(failureCount := 0, successCount := s.successCount + 1,
           state := if s.successCount + 1 >= cfg.successThreshold then Closed else HalfOpen)
      else
        s.(failureCount := 0)
    case Failure =>
      if Trips(cfg, s) then
        Snapshot(Open, s.failureCount + 1, 0, Some(e.at))
      else
        s.(failureCount := s.failureCount + 1, successCount := 0)
  }

  class CircuitBreaker {
    const config: Config
    var state: State
    var failureCount: int
    var successCount: int
    var openedAt: Option<int>

    ghost predicate Valid()
      reads this
    {
      state.Open? ==> openedAt.Some?
    }

    ghost function View(): Snapshot
      requires Valid()
      reads this
    {
      Snapshot(state, failureCount, successCount, openedAt)
    }

    constructor (config: Config)
      ensures Valid() && View() == FRESH && this.config == config
    {
      this.config := config;
      state, failureCount, successCount, openedAt := Closed, 0, 0, None;
    }

    method AllowRequest(now: int) returns (allowed: bool)
      requires Valid()
      modifies this
      ensures Valid()
      ensures allowed == old(Admits(config, View(), now))
      ensures !allowed <==> old(state) == Open && now - old(openedAt).value < config.recoveryTimeout * 1_000_000
      ensures View() == Step(config, old(View()), Event(Allow, now))
    {
      if state == Closed {
        return true;
      }
      if state == Open {
        var elapsed := now - openedAt.value;
        if elapsed >= config.recoveryTimeout * MICROS_PER_SECOND {
          state := HalfOpen;
          successCount := 0;
          return true;
        }
        return false;
      }
      return true;
    }

    method RecordSuccess(now: int)
      requires Valid()
      modifies this
      ensures Valid() && View() == Step(config, old(View()), Event(Success, now))
    {
      failureCount := 0;
      if state == HalfOpen {
        successCount := successCount + 1;
        if successCount >= config.successThreshold {
          state := Closed;
        }
      }
    }

    method RecordFailure(now: int)
      requires Valid()
      modifies this
      ensures Valid() && View() == Step(config, old(View()), Event(Failure, now))
      ensures old(state) == HalfOpen ==> state == Open && openedAt == Some(now)
      ensures old(state) == Closed ==> (state == Open <==> old(failureCount) + 1 >= config.failureThreshold)
    {
      failureCount := failureCount + 1;
      successCount := 0;
      if state == HalfOpen || (state == Closed && failureCount >= config.failureThreshold) {
        state := Open;
        openedAt := Some(now);
      }
    }
  }
}
