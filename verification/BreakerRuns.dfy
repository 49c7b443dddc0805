/**
 What every run of the breaker keeps. A run is an arbitrary sequence of atomic events, so it covers
 every interleaving of every set of concurrent requests.
 */
module BreakerRuns {
  import opened Arithmetic
  import opened Wrappers
  import opened CircuitBreakers

  function Run(cfg: Config, s: Snapshot, es: seq<Event>): Snapshot {
    if es == [] then s
    else Step(cfg, Run(cfg, s, es[..|es| - 1]), es[|es| - 1])
  }

  lemma {:induction false} RunAppend(cfg: Config, s: Snapshot, es: seq<Event>, fs: seq<Event>)
    ensures Run(cfg, s, es + fs) == Run(cfg, Run(cfg, s, es), fs)
  {
    if fs == [] {
      assert es + fs == es;
    } else {
      RunAppend(cfg, s, es, fs[..|fs| - 1]);
      assert (es + fs)[..|es + fs| - 1] == es + fs[..|fs| - 1];
    }
  }

  lemma RunSnoc(cfg: Config, s: Snapshot, es: seq<Event>, e: Event)
    ensures Run(cfg, s, es + [e]) == Step(cfg, Run(cfg, s, es), e)
  {
    assert (es + [e])[..|es + [e]| - 1] == es;
  }

  lemma RunOne(cfg: Config, s: Snapshot, e: Event)
    ensures Run(cfg, s, [e]) == Step(cfg, s, e)
  {
    RunSnoc(cfg, s, [], e);
    assert [] + [e] == [e];
  }

  // ---- What the counters mean, in terms of the history alone ----

  /** The failures since the last success; admission checks in between do not break the streak. */
  function TrailingFailures(es: seq<Event>): nat {
    if es == [] then 0
    else
      var init := es[..|es| - 1];
      match es[|es| - 1].kind
      case Allow => TrailingFailures(init)
      case Success => 0
      case Failure => TrailingFailures(init) + 1
  }

  function Count(es: seq<Event>, k: EventKind): nat {
    if es == [] then 0
    else Count(es[..|es| - 1], k) + if es[|es| - 1].kind == k then 1 else 0
  }

  /** The state after the first `j` events. */
  function StateAt(cfg: Config, es: seq<Event>, j: nat): State
    requires j <= |es|
  {
    Run(cfg, FRESH, es[..j]).state
  }

  lemma CountSnoc(es: seq<Event>, e: Event, k: EventKind)
    ensures Count(es + [e], k) == Count(es, k) + if e.kind == k then 1 else 0
  {
    assert (es + [e])[..|es + [e]| - 1] == es;
  }

  /** From index `k` on, the run never leaves state `st`. */
  ghost predicate StaysFrom(cfg: Config, es: seq<Event>, k: nat, st: State) {
    forall j :: k <= j <= |es| ==> StateAt(cfg, es, j) == st
  }

  /**
   The circuit was opened by the failure at index `k`, which either completed a streak as long as the
   threshold or met a half-open circuit, and every admission check since was refused.
   */
  ghost predicate OpenedBy(cfg: Config, es: seq<Event>, k: nat) {
    && k < |es| && es[k].kind == Failure
    && (match StateAt(cfg, es, k)
        case Closed => TrailingFailures(es[..k + 1]) >= cfg.failureThreshold
        case HalfOpen => true
        case Open => false)
    && StaysFrom(cfg, es, k + 1, Open)
    && forall j :: k < j < |es| && es[j].kind == Allow ==> es[j].at < es[k].at + Window(cfg)
  }

  /** The circuit went half-open at the admission check at index `k`, and nothing has failed since. */
  ghost predicate ProbingSince(cfg: Config, es: seq<Event>, k: nat) {
    && k < |es| && es[k].kind == Allow
    && StateAt(cfg, es, k).Open?
    && StaysFrom(cfg, es, k + 1, HalfOpen)
    && forall j :: k < j < |es| ==> es[j].kind != Failure
  }

  ghost predicate Explained(cfg: Config, es: seq<Event>) {
    var s := Run(cfg, FRESH, es);
    && s.failureCount == TrailingFailures(es)
    && (s.state.Closed? ==> s.failureCount == 0 || s.failureCount < cfg.failureThreshold)
    && (s.state.Open? ==> exists k: nat :: OpenedBy(cfg, es, k) && s.openedAt == Some(es[k].at))
    && (s.state.HalfOpen? ==>
          && (s.successCount == 0 || s.successCount < cfg.successThreshold)
          && exists k: nat :: ProbingSince(cfg, es, k) && s.successCount == Count(es[k + 1..], Success))
  }

  lemma StaysExtend(cfg: Config, es: seq<Event>, e: Event, k: nat, st: State)
    requires k <= |es| + 1
    requires k <= |es| ==> StaysFrom(cfg, es, k, st)
    requires Run(cfg, FRESH, es + [e]).state == st
    ensures StaysFrom(cfg, es + [e], k, st)
  {
    forall j | k <= j <= |es + [e]| ensures StateAt(cfg, es + [e], j) == st {
      if j <= |es| {
        assert (es + [e])[..j] == es[..j] && StateAt(cfg, es, j) == st;
      } else {
        assert (es + [e])[..j] == es + [e];
      }
    }
  }

  lemma OpenedByExtends(cfg: Config, es: seq<Event>, e: Event, k: nat)
    requires OpenedBy(cfg, es, k) && Run(cfg, FRESH, es + [e]).state.Open?
    requires e.kind == Allow ==> e.at < es[k].at + Window(cfg)
    ensures OpenedBy(cfg, es + [e], k)
  {
    StaysExtend(cfg, es, e, k + 1, Open);
    assert (es + [e])[..k] == es[..k] && (es + [e])[..k + 1] == es[..k + 1];
  }

  lemma TrailingSnoc(es: seq<Event>, e: Event)
    ensures TrailingFailures(es + [e]) ==
            match e.kind case Allow => TrailingFailures(es) case Success => 0 case Failure => TrailingFailures(es) + 1
  {
    assert (es + [e])[..|es + [e]| - 1] == es;
  }

  lemma JustOpened(cfg: Config, es: seq<Event>, e: Event)
    requires Run(cfg, FRESH, es).failureCount == TrailingFailures(es)
    requires !Run(cfg, FRESH, es).state.Open? && Run(cfg, FRESH, es + [e]).state.Open?
    ensures OpenedBy(cfg, es + [e], |es|) && Run(cfg, FRESH, es + [e]).openedAt == Some(e.at)
  {
    RunSnoc(cfg, FRESH, es, e);
    TrailingSnoc(es, e);
    StaysExtend(cfg, es, e, |es| + 1, Open);
    assert (es + [e])[..|es|] == es && (es + [e])[..|es| + 1] == es + [e];
  }

  lemma OpenExplained(cfg: Config, es: seq<Event>, e: Event)
    requires Explained(cfg, es) && Run(cfg, FRESH, es + [e]).state.Open?
    ensures exists k: nat :: OpenedBy(cfg, es + [e], k) && Run(cfg, FRESH, es + [e]).openedAt == Some((es + [e])[k].at)
  {
    if Run(cfg, FRESH, es).state.Open? {
      RunSnoc(cfg, FRESH, es, e);
      var k: nat :| OpenedBy(cfg, es, k) && Run(cfg, FRESH, es).openedAt == Some(es[k].at);
      OpenedByExtends(cfg, es, e, k);
      assert (es + [e])[k] == es[k];
    } else {
      JustOpened(cfg, es, e);
      assert (es + [e])[|es|] == e;
    }
  }

  lemma ProbingExtends(cfg: Config, es: seq<Event>, e: Event, k: nat)
    requires ProbingSince(cfg, es, k) && Run(cfg, FRESH, es + [e]).state.HalfOpen?
    requires e.kind != Failure
    ensures ProbingSince(cfg, es + [e], k)
    ensures Count((es + [e])[k + 1..], Success) == Count(es[k + 1..], Success) + if e.kind == Success then 1 else 0
  {
    StaysExtend(cfg, es, e, k + 1, HalfOpen);
    assert (es + [e])[..k] == es[..k];
    CountSnoc(es[k + 1..], e, Success);
    assert (es + [e])[k + 1..] == es[k + 1..] + [e];
  }

  lemma ProbingExplained(cfg: Config, es: seq<Event>, e: Event)
    requires Explained(cfg, es) && Run(cfg, FRESH, es + [e]).state.HalfOpen?
    ensures exists k: nat :: ProbingSince(cfg, es + [e], k)
              && Run(cfg, FRESH, es + [e]).successCount == Count((es + [e])[k + 1..], Success)
  {
    RunSnoc(cfg, FRESH, es, e);
    var s, fs := Run(cfg, FRESH, es), es + [e];
    if s.state.HalfOpen? {
      var k: nat :| ProbingSince(cfg, es, k) && s.successCount == Count(es[k + 1..], Success);
      ProbingExtends(cfg, es, e, k);
    } else {
      StaysExtend(cfg, es, e, |es| + 1, HalfOpen);
      assert fs[..|es|] == es && fs[|es| + 1..] == [];
      assert ProbingSince(cfg, fs, |es|);
    }
  }

  /** Every reachable snapshot is explained by the recorded history. */
  lemma {:induction false} HistoryExplains(cfg: Config, es: seq<Event>)
    ensures Explained(cfg, es)
  {
    if es != [] {
      var init, e := es[..|es| - 1], es[|es| - 1];
      assert es == init + [e];
      HistoryExplains(cfg, init);
      var t := Run(cfg, FRESH, es);
      if t.state.Open? {
        OpenExplained(cfg, init, e);
      }
      if t.state.HalfOpen? {
        ProbingExplained(cfg, init, e);
      }
    }
  }

  // ---- One more call, from any reachable state ----

  /** A probe that fails opens the circuit again at once, whatever succeeded before it. */
  lemma ProbeFailureReopens(cfg: Config, es: seq<Event>, at: int)
    requires Run(cfg, FRESH, es).state.HalfOpen?
    ensures Run(cfg, FRESH, es + [Event(Failure, at)]).state == Open
    ensures Run(cfg, FRESH, es + [Event(Failure, at)]).openedAt == Some(at)
  {
    RunSnoc(cfg, FRESH, es, Event(Failure, at));
  }

  /** A closed circuit opens at a failure exactly when it completes a streak as long as the threshold. */
  lemma StreakOpensExactly(cfg: Config, es: seq<Event>, at: int)
    requires Run(cfg, FRESH, es).state.Closed?
    ensures var t := Run(cfg, FRESH, es + [Event(Failure, at)]);
            && t.state == (if TrailingFailures(es) + 1 >= cfg.failureThreshold then Open else Closed)
            && (t.state == Open ==> t.openedAt == Some(at))
  {
    HistoryExplains(cfg, es);
    RunSnoc(cfg, FRESH, es, Event(Failure, at));
  }

  /** A success never opens the circuit, and closes it only from half-open. */
  lemma SuccessEffect(cfg: Config, es: seq<Event>, at: int)
    ensures var s, t := Run(cfg, FRESH, es), Run(cfg, FRESH, es + [Event(Success, at)]);
            && t.failureCount == 0
            && (s.state != HalfOpen ==> t.state == s.state && t.openedAt == s.openedAt)
            && (s.state == HalfOpen ==> t.state == if s.successCount + 1 >= cfg.successThreshold then Closed else HalfOpen)
  {
    RunSnoc(cfg, FRESH, es, Event(Success, at));
  }

  /**
   A check is refused exactly while the circuit is open and less than the recovery timeout, in seconds of a
   million clock units, has gone by; a closed or half-open circuit admits everyone and does not change.
   */
  lemma RefusedExactlyInWindow(cfg: Config, es: seq<Event>, at: int)
    ensures var s, t := Run(cfg, FRESH, es), Run(cfg, FRESH, es + [Event(Allow, at)]);
            && (!Admits(cfg, s, at) <==> s.state == Open && at - s.openedAt.value < cfg.recoveryTimeout * 1_000_000)
            && (s.state == Open && Admits(cfg, s, at) ==> t == s.(state := HalfOpen, successCount := 0))
            && (s.state != Open || !Admits(cfg, s, at) ==> t == s)
  {
    RunSnoc(cfg, FRESH, es, Event(Allow, at));
  }

  // ---- The refusal window ----

  /** Nothing but an admission check at the end of the window or later leaves OPEN, and that check always does. */
  lemma OpenLeftExactlyByLateCheck(cfg: Config, s: Snapshot, e: Event)
    requires s.state.Open?
    ensures !Step(cfg, s, e).state.Open? <==> e.kind == Allow && e.at >= s.openedAt.value + Window(cfg)
    ensures Admits(cfg, s, s.openedAt.value + Window(cfg))
  {
  }

  /**
   While no admission check reads the clock at or past the end of the window, an open circuit stays
   open with the same opening time whatever successes and failures arrive late, and every check is refused.
   */
  lemma {:induction false} OpenWindowHolds(cfg: Config, s: Snapshot, es: seq<Event>)
    requires s.state.Open?
    requires forall j :: 0 <= j < |es| && es[j].kind == Allow ==> es[j].at < s.openedAt.value + Window(cfg)
    ensures Run(cfg, s, es).state.Open? && Run(cfg, s, es).openedAt == s.openedAt
    ensures forall j :: 0 <= j < |es| && es[j].kind == Allow ==> !Admits(cfg, Run(cfg, s, es[..j]), es[j].at)
  {
    if es != [] {
      var init := es[..|es| - 1];
      OpenWindowHolds(cfg, s, init);
      OpenLeftExactlyByLateCheck(cfg, Run(cfg, s, init), es[|es| - 1]);
      forall j | 0 <= j < |es| && es[j].kind == Allow
        ensures !Admits(cfg, Run(cfg, s, es[..j]), es[j].at)
      {
        if j < |init| {
          assert es[..j] == init[..j] && es[j] == init[j];
        } else {
          assert es[..j] == init;
        }
      }
    }
  }

  // ---- Recovery ----

  /** From the moment the circuit goes half-open, failure-free traffic closes it at the threshold-th success and not before. */
  lemma {:induction false} RecoveryNeedsThresholdSuccesses(cfg: Config, s: Snapshot, es: seq<Event>)
    requires s.state.HalfOpen? && s.successCount == 0
    requires forall j :: 0 <= j < |es| ==> es[j].kind != Failure
    ensures var n := Count(es, Success);
            var t := Run(cfg, s, es);
            && (t.state.Closed? <==> n >= 1 && n >= cfg.successThreshold)
            && (t.state.HalfOpen? <==> n == 0 || n < cfg.successThreshold)
            && (t.state.HalfOpen? ==> t.successCount == n)
            && (n > 0 ==> t.failureCount == 0)
  {
    if es != [] {
      RecoveryNeedsThresholdSuccesses(cfg, s, es[..|es| - 1]);
    }
  }

  /** Half-open admits every caller, not one: any number of checks in a row is admitted and changes nothing. */
  lemma {:induction false} HalfOpenAdmitsEveryCaller(cfg: Config, s: Snapshot, es: seq<Event>)
    requires s.state.Open? && es != []
    requires forall j :: 0 <= j < |es| ==> es[j].kind == Allow
    requires es[0].at >= s.openedAt.value + Window(cfg)
    ensures Run(cfg, s, es).state.HalfOpen?
    ensures forall j :: 0 <= j < |es| ==> Admits(cfg, Run(cfg, s, es[..j]), es[j].at)
  {
    var init := es[..|es| - 1];
    if init == [] {
      assert es[..0] == init;
    } else {
      HalfOpenAdmitsEveryCaller(cfg, s, init);
      forall j | 0 <= j < |es| ensures Admits(cfg, Run(cfg, s, es[..j]), es[j].at) {
        if j < |init| {
          assert es[..j] == init[..j];
        } else {
          assert es[..j] == init;
        }
      }
    }
  }

  // ---- How often the circuit can open ----

  ghost predicate MonotoneClock(es: seq<Event>) {
    forall i, j :: 0 <= i < j < |es| ==> es[i].at <= es[j].at
  }

  predicate OpensAt(cfg: Config, s: Snapshot, e: Event) {
    !s.state.Open? && Step(cfg, s, e).state.Open?
  }

  /** The times at which a run from the fresh breaker opens the circuit, oldest first. */
  function Openings(cfg: Config, es: seq<Event>): seq<int> {
    if es == [] then []
    else
      var init, e := es[..|es| - 1], es[|es| - 1];
      Openings(cfg, init) + if OpensAt(cfg, Run(cfg, FRESH, init), e) then [e.at] else []
  }

  ghost predicate Spaced(times: seq<int>, gap: int) {
    forall i :: 0 <= i < |times| - 1 ==> times[i + 1] - times[i] >= gap
  }

  /** The latest opening, the clock and the state agree; this is what one more event preserves. */
  ghost predicate OpeningsInvariant(cfg: Config, es: seq<Event>) {
    var s, opens := Run(cfg, FRESH, es), Openings(cfg, es);
    && Spaced(opens, Window(cfg))
    && (opens == [] ==> s.state.Closed?)
    && (opens != [] && s.state.Open? ==> s.openedAt == Some(opens[|opens| - 1]))
    && (opens != [] && !s.state.Open? ==> es != [] && es[|es| - 1].at - opens[|opens| - 1] >= Window(cfg))
  }

  lemma {:induction false} OpeningsSpaced(cfg: Config, es: seq<Event>)
    requires MonotoneClock(es)
    ensures OpeningsInvariant(cfg, es)
  {
    if es != [] {
      var init, e := es[..|es| - 1], es[|es| - 1];
      OpeningsSpaced(cfg, init);
      OpeningsStep(cfg, init, e);
      assert es == init + [e];
    }
  }

  lemma OpeningsStep(cfg: Config, es: seq<Event>, e: Event)
    requires OpeningsInvariant(cfg, es)
    requires es != [] ==> es[|es| - 1].at <= e.at
    ensures OpeningsInvariant(cfg, es + [e])
  {
    RunSnoc(cfg, FRESH, es, e);
    var fs := es + [e];
    assert fs[..|fs| - 1] == es && fs[|fs| - 1] == e;
  }

  lemma {:induction false} OpeningsAreEventTimes(cfg: Config, es: seq<Event>, lo: int, hi: int)
    requires forall j :: 0 <= j < |es| ==> lo <= es[j].at <= hi
    ensures forall i :: 0 <= i < |Openings(cfg, es)| ==> lo <= Openings(cfg, es)[i] <= hi
  {
    if es != [] {
      OpeningsAreEventTimes(cfg, es[..|es| - 1], lo, hi);
    }
  }

  lemma {:induction false} SpacedSpan(times: seq<int>, gap: int)
    requires times != [] && Spaced(times, gap)
    ensures times[|times| - 1] - times[0] >= (|times| - 1) * gap
  {
    if |times| > 1 {
      var init := times[..|times| - 1];
      SpacedSpan(init, gap);
      assert times[|times| - 1] - init[|init| - 1] >= gap;
      assert (|times| - 2) * gap + gap == (|times| - 1) * gap;
    }
  }

  /** Successive openings are a window apart, so a run lasting `span` opens the circuit at most span/window + 1 times. */
  lemma OpeningsBounded(cfg: Config, es: seq<Event>, from: int, span: nat)
    requires MonotoneClock(es) && cfg.recoveryTimeout > 0
    requires forall j :: 0 <= j < |es| ==> from <= es[j].at <= from + span
    ensures Spaced(Openings(cfg, es), Window(cfg))
    ensures |Openings(cfg, es)| <= span / Window(cfg) + 1
  {
    OpeningsSpaced(cfg, es);
    OpeningsAreEventTimes(cfg, es, from, from + span);
    SpacedCount(Openings(cfg, es), Window(cfg), from, span);
  }

  lemma SpacedCount(times: seq<int>, gap: int, from: int, span: nat)
    requires gap > 0 && Spaced(times, gap) && forall i :: 0 <= i < |times| ==> from <= times[i] <= from + span
    ensures |times| <= span / gap + 1
  {
    if times != [] {
      SpacedSpan(times, gap);
      DivAtLeast(|times| - 1, gap, span);
    } else {
      DivAtLeast(0, gap, span);
    }
  }
}
