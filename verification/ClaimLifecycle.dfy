/** The damage-claim lifecycle: the transition table and what every run through it keeps. */
module ClaimLifecycle {
  datatype Status =
    | OPEN | ESTIMATE_SENT | CUSTOMER_ACKNOWLEDGED | REPAIR_IN_PROGRESS | REPAIR_COMPLETE
    | INVOICED | PAID | DISPUTED | IN_LITIGATION | WRITTEN_OFF

  function Transitions(s: Status): seq<Status> {
    match s
    case OPEN => [ESTIMATE_SENT, WRITTEN_OFF]
    case ESTIMATE_SENT => [CUSTOMER_ACKNOWLEDGED, DISPUTED]
    case CUSTOMER_ACKNOWLEDGED => [REPAIR_IN_PROGRESS]
    case REPAIR_IN_PROGRESS => [REPAIR_COMPLETE]
    case REPAIR_COMPLETE => [INVOICED]
    case INVOICED => [PAID, DISPUTED]
    case DISPUTED => [IN_LITIGATION, REPAIR_IN_PROGRESS]
    case IN_LITIGATION => [PAID, WRITTEN_OFF]
    case PAID => []
    case WRITTEN_OFF => []
  }

  /** The table by columns: the statuses from which each one is entered. */
  function EnteredFrom(t: Status): set<Status> {
    match t
    case OPEN => {}
    case ESTIMATE_SENT => {OPEN}
    case CUSTOMER_ACKNOWLEDGED => {ESTIMATE_SENT}
    case REPAIR_IN_PROGRESS => {CUSTOMER_ACKNOWLEDGED, DISPUTED}
    case REPAIR_COMPLETE => {REPAIR_IN_PROGRESS}
    case INVOICED => {REPAIR_COMPLETE}
    case PAID => {INVOICED, IN_LITIGATION}
    case DISPUTED => {ESTIMATE_SENT, INVOICED}
    case IN_LITIGATION => {DISPUTED}
    case WRITTEN_OFF => {OPEN, IN_LITIGATION}
  }

  /** Whatever the run, a claim enters a status from one of these and from each of them some claim does. */
  lemma EnteredExactlyFrom(s: Status, t: Status)
    ensures (exists run, i :: IsRun(run) && 0 < i < |run| && run[i - 1] == s && run[i] == t) <==> s in EnteredFrom(t)
  {
    if s in EnteredFrom(t) {
      var run := [s, t];
      assert IsRun(run) && run[1 - 1] == s && run[1] == t;
    }
    forall run: seq<Status>, i: int | IsRun(run) && 0 < i < |run| && run[i - 1] == s && run[i] == t
      ensures s in EnteredFrom(t)
    {
      assert run[i - 1 + 1] in Transitions(run[i - 1]);
    }
  }

  /** A run lists the statuses a claim goes through, oldest first. */
  predicate IsRun(run: seq<Status>) {
    run != [] && forall i :: 0 <= i < |run| - 1 ==> run[i + 1] in Transitions(run[i])
  }

  function Entries(run: seq<Status>, s: Status): nat {
    if |run| <= 1 then 0
    else Entries(run[..|run| - 1], s) + if run[|run| - 1] == s then 1 else 0
  }

  /** The longest way a claim can go on without entering DISPUTED; from DISPUTED, back through repair. */
  function Potential(s: Status): nat {
    match s
    case OPEN => 6
    case ESTIMATE_SENT => 5
    case CUSTOMER_ACKNOWLEDGED => 4
    case REPAIR_IN_PROGRESS => 3
    case REPAIR_COMPLETE => 2
    case INVOICED => 1
    case DISPUTED => 4
    case IN_LITIGATION => 1
    case PAID => 0
    case WRITTEN_OFF => 0
  }

  /** Each transition uses up potential; only entering DISPUTED gives some back, and at most four. */
  lemma {:induction false} RunUsesPotential(run: seq<Status>)
    requires IsRun(run)
    ensures |run| - 1 + Potential(run[|run| - 1]) <= Potential(run[0]) + 4 * Entries(run, DISPUTED)
  {
    if |run| > 1 {
      RunUsesPotential(run[..|run| - 1]);
      assert run[|run| - 2 + 1] in Transitions(run[|run| - 2]);
    }
  }

  /** A claim that enters DISPUTED `k` times makes at most 6 + 4k transitions. */
  lemma {:induction false} RunLengthBound(run: seq<Status>)
    requires IsRun(run) && run[0] == OPEN
    ensures |run| - 1 <= 6 + 4 * Entries(run, DISPUTED)
  {
    RunUsesPotential(run);
  }

  lemma EntriesAppend(run: seq<Status>, s: Status, t: Status)
    requires run != []
    ensures Entries(run + [s], t) == Entries(run, t) + if s == t then 1 else 0
  {
    assert (run + [s])[..|run + [s]| - 1] == run;
  }

  lemma RunAppend(run: seq<Status>, s: Status)
    requires IsRun(run) && s in Transitions(run[|run| - 1])
    ensures IsRun(run + [s])
  {
  }

  /** The claim that is invoiced, disputed and repaired again `k` times. */
  lemma {:induction false} DisputedRepairs(k: nat) returns (run: seq<Status>)
    ensures IsRun(run) && run[0] == OPEN && run[|run| - 1] == INVOICED
    ensures Entries(run, DISPUTED) == k && |run| - 1 == 5 + 4 * k
  {
    if k == 0 {
      run := [OPEN];
      run := Extend(run, ESTIMATE_SENT);
      run := Extend(run, CUSTOMER_ACKNOWLEDGED);
      run := Extend(run, REPAIR_IN_PROGRESS);
      run := Extend(run, REPAIR_COMPLETE);
      run := Extend(run, INVOICED);
    } else {
      run := DisputedRepairs(k - 1);
      run := Extend(run, DISPUTED);
      run := Extend(run, REPAIR_IN_PROGRESS);
      run := Extend(run, REPAIR_COMPLETE);
      run := Extend(run, INVOICED);
    }
  }

  lemma Extend(run: seq<Status>, s: Status) returns (more: seq<Status>)
    requires IsRun(run) && s in Transitions(run[|run| - 1])
    ensures IsRun(more) && more[0] == run[0] && more[|more| - 1] == s && |more| == |run| + 1
    ensures Entries(more, DISPUTED) == Entries(run, DISPUTED) + if s == DISPUTED then 1 else 0
  {
    more := run + [s];
    RunAppend(run, s);
    EntriesAppend(run, s, DISPUTED);
  }

  /** The bound is exact: for every `k` some claim makes exactly 6 + 4k transitions, and ends paid. */
  lemma RunLengthAttained(k: nat)
    ensures exists run :: IsRun(run) && run[0] == OPEN && run[|run| - 1] == PAID
                          && Entries(run, DISPUTED) == k && |run| - 1 == 6 + 4 * k
  {
    var run := DisputedRepairs(k);
    run := Extend(run, PAID);
  }

  /** PAID and WRITTEN_OFF are the only statuses a claim cannot leave. */
  lemma AbsorbingExactly(s: Status)
    ensures Transitions(s) == [] <==> s in {PAID, WRITTEN_OFF}
  {
  }

  /** From every status some run ends the claim, and within the status's potential. */
  lemma {:induction false} EveryClaimCanEnd(s: Status) returns (run: seq<Status>)
    ensures IsRun(run) && run[0] == s && run[|run| - 1] in {PAID, WRITTEN_OFF}
    ensures |run| - 1 <= Potential(s) && Entries(run, DISPUTED) == 0
    decreases Potential(s)
  {
    if s in {PAID, WRITTEN_OFF} {
      run := [s];
    } else {
      AbsorbingExactly(s);
      var next := Transitions(s)[0];
      var rest := EveryClaimCanEnd(next);
      run := [s] + rest;
      assert forall i :: 0 < i < |run| - 1 ==> run[i] == rest[i - 1] && run[i + 1] == rest[i];
      EntriesPrepend(s, rest);
    }
  }

  lemma {:induction false} EntriesPrepend(s: Status, run: seq<Status>)
    requires run != []
    ensures Entries([s] + run, DISPUTED) == Entries(run, DISPUTED) + if run[0] == DISPUTED then 1 else 0
  {
    var more := [s] + run;
    if |run| == 1 {
      assert more[..|more| - 1] == [s];
    } else {
      EntriesPrepend(s, run[..|run| - 1]);
      assert more[..|more| - 1] == [s] + run[..|run| - 1];
    }
  }

  /** Nothing is paid that was not invoiced or litigated: the status before the first PAID is one of the two. */
  lemma PaidWasInvoicedOrLitigated(run: seq<Status>, i: nat)
    requires IsRun(run) && i < |run| && run[i] == PAID && run[0] != PAID
    ensures i > 0 && run[i - 1] in {INVOICED, IN_LITIGATION} && i == |run| - 1
  {
    assert run[i - 1 + 1] in Transitions(run[i - 1]);
    assert i < |run| - 1 ==> run[i + 1] in Transitions(run[i]);
  }

  /** A claim that goes to court comes straight from a dispute, and a claim in repair or invoiced was acknowledged or disputed first. */
  lemma {:induction false} RepairFollowsAgreementOrDispute(run: seq<Status>, i: nat)
    requires IsRun(run) && run[0] == OPEN && i < |run|
    requires run[i] in {REPAIR_IN_PROGRESS, REPAIR_COMPLETE, INVOICED, IN_LITIGATION}
    ensures exists j :: 0 <= j < i && run[j] in {CUSTOMER_ACKNOWLEDGED, DISPUTED}
    ensures run[i] == IN_LITIGATION ==> run[i - 1] == DISPUTED
    decreases i
  {
    assert i > 0;
    assert run[i - 1 + 1] in Transitions(run[i - 1]);
    if run[i] in {REPAIR_COMPLETE, INVOICED} {
      RepairFollowsAgreementOrDispute(run, i - 1);
    } else {
      assert run[i - 1] in {CUSTOMER_ACKNOWLEDGED, DISPUTED};
    }
  }
}
