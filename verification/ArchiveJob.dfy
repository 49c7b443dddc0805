/**
 The nightly archive job over the live tables, the archive tables and the append-only audit log, and
 what any sequence of nights keeps while other writers change the live tables and append to the log
 in between.

 `deleted_at` is taken to exist on rental agreements, as step 2 needs it.
 */
module ArchiveJob {
  import opened Wrappers

  datatype AgreementStatus = RaActive | RaExtended | RaReturned | RaClosed | RaDisputed

  datatype ReservationStatus =
    | Quote | Pending | Confirmed | Modified | CheckedOut | Extended | Returned | Closed
    | Cancelled | NoShow | Disputed

  /** What the job reads and writes of any row: its UNIQUE number and its deletion stamp. */
  datatype Row<D> = Row(number: string, deletedAt: Option<int>, data: D)

  datatype AgreementData = AgreementData(
    reservationId: string, status: AgreementStatus, actualReturn: Option<int>, detail: string)

  datatype ReservationData = ReservationData(status: ReservationStatus, updatedAt: int, detail: string)

  type Agreement = Row<AgreementData>
  type Reservation = Row<ReservationData>

  /** An archive row is the live row as it was, and when it was copied. */
  datatype Archived<T> = Archived(row: T, archivedAt: int)

  datatype LogAction = InsertEvent | UpdateEvent | DeleteEvent | ConfigChange | OtherEvent

  datatype LogEntry = LogEntry(action: LogAction, resourceType: string, resourceId: string, flag: Option<string>)

  datatype Tables = Tables(
    agreements: map<string, Agreement>,
    reservations: map<string, Reservation>,
    archivedAgreements: map<string, Archived<Agreement>>,
    archivedReservations: map<string, Archived<Reservation>>)

  datatype Db = Db(tables: Tables, log: seq<LogEntry>)

  /** Calendar subtraction of one year and of seven years from a timestamp. */
  datatype Calendar = Calendar(yearBefore: int -> int, sevenYearsBefore: int -> int)

  ghost predicate Sane(cal: Calendar) {
    forall t :: cal.sevenYearsBefore(t) <= t
  }

  const AGREEMENTS := "rental_agreements"
  const RESERVATIONS := "reservations"
  const JOB_ENTRY := LogEntry(ConfigChange, "archive_job", "nightly", None)

  predicate PlacesHold(e: LogEntry) {
    e.resourceType == AGREEMENTS && e.action == ConfigChange && e.flag == Some("LEGAL_HOLD")
  }

  function Holds(log: seq<LogEntry>): set<string> {
    set e | e in log && PlacesHold(e) :: e.resourceId
  }

  /** A NULL return time is never before anything. */
  predicate Stale(cal: Calendar, now: int, a: Agreement) {
    a.data.status == RaClosed && a.data.actualReturn.Some? && a.data.actualReturn.value < cal.yearBefore(now)
  }

  predicate Terminal(cal: Calendar, now: int, r: Reservation) {
    r.data.status in {Cancelled, Closed, NoShow} && r.data.updatedAt < cal.yearBefore(now)
  }

  predicate HasOpenAgreement(agreements: map<string, Agreement>, reservationId: string) {
    exists id :: id in agreements && agreements[id].data.reservationId == reservationId
                 && agreements[id].data.status in {RaActive, RaExtended, RaDisputed}
  }

  // ---- The statements of the job ----

  /** Step 1 selects stale agreements that have no archive row and no hold, deleted or not. */
  function AgreementsToArchive(cal: Calendar, now: int, db: Db): set<string> {
    var live, archive := db.tables.agreements, db.tables.archivedAgreements;
    set id | id in live && Stale(cal, now, live[id]) && id !in archive && id !in Holds(db.log)
  }

  /** Step 2 updates every stale agreement not yet stamped, held or archived or neither. */
  function AgreementsToStamp(cal: Calendar, now: int, live: map<string, Agreement>): set<string> {
    set id | id in live && Stale(cal, now, live[id]) && live[id].deletedAt == None
  }

  /** Step 3 copies terminal reservations without an open agreement ... */
  function ReservationsToArchive(cal: Calendar, now: int, live: map<string, Reservation>,
                                 archive: map<string, Archived<Reservation>>, agreements: map<string, Agreement>)
    : set<string>
  {
    set id | id in live && Terminal(cal, now, live[id]) && id !in archive && !HasOpenAgreement(agreements, id)
  }

  /** ... and updates every terminal one not yet stamped. */
  function ReservationsToStamp(cal: Calendar, now: int, live: map<string, Reservation>): set<string> {
    set id | id in live && Terminal(cal, now, live[id]) && live[id].deletedAt == None
  }

  predicate Expired(cal: Calendar, now: int, archivedAt: int) {
    archivedAt < cal.sevenYearsBefore(now)
  }

  /** Step 4 deletes what is older than seven years and not held. */
  function ToPurge(cal: Calendar, now: int, archive: map<string, Archived<Agreement>>, holds: set<string>): set<string> {
    set id | id in archive && Expired(cal, now, archive[id].archivedAt) && id !in holds
  }

  /** The archive's copy of the UNIQUE constraint on the number refuses these rows. */
  predicate Clash<D>(live: map<string, Row<D>>, ids: set<string>, archive: map<string, Archived<Row<D>>>)
    requires ids <= live.Keys
  {
    || (exists i, j :: i in ids && j in archive && live[i].number == archive[j].row.number)
    || (exists i, j :: i in ids && j in ids && i != j && live[i].number == live[j].number)
  }

  function NightlyReservations(cal: Calendar, now: int, t: Tables): set<string> {
    ReservationsToArchive(cal, now, t.reservations, t.archivedReservations, t.agreements)
  }

  /** Some statement of the run violates a unique constraint, so the whole run rolls back. */
  predicate Aborts(cal: Calendar, now: int, db: Db) {
    var t := db.tables;
    || Clash(t.agreements, AgreementsToArchive(cal, now, db), t.archivedAgreements)
    || Clash(t.reservations, NightlyReservations(cal, now, t), t.archivedReservations)
  }

  /** `after` is the archive `before` with a copy of each of the live rows `ids`. */
  ghost predicate Copied<R>(live: map<string, R>, ids: set<string>, now: int,
                            before: map<string, Archived<R>>, after: map<string, Archived<R>>)
    requires ids <= live.Keys
  {
    && after.Keys == before.Keys + ids
    && (forall id :: id in before && id !in ids ==> after[id] == before[id])
    && (forall id :: id in ids ==> after[id] == Archived(live[id], now))
  }

  ghost predicate Stamped<D>(before: map<string, Row<D>>, ids: set<string>, now: int, after: map<string, Row<D>>) {
    && after.Keys == before.Keys
    && forall id :: id in before ==>
         after[id] == if id in ids then before[id].(deletedAt := Some(now)) else before[id]
  }

  /** One trigger event per updated row, in whatever order the statement visits them. */
  ghost predicate TriggerRows(events: seq<LogEntry>, resourceType: string, ids: set<string>) {
    && (forall i :: 0 <= i < |events| ==> events[i] == LogEntry(UpdateEvent, resourceType, events[i].resourceId, None))
    && (forall i, j :: 0 <= i < j < |events| ==> events[i].resourceId != events[j].resourceId)
    && (set e | e in events :: e.resourceId) == ids
  }

  /** What the five steps leave; `copied` is the archive after step 1. */
  ghost predicate FiveSteps(cal: Calendar, now: int, db: Db, copied: map<string, Archived<Agreement>>,
                            ra: seq<LogEntry>, res: seq<LogEntry>, next: Db)
  {
    var t, u := db.tables, next.tables;
    && Copied(t.agreements, AgreementsToArchive(cal, now, db), now, t.archivedAgreements, copied)
    && Stamped(t.agreements, AgreementsToStamp(cal, now, t.agreements), now, u.agreements)
    && Copied(t.reservations, NightlyReservations(cal, now, t), now, t.archivedReservations, u.archivedReservations)
    && Stamped(t.reservations, ReservationsToStamp(cal, now, t.reservations), now, u.reservations)
    && u.archivedAgreements == copied - ToPurge(cal, now, copied, Holds(db.log))
    && TriggerRows(ra, AGREEMENTS, AgreementsToStamp(cal, now, t.agreements))
    && TriggerRows(res, RESERVATIONS, ReservationsToStamp(cal, now, t.reservations))
    && next.log == db.log + ra + res + [JOB_ENTRY]
  }

  /** A night from `db` to `next`: nothing at all if it aborts, otherwise all five steps. */
  ghost predicate Night(cal: Calendar, now: int, db: Db, next: Db) {
    if Aborts(cal, now, db) then next == db
    else exists copied, ra, res :: FiveSteps(cal, now, db, copied, ra, res, next)
  }

  class ArchiveDatabase {
    var agreements: map<string, Agreement>
    var reservations: map<string, Reservation>
    var archivedAgreements: map<string, Archived<Agreement>>
    var archivedReservations: map<string, Archived<Reservation>>
    var log: seq<LogEntry>

    ghost function View(): Db
      reads this
    {
      Db(Tables(agreements, reservations, archivedAgreements, archivedReservations), log)
    }

    /** INSERT ... SELECT, row by row. */
    static method CopyRows<R>(live: map<string, R>, ids: set<string>, now: int, before: map<string, Archived<R>>)
      returns (after: map<string, Archived<R>>)
      requires ids <= live.Keys
      ensures Copied(live, ids, now, before, after)
    {
      after := before;
      var todo := ids;
      while todo != {}
        invariant todo <= ids
        invariant Copied(live, ids - todo, now, before, after)
        decreases todo
      {
        var id :| id in todo;
        after := after[id := Archived(live[id], now)];
        todo := todo - {id};
      }
      assert ids - {} == ids;
    }

    /** Step 1: copy. */
    method ArchiveAgreements(cal: Calendar, now: int, holds: set<string>) returns (ok: bool, count: nat)
      requires holds == Holds(log)
      modifies this`archivedAgreements
      ensures var ids := AgreementsToArchive(cal, now, old(View()));
              && ok == !Clash(agreements, ids, old(archivedAgreements))
              && count == |ids|
              && (ok ==> Copied(agreements, ids, now, old(archivedAgreements), archivedAgreements))
    {
      var ids := set id | id in agreements && Stale(cal, now, agreements[id])
                          && id !in archivedAgreements && id !in holds;
      ok, count := !Clash(agreements, ids, archivedAgreements), |ids|;
      if ok {
        archivedAgreements := CopyRows(agreements, ids, now, archivedAgreements);
      }
    }

    /** UPDATE ... SET deleted_at, row by row; the row trigger logs each updated row. */
    static method StampRows<D>(resourceType: string, before: map<string, Row<D>>, ids: set<string>, now: int)
      returns (after: map<string, Row<D>>, events: seq<LogEntry>)
      requires ids <= before.Keys
      ensures Stamped(before, ids, now, after)
      ensures TriggerRows(events, resourceType, ids)
    {
      after, events := before, [];
      var todo := ids;
      while todo != {}
        invariant todo <= ids
        invariant Stamped(before, ids - todo, now, after)
        invariant TriggerRows(events, resourceType, ids - todo)
        decreases todo
      {
        var id :| id in todo;
        TriggerRowsSnoc(events, resourceType, ids - todo, id);
        after := after[id := after[id].(deletedAt := Some(now))];
        events := events + [LogEntry(UpdateEvent, resourceType, id, None)];
        assert ids - (todo - {id}) == (ids - todo) + {id};
        todo := todo - {id};
      }
      assert ids - {} == ids;
    }

    /** Step 2: soft-delete. */
    method SoftDeleteAgreements(cal: Calendar, now: int) returns (ghost events: seq<LogEntry>)
      modifies this`agreements, this`log
      ensures Stamped(old(agreements), AgreementsToStamp(cal, now, old(agreements)), now, agreements)
      ensures log == old(log) + events
      ensures TriggerRows(events, AGREEMENTS, AgreementsToStamp(cal, now, old(agreements)))
    {
      var logged;
      agreements, logged := StampRows(AGREEMENTS, agreements, AgreementsToStamp(cal, now, agreements), now);
      log := log + logged;
      events := logged;
    }

    /** Step 3: copy reservations, then soft-delete them. */
    method ArchiveReservations(cal: Calendar, now: int) returns (ok: bool, ghost events: seq<LogEntry>)
      modifies this`reservations, this`archivedReservations, this`log
      ensures var ids := ReservationsToArchive(cal, now, old(reservations), old(archivedReservations), agreements);
              && ok == !Clash(old(reservations), ids, old(archivedReservations))
              && (ok ==> Copied(old(reservations), ids, now, old(archivedReservations), archivedReservations))
      ensures ok ==>
                && Stamped(old(reservations), ReservationsToStamp(cal, now, old(reservations)), now, reservations)
                && log == old(log) + events
                && TriggerRows(events, RESERVATIONS, ReservationsToStamp(cal, now, old(reservations)))
    {
      var ids := ReservationsToArchive(cal, now, reservations, archivedReservations, agreements);
      if Clash(reservations, ids, archivedReservations) {
        return false, [];
      }
      archivedReservations := CopyRows(reservations, ids, now, archivedReservations);
      var logged;
      reservations, logged := StampRows(RESERVATIONS, reservations, ReservationsToStamp(cal, now, reservations), now);
      log := log + logged;
      events := logged;
      ok := true;
    }

    /** The procedure: `done` is false when a unique constraint rolled it back. */
    method RunArchiveJob(cal: Calendar, now: int) returns (done: bool, rowsArchived: nat)
      modifies this
      ensures done <==> !Aborts(cal, now, old(View()))
      ensures Night(cal, now, old(View()), View())
      ensures done ==> rowsArchived == |AgreementsToArchive(cal, now, old(View()))|
    {
      ghost var before := View();
      var savedAgreements, savedReservations := agreements, reservations;
      var savedRaArchive, savedResArchive, savedLog := archivedAgreements, archivedReservations, log;
      var legalHoldIds := Holds(log);
      done, rowsArchived := ArchiveAgreements(cal, now, legalHoldIds);
      ghost var copied, ra, res := archivedAgreements, [], [];
      if done {
        ra := SoftDeleteAgreements(cal, now);
        StampingKeepsSelection(cal, now, before.tables, agreements);
        done, res := ArchiveReservations(cal, now);
      }
      if !done {
        agreements, reservations := savedAgreements, savedReservations;
        archivedAgreements, archivedReservations, log := savedRaArchive, savedResArchive, savedLog;
        return;
      }
      archivedAgreements := archivedAgreements - ToPurge(cal, now, archivedAgreements, legalHoldIds);
      log := log + [JOB_ENTRY];
      assert FiveSteps(cal, now, before, copied, ra, res, View());
    }
  }

  lemma TriggerRowsSnoc(events: seq<LogEntry>, resourceType: string, ids: set<string>, id: string)
    requires TriggerRows(events, resourceType, ids) && id !in ids
    ensures TriggerRows(events + [LogEntry(UpdateEvent, resourceType, id, None)], resourceType, ids + {id})
  {
    var more := events + [LogEntry(UpdateEvent, resourceType, id, None)];
    assert forall e :: e in more <==> e in events || e == LogEntry(UpdateEvent, resourceType, id, None);
    assert forall i :: 0 <= i < |events| ==> events[i] in events && events[i].resourceId in ids;
  }

  lemma StampingKeepsOpenAgreement(cal: Calendar, now: int, before: map<string, Agreement>, after: map<string, Agreement>,
                                   r: string)
    requires Stamped(before, AgreementsToStamp(cal, now, before), now, after)
    ensures HasOpenAgreement(after, r) <==> HasOpenAgreement(before, r)
  {
    if HasOpenAgreement(before, r) {
      var id :| id in before && before[id].data.reservationId == r
                && before[id].data.status in {RaActive, RaExtended, RaDisputed};
      assert id in after && after[id].data.reservationId == r;
    }
  }

  /** Step 3 selects the same reservations before and after step 2. */
  lemma StampingKeepsSelection(cal: Calendar, now: int, t: Tables, after: map<string, Agreement>)
    requires Stamped(t.agreements, AgreementsToStamp(cal, now, t.agreements), now, after)
    ensures ReservationsToArchive(cal, now, t.reservations, t.archivedReservations, after) == NightlyReservations(cal, now, t)
  {
    forall r ensures HasOpenAgreement(after, r) <==> HasOpenAgreement(t.agreements, r) {
      StampingKeepsOpenAgreement(cal, now, t.agreements, after, r);
    }
  }

  // ---- One night ----

  /** Exactly which agreements have an archive row after a completed night. */
  lemma ArchiveMembershipAfterNight(cal: Calendar, now: int, db: Db, next: Db, id: string)
    requires Sane(cal) && Night(cal, now, db, next) && !Aborts(cal, now, db)
    ensures var held := id in Holds(db.log);
            var copies := db.tables.archivedAgreements;
            id in next.tables.archivedAgreements <==>
              if id in copies then held || !Expired(cal, now, copies[id].archivedAt)
              else !held && id in db.tables.agreements && Stale(cal, now, db.tables.agreements[id])
    ensures id in next.tables.archivedAgreements ==>
              next.tables.archivedAgreements[id] ==
              if id in db.tables.archivedAgreements then db.tables.archivedAgreements[id]
              else Archived(db.tables.agreements[id], now)
  {
    var copied, ra, res :| FiveSteps(cal, now, db, copied, ra, res, next);
  }

  // ---- A night in the words of the procedure ----

  /** The log has a legal-hold flag on the agreement. */
  predicate FlaggedHeld(log: seq<LogEntry>, id: string) {
    exists i :: 0 <= i < |log| && log[i].resourceType == "rental_agreements" && log[i].action == ConfigChange
                && log[i].flag == Some("LEGAL_HOLD") && log[i].resourceId == id
  }

  predicate ClosedOverAYear(cal: Calendar, now: int, a: Agreement) {
    match a.data.status
    case RaClosed => a.data.actualReturn != None && a.data.actualReturn.value < cal.yearBefore(now)
    case RaActive => false
    case RaExtended => false
    case RaReturned => false
    case RaDisputed => false
  }

  predicate EndedOverAYear(cal: Calendar, now: int, r: Reservation) {
    (match r.data.status
     case Closed => true
     case Cancelled => true
     case NoShow => true
     case _ => false) && r.data.updatedAt < cal.yearBefore(now)
  }

  predicate KeptOpenBy(a: Agreement, reservationId: string) {
    a.data.reservationId == reservationId &&
    match a.data.status
    case RaActive => true
    case RaExtended => true
    case RaDisputed => true
    case RaReturned => false
    case RaClosed => false
  }

  /** What a completed night does to one agreement and its copy. */
  ghost predicate AgreementNight(cal: Calendar, now: int, db: Db, next: Db, id: string) {
    var live, after := db.tables.agreements, next.tables.agreements;
    var copies, kept := db.tables.archivedAgreements, next.tables.archivedAgreements;
    var held := FlaggedHeld(db.log, id);
    var due := id in live && ClosedOverAYear(cal, now, live[id]);
    && (id in after <==> id in live)
    && (id in live ==> after[id] == if due && live[id].deletedAt == None then live[id].(deletedAt := Some(now)) else live[id])
    && (id in copies ==> (id !in kept <==> !held && copies[id].archivedAt < cal.sevenYearsBefore(now)))
    && (id !in copies ==> (id in kept <==> !held && due))
    && (id in kept ==> kept[id] == if id in copies then copies[id] else Archived(live[id], now))
  }

  /** What a completed night does to one reservation and its copy. */
  ghost predicate ReservationNight(cal: Calendar, now: int, db: Db, next: Db, id: string) {
    var live, after := db.tables.reservations, next.tables.reservations;
    var copies, kept := db.tables.archivedReservations, next.tables.archivedReservations;
    var due := id in live && EndedOverAYear(cal, now, live[id]);
    var open := exists ra :: ra in db.tables.agreements && KeptOpenBy(db.tables.agreements[ra], id);
    && (id in after <==> id in live)
    && (id in live ==> after[id] == if due && live[id].deletedAt == None then live[id].(deletedAt := Some(now)) else live[id])
    && (id in kept <==> id in copies || (due && !open))
    && (id in kept ==> kept[id] == if id in copies then copies[id] else Archived(live[id], now))
  }

  lemma HeldExactly(log: seq<LogEntry>, id: string)
    ensures id in Holds(log) <==> FlaggedHeld(log, id)
  {
    if FlaggedHeld(log, id) {
      var i :| 0 <= i < |log| && log[i].resourceType == "rental_agreements" && log[i].action == ConfigChange
               && log[i].flag == Some("LEGAL_HOLD") && log[i].resourceId == id;
      assert log[i] in log && PlacesHold(log[i]);
    }
  }

  /**
   A completed night, row by row: who is stamped, who is copied, which copy is purged and when, and that
   nothing else changes.
   */
  lemma NightRowByRow(cal: Calendar, now: int, db: Db, next: Db, id: string)
    requires Sane(cal) && Night(cal, now, db, next) && !Aborts(cal, now, db)
    ensures AgreementNight(cal, now, db, next, id)
    ensures ReservationNight(cal, now, db, next, id)
  {
    AgreementRow(cal, now, db, next, id);
    ReservationRow(cal, now, db, next, id);
  }

  lemma AgreementRow(cal: Calendar, now: int, db: Db, next: Db, id: string)
    requires Sane(cal) && Night(cal, now, db, next) && !Aborts(cal, now, db)
    ensures AgreementNight(cal, now, db, next, id)
  {
    HeldExactly(db.log, id);
    ArchiveMembershipAfterNight(cal, now, db, next, id);
    StampedAgreementRow(cal, now, db, next, id);
  }

  lemma StampedAgreementRow(cal: Calendar, now: int, db: Db, next: Db, id: string)
    requires Night(cal, now, db, next) && !Aborts(cal, now, db)
    ensures var live, after := db.tables.agreements, next.tables.agreements;
            && (id in after <==> id in live)
            && (id in live ==> after[id] == if Stale(cal, now, live[id]) && live[id].deletedAt == None
                                            then live[id].(deletedAt := Some(now)) else live[id])
  {
    var copied, ra, res :| FiveSteps(cal, now, db, copied, ra, res, next);
    assert id in db.tables.agreements <==> id in db.tables.agreements.Keys;
    assert id in next.tables.agreements <==> id in next.tables.agreements.Keys;
  }

  lemma ReservationRow(cal: Calendar, now: int, db: Db, next: Db, id: string)
    requires Night(cal, now, db, next) && !Aborts(cal, now, db)
    ensures ReservationNight(cal, now, db, next, id)
  {
    var copied, ra, res :| FiveSteps(cal, now, db, copied, ra, res, next);
    ReservationSteps(cal, now, db, next, id);
  }

  lemma ReservationSteps(cal: Calendar, now: int, db: Db, next: Db, id: string)
    requires var t, u := db.tables, next.tables;
             && Copied(t.reservations, NightlyReservations(cal, now, t), now, t.archivedReservations, u.archivedReservations)
             && Stamped(t.reservations, ReservationsToStamp(cal, now, t.reservations), now, u.reservations)
    ensures ReservationNight(cal, now, db, next, id)
  {
    OpenExactly(db.tables.agreements, id);
    CopiedRow(db.tables.reservations, NightlyReservations(cal, now, db.tables), now,
              db.tables.archivedReservations, next.tables.archivedReservations, id);
    StampedRow(db.tables.reservations, ReservationsToStamp(cal, now, db.tables.reservations), now,
               next.tables.reservations, id);
  }

  lemma CopiedRow<R>(live: map<string, R>, ids: set<string>, now: int, before: map<string, Archived<R>>,
                     after: map<string, Archived<R>>, id: string)
    requires ids <= live.Keys && ids !! before.Keys && Copied(live, ids, now, before, after)
    ensures id in after <==> id in before || id in ids
    ensures id in after ==> after[id] == if id in before then before[id] else Archived(live[id], now)
  {
    assert id in after <==> id in after.Keys;
  }

  lemma StampedRow<D>(before: map<string, Row<D>>, ids: set<string>, now: int, after: map<string, Row<D>>, id: string)
    requires Stamped(before, ids, now, after)
    ensures id in after <==> id in before
    ensures id in before ==> after[id] == if id in ids then before[id].(deletedAt := Some(now)) else before[id]
  {
    assert id in after <==> id in after.Keys;
  }

  /** The trigger's entry for an update of the row. */
  function RowUpdated(table: string, id: string): LogEntry {
    LogEntry(UpdateEvent, table, id, None)
  }

  /** The night's new log entries but the last. */
  function NewEntries(db: Db, next: Db): seq<LogEntry>
    requires |next.log| > |db.log|
  {
    next.log[|db.log|..|next.log| - 1]
  }

  /** One entry for each row that changed, and no other. */
  ghost predicate EntriesMatch(t: Tables, u: Tables, entries: seq<LogEntry>, id: string) {
    && (RowUpdated("rental_agreements", id) in entries <==>
          id in t.agreements && id in u.agreements && u.agreements[id] != t.agreements[id])
    && (RowUpdated("reservations", id) in entries <==>
          id in t.reservations && id in u.reservations && u.reservations[id] != t.reservations[id])
    && |entries| == |ChangedRows(t.agreements, u.agreements)| + |ChangedRows(t.reservations, u.reservations)|
  }

  lemma EntriesOfTriggers(t: Tables, u: Tables, ra: seq<LogEntry>, res: seq<LogEntry>, id: string)
    requires TriggerRows(ra, AGREEMENTS, ChangedRows(t.agreements, u.agreements))
    requires TriggerRows(res, RESERVATIONS, ChangedRows(t.reservations, u.reservations))
    ensures EntriesMatch(t, u, ra + res, id)
  {
    EntryPerRow(ra, AGREEMENTS, ChangedRows(t.agreements, u.agreements), id);
    EntryPerRow(res, RESERVATIONS, ChangedRows(t.reservations, u.reservations), id);
    assert forall e :: e in ra + res <==> e in ra || e in res;
  }

  lemma BetweenLogs(log: seq<LogEntry>, entries: seq<LogEntry>, more: seq<LogEntry>, last: LogEntry)
    requires more == log + entries + [last]
    ensures |more| > |log| && more[..|log|] == log && more[|more| - 1] == last
    ensures more[|log|..|more| - 1] == entries
  {
  }

  /**
   The log grows by one entry for each agreement and each reservation that the night changed, and by the job's own
   entry at the end.
   */
  lemma NightLogsItself(cal: Calendar, now: int, db: Db, next: Db, id: string)
    requires Night(cal, now, db, next) && !Aborts(cal, now, db)
    ensures |next.log| > |db.log| && next.log[..|db.log|] == db.log
    ensures next.log[|next.log| - 1] == LogEntry(ConfigChange, "archive_job", "nightly", None)
    ensures EntriesMatch(db.tables, next.tables, NewEntries(db, next), id)
  {
    NightLogsExactlyItsChanges(cal, now, db, next);
    var t, u := db.tables, next.tables;
    var ra, res :| next.log == db.log + ra + res + [JOB_ENTRY]
                   && TriggerRows(ra, AGREEMENTS, ChangedRows(t.agreements, u.agreements))
                   && TriggerRows(res, RESERVATIONS, ChangedRows(t.reservations, u.reservations));
    LogOfTriggers(db, next, ra, res, id);
  }

  lemma LogOfTriggers(db: Db, next: Db, ra: seq<LogEntry>, res: seq<LogEntry>, id: string)
    requires next.log == db.log + ra + res + [JOB_ENTRY]
    requires TriggerRows(ra, AGREEMENTS, ChangedRows(db.tables.agreements, next.tables.agreements))
    requires TriggerRows(res, RESERVATIONS, ChangedRows(db.tables.reservations, next.tables.reservations))
    ensures |next.log| > |db.log| && next.log[..|db.log|] == db.log && next.log[|next.log| - 1] == JOB_ENTRY
    ensures EntriesMatch(db.tables, next.tables, NewEntries(db, next), id)
  {
    assert db.log + ra + res == db.log + (ra + res);
    BetweenLogs(db.log, ra + res, next.log, JOB_ENTRY);
    EntriesOfTriggers(db.tables, next.tables, ra, res, id);
  }

  lemma EntryPerRow(events: seq<LogEntry>, table: string, ids: set<string>, id: string)
    requires TriggerRows(events, table, ids)
    ensures RowUpdated(table, id) in events <==> id in ids
    ensures |events| == |ids|
    ensures forall e :: e in events ==> e.resourceType == table
  {
    if id in ids {
      var e :| e in events && e.resourceId == id;
    }
    EntryCount(events);
  }

  lemma {:induction false} EntryCount(events: seq<LogEntry>)
    requires forall i, j :: 0 <= i < j < |events| ==> events[i].resourceId != events[j].resourceId
    ensures |set e | e in events :: e.resourceId| == |events|
  {
    if events != [] {
      var init, last := events[..|events| - 1], events[|events| - 1];
      EntryCount(init);
      assert events == init + [last];
      assert (set e | e in events :: e.resourceId) == (set e | e in init :: e.resourceId) + {last.resourceId};
      assert last.resourceId !in (set e | e in init :: e.resourceId);
    }
  }

  /** The job counts the rows that a night has newly in the archive. */
  lemma RowsArchivedExactly(cal: Calendar, now: int, db: Db, next: Db)
    requires Sane(cal) && Night(cal, now, db, next) && !Aborts(cal, now, db)
    ensures AgreementsToArchive(cal, now, db) == next.tables.archivedAgreements.Keys - db.tables.archivedAgreements.Keys
  {
    forall id ensures id in AgreementsToArchive(cal, now, db) <==>
                      id in next.tables.archivedAgreements.Keys - db.tables.archivedAgreements.Keys
    {
      ArchiveMembershipAfterNight(cal, now, db, next, id);
    }
  }

  ghost predicate UniqueNumbers<D>(rows: map<string, Archived<Row<D>>>) {
    forall i, j :: i in rows && j in rows && i != j ==> rows[i].row.number != rows[j].row.number
  }

  /** The copies clash exactly when the archive would no longer have unique numbers. */
  lemma ClashExactly<D>(live: map<string, Row<D>>, ids: set<string>, now: int,
                        before: map<string, Archived<Row<D>>>, after: map<string, Archived<Row<D>>>)
    requires ids <= live.Keys && ids !! before.Keys && UniqueNumbers(before) && Copied(live, ids, now, before, after)
    ensures Clash(live, ids, before) <==> !UniqueNumbers(after)
  {
    if Clash(live, ids, before) {
      if i, j :| i in ids && j in before && live[i].number == before[j].row.number {
        assert after[i].row.number == after[j].row.number && i != j;
      } else {
        var i, j :| i in ids && j in ids && i != j && live[i].number == live[j].number;
        assert after[i].row.number == after[j].row.number;
      }
    }
  }

  /**
   A night over archives with unique numbers is rolled back if and only if its copies would break that; so
   the archives' numbers stay unique on every night.
   */
  lemma RolledBackExactly(cal: Calendar, now: int, db: Db, next: Db,
                          agreements: map<string, Archived<Agreement>>, reservations: map<string, Archived<Reservation>>)
    requires Night(cal, now, db, next)
    requires UniqueNumbers(db.tables.archivedAgreements) && UniqueNumbers(db.tables.archivedReservations)
    requires Copied(db.tables.agreements, AgreementsToArchive(cal, now, db), now, db.tables.archivedAgreements, agreements)
    requires Copied(db.tables.reservations, NightlyReservations(cal, now, db.tables), now,
                    db.tables.archivedReservations, reservations)
    ensures next == db <==> !(UniqueNumbers(agreements) && UniqueNumbers(reservations))
    ensures UniqueNumbers(next.tables.archivedAgreements) && UniqueNumbers(next.tables.archivedReservations)
  {
    var t := db.tables;
    ClashExactly(t.agreements, AgreementsToArchive(cal, now, db), now, t.archivedAgreements, agreements);
    ClashExactly(t.reservations, NightlyReservations(cal, now, t), now, t.archivedReservations, reservations);
    AbortedNight(cal, now, db, next);
    if !Aborts(cal, now, db) {
      NumbersStayUnique(cal, now, db, next, agreements, reservations);
    }
  }

  lemma FewerStayUnique<D>(more: map<string, Archived<Row<D>>>, fewer: map<string, Archived<Row<D>>>)
    requires UniqueNumbers(more) && forall id :: id in fewer ==> id in more && fewer[id] == more[id]
    ensures UniqueNumbers(fewer)
  {
  }

  lemma NumbersStayUnique(cal: Calendar, now: int, db: Db, next: Db,
                          agreements: map<string, Archived<Agreement>>, reservations: map<string, Archived<Reservation>>)
    requires Night(cal, now, db, next) && !Aborts(cal, now, db)
    requires UniqueNumbers(agreements) && UniqueNumbers(reservations)
    requires Copied(db.tables.agreements, AgreementsToArchive(cal, now, db), now, db.tables.archivedAgreements, agreements)
    requires Copied(db.tables.reservations, NightlyReservations(cal, now, db.tables), now,
                    db.tables.archivedReservations, reservations)
    ensures UniqueNumbers(next.tables.archivedAgreements) && UniqueNumbers(next.tables.archivedReservations)
  {
    var copied, ra, res :| FiveSteps(cal, now, db, copied, ra, res, next);
    var u := next.tables;
    forall id | id in u.archivedAgreements ensures id in agreements && u.archivedAgreements[id] == agreements[id] {
      assert id in copied && (id in agreements.Keys <==> id in copied.Keys);
    }
    forall id | id in u.archivedReservations ensures id in reservations && u.archivedReservations[id] == reservations[id] {
      assert id in u.archivedReservations.Keys && id in reservations.Keys;
    }
    FewerStayUnique(agreements, u.archivedAgreements);
    FewerStayUnique(reservations, u.archivedReservations);
  }

  lemma OpenExactly(agreements: map<string, Agreement>, id: string)
    ensures HasOpenAgreement(agreements, id) <==> exists ra :: ra in agreements && KeptOpenBy(agreements[ra], id)
  {
    if ra :| ra in agreements && KeptOpenBy(agreements[ra], id) {
      assert agreements[ra].data.reservationId == id;
    }
    if HasOpenAgreement(agreements, id) {
      var ra :| ra in agreements && agreements[ra].data.reservationId == id
                && agreements[ra].data.status in {RaActive, RaExtended, RaDisputed};
      assert KeptOpenBy(agreements[ra], id);
    }
  }

  /** A night that does not complete changes nothing at all, and one that completes is never refused for want of work. */
  lemma AbortedNight(cal: Calendar, now: int, db: Db, next: Db)
    requires Night(cal, now, db, next)
    ensures Aborts(cal, now, db) <==> next == db
  {
    if !Aborts(cal, now, db) {
      var copied, ra, res :| FiveSteps(cal, now, db, copied, ra, res, next);
      assert |next.log| > |db.log|;
    }
  }

  ghost predicate AgreementKept(cal: Calendar, now: int, db: Db, next: Db, id: string) {
    id in next.tables.agreements && Stale(cal, now, next.tables.agreements[id]) ==>
      && next.tables.agreements[id].deletedAt.Some?
      && (|| id in next.tables.archivedAgreements
          || id in Holds(db.log)
          || (id in db.tables.archivedAgreements && Expired(cal, now, db.tables.archivedAgreements[id].archivedAt)))
  }

  ghost predicate ReservationKept(cal: Calendar, now: int, next: Db, id: string) {
    id in next.tables.reservations && Terminal(cal, now, next.tables.reservations[id]) ==>
      && next.tables.reservations[id].deletedAt.Some?
      && (id in next.tables.archivedReservations || HasOpenAgreement(next.tables.agreements, id))
  }

  /**
   What the job is for: every stale closed agreement is archived, held, or purged by this very night;
   every stale terminal reservation is archived unless an agreement of it is open; and all of them are
   soft-deleted.
   */
  ghost predicate Promise(cal: Calendar, now: int, db: Db, next: Db) {
    (forall id :: AgreementKept(cal, now, db, next, id)) && (forall id :: ReservationKept(cal, now, next, id))
  }

  lemma CompletedNightKeepsPromise(cal: Calendar, now: int, db: Db, next: Db)
    requires Sane(cal) && Night(cal, now, db, next) && !Aborts(cal, now, db)
    ensures Promise(cal, now, db, next)
  {
    var copied, ra, res :| FiveSteps(cal, now, db, copied, ra, res, next);
    forall id ensures AgreementKept(cal, now, db, next, id) {
      ArchiveMembershipAfterNight(cal, now, db, next, id);
    }
    forall id ensures ReservationKept(cal, now, next, id) {
      StampingKeepsOpenAgreement(cal, now, db.tables.agreements, next.tables.agreements, id);
    }
  }

  /** A night keeps the promise if and only if no unique constraint rolled it back. */
  lemma NightArchivesStaleRowsExactly(cal: Calendar, now: int, db: Db, next: Db)
    requires Sane(cal) && Night(cal, now, db, next)
    ensures Promise(cal, now, db, next) <==> !Aborts(cal, now, db)
  {
    var t := db.tables;
    if !Aborts(cal, now, db) {
      CompletedNightKeepsPromise(cal, now, db, next);
    } else if Clash(t.agreements, AgreementsToArchive(cal, now, db), t.archivedAgreements) {
      var id :| id in AgreementsToArchive(cal, now, db);
      assert !AgreementKept(cal, now, db, next, id);
    } else {
      var id :| id in NightlyReservations(cal, now, t);
      assert !ReservationKept(cal, now, next, id);
    }
  }

  /**
   A completed night changes nothing of a live row but its first `deleted_at`, and the trigger logs one
   event for each row that did change and for no other.
   */
  lemma NightLogsExactlyItsChanges(cal: Calendar, now: int, db: Db, next: Db)
    requires Night(cal, now, db, next) && !Aborts(cal, now, db)
    ensures next.tables.agreements.Keys == db.tables.agreements.Keys
    ensures next.tables.reservations.Keys == db.tables.reservations.Keys
    ensures forall id :: id in db.tables.agreements ==>
              var a, b := db.tables.agreements[id], next.tables.agreements[id];
              b == a || (a.deletedAt == None && b == a.(deletedAt := Some(now)))
    ensures forall id :: id in db.tables.reservations ==>
              var a, b := db.tables.reservations[id], next.tables.reservations[id];
              b == a || (a.deletedAt == None && b == a.(deletedAt := Some(now)))
    ensures exists ra, res ::
              && next.log == db.log + ra + res + [JOB_ENTRY]
              && TriggerRows(ra, AGREEMENTS, ChangedRows(db.tables.agreements, next.tables.agreements))
              && TriggerRows(res, RESERVATIONS, ChangedRows(db.tables.reservations, next.tables.reservations))
  {
    var t, u := db.tables, next.tables;
    var copied, ra, res :| FiveSteps(cal, now, db, copied, ra, res, next);
    assert ChangedRows(t.agreements, u.agreements) == AgreementsToStamp(cal, now, t.agreements);
    assert ChangedRows(t.reservations, u.reservations) == ReservationsToStamp(cal, now, t.reservations);
  }

  function ChangedRows<T(==)>(before: map<string, T>, after: map<string, T>): set<string> {
    set id | id in before && id in after && after[id] != before[id]
  }

  /**
   Step 2 is described as soft-deleting archived agreements, but it filters on neither the archive nor
   the holds. A row it stamps ends the night without an archive copy exactly when it was held and had
   none, or was not held and its copy expired.
   */
  lemma StampedWithoutCopyExactly(cal: Calendar, now: int, db: Db, next: Db, id: string)
    requires Sane(cal) && Night(cal, now, db, next) && !Aborts(cal, now, db)
    requires id in AgreementsToStamp(cal, now, db.tables.agreements)
    ensures var held := id in Holds(db.log);
            var copies := db.tables.archivedAgreements;
            id !in next.tables.archivedAgreements <==>
              (held && id !in copies) || (!held && id in copies && Expired(cal, now, copies[id].archivedAt))
  {
    ArchiveMembershipAfterNight(cal, now, db, next, id);
  }

  /** The failing case, concretely: a held closed agreement disappears from the live rows with no copy anywhere. */
  lemma HeldAgreementSoftDeletedUncopied(cal: Calendar, now: int, id: string, a: Agreement, db: Db, next: Db)
    requires Sane(cal) && Stale(cal, now, a) && a.deletedAt == None
    requires db == Db(Tables(map[id := a], map[], map[], map[]),
                      [LogEntry(ConfigChange, AGREEMENTS, id, Some("LEGAL_HOLD"))])
    requires Night(cal, now, db, next)
    ensures next.tables.agreements[id].deletedAt == Some(now) && id !in next.tables.archivedAgreements
  {
    assert db.log[0] in db.log && id in Holds(db.log);
    assert AgreementsToArchive(cal, now, db) == {} && NightlyReservations(cal, now, db.tables) == {};
    StampedWithoutCopyExactly(cal, now, db, next, id);
  }

  /**
   Step 3 has the same gap: it stamps every terminal reservation and copies only those without an open
   agreement. A reservation it stamps ends the night without a copy exactly when it had none and an
   agreement of it is open.
   */
  lemma ReservationStampedWithoutCopyExactly(cal: Calendar, now: int, db: Db, next: Db, id: string)
    requires Night(cal, now, db, next) && !Aborts(cal, now, db)
    requires id in ReservationsToStamp(cal, now, db.tables.reservations)
    ensures next.tables.reservations[id].deletedAt == Some(now)
    ensures id !in next.tables.archivedReservations <==>
              id !in db.tables.archivedReservations && HasOpenAgreement(db.tables.agreements, id)
  {
    var copied, ra, res :| FiveSteps(cal, now, db, copied, ra, res, next);
    assert id in next.tables.reservations;
  }

  /** The failing case, concretely: a closed reservation with a disputed agreement is soft-deleted with no copy. */
  lemma DisputedReservationSoftDeletedUncopied(cal: Calendar, now: int, id: string, ra: string, r: Reservation, a: Agreement,
                                               db: Db, next: Db)
    requires Terminal(cal, now, r) && r.deletedAt == None
    requires a.data.status == RaDisputed && a.data.reservationId == id
    requires db == Db(Tables(map[ra := a], map[id := r], map[], map[]), [])
    requires Night(cal, now, db, next)
    ensures next.tables.reservations[id].deletedAt == Some(now) && id !in next.tables.archivedReservations
  {
    assert ra in db.tables.agreements && HasOpenAgreement(db.tables.agreements, id);
    assert AgreementsToArchive(cal, now, db) == {} && NightlyReservations(cal, now, db.tables) == {};
    ReservationStampedWithoutCopyExactly(cal, now, db, next, id);
  }

  // ---- Many nights ----

  /** What other writers do between nights: anything to the live tables, appends to the log, nothing to the archive. */
  ghost predicate OthersWrite(db: Db, next: Db) {
    && next.tables.archivedAgreements == db.tables.archivedAgreements
    && next.tables.archivedReservations == db.tables.archivedReservations
    && |db.log| <= |next.log| && next.log[..|db.log|] == db.log
  }

  /**
   A purged copy was unheld and expired; it is made again by the next completed night if and only if its live
   row is then stale and still unheld. That is so when nobody has touched the row or held it, since a row
   stale on one night is stale on every later one.
   */
  lemma PurgedCopyReturnsExactly(cal: Calendar, first: int, second: int, id: string, db0: Db, db1: Db, db2: Db, db3: Db)
    requires Sane(cal) && Night(cal, first, db0, db1)
    requires id in db0.tables.archivedAgreements && id !in db1.tables.archivedAgreements
    requires OthersWrite(db1, db2) && Night(cal, second, db2, db3) && !Aborts(cal, second, db2)
    ensures id !in Holds(db0.log) && Expired(cal, first, db0.tables.archivedAgreements[id].archivedAt)
    ensures id in db3.tables.archivedAgreements <==>
              id in db2.tables.agreements && Stale(cal, second, db2.tables.agreements[id]) && id !in Holds(db2.log)
    ensures id in db3.tables.archivedAgreements ==>
              db3.tables.archivedAgreements[id] == Archived(db2.tables.agreements[id], second)
    ensures && cal.yearBefore(first) <= cal.yearBefore(second)
            && id in db0.tables.agreements && Stale(cal, first, db0.tables.agreements[id])
            && id in db2.tables.agreements && db2.tables.agreements[id].data == db0.tables.agreements[id].data
            && id !in Holds(db2.log)
            ==> id in db3.tables.archivedAgreements
  {
    ArchiveMembershipAfterNight(cal, first, db0, db1, id);
    ArchiveMembershipAfterNight(cal, second, db2, db3, id);
  }

  datatype Act = RunAt(now: int) | Others

  ghost predicate StepAt(cal: Calendar, states: seq<Db>, acts: seq<Act>, i: nat)
    requires i < |acts| && |states| == |acts| + 1
  {
    match acts[i]
    case RunAt(now) => Night(cal, now, states[i], states[i + 1])
    case Others => OthersWrite(states[i], states[i + 1])
  }

  /** Nights at any times, in any number, with any writes in between. */
  ghost predicate History(cal: Calendar, states: seq<Db>, acts: seq<Act>) {
    |states| == |acts| + 1 && forall i :: 0 <= i < |acts| ==> StepAt(cal, states, acts, i)
  }

  lemma HoldsOfPrefix(log: seq<LogEntry>, more: seq<LogEntry>)
    requires |log| <= |more| && more[..|log|] == log
    ensures Holds(log) <= Holds(more)
  {
    forall id | id in Holds(log) ensures id in Holds(more) {
      var e :| e in log && PlacesHold(e) && e.resourceId == id;
      var i :| 0 <= i < |log| && log[i] == e;
      assert more[..|log|][i] == more[i];
      assert e in more;
    }
  }

  /** Neither the job's own log row nor the trigger's rows can place or lift a hold. */
  lemma NightKeepsHolds(cal: Calendar, now: int, db: Db, next: Db)
    requires Night(cal, now, db, next)
    ensures |db.log| <= |next.log| && next.log[..|db.log|] == db.log
    ensures Holds(next.log) == Holds(db.log)
  {
    if !Aborts(cal, now, db) {
      var copied, ra, res :| FiveSteps(cal, now, db, copied, ra, res, next);
      assert next.log[..|db.log|] == db.log;
      forall e | e in next.log && PlacesHold(e) ensures e in db.log {
      }
      HoldsOfPrefix(db.log, next.log);
    }
  }

  lemma {:induction false} HoldsOnlyGrow(cal: Calendar, states: seq<Db>, acts: seq<Act>, i: nat, j: nat)
    requires History(cal, states, acts) && i <= j <= |acts|
    ensures Holds(states[i].log) <= Holds(states[j].log)
    decreases j - i
  {
    if i < j {
      HoldsOnlyGrow(cal, states, acts, i, j - 1);
      assert StepAt(cal, states, acts, j - 1);
      match acts[j - 1]
      case RunAt(now) => NightKeepsHolds(cal, now, states[j - 1], states[j]);
      case Others => HoldsOfPrefix(states[j - 1].log, states[j].log);
    }
  }

  /** The archived copy of a held agreement is never deleted and never changes, however many nights follow. */
  lemma {:induction false} HeldCopyKeptForever(cal: Calendar, states: seq<Db>, acts: seq<Act>, i: nat, j: nat, id: string)
    requires Sane(cal) && History(cal, states, acts) && i <= j <= |acts|
    requires id in Holds(states[i].log) && id in states[i].tables.archivedAgreements
    ensures id in states[j].tables.archivedAgreements
    ensures states[j].tables.archivedAgreements[id] == states[i].tables.archivedAgreements[id]
    decreases j - i
  {
    if i < j {
      HeldCopyKeptForever(cal, states, acts, i, j - 1, id);
      HoldsOnlyGrow(cal, states, acts, i, j - 1);
      assert StepAt(cal, states, acts, j - 1);
    }
  }

  /** Night `k` deleted the copy `c`: no hold was logged on it and it was more than seven years old. */
  ghost predicate PurgedAt(cal: Calendar, states: seq<Db>, acts: seq<Act>, k: nat, id: string, c: Archived<Agreement>)
    requires k < |acts| && |states| == |acts| + 1
  {
    && acts[k].RunAt? && c.archivedAt < cal.sevenYearsBefore(acts[k].now)
    && !FlaggedHeld(states[k].log, id)
    && id in states[k].tables.archivedAgreements && states[k].tables.archivedAgreements[id] == c
    && id !in states[k + 1].tables.archivedAgreements
  }

  /** A copy that is gone or replaced was purged on a night more than seven years after it was made, unheld. */
  lemma {:induction false} CopySurvivesSevenYears(cal: Calendar, states: seq<Db>, acts: seq<Act>, i: nat, j: nat, id: string)
    requires Sane(cal) && History(cal, states, acts) && i <= j <= |acts|
    requires id in states[i].tables.archivedAgreements
    ensures var c := states[i].tables.archivedAgreements[id];
            || (id in states[j].tables.archivedAgreements && states[j].tables.archivedAgreements[id] == c)
            || exists k :: i <= k < j && PurgedAt(cal, states, acts, k, id, c)
    decreases j - i
  {
    var c := states[i].tables.archivedAgreements[id];
    if i < j {
      CopySurvivesSevenYears(cal, states, acts, i, j - 1, id);
      if id in states[j - 1].tables.archivedAgreements && states[j - 1].tables.archivedAgreements[id] == c {
        assert StepAt(cal, states, acts, j - 1);
        if id !in states[j].tables.archivedAgreements {
          HeldExactly(states[j - 1].log, id);
          assert PurgedAt(cal, states, acts, j - 1, id, c);
        }
      } else {
        var k :| i <= k < j - 1 && PurgedAt(cal, states, acts, k, id, c);
      }
    }
  }

  /** Retention covers agreements only: a reservation's copy is never deleted and never changes. */
  lemma {:induction false} ReservationCopyKeptForever(
    cal: Calendar, states: seq<Db>, acts: seq<Act>, i: nat, j: nat, id: string)
    requires History(cal, states, acts) && i <= j <= |acts|
    requires id in states[i].tables.archivedReservations
    ensures id in states[j].tables.archivedReservations
    ensures states[j].tables.archivedReservations[id] == states[i].tables.archivedReservations[id]
    decreases j - i
  {
    if i < j {
      ReservationCopyKeptForever(cal, states, acts, i, j - 1, id);
      assert StepAt(cal, states, acts, j - 1);
    }
  }

  /** Night `k` made this copy, of the live row as it stood, stale and unheld, at that night's time. */
  ghost predicate CopiedAt(cal: Calendar, states: seq<Db>, acts: seq<Act>, k: nat, id: string, c: Archived<Agreement>)
    requires k < |acts| && |states| == |acts| + 1
  {
    && acts[k] == RunAt(c.archivedAt)
    && id in states[k].tables.agreements && states[k].tables.agreements[id] == c.row
    && Stale(cal, c.archivedAt, c.row) && id !in Holds(states[k].log)
  }

  /** Starting from an empty archive, every archive row is a true copy made on some earlier night. */
  lemma {:induction false} ArchiveRowsAreTrueCopies(cal: Calendar, states: seq<Db>, acts: seq<Act>, j: nat, id: string)
    requires History(cal, states, acts) && j <= |acts|
    requires states[0].tables.archivedAgreements == map[]
    requires id in states[j].tables.archivedAgreements
    ensures exists k :: 0 <= k < j && CopiedAt(cal, states, acts, k, id, states[j].tables.archivedAgreements[id])
  {
    assert j > 0 ==> StepAt(cal, states, acts, j - 1);
    var c := states[j].tables.archivedAgreements[id];
    if id in states[j - 1].tables.archivedAgreements {
      ArchiveRowsAreTrueCopies(cal, states, acts, j - 1, id);
      var k :| 0 <= k < j - 1 && CopiedAt(cal, states, acts, k, id, states[j - 1].tables.archivedAgreements[id]);
      assert CopiedAt(cal, states, acts, k, id, c);
    } else {
      assert CopiedAt(cal, states, acts, j - 1, id, c);
    }
  }

  /** The twin for reservations: night `k` copied the live row, terminal and with no open agreement. */
  ghost predicate ReservationCopiedAt(cal: Calendar, states: seq<Db>, acts: seq<Act>, k: nat, id: string,
                                      c: Archived<Reservation>)
    requires k < |acts| && |states| == |acts| + 1
  {
    && acts[k] == RunAt(c.archivedAt)
    && id in states[k].tables.reservations && states[k].tables.reservations[id] == c.row
    && Terminal(cal, c.archivedAt, c.row) && !HasOpenAgreement(states[k].tables.agreements, id)
  }

  lemma {:induction false} ReservationRowsAreTrueCopies(cal: Calendar, states: seq<Db>, acts: seq<Act>, j: nat, id: string)
    requires History(cal, states, acts) && j <= |acts|
    requires states[0].tables.archivedReservations == map[]
    requires id in states[j].tables.archivedReservations
    ensures exists k :: 0 <= k < j &&
                        ReservationCopiedAt(cal, states, acts, k, id, states[j].tables.archivedReservations[id])
  {
    assert j > 0 ==> StepAt(cal, states, acts, j - 1);
    var c := states[j].tables.archivedReservations[id];
    if id in states[j - 1].tables.archivedReservations {
      ReservationRowsAreTrueCopies(cal, states, acts, j - 1, id);
      var k :| 0 <= k < j - 1 &&
               ReservationCopiedAt(cal, states, acts, k, id, states[j - 1].tables.archivedReservations[id]);
      assert ReservationCopiedAt(cal, states, acts, k, id, c);
    } else {
      assert ReservationCopiedAt(cal, states, acts, j - 1, id, c);
    }
  }

  // ---- A reused number ----

  /** A stale, unheld, uncopied live agreement carries the number of another agreement's archive copy. */
  ghost predicate Blocked(cal: Calendar, now: int, db: Db, id: string, other: string) {
    && id in db.tables.agreements && Stale(cal, now, db.tables.agreements[id])
    && id !in db.tables.archivedAgreements && id !in Holds(db.log)
    && other in db.tables.archivedAgreements
    && db.tables.archivedAgreements[other].row.number == db.tables.agreements[id].number
  }

  lemma BlockedAborts(cal: Calendar, now: int, db: Db, id: string, other: string)
    requires Blocked(cal, now, db, id, other)
    ensures Aborts(cal, now, db)
  {
    assert id in AgreementsToArchive(cal, now, db);
  }

  /**
   The archive mirrors copy the live tables' unique constraints, so reusing an archived number stops
   the job altogether: until the live row changes or is put on hold, every night rolls back whole,
   and even expired copies stay.
   */
  lemma {:induction false} ReusedNumberStopsEveryNight(
    cal: Calendar, states: seq<Db>, acts: seq<Act>, i: nat, j: nat, id: string, other: string)
    requires History(cal, states, acts) && i <= j <= |acts|
    requires forall k :: i <= k < j && acts[k].RunAt? ==> Blocked(cal, acts[k].now, states[k], id, other)
    ensures states[j].tables.archivedAgreements == states[i].tables.archivedAgreements
    ensures states[j].tables.archivedReservations == states[i].tables.archivedReservations
    ensures forall k :: i <= k < j && acts[k].RunAt? ==> Aborts(cal, acts[k].now, states[k])
    decreases j - i
  {
    if i < j {
      ReusedNumberStopsEveryNight(cal, states, acts, i, j - 1, id, other);
      assert StepAt(cal, states, acts, j - 1);
      if acts[j - 1].RunAt? {
        assert Blocked(cal, acts[j - 1].now, states[j - 1], id, other);
        BlockedAborts(cal, acts[j - 1].now, states[j - 1], id, other);
      }
    }
  }

  /** The table before the first night, after it, and after the agreement is deleted and its number reused. */
  function ReusedNumberStates(first: int, a: Agreement): seq<Db> {
    var archived := map["A" := Archived(a, first)];
    var stamped := map["A" := a.(deletedAt := Some(first))];
    var log := [LogEntry(UpdateEvent, AGREEMENTS, "A", None), JOB_ENTRY];
    var reuse := [LogEntry(DeleteEvent, AGREEMENTS, "A", None), LogEntry(InsertEvent, AGREEMENTS, "B", None)];
    [Db(Tables(map["A" := a], map[], map[], map[]), []),
     Db(Tables(stamped, map[], archived, map[]), log),
     Db(Tables(map["B" := a], map[], archived, map[]), log + reuse)]
  }

  /** It does come to that, from an empty archive: archive an agreement, delete its live row, reuse its number. */
  lemma ReusedNumberReached(cal: Calendar, first: int, second: int, a: Agreement)
    requires Sane(cal) && Stale(cal, first, a) && Stale(cal, second, a) && a.deletedAt == None
    ensures var states := ReusedNumberStates(first, a);
            && History(cal, states, [RunAt(first), Others])
            && Blocked(cal, second, states[2], "B", "A") && Aborts(cal, second, states[2])
  {
    var states := ReusedNumberStates(first, a);
    FirstNight(cal, first, a);
    assert StepAt(cal, states, [RunAt(first), Others], 0);
    assert StepAt(cal, states, [RunAt(first), Others], 1);
    forall e | e in states[2].log ensures !PlacesHold(e) {
    }
    BlockedAborts(cal, second, states[2], "B", "A");
  }

  lemma FirstSelections(cal: Calendar, now: int, a: Agreement)
    requires Sane(cal) && Stale(cal, now, a) && a.deletedAt == None
    ensures var states := ReusedNumberStates(now, a);
            var db, t, copied := states[0], states[0].tables, states[1].tables.archivedAgreements;
            && Holds(db.log) == {}
            && AgreementsToArchive(cal, now, db) == {"A"} && AgreementsToStamp(cal, now, t.agreements) == {"A"}
            && NightlyReservations(cal, now, t) == {} && ReservationsToStamp(cal, now, t.reservations) == {}
            && copied - ToPurge(cal, now, copied, {}) == copied
  {
    var copied := ReusedNumberStates(now, a)[1].tables.archivedAgreements;
    assert ToPurge(cal, now, copied, {}) == {};
  }

  lemma FirstNight(cal: Calendar, now: int, a: Agreement)
    requires Sane(cal) && Stale(cal, now, a) && a.deletedAt == None
    ensures var states := ReusedNumberStates(now, a); Night(cal, now, states[0], states[1])
  {
    var states := ReusedNumberStates(now, a);
    var db, next := states[0], states[1];
    var t := db.tables;
    FirstSelections(cal, now, a);
    var ra := [LogEntry(UpdateEvent, AGREEMENTS, "A", None)];
    assert ra[0] in ra && TriggerRows(ra, AGREEMENTS, {"A"});
    assert next.log == db.log + ra + [] + [JOB_ENTRY];
    var copied := next.tables.archivedAgreements;
    assert FiveSteps(cal, now, db, copied, ra, [], next);
  }

  // ---- A purge and the night after ----

  /** From an empty archive: a night that copies, one seven years on that purges, one that copies again. */
  function PurgeStates(made: int, again: int, a: Agreement): seq<Db> {
    var start, copied := ReusedNumberStates(made, a)[0], ReusedNumberStates(made, a)[1];
    var live := copied.tables.agreements;
    [start, copied,
     Db(Tables(live, map[], map[], map[]), copied.log + [JOB_ENTRY]),
     Db(Tables(live, map[], map["A" := Archived(live["A"], again)], map[]), copied.log + [JOB_ENTRY] + [JOB_ENTRY])]
  }

  lemma PurgeReached(cal: Calendar, made: int, purged: int, again: int, a: Agreement)
    requires Sane(cal) && a.deletedAt == None
    requires Stale(cal, made, a) && Stale(cal, purged, a) && Stale(cal, again, a) && Expired(cal, purged, made)
    ensures var states := PurgeStates(made, again, a);
            && History(cal, states, [RunAt(made), RunAt(purged), RunAt(again)])
            && PurgedAt(cal, states, [RunAt(made), RunAt(purged), RunAt(again)], 1, "A", Archived(a, made))
            && "A" in states[3].tables.archivedAgreements
  {
    var states := PurgeStates(made, again, a);
    PurgeHistory(cal, made, purged, again, a);
    forall i | 0 <= i < |states[1].log| ensures !PlacesHold(states[1].log[i]) {
    }
    HeldExactly(states[1].log, "A");
  }

  lemma PurgeHistory(cal: Calendar, made: int, purged: int, again: int, a: Agreement)
    requires Sane(cal) && a.deletedAt == None
    requires Stale(cal, made, a) && Stale(cal, purged, a) && Stale(cal, again, a) && Expired(cal, purged, made)
    ensures History(cal, PurgeStates(made, again, a), [RunAt(made), RunAt(purged), RunAt(again)])
  {
    var states := PurgeStates(made, again, a);
    FirstNight(cal, made, a);
    PurgeNights(cal, made, purged, again, a);
    ThreeNights(cal, states[0], states[1], states[2], states[3], made, purged, again);
    assert states == [states[0], states[1], states[2], states[3]];
  }

  lemma ThreeNights(cal: Calendar, s0: Db, s1: Db, s2: Db, s3: Db, t0: int, t1: int, t2: int)
    requires Night(cal, t0, s0, s1) && Night(cal, t1, s1, s2) && Night(cal, t2, s2, s3)
    ensures History(cal, [s0, s1, s2, s3], [RunAt(t0), RunAt(t1), RunAt(t2)])
  {
    var states, acts := [s0, s1, s2, s3], [RunAt(t0), RunAt(t1), RunAt(t2)];
    forall i | 0 <= i < |acts| ensures StepAt(cal, states, acts, i) {
      assert i == 0 || i == 1 || i == 2;
    }
  }

  lemma PurgeNights(cal: Calendar, made: int, purged: int, again: int, a: Agreement)
    requires Sane(cal) && a.deletedAt == None
    requires Stale(cal, made, a) && Stale(cal, purged, a) && Stale(cal, again, a) && Expired(cal, purged, made)
    ensures var states := PurgeStates(made, again, a);
            Night(cal, purged, states[1], states[2]) && Night(cal, again, states[2], states[3])
            && Holds(states[1].log) == {}
  {
    var states := PurgeStates(made, again, a);
    var b := a.(deletedAt := Some(made));
    assert forall e :: e in states[1].log ==> !PlacesHold(e);
    assert forall e :: e in states[2].log ==> !PlacesHold(e);
    QuietNight(cal, purged, b, map["A" := Archived(a, made)], map[], states[1].log);
    QuietNight(cal, again, b, map[], map["A" := Archived(b, again)], states[2].log);
  }

  /** A night over one stale stamped agreement: it purges an expired copy, or makes a missing one. */
  lemma QuietNight(cal: Calendar, now: int, b: Agreement, before: map<string, Archived<Agreement>>,
                   after: map<string, Archived<Agreement>>, log: seq<LogEntry>)
    requires Sane(cal) && Stale(cal, now, b) && b.deletedAt.Some?
    requires forall e :: e in log ==> !PlacesHold(e)
    requires || (before.Keys == {"A"} && Expired(cal, now, before["A"].archivedAt) && after == map[])
             || (before == map[] && after == map["A" := Archived(b, now)])
    ensures Night(cal, now, Db(Tables(map["A" := b], map[], before, map[]), log),
                  Db(Tables(map["A" := b], map[], after, map[]), log + [JOB_ENTRY]))
  {
    var db := Db(Tables(map["A" := b], map[], before, map[]), log);
    var next := Db(Tables(map["A" := b], map[], after, map[]), log + [JOB_ENTRY]);
    assert Holds(log) == {};
    assert AgreementsToArchive(cal, now, db) == {"A"} - before.Keys;
    assert AgreementsToStamp(cal, now, db.tables.agreements) == {};
    assert NightlyReservations(cal, now, db.tables) == {};
    assert ReservationsToStamp(cal, now, db.tables.reservations) == {};
    var copied := if before == map[] then after else before;
    assert ToPurge(cal, now, copied, {}) == if before == map[] then {} else {"A"};
    assert copied - ToPurge(cal, now, copied, {}) == after;
    assert TriggerRows([], AGREEMENTS, {}) && TriggerRows([], RESERVATIONS, {});
    assert log + [] + [] + [JOB_ENTRY] == next.log;
    assert FiveSteps(cal, now, db, copied, [], [], next);
  }
}
