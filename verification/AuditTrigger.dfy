/**
 The audit trigger on one table: every row inserted, updated or deleted appends one event holding
 the old row, the new row and the fields that changed. Other writers append their own events to the
 same append-only log.
 */
module AuditTrigger {
  import opened Wrappers

  /** JSON values are only compared here, so everything but null is carried as text. */
  datatype Json = JsonNull | JsonText(text: string)

  type Row = map<string, Json>

  datatype Schema = Schema(name: string, pk: string, columns: set<string>)

  datatype Action = InsertAction | UpdateAction | DeleteAction | OtherAction

  datatype AuditEvent = AuditEvent(
    action: Action,
    resourceType: string,
    resourceId: string,
    oldData: Option<Row>,
    newData: Option<Row>,
    changed: Option<set<string>>)

  datatype Db = Db(rows: map<string, Row>, log: seq<AuditEvent>)

  /** A statement on the table, or an event that some other writer logs. */
  datatype Change =
    | InsertRow(row: Row)
    | UpdateRow(key: string, row: Row)
    | DeleteRow(key: string)
    | LogOther(event: AuditEvent)

  /** The text of the primary-key field, or 'unknown' when it is null. */
  function KeyOf(schema: Schema, row: Row): string {
    if schema.pk in row && row[schema.pk].JsonText? then row[schema.pk].text else "unknown"
  }

  /** The table accepts a row that has exactly its columns and a primary key. */
  predicate Acceptable(schema: Schema, row: Row) {
    row.Keys == schema.columns && schema.pk in row && row[schema.pk].JsonText?
  }

  /** Not one of this table's trigger events. */
  predicate Foreign(schema: Schema, e: AuditEvent) {
    e.resourceType != schema.name || e.action == OtherAction
  }

  /** The fields of the new row that are distinct from the old row's. */
  function Differing(old_: Row, new_: Row): set<string> {
    set k | k in new_ && (k !in old_ || old_[k] != new_[k])
  }

  /** What the trigger logs for one row change. Aggregating no fields yields NULL, not an empty array. */
  function TriggerEvent(schema: Schema, oldRow: Option<Row>, newRow: Option<Row>): AuditEvent {
    match (oldRow, newRow)
    case (None, Some(n)) =>
      AuditEvent(InsertAction, schema.name, KeyOf(schema, n), None, Some(n), Some(n.Keys))
    case (Some(o), Some(n)) =>
      AuditEvent(UpdateAction, schema.name, KeyOf(schema, n), Some(o), Some(n),
                 if Differing(o, n) == {} then None else Some(Differing(o, n)))
    case (Some(o), None) =>
      AuditEvent(DeleteAction, schema.name, KeyOf(schema, o), Some(o), None, None)
    case (None, None) =>
      AuditEvent(OtherAction, schema.name, "unknown", None, None, None)
  }

  /** A statement that breaks a constraint fails as a whole; one that matches no row fires no trigger. */
  function Apply(schema: Schema, db: Db, c: Change): Db {
    match c
    case InsertRow(row) =>
      var key := KeyOf(schema, row);
      if Acceptable(schema, row) && key !in db.rows then
        Db(db.rows[key := row], db.log + [TriggerEvent(schema, None, Some(row))])
      else db
    case UpdateRow(key, row) =>
      var newKey := KeyOf(schema, row);
      if key in db.rows && Acceptable(schema, row) && (newKey == key || newKey !in db.rows) then
        Db((db.rows - {key})[newKey := row], db.log + [TriggerEvent(schema, Some(db.rows[key]), Some(row))])
      else db
    case DeleteRow(key) =>
      if key in db.rows then
        Db(db.rows - {key}, db.log + [TriggerEvent(schema, Some(db.rows[key]), None)])
      else db
    case LogOther(event) =>
      if Foreign(schema, event) then Db(db.rows, db.log + [event]) else db
  }

  function ApplyAll(schema: Schema, cs: seq<Change>): Db {
    if cs == [] then Db(map[], [])
    else Apply(schema, ApplyAll(schema, cs[..|cs| - 1]), cs[|cs| - 1])
  }

  /** The table with its trigger installed. */
  class AuditedTable {
    const schema: Schema
    var rows: map<string, Row>
    var log: seq<AuditEvent>

    ghost function View(): Db
      reads this
    {
      Db(rows, log)
    }

    constructor (schema: Schema)
      ensures View() == Db(map[], []) && this.schema == schema
    {
      this.schema := schema;
      rows, log := map[], [];
    }

    /** The trigger function: which rows it sees depends on the operation. */
    method LogChanges(op: Action, oldRow: Option<Row>, newRow: Option<Row>)
      requires op != OtherAction
      requires oldRow.Some? <==> op != InsertAction
      requires newRow.Some? <==> op != DeleteAction
      modifies this`log
      ensures log == old(log) + [TriggerEvent(schema, oldRow, newRow)]
    {
      var oldData: Option<Row>;
      var newData: Option<Row>;
      var changed: Option<set<string>>;
      var resourceId;
      if op == InsertAction {
        newData := newRow;
        oldData := None;
        changed := Some(newRow.value.Keys);
      } else if op == UpdateAction {
        oldData := oldRow;
        newData := newRow;
        var fields := set k | k in newRow.value && (k !in oldRow.value || oldRow.value[k] != newRow.value[k]);
        changed := if fields == {} then None else Some(fields);
      } else {
        oldData := oldRow;
        newData := None;
        changed := None;
      }
      resourceId := KeyOf(schema, if newRow.Some? then newRow.value else oldRow.value);
      log := log + [AuditEvent(op, schema.name, resourceId, oldData, newData, changed)];
    }

    method Insert(row: Row) returns (ok: bool)
      modifies this
      ensures View() == Apply(schema, old(View()), InsertRow(row))
      ensures ok <==> Acceptable(schema, row) && KeyOf(schema, row) !in old(rows)
    {
      var key := KeyOf(schema, row);
      ok := Acceptable(schema, row) && key !in rows;
      if ok {
        rows := rows[key := row];
        LogChanges(InsertAction, None, Some(row));
      }
    }

    method Update(key: string, row: Row) returns (ok: bool)
      modifies this
      ensures View() == Apply(schema, old(View()), UpdateRow(key, row))
      ensures ok <==> key !in old(rows) ||
                      (Acceptable(schema, row) && (KeyOf(schema, row) == key || KeyOf(schema, row) !in old(rows)))
    {
      if key !in rows {
        return true;
      }
      var newKey := KeyOf(schema, row);
      ok := Acceptable(schema, row) && (newKey == key || newKey !in rows);
      if ok {
        var before := rows[key];
        rows := (rows - {key})[newKey := row];
        LogChanges(UpdateAction, Some(before), Some(row));
      }
    }

    method Delete(key: string)
      modifies this
      ensures View() == Apply(schema, old(View()), DeleteRow(key))
    {
      if key in rows {
        var before := rows[key];
        rows := rows - {key};
        LogChanges(DeleteAction, Some(before), None);
      }
    }
  }

  // ---- What one statement does, in any reachable table ----

  /** The row's primary key is not null and reads `key`. */
  predicate HasKey(schema: Schema, row: Row, key: string) {
    schema.pk in row && row[schema.pk] == JsonText(key)
  }

  /** A row with exactly the table's columns is inserted when its key is free, and logged whole with all of its fields. */
  lemma InsertionLogged(schema: Schema, cs: seq<Change>, row: Row, key: string)
    requires row.Keys == schema.columns && HasKey(schema, row, key)
    ensures var db, next := ApplyAll(schema, cs), ApplyAll(schema, cs + [InsertRow(row)]);
            if key in db.rows then next == db
            else next == Db(db.rows[key := row],
                            db.log + [AuditEvent(InsertAction, schema.name, key, None, Some(row), Some(schema.columns))])
  {
    ApplyAllSnoc(schema, cs, InsertRow(row));
  }

  /** Only a row with exactly the table's columns and a key is inserted. */
  lemma InsertionRefused(schema: Schema, cs: seq<Change>, row: Row)
    requires row.Keys != schema.columns || forall key :: !HasKey(schema, row, key)
    ensures ApplyAll(schema, cs + [InsertRow(row)]) == ApplyAll(schema, cs)
  {
    ApplyAllSnoc(schema, cs, InsertRow(row));
    if schema.pk in row && row[schema.pk].JsonText? {
      assert HasKey(schema, row, row[schema.pk].text);
    }
  }

  /**
   An update replaces the row, under its new key if that is its own or free, and logs the old row, the new one and
   the list of fields that differ, which is NULL when none does.
   */
  lemma UpdateLogged(schema: Schema, cs: seq<Change>, old_: string, row: Row, key: string)
    requires old_ in ApplyAll(schema, cs).rows
    requires row.Keys == schema.columns && HasKey(schema, row, key)
    ensures var db, next := ApplyAll(schema, cs), ApplyAll(schema, cs + [UpdateRow(old_, row)]);
            if key != old_ && key in db.rows then next == db
            else
              && next.rows == (db.rows - {old_})[key := row]
              && |next.log| == |db.log| + 1 && next.log[..|db.log|] == db.log
              && var e := next.log[|db.log|];
                 && e.action == UpdateAction && e.resourceType == schema.name && e.resourceId == key
                 && e.oldData == Some(db.rows[old_]) && e.newData == Some(row)
                 && (e.changed == None <==> row == db.rows[old_])
                 && (e.changed.Some? ==>
                       forall k :: k in e.changed.value <==> k in schema.columns && (k !in db.rows[old_] || row[k] != db.rows[old_][k]))
  {
    ApplyAllSnoc(schema, cs, UpdateRow(old_, row));
    ReplayRebuildsTable(schema, cs);
    var db, next := ApplyAll(schema, cs), ApplyAll(schema, cs + [UpdateRow(old_, row)]);
    if key == old_ || key !in db.rows {
      var e := next.log[|db.log|];
      assert e == TriggerEvent(schema, Some(db.rows[old_]), Some(row));
      SameRowExactly(db.rows[old_], row);
    }
  }

  lemma SameRowExactly(o: Row, n: Row)
    requires o.Keys == n.Keys
    ensures o == n <==> Differing(o, n) == {}
  {
    if Differing(o, n) == {} {
      forall k | k in n ensures o[k] == n[k] {
        assert k !in Differing(o, n);
      }
    }
  }

  /** A deletion logs the old row under its key, with no new row and no changed fields; deleting nothing logs nothing. */
  lemma DeletionLogged(schema: Schema, cs: seq<Change>, key: string)
    ensures var db, next := ApplyAll(schema, cs), ApplyAll(schema, cs + [DeleteRow(key)]);
            if key !in db.rows then next == db
            else next == Db(db.rows - {key},
                            db.log + [AuditEvent(DeleteAction, schema.name, key, Some(db.rows[key]), None, None)])
  {
    ApplyAllSnoc(schema, cs, DeleteRow(key));
    ReplayRebuildsTable(schema, cs);
  }

  /** Events of other tables, and of other writers, share the log and leave the table alone. */
  lemma OtherEventLogged(schema: Schema, cs: seq<Change>, e: AuditEvent)
    requires e.resourceType != schema.name || e.action == OtherAction
    ensures ApplyAll(schema, cs + [LogOther(e)]) == Db(ApplyAll(schema, cs).rows, ApplyAll(schema, cs).log + [e])
  {
    ApplyAllSnoc(schema, cs, LogOther(e));
  }

  lemma ApplyAllSnoc(schema: Schema, cs: seq<Change>, c: Change)
    ensures ApplyAll(schema, cs + [c]) == Apply(schema, ApplyAll(schema, cs), c)
  {
    assert (cs + [c])[..|cs + [c]| - 1] == cs;
  }

  // ---- Replay ----

  function ReplayOne(schema: Schema, m: map<string, Row>, e: AuditEvent): map<string, Row> {
    if Foreign(schema, e) then m
    else
      var without := if e.oldData.Some? then m - {KeyOf(schema, e.oldData.value)} else m;
      if e.newData.Some? then without[KeyOf(schema, e.newData.value) := e.newData.value] else without
  }

  /** The table an auditor rebuilds from the log alone. */
  function Replay(schema: Schema, log: seq<AuditEvent>): map<string, Row> {
    if log == [] then map[]
    else ReplayOne(schema, Replay(schema, log[..|log| - 1]), log[|log| - 1])
  }

  lemma ReplaySnoc(schema: Schema, log: seq<AuditEvent>, e: AuditEvent)
    ensures Replay(schema, log + [e]) == ReplayOne(schema, Replay(schema, log), e)
  {
    assert (log + [e])[..|log + [e]| - 1] == log;
  }

  /**
   The event fits the table it met: it is what the trigger logs for its two rows, its old row is the
   row stored under its key, and its new row's key is free or is its old row's key.
   */
  ghost predicate Fits(schema: Schema, m: map<string, Row>, e: AuditEvent) {
    Foreign(schema, e) || (
      && e == TriggerEvent(schema, e.oldData, e.newData)
      && (e.oldData.Some? ==>
            Acceptable(schema, e.oldData.value)
            && KeyOf(schema, e.oldData.value) in m && m[KeyOf(schema, e.oldData.value)] == e.oldData.value)
      && (e.newData.Some? ==>
            && Acceptable(schema, e.newData.value)
            && (KeyOf(schema, e.newData.value) !in m
                || (e.oldData.Some? && KeyOf(schema, e.newData.value) == KeyOf(schema, e.oldData.value)))))
  }

  ghost predicate FitsAt(schema: Schema, log: seq<AuditEvent>, i: nat)
    requires i < |log|
  {
    Fits(schema, Replay(schema, log[..i]), log[i])
  }

  ghost predicate FaithfulLog(schema: Schema, log: seq<AuditEvent>) {
    forall i :: 0 <= i < |log| ==> FitsAt(schema, log, i)
  }

  ghost predicate WellKeyed(schema: Schema, rows: map<string, Row>) {
    forall k :: k in rows ==> Acceptable(schema, rows[k]) && KeyOf(schema, rows[k]) == k
  }

  lemma FaithfulSnoc(schema: Schema, log: seq<AuditEvent>, e: AuditEvent)
    requires FaithfulLog(schema, log) && Fits(schema, Replay(schema, log), e)
    ensures FaithfulLog(schema, log + [e])
  {
    forall i | 0 <= i < |log + [e]| ensures FitsAt(schema, log + [e], i) {
      assert (log + [e])[..i] == if i < |log| then log[..i] else log;
      assert i < |log| ==> FitsAt(schema, log, i);
    }
  }

  lemma ApplyKeepsReplay(schema: Schema, db: Db, c: Change)
    requires Replay(schema, db.log) == db.rows && WellKeyed(schema, db.rows) && FaithfulLog(schema, db.log)
    ensures var next := Apply(schema, db, c);
            Replay(schema, next.log) == next.rows && WellKeyed(schema, next.rows) && FaithfulLog(schema, next.log)
  {
    var next := Apply(schema, db, c);
    if next != db {
      var e := next.log[|next.log| - 1];
      assert next.log == db.log + [e];
      assert c.UpdateRow? || c.DeleteRow? ==> KeyOf(schema, db.rows[c.key]) == c.key;
      ReplaySnoc(schema, db.log, e);
      FaithfulSnoc(schema, db.log, e);
    }
  }

  /** For every sequence of statements the log rebuilds the table, and every logged event fits the table it met. */
  lemma {:induction false} ReplayRebuildsTable(schema: Schema, cs: seq<Change>)
    ensures var db := ApplyAll(schema, cs);
            && Replay(schema, db.log) == db.rows
            && WellKeyed(schema, db.rows) && FaithfulLog(schema, db.log)
  {
    if cs != [] {
      ReplayRebuildsTable(schema, cs[..|cs| - 1]);
      ApplyKeepsReplay(schema, ApplyAll(schema, cs[..|cs| - 1]), cs[|cs| - 1]);
    }
  }

  lemma ApplyAppends(schema: Schema, db: Db, c: Change)
    ensures var next := Apply(schema, db, c);
            |db.log| <= |next.log| <= |db.log| + 1 && next.log[..|db.log|] == db.log
  {
  }

  /** The log only grows, by at most one event a statement, and its prefixes rebuild the earlier tables. */
  lemma {:induction false} ReplayRebuildsThePast(schema: Schema, cs: seq<Change>, j: nat)
    requires j <= |cs|
    ensures var past, now := ApplyAll(schema, cs[..j]), ApplyAll(schema, cs);
            && |past.log| <= |now.log| <= |past.log| + |cs| - j
            && now.log[..|past.log|] == past.log
            && Replay(schema, now.log[..|past.log|]) == past.rows
    decreases |cs| - j
  {
    ReplayRebuildsTable(schema, cs[..j]);
    if j == |cs| {
      assert cs[..j] == cs;
    } else {
      ReplayRebuildsThePast(schema, cs, j + 1);
      assert cs[..j + 1][..|cs[..j + 1]| - 1] == cs[..j];
      var past, next := ApplyAll(schema, cs[..j]), ApplyAll(schema, cs[..j + 1]);
      ApplyAppends(schema, past, cs[j]);
      assert ApplyAll(schema, cs).log[..|next.log|][..|past.log|] == ApplyAll(schema, cs).log[..|past.log|];
    }
  }

  // ---- The chain of one row's events ----

  predicate Touches(schema: Schema, e: AuditEvent, key: string) {
    !Foreign(schema, e) && (
      || (e.oldData.Some? && KeyOf(schema, e.oldData.value) == key)
      || (e.newData.Some? && KeyOf(schema, e.newData.value) == key))
  }

  /** Event `j` wrote `row` under `key`, and no event of the log after it touches that key. */
  ghost predicate LastWrite(schema: Schema, log: seq<AuditEvent>, key: string, row: Row, j: nat) {
    && j < |log| && !Foreign(schema, log[j])
    && log[j].newData == Some(row) && KeyOf(schema, row) == key
    && forall i :: j < i < |log| ==> !Touches(schema, log[i], key)
  }

  lemma {:induction false} StoredRowHasLastWrite(schema: Schema, log: seq<AuditEvent>, key: string)
    requires key in Replay(schema, log)
    ensures exists j: nat :: LastWrite(schema, log, key, Replay(schema, log)[key], j)
  {
    var init, e := log[..|log| - 1], log[|log| - 1];
    if Touches(schema, e, key) {
      assert LastWrite(schema, log, key, Replay(schema, log)[key], |log| - 1);
    } else {
      StoredRowHasLastWrite(schema, init, key);
      var j: nat :| LastWrite(schema, init, key, Replay(schema, init)[key], j);
      assert LastWrite(schema, log, key, Replay(schema, log)[key], j);
    }
  }

  /** An event with an old row follows the event that wrote exactly that row; an insertion follows no live row. */
  lemma OldDataIsPreviousNewData(schema: Schema, cs: seq<Change>, i: nat)
    requires i < |ApplyAll(schema, cs).log| && !Foreign(schema, ApplyAll(schema, cs).log[i])
    ensures var log := ApplyAll(schema, cs).log;
            match log[i].oldData
            case Some(o) => exists j: nat :: LastWrite(schema, log[..i], KeyOf(schema, o), o, j)
            case None => log[i].newData.Some? && KeyOf(schema, log[i].newData.value) !in Replay(schema, log[..i])
  {
    ReplayRebuildsTable(schema, cs);
    var log := ApplyAll(schema, cs).log;
    assert FitsAt(schema, log, i);
    if log[i].oldData.Some? {
      StoredRowHasLastWrite(schema, log[..i], KeyOf(schema, log[i].oldData.value));
    }
  }

  // ---- Rebuilding from the changed fields alone ----

  /** The changed fields with their new values: all that an update needs to store. */
  function Delta(e: AuditEvent): Row {
    if e.changed.Some? && e.newData.Some? then
      e.newData.value - (e.newData.value.Keys - e.changed.value)
    else map[]
  }

  /** The changed fields are exactly those whose value differs, NULL when none does, and patching the old row with them gives the new row. */
  lemma ChangedFieldsPatch(schema: Schema, m: map<string, Row>, e: AuditEvent)
    requires !Foreign(schema, e) && Fits(schema, m, e) && e.oldData.Some? && e.newData.Some?
    ensures e.oldData.value + Delta(e) == e.newData.value
    ensures e.changed == None <==> e.oldData == e.newData
    ensures e.changed.Some? ==>
              forall k :: k in e.changed.value <==> k in schema.columns && e.oldData.value[k] != e.newData.value[k]
  {
    var o, n := e.oldData.value, e.newData.value;
    assert o.Keys == n.Keys;
    if e.changed == None {
      assert Differing(o, n) == {};
      forall k | k in n ensures o[k] == n[k] {
        assert k !in Differing(o, n);
      }
      assert o == n;
    }
  }

  /** Replay that reads an insertion's row and afterwards only the changed fields. */
  function DeltaReplay(schema: Schema, log: seq<AuditEvent>): map<string, Row> {
    if log == [] then map[]
    else
      var m, e := DeltaReplay(schema, log[..|log| - 1]), log[|log| - 1];
      if Foreign(schema, e) then m
      else match e.action
        case InsertAction => m[e.resourceId := Delta(e)]
        case UpdateAction =>
          if e.oldData.Some? && KeyOf(schema, e.oldData.value) in m then
            var key := KeyOf(schema, e.oldData.value);
            (m - {key})[e.resourceId := m[key] + Delta(e)]
          else m
        case DeleteAction => m - {e.resourceId}
        case OtherAction => m
  }

  lemma {:induction false} DeltasRebuildTable(schema: Schema, log: seq<AuditEvent>)
    requires FaithfulLog(schema, log)
    ensures DeltaReplay(schema, log) == Replay(schema, log)
  {
    if log != [] {
      var init, e := log[..|log| - 1], log[|log| - 1];
      FaithfulPrefix(schema, log, |log| - 1);
      DeltasRebuildTable(schema, init);
      assert FitsAt(schema, log, |log| - 1);
      var m := Replay(schema, init);
      if !Foreign(schema, e) && e.newData.Some? {
        if e.oldData.Some? {
          ChangedFieldsPatch(schema, m, e);
        } else {
          assert Delta(e) == e.newData.value;
        }
      }
    }
  }

  lemma FaithfulPrefix(schema: Schema, log: seq<AuditEvent>, n: nat)
    requires n <= |log| && FaithfulLog(schema, log)
    ensures FaithfulLog(schema, log[..n])
  {
    forall i | 0 <= i < n ensures FitsAt(schema, log[..n], i) {
      assert FitsAt(schema, log, i) && log[..n][..i] == log[..i];
    }
  }

  // ---- Grouping by resource id ----

  /** The rows an auditor gets by keeping, per resource id, the last event's new row. */
  function LatestById(schema: Schema, log: seq<AuditEvent>): map<string, Row> {
    if log == [] then map[]
    else
      var m, e := LatestById(schema, log[..|log| - 1]), log[|log| - 1];
      if Foreign(schema, e) then m
      else if e.newData.Some? then m[e.resourceId := e.newData.value]
      else m - {e.resourceId}
  }

  predicate ChangesKey(schema: Schema, e: AuditEvent) {
    && !Foreign(schema, e) && e.oldData.Some? && e.newData.Some?
    && KeyOf(schema, e.oldData.value) != KeyOf(schema, e.newData.value)
  }

  ghost predicate AgreeAt(schema: Schema, log: seq<AuditEvent>, n: nat)
    requires n <= |log|
  {
    LatestById(schema, log[..n]) == Replay(schema, log[..n])
  }

  lemma LatestStep(schema: Schema, log: seq<AuditEvent>, n: nat)
    requires n < |log| && FitsAt(schema, log, n) && AgreeAt(schema, log, n)
    ensures AgreeAt(schema, log, n + 1) <==> !ChangesKey(schema, log[n])
  {
    var e, m := log[n], Replay(schema, log[..n]);
    assert log[..n + 1][..|log[..n + 1]| - 1] == log[..n];
    if ChangesKey(schema, e) {
      var key := KeyOf(schema, e.oldData.value);
      assert key in LatestById(schema, log[..n + 1]) && key !in Replay(schema, log[..n + 1]);
    } else if !Foreign(schema, e) {
      assert LatestById(schema, log[..n + 1]) == Replay(schema, log[..n + 1]);
    }
  }

  lemma {:induction false} AgreeUpTo(schema: Schema, log: seq<AuditEvent>, n: nat)
    requires n <= |log| && FaithfulLog(schema, log)
    requires forall i :: 0 <= i < n ==> !ChangesKey(schema, log[i])
    ensures AgreeAt(schema, log, n)
  {
    if n > 0 {
      AgreeUpTo(schema, log, n - 1);
      assert FitsAt(schema, log, n - 1);
      LatestStep(schema, log, n - 1);
    }
  }

  /**
   An update that changes the primary key is logged under the new id only, so grouping by resource id
   rebuilds every earlier table exactly when no logged update changed a key.
   */
  lemma LatestByIdExactlyWithoutKeyChanges(schema: Schema, cs: seq<Change>)
    ensures var log := ApplyAll(schema, cs).log;
            (forall n :: 0 <= n <= |log| ==> AgreeAt(schema, log, n))
            <==> (forall i :: 0 <= i < |log| ==> !ChangesKey(schema, log[i]))
  {
    ReplayRebuildsTable(schema, cs);
    var log := ApplyAll(schema, cs).log;
    if forall i :: 0 <= i < |log| ==> !ChangesKey(schema, log[i]) {
      forall n | 0 <= n <= |log| ensures AgreeAt(schema, log, n) {
        AgreeUpTo(schema, log, n);
      }
    } else {
      var i :| 0 <= i < |log| && ChangesKey(schema, log[i]);
      if forall n :: 0 <= n <= |log| ==> AgreeAt(schema, log, n) {
        assert AgreeAt(schema, log, i) && AgreeAt(schema, log, i + 1) && FitsAt(schema, log, i);
        LatestStep(schema, log, i);
      }
    }
  }

  /** The failing case, concretely: after one key change the vanished key still has a row. */
  lemma KeyChangeLeavesGhostRow(schema: Schema, a: Row, b: Row)
    requires Acceptable(schema, a) && Acceptable(schema, b) && KeyOf(schema, a) != KeyOf(schema, b)
    ensures var db := Apply(schema, Apply(schema, Db(map[], []), InsertRow(a)), UpdateRow(KeyOf(schema, a), b));
            KeyOf(schema, a) in LatestById(schema, db.log) && KeyOf(schema, a) !in Replay(schema, db.log)
  {
    var e, f := TriggerEvent(schema, None, Some(a)), TriggerEvent(schema, Some(a), Some(b));
    assert [e][..0] == [];
    assert Replay(schema, [e]) == map[KeyOf(schema, a) := a] == LatestById(schema, [e]);
    assert ([e] + [f])[..1] == [e];
    ReplaySnoc(schema, [e], f);
    var db := Apply(schema, Apply(schema, Db(map[], []), InsertRow(a)), UpdateRow(KeyOf(schema, a), b));
    assert db.log == [e] + [f];
  }
}
