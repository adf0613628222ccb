/** Alert status and its log, over every run of creates, upserts, single, bulk and by-service updates. */
module AlertSafety {
  import opened Common
  import opened AlertStore

  datatype Action =
    | CreateAlert(service: ServiceID, key: string, status: Status)
    | UpsertAlert(service: ServiceID, key: string, status: Status, recent: bool)
    | UpdateOne(id: AlertID, status: Status, multiAck: bool)
    | UpdateListed(scan: seq<AlertID>, listed: seq<AlertID>, status: Status, org: Option<set<AlertID>>, human: bool,
                   multiAckIDs: set<AlertID>)
    | UpdateService(scan: seq<AlertID>, service: ServiceID, status: Status)

  /** One committed transaction; an error rolls back. */
  ghost function Step(db: DB, a: Action): DB {
    match a
    case CreateAlert(service, key, status) =>
      (match Create(db, service, key, status) case Ok(db') => db' case Err(_) => db)
    case UpsertAlert(service, key, status, recent) => Upsert(db, service, key, status, recent).0
    case UpdateOne(id, status, multiAck) =>
      (match UpdateStatus(db, id, status, multiAck) case Ok(db') => db' case Err(_) => db)
    case UpdateListed(scan, listed, status, org, human, multiAckIDs) =>
      if !ScanOf(scan, db) then db
      else (match UpdateMany(db, scan, listed, status, org, human, multiAckIDs) case Ok(r) => r.0 case Err(_) => db)
    case UpdateService(scan, service, status) =>
      if !ScanOf(scan, db) then db
      else (match UpdateByService(db, scan, service, status) case Ok(db') => db' case Err(_) => db)
  }

  ghost function RunFrom(db: DB, actions: seq<Action>): DB
    decreases |actions|
  {
    if actions == [] then db else RunFrom(Step(db, actions[0]), actions[1..])
  }

  ghost function Run(actions: seq<Action>): DB {
    RunFrom(Empty(), actions)
  }

  /** How often an event is logged for an alert. */
  function Logged(logs: seq<LogEntry>, id: AlertID, event: Event): nat {
    multiset(logs)[LogEntry(id, event)]
  }

  function OnceIf(b: bool): nat {
    if b then 1 else 0
  }

  ghost predicate AlertInv(db: DB, id: AlertID)
    requires id in db.alerts
  {
    && id < db.nextID
    && (db.alerts[id].status == Closed <==> db.alerts[id].dedup.None?)
  }

  ghost predicate UniqueKeys(db: DB) {
    forall a, b :: a in db.alerts && b in db.alerts && a != b && db.alerts[a].dedup.Some? ==>
      !(db.alerts[a].service == db.alerts[b].service && db.alerts[a].dedup == db.alerts[b].dedup)
  }

  ghost predicate LogInv(db: DB, id: AlertID) {
    && Logged(db.logs, id, ClosedEvent) == OnceIf(id in db.alerts && db.alerts[id].status == Closed)
    && Logged(db.logs, id, CreatedEvent) == OnceIf(id in db.alerts)
  }

  ghost predicate Inv(db: DB) {
    && (forall id :: id in db.alerts ==> AlertInv(db, id))
    && UniqueKeys(db)
    && (forall id :: LogInv(db, id))
  }

  // ---- Counting log entries ----

  lemma LogOne(logs: seq<LogEntry>, x: LogEntry, id: AlertID, event: Event)
    ensures Logged(logs + [x], id, event) == Logged(logs, id, event) + OnceIf(x == LogEntry(id, event))
  {
  }

  lemma {:induction false} LogManyCount(logs: seq<LogEntry>, ids: seq<AlertID>, event: Event, id: AlertID, other: Event)
    ensures Logged(LogMany(logs, ids, event), id, other)
         == Logged(logs, id, other) + if event == other then multiset(ids)[id] else 0
  {
    if ids == [] {
      assert LogMany(logs, ids, event) == logs;
    } else {
      var init, last := ids[..|ids| - 1], ids[|ids| - 1];
      LogManyCount(logs, init, event, id, other);
      assert LogMany(logs, ids, event) == LogMany(logs, init, event) + [LogEntry(last, event)];
      LogOne(LogMany(logs, init, event), LogEntry(last, event), id, other);
      assert ids == init + [last];
    }
  }

  /** A scan visits each of the rows once. */
  lemma {:induction false} WhereCount(scan: seq<AlertID>, rows: set<AlertID>, id: AlertID)
    requires forall i, j :: 0 <= i < j < |scan| ==> scan[i] != scan[j]
    ensures multiset(Where(scan, rows))[id] == OnceIf(id in scan && id in rows)
  {
    if scan != [] {
      var init, last := scan[..|scan| - 1], scan[|scan| - 1];
      WhereCount(init, rows, id);
      assert scan == init + [last] && last !in init;
    }
  }

  // ---- Single rows ----

  lemma InsertKeepsInv(db: DB, service: ServiceID, key: string, status: Status)
    requires Inv(db) && status != Closed && !KeyTaken(db, service, key)
    ensures Inv(Insert(db, service, key, status))
  {
    var db' := Insert(db, service, key, status);
    assert db.nextID !in db.alerts;
    forall id
      ensures LogInv(db', id)
    {
      assert LogInv(db, id);
      LogOne(db.logs, LogEntry(db.nextID, CreatedEvent), id, ClosedEvent);
      LogOne(db.logs, LogEntry(db.nextID, CreatedEvent), id, CreatedEvent);
    }
    forall a, b | a in db'.alerts && b in db'.alerts && a != b && db'.alerts[a].dedup.Some?
      ensures !(db'.alerts[a].service == db'.alerts[b].service && db'.alerts[a].dedup == db'.alerts[b].dedup)
    {
      assert a in db.alerts ==> !HasKey(db.alerts[a], service, key);
      assert b in db.alerts ==> !HasKey(db.alerts[b], service, key);
    }
  }

  /** An open alert gets a status, and an event is logged exactly when it is closed (or for another reason). */
  lemma SetAndLogKeepsInv(db: DB, id: AlertID, status: Status, event: Event)
    requires Inv(db) && id in db.alerts && db.alerts[id].status != Closed
    requires event != CreatedEvent && (event == ClosedEvent <==> status == Closed)
    ensures Inv(LogTx(SetStatus(db, id, status), id, event))
    ensures status != Closed ==> Inv(SetStatus(db, id, status)) && Inv(LogTx(db, id, event))
  {
    var updated, logged := SetStatus(db, id, status), LogTx(SetStatus(db, id, status), id, event);
    forall x
      ensures LogInv(logged, x) && (status != Closed ==> LogInv(updated, x) && LogInv(LogTx(db, id, event), x))
    {
      assert LogInv(db, x);
      LogOne(db.logs, LogEntry(id, event), x, ClosedEvent);
      LogOne(db.logs, LogEntry(id, event), x, CreatedEvent);
    }
    forall x | x in db.alerts
      ensures AlertInv(logged, x) && AlertInv(updated, x)
    {
      assert AlertInv(db, x);
    }
  }

  /** With unique keys, the row an upsert finds is the row. */
  lemma KeyIsUnique(db: DB, service: ServiceID, key: string, a: AlertID, b: AlertID)
    requires UniqueKeys(db) && a in db.alerts && b in db.alerts
    requires HasKey(db.alerts[a], service, key) && HasKey(db.alerts[b], service, key)
    ensures a == b
  {
  }

  // ---- Many rows ----

  /** Advancing rows never touches a closed alert, so closing is all it changes about closed logs and keys. */
  lemma AdvanceKeepsInv(db: DB, rows: set<AlertID>, ids: seq<AlertID>, status: Status)
    requires Inv(db) && status != Triggered && rows <= db.alerts.Keys
    requires forall id :: id in rows ==> db.alerts[id].status != Closed
    requires status == Closed ==> forall id :: multiset(ids)[id] == OnceIf(id in rows)
    ensures Inv(DB(AdvanceRows(db.alerts, rows, status), LogMany(db.logs, ids, EventFor(status)), db.nextID))
  {
    var db' := DB(AdvanceRows(db.alerts, rows, status), LogMany(db.logs, ids, EventFor(status)), db.nextID);
    forall id
      ensures LogInv(db', id)
    {
      assert LogInv(db, id);
      LogManyCount(db.logs, ids, EventFor(status), id, ClosedEvent);
      LogManyCount(db.logs, ids, EventFor(status), id, CreatedEvent);
    }
    forall id | id in db'.alerts
      ensures AlertInv(db', id)
    {
      assert AlertInv(db, id);
    }
  }

  lemma ListedRowsOnce(db: DB, scan: seq<AlertID>, rows: set<AlertID>)
    requires ScanOf(scan, db) && rows <= db.alerts.Keys
    ensures forall id :: multiset(Where(scan, rows))[id] == OnceIf(id in rows)
  {
    forall id ensures multiset(Where(scan, rows))[id] == OnceIf(id in rows) {
      WhereCount(scan, rows, id);
    }
  }

  lemma UpdateManyKeepsInv(db: DB, a: Action)
    requires Inv(db) && a.UpdateListed?
    ensures Inv(Step(db, a))
  {
    if ScanOf(a.scan, db) && 0 < |a.listed| <= MAX_BATCH && a.status != Triggered {
      var rows := Advancing(db, InOrganization(a.listed, a.org), a.status);
      ListedRowsOnce(db, a.scan, rows);
      var logged := UpdateMany(db, a.scan, a.listed, a.status, a.org, a.human, a.multiAckIDs).value.1;
      assert a.status == Closed ==> logged == Where(a.scan, rows);
      AdvanceKeepsInv(db, rows, logged, a.status);
    }
  }

  /** The log statement of the by-service update picks exactly the rows its later UPDATE changes. */
  lemma ServiceLogsWhatItUpdates(db: DB, service: ServiceID, status: Status)
    requires status != Triggered
    ensures ServiceLogged(db, service, status) == ServiceAdvancing(db, service, status)
  {
  }

  lemma UpdateByServiceKeepsInv(db: DB, a: Action)
    requires Inv(db) && a.UpdateService?
    ensures Inv(Step(db, a))
  {
    if ScanOf(a.scan, db) && a.status != Triggered {
      ServiceLogsWhatItUpdates(db, a.service, a.status);
      var rows := ServiceAdvancing(db, a.service, a.status);
      ListedRowsOnce(db, a.scan, rows);
      AdvanceKeepsInv(db, rows, Where(a.scan, rows), a.status);
    }
  }

  lemma UpsertKeepsInv(db: DB, a: Action)
    requires Inv(db) && a.UpsertAlert?
    ensures Inv(Step(db, a))
  {
    if !KeyTaken(db, a.service, a.key) {
      InsertKeepsInv(db, a.service, a.key, Triggered);
    } else {
      var id := AlertWithKey(db, a.service, a.key);
      assert AlertInv(db, id);
      match a.status
      case Triggered => SetAndLogKeepsInv(db, id, Triggered, DuplicateSuppressed);
      case Active => SetAndLogKeepsInv(db, id, Active, Acknowledged);
      case Closed => SetAndLogKeepsInv(db, id, Closed, ClosedEvent);
    }
  }

  lemma UpdateOneKeepsInv(db: DB, a: Action)
    requires Inv(db) && a.UpdateOne?
    ensures Inv(Step(db, a))
  {
    if a.id in db.alerts && db.alerts[a.id].status != Closed {
      SetAndLogKeepsInv(db, a.id, a.status, EventFor(a.status));
    }
  }

  lemma StepKeepsInv(db: DB, a: Action)
    requires Inv(db)
    ensures Inv(Step(db, a))
  {
    match a
    case CreateAlert(service, key, status) =>
      if Create(db, service, key, status).Ok? {
        InsertKeepsInv(db, service, key, status);
      }
    case UpsertAlert(_, _, _, _) => UpsertKeepsInv(db, a);
    case UpdateOne(_, _, _) => UpdateOneKeepsInv(db, a);
    case UpdateListed(_, _, _, _, _, _) => UpdateManyKeepsInv(db, a);
    case UpdateService(_, _, _) => UpdateByServiceKeepsInv(db, a);
  }

  lemma {:induction false} RunFromKeepsInv(db: DB, actions: seq<Action>)
    requires Inv(db)
    ensures Inv(RunFrom(db, actions))
    decreases |actions|
  {
    if actions != [] {
      StepKeepsInv(db, actions[0]);
      RunFromKeepsInv(Step(db, actions[0]), actions[1..]);
    }
  }

  // ---- What every run guarantees ----

  /** In every run an alert has exactly one closed entry if it is closed, none otherwise, and one created entry. */
  lemma ClosedLoggedExactlyOnce(actions: seq<Action>, id: AlertID)
    ensures var db := Run(actions);
            && Logged(db.logs, id, ClosedEvent) == OnceIf(id in db.alerts && db.alerts[id].status == Closed)
            && Logged(db.logs, id, CreatedEvent) == OnceIf(id in db.alerts)
  {
    RunFromKeepsInv(Empty(), actions);
    assert LogInv(Run(actions), id);
  }

  /** At most one open alert per service and dedup key. */
  lemma OpenKeysAreUnique(actions: seq<Action>, a: AlertID, b: AlertID)
    requires var db := Run(actions);
             a in db.alerts && b in db.alerts && db.alerts[a].status != Closed && db.alerts[b].status != Closed
             && db.alerts[a].service == db.alerts[b].service && db.alerts[a].dedup == db.alerts[b].dedup
    ensures a == b
  {
    RunFromKeepsInv(Empty(), actions);
    assert AlertInv(Run(actions), a);
  }

  lemma UpsertNeverReopens(db: DB, a: Action, id: AlertID)
    requires Inv(db) && id in db.alerts && a.UpsertAlert?
    ensures id in Step(db, a).alerts && Step(db, a).alerts[id].service == db.alerts[id].service
    ensures db.alerts[id].status == Closed ==> Step(db, a).alerts[id] == db.alerts[id]
    ensures db.logs <= Step(db, a).logs
  {
    assert AlertInv(db, id);
    if KeyTaken(db, a.service, a.key) {
      assert AlertInv(db, AlertWithKey(db, a.service, a.key));
    }
  }

  lemma StepNeverReopens(db: DB, a: Action, id: AlertID)
    requires Inv(db) && id in db.alerts
    ensures id in Step(db, a).alerts && Step(db, a).alerts[id].service == db.alerts[id].service
    ensures db.alerts[id].status == Closed ==> Step(db, a).alerts[id] == db.alerts[id]
    ensures db.logs <= Step(db, a).logs
  {
    match a
    case UpsertAlert(_, _, _, _) => UpsertNeverReopens(db, a, id);
    case _ => assert AlertInv(db, id);
  }

  /** After any run, and whatever follows: a closed alert never changes, alerts never disappear, the log only grows. */
  lemma ClosedForever(before: seq<Action>, after: seq<Action>, id: AlertID)
    requires id in Run(before).alerts
    ensures var db, db' := Run(before), RunFrom(Run(before), after);
            id in db'.alerts && db.logs <= db'.logs && (db.alerts[id].status == Closed ==> db'.alerts[id] == db.alerts[id])
  {
    RunFromKeepsInv(Empty(), before);
    ClosedStays(Run(before), after, id);
  }

  lemma {:induction false} ClosedStays(db: DB, after: seq<Action>, id: AlertID)
    requires Inv(db) && id in db.alerts
    ensures var db' := RunFrom(db, after);
            id in db'.alerts && db.logs <= db'.logs && (db.alerts[id].status == Closed ==> db'.alerts[id] == db.alerts[id])
    decreases |after|
  {
    if after != [] {
      StepNeverReopens(db, after[0], id);
      StepKeepsInv(db, after[0]);
      ClosedStays(Step(db, after[0]), after[1..], id);
    }
  }

  /**
   A bulk update reports and logs each alert at most once: those it advanced, and with the human rule those that
   were already active on a multi-ack step.
   */
  lemma BulkUpdateLogsEachOnce(db: DB, scan: seq<AlertID>, listed: seq<AlertID>, status: Status,
                               org: Option<set<AlertID>>, human: bool, multiAck: set<AlertID>, id: AlertID)
    requires ScanOf(scan, db) && |listed| <= MAX_BATCH && status != Triggered
    ensures var r := UpdateMany(db, scan, listed, status, org, human, multiAck).value;
            var logged := id in Advancing(db, InOrganization(listed, org), status)
                          || (status == Active && org.Some? && human && id in AckingAgain(db, InOrganization(listed, org), multiAck));
            && multiset(r.1)[id] == OnceIf(logged)
            && Logged(r.0.logs, id, EventFor(status)) == Logged(db.logs, id, EventFor(status)) + OnceIf(logged)
  {
    var r := UpdateMany(db, scan, listed, status, org, human, multiAck).value;
    ListedRowsOnce(db, scan, Advancing(db, InOrganization(listed, org), status));
    ListedRowsOnce(db, scan, AckingAgain(db, InOrganization(listed, org), multiAck));
    LogManyCount(db.logs, r.1, EventFor(status), id, EventFor(status));
    assert listed == [] ==> InOrganization(listed, org) == {};
  }

  /**
   The upsert, after any run: it reports nothing exactly when there is no open alert to acknowledge or close, creates
   one exactly when there is none to suppress, and leaves every other alert alone.
   */
  lemma UpsertTouchesTheOpenAlert(actions: seq<Action>, service: ServiceID, key: string, status: Status, recent: bool)
    ensures var db := Run(actions);
            var (db', found, inserted) := Upsert(db, service, key, status, recent);
            var open := set id | id in db.alerts && db.alerts[id].status != Closed && HasKey(db.alerts[id], service, key);
            && (found.None? <==> open == {} && status != Triggered)
            && (inserted <==> open == {} && status == Triggered)
            && (found.Some? && !inserted ==> open == {found.value})
            && (inserted ==> found.value !in db.alerts)
            && (found.Some? ==> found.value in db'.alerts
                                && Rank(db'.alerts[found.value].status) >= Rank(status)
                                && (status != Triggered ==> db'.alerts[found.value].status == status))
            && (forall id :: id in db.alerts && Some(id) != found ==> id in db'.alerts && db'.alerts[id] == db.alerts[id])
  {
    var db := Run(actions);
    RunFromKeepsInv(Empty(), actions);
    forall id | id in db.alerts
      ensures id < db.nextID && (HasKey(db.alerts[id], service, key) ==> db.alerts[id].status != Closed)
    {
      assert AlertInv(db, id);
    }
    var open := set id | id in db.alerts && db.alerts[id].status != Closed && HasKey(db.alerts[id], service, key);
    if KeyTaken(db, service, key) {
      var id := AlertWithKey(db, service, key);
      forall other | other in db.alerts && HasKey(db.alerts[other], service, key)
        ensures other == id
      {
        KeyIsUnique(db, service, key, other, id);
      }
      assert open == {id};
    } else {
      assert open == {};
      assert db.nextID !in db.alerts;
    }
  }

  lemma ServiceUpdateLogsEachOnce(db: DB, scan: seq<AlertID>, service: ServiceID, status: Status, id: AlertID)
    requires ScanOf(scan, db) && status != Triggered
    ensures Logged(UpdateByService(db, scan, service, status).value.logs, id, EventFor(status))
         == Logged(db.logs, id, EventFor(status)) + OnceIf(id in ServiceAdvancing(db, service, status))
  {
    ServiceLogsWhatItUpdates(db, service, status);
    var rows := ServiceAdvancing(db, service, status);
    ListedRowsOnce(db, scan, rows);
    LogManyCount(db.logs, Where(scan, rows), EventFor(status), id, EventFor(status));
  }

  /** If the alert is acknowledged or closed between db and db', exactly one entry says so. */
  ghost predicate ChangeIsLogged(db: DB, db': DB, id: AlertID)
    requires id in db.alerts && id in db'.alerts
  {
    var status := db'.alerts[id].status;
    status != db.alerts[id].status && status != Triggered ==>
      Logged(db'.logs, id, EventFor(status)) == Logged(db.logs, id, EventFor(status)) + 1
  }

  lemma SetAndLogIsLogged(db: DB, target: AlertID, status: Status, id: AlertID)
    requires target in db.alerts && id in db.alerts
    ensures ChangeIsLogged(db, LogTx(SetStatus(db, target, status), target, EventFor(status)), id)
  {
    LogOne(db.logs, LogEntry(target, EventFor(status)), id, EventFor(status));
  }

  lemma UpsertIsLogged(db: DB, a: Action, id: AlertID)
    requires Inv(db) && id in db.alerts && a.UpsertAlert? && id in Step(db, a).alerts
    ensures ChangeIsLogged(db, Step(db, a), id)
  {
    assert AlertInv(db, id);
    if KeyTaken(db, a.service, a.key) && a.status != Triggered {
      SetAndLogIsLogged(db, AlertWithKey(db, a.service, a.key), a.status, id);
    }
  }

  lemma UpdateOneIsLogged(db: DB, a: Action, id: AlertID)
    requires Inv(db) && id in db.alerts && a.UpdateOne? && id in Step(db, a).alerts
    ensures ChangeIsLogged(db, Step(db, a), id)
  {
    if a.id in db.alerts && a.status != Triggered {
      SetAndLogIsLogged(db, a.id, a.status, id);
    }
  }

  lemma UpdateListedIsLogged(db: DB, a: Action, id: AlertID)
    requires Inv(db) && id in db.alerts && a.UpdateListed? && id in Step(db, a).alerts
    ensures ChangeIsLogged(db, Step(db, a), id)
  {
    if ScanOf(a.scan, db) && 0 < |a.listed| <= MAX_BATCH && a.status != Triggered {
      BulkUpdateLogsEachOnce(db, a.scan, a.listed, a.status, a.org, a.human, a.multiAckIDs, id);
    }
  }

  lemma UpdateServiceIsLogged(db: DB, a: Action, id: AlertID)
    requires Inv(db) && id in db.alerts && a.UpdateService? && id in Step(db, a).alerts
    ensures ChangeIsLogged(db, Step(db, a), id)
  {
    if ScanOf(a.scan, db) && a.status != Triggered {
      ServiceUpdateLogsEachOnce(db, a.scan, a.service, a.status, id);
    }
  }

  /** After any run, whatever acknowledges or closes an alert writes exactly one entry for it, and the right one. */
  lemma StatusChangesAreLogged(before: seq<Action>, a: Action, id: AlertID)
    requires id in Run(before).alerts
    ensures id in Step(Run(before), a).alerts && ChangeIsLogged(Run(before), Step(Run(before), a), id)
  {
    var db := Run(before);
    RunFromKeepsInv(Empty(), before);
    StepNeverReopens(db, a, id);
    match a
    case CreateAlert(_, _, _) => assert AlertInv(db, id);
    case UpsertAlert(_, _, _, _) => UpsertIsLogged(db, a, id);
    case UpdateOne(_, _, _) => UpdateOneIsLogged(db, a, id);
    case UpdateListed(_, _, _, _, _, _) => UpdateListedIsLogged(db, a, id);
    case UpdateService(_, _, _) => UpdateServiceIsLogged(db, a, id);
  }

  // ---- What each operation does to the table and to the log ----

  /** From db to db', the log gained one such entry for each of the given alerts, and no other. */
  ghost predicate LogsExactly(db: DB, db': DB, event: Event, ids: set<AlertID>) {
    forall id, e :: Logged(db'.logs, id, e) == Logged(db.logs, id, e) + OnceIf(e == event && id in ids)
  }

  /** An alert after it was closed, or its status changed otherwise. */
  function Moved(a: Alert, status: Status): Alert {
    if status == Closed then Alert(a.service, None, Closed) else Alert(a.service, a.dedup, status)
  }

  /** The order of statuses: triggered, active, closed. */
  predicate MovesUp(before: Status, after: Status) {
    (before == Triggered && after == Active) || (before != Closed && after == Closed)
  }

  predicate Open(db: DB, id: AlertID, service: ServiceID, key: string) {
    id in db.alerts && db.alerts[id].status != Closed && db.alerts[id].service == service && db.alerts[id].dedup == Some(key)
  }

  /** Create is refused exactly for closed alerts and for keys of open ones; otherwise it adds just that alert. */
  lemma {:induction false} CreateOutcome(actions: seq<Action>, service: ServiceID, key: string, status: Status)
    ensures var db := Run(actions);
            match Create(db, service, key, status)
            case Err(_) => status == Closed || exists id :: Open(db, id, service, key)
            case Ok(db') =>
              && status != Closed && (forall id :: !Open(db, id, service, key))
              && exists id :: id !in db.alerts && db'.alerts == db.alerts[id := Alert(service, Some(key), status)]
                              && db'.logs == db.logs + [LogEntry(id, CreatedEvent)]
  {
    var db := Run(actions);
    RunFromKeepsInv(Empty(), actions);
    KeyTakenIsOpen(db, service, key);
    if Create(db, service, key, status).Ok? {
      assert db.nextID !in db.alerts;
    }
  }

  /** Only open alerts have a dedup key. */
  lemma KeyTakenIsOpen(db: DB, service: ServiceID, key: string)
    requires Inv(db)
    ensures KeyTaken(db, service, key) <==> exists id :: Open(db, id, service, key)
    ensures KeyTaken(db, service, key) ==> forall id :: Open(db, id, service, key) <==> id == AlertWithKey(db, service, key)
    ensures db.nextID !in db.alerts
  {
    forall id | id in db.alerts
      ensures AlertInv(db, id)
    {
    }
    if KeyTaken(db, service, key) {
      var found := AlertWithKey(db, service, key);
      assert Open(db, found, service, key);
      forall id | Open(db, id, service, key)
        ensures id == found
      {
        KeyIsUnique(db, service, key, id, found);
      }
    }
  }

  /** An upsert without an open alert for the key: a trigger creates one, all else does nothing. */
  lemma {:induction false} UpsertWithoutAlert(actions: seq<Action>, service: ServiceID, key: string, status: Status, recent: bool)
    requires forall id :: !Open(Run(actions), id, service, key)
    ensures var db := Run(actions);
            var (db', found, inserted) := Upsert(db, service, key, status, recent);
            if status == Triggered then
              && found.Some? && inserted && found.value !in db.alerts
              && db'.alerts == db.alerts[found.value := Alert(service, Some(key), Triggered)]
              && db'.logs == db.logs + [LogEntry(found.value, CreatedEvent)]
            else db' == db && found == None && !inserted
  {
    RunFromKeepsInv(Empty(), actions);
    KeyTakenIsOpen(Run(actions), service, key);
  }

  /**
   An upsert with an open alert: a trigger changes no alert and logs a suppressed duplicate unless one is recent, an
   acknowledgement logs exactly if the alert was triggered, and a close always logs.
   */
  lemma {:induction false} UpsertOfAlert(actions: seq<Action>, service: ServiceID, key: string, status: Status, recent: bool, id: AlertID)
    requires Open(Run(actions), id, service, key)
    ensures var db := Run(actions);
            var (db', found, inserted) := Upsert(db, service, key, status, recent);
            && found == Some(id) && !inserted && db'.nextID == db.nextID
            && (status == Triggered ==>
                  && db'.alerts == db.alerts
                  && db'.logs == db.logs + (if recent then [] else [LogEntry(id, DuplicateSuppressed)]))
            && (status != Triggered ==> db'.alerts == db.alerts[id := Moved(db.alerts[id], status)])
            && (status == Active ==>
                  db'.logs == db.logs + (if db.alerts[id].status == Triggered then [LogEntry(id, Acknowledged)] else []))
            && (status == Closed ==> db'.logs == db.logs + [LogEntry(id, ClosedEvent)])
  {
    RunFromKeepsInv(Empty(), actions);
    KeyTakenIsOpen(Run(actions), service, key);
  }

  /** A single update: when it is refused and why, and what it does otherwise. */
  lemma UpdateOneOutcome(db: DB, id: AlertID, status: Status, multiAck: bool)
    ensures UpdateStatus(db, id, status, multiAck) == Err("not found") <==> id !in db.alerts
    ensures UpdateStatus(db, id, status, multiAck) == Err("already closed") <==> id in db.alerts && db.alerts[id].status == Closed
    ensures UpdateStatus(db, id, status, multiAck) == Err("already acknowledged")
            <==> id in db.alerts && db.alerts[id].status == Active && status == Active && !multiAck
    ensures match UpdateStatus(db, id, status, multiAck)
            case Err(e) => e in {"not found", "already closed", "already acknowledged"}
            case Ok(db') =>
              && db'.alerts == db.alerts[id := Moved(db.alerts[id], status)] && db'.nextID == db.nextID
              && db'.logs == db.logs + match status
                                       case Triggered => []
                                       case Active => [LogEntry(id, Acknowledged)]
                                       case Closed => [LogEntry(id, ClosedEvent)]
  {
    assert "not found"[0] != "already closed"[0];
    assert "not found"[0] != "already acknowledged"[0];
    assert "already closed"[8] != "already acknowledged"[8];
  }

  /** Rows that a statement moves up are in their new status afterwards, all others as before. */
  ghost predicate MovesExactly(db: DB, db': DB, ids: set<AlertID>, status: Status) {
    && db'.alerts.Keys == db.alerts.Keys && db'.nextID == db.nextID
    && forall id :: id in db.alerts ==>
         db'.alerts[id] == if id in ids && MovesUp(db.alerts[id].status, status) then Moved(db.alerts[id], status)
                           else db.alerts[id]
  }

  /** The listed alerts of the organization, if one is given. */
  function Mine(listed: seq<AlertID>, org: Option<set<AlertID>>): set<AlertID> {
    set id | id in listed && (org.None? || id in org.value)
  }

  /** Those a bulk update moves up, and those a user acknowledges again in an organization, on a multi-ack step. */
  function Handled(db: DB, mine: set<AlertID>, status: Status, userInOrg: bool, multiAck: set<AlertID>): set<AlertID> {
    set id | id in db.alerts && id in mine
             && (MovesUp(db.alerts[id].status, status)
                 || (status == Active && db.alerts[id].status == Active && userInOrg && id in multiAck))
  }

  lemma UpdateListedMoves(db: DB, scan: seq<AlertID>, listed: seq<AlertID>, status: Status, org: Option<set<AlertID>>, human: bool,
                          multiAck: set<AlertID>)
    requires UpdateMany(db, scan, listed, status, org, human, multiAck).Ok?
    ensures MovesExactly(db, UpdateMany(db, scan, listed, status, org, human, multiAck).value.0, Mine(listed, org), status)
  {
    assert Mine(listed, org) == InOrganization(listed, org);
  }

  /** The two statements of the bulk update divide the handled alerts between them. */
  lemma HandledInParts(db: DB, mine: set<AlertID>, status: Status, userInOrg: bool, multiAck: set<AlertID>, id: AlertID)
    requires status != Triggered
    ensures OnceIf(id in Handled(db, mine, status, userInOrg, multiAck))
         == OnceIf(id in Advancing(db, mine, status))
            + OnceIf(status == Active && userInOrg && id in AckingAgain(db, mine, multiAck))
  {
  }

  lemma UpdateListedReturns(db: DB, scan: seq<AlertID>, listed: seq<AlertID>, status: Status, org: Option<set<AlertID>>, human: bool,
                            multiAck: set<AlertID>)
    requires ScanOf(scan, db) && UpdateMany(db, scan, listed, status, org, human, multiAck).Ok?
    ensures var (db', ids) := UpdateMany(db, scan, listed, status, org, human, multiAck).value;
            var handled := Handled(db, Mine(listed, org), status, org.Some? && human, multiAck);
            && (forall id :: multiset(ids)[id] == OnceIf(id in handled))
            && db'.logs == LogMany(db.logs, ids, EventFor(status))
  {
    var mine := InOrganization(listed, org);
    assert Mine(listed, org) == mine;
    if listed == [] {
      assert LogMany(db.logs, [], EventFor(status)) == db.logs;
    } else {
      var again := status == Active && org.Some? && human;
      var advanced := Where(scan, Advancing(db, mine, status));
      var more := if again then Where(scan, AckingAgain(db, mine, multiAck)) else [];
      assert UpdateMany(db, scan, listed, status, org, human, multiAck).value.1 == advanced + more;
      ListedRowsOnce(db, scan, Advancing(db, mine, status));
      ListedRowsOnce(db, scan, AckingAgain(db, mine, multiAck));
      forall id
        ensures multiset(advanced + more)[id] == OnceIf(id in Handled(db, mine, status, org.Some? && human, multiAck))
      {
        HandledInParts(db, mine, status, org.Some? && human, multiAck, id);
        assert multiset(advanced + more)[id] == multiset(advanced)[id] + multiset(more)[id];
      }
    }
  }

  /**
   The bulk update: refused exactly for more than 500 IDs or a status other than active and closed; otherwise it moves
   up the listed alerts of the organization, and returns and logs these and, for a user who acknowledges in an
   organization, the listed ones that were active on a multi-ack step.
   */
  lemma UpdateListedOutcome(db: DB, scan: seq<AlertID>, listed: seq<AlertID>, status: Status, org: Option<set<AlertID>>, human: bool,
                            multiAck: set<AlertID>)
    requires ScanOf(scan, db)
    ensures UpdateMany(db, scan, listed, status, org, human, multiAck).Err?
            <==> listed != [] && (|listed| > 500 || status == Triggered)
    ensures UpdateMany(db, scan, listed, status, org, human, multiAck).Ok? ==>
              var (db', ids) := UpdateMany(db, scan, listed, status, org, human, multiAck).value;
              var handled := Handled(db, Mine(listed, org), status, org.Some? && human, multiAck);
              && MovesExactly(db, db', Mine(listed, org), status)
              && (forall id :: multiset(ids)[id] == OnceIf(id in handled))
              && LogsExactly(db, db', if status == Closed then ClosedEvent else Acknowledged, handled)
  {
    if UpdateMany(db, scan, listed, status, org, human, multiAck).Ok? {
      UpdateListedMoves(db, scan, listed, status, org, human, multiAck);
      UpdateListedReturns(db, scan, listed, status, org, human, multiAck);
      var (db', ids) := UpdateMany(db, scan, listed, status, org, human, multiAck).value;
      forall id, e
        ensures Logged(db'.logs, id, e) == Logged(db.logs, id, e) + if e == EventFor(status) then multiset(ids)[id] else 0
      {
        LogManyCount(db.logs, ids, EventFor(status), id, e);
      }
    }
  }

  /** The by-service update: refused exactly for triggered; otherwise it moves up and logs the service's alerts. */
  lemma UpdateServiceOutcome(db: DB, scan: seq<AlertID>, service: ServiceID, status: Status)
    requires ScanOf(scan, db)
    ensures match UpdateByService(db, scan, service, status)
            case Err(_) => status == Triggered
            case Ok(db') =>
              && status != Triggered
              && var mine := set id | id in db.alerts && db.alerts[id].service == service;
                 && MovesExactly(db, db', mine, status)
                 && LogsExactly(db, db', if status == Closed then ClosedEvent else Acknowledged,
                                set id | id in mine && MovesUp(db.alerts[id].status, status))
  {
    if status != Triggered {
      ServiceLogsWhatItUpdates(db, service, status);
      var rows := ServiceAdvancing(db, service, status);
      ListedRowsOnce(db, scan, rows);
      var db' := UpdateByService(db, scan, service, status).value;
      forall id, e
        ensures Logged(db'.logs, id, e) == Logged(db.logs, id, e) + if e == EventFor(status) then multiset(Where(scan, rows))[id] else 0
      {
        LogManyCount(db.logs, Where(scan, rows), EventFor(status), id, e);
      }
    }
  }
}
