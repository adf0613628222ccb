/**
 Alert rows and their log. Every operation is one transaction: a function from database to database, and a
 method that performs it step by step. The table's constraints (unique open dedup key per service, dedup key
 cleared on close) are those of the schema.
 */
module AlertStore {
  import opened Common

  type AlertID = nat
  type ServiceID = string
  type Error = string

  datatype Status = Triggered | Active | Closed

  /** The order of the status enumeration. */
  function Rank(s: Status): nat {
    match s
    case Triggered => 0
    case Active => 1
    case Closed => 2
  }

  /** dedup is NULL exactly for closed alerts. */
  datatype Alert = Alert(service: ServiceID, dedup: Option<string>, status: Status)

  datatype Event = CreatedEvent | DuplicateSuppressed | Acknowledged | ClosedEvent

  datatype LogEntry = LogEntry(alert: AlertID, event: Event)

  datatype DB = DB(alerts: map<AlertID, Alert>, logs: seq<LogEntry>, nextID: AlertID)

  function Empty(): DB {
    DB(map[], [], 1)
  }

  /** UPDATE ... SET status, with the trigger that clears the dedup key on close. */
  function WithStatus(a: Alert, status: Status): Alert {
    if status == Closed && a.status != Closed then a.(status := status, dedup := None) else a.(status := status)
  }

  function LogTx(db: DB, id: AlertID, event: Event): DB {
    db.(logs := db.logs + [LogEntry(id, event)])
  }

  function SetStatus(db: DB, id: AlertID, status: Status): DB
    requires id in db.alerts
  {
    db.(alerts := db.alerts[id := WithStatus(db.alerts[id], status)])
  }

  predicate HasKey(a: Alert, service: ServiceID, key: string) {
    a.service == service && a.dedup == Some(key)
  }

  predicate KeyTaken(db: DB, service: ServiceID, key: string) {
    exists id :: id in db.alerts && HasKey(db.alerts[id], service, key)
  }

  ghost function AlertWithKey(db: DB, service: ServiceID, key: string): (id: AlertID)
    requires KeyTaken(db, service, key)
    ensures id in db.alerts && HasKey(db.alerts[id], service, key)
  {
    var id :| id in db.alerts && HasKey(db.alerts[id], service, key);
    id
  }

  function Insert(db: DB, service: ServiceID, key: string, status: Status): DB {
    LogTx(db.(alerts := db.alerts[db.nextID := Alert(service, Some(key), status)], nextID := db.nextID + 1),
          db.nextID, CreatedEvent)
  }

  function Create(db: DB, service: ServiceID, key: string, status: Status): Result<DB, Error> {
    if status == Closed then Err("Cannot create a closed alert.")
    else if KeyTaken(db, service, key) then Err("duplicate key")
    else Ok(Insert(db, service, key, status))
  }

  /**
   CreateOrUpdateTx: the new database, the alert it is about (None if there is none to update), and whether it is new.
   recent tells whether a duplicate was logged within the last seconds.
   */
  ghost function Upsert(db: DB, service: ServiceID, key: string, status: Status, recent: bool): (DB, Option<AlertID>, bool) {
    if !KeyTaken(db, service, key) then
      if status == Triggered then (Insert(db, service, key, Triggered), Some(db.nextID), true) else (db, None, false)
    else
      var id := AlertWithKey(db, service, key);
      match status
      case Triggered => (if recent then db else LogTx(db, id, DuplicateSuppressed), Some(id), false)
      case Active =>
        var db' := SetStatus(db, id, Active);
        (if db.alerts[id].status == Active then db' else LogTx(db', id, Acknowledged), Some(id), false)
      case Closed => (LogTx(SetStatus(db, id, Closed), id, ClosedEvent), Some(id), false)
  }

  function EventFor(status: Status): Event {
    if status == Closed then ClosedEvent else Acknowledged
  }

  function UpdateStatus(db: DB, id: AlertID, status: Status, multiAck: bool): Result<DB, Error> {
    if id !in db.alerts then Err("not found")
    else if db.alerts[id].status == Closed then Err("already closed")
    else if db.alerts[id].status == Active && status == Active then
      if multiAck then Ok(LogTx(db, id, Acknowledged)) else Err("already acknowledged")
    else
      var db' := SetStatus(db, id, status);
      Ok(if status == Triggered then db' else LogTx(db', id, EventFor(status)))
  }

  /** An enumeration of the table: the order in which statements visit its rows. */
  ghost predicate ScanOf(scan: seq<AlertID>, db: DB) {
    && (forall id :: id in scan <==> id in db.alerts)
    && (forall i, j :: 0 <= i < j < |scan| ==> scan[i] != scan[j])
  }

  /** The rows of scan that are in a set, in order. */
  function Where(scan: seq<AlertID>, rows: set<AlertID>): seq<AlertID> {
    if scan == [] then []
    else Where(scan[..|scan| - 1], rows) + if scan[|scan| - 1] in rows then [scan[|scan| - 1]] else []
  }

  function LogMany(logs: seq<LogEntry>, ids: seq<AlertID>, event: Event): seq<LogEntry> {
    logs + seq(|ids|, i requires 0 <= i < |ids| => LogEntry(ids[i], event))
  }

  function AdvanceRows(alerts: map<AlertID, Alert>, rows: set<AlertID>, status: Status): map<AlertID, Alert> {
    map id | id in alerts :: if id in rows then WithStatus(alerts[id], status) else alerts[id]
  }

  /** The rows of `UPDATE alerts SET status = $1 WHERE id = ANY($2) AND $1 > status`. */
  function Advancing(db: DB, ids: set<AlertID>, status: Status): set<AlertID> {
    set id | id in db.alerts && id in ids && Rank(status) > Rank(db.alerts[id].status)
  }

  /** The rows of selectActiveMultiAck, run after the update: listed, on a multi-ack step, and active without it. */
  function AckingAgain(db: DB, ids: set<AlertID>, multiAck: set<AlertID>): set<AlertID> {
    set id | id in db.alerts && id in ids && id in multiAck && db.alerts[id].status == Active
  }

  const MAX_BATCH: nat := 500

  function Listed(listed: seq<AlertID>): set<AlertID> {
    set id | id in listed
  }

  /** organizationAlertIDs: of the listed IDs, those of the given organization's alerts, if one is given. */
  function InOrganization(listed: seq<AlertID>, org: Option<set<AlertID>>): set<AlertID> {
    if org.None? then Listed(listed) else Listed(listed) * org.value
  }

  /**
   UpdateManyAlertStatus: the new database and the IDs that were logged. listed may repeat IDs; human tells whether
   a signed-in user acts, for whom multi-ack steps log again.
   */
  function UpdateMany(db: DB, scan: seq<AlertID>, listed: seq<AlertID>, status: Status, org: Option<set<AlertID>>,
                      human: bool, multiAck: set<AlertID>)
      : Result<(DB, seq<AlertID>), Error> {
    if listed == [] then Ok((db, []))
    else if |listed| > MAX_BATCH || status == Triggered then Err("invalid")
    else
      var ids := InOrganization(listed, org);
      var advanced := Where(scan, Advancing(db, ids, status));
      var more := if status == Active && org.Some? && human then Where(scan, AckingAgain(db, ids, multiAck)) else [];
      Ok((DB(AdvanceRows(db.alerts, Advancing(db, ids, status), status),
             LogMany(db.logs, advanced + more, EventFor(status)), db.nextID),
          advanced + more))
  }

  /** The rows AlertLog_InsertSvc logs. */
  function ServiceLogged(db: DB, service: ServiceID, status: Status): set<AlertID> {
    set id | id in db.alerts && db.alerts[id].service == service
             && ((status == Closed && db.alerts[id].status != Closed)
                 || (status == Active && db.alerts[id].status == Triggered))
  }

  /** The rows updateByStatusAndService updates. */
  function ServiceAdvancing(db: DB, service: ServiceID, status: Status): set<AlertID> {
    set id | id in db.alerts && db.alerts[id].service == service && Rank(status) > Rank(db.alerts[id].status)
  }

  /** UpdateStatusByService: log first, then update. */
  function UpdateByService(db: DB, scan: seq<AlertID>, service: ServiceID, status: Status): Result<DB, Error> {
    if status == Triggered then Err("invalid status")
    else
      Ok(DB(AdvanceRows(db.alerts, ServiceAdvancing(db, service, status), status),
            LogMany(db.logs, Where(scan, ServiceLogged(db, service, status)), EventFor(status)), db.nextID))
  }

  class Store {
    var alerts: map<AlertID, Alert>
    var logs: seq<LogEntry>
    var nextID: AlertID

    ghost function View(): DB
      reads this
    {
      DB(alerts, logs, nextID)
    }

    constructor ()
      ensures View() == Empty()
    {
      alerts, logs, nextID := map[], [], 1;
    }

    method InsertRow(service: ServiceID, key: string, status: Status) returns (id: AlertID)
      modifies this
      ensures View() == Insert(old(View()), service, key, status) && id == old(nextID)
    {
      id := nextID;
      alerts := alerts[id := Alert(service, Some(key), status)];
      nextID := nextID + 1;
      logs := logs + [LogEntry(id, CreatedEvent)];
    }

    method CreateTx(service: ServiceID, key: string, status: Status) returns (res: Result<AlertID, Error>)
      modifies this
      ensures match Create(old(View()), service, key, status)
              case Ok(db) => View() == db && res == Ok(old(nextID))
              case Err(e) => View() == old(View()) && res == Err(e)
    {
      if status == Closed {
        return Err("Cannot create a closed alert.");
      }
      if exists id :: id in alerts && HasKey(alerts[id], service, key) {
        return Err("duplicate key");
      }
      var id := InsertRow(service, key, status);
      res := Ok(id);
    }

    /** CreateOrUpdateTx, on a table whose open dedup keys are unique. */
    method CreateOrUpdateTx(service: ServiceID, key: string, status: Status, recent: bool)
        returns (found: Option<AlertID>, inserted: bool)
      requires forall a, b :: a in alerts && b in alerts && HasKey(alerts[a], service, key) && HasKey(alerts[b], service, key) ==> a == b
      modifies this
      ensures (View(), found, inserted) == Upsert(old(View()), service, key, status, recent)
    {
      if !exists id :: id in alerts && HasKey(alerts[id], service, key) {
        if status != Triggered {
          return None, false;
        }
        var id := InsertRow(service, key, Triggered);
        return Some(id), true;
      }
      var id :| id in alerts && HasKey(alerts[id], service, key);
      assert id == AlertWithKey(View(), service, key);
      match status {
        case Triggered =>
          if !recent {
            logs := logs + [LogEntry(id, DuplicateSuppressed)];
          }
        case Active =>
          var oldStatus := alerts[id].status;
          alerts := alerts[id := alerts[id].(status := Active)];
          if oldStatus != Active {
            logs := logs + [LogEntry(id, Acknowledged)];
          }
        case Closed =>
          alerts := alerts[id := WithStatus(alerts[id], Closed)];
          logs := logs + [LogEntry(id, ClosedEvent)];
      }
      return Some(id), false;
    }

    method UpdateStatusTx(id: AlertID, status: Status, multiAck: bool) returns (res: Result<(), Error>)
      modifies this
      ensures match UpdateStatus(old(View()), id, status, multiAck)
              case Ok(db) => View() == db && res.Ok?
              case Err(e) => View() == old(View()) && res == Err(e)
    {
      if id !in alerts {
        return Err("not found");
      }
      if alerts[id].status == Closed {
        return Err("already closed");
      }
      if alerts[id].status == Active && status == Active {
        if !multiAck {
          return Err("already acknowledged");
        }
        logs := logs + [LogEntry(id, Acknowledged)];
        return Ok(());
      }
      alerts := alerts[id := WithStatus(alerts[id], status)];
      if status == Closed {
        logs := logs + [LogEntry(id, ClosedEvent)];
      } else if status == Active {
        logs := logs + [LogEntry(id, Acknowledged)];
      }
      return Ok(());
    }

    /** One UPDATE: advance the rows of a set, returning their IDs in scan order. */
    method UpdateRows(scan: seq<AlertID>, rows: set<AlertID>, status: Status) returns (ids: seq<AlertID>)
      requires ScanOf(scan, View())
      modifies this`alerts
      ensures ids == Where(scan, rows) && alerts == AdvanceRows(old(alerts), rows, status)
    {
      ids := [];
      ghost var seen: set<AlertID> := {};
      for i := 0 to |scan|
        invariant ids == Where(scan[..i], rows)
        invariant forall x :: x in seen <==> x in scan[..i]
        invariant alerts == AdvanceRows(old(alerts), rows * seen, status)
      {
        var id := scan[i];
        assert scan[..i + 1] == scan[..i] + [id] && scan[..i + 1][..i] == scan[..i];
        AdvanceOneMore(old(alerts), rows, seen, id, status);
        if id in rows {
          alerts := alerts[id := WithStatus(alerts[id], status)];
          ids := ids + [id];
        }
        seen := seen + {id};
      }
      assert scan[..|scan|] == scan;
      AdvanceAllSeen(old(alerts), rows, seen, status);
    }

    method SelectRows(scan: seq<AlertID>, rows: set<AlertID>) returns (ids: seq<AlertID>)
      ensures ids == Where(scan, rows)
    {
      ids := [];
      for i := 0 to |scan|
        invariant ids == Where(scan[..i], rows)
      {
        assert scan[..i + 1][..i] == scan[..i];
        if scan[i] in rows {
          ids := ids + [scan[i]];
        }
      }
      assert scan[..|scan|] == scan;
    }

    method LogManyTx(ids: seq<AlertID>, event: Event)
      modifies this`logs
      ensures logs == LogMany(old(logs), ids, event)
    {
      for i := 0 to |ids|
        invariant logs == old(logs) + seq(i, j requires 0 <= j < i => LogEntry(ids[j], event))
      {
        logs := logs + [LogEntry(ids[i], event)];
      }
    }

    method UpdateManyAlertStatus(scan: seq<AlertID>, listed: seq<AlertID>, status: Status, org: Option<set<AlertID>>,
                                 human: bool, multiAck: set<AlertID>)
        returns (res: Result<seq<AlertID>, Error>)
      requires ScanOf(scan, View())
      modifies this
      ensures match UpdateMany(old(View()), scan, listed, status, org, human, multiAck)
              case Ok((db, logged)) => View() == db && res == Ok(logged)
              case Err(e) => View() == old(View()) && res == Err(e)
    {
      if listed == [] {
        return Ok([]);
      }
      if |listed| > MAX_BATCH || status == Triggered {
        return Err("invalid");
      }
      ghost var before := View();
      var ids := InOrganization(listed, org);
      var advancing := set id | id in alerts && id in ids && Rank(status) > Rank(alerts[id].status);
      assert advancing == Advancing(before, ids, status);
      var advanced := UpdateRows(scan, advancing, status);
      var more := [];
      if status == Active && org.Some? && human {
        var acking := set id | id in alerts && id in ids && id in multiAck && alerts[id].status == Active && id !in advancing;
        assert acking == AckingAgain(before, ids, multiAck);
        more := SelectRows(scan, acking);
      }
      var logged := advanced + more;
      LogManyTx(logged, if status == Closed then ClosedEvent else Acknowledged);
      res := Ok(logged);
    }

    method UpdateStatusByService(scan: seq<AlertID>, service: ServiceID, status: Status) returns (res: Result<(), Error>)
      requires ScanOf(scan, View())
      modifies this
      ensures match UpdateByService(old(View()), scan, service, status)
              case Ok(db) => View() == db && res.Ok?
              case Err(e) => View() == old(View()) && res == Err(e)
    {
      if status == Triggered {
        return Err("invalid status");
      }
      var toLog := SelectRows(scan, ServiceLogged(DB(alerts, logs, nextID), service, status));
      LogManyTx(toLog, if status == Closed then ClosedEvent else Acknowledged);
      var advancing := set id | id in alerts && alerts[id].service == service && Rank(status) > Rank(alerts[id].status);
      assert advancing == ServiceAdvancing(old(View()), service, status);
      var _ := UpdateRows(scan, advancing, status);
      res := Ok(());
    }
  }

  lemma AdvanceOneMore(alerts: map<AlertID, Alert>, rows: set<AlertID>, seen: set<AlertID>, id: AlertID, status: Status)
    requires id in alerts
    ensures AdvanceRows(alerts, rows * (seen + {id}), status)
         == if id in rows then AdvanceRows(alerts, rows * seen, status)[id := WithStatus(AdvanceRows(alerts, rows * seen, status)[id], status)]
            else AdvanceRows(alerts, rows * seen, status)
  {
  }

  lemma AdvanceAllSeen(alerts: map<AlertID, Alert>, rows: set<AlertID>, seen: set<AlertID>, status: Status)
    requires forall id :: id in alerts ==> id in seen
    ensures AdvanceRows(alerts, rows * seen, status) == AdvanceRows(alerts, rows, status)
  {
  }
}
