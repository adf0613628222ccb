/**
 The check that an alert notification still goes to the right person: a recursive query collects every message
 that was bundled into the one being sent, directly or through other bundles, and all of them must agree.
 */
module AlertRecipient {
  import opened Common

  type MsgID = string
  type UserID = string
  type ContactMethodID = string
  type ServiceID = string
  type OrgID = string

  datatype MessageType = AlertNotification | AlertStatusUpdate | AlertBundle | OtherType

  datatype LastStatus = Sending | Bundled | OtherStatus

  /** A row of outgoing_messages; None is NULL. */
  datatype Message = Message(
    id: MsgID, kind: MessageType, contactMethod: Option<ContactMethodID>, channel: Option<string>,
    user: Option<UserID>, service: Option<ServiceID>, alert: Option<int>, alertLog: Option<int>,
    lastStatus: LastStatus, statusDetails: string)

  datatype ContactMethod = ContactMethod(user: UserID, dest: string, disabled: bool)

  datatype Tables = Tables(
    messages: map<MsgID, Message>,
    alerts: map<int, Option<ServiceID>>,        // service of each alert
    alertLogs: map<int, Option<int>>,           // alert of each log entry
    contactMethods: map<ContactMethodID, ContactMethod>,
    services: map<ServiceID, OrgID>)            // organization of each service

  /** id is the primary key. */
  ghost predicate Keyed(t: Tables) {
    forall id :: id in t.messages ==> t.messages[id].id == id
  }

  /** child was bundled into parent; each message names at most one parent. */
  predicate Link(t: Tables, child: MsgID, parent: MsgID) {
    child in t.messages && t.messages[child].lastStatus == Bundled && t.messages[child].statusDetails == parent
  }

  // ---- The recursive query ----

  /** The recursive term of the query, joined with the rows of the previous round. */
  function Children(t: Tables, parents: set<MsgID>): set<MsgID> {
    set c | c in t.messages && t.messages[c].lastStatus == Bundled && t.messages[c].statusDetails in parents
  }

  /** WITH RECURSIVE ... UNION: rounds over the newly found rows until a round finds none. */
  function Rounds(t: Tables, found: set<MsgID>, working: set<MsgID>): set<MsgID>
    requires working <= found <= t.messages.Keys
    decreases t.messages.Keys - found, working
  {
    if working == {} then found
    else
      var next := Children(t, working) - found;
      Rounds(t, found + next, next)
  }

  function Related(t: Tables, root: MsgID): set<MsgID> {
    if root in t.messages then Rounds(t, {root}, {root}) else {}
  }

  /** A chain of bundling from path[0] up to its last message. */
  ghost predicate IsChain(t: Tables, path: seq<MsgID>) {
    && path != []
    && (forall i :: 0 <= i < |path| ==> path[i] in t.messages)
    && (forall i :: 0 <= i < |path| - 1 ==> LinkAt(t, path, i))
  }

  predicate LinkAt(t: Tables, path: seq<MsgID>, i: int)
    requires 0 <= i < |path| - 1
  {
    Link(t, path[i], path[i + 1])
  }

  ghost predicate ChainTo(t: Tables, path: seq<MsgID>, id: MsgID, root: MsgID) {
    IsChain(t, path) && path[0] == id && path[|path| - 1] == root
  }

  ghost predicate Reaches(t: Tables, id: MsgID, root: MsgID) {
    exists path :: ChainTo(t, path, id, root)
  }

  lemma ChainExtends(t: Tables, c: MsgID, path: seq<MsgID>)
    requires IsChain(t, path) && Link(t, c, path[0])
    ensures IsChain(t, [c] + path)
  {
    var longer := [c] + path;
    forall i | 0 <= i < |longer| - 1
      ensures LinkAt(t, longer, i)
    {
      assert i > 0 ==> LinkAt(t, path, i - 1);
    }
  }

  lemma ChainTail(t: Tables, path: seq<MsgID>)
    requires IsChain(t, path) && |path| > 1
    ensures IsChain(t, path[1..]) && Link(t, path[0], path[1])
  {
    assert LinkAt(t, path, 0);
    forall i | 0 <= i < |path[1..]| - 1
      ensures LinkAt(t, path[1..], i)
    {
      assert LinkAt(t, path, i + 1);
    }
  }

  lemma ChildReaches(t: Tables, c: MsgID, p: MsgID, root: MsgID)
    requires Link(t, c, p) && Reaches(t, p, root)
    ensures Reaches(t, c, root)
  {
    var path :| ChainTo(t, path, p, root);
    ChainExtends(t, c, path);
    assert ChainTo(t, [c] + path, c, root);
  }

  /** What the rounds find can be reached, and what can be reached from an unexplored row is found. */
  lemma {:induction false} RoundsSound(t: Tables, found: set<MsgID>, working: set<MsgID>, root: MsgID)
    requires working <= found <= t.messages.Keys
    requires forall id :: id in found ==> Reaches(t, id, root)
    ensures forall id :: id in Rounds(t, found, working) ==> Reaches(t, id, root)
    decreases t.messages.Keys - found, working
  {
    if working != {} {
      var next := Children(t, working) - found;
      forall c | c in next
        ensures Reaches(t, c, root)
      {
        ChildReaches(t, c, t.messages[c].statusDetails, root);
      }
      RoundsSound(t, found + next, next, root);
    }
  }

  lemma {:induction false} RoundsClosed(t: Tables, found: set<MsgID>, working: set<MsgID>)
    requires working <= found <= t.messages.Keys
    requires Children(t, found - working) <= found
    ensures found <= Rounds(t, found, working) <= t.messages.Keys
    ensures Children(t, Rounds(t, found, working)) <= Rounds(t, found, working)
    decreases t.messages.Keys - found, working
  {
    if working == {} {
      assert found - working == found;
    } else {
      var next := Children(t, working) - found;
      assert (found + next) - next == found;
      assert Children(t, found) <= found + next by {
        forall c | c in Children(t, found)
          ensures c in found + next
        {
          assert t.messages[c].statusDetails in working ==> c in Children(t, working);
          assert t.messages[c].statusDetails !in working ==> c in Children(t, found - working);
        }
      }
      RoundsClosed(t, found + next, next);
    }
  }

  lemma {:induction false} ChainIsFound(t: Tables, path: seq<MsgID>, closed: set<MsgID>)
    requires IsChain(t, path) && path[|path| - 1] in closed && Children(t, closed) <= closed
    ensures path[0] in closed
    decreases |path|
  {
    if |path| > 1 {
      ChainTail(t, path);
      ChainIsFound(t, path[1..], closed);
      assert path[0] in Children(t, closed);
    }
  }

  /** On every link graph, cyclic or not, the query finds exactly the messages bundled into the root. */
  lemma RelatedIsReachable(t: Tables, root: MsgID, id: MsgID)
    requires root in t.messages
    ensures id in Related(t, root) <==> Reaches(t, id, root)
    ensures Related(t, root) <= t.messages.Keys && root in Related(t, root)
  {
    assert ChainTo(t, [root], root, root);
    RoundsSound(t, {root}, {root}, root);
    assert Children(t, {root} - {root}) == {};
    RoundsClosed(t, {root}, {root});
    if Reaches(t, id, root) {
      var path :| ChainTo(t, path, id, root);
      ChainIsFound(t, path, Related(t, root));
    }
  }

  // ---- The all-of check ----

  datatype Request = Request(
    msgID: MsgID, kind: MessageType, contactMethod: ContactMethodID, user: UserID, dest: string,
    service: Option<ServiceID>,                 // nullif($6, '')
    alert: int, alertLog: int)                  // 0 for none

  /** The alert of a row exists and belongs to the service. */
  predicate AlertOfService(t: Tables, alert: Option<int>, service: ServiceID) {
    alert.Some? && alert.value in t.alerts && t.alerts[alert.value] == Some(service)
  }

  predicate LogOfAlert(t: Tables, log: Option<int>, alert: Option<int>) {
    log.Some? && log.value in t.alertLogs && alert.Some? && t.alertLogs[log.value] == alert
  }

  /** The condition each related row must satisfy; a NULL comparison counts as false. */
  predicate RowAgrees(t: Tables, root: MsgID, cmID: ContactMethodID, owner: UserID, service: ServiceID, r: Message,
                      related: set<MsgID>)
    requires related <= t.messages.Keys
  {
    && r.contactMethod == Some(cmID)
    && r.channel.None?
    && r.user == Some(owner)
    && (r.service == Some(service) || (r.kind == AlertStatusUpdate && r.service.None?))
    && match r.kind
       case AlertNotification => AlertOfService(t, r.alert, service) && r.alertLog.None?
       case AlertStatusUpdate => r.id == root && AlertOfService(t, r.alert, service) && LogOfAlert(t, r.alertLog, r.alert)
       case AlertBundle => r.alert.None? && r.alertLog.None? && exists c :: c in related && Link(t, c, r.id)
       case OtherType => false
  }

  predicate AllAgree(t: Tables, root: MsgID, cmID: ContactMethodID, owner: UserID, service: ServiceID)
  {
    var related := Related(t, root);
    && related <= t.messages.Keys
    && forall id {:trigger RowAgrees(t, root, cmID, owner, service, t.messages[id], related)} :: id in related ==>
         RowAgrees(t, root, cmID, owner, service, t.messages[id], related)
  }

  predicate SomeNotification(t: Tables, root: MsgID) {
    exists id :: id in Related(t, root) && id in t.messages && t.messages[id].kind == AlertNotification
  }

  /** The conditions on the message itself. */
  predicate RootMatches(m: Message, cm: ContactMethod, req: Request) {
    && m.lastStatus == Sending
    && m.kind == req.kind
    && m.contactMethod == Some(req.contactMethod)
    && m.channel.None?
    && cm.user == req.user
    && cm.dest == req.dest
    && !cm.disabled
    && m.service == req.service
    && (if m.alert.Some? then m.alert.value else 0) == req.alert
    && (if m.alertLog.Some? then m.alertLog.value else 0) == req.alertLog
  }

  /** coalesce(m.service_id, root_alert.service_id). */
  function ServiceOf(t: Tables, m: Message): Option<ServiceID> {
    if m.service.Some? then m.service
    else if m.alert.Some? && m.alert.value in t.alerts then t.alerts[m.alert.value]
    else None
  }

  datatype Authority = Authority(owner: UserID, org: OrgID, valid: bool)

  /** alertRecipientQuery; None when the joins find no row. */
  function Query(t: Tables, req: Request): Option<Authority> {
    if req.msgID !in t.messages then None
    else
      var m := t.messages[req.msgID];
      if m.contactMethod.None? || m.contactMethod.value !in t.contactMethods then None
      else
        var cm := t.contactMethods[m.contactMethod.value];
        if ServiceOf(t, m).None? || ServiceOf(t, m).value !in t.services then None
        else
          var s := ServiceOf(t, m).value;
          Some(Authority(cm.user, t.services[s],
                         RootMatches(m, cm, req)
                         && AllAgree(t, req.msgID, m.contactMethod.value, cm.user, s)
                         && (m.kind != AlertBundle || SomeNotification(t, req.msgID))))
  }

  datatype OrgCheck = OrgOk | OrgNotFound | OrgError

  datatype Decision = NotChecked | Rejected(reason: string) | Unavailable | Allowed

  /** The message, the user and the service have UUIDs; only a status update may go without a service. */
  predicate ProperIDs(req: Request, isUUID: string -> bool) {
    && isUUID(req.msgID) && isUUID(req.user)
    && (if req.service.Some? then isUUID(req.service.value) else req.kind == AlertStatusUpdate)
  }

  /**
   guardAlertRecipient. isUUID tells the texts of UUIDs other than the nil one, dbOk whether the database answered the
   query, and member what the organization check says of a user and an organization.
   */
  function Guard(t: Tables, req: Request, isUserCM: bool, isUUID: string -> bool, dbOk: bool,
                 member: (UserID, OrgID) -> OrgCheck): Decision
  {
    if !isUserCM || req.kind == OtherType then NotChecked
    else if !ProperIDs(req, isUUID) then Rejected("notification_recipient_invalid")
    else if !dbOk then Unavailable
    else if Query(t, req).None? || !Query(t, req).value.valid then Rejected("notification_recipient_invalid")
    else match member(Query(t, req).value.owner, Query(t, req).value.org)
      case OrgNotFound => Rejected("notification_recipient_org_denied")
      case OrgError => Unavailable
      case OrgOk => Allowed
  }

  /**
   What an allowed notification guarantees: its contact method belongs to the named user and every message ever
   bundled into it goes to that same contact method and user, and every alert among them belongs to one service.
   */
  lemma AllowedMeansOneRecipient(t: Tables, req: Request, isUUID: string -> bool, dbOk: bool,
                                 member: (UserID, OrgID) -> OrgCheck, id: MsgID)
    requires Guard(t, req, true, isUUID, dbOk, member) == Allowed && Reaches(t, id, req.msgID)
    ensures dbOk && req.msgID in t.messages && req.contactMethod in t.contactMethods
    ensures var cm := t.contactMethods[req.contactMethod]; cm.user == req.user && cm.dest == req.dest && !cm.disabled
    ensures var m := t.messages[req.msgID];
            && m.lastStatus == Sending && m.kind == req.kind && m.service == req.service
            && m.alert == (if req.alert == 0 && m.alert.None? then None else Some(req.alert))
    ensures id in t.messages
    ensures var r := t.messages[id];
            && r.contactMethod == Some(req.contactMethod) && r.user == Some(req.user) && r.channel.None?
            && ServiceOf(t, t.messages[req.msgID]).Some?
            && (r.alert.Some? ==> AlertOfService(t, r.alert, ServiceOf(t, t.messages[req.msgID]).value))
            && (r.kind == AlertNotification ==> r.alert.Some?)
            && (r.kind == AlertStatusUpdate ==> r.id == req.msgID && r.alert.Some?)
  {
    RelatedIsReachable(t, req.msgID, id);
    var m := t.messages[req.msgID];
    assert RowAgrees(t, req.msgID, m.contactMethod.value, t.contactMethods[m.contactMethod.value].user,
                     ServiceOf(t, m).value, t.messages[id], Related(t, req.msgID));
  }

  /** The all-of check, both ways: it holds exactly when each message bundled into the root agrees on its own. */
  lemma AllAgreeExactly(t: Tables, root: MsgID, cmID: ContactMethodID, owner: UserID, service: ServiceID)
    requires Keyed(t) && root in t.messages
    ensures AllAgree(t, root, cmID, owner, service) <==>
            forall id :: id in t.messages && Reaches(t, id, root) ==>
              RowAgrees(t, root, cmID, owner, service, t.messages[id], t.messages.Keys)
  {
    RelatedIsReachable(t, root, root);
    var related := Related(t, root);
    forall id
      ensures id in related <==> id in t.messages && Reaches(t, id, root)
      ensures id in related ==>
                (RowAgrees(t, root, cmID, owner, service, t.messages[id], related)
                 <==> RowAgrees(t, root, cmID, owner, service, t.messages[id], t.messages.Keys))
    {
      RelatedIsReachable(t, root, id);
      if id in related {
        ChildrenAreRelated(t, root, id);
      }
    }
  }

  /** A child of a related message is related: looking for it among the related rows loses nothing. */
  lemma ChildrenAreRelated(t: Tables, root: MsgID, parent: MsgID)
    requires root in t.messages && parent in Related(t, root)
    ensures forall c :: Link(t, c, parent) ==> c in Related(t, root)
  {
    forall c | Link(t, c, parent)
      ensures c in Related(t, root)
    {
      RelatedIsReachable(t, root, parent);
      ChildReaches(t, c, parent, root);
      RelatedIsReachable(t, root, c);
    }
  }

  // ---- The final "some alert notification" check ----

  /** A chain up to a message that is being sent never visits a message twice. */
  lemma {:induction false} ChainIsDistinct(t: Tables, path: seq<MsgID>, i: nat, j: nat)
    requires IsChain(t, path) && t.messages[path[|path| - 1]].lastStatus == Sending
    requires i < j < |path|
    ensures path[i] != path[j]
    decreases |path| - j
  {
    assert LinkAt(t, path, i);
    if j < |path| - 1 {
      assert LinkAt(t, path, j);
      ChainIsDistinct(t, path, i + 1, j + 1);
    }
  }

  lemma {:induction false} DistinctBound(path: seq<MsgID>, all: set<MsgID>)
    requires forall i :: 0 <= i < |path| ==> path[i] in all
    requires forall i, j :: 0 <= i < j < |path| ==> path[i] != path[j]
    ensures |path| <= |all|
  {
    if path != [] {
      var last := path[|path| - 1];
      DistinctBound(path[..|path| - 1], all - {last});
    }
  }

  lemma ChainBound(t: Tables, path: seq<MsgID>)
    requires IsChain(t, path) && t.messages[path[|path| - 1]].lastStatus == Sending
    ensures |path| <= |t.messages|
  {
    forall i, j | 0 <= i < j < |path|
      ensures path[i] != path[j]
    {
      ChainIsDistinct(t, path, i, j);
    }
    DistinctBound(path, t.messages.Keys);
  }

  lemma BundleHasChild(t: Tables, root: MsgID, cmID: ContactMethodID, owner: UserID, service: ServiceID, id: MsgID)
    returns (c: MsgID)
    requires Keyed(t) && AllAgree(t, root, cmID, owner, service)
    requires id in Related(t, root) && id in t.messages && t.messages[id].kind == AlertBundle
    ensures c in Related(t, root) && Link(t, c, id)
  {
    assert RowAgrees(t, root, cmID, owner, service, t.messages[id], Related(t, root));
    c :| c in Related(t, root) && Link(t, c, t.messages[id].id);
  }

  /** What an agreeing row below the root can be: another bundle, or an alert notification. */
  lemma RowIsBundleOrAlert(t: Tables, root: MsgID, cmID: ContactMethodID, owner: UserID, service: ServiceID, id: MsgID)
    requires Keyed(t) && root in t.messages && t.messages[root].kind == AlertBundle
    requires AllAgree(t, root, cmID, owner, service) && id in Related(t, root)
    ensures id in t.messages && t.messages[id].kind in {AlertBundle, AlertNotification}
  {
    assert RowAgrees(t, root, cmID, owner, service, t.messages[id], Related(t, root));
  }

  /** A chain from a bundle goes on to one of its children. */
  lemma StepDown(t: Tables, root: MsgID, cmID: ContactMethodID, owner: UserID, service: ServiceID, path: seq<MsgID>)
    returns (longer: seq<MsgID>)
    requires Keyed(t) && AllAgree(t, root, cmID, owner, service) && root in t.messages && t.messages[root].lastStatus == Sending
    requires IsChain(t, path) && path[|path| - 1] == root && path[0] in Related(t, root)
    requires t.messages[path[0]].kind == AlertBundle
    ensures IsChain(t, longer) && longer[|longer| - 1] == root && longer[0] in Related(t, root)
    ensures |path| < |longer| <= |t.messages|
  {
    var c := BundleHasChild(t, root, cmID, owner, service, path[0]);
    longer := [c] + path;
    ChainExtends(t, c, path);
    ChainBound(t, longer);
  }

  /** From a bundle, following children downwards ends at an alert notification. */
  lemma {:induction false} DescendToNotification(t: Tables, root: MsgID, cmID: ContactMethodID, owner: UserID,
                                                 service: ServiceID, path: seq<MsgID>)
    requires Keyed(t) && root in t.messages && t.messages[root].lastStatus == Sending
    requires AllAgree(t, root, cmID, owner, service) && t.messages[root].kind == AlertBundle
    requires IsChain(t, path) && path[|path| - 1] == root && path[0] in Related(t, root)
    requires |path| <= |t.messages|
    ensures SomeNotification(t, root)
    decreases |t.messages| - |path|
  {
    RowIsBundleOrAlert(t, root, cmID, owner, service, path[0]);
    if t.messages[path[0]].kind == AlertBundle {
      var longer := StepDown(t, root, cmID, owner, service, path);
      DescendToNotification(t, root, cmID, owner, service, longer);
    }
  }

  /**
   The query accepts only a root that is being sent, and then the related messages form a tree, so a bundle always
   contains an alert notification: the final check never changes the outcome, whatever links the table holds.
   */
  lemma FinalCheckNeverDecides(t: Tables, root: MsgID, cmID: ContactMethodID, owner: UserID, service: ServiceID)
    requires Keyed(t) && root in t.messages && t.messages[root].lastStatus == Sending
    requires AllAgree(t, root, cmID, owner, service) && t.messages[root].kind == AlertBundle
    ensures SomeNotification(t, root)
  {
    RelatedIsReachable(t, root, root);
    ChainBound(t, [root]);
    DescendToNotification(t, root, cmID, owner, service, [root]);
  }

  // ---- When a notification is allowed ----

  /** The message that is asked for: it is being sent, and to an enabled contact method of the user. */
  predicate RootIsRequested(t: Tables, req: Request) {
    && req.msgID in t.messages && req.contactMethod in t.contactMethods
    && var m := t.messages[req.msgID];
       var cm := t.contactMethods[req.contactMethod];
       && m.lastStatus == Sending && m.kind == req.kind && m.contactMethod == Some(req.contactMethod) && m.channel == None
       && m.service == req.service
       && (m.alert == Some(req.alert) || (m.alert == None && req.alert == 0))
       && (m.alertLog == Some(req.alertLog) || (m.alertLog == None && req.alertLog == 0))
       && cm.user == req.user && cm.dest == req.dest && !cm.disabled
  }

  /** The service a message is about: its own, or else that of its alert. */
  predicate IsServiceOf(t: Tables, id: MsgID, service: ServiceID) {
    && id in t.messages && service in t.services
    && (t.messages[id].service == Some(service) || (t.messages[id].service == None && HasAlertOf(t, id, service)))
  }

  predicate HasAlertOf(t: Tables, id: MsgID, service: ServiceID)
    requires id in t.messages
  {
    exists a :: a in t.alerts && t.messages[id].alert == Some(a) && t.alerts[a] == Some(service)
  }

  /** A message that may be part of the notification. */
  predicate Fits(t: Tables, req: Request, service: ServiceID, id: MsgID)
    requires id in t.messages
  {
    var m := t.messages[id];
    && m.contactMethod == Some(req.contactMethod) && m.user == Some(req.user) && m.channel == None
    && match m.kind
       case AlertNotification => m.service == Some(service) && HasAlertOf(t, id, service) && m.alertLog == None
       case AlertStatusUpdate =>
         && id == req.msgID && m.service in {Some(service), None} && HasAlertOf(t, id, service)
         && exists l :: l in t.alertLogs && m.alertLog == Some(l) && t.alertLogs[l] == m.alert
       case AlertBundle =>
         && m.service == Some(service) && m.alert == None && m.alertLog == None
         && exists c :: c in t.messages && t.messages[c].lastStatus == Bundled && t.messages[c].statusDetails == id
       case OtherType => false
  }

  /** The message is about the service, and everything bundled into it, directly or not, fits. */
  ghost predicate Authorized(t: Tables, req: Request, service: ServiceID) {
    && RootIsRequested(t, req) && IsServiceOf(t, req.msgID, service)
    && forall id :: id in t.messages && Reaches(t, id, req.msgID) ==> Fits(t, req, service, id)
  }

  lemma HasAlertExactly(t: Tables, id: MsgID, service: ServiceID)
    requires id in t.messages
    ensures HasAlertOf(t, id, service) <==> AlertOfService(t, t.messages[id].alert, service)
  {
    if AlertOfService(t, t.messages[id].alert, service) {
      var a := t.messages[id].alert.value;
      assert a in t.alerts && t.messages[id].alert == Some(a);
    }
  }

  lemma HasLogExactly(t: Tables, id: MsgID)
    requires id in t.messages && t.messages[id].alert.Some?
    ensures LogOfAlert(t, t.messages[id].alertLog, t.messages[id].alert)
            <==> exists l :: l in t.alertLogs && t.messages[id].alertLog == Some(l) && t.alertLogs[l] == t.messages[id].alert
  {
    if LogOfAlert(t, t.messages[id].alertLog, t.messages[id].alert) {
      var l := t.messages[id].alertLog.value;
      assert l in t.alertLogs && t.messages[id].alertLog == Some(l);
    }
  }

  lemma HasChildExactly(t: Tables, id: MsgID)
    ensures (exists c :: c in t.messages.Keys && Link(t, c, id))
            <==> exists c :: c in t.messages && t.messages[c].lastStatus == Bundled && t.messages[c].statusDetails == id
  {
    if c :| c in t.messages && t.messages[c].lastStatus == Bundled && t.messages[c].statusDetails == id {
      assert Link(t, c, id);
    }
    if c :| c in t.messages.Keys && Link(t, c, id) {
      assert c in t.messages && t.messages[c].lastStatus == Bundled && t.messages[c].statusDetails == id;
    }
  }

  lemma RowAgreesWhenFits(t: Tables, req: Request, service: ServiceID, id: MsgID)
    requires Keyed(t) && id in t.messages
    ensures RowAgrees(t, req.msgID, req.contactMethod, req.user, service, t.messages[id], t.messages.Keys)
            <==> Fits(t, req, service, id)
  {
    assert t.messages[id].id == id;
    HasAlertExactly(t, id, service);
    HasChildExactly(t, id);
    if t.messages[id].alert.Some? {
      HasLogExactly(t, id);
    }
  }

  lemma AgreeWhenAllFit(t: Tables, req: Request, service: ServiceID)
    requires Keyed(t) && req.msgID in t.messages
    ensures AllAgree(t, req.msgID, req.contactMethod, req.user, service)
            <==> forall id :: id in t.messages && Reaches(t, id, req.msgID) ==> Fits(t, req, service, id)
  {
    AllAgreeExactly(t, req.msgID, req.contactMethod, req.user, service);
    forall id | id in t.messages
      ensures RowAgrees(t, req.msgID, req.contactMethod, req.user, service, t.messages[id], t.messages.Keys)
              <==> Fits(t, req, service, id)
    {
      RowAgreesWhenFits(t, req, service, id);
    }
  }

  lemma ServiceOfExactly(t: Tables, id: MsgID, service: ServiceID)
    requires id in t.messages
    ensures IsServiceOf(t, id, service) <==> ServiceOf(t, t.messages[id]) == Some(service) && service in t.services
  {
    HasAlertExactly(t, id, service);
  }

  lemma RootMatchesExactly(t: Tables, req: Request)
    ensures RootIsRequested(t, req) <==>
            && req.msgID in t.messages && req.contactMethod in t.contactMethods
            && t.messages[req.msgID].contactMethod == Some(req.contactMethod)
            && RootMatches(t.messages[req.msgID], t.contactMethods[req.contactMethod], req)
  {
  }

  lemma QueryIsAuthorized(t: Tables, req: Request) returns (service: ServiceID)
    requires Keyed(t) && Query(t, req).Some? && Query(t, req).value.valid
    ensures Authorized(t, req, service)
  {
    var m := t.messages[req.msgID];
    service := ServiceOf(t, m).value;
    assert m.contactMethod == Some(req.contactMethod);
    RootMatchesExactly(t, req);
    ServiceOfExactly(t, req.msgID, service);
    AgreeWhenAllFit(t, req, service);
  }

  lemma AuthorizedIsQueried(t: Tables, req: Request, service: ServiceID)
    requires Keyed(t) && Authorized(t, req, service)
    ensures Query(t, req) == Some(Authority(req.user, t.services[service], true))
  {
    RootMatchesExactly(t, req);
    ServiceOfExactly(t, req.msgID, service);
    AgreeWhenAllFit(t, req, service);
    if t.messages[req.msgID].kind == AlertBundle {
      FinalCheckNeverDecides(t, req.msgID, req.contactMethod, req.user, service);
    }
  }

  /** The notification is authorized for a service, of whose organization the check says this about the user. */
  ghost predicate MemberIs(t: Tables, req: Request, member: (UserID, OrgID) -> OrgCheck, org: OrgCheck) {
    exists service :: Authorized(t, req, service) && service in t.services && member(req.user, t.services[service]) == org
  }

  /** The decision in every case. */
  lemma GuardDecides(t: Tables, req: Request, isUserCM: bool, isUUID: string -> bool, dbOk: bool,
                     member: (UserID, OrgID) -> OrgCheck)
    requires Keyed(t)
    ensures var checked := isUserCM && req.kind != OtherType;
            var proper := ProperIDs(req, isUUID);
            var decision := Guard(t, req, isUserCM, isUUID, dbOk, member);
            && (decision == NotChecked <==> !checked)
            && (decision == Rejected("notification_recipient_invalid")
                <==> checked && (!proper || (dbOk && forall service :: !Authorized(t, req, service))))
            && (decision == Unavailable <==> checked && proper && (!dbOk || MemberIs(t, req, member, OrgError)))
            && (decision == Rejected("notification_recipient_org_denied")
                <==> checked && proper && dbOk && MemberIs(t, req, member, OrgNotFound))
            && (decision == Allowed <==> checked && proper && dbOk && MemberIs(t, req, member, OrgOk))
  {
    if Query(t, req).Some? && Query(t, req).value.valid {
      var service := QueryIsAuthorized(t, req);
      AuthorizedIsQueried(t, req, service);
      assert MemberIs(t, req, member, member(req.user, t.services[service]));
    }
    forall service | Authorized(t, req, service)
      ensures Query(t, req) == Some(Authority(req.user, t.services[service], true))
    {
      AuthorizedIsQueried(t, req, service);
    }
    assert |"notification_recipient_invalid"| != |"notification_recipient_org_denied"|;
  }

  /** Without that condition it does: two bundles bundled into each other agree row by row, and hold no alert. */
  lemma CyclicBundlesAgree()
    ensures var a := Message("a", AlertBundle, Some("cm"), None, Some("u"), Some("s"), None, None, Bundled, "b");
            var b := Message("b", AlertBundle, Some("cm"), None, Some("u"), Some("s"), None, None, Bundled, "a");
            var t := Tables(map["a" := a, "b" := b], map[], map[], map[], map[]);
            Keyed(t) && AllAgree(t, "a", "cm", "u", "s") && !SomeNotification(t, "a")
  {
    var a := Message("a", AlertBundle, Some("cm"), None, Some("u"), Some("s"), None, None, Bundled, "b");
    var b := Message("b", AlertBundle, Some("cm"), None, Some("u"), Some("s"), None, None, Bundled, "a");
    var t := Tables(map["a" := a, "b" := b], map[], map[], map[], map[]);
    RelatedIsReachable(t, "a", "b");
    assert Link(t, "b", "a") && Link(t, "a", "b");
    assert ChainTo(t, ["b", "a"], "b", "a");
    assert "b" in Related(t, "a") && "a" in Related(t, "a");
  }
}
