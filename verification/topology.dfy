/** The per-tenant topology cache of internal/controlplane/server.go as a
    function of the alerts it is fed: `Apply` is updateTopologyFromAlert on one
    tenant's state, `Replay` a whole history of alerts and clears. */
module Topology {
  import opened Wrappers
  import opened Alerts
  import opened GoText
  import Connections

  type Connection = Connections.Connection

  datatype Queue = Queue(name: string, durable: bool, exclusive: bool, autoDelete: bool,
                         firstSeen: int, lastSeen: int, active: bool)
  datatype Exchange = Exchange(name: string, kind: string, durable: bool, firstSeen: int, active: bool)
  datatype Consumer = Consumer(consumerTag: string, queue: string, exclusive: bool, firstSeen: int, active: bool)

  datatype Topo = Topo(queues: map<string, Queue>, exchanges: map<string, Exchange>,
                       consumers: map<string, Consumer>, connections: seq<Connection>, lastUpdated: int)

  const EMPTY: Topo := Topo(map[], map[], map[], [], ZERO_TIME)

  const DURABLE := "durable=true"
  const EXCLUSIVE := "exclusive=true"
  const AUTO_DELETE := "auto-delete=true"
  const EXCLUSIVE_CONSUMER := "(exclusive)"

  // ---------------------------------------------------------------- text

  /** extractBetween: the trimmed text between the first `after` and the next `before`. */
  function ExtractBetween(s: string, after: string, before: string): string {
    var i := Index(s, after);
    if i < 0 then ""
    else
      var rest := s[i + |after|..];
      var j := Index(rest, before);
      if j < 0 then TrimSpace(rest) else TrimSpace(rest[..j])
  }

  /** The key a consumer registration is filed under. */
  function ConsumerKey(layman: string, entity: string): string {
    var tag := ExtractBetween(layman, "tag=", ",");
    Trim(if tag == "" then "consumer@" + entity else tag, {'"'})
  }

  /** The exchange type announced in the text, if there is one. */
  function AnnouncedType(layman: string): Option<string> {
    var idx := Index(layman, "type=");
    if idx < 0 then None
    else
      var rest := layman[idx + 5..];
      var end := IndexAny(rest, {' ', ',', '.'});
      if end > 0 then Some(rest[..end]) else None
  }

  /** filepath.Base, the last element of a slash-separated path. */
  function Base(path: string): string {
    if path == "" then "."
    else
      var p := TrimRight(path, {'/'});
      if p == "" then "/" else LastElement(p)
  }

  function LastElement(p: string): string {
    if p == "" || p[|p| - 1] == '/' then "" else LastElement(p[..|p| - 1]) + [p[|p| - 1]]
  }

  /** The cases of updateTopologyFromAlert. */
  datatype Rule = QueueDeclared | QueueDeleted | ExchangeDeclared | ExchangeDeleted
                | ConsumerRegistered | ConsumerCancelled | ConnectionOpened | ConnectionClosed | Ignored

  function RuleOf(ruleName: string): Rule {
    match ruleName
    case "queue_declare" => QueueDeclared
    case "queue_deleted" => QueueDeleted
    case "exchange_declare" => ExchangeDeclared
    case "exchange_deleted" => ExchangeDeleted
    case "consumer_registered" => ConsumerRegistered
    case "consumer_cancelled" => ConsumerCancelled
    case "connection_opened" => ConnectionOpened
    case "connection_closed_cleanly" => ConnectionClosed
    case "connection_closed_unexpectedly" => ConnectionClosed
    case "connection_close_unparseable" => ConnectionClosed
    case _ => Ignored
  }

  /** What an alert means for the connection list. */
  function ConnectionEvent(rule: Rule, methodName: string, now: int): Connections.Event {
    match rule
    case ConnectionOpened => Connections.Opened(Base(methodName), now)
    case ConnectionClosed => Connections.Closed(now)
    case _ => Connections.Unrelated
  }

  // ---------------------------------------------------------------- one alert

  function Redeclared(q: Queue, layman: string, now: int): Queue {
    q.(lastSeen := now,
       active := true,
       durable := q.durable || Contains(layman, DURABLE),
       exclusive := q.exclusive || Contains(layman, EXCLUSIVE),
       autoDelete := q.autoDelete || Contains(layman, AUTO_DELETE))
  }

  function DeclareQueue(t: Topo, name: string, layman: string, now: int): Topo {
    var q := if name in t.queues then t.queues[name] else Queue(name, false, false, false, now, now, true);
    t.(queues := t.queues[name := Redeclared(q, layman, now)])
  }

  function DeleteQueue(t: Topo, name: string): Topo {
    if name in t.queues then t.(queues := t.queues[name := t.queues[name].(active := false)]) else t
  }

  function RedeclaredExchange(x: Exchange, layman: string): Exchange {
    var announced := AnnouncedType(layman);
    x.(kind := if announced.Some? then announced.value else x.kind,
       durable := x.durable || Contains(layman, DURABLE),
       active := true)
  }

  function DeclareExchange(t: Topo, name: string, layman: string, now: int): Topo {
    var x := if name in t.exchanges then t.exchanges[name] else Exchange(name, "", false, now, true);
    t.(exchanges := t.exchanges[name := RedeclaredExchange(x, layman)])
  }

  function DeleteExchange(t: Topo, name: string): Topo {
    if name in t.exchanges then t.(exchanges := t.exchanges[name := t.exchanges[name].(active := false)]) else t
  }

  function RegisterConsumer(t: Topo, entity: string, layman: string, now: int): Topo {
    var tag := ConsumerKey(layman, entity);
    t.(consumers := t.consumers[tag :=
      Consumer(tag, entity, Contains(layman, EXCLUSIVE_CONSUMER), now, true)])
  }

  function CancelConsumer(t: Topo, tag: string): Topo {
    if tag in t.consumers then t.(consumers := t.consumers[tag := t.consumers[tag].(active := false)]) else t
  }

  function TrackConnection(t: Topo, e: Connections.Event): Topo {
    t.(connections := Connections.Step(t.connections, e))
  }

  /** updateTopologyFromAlert on the state of the alert's tenant. */
  function Apply(t: Topo, a: Alert, now: int): Topo {
    ApplyRule(t.(lastUpdated := now), RuleOf(a.ruleName), a, now)
  }

  function ApplyRule(t: Topo, rule: Rule, a: Alert, now: int): Topo {
    match rule
    case QueueDeclared => if a.entity == "" then t else DeclareQueue(t, a.entity, a.layman, now)
    case QueueDeleted => DeleteQueue(t, a.entity)
    case ExchangeDeclared => if a.entity == "" then t else DeclareExchange(t, a.entity, a.layman, now)
    case ExchangeDeleted => DeleteExchange(t, a.entity)
    case ConsumerRegistered => RegisterConsumer(t, a.entity, a.layman, now)
    case ConsumerCancelled => CancelConsumer(t, a.entity)
    case ConnectionOpened => TrackConnection(t, ConnectionEvent(rule, a.methodName, now))
    case ConnectionClosed => TrackConnection(t, ConnectionEvent(rule, a.methodName, now))
    case Ignored => t
  }

  // ---------------------------------------------------------------- histories

  /** `clock` is the time read when the alert carries none. */
  datatype Event = Posted(alert: Alert, clock: int) | Cleared(tenant: string)

  /** An alert with the time it is recorded under. */
  datatype Stamp = Stamp(alert: Alert, now: int)

  function Stamped(a: Alert, clock: int): Stamp {
    Stamp(a, if a.timestamp == ZERO_TIME then clock else a.timestamp)
  }

  function StateOf(m: map<string, Topo>, tenant: string): Topo {
    if tenant in m then m[tenant] else EMPTY
  }

  function Step(m: map<string, Topo>, e: Event): map<string, Topo> {
    match e
    case Posted(a, clock) => m[a.tenantID := Apply(StateOf(m, a.tenantID), a, Stamped(a, clock).now)]
    case Cleared(tenant) => m - {tenant}
  }

  function Replay(h: seq<Event>): map<string, Topo> {
    if h == [] then map[] else Step(Replay(h[..|h| - 1]), h[|h| - 1])
  }

  /** One tenant's alerts since its last clear. */
  function Since(h: seq<Event>, tenant: string): seq<Stamp> {
    if h == [] then []
    else
      var before := Since(h[..|h| - 1], tenant);
      match h[|h| - 1]
      case Posted(a, clock) => if a.tenantID == tenant then before + [Stamped(a, clock)] else before
      case Cleared(t) => if t == tenant then [] else before
  }

  function Fold(s: seq<Stamp>): Topo {
    if s == [] then EMPTY else Apply(Fold(s[..|s| - 1]), s[|s| - 1].alert, s[|s| - 1].now)
  }

  function About(e: Event): string {
    match e
    case Posted(a, _) => a.tenantID
    case Cleared(t) => t
  }

  /** The events of one tenant. */
  function Only(h: seq<Event>, tenant: string): seq<Event> {
    if h == [] then []
    else
      var before := Only(h[..|h| - 1], tenant);
      if About(h[|h| - 1]) == tenant then before + [h[|h| - 1]] else before
  }

  /** A tenant's state is what its alerts since its last clear amount to; a tenant
      without any has no state. */
  lemma {:induction false} ReplayIsFoldSinceClear(h: seq<Event>, tenant: string)
    ensures tenant in Replay(h) <==> Since(h, tenant) != []
    ensures StateOf(Replay(h), tenant) == Fold(Since(h, tenant))
  {
    if h == [] {
    } else {
      var before := h[..|h| - 1];
      ReplayIsFoldSinceClear(before, tenant);
      if h[|h| - 1].Posted? {
        var st := Stamped(h[|h| - 1].alert, h[|h| - 1].clock);
        assert (Since(before, tenant) + [st])[..|Since(before, tenant)|] == Since(before, tenant);
      }
    }
  }

  /** Main result: other tenants' alerts and clears leave no trace. */
  lemma {:induction false} TenantsAreIsolated(h: seq<Event>, tenant: string)
    ensures tenant in Replay(h) <==> tenant in Replay(Only(h, tenant))
    ensures StateOf(Replay(h), tenant) == StateOf(Replay(Only(h, tenant)), tenant)
  {
    if h == [] {
    } else {
      var before, e := h[..|h| - 1], h[|h| - 1];
      TenantsAreIsolated(before, tenant);
      if About(e) == tenant {
        var own := Only(before, tenant);
        assert (own + [e])[..|own|] == own;
      }
    }
  }
}
