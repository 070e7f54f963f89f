/** The topology cache as the server keeps it: a map from tenant to a mutable
    TopologyState, whose entries are objects updated in place.  Every method is
    tied to the value-level functions of module Topology. */
module TopologyServer {
  import opened Wrappers
  import opened Alerts
  import opened GoText
  import opened Topology
  import Connections

  class QueueInfo {
    const name: string
    const firstSeen: int
    var durable: bool
    var exclusive: bool
    var autoDelete: bool
    var lastSeen: int
    var active: bool

    constructor (name: string, firstSeen: int)
      ensures this.name == name
      ensures Value() == Queue(name, false, false, false, firstSeen, firstSeen, true)
    {
      this.name, this.firstSeen := name, firstSeen;
      durable, exclusive, autoDelete, lastSeen, active := false, false, false, firstSeen, true;
    }

    ghost function Value(): Queue
      reads this
    {
      Queue(name, durable, exclusive, autoDelete, firstSeen, lastSeen, active)
    }

    method Declared(layman: string, now: int)
      modifies this
      ensures Value() == Redeclared(old(Value()), layman, now)
    {
      lastSeen := now;
      active := true;
      if Contains(layman, DURABLE) {
        durable := true;
      }
      if Contains(layman, EXCLUSIVE) {
        exclusive := true;
      }
      if Contains(layman, AUTO_DELETE) {
        autoDelete := true;
      }
    }
  }

  class ExchangeInfo {
    const name: string
    const firstSeen: int
    var kind: string
    var durable: bool
    var active: bool

    constructor (name: string, firstSeen: int)
      ensures this.name == name
      ensures Value() == Exchange(name, "", false, firstSeen, true)
    {
      this.name, this.firstSeen := name, firstSeen;
      kind, durable, active := "", false, true;
    }

    ghost function Value(): Exchange
      reads this
    {
      Exchange(name, kind, durable, firstSeen, active)
    }

    method Declared(layman: string)
      modifies this
      ensures Value() == RedeclaredExchange(old(Value()), layman)
    {
      hide Contains, Index, IndexAny;
      var idx := Index(layman, "type=");
      if idx >= 0 {
        var rest := layman[idx + 5..];
        var end := IndexAny(rest, {' ', ',', '.'});
        if end > 0 {
          kind := rest[..end];
        }
      }
      if Contains(layman, DURABLE) {
        durable := true;
      }
      active := true;
    }
  }

  class ConsumerInfo {
    const consumerTag: string
    const queue: string
    const exclusive: bool
    const firstSeen: int
    var active: bool

    constructor (consumerTag: string, queue: string, exclusive: bool, firstSeen: int)
      ensures this.consumerTag == consumerTag
      ensures Value() == Consumer(consumerTag, queue, exclusive, firstSeen, true)
    {
      this.consumerTag, this.queue, this.exclusive, this.firstSeen := consumerTag, queue, exclusive, firstSeen;
      active := true;
    }

    ghost function Value(): Consumer
      reads this
    {
      Consumer(consumerTag, queue, exclusive, firstSeen, active)
    }
  }

  class ConnectionInfo {
    const source: string
    const openedAt: int
    var closedAt: Option<int>
    var active: bool

    constructor (source: string, openedAt: int)
      ensures Value() == Connections.Connection(source, openedAt, None, true)
    {
      this.source, this.openedAt := source, openedAt;
      closedAt, active := None, true;
    }

    ghost function Value(): Connection
      reads this
    {
      Connections.Connection(source, openedAt, closedAt, active)
    }
  }

  /** One tenant's state.  The ghost fields hold the abstract values of the
      entries, so that View() is the value-level state. */
  class TopologyState {
    var queues: map<string, QueueInfo>
    var exchanges: map<string, ExchangeInfo>
    var consumers: map<string, ConsumerInfo>
    var connections: seq<ConnectionInfo>
    var lastUpdated: int
    ghost var queueView: map<string, Queue>
    ghost var exchangeView: map<string, Exchange>
    ghost var consumerView: map<string, Consumer>
    ghost var connectionView: seq<Connection>
    ghost var Repr: set<object>

    ghost function View(): Topo
      reads this
    {
      Topo(queueView, exchangeView, consumerView, connectionView, lastUpdated)
    }

    ghost predicate Valid()
      reads this, Repr
      ensures Valid() ==> this in Repr
    {
      && Owned() && ValidQueues() && ValidExchanges() && ValidConsumers() && ValidConnections()
    }

    ghost predicate Owned()
      reads this
    {
      && this in Repr
      && (forall k :: k in queues ==> queues[k] in Repr)
      && (forall k :: k in exchanges ==> exchanges[k] in Repr)
      && (forall k :: k in consumers ==> consumers[k] in Repr)
      && forall i :: 0 <= i < |connections| ==> connections[i] in Repr
    }

    ghost predicate ValidQueues()
      reads `queues, `queueView, queues.Values
    {
      && queueView.Keys == queues.Keys
      && forall k :: k in queues ==> queues[k].name == k && queues[k].Value() == queueView[k]
    }

    ghost predicate ValidExchanges()
      reads `exchanges, `exchangeView, exchanges.Values
    {
      && exchangeView.Keys == exchanges.Keys
      && forall k :: k in exchanges ==> exchanges[k].name == k && exchanges[k].Value() == exchangeView[k]
    }

    ghost predicate ValidConsumers()
      reads `consumers, `consumerView, consumers.Values
    {
      && consumerView.Keys == consumers.Keys
      && forall k :: k in consumers ==> consumers[k].consumerTag == k && consumers[k].Value() == consumerView[k]
    }

    ghost predicate ValidConnections()
      reads `connections, `connectionView, connections
    {
      && |connectionView| == |connections|
      && (forall i :: 0 <= i < |connections| ==> connections[i].Value() == connectionView[i])
      && forall i, j :: 0 <= i < j < |connections| ==> connections[i] != connections[j]
    }

    constructor ()
      ensures Valid() && fresh(Repr) && View() == EMPTY
    {
      queues, exchanges, consumers, connections, lastUpdated := map[], map[], map[], [], ZERO_TIME;
      queueView, exchangeView, consumerView, connectionView := map[], map[], map[], [];
      Repr := {this};
    }

    method DeclareQueue(entity: string, layman: string, now: int)
      requires ValidQueues()
      modifies `queues, `queueView, `Repr, if entity in queues then {queues[entity]} else {}
      ensures ValidQueues()
      ensures entity in queues && queues == old(queues)[entity := queues[entity]]
      ensures Repr == old(Repr) + {queues[entity]}
      ensures if entity in old(queues) then queues[entity] == old(queues)[entity] else fresh(queues[entity])
      ensures View() == Topology.DeclareQueue(old(View()), entity, layman, now)
    {
      hide QueueInfo.Value, Redeclared;
      var entry: QueueInfo;
      if entity in queues {
        entry := queues[entity];
      } else {
        entry := new QueueInfo(entity, now);
      }
      entry.Declared(layman, now);
      queues := queues[entity := entry];
      Repr := Repr + {entry};
      queueView := queueView[entity := entry.Value()];
      forall k | k in queues
        ensures queues[k].name == k && queues[k].Value() == queueView[k]
      {
        if k != entity {
          assert queues[k] == old(queues)[k] && old(queues[k].Value()) == queueView[k];
        }
      }
    }

    method DeleteQueue(entity: string)
      requires ValidQueues()
      modifies `queueView, if entity in queues then {queues[entity]} else {}
      ensures ValidQueues()
      ensures View() == Topology.DeleteQueue(old(View()), entity)
    {
      if entity in queues {
        queues[entity].active := false;
      }
      queueView := Topology.DeleteQueue(View(), entity).queues;
      forall k | k in queues
        ensures queues[k].name == k && queues[k].Value() == queueView[k]
      {
        assert old(queues[k].Value()) == old(queueView)[k];
      }
    }

    method DeclareExchange(entity: string, layman: string, now: int)
      requires ValidExchanges()
      modifies `exchanges, `exchangeView, `Repr, if entity in exchanges then {exchanges[entity]} else {}
      ensures ValidExchanges()
      ensures entity in exchanges && exchanges == old(exchanges)[entity := exchanges[entity]]
      ensures Repr == old(Repr) + {exchanges[entity]}
      ensures if entity in old(exchanges) then exchanges[entity] == old(exchanges)[entity] else fresh(exchanges[entity])
      ensures View() == Topology.DeclareExchange(old(View()), entity, layman, now)
    {
      hide ExchangeInfo.Value, RedeclaredExchange;
      var entry: ExchangeInfo;
      if entity in exchanges {
        entry := exchanges[entity];
      } else {
        entry := new ExchangeInfo(entity, now);
      }
      entry.Declared(layman);
      exchanges := exchanges[entity := entry];
      Repr := Repr + {entry};
      exchangeView := exchangeView[entity := entry.Value()];
      forall k | k in exchanges
        ensures exchanges[k].name == k && exchanges[k].Value() == exchangeView[k]
      {
        if k != entity {
          assert exchanges[k] == old(exchanges)[k] && old(exchanges[k].Value()) == exchangeView[k];
        }
      }
    }

    method DeleteExchange(entity: string)
      requires ValidExchanges()
      modifies `exchangeView, if entity in exchanges then {exchanges[entity]} else {}
      ensures ValidExchanges()
      ensures View() == Topology.DeleteExchange(old(View()), entity)
    {
      if entity in exchanges {
        exchanges[entity].active := false;
      }
      exchangeView := Topology.DeleteExchange(View(), entity).exchanges;
      forall k | k in exchanges
        ensures exchanges[k].name == k && exchanges[k].Value() == exchangeView[k]
      {
        assert old(exchanges[k].Value()) == old(exchangeView)[k];
      }
    }

    method RegisterConsumer(entity: string, layman: string, now: int)
      requires ValidConsumers()
      modifies `consumers, `consumerView, `Repr
      ensures ValidConsumers()
      ensures var tag := ConsumerKey(layman, entity);
              tag in consumers && fresh(consumers[tag]) &&
              consumers == old(consumers)[tag := consumers[tag]] && Repr == old(Repr) + {consumers[tag]}
      ensures View() == Topology.RegisterConsumer(old(View()), entity, layman, now)
    {
      var tag := ExtractBetween(layman, "tag=", ",");
      if tag == "" {
        tag := "consumer@" + entity;
      }
      tag := Trim(tag, {'"'});
      var c := new ConsumerInfo(tag, entity, Contains(layman, EXCLUSIVE_CONSUMER), now);
      consumers := consumers[tag := c];
      Repr := Repr + {c};
      consumerView := Topology.RegisterConsumer(View(), entity, layman, now).consumers;
    }

    method CancelConsumer(entity: string)
      requires ValidConsumers()
      modifies `consumerView, if entity in consumers then {consumers[entity]} else {}
      ensures ValidConsumers()
      ensures View() == Topology.CancelConsumer(old(View()), entity)
    {
      if entity in consumers {
        consumers[entity].active := false;
      }
      consumerView := Topology.CancelConsumer(View(), entity).consumers;
    }

    method OpenConnection(source: string, now: int)
      requires ValidConnections()
      modifies `connections, `connectionView, `Repr, connections
      ensures ValidConnections()
      ensures old(Repr) <= Repr && fresh(Repr - old(Repr))
      ensures forall c :: c in connections ==> c in old(connections) || c in Repr
      ensures View() == Topology.TrackConnection(old(View()), Connections.Opened(source, now))
    {
      var c := new ConnectionInfo(source, now);
      connections := connections + [c];
      if |connections| > 50 {
        connections := connections[|connections| - 50..];
      }
      Repr := Repr + {c};
      connectionView := Topology.TrackConnection(View(), Connections.Opened(source, now)).connections;
    }

    method CloseConnection(now: int)
      requires ValidConnections()
      modifies `connectionView, connections
      ensures ValidConnections()
      ensures View() == Topology.TrackConnection(old(View()), Connections.Closed(now))
    {
      hide Connections.CloseNewest, CloseNewestFrom;
      ghost var log := connectionView;
      CloseNewestStart(log, now);
      var i := |connections| - 1;
      while i >= 0
        invariant unchanged(this) && unchanged(connections)
        invariant -1 <= i < |connections|
        invariant forall j :: i < j < |connections| ==> !log[j].active
        invariant CloseNewestFrom(log, i + 1, now)
      {
        if connections[i].active {
          connections[i].active := false;
          connections[i].closedAt := Some(now);
          CloseNewestHere(log, i, now);
          break;
        }
        CloseNewestSkips(log, i, now);
        i := i - 1;
      }
      if i < 0 {
        CloseNewestNone(log, now);
      }
      connectionView := Topology.TrackConnection(View(), Connections.Closed(now)).connections;
    }

    // The switch over the rule name, grouped by the kind of entry it concerns.

    method UpdateQueues(rule: Rule, a: Alert, now: int)
      requires Valid() && rule in {QueueDeclared, QueueDeleted}
      modifies Repr
      ensures Valid() && fresh(Repr - old(Repr))
      ensures View() == ApplyRule(old(View()), rule, a, now)
    {
      hide ValidQueues, ValidExchanges, ValidConsumers, ValidConnections;
      if rule == QueueDeclared {
        if a.entity == "" {
          return;
        }
        DeclareQueue(a.entity, a.layman, now);
      } else {
        DeleteQueue(a.entity);
      }
    }

    method UpdateExchanges(rule: Rule, a: Alert, now: int)
      requires Valid() && rule in {ExchangeDeclared, ExchangeDeleted}
      modifies Repr
      ensures Valid() && fresh(Repr - old(Repr))
      ensures View() == ApplyRule(old(View()), rule, a, now)
    {
      hide ValidQueues, ValidExchanges, ValidConsumers, ValidConnections;
      if rule == ExchangeDeclared {
        if a.entity == "" {
          return;
        }
        DeclareExchange(a.entity, a.layman, now);
      } else {
        DeleteExchange(a.entity);
      }
    }

    method UpdateConsumers(rule: Rule, a: Alert, now: int)
      requires Valid() && rule in {ConsumerRegistered, ConsumerCancelled}
      modifies Repr
      ensures Valid() && fresh(Repr - old(Repr))
      ensures View() == ApplyRule(old(View()), rule, a, now)
    {
      hide ValidQueues, ValidExchanges, ValidConsumers, ValidConnections;
      if rule == ConsumerRegistered {
        RegisterConsumer(a.entity, a.layman, now);
      } else {
        CancelConsumer(a.entity);
      }
    }

    method UpdateConnections(rule: Rule, a: Alert, now: int)
      requires Valid() && rule in {ConnectionOpened, ConnectionClosed}
      modifies Repr
      ensures Valid() && fresh(Repr - old(Repr))
      ensures View() == ApplyRule(old(View()), rule, a, now)
    {
      hide ValidQueues, ValidExchanges, ValidConsumers, ValidConnections;
      if rule == ConnectionOpened {
        OpenConnection(Base(a.methodName), now);
      } else {
        CloseConnection(now);
      }
    }

    method Update(a: Alert, now: int)
      requires Valid()
      modifies Repr
      ensures Valid() && fresh(Repr - old(Repr))
      ensures View() == Apply(old(View()), a, now)
    {
      var rule := RuleOf(a.ruleName);
      lastUpdated := now;
      if rule in {QueueDeclared, QueueDeleted} {
        UpdateQueues(rule, a, now);
      } else if rule in {ExchangeDeclared, ExchangeDeleted} {
        UpdateExchanges(rule, a, now);
      } else if rule in {ConsumerRegistered, ConsumerCancelled} {
        UpdateConsumers(rule, a, now);
      } else if rule in {ConnectionOpened, ConnectionClosed} {
        UpdateConnections(rule, a, now);
      }
    }
  }

  /** Entries from `k` on are inactive, so closing only concerns those before. */
  ghost predicate CloseNewestFrom(log: seq<Connection>, k: nat, now: int)
  {
    k <= |log| && Connections.CloseNewest(log, now) == Connections.CloseNewest(log[..k], now) + log[k..]
  }

  lemma CloseNewestStart(log: seq<Connection>, now: int)
    ensures CloseNewestFrom(log, |log|, now)
  {
    assert log[..|log|] == log;
  }

  lemma CloseNewestNone(log: seq<Connection>, now: int)
    requires CloseNewestFrom(log, 0, now)
    ensures Connections.CloseNewest(log, now) == log
  {
  }

  lemma CloseNewestSkips(log: seq<Connection>, i: nat, now: int)
    requires i < |log| && CloseNewestFrom(log, i + 1, now) && !log[i].active
    ensures CloseNewestFrom(log, i, now)
  {
    assert log[..i + 1][..i] == log[..i];
  }

  lemma CloseLast(log: seq<Connection>, now: int)
    requires log != [] && log[|log| - 1].active
    ensures var n := |log| - 1;
            Connections.CloseNewest(log, now) == log[..n] + [log[n].(active := false, closedAt := Some(now))]
  {
  }

  lemma CloseNewestHere(log: seq<Connection>, i: nat, now: int)
    requires i < |log| && CloseNewestFrom(log, i + 1, now) && log[i].active
    ensures Connections.CloseNewest(log, now) == log[i := log[i].(active := false, closedAt := Some(now))]
  {
    hide Connections.CloseNewest;
    var closed := log[i].(active := false, closedAt := Some(now));
    assert log[..i + 1][..i] == log[..i];
    CloseLast(log[..i + 1], now);
    assert log[..i] + [closed] + log[i + 1..] == log[i := closed];
  }

  lemma ReplayPosted(h: seq<Event>, a: Alert, clock: int)
    ensures var m := Replay(h);
            Replay(h + [Posted(a, clock)]) == m[a.tenantID := Apply(StateOf(m, a.tenantID), a, Stamped(a, clock).now)]
  {
    assert (h + [Posted(a, clock)])[..|h|] == h;
  }

  lemma ReplayCleared(h: seq<Event>, tenantID: string)
    ensures Replay(h + [Cleared(tenantID)]) == Replay(h) - {tenantID}
  {
    assert (h + [Cleared(tenantID)])[..|h|] == h;
  }

  /** The objects of one tenant represent `value`. */
  ghost predicate Shows(topo: TopologyState, value: Topo)
    reads topo, topo.Repr
    ensures Shows(topo, value) ==> topo in topo.Repr
  {
    topo.Valid() && topo.View() == value
  }

  lemma ShowsIff(topo: TopologyState, value: Topo)
    ensures Shows(topo, value) <==> topo.Valid() && topo.View() == value
  {
  }

  class Server {
    var topology: map<string, TopologyState>
    ghost var view: map<string, Topo>      // the abstract value of `topology`
    ghost var history: seq<Event>          // every alert and clear so far
    ghost var cells: set<object>           // every object of the cached states

    ghost predicate Valid()
      reads this, cells
      ensures Valid() ==> this !in cells
    {
      Cached() && view == Replay(history)
    }

    /** The object graph represents `view`, and tenants share no object. */
    ghost predicate Cached()
      reads `topology, `view, `cells, cells
      ensures Cached() ==> this !in cells
    {
      && this !in cells
      && (forall t :: t in view <==> t in topology)
      && (forall t :: t in topology ==>
            topology[t] in cells && topology[t].Repr <= cells)
      && (forall t :: t in topology ==> Shows(topology[t], view[t]))
      && (forall t, u :: t in topology && u in topology && t != u ==> topology[t].Repr !! topology[u].Repr)
    }

    /** The same, leaving one tenant out. */
    ghost predicate Others(tenantID: string)
      reads `topology, `view, `cells, cells
    {
      && this !in cells
      && (forall t :: t != tenantID ==> (t in view <==> t in topology))
      && (forall t :: t in topology && t != tenantID ==>
            topology[t] in cells && topology[t].Repr <= cells && Shows(topology[t], view[t]))
      && (forall t, u :: t in topology && u in topology && t != tenantID && u != tenantID && t != u ==>
            topology[t].Repr !! topology[u].Repr)
    }

    /** The other tenants have none of these objects. */
    ghost predicate Apart(tenantID: string, own: set<object>)
      requires Others(tenantID)
      reads `topology, `view, `cells, cells
    {
      forall t :: t in topology && t != tenantID ==> topology[t].Repr !! own
    }

    lemma OthersOfCached(tenantID: string)
      requires Cached()
      ensures Others(tenantID)
      ensures tenantID in topology ==> Apart(tenantID, topology[tenantID].Repr)
    {
      hide Shows;
    }

    /** Takes one tenant's new value into the account. */
    ghost method Record(tenantID: string, value: Topo)
      requires Others(tenantID) && tenantID in topology
      requires Shows(topology[tenantID], value)
      requires Apart(tenantID, topology[tenantID].Repr) && this !in topology[tenantID].Repr
      modifies `view, `cells
      ensures Cached() && cells == old(cells) + topology[tenantID].Repr
      ensures view == old(view)[tenantID := value]
    {
      hide Shows;
      cells := cells + topology[tenantID].Repr;
      view := view[tenantID := value];
      forall t | t in topology
        ensures topology[t].Repr <= cells && Shows(topology[t], view[t])
      {
        assert this !in topology[t].Repr && old(Shows(topology[t], if t == tenantID then value else view[t]));
      }
      forall t, u | t in topology && u in topology && t != u
        ensures topology[t].Repr !! topology[u].Repr
      {
        assert t == tenantID || u == tenantID || old(topology[t].Repr !! topology[u].Repr);
      }
    }

    constructor ()
      ensures Valid() && fresh(cells) && history == []
    {
      topology := map[];
      view := map[];
      history := [];
      cells := {};
    }

    /** The tenant's state, created on first use. */
    method Lookup(tenantID: string) returns (topo: TopologyState)
      requires Cached()
      modifies `topology, `view, `cells
      ensures Cached() && fresh(cells - old(cells))
      ensures tenantID in topology && topology[tenantID] == topo
      ensures view == old(view)[tenantID := StateOf(old(view), tenantID)]
    {
      hide Cached;
      KeysOfView();
      if tenantID in topology {
        topo := topology[tenantID];
        assert view == view[tenantID := view[tenantID]];
      } else {
        topo := new TopologyState();
        ShowsIff(topo, EMPTY);
        AddTenant(tenantID, topo);
      }
    }

    lemma KeysOfView()
      requires Cached()
      ensures forall t :: t in view <==> t in topology
    {
    }

    method AddTenant(tenantID: string, topo: TopologyState)
      requires Cached() && tenantID !in topology
      requires Shows(topo, EMPTY) && topo.Repr !! cells && this !in topo.Repr
      modifies `topology, `view, `cells
      ensures Cached() && cells == old(cells) + topo.Repr
      ensures topology == old(topology)[tenantID := topo]
      ensures view == old(view)[tenantID := EMPTY]
    {
      hide Shows, Cached;
      OthersOfCached(tenantID);
      topology := topology[tenantID := topo];
      Record(tenantID, EMPTY);
    }

    /** `clock` is the time read for an alert without a timestamp. */
    method UpdateTopologyFromAlert(a: Alert, clock: int)
      requires Valid()
      modifies this, cells
      ensures Valid() && fresh(cells - old(cells))
      ensures history == old(history) + [Posted(a, clock)]
    {
      hide Cached, Replay, Apply;
      ReplayPosted(history, a, clock);
      var topo := Lookup(a.tenantID);
      var now := a.timestamp;
      if now == ZERO_TIME {
        now := clock;
      }
      UpdateTenant(topo, a, now);
      history := history + [Posted(a, clock)];
    }

    method UpdateTenant(topo: TopologyState, a: Alert, now: int)
      requires Cached() && a.tenantID in topology && topology[a.tenantID] == topo
      modifies `view, `cells, cells
      ensures Cached() && fresh(cells - old(cells))
      ensures view == old(view)[a.tenantID := Apply(old(view)[a.tenantID], a, now)]
    {
      hide Shows, Apply, Others, Apart;
      ghost var after := Apply(view[a.tenantID], a, now);
      UpdateObjects(topo, a, now);
      Record(a.tenantID, after);
    }

    /** The tenant's objects change; what the others' represent does not. */
    method UpdateObjects(topo: TopologyState, a: Alert, now: int)
      requires Cached() && a.tenantID in topology && topology[a.tenantID] == topo
      modifies topo.Repr
      ensures Others(a.tenantID) && Apart(a.tenantID, topo.Repr)
      ensures Shows(topo, Apply(view[a.tenantID], a, now)) && fresh(topo.Repr - old(topo.Repr)) && this !in topo.Repr
    {
      hide TopologyState.Valid, TopologyState.View, Apply, Shows;
      ShowsIff(topo, view[a.tenantID]);
      topo.Update(a, now);
      ShowsIff(topo, Apply(view[a.tenantID], a, now));
      forall t | t in topology && t != a.tenantID
        ensures Shows(topology[t], view[t]) && topology[t].Repr == old(topology[t].Repr)
      {
        assert topology[t].Repr !! old(topo.Repr);
        assert unchanged(old(topology[t].Repr));
      }
    }

    /** The cache part of handleDeleteAlerts and handleTopologyClear. */
    method ClearTopology(tenantID: string)
      requires Valid()
      modifies this
      ensures Valid() && cells == old(cells)
      ensures history == old(history) + [Cleared(tenantID)]
    {
      hide Cached, Replay;
      ReplayCleared(history, tenantID);
      Forget(tenantID);
      history := history + [Cleared(tenantID)];
    }

    method Forget(tenantID: string)
      requires Cached()
      modifies `topology, `view
      ensures Cached() && view == old(view) - {tenantID}
    {
      hide Shows;
      topology := topology - {tenantID};
      view := view - {tenantID};
    }
  }
}
