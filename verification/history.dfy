/** What the topology cache should say, asked of the alert history instead of the
    cache: entries exist iff declared, are active iff declared after their last
    deletion, and so on.  The lemmas show that the cache agrees. */
module TopologyHistory {
  import opened Wrappers
  import opened Alerts
  import opened GoText
  import opened Topology
  import Connections

  // ------------------------------------------------------- lifelines

  /** What one alert says about one named entry. */
  datatype Life = Up(at: int) | Down | Other

  ghost predicate Born(l: seq<Life>) {
    exists i :: 0 <= i < |l| && l[i].Up?
  }

  ghost predicate FirstUp(l: seq<Life>, at: int) {
    exists i :: 0 <= i < |l| && l[i] == Up(at) && forall j :: 0 <= j < i ==> !l[j].Up?
  }

  ghost predicate LastUp(l: seq<Life>, at: int) {
    exists i :: 0 <= i < |l| && l[i] == Up(at) && forall j :: i < j < |l| ==> !l[j].Up?
  }

  /** The latest up-or-down event is an up. */
  ghost predicate Alive(l: seq<Life>) {
    exists i :: 0 <= i < |l| && l[i].Up? && forall j :: i < j < |l| ==> l[j] != Down
  }

  lemma LifeStep(l: seq<Life>, x: Life)
    ensures Born(l + [x]) <==> Born(l) || x.Up?
    ensures Alive(l + [x]) <==> x.Up? || (Alive(l) && x != Down)
    ensures forall at :: FirstUp(l + [x], at) <==> FirstUp(l, at) || (!Born(l) && x == Up(at))
    ensures forall at :: LastUp(l + [x], at) <==> x == Up(at) || (LastUp(l, at) && !x.Up?)
  {
    var m := l + [x];
    BornStep(l, x);
    AliveStep(l, x);
    forall at
      ensures FirstUp(m, at) <==> FirstUp(l, at) || (!Born(l) && x == Up(at))
    {
      FirstUpStep(l, x, at);
    }
    forall at
      ensures LastUp(m, at) <==> x == Up(at) || (LastUp(l, at) && !x.Up?)
    {
      LastUpStep(l, x, at);
    }
  }

  lemma BornStep(l: seq<Life>, x: Life)
    ensures Born(l + [x]) <==> Born(l) || x.Up?
  {
    var m := l + [x];
    assert m[|l|] == x;
    if Born(l) {
      var i :| 0 <= i < |l| && l[i].Up?;
      assert m[i].Up?;
    }
  }

  lemma AliveStep(l: seq<Life>, x: Life)
    ensures Alive(l + [x]) <==> x.Up? || (Alive(l) && x != Down)
  {
    var m := l + [x];
    assert m[|l|] == x;
    if Alive(l) && x != Down {
      var i :| 0 <= i < |l| && l[i].Up? && forall j :: i < j < |l| ==> l[j] != Down;
      assert m[i].Up?;
    }
    if Alive(m) && !x.Up? {
      var i :| 0 <= i < |m| && m[i].Up? && forall j :: i < j < |m| ==> m[j] != Down;
      assert l[i].Up? && forall j :: i < j < |l| ==> l[j] == m[j];
    }
  }

  lemma FirstUpStep(l: seq<Life>, x: Life, at: int)
    ensures FirstUp(l + [x], at) <==> FirstUp(l, at) || (!Born(l) && x == Up(at))
  {
    var m := l + [x];
    assert m[|l|] == x;
    if FirstUp(l, at) {
      var i :| 0 <= i < |l| && l[i] == Up(at) && forall j :: 0 <= j < i ==> !l[j].Up?;
      assert m[i] == Up(at);
    }
    if FirstUp(m, at) {
      var i :| 0 <= i < |m| && m[i] == Up(at) && forall j :: 0 <= j < i ==> !m[j].Up?;
      if i < |l| {
        assert l[i] == Up(at) && forall j :: 0 <= j < i ==> l[j] == m[j];
      } else {
        assert forall j :: 0 <= j < |l| ==> l[j] == m[j];
      }
    }
  }

  lemma LastUpStep(l: seq<Life>, x: Life, at: int)
    ensures LastUp(l + [x], at) <==> x == Up(at) || (LastUp(l, at) && !x.Up?)
  {
    var m := l + [x];
    assert m[|l|] == x;
    if LastUp(l, at) && !x.Up? {
      var i :| 0 <= i < |l| && l[i] == Up(at) && forall j :: i < j < |l| ==> !l[j].Up?;
      assert m[i] == Up(at);
    }
    if LastUp(m, at) && x != Up(at) {
      var i :| 0 <= i < |m| && m[i] == Up(at) && forall j :: i < j < |m| ==> !m[j].Up?;
      assert l[i] == Up(at) && forall j :: i < j < |l| ==> l[j] == m[j];
    }
  }

  // ------------------------------------------------------- the three kinds

  function QueueLife(e: Stamp, name: string): Life {
    if e.alert.entity != name then Other
    else if RuleOf(e.alert.ruleName) == QueueDeclared && name != "" then Up(e.now)
    else if RuleOf(e.alert.ruleName) == QueueDeleted then Down
    else Other
  }

  function ExchangeLife(e: Stamp, name: string): Life {
    if e.alert.entity != name then Other
    else if RuleOf(e.alert.ruleName) == ExchangeDeclared && name != "" then Up(e.now)
    else if RuleOf(e.alert.ruleName) == ExchangeDeleted then Down
    else Other
  }

  function ConsumerLife(e: Stamp, tag: string): Life {
    var rule := RuleOf(e.alert.ruleName);
    if rule == ConsumerRegistered && ConsumerKey(e.alert.layman, e.alert.entity) == tag then Up(e.now)
    else if rule == ConsumerCancelled && e.alert.entity == tag then Down
    else Other
  }

  datatype Kind = QueueKind | ExchangeKind | ConsumerKind

  function LifeOf(kind: Kind, e: Stamp, name: string): Life {
    match kind
    case QueueKind => QueueLife(e, name)
    case ExchangeKind => ExchangeLife(e, name)
    case ConsumerKind => ConsumerLife(e, name)
  }

  /** An entry's whole lifeline in a history. */
  function Lifeline(kind: Kind, s: seq<Stamp>, name: string): (l: seq<Life>)
    ensures |l| == |s|
    ensures forall i :: 0 <= i < |s| ==> l[i] == LifeOf(kind, s[i], name)
  {
    seq(|s|, i requires 0 <= i < |s| => LifeOf(kind, s[i], name))
  }

  /** Some declaration of the entry carried the marker text. */
  ghost predicate EverMarked(kind: Kind, s: seq<Stamp>, name: string, marker: string) {
    exists i :: 0 <= i < |s| && LifeOf(kind, s[i], name).Up? && Contains(s[i].alert.layman, marker)
  }

  /** The latest declaration announcing an exchange type, "" when none did. */
  ghost predicate LatestType(s: seq<Stamp>, name: string, kind: string) {
    (kind == "" && forall i :: 0 <= i < |s| ==> !Announces(s[i], name)) ||
    exists i :: 0 <= i < |s| && Announces(s[i], name) && AnnouncedType(s[i].alert.layman) == Some(kind) &&
      forall j :: i < j < |s| ==> !Announces(s[j], name)
  }

  predicate Announces(e: Stamp, name: string) {
    ExchangeLife(e, name).Up? && AnnouncedType(e.alert.layman).Some?
  }

  /** The registration a consumer entry should show: the latest under its tag. */
  ghost predicate LatestRegistration(s: seq<Stamp>, tag: string, c: Consumer) {
    exists i :: 0 <= i < |s| && ConsumerLife(s[i], tag) == Up(c.firstSeen) &&
      c.queue == s[i].alert.entity && c.exclusive == Contains(s[i].alert.layman, EXCLUSIVE_CONSUMER) &&
      forall j :: i < j < |s| ==> !ConsumerLife(s[j], tag).Up?
  }

  // ------------------------------------------------------- agreement

  ghost predicate QueueAgrees(t: Topo, s: seq<Stamp>, name: string) {
    var l := Lifeline(QueueKind, s, name);
    && (name in t.queues <==> Born(l))
    && (name in t.queues ==>
          var q := t.queues[name];
          && q.name == name
          && FirstUp(l, q.firstSeen)
          && LastUp(l, q.lastSeen)
          && (q.active <==> Alive(l))
          && (q.durable <==> EverMarked(QueueKind, s, name, DURABLE))
          && (q.exclusive <==> EverMarked(QueueKind, s, name, EXCLUSIVE))
          && (q.autoDelete <==> EverMarked(QueueKind, s, name, AUTO_DELETE)))
  }

  ghost predicate ExchangeAgrees(t: Topo, s: seq<Stamp>, name: string) {
    var l := Lifeline(ExchangeKind, s, name);
    && (name in t.exchanges <==> Born(l))
    && (name in t.exchanges ==>
          var x := t.exchanges[name];
          && x.name == name
          && FirstUp(l, x.firstSeen)
          && LatestType(s, name, x.kind)
          && (x.active <==> Alive(l))
          && (x.durable <==> EverMarked(ExchangeKind, s, name, DURABLE)))
  }

  ghost predicate ConsumerAgrees(t: Topo, s: seq<Stamp>, tag: string) {
    var l := Lifeline(ConsumerKind, s, tag);
    && (tag in t.consumers <==> Born(l))
    && (tag in t.consumers ==>
          var c := t.consumers[tag];
          && c.consumerTag == tag
          && LatestRegistration(s, tag, c)
          && (c.active <==> Alive(l)))
  }

  lemma LifelineStep(kind: Kind, s: seq<Stamp>, e: Stamp, name: string)
    ensures Lifeline(kind, s + [e], name) == Lifeline(kind, s, name) + [LifeOf(kind, e, name)]
  {
  }

  lemma EverMarkedStep(kind: Kind, s: seq<Stamp>, e: Stamp, name: string, marker: string)
    ensures EverMarked(kind, s + [e], name, marker) <==>
            EverMarked(kind, s, name, marker) || (LifeOf(kind, e, name).Up? && Contains(e.alert.layman, marker))
  {
    var m := s + [e];
    assert m[|s|] == e;
    if EverMarked(kind, s, name, marker) {
      var i :| 0 <= i < |s| && LifeOf(kind, s[i], name).Up? && Contains(s[i].alert.layman, marker);
      assert m[i] == s[i];
    }
  }

  lemma UnbornIsUnmarked(kind: Kind, s: seq<Stamp>, name: string, marker: string)
    requires !Born(Lifeline(kind, s, name))
    ensures !EverMarked(kind, s, name, marker)
  {
    var l := Lifeline(kind, s, name);
    assert forall i :: 0 <= i < |s| ==> l[i] == LifeOf(kind, s[i], name);
  }

  lemma LatestTypeStep(s: seq<Stamp>, e: Stamp, name: string, kind: string)
    requires LatestType(s, name, kind)
    ensures LatestType(s + [e], name, if Announces(e, name) then AnnouncedType(e.alert.layman).value else kind)
  {
    hide ExchangeLife, AnnouncedType;
    var m := s + [e];
    assert m[|s|] == e;
    assert forall i :: 0 <= i < |s| ==> m[i] == s[i];
    if Announces(e, name) {
      assert Announces(m[|s|], name);
    } else {
      if i :| 0 <= i < |s| && Announces(s[i], name) && AnnouncedType(s[i].alert.layman) == Some(kind) &&
              forall j :: i < j < |s| ==> !Announces(s[j], name) {
        assert Announces(m[i], name);
      }
    }
  }

  lemma LatestRegistrationStep(s: seq<Stamp>, e: Stamp, tag: string, c: Consumer)
    requires LatestRegistration(s, tag, c) && !ConsumerLife(e, tag).Up?
    ensures LatestRegistration(s + [e], tag, c)
  {
    var m := s + [e];
    var i :| 0 <= i < |s| && ConsumerLife(s[i], tag) == Up(c.firstSeen) &&
      c.queue == s[i].alert.entity && c.exclusive == Contains(s[i].alert.layman, EXCLUSIVE_CONSUMER) &&
      forall j :: i < j < |s| ==> !ConsumerLife(s[j], tag).Up?;
    assert m[i] == s[i];
    assert forall j :: i < j < |s| ==> m[j] == s[j];
  }

  // One alert seen from one name: only its own lifeline can change its entry.

  ghost predicate QueueEffect(t: Topo, t': Topo, e: Stamp, name: string) {
    var q := if name in t.queues then t.queues[name] else Queue(name, false, false, false, e.now, e.now, true);
    match QueueLife(e, name)
    case Up(at) =>
      name in t'.queues &&
      t'.queues[name] == q.(
        lastSeen := at, active := true,
        durable := q.durable || Contains(e.alert.layman, DURABLE),
        exclusive := q.exclusive || Contains(e.alert.layman, EXCLUSIVE),
        autoDelete := q.autoDelete || Contains(e.alert.layman, AUTO_DELETE))
    case Down =>
      (name in t'.queues <==> name in t.queues) &&
      (name in t.queues ==> t'.queues[name] == q.(active := false))
    case Other =>
      (name in t'.queues <==> name in t.queues) && (name in t.queues ==> t'.queues[name] == q)
  }

  ghost predicate ExchangeEffect(t: Topo, t': Topo, e: Stamp, name: string) {
    var x := if name in t.exchanges then t.exchanges[name] else Exchange(name, "", false, e.now, true);
    match ExchangeLife(e, name)
    case Up(at) =>
      name in t'.exchanges &&
      t'.exchanges[name] == x.(
        active := true,
        kind := if Announces(e, name) then AnnouncedType(e.alert.layman).value else x.kind,
        durable := x.durable || Contains(e.alert.layman, DURABLE))
    case Down =>
      (name in t'.exchanges <==> name in t.exchanges) &&
      (name in t.exchanges ==> t'.exchanges[name] == x.(active := false))
    case Other =>
      (name in t'.exchanges <==> name in t.exchanges) && (name in t.exchanges ==> t'.exchanges[name] == x)
  }

  ghost predicate ConsumerEffect(t: Topo, t': Topo, e: Stamp, tag: string) {
    match ConsumerLife(e, tag)
    case Up(at) =>
      tag in t'.consumers &&
      t'.consumers[tag] == Consumer(tag, e.alert.entity, Contains(e.alert.layman, EXCLUSIVE_CONSUMER), at, true)
    case Down =>
      (tag in t'.consumers <==> tag in t.consumers) &&
      (tag in t.consumers ==> t'.consumers[tag] == t.consumers[tag].(active := false))
    case Other =>
      (tag in t'.consumers <==> tag in t.consumers) &&
      (tag in t.consumers ==> t'.consumers[tag] == t.consumers[tag])
  }

  lemma QueueEffects(t: Topo, rule: Rule, e: Stamp, name: string)
    requires rule == RuleOf(e.alert.ruleName)
    ensures QueueEffect(t, ApplyRule(t, rule, e.alert, e.now), e, name)
  {
  }

  lemma ExchangeEffects(t: Topo, rule: Rule, e: Stamp, name: string)
    requires rule == RuleOf(e.alert.ruleName)
    ensures ExchangeEffect(t, ApplyRule(t, rule, e.alert, e.now), e, name)
  {
  }

  lemma ConsumerEffects(t: Topo, rule: Rule, e: Stamp, tag: string)
    requires rule == RuleOf(e.alert.ruleName)
    ensures ConsumerEffect(t, ApplyRule(t, rule, e.alert, e.now), e, tag)
  {
  }

  lemma QueueStep(t: Topo, t': Topo, s: seq<Stamp>, e: Stamp, name: string)
    requires QueueAgrees(t, s, name) && QueueEffect(t, t', e, name)
    ensures QueueAgrees(t', s + [e], name)
  {
    LifelineStep(QueueKind, s, e, name);
    LifeStep(Lifeline(QueueKind, s, name), QueueLife(e, name));
    EverMarkedStep(QueueKind, s, e, name, DURABLE);
    EverMarkedStep(QueueKind, s, e, name, EXCLUSIVE);
    EverMarkedStep(QueueKind, s, e, name, AUTO_DELETE);
    if name !in t.queues {
      UnbornIsUnmarked(QueueKind, s, name, DURABLE);
      UnbornIsUnmarked(QueueKind, s, name, EXCLUSIVE);
      UnbornIsUnmarked(QueueKind, s, name, AUTO_DELETE);
    }
  }

  lemma ExchangeStep(t: Topo, t': Topo, s: seq<Stamp>, e: Stamp, name: string)
    requires ExchangeAgrees(t, s, name) && ExchangeEffect(t, t', e, name)
    ensures ExchangeAgrees(t', s + [e], name)
  {
    var l := Lifeline(ExchangeKind, s, name);
    LifelineStep(ExchangeKind, s, e, name);
    LifeStep(l, ExchangeLife(e, name));
    EverMarkedStep(ExchangeKind, s, e, name, DURABLE);
    if name !in t.exchanges {
      UnbornIsUnmarked(ExchangeKind, s, name, DURABLE);
      assert forall i :: 0 <= i < |s| ==> l[i] == ExchangeLife(s[i], name);
      LatestTypeStep(s, e, name, "");
    } else {
      LatestTypeStep(s, e, name, t.exchanges[name].kind);
    }
  }

  lemma ConsumerStep(t: Topo, t': Topo, s: seq<Stamp>, e: Stamp, tag: string)
    requires ConsumerAgrees(t, s, tag) && ConsumerEffect(t, t', e, tag)
    ensures ConsumerAgrees(t', s + [e], tag)
  {
    LifelineStep(ConsumerKind, s, e, tag);
    LifeStep(Lifeline(ConsumerKind, s, tag), ConsumerLife(e, tag));
    if ConsumerLife(e, tag).Up? {
      assert (s + [e])[|s|] == e;
    } else if tag in t.consumers {
      LatestRegistrationStep(s, e, tag, t.consumers[tag]);
    }
  }

  // ------------------------------------------------------- main results

  /** Main result: every queue the cache shows, and every queue it does not show,
      is what the alerts since the tenant's last clear say about that name. */
  lemma {:induction false} QueuesAgreeWithHistory(s: seq<Stamp>, name: string)
    ensures QueueAgrees(Fold(s), s, name)
  {
    if s == [] {
    } else {
      var before, e := s[..|s| - 1], s[|s| - 1];
      QueuesAgreeWithHistory(before, name);
      assert s == before + [e];
      var t := Fold(before);
      QueueEffects(t.(lastUpdated := e.now), RuleOf(e.alert.ruleName), e, name);
      QueueStep(t, Fold(s), before, e, name);
    }
  }

  /** Main result: the same for exchanges, whose type is the latest one announced. */
  lemma {:induction false} ExchangesAgreeWithHistory(s: seq<Stamp>, name: string)
    ensures ExchangeAgrees(Fold(s), s, name)
  {
    if s == [] {
    } else {
      var before, e := s[..|s| - 1], s[|s| - 1];
      ExchangesAgreeWithHistory(before, name);
      assert s == before + [e];
      var t := Fold(before);
      ExchangeEffects(t.(lastUpdated := e.now), RuleOf(e.alert.ruleName), e, name);
      ExchangeStep(t, Fold(s), before, e, name);
    }
  }

  /** Main result: the same for consumers; a cancelled consumer stays inactive until
      a registration is recorded under its key again. */
  lemma {:induction false} ConsumersAgreeWithHistory(s: seq<Stamp>, tag: string)
    ensures ConsumerAgrees(Fold(s), s, tag)
  {
    if s == [] {
    } else {
      var before, e := s[..|s| - 1], s[|s| - 1];
      ConsumersAgreeWithHistory(before, tag);
      assert s == before + [e];
      var t := Fold(before);
      ConsumerEffects(t.(lastUpdated := e.now), RuleOf(e.alert.ruleName), e, tag);
      ConsumerStep(t, Fold(s), before, e, tag);
    }
  }

  function AsConnectionEvent(e: Stamp): Connections.Event {
    ConnectionEvent(RuleOf(e.alert.ruleName), e.alert.methodName, e.now)
  }

  function ConnectionEvents(s: seq<Stamp>): (r: seq<Connections.Event>)
    ensures |r| == |s|
  {
    if s == [] then []
    else ConnectionEvents(s[..|s| - 1]) + [AsConnectionEvent(s[|s| - 1])]
  }

  /** Main result: the connection list is the newest fifty of the log that the
      alerts since the last clear would have built without eviction. */
  lemma {:induction false} ConnectionsAgreeWithHistory(s: seq<Stamp>)
    ensures Fold(s).connections == Connections.List(ConnectionEvents(s))
    ensures Fold(s).connections == Connections.Newest(Connections.Log(ConnectionEvents(s)), 50)
  {
    Connections.BoundedListRefinesTheLog(ConnectionEvents(s));
    if s == [] {
    } else {
      var before, e := s[..|s| - 1], s[|s| - 1];
      ConnectionsAgreeWithHistory(before);
      assert ConnectionEvents(s)[..|s| - 1] == ConnectionEvents(s[..|s| - 1]);
    }
  }

  lemma RulesKeepTheTime(t: Topo, rule: Rule, a: Alert, now: int)
    ensures ApplyRule(t, rule, a, now).lastUpdated == t.lastUpdated
  {
  }

  lemma LastUpdatedIsLatest(s: seq<Stamp>)
    ensures Fold(s).lastUpdated == if s == [] then ZERO_TIME else s[|s| - 1].now
  {
    hide ApplyRule, RuleOf;
    if s != [] {
      var e := s[|s| - 1];
      RulesKeepTheTime(Fold(s[..|s| - 1]).(lastUpdated := e.now), RuleOf(e.alert.ruleName), e.alert, e.now);
    }
  }

  /** Main result: an alert is recorded under its own time, or, where that is Go's zero
      time, under the clock's. */
  lemma RecordedWhen(h: seq<Event>, a: Alert, clock: int)
    ensures var t := StateOf(Replay(h + [Posted(a, clock)]), a.tenantID);
            && t.lastUpdated == (if a.timestamp == 0 then clock else a.timestamp)
            && t == Apply(StateOf(Replay(h), a.tenantID), a, t.lastUpdated)
  {
    var now := Stamped(a, clock).now;
    var t := StateOf(Replay(h), a.tenantID);
    assert (h + [Posted(a, clock)])[..|h|] == h;
    hide ApplyRule, RuleOf;
    RulesKeepTheTime(t.(lastUpdated := now), RuleOf(a.ruleName), a, now);
  }

  /** Main result: a clear forgets the tenant and leaves every other one as it was. */
  lemma ClearForgets(h: seq<Event>, tenant: string)
    ensures var m, m' := Replay(h), Replay(h + [Cleared(tenant)]);
            m'.Keys == m.Keys - {tenant} && forall other :: other in m' ==> m'[other] == m[other]
  {
    assert (h + [Cleared(tenant)])[..|h|] == h;
  }

  /** Main result: which alerts change an entry, by the names of their rules. */
  lemma RulesByName(t: Topo, a: Alert, now: int)
    ensures RuleOf(a.ruleName) == QueueDeclared <==> a.ruleName == "queue_declare"
    ensures RuleOf(a.ruleName) == QueueDeleted <==> a.ruleName == "queue_deleted"
    ensures RuleOf(a.ruleName) == ExchangeDeclared <==> a.ruleName == "exchange_declare"
    ensures RuleOf(a.ruleName) == ExchangeDeleted <==> a.ruleName == "exchange_deleted"
    ensures RuleOf(a.ruleName) == ConsumerRegistered <==> a.ruleName == "consumer_registered"
    ensures RuleOf(a.ruleName) == ConsumerCancelled <==> a.ruleName == "consumer_cancelled"
    ensures RuleOf(a.ruleName) == ConnectionOpened <==> a.ruleName == "connection_opened"
    ensures RuleOf(a.ruleName) == ConnectionClosed <==>
            a.ruleName in {"connection_closed_cleanly", "connection_closed_unexpectedly",
                           "connection_close_unparseable"}
    ensures RuleOf(a.ruleName) == Ignored ==> Apply(t, a, now) == t.(lastUpdated := now)
  {
    hide DeclareQueue, DeleteQueue, DeclareExchange, DeleteExchange, RegisterConsumer, CancelConsumer,
      TrackConnection, ConnectionEvent;
  }

  /** All of the above, for a tenant's state after any history of the server. */
  lemma CacheAgreesWithHistory(h: seq<Event>, tenant: string, name: string)
    ensures var t, s := StateOf(Replay(h), tenant), Since(h, tenant);
            && QueueAgrees(t, s, name) && ExchangeAgrees(t, s, name) && ConsumerAgrees(t, s, name)
            && t.connections == Connections.Newest(Connections.Log(ConnectionEvents(s)), 50)
            && t.lastUpdated == if s == [] then ZERO_TIME else s[|s| - 1].now
  {
    var s := Since(h, tenant);
    LastUpdatedIsLatest(s);
    ReplayIsFoldSinceClear(h, tenant);
    QueuesAgreeWithHistory(s, name);
    ExchangesAgreeWithHistory(s, name);
    ConsumersAgreeWithHistory(s, name);
    ConnectionsAgreeWithHistory(s);
  }
}
