/** What the cache should say after captured methods, asked of the methods on the wire
    instead of the cache: the account of module TopologyHistory carried back through
    the alerts and their prose to the decoded arguments. */
module WireHistory {
  import opened Wrappers
  import opened Alerts
  import opened Decoder
  import opened GoText
  import opened Engine
  import opened Methods
  import opened Topology
  import opened TopologyHistory
  import opened TextChannel
  import opened ConsumerChannel
  import opened Sniffer
  import opened Pipeline
  import opened Travel
  import Sessions
  import Connections

  // ------------------------------------------------------- what methods concern

  /** The finding falls under a rule of the cache, for this entity. */
  predicate Concerns(f: Option<Finding>, rule: Rule, entity: string) {
    f.Some? && RuleOf(f.value.ruleName) == rule && f.value.entity == entity
  }

  /** The same, with the text the cache reads. */
  predicate Tells(f: Option<Finding>, rule: Rule, entity: string, text: string) {
    Concerns(f, rule, entity) && f.value.layman == Some(text)
  }

  /** Findings that concern no queue, exchange or consumer. */
  predicate Aside(f: Option<Finding>) {
    f.Some? ==> RuleOf(f.value.ruleName) in {ConnectionOpened, ConnectionClosed, Ignored}
  }

  /** What the engine's verdict on a method means for the cache. */
  predicate IsVerdict(m: MethodPayload, f: Option<Finding>, q: Quoter) {
    match (m.classID, m.methodID)
    case (30, 10) =>
      (match ParseExchangeDeclare(m.args)
       case None => Concerns(f, ExchangeDeclared, "")
       case Some(ed) => Tells(f, ExchangeDeclared, ed.exchange, ExchangeText(q, ed)))
    case (30, 11) => Concerns(f, ExchangeDeclared, "")
    case (30, 20) =>
      (match ParseExchangeDelete(m.args)
       case None => Concerns(f, ExchangeDeleted, "")
       case Some(ed) => Concerns(f, ExchangeDeleted, ed.exchange))
    case (30, 21) => Concerns(f, ExchangeDeleted, "")
    case (40, 10) =>
      (match ParseQueueDeclare(m.args)
       case None => Concerns(f, QueueDeclared, "")
       case Some(qd) => Tells(f, QueueDeclared, qd.queue, QueueText(q, qd)))
    case (40, 11) => Concerns(f, QueueDeclared, "")
    case (40, 40) =>
      (match ParseQueueDelete(m.args)
       case None => Concerns(f, QueueDeleted, "")
       case Some(qd) => Concerns(f, QueueDeleted, qd.queue))
    case (60, 20) =>
      (match ParseBasicConsume(m.args)
       case None => Tells(f, ConsumerRegistered, "", "New consumer registered" + " (could not parse details).")
       case Some(bc) => Tells(f, ConsumerRegistered, bc.queue, ConsumerText(q, bc)))
    case (60, 21) => Tells(f, ConsumerRegistered, "", "Broker confirmed" + " consumer registration.")
    case (60, 30) =>
      (match ParseLeadingString(m.args)
       case None => Concerns(f, ConsumerCancelled, "")
       case Some(tag) => Concerns(f, ConsumerCancelled, tag))
    case _ => Aside(f)
  }

  lemma ConnectionVerdicts(m: MethodPayload, mn: string, now: int)
    ensures Aside(EvaluateConnection(m, mn, now))
  {
    hide Contains, ToLower, ParseConnectionTune, ParseLeadingString, ParseClose;
  }

  lemma ChannelVerdicts(m: MethodPayload, mn: string, now: int)
    ensures Aside(EvaluateChannel(m, mn, now)) && Aside(EvaluateTx(m, mn, now))
  {
    hide Contains, ToLower, ParseClose, ParseChannelFlow;
  }

  lemma ExchangeVerdicts(m: MethodPayload, q: Quoter, mn: string, now: int)
    requires m.classID == 30
    ensures IsVerdict(m, EvaluateExchange(m, q, mn, now), q)
  {
    hide ExchangeText, ParseExchangeDeclare, ParseExchangeDelete;
  }

  lemma QueueVerdicts(m: MethodPayload, q: Quoter, mn: string, now: int)
    requires m.classID == 40
    ensures IsVerdict(m, EvaluateQueue(m, q, mn, now), q)
  {
    hide QueueText, ParseQueueDeclare, ParseQueueDelete, ParseQueuePurge;
  }

  lemma DeliveryVerdicts(m: MethodPayload, q: Quoter, mn: string, now: int)
    requires m.classID == 60
    ensures IsVerdict(m, EvaluateBasic(m, q, mn, now), q)
  {
    hide ConsumerText, ParseBasicConsume, ParseBasicPublish, ParseBasicReturn, ParseLeadingString;
  }

  lemma VerdictOn(m: MethodPayload, q: Quoter, now: int)
    ensures IsVerdict(m, EvaluateMethod(m, q, now), q)
  {
    hide EvaluateConnection, EvaluateChannel, EvaluateExchange, EvaluateQueue, EvaluateBasic, EvaluateTx, MethodName,
      ParseExchangeDeclare, ParseExchangeDelete, ParseQueueDeclare, ParseQueueDelete, ParseBasicConsume,
      ParseLeadingString, RuleOf;
    var mn := MethodName(m.classID, m.methodID);
    if m.classID == 30 {
      ExchangeVerdicts(m, q, mn, now);
    } else if m.classID == 40 {
      QueueVerdicts(m, q, mn, now);
    } else if m.classID == 60 {
      DeliveryVerdicts(m, q, mn, now);
    } else {
      ConnectionVerdicts(m, mn, now);
      ChannelVerdicts(m, mn, now);
    }
  }

  // ------------------------------------------------------- methods as alerts

  /** The alert of a method as the cache records it; where the engine says nothing, an
      alert the cache ignores. */
  function StampOf(m: Timed, q: Quoter): Stamp {
    match EvaluateMethod(m.payload, q, m.at)
    case None => Stamp(Alert("", "", "", "", "", "", "", m.at), m.at)
    case Some(f) => Stamp(AsAlert(f, ""), m.at)
  }

  function Stamps(ms: seq<Timed>, q: Quoter): (s: seq<Stamp>)
    ensures |s| == |ms| && forall i :: 0 <= i < |ms| ==> s[i] == StampOf(ms[i], q)
  {
    seq(|ms|, i requires 0 <= i < |ms| => StampOf(ms[i], q))
  }

  /** The entries of a state, without the time of its last update. */
  predicate SameEntries(t: Topo, t': Topo) {
    && t.queues == t'.queues
    && t.exchanges == t'.exchanges
    && t.consumers == t'.consumers
    && t.connections == t'.connections
  }

  lemma TimeIsNotRead(t: Topo, t': Topo, rule: Rule, a: Alert, now: int)
    requires SameEntries(t, t')
    ensures SameEntries(ApplyRule(t, rule, a, now), ApplyRule(t', rule, a, now))
  {
    hide Redeclared, RedeclaredExchange, ConsumerKey, Contains, Connections.Step, ConnectionEvent;
  }

  lemma ObserveIsApply(t: Topo, t': Topo, m: Timed, q: Quoter)
    requires SameEntries(t, t')
    ensures SameEntries(Observe(t, m.payload, q, m.at), Apply(t', StampOf(m, q).alert, m.at))
  {
    hide EvaluateMethod, ApplyRule;
    var f := EvaluateMethod(m.payload, q, m.at);
    if f.Some? {
      hide RuleOf;
      var a := AsAlert(f.value, "");
      TimeIsNotRead(t.(lastUpdated := m.at), t'.(lastUpdated := m.at), RuleOf(a.ruleName), a, m.at);
    } else {
      IgnoredChangesNothing(t'.(lastUpdated := m.at), StampOf(m, q).alert, m.at);
    }
  }

  lemma IgnoredChangesNothing(t: Topo, a: Alert, now: int)
    requires a.ruleName == ""
    ensures RuleOf(a.ruleName) == Ignored && ApplyRule(t, RuleOf(a.ruleName), a, now) == t
  {
  }

  /** The state after methods is the state after their alerts. */
  lemma {:induction false} ObserveAllIsFold(ms: seq<Timed>, q: Quoter)
    ensures SameEntries(ObserveAll(EMPTY, ms, q), Fold(Stamps(ms, q)))
  {
    hide Observe, Apply, SameEntries, StampOf;
    if ms == [] {
      SameAsItself(EMPTY);
    } else {
      var n := |ms| - 1;
      ObserveAllIsFold(ms[..n], q);
      assert Stamps(ms, q)[..n] == Stamps(ms[..n], q);
      ObserveIsApply(ObserveAll(EMPTY, ms[..n], q), Fold(Stamps(ms[..n], q)), ms[n], q);
      StampIs(ms[n], q);
    }
  }

  lemma SameAsItself(t: Topo)
    ensures SameEntries(t, t)
  {
  }

  lemma StampIs(m: Timed, q: Quoter)
    ensures StampOf(m, q).now == m.at
    ensures var a := StampOf(m, q).alert;
            match EvaluateMethod(m.payload, q, m.at)
            case None => RuleOf(a.ruleName) == Ignored
            case Some(f) =>
              a.ruleName == f.ruleName && a.entity == f.entity && (f.layman.Some? ==> a.layman == f.layman.value)
  {
    hide EvaluateMethod;
  }

  // ------------------------------------------------------- queues

  /** The method declares the queue. */
  predicate Declares(m: MethodPayload, name: string) {
    m.classID == 40 && m.methodID == 10 && name != "" &&
    ParseQueueDeclare(m.args).Some? && ParseQueueDeclare(m.args).value.queue == name
  }

  /** The method deletes the queue; a deletion that cannot be parsed names none. */
  predicate Deletes(m: MethodPayload, name: string) {
    m.classID == 40 && m.methodID == 40 &&
    match ParseQueueDelete(m.args)
    case None => name == ""
    case Some(qd) => qd.queue == name
  }

  function WireQueueLife(m: Timed, name: string): Life {
    if Declares(m.payload, name) then Up(m.at) else if Deletes(m.payload, name) then Down else Other
  }

  datatype QueueFlag = Durable | Exclusive | AutoDelete

  function Marker(flag: QueueFlag): string {
    match flag
    case Durable => "durable=true"
    case Exclusive => "exclusive=true"
    case AutoDelete => "auto-delete=true"
  }

  predicate IsSet(qd: QueueDeclare, flag: QueueFlag) {
    match flag
    case Durable => qd.durable
    case Exclusive => qd.exclusive
    case AutoDelete => qd.autoDelete
  }

  /** The method declares the queue with the flag set, and not passively, or the queue
      is named like the flag's marker. */
  predicate Sets(m: MethodPayload, name: string, flag: QueueFlag, q: Quoter) {
    Declares(m, name) &&
    var qd := ParseQueueDeclare(m.args).value;
    Contains(q(name), Marker(flag)) || (!qd.passive && IsSet(qd, flag))
  }

  ghost predicate EverSet(ms: seq<Timed>, name: string, flag: QueueFlag, q: Quoter) {
    exists i :: 0 <= i < |ms| && Sets(ms[i].payload, name, flag, q)
  }

  lemma QueueLifeOnWire(m: Timed, name: string, q: Quoter)
    ensures QueueLife(StampOf(m, q), name) == WireQueueLife(m, name)
  {
    hide EvaluateMethod, StampOf, RuleOf, ParseQueueDeclare, ParseQueueDelete, QueueText;
    StampIs(m, q);
    VerdictOn(m.payload, q, m.at);
  }

  lemma QueueMarksOnWire(m: Timed, name: string, flag: QueueFlag, q: Quoter)
    requires Delimited(q(name))
    ensures QueueLife(StampOf(m, q), name).Up? && Contains(StampOf(m, q).alert.layman, Marker(flag)) <==>
            Sets(m.payload, name, flag, q)
  {
    hide EvaluateMethod, StampOf, RuleOf, ParseQueueDeclare, ParseQueueDelete, QueueText, Contains, QueueLife;
    StampIs(m, q);
    QueueLifeOnWire(m, name, q);
    if Declares(m.payload, name) {
      VerdictOn(m.payload, q, m.at);
      QueueFlagsRead(q, ParseQueueDeclare(m.payload.args).value);
    }
  }

  function WireQueueLifeline(ms: seq<Timed>, name: string): (l: seq<Life>)
    ensures |l| == |ms| && forall i :: 0 <= i < |ms| ==> l[i] == WireQueueLife(ms[i], name)
  {
    seq(|ms|, i requires 0 <= i < |ms| => WireQueueLife(ms[i], name))
  }

  /** What the cache should say about a queue after the methods. */
  ghost predicate ShowsQueue(t: Topo, ms: seq<Timed>, name: string, q: Quoter) {
    var l := WireQueueLifeline(ms, name);
    && (name in t.queues <==> Born(l))
    && (name in t.queues ==>
          var x := t.queues[name];
          && x.name == name
          && FirstUp(l, x.firstSeen)
          && LastUp(l, x.lastSeen)
          && (x.active <==> Alive(l))
          && (x.durable <==> EverSet(ms, name, Durable, q))
          && (x.exclusive <==> EverSet(ms, name, Exclusive, q))
          && (x.autoDelete <==> EverSet(ms, name, AutoDelete, q)))
  }

  lemma EverSetOnWire(ms: seq<Timed>, name: string, flag: QueueFlag, q: Quoter)
    requires Delimited(q(name))
    ensures EverMarked(QueueKind, Stamps(ms, q), name, Marker(flag)) <==> EverSet(ms, name, flag, q)
  {
    hide StampOf, QueueLife, Contains, Sets, Marker;
    var s := Stamps(ms, q);
    forall i | 0 <= i < |ms|
      ensures LifeOf(QueueKind, s[i], name).Up? && Contains(s[i].alert.layman, Marker(flag)) <==>
              Sets(ms[i].payload, name, flag, q)
    {
      QueueMarksOnWire(ms[i], name, flag, q);
    }
  }

  lemma QueueLifelineOnWire(ms: seq<Timed>, name: string, q: Quoter)
    ensures Lifeline(QueueKind, Stamps(ms, q), name) == WireQueueLifeline(ms, name)
  {
    hide StampOf, QueueLife, WireQueueLife;
    forall i | 0 <= i < |ms|
      ensures QueueLife(StampOf(ms[i], q), name) == WireQueueLife(ms[i], name)
    {
      QueueLifeOnWire(ms[i], name, q);
    }
  }

  /** Main result: after any captured methods the cache shows a queue iff one of them
      declared it; first and last seen are its first and last declaration; it is active
      iff its latest declaration or deletion is a declaration; and each flag is set iff
      some declaration, not a passive one, set it, or the name reads like its marker. */
  lemma QueuesAgreeWithTheWire(ms: seq<Timed>, name: string, q: Quoter)
    requires Delimited(q(name))
    ensures ShowsQueue(ObserveAll(EMPTY, ms, q), ms, name, q)
  {
    hide ObserveAll, Fold, Stamps, WireQueueLifeline, Lifeline, EverSet, EverMarked, Born, FirstUp, LastUp, Alive;
    ObserveAllIsFold(ms, q);
    QueuesAgreeWithHistory(Stamps(ms, q), name);
    QueueLifelineOnWire(ms, name, q);
    EverSetOnWire(ms, name, Durable, q);
    EverSetOnWire(ms, name, Exclusive, q);
    EverSetOnWire(ms, name, AutoDelete, q);
  }

  // ------------------------------------------------------- exchanges

  /** The method declares the exchange. */
  predicate DeclaresExchange(m: MethodPayload, name: string) {
    m.classID == 30 && m.methodID == 10 && name != "" &&
    ParseExchangeDeclare(m.args).Some? && ParseExchangeDeclare(m.args).value.exchange == name
  }

  /** The method deletes the exchange; the broker's confirmation and a deletion that
      cannot be parsed name none. */
  predicate DeletesExchange(m: MethodPayload, name: string) {
    m.classID == 30 &&
    if m.methodID == 21 then name == ""
    else
      m.methodID == 20 &&
      match ParseExchangeDelete(m.args)
      case None => name == ""
      case Some(ed) => ed.exchange == name
  }

  function WireExchangeLife(m: Timed, name: string): Life {
    if DeclaresExchange(m.payload, name) then Up(m.at) else if DeletesExchange(m.payload, name) then Down else Other
  }

  function WireExchangeLifeline(ms: seq<Timed>, name: string): (l: seq<Life>)
    ensures |l| == |ms| && forall i :: 0 <= i < |ms| ==> l[i] == WireExchangeLife(ms[i], name)
  {
    seq(|ms|, i requires 0 <= i < |ms| => WireExchangeLife(ms[i], name))
  }

  /** The type the cache reads from the method, "" if it reads none for that exchange. */
  function TypeSaid(m: MethodPayload, name: string, q: Quoter): string {
    if DeclaresExchange(m, name) then TypeRead(q, ParseExchangeDeclare(m.args).value) else ""
  }

  /** The latest type said about the exchange, "" when none was. */
  ghost predicate LatestTypeSaid(ms: seq<Timed>, name: string, kind: string, q: Quoter) {
    (kind == "" && forall i :: 0 <= i < |ms| ==> TypeSaid(ms[i].payload, name, q) == "") ||
    exists i :: 0 <= i < |ms| && TypeSaid(ms[i].payload, name, q) == kind != "" &&
      forall j :: i < j < |ms| ==> TypeSaid(ms[j].payload, name, q) == ""
  }

  predicate SaysDurable(m: MethodPayload, name: string, q: Quoter) {
    DeclaresExchange(m, name) && DurableRead(q, ParseExchangeDeclare(m.args).value)
  }

  /** What the cache should say about an exchange after the methods. */
  ghost predicate ShowsExchange(t: Topo, ms: seq<Timed>, name: string, q: Quoter) {
    var l := WireExchangeLifeline(ms, name);
    && (name in t.exchanges <==> Born(l))
    && (name in t.exchanges ==>
          var x := t.exchanges[name];
          && x.name == name
          && FirstUp(l, x.firstSeen)
          && LatestTypeSaid(ms, name, x.kind, q)
          && (x.active <==> Alive(l))
          && (x.durable <==> exists i :: 0 <= i < |ms| && SaysDurable(ms[i].payload, name, q)))
  }

  lemma ExchangeLifeOnWire(m: Timed, name: string, q: Quoter)
    ensures ExchangeLife(StampOf(m, q), name) == WireExchangeLife(m, name)
  {
    hide EvaluateMethod, StampOf, RuleOf, ParseExchangeDeclare, ParseExchangeDelete, ExchangeText;
    StampIs(m, q);
    VerdictOn(m.payload, q, m.at);
  }

  lemma ExchangeTextOnWire(m: Timed, name: string, q: Quoter)
    requires Delimited(q(name))
    ensures Announces(StampOf(m, q), name) <==> TypeSaid(m.payload, name, q) != ""
    ensures Announces(StampOf(m, q), name) ==>
              AnnouncedType(StampOf(m, q).alert.layman) == Some(TypeSaid(m.payload, name, q))
    ensures ExchangeLife(StampOf(m, q), name).Up? && Contains(StampOf(m, q).alert.layman, DURABLE) <==>
            SaysDurable(m.payload, name, q)
  {
    hide EvaluateMethod, StampOf, RuleOf, ParseExchangeDeclare, ParseExchangeDelete, ExchangeText, Contains,
      ExchangeLife, AnnouncedType, TypeRead;
    StampIs(m, q);
    ExchangeLifeOnWire(m, name, q);
    if DeclaresExchange(m.payload, name) {
      VerdictOn(m.payload, q, m.at);
      ExchangeTypeSurvives(q, ParseExchangeDeclare(m.payload.args).value);
      ExchangeDurabilityIsLost(q, ParseExchangeDeclare(m.payload.args).value);
    }
  }

  lemma ExchangeLifelineOnWire(ms: seq<Timed>, name: string, q: Quoter)
    ensures Lifeline(ExchangeKind, Stamps(ms, q), name) == WireExchangeLifeline(ms, name)
  {
    hide StampOf, ExchangeLife, WireExchangeLife;
    forall i | 0 <= i < |ms|
      ensures ExchangeLife(StampOf(ms[i], q), name) == WireExchangeLife(ms[i], name)
    {
      ExchangeLifeOnWire(ms[i], name, q);
    }
  }

  lemma ExchangeTextsOnWire(ms: seq<Timed>, name: string, kind: string, q: Quoter)
    requires Delimited(q(name))
    ensures LatestType(Stamps(ms, q), name, kind) ==> LatestTypeSaid(ms, name, kind, q)
    ensures EverMarked(ExchangeKind, Stamps(ms, q), name, DURABLE) <==>
            exists i :: 0 <= i < |ms| && SaysDurable(ms[i].payload, name, q)
  {
    hide StampOf, ExchangeLife, Contains, SaysDurable, TypeSaid, Announces, AnnouncedType;
    var s := Stamps(ms, q);
    forall i | 0 <= i < |ms|
      ensures Announces(s[i], name) <==> TypeSaid(ms[i].payload, name, q) != ""
      ensures Announces(s[i], name) ==> AnnouncedType(s[i].alert.layman) == Some(TypeSaid(ms[i].payload, name, q))
      ensures LifeOf(ExchangeKind, s[i], name).Up? && Contains(s[i].alert.layman, DURABLE) <==>
              SaysDurable(ms[i].payload, name, q)
    {
      ExchangeTextOnWire(ms[i], name, q);
    }
  }

  /** Main result: the same for exchanges.  The type shown is the latest one said about
      the exchange; durable is shown iff a name or type of some declaration reads so. */
  lemma ExchangesAgreeWithTheWire(ms: seq<Timed>, name: string, q: Quoter)
    requires Delimited(q(name))
    ensures ShowsExchange(ObserveAll(EMPTY, ms, q), ms, name, q)
  {
    hide ObserveAll, Fold, Stamps, WireExchangeLifeline, Lifeline, LatestType, LatestTypeSaid, EverMarked, Born,
      FirstUp, Alive, SaysDurable;
    ObserveAllIsFold(ms, q);
    var t := ObserveAll(EMPTY, ms, q);
    ExchangesAgreeWithHistory(Stamps(ms, q), name);
    ExchangeLifelineOnWire(ms, name, q);
    if name in t.exchanges {
      ExchangeTextsOnWire(ms, name, t.exchanges[name].kind, q);
    }
  }

  // ------------------------------------------------------- consumers

  /** What a registration puts on record. */
  datatype Registered = Registered(key: string, queue: string, exclusive: bool)

  /** The broker's confirmation and a registration that cannot be parsed register a
      consumer without tag and queue. */
  function Registration(m: MethodPayload, q: Quoter): Option<Registered> {
    if m.classID == 60 && m.methodID == 20 then
      match ParseBasicConsume(m.args)
      case None => Some(Registered("consumer@", "", false))
      case Some(bc) => Some(Registered(KeyRead(q, bc), bc.queue, ExclusiveRead(q, bc)))
    else if m.classID == 60 && m.methodID == 21 then Some(Registered("consumer@", "", false))
    else None
  }

  predicate Registers(m: MethodPayload, key: string, q: Quoter) {
    Registration(m, q).Some? && Registration(m, q).value.key == key
  }

  predicate Cancels(m: MethodPayload, key: string) {
    m.classID == 60 && m.methodID == 30 &&
    match ParseLeadingString(m.args)
    case None => key == ""
    case Some(tag) => tag == key
  }

  function WireConsumerLife(m: Timed, key: string, q: Quoter): Life {
    if Registers(m.payload, key, q) then Up(m.at) else if Cancels(m.payload, key) then Down else Other
  }

  function WireConsumerLifeline(ms: seq<Timed>, key: string, q: Quoter): (l: seq<Life>)
    ensures |l| == |ms| && forall i :: 0 <= i < |ms| ==> l[i] == WireConsumerLife(ms[i], key, q)
  {
    seq(|ms|, i requires 0 <= i < |ms| => WireConsumerLife(ms[i], key, q))
  }

  /** The consumer is the latest one registered under its key. */
  ghost predicate LatestRegistered(ms: seq<Timed>, c: Consumer, q: Quoter) {
    exists i :: 0 <= i < |ms| && ms[i].at == c.firstSeen &&
      Registration(ms[i].payload, q) == Some(Registered(c.consumerTag, c.queue, c.exclusive)) &&
      forall j :: i < j < |ms| ==> !Registers(ms[j].payload, c.consumerTag, q)
  }

  /** What the cache should say about a consumer after the methods. */
  ghost predicate ShowsConsumer(t: Topo, ms: seq<Timed>, key: string, q: Quoter) {
    var l := WireConsumerLifeline(ms, key, q);
    && (key in t.consumers <==> Born(l))
    && (key in t.consumers ==>
          var c := t.consumers[key];
          c.consumerTag == key && LatestRegistered(ms, c, q) && (c.active <==> Alive(l)))
  }

  /** What the cache takes from a registration. */
  lemma RegistrationOnWire(m: Timed, q: Quoter)
    requires Quotes(q)
    ensures var e := StampOf(m, q).alert;
            && (RuleOf(e.ruleName) == ConsumerRegistered <==> Registration(m.payload, q).Some?)
            && (Registration(m.payload, q).Some? ==>
                  Registration(m.payload, q).value ==
                  Registered(ConsumerKey(e.layman, e.entity), e.entity, Contains(e.layman, EXCLUSIVE_CONSUMER)))
  {
    hide EvaluateMethod, StampOf, RuleOf, ParseBasicConsume, ParseLeadingString, ConsumerText, Contains, ConsumerKey,
      KeyRead, Utf8.Valid;
    StampIs(m, q);
    VerdictOn(m.payload, q, m.at);
    if m.payload.classID == 60 {
      TaglessFailure();
      TaglessConfirmation();
      if m.payload.methodID == 20 && ParseBasicConsume(m.payload.args).Some? {
        var bc := ParseBasicConsume(m.payload.args).value;
        ConsumerTagSurvives(q, bc);
        ConsumerExclusivityRead(q, bc);
      }
    }
  }

  lemma CancellationOnWire(m: Timed, key: string, q: Quoter)
    ensures var e := StampOf(m, q).alert;
            RuleOf(e.ruleName) == ConsumerCancelled && e.entity == key <==> Cancels(m.payload, key)
  {
    hide EvaluateMethod, StampOf, RuleOf, ParseBasicConsume, ParseLeadingString, ConsumerText;
    StampIs(m, q);
    VerdictOn(m.payload, q, m.at);
  }

  lemma ConsumerLifeOnWire(m: Timed, key: string, q: Quoter)
    requires Quotes(q)
    ensures ConsumerLife(StampOf(m, q), key) == WireConsumerLife(m, key, q)
  {
    hide StampOf, Registration, Cancels, ConsumerKey, Contains, RuleOf, Quotes;
    StampIs(m, q);
    RegistrationOnWire(m, q);
    CancellationOnWire(m, key, q);
  }

  lemma ConsumerLifelineOnWire(ms: seq<Timed>, key: string, q: Quoter)
    requires Quotes(q)
    ensures Lifeline(ConsumerKind, Stamps(ms, q), key) == WireConsumerLifeline(ms, key, q)
  {
    hide StampOf, ConsumerLife, WireConsumerLife, Quotes;
    forall i | 0 <= i < |ms|
      ensures ConsumerLife(StampOf(ms[i], q), key) == WireConsumerLife(ms[i], key, q)
    {
      ConsumerLifeOnWire(ms[i], key, q);
    }
  }

  lemma LatestRegisteredOnWire(ms: seq<Timed>, c: Consumer, q: Quoter)
    requires Quotes(q)
    ensures LatestRegistration(Stamps(ms, q), c.consumerTag, c) ==> LatestRegistered(ms, c, q)
  {
    hide StampOf, Registration, Cancels, ConsumerKey, Contains, Quotes, RuleOf;
    var s, key := Stamps(ms, q), c.consumerTag;
    forall i | 0 <= i < |ms|
      ensures ConsumerLife(s[i], key) == WireConsumerLife(ms[i], key, q)
    {
      ConsumerLifeOnWire(ms[i], key, q);
    }
    if LatestRegistration(s, key, c) {
      var i :| 0 <= i < |s| && ConsumerLife(s[i], key) == Up(c.firstSeen) &&
        c.queue == s[i].alert.entity && c.exclusive == Contains(s[i].alert.layman, EXCLUSIVE_CONSUMER) &&
        forall j :: i < j < |s| ==> !ConsumerLife(s[j], key).Up?;
      RegistrationOnWire(ms[i], q);
      forall j | i < j < |ms|
        ensures !Registers(ms[j].payload, key, q)
      {
        assert !ConsumerLife(s[j], key).Up?;
      }
    }
  }

  /** Main result: the same for consumers.  An entry is the latest registration under
      its key, and is active iff no cancellation of that key followed. */
  lemma ConsumersAgreeWithTheWire(ms: seq<Timed>, key: string, q: Quoter)
    requires Quotes(q)
    ensures ShowsConsumer(ObserveAll(EMPTY, ms, q), ms, key, q)
  {
    hide ObserveAll, Fold, Stamps, WireConsumerLifeline, Lifeline, LatestRegistration, LatestRegistered, Born, Alive,
      Quotes;
    ObserveAllIsFold(ms, q);
    var t := ObserveAll(EMPTY, ms, q);
    ConsumersAgreeWithHistory(Stamps(ms, q), key);
    ConsumerLifelineOnWire(ms, key, q);
    if key in t.consumers {
      LatestRegisteredOnWire(ms, t.consumers[key], q);
    }
  }

  // ------------------------------------------------------- connections

  lemma RuleConnections(t: Topo, rule: Rule, a: Alert, now: int)
    ensures ApplyRule(t, rule, a, now).connections ==
            Connections.Step(t.connections, ConnectionEvent(rule, a.methodName, now))
  {
    hide Base, Connections.CloseNewest, Redeclared, RedeclaredExchange, ConsumerKey;
  }

  lemma ObserveConnections(t: Topo, m: Timed, q: Quoter)
    ensures Observe(t, m.payload, q, m.at).connections ==
            Connections.Step(t.connections, Sessions.Meaning(m, q))
  {
    hide EvaluateMethod, RuleOf, ConnectionEvent, ApplyRule;
    var f := EvaluateMethod(m.payload, q, m.at);
    if f.Some? {
      RuleConnections(t.(lastUpdated := m.at), RuleOf(f.value.ruleName), AsAlert(f.value, ""), m.at);
    }
  }

  /** Main result: after any captured methods the connection list is the newest fifty
      entries of the log that their opens and closes amount to. */
  lemma {:induction false} ConnectionsAgreeWithTheWire(ms: seq<Timed>, q: Quoter)
    ensures ObserveAll(EMPTY, ms, q).connections == Connections.List(Sessions.Meanings(ms, q))
    ensures ObserveAll(EMPTY, ms, q).connections ==
            Connections.Newest(Connections.Log(Sessions.Meanings(ms, q)), 50)
  {
    hide Observe, Connections.Step, Sessions.Meaning, Connections.Log;
    if ms == [] {
    } else {
      var n := |ms| - 1;
      ConnectionsAgreeWithTheWire(ms[..n], q);
      ObserveConnections(ObserveAll(EMPTY, ms[..n], q), ms[n], q);
      assert Sessions.Meanings(ms, q)[..n] == Sessions.Meanings(ms[..n], q);
    }
    Connections.BoundedListRefinesTheLog(Sessions.Meanings(ms, q));
  }
}
