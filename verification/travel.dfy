/** The trip of a finding from the probe to the control plane, as JSON: which names
    arrive as they were captured. */
module Travel {
  import opened Wrappers
  import opened Decoder
  import opened Engine
  import opened GoText
  import opened Methods
  import opened Sniffer
  import opened TextChannel
  import opened Topology
  import opened Utf8

  /** All that is assumed of %q in general: a quoted name stands between quotes, in
      valid UTF-8. */
  ghost predicate Quotes(q: Quoter) {
    forall s :: Delimited(q(s)) && Utf8.Valid(q(s))
  }

  /** A finding after its trip as JSON.  Only two of its texts hold bytes from the wire;
      the others are the program's own words. */
  function Sent(f: Finding): Finding {
    f.(entity := Trip(f.entity), layman := if f.layman.Some? then Some(Trip(f.layman.value)) else None)
  }

  /** The names in the method that the cache will use are valid UTF-8. */
  predicate Utf8Names(m: MethodPayload) {
    match (m.classID, m.methodID)
    case (30, 10) =>
      (match ParseExchangeDeclare(m.args)
       case None => true
       case Some(ed) => Utf8.Valid(ed.exchange) && Utf8.Valid(ed.kind))
    case (30, 20) => (match ParseExchangeDelete(m.args) case None => true case Some(ed) => Utf8.Valid(ed.exchange))
    case (40, 10) => (match ParseQueueDeclare(m.args) case None => true case Some(qd) => Utf8.Valid(qd.queue))
    case (40, 40) => (match ParseQueueDelete(m.args) case None => true case Some(qd) => Utf8.Valid(qd.queue))
    case (60, 20) => (match ParseBasicConsume(m.args) case None => true case Some(bc) => Utf8.Valid(bc.queue))
    case (60, 30) => (match ParseLeadingString(m.args) case None => true case Some(tag) => Utf8.Valid(tag))
    case _ => true
  }

  /** The trip of a finding makes no difference to the cache. */
  predicate Unharmed(f: Option<Finding>) {
    f.Some? ==>
      Sent(f.value) == f.value || RuleOf(f.value.ruleName) == Ignored ||
      (f.value.entity == "" && RuleOf(f.value.ruleName) in {QueueDeclared, ExchangeDeclared})
  }

  lemma FlagTextIsValid(durable: bool, exclusive: bool, autoDelete: bool)
    ensures Utf8.Valid(FlagText(durable, exclusive, autoDelete))
  {
    hide Utf8.Valid;
    var d, x := "durable=" + ShowBool(durable), "exclusive=" + ShowBool(exclusive);
    var a := "auto-delete=" + ShowBool(autoDelete);
    AsciiIsValid(d);
    AsciiIsValid(x);
    AsciiIsValid(a);
    AsciiIsValid(" ");
    ValidConcat(d, " ");
    ValidConcat(d + " ", x);
    ValidConcat(d + " " + x, " ");
    ValidConcat(d + " " + x + " ", a);
    assert FlagText(durable, exclusive, autoDelete) == d + " " + x + " " + a;
  }

  lemma QueueTextIsValid(q: Quoter, qd: QueueDeclare)
    requires Quotes(q)
    ensures Utf8.Valid(QueueText(q, qd))
  {
    hide Utf8.Valid, FlagText;
    var t := q(qd.queue);
    AsciiIsValid(".");
    if qd.passive {
      var a, b := "Queue existence check", " (passive declare): name=";
      AsciiIsValid(a);
      AsciiIsValid(b);
      ValidConcat(a, b);
      ValidConcat(a + b, t);
      ValidConcat(a + b + t, ".");
    } else {
      var a, flags := "Queue declared: name=", FlagText(qd.durable, qd.exclusive, qd.autoDelete);
      FlagTextIsValid(qd.durable, qd.exclusive, qd.autoDelete);
      AsciiIsValid(a);
      AsciiIsValid(" ");
      ValidConcat(a, t);
      ValidConcat(" ", flags);
      ValidConcat(" " + flags, ".");
      ValidConcat(a + t, " " + flags + ".");
    }
  }

  lemma ExchangeTextIsValid(q: Quoter, ed: ExchangeDeclare)
    requires Quotes(q) && Utf8.Valid(ed.kind)
    ensures Utf8.Valid(ExchangeText(q, ed))
  {
    AsciiTail(ed);
    hide Utf8.Valid, ExchangeTail;
    var a, t, tail := "Exchange declared: name=", q(ed.exchange), ExchangeTail(ed);
    AsciiIsValid(a);
    AsciiIsValid(" ");
    AsciiIsValid("type=");
    AsciiIsValid(tail);
    ValidConcat(a, t);
    ValidConcat(a + t, " ");
    ValidConcat(a + t + " ", "type=");
    ValidConcat(ed.kind, tail);
    ValidConcat(a + t + " " + "type=", ed.kind + tail);
  }

  lemma AsciiTail(ed: ExchangeDeclare)
    ensures Ascii(ExchangeTail(ed))
  {
  }

  lemma ConsumerTextIsValid(q: Quoter, bc: BasicConsume)
    requires Quotes(q)
    ensures Utf8.Valid(ConsumerText(q, bc))
  {
    AsciiConsumerTail(bc);
    hide Utf8.Valid, ConsumerTail;
    var a, b, t, u, tail := "Consumer registered", " on queue ", q(bc.queue), q(bc.consumerTag), ConsumerTail(bc);
    AsciiIsValid(a);
    AsciiIsValid(b);
    AsciiIsValid(", ");
    AsciiIsValid("tag=");
    AsciiIsValid(tail);
    ValidConcat(a, b);
    ValidConcat(a + b, t);
    ValidConcat(a + b + t, ", ");
    ValidConcat(a + b + t + ", ", "tag=");
    ValidConcat(u, tail);
    ValidConcat(a + b + t + ", " + "tag=", u + tail);
  }

  lemma AsciiConsumerTail(bc: BasicConsume)
    ensures Ascii(ConsumerTail(bc))
  {
  }

  lemma ConfirmationIsValid()
    ensures Utf8.Valid("Broker confirmed" + " consumer registration.")
  {
    hide Utf8.Valid;
    AsciiIsValid("Broker confirmed");
    AsciiIsValid(" consumer registration.");
    ValidConcat("Broker confirmed", " consumer registration.");
  }

  lemma FailureIsValid()
    ensures Utf8.Valid("New consumer registered" + " (could not parse details).")
  {
    hide Utf8.Valid;
    AsciiIsValid("New consumer registered");
    AsciiIsValid(" (could not parse details).");
    ValidConcat("New consumer registered", " (could not parse details).");
  }

  lemma UnharmedIfValid(f: Finding)
    requires Utf8.Valid(f.entity) && (f.layman.Some? ==> Utf8.Valid(f.layman.value))
    ensures Unharmed(Some(f))
  {
    ValidTripsUnchanged(f.entity);
    if f.layman.Some? {
      ValidTripsUnchanged(f.layman.value);
    }
  }

  lemma ConnectionsTravel(m: MethodPayload, mn: string, now: int)
    ensures Unharmed(EvaluateConnection(m, mn, now))
  {
    hide Contains, ToLower, ParseConnectionTune, ParseLeadingString, ParseClose, RuleOf;
    assert Trip("") == "";
  }

  lemma ChannelsTravel(m: MethodPayload, mn: string, now: int)
    ensures Unharmed(EvaluateChannel(m, mn, now)) && Unharmed(EvaluateTx(m, mn, now))
  {
    hide Contains, ToLower, ParseClose, ParseChannelFlow, RuleOf;
    assert Trip("") == "";
  }

  lemma ExchangesTravel(m: MethodPayload, q: Quoter, mn: string, now: int)
    requires Quotes(q) && m.classID == 30 && Utf8Names(m)
    ensures Unharmed(EvaluateExchange(m, q, mn, now))
  {
    hide Utf8.Valid, ExchangeText, ParseExchangeDeclare, ParseExchangeDelete, Quotes;
    assert Trip("") == "";
    if m.methodID == 10 && ParseExchangeDeclare(m.args).Some? {
      ExchangeTextIsValid(q, ParseExchangeDeclare(m.args).value);
      UnharmedIfValid(EvaluateExchange(m, q, mn, now).value);
    } else if m.methodID == 20 && ParseExchangeDelete(m.args).Some? {
      UnharmedIfValid(EvaluateExchange(m, q, mn, now).value);
    }
  }

  lemma QueuesTravel(m: MethodPayload, q: Quoter, mn: string, now: int)
    requires Quotes(q) && m.classID == 40 && Utf8Names(m)
    ensures Unharmed(EvaluateQueue(m, q, mn, now))
  {
    hide Utf8.Valid, QueueText, ParseQueueDeclare, ParseQueueDelete, ParseQueuePurge, Quotes;
    assert Trip("") == "";
    if m.methodID == 10 && ParseQueueDeclare(m.args).Some? {
      QueueTextIsValid(q, ParseQueueDeclare(m.args).value);
      UnharmedIfValid(EvaluateQueue(m, q, mn, now).value);
    } else if m.methodID == 40 && ParseQueueDelete(m.args).Some? {
      UnharmedIfValid(EvaluateQueue(m, q, mn, now).value);
    }
  }

  lemma RegistrationsTravel(m: MethodPayload, q: Quoter, mn: string, now: int)
    requires Quotes(q) && m.classID == 60 && m.methodID == 20 && Utf8Names(m)
    ensures Unharmed(EvaluateBasic(m, q, mn, now))
  {
    hide Utf8.Valid, ConsumerText, ParseBasicConsume, Quotes, Ascii;
    if ParseBasicConsume(m.args).Some? {
      ConsumerTextIsValid(q, ParseBasicConsume(m.args).value);
    } else {
      FailureIsValid();
      AsciiIsValid("");
    }
    UnharmedIfValid(EvaluateBasic(m, q, mn, now).value);
  }

  lemma DeliveriesTravel(m: MethodPayload, q: Quoter, mn: string, now: int)
    requires Quotes(q) && m.classID == 60 && Utf8Names(m)
    ensures Unharmed(EvaluateBasic(m, q, mn, now))
  {
    hide Utf8.Valid, ConsumerText, ParseBasicConsume, ParseBasicPublish, ParseBasicReturn, ParseLeadingString, Quotes,
      Ascii;
    assert Trip("") == "";
    if m.methodID == 20 {
      RegistrationsTravel(m, q, mn, now);
    } else if m.methodID == 21 {
      ConfirmationIsValid();
      AsciiIsValid("");
      UnharmedIfValid(EvaluateBasic(m, q, mn, now).value);
    } else if m.methodID == 30 && ParseLeadingString(m.args).Some? {
      UnharmedIfValid(EvaluateBasic(m, q, mn, now).value);
    }
  }

  /** Names in valid UTF-8 reach the cache as they were captured. */
  lemma NamesTravel(t: Topo, m: Timed, q: Quoter)
    requires Quotes(q) && Utf8Names(m.payload)
    ensures EvaluateMethod(m.payload, q, m.at).Some? ==>
              var f := EvaluateMethod(m.payload, q, m.at).value;
              Apply(t, AsAlert(Sent(f), ""), m.at) == Apply(t, AsAlert(f, ""), m.at)
  {
    hide EvaluateConnection, EvaluateChannel, EvaluateExchange, EvaluateQueue, EvaluateBasic, EvaluateTx,
      Utf8Names, Quotes, MethodName, Unharmed, Sent, Apply;
    var p, mn := m.payload, MethodName(m.payload.classID, m.payload.methodID);
    ConnectionsTravel(p, mn, m.at);
    ChannelsTravel(p, mn, m.at);
    if p.classID == 30 {
      ExchangesTravel(p, q, mn, m.at);
    } else if p.classID == 40 {
      QueuesTravel(p, q, mn, m.at);
    } else if p.classID == 60 {
      DeliveriesTravel(p, q, mn, m.at);
    }
    var f := EvaluateMethod(p, q, m.at);
    if f.Some? {
      UnharmedIsEnough(t, f.value, m.at);
    }
  }

  lemma UnharmedIsEnough(t: Topo, f: Finding, now: int)
    requires Unharmed(Some(f))
    ensures Apply(t, AsAlert(Sent(f), ""), now) == Apply(t, AsAlert(f, ""), now)
  {
    hide RuleOf;
    assert Trip("") == "";
  }

  /** What the condition is for: two queues whose names differ in a byte outside UTF-8
      are shown as one. */
  lemma InvalidNamesMerge(t: Topo, f: Finding, g: Finding, x: char, y: char, rest: string, now: int)
    requires 0xF5 <= x as int <= 0xFF && 0xF5 <= y as int <= 0xFF && x != y
    requires f.ruleName == g.ruleName == "queue_declare" && f.entity == [x] + rest && g.entity == [y] + rest
    ensures f.entity != g.entity
    ensures Apply(Apply(t, AsAlert(Sent(f), ""), now), AsAlert(Sent(g), ""), now).queues.Keys ==
            t.queues.Keys + {Trip(f.entity)}
  {
    hide Redeclared;
    InvalidBytesMerge(x, y, rest);
    assert f.entity[0] == x && g.entity[0] == y;
    TripGrows(f.entity);
  }
}
