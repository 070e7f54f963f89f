/** The rule engine's verdict on one AMQP method (internal/rules/engine.go,
    EvaluateMethod).  Severity, rule and entity are modelled for every method; the
    message text only where the control plane reads it back. */
module Engine {
  import opened Wrappers
  import opened Decoder
  import opened GoText
  import opened Methods

  /** fmt's %q. */
  type Quoter = string -> string

  datatype Severity = Info | Warn | Error

  /** `layman` is None where nothing modelled here ever reads the text. */
  datatype Finding = Finding(severity: Severity, ruleID: string, ruleName: string, methodName: string,
                             entity: string, layman: Option<string>, timestamp: int)

  function InfoAlert(id: string, name: string, mn: string, now: int): Option<Finding> {
    Some(Finding(Info, id, name, mn, "", None, now))
  }

  function WarnAlert(id: string, name: string, mn: string, entity: string, now: int): Option<Finding> {
    Some(Finding(Warn, id, name, mn, entity, None, now))
  }

  function ErrAlert(id: string, name: string, mn: string, now: int): Option<Finding> {
    Some(Finding(Error, id, name, mn, "", None, now))
  }

  /** An informational alert whose text is read back. */
  function Spoken(id: string, name: string, mn: string, entity: string, text: string, now: int): Option<Finding> {
    Some(Finding(Info, id, name, mn, entity, Some(text), now))
  }

  /** fmt's %v of a bool. */
  function ShowBool(b: bool): string {
    if b then "true" else "false"
  }

  // ------------------------------------------------------- texts read back

  function FlagText(durable: bool, exclusive: bool, autoDelete: bool): string {
    ("durable=" + ShowBool(durable)) + " " + ("exclusive=" + ShowBool(exclusive)) + " " +
    ("auto-delete=" + ShowBool(autoDelete))
  }

  function QueueText(q: Quoter, qd: QueueDeclare): string {
    if qd.passive then "Queue existence check" + " (passive declare): name=" + q(qd.queue) + "."
    else "Queue declared: name=" + q(qd.queue) + (" " + FlagText(qd.durable, qd.exclusive, qd.autoDelete) + ".")
  }

  function ExchangeText(q: Quoter, ed: ExchangeDeclare): string {
    ("Exchange declared: name=" + q(ed.exchange) + " ") + "type=" + (ed.kind + ExchangeTail(ed))
  }

  function ExchangeTail(ed: ExchangeDeclare): string {
    (if ed.durable then " durable" else "") + (if ed.autoDelete then " auto-delete" else "") + "."
  }

  function ConsumerText(q: Quoter, bc: BasicConsume): string {
    ("Consumer registered" + " on queue " + q(bc.queue) + ", ") + "tag=" + (q(bc.consumerTag) + ConsumerTail(bc))
  }

  function ConsumerTail(bc: BasicConsume): string {
    ", no-ack=" + ShowBool(bc.noAck) + (if bc.exclusive then " (exclusive)" else "") + "."
  }

  // ------------------------------------------------------- by class

  /** `now` is the time read while the method is evaluated. */
  function EvaluateMethod(m: MethodPayload, q: Quoter, now: int): (f: Option<Finding>)
    ensures f.Some? ==> f.value.methodName == MethodName(m.classID, m.methodID) && f.value.timestamp == now
  {
    var mn := MethodName(m.classID, m.methodID);
    match m.classID
    case 10 => EvaluateConnection(m, mn, now)
    case 20 => EvaluateChannel(m, mn, now)
    case 30 => EvaluateExchange(m, q, mn, now)
    case 40 => EvaluateQueue(m, q, mn, now)
    case 60 => EvaluateBasic(m, q, mn, now)
    case 90 => EvaluateTx(m, mn, now)
    case _ => None
  }

  function EvaluateConnection(m: MethodPayload, mn: string, now: int): (f: Option<Finding>)
    ensures f.Some? ==> f.value.methodName == mn && f.value.timestamp == now
  {
    match m.methodID
    case 10 => InfoAlert("0.1", "connection_negotiation", mn, now)
    case 30 =>
      (match ParseConnectionTune(m.args)
       case None => InfoAlert("0.2", "connection_tune", mn, now)
       case Some(ct) => if ct.heartbeat > 60 then WarnAlert("1.4", "connection_tune_override", mn, "", now)
                        else InfoAlert("0.2", "connection_tune", mn, now))
    case 40 => InfoAlert("0.3", "connection_opened", mn, now)
    case 41 => InfoAlert("0.3", "connection_opened", mn, now)
    case 50 =>
      (match ParseClose(m.args)
       case None => WarnAlert("0.x", "connection_close_unparseable", mn, "", now)
       case Some(cc) => EvaluateConnectionClose(cc, mn, now))
    case 51 => InfoAlert("0.4", "connection_closed_ok", mn, now)
    case 60 =>
      (match ParseLeadingString(m.args)
       case None => WarnAlert("2.0", "connection_blocked", mn, "", now)
       case Some(reason) =>
         if Contains(ToLower(reason), "memory") then WarnAlert("2.1", "memory_watermark_alarm", mn, "", now)
         else if Contains(ToLower(reason), "disk") then WarnAlert("2.2", "disk_watermark_alarm", mn, "", now)
         else WarnAlert("2.0", "connection_blocked", mn, "", now))
    case 61 => InfoAlert("2.0", "connection_unblocked", mn, now)
    case _ => None
  }

  function EvaluateConnectionClose(cc: Close, mn: string, now: int): (f: Option<Finding>)
    ensures f.Some? ==> f.value.methodName == mn && f.value.timestamp == now
  {
    var text := ToLower(cc.replyText);
    if cc.replyCode == 403 then ErrAlert("1.1", "authentication_refused", mn, now)
    else if cc.replyCode == 320 && Contains(text, "heartbeat") then ErrAlert("1.2", "missed_heartbeats", mn, now)
    else if cc.replyCode == 320 && Contains(text, "connection limit") then
      ErrAlert("1.3", "connection_limit_exceeded", mn, now)
    else if cc.replyCode == 501 then ErrAlert("3.4", "frame_size_exceeded", mn, now)
    else if cc.replyCode == 406 && Contains(text, "delivery acknowledgement") then
      ErrAlert("4.1", "consumer_acknowledgement_timeout", mn, now)
    else if cc.replyCode == 200 then InfoAlert("0.4", "connection_closed_cleanly", mn, now)
    else UnexpectedClose(cc, "1.x", "connection_closed_unexpectedly", mn, now)
  }

  function UnexpectedClose(cc: Close, id: string, name: string, mn: string, now: int): Option<Finding> {
    Some(Finding(if cc.replyCode >= 500 then Error else Warn, id, name, mn, "", None, now))
  }

  function EvaluateChannel(m: MethodPayload, mn: string, now: int): (f: Option<Finding>)
    ensures f.Some? ==> f.value.methodName == mn && f.value.timestamp == now
  {
    match m.methodID
    case 10 => InfoAlert("0.5", "channel_opened", mn, now)
    case 11 => InfoAlert("0.5", "channel_opened", mn, now)
    case 20 =>
      (match ParseChannelFlow(m.args)
       case None => WarnAlert("2.5", "channel_flow_unparseable", mn, "", now)
       case Some(active) => if active then InfoAlert("2.5", "channel_flow_resumed", mn, now)
                            else ErrAlert("2.5", "channel_flow_throttled", mn, now))
    case 40 =>
      (match ParseClose(m.args)
       case None => WarnAlert("0.x", "channel_close_unparseable", mn, "", now)
       case Some(cc) => EvaluateChannelClose(cc, mn, now))
    case 41 => InfoAlert("0.6", "channel_closed_ok", mn, now)
    case _ => None
  }

  function EvaluateChannelClose(cc: Close, mn: string, now: int): (f: Option<Finding>)
    ensures f.Some? ==> f.value.methodName == mn && f.value.timestamp == now
  {
    if cc.replyCode == 503 then ErrAlert("2.3", "channel_limit_exceeded", mn, now)
    else if cc.replyCode == 406 then ErrAlert("3.1", "topology_mismatch", mn, now)
    else if cc.replyCode == 405 then ErrAlert("2.4", "resource_locked", mn, now)
    else if cc.replyCode == 404 then ErrAlert("3.3", "entity_not_found", mn, now)
    else if cc.replyCode == 501 then ErrAlert("3.4", "frame_size_exceeded", mn, now)
    else if cc.replyCode == 406 && Contains(ToLower(cc.replyText), "delivery acknowledgement") then
      ErrAlert("4.1", "consumer_acknowledgement_timeout", mn, now)
    else if cc.replyCode == 200 then InfoAlert("0.6", "channel_closed_cleanly", mn, now)
    else UnexpectedClose(cc, "3.x", "channel_closed_unexpectedly", mn, now)
  }

  function EvaluateExchange(m: MethodPayload, q: Quoter, mn: string, now: int): (f: Option<Finding>)
    ensures f.Some? ==> f.value.methodName == mn && f.value.timestamp == now
  {
    match m.methodID
    case 10 =>
      (match ParseExchangeDeclare(m.args)
       case None => Spoken("0.7", "exchange_declare", mn, "", "Exchange declared (could not parse details).", now)
       case Some(ed) => Spoken("0.7", "exchange_declare", mn, ed.exchange, ExchangeText(q, ed), now))
    case 11 => Spoken("0.7", "exchange_declare", mn, "", "Broker confirmed exchange declaration.", now)
    case 20 =>
      (match ParseExchangeDelete(m.args)
       case None => WarnAlert("0.8", "exchange_deleted", mn, "", now)
       case Some(ed) => WarnAlert("0.8", "exchange_deleted", mn, ed.exchange, now))
    case 21 => InfoAlert("0.8", "exchange_deleted", mn, now)
    case 30 => InfoAlert("0.9", "exchange_bind", mn, now)
    case 40 => InfoAlert("0.9", "exchange_unbind", mn, now)
    case _ => None
  }

  function EvaluateQueue(m: MethodPayload, q: Quoter, mn: string, now: int): (f: Option<Finding>)
    ensures f.Some? ==> f.value.methodName == mn && f.value.timestamp == now
  {
    match m.methodID
    case 10 =>
      (match ParseQueueDeclare(m.args)
       case None => Spoken("0.10", "queue_declare", mn, "", "Queue declared (could not parse details).", now)
       case Some(qd) => Spoken("0.10", "queue_declare", mn, qd.queue, QueueText(q, qd), now))
    case 11 => Spoken("0.10", "queue_declare", mn, "", "Broker confirmed queue declaration.", now)
    case 20 => InfoAlert("0.11", "queue_bind", mn, now)
    case 21 => InfoAlert("0.11", "queue_bind", mn, now)
    case 30 =>
      (match ParseQueuePurge(m.args)
       case None => WarnAlert("0.12", "queue_purged", mn, "", now)
       case Some(queue) => WarnAlert("0.12", "queue_purged", mn, queue, now))
    case 31 => InfoAlert("0.12", "queue_purged", mn, now)
    case 40 =>
      (match ParseQueueDelete(m.args)
       case None => WarnAlert("0.13", "queue_deleted", mn, "", now)
       case Some(qd) => WarnAlert("0.13", "queue_deleted", mn, qd.queue, now))
    case 50 => InfoAlert("0.11", "queue_unbind", mn, now)
    case _ => None
  }

  function EvaluateBasic(m: MethodPayload, q: Quoter, mn: string, now: int): (f: Option<Finding>)
    ensures f.Some? ==> f.value.methodName == mn && f.value.timestamp == now
  {
    match m.methodID
    case 10 => InfoAlert("0.14", "basic_qos", mn, now)
    case 20 =>
      (match ParseBasicConsume(m.args)
       case None =>
         Spoken("0.15", "consumer_registered", mn, "", "New consumer registered" + " (could not parse details).", now)
       case Some(bc) => Spoken("0.15", "consumer_registered", mn, bc.queue, ConsumerText(q, bc), now))
    case 21 => Spoken("0.15", "consumer_registered", mn, "", "Broker confirmed" + " consumer registration.", now)
    case 30 =>
      (match ParseLeadingString(m.args)
       case None => WarnAlert("0.16", "consumer_cancelled", mn, "", now)
       case Some(tag) => WarnAlert("0.16", "consumer_cancelled", mn, tag, now))
    case 40 =>
      (match ParseBasicPublish(m.args)
       case None => InfoAlert("0.17", "message_published", mn, now)
       case Some(bp) =>
         Some(Finding(Info, "0.17", "message_published", mn, bp.exchange + "|" + bp.routingKey, None, now)))
    case 50 =>
      (match ParseBasicReturn(m.args)
       case None => ErrAlert("3.2", "unroutable_message", mn, now)
       case Some(br) =>
         var name := if br.replyCode == 312 || br.replyCode == 313 then "unroutable_message" else "message_returned";
         WarnAlert("3.2", name, mn, br.exchange + "|" + br.routingKey, now))
    case 90 => WarnAlert("4.3", "message_rejected", mn, "", now)
    case 120 => WarnAlert("4.4", "message_nacked", mn, "", now)
    case _ => None
  }

  function EvaluateTx(m: MethodPayload, mn: string, now: int): (f: Option<Finding>)
    ensures f.Some? ==> f.value.methodName == mn && f.value.timestamp == now
  {
    match m.methodID
    case 10 => InfoAlert("0.20", "tx_begin", mn, now)
    case 20 => InfoAlert("0.20", "tx_commit", mn, now)
    case 30 => WarnAlert("0.21", "tx_rollback", mn, "", now)
    case _ => None
  }

  // ------------------------------------------------------- acknowledgement timeouts

  /** RabbitMQ reports a timeout by closing with code 406 and this text. */
  predicate IsTimeout(cc: Close) {
    cc.replyCode == 406 && Contains(ToLower(cc.replyText), "delivery acknowledgement")
  }

  predicate Raises41(f: Option<Finding>) {
    f.Some? && f.value.ruleID == "4.1"
  }

  lemma ConnectionTimeouts(m: MethodPayload, mn: string, now: int)
    ensures Raises41(EvaluateConnection(m, mn, now)) <==>
            m.methodID == 50 && ParseClose(m.args).Some? && IsTimeout(ParseClose(m.args).value)
  {
    hide Contains, ToLower, ParseClose, ParseConnectionTune, ParseLeadingString;
  }

  lemma ChannelTimeouts(m: MethodPayload, mn: string, now: int)
    ensures !Raises41(EvaluateChannel(m, mn, now))
    ensures m.methodID == 40 && ParseClose(m.args).Some? && IsTimeout(ParseClose(m.args).value) ==>
              EvaluateChannel(m, mn, now).Some? && EvaluateChannel(m, mn, now).value.ruleID == "3.1"
  {
    hide Contains, ToLower, ParseClose, ParseChannelFlow;
  }

  lemma DeclarationTimeouts(m: MethodPayload, q: Quoter, mn: string, now: int)
    ensures !Raises41(EvaluateExchange(m, q, mn, now)) && !Raises41(EvaluateQueue(m, q, mn, now))
  {
    hide QueueText, ExchangeText, ParseOneName, ParseTwoNames;
  }

  lemma DeliveryTimeouts(m: MethodPayload, q: Quoter, mn: string, now: int)
    ensures !Raises41(EvaluateBasic(m, q, mn, now)) && !Raises41(EvaluateTx(m, mn, now))
  {
    hide ConsumerText, ParseTwoNames, ParseLeadingString, ParseBasicReturn;
  }

  /** Rule 4.1 is raised for timeouts on connection.close only.  The branch for
      channel.close, where RabbitMQ reports them, is dead: code 406 is answered by
      rule 3.1 before it. */
  lemma TimeoutsAreSeenOnConnectionsOnly(m: MethodPayload, q: Quoter, now: int)
    ensures Raises41(EvaluateMethod(m, q, now)) <==>
            m.classID == 10 && m.methodID == 50 && ParseClose(m.args).Some? && IsTimeout(ParseClose(m.args).value)
    ensures m.classID == 20 && m.methodID == 40 && ParseClose(m.args).Some? && IsTimeout(ParseClose(m.args).value) ==>
              EvaluateMethod(m, q, now).Some? && EvaluateMethod(m, q, now).value.ruleID == "3.1"
  {
    hide EvaluateConnection, EvaluateChannel, EvaluateExchange, EvaluateQueue, EvaluateBasic, EvaluateTx,
      IsTimeout, ParseClose, MethodName;
    var mn := MethodName(m.classID, m.methodID);
    ConnectionTimeouts(m, mn, now);
    ChannelTimeouts(m, mn, now);
    DeclarationTimeouts(m, q, mn, now);
    DeliveryTimeouts(m, q, mn, now);
  }
}
