/** The names of AMQP methods (internal/amqp/methods.go). */
module Methods {
  import opened Wrappers
  import opened Bytes

  /** A path element of its own: not empty, and without a slash. */
  predicate Slashless(s: string) {
    s != "" && '/' !in s
  }

  /** fmt's %d of a natural number. */
  function Decimal(n: nat): (s: string)
    ensures Slashless(s)
  {
    var digit := ['0' + (n % 10) as char];
    if n < 10 then digit else Decimal(n / 10) + digit
  }

  function ConnectionMethod(methodID: uint16): (s: Option<string>)
    ensures s.Some? ==> Slashless(s.value)
  {
    match methodID
    case 10 => Some("connection.start")
    case 11 => Some("connection.start-ok")
    case 30 => Some("connection.tune")
    case 31 => Some("connection.tune-ok")
    case 40 => Some("connection.open")
    case 41 => Some("connection.open-ok")
    case 50 => Some("connection.close")
    case 51 => Some("connection.close-ok")
    case 60 => Some("connection.blocked")
    case 61 => Some("connection.unblocked")
    case _ => None
  }

  function ChannelMethod(methodID: uint16): (s: Option<string>)
    ensures s.Some? ==> Slashless(s.value)
  {
    match methodID
    case 10 => Some("channel.open")
    case 11 => Some("channel.open-ok")
    case 20 => Some("channel.flow")
    case 21 => Some("channel.flow-ok")
    case 40 => Some("channel.close")
    case 41 => Some("channel.close-ok")
    case _ => None
  }

  function ExchangeMethod(methodID: uint16): (s: Option<string>)
    ensures s.Some? ==> Slashless(s.value)
  {
    match methodID
    case 10 => Some("exchange.declare")
    case 11 => Some("exchange.declare-ok")
    case 20 => Some("exchange.delete")
    case 21 => Some("exchange.delete-ok")
    case 30 => Some("exchange.bind")
    case 31 => Some("exchange.bind-ok")
    case 40 => Some("exchange.unbind")
    case 51 => Some("exchange.unbind-ok")
    case _ => None
  }

  function QueueMethod(methodID: uint16): (s: Option<string>)
    ensures s.Some? ==> Slashless(s.value)
  {
    match methodID
    case 10 => Some("queue.declare")
    case 11 => Some("queue.declare-ok")
    case 20 => Some("queue.bind")
    case 21 => Some("queue.bind-ok")
    case 30 => Some("queue.purge")
    case 31 => Some("queue.purge-ok")
    case 40 => Some("queue.delete")
    case 41 => Some("queue.delete-ok")
    case 50 => Some("queue.unbind")
    case 51 => Some("queue.unbind-ok")
    case _ => None
  }

  function BasicMethod(methodID: uint16): (s: Option<string>)
    ensures s.Some? ==> Slashless(s.value)
  {
    match methodID
    case 10 => Some("basic.qos")
    case 11 => Some("basic.qos-ok")
    case 20 => Some("basic.consume")
    case 21 => Some("basic.consume-ok")
    case 30 => Some("basic.cancel")
    case 31 => Some("basic.cancel-ok")
    case 40 => Some("basic.publish")
    case 50 => Some("basic.return")
    case 60 => Some("basic.deliver")
    case 70 => Some("basic.get")
    case 71 => Some("basic.get-ok")
    case 72 => Some("basic.get-empty")
    case 80 => Some("basic.ack")
    case 90 => Some("basic.reject")
    case 100 => Some("basic.recover-async")
    case 110 => Some("basic.recover")
    case 111 => Some("basic.recover-ok")
    case 120 => Some("basic.nack")
    case _ => None
  }

  function TxMethod(methodID: uint16): (s: Option<string>)
    ensures s.Some? ==> Slashless(s.value)
  {
    match methodID
    case 10 => Some("tx.select")
    case 11 => Some("tx.select-ok")
    case 20 => Some("tx.commit")
    case 21 => Some("tx.commit-ok")
    case 30 => Some("tx.rollback")
    case 31 => Some("tx.rollback-ok")
    case _ => None
  }

  function KnownMethod(classID: uint16, methodID: uint16): (s: Option<string>)
    ensures s.Some? ==> Slashless(s.value)
  {
    match classID
    case 10 => ConnectionMethod(methodID)
    case 20 => ChannelMethod(methodID)
    case 30 => ExchangeMethod(methodID)
    case 40 => QueueMethod(methodID)
    case 60 => BasicMethod(methodID)
    case 90 => TxMethod(methodID)
    case _ => None
  }

  function MethodName(classID: uint16, methodID: uint16): (s: string)
    ensures Slashless(s)
  {
    match KnownMethod(classID, methodID)
    case Some(name) => name
    case None => "class" + Decimal(classID) + ".method" + Decimal(methodID)
  }
}
