/** Method payloads and their arguments (internal/amqp/frame.go and
    internal/amqp/decoder.go; sections 4.2.4 and 4.2.5 of the AMQP 0-9-1
    specification), with the encodings they invert. */
module Decoder {
  import opened Wrappers
  import opened Bytes
  import Frames

  // ------------------------------------------------------- method payloads

  datatype MethodPayload = MethodPayload(classID: uint16, methodID: uint16, args: seq<byte>)

  function UnmarshalMethod(f: Frames.Frame): Option<MethodPayload> {
    if f.typ != Frames.FRAME_METHOD then None
    else if |f.payload| < 4 then None
    else Some(MethodPayload(U16(f.payload, 0), U16(f.payload, 2), f.payload[4..]))
  }

  function MarshalMethod(m: MethodPayload): seq<byte> {
    Put16(m.classID) + Put16(m.methodID) + m.args
  }

  /** A frame unmarshals to a method exactly when it is a method frame carrying
      that method's encoding. */
  lemma UnmarshalIff(f: Frames.Frame, m: MethodPayload)
    ensures UnmarshalMethod(f) == Some(m) <==> f.typ == Frames.FRAME_METHOD && f.payload == MarshalMethod(m)
  {
    var p := f.payload;
    if |p| >= 4 {
      Put16Back(p, 0);
      Put16Back(p, 2);
      assert p == p[0..2] + p[2..4] + p[4..];
    }
    if p == MarshalMethod(m) {
      assert p[..2] == Put16(m.classID) && p[2..4] == Put16(m.methodID) && p[4..] == m.args;
      assert U16(p, 0) == U16(p[..2], 0) && U16(p, 2) == U16(p[2..4], 0);
    }
  }

  // ------------------------------------------------------- field readers

  /** A field's value and the offset after it. */
  datatype Field<+T> = Got(value: T, next: nat) | Truncated

  /** Go's conversion of bytes to a string. */
  function Text(b: seq<byte>): (s: string)
    ensures |s| == |b| && forall i :: 0 <= i < |b| ==> s[i] == b[i] as char
  {
    seq(|b|, i requires 0 <= i < |b| => b[i] as char)
  }

  /** Strings that a short string can carry. */
  predicate Short(s: string) {
    |s| < 0x100 && forall i :: 0 <= i < |s| ==> s[i] as int < 0x100
  }

  function ParseShortStr(data: seq<byte>, offset: nat): (r: Field<string>)
    ensures r.Got? ==> offset + 1 + |r.value| == r.next <= |data| && Short(r.value)
  {
    if |data| <= offset then Truncated
    else
      var length := data[offset];
      if |data| < offset + 1 + length then Truncated
      else Got(Text(data[offset + 1..offset + 1 + length]), offset + 1 + length)
  }

  function ParseShortUint(data: seq<byte>, offset: nat): (r: Field<uint16>)
    ensures r.Got? <==> offset + 2 <= |data|
    ensures r.Got? ==> r.next == offset + 2
  {
    if |data| < offset + 2 then Truncated else Got(U16(data, offset), offset + 2)
  }

  function ParseLongLongUint(data: seq<byte>, offset: nat): (r: Field<uint64>)
    ensures r.Got? <==> offset + 8 <= |data|
    ensures r.Got? ==> r.next == offset + 8
  {
    if |data| < offset + 8 then Truncated else Got(U64(data, offset), offset + 8)
  }

  /** The bit of weight `mask`, false when the flags byte is missing. */
  predicate Flag(data: seq<byte>, offset: nat, mask: nat)
    requires mask > 0
  {
    offset < |data| && (data[offset] / mask) % 2 == 1
  }

  // ------------------------------------------------------- field writers

  function PutShortStr(s: string): (b: seq<byte>)
    requires Short(s)
    ensures |b| == 1 + |s|
  {
    [|s|] + seq(|s|, i requires 0 <= i < |s| => s[i] as int)
  }

  function Bit(b: bool): nat {
    if b then 1 else 0
  }

  /** Bits are packed starting from the low bit. */
  function PutBits(b0: bool, b1: bool, b2: bool, b3: bool, b4: bool): (b: seq<byte>)
    ensures |b| == 1
    ensures Flag(b, 0, 1) == b0 && Flag(b, 0, 2) == b1 && Flag(b, 0, 4) == b2 && Flag(b, 0, 8) == b3
    ensures Flag(b, 0, 16) == b4
  {
    [Bit(b0) + 2 * Bit(b1) + 4 * Bit(b2) + 8 * Bit(b3) + 16 * Bit(b4)]
  }

  /** `field` stands at `offset`. */
  ghost predicate At(data: seq<byte>, offset: nat, field: seq<byte>) {
    offset + |field| <= |data| && data[offset..offset + |field|] == field
  }

  /** Consecutive fields. */
  lemma AtConcat(data: seq<byte>, offset: nat, a: seq<byte>, b: seq<byte>)
    requires At(data, offset, a + b)
    ensures At(data, offset, a) && At(data, offset + |a|, b)
  {
    var field := data[offset..offset + |a| + |b|];
    assert data[offset..offset + |a|] == field[..|a|];
    assert data[offset + |a|..offset + |a| + |b|] == field[|a|..];
  }

  /** Short strings read back, wherever they stand. */
  lemma ShortStrAt(data: seq<byte>, offset: nat, s: string)
    requires Short(s) && At(data, offset, PutShortStr(s))
    ensures ParseShortStr(data, offset) == Got(s, offset + 1 + |s|)
  {
    var field := PutShortStr(s);
    assert data[offset] == data[offset..offset + |field|][0];
    var body := data[offset + 1..offset + 1 + |s|];
    assert body == field[1..];
    assert forall i :: 0 <= i < |s| ==> body[i] == s[i] as int;
    assert Text(body) == s;
  }

  /** Whatever a short string was read from is its encoding. */
  lemma ShortStrBack(data: seq<byte>, offset: nat)
    requires ParseShortStr(data, offset).Got?
    ensures At(data, offset, PutShortStr(ParseShortStr(data, offset).value))
  {
    var r := ParseShortStr(data, offset);
    var body := data[offset + 1..r.next];
    assert forall i :: 0 <= i < |body| ==> r.value[i] as int == body[i];
    assert PutShortStr(r.value) == [data[offset]] + body;
    assert data[offset..r.next] == [data[offset]] + body;
  }

  lemma Int16At(data: seq<byte>, offset: nat, x: uint16)
    requires At(data, offset, Put16(x))
    ensures U16(data, offset) == x && ParseShortUint(data, offset) == Got(x, offset + 2)
  {
    ReadAt(data, offset, Put16(x));
  }

  lemma ReadAt(data: seq<byte>, offset: nat, field: seq<byte>)
    requires At(data, offset, field)
    ensures |field| == 2 ==> U16(data, offset) == U16(field, 0)
    ensures |field| == 4 ==> U32(data, offset) == U32(field, 0)
    ensures |field| == 8 ==> U64(data, offset) == U64(field, 0)
  {
    assert data == data[..offset] + field + data[offset + |field|..];
    ReadInside(data[..offset], field, data[offset + |field|..]);
  }

  lemma FlagsAt(data: seq<byte>, offset: nat, field: seq<byte>)
    requires |field| == 1 && At(data, offset, field)
    ensures forall mask: nat | mask > 0 :: Flag(data, offset, mask) == Flag(field, 0, mask)
  {
    assert data[offset] == data[offset..offset + 1][0];
  }

  // ------------------------------------------------------- the methods

  datatype Close = Close(replyCode: uint16, replyText: string, classID: uint16, methodID: uint16)
  datatype ConnectionTune = ConnectionTune(channelMax: uint16, frameMax: uint32, heartbeat: uint16)
  datatype BasicReturn = BasicReturn(replyCode: uint16, replyText: string, exchange: string, routingKey: string)
  datatype BasicPublish = BasicPublish(exchange: string, routingKey: string, mandatory: bool, immediate: bool)
  datatype BasicConsume = BasicConsume(queue: string, consumerTag: string, noAck: bool, exclusive: bool)
  datatype BasicNack = BasicNack(deliveryTag: uint64, multiple: bool, requeue: bool)
  datatype BasicReject = BasicReject(deliveryTag: uint64, requeue: bool)
  datatype QueueDeclare = QueueDeclare(queue: string, passive: bool, durable: bool, exclusive: bool, autoDelete: bool)
  datatype QueueDelete = QueueDelete(queue: string, ifUnused: bool, ifEmpty: bool)
  datatype ExchangeDeclare =
    ExchangeDeclare(exchange: string, kind: string, passive: bool, durable: bool, autoDelete: bool)
  datatype ExchangeDelete = ExchangeDelete(exchange: string, ifUnused: bool)

  /** ParseConnectionClose and ParseChannelClose, which have the same layout. */
  function ParseClose(p: seq<byte>): Option<Close> {
    if |p| < 2 then None
    else
      match ParseShortStr(p, 2)
      case Truncated => None
      case Got(text, offset) =>
        if |p| >= offset + 4 then Some(Close(U16(p, 0), text, U16(p, offset), U16(p, offset + 2)))
        else Some(Close(U16(p, 0), text, 0, 0))
  }

  /** The reason of connection.blocked, the tag of basic.cancel. */
  function ParseLeadingString(p: seq<byte>): Option<string> {
    match ParseShortStr(p, 0)
    case Truncated => None
    case Got(text, _) => Some(text)
  }

  function ParseChannelFlow(p: seq<byte>): Option<bool> {
    if |p| < 1 then None else Some(p[0] != 0)
  }

  function ParseConnectionTune(p: seq<byte>): Option<ConnectionTune> {
    if |p| < 8 then None else Some(ConnectionTune(U16(p, 0), U32(p, 2), U16(p, 6)))
  }

  function ParseBasicReturn(p: seq<byte>): Option<BasicReturn> {
    if |p| < 2 then None
    else
      var text := ParseShortStr(p, 2);
      if text.Truncated? then None else
      var exchange := ParseShortStr(p, text.next);
      if exchange.Truncated? then None else
      var key := ParseShortStr(p, exchange.next);
      if key.Truncated? then None else
      Some(BasicReturn(U16(p, 0), text.value, exchange.value, key.value))
  }

  /** ticket, then two short strings; the offset is that of the flags byte. */
  function ParseTwoNames(p: seq<byte>): Field<(string, string)> {
    var ticket := ParseShortUint(p, 0);
    if ticket.Truncated? then Truncated else
    var first := ParseShortStr(p, ticket.next);
    if first.Truncated? then Truncated else
    var second := ParseShortStr(p, first.next);
    if second.Truncated? then Truncated else
    Got((first.value, second.value), second.next)
  }

  /** ticket, then one short string. */
  function ParseOneName(p: seq<byte>): Field<string> {
    var ticket := ParseShortUint(p, 0);
    if ticket.Truncated? then Truncated else ParseShortStr(p, ticket.next)
  }

  function ParseBasicPublish(p: seq<byte>): Option<BasicPublish> {
    match ParseTwoNames(p)
    case Truncated => None
    case Got((exchange, key), o) => Some(BasicPublish(exchange, key, Flag(p, o, 1), Flag(p, o, 2)))
  }

  function ParseBasicConsume(p: seq<byte>): Option<BasicConsume> {
    match ParseTwoNames(p)
    case Truncated => None
    case Got((queue, tag), o) => Some(BasicConsume(queue, tag, Flag(p, o, 2), Flag(p, o, 4)))
  }

  function ParseExchangeDeclare(p: seq<byte>): Option<ExchangeDeclare> {
    match ParseTwoNames(p)
    case Truncated => None
    case Got((exchange, kind), o) =>
      Some(ExchangeDeclare(exchange, kind, Flag(p, o, 1), Flag(p, o, 2), Flag(p, o, 4)))
  }

  function ParseBasicNack(p: seq<byte>): Option<BasicNack> {
    match ParseLongLongUint(p, 0)
    case Truncated => None
    case Got(tag, o) => Some(BasicNack(tag, Flag(p, o, 1), Flag(p, o, 2)))
  }

  function ParseBasicReject(p: seq<byte>): Option<BasicReject> {
    match ParseLongLongUint(p, 0)
    case Truncated => None
    case Got(tag, o) => Some(BasicReject(tag, Flag(p, o, 1)))
  }

  function ParseQueueDeclare(p: seq<byte>): Option<QueueDeclare> {
    match ParseOneName(p)
    case Truncated => None
    case Got(queue, o) =>
      Some(QueueDeclare(queue, Flag(p, o, 1), Flag(p, o, 2), Flag(p, o, 4), Flag(p, o, 8)))
  }

  function ParseQueueDelete(p: seq<byte>): Option<QueueDelete> {
    match ParseOneName(p)
    case Truncated => None
    case Got(queue, o) => Some(QueueDelete(queue, Flag(p, o, 1), Flag(p, o, 2)))
  }

  function ParseQueuePurge(p: seq<byte>): Option<string> {
    match ParseOneName(p)
    case Truncated => None
    case Got(queue, _) => Some(queue)
  }

  function ParseExchangeDelete(p: seq<byte>): Option<ExchangeDelete> {
    match ParseOneName(p)
    case Truncated => None
    case Got(exchange, o) => Some(ExchangeDelete(exchange, Flag(p, o, 1)))
  }

  // ------------------------------------------------------- the encodings
  //
  // Field order as in the method definitions of AMQP 0-9-1; `ticket` and the bits
  // the program does not keep are arbitrary.

  function PutClose(c: Close): seq<byte>
    requires Short(c.replyText)
  {
    Put16(c.replyCode) + (PutShortStr(c.replyText) + (Put16(c.classID) + Put16(c.methodID)))
  }

  function PutConnectionTune(t: ConnectionTune): seq<byte> {
    Put16(t.channelMax) + (Put32(t.frameMax) + Put16(t.heartbeat))
  }

  function PutBasicReturn(r: BasicReturn): seq<byte>
    requires Short(r.replyText) && Short(r.exchange) && Short(r.routingKey)
  {
    Put16(r.replyCode) + (PutShortStr(r.replyText) + (PutShortStr(r.exchange) + PutShortStr(r.routingKey)))
  }

  function PutTwoNames(ticket: uint16, first: string, second: string, bits: seq<byte>): seq<byte>
    requires Short(first) && Short(second)
  {
    Put16(ticket) + (PutShortStr(first) + (PutShortStr(second) + bits))
  }

  function PutOneName(ticket: uint16, name: string, bits: seq<byte>): seq<byte>
    requires Short(name)
  {
    Put16(ticket) + (PutShortStr(name) + bits)
  }

  // ------------------------------------------------------- round trips

  lemma StartsAt(field: seq<byte>, trailing: seq<byte>)
    ensures At(field + trailing, 0, field)
  {
  }

  lemma TwoNamesRoundTrip(ticket: uint16, first: string, second: string, bits: seq<byte>, trailing: seq<byte>)
    requires Short(first) && Short(second) && |bits| == 1
    ensures var p := PutTwoNames(ticket, first, second, bits) + trailing;
            var o := 4 + |first| + |second|;
            ParseTwoNames(p) == Got((first, second), o) &&
            forall mask: nat | mask > 0 :: Flag(p, o, mask) == Flag(bits, 0, mask)
  {
    var p := PutTwoNames(ticket, first, second, bits) + trailing;
    StartsAt(PutTwoNames(ticket, first, second, bits), trailing);
    AtConcat(p, 0, Put16(ticket), PutShortStr(first) + (PutShortStr(second) + bits));
    AtConcat(p, 2, PutShortStr(first), PutShortStr(second) + bits);
    AtConcat(p, 3 + |first|, PutShortStr(second), bits);
    Int16At(p, 0, ticket);
    ShortStrAt(p, 2, first);
    ShortStrAt(p, 3 + |first|, second);
    FlagsAt(p, 4 + |first| + |second|, bits);
  }

  lemma OneNameRoundTrip(ticket: uint16, name: string, bits: seq<byte>, trailing: seq<byte>)
    requires Short(name) && |bits| == 1
    ensures var p := PutOneName(ticket, name, bits) + trailing;
            var o := 3 + |name|;
            ParseOneName(p) == Got(name, o) && forall mask: nat | mask > 0 :: Flag(p, o, mask) == Flag(bits, 0, mask)
  {
    var p := PutOneName(ticket, name, bits) + trailing;
    StartsAt(PutOneName(ticket, name, bits), trailing);
    AtConcat(p, 0, Put16(ticket), PutShortStr(name) + bits);
    AtConcat(p, 2, PutShortStr(name), bits);
    Int16At(p, 0, ticket);
    ShortStrAt(p, 2, name);
    FlagsAt(p, 3 + |name|, bits);
  }

  /** Main result, one clause per method with a ticket and names: decoding the
      encoding returns the fields, whatever bytes follow. */
  lemma NamedMethodsRoundTrip(ticket: uint16, a: string, b: string, b0: bool, b1: bool, b2: bool, b3: bool, b4: bool,
                              trailing: seq<byte>)
    requires Short(a) && Short(b)
    ensures var one := PutOneName(ticket, a, PutBits(b0, b1, b2, b3, b4)) + trailing;
            && ParseQueueDeclare(one) == Some(QueueDeclare(a, b0, b1, b2, b3))
            && ParseQueueDelete(one) == Some(QueueDelete(a, b0, b1))
            && ParseQueuePurge(one) == Some(a)
            && ParseExchangeDelete(one) == Some(ExchangeDelete(a, b0))
    ensures var two := PutTwoNames(ticket, a, b, PutBits(b0, b1, b2, b3, b4)) + trailing;
            && ParseBasicPublish(two) == Some(BasicPublish(a, b, b0, b1))
            && ParseBasicConsume(two) == Some(BasicConsume(a, b, b1, b2))
            && ParseExchangeDeclare(two) == Some(ExchangeDeclare(a, b, b0, b1, b2))
  {
    hide ParseOneName, ParseTwoNames, PutOneName, PutTwoNames, Flag, PutBits;
    var bits := PutBits(b0, b1, b2, b3, b4);
    OneNameRoundTrip(ticket, a, bits, trailing);
    TwoNamesRoundTrip(ticket, a, b, bits, trailing);
  }

  lemma CloseRoundTrip(c: Close, trailing: seq<byte>)
    requires Short(c.replyText)
    ensures ParseClose(PutClose(c) + trailing) == Some(c)
  {
    var p := PutClose(c) + trailing;
    StartsAt(PutClose(c), trailing);
    var o := 3 + |c.replyText|;
    AtConcat(p, 0, Put16(c.replyCode), PutShortStr(c.replyText) + (Put16(c.classID) + Put16(c.methodID)));
    AtConcat(p, 2, PutShortStr(c.replyText), Put16(c.classID) + Put16(c.methodID));
    AtConcat(p, o, Put16(c.classID), Put16(c.methodID));
    Int16At(p, 0, c.replyCode);
    ShortStrAt(p, 2, c.replyText);
    Int16At(p, o, c.classID);
    Int16At(p, o + 2, c.methodID);
  }

  lemma BasicReturnRoundTrip(r: BasicReturn, trailing: seq<byte>)
    requires Short(r.replyText) && Short(r.exchange) && Short(r.routingKey)
    ensures ParseBasicReturn(PutBasicReturn(r) + trailing) == Some(r)
  {
    hide PutShortStr, ParseShortStr, U16;
    var p := PutBasicReturn(r) + trailing;
    StartsAt(PutBasicReturn(r), trailing);
    var o := 3 + |r.replyText|;
    var names := PutShortStr(r.exchange) + PutShortStr(r.routingKey);
    AtConcat(p, 0, Put16(r.replyCode), PutShortStr(r.replyText) + names);
    AtConcat(p, 2, PutShortStr(r.replyText), names);
    AtConcat(p, o, PutShortStr(r.exchange), PutShortStr(r.routingKey));
    Int16At(p, 0, r.replyCode);
    ShortStrAt(p, 2, r.replyText);
    ShortStrAt(p, o, r.exchange);
    ShortStrAt(p, o + 1 + |r.exchange|, r.routingKey);
  }

  lemma ConnectionTuneRoundTrip(t: ConnectionTune, trailing: seq<byte>)
    ensures ParseConnectionTune(PutConnectionTune(t) + trailing) == Some(t)
  {
    var p := PutConnectionTune(t) + trailing;
    StartsAt(PutConnectionTune(t), trailing);
    AtConcat(p, 0, Put16(t.channelMax), Put32(t.frameMax) + Put16(t.heartbeat));
    AtConcat(p, 2, Put32(t.frameMax), Put16(t.heartbeat));
    Int16At(p, 0, t.channelMax);
    ReadAt(p, 2, Put32(t.frameMax));
    Int16At(p, 6, t.heartbeat);
  }

  lemma DeliveryTagRoundTrip(tag: uint64, b0: bool, b1: bool, trailing: seq<byte>)
    ensures var p := Put64(tag) + PutBits(b0, b1, false, false, false) + trailing;
            ParseBasicNack(p) == Some(BasicNack(tag, b0, b1)) && ParseBasicReject(p) == Some(BasicReject(tag, b0))
  {
    var bits := PutBits(b0, b1, false, false, false);
    var p := Put64(tag) + bits + trailing;
    StartsAt(Put64(tag) + bits, trailing);
    AtConcat(p, 0, Put64(tag), bits);
    ReadAt(p, 0, Put64(tag));
    FlagsAt(p, 8, bits);
  }

  lemma LeadingStringRoundTrip(s: string, active: bool, trailing: seq<byte>)
    requires Short(s)
    ensures ParseLeadingString(PutShortStr(s) + trailing) == Some(s)
    ensures ParseChannelFlow(PutBits(active, false, false, false, false) + trailing) == Some(active)
  {
    StartsAt(PutShortStr(s), trailing);
    ShortStrAt(PutShortStr(s) + trailing, 0, s);
  }

  // ------------------------------------------------------- arbitrary bytes
  //
  // The other direction: what is decoded stands in the buffer in its encoding, and
  // nothing but a field cut off makes a decoder fail.

  /** Consecutive fields stand there together. */
  lemma AtJoin(data: seq<byte>, offset: nat, a: seq<byte>, b: seq<byte>)
    requires At(data, offset, a) && At(data, offset + |a|, b)
    ensures At(data, offset, a + b)
  {
    var end := offset + |a| + |b|;
    assert data[offset..end] == data[offset..offset + |a|] + data[offset + |a|..end];
  }

  /** A short string is cut off iff its length byte or some of its text is missing. */
  predicate HoldsShortStr(p: seq<byte>, offset: nat) {
    offset < |p| && offset + 1 + p[offset] <= |p|
  }

  /** The offset behind the short string at `offset`. */
  function Behind(p: seq<byte>, offset: nat): nat
    requires HoldsShortStr(p, offset)
  {
    offset + 1 + p[offset]
  }

  lemma NamesAreThere(p: seq<byte>)
    ensures ParseOneName(p).Got? <==> HoldsShortStr(p, 2)
    ensures ParseOneName(p).Got? ==>
              var name := ParseOneName(p).value; Short(name) && At(p, 0, PutOneName(U16(p, 0), name, []))
    ensures ParseTwoNames(p).Got? <==> HoldsShortStr(p, 2) && HoldsShortStr(p, Behind(p, 2))
    ensures ParseTwoNames(p).Got? ==>
              var (a, b) := ParseTwoNames(p).value; Short(a) && Short(b) && At(p, 0, PutTwoNames(U16(p, 0), a, b, []))
  {
    hide PutShortStr, Put16, U16;
    if ParseOneName(p).Got? {
      var name := ParseOneName(p).value;
      Put16Back(p, 0);
      ShortStrBack(p, 2);
      assert PutShortStr(name) + [] == PutShortStr(name);
      AtJoin(p, 0, Put16(U16(p, 0)), PutShortStr(name));
    }
    if ParseTwoNames(p).Got? {
      var (a, b) := ParseTwoNames(p).value;
      var next := 3 + |a|;
      ShortStrBack(p, next);
      assert PutShortStr(b) + [] == PutShortStr(b);
      AtJoin(p, 2, PutShortStr(a), PutShortStr(b));
      AtJoin(p, 0, Put16(U16(p, 0)), PutShortStr(a) + PutShortStr(b));
    }
  }

  /** A close may end behind its text; the method it blames is then 0, 0. */
  lemma ClosesAreThere(p: seq<byte>)
    ensures ParseClose(p).Some? <==> HoldsShortStr(p, 2)
    ensures ParseClose(p).Some? ==>
              var c := ParseClose(p).value;
              && Short(c.replyText)
              && (if |p| >= Behind(p, 2) + 4 then At(p, 0, PutClose(c))
                  else At(p, 0, Put16(c.replyCode) + PutShortStr(c.replyText)) && c.classID == c.methodID == 0)
  {
    hide PutShortStr, Put16, U16;
    if ParseClose(p).Some? {
      var c, o := ParseClose(p).value, Behind(p, 2);
      Put16Back(p, 0);
      ShortStrBack(p, 2);
      AtJoin(p, 0, Put16(c.replyCode), PutShortStr(c.replyText));
      if |p| >= o + 4 {
        Put16Back(p, o);
        Put16Back(p, o + 2);
        AtJoin(p, o, Put16(c.classID), Put16(c.methodID));
        AtJoin(p, 2, PutShortStr(c.replyText), Put16(c.classID) + Put16(c.methodID));
        AtJoin(p, 0, Put16(c.replyCode), PutShortStr(c.replyText) + (Put16(c.classID) + Put16(c.methodID)));
      }
    }
  }

  lemma ReturnsAreThere(p: seq<byte>)
    ensures ParseBasicReturn(p).Some? <==>
            HoldsShortStr(p, 2) && HoldsShortStr(p, Behind(p, 2)) && HoldsShortStr(p, Behind(p, Behind(p, 2)))
    ensures ParseBasicReturn(p).Some? ==>
              var r := ParseBasicReturn(p).value;
              Short(r.replyText) && Short(r.exchange) && Short(r.routingKey) && At(p, 0, PutBasicReturn(r))
  {
    hide PutShortStr, Put16, U16;
    if ParseBasicReturn(p).Some? {
      var r := ParseBasicReturn(p).value;
      var text, exchange, key := PutShortStr(r.replyText), PutShortStr(r.exchange), PutShortStr(r.routingKey);
      var o := Behind(p, 2);
      Put16Back(p, 0);
      ShortStrBack(p, 2);
      ShortStrBack(p, o);
      ShortStrBack(p, Behind(p, o));
      AtJoin(p, o, exchange, key);
      AtJoin(p, 2, text, exchange + key);
      AtJoin(p, 0, Put16(r.replyCode), text + (exchange + key));
    }
  }

  lemma NumbersAreThere(p: seq<byte>)
    ensures ParseBasicNack(p).Some? <==> |p| >= 8
    ensures ParseBasicReject(p).Some? <==> |p| >= 8
    ensures |p| >= 8 ==> At(p, 0, Put64(ParseBasicNack(p).value.deliveryTag))
    ensures |p| >= 8 ==> ParseBasicReject(p).value.deliveryTag == ParseBasicNack(p).value.deliveryTag
    ensures ParseConnectionTune(p).Some? <==> |p| >= 8
    ensures |p| >= 8 ==> At(p, 0, PutConnectionTune(ParseConnectionTune(p).value))
    ensures ParseLeadingString(p).Some? <==> HoldsShortStr(p, 0)
    ensures ParseLeadingString(p).Some? ==>
              Short(ParseLeadingString(p).value) && At(p, 0, PutShortStr(ParseLeadingString(p).value))
  {
    hide PutShortStr, Put16, Put32, Put64, U16, U32, U64, Flag;
    if |p| >= 8 {
      var t := ParseConnectionTune(p).value;
      Put64Back(p, 0);
      Put16Back(p, 0);
      Put32Back(p, 2);
      Put16Back(p, 6);
      AtJoin(p, 2, Put32(t.frameMax), Put16(t.heartbeat));
      AtJoin(p, 0, Put16(t.channelMax), Put32(t.frameMax) + Put16(t.heartbeat));
    }
    if ParseLeadingString(p).Some? {
      ShortStrBack(p, 0);
    }
  }
}
