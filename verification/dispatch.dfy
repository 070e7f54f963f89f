/** What the probe dispatches for each method, asked of the bytes of its arguments: the
    rule table of the engine (internal/rules/engine.go) with every number, name and word
    written out. */
module Dispatch {
  import opened Wrappers
  import opened Bytes
  import opened GoText
  import opened Decoder
  import opened Arguments
  import opened Engine
  import Frames
  import Methods
  import Sniffer
  import TextChannel
  import Choice = Severity

  // ------------------------------------------------------- words in a text

  predicate SameLetter(c: char, lower: char) {
    c == lower || ('a' <= lower <= 'z' && c as int + 32 == lower as int)
  }

  /** The word stands in the text, in letters of either case. */
  ghost predicate Mentions(text: string, word: string) {
    exists i :: MentionedAt(text, word, i)
  }

  ghost predicate MentionedAt(text: string, word: string, i: int) {
    0 <= i <= |text| - |word| && forall k :: 0 <= k < |word| ==> SameLetter(text[i + k], word[k])
  }

  predicate Lowercase(word: string) {
    forall k :: 0 <= k < |word| ==> !('A' <= word[k] <= 'Z')
  }

  lemma LowerMentions(text: string, word: string)
    requires Lowercase(word)
    ensures Contains(ToLower(text), word) <==> Mentions(text, word)
  {
    forall i
      ensures OccursAt(ToLower(text), word, i) <==> MentionedAt(text, word, i)
    {
      LowerOccurs(text, word, i);
    }
  }

  lemma LowerOccurs(text: string, word: string, i: int)
    requires Lowercase(word)
    ensures OccursAt(ToLower(text), word, i) <==> MentionedAt(text, word, i)
  {
    var t := ToLower(text);
    if 0 <= i <= |text| - |word| {
      var part := t[i..i + |word|];
      forall k | 0 <= k < |word|
        ensures part[k] == word[k] <==> SameLetter(text[i + k], word[k])
      {
        assert part[k] == t[i + k];
      }
    }
  }

  // ------------------------------------------------------- what is dispatched

  /** What one method, with its class and number, dispatches. */
  function Says(classID: uint16, methodID: uint16, p: seq<byte>, q: Quoter, at: int): seq<Finding> {
    Sniffer.Said(Sniffer.Timed(MethodPayload(classID, methodID, p), at), q)
  }

  function Report(severity: Severity, id: string, name: string, mn: string, entity: string, at: int): seq<Finding> {
    [Finding(severity, id, name, mn, entity, None, at)]
  }

  /** The same for an alert whose message the control plane reads. */
  function Telling(id: string, name: string, mn: string, entity: string, text: string, at: int): seq<Finding> {
    [Finding(Info, id, name, mn, entity, Some(text), at)]
  }

  lemma ConnectionSteps(p: seq<byte>, q: Quoter, at: int)
    ensures Says(10, 10, p, q, at) == Report(Info, "0.1", "connection_negotiation", "connection.start", "", at)
    ensures Says(10, 40, p, q, at) == Report(Info, "0.3", "connection_opened", "connection.open", "", at)
    ensures Says(10, 41, p, q, at) == Report(Info, "0.3", "connection_opened", "connection.open-ok", "", at)
    ensures Says(10, 51, p, q, at) == Report(Info, "0.4", "connection_closed_ok", "connection.close-ok", "", at)
    ensures Says(10, 61, p, q, at) == Report(Info, "2.0", "connection_unblocked", "connection.unblocked", "", at)
    ensures Says(10, 30, p, q, at) ==
            if |p| >= 8 && TwoBytes(p[6], p[7]) > 60
            then Report(Warn, "1.4", "connection_tune_override", "connection.tune", "", at)
            else Report(Info, "0.2", "connection_tune", "connection.tune", "", at)
  {
    BigEndian(p, 6);
    hide U16, U32;
  }

  /** Main result: connection.blocked, for any bytes.  Memory is looked for before disk, in
      letters of either case. */
  lemma BlockedConnections(p: seq<byte>, q: Quoter, at: int)
    ensures Says(10, 60, p, q, at) ==
            if HoldsShortStr(p, 0) && Mentions(Word(p, 0), "memory") then
              Report(Warn, "2.1", "memory_watermark_alarm", "connection.blocked", "", at)
            else if HoldsShortStr(p, 0) && Mentions(Word(p, 0), "disk") then
              Report(Warn, "2.2", "disk_watermark_alarm", "connection.blocked", "", at)
            else Report(Warn, "2.0", "connection_blocked", "connection.blocked", "", at)
  {
    WordIsRead(p, 0);
    if HoldsShortStr(p, 0) {
      LowerMentions(Word(p, 0), "memory");
      LowerMentions(Word(p, 0), "disk");
    }
    hide ParseShortStr, Contains, ToLower, Mentions, Word;
  }

  lemma ClosingWords(text: string)
    ensures Contains(ToLower(text), "heartbeat") <==> Mentions(text, "heartbeat")
    ensures Contains(ToLower(text), "connection limit") <==> Mentions(text, "connection limit")
    ensures Contains(ToLower(text), "delivery acknowledgement") <==> Mentions(text, "delivery acknowledgement")
  {
    hide Contains, ToLower, Mentions;
    LowerMentions(text, "heartbeat");
    LowerMentions(text, "connection limit");
    LowerMentions(text, "delivery acknowledgement");
  }

  lemma CloseIsJudged(p: seq<byte>, q: Quoter, at: int)
    ensures Says(10, 50, p, q, at) ==
            if ParseClose(p).None?
            then Report(Warn, "0.x", "connection_close_unparseable", "connection.close", "", at)
            else
              var f := EvaluateConnectionClose(ParseClose(p).value, "connection.close", at);
              if f.None? then [] else [f.value]
  {
    hide ParseClose, EvaluateConnectionClose;
  }

  /** Main result: connection.close, for any bytes. */
  lemma ClosedConnections(p: seq<byte>, q: Quoter, at: int)
    ensures Says(10, 50, p, q, at) ==
            if !HoldsShortStr(p, 2) then Report(Warn, "0.x", "connection_close_unparseable", "connection.close", "", at)
            else
              var code, text := TwoBytes(p[0], p[1]), Word(p, 2);
              if code == 403 then Report(Error, "1.1", "authentication_refused", "connection.close", "", at)
              else if code == 320 && Mentions(text, "heartbeat") then
                Report(Error, "1.2", "missed_heartbeats", "connection.close", "", at)
              else if code == 320 && Mentions(text, "connection limit") then
                Report(Error, "1.3", "connection_limit_exceeded", "connection.close", "", at)
              else if code == 501 then Report(Error, "3.4", "frame_size_exceeded", "connection.close", "", at)
              else if code == 406 && Mentions(text, "delivery acknowledgement") then
                Report(Error, "4.1", "consumer_acknowledgement_timeout", "connection.close", "", at)
              else if code == 200 then
                Report(Info, "0.4", "connection_closed_cleanly", "connection.close", "", at)
              else if code < 500 then
                Report(Warn, "1.x", "connection_closed_unexpectedly", "connection.close", "", at)
              else Report(Error, "1.x", "connection_closed_unexpectedly", "connection.close", "", at)
  {
    ClosesOnWire(p);
    CloseIsJudged(p, q, at);
    hide ParseClose, Contains, ToLower, Mentions, Word, TwoBytes, Says, HoldsShortStr;
    if HoldsShortStr(p, 2) {
      ClosingWords(Word(p, 2));
    }
  }

  lemma ChannelSteps(p: seq<byte>, q: Quoter, at: int)
    ensures Says(20, 10, p, q, at) == Report(Info, "0.5", "channel_opened", "channel.open", "", at)
    ensures Says(20, 11, p, q, at) == Report(Info, "0.5", "channel_opened", "channel.open-ok", "", at)
    ensures Says(20, 41, p, q, at) == Report(Info, "0.6", "channel_closed_ok", "channel.close-ok", "", at)
    ensures Says(20, 20, p, q, at) ==
            if |p| == 0 then Report(Warn, "2.5", "channel_flow_unparseable", "channel.flow", "", at)
            else if p[0] == 0 then Report(Error, "2.5", "channel_flow_throttled", "channel.flow", "", at)
            else Report(Info, "2.5", "channel_flow_resumed", "channel.flow", "", at)
  {
  }

  /** Main result: channel.close, for any bytes.  The text never matters. */
  lemma ClosedChannels(p: seq<byte>, q: Quoter, at: int)
    ensures Says(20, 40, p, q, at) ==
            if !HoldsShortStr(p, 2) then Report(Warn, "0.x", "channel_close_unparseable", "channel.close", "", at)
            else
              var code := TwoBytes(p[0], p[1]);
              if code == 503 then Report(Error, "2.3", "channel_limit_exceeded", "channel.close", "", at)
              else if code == 406 then Report(Error, "3.1", "topology_mismatch", "channel.close", "", at)
              else if code == 405 then Report(Error, "2.4", "resource_locked", "channel.close", "", at)
              else if code == 404 then Report(Error, "3.3", "entity_not_found", "channel.close", "", at)
              else if code == 501 then Report(Error, "3.4", "frame_size_exceeded", "channel.close", "", at)
              else if code == 200 then Report(Info, "0.6", "channel_closed_cleanly", "channel.close", "", at)
              else if code < 500 then
                Report(Warn, "3.x", "channel_closed_unexpectedly", "channel.close", "", at)
              else Report(Error, "3.x", "channel_closed_unexpectedly", "channel.close", "", at)
  {
    ClosesOnWire(p);
    hide ParseClose, Contains, ToLower, Word, TwoBytes;
  }

  // ------------------------------------------------------- declarations

  lemma ExchangeSteps(p: seq<byte>, q: Quoter, at: int)
    ensures Says(30, 11, p, q, at) ==
            Telling("0.7", "exchange_declare", "exchange.declare-ok", "", "Broker confirmed exchange declaration.", at)
    ensures Says(30, 20, p, q, at) ==
            Report(Warn, "0.8", "exchange_deleted", "exchange.delete",
                   if HoldsShortStr(p, 2) then Word(p, 2) else "", at)
    ensures Says(30, 21, p, q, at) == Report(Info, "0.8", "exchange_deleted", "exchange.delete-ok", "", at)
    ensures Says(30, 30, p, q, at) == Report(Info, "0.9", "exchange_bind", "exchange.bind", "", at)
    ensures Says(30, 40, p, q, at) == Report(Info, "0.9", "exchange_unbind", "exchange.unbind", "", at)
  {
    OneNameIsRead(p);
    hide ParseOneName, Word;
  }

  /** Main result: exchange.declare, for any bytes, with the message the cache reads. */
  lemma DeclaredExchanges(p: seq<byte>, q: Quoter, at: int)
    ensures Says(30, 10, p, q, at) ==
            if !HoldsTwo(p) then
              Telling("0.7", "exchange_declare", "exchange.declare", "", "Exchange declared (could not parse details).",
                      at)
            else
              var name, kind, bits := Word(p, 2), Word(p, Behind(p, 2)), Bits(p, Behind(p, Behind(p, 2)));
              Telling("0.7", "exchange_declare", "exchange.declare", name,
                      ("Exchange declared: name=" + q(name) + " ") + "type=" +
                      (kind + ((if bits / 2 % 2 == 1 then " durable" else "") +
                               (if bits / 4 % 2 == 1 then " auto-delete" else "") + ".")), at)
  {
    TwoNamesAreRead(p);
    if HoldsTwo(p) {
      FlagIsRead(p, Behind(p, Behind(p, 2)));
    }
    hide ParseTwoNames, Word, Flag, Bits;
  }

  lemma QueueSteps(p: seq<byte>, q: Quoter, at: int)
    ensures Says(40, 11, p, q, at) ==
            Telling("0.10", "queue_declare", "queue.declare-ok", "", "Broker confirmed queue declaration.", at)
    ensures Says(40, 20, p, q, at) == Report(Info, "0.11", "queue_bind", "queue.bind", "", at)
    ensures Says(40, 21, p, q, at) == Report(Info, "0.11", "queue_bind", "queue.bind-ok", "", at)
    ensures Says(40, 30, p, q, at) ==
            Report(Warn, "0.12", "queue_purged", "queue.purge", if HoldsShortStr(p, 2) then Word(p, 2) else "", at)
    ensures Says(40, 31, p, q, at) == Report(Info, "0.12", "queue_purged", "queue.purge-ok", "", at)
    ensures Says(40, 40, p, q, at) ==
            Report(Warn, "0.13", "queue_deleted", "queue.delete", if HoldsShortStr(p, 2) then Word(p, 2) else "", at)
    ensures Says(40, 50, p, q, at) == Report(Info, "0.11", "queue_unbind", "queue.unbind", "", at)
  {
    OneNameIsRead(p);
    hide ParseOneName, Word;
  }

  /** Main result: queue.declare, for any bytes, with the message the cache reads. */
  lemma DeclaredQueues(p: seq<byte>, q: Quoter, at: int)
    ensures Says(40, 10, p, q, at) ==
            if !HoldsShortStr(p, 2) then
              Telling("0.10", "queue_declare", "queue.declare", "", "Queue declared (could not parse details).", at)
            else
              var name, bits := Word(p, 2), Bits(p, Behind(p, 2));
              Telling("0.10", "queue_declare", "queue.declare", name,
                      if bits % 2 == 1 then
                        "Queue existence check" + " (passive declare): name=" + q(name) + "."
                      else
                        "Queue declared: name=" + q(name) +
                        (" " + (("durable=" + if bits / 2 % 2 == 1 then "true" else "false") + " " +
                                ("exclusive=" + if bits / 4 % 2 == 1 then "true" else "false") + " " +
                                ("auto-delete=" + if bits / 8 % 2 == 1 then "true" else "false")) + "."), at)
  {
    OneNameIsRead(p);
    if HoldsShortStr(p, 2) {
      FlagIsRead(p, Behind(p, 2));
    }
    hide ParseOneName, Word, Flag, Bits;
  }

  // ------------------------------------------------------- messages and consumers

  lemma ConsumerSteps(p: seq<byte>, q: Quoter, at: int)
    ensures Says(60, 10, p, q, at) == Report(Info, "0.14", "basic_qos", "basic.qos", "", at)
    ensures Says(60, 21, p, q, at) ==
            Telling("0.15", "consumer_registered", "basic.consume-ok", "",
                    "Broker confirmed" + " consumer registration.", at)
    ensures Says(60, 30, p, q, at) ==
            Report(Warn, "0.16", "consumer_cancelled", "basic.cancel",
                   if HoldsShortStr(p, 0) then Word(p, 0) else "", at)
  {
    WordIsRead(p, 0);
    hide ParseShortStr, Word;
  }

  /** Main result: basic.consume, for any bytes, with the message the cache reads. */
  lemma RegisteredConsumers(p: seq<byte>, q: Quoter, at: int)
    ensures Says(60, 20, p, q, at) ==
            if !HoldsTwo(p) then
              Telling("0.15", "consumer_registered", "basic.consume", "",
                      "New consumer registered" + " (could not parse details).", at)
            else
              var queue, tag, bits := Word(p, 2), Word(p, Behind(p, 2)), Bits(p, Behind(p, Behind(p, 2)));
              Telling("0.15", "consumer_registered", "basic.consume", queue,
                      ("Consumer registered" + " on queue " + q(queue) + ", ") + "tag=" +
                      (q(tag) + (", no-ack=" + (if bits / 2 % 2 == 1 then "true" else "false") +
                                 (if bits / 4 % 2 == 1 then " (exclusive)" else "") + ".")), at)
  {
    TwoNamesAreRead(p);
    if HoldsTwo(p) {
      FlagIsRead(p, Behind(p, Behind(p, 2)));
    }
    hide ParseTwoNames, Word, Flag, Bits;
  }

  lemma RefusedMessages(p: seq<byte>, q: Quoter, at: int)
    ensures Says(60, 90, p, q, at) == Report(Warn, "4.3", "message_rejected", "basic.reject", "", at)
    ensures Says(60, 120, p, q, at) == Report(Warn, "4.4", "message_nacked", "basic.nack", "", at)
  {
  }

  /** Main result: basic.publish and basic.return, for any bytes. */
  lemma PublishedMessages(p: seq<byte>, q: Quoter, at: int)
    ensures Says(60, 40, p, q, at) ==
            Report(Info, "0.17", "message_published", "basic.publish",
                   if HoldsTwo(p) then Word(p, 2) + "|" + Word(p, Behind(p, 2)) else "", at)
    ensures Says(60, 50, p, q, at) ==
            if !HoldsTwo(p) || !HoldsShortStr(p, Behind(p, Behind(p, 2))) then
              Report(Error, "3.2", "unroutable_message", "basic.return", "", at)
            else
              var code, o := TwoBytes(p[0], p[1]), Behind(p, 2);
              Report(Warn, "3.2", if code == 312 || code == 313 then "unroutable_message" else "message_returned",
                     "basic.return", Word(p, o) + "|" + Word(p, Behind(p, o)), at)
  {
    TwoNamesAreRead(p);
    ReturnsOnWire(p);
    hide ParseTwoNames, ParseBasicReturn, Word, Flag, TwoBytes, HoldsShortStr, Behind;
  }

  lemma TransactionSteps(p: seq<byte>, q: Quoter, at: int)
    ensures Says(90, 10, p, q, at) == Report(Info, "0.20", "tx_begin", "tx.select", "", at)
    ensures Says(90, 20, p, q, at) == Report(Info, "0.20", "tx_commit", "tx.commit", "", at)
    ensures Says(90, 30, p, q, at) == Report(Warn, "0.21", "tx_rollback", "tx.rollback", "", at)
  {
  }

  // ------------------------------------------------------- silence and severity

  /** Class and number of a method that is reported. */
  predicate Reported(classID: int, methodID: int) {
    || (classID == 10 && methodID in {10, 30, 40, 41, 50, 51, 60, 61})
    || (classID == 20 && methodID in {10, 11, 20, 40, 41})
    || (classID == 30 && methodID in {10, 11, 20, 21, 30, 40})
    || (classID == 40 && methodID in {10, 11, 20, 21, 30, 31, 40, 50})
    || (classID == 60 && methodID in {10, 20, 21, 30, 40, 50, 90, 120})
    || (classID == 90 && methodID in {10, 20, 30})
  }

  /** Main result: whether a method is reported depends on its class and number alone. */
  lemma SilentIff(classID: uint16, methodID: uint16, p: seq<byte>, q: Quoter, at: int)
    ensures Says(classID, methodID, p, q, at) == [] <==> !Reported(classID, methodID)
  {
    hide Methods.MethodName, ParseClose, ParseConnectionTune, ParseLeadingString, ParseChannelFlow, ParseOneName,
      ParseTwoNames, ParseBasicReturn, Contains, ToLower, QueueText, ExchangeText, ConsumerText;
  }

  /** The one finding a method dispatches, if any, is an error. */
  predicate IsError(said: seq<Finding>) {
    |said| == 1 && said[0].severity == Error
  }

  /** The closes, by code and text, that are errors. */
  ghost predicate ClosedInError(classID: int, code: int, text: string) {
    || code >= 500
    || (classID == 10 && code == 403)
    || (classID == 10 && code == 320 && (Mentions(text, "heartbeat") || Mentions(text, "connection limit")))
    || (classID == 10 && code == 406 && Mentions(text, "delivery acknowledgement"))
    || (classID == 20 && 404 <= code <= 406)
  }

  lemma ConnectionErrors(methodID: uint16, p: seq<byte>, q: Quoter, at: int)
    ensures IsError(Says(10, methodID, p, q, at)) <==>
            methodID == 50 && HoldsShortStr(p, 2) && ClosedInError(10, TwoBytes(p[0], p[1]), Word(p, 2))
  {
    hide Says, Mentions, Word, TwoBytes, HoldsShortStr;
    SilentIff(10, methodID, p, q, at);
    ConnectionSteps(p, q, at);
    BlockedConnections(p, q, at);
    ClosedConnections(p, q, at);
  }

  lemma ChannelErrors(methodID: uint16, p: seq<byte>, q: Quoter, at: int)
    ensures IsError(Says(20, methodID, p, q, at)) <==>
            || (methodID == 40 && HoldsShortStr(p, 2) && ClosedInError(20, TwoBytes(p[0], p[1]), Word(p, 2)))
            || (methodID == 20 && |p| > 0 && p[0] == 0)
  {
    hide Says, Mentions, Word, TwoBytes, HoldsShortStr;
    SilentIff(20, methodID, p, q, at);
    ChannelSteps(p, q, at);
    ClosedChannels(p, q, at);
  }

  lemma DeclarationErrors(classID: uint16, methodID: uint16, p: seq<byte>, q: Quoter, at: int)
    requires classID != 10 && classID != 20 && classID != 60
    ensures !IsError(Says(classID, methodID, p, q, at))
  {
    hide Says, Word, HoldsShortStr, Behind, HoldsTwo, Bits;
    SilentIff(classID, methodID, p, q, at);
    if classID == 30 {
      ExchangeSteps(p, q, at);
      DeclaredExchanges(p, q, at);
    } else if classID == 40 {
      QueueSteps(p, q, at);
      DeclaredQueues(p, q, at);
    } else if classID == 90 {
      TransactionSteps(p, q, at);
    }
  }

  lemma MessageErrors(methodID: uint16, p: seq<byte>, q: Quoter, at: int)
    ensures IsError(Says(60, methodID, p, q, at)) <==>
            methodID == 50 && !(HoldsTwo(p) && HoldsShortStr(p, Behind(p, Behind(p, 2))))
  {
    hide Says, Word, HoldsShortStr, Behind, HoldsTwo, Bits, TwoBytes;
    SilentIff(60, methodID, p, q, at);
    ConsumerSteps(p, q, at);
    RefusedMessages(p, q, at);
    RegisteredConsumers(p, q, at);
    PublishedMessages(p, q, at);
  }

  /** The methods that are errors: a close in error, a flow that is stopped, and a returned
      message that cannot be read. */
  ghost predicate InError(classID: int, methodID: int, p: seq<byte>) {
    || (classID == 10 && methodID == 50 && HoldsShortStr(p, 2) &&
        ClosedInError(10, TwoBytes(p[0], p[1]), Word(p, 2)))
    || (classID == 20 && methodID == 40 && HoldsShortStr(p, 2) &&
        ClosedInError(20, TwoBytes(p[0], p[1]), Word(p, 2)))
    || (classID == 20 && methodID == 20 && |p| > 0 && p[0] == 0)
    || (classID == 60 && methodID == 50 && !(HoldsTwo(p) && HoldsShortStr(p, Behind(p, Behind(p, 2)))))
  }

  /** Main result: of all methods, an error is dispatched exactly for these. */
  lemma ErrorsAre(classID: uint16, methodID: uint16, p: seq<byte>, q: Quoter, at: int)
    ensures IsError(Says(classID, methodID, p, q, at)) <==> InError(classID, methodID, p)
  {
    hide Says, IsError, ClosedInError, Word, TwoBytes, HoldsShortStr, Behind, HoldsTwo;
    if classID == 10 {
      ConnectionErrors(methodID, p, q, at);
    } else if classID == 20 {
      ChannelErrors(methodID, p, q, at);
    } else if classID == 60 {
      MessageErrors(methodID, p, q, at);
    } else {
      DeclarationErrors(classID, methodID, p, q, at);
    }
  }

  // ------------------------------------------------------- errors in a stream

  /** A frame of type 1 whose payload is a method in error. */
  ghost predicate ErrorFrame(f: Frames.Frame) {
    var p := f.payload;
    f.typ == 1 && |p| >= 4 && InError(TwoBytes(p[0], p[1]), TwoBytes(p[2], p[3]), p[4..])
  }

  ghost predicate HasError(said: seq<Finding>) {
    exists i :: 0 <= i < |said| && said[i].severity == Error
  }

  lemma HasErrorConcat(a: seq<Finding>, b: seq<Finding>)
    ensures HasError(a + b) <==> HasError(a) || HasError(b)
  {
    var c := a + b;
    forall i | 0 <= i < |a|
      ensures c[i] == a[i]
    {
    }
    forall i | 0 <= i < |b|
      ensures c[|a| + i] == b[i]
    {
    }
    if i :| 0 <= i < |c| && c[i].severity == Error {
      assert if i < |a| then a[i].severity == Error else b[i - |a|].severity == Error;
    }
  }

  lemma FrameErrors(f: Frames.Frame, q: Quoter, at: int)
    ensures match UnmarshalMethod(f)
            case None => !ErrorFrame(f)
            case Some(m) => HasError(Sniffer.Said(Sniffer.Timed(m, at), q)) <==> ErrorFrame(f)
  {
    hide InError, EvaluateMethod, TwoBytes;
    var p := f.payload;
    BigEndian(p, 0);
    BigEndian(p, 2);
    hide U16;
    if f.typ == 1 && |p| >= 4 {
      ErrorsAre(TwoBytes(p[0], p[1]), TwoBytes(p[2], p[3]), p[4..], q, at);
    }
  }

  lemma {:induction false} FramesInError(fs: seq<Frames.Frame>, q: Quoter, clock: Sniffer.Clock)
    ensures HasError(Sniffer.Verdicts(Sniffer.MethodsOf(fs, clock), q)) <==>
            exists i :: 0 <= i < |fs| && ErrorFrame(fs[i])
  {
    hide ErrorFrame, HasError, Sniffer.MethodsOf, Sniffer.Verdicts, Sniffer.Said, UnmarshalMethod;
    if fs == [] {
      Sniffer.NothingDispatched(q, clock);
      NoErrorInNothing();
    } else {
      var n := |fs| - 1;
      FramesInError(fs[..n], q, clock);
      assert fs == fs[..n] + [fs[n]];
      Sniffer.OneMoreFrame(fs[..n], fs[n], clock, q);
      FrameErrors(fs[n], q, clock(n));
      if UnmarshalMethod(fs[n]).Some? {
        var m := Sniffer.Timed(UnmarshalMethod(fs[n]).value, clock(n));
        HasErrorConcat(Sniffer.Verdicts(Sniffer.MethodsOf(fs[..n], clock), q), Sniffer.Said(m, q));
      }
      assert forall i :: 0 <= i < n ==> fs[..n][i] == fs[i];
    }
  }

  lemma NoErrorInNothing()
    ensures !HasError([])
  {
  }

  /** Main result, for any bytes: an error is dispatched from a stream iff one of its frames
      holds a method in error. */
  lemma StreamErrors(b: seq<byte>, q: Quoter, clock: Sniffer.Clock)
    ensures var fs := Frames.RunFrames(b);
            HasError(Sniffer.Dispatched(b, q, clock)) <==> exists i :: 0 <= i < |fs| && ErrorFrame(fs[i])
  {
    hide ErrorFrame, HasError, Frames.RunFrames, Sniffer.MethodsOf, Sniffer.Verdicts;
    FramesInError(Frames.RunFrames(b), q, clock);
  }

  /** Main result: errors come first and warnings second when alerts are chosen. */
  lemma SeveritiesAreRanked(f: Finding, tenantID: string)
    ensures Choice.Rank(TextChannel.AsAlert(f, tenantID)) == 0 <==> f.severity == Error
    ensures Choice.Rank(TextChannel.AsAlert(f, tenantID)) == 1 <==> f.severity == Warn
    ensures TextChannel.AsAlert(f, tenantID).severity ==
            if f.severity == Error then "error" else if f.severity == Warn then "warn" else "info"
  {
  }
}
