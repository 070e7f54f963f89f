/** From the bytes of captured streams to what the control plane shows. */
module Streams {
  import opened Wrappers
  import opened Alerts
  import opened Bytes
  import opened Frames
  import opened Decoder
  import opened Engine
  import opened Topology
  import opened TopologyHistory
  import opened TextChannel
  import opened Sniffer
  import opened Travel
  import opened Pipeline
  import opened WireHistory
  import Sessions
  import Connections

  /** What the cache should say after the methods, about everything of one name. */
  ghost predicate Shows(t: Topo, ms: seq<Timed>, name: string, q: Quoter) {
    && ShowsQueue(t, ms, name, q)
    && ShowsExchange(t, ms, name, q)
    && ShowsConsumer(t, ms, name, q)
    && t.connections == Connections.List(Sessions.Meanings(ms, q))
  }

  lemma MethodsAreShown(ms: seq<Timed>, name: string, q: Quoter)
    requires Quotes(q)
    ensures Shows(ObserveAll(EMPTY, ms, q), ms, name, q)
  {
    hide ObserveAll, ShowsQueue, ShowsExchange, ShowsConsumer, Connections.List, Sessions.Meanings, Quotes;
    QuotedName(q, name);
    QueuesAgreeWithTheWire(ms, name, q);
    ExchangesAgreeWithTheWire(ms, name, q);
    ConsumersAgreeWithTheWire(ms, name, q);
    ConnectionsAgreeWithTheWire(ms, q);
  }

  lemma QuotedName(q: Quoter, name: string)
    requires Quotes(q)
    ensures Delimited(q(name))
  {
  }

  /** Main result: from the bytes of any stream to the state of a tenant that had none.
      Queues, exchanges, consumers and connections are what the methods in the stream
      say. */
  lemma StreamIsShown(h: seq<Event>, b: seq<byte>, q: Quoter, clock: Clock, tenantID: string,
                      arrival: nat -> int, name: string)
    requires Running(clock) && Quotes(q) && Utf8Stream(b, clock) && tenantID !in Replay(h)
    ensures var t := StateOf(Replay(h + Posts(Dispatched(b, q, clock), tenantID, arrival)), tenantID);
            Shows(t, MethodsOf(RunFrames(b), clock), name, q)
  {
    hide Running, Quotes, Utf8Stream, MethodsOf, RunFrames, Dispatched, Posts, Shows, ObserveAll, Carries;
    StreamsCarryTheMethods(h, b, q, clock, tenantID, arrival);
    MethodsAreShown(MethodsOf(RunFrames(b), clock), name, q);
  }

  /** The method has nothing to say about the queue. */
  predicate Silent(m: MethodPayload, name: string) {
    !Declares(m, name) && !Deletes(m, name)
  }

  /** No method among the frames concerns the queue. */
  predicate SilentFrames(fs: seq<Frame>, name: string) {
    forall i :: 0 <= i < |fs| && UnmarshalMethod(fs[i]).Some? ==> Silent(UnmarshalMethod(fs[i]).value, name)
  }

  lemma {:induction false} SilentMethods(fs: seq<Frame>, clock: Clock, name: string)
    requires SilentFrames(fs, name)
    ensures forall i :: 0 <= i < |MethodsOf(fs, clock)| ==> Silent(MethodsOf(fs, clock)[i].payload, name)
  {
    hide UnmarshalMethod, Silent;
    if fs == [] {
    } else {
      SilentMethods(fs[..|fs| - 1], clock, name);
    }
  }

  lemma SilentMethod(t: Topo, m: Timed, name: string, q: Quoter)
    requires Silent(m.payload, name)
    ensures var t' := Observe(t, m.payload, q, m.at);
            (name in t'.queues <==> name in t.queues) && (name in t.queues ==> t'.queues[name] == t.queues[name])
  {
    hide Observe, Apply, Declares, Deletes, StampOf, QueueLife, RuleOf, ApplyRule;
    var e := StampOf(m, q);
    var rule := RuleOf(e.alert.ruleName);
    QueueLifeOnWire(m, name, q);
    StampIs(m, q);
    QueueEffects(t.(lastUpdated := m.at), rule, e, name);
    SameAsItself(t);
    ObserveIsApply(t, t, m, q);
    ApplyIs(t, e.alert, m.at);
  }

  lemma ApplyIs(t: Topo, a: Alert, now: int)
    ensures Apply(t, a, now) == ApplyRule(t.(lastUpdated := now), RuleOf(a.ruleName), a, now)
  {
    hide RuleOf, ApplyRule;
  }

  /** Methods that do not concern a queue leave its entry alone. */
  lemma {:induction false} SilenceKeeps(t: Topo, ms: seq<Timed>, name: string, q: Quoter)
    requires forall i :: 0 <= i < |ms| ==> Silent(ms[i].payload, name)
    ensures var t' := ObserveAll(t, ms, q);
            (name in t'.queues <==> name in t.queues) && (name in t.queues ==> t'.queues[name] == t.queues[name])
  {
    hide Observe, Silent;
    if ms == [] {
    } else {
      var n := |ms| - 1;
      SilenceKeeps(t, ms[..n], name, q);
      SilentMethod(ObserveAll(t, ms[..n], q), ms[n], name, q);
    }
  }

  lemma {:induction false} ObserveAllConcat(t: Topo, ms: seq<Timed>, ns: seq<Timed>, q: Quoter)
    ensures ObserveAll(t, ms + ns, q) == ObserveAll(ObserveAll(t, ms, q), ns, q)
  {
    hide Observe;
    if ns == [] {
      assert ms + ns == ms;
    } else {
      var n := |ns| - 1;
      ObserveAllConcat(t, ms, ns[..n], q);
      assert (ms + ns)[..|ms| + n] == ms + ns[..n];
    }
  }

  /** A declaration among frames that do not concern the queue, on any state that does
      not show it yet. */
  lemma DeclaredAmongOthers(t: Topo, fs: seq<Frame>, m: MethodPayload, channel: uint16, gs: seq<Frame>,
                            name: string, q: Quoter, clock: Clock)
    requires |m.args| + 4 <= MAX_FRAME_SIZE && name !in t.queues
    requires SilentFrames(fs, name) && SilentFrames(gs, name)
    ensures var t1 := ObserveAll(t, MethodsOf(fs, clock), q);
            var t2 := Observe(t1, m, q, clock(|fs|));
            var t3 := ObserveAll(t, MethodsOf(fs + [MethodFrame(m, channel)] + gs, clock), q);
            && name !in t1.queues
            && (name in t3.queues <==> name in t2.queues)
            && (name in t3.queues ==> t3.queues[name] == t2.queues[name])
  {
    hide Observe, SilentFrames, Silent, UnmarshalMethod, MarshalMethod, ObserveAll;
    var frame := MethodFrame(m, channel);
    var ms, last, ns := MethodsOf(fs, clock), Timed(m, clock(|fs|)), MethodsOf(gs, From(clock, |fs| + 1));
    UnmarshalIff(frame, m);
    MethodsOfConcat(fs + [frame], gs, clock);
    MethodsOfConcat(fs, [frame], clock);
    OneFrame(frame, m, From(clock, |fs|));
    SilentMethods(fs, clock, name);
    SilentMethods(gs, From(clock, |fs| + 1), name);
    SilenceKeeps(t, ms, name, q);
    ObserveAllConcat(t, ms + [last], ns, q);
    ObserveAllConcat(t, ms, [last], q);
    OneMethod(ObserveAll(t, ms, q), last, q);
    SilenceKeeps(ObserveAll(t, ms + [last], q), ns, name, q);
  }

  lemma OneFrame(frame: Frame, m: MethodPayload, clock: Clock)
    requires UnmarshalMethod(frame) == Some(m)
    ensures MethodsOf([frame], clock) == [Timed(m, clock(0))]
  {
    hide UnmarshalMethod;
    assert [frame][..0] == [];
  }

  lemma OneMethod(t: Topo, m: Timed, q: Quoter)
    ensures ObserveAll(t, [m], q) == Observe(t, m.payload, q, m.at)
  {
    hide Observe;
    assert [m][..0] == [];
  }

  /** Main result: a non-passive declaration standing anywhere in a client's or a
      server's stream, among frames of any type and channel whose methods do not
      concern that queue, is shown after the stream, whatever happened before, exactly
      as declared and at its own time, iff no marker of an unset flag stands in the
      quoted name. */
  lemma DeclaredQueueIsShown(h: seq<Event>, b: seq<byte>, fs: seq<Frame>, gs: seq<Frame>,
                             channel: uint16, ticket: uint16, name: string, durable: bool,
                             exclusive: bool, autoDelete: bool, noWait: bool, trailing: seq<byte>,
                             q: Quoter, clock: Clock, tenantID: string, arrival: nat -> int)
    requires Running(clock) && Quotes(q) && Utf8Stream(b, clock) && Short(name) && name != ""
    requires name !in StateOf(Replay(h), tenantID).queues
    requires |name| + |trailing| + 8 <= MAX_FRAME_SIZE
    requires var args := PutOneName(ticket, name, PutBits(false, durable, exclusive, autoDelete, noWait)) + trailing;
             Carries(b, fs + [MethodFrame(MethodPayload(40, 10, args), channel)] + gs)
    requires SilentFrames(fs, name) && SilentFrames(gs, name)
    ensures var queues := StateOf(Replay(h + Posts(Dispatched(b, q, clock), tenantID, arrival)), tenantID).queues;
            var at := clock(|fs|);
            && name in queues
            && (queues[name] == Queue(name, durable, exclusive, autoDelete, at, at, true) <==>
                  NoMarkerMisleads(q(name), durable, exclusive, autoDelete))
  {
    hide Running, Quotes, Utf8Stream, MethodsOf, RunFrames, Posts, Carries, SilentFrames, NoMarkerMisleads, Observe,
      ObserveAll, Replay, Dispatched, PutBits, MarshalMethod;
    QuotedName(q, name);
    var args := PutOneName(ticket, name, PutBits(false, durable, exclusive, autoDelete, noWait)) + trailing;
    var m := MethodPayload(40, 10, args);
    var t := StateOf(Replay(h), tenantID);
    StreamsCarryTheMethods(h, b, q, clock, tenantID, arrival);
    DeclaredAmongOthers(t, fs, m, channel, gs, name, q, clock);
    QueueDeclareSurvives(ObserveAll(t, MethodsOf(fs, clock), q), q, ticket, name, durable, exclusive, autoDelete,
                         noWait, trailing, clock(|fs|));
  }
}
