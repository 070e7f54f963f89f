/** The whole way, from the bytes of a captured stream to the topology cache. */
module Pipeline {
  import opened Bytes
  import opened Alerts
  import opened Frames
  import opened Decoder
  import opened Engine
  import opened Topology
  import opened TextChannel
  import opened Sniffer
  import opened Travel
  import TopologyHistory
  import Management

  /** A state after methods have been observed one by one. */
  function ObserveAll(t: Topo, ms: seq<Timed>, q: Quoter): Topo {
    if ms == [] then t
    else
      var n := |ms| - 1;
      Observe(ObserveAll(t, ms[..n], q), ms[n].payload, q, ms[n].at)
  }

  /** Findings posted to the control plane by a tenant's probe, the i-th of them
      arriving at `arrival(i)`. */
  function Posts(findings: seq<Finding>, tenantID: string, arrival: nat -> int): (es: seq<Event>)
    ensures |es| == |findings|
    ensures forall i :: 0 <= i < |es| ==> es[i] == Posted(AsAlert(Sent(findings[i]), tenantID), arrival(i))
  {
    seq(|findings|, i requires 0 <= i < |findings| => Posted(AsAlert(Sent(findings[i]), tenantID), arrival(i)))
  }

  /** A clock never shows Go's zero time. */
  ghost predicate Running(clock: Clock) {
    forall k: nat :: clock(k) != ZERO_TIME
  }

  // ------------------------------------------------------- streams carry methods

  /** One post: the tenant's state moves as the observed method says, and no other
      tenant's state moves. */
  lemma PostOne(h: seq<Event>, m: Timed, q: Quoter, tenantID: string, arrival: int)
    requires m.at != ZERO_TIME && EvaluateMethod(m.payload, q, m.at).Some? && Quotes(q) && Utf8Names(m.payload)
    ensures var f := EvaluateMethod(m.payload, q, m.at).value;
            Replay(h + [Posted(AsAlert(Sent(f), tenantID), arrival)]) ==
            Replay(h)[tenantID := Observe(StateOf(Replay(h), tenantID), m.payload, q, m.at)]
  {
    hide EvaluateMethod, Apply, Quotes, Utf8Names;
    var f := EvaluateMethod(m.payload, q, m.at).value;
    assert (h + [Posted(AsAlert(Sent(f), tenantID), arrival)])[..|h|] == h;
    TenantIsNotRead(StateOf(Replay(h), tenantID), AsAlert(Sent(f), ""), tenantID, m.at);
    NamesTravel(StateOf(Replay(h), tenantID), m, q);
  }

  lemma TenantIsNotRead(t: Topo, a: Alert, tenantID: string, now: int)
    ensures Apply(t, a, now) == Apply(t, a.(tenantID := tenantID), now)
  {
    hide RuleOf, DeclareQueue, DeleteQueue, DeclareExchange, DeleteExchange, RegisterConsumer, CancelConsumer,
      TrackConnection, ConnectionEvent;
  }

  lemma NothingPosted(h: seq<Event>, t: Topo, q: Quoter, tenantID: string, arrival: nat -> int)
    ensures h + Posts(Verdicts([], q), tenantID, arrival) == h && ObserveAll(t, [], q) == t
  {
    NoVerdicts(q);
    hide Observe, Verdicts;
  }

  lemma ObserveOneMore(t: Topo, ms: seq<Timed>, m: Timed, q: Quoter)
    ensures ObserveAll(t, ms + [m], q) == Observe(ObserveAll(t, ms, q), m.payload, q, m.at)
  {
    hide Observe;
    assert (ms + [m])[..|ms|] == ms;
  }

  /** One more method behind what was posted before. */
  lemma OneMorePost(h: seq<Event>, said: seq<Finding>, m: Timed, q: Quoter, tenantID: string, arrival: nat -> int)
    requires m.at != ZERO_TIME && Quotes(q) && Utf8Names(m.payload)
    ensures var before := Replay(h + Posts(said, tenantID, arrival));
            var after := Replay(h + Posts(said + Said(m, q), tenantID, arrival));
            && StateOf(after, tenantID) == Observe(StateOf(before, tenantID), m.payload, q, m.at)
            && forall other :: other != tenantID ==> StateOf(after, other) == StateOf(before, other)
  {
    hide EvaluateMethod, Apply, Replay, AsAlert, Sent, Quotes, Utf8Names;
    var f := EvaluateMethod(m.payload, q, m.at);
    if f.None? {
      assert said + [] == said;
    } else {
      var posted, e := Posts(said, tenantID, arrival), Posted(AsAlert(Sent(f.value), tenantID), arrival(|said|));
      assert Posts(said + [f.value], tenantID, arrival) == posted + [e];
      assert h + (posted + [e]) == h + posted + [e];
      PostOne(h + posted, m, q, tenantID, arrival(|said|));
    }
  }

  lemma {:induction false} VerdictsCarryTheMethods(h: seq<Event>, ms: seq<Timed>, q: Quoter, tenantID: string,
                                                   arrival: nat -> int)
    requires Quotes(q) && forall i :: 0 <= i < |ms| ==> ms[i].at != ZERO_TIME && Utf8Names(ms[i].payload)
    ensures var after := Replay(h + Posts(Verdicts(ms, q), tenantID, arrival));
            && StateOf(after, tenantID) == ObserveAll(StateOf(Replay(h), tenantID), ms, q)
            && forall other :: other != tenantID ==> StateOf(after, other) == StateOf(Replay(h), other)
  {
    hide EvaluateMethod, Observe, ObserveAll, Replay, Posts, AsAlert, Verdicts, Said, Quotes, Utf8Names;
    var t := StateOf(Replay(h), tenantID);
    if ms == [] {
      NothingPosted(h, t, q, tenantID, arrival);
    } else {
      var front, last := ms[..|ms| - 1], ms[|ms| - 1];
      assert ms == front + [last];
      VerdictsCarryTheMethods(h, front, q, tenantID, arrival);
      OneMoreMethod(front, last, q);
      ObserveOneMore(t, front, last, q);
      var said := Verdicts(front, q);
      OneMorePost(h, said, last, q, tenantID, arrival);
    }
  }

  lemma {:induction false} MethodsAreTimed(fs: seq<Frame>, clock: Clock)
    requires Running(clock)
    ensures forall i :: 0 <= i < |MethodsOf(fs, clock)| ==> MethodsOf(fs, clock)[i].at != ZERO_TIME
  {
    hide UnmarshalMethod;
    if fs == [] {
    } else {
      MethodsAreTimed(fs[..|fs| - 1], clock);
    }
  }

  /** Every name the cache will use is valid UTF-8. */
  ghost predicate Utf8Stream(b: seq<byte>, clock: Clock) {
    var ms := MethodsOf(RunFrames(b), clock);
    forall i :: 0 <= i < |ms| ==> Utf8Names(ms[i].payload)
  }

  /** Main result: whatever bytes a stream holds, as long as the names the cache uses are
      valid UTF-8, and whatever happened before, posting what the probe dispatches changes
      the tenant's state as the methods among the stream's frames do, in order, and
      changes no other tenant's.  Sniffing, framing, unmarshalling, evaluation and the
      trip of the alerts add and lose nothing. */
  lemma StreamsCarryTheMethods(h: seq<Event>, b: seq<byte>, q: Quoter, clock: Clock, tenantID: string,
                               arrival: nat -> int)
    requires Running(clock) && Quotes(q) && Utf8Stream(b, clock)
    ensures var after := Replay(h + Posts(Dispatched(b, q, clock), tenantID, arrival));
            && StateOf(after, tenantID) ==
               ObserveAll(StateOf(Replay(h), tenantID), MethodsOf(RunFrames(b), clock), q)
            && forall other :: other != tenantID ==> StateOf(after, other) == StateOf(Replay(h), other)
    ensures forall fs :: Carries(b, fs) ==> RunFrames(b) == fs
  {
    hide MethodsOf, Verdicts, Carries, RunFrames, Replay, Posts, ObserveAll, Quotes, Utf8Names;
    MethodsAreTimed(RunFrames(b), clock);
    VerdictsCarryTheMethods(h, MethodsOf(RunFrames(b), clock), q, tenantID, arrival);
    forall fs | Carries(b, fs)
      ensures RunFrames(b) == fs
    {
      CarriedFrames(b, fs);
    }
  }

  /** Main result: what is found in requests to the management API never changes an entry
      of the cache. */
  lemma RequestsLeaveTheCache(t: Topo, httpMethod: string, path: string, tenantID: string, now: int)
    ensures var f := Management.Verdict(httpMethod, Management.Normal(path), now);
            f.Some? ==> Apply(t, AsAlert(Sent(f.value), tenantID), now) == t.(lastUpdated := now)
  {
    hide Management.Verdict, Management.Normal, Management.Below, Management.Segments, Apply, RuleOf, Sent, AsAlert;
    Management.WhatIsReported(httpMethod, path, now);
    var f := Management.Verdict(httpMethod, Management.Normal(path), now);
    if f.Some? {
      RuleTravels(f.value, tenantID);
      ManagementRules(t, AsAlert(Sent(f.value), tenantID), now);
    }
  }

  lemma RuleTravels(f: Finding, tenantID: string)
    ensures AsAlert(Sent(f), tenantID).ruleName == f.ruleName
  {
  }

  lemma ManagementRules(t: Topo, a: Alert, now: int)
    requires a.ruleName == "management_resource_created" || a.ruleName == "management_message_published"
    ensures Apply(t, a, now) == t.(lastUpdated := now)
  {
    hide Apply;
    TopologyHistory.RulesByName(t, a, now);
  }
}
