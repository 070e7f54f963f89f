/** Live delivery of alerts (internal/controlplane/server.go, broadcastAlert and
    the register, receive and unregister parts of handleEventsSSE).

    The first half is the protocol as a state machine over its steps, with each
    broadcast one atomic step; the second half is the server's map of client
    channels, tied to that state machine. */
module EventStream {
  import opened Wrappers
  import opened Alerts

  /** The buffer of a client channel. */
  const CAPACITY: nat := 100

  // ------------------------------------------------------- the protocol

  datatype Step<I> = Register(id: I, tenant: string) | Broadcast(alert: Alert) | Receive(id: I) | Unregister(id: I)

  /** One client connection.  `registered` means the broadcaster still knows the
      channel, `dropped` that it was closed because its buffer was full, `ended`
      that its handler has returned. */
  datatype Session = Session(tenant: string, received: seq<Alert>, buffered: seq<Alert>,
                             registered: bool, dropped: bool, ended: bool)
  {
    function Seen(): seq<Alert> { received + buffered }
  }

  function Deliver(s: Session, a: Alert): Session {
    if !s.registered || s.tenant != a.tenantID then s
    else if |s.buffered| < CAPACITY then s.(buffered := s.buffered + [a])
    else s.(registered := false, dropped := true)
  }

  function Take(s: Session): Session {
    if s.ended || s.buffered == [] then s
    else s.(received := s.received + [s.buffered[0]], buffered := s.buffered[1..])
  }

  /** A registration always brings a channel that did not exist before. */
  function Next<I>(m: map<I, Session>, step: Step<I>): map<I, Session> {
    match step
    case Register(id, tenant) => if id in m then m else m[id := Session(tenant, [], [], true, false, false)]
    case Broadcast(a) => map id | id in m :: Deliver(m[id], a)
    case Receive(id) => if id in m then m[id := Take(m[id])] else m
    case Unregister(id) => if id in m then m[id := m[id].(registered := false, ended := true)] else m
  }

  function Run<I>(trace: seq<Step<I>>): map<I, Session> {
    if trace == [] then map[] else Next(Run(trace[..|trace| - 1]), trace[|trace| - 1])
  }

  // ------------------------------------------------------- the reference

  /** A tenant's broadcasts among steps `i` up to `j`, in order. */
  function Broadcasts<I>(trace: seq<Step<I>>, tenant: string, i: nat, j: nat): seq<Alert>
    requires i <= j <= |trace|
  {
    if i == j then []
    else
      var before := Broadcasts(trace, tenant, i, j - 1);
      match trace[j - 1]
      case Broadcast(a) => if a.tenantID == tenant then before + [a] else before
      case _ => before
  }

  predicate BroadcastTo<I>(step: Step<I>, tenant: string) {
    step.Broadcast? && step.alert.tenantID == tenant
  }

  ghost predicate FoundFull<I(!new)>(trace: seq<Step<I>>, id: I, k: nat)
    requires k < |trace|
  {
    var m := Run(trace[..k]);
    id in m && BroadcastTo(trace[k], m[id].tenant) && |m[id].buffered| >= CAPACITY
  }

  /** No step from `i` up to `j` drops or unregisters the client. */
  ghost predicate Undisturbed<I(!new)>(trace: seq<Step<I>>, id: I, i: nat, j: nat)
    requires j <= |trace|
  {
    forall k :: i <= k < j ==> !FoundFull(trace, id, k) && trace[k] != Unregister(id)
  }

  /** `c` is where the client stopped being served: nowhere yet, at the first of
      its tenant's broadcasts that found a full buffer, or at its unregistration. */
  ghost predicate ServedUpTo<I(!new)>(trace: seq<Step<I>>, id: I, s: Session, r: nat, c: nat) {
    && r < c <= |trace|
    && trace[r] == Register(id, s.tenant)
    && (s.registered <==> c == |trace|)
    && Undisturbed(trace, id, r + 1, c)
    && (c < |trace| && s.dropped ==> FoundFull(trace, id, c))
    && (c < |trace| && !s.dropped ==> trace[c] == Unregister(id))
    && s.Seen() == Broadcasts(trace, s.tenant, r + 1, c)
  }

  // ------------------------------------------------------- main results

  lemma {:induction false} BroadcastsPrefix<I>(trace: seq<Step<I>>, n: nat, tenant: string, i: nat, j: nat)
    requires i <= j <= n <= |trace|
    ensures Broadcasts(trace[..n], tenant, i, j) == Broadcasts(trace, tenant, i, j)
  {
    if i == j {
    } else {
      BroadcastsPrefix(trace, n, tenant, i, j - 1);
    }
  }

  lemma UndisturbedPrefix<I(!new)>(trace: seq<Step<I>>, id: I, n: nat, i: nat, j: nat)
    requires j <= n <= |trace|
    ensures Undisturbed(trace[..n], id, i, j) <==> Undisturbed(trace, id, i, j)
  {
    hide Run;
    forall k | i <= k < j
      ensures FoundFull(trace[..n], id, k) <==> FoundFull(trace, id, k)
    {
      assert trace[..n][..k] == trace[..k];
    }
    assert forall k :: i <= k < j ==> trace[..n][k] == trace[k];
  }

  lemma FoundFullPrefix<I(!new)>(trace: seq<Step<I>>, id: I, n: nat, k: nat)
    requires k < n <= |trace|
    ensures FoundFull(trace[..n], id, k) <==> FoundFull(trace, id, k)
  {
    assert trace[..n][..k] == trace[..k];
  }

  /** One step seen by one session. */
  function StepOf<I(==)>(s: Session, step: Step<I>, id: I): Session {
    match step
    case Register(_, _) => s
    case Broadcast(a) => Deliver(s, a)
    case Receive(i) => if i == id then Take(s) else s
    case Unregister(i) => if i == id then s.(registered := false, ended := true) else s
  }

  lemma NextAt<I>(m: map<I, Session>, step: Step<I>, id: I)
    requires id in m
    ensures id in Next(m, step) && Next(m, step)[id] == StepOf(m[id], step, id)
  {
  }

  lemma SeenStep<I>(s: Session, step: Step<I>, id: I)
    ensures var s' := StepOf(s, step, id);
            s'.tenant == s.tenant &&
            s'.Seen() == if s'.registered && BroadcastTo(step, s.tenant) then s.Seen() + [step.alert] else s.Seen()
  {
    match step
    case Broadcast(a) =>
      assert s.received + (s.buffered + [a]) == s.Seen() + [a];
    case Receive(i) =>
      if s.buffered != [] {
        assert s.received + [s.buffered[0]] + s.buffered[1..] == s.Seen();
      }
    case Register(_, _) =>
    case Unregister(_) =>
  }

  /** Dropping only happens to the registered, and ending unregisters. */
  lemma {:induction false} Flags<I(!new)>(trace: seq<Step<I>>, id: I)
    requires id in Run(trace)
    ensures var s := Run(trace)[id];
            (s.dropped || s.ended ==> !s.registered) && |s.buffered| <= CAPACITY
  {
    var before := trace[..|trace| - 1];
    if id !in Run(before) {
    } else {
      Flags(before, id);
      NextAt(Run(before), trace[|trace| - 1], id);
    }
  }

  /** Main result: what a client has received, followed by what waits in its
      channel, is exactly its tenant's broadcasts from its registration up to
      where it stopped being served: no gap, no repetition, no reordering. */
  lemma {:induction false} DeliveryHasNoGaps<I(!new)>(trace: seq<Step<I>>, id: I) returns (r: nat, c: nat)
    requires id in Run(trace)
    ensures ServedUpTo(trace, id, Run(trace)[id], r, c)
  {
    var n := |trace| - 1;
    var before, step := trace[..n], trace[n];
    var m := Run(before);
    if id !in m {
      r, c := n, |trace|;
    } else {
      r, c := DeliveryHasNoGaps(before, id);
      Flags(before, id);
      NextAt(m, step, id);
      if m[id].registered {
        FoundFullLast(trace, id, m[id]);
        if Run(trace)[id].registered {
          StaysServed(trace, id, m[id], Run(trace)[id], r, c);
        } else {
          StopsBeingServed(trace, id, m[id], Run(trace)[id], r, c);
        }
      } else {
        StaysUnserved(trace, id, m[id], Run(trace)[id], r, c);
      }
      if m[id].registered && Run(trace)[id].registered {
        c := |trace|;
      }
    }
  }

  /** Unserved clients stay as they are. */
  lemma StaysUnserved<I(!new)>(trace: seq<Step<I>>, id: I, s: Session, s': Session, r: nat, c: nat)
    requires trace != []
    requires ServedUpTo(trace[..|trace| - 1], id, s, r, c)
    requires s' == StepOf(s, trace[|trace| - 1], id)
    requires !s.registered
    ensures ServedUpTo(trace, id, s', r, c)
  {
    var n := |trace| - 1;
    hide Undisturbed, Broadcasts, Run;
    UndisturbedPrefix(trace, id, n, r + 1, c);
    BroadcastsPrefix(trace, n, s.tenant, r + 1, c);
    SeenStep(s, trace[n], id);
    if c < n {
      FoundFullPrefix(trace, id, n, c);
    }
  }

  lemma StillServed<I>(s: Session, step: Step<I>, id: I)
    requires s.registered && !s.dropped && StepOf(s, step, id).registered
    ensures !StepOf(s, step, id).dropped && step != Unregister(id)
  {
  }

  /** A served client is served this step too. */
  lemma StaysServed<I(!new)>(trace: seq<Step<I>>, id: I, s: Session, s': Session, r: nat, c: nat)
    requires trace != []
    requires ServedUpTo(trace[..|trace| - 1], id, s, r, c)
    requires s' == StepOf(s, trace[|trace| - 1], id)
    requires s.registered && !s.dropped && !s.ended && s'.registered
    requires FoundFull(trace, id, |trace| - 1) <==> s'.dropped
    ensures ServedUpTo(trace, id, s', r, |trace|)
  {
    var n := |trace| - 1;
    hide Undisturbed, Broadcasts, Run, FoundFull, StepOf, Session.Seen, BroadcastTo;
    assert c == n;
    StillServed(s, trace[n], id);
    UndisturbedPrefix(trace, id, n, r + 1, n);
    BroadcastsPrefix(trace, n, s.tenant, r + 1, n);
    SeenStep(s, trace[n], id);
    BroadcastsLast(trace, s.tenant, r + 1);
    UndisturbedStep(trace, id, r + 1);
  }

  /** A served client stops being served at this step. */
  lemma StopsBeingServed<I(!new)>(trace: seq<Step<I>>, id: I, s: Session, s': Session, r: nat, c: nat)
    requires trace != []
    requires ServedUpTo(trace[..|trace| - 1], id, s, r, c)
    requires s' == StepOf(s, trace[|trace| - 1], id)
    requires s.registered && !s.dropped && !s.ended && !s'.registered
    requires FoundFull(trace, id, |trace| - 1) <==> s'.dropped
    ensures ServedUpTo(trace, id, s', r, c)
  {
    var n := |trace| - 1;
    hide Undisturbed, Broadcasts, Run;
    UndisturbedPrefix(trace, id, n, r + 1, c);
    BroadcastsPrefix(trace, n, s.tenant, r + 1, c);
    SeenStep(s, trace[n], id);
  }

  lemma UndisturbedStep<I(!new)>(trace: seq<Step<I>>, id: I, i: nat)
    requires trace != []
    requires Undisturbed(trace, id, i, |trace| - 1)
    requires !FoundFull(trace, id, |trace| - 1) && trace[|trace| - 1] != Unregister(id)
    ensures Undisturbed(trace, id, i, |trace|)
  {
  }

  lemma BroadcastsLast<I>(trace: seq<Step<I>>, tenant: string, i: nat)
    requires i < |trace|
    ensures var n := |trace| - 1;
            Broadcasts(trace, tenant, i, |trace|) ==
            Broadcasts(trace, tenant, i, n) + if BroadcastTo(trace[n], tenant) then [trace[n].alert] else []
  {
  }

  lemma FoundFullLast<I(!new)>(trace: seq<Step<I>>, id: I, s: Session)
    requires trace != []
    requires id in Run(trace[..|trace| - 1]) && Run(trace[..|trace| - 1])[id] == s && s.registered && !s.dropped
    ensures FoundFull(trace, id, |trace| - 1) <==> StepOf(s, trace[|trace| - 1], id).dropped
  {
  }

  /** Main result: a client never sees another tenant's alert. */
  lemma NoForeignAlerts<I(!new)>(trace: seq<Step<I>>, id: I)
    requires id in Run(trace)
    ensures var s := Run(trace)[id]; forall a :: a in s.Seen() ==> a.tenantID == s.tenant
  {
    hide Run;
    var r, c := DeliveryHasNoGaps(trace, id);
    BroadcastsAreOwn(trace, Run(trace)[id].tenant, r + 1, c);
  }

  lemma {:induction false} BroadcastsAreOwn<I>(trace: seq<Step<I>>, tenant: string, i: nat, j: nat)
    requires i <= j <= |trace|
    ensures forall a :: a in Broadcasts(trace, tenant, i, j) ==> a.tenantID == tenant
  {
    if i == j {
    } else {
      BroadcastsAreOwn(trace, tenant, i, j - 1);
    }
  }

  // ------------------------------------------------------- how far a client may lag

  /** Of a tenant's broadcasts among steps `i` up to `k`, how many the client has not yet
      received: each broadcast is one more, each receive one less if there are any. */
  function Unread<I(==)>(trace: seq<Step<I>>, id: I, tenant: string, i: nat, k: nat): nat
    requires i <= k <= |trace|
  {
    if i == k then 0
    else
      var u := Unread(trace, id, tenant, i, k - 1);
      if BroadcastTo(trace[k - 1], tenant) then u + 1
      else if trace[k - 1] == Receive(id) && u > 0 then u - 1
      else u
  }

  lemma {:induction false} UnreadPrefix<I>(trace: seq<Step<I>>, n: nat, id: I, tenant: string, i: nat, k: nat)
    requires i <= k <= n <= |trace|
    ensures Unread(trace[..n], id, tenant, i, k) == Unread(trace, id, tenant, i, k)
  {
    if i == k {
    } else {
      UnreadPrefix(trace, n, id, tenant, i, k - 1);
    }
  }

  /** At each of its tenant's broadcasts since step `r` the client had fewer than a
      hundred earlier ones left to receive. */
  ghost predicate KeepsUp<I(!new)>(trace: seq<Step<I>>, id: I, tenant: string, r: nat) {
    forall k :: r < k < |trace| && BroadcastTo(trace[k], tenant) ==> Unread(trace, id, tenant, r + 1, k) < 100
  }

  lemma KeepsUpStep<I(!new)>(trace: seq<Step<I>>, id: I, tenant: string, r: nat)
    requires r + 1 < |trace|
    ensures var n := |trace| - 1;
            KeepsUp(trace, id, tenant, r) <==>
            KeepsUp(trace[..n], id, tenant, r) &&
            (BroadcastTo(trace[n], tenant) ==> Unread(trace, id, tenant, r + 1, n) < 100)
  {
    hide Unread, BroadcastTo;
    var n := |trace| - 1;
    forall k | r < k < n
      ensures Unread(trace[..n], id, tenant, r + 1, k) == Unread(trace, id, tenant, r + 1, k)
      ensures trace[..n][k] == trace[k]
    {
      UnreadPrefix(trace, n, id, tenant, r + 1, k);
    }
  }

  /** Main result: a client that registered at step `r` and never unregisters is still
      served iff it kept up, and then exactly the unread broadcasts wait in its channel. */
  lemma {:induction false} ServedIffKeepingUp<I(!new)>(trace: seq<Step<I>>, id: I, tenant: string, r: nat)
    requires r < |trace| && trace[r] == Register(id, tenant) && id !in Run(trace[..r])
    requires forall k :: r < k < |trace| ==> trace[k] != Unregister(id)
    ensures id in Run(trace)
    ensures var s := Run(trace)[id];
            && s.tenant == tenant && !s.ended
            && (s.registered <==> KeepsUp(trace, id, tenant, r))
            && (s.registered ==> |s.buffered| == Unread(trace, id, tenant, r + 1, |trace|))
  {
    var n := |trace| - 1;
    var before := trace[..n];
    if r == n {
      FirstStep(trace, id, tenant);
    } else {
      hide Run, Next, KeepsUp, StepOf;
      assert before[..r] == trace[..r] && before[r] == trace[r];
      ServedIffKeepingUp(before, id, tenant, r);
      RunLast(trace, id);
      KeepsUpStep(trace, id, tenant, r);
      UnreadPrefix(trace, n, id, tenant, r + 1, n);
      LagStep(Run(before)[id], trace[n], id);
    }
  }

  lemma FirstStep<I(!new)>(trace: seq<Step<I>>, id: I, tenant: string)
    requires trace != [] && trace[|trace| - 1] == Register(id, tenant) && id !in Run(trace[..|trace| - 1])
    ensures id in Run(trace) && Run(trace)[id] == Session(tenant, [], [], true, false, false)
  {
  }

  lemma RunLast<I>(trace: seq<Step<I>>, id: I)
    requires trace != [] && id in Run(trace[..|trace| - 1])
    ensures id in Run(trace) && Run(trace)[id] == StepOf(Run(trace[..|trace| - 1])[id], trace[|trace| - 1], id)
  {
    NextAt(Run(trace[..|trace| - 1]), trace[|trace| - 1], id);
  }

  /** One step, seen by what waits in the channel. */
  lemma LagStep<I>(s: Session, step: Step<I>, id: I)
    requires !s.ended && step != Unregister(id)
    ensures var s' := StepOf(s, step, id);
            && s'.tenant == s.tenant && !s'.ended
            && (s'.registered <==> s.registered && (BroadcastTo(step, s.tenant) ==> |s.buffered| < 100))
            && (s'.registered ==>
                  |s'.buffered| ==
                  if BroadcastTo(step, s.tenant) then |s.buffered| + 1
                  else if step == Receive(id) && |s.buffered| > 0 then |s.buffered| - 1
                  else |s.buffered|)
  {
  }

  /** Nothing but broadcasts, of the given alerts. */
  function Broadcasting<I>(alerts: seq<Alert>): (steps: seq<Step<I>>)
    ensures |steps| == |alerts| && forall i :: 0 <= i < |alerts| ==> steps[i] == Broadcast(alerts[i])
  {
    seq(|alerts|, i requires 0 <= i < |alerts| => Broadcast(alerts[i]))
  }

  lemma {:induction false} NothingReceived<I>(id: I, tenant: string, alerts: seq<Alert>, k: nat)
    requires k <= |alerts| && forall i :: 0 <= i < |alerts| ==> alerts[i].tenantID == tenant
    ensures Unread([Register(id, tenant)] + Broadcasting(alerts), id, tenant, 1, k + 1) == k
  {
    if k == 0 {
    } else {
      NothingReceived(id, tenant, alerts, k - 1);
    }
  }

  /** Main result: a hundred alerts wait for a client that receives nothing, and the
      next one drops it. */
  lemma HundredWait<I(!new)>(id: I, tenant: string, alerts: seq<Alert>)
    requires forall i :: 0 <= i < |alerts| ==> alerts[i].tenantID == tenant
    ensures var m := Run([Register(id, tenant)] + Broadcasting(alerts));
            && id in m
            && (m[id].registered <==> |alerts| <= 100)
            && (|alerts| <= 100 ==> |m[id].buffered| == |alerts|)
  {
    hide Run, Unread;
    var trace := [Register(id, tenant)] + Broadcasting(alerts);
    NobodyYet(trace, id);
    ServedIffKeepingUp(trace, id, tenant, 0);
    forall k | 1 <= k <= |trace|
      ensures Unread(trace, id, tenant, 1, k) == k - 1
    {
      NothingReceived(id, tenant, alerts, k - 1);
    }
    if |alerts| > 100 {
      assert BroadcastTo(trace[101], tenant) && Unread(trace, id, tenant, 1, 101) == 100;
    }
  }

  lemma NobodyYet<I>(trace: seq<Step<I>>, id: I)
    ensures id !in Run(trace[..0])
  {
  }

  // ------------------------------------------------------- the server's clients

  /** A buffered Go channel of alerts. */
  class ClientChannel {
    var buffer: seq<Alert>
    var closed: bool

    constructor ()
      ensures buffer == [] && !closed
    {
      buffer, closed := [], false;
    }
  }

  class EventHub {
    var clients: map<ClientChannel, string>  // open channels and their tenants
    ghost var trace: seq<Step<ClientChannel>>
    ghost var sessions: map<ClientChannel, Session>

    ghost predicate Valid()
      reads this, sessions.Keys
    {
      && sessions == Run(trace)
      && (forall ch :: ch in clients ==> ch in sessions && sessions[ch].registered)
      && (forall ch :: ch in sessions && sessions[ch].registered ==> ch in clients)
      && (forall ch :: ch in sessions ==> Mirrors(ch, sessions[ch]))
      && (forall ch :: ch in clients ==> clients[ch] == sessions[ch].tenant)
    }

    static ghost predicate Mirrors(ch: ClientChannel, s: Session)
      reads ch
    {
      ch.buffer == s.buffered && (ch.closed <==> s.dropped)
    }

    constructor ()
      ensures Valid() && trace == []
    {
      clients, trace, sessions := map[], [], map[];
    }

    /** The start of handleEventsSSE. */
    method Register(tenantID: string) returns (ch: ClientChannel)
      requires Valid()
      modifies this
      ensures Valid() && fresh(ch)
      ensures trace == old(trace) + [Step.Register(ch, tenantID)]
    {
      hide Run;
      ch := new ClientChannel();
      clients := clients[ch := tenantID];
      ghost var step := Step.Register(ch, tenantID);
      ghost var s := Session(tenantID, [], [], true, false, false);
      assert ch !in sessions && Mirrors(ch, s);
      RunSnoc(trace, step);
      trace := trace + [step];
      sessions := Next(sessions, step);
      assert sessions == old(sessions)[ch := s];
      hide Next, Mirrors;
      forall c | c in sessions
        ensures Mirrors(c, sessions[c])
      {
        assert c == ch || old(Mirrors(c, sessions[c]));
      }
    }

    /** The body of broadcastAlert's loop: skip other tenants, send if the channel
        has room, otherwise close and forget it. */
    method Send(ch: ClientChannel, alert: Alert, ghost s: Session)
      requires ch in clients && s.registered && clients[ch] == s.tenant && Mirrors(ch, s)
      modifies ch, `clients
      ensures Mirrors(ch, Deliver(s, alert))
      ensures clients == if Deliver(s, alert).registered then old(clients) else old(clients) - {ch}
    {
      if clients[ch] != alert.tenantID {
        return;
      }
      if |ch.buffer| < CAPACITY {
        ch.buffer := ch.buffer + [alert];
      } else {
        ch.closed := true;
        clients := clients - {ch};
      }
    }

    /** A session halfway through a broadcast. */
    static ghost function Halfway(s: Session, waiting: bool, alert: Alert): Session {
      if waiting then s else Deliver(s, alert)
    }

    ghost predicate InBroadcast(todo: set<ClientChannel>, alert: Alert)
      reads `clients, `sessions, sessions.Keys
    {
      && todo <= clients.Keys
      && (forall ch :: ch in sessions ==> Mirrors(ch, Halfway(sessions[ch], ch in todo, alert)))
      && (forall ch :: ch in sessions && Halfway(sessions[ch], ch in todo, alert).registered ==> ch in clients)
      && (forall ch :: ch in clients ==>
            ch in sessions && Halfway(sessions[ch], ch in todo, alert).registered && clients[ch] == sessions[ch].tenant)
    }

    method SendNext(ch: ClientChannel, alert: Alert, ghost todo: set<ClientChannel>)
      requires InBroadcast(todo, alert) && ch in todo
      modifies ch, `clients
      ensures InBroadcast(todo - {ch}, alert)
    {
      hide Deliver;
      Send(ch, alert, sessions[ch]);
    }

    /** broadcastAlert; the map's iteration order is arbitrary. */
    method Broadcast(alert: Alert)
      requires Valid()
      modifies this, sessions.Keys
      ensures Valid()
      ensures trace == old(trace) + [Step.Broadcast(alert)]
    {
      hide Run, InBroadcast;
      var todo := clients.Keys;
      StartBroadcast(alert);
      while todo != {}
        invariant trace == old(trace) && sessions == old(sessions)
        invariant InBroadcast(todo, alert)
        decreases todo
      {
        var ch :| ch in todo;
        SendNext(ch, alert, todo);
        todo := todo - {ch};
      }
      EndBroadcast(alert);
    }

    lemma StartBroadcast(alert: Alert)
      requires Valid()
      ensures InBroadcast(clients.Keys, alert)
    {
    }

    ghost method EndBroadcast(alert: Alert)
      requires InBroadcast({}, alert) && sessions == Run(trace)
      modifies `trace, `sessions
      ensures Valid()
      ensures trace == old(trace) + [Step.Broadcast(alert)]
    {
      hide Run;
      var step := Step.Broadcast(alert);
      RunSnoc(trace, step);
      trace := trace + [step];
      sessions := Next(sessions, step);
      hide Deliver;
    }

    /** One receive of the handler's loop.  None means the channel is closed and
        drained; an open empty channel blocks, so nothing is received from it. */
    method Receive(ch: ClientChannel) returns (alert: Option<Alert>)
      requires Valid() && ch in sessions && !sessions[ch].ended
      requires ch.buffer != [] || ch.closed
      modifies this, ch
      ensures Valid()
      ensures trace == old(trace) + [Step.Receive(ch)]
      ensures alert == if old(ch.buffer) == [] then None else Some(old(ch.buffer)[0])
      ensures sessions[ch].received == old(sessions[ch]).received + if alert.Some? then [alert.value] else []
    {
      hide Run;
      ghost var step := Step.Receive(ch);
      RunSnoc(trace, step);
      ghost var s := Take(sessions[ch]);
      if ch.buffer == [] {
        alert := None;
      } else {
        alert := Some(ch.buffer[0]);
        ch.buffer := ch.buffer[1..];
      }
      assert Mirrors(ch, s);
      trace := trace + [step];
      sessions := Next(sessions, step);
      assert sessions == old(sessions)[ch := s];
      hide Next, Mirrors;
      forall c | c in sessions
        ensures Mirrors(c, sessions[c])
      {
        assert c == ch || old(Mirrors(c, sessions[c]));
      }
    }

    /** The map part of the deferred function of handleEventsSSE. */
    method Unregister(ch: ClientChannel)
      requires Valid() && ch in sessions
      modifies this
      ensures Valid()
      ensures trace == old(trace) + [Step.Unregister(ch)]
    {
      hide Run;
      ghost var step := Step.Unregister(ch);
      RunSnoc(trace, step);
      clients := clients - {ch};
      trace := trace + [step];
      sessions := Next(sessions, step);
    }
  }

  lemma RunSnoc<I>(trace: seq<Step<I>>, step: Step<I>)
    ensures Run(trace + [step]) == Next(Run(trace), step)
  {
    assert (trace + [step])[..|trace|] == trace;
  }
}
