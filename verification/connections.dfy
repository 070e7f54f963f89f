/** The connection list of the topology cache (internal/controlplane/server.go,
    cases connection_opened and connection_closed_*): opens append and keep the
    newest fifty, a close marks the newest entry that is still open.

    The bounded list is compared with a log that never evicts, and that log with
    a declarative account of bracket matching. */
module Connections {
  import opened Wrappers

  const KEPT: nat := 50

  datatype Connection = Connection(source: string, openedAt: int, closedAt: Option<int>, active: bool)

  /** What one alert means for the list. */
  datatype Event = Opened(source: string, at: int) | Closed(at: int) | Unrelated

  // ---------------------------------------------------------------- model

  /** The newest `n` entries. */
  function Newest<T>(log: seq<T>, n: nat): (r: seq<T>)
    ensures |r| == if |log| < n then |log| else n
  {
    if |log| > n then log[|log| - n..] else log
  }

  /** Scans from the end and closes the first active entry it meets. */
  function CloseNewest(log: seq<Connection>, at: int): (r: seq<Connection>)
    ensures |r| == |log|
  {
    if log == [] then []
    else
      var n := |log| - 1;
      if log[n].active then log[..n] + [log[n].(active := false, closedAt := Some(at))]
      else CloseNewest(log[..n], at) + [log[n]]
  }

  /** One event on the bounded list. */
  function Step(list: seq<Connection>, e: Event): seq<Connection> {
    match e
    case Opened(source, at) => Newest(list + [Connection(source, at, None, true)], KEPT)
    case Closed(at) => CloseNewest(list, at)
    case Unrelated => list
  }

  function List(es: seq<Event>): seq<Connection> {
    if es == [] then [] else Step(List(es[..|es| - 1]), es[|es| - 1])
  }

  // ------------------------------------------------------- the unbounded log

  function Log(es: seq<Event>): seq<Connection> {
    if es == [] then []
    else
      var log := Log(es[..|es| - 1]);
      match es[|es| - 1]
      case Opened(source, at) => log + [Connection(source, at, None, true)]
      case Closed(at) => CloseNewest(log, at)
      case Unrelated => log
  }

  /** Closing commutes with forgetting the oldest entries, even when the entry
      to close has been forgotten. */
  lemma {:induction false} CloseCommutesWithDrop(log: seq<Connection>, k: nat, at: int)
    requires k <= |log|
    ensures CloseNewest(log, at)[k..] == CloseNewest(log[k..], at)
  {
    if k < |log| {
      var n := |log| - 1;
      assert log[k..][..n - k] == log[..n][k..];
      if log[n].active {
      } else {
        CloseCommutesWithDrop(log[..n], k, at);
      }
    } else {
      assert log[k..] == [];
    }
  }

  /** Main result: after any events the bounded list is exactly the newest fifty
      entries of the log that never evicts, closing times included. */
  lemma {:induction false} BoundedListRefinesTheLog(es: seq<Event>)
    ensures List(es) == Newest(Log(es), 50)
  {
    if es == [] {
    } else {
      var before, e := es[..|es| - 1], es[|es| - 1];
      BoundedListRefinesTheLog(before);
      var log := Log(before);
      match e
      case Opened(source, at) =>
      case Closed(at) =>
        if |log| > KEPT {
          CloseCommutesWithDrop(log, |log| - KEPT, at);
        }
      case Unrelated =>
    }
  }

  // ------------------------------------------------------- bracket matching

  /** Opens among the events from `p` up to `q`. */
  ghost function Opens(es: seq<Event>, p: nat, q: nat): nat
    requires p <= q <= |es|
  {
    if p == q then 0 else Opens(es, p, q - 1) + if es[q - 1].Opened? then 1 else 0
  }

  ghost function Closes(es: seq<Event>, p: nat, q: nat): nat
    requires p <= q <= |es|
  {
    if p == q then 0 else Closes(es, p, q - 1) + if es[q - 1].Closed? then 1 else 0
  }

  /** After the first `q` events some stretch right after position `p` has closed
      more connections than it opened. */
  ghost predicate Unbalanced(es: seq<Event>, p: nat, q: nat)
    requires p < q <= |es|
  {
    Closes(es, p + 1, q) > Opens(es, p + 1, q)
  }

  /** The event that first unbalances the stretch after `p` is the q-th. */
  ghost predicate FirstUnbalanced(es: seq<Event>, p: nat, q: nat)
    requires p < q <= |es|
  {
    Unbalanced(es, p, q) && forall r :: p < r < q ==> !Unbalanced(es, p, r)
  }

  /** The log entry made by the open at position `p`. */
  ghost function EntryIndex(es: seq<Event>, p: nat): nat
    requires p < |es|
  {
    Opens(es, 0, p)
  }

  /** What an entry should say, by bracket matching alone: it is inactive iff the
      events after its open are at some point unbalanced, and it then carries the
      time of the close that first made them so. */
  ghost predicate MatchesBrackets(c: Connection, es: seq<Event>, p: nat)
    requires p < |es| && es[p].Opened?
  {
    && c.source == es[p].source
    && c.openedAt == es[p].at
    && (!c.active <==> exists q :: p < q <= |es| && Unbalanced(es, p, q))
    && (c.closedAt.Some? <==> !c.active)
    && (forall q :: p < q <= |es| && FirstUnbalanced(es, p, q) ==>
          es[q - 1].Closed? && c.closedAt == Some(es[q - 1].at))
  }

  /** Active entries from index `i` on. */
  ghost function ActiveFrom(log: seq<Connection>, i: nat): nat
    requires i <= |log|
    decreases |log|
  {
    if i == |log| then 0
    else
      var n := |log| - 1;
      ActiveFrom(log[..n], i) + if log[n].active then 1 else 0
  }

  /** CloseNewest touches entry `i` iff it is active and no later one is. */
  lemma {:induction false} CloseNewestAt(log: seq<Connection>, i: nat, at: int)
    requires i < |log|
    ensures var r := CloseNewest(log, at);
            r[i] == if log[i].active && ActiveFrom(log, i + 1) == 0
                    then log[i].(active := false, closedAt := Some(at)) else log[i]
  {
    var n := |log| - 1;
    if i == n || log[n].active {
    } else {
      CloseNewestAt(log[..n], i, at);
    }
  }

  lemma {:induction false} CloseNewestCount(log: seq<Connection>, i: nat, at: int)
    requires i <= |log|
    ensures ActiveFrom(CloseNewest(log, at), i) ==
            if ActiveFrom(log, i) == 0 then 0 else ActiveFrom(log, i) - 1
  {
    if i == |log| {
    } else {
      var n := |log| - 1;
      var r := CloseNewest(log, at);
      if log[n].active {
        assert r[..n] == log[..n];
      } else {
        CloseNewestCount(log[..n], i, at);
        assert r[..n] == CloseNewest(log[..n], at);
      }
    }
  }

  /** Prefix sums only look at the events they sum over. */
  lemma {:induction false} SumsOfPrefix(es: seq<Event>, n: nat, p: nat, q: nat)
    requires p <= q <= n <= |es|
    ensures Opens(es[..n], p, q) == Opens(es, p, q)
    ensures Closes(es[..n], p, q) == Closes(es, p, q)
  {
    if p == q {
    } else {
      SumsOfPrefix(es, n, p, q - 1);
    }
  }

  lemma {:induction false} LogLength(es: seq<Event>)
    ensures |Log(es)| == Opens(es, 0, |es|)
  {
    if es == [] {
    } else {
      LogLength(es[..|es| - 1]);
      SumsOfPrefix(es, |es| - 1, 0, |es| - 1);
    }
  }

  lemma {:induction false} OpensMonotone(es: seq<Event>, p: nat, q: nat)
    requires p <= q <= |es|
    ensures Opens(es, 0, p) <= Opens(es, 0, q)
  {
    if p == q {
    } else {
      OpensMonotone(es, p, q - 1);
    }
  }

  /** Every open has its own log entry. */
  lemma EntryExists(es: seq<Event>, p: nat)
    requires p < |es| && es[p].Opened?
    ensures EntryIndex(es, p) < |Log(es)|
  {
    LogLength(es);
    OpensMonotone(es, p + 1, |es|);
  }

  /** The heart of the matching: while an entry is open, the surplus of opens over
      closes since then is the number of later entries still open. */
  ghost predicate Surplus(es: seq<Event>, p: nat)
    requires p < |es| && es[p].Opened? && EntryIndex(es, p) < |Log(es)|
  {
    var i := EntryIndex(es, p);
    Log(es)[i].active ==>
      Opens(es, p + 1, |es|) - Closes(es, p + 1, |es|) == ActiveFrom(Log(es), i + 1)
  }

  /** Balance up to `q` does not depend on later events. */
  lemma UnbalancedPrefix(es: seq<Event>, n: nat, p: nat)
    requires p < n <= |es|
    ensures forall q :: p < q <= n ==> (Unbalanced(es[..n], p, q) <==> Unbalanced(es, p, q))
    ensures forall q :: p < q <= n ==> (FirstUnbalanced(es[..n], p, q) <==> FirstUnbalanced(es, p, q))
  {
    forall q | p < q <= n
      ensures Unbalanced(es[..n], p, q) <==> Unbalanced(es, p, q)
    {
      SumsOfPrefix(es, n, p + 1, q);
    }
  }

  /** The account of an entry after one more event. */
  lemma BracketsStep(c: Connection, es: seq<Event>, p: nat)
    requires p + 1 < |es| && es[p].Opened?
    requires MatchesBrackets(c, es[..|es| - 1], p)
    requires c.active && Unbalanced(es, p, |es|) ==> es[|es| - 1].Closed?
    ensures if c.active && Unbalanced(es, p, |es|)
            then MatchesBrackets(c.(active := false, closedAt := Some(es[|es| - 1].at)), es, p)
            else MatchesBrackets(c, es, p)
  {
    UnbalancedPrefix(es, |es| - 1, p);
    hide Unbalanced;
  }

  /** The entry of an open that nothing has followed yet. */
  lemma NewestEntry(es: seq<Event>)
    requires es != [] && es[|es| - 1].Opened?
    ensures var p := |es| - 1;
            && EntryIndex(es, p) < |Log(es)|
            && MatchesBrackets(Log(es)[EntryIndex(es, p)], es, p)
            && Surplus(es, p)
  {
    hide CloseNewest;
    var n := |es| - 1;
    SumsOfPrefix(es, n, 0, n);
    LogLength(es[..n]);
    assert !Unbalanced(es, n, |es|);
  }

  /** Main result: the unbounded log follows bracket matching. */
  lemma {:induction false} LogFollowsBrackets(es: seq<Event>, p: nat)
    requires p < |es| && es[p].Opened?
    ensures EntryIndex(es, p) < |Log(es)|
    ensures MatchesBrackets(Log(es)[EntryIndex(es, p)], es, p)
    ensures Surplus(es, p)
  {
    hide CloseNewest, Log, ActiveFrom, MatchesBrackets;
    EntryExists(es, p);
    var n := |es| - 1;
    if p == n {
      NewestEntry(es);
    } else {
      var before := es[..n];
      SumsOfPrefix(es, n, 0, p);
      LogLength(before);
      LogFollowsBrackets(before, p);
      SumsOfPrefix(es, n, p + 1, n);
      var log, i := Log(before), EntryIndex(before, p);
      var c := log[i];
      LogStepAt(es, i);
      assert c.active ==> (Unbalanced(es, p, |es|) <==> es[n].Closed? && ActiveFrom(log, i + 1) == 0);
      BracketsStep(c, es, p);
    }
  }

  /** One event seen from entry `i` of the log. */
  lemma LogStepAt(es: seq<Event>, i: nat)
    requires es != []
    requires i < |Log(es[..|es| - 1])|
    ensures var e, log := es[|es| - 1], Log(es[..|es| - 1]);
            |log| <= |Log(es)| &&
            Log(es)[i] == (if e.Closed? && log[i].active && ActiveFrom(log, i + 1) == 0
                           then log[i].(active := false, closedAt := Some(e.at)) else log[i]) &&
            ActiveFrom(Log(es), i + 1) ==
              match e
              case Opened(_, _) => ActiveFrom(log, i + 1) + 1
              case Closed(_) => if ActiveFrom(log, i + 1) == 0 then 0 else ActiveFrom(log, i + 1) - 1
              case Unrelated => ActiveFrom(log, i + 1)
  {
    var e, log := es[|es| - 1], Log(es[..|es| - 1]);
    match e
    case Opened(_, _) => assert Log(es)[..|log|] == log;
    case Closed(at) =>
      CloseNewestAt(log, i, at);
      CloseNewestCount(log, i + 1, at);
    case Unrelated =>
  }

  /** Main result: the list the cache serves shows exactly the opens that are among
      the newest fifty, each with the status bracket matching gives it. */
  lemma ListFollowsBrackets(es: seq<Event>, p: nat)
    requires p < |es| && es[p].Opened?
    requires Opens(es, 0, |es|) - EntryIndex(es, p) <= KEPT
    ensures var k := EntryIndex(es, p) - Opens(es, 0, |es|) + |List(es)|;
            0 <= k < |List(es)| && MatchesBrackets(List(es)[k], es, p)
  {
    hide MatchesBrackets, Surplus, List, Log, Opens;
    LogLength(es);
    LogFollowsBrackets(es, p);
    BoundedListRefinesTheLog(es);
  }

  // ------------------------------------------------------- how many are active

  /** The largest surplus of closes over opens in any prefix. */
  ghost function Deficit(es: seq<Event>): nat {
    if es == [] then 0
    else
      var n := |es|;
      var before, surplus := Deficit(es[..n - 1]), Closes(es, 0, n) - Opens(es, 0, n);
      if surplus > before then surplus else before
  }

  lemma {:induction false} DeficitIsLargest(es: seq<Event>)
    ensures forall q :: 0 <= q <= |es| ==> Closes(es, 0, q) - Opens(es, 0, q) <= Deficit(es)
    ensures exists q :: 0 <= q <= |es| && Closes(es, 0, q) - Opens(es, 0, q) == Deficit(es)
  {
    if es == [] {
      assert Closes(es, 0, 0) - Opens(es, 0, 0) == 0;
    } else {
      var n := |es| - 1;
      DeficitIsLargest(es[..n]);
      forall q | 0 <= q <= n
        ensures Closes(es[..n], 0, q) - Opens(es[..n], 0, q) == Closes(es, 0, q) - Opens(es, 0, q)
      {
        SumsOfPrefix(es, n, 0, q);
      }
      var q :| 0 <= q <= n && Closes(es[..n], 0, q) - Opens(es[..n], 0, q) == Deficit(es[..n]);
      assert Closes(es, 0, q) - Opens(es, 0, q) == Deficit(es[..n]);
    }
  }

  lemma LogSnoc(es: seq<Event>, e: Event)
    ensures Log(es + [e]) ==
            if e.Opened? then Log(es) + [Connection(e.source, e.at, None, true)]
            else if e.Closed? then CloseNewest(Log(es), e.at)
            else Log(es)
  {
    hide CloseNewest;
    assert (es + [e])[..|es|] == es;
  }

  lemma ActiveSnoc(log: seq<Connection>, c: Connection, i: nat)
    requires i <= |log|
    ensures ActiveFrom(log + [c], i) == ActiveFrom(log, i) + if c.active then 1 else 0
  {
    assert (log + [c])[..|log|] == log;
  }

  /** One more event, counted from entry `i` on. */
  lemma CountAfter(es: seq<Event>, e: Event, i: nat)
    requires i <= |Log(es)|
    ensures |Log(es + [e])| == |Log(es)| + if e.Opened? then 1 else 0
    ensures var n := ActiveFrom(Log(es), i);
            ActiveFrom(Log(es + [e]), i) ==
            match e
            case Opened(_, _) => n + 1
            case Closed(_) => if n == 0 then 0 else n - 1
            case Unrelated => n
  {
    hide CloseNewest, Log, ActiveFrom;
    var log := Log(es);
    LogSnoc(es, e);
    match e
    case Opened(source, at) => ActiveSnoc(log, Connection(source, at, None, true), i);
    case Closed(at) => CloseNewestCount(log, i, at);
    case Unrelated =>
  }

  lemma SumsStep(es: seq<Event>, q: nat)
    requires q < |es|
    ensures Opens(es, 0, q + 1) == Opens(es, 0, q) + if es[q].Opened? then 1 else 0
    ensures Closes(es, 0, q + 1) == Closes(es, 0, q) + if es[q].Closed? then 1 else 0
  {
  }

  lemma DeficitStep(es: seq<Event>)
    requires es != []
    ensures Deficit(es) ==
            Max(Deficit(es[..|es| - 1]), Max(0, Closes(es, 0, |es|) - Opens(es, 0, |es|)))
  {
    hide Opens, Closes;
  }

  lemma BalanceStep(es: seq<Event>)
    requires es != []
    ensures var n := |es| - 1;
            var opens, closes := Opens(es[..n], 0, n), Closes(es[..n], 0, n);
            && Opens(es, 0, |es|) == opens + (if es[n].Opened? then 1 else 0)
            && Closes(es, 0, |es|) == closes + (if es[n].Closed? then 1 else 0)
            && Deficit(es) == Max(Deficit(es[..n]), Max(0, Closes(es, 0, |es|) - Opens(es, 0, |es|)))
  {
    hide Opens, Closes, Deficit;
    SumsStep(es, |es| - 1);
    DeficitStep(es);
    SumsOfPrefix(es, |es| - 1, 0, |es| - 1);
  }

  /** What further events do to the entries of the log from `i` on: they leave as many
      active as they open more than they close, on top of what was active or, if that
      is more, of what they closed in vain. */
  lemma {:induction false} ActiveAfter(es: seq<Event>, more: seq<Event>, i: nat)
    requires i <= |Log(es)|
    ensures |Log(es + more)| == |Log(es)| + Opens(more, 0, |more|)
    ensures ActiveFrom(Log(es + more), i) ==
            Opens(more, 0, |more|) - Closes(more, 0, |more|) + Max(ActiveFrom(Log(es), i), Deficit(more))
  {
    hide Log, ActiveFrom, Opens, Closes, Deficit;
    if more == [] {
      assert es + more == es;
      NothingCounted();
    } else {
      var n := |more| - 1;
      ActiveAfter(es, more[..n], i);
      BalanceStep(more);
      CountAfter(es + more[..n], more[n], i);
      assert es + more == es + more[..n] + [more[n]];
    }
  }

  lemma NothingCounted()
    ensures Opens([], 0, 0) == Closes([], 0, 0) == Deficit([]) == 0
  {
  }

  // ------------------------------------------------------- how many are shown as active

  /** The active entries of a list. */
  ghost function ActiveIn(list: seq<Connection>): nat {
    ActiveFrom(list, 0)
  }

  lemma NothingActive()
    ensures ActiveIn([]) == 0
  {
  }

  /** What is forgotten when only the newest `n` entries are kept. */
  function Forgotten<T>(list: seq<T>, n: nat): seq<T> {
    list[..|list| - |Newest(list, n)|]
  }

  lemma {:induction false} ActiveOfSuffix(log: seq<Connection>, k: nat)
    requires k <= |log|
    ensures ActiveFrom(log, k) == ActiveIn(log[k..])
    ensures ActiveIn(log) == ActiveIn(log[..k]) + ActiveIn(log[k..])
  {
    if k == |log| {
      assert log[..k] == log && log[k..] == [];
    } else {
      var n := |log| - 1;
      ActiveOfSuffix(log[..n], k);
      assert log[..n][..k] == log[..k] && log[..n][k..] == log[k..][..n - k];
    }
  }

  lemma ActiveKept(list: seq<Connection>, n: nat)
    ensures ActiveIn(list) == ActiveIn(Forgotten(list, n)) + ActiveIn(Newest(list, n))
  {
    hide ActiveFrom;
    var k := |list| - |Newest(list, n)|;
    assert list[k..] == Newest(list, n);
    ActiveOfSuffix(list, k);
  }

  /** The served list after events that open at most fifty connections. */
  lemma ServedAfterFew(es: seq<Event>, more: seq<Event>)
    requires Opens(more, 0, |more|) <= KEPT
    ensures var opens, closes := Opens(more, 0, |more|), Closes(more, 0, |more|);
            ActiveIn(List(es + more)) ==
            opens - closes + Max(ActiveIn(Newest(List(es), KEPT - opens)), Deficit(more))
  {
    hide Log, List, ActiveFrom, Opens, Closes, Deficit;
    var before, after := Log(es), Log(es + more);
    ActiveAfter(es, more, 0);
    var k := if |after| > KEPT then |after| - KEPT else 0;
    ActiveAfter(es, more, k);
    BoundedListRefinesTheLog(es);
    BoundedListRefinesTheLog(es + more);
    ActiveOfSuffix(before, k);
    ActiveOfSuffix(after, k);
    assert List(es + more) == after[k..];
    assert Newest(List(es), KEPT - Opens(more, 0, |more|)) == before[k..];
  }

  /** The longest suffix of the events that opens at most `n` connections. */
  function Recent(es: seq<Event>, n: nat): (r: seq<Event>)
    ensures |r| <= |es| && r == es[|es| - |r|..]
  {
    if es == [] then []
    else
      var front, last := es[..|es| - 1], es[|es| - 1];
      if !last.Opened? then Recent(front, n) + [last]
      else if n == 0 then []
      else Recent(front, n - 1) + [last]
  }

  /** One more event, in the sums over a sequence. */
  lemma OneMoreCounted(r: seq<Event>, e: Event)
    ensures var s := r + [e];
            && Opens(s, 0, |s|) == Opens(r, 0, |r|) + (if e.Opened? then 1 else 0)
            && Closes(s, 0, |s|) == Closes(r, 0, |r|) + (if e.Closed? then 1 else 0)
            && Deficit(s) == Max(Deficit(r), Max(0, Closes(s, 0, |s|) - Opens(s, 0, |s|)))
  {
    hide Opens, Closes, Deficit;
    BalanceStep(r + [e]);
    assert (r + [e])[..|r|] == r;
  }

  lemma RecentStep(front: seq<Event>, last: Event, n: nat)
    ensures Recent(front + [last], n) ==
            if !last.Opened? then Recent(front, n) + [last]
            else if n == 0 then []
            else Recent(front, n - 1) + [last]
  {
    assert (front + [last])[..|front|] == front;
  }

  lemma NothingRecent(n: nat)
    ensures Recent([], n) == []
  {
  }

  lemma {:induction false} RecentOpens(es: seq<Event>, n: nat)
    ensures var r := Recent(es, n); Opens(r, 0, |r|) <= n && (r != es ==> Opens(r, 0, |r|) == n)
    ensures Opens(es, 0, |es|) <= n ==> Recent(es, n) == es
  {
    hide Opens, Closes, Deficit, Recent;
    NothingCounted();
    if es == [] {
      NothingRecent(n);
    } else {
      var front, last := es[..|es| - 1], es[|es| - 1];
      assert es == front + [last];
      OneMoreCounted(front, last);
      RecentStep(front, last, n);
      if last.Opened? && n == 0 {
      } else {
        var m := if last.Opened? then n - 1 else n;
        RecentOpens(front, m);
        OneMoreCounted(Recent(front, m), last);
      }
    }
  }

  /** Main result: after any events, any further events leave as many entries of the
      served list active as the recent ones among them, those that open at most fifty,
      open more than they close, on top of what was active among the entries they leave
      in the list or, if that is more, of what they closed in vain. */
  lemma ServedAfter(es: seq<Event>, more: seq<Event>)
    ensures var recent := Recent(more, KEPT);
            var opens, closes := Opens(recent, 0, |recent|), Closes(recent, 0, |recent|);
            && opens <= KEPT
            && ActiveIn(List(es + more)) ==
               opens - closes + Max(ActiveIn(Newest(List(es), KEPT - opens)), Deficit(recent))
  {
    hide List, ActiveFrom, Opens, Closes, Deficit, Recent;
    var recent := Recent(more, KEPT);
    var early := more[..|more| - |recent|];
    RecentOpens(more, KEPT);
    assert es + more == es + early + recent;
    ServedAfterFew(es + early, recent);
    if recent == more {
      assert es + early == es;
    }
  }

  // ------------------------------------------------------- a full list

  /** `n` connections opened one after the other. */
  function Opening(n: nat, source: string, at: int): seq<Event> {
    if n == 0 then [] else Opening(n - 1, source, at) + [Opened(source, at)]
  }

  lemma {:induction false} OpeningOpens(n: nat, source: string, at: int)
    ensures var es := Opening(n, source, at);
            |es| == n && Opens(es, 0, n) == n && Closes(es, 0, n) == 0 && Deficit(es) == 0
  {
    hide Opens, Closes, Deficit;
    NothingCounted();
    if n == 0 {
    } else {
      OpeningOpens(n - 1, source, at);
      var es := Opening(n, source, at);
      assert es[..n - 1] == Opening(n - 1, source, at);
      BalanceStep(es);
    }
  }

  lemma TwoEvents(d: Event, e: Event)
    requires d.Opened? && e.Closed?
    ensures Opens([d, e], 0, 2) == Closes([d, e], 0, 2) == 1 && Deficit([d, e]) == 0
  {
    hide Opens, Closes, Deficit;
    NothingCounted();
    assert [] + [d] == [d] && [d] + [e] == [d, e];
    OneMoreCounted([], d);
    OneMoreCounted([d], e);
  }

  /** An input on which an open and its close do not balance: the fifty-first open pushes
      an active entry out of the list, and the close takes back only its own. */
  lemma FullListLosesOne(source: string, at: int)
    ensures var es := Opening(KEPT, source, at);
            && |List(es)| == ActiveIn(List(es)) == KEPT
            && ActiveIn(List(es + [Opened(source, at), Closed(at)])) == KEPT - 1
  {
    hide List, ActiveFrom, Opens, Closes, Deficit, Opening;
    var es, more := Opening(KEPT, source, at), [Opened(source, at), Closed(at)];
    OpeningOpens(KEPT, source, at);
    BoundedListRefinesTheLog(es);
    assert [] + es == es;
    ServedAfterFew([], es);
    ActiveAtMost(List(es));
    TwoEvents(more[0], more[1]);
    ServedAfterFew(es, more);
    AllActive(List(es), KEPT - 1);
  }

  lemma {:induction false} ActiveAtMost(list: seq<Connection>)
    ensures ActiveIn(list) <= |list|
  {
    if list == [] {
    } else {
      ActiveAtMost(list[..|list| - 1]);
    }
  }

  lemma AllActive(list: seq<Connection>, n: nat)
    requires ActiveIn(list) == |list| && n <= |list|
    ensures ActiveIn(Newest(list, n)) == n
  {
    hide ActiveFrom;
    ActiveKept(list, n);
    ActiveAtMost(Newest(list, n));
    ActiveAtMost(Forgotten(list, n));
  }
}
