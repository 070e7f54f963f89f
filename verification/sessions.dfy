/** What the methods of captured sessions do to the connection list. */
module Sessions {
  import opened Wrappers
  import opened Bytes
  import opened Decoder
  import opened GoText
  import opened Engine
  import opened Methods
  import opened Topology
  import opened Sniffer
  import opened Frames
  import Connections

  /** What one method means for the connection list. */
  function Meaning(m: Timed, q: Quoter): Connections.Event {
    match EvaluateMethod(m.payload, q, m.at)
    case None => Connections.Unrelated
    case Some(f) => ConnectionEvent(RuleOf(f.ruleName), f.methodName, f.timestamp)
  }

  function Meanings(ms: seq<Timed>, q: Quoter): (es: seq<Connections.Event>)
    ensures |es| == |ms| && forall i :: 0 <= i < |ms| ==> es[i] == Meaning(ms[i], q)
  {
    seq(|ms|, i requires 0 <= i < |ms| => Meaning(ms[i], q))
  }

  // ------------------------------------------------------- names

  lemma {:induction false} LastElementOfName(name: string)
    requires '/' !in name
    ensures LastElement(name) == name
  {
    if name == "" {
    } else {
      assert name[|name| - 1] in name;
      LastElementOfName(name[..|name| - 1]);
    }
  }

  lemma LastElementEnds(p: string, c: char)
    ensures LastElement(p + [c]) == if c == '/' then "" else LastElement(p) + [c]
    ensures p == "" || p[|p| - 1] == '/' ==> LastElement(p) == ""
  {
    assert (p + [c])[..|p|] == p;
  }

  lemma {:induction false} LastElementOfPath(dir: string, name: string)
    requires dir == "" || dir[|dir| - 1] == '/'
    requires '/' !in name
    ensures LastElement(dir + name) == name
  {
    hide LastElement;
    if name == "" {
      LastElementEnds(dir, '/');
      assert dir + name == dir;
    } else {
      var front, c := name[..|name| - 1], name[|name| - 1];
      assert c in name;
      LastElementOfPath(dir, front);
      LastElementEnds(dir + front, c);
      assert name == front + [c];
      assert dir + name == dir + front + [c];
    }
  }

  predicate AllSlashes(s: string) {
    forall i :: 0 <= i < |s| ==> s[i] == '/'
  }

  lemma {:induction false} TrimSlashes(s: string, tail: string)
    requires AllSlashes(tail)
    ensures TrimRight(s + tail, {'/'}) == TrimRight(s, {'/'})
  {
    if tail == "" {
      assert s + tail == s;
    } else {
      var n := |tail| - 1;
      TrimSlashes(s, tail[..n]);
      assert (s + tail)[..|s| + n] == s + tail[..n];
    }
  }

  /** Main result, for every path: its base is the word between its last slashes, "/" if
      there are only slashes, and "." if there is nothing. */
  lemma BaseIs(dir: string, name: string, tail: string)
    requires dir == "" || dir[|dir| - 1] == '/'
    requires '/' !in name && AllSlashes(tail)
    ensures name != "" ==> Base(dir + name + tail) == name
    ensures tail != "" ==> Base(tail) == "/"
    ensures Base("") == "."
  {
    hide TrimRight;
    TrimSlashes(dir + name, tail);
    TrimSlashes("", tail);
    assert "" + tail == tail;
    TrimNothing("");
    if name != "" {
      assert name[|name| - 1] in name;
      assert (dir + name)[|dir + name| - 1] == name[|name| - 1];
      TrimNothing(dir + name);
      LastElementOfPath(dir, name);
    }
  }

  lemma TrimNothing(s: string)
    requires s == "" || s[|s| - 1] != '/'
    ensures TrimRight(s, {'/'}) == s
  {
  }

  /** The source label of a connection is the name of the method that opened it, for
      every method there is: filepath.Base finds nothing to strip. */
  lemma BaseOfMethodName(classID: uint16, methodID: uint16)
    ensures Base(MethodName(classID, methodID)) == MethodName(classID, methodID)
  {
    hide KnownMethod, Decimal;
    var name := MethodName(classID, methodID);
    assert name[|name| - 1] in name;
    LastElementOfName(name);
  }

  // ------------------------------------------------------- what counts

  /** Close reasons that the engine reports under a rule of their own. */
  predicate HasOwnRule(cc: Close) {
    var text := ToLower(cc.replyText);
    cc.replyCode == 403 || cc.replyCode == 501 ||
    (cc.replyCode == 320 && (Contains(text, "heartbeat") || Contains(text, "connection limit"))) ||
    (cc.replyCode == 406 && Contains(text, "delivery acknowledgement"))
  }

  predicate CountsAsOpen(m: MethodPayload) {
    m.classID == 10 && (m.methodID == 40 || m.methodID == 41)
  }

  predicate CountsAsClose(m: MethodPayload) {
    m.classID == 10 && m.methodID == 50 && (ParseClose(m.args).None? || !HasOwnRule(ParseClose(m.args).value))
  }

  /** Of all methods, connection.open and connection.open-ok count as opens, under
      their own names; a connection.close counts as one exactly when it has no more
      specific rule or cannot be parsed; nothing else counts. */
  lemma WhatCounts(m: Timed, q: Quoter)
    ensures Meaning(m, q) ==
            if CountsAsOpen(m.payload) then Connections.Opened(MethodName(10, m.payload.methodID), m.at)
            else if CountsAsClose(m.payload) then Connections.Closed(m.at)
            else Connections.Unrelated
  {
    hide EvaluateConnection, EvaluateChannel, EvaluateExchange, EvaluateQueue, EvaluateBasic, EvaluateTx,
      HasOwnRule, ParseClose, MethodName, RuleOf, Base;
    var mn := MethodName(m.payload.classID, m.payload.methodID);
    if m.payload.classID == 10 {
      ConnectionRules(m.payload, mn, m.at);
    }
    ChannelRules(m.payload, mn, m.at);
    DeclarationRules(m.payload, q, mn, m.at);
    DeliveryRules(m.payload, q, mn, m.at);
    BaseOfMethodName(m.payload.classID, m.payload.methodID);
  }

  /** Findings that the connection list ignores. */
  predicate Irrelevant(f: Option<Finding>) {
    f.Some? ==> RuleOf(f.value.ruleName) != ConnectionOpened && RuleOf(f.value.ruleName) != ConnectionClosed
  }

  /** Findings with a given effect on the connection list. */
  predicate Says(f: Option<Finding>, rule: Rule, mn: string, now: int) {
    f.Some? && RuleOf(f.value.ruleName) == rule && f.value.methodName == mn && f.value.timestamp == now
  }

  lemma CloseRule(cc: Close, mn: string, now: int)
    ensures Says(EvaluateConnectionClose(cc, mn, now), if HasOwnRule(cc) then Ignored else ConnectionClosed, mn, now)
  {
    hide Contains, ToLower;
  }

  lemma ConnectionRules(m: MethodPayload, mn: string, now: int)
    requires m.classID == 10
    ensures var f := EvaluateConnection(m, mn, now);
            if CountsAsOpen(m) then Says(f, ConnectionOpened, mn, now)
            else if CountsAsClose(m) then Says(f, ConnectionClosed, mn, now)
            else Irrelevant(f)
  {
    hide Contains, ToLower, ParseConnectionTune, ParseLeadingString, ParseClose, EvaluateConnectionClose;
    if m.methodID == 50 && ParseClose(m.args).Some? {
      CloseRule(ParseClose(m.args).value, mn, now);
    }
  }

  lemma ChannelRules(m: MethodPayload, mn: string, now: int)
    ensures Irrelevant(EvaluateChannel(m, mn, now))
  {
    hide Contains, ToLower, ParseClose, ParseChannelFlow;
  }

  lemma DeclarationRules(m: MethodPayload, q: Quoter, mn: string, now: int)
    ensures Irrelevant(EvaluateExchange(m, q, mn, now)) && Irrelevant(EvaluateQueue(m, q, mn, now))
  {
    hide QueueText, ExchangeText, ParseOneName, ParseTwoNames;
  }

  lemma DeliveryRules(m: MethodPayload, q: Quoter, mn: string, now: int)
    ensures Irrelevant(EvaluateBasic(m, q, mn, now)) && Irrelevant(EvaluateTx(m, mn, now))
  {
    hide ConsumerText, ParseTwoNames, ParseLeadingString, ParseBasicReturn;
  }

  // ------------------------------------------------------- when sessions balance

  function Count(ms: seq<Timed>, counts: MethodPayload -> bool): nat {
    if ms == [] then 0
    else
      var n := |ms| - 1;
      Count(ms[..n], counts) + if counts(ms[n].payload) then 1 else 0
  }

  lemma {:induction false} CountsAreBrackets(ms: seq<Timed>, q: Quoter, k: nat)
    requires k <= |ms|
    ensures Connections.Opens(Meanings(ms, q), 0, k) == Count(ms[..k], CountsAsOpen)
    ensures Connections.Closes(Meanings(ms, q), 0, k) == Count(ms[..k], CountsAsClose)
  {
    hide Meaning, CountsAsOpen, CountsAsClose;
    if k == 0 {
    } else {
      CountsAreBrackets(ms, q, k - 1);
      assert ms[..k][..k - 1] == ms[..k - 1];
      Counted(ms[k - 1], q);
    }
  }

  lemma Counted(m: Timed, q: Quoter)
    ensures Meaning(m, q).Opened? <==> CountsAsOpen(m.payload)
    ensures Meaning(m, q).Closed? <==> CountsAsClose(m.payload)
  {
    hide Meaning, HasOwnRule, ParseClose, MethodName;
    WhatCounts(m, q);
  }

  /** The number of connections shown as active after some events. */
  ghost function Shown(es: seq<Connections.Event>): nat {
    Connections.ActiveIn(Connections.List(es))
  }

  /** The active entries that `n` further opens push out of the list. */
  ghost function PushedOut(es: seq<Connections.Event>, n: nat): nat
    requires n <= Connections.KEPT
  {
    Connections.ActiveIn(Connections.Forgotten(Connections.List(es), Connections.KEPT - n))
  }

  /** The closes among the methods that find nothing to close, not even among the `kept`
      entries that were active before. */
  ghost function InVain(ms: seq<Timed>, q: Quoter, kept: int): nat {
    Max(0, Connections.Deficit(Meanings(ms, q)) - kept)
  }

  /** No prefix of the methods closes more than it opens. */
  ghost predicate NeverOverdrawn(ms: seq<Timed>) {
    forall k :: 0 <= k <= |ms| ==> Count(ms[..k], CountsAsClose) <= Count(ms[..k], CountsAsOpen)
  }

  lemma NeverOverdrawnIff(ms: seq<Timed>, q: Quoter)
    ensures NeverOverdrawn(ms) <==> Connections.Deficit(Meanings(ms, q)) == 0
  {
    hide Connections.Opens, Connections.Closes, Connections.Deficit, Count, CountsAsOpen, CountsAsClose, Meaning,
      Meanings;
    var es := Meanings(ms, q);
    Connections.DeficitIsLargest(es);
    var k :| 0 <= k <= |es| && Connections.Closes(es, 0, k) - Connections.Opens(es, 0, k) == Connections.Deficit(es);
    CountsAreBrackets(ms, q, k);
    CountsAreBrackets(ms, q, 0);
    if Connections.Deficit(es) == 0 {
      forall j | 0 <= j <= |ms|
        ensures Count(ms[..j], CountsAsClose) <= Count(ms[..j], CountsAsOpen)
      {
        CountsAreBrackets(ms, q, j);
      }
    }
  }

  /** The longest suffix of the methods with at most fifty opens that count. */
  function Recent(ms: seq<Timed>, q: Quoter): (r: seq<Timed>) {
    ms[|ms| - |Connections.Recent(Meanings(ms, q), Connections.KEPT)|..]
  }

  lemma RecentMethods(ms: seq<Timed>, q: Quoter)
    ensures Meanings(Recent(ms, q), q) == Connections.Recent(Meanings(ms, q), Connections.KEPT)
    ensures Count(Recent(ms, q), CountsAsOpen) <= Connections.KEPT
    ensures Recent(ms, q) != ms ==> Count(Recent(ms, q), CountsAsOpen) == Connections.KEPT
    ensures Count(ms, CountsAsOpen) <= Connections.KEPT ==> Recent(ms, q) == ms
  {
    hide Meaning, Connections.Opens, Connections.Closes, Connections.Recent, Count, CountsAsOpen, CountsAsClose;
    var es, recent := Meanings(ms, q), Recent(ms, q);
    Connections.RecentOpens(es, Connections.KEPT);
    assert Meanings(recent, q) == Connections.Recent(es, Connections.KEPT);
    CountsAreBrackets(recent, q, |recent|);
    assert recent[..|recent|] == recent;
    CountsAreBrackets(ms, q, |ms|);
    assert ms[..|ms|] == ms;
  }

  lemma NothingPushedOut(es: seq<Connections.Event>, n: nat)
    requires n <= Connections.KEPT
    ensures PushedOut(es, n) <= Shown(es)
    ensures |Connections.List(es)| + n <= Connections.KEPT ==> PushedOut(es, n) == 0
  {
    hide Connections.List, Connections.ActiveFrom;
    Connections.ActiveKept(Connections.List(es), Connections.KEPT - n);
    Connections.NothingActive();
  }

  lemma NothingInVain(ms: seq<Timed>, q: Quoter, kept: int)
    requires kept >= 0 && NeverOverdrawn(ms)
    ensures InVain(ms, q, kept) == 0
  {
    hide Connections.Deficit, NeverOverdrawn, Meanings, Meaning;
    NeverOverdrawnIff(ms, q);
  }

  lemma ShownAfterMethods(es: seq<Connections.Event>, ms: seq<Timed>, q: Quoter)
    ensures var recent := Recent(ms, q);
            var opens, closes := Count(recent, CountsAsOpen), Count(recent, CountsAsClose);
            opens <= Connections.KEPT &&
            var out := PushedOut(es, opens);
            Shown(es + Meanings(ms, q)) == Shown(es) - out + opens - closes + InVain(recent, q, Shown(es) - out)
  {
    hide Connections.List, Connections.Opens, Connections.Closes, Connections.Deficit, Connections.Recent,
      Connections.ActiveFrom, Connections.Newest, Connections.Forgotten, Count, CountsAsOpen, CountsAsClose, Meaning,
      Meanings, Recent;
    var recent := Recent(ms, q);
    RecentMethods(ms, q);
    CountsAreBrackets(recent, q, |recent|);
    assert recent[..|recent|] == recent;
    Connections.ServedAfter(es, Meanings(ms, q));
    Connections.ActiveKept(Connections.List(es), Connections.KEPT - Count(recent, CountsAsOpen));
  }

  /** Main result: after any events, what any methods do to the number of connections
      shown as active.  It stays as it was iff the recent closes that count and the
      active entries pushed out of the list are as many as the recent opens that count
      and the recent closes in vain; the recent methods are all of them unless more than
      fifty opens count. */
  lemma SessionsBalance(es: seq<Connections.Event>, ms: seq<Timed>, q: Quoter)
    ensures var recent := Recent(ms, q);
            var opens, closes := Count(recent, CountsAsOpen), Count(recent, CountsAsClose);
            && opens <= Connections.KEPT
            && (Count(ms, CountsAsOpen) <= Connections.KEPT ==> recent == ms)
            && var out := PushedOut(es, opens);
               var inVain := InVain(recent, q, Shown(es) - out);
               && Shown(es + Meanings(ms, q)) == Shown(es) - out + opens - closes + inVain
               && (Shown(es + Meanings(ms, q)) == Shown(es) <==> closes + out == opens + inVain)
               && (NeverOverdrawn(recent) ==> inVain == 0)
               && (|Connections.List(es)| + opens <= Connections.KEPT ==> out == 0)
  {
    hide Connections.List, Connections.Recent, Count, CountsAsOpen, CountsAsClose, Meaning, Meanings, Recent,
      NeverOverdrawn, Shown, PushedOut, InVain;
    var recent := Recent(ms, q);
    RecentMethods(ms, q);
    var opens := Count(recent, CountsAsOpen);
    NothingPushedOut(es, opens);
    if NeverOverdrawn(recent) {
      NothingInVain(recent, q, Shown(es) - PushedOut(es, opens));
    }
    ShownAfterMethods(es, ms, q);
  }

  // ------------------------------------------------------- sessions one by one

  /** Events that close nothing in vain. */
  lemma ShownAfter(es: seq<Connections.Event>, more: seq<Connections.Event>)
    requires Connections.Opens(more, 0, |more|) <= Connections.KEPT && Connections.Deficit(more) == 0
    ensures var opens := Connections.Opens(more, 0, |more|);
            && Shown(es + more) == Shown(es) - PushedOut(es, opens) + opens - Connections.Closes(more, 0, |more|)
            && (|Connections.List(es)| + opens <= Connections.KEPT ==> PushedOut(es, opens) == 0)
            && (opens == Connections.KEPT ==> PushedOut(es, opens) == Shown(es))
  {
    hide Connections.ActiveFrom, Connections.List, Connections.Opens, Connections.Closes, Connections.Deficit;
    Connections.ServedAfterFew(es, more);
    Connections.ActiveKept(Connections.List(es), Connections.KEPT - Connections.Opens(more, 0, |more|));
    Connections.NothingActive();
  }

  lemma CloseCodes(cc: Close)
    ensures cc.replyCode == 200 ==> !HasOwnRule(cc)
    ensures cc.replyCode in {403, 501} ==> HasOwnRule(cc)
  {
  }

  /** One session, as far as a direction of it was captured. */
  datatype Session = Session(open: Timed, openOk: Timed, close: Timed, closeOk: Timed)

  /** A session that ends with a close of its own. */
  predicate IsSession(s: Session, cc: Close) {
    && s.open.payload.classID == s.openOk.payload.classID == s.close.payload.classID == s.closeOk.payload.classID == 10
    && s.open.payload.methodID == 40 && s.openOk.payload.methodID == 41
    && s.close.payload.methodID == 50 && s.closeOk.payload.methodID == 51
    && ParseClose(s.close.payload.args) == Some(cc)
  }

  /** What the four methods of a session mean. */
  lemma SessionMeaning(s: Session, cc: Close, q: Quoter)
    requires IsSession(s, cc)
    ensures Meaning(s.open, q).Opened? && Meaning(s.openOk, q).Opened? && Meaning(s.closeOk, q).Unrelated?
    ensures if HasOwnRule(cc) then Meaning(s.close, q).Unrelated? else Meaning(s.close, q).Closed?
  {
    hide ParseClose, Meaning, HasOwnRule;
    Counted(s.open, q);
    Counted(s.openOk, q);
    Counted(s.close, q);
    Counted(s.closeOk, q);
  }

  /** Captured in both directions, a session adds one to the number of connections shown
      as active, because its open is counted twice, and two if its close has a rule of
      its own, because that close is not counted; captured in the direction of its open
      and close alone, it adds none, or one.  Active entries it pushes out of a full list
      are taken off.  A clean close, with code 200, has no rule of its own. */
  lemma OneSession(es: seq<Connections.Event>, s: Session, cc: Close, q: Quoter)
    requires IsSession(s, cc)
    ensures Shown(es + Meanings([s.open, s.openOk, s.close, s.closeOk], q)) ==
            Shown(es) - PushedOut(es, 2) + if HasOwnRule(cc) then 2 else 1
    ensures Shown(es + Meanings([s.open, s.close], q)) == Shown(es) - PushedOut(es, 1) + if HasOwnRule(cc) then 1 else 0
    ensures Shown(es + Meanings([s.openOk, s.closeOk], q)) == Shown(es) - PushedOut(es, 1) + 1
    ensures |Connections.List(es)| <= Connections.KEPT - 2 ==> PushedOut(es, 2) == PushedOut(es, 1) == 0
    ensures cc.replyCode == 200 ==> !HasOwnRule(cc)
    ensures cc.replyCode in {403, 501} ==> HasOwnRule(cc)
  {
    hide Connections.Opens, Connections.Closes, Connections.Deficit, Connections.List, Meaning, Shown, PushedOut,
      HasOwnRule;
    CloseCodes(cc);
    SessionMeaning(s, cc, q);
    var o, k, c, n := Meaning(s.open, q), Meaning(s.openOk, q), Meaning(s.close, q), Meaning(s.closeOk, q);
    assert Meanings([s.open, s.openOk, s.close, s.closeOk], q) == [] + [o] + [k] + [c] + [n];
    assert Meanings([s.open, s.close], q) == [] + [o] + [c];
    assert Meanings([s.openOk, s.closeOk], q) == [] + [k] + [n];
    Connections.NothingCounted();
    Connections.OneMoreCounted([], o);
    Connections.OneMoreCounted([] + [o], k);
    Connections.OneMoreCounted([] + [o] + [k], c);
    Connections.OneMoreCounted([] + [o] + [k] + [c], n);
    Connections.OneMoreCounted([] + [o], c);
    Connections.OneMoreCounted([], k);
    Connections.OneMoreCounted([] + [k], n);
    ShownAfter(es, [] + [o] + [k] + [c] + [n]);
    ShownAfter(es, [] + [o] + [c]);
    ShownAfter(es, [] + [k] + [n]);
  }

  /** The methods of sessions captured in both directions, one after the other. */
  function MethodsOfAll(ss: seq<Session>): seq<Timed> {
    if ss == [] then []
    else
      var s := ss[|ss| - 1];
      MethodsOfAll(ss[..|ss| - 1]) + [s.open, s.openOk, s.close, s.closeOk]
  }

  /** Sessions whose closes have no rule of their own. */
  ghost predicate AllClean(ss: seq<Session>) {
    forall i :: 0 <= i < |ss| ==> IsClean(ss[i])
  }

  ghost predicate IsClean(s: Session) {
    exists cc :: IsSession(s, cc) && !HasOwnRule(cc)
  }

  lemma {:induction false} CleanSums(ss: seq<Session>, q: Quoter)
    requires AllClean(ss)
    ensures var es := Meanings(MethodsOfAll(ss), q);
            Connections.Opens(es, 0, |es|) == 2 * |ss| && Connections.Closes(es, 0, |es|) == |ss| &&
            Connections.Deficit(es) == 0
  {
    hide Connections.Opens, Connections.Closes, Connections.Deficit, Meaning, IsClean;
    Connections.NothingCounted();
    if ss == [] {
    } else {
      var front, s := ss[..|ss| - 1], ss[|ss| - 1];
      CleanSums(front, q);
      CleanMeaning(s, q);
      var es := Meanings(MethodsOfAll(front), q);
      var o, k, c, n := Meaning(s.open, q), Meaning(s.openOk, q), Meaning(s.close, q), Meaning(s.closeOk, q);
      assert Meanings(MethodsOfAll(ss), q) == es + [o] + [k] + [c] + [n];
      Connections.OneMoreCounted(es, o);
      Connections.OneMoreCounted(es + [o], k);
      Connections.OneMoreCounted(es + [o] + [k], c);
      Connections.OneMoreCounted(es + [o] + [k] + [c], n);
    }
  }

  lemma CleanMeaning(s: Session, q: Quoter)
    requires IsClean(s)
    ensures Meaning(s.open, q).Opened? && Meaning(s.openOk, q).Opened?
    ensures Meaning(s.close, q).Closed? && Meaning(s.closeOk, q).Unrelated?
  {
    hide Meaning, IsSession, HasOwnRule;
    var cc :| IsSession(s, cc) && !HasOwnRule(cc);
    SessionMeaning(s, cc, q);
  }

  lemma NoMethods()
    ensures MethodsOfAll([]) == []
  {
  }

  lemma OneMoreSession(ss: seq<Session>, s: Session)
    ensures MethodsOfAll(ss + [s]) == MethodsOfAll(ss) + [s.open, s.openOk, s.close, s.closeOk]
  {
    assert (ss + [s])[..|ss|] == ss;
  }

  lemma {:induction false} MethodsOfAllConcat(ss: seq<Session>, tt: seq<Session>)
    ensures MethodsOfAll(ss + tt) == MethodsOfAll(ss) + MethodsOfAll(tt)
  {
    hide MethodsOfAll;
    if tt == [] {
      NoMethods();
      assert ss + tt == ss && MethodsOfAll(ss) + [] == MethodsOfAll(ss);
    } else {
      var front, last := tt[..|tt| - 1], tt[|tt| - 1];
      assert tt == front + [last];
      MethodsOfAllConcat(ss, front);
      OneMoreSession(front, last);
      assert ss + tt == ss + front + [last];
      OneMoreSession(ss + front, last);
      Associative(MethodsOfAll(ss), MethodsOfAll(front), [last.open, last.openOk, last.close, last.closeOk]);
    }
  }

  lemma MeaningsConcat(es: seq<Connections.Event>, ms: seq<Timed>, ns: seq<Timed>, q: Quoter)
    ensures es + Meanings(ms + ns, q) == es + Meanings(ms, q) + Meanings(ns, q)
  {
    hide Meaning;
    assert Meanings(ms + ns, q) == Meanings(ms, q) + Meanings(ns, q);
  }

  lemma FewCleanSessions(es: seq<Connections.Event>, ss: seq<Session>, q: Quoter)
    requires AllClean(ss) && |ss| <= 25
    ensures Shown(es + Meanings(MethodsOfAll(ss), q)) == Shown(es) - PushedOut(es, 2 * |ss|) + |ss|
    ensures |ss| == 25 ==> Shown(es + Meanings(MethodsOfAll(ss), q)) == 25
  {
    hide Connections.Opens, Connections.Closes, Connections.Deficit, Connections.List, Meaning, Meanings, Shown,
      PushedOut, MethodsOfAll, AllClean;
    CleanSums(ss, q);
    ShownAfter(es, Meanings(MethodsOfAll(ss), q));
  }

  lemma CleanSuffix(ss: seq<Session>, k: nat)
    requires AllClean(ss) && k <= |ss|
    ensures AllClean(ss[k..])
  {
    hide IsClean;
  }

  /** The last twenty-five sessions decide. */
  lemma LateCleanSessions(es: seq<Connections.Event>, early: seq<Session>, late: seq<Session>, q: Quoter)
    requires AllClean(late) && |late| == 25
    ensures Shown(es + Meanings(MethodsOfAll(early + late), q)) == 25
  {
    hide Meaning, Meanings, Shown, PushedOut, MethodsOfAll, AllClean;
    MethodsOfAllConcat(early, late);
    MeaningsConcat(es, MethodsOfAll(early), MethodsOfAll(late), q);
    FewCleanSessions(es + Meanings(MethodsOfAll(early), q), late, q);
  }

  /** Main result: clean sessions captured in both directions leave one active entry
      each, until there are twenty-five: from then on exactly twenty-five connections
      are shown as active, whatever happened before and however many more sessions
      follow. */
  lemma CleanSessionsSaturate(es: seq<Connections.Event>, ss: seq<Session>, q: Quoter)
    requires AllClean(ss)
    ensures |ss| <= 25 ==> Shown(es + Meanings(MethodsOfAll(ss), q)) == Shown(es) - PushedOut(es, 2 * |ss|) + |ss|
    ensures |ss| >= 25 ==> Shown(es + Meanings(MethodsOfAll(ss), q)) == 25
  {
    hide Meaning, Meanings, Shown, PushedOut, MethodsOfAll, AllClean;
    if |ss| <= 25 {
      FewCleanSessions(es, ss, q);
    } else {
      var early, late := ss[..|ss| - 25], ss[|ss| - 25..];
      assert ss == early + late;
      CleanSuffix(ss, |ss| - 25);
      LateCleanSessions(es, early, late, q);
    }
  }
}
