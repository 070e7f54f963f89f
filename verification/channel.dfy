/** The text channel between the rule engine and the topology cache: the engine
    prints flags, exchange types and consumer tags into a message, the control
    plane finds them again by substring search.  The lemmas say exactly which
    names survive. */
module TextChannel {
  import opened Wrappers
  import opened Bytes
  import opened Alerts
  import opened Decoder
  import opened GoText
  import opened Engine
  import opened Topology

  // ------------------------------------------------------- quoted names

  /** All that is assumed of %q in general: a quoted name stands between quotes. */
  predicate Delimited(t: string) {
    |t| >= 2 && t[0] == '"' && t[|t| - 1] == '"'
  }

  function Inner(t: string): string
    requires Delimited(t)
  {
    t[1..|t| - 1]
  }

  /** The name needs no escapes: %q prints it as it is, between quotes. */
  predicate Plain(q: Quoter, name: string) {
    q(name) == "\"" + name + "\"" && '"' !in name
  }

  lemma PlainIsDelimited(q: Quoter, name: string)
    requires Plain(q, name)
    ensures Delimited(q(name)) && Inner(q(name)) == name
  {
  }

  /** A pattern without quotes occurs in a text around a quoted name iff it occurs
      before, inside or after the name. */
  lemma AroundQuoted(before: string, t: string, after: string, sub: string)
    requires Delimited(t) && '"' !in sub && sub != ""
    ensures Contains(before + t + after, sub) <==>
            Contains(before, sub) || Contains(Inner(t), sub) || Contains(after, sub)
  {
    var inner := Inner(t);
    ContainsAcross(before, '"', inner, sub);
    ContainsAcross(before + ['"'] + inner, '"', after, sub);
    assert before + t + after == before + ['"'] + inner + ['"'] + after;
  }

  lemma InsideQuoted(t: string, sub: string)
    requires Delimited(t) && '"' !in sub && sub != ""
    ensures Contains(t, sub) <==> Contains(Inner(t), sub)
  {
    AroundQuoted("", t, "", sub);
    assert "" + t + "" == t;
  }

  // ------------------------------------------------------- queue flags

  /** Words between blanks, with a full stop at the end. */
  lemma ThreeWords(d: string, x: string, a: string, sub: string)
    requires sub != "" && ' ' !in sub && '.' !in sub
    ensures Contains(" " + (d + " " + x + " " + a) + ".", sub) <==>
            Contains(d, sub) || Contains(x, sub) || Contains(a, sub)
  {
    hide Contains;
    var text := d + " " + x + " " + a;
    assert Contains(text, sub) <==> Contains(d, sub) || Contains(x, sub) || Contains(a, sub) by {
      ContainsAcross(d, ' ', x, sub);
      ContainsAcross(d + [' '] + x, ' ', a, sub);
    }
    ContainsAfter(" ", text, sub);
    ContainsAcross(" " + text, '.', "", sub);
    assert " " + text + ['.'] + "" == " " + text + ".";
    ContainsNothing(sub);
  }

  lemma ContainsNothing(sub: string)
    requires sub != ""
    ensures !Contains("", sub)
  {
  }

  /** Each marker is found in the flag words iff its own flag is set. */
  lemma FlagsAreSaid(durable: bool, exclusive: bool, autoDelete: bool)
    ensures var text := " " + FlagText(durable, exclusive, autoDelete) + ".";
            && (Contains(text, DURABLE) <==> durable)
            && (Contains(text, EXCLUSIVE) <==> exclusive)
            && (Contains(text, AUTO_DELETE) <==> autoDelete)
  {
    hide Contains, ShowBool;
    var d, x := "durable=" + ShowBool(durable), "exclusive=" + ShowBool(exclusive);
    var a := "auto-delete=" + ShowBool(autoDelete);
    ThreeWords(d, x, a, DURABLE);
    ThreeWords(d, x, a, EXCLUSIVE);
    ThreeWords(d, x, a, AUTO_DELETE);
    DurableWords(durable, exclusive, autoDelete);
    ExclusiveWords(durable, exclusive, autoDelete);
    AutoDeleteWords(durable, exclusive, autoDelete);
  }

  lemma DurableWords(durable: bool, exclusive: bool, autoDelete: bool)
    ensures Contains("durable=" + ShowBool(durable), DURABLE) <==> durable
    ensures !Contains("exclusive=" + ShowBool(exclusive), DURABLE)
    ensures !Contains("auto-delete=" + ShowBool(autoDelete), DURABLE)
  {
    hide Contains;
    if durable {
      assert OccursAt("durable=" + ShowBool(durable), DURABLE, 0);
    } else {
      MissingChar("durable=" + ShowBool(durable), DURABLE, 8);
    }
    MissingChar("exclusive=" + ShowBool(exclusive), DURABLE, 0);
    MissingChar("auto-delete=" + ShowBool(autoDelete), DURABLE, 4);
  }

  lemma ExclusiveWords(durable: bool, exclusive: bool, autoDelete: bool)
    ensures !Contains("durable=" + ShowBool(durable), EXCLUSIVE)
    ensures Contains("exclusive=" + ShowBool(exclusive), EXCLUSIVE) <==> exclusive
    ensures !Contains("auto-delete=" + ShowBool(autoDelete), EXCLUSIVE)
  {
    hide Contains;
    MissingChar("durable=" + ShowBool(durable), EXCLUSIVE, 1);
    if exclusive {
      assert OccursAt("exclusive=" + ShowBool(exclusive), EXCLUSIVE, 0);
    } else {
      MissingChar("exclusive=" + ShowBool(exclusive), EXCLUSIVE, 10);
    }
    MissingChar("auto-delete=" + ShowBool(autoDelete), EXCLUSIVE, 1);
  }

  lemma AutoDeleteWords(durable: bool, exclusive: bool, autoDelete: bool)
    ensures !Contains("durable=" + ShowBool(durable), AUTO_DELETE)
    ensures !Contains("exclusive=" + ShowBool(exclusive), AUTO_DELETE)
    ensures Contains("auto-delete=" + ShowBool(autoDelete), AUTO_DELETE) <==> autoDelete
  {
    hide Contains;
    MissingChar("durable=" + ShowBool(durable), AUTO_DELETE, 4);
    MissingChar("exclusive=" + ShowBool(exclusive), AUTO_DELETE, 4);
    if autoDelete {
      assert OccursAt("auto-delete=" + ShowBool(autoDelete), AUTO_DELETE, 0);
    } else {
      MissingChar("auto-delete=" + ShowBool(autoDelete), AUTO_DELETE, 13);
    }
  }

  /** Main result, for every name: what the cache reads out of a queue declaration
      is the declared flag, or the marker standing in the quoted name itself. */
  lemma QueueFlagsRead(q: Quoter, qd: QueueDeclare)
    requires Delimited(q(qd.queue))
    ensures var text, t := QueueText(q, qd), q(qd.queue);
            && (Contains(text, DURABLE) <==> (!qd.passive && qd.durable) || Contains(t, DURABLE))
            && (Contains(text, EXCLUSIVE) <==> (!qd.passive && qd.exclusive) || Contains(t, EXCLUSIVE))
            && (Contains(text, AUTO_DELETE) <==> (!qd.passive && qd.autoDelete) || Contains(t, AUTO_DELETE))
  {
    hide Contains, FlagText;
    var t := q(qd.queue);
    InsideQuoted(t, DURABLE);
    InsideQuoted(t, EXCLUSIVE);
    InsideQuoted(t, AUTO_DELETE);
    if qd.passive {
      SilentAfter("Queue existence check", " (passive declare): name=");
      AroundName("Queue existence check" + " (passive declare): name=", t, ".");
      HeadsAreSilent(".");
    } else {
      AroundName("Queue declared: name=", t, " " + FlagText(qd.durable, qd.exclusive, qd.autoDelete) + ".");
      FlagsAreSaid(qd.durable, qd.exclusive, qd.autoDelete);
    }
  }

  lemma SilentAfter(a: string, b: string)
    requires '=' !in a && SilentHead(b)
    ensures SilentHead(a + b)
  {
    forall i | 0 <= i < |a + b| - 1
      ensures (a + b)[i] != '='
    {
      assert i < |a| ==> (a + b)[i] in a;
      assert i >= |a| ==> (a + b)[i] == b[i - |a|];
    }
  }

  lemma AroundName(head: string, t: string, tail: string)
    requires Delimited(t) && SilentHead(head)
    ensures Contains(head + t + tail, DURABLE) <==> Contains(Inner(t), DURABLE) || Contains(tail, DURABLE)
    ensures Contains(head + t + tail, EXCLUSIVE) <==> Contains(Inner(t), EXCLUSIVE) || Contains(tail, EXCLUSIVE)
    ensures Contains(head + t + tail, AUTO_DELETE) <==> Contains(Inner(t), AUTO_DELETE) || Contains(tail, AUTO_DELETE)
  {
    hide Contains, SilentHead;
    HeadsAreSilent(head);
    AroundQuoted(head, t, tail, DURABLE);
    AroundQuoted(head, t, tail, EXCLUSIVE);
    AroundQuoted(head, t, tail, AUTO_DELETE);
  }

  /** An equals sign, if any, ends the text; so nothing in it reads as a marker. */
  predicate SilentHead(head: string) {
    forall i :: 0 <= i < |head| - 1 ==> head[i] != '='
  }

  lemma HeadsAreSilent(head: string)
    requires SilentHead(head)
    ensures !Contains(head, DURABLE) && !Contains(head, EXCLUSIVE) && !Contains(head, AUTO_DELETE)
  {
    if head != "" {
      var n := |head| - 1;
      assert head == head[..n] + [head[n]];
      if head[n] == '=' {
        MissingBeforeLast(head[..n], '=', DURABLE, 7);
        MissingBeforeLast(head[..n], '=', EXCLUSIVE, 9);
        MissingBeforeLast(head[..n], '=', AUTO_DELETE, 11);
      } else {
        MissingChar(head, DURABLE, 7);
        MissingChar(head, EXCLUSIVE, 9);
        MissingChar(head, AUTO_DELETE, 11);
      }
    }
  }

  // ------------------------------------------------------- from the wire to the cache

  /** The alert the control plane receives for a finding. */
  function AsAlert(f: Finding, tenantID: string): Alert {
    Alert(tenantID, match f.severity case Info => "info" case Warn => "warn" case Error => "error",
          f.ruleID, f.ruleName, f.methodName, f.entity, if f.layman.Some? then f.layman.value else "", f.timestamp)
  }

  /** One method, evaluated at `now`, from its bytes to a tenant's state. */
  function Observe(t: Topo, m: MethodPayload, q: Quoter, now: int): Topo {
    match EvaluateMethod(m, q, now)
    case None => t
    case Some(f) => Apply(t, AsAlert(f, ""), now)
  }

  lemma ObserveQueueDeclare(t: Topo, args: seq<byte>, q: Quoter, now: int)
    requires ParseQueueDeclare(args).Some? && ParseQueueDeclare(args).value.queue != ""
    ensures var qd := ParseQueueDeclare(args).value;
            Observe(t, MethodPayload(40, 10, args), q, now) ==
            DeclareQueue(t.(lastUpdated := now), qd.queue, QueueText(q, qd), now)
  {
    hide ParseQueueDeclare, QueueText, DeclareQueue;
  }

  lemma ObserveExchangeDeclare(t: Topo, args: seq<byte>, q: Quoter, now: int)
    requires ParseExchangeDeclare(args).Some? && ParseExchangeDeclare(args).value.exchange != ""
    ensures var ed := ParseExchangeDeclare(args).value;
            Observe(t, MethodPayload(30, 10, args), q, now) ==
            DeclareExchange(t.(lastUpdated := now), ed.exchange, ExchangeText(q, ed), now)
  {
    hide ParseExchangeDeclare, ExchangeText, DeclareExchange;
  }

  lemma ObserveConsume(t: Topo, args: seq<byte>, q: Quoter, now: int)
    requires ParseBasicConsume(args).Some?
    ensures var bc := ParseBasicConsume(args).value;
            Observe(t, MethodPayload(60, 20, args), q, now) ==
            RegisterConsumer(t.(lastUpdated := now), bc.queue, ConsumerText(q, bc), now)
  {
    hide ParseBasicConsume, ConsumerText, RegisterConsumer;
  }

  lemma ObserveCancel(t: Topo, args: seq<byte>, q: Quoter, now: int)
    requires ParseLeadingString(args).Some?
    ensures Observe(t, MethodPayload(60, 30, args), q, now) ==
            CancelConsumer(t.(lastUpdated := now), ParseLeadingString(args).value)
  {
    hide ParseLeadingString, CancelConsumer;
  }

  /** Every marker in the text belongs to a flag that is set. */
  predicate NoMarkerMisleads(text: string, durable: bool, exclusive: bool, autoDelete: bool) {
    (Contains(text, "durable=true") ==> durable) && (Contains(text, "exclusive=true") ==> exclusive) &&
    (Contains(text, "auto-delete=true") ==> autoDelete)
  }

  /** Main result: a non-passive queue.declare, encoded and followed by any bytes,
      adds exactly one queue to a state that does not show it.  Its flags are the
      declared ones iff no marker of an unset flag stands in the quoted name. */
  lemma QueueDeclareSurvives(t: Topo, q: Quoter, ticket: uint16, name: string, durable: bool,
                             exclusive: bool, autoDelete: bool, noWait: bool,
                             trailing: seq<byte>, now: int)
    requires Short(name) && name != "" && Delimited(q(name)) && name !in t.queues
    ensures var args := PutOneName(ticket, name, PutBits(false, durable, exclusive, autoDelete, noWait)) + trailing;
            var t' := Observe(t, MethodPayload(40, 10, args), q, now);
            && name in t'.queues
            && t' == t.(lastUpdated := now, queues := t.queues[name := t'.queues[name]])
            && (t'.queues[name] == Queue(name, durable, exclusive, autoDelete, now, now, true) <==>
                  NoMarkerMisleads(q(name), durable, exclusive, autoDelete))
            && (Plain(q, name) ==> (NoMarkerMisleads(q(name), durable, exclusive, autoDelete) <==>
                                      NoMarkerMisleads(name, durable, exclusive, autoDelete)))
  {
    hide Apply, EvaluateMethod, QueueText, ParseQueueDeclare, Contains, Observe;
    NamedMethodsRoundTrip(ticket, name, "", false, durable, exclusive, autoDelete, noWait, trailing);
    var args := PutOneName(ticket, name, PutBits(false, durable, exclusive, autoDelete, noWait)) + trailing;
    ObserveQueueDeclare(t, args, q, now);
    QueueFlagsRead(q, QueueDeclare(name, false, durable, exclusive, autoDelete));
    InsideQuoted(q(name), DURABLE);
    InsideQuoted(q(name), EXCLUSIVE);
    InsideQuoted(q(name), AUTO_DELETE);
  }

  /** A name for which the exactness fails: the marker in a transient queue's own
      name is read as its flag. */
  lemma MarkerInTheNameMisleads(q: Quoter, ticket: uint16, trailing: seq<byte>, now: int)
    requires Plain(q, "durable=true")
    ensures var name := "durable=true";
            var args := PutOneName(ticket, name, PutBits(false, false, false, false, false)) + trailing;
            var queues := Observe(EMPTY, MethodPayload(40, 10, args), q, now).queues;
            name in queues && queues[name].durable && !ParseQueueDeclare(args).value.durable
  {
    hide Apply, EvaluateMethod, QueueText, ParseQueueDeclare, Contains;
    NamedMethodsRoundTrip(ticket, DURABLE, "", false, false, false, false, false, trailing);
    var args := PutOneName(ticket, DURABLE, PutBits(false, false, false, false, false)) + trailing;
    ObserveQueueDeclare(EMPTY, args, q, now);
    QueueFlagsRead(q, QueueDeclare(DURABLE, false, false, false, false));
    InsideQuoted(q(DURABLE), DURABLE);
    ContainsItself(DURABLE);
  }

  lemma ContainsItself(s: string)
    ensures Contains(s, s)
  {
    assert OccursAt(s, s, 0);
  }

  // ------------------------------------------------------- reading up to a stop

  /** A text up to the first of some chars. */
  function UpTo(s: string, stops: set<char>): string {
    var end := IndexAny(s, stops);
    if end < 0 then s else s[..end]
  }

  /** What follows the first occurrence of a word. */
  function AfterFirst(s: string, word: string): string
    requires Contains(s, word)
  {
    s[Index(s, word) + |word|..]
  }

  lemma StopBehind(s: string, tail: string, stops: set<char>)
    requires tail != "" && tail[0] in stops
    ensures IndexAny(s + tail, stops) == |UpTo(s, stops)| && (s + tail)[..|UpTo(s, stops)|] == UpTo(s, stops)
  {
    var rest := s + tail;
    assert rest[|s|] == tail[0];
    assert forall i :: 0 <= i < |s| ==> rest[i] == s[i];
  }

  /** A word that a quoted name contains is first found there, when the text before
      holds none. */
  lemma FirstInName(head: string, t: string, after: string, word: string)
    requires Delimited(t) && '"' !in word && word != "" && !Contains(head, word) && Contains(t, word)
    ensures Contains(head + t + after, word)
    ensures AfterFirst(head + t + after, word) == AfterFirst(t, word) + after
  {
    var s, j := head + t + after, Index(t, word);
    assert s == head + (t + after);
    FirstInParts(head, t, after, word);
    IndexIs(s, word, |head| + j);
    assert s[|head| + j + |word|..] == t[j + |word|..] + after;
  }

  lemma FirstInParts(head: string, t: string, after: string, word: string)
    requires Delimited(t) && '"' !in word && word != "" && !Contains(head, word) && Contains(t, word)
    ensures var s, k := head + t + after, |head| + Index(t, word);
            OccursAt(s, word, k) && forall i :: 0 <= i < k ==> !OccursAt(s, word, i)
  {
    var s, j := head + t + after, Index(t, word);
    hide OccursAt, Index;
    assert s == head + (t + after);
    OccursShift(head, t + after, word, j);
    OccursPrefix(t, after, word, j);
    forall i | 0 <= i < |head| + j
      ensures !OccursAt(s, word, i)
    {
      if i + |word| <= |head| {
        OccursPrefix(head, t + after, word, i);
      } else if i < |head| {
        Mismatch(s, word, i, |head| - i);
      } else {
        OccursShift(head, t + after, word, i - |head|);
        OccursPrefix(t, after, word, i - |head|);
      }
    }
  }

  // ------------------------------------------------------- exchange types

  /** The searched word stands where it was printed, if it stands nowhere before,
      the char at `p` is none of its own and it cannot start after `p`. */
  lemma FirstMention(before: string, word: string, after: string, p: nat)
    requires word != "" && !Contains(before, word)
    requires p < |before| && before[p] !in word && forall i :: p < i < |before| ==> before[i] != word[0]
    ensures Index(before + word + after, word) == |before|
  {
    var s := before + word + after;
    assert OccursAt(s, word, |before|);
    forall j | 0 <= j < |before|
      ensures !OccursAt(s, word, j)
    {
      if j + |word| <= |before| {
        assert s[j..j + |word|] == before[j..j + |word|];
        assert !OccursAt(before, word, j);
      } else {
        assert s[j] == before[j] && s[p] == before[p];
        if j <= p {
          Mismatch(s, word, j, p - j);
        } else {
          Mismatch(s, word, j, 0);
        }
      }
    }
    IndexIs(s, word, |before|);
  }

  const TYPE_ENDS: set<char> := {' ', ',', '.'}

  predicate StopFree(kind: string) {
    ' ' !in kind && ',' !in kind && '.' !in kind
  }

  /** The type the cache reads from a declaration: the declared one, or what the quoted
      name says about a type, up to a blank, comma or full stop. */
  function TypeRead(q: Quoter, ed: ExchangeDeclare): string {
    var t := q(ed.exchange);
    UpTo(if Contains(t, "type=") then AfterFirst(t, "type=") else ed.kind, TYPE_ENDS)
  }

  lemma TypeIsFirstMentioned(q: Quoter, ed: ExchangeDeclare)
    requires Delimited(q(ed.exchange)) && !Contains(q(ed.exchange), "type=")
    ensures var before := "Exchange declared: name=" + q(ed.exchange) + " ";
            Index(ExchangeText(q, ed), "type=") == |before|
  {
    var t := q(ed.exchange);
    var head := "Exchange declared: name=";
    var before := head + t + " ";
    assert !Contains(before, "type=") by {
      hide Contains;
      InsideQuoted(t, "type=");
      MissingChar(head, "type=", 0);
      MissingChar(" ", "type=", 0);
      AroundQuoted(head, t, " ", "type=");
    }
    FirstMention(before, "type=", ed.kind + ExchangeTail(ed), |before| - 2);
  }

  /** What follows the first mention of the type. */
  lemma TypeRest(q: Quoter, ed: ExchangeDeclare)
    requires Delimited(q(ed.exchange)) && !Contains(q(ed.exchange), "type=")
    ensures var text := ExchangeText(q, ed);
            Index(text, "type=") >= 0 && text[Index(text, "type=") + 5..] == ed.kind + ExchangeTail(ed)
    ensures ExchangeTail(ed) != "" && ExchangeTail(ed)[0] in {' ', ',', '.'}
  {
    TypeIsFirstMentioned(q, ed);
    var before := "Exchange declared: name=" + q(ed.exchange) + " ";
    hide Contains, Index, ExchangeTail;
    assert ExchangeText(q, ed)[|before| + 5..] == ed.kind + ExchangeTail(ed);
  }

  /** Main result, for every name: what type the cache reads out of a declaration, if
      it reads one.  It is the declared one iff that is not empty and is what the name
      says, where the name says something, or else is free of blanks, commas and full
      stops. */
  lemma ExchangeTypeSurvives(q: Quoter, ed: ExchangeDeclare)
    requires Delimited(q(ed.exchange))
    ensures AnnouncedType(ExchangeText(q, ed)) == if TypeRead(q, ed) == "" then None else Some(TypeRead(q, ed))
    ensures AnnouncedType(ExchangeText(q, ed)) == Some(ed.kind) <==> ed.kind != "" && TypeRead(q, ed) == ed.kind
    ensures !Contains(q(ed.exchange), "type=") ==> (TypeRead(q, ed) == ed.kind <==> StopFree(ed.kind))
  {
    hide Contains, Index, IndexAny, UpTo, StopFree, ExchangeTail, ExchangeText;
    var t := q(ed.exchange);
    if Contains(t, "type=") {
      TypeInName(q, ed);
      var tail := " type=" + (ed.kind + ExchangeTail(ed));
      assert tail[0] == ' ';
      StopBehind(AfterFirst(t, "type="), tail, TYPE_ENDS);
    } else {
      TypeRest(q, ed);
      StopFreeIff(ed.kind);
      StopBehind(ed.kind, ExchangeTail(ed), TYPE_ENDS);
    }
  }

  lemma StopFreeIff(kind: string)
    ensures UpTo(kind, TYPE_ENDS) == kind <==> StopFree(kind)
  {
  }

  lemma ExchangeParts(q: Quoter, ed: ExchangeDeclare)
    ensures ExchangeText(q, ed) ==
            "Exchange declared: name=" + q(ed.exchange) + (" type=" + (ed.kind + ExchangeTail(ed)))
  {
    hide ExchangeTail;
  }

  lemma TypeInName(q: Quoter, ed: ExchangeDeclare)
    requires Delimited(q(ed.exchange)) && Contains(q(ed.exchange), "type=")
    ensures Contains(ExchangeText(q, ed), "type=")
    ensures AfterFirst(ExchangeText(q, ed), "type=") ==
            AfterFirst(q(ed.exchange), "type=") + (" type=" + (ed.kind + ExchangeTail(ed)))
  {
    hide Contains, Index, ExchangeTail;
    var t := q(ed.exchange);
    var head, after := "Exchange declared: name=", " type=" + (ed.kind + ExchangeTail(ed));
    MissingChar(head, "type=", 0);
    FirstInName(head, t, after, "type=");
    hide ExchangeText, AfterFirst;
    ExchangeParts(q, ed);
  }

  lemma DurableOutsideTail(s: string, ed: ExchangeDeclare)
    ensures Contains(s + ExchangeTail(ed), DURABLE) <==> Contains(s, DURABLE)
  {
    hide Contains;
    var s1 := s + (if ed.durable then " durable" else "");
    var s2 := s1 + (if ed.autoDelete then " auto-delete" else "");
    assert s + ExchangeTail(ed) == s2 + ['.'] + "";
    ContainsNothing(DURABLE);
    ContainsAcross(s2, '.', "", DURABLE);
    MissingChar("durable", DURABLE, 7);
    MissingChar("auto-delete", DURABLE, 7);
    ContainsAcross(s, ' ', "durable", DURABLE);
    ContainsAcross(s1, ' ', "auto-delete", DURABLE);
    assert s1 == if ed.durable then s + [' '] + "durable" else s;
    assert s2 == if ed.autoDelete then s1 + [' '] + "auto-delete" else s1;
  }

  /** Main result: the durable flag of an exchange does not survive.  The cache
      records durable exactly when the marker stands in the exchange's own name or
      type, whatever was declared; so, with such names aside, it is right iff the
      exchange is transient. */
  lemma ExchangeDurabilityIsLost(q: Quoter, ed: ExchangeDeclare)
    requires Delimited(q(ed.exchange))
    ensures var recorded := Contains(ExchangeText(q, ed), DURABLE);
            && (recorded <==> Contains(q(ed.exchange), DURABLE) || Contains(ed.kind, DURABLE))
            && (!Contains(q(ed.exchange), DURABLE) && !Contains(ed.kind, DURABLE) ==>
                  (recorded == ed.durable <==> !ed.durable))
  {
    hide Contains, ExchangeTail;
    var t := q(ed.exchange);
    var head := "Exchange declared: name=";
    var after := " type=" + (ed.kind + ExchangeTail(ed));
    assert ExchangeText(q, ed) == head + t + after;
    InsideQuoted(t, DURABLE);
    MissingChar(head, DURABLE, 8);
    AroundQuoted(head, t, after, DURABLE);
    ContainsAfter(" type=", ed.kind + ExchangeTail(ed), DURABLE);
    DurableOutsideTail(ed.kind, ed);
  }

  /** The declaration's durable marker, as the cache sees it: in the name or the type. */
  predicate DurableRead(q: Quoter, ed: ExchangeDeclare) {
    Contains(q(ed.exchange), "durable=true") || Contains(ed.kind, "durable=true")
  }

  /** An exchange.declare, from its bytes to a state that does not show the exchange:
      what is shown, for every name and type, and when it is what was declared. */
  lemma ExchangeDeclareSurvives(t: Topo, q: Quoter, ticket: uint16, name: string, kind: string,
                                passive: bool, durable: bool, autoDelete: bool,
                                trailing: seq<byte>, now: int)
    requires Short(name) && Short(kind) && name != "" && name !in t.exchanges && Delimited(q(name))
    ensures var args := PutTwoNames(ticket, name, kind, PutBits(passive, durable, autoDelete, false, false)) + trailing;
            var ed := ExchangeDeclare(name, kind, passive, durable, autoDelete);
            var shown := Exchange(name, TypeRead(q, ed), DurableRead(q, ed), now, true);
            && Observe(t, MethodPayload(30, 10, args), q, now) ==
               t.(lastUpdated := now, exchanges := t.exchanges[name := shown])
            && (shown == Exchange(name, kind, durable, now, true) <==>
                  TypeRead(q, ed) == kind && DurableRead(q, ed) == durable)
  {
    hide Apply, EvaluateMethod, ExchangeText, ParseExchangeDeclare, Contains, AnnouncedType, TypeRead, Observe;
    NamedMethodsRoundTrip(ticket, name, kind, passive, durable, autoDelete, false, false, trailing);
    var args := PutTwoNames(ticket, name, kind, PutBits(passive, durable, autoDelete, false, false)) + trailing;
    ObserveExchangeDeclare(t, args, q, now);
    var ed := ExchangeDeclare(name, kind, passive, durable, autoDelete);
    ExchangeTypeSurvives(q, ed);
    ExchangeDurabilityIsLost(q, ed);
  }

  // ------------------------------------------------------- deletions

  /** Main result: a queue.delete or exchange.delete, from its bytes to any cache,
      deactivates the entry of that name, if there is one, and changes no other. */
  lemma DeletionsDeactivate(t: Topo, q: Quoter, ticket: uint16, name: string, ifUnused: bool, ifEmpty: bool,
                            noWait: bool,
                            trailing: seq<byte>, now: int)
    requires Short(name)
    ensures var args := PutOneName(ticket, name, PutBits(ifUnused, ifEmpty, noWait, false, false)) + trailing;
            Observe(t, MethodPayload(40, 40, args), q, now) ==
            t.(lastUpdated := now,
               queues := if name in t.queues then t.queues[name := t.queues[name].(active := false)] else t.queues)
    ensures var args := PutOneName(ticket, name, PutBits(ifUnused, noWait, false, false, false)) + trailing;
            Observe(t, MethodPayload(30, 20, args), q, now) ==
            t.(lastUpdated := now,
               exchanges := if name in t.exchanges
                            then t.exchanges[name := t.exchanges[name].(active := false)] else t.exchanges)
  {
    hide Observe, PutOneName, PutBits;
    NamedMethodsRoundTrip(ticket, name, "", ifUnused, ifEmpty, noWait, false, false, trailing);
    NamedMethodsRoundTrip(ticket, name, "", ifUnused, noWait, false, false, false, trailing);
    var bits, bits' := PutBits(ifUnused, ifEmpty, noWait, false, false), PutBits(ifUnused, noWait, false, false, false);
    ObserveQueueDelete(t, PutOneName(ticket, name, bits) + trailing, q, now);
    ObserveExchangeDelete(t, PutOneName(ticket, name, bits') + trailing, q, now);
  }

  lemma ObserveQueueDelete(t: Topo, args: seq<byte>, q: Quoter, now: int)
    requires ParseQueueDelete(args).Some?
    ensures Observe(t, MethodPayload(40, 40, args), q, now) ==
            DeleteQueue(t.(lastUpdated := now), ParseQueueDelete(args).value.queue)
  {
    hide ParseQueueDelete, DeleteQueue;
  }

  lemma ObserveExchangeDelete(t: Topo, args: seq<byte>, q: Quoter, now: int)
    requires ParseExchangeDelete(args).Some?
    ensures Observe(t, MethodPayload(30, 20, args), q, now) ==
            DeleteExchange(t.(lastUpdated := now), ParseExchangeDelete(args).value.exchange)
  {
    hide ParseExchangeDelete, DeleteExchange;
  }
}
