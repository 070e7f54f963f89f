/** Consumer tags through the text channel, and what a cancellation does later. */
module ConsumerChannel {
  import opened Bytes
  import opened Decoder
  import opened GoText
  import opened Engine
  import opened Topology
  import opened TextChannel
  import opened TopologyHistory
  import Sections

  // ------------------------------------------------------- any text

  /** The text behind the first "tag=" up to a comma, or the end, without blanks around it;
      "" if nothing is said about a tag. */
  ghost predicate TagSaid(text: string, tag: string) {
    (tag == "" && forall i :: !OccursAt(text, "tag=", i)) ||
    exists i: nat, c: nat :: TagAt(text, i, c) && Sections.Trimmed(text[i + 4..c], tag)
  }

  /** The first "tag=" stands at `i`, and what is behind it ends at `c`. */
  ghost predicate TagAt(text: string, i: nat, c: nat) {
    && i + 4 <= c <= |text|
    && Sections.FirstAt(text, "tag=", i)
    && (c < |text| ==> text[c] == ',')
    && forall k :: i + 4 <= k < c ==> text[k] != ','
  }

  /** `r` is `s` without the quotes around it. */
  ghost predicate Unquoted(s: string, r: string) {
    exists i: nat, j: nat ::
      && i <= j <= |s|
      && r == s[i..j]
      && (forall k :: 0 <= k < i || j <= k < |s| ==> s[k] == '"')
      && (r != "" ==> r[0] != '"' && r[|r| - 1] != '"')
  }

  lemma TrimUnquotes(s: string)
    ensures Unquoted(s, Trim(s, {'"'}))
  {
    hide TrimLeft, TrimRight;
    TrimLeftStops(s, {'"'});
    var l := TrimLeft(s, {'"'});
    TrimRightStops(l, {'"'});
    var r := TrimRight(l, {'"'});
    var i, j := |s| - |l|, |s| - |l| + |r|;
    assert forall k :: 0 <= k < |l| ==> s[i + k] == l[k];
    assert r == s[i..j];
    forall k | 0 <= k < i || j <= k < |s|
      ensures s[k] == '"'
    {
      if k >= j {
        assert l[k - i] == s[k];
      }
    }
  }

  lemma CommaEnds(s: string)
    ensures var j := Index(s, ",");
            var c := if j < 0 then |s| else j;
            (c < |s| ==> s[c] == ',') && forall k :: 0 <= k < c ==> s[k] != ','
  {
    var j := Index(s, ",");
    var c := if j < 0 then |s| else j;
    forall k | 0 <= k < c
      ensures s[k] != ','
    {
      assert s[k..k + 1] == [s[k]];
      assert !OccursAt(s, ",", k);
    }
  }

  lemma TagIsSaid(text: string)
    ensures TagSaid(text, ExtractBetween(text, "tag=", ","))
  {
    hide TrimSpace, Sections.Trimmed;
    var i := Index(text, "tag=");
    if i >= 0 {
      var rest := text[i + 4..];
      var j := Index(rest, ",");
      var c := if j < 0 then |rest| else j;
      CommaEnds(rest);
      assert forall k :: 0 <= k < |rest| ==> text[i + 4 + k] == rest[k];
      assert TagAt(text, i, i + 4 + c) by {
        forall k | i + 4 <= k < i + 4 + c
          ensures text[k] != ','
        {
          assert text[k] == rest[k - i - 4];
        }
      }
      assert text[i + 4..i + 4 + c] == rest[..c] && rest[..|rest|] == rest;
      Sections.TrimSpaceIs(rest[..c]);
    }
  }

  /** Main result, for any text and entity: the key a registration is filed under is the tag
      the text tells, or a name made of the entity, without quotes around it. */
  lemma KeyIsTheTag(text: string, entity: string)
    ensures exists tag ::
              TagSaid(text, tag) &&
              Unquoted(if tag == "" then "consumer@" + entity else tag, ConsumerKey(text, entity))
  {
    hide ExtractBetween, Unquoted, TagSaid, Trim;
    var tag := ExtractBetween(text, "tag=", ",");
    TagIsSaid(text);
    TrimUnquotes(if tag == "" then "consumer@" + entity else tag);
  }

  // ------------------------------------------------------- the tag

  lemma TagIsFirstMentioned(q: Quoter, bc: BasicConsume)
    requires Delimited(q(bc.queue)) && !Contains(q(bc.queue), "tag=")
    ensures var text := ConsumerText(q, bc);
            Index(text, "tag=") >= 0 && text[Index(text, "tag=") + 4..] == q(bc.consumerTag) + ConsumerTail(bc)
  {
    hide Contains, Index, ConsumerTail;
    var t := q(bc.queue);
    var head := "Consumer registered" + " on queue ";
    var before := head + t + ", ";
    InsideQuoted(t, "tag=");
    MissingChar(head, "tag=", 3);
    MissingChar(", ", "tag=", 0);
    AroundQuoted(head, t, ", ", "tag=");
    assert before[|before| - 3] == t[|t| - 1];
    FirstMention(before, "tag=", q(bc.consumerTag) + ConsumerTail(bc), |before| - 3);
    assert ConsumerText(q, bc) == before + "tag=" + (q(bc.consumerTag) + ConsumerTail(bc));
    assert ConsumerText(q, bc)[|before| + 4..] == q(bc.consumerTag) + ConsumerTail(bc);
  }

  lemma CommaAt(s: string, k: nat)
    requires k < |s| && s[k] == ',' && ',' !in s[..k]
    ensures Index(s, ",") == k
  {
    assert s[k..k + 1] == ",";
    forall j | 0 <= j < k
      ensures !OccursAt(s, ",", j)
    {
      assert s[j] == s[..k][j];
      Mismatch(s, ",", j, 0);
    }
    IndexIs(s, ",", k);
  }

  /** Quotes around a text without quotes come off again. */
  lemma TrimQuotes(s: string)
    requires '"' !in s
    ensures TrimSpace("\"" + s + "\"") == "\"" + s + "\""
    ensures Trim("\"" + s + "\"", {'"'}) == s
  {
    var t, rest := "\"" + s + "\"", s + "\"";
    assert t[0] == '"' && t[|t| - 1] == '"' && t[1..] == rest;
    assert TrimLeft(t, {'"'}) == TrimLeft(rest, {'"'});
    if s == "" {
      assert rest[0] == '"' && rest[1..] == "";
      assert TrimLeft(rest, {'"'}) == TrimLeft("", {'"'});
    } else {
      assert s[0] in s && s[|s| - 1] in s && rest[0] == s[0];
      assert TrimLeft(rest, {'"'}) == rest;
      assert rest[|rest| - 1] == '"' && rest[..|rest| - 1] == s;
      assert TrimRight(rest, {'"'}) == TrimRight(s, {'"'}) == s;
    }
  }

  /** A text that starts with a quote loses at least that one. */
  lemma TrimLosesTheQuote(u: string)
    ensures var e := TrimSpace("\"" + u); e != "" && |Trim(e, {'"'})| <= |u|
  {
    var x := "\"" + u;
    assert x[0] == '"' && TrimLeft(x, SPACES) == x;
    TrimRightStops(x, SPACES);
    var e := TrimRight(x, SPACES);
    assert e == TrimSpace(x) && e != "" && e[0] == '"';
    TrimLeftStops(e[1..], {'"'});
    TrimRightStops(TrimLeft(e, {'"'}), {'"'});
  }

  /** The key the cache files a registration under: the text after the first "tag=" in
      the quoted queue, or else the quoted tag, up to a comma, without blanks and quotes
      around it. */
  function KeyRead(q: Quoter, bc: BasicConsume): string {
    var t := q(bc.queue);
    var read := TrimSpace(UpTo(if Contains(t, "tag=") then AfterFirst(t, "tag=") else q(bc.consumerTag), {','}));
    Trim(if read == "" then "consumer@" + bc.queue else read, {'"'})
  }

  lemma ConsumerParts(q: Quoter, bc: BasicConsume)
    ensures ConsumerText(q, bc) ==
            ("Consumer registered" + " on queue ") + q(bc.queue) + (", tag=" + q(bc.consumerTag) + ConsumerTail(bc))
  {
    hide ConsumerTail;
  }

  lemma TagRest(q: Quoter, bc: BasicConsume) returns (source: string, tail: string)
    requires Delimited(q(bc.queue))
    ensures source == if Contains(q(bc.queue), "tag=") then AfterFirst(q(bc.queue), "tag=") else q(bc.consumerTag)
    ensures tail != "" && tail[0] == ','
    ensures var text := ConsumerText(q, bc);
            Index(text, "tag=") >= 0 && text[Index(text, "tag=") + 4..] == source + tail
  {
    hide Contains, Index, ConsumerTail;
    var t := q(bc.queue);
    if Contains(t, "tag=") {
      var head := "Consumer registered" + " on queue ";
      source, tail := AfterFirst(t, "tag="), ", tag=" + q(bc.consumerTag) + ConsumerTail(bc);
      MissingChar(head, "tag=", 3);
      FirstInName(head, t, tail, "tag=");
      hide ConsumerText, AfterFirst;
      ConsumerParts(q, bc);
    } else {
      source, tail := q(bc.consumerTag), ConsumerTail(bc);
      TagIsFirstMentioned(q, bc);
      TailStarts(bc);
    }
  }

  lemma TailStarts(bc: BasicConsume)
    ensures ConsumerTail(bc) != "" && ConsumerTail(bc)[0] == ','
  {
  }

  /** Main result, for every name: the key a registration is filed under.  For names that
      need no escapes, and no "tag=" in the queue's, it is the consumer's own tag iff the
      tag has no comma. */
  lemma ConsumerTagSurvives(q: Quoter, bc: BasicConsume)
    requires Delimited(q(bc.queue))
    ensures ConsumerKey(ConsumerText(q, bc), bc.queue) == KeyRead(q, bc)
    ensures Plain(q, bc.queue) && Plain(q, bc.consumerTag) && !Contains(bc.queue, "tag=") ==>
              (KeyRead(q, bc) == bc.consumerTag <==> ',' !in bc.consumerTag)
  {
    hide Contains, Index, IndexAny, TrimSpace, Trim, ConsumerText, UpTo, Plain;
    var source, tail := TagRest(q, bc);
    StopBehind(source, tail, {','});
    var k := |UpTo(source, {','})|;
    FirstIsComma(source + tail, k);
    if Plain(q, bc.queue) && Plain(q, bc.consumerTag) && !Contains(bc.queue, "tag=") {
      PlainIsDelimited(q, bc.queue);
      InsideQuoted(q(bc.queue), "tag=");
      PlainTag(q, bc);
    }
  }

  lemma FirstIsComma(s: string, k: nat)
    requires IndexAny(s, {','}) == k
    ensures Index(s, ",") == k
  {
    assert ',' !in s[..k];
    CommaAt(s, k);
  }

  lemma PlainTag(q: Quoter, bc: BasicConsume)
    requires Plain(q, bc.consumerTag) && !Contains(q(bc.queue), "tag=")
    ensures KeyRead(q, bc) == bc.consumerTag <==> ',' !in bc.consumerTag
  {
    hide Contains, TrimSpace, Trim;
    var tag, t := bc.consumerTag, q(bc.consumerTag);
    if ',' !in tag {
      assert UpTo(t, {','}) == t;
      TrimQuotes(tag);
    } else {
      var i :| 0 <= i < |tag| && tag[i] == ',';
      assert t[1 + i] == ',' && t[0] == '"' == t[|t| - 1];
      var c := IndexAny(t, {','});
      assert t[..c] == "\"" + tag[..c - 1];
      TrimLosesTheQuote(tag[..c - 1]);
    }
  }

  // ------------------------------------------------------- exclusivity

  lemma TailSaysExclusive(bc: BasicConsume)
    ensures Contains(ConsumerTail(bc), EXCLUSIVE_CONSUMER) <==> bc.exclusive
  {
    var lead := ", no-ack=" + ShowBool(bc.noAck);
    var tail := ConsumerTail(bc);
    if bc.exclusive {
      assert tail == lead + " (exclusive)" + ".";
      assert tail[|lead| + 1..|lead| + 12] == "(exclusive)";
      assert OccursAt(tail, EXCLUSIVE_CONSUMER, |lead| + 1);
    } else {
      MissingChar(tail, EXCLUSIVE_CONSUMER, 0);
    }
  }

  /** Main result: exclusivity is read exactly, unless a name contains the marker. */
  lemma ConsumerExclusivityRead(q: Quoter, bc: BasicConsume)
    requires Delimited(q(bc.queue)) && Delimited(q(bc.consumerTag))
    ensures Contains(ConsumerText(q, bc), EXCLUSIVE_CONSUMER) <==>
            bc.exclusive || Contains(q(bc.queue), EXCLUSIVE_CONSUMER) || Contains(q(bc.consumerTag), EXCLUSIVE_CONSUMER)
  {
    hide Contains, ConsumerTail;
    var t, u, tail := q(bc.queue), q(bc.consumerTag), ConsumerTail(bc);
    var head := "Consumer registered" + " on queue ";
    InsideQuoted(t, EXCLUSIVE_CONSUMER);
    InsideQuoted(u, EXCLUSIVE_CONSUMER);
    MissingChar(head, EXCLUSIVE_CONSUMER, 0);
    MissingChar(", tag=", EXCLUSIVE_CONSUMER, 0);
    TailSaysExclusive(bc);
    AroundQuoted(", tag=", u, tail, EXCLUSIVE_CONSUMER);
    AroundQuoted(head, t, ", tag=" + u + tail, EXCLUSIVE_CONSUMER);
    assert ConsumerText(q, bc) == head + t + (", tag=" + u + tail);
  }

  // ------------------------------------------------------- from the wire to the cache

  /** The exclusive marker, as the cache sees it. */
  predicate ExclusiveRead(q: Quoter, bc: BasicConsume) {
    bc.exclusive || Contains(q(bc.queue), "(exclusive)") || Contains(q(bc.consumerTag), "(exclusive)")
  }

  /** Main result: a basic.consume, from its bytes to any cache, for every queue and tag:
      it records one consumer and touches nothing else; and the recorded consumer is the
      decoded one under its own tag iff the tag can be read back and no marker misleads. */
  lemma ConsumeSurvives(t: Topo, q: Quoter, ticket: uint16, queue: string, tag: string,
                        noLocal: bool, noAck: bool, exclusive: bool, noWait: bool,
                        trailing: seq<byte>, now: int)
    requires Short(queue) && Short(tag) && Delimited(q(queue)) && Delimited(q(tag))
    ensures var args := PutTwoNames(ticket, queue, tag, PutBits(noLocal, noAck, exclusive, noWait, false)) + trailing;
            var bc := BasicConsume(queue, tag, noAck, exclusive);
            var key := KeyRead(q, bc);
            var shown := Consumer(key, queue, ExclusiveRead(q, bc), now, true);
            && Observe(t, MethodPayload(60, 20, args), q, now) ==
               t.(lastUpdated := now, consumers := t.consumers[key := shown])
            && (shown == Consumer(tag, queue, exclusive, now, true) <==>
                  key == tag && ExclusiveRead(q, bc) == exclusive)
            && (Plain(q, queue) && Plain(q, tag) && !Contains(queue, "tag=") ==> (key == tag <==> ',' !in tag))
  {
    hide Apply, EvaluateMethod, ConsumerText, ParseBasicConsume, Contains, ConsumerKey, KeyRead, Plain, Observe;
    NamedMethodsRoundTrip(ticket, queue, tag, noLocal, noAck, exclusive, noWait, false, trailing);
    var args := PutTwoNames(ticket, queue, tag, PutBits(noLocal, noAck, exclusive, noWait, false)) + trailing;
    ObserveConsume(t, args, q, now);
    var bc := BasicConsume(queue, tag, noAck, exclusive);
    ConsumerTagSurvives(q, bc);
    ConsumerExclusivityRead(q, bc);
  }

  /** Main result: the later basic.cancel for that tag deactivates that consumer
      and no other entry. */
  lemma CancelDeactivates(t: Topo, q: Quoter, tag: string, trailing: seq<byte>, now: int)
    requires Short(tag) && tag in t.consumers
    ensures Observe(t, MethodPayload(60, 30, PutShortStr(tag) + trailing), q, now) ==
            t.(lastUpdated := now, consumers := t.consumers[tag := t.consumers[tag].(active := false)])
  {
    hide Apply, EvaluateMethod, ParseLeadingString, Observe;
    LeadingStringRoundTrip(tag, false, trailing);
    ObserveCancel(t, PutShortStr(tag) + trailing, q, now);
  }

  /** Main result: once cancelled, a consumer stays inactive through any alerts
      until a registration is recorded under its tag again. */
  lemma CancelledStaysInactive(s: seq<Stamp>, i: nat, tag: string)
    requires i < |s| && ConsumerLife(s[i], tag) == Down
    requires forall j :: i < j < |s| ==> !ConsumerLife(s[j], tag).Up?
    ensures tag in Fold(s).consumers ==> !Fold(s).consumers[tag].active
  {
    hide Fold, ConsumerLife;
    ConsumersAgreeWithHistory(s, tag);
    var l := Lifeline(ConsumerKind, s, tag);
    assert l[i] == Down;
    forall k | 0 <= k < |l| && l[k].Up?
      ensures exists j :: k < j < |l| && l[j] == Down
    {
      assert k < i < |l| && l[i] == Down;
    }
  }

  lemma NoQuotesToTrim(s: string)
    requires s != "" && s[0] != '"' && s[|s| - 1] != '"'
    ensures Trim(s, {'"'}) == s
  {
  }

  lemma TaglessText(a: string, b: string)
    requires '=' !in a && '=' !in b && 'x' !in a && 'x' !in b
    ensures ConsumerKey(a + b, "") == "consumer@"
    ensures !Contains(a + b, EXCLUSIVE_CONSUMER)
  {
    MissingChar(a + b, "tag=", 3);
    MissingChar(a + b, EXCLUSIVE_CONSUMER, 2);
    assert ExtractBetween(a + b, "tag=", ",") == "";
    hide ExtractBetween;
    assert "consumer@" + "" == "consumer@";
    NoQuotesToTrim("consumer@");
  }

  lemma TaglessFailure()
    ensures ConsumerKey("New consumer registered" + " (could not parse details).", "") == "consumer@"
    ensures !Contains("New consumer registered" + " (could not parse details).", EXCLUSIVE_CONSUMER)
  {
    hide Contains, ConsumerKey;
    TaglessText("New consumer registered", " (could not parse details).");
  }

  lemma TaglessConfirmation()
    ensures ConsumerKey("Broker confirmed" + " consumer registration.", "") == "consumer@"
    ensures !Contains("Broker confirmed" + " consumer registration.", EXCLUSIVE_CONSUMER)
  {
    hide Contains, ConsumerKey;
    TaglessText("Broker confirmed", " consumer registration.");
  }

  lemma ObserveTagless(t: Topo, args: seq<byte>, broken: seq<byte>, q: Quoter, now: int)
    requires ParseBasicConsume(broken).None?
    ensures Observe(t, MethodPayload(60, 21, args), q, now) ==
            RegisterConsumer(t.(lastUpdated := now), "", "Broker confirmed" + " consumer registration.", now)
    ensures Observe(t, MethodPayload(60, 20, broken), q, now) ==
            RegisterConsumer(t.(lastUpdated := now), "", "New consumer registered" + " (could not parse details).", now)
  {
    hide ParseBasicConsume, RegisterConsumer;
  }

  /** Main result: every consume-ok, and every basic.consume that cannot be parsed,
      is filed under the one key of a consumer without tag and queue, where it
      replaces its predecessor. */
  lemma ConfirmationsShareOneKey(t: Topo, q: Quoter, args: seq<byte>, broken: seq<byte>, now: int)
    requires ParseBasicConsume(broken).None?
    ensures var entry := Consumer("consumer@", "", false, now, true);
            var shared := t.(lastUpdated := now, consumers := t.consumers["consumer@" := entry]);
            && Observe(t, MethodPayload(60, 21, args), q, now) == shared
            && Observe(t, MethodPayload(60, 20, broken), q, now) == shared
  {
    hide Observe, Contains, ConsumerKey;
    ObserveTagless(t, args, broken, q, now);
    TaglessFailure();
    TaglessConfirmation();
  }
}
