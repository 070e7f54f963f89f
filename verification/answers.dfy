/** Answers in which labels are missing, repeated or out of order, as parts of a label and
    a body each. */
module Answers {
  import opened GoText
  import opened Sections

  datatype Part = Part(title: string, body: string)

  function Render(parts: seq<Part>): string {
    if parts == [] then "" else parts[0].title + (parts[0].body + Render(parts[1..]))
  }

  /** Every part has a label of its own and none in its body. */
  predicate Clean(parts: seq<Part>) {
    forall i :: 0 <= i < |parts| ==> IsLabel(parts[i].title) && LabelFree(parts[i].body)
  }

  predicate AreLabels(labels: seq<string>) {
    forall i :: 0 <= i < |labels| ==> IsLabel(labels[i])
  }

  /** The position of the first part with one of the labels, the number of parts if there
      is none. */
  function Next(parts: seq<Part>, labels: seq<string>): (k: nat)
    ensures k <= |parts| && (k < |parts| ==> parts[k].title in labels)
    ensures forall i :: 0 <= i < k ==> parts[i].title !in labels
  {
    if parts == [] || parts[0].title in labels then 0 else 1 + Next(parts[1..], labels)
  }

  lemma NotHeld(body: string, m: string)
    requires LabelFree(body) && IsLabel(m)
    ensures !Contains(body, m)
  {
    hide Contains;
  }

  /** A label that no part has is nowhere in the text. */
  lemma {:induction false} LabelMissing(body: string, parts: seq<Part>, m: string)
    requires LabelFree(body) && Clean(parts) && IsLabel(m)
    requires forall i :: 0 <= i < |parts| ==> parts[i].title != m
    ensures !Contains(body + Render(parts), m)
    decreases |parts|
  {
    hide Contains, LabelFree, IsLabel, Index;
    NotHeld(body, m);
    if parts == [] {
      assert body + Render(parts) == body;
    } else {
      var title, tail := parts[0].title, parts[0].body + Render(parts[1..]);
      LabelMissing(parts[0].body, parts[1..], m);
      IndexPast(body, title, tail, m);
      ContainsIff(tail, m);
      ContainsIff(body + title + tail, m);
      assert body + Render(parts) == body + title + tail;
    }
  }

  lemma ContainsIff(s: string, m: string)
    ensures Contains(s, m) <==> Index(s, m) >= 0
  {
    hide Index;
  }

  lemma RenderHead(parts: seq<Part>)
    requires parts != []
    ensures Render(parts) == parts[0].title + (parts[0].body + Render(parts[1..]))
  {
  }

  lemma Regroup(a: string, b: string, c: string, d: string)
    ensures a + (b + (c + d)) == a + (b + c) + d
  {
  }

  lemma {:induction false} RenderConcat(ps: seq<Part>, qs: seq<Part>)
    ensures Render(ps + qs) == Render(ps) + Render(qs)
  {
    if ps == [] {
      assert ps + qs == qs && Render(ps) == "";
      assert "" + Render(qs) == Render(qs);
    } else {
      hide Render;
      var first, rest := ps[0], ps[1..];
      RenderConcat(rest, qs);
      RenderHead(ps);
      RenderHead(ps + qs);
      assert (ps + qs)[1..] == rest + qs;
      Regroup(first.title, first.body, Render(rest), Render(qs));
    }
  }

  /** A trimmed body with parts behind it, cut at the earliest stop marker. */
  lemma CutAtParts(body: string, parts: seq<Part>, stops: seq<string>)
    requires LabelFree(body) && Clean(parts) && AreLabels(stops)
    ensures var s := TrimSpace(body + Render(parts));
            TrimSpace(s[..Earliest(s, stops)]) == TrimSpace(body + Render(parts[..Next(parts, stops)]))
  {
    hide Contains, LabelFree, IsLabel, Render, TrimSpace, Earliest;
    var j := Next(parts, stops);
    var front := body + Render(parts[..j]);
    forall i | 0 <= i < |stops|
      ensures !Contains(front, stops[i])
    {
      LabelMissing(body, parts[..j], stops[i]);
    }
    if j == |parts| {
      assert parts[..j] == parts;
      NoCut(front, stops);
    } else {
      var n :| 0 <= n < |stops| && stops[n] == parts[j].title;
      var tail := parts[j].body + Render(parts[j + 1..]);
      assert parts == parts[..j] + parts[j..];
      RenderConcat(parts[..j], parts[j..]);
      RenderHead(parts[j..]);
      assert parts[j..][1..] == parts[j + 1..];
      var title, before := parts[j].title, Render(parts[..j]);
      assert body + (before + (title + tail)) == body + before + title + tail;
      CutBehindBody(front, title, tail, stops, n);
    }
  }

  lemma NoCut(text: string, stops: seq<string>)
    requires forall i :: 0 <= i < |stops| ==> !Contains(text, stops[i])
    ensures var s := TrimSpace(text); TrimSpace(s[..Earliest(s, stops)]) == TrimSpace(text)
  {
    hide Contains, TrimSpace, Index;
    var s := TrimSpace(text);
    var i, j := TrimIsPart(text);
    forall k | 0 <= k < |stops|
      ensures Index(s, stops[k]) == -1
    {
      if Contains(s, stops[k]) {
        PartContains(text, i, j, stops[k]);
      }
      ContainsIff(s, stops[k]);
    }
    assert s[..|s|] == s;
    TrimSpaceTwice(text);
  }

  /** The section of a label in a text of parts: the body of the first part with that
      label and the parts behind it, up to the first one with a stop label. */
  function SectionOf(parts: seq<Part>, m: string, stops: seq<string>): string {
    var k := Next(parts, [m]);
    if k == |parts| then ""
    else
      var behind := parts[k + 1..];
      TrimSpace(parts[k].body + Render(behind[..Next(behind, stops)]))
  }

  /** A first part with another label does not matter. */
  lemma Later(parts: seq<Part>, m: string, stops: seq<string>)
    requires parts != [] && parts[0].title != m
    ensures SectionOf(parts, m, stops) == SectionOf(parts[1..], m, stops)
  {
    hide Render, TrimSpace;
    var k := Next(parts[1..], [m]);
    assert Next(parts, [m]) == k + 1;
    if k < |parts[1..]| {
      assert parts[k + 1 + 1..] == parts[1..][k + 1..];
    }
  }

  /** The text behind a label that is printed first. */
  lemma SectionHere(preface: string, m: string, tail: string, stops: seq<string>)
    requires LabelFree(preface) && IsLabel(m)
    ensures var s := TrimSpace(tail);
            Section(preface + m + tail, m, stops) == if stops == [] then s else TrimSpace(s[..Earliest(s, stops)])
  {
    hide Contains, LabelFree, IsLabel, Index, TrimSpace, Earliest;
    NotHeld(preface, m);
    IndexPast(preface, m, tail, m);
    assert (preface + m + tail)[|preface| + |m|..] == tail;
  }

  /** Another label in front of the text does not matter. */
  lemma SectionBehind(preface: string, other: string, tail: string, m: string, stops: seq<string>)
    requires LabelFree(preface) && IsLabel(m) && IsLabel(other) && other != m
    ensures Section(preface + other + tail, m, stops) == Section(tail, m, stops)
  {
    hide Contains, LabelFree, IsLabel, Index, TrimSpace, Earliest;
    NotHeld(preface, m);
    IndexPast(preface, other, tail, m);
    var i := Index(tail, m);
    assert i >= 0 ==> (preface + other + tail)[|preface| + |other| + i + |m|..] == tail[i + |m|..];
  }

  /** Main result: what a section is when labels come in any order, are repeated or
      missing. */
  lemma {:induction false} SectionOfParts(preface: string, parts: seq<Part>, m: string, stops: seq<string>)
    requires LabelFree(preface) && Clean(parts) && IsLabel(m) && AreLabels(stops)
    ensures Section(preface + Render(parts), m, stops) == SectionOf(parts, m, stops)
    decreases |parts|
  {
    hide LabelFree, IsLabel, Section, TrimSpace, Earliest;
    if parts == [] {
      LabelMissing(preface, parts, m);
      WithoutLabel(preface + Render(parts), m, stops);
    } else {
      var title, body, behind := parts[0].title, parts[0].body, parts[1..];
      var tail := body + Render(behind);
      assert preface + Render(parts) == preface + title + tail;
      if title == m {
        SectionHere(preface, m, tail, stops);
        CutAtParts(body, behind, stops);
        NoStops(behind, stops);
      } else {
        SectionBehind(preface, title, tail, m, stops);
        SectionOfParts(body, behind, m, stops);
        Later(parts, m, stops);
      }
    }
  }

  lemma NoStops(parts: seq<Part>, stops: seq<string>)
    ensures stops == [] ==> parts[..Next(parts, stops)] == parts
  {
  }

  // ------------------------------------------------------- missing labels

  function Place(title: string): nat {
    if title == ISSUES then 0 else if title == PATTERNS then 1 else if title == ROOT_CAUSE then 2 else 3
  }

  /** The labels that are there stand in the requested order. */
  predicate InOrder(parts: seq<Part>) {
    forall i, j :: 0 <= i < j < |parts| ==> Place(parts[i].title) < Place(parts[j].title)
  }

  /** The body printed under a label, trimmed; "" if the label is missing. */
  function BodyOf(parts: seq<Part>, title: string): string {
    var k := Next(parts, [title]);
    if k == |parts| then "" else TrimSpace(parts[k].body)
  }

  lemma OwnBody(parts: seq<Part>, m: string, stops: seq<string>)
    requires Clean(parts) && InOrder(parts) && IsLabel(m)
    requires forall title :: IsLabel(title) && Place(title) > Place(m) ==> title in stops
    ensures SectionOf(parts, m, stops) == BodyOf(parts, m)
  {
    hide TrimSpace, IsLabel, LabelFree, Place;
    var k := Next(parts, [m]);
    if k < |parts| {
      var behind := parts[k + 1..];
      if behind != [] {
        assert behind[0] == parts[k + 1];
        assert behind[0].title in stops;
      }
      assert Next(behind, stops) == 0;
      assert parts[k].body + "" == parts[k].body;
    }
  }

  lemma LaterLabels()
    ensures forall title :: IsLabel(title) && Place(title) > Place(ISSUES) ==> title in [PATTERNS, ROOT_CAUSE, ACTIONS]
    ensures forall title :: IsLabel(title) && Place(title) > Place(PATTERNS) ==> title in [ROOT_CAUSE, ACTIONS]
    ensures forall title :: IsLabel(title) && Place(title) > Place(ROOT_CAUSE) ==> title in [ACTIONS]
    ensures forall title: string :: IsLabel(title) && Place(title) > Place(ACTIONS) ==> title in []
  {
  }

  /** Main result: an answer in which any of the labels are missing gives the bodies under
      those that are there; if neither of the first two says anything, the whole answer
      stands for the first. */
  lemma MissingLabels(preface: string, parts: seq<Part>)
    requires LabelFree(preface) && Clean(parts) && InOrder(parts)
    ensures var text := preface + Render(parts);
            var issues, patterns := BodyOf(parts, "ISSUES:"), BodyOf(parts, "PATTERNS:");
            Parsed(text) ==
            Analysis(if issues == "" && patterns == "" then text else issues, patterns,
                     BodyOf(parts, "ROOT CAUSE:"), BodyOf(parts, "ACTIONS:"))
  {
    hide LabelFree, Clean, InOrder, Render, Section, SectionOf, BodyOf, Place;
    LaterLabels();
    SectionOfParts(preface, parts, ISSUES, [PATTERNS, ROOT_CAUSE, ACTIONS]);
    SectionOfParts(preface, parts, PATTERNS, [ROOT_CAUSE, ACTIONS]);
    SectionOfParts(preface, parts, ROOT_CAUSE, [ACTIONS]);
    SectionOfParts(preface, parts, ACTIONS, []);
    OwnBody(parts, ISSUES, [PATTERNS, ROOT_CAUSE, ACTIONS]);
    OwnBody(parts, PATTERNS, [ROOT_CAUSE, ACTIONS]);
    OwnBody(parts, ROOT_CAUSE, [ACTIONS]);
    OwnBody(parts, ACTIONS, []);
  }
}
