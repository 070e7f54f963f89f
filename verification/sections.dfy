/** Labelled sections of a model's answer (internal/ai/agent.go, extractSection
    and its four uses in AnalyzeStream). */
module Sections {
  import opened GoText

  const ISSUES := "ISSUES:"
  const PATTERNS := "PATTERNS:"
  const ROOT_CAUSE := "ROOT CAUSE:"
  const ACTIONS := "ACTIONS:"

  predicate IsLabel(m: string) {
    m == ISSUES || m == PATTERNS || m == ROOT_CAUSE || m == ACTIONS
  }

  // ---------------------------------------------------------------- model

  /** The first position at which one of the markers occurs, the end if none does. */
  function Earliest(s: string, stops: seq<string>): (r: nat)
    ensures r <= |s|
    ensures forall k :: 0 <= k < |stops| && Index(s, stops[k]) >= 0 ==> r <= Index(s, stops[k])
    ensures r == |s| || exists k :: 0 <= k < |stops| && r == Index(s, stops[k])
  {
    if stops == [] then |s|
    else
      var n := |stops| - 1;
      var r := Earliest(s, stops[..n]);
      var j := Index(s, stops[n]);
      if 0 <= j < r then j else
        assert forall k :: 0 <= k < n ==> stops[..n][k] == stops[k];
        r
  }

  /** The text after the start marker, up to the earliest stop marker.  No stop
      markers stands for the source's nil. */
  function Section(text: string, start: string, stops: seq<string>): string {
    var i := Index(text, start);
    if i < 0 then ""
    else
      var s := TrimSpace(text[i + |start|..]);
      if stops == [] then s else TrimSpace(s[..Earliest(s, stops)])
  }

  // ------------------------------------------------------- what a section is

  /** White space within ASCII. */
  predicate Blank(c: char) {
    c == ' ' || c == '\t' || c == '\n' || c == '\r' || c == '\U{B}' || c == '\U{C}'
  }

  /** `r` is `s` without the blanks around it. */
  ghost predicate Trimmed(s: string, r: string) {
    exists i: nat, j: nat :: i <= j <= |s| && r == s[i..j] && TrimmedAt(s, i, j)
  }

  ghost predicate TrimmedAt(s: string, i: nat, j: nat)
    requires i <= j <= |s|
  {
    && (forall k :: 0 <= k < i ==> Blank(s[k]))
    && (forall k :: j <= k < |s| ==> Blank(s[k]))
    && (i < j ==> !Blank(s[i]) && !Blank(s[j - 1]))
  }

  lemma TrimSpaceIs(s: string)
    ensures Trimmed(s, TrimSpace(s))
  {
    TrimLeftStops(s, SPACES);
    var l := TrimLeft(s, SPACES);
    TrimRightStops(l, SPACES);
    var i, j := |s| - |l|, |s| - |l| + |TrimSpace(s)|;
    assert TrimSpace(s) == s[i..j];
    assert forall k :: j <= k < |s| ==> s[k] == l[k - i];
    assert TrimmedAt(s, i, j);
  }

  /** There is only one way to trim a text. */
  lemma TrimmedOnce(s: string, r: string, r': string)
    requires Trimmed(s, r) && Trimmed(s, r')
    ensures r == r'
  {
    var i: nat, j: nat :| i <= j <= |s| && r == s[i..j] && TrimmedAt(s, i, j);
    var i': nat, j': nat :| i' <= j' <= |s| && r' == s[i'..j'] && TrimmedAt(s, i', j');
  }

  ghost predicate FirstAt(s: string, m: string, i: nat) {
    OccursAt(s, m, i) && forall j :: 0 <= j < i ==> !OccursAt(s, m, j)
  }

  /** The earliest occurrence of any of the markers, or the end if there is none. */
  ghost predicate CutAt(s: string, stops: seq<string>, c: nat) {
    && c <= |s|
    && (c < |s| ==> exists k :: 0 <= k < |stops| && OccursAt(s, stops[k], c))
    && forall k, j :: 0 <= k < |stops| && 0 <= j < c ==> !OccursAt(s, stops[k], j)
  }

  /** The text `s` behind the first start marker, trimmed, ends at `c`. */
  ghost predicate Bounds(text: string, start: string, stops: seq<string>, i: nat, s: string, c: nat) {
    FirstAt(text, start, i) && i + |start| <= |text| && Trimmed(text[i + |start|..], s) && CutAt(s, stops, c)
  }

  /** `r` is the text behind the first start marker up to the earliest stop marker, or to
      the end if none follows, without blanks around it; "" without a start marker. */
  ghost predicate IsSection(text: string, start: string, stops: seq<string>, r: string) {
    (r == "" && forall i :: !OccursAt(text, start, i)) ||
    exists i: nat, s: string, c: nat :: Bounds(text, start, stops, i, s, c) && Trimmed(s[..c], r)
  }

  lemma SectionIs(text: string, start: string, stops: seq<string>)
    ensures IsSection(text, start, stops, Section(text, start, stops))
  {
    hide TrimSpace, Trimmed, Earliest;
    var i := Index(text, start);
    if i >= 0 {
      var s := TrimSpace(text[i + |start|..]);
      var c := Earliest(s, stops);
      TrimSpaceIs(text[i + |start|..]);
      CutIsEarliest(s, stops);
      TrimSpaceIs(s[..c]);
      assert Bounds(text, start, stops, i, s, c);
      if stops == [] {
        TrimSpaceTwice(text[i + |start|..]);
        assert s[..c] == s;
      }
    }
  }

  lemma CutIsEarliest(s: string, stops: seq<string>)
    ensures CutAt(s, stops, Earliest(s, stops))
    ensures stops == [] ==> Earliest(s, stops) == |s|
  {
    hide OccursAt;
    var c := Earliest(s, stops);
    forall k, j | 0 <= k < |stops| && 0 <= j < c
      ensures !OccursAt(s, stops[k], j)
    {
      assert Index(s, stops[k]) >= 0 ==> c <= Index(s, stops[k]);
    }
  }

  lemma TrimSpaceTwice(s: string)
    ensures TrimSpace(TrimSpace(s)) == TrimSpace(s)
  {
    hide TrimSpace;
    TrimSpaceIs(s);
    TrimSpaceIs(TrimSpace(s));
    TrimmedIsTrimmed(s, TrimSpace(s));
    TrimmedOnce(TrimSpace(s), TrimSpace(TrimSpace(s)), TrimSpace(s));
  }

  lemma TrimmedIsTrimmed(s: string, r: string)
    requires Trimmed(s, r)
    ensures Trimmed(r, r)
  {
    var i: nat, j: nat :| i <= j <= |s| && r == s[i..j] && TrimmedAt(s, i, j);
    assert TrimmedAt(r, 0, |r|) && r == r[0..|r|];
  }

  /** Main result: a text has one section only, and it is blank iff the start marker is
      missing or nothing but blanks stands between the markers. */
  lemma OneSection(text: string, start: string, stops: seq<string>, r: string)
    ensures IsSection(text, start, stops, r) <==> r == Section(text, start, stops)
    ensures Section(text, start, stops) != "" <==>
            exists i: nat, s: string, c: nat, k: nat :: Bounds(text, start, stops, i, s, c) && k < c && !Blank(s[k])
  {
    hide Trimmed, Section, Blank;
    SectionIs(text, start, stops);
    if i: nat, s: string, c: nat :| Bounds(text, start, stops, i, s, c) {
      var r' := Section(text, start, stops);
      var i': nat, s': string, c': nat :| Bounds(text, start, stops, i', s', c') && Trimmed(s'[..c'], r');
      OneBounds(text, start, stops, i, s, c, i', s', c');
      if IsSection(text, start, stops, r) {
        var i1: nat, s1: string, c1: nat :| Bounds(text, start, stops, i1, s1, c1) && Trimmed(s1[..c1], r);
        OneBounds(text, start, stops, i, s, c, i1, s1, c1);
        TrimmedOnce(s[..c], r, r');
      }
      forall i1: nat, s1: string, c1: nat, k: nat | Bounds(text, start, stops, i1, s1, c1) && k < c1 && !Blank(s1[k])
        ensures r' != ""
      {
        OneBounds(text, start, stops, i, s, c, i1, s1, c1);
        TrimmedBlank(s[..c], r');
        assert s[..c][k] == s[k];
      }
      TrimmedBlank(s[..c], r');
    }
  }

  lemma TrimmedBlank(s: string, r: string)
    requires Trimmed(s, r)
    ensures r != "" <==> exists k :: 0 <= k < |s| && !Blank(s[k])
  {
    hide Blank;
    var i: nat, j: nat :| i <= j <= |s| && r == s[i..j] && TrimmedAt(s, i, j);
  }

  lemma OneBounds(text: string, start: string, stops: seq<string>, i: nat, s: string, c: nat,
                  i': nat, s': string, c': nat)
    requires Bounds(text, start, stops, i, s, c) && Bounds(text, start, stops, i', s', c')
    ensures i == i' && s == s' && c == c'
  {
    hide Trimmed, OccursAt;
    TrimmedOnce(text[i + |start|..], s, s');
  }

  lemma EarliestStep(s: string, stops: seq<string>, k: nat)
    requires k < |stops|
    ensures var before, j := Earliest(s, stops[..k]), Index(s, stops[k]);
            Earliest(s, stops[..k + 1]) == if 0 <= j < before then j else before
  {
    hide Index;
    assert stops[..k + 1][..k] == stops[..k];
  }

  method ExtractSection(text: string, startMarker: string, stopMarkers: seq<string>) returns (r: string)
    ensures IsSection(text, startMarker, stopMarkers, r)
    ensures r == Section(text, startMarker, stopMarkers)
  {
    hide IsSection, Earliest, TrimSpace, Index;
    SectionIs(text, startMarker, stopMarkers);
    var i := Index(text, startMarker);
    if i < 0 {
      return "";
    }
    var s := TrimSpace(text[i + |startMarker|..]);
    if stopMarkers == [] {
      return s;
    }
    var earliest := |s|;
    CutIsEarliest(s, []);
    for k := 0 to |stopMarkers|
      invariant earliest == Earliest(s, stopMarkers[..k])
    {
      EarliestStep(s, stopMarkers, k);
      var j := Index(s, stopMarkers[k]);
      if j >= 0 && j < earliest {
        earliest := j;
      }
    }
    assert stopMarkers[..|stopMarkers|] == stopMarkers;
    return TrimSpace(s[..earliest]);
  }

  datatype Analysis = Analysis(topIssues: string, patterns: string, rootCause: string, recommendations: string)

  /** The parsing half of AnalyzeStream on values: an answer without the first two
      sections is kept whole. */
  function Parsed(response: string): Analysis {
    var issues := Section(response, ISSUES, [PATTERNS, ROOT_CAUSE, ACTIONS]);
    var patterns := Section(response, PATTERNS, [ROOT_CAUSE, ACTIONS]);
    Analysis(if issues == "" && patterns == "" then response else issues, patterns,
             Section(response, ROOT_CAUSE, [ACTIONS]), Section(response, ACTIONS, []))
  }

  // ------------------------------------------------------- labels

  /** A colon stands only at a label's end. */
  lemma ColonIsLast(m: string)
    requires IsLabel(m)
    ensures |m| >= 7 && m[|m| - 1] == ':' && forall k :: 0 <= k < |m| - 1 ==> m[k] != ':'
    ensures m[0] !in SPACES && ':' !in SPACES
  {
  }

  /** Labels differ within their last four chars. */
  lemma LabelsDiffer(m: string, k: string)
    requires IsLabel(m) && IsLabel(k)
    requires m[|m| - 2] == k[|k| - 2] && m[|m| - 3] == k[|k| - 3] && m[|m| - 4] == k[|k| - 4]
    ensures m == k
  {
  }

  lemma CharOf(s: string, m: string, i: nat, k: nat)
    requires OccursAt(s, m, i) && k < |m|
    ensures s[i + k] == m[k]
  {
    assert s[i..i + |m|][k] == s[i + k];
  }

  /** Two labels ending at the same place are the same. */
  lemma SameEndSameLabel(s: string, m: string, i: nat, k: string, j: nat)
    requires IsLabel(m) && IsLabel(k) && OccursAt(s, m, i) && OccursAt(s, k, j) && i + |m| == j + |k|
    ensures m == k
  {
    hide IsLabel;
    ColonIsLast(m);
    ColonIsLast(k);
    CharOf(s, m, i, |m| - 2);
    CharOf(s, m, i, |m| - 3);
    CharOf(s, m, i, |m| - 4);
    CharOf(s, k, j, |k| - 2);
    CharOf(s, k, j, |k| - 3);
    CharOf(s, k, j, |k| - 4);
    LabelsDiffer(m, k);
  }

  /** No label straddles a body and the label printed after it: in such a text, a
      label that does not occur in the body occurs at the printed label, if it is
      that one, and otherwise only behind it. */
  lemma NoStraddle(body: string, k: string, tail: string, m: string, i: nat)
    requires IsLabel(k) && IsLabel(m) && !Contains(body, m)
    ensures OccursAt(body + k + tail, m, i) ==> (i == |body| && m == k) || i >= |body| + |k|
  {
    hide IsLabel, Contains;
    var s := body + k + tail;
    ColonIsLast(m);
    ColonIsLast(k);
    var end, colon := i + |m| - 1, |body| + |k| - 1;
    assert s[|body|..|body| + |k|] == k;
    if end < |body| {
      assert s[i..i + |m|] == body[i..i + |m|];
      assert OccursAt(s, m, i) ==> OccursAt(body, m, i);
    } else if end < colon {
      assert s[end] == k[end - |body|];
      Mismatch(s, m, i, |m| - 1);
    } else if end == colon {
      if OccursAt(s, m, i) {
        SameEndSameLabel(s, m, i, k, |body|);
      }
    } else if i <= colon {
      assert s[colon] == k[|k| - 1];
      Mismatch(s, m, i, colon - i);
    }
  }

  /** Finding a label past a body and a printed label. */
  lemma IndexPast(body: string, k: string, tail: string, m: string)
    requires IsLabel(k) && IsLabel(m) && !Contains(body, m)
    ensures Index(body + k + tail, m) ==
            if m == k then |body|
            else if Index(tail, m) < 0 then -1
            else |body| + |k| + Index(tail, m)
  {
    var s, skip := body + k + tail, |body| + |k|;
    forall i | OccursAt(s, m, i)
      ensures (i == |body| && m == k) || i >= skip
    {
      NoStraddle(body, k, tail, m, i);
    }
    if m == k {
      assert s[|body|..skip] == k;
      IndexIs(s, m, |body|);
    } else {
      IndexShift(body + k, tail, m);
    }
  }

  lemma IndexShift(p: string, tail: string, m: string)
    requires forall i :: OccursAt(p + tail, m, i) ==> i >= |p|
    ensures Index(p + tail, m) == if Index(tail, m) < 0 then -1 else |p| + Index(tail, m)
  {
    hide OccursAt;
    var j, k := Index(p + tail, m), Index(tail, m);
    if j >= |p| {
      OccursShift(p, tail, m, j - |p|);
    }
    if k >= 0 {
      OccursShift(p, tail, m, k);
    }
  }

  predicate LabelFree(body: string) {
    !Contains(body, ISSUES) && !Contains(body, PATTERNS) && !Contains(body, ROOT_CAUSE) && !Contains(body, ACTIONS)
  }

  lemma PartContains(s: string, i: nat, j: nat, m: string)
    requires i <= j <= |s| && Contains(s[i..j], m)
    ensures Contains(s, m)
  {
    var part := s[i..j];
    var k := Index(part, m);
    assert s == s[..i] + (part + s[j..]);
    hide OccursAt, Index;
    OccursPrefix(part, s[j..], m, k);
    OccursShift(s[..i], part + s[j..], m, k);
    assert OccursAt(s, m, i + k);
  }

  // ------------------------------------------------------- one section

  /** Trimming a body, a label and what follows. */
  lemma TrimAround(body: string, k: string, tail: string)
    requires IsLabel(k)
    ensures TrimSpace(body + k + tail) == TrimLeft(body, SPACES) + k + TrimRight(tail, SPACES)
  {
    hide IsLabel, TrimLeft, TrimRight;
    ColonIsLast(k);
    var b := TrimLeft(body, SPACES);
    TrimLeftConcat(body, k + tail, SPACES);
    assert body + k + tail == body + (k + tail);
    TrimRightConcat(b + k, tail, SPACES);
    assert b + k + tail == b + (k + tail);
  }

  lemma TrimLeftIdempotent(s: string)
    ensures TrimLeft(TrimLeft(s, SPACES), SPACES) == TrimLeft(s, SPACES)
  {
    TrimLeftStops(s, SPACES);
  }

  lemma EarliestIs(s: string, stops: seq<string>, n: nat, c: nat)
    requires n < |stops| && Index(s, stops[n]) == c
    requires forall j :: 0 <= j < |stops| ==> Index(s, stops[j]) >= c || Index(s, stops[j]) == -1
    ensures Earliest(s, stops) == c
  {
    hide Index;
  }

  /** Cutting a trimmed text at the earliest stop marker, when a stop marker is printed
      behind a body that holds none. */
  lemma CutBehindBody(body: string, k: string, tail: string, stops: seq<string>, n: nat)
    requires n < |stops| && stops[n] == k
    requires forall j :: 0 <= j < |stops| ==> IsLabel(stops[j]) && !Contains(body, stops[j])
    ensures var s := TrimSpace(body + k + tail); TrimSpace(s[..Earliest(s, stops)]) == TrimSpace(body)
  {
    hide Contains, Index, IsLabel, TrimLeft, TrimRight, Earliest;
    TrimAround(body, k, tail);
    TrimLeftStops(body, SPACES);
    var b, t := TrimLeft(body, SPACES), TrimRight(tail, SPACES);
    var s := b + k + t;
    forall j | 0 <= j < |stops|
      ensures Index(s, stops[j]) >= |b| || Index(s, stops[j]) == -1
      ensures stops[j] == k ==> Index(s, stops[j]) == |b|
    {
      assert b == body[|body| - |b|..|body|];
      if Contains(b, stops[j]) {
        PartContains(body, |body| - |b|, |body|, stops[j]);
      }
      IndexPast(b, k, t, stops[j]);
    }
    EarliestIs(s, stops, n, |b|);
    assert s[..|b|] == b;
    TrimLeftIdempotent(body);
  }

  /** A section between its own label and the next is its trimmed body. */
  lemma SectionBetween(before: string, m: string, body: string, k: string, tail: string, stops: seq<string>)
    requires |stops| > 0 && stops[0] == k
    requires forall j :: 0 <= j < |stops| ==> IsLabel(stops[j]) && !Contains(body, stops[j])
    requires Index(before + m + (body + k + tail), m) == |before|
    ensures Section(before + m + (body + k + tail), m, stops) == TrimSpace(body)
  {
    hide Contains, Index, IsLabel, TrimSpace, Earliest;
    var text := before + m + (body + k + tail);
    assert text[|before| + |m|..] == body + k + tail;
    CutBehindBody(body, k, tail, stops, 0);
  }

  // ------------------------------------------------------- the whole answer

  /** An answer in the requested form, possibly with a preface. */
  function Answer(preface: string, b1: string, b2: string, b3: string, b4: string): string {
    preface + ISSUES + (b1 + PATTERNS + (b2 + ROOT_CAUSE + (b3 + ACTIONS + b4)))
  }

  /** No body holds a label that ends its section. */
  predicate EndsAtItsLabel(b1: string, b2: string, b3: string) {
    && !Contains(b1, PATTERNS) && !Contains(b1, ROOT_CAUSE) && !Contains(b1, ACTIONS)
    && !Contains(b2, ROOT_CAUSE) && !Contains(b2, ACTIONS)
    && !Contains(b3, ACTIONS)
  }

  /** Where each label is first found. */
  lemma LabelPositions(preface: string, b1: string, b2: string, b3: string, b4: string)
    requires LabelFree(preface) && EndsAtItsLabel(b1, b2, b3)
    ensures var text := Answer(preface, b1, b2, b3, b4);
            && Index(text, ISSUES) == |preface|
            && Index(text, PATTERNS) == |preface + ISSUES + b1|
            && Index(text, ROOT_CAUSE) == |preface + ISSUES + b1 + PATTERNS + b2|
            && Index(text, ACTIONS) == |preface + ISSUES + b1 + PATTERNS + b2 + ROOT_CAUSE + b3|
  {
    hide Contains, Index;
    var t3 := b3 + ACTIONS + b4;
    var t2 := b2 + ROOT_CAUSE + t3;
    var t1 := b1 + PATTERNS + t2;
    IndexPast(preface, ISSUES, t1, ISSUES);
    IndexPast(preface, ISSUES, t1, PATTERNS);
    IndexPast(b1, PATTERNS, t2, PATTERNS);
    IndexPast(preface, ISSUES, t1, ROOT_CAUSE);
    IndexPast(b1, PATTERNS, t2, ROOT_CAUSE);
    IndexPast(b2, ROOT_CAUSE, t3, ROOT_CAUSE);
    IndexPast(preface, ISSUES, t1, ACTIONS);
    IndexPast(b1, PATTERNS, t2, ACTIONS);
    IndexPast(b2, ROOT_CAUSE, t3, ACTIONS);
    IndexPast(b3, ACTIONS, b4, ACTIONS);
  }

  lemma Regroup(x: string, i: string, b1: string, p: string, b2: string, r: string, b3: string, a: string, b4: string)
    ensures var text := x + i + (b1 + p + (b2 + r + (b3 + a + b4)));
            var p1 := x + i + b1;
            var p2 := p1 + p + b2;
            var p3 := p2 + r + b3;
            text == p1 + p + (b2 + r + (b3 + a + b4)) && text == p2 + r + (b3 + a + b4) && text == p3 + a + b4
  {
  }

  /** What an answer in the requested form says. */
  function Bodies(response: string, b1: string, b2: string, b3: string, b4: string): Analysis {
    Analysis(if TrimSpace(b1) == "" && TrimSpace(b2) == "" then response else TrimSpace(b1),
             TrimSpace(b2), TrimSpace(b3), TrimSpace(b4))
  }

  lemma BodiesOfAnswer(preface: string, b1: string, b2: string, b3: string, b4: string)
    requires LabelFree(preface) && EndsAtItsLabel(b1, b2, b3)
    ensures Parsed(Answer(preface, b1, b2, b3, b4)) == Bodies(Answer(preface, b1, b2, b3, b4), b1, b2, b3, b4)
  {
    hide Contains, Index, TrimSpace;
    var text := Answer(preface, b1, b2, b3, b4);
    LabelPositions(preface, b1, b2, b3, b4);
    var t3 := b3 + ACTIONS + b4;
    var t2 := b2 + ROOT_CAUSE + t3;
    var p1 := preface + ISSUES + b1;
    var p2 := p1 + PATTERNS + b2;
    var p3 := p2 + ROOT_CAUSE + b3;
    Regroup(preface, ISSUES, b1, PATTERNS, b2, ROOT_CAUSE, b3, ACTIONS, b4);
    SectionBetween(preface, ISSUES, b1, PATTERNS, t2, [PATTERNS, ROOT_CAUSE, ACTIONS]);
    SectionBetween(p1, PATTERNS, b2, ROOT_CAUSE, t3, [ROOT_CAUSE, ACTIONS]);
    SectionBetween(p2, ROOT_CAUSE, b3, ACTIONS, b4, [ACTIONS]);
    assert text[|p3| + |ACTIONS|..] == b4;
    assert text != "";
  }

  // ------------------------------------------------------- the exact condition

  lemma MissingInNothing(m: string)
    requires m != ""
    ensures !Contains("", m)
  {
  }

  lemma BeforeFirst(s: string, m: string, e: nat)
    requires e <= |s| && m != "" && (Index(s, m) >= 0 ==> e <= Index(s, m))
    ensures !Contains(s[..e], m)
  {
    if Contains(s[..e], m) {
      var i := Index(s[..e], m);
      assert s[i..i + |m|] == s[..e][i..i + |m|];
      assert OccursAt(s, m, i);
    }
  }

  lemma TrimIsPart(s: string) returns (i: nat, j: nat)
    ensures i <= j <= |s| && TrimSpace(s) == s[i..j]
  {
    TrimLeftStops(s, SPACES);
    var l := TrimLeft(s, SPACES);
    TrimRightStops(l, SPACES);
    i, j := |s| - |l|, |s| - |l| + |TrimSpace(s)|;
  }

  /** A section never contains one of its stop markers. */
  lemma SectionHasNoStop(text: string, m: string, stops: seq<string>, k: nat)
    requires k < |stops| && stops[k] != ""
    ensures !Contains(Section(text, m, stops), stops[k])
  {
    hide Contains;
    var stop := stops[k];
    if Index(text, m) < 0 {
      MissingInNothing(stop);
    } else {
      var s := TrimSpace(text[Index(text, m) + |m|..]);
      var e := Earliest(s, stops);
      BeforeFirst(s, stop, e);
      var cut := s[..e];
      var i, j := TrimIsPart(cut);
      hide Earliest, TrimSpace, Index;
      if Contains(TrimSpace(cut), stop) {
        PartContains(cut, i, j, stop);
      }
    }
  }

  lemma LeftSplit(s: string)
    ensures var l := TrimLeft(s, SPACES);
            var d := |s| - |l|;
            d >= 0 && s == s[..d] + l && forall i :: 0 <= i < d ==> s[i] in SPACES
  {
    hide TrimLeft;
    TrimLeftStops(s, SPACES);
  }

  lemma RightSplit(s: string)
    ensures var r := TrimRight(s, SPACES);
            |r| <= |s| && s == r + s[|r|..] && forall i :: |r| <= i < |s| ==> s[i] in SPACES
  {
    hide TrimRight;
    TrimRightStops(s, SPACES);
  }

  /** A label in a text is in what is left without the blanks before it, and after it. */
  lemma LeftKeepsLabels(s: string, m: string)
    requires IsLabel(m) && Contains(s, m)
    ensures Contains(TrimLeft(s, SPACES), m)
  {
    hide IsLabel, TrimLeft, OccursAt;
    ColonIsLast(m);
    LeftSplit(s);
    var l := TrimLeft(s, SPACES);
    var i, d := Index(s, m), |s| - |l|;
    CharOf(s, m, i, 0);
    assert i >= d;
    OccursShift(s[..d], l, m, i - d);
    assert OccursAt(l, m, i - d);
  }

  lemma RightKeepsLabels(s: string, m: string)
    requires IsLabel(m) && Contains(s, m)
    ensures Contains(TrimRight(s, SPACES), m)
  {
    hide IsLabel, TrimRight, OccursAt;
    ColonIsLast(m);
    RightSplit(s);
    var r := TrimRight(s, SPACES);
    var i := Index(s, m);
    CharOf(s, m, i, |m| - 1);
    assert i + |m| <= |r|;
    OccursPrefix(r, s[|r|..], m, i);
    assert OccursAt(r, m, i);
  }

  /** Trimming takes no label away. */
  lemma TrimKeepsLabels(s: string, m: string)
    requires IsLabel(m) && Contains(s, m)
    ensures Contains(TrimSpace(s), m)
  {
    hide IsLabel, TrimLeft, TrimRight, Contains;
    LeftKeepsLabels(s, m);
    RightKeepsLabels(TrimLeft(s, SPACES), m);
  }

  lemma TrimShrinks(s: string)
    ensures |TrimSpace(s)| <= |s|
  {
    TrimLeftStops(s, SPACES);
    TrimRightStops(TrimLeft(s, SPACES), SPACES);
  }

  /** A body that comes back trimmed held none of the stop markers. */
  lemma RecoveredHoldsNoStop(text: string, m: string, stops: seq<string>, body: string, k: nat)
    requires k < |stops| && IsLabel(stops[k]) && Section(text, m, stops) == TrimSpace(body)
    ensures !Contains(body, stops[k])
  {
    hide Section, Contains, TrimSpace;
    SectionHasNoStop(text, m, stops, k);
    if Contains(body, stops[k]) {
      TrimKeepsLabels(body, stops[k]);
    }
  }

  /** Main result: behind a preface without labels the four bodies come back trimmed iff
      none of them holds a label that ends its section and the first two are not both
      blank.  A body may hold the labels of earlier sections, and the last one any. */
  lemma SectionsAreRecovered(preface: string, b1: string, b2: string, b3: string, b4: string)
    requires LabelFree(preface)
    ensures Parsed(Answer(preface, b1, b2, b3, b4)) ==
            Analysis(TrimSpace(b1), TrimSpace(b2), TrimSpace(b3), TrimSpace(b4))
            <==> EndsAtItsLabel(b1, b2, b3) && (TrimSpace(b1) != "" || TrimSpace(b2) != "")
  {
    hide Section, Contains, TrimSpace;
    var text := Answer(preface, b1, b2, b3, b4);
    TrimShrinks(b1);
    assert |text| > |b1|;
    if EndsAtItsLabel(b1, b2, b3) {
      BodiesOfAnswer(preface, b1, b2, b3, b4);
    }
    if Parsed(text) == Analysis(TrimSpace(b1), TrimSpace(b2), TrimSpace(b3), TrimSpace(b4)) {
      var stops1, stops2 := [PATTERNS, ROOT_CAUSE, ACTIONS], [ROOT_CAUSE, ACTIONS];
      RecoveredHoldsNoStop(text, ISSUES, stops1, b1, 0);
      RecoveredHoldsNoStop(text, ISSUES, stops1, b1, 1);
      RecoveredHoldsNoStop(text, ISSUES, stops1, b1, 2);
      RecoveredHoldsNoStop(text, PATTERNS, stops2, b2, 0);
      RecoveredHoldsNoStop(text, PATTERNS, stops2, b2, 1);
      RecoveredHoldsNoStop(text, ROOT_CAUSE, [ACTIONS], b3, 0);
    }
  }

  lemma WithoutLabel(text: string, m: string, stops: seq<string>)
    ensures !Contains(text, m) ==> Section(text, m, stops) == ""
  {
  }

  /** Main result: the parsing half of AnalyzeStream.  Each part is the one section of its
      label, the whole answer standing for the first if the first two are blank.  So an
      answer in the requested form, in whatever way it is read as one, is taken apart into
      its bodies, and an answer without the first two labels is kept whole. */
  method ParseAnalysis(response: string) returns (a: Analysis)
    ensures IsSection(response, "PATTERNS:", ["ROOT CAUSE:", "ACTIONS:"], a.patterns)
    ensures IsSection(response, "ROOT CAUSE:", ["ACTIONS:"], a.rootCause)
    ensures IsSection(response, "ACTIONS:", [], a.recommendations)
    ensures exists issues :: IsSection(response, "ISSUES:", ["PATTERNS:", "ROOT CAUSE:", "ACTIONS:"], issues) &&
              a.topIssues == if issues == "" && a.patterns == "" then response else issues
    ensures forall preface, b1, b2, b3, b4 ::
              response == Answer(preface, b1, b2, b3, b4) && LabelFree(preface) && EndsAtItsLabel(b1, b2, b3) ==>
                a == Bodies(response, b1, b2, b3, b4)
    ensures !Contains(response, ISSUES) && !Contains(response, PATTERNS) ==> a.topIssues == response && a.patterns == ""
    ensures a == Parsed(response)
  {
    hide Answer, LabelFree, EndsAtItsLabel, Contains, TrimSpace, Section, IsSection;
    var topIssues := ExtractSection(response, ISSUES, [PATTERNS, ROOT_CAUSE, ACTIONS]);
    var patterns := ExtractSection(response, PATTERNS, [ROOT_CAUSE, ACTIONS]);
    var rootCause := ExtractSection(response, ROOT_CAUSE, [ACTIONS]);
    var recommendations := ExtractSection(response, ACTIONS, []);
    WithoutLabel(response, ISSUES, [PATTERNS, ROOT_CAUSE, ACTIONS]);
    WithoutLabel(response, PATTERNS, [ROOT_CAUSE, ACTIONS]);
    if topIssues == "" && patterns == "" {
      topIssues := response;
    }
    a := Analysis(topIssues, patterns, rootCause, recommendations);
    assert a == Parsed(response);
    hide Parsed;
    forall preface, b1, b2, b3, b4 |
      response == Answer(preface, b1, b2, b3, b4) && LabelFree(preface) && EndsAtItsLabel(b1, b2, b3)
      ensures a == Bodies(response, b1, b2, b3, b4)
    {
      BodiesOfAnswer(preface, b1, b2, b3, b4);
    }
  }
}
