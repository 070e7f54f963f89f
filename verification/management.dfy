/** The rules for requests to the management API (internal/rules/engine.go,
    EvaluateHTTPRequest): slashes are normalised by repeated replacement, then the
    path is matched and an entity taken from it. */
module Management {
  import opened Wrappers
  import opened GoText
  import Engine

  // ------------------------------------------------------- slashes

  /** strings.ReplaceAll(s, "//", "/"): left to right, without overlap. */
  function HalveSlashes(s: string): (r: string)
    ensures |r| <= |s|
  {
    if |s| >= 2 && s[0] == '/' && s[1] == '/' then "/" + HalveSlashes(s[2..])
    else if s == "" then ""
    else [s[0]] + HalveSlashes(s[1..])
  }

  /** Every run of slashes as one slash. */
  function Squeeze(s: string): string {
    if s == "" then ""
    else if |s| >= 2 && s[0] == '/' && s[1] == '/' then Squeeze(s[1..])
    else [s[0]] + Squeeze(s[1..])
  }

  /** How many slashes a text starts with. */
  function Lead(s: string): nat {
    if s != "" && s[0] == '/' then 1 + Lead(s[1..]) else 0
  }

  /** The length of the longest run of slashes. */
  function SlashRun(s: string): nat {
    if s == "" then 0 else Max(Lead(s), SlashRun(s[1..]))
  }

  function Pow2(n: nat): nat {
    if n == 0 then 1 else 2 * Pow2(n - 1)
  }

  /** One replacement halves every run, rounding up. */
  lemma {:induction false} HalvingHalves(s: string)
    ensures Lead(HalveSlashes(s)) == (Lead(s) + 1) / 2
    ensures SlashRun(HalveSlashes(s)) == (SlashRun(s) + 1) / 2
  {
    if |s| >= 2 && s[0] == '/' && s[1] == '/' {
      HalvingHalves(s[2..]);
      assert s[1..][1..] == s[2..];
      assert ("/" + HalveSlashes(s[2..]))[1..] == HalveSlashes(s[2..]);
    } else if s == "" {
    } else {
      HalvingHalves(s[1..]);
      assert ([s[0]] + HalveSlashes(s[1..]))[1..] == HalveSlashes(s[1..]);
    }
  }

  lemma {:induction false} HalvingShrinks(s: string)
    requires SlashRun(s) >= 2
    ensures |HalveSlashes(s)| < |s|
  {
    if |s| >= 2 && s[0] == '/' && s[1] == '/' {
    } else {
      assert Lead(s) <= 1 by {
        if |s| >= 2 && s[0] == '/' {
          assert s[1..][0] == s[1];
        }
      }
      HalvingShrinks(s[1..]);
    }
  }

  /** The guard of the loop. */
  lemma {:induction false} DoubleSlashIff(s: string)
    ensures Contains(s, "//") <==> SlashRun(s) >= 2
  {
    if s == "" {
    } else {
      hide Contains;
      DoubleSlashIff(s[1..]);
      if |s| >= 2 {
        assert s[0..2] == [s[0], s[1]];
        ContainsFirstOrRest(s, "//");
        LeadOfTwo(s);
      } else {
        assert s[1..] == "";
      }
    }
  }

  lemma LeadOfTwo(s: string)
    requires |s| >= 2
    ensures Lead(s) >= 2 <==> s[0] == '/' && s[1] == '/'
  {
    assert s[1..] != "" && s[1..][0] == s[1];
  }

  lemma ContainsFirstOrRest(s: string, sub: string)
    requires s != ""
    ensures Contains(s, sub) <==> OccursAt(s, sub, 0) || Contains(s[1..], sub)
  {
    var t := s[1..];
    assert s == [s[0]] + t;
    hide OccursAt;
    if Contains(s, sub) {
      var i := Index(s, sub);
      if i > 0 {
        OccursShift([s[0]], t, sub, i - 1);
        assert OccursAt(t, sub, i - 1);
      }
    }
    if Contains(t, sub) {
      OccursShift([s[0]], t, sub, Index(t, sub));
      assert OccursAt(s, sub, 1 + Index(t, sub));
    }
  }

  /** Squeezing does not notice a replacement. */
  lemma {:induction false} SqueezeAfterHalving(s: string)
    ensures Squeeze(HalveSlashes(s)) == Squeeze(s)
  {
    if |s| >= 2 && s[0] == '/' && s[1] == '/' {
      SqueezeAfterHalving(s[2..]);
      SqueezeHead("/", HalveSlashes(s[2..]));
      SqueezeHead("/", s[2..]);
      HalvingHalves(s[2..]);
      assert s[1..] == "/" + s[2..];
    } else if s == "" {
    } else {
      SqueezeAfterHalving(s[1..]);
      SqueezeHead([s[0]], HalveSlashes(s[1..]));
      SqueezeHead([s[0]], s[1..]);
      HalvingHalves(s[1..]);
      assert s == [s[0]] + s[1..];
    }
  }

  /** What a first char does to the squeezed rest. */
  lemma SqueezeHead(c: string, s: string)
    requires |c| == 1
    ensures Squeeze(c + s) == if c == "/" && Lead(s) > 0 then Squeeze(s) else c + Squeeze(s)
  {
    assert (c + s)[1..] == s;
  }

  lemma {:induction false} SqueezeIsIdle(s: string)
    requires SlashRun(s) <= 1
    ensures Squeeze(s) == s
  {
    if s == "" {
    } else {
      SqueezeIsIdle(s[1..]);
      assert s == [s[0]] + s[1..];
    }
  }

  // ------------------------------------------------------- the rules

  /** strings.Split(s, "/") */
  function Split(s: string): (parts: seq<string>)
    ensures |parts| >= 1
  {
    if s == "" then [""]
    else
      var rest := Split(s[1..]);
      if s[0] == '/' then [""] + rest else [[s[0]] + rest[0]] + rest[1..]
  }

  /** The verdict on a normalised path. */
  function Verdict(httpMethod: string, path: string, now: int): Option<Engine.Finding> {
    var parts := Split(path);
    if (httpMethod == "PUT" || httpMethod == "POST") && Contains(path, "/api/queues/") then
      Engine.WarnAlert("5.3", "management_resource_created", "http.request", parts[|parts| - 1], now)
    else if httpMethod == "POST" && Contains(path, "/api/exchanges/") && HasSuffix(path, "/publish") then
      var exchName := if |parts| >= 3 then parts[|parts| - 2] else "unknown";
      Engine.WarnAlert("5.4", "management_message_published", "http.request", exchName, now)
    else None
  }

  function Normal(path: string): string {
    TrimRight(Squeeze(path), {'/'})
  }

  lemma RoundArithmetic(run: nat, p: nat, first: nat)
    requires run >= 2 && p >= 1
    requires (run - 1) * p < first <= run * p
    ensures var h := (run + 1) / 2; (h - 1) * (2 * p) < first <= h * (2 * p) && p < first
  {
    var h := (run + 1) / 2;
    assert 2 * (h - 1) <= run - 1 && run <= 2 * h;
    assert (h - 1) * (2 * p) == (2 * (h - 1)) * p <= (run - 1) * p;
    assert run * p <= (2 * h) * p == h * (2 * p);
    assert p <= (run - 1) * p;
  }

  // ------------------------------------------------------- what the path says

  /** The length of the first path segment. */
  function SegmentEnd(s: string): (k: nat)
    ensures k <= |s| && (k < |s| ==> s[k] == '/') && forall i :: 0 <= i < k ==> s[i] != '/'
  {
    if s == "" || s[0] == '/' then 0 else 1 + SegmentEnd(s[1..])
  }

  /** The non-empty segments of a path. */
  function Segments(s: string): (segments: seq<string>)
    ensures forall i :: 0 <= i < |segments| ==> segments[i] != "" && '/' !in segments[i]
    decreases |s|
  {
    if s == "" then []
    else if s[0] == '/' then Segments(s[1..])
    else [s[..SegmentEnd(s)]] + Segments(s[SegmentEnd(s)..])
  }

  predicate Absolute(s: string) {
    s != "" && s[0] == '/'
  }

  function Join(absolute: bool, segments: seq<string>): string
    decreases |segments|
  {
    if segments == [] then ""
    else (if absolute then "/" else "") + segments[0] + Join(true, segments[1..])
  }

  lemma SqueezeOther(c: char, s: string)
    requires c != '/'
    ensures Squeeze([c] + s) == [c] + Squeeze(s)
  {
    assert ([c] + s)[1..] == s;
  }

  lemma {:induction false} SqueezeWord(w: string, s: string)
    requires '/' !in w
    ensures Squeeze(w + s) == w + Squeeze(s)
  {
    if w == "" {
      assert w + s == s;
    } else {
      assert w[0] in w;
      hide Squeeze;
      SqueezeWord(w[1..], s);
      SqueezeOther(w[0], w[1..] + s);
      assert w + s == [w[0]] + (w[1..] + s);
      assert w + Squeeze(s) == [w[0]] + (w[1..] + Squeeze(s));
    }
  }

  lemma {:induction false} TrimSlash(s: string)
    ensures TrimRight("/" + s, {'/'}) == if TrimRight(s, {'/'}) == "" then "" else "/" + TrimRight(s, {'/'})
  {
    if s == "" {
      assert "/" + s == "/" && "/"[..0] == "";
    } else if s[|s| - 1] == '/' {
      TrimSlash(s[..|s| - 1]);
      assert ("/" + s)[..|s|] == "/" + s[..|s| - 1];
    }
  }

  lemma NormalOfWord(w: string, r: string)
    requires w != "" && '/' !in w
    ensures Normal(w + r) == w + Normal(r)
  {
    hide Squeeze, TrimRight;
    assert w[|w| - 1] in w;
    SqueezeWord(w, r);
    TrimRightConcat(w, Squeeze(r), {'/'});
  }

  lemma NormalOfSlash(s: string)
    ensures Normal("/" + s) ==
            if Absolute(s) then Normal(s) else if Normal(s) == "" then "" else "/" + Normal(s)
  {
    SqueezeHead("/", s);
    hide Squeeze, TrimRight;
    TrimSlash(Squeeze(s));
  }

  /** Main result: the normalised path is determined by the non-empty segments and
      the leading slash; repeated and trailing slashes leave no trace. */
  lemma {:induction false} NormalIsJoinedSegments(s: string)
    ensures Normal(s) == Join(Absolute(s), Segments(s))
    decreases |s|
  {
    hide Normal, Join;
    NormalOfNothing();
    if s == "" {
    } else if s[0] == '/' {
      NormalIsJoinedSegments(s[1..]);
      assert s == "/" + s[1..];
      NormalOfSlash(s[1..]);
      JoinIsEmptyIff(Absolute(s[1..]), Segments(s[1..]));
    } else {
      var k := SegmentEnd(s);
      var w, r := s[..k], s[k..];
      NormalIsJoinedSegments(r);
      assert s == w + r && '/' !in w && w != "";
      NormalOfWord(w, r);
      JoinOfWord(w, Segments(r));
      assert Absolute(r) || Segments(r) == [];
    }
  }

  lemma NormalOfNothing()
    ensures Normal("") == "" && forall absolute :: Join(absolute, []) == ""
  {
  }

  lemma JoinOfWord(w: string, segments: seq<string>)
    ensures Join(false, [w] + segments) == w + Join(true, segments)
    ensures segments == [] ==> Join(false, segments) == Join(true, segments)
  {
    assert ([w] + segments)[1..] == segments;
    assert "" + w == w;
  }

  lemma JoinIsEmptyIff(absolute: bool, segments: seq<string>)
    requires forall i :: 0 <= i < |segments| ==> segments[i] != ""
    ensures Join(absolute, segments) == "" <==> segments == []
    ensures segments != [] ==> Join(true, segments) == "/" + Join(false, segments)
  {
    if segments != [] {
      var first, rest := segments[0], Join(true, segments[1..]);
      assert Join(true, segments) == "/" + first + rest && Join(false, segments) == "" + first + rest;
      assert "" + first == first && "/" + first + rest == "/" + (first + rest);
    }
  }

  lemma {:induction false} SplitWord(w: string, s: string)
    requires '/' !in w
    ensures Split(w + s) == [w + Split(s)[0]] + Split(s)[1..]
  {
    if w == "" {
      assert w + s == s && w + Split(s)[0] == Split(s)[0];
      assert [Split(s)[0]] + Split(s)[1..] == Split(s);
    } else {
      SplitWord(w[1..], s);
      assert (w + s)[1..] == w[1..] + s && w[0] in w;
      assert [w[0]] + (w[1..] + Split(s)[0]) == w + Split(s)[0];
    }
  }

  lemma {:induction false} SplitJoined(absolute: bool, segments: seq<string>)
    requires segments != []
    requires forall i :: 0 <= i < |segments| ==> segments[i] != "" && '/' !in segments[i]
    ensures Split(Join(absolute, segments)) == (if absolute then [""] else []) + segments
    decreases |segments|, absolute
  {
    if absolute {
      SplitJoined(false, segments);
      JoinIsEmptyIff(true, segments);
      assert ("/" + Join(false, segments))[1..] == Join(false, segments);
    } else {
      var w, rest := segments[0], Join(true, segments[1..]);
      assert Join(false, segments) == w + rest;
      SplitWord(w, rest);
      if segments[1..] == [] {
        assert w + "" == w;
      } else {
        SplitJoined(true, segments[1..]);
        assert w + "" == w;
        assert [w] + segments[1..] == segments;
      }
    }
  }

  /** Main result: paths that differ only in repeated or trailing slashes get the
      same verdict and the same entity. */
  lemma SlashesDoNotMatter(httpMethod: string, p: string, p': string, now: int)
    requires Segments(p) == Segments(p') && Absolute(p) == Absolute(p')
    ensures Verdict(httpMethod, Normal(p), now) == Verdict(httpMethod, Normal(p'), now)
  {
    NormalIsJoinedSegments(p);
    NormalIsJoinedSegments(p');
  }

  /** Main result: a queue created through the API is reported under its name, the
      last segment, whether a virtual host stands before it or the default one,
      written as an empty segment, vanished into the slashes. */
  lemma QueueCreationReportsTheName(httpMethod: string, path: string, now: int)
    requires httpMethod == "PUT" || httpMethod == "POST"
    requires Absolute(path) && |Segments(path)| >= 3 && Segments(path)[..2] == ["api", "queues"]
    ensures var segments := Segments(path);
            Verdict(httpMethod, Normal(path), now) ==
            Engine.WarnAlert("5.3", "management_resource_created", "http.request", segments[|segments| - 1], now)
  {
    hide Contains, Split, Normal, Join, Segments, HasSuffix;
    var segments := Segments(path);
    NormalIsJoinedSegments(path);
    SplitJoined(true, segments);
    ApiPrefix(segments, "queues");
    assert "/" + "api" + "/" + "queues" + "/" == "/api/queues/";
    var parts := Split(Normal(path));
    assert parts[|parts| - 1] == segments[|segments| - 1];
  }

  lemma ApiPrefix(segments: seq<string>, resource: string)
    requires |segments| >= 3 && segments[..2] == ["api", resource]
    ensures Contains(Join(true, segments), "/" + "api" + "/" + resource + "/")
  {
    hide Join, Contains;
    var rest := segments[2] + Join(true, segments[3..]);
    assert segments[0] == segments[..2][0] && segments[1] == segments[..2][1];
    JoinTwo(segments);
    assert "/" + segments[2] + Join(true, segments[3..]) == "/" + rest;
    SlashWords("api", resource, rest);
    PrefixOccurs("/" + "api" + "/" + resource + "/", rest);
  }

  lemma JoinTwo(segments: seq<string>)
    requires |segments| >= 3
    ensures Join(true, segments) ==
            "/" + segments[0] + ("/" + segments[1] + ("/" + segments[2] + Join(true, segments[3..])))
  {
    assert segments[1..][0] == segments[1] && segments[1..][1..] == segments[2..];
    assert segments[2..][0] == segments[2] && segments[2..][1..] == segments[3..];
    assert Join(true, segments[2..]) == "/" + segments[2] + Join(true, segments[3..]);
    assert Join(true, segments[1..]) == "/" + segments[1] + Join(true, segments[2..]);
  }

  lemma SlashWords(a: string, b: string, rest: string)
    ensures "/" + a + "/" + b + "/" + rest == "/" + a + ("/" + b + ("/" + rest))
  {
  }

  lemma PrefixOccurs(p: string, rest: string)
    ensures Contains(p + rest, p)
  {
    assert OccursAt(p + rest, p, 0);
  }

  /** Main result: a message published through the API is reported under its
      exchange, the segment before the last, virtual host or not. */
  lemma PublicationReportsTheExchange(path: string, now: int)
    requires Absolute(path) && |Segments(path)| >= 4 && Segments(path)[..2] == ["api", "exchanges"]
    requires Segments(path)[|Segments(path)| - 1] == "publish" && !Contains(Normal(path), "/api/queues/")
    ensures var segments := Segments(path);
            Verdict("POST", Normal(path), now) ==
            Engine.WarnAlert("5.4", "management_message_published", "http.request", segments[|segments| - 2], now)
  {
    hide Contains, Split, Normal, Join, Segments, HasSuffix;
    var segments := Segments(path);
    var n := |segments| - 1;
    NormalIsJoinedSegments(path);
    SplitJoined(true, segments);
    ApiPrefix(segments, "exchanges");
    assert "/" + "api" + "/" + "exchanges" + "/" == "/api/exchanges/";
    JoinLast(segments);
    EndsWith(Join(true, segments[..n]), "/" + "publish");
    assert "/" + "publish" == "/publish";
    var parts := Split(Normal(path));
    assert |parts| == n + 2 && parts[n] == segments[n - 1];
  }

  lemma {:induction false} JoinLast(segments: seq<string>)
    requires segments != []
    ensures var n := |segments| - 1; Join(true, segments) == Join(true, segments[..n]) + ("/" + segments[n])
  {
    var n := |segments| - 1;
    if n == 0 {
      assert "" + ("/" + segments[0]) == "/" + segments[0] + "";
    } else {
      var first, rest := segments[0], segments[1..];
      JoinLast(rest);
      assert rest[..n - 1] == segments[..n][1..] && rest[n - 1] == segments[n];
      var middle, last := Join(true, rest[..n - 1]), "/" + segments[n];
      assert "/" + first + (middle + last) == "/" + first + middle + last;
    }
  }

  lemma EndsWith(s: string, suffix: string)
    ensures HasSuffix(s + suffix, suffix)
  {
  }

  lemma NoSegments()
    ensures Segments("") == []
  {
  }

  lemma SegmentsAfterSlash(s: string)
    ensures Segments("/" + s) == Segments(s)
  {
    assert ("/" + s)[1..] == s;
  }

  lemma SegmentsOfWord(w: string, r: string)
    requires w != "" && '/' !in w && (r == "" || r[0] == '/')
    ensures Segments(w + r) == [w] + Segments(r)
  {
    var s := w + r;
    assert s[0] == w[0] && w[0] in w;
    assert forall i :: 0 <= i < |w| ==> s[i] == w[i] && w[i] in w;
    assert r != "" ==> s[|w|] == '/';
    assert SegmentEnd(s) == |w|;
    assert s[..|w|] == w && s[|w|..] == r;
  }

  lemma EmptySegmentVanishes(a: string, b: string, c: string)
    requires a != "" && b != "" && c != "" && '/' !in a && '/' !in b && '/' !in c
    ensures Segments("/" + (a + ("/" + (b + ("/" + ("/" + ("/" + c))))))) == [a, b, c]
  {
    NoSegments();
    hide Segments;
    var end, rest := "/" + ("/" + ("/" + c)), b + ("/" + ("/" + ("/" + c)));
    assert c + "" == c;
    SegmentsOfWord(c, "");
    SegmentsAfterSlash(c);
    SegmentsAfterSlash("/" + c);
    SegmentsAfterSlash("/" + ("/" + c));
    SegmentsOfWord(b, end);
    SegmentsAfterSlash(rest);
    SegmentsOfWord(a, "/" + rest);
    SegmentsAfterSlash(a + ("/" + rest));
  }

  /** The default virtual host, for every queue name. */
  lemma DefaultVhostQueue(httpMethod: string, name: string, now: int)
    requires httpMethod == "PUT" || httpMethod == "POST"
    requires name != "" && '/' !in name
    ensures Verdict(httpMethod, Normal("/api/queues///" + name), now) ==
            Engine.WarnAlert("5.3", "management_resource_created", "http.request", name, now)
  {
    hide Verdict, Normal, Segments;
    var path := "/api/queues///" + name;
    assert path == "/" + ("api" + ("/" + ("queues" + ("/" + ("/" + ("/" + name))))));
    EmptySegmentVanishes("api", "queues", name);
    QueueCreationReportsTheName(httpMethod, path, now);
  }

  // ------------------------------------------------------- what is reported

  /** Somewhere behind a slash the path goes on with api, the resource and something
      below it. */
  ghost predicate Below(segments: seq<string>, absolute: bool, resource: string)
    ensures Below(segments, absolute, resource) ==> |segments| >= 3
  {
    exists i :: 0 <= i < |segments| - 2 && (absolute || i > 0) && segments[i] == "api" && segments[i + 1] == resource
  }

  lemma NotPrefix(t: string, p: string, k: nat)
    requires k < |p| && (k < |t| ==> t[k] != p[k])
    ensures !(p <= t)
  {
  }

  lemma SplitPrefix(t: string, p: string, k: nat)
    requires k <= |t| && k <= |p|
    ensures p <= t <==> p[..k] == t[..k] && p[k..] <= t[k..]
  {
    if p[..k] == t[..k] && p[k..] <= t[k..] {
      assert p == p[..k] + p[k..] && t == t[..k] + t[k..];
    }
  }

  /** The first word of a path is the word before its first slash. */
  lemma FirstWord(a: string, x: string, b: string, y: string)
    requires '/' !in a && '/' !in b && (x == "" || x[0] == '/') && y != "" && y[0] == '/'
    ensures b + y <= a + x <==> a == b && y <= x
  {
    var t, p := a + x, b + y;
    if |b| < |a| {
      assert t[|b|] == a[|b|] && a[|b|] in a && p[|b|] == y[0];
      NotPrefix(t, p, |b|);
    } else if |a| < |b| {
      assert p[|a|] == b[|a|] && b[|a|] in b;
      assert x != "" ==> t[|a|] == x[0];
      NotPrefix(t, p, |a|);
    } else {
      assert t[..|a|] == a && p[..|a|] == b && t[|a|..] == x && p[|a|..] == y;
      SplitPrefix(t, p, |a|);
    }
  }

  lemma OccursFirst(s: string, sub: string)
    ensures OccursAt(s, sub, 0) <==> sub <= s
  {
  }

  lemma JoinHead(segments: seq<string>)
    requires segments != []
    ensures Join(true, segments) == "/" + (segments[0] + Join(true, segments[1..]))
    ensures Join(false, segments) == segments[0] + Join(true, segments[1..])
  {
    var first, rest := segments[0], Join(true, segments[1..]);
    assert "/" + first + rest == "/" + (first + rest) && "" + first + rest == first + rest;
  }

  lemma JoinStartsWithSlash(segments: seq<string>)
    ensures Join(true, segments) == "" || Join(true, segments)[0] == '/'
    ensures Join(true, segments) == "" <==> segments == []
  {
  }

  /** The searched text stands in front of a path iff the first two segments are its
      words and a third one follows. */
  lemma StartsBelow(segments: seq<string>, a: string, b: string)
    requires '/' !in a && '/' !in b && forall i :: 0 <= i < |segments| ==> '/' !in segments[i]
    ensures "/" + (a + ("/" + (b + "/"))) <= Join(true, segments) <==>
            |segments| >= 3 && segments[0] == a && segments[1] == b
  {
    hide Join;
    if segments == [] {
      JoinStartsWithSlash(segments);
    } else {
      var rest := segments[1..];
      JoinHead(segments);
      JoinStartsWithSlash(rest);
      SlashFirst(a + ("/" + (b + "/")), segments[0] + Join(true, rest));
      FirstWord(segments[0], Join(true, rest), a, "/" + (b + "/"));
      if rest != [] {
        JoinHead(rest);
        JoinStartsWithSlash(rest[1..]);
        SlashFirst(b + "/", rest[0] + Join(true, rest[1..]));
        FirstWord(rest[0], Join(true, rest[1..]), b, "/");
        assert "/" <= Join(true, rest[1..]) <==> rest[1..] != [];
      }
    }
  }

  lemma SlashFirst(p: string, t: string)
    ensures "/" + p <= "/" + t <==> p <= t
  {
    if "/" + p <= "/" + t {
      assert ("/" + t)[..|p| + 1] == "/" + p;
      assert t[..|p|] == ("/" + t)[1..|p| + 1] == ("/" + p)[1..] == p;
    }
  }

  /** Search for a text of two words between slashes. */
  lemma {:induction false} SearchIsBelow(segments: seq<string>, a: string, b: string)
    requires '/' !in a && '/' !in b && forall i :: 0 <= i < |segments| ==> '/' !in segments[i]
    ensures Contains(Join(true, segments), "/" + (a + ("/" + (b + "/")))) <==>
            exists i :: 0 <= i < |segments| - 2 && segments[i] == a && segments[i + 1] == b
  {
    hide Contains, Join;
    var p := "/" + (a + ("/" + (b + "/")));
    JoinStartsWithSlash(segments);
    if segments == [] {
      NothingContains(p);
    } else {
      var rest := segments[1..];
      var text := Join(true, segments);
      SearchIsBelow(rest, a, b);
      StartsBelow(segments, a, b);
      JoinHead(segments);
      ContainsFirstOrRest(text, p);
      OccursFirst(text, p);
      assert text[1..] == segments[0] + Join(true, rest);
      ContainsAfter(segments[0], Join(true, rest), p);
      assert Contains(text, p) <==> p <= text || Contains(Join(true, rest), p);
      BelowStep(segments, a, b);
    }
  }

  lemma BelowStep(segments: seq<string>, a: string, b: string)
    requires segments != []
    ensures (exists i :: 0 <= i < |segments| - 2 && segments[i] == a && segments[i + 1] == b) <==>
            (|segments| >= 3 && segments[0] == a && segments[1] == b) ||
            exists i :: 0 <= i < |segments[1..]| - 2 && segments[1..][i] == a && segments[1..][i + 1] == b
  {
    var rest := segments[1..];
    assert forall i :: 0 <= i < |rest| ==> rest[i] == segments[i + 1];
    if i :| 0 <= i < |segments| - 2 && segments[i] == a && segments[i + 1] == b {
      if i > 0 {
        assert rest[i - 1] == a && rest[i - 1 + 1] == b;
      }
    }
    if i :| 0 <= i < |rest| - 2 && rest[i] == a && rest[i + 1] == b {
      assert segments[i + 1] == a && segments[i + 1 + 1] == b;
    }
  }

  lemma NothingContains(sub: string)
    requires sub != ""
    ensures !Contains("", sub)
  {
  }

  /** The substring search of the rules, asked of the segments. */
  lemma SearchedIffBelow(segments: seq<string>, absolute: bool, resource: string)
    requires '/' !in resource && forall i :: 0 <= i < |segments| ==> '/' !in segments[i]
    ensures Contains(Join(absolute, segments), "/" + ("api" + ("/" + (resource + "/")))) <==>
            Below(segments, absolute, resource)
  {
    hide Contains, Join;
    var p := "/" + ("api" + ("/" + (resource + "/")));
    if segments == [] {
      EmptyJoin(absolute);
      NothingContains(p);
    } else if absolute {
      SearchIsBelow(segments, "api", resource);
    } else {
      var rest := segments[1..];
      JoinHead(segments);
      ContainsAfter(segments[0], Join(true, rest), p);
      SearchIsBelow(rest, "api", resource);
      BelowFromSecond(segments, resource);
    }
  }

  lemma EmptyJoin(absolute: bool)
    ensures Join(absolute, []) == ""
  {
  }

  lemma BelowFromSecond(segments: seq<string>, resource: string)
    requires segments != []
    ensures Below(segments, false, resource) <==>
            exists i :: 0 <= i < |segments[1..]| - 2 && segments[1..][i] == "api" && segments[1..][i + 1] == resource
  {
    var rest := segments[1..];
    assert forall i :: 0 <= i < |rest| ==> rest[i] == segments[i + 1];
    if i :| 0 < i < |segments| - 2 && segments[i] == "api" && segments[i + 1] == resource {
      assert rest[i - 1] == "api" && rest[i - 1 + 1] == resource;
    }
    if i :| 0 <= i < |rest| - 2 && rest[i] == "api" && rest[i + 1] == resource {
      assert segments[i + 1] == "api" && segments[i + 1 + 1] == resource;
    }
  }

  lemma NotSuffix(t: string, p: string, k: nat)
    requires k < |p| && (|t| >= |p| ==> t[|t| - |p| + k] != p[k])
    ensures !HasSuffix(t, p)
  {
    if |t| >= |p| {
      assert t[|t| - |p|..][k] == t[|t| - |p| + k];
    }
  }

  /** Where a word behind a slash ends a text. */
  lemma SuffixWord(x: string, a: string, w: string)
    requires '/' !in a && '/' !in w
    ensures HasSuffix(x + ("/" + a), "/" + w) <==> a == w
  {
    var t, p := x + ("/" + a), "/" + w;
    if |w| < |a| {
      var k := |a| - |w| - 1;
      assert t[|t| - |p|] == a[k] && a[k] in a;
      NotSuffix(t, p, 0);
    } else if |a| < |w| {
      var k := |w| - |a|;
      assert p[k] == w[k - 1] && w[k - 1] in w;
      assert |t| >= |p| ==> t[|t| - |p| + k] == '/';
      NotSuffix(t, p, k);
    } else {
      assert t[|t| - |p|..] == "/" + a;
      assert ("/" + a)[1..] == a && p[1..] == w;
    }
  }

  lemma EndsWithWord(segments: seq<string>, absolute: bool, w: string)
    requires |segments| >= 2 && '/' !in w && forall i :: 0 <= i < |segments| ==> '/' !in segments[i]
    ensures HasSuffix(Join(absolute, segments), "/" + w) <==> segments[|segments| - 1] == w
  {
    hide Join, HasSuffix;
    var n := |segments| - 1;
    if absolute {
      JoinLast(segments);
      SuffixWord(Join(true, segments[..n]), segments[n], w);
    } else {
      var rest := segments[1..];
      JoinHead(segments);
      JoinLast(rest);
      var x, y, z := segments[0], Join(true, rest[..n - 1]), "/" + segments[n];
      assert x + (y + z) == x + y + z;
      SuffixWord(x + y, segments[n], w);
    }
  }

  /** Main result: for every HTTP method and path, which finding is made, if any. */
  lemma WhatIsReported(httpMethod: string, path: string, now: int)
    ensures var segments := Segments(path);
            Verdict(httpMethod, Normal(path), now) ==
            if (httpMethod == "PUT" || httpMethod == "POST") && Below(segments, Absolute(path), "queues") then
              Some(Engine.Finding(Engine.Warn, "5.3", "management_resource_created", "http.request",
                                  segments[|segments| - 1], None, now))
            else if httpMethod == "POST" && Below(segments, Absolute(path), "exchanges") &&
                    segments[|segments| - 1] == "publish" then
              Some(Engine.Finding(Engine.Warn, "5.4", "management_message_published", "http.request",
                                  segments[|segments| - 2], None, now))
            else None
  {
    hide Contains, Split, Normal, Join, Segments, HasSuffix, Below;
    var segments, absolute := Segments(path), Absolute(path);
    NormalIsJoinedSegments(path);
    SearchedIffBelow(segments, absolute, "queues");
    SearchedIffBelow(segments, absolute, "exchanges");
    assert "/" + ("api" + ("/" + ("queues" + "/"))) == "/api/queues/";
    assert "/" + ("api" + ("/" + ("exchanges" + "/"))) == "/api/exchanges/";
    assert "/" + "publish" == "/publish";
    if |segments| >= 3 {
      SplitJoined(absolute, segments);
      EndsWithWord(segments, absolute, "publish");
      var parts, n := Split(Normal(path)), |segments|;
      assert parts[|parts| - 1] == segments[n - 1] && parts[|parts| - 2] == segments[n - 2];
    }
  }

  /** Main result: which requests are reported, and as what, asked of the HTTP method and
      the segments of the path; and the loop terminates, in exactly the number of rounds
      the longest run of slashes takes to be halved to one. */
  method EvaluateHTTPRequest(httpMethod: string, urlPath: string, now: int)
    returns (alert: Option<Engine.Finding>, ghost rounds: nat)
    ensures var segments := Segments(urlPath);
            alert ==
            if (httpMethod == "PUT" || httpMethod == "POST") && Below(segments, Absolute(urlPath), "queues") then
              Some(Engine.Finding(Engine.Warn, "5.3", "management_resource_created", "http.request",
                                  segments[|segments| - 1], None, now))
            else if httpMethod == "POST" && Below(segments, Absolute(urlPath), "exchanges") &&
                    segments[|segments| - 1] == "publish" then
              Some(Engine.Finding(Engine.Warn, "5.4", "management_message_published", "http.request",
                                  segments[|segments| - 2], None, now))
            else None
    ensures alert == Verdict(httpMethod, Normal(urlPath), now)
    ensures SlashRun(urlPath) <= Pow2(rounds)
    ensures rounds > 0 ==> Pow2(rounds - 1) < SlashRun(urlPath)
  {
    hide Contains, Squeeze, SlashRun, HalveSlashes, Split, TrimRight, HasSuffix, Below, Segments;
    WhatIsReported(httpMethod, urlPath, now);
    var path := urlPath;
    rounds := 0;
    DoubleSlashIff(path);
    while Contains(path, "//")
      invariant Contains(path, "//") <==> SlashRun(path) >= 2
      invariant Squeeze(path) == Squeeze(urlPath)
      invariant (SlashRun(path) - 1) * Pow2(rounds) < SlashRun(urlPath) <= SlashRun(path) * Pow2(rounds)
             || SlashRun(path) == SlashRun(urlPath) == 0
      invariant rounds > 0 ==> Pow2(rounds - 1) < SlashRun(urlPath)
      decreases |path|
    {
      HalvingHalves(path);
      HalvingShrinks(path);
      SqueezeAfterHalving(path);
      RoundArithmetic(SlashRun(path), Pow2(rounds), SlashRun(urlPath));
      path := HalveSlashes(path);
      rounds := rounds + 1;
      DoubleSlashIff(path);
    }
    SqueezeIsIdle(path);
    path := TrimRight(path, {'/'});
    var parts := Split(path);
    if (httpMethod == "PUT" || httpMethod == "POST") && Contains(path, "/api/queues/") {
      var queueName := parts[|parts| - 1];
      alert := Engine.WarnAlert("5.3", "management_resource_created", "http.request", queueName, now);
    } else if httpMethod == "POST" && Contains(path, "/api/exchanges/") && HasSuffix(path, "/publish") {
      var exchName := "unknown";
      if |parts| >= 3 {
        exchName := parts[|parts| - 2];
      }
      alert := Engine.WarnAlert("5.4", "management_message_published", "http.request", exchName, now);
    } else {
      alert := None;
    }
  }
}
