/** Choosing the events shown to the model (internal/ai/agent.go,
    filterSignificant): errors first, then warnings, then the rest, cut off at a
    maximum. */
module Severity {
  import opened Wrappers
  import opened Alerts

  function Rank(a: Alert): (r: nat)
    ensures r <= 2
  {
    match a.severity
    case "error" => 0
    case "warn" => 1
    case _ => 2
  }

  /** The alerts of one rank, in order. */
  function OfRank(alerts: seq<Alert>, rank: nat): seq<Alert> {
    if alerts == [] then []
    else
      var front := OfRank(alerts[..|alerts| - 1], rank);
      var a := alerts[|alerts| - 1];
      if Rank(a) == rank then front + [a] else front
  }

  function BySeverity(alerts: seq<Alert>): seq<Alert> {
    OfRank(alerts, 0) + OfRank(alerts, 1) + OfRank(alerts, 2)
  }

  /** What stands before the l-th of three lists. */
  function Before(e: seq<Alert>, w: seq<Alert>, i: seq<Alert>, l: nat): seq<Alert> {
    if l == 0 then [] else if l == 1 then e else if l == 2 then e + w else e + w + i
  }

  lemma ListPrefix(e: seq<Alert>, w: seq<Alert>, i: seq<Alert>, l: nat, k: nat)
    requires l < 3 && k <= |[e, w, i][l]|
    ensures Before(e, w, i, l) + [e, w, i][l][..k] <= e + w + i
  {
  }

  /** The first min(n, maxCount) alerts of the order by severity. */
  method FilterSignificant(alerts: seq<Alert>, maxCount: nat) returns (result: seq<Alert>)
    ensures result == BySeverity(alerts)[..Min(|BySeverity(alerts)|, maxCount)]
  {
    hide OfRank, Rank;
    var errors, warns, infos: seq<Alert> := [], [], [];
    OfRankOfNothing(alerts);
    for i := 0 to |alerts|
      invariant errors == OfRank(alerts[..i], 0)
      invariant warns == OfRank(alerts[..i], 1)
      invariant infos == OfRank(alerts[..i], 2)
    {
      OfRankStep(alerts, i);
      match alerts[i].severity {
        case "error" => errors := errors + [alerts[i]];
        case "warn" => warns := warns + [alerts[i]];
        case _ => infos := infos + [alerts[i]];
      }
    }
    assert alerts[..|alerts|] == alerts;
    ghost var all := BySeverity(alerts);
    assert all == errors + warns + infos;
    hide BySeverity;
    var lists := [errors, warns, infos];
    result := [];
    for l := 0 to |lists|
      invariant result == Before(errors, warns, infos, l) && |result| <= maxCount
    {
      for k := 0 to |lists[l]|
        invariant result == Before(errors, warns, infos, l) + lists[l][..k] && |result| <= maxCount
      {
        if |result| >= maxCount {
          ListPrefix(errors, warns, infos, l, k);
          return;
        }
        result := result + [lists[l][k]];
      }
      assert lists[l][..|lists[l]|] == lists[l];
    }
  }

  lemma OfRankOfNothing(alerts: seq<Alert>)
    ensures forall r :: OfRank(alerts[..0], r) == []
  {
  }

  lemma OfRankStep(alerts: seq<Alert>, i: nat)
    requires i < |alerts|
    ensures forall r :: OfRank(alerts[..i + 1], r) ==
                        OfRank(alerts[..i], r) + if Rank(alerts[i]) == r then [alerts[i]] else []
    ensures Rank(alerts[i]) == match alerts[i].severity case "error" => 0 case "warn" => 1 case _ => 2
  {
    assert alerts[..i + 1][..i] == alerts[..i];
  }

  // ------------------------------------------------------- a stable sort

  ghost predicate Sorted(s: seq<Alert>) {
    forall i, j :: 0 <= i < j < |s| ==> Rank(s[i]) <= Rank(s[j])
  }

  lemma {:induction false} OfRankConcat(s: seq<Alert>, t: seq<Alert>, rank: nat)
    ensures OfRank(s + t, rank) == OfRank(s, rank) + OfRank(t, rank)
  {
    if t == [] {
      assert s + t == s;
    } else {
      var n := |t| - 1;
      OfRankConcat(s, t[..n], rank);
      assert (s + t)[..|s + t| - 1] == s + t[..n];
    }
  }

  lemma {:induction false} OfRankUniform(s: seq<Alert>, rank: nat)
    ensures forall i :: 0 <= i < |OfRank(s, rank)| ==> Rank(OfRank(s, rank)[i]) == rank
    ensures forall r :: OfRank(OfRank(s, rank), r) == if r == rank then OfRank(s, rank) else []
  {
    if s == [] {
    } else {
      var front := OfRank(s[..|s| - 1], rank);
      OfRankUniform(s[..|s| - 1], rank);
      forall r
        ensures OfRank(OfRank(s, rank), r) == if r == rank then OfRank(s, rank) else []
      {
        OfRankConcat(front, [s[|s| - 1]], r);
      }
    }
  }

  lemma {:induction false} RanksPartition(s: seq<Alert>)
    ensures multiset(s) == multiset(OfRank(s, 0)) + multiset(OfRank(s, 1)) + multiset(OfRank(s, 2))
  {
    if s == [] {
    } else {
      var n := |s| - 1;
      RanksPartition(s[..n]);
      assert s == s[..n] + [s[n]];
    }
  }

  /** Main result: the order by severity is a stable sort, a sorted permutation
      that keeps the order within each severity. */
  lemma BySeverityIsAStableSort(s: seq<Alert>)
    ensures Sorted(BySeverity(s))
    ensures multiset(BySeverity(s)) == multiset(s)
    ensures forall r :: 0 <= r <= 2 ==> OfRank(BySeverity(s), r) == OfRank(s, r)
  {
    hide Rank, OfRank;
    var e, w, o := OfRank(s, 0), OfRank(s, 1), OfRank(s, 2);
    OfRankUniform(s, 0);
    OfRankUniform(s, 1);
    OfRankUniform(s, 2);
    RanksPartition(s);
    forall r | 0 <= r <= 2
      ensures OfRank(BySeverity(s), r) == OfRank(s, r)
    {
      OfRankConcat(e + w, o, r);
      OfRankConcat(e, w, r);
    }
  }

  /** Main result: it is the only one, so nothing else could be meant. */
  lemma StableSortIsUnique(s: seq<Alert>, t: seq<Alert>)
    requires Sorted(t)
    requires forall r :: 0 <= r <= 2 ==> OfRank(t, r) == OfRank(s, r)
    ensures t == BySeverity(s)
  {
    SortedIsByRank(t);
  }

  lemma {:induction false} NoneOfRank(s: seq<Alert>, r: nat, top: nat)
    requires top < r && forall i :: 0 <= i < |s| ==> Rank(s[i]) <= top
    ensures OfRank(s, r) == []
  {
    if s == [] {
    } else {
      NoneOfRank(s[..|s| - 1], r, top);
    }
  }

  lemma OfRankLast(t: seq<Alert>, rank: nat)
    requires t != []
    ensures var n := |t| - 1;
            OfRank(t, rank) == if Rank(t[n]) == rank then OfRank(t[..n], rank) + [t[n]] else OfRank(t[..n], rank)
  {
  }

  /** Appending to the last non-empty of three lists. */
  lemma AppendToLast(e: seq<Alert>, w: seq<Alert>, i: seq<Alert>, x: Alert)
    ensures e + w + (i + [x]) == e + w + i + [x]
    ensures i == [] ==> e + (w + [x]) + i == e + w + i + [x]
    ensures w == i == [] ==> e + [x] + w + i == e + w + i + [x]
  {
  }

  lemma LastRanksHighest(t: seq<Alert>)
    requires Sorted(t) && t != []
    ensures var n := |t| - 1; Sorted(t[..n]) && forall i :: 0 <= i < n ==> Rank(t[..n][i]) <= Rank(t[n])
  {
  }

  lemma {:induction false} SortedIsByRank(t: seq<Alert>)
    requires Sorted(t)
    ensures t == OfRank(t, 0) + OfRank(t, 1) + OfRank(t, 2)
  {
    hide OfRank, Rank, Sorted;
    if t == [] {
      OfRankOfNothing(t);
      assert t[..0] == t;
    } else {
      var front, last := t[..|t| - 1], t[|t| - 1];
      LastRanksHighest(t);
      SortedIsByRank(front);
      OfRankLast(t, 0);
      OfRankLast(t, 1);
      OfRankLast(t, 2);
      if Rank(last) < 2 {
        NoneOfRank(front, 2, Rank(last));
      }
      if Rank(last) < 1 {
        NoneOfRank(front, 1, Rank(last));
      }
      AppendToLast(OfRank(front, 0), OfRank(front, 1), OfRank(front, 2), last);
      assert t == front + [last];
    }
  }

  lemma PrefixOutranks(all: seq<Alert>, n: nat)
    requires Sorted(all) && n <= |all|
    ensures forall a, b :: a in all[..n] && b in all[n..] ==> Rank(a) <= Rank(b)
  {
    hide Rank;
    forall a, b | a in all[..n] && b in all[n..]
      ensures Rank(a) <= Rank(b)
    {
      var i :| 0 <= i < n && all[..n][i] == a;
      var j :| 0 <= j < |all[n..]| && all[n..][j] == b;
      assert all[i] == a && all[n + j] == b;
    }
  }

  /** Main result: no alert left out outranks one shown, and together they are all
      the alerts. */
  lemma NothingImportantIsOmitted(alerts: seq<Alert>, maxCount: nat)
    ensures var n := Min(|BySeverity(alerts)|, maxCount);
            var shown, omitted := BySeverity(alerts)[..n], BySeverity(alerts)[n..];
            && (forall a, b :: a in shown && b in omitted ==> Rank(a) <= Rank(b))
            && multiset(shown) + multiset(omitted) == multiset(alerts)
            && |shown| == Min(|alerts|, maxCount)
    ensures var n := Min(|BySeverity(alerts)|, maxCount);
            forall a, b :: a in BySeverity(alerts)[..n] && b in BySeverity(alerts)[n..] ==>
              && (b.severity == "error" ==> a.severity == "error")
              && (b.severity == "warn" ==> a.severity == "error" || a.severity == "warn")
  {
    hide Rank, OfRank, BySeverity, Sorted;
    BySeverityIsAStableSort(alerts);
    var all := BySeverity(alerts);
    var n := Min(|all|, maxCount);
    assert all == all[..n] + all[n..];
    assert |multiset(all)| == |multiset(alerts)|;
    PrefixOutranks(all, n);
    forall a, b | a in all[..n] && b in all[n..]
      ensures b.severity == "error" ==> a.severity == "error"
      ensures b.severity == "warn" ==> a.severity == "error" || a.severity == "warn"
    {
      OutranksInWords(a, b);
    }
  }

  lemma OutranksInWords(a: Alert, b: Alert)
    requires Rank(a) <= Rank(b)
    ensures b.severity == "error" ==> a.severity == "error"
    ensures b.severity == "warn" ==> a.severity == "error" || a.severity == "warn"
  {
  }
}
