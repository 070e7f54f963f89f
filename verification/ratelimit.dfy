/** The per-key sliding-window rate limiter of internal/auth/ratelimit.go.

    `SlidingWindowLimiter.Allow` keeps, per API key, only the admission times
    that were still inside the last minute at the key's previous request.  The
    lemmas below compare that pruned list with the full admission history. */
module RateLimit {

  /** Times are integers in nanoseconds, as in Go's time.Duration. */
  const MINUTE: int := 60_000_000_000

  datatype Request = Request(key: string, limit: int, now: int)

  // ---------------------------------------------------------------- model

  /** The times strictly after the cutoff, in order. */
  function Recent(ts: seq<int>, cutoff: int): seq<int> {
    if ts == [] then []
    else
      var front := Recent(ts[..|ts| - 1], cutoff);
      var t := ts[|ts| - 1];
      if t > cutoff then front + [t] else front
  }

  /** What the source's map lookup yields: an absent key reads as no times. */
  function Window(windows: map<string, seq<int>>, key: string): seq<int> {
    if key in windows then windows[key] else []
  }

  /** The decision for request `q` when the stored lists are `windows`. */
  predicate Admits(windows: map<string, seq<int>>, q: Request) {
    |Recent(Window(windows, q.key), q.now - MINUTE)| < q.limit
  }

  /** The stored lists after request `q`. */
  function Store(windows: map<string, seq<int>>, q: Request): map<string, seq<int>> {
    var recent := Recent(Window(windows, q.key), q.now - MINUTE);
    windows[q.key := if Admits(windows, q) then recent + [q.now] else recent]
  }

  /** The stored lists after a whole run, starting from a new limiter. */
  function Windows(run: seq<Request>): map<string, seq<int>> {
    if run == [] then map[]
    else Store(Windows(run[..|run| - 1]), run[|run| - 1])
  }

  /** The answers given during a run, one per request. */
  function Verdicts(run: seq<Request>): (v: seq<bool>)
    ensures |v| == |run|
  {
    if run == [] then []
    else
      var before := run[..|run| - 1];
      Verdicts(before) + [Admits(Windows(before), run[|run| - 1])]
  }

  // ------------------------------------------------------- the reference

  /** Every time at which a request of `key` was admitted; nothing is ever pruned. */
  function Admitted(run: seq<Request>, verdicts: seq<bool>, key: string): seq<int>
    requires |run| == |verdicts|
  {
    if run == [] then []
    else
      var n := |run| - 1;
      var front := Admitted(run[..n], verdicts[..n], key);
      if run[n].key == key && verdicts[n] then front + [run[n].now] else front
  }

  function History(run: seq<Request>, key: string): seq<int> {
    Admitted(run, Verdicts(run), key)
  }

  /** How many of the times lie in the trailing minute (x - 60s, x], in nanoseconds. */
  function InWindow(ts: seq<int>, x: int): nat {
    if ts == [] then 0
    else
      var t := ts[|ts| - 1];
      InWindow(ts[..|ts| - 1], x) + if x - 60_000_000_000 < t <= x then 1 else 0
  }

  /** The limiter reads a monotonic clock under its lock. */
  ghost predicate Monotone(run: seq<Request>) {
    forall i, j :: 0 <= i <= j < |run| ==> run[i].now <= run[j].now
  }

  ghost predicate Past(ts: seq<int>, now: int) {
    forall i :: 0 <= i < |ts| ==> ts[i] <= now
  }

  ghost predicate NoLaterThan(run: seq<Request>, now: int) {
    forall i :: 0 <= i < |run| ==> run[i].now <= now
  }

  // ------------------------------------------------------- the class

  class SlidingWindowLimiter {
    var windows: map<string, seq<int>>
    ghost var run: seq<Request>  // every request seen so far

    ghost predicate Valid()
      reads this
    {
      Monotone(run) && windows == Windows(run)
    }

    constructor ()
      ensures Valid() && run == []
    {
      windows := map[];
      run := [];
    }

    /** `now` is the clock reading taken under the lock.  The answer is stated
        against the unpruned history, not against the stored list. */
    method Allow(keyID: string, limit: int, now: int) returns (ok: bool)
      requires Valid() && NoLaterThan(run, now)
      modifies this
      ensures Valid()
      ensures run == old(run) + [Request(keyID, limit, now)]
      ensures ok <==> InWindow(History(old(run), keyID), now) < limit
      ensures History(run, keyID) == History(old(run), keyID) + if ok then [now] else []
      ensures forall k :: k != keyID ==> History(run, k) == History(old(run), k)
      ensures windows == Store(old(windows), Request(keyID, limit, now))
    {
      hide Windows, History, Verdicts, InWindow, Recent, Monotone, NoLaterThan;
      ghost var q := Request(keyID, limit, now);
      var cutoff := now - MINUTE;
      var stored := if keyID in windows then windows[keyID] else [];
      var recent: seq<int> := [];
      RecentOfNothing(stored, cutoff);
      for i := 0 to |stored|
        invariant recent == Recent(stored[..i], cutoff)
        invariant unchanged(this)
      {
        RecentSnoc(stored[..i], stored[i], cutoff);
        assert stored[..i + 1] == stored[..i] + [stored[i]];
        if stored[i] > cutoff {
          recent := recent + [stored[i]];
        }
      }
      assert stored[..|stored|] == stored;
      AllowStep(run, q);
      run := run + [q];
      if |recent| >= limit {
        windows := windows[keyID := recent];
        return false;
      }
      windows := windows[keyID := recent + [now]];
      return true;
    }
  }

  /** One request, all at once: what the limiter does to its state and history. */
  lemma AllowStep(run: seq<Request>, q: Request)
    requires Monotone(run) && NoLaterThan(run, q.now)
    ensures Monotone(run + [q]) && Windows(run + [q]) == Store(Windows(run), q)
    ensures Admits(Windows(run), q) <==> InWindow(History(run, q.key), q.now) < q.limit
    ensures forall k :: History(run + [q], k) ==
                        History(run, k) + if k == q.key && Admits(Windows(run), q) then [q.now] else []
  {
    hide History, InWindow, Recent;
    assert (run + [q])[..|run|] == run;
    AdmitsIffRoom(run, q);
    HistoryStep(run, q);
  }

  // ------------------------------------------------------- exactness

  lemma RunStep(run: seq<Request>, q: Request)
    ensures Windows(run + [q]) == Store(Windows(run), q)
    ensures Verdicts(run + [q]) == Verdicts(run) + [Admits(Windows(run), q)]
  {
    assert (run + [q])[..|run|] == run;
  }

  lemma HistoryStep(run: seq<Request>, q: Request)
    ensures forall k :: History(run + [q], k) ==
                        History(run, k) + if k == q.key && Admits(Windows(run), q) then [q.now] else []
  {
    hide Windows, Verdicts, Admits;
    RunStep(run, q);
    var all := run + [q];
    assert all[..|run|] == run;
    assert Verdicts(all)[..|run|] == Verdicts(run);
  }

  lemma StoreAt(w: map<string, seq<int>>, q: Request, key: string)
    ensures Window(Store(w, q), key) ==
            if key == q.key then Recent(Window(w, key), q.now - MINUTE) + (if Admits(w, q) then [q.now] else [])
            else Window(w, key)
  {
  }

  lemma {:induction false} HistoryIsPast(run: seq<Request>, key: string, now: int)
    requires NoLaterThan(run, now)
    ensures Past(History(run, key), now)
  {
    if run == [] {
    } else {
      var before, q := run[..|run| - 1], run[|run| - 1];
      HistoryIsPast(before, key, now);
      HistoryStep(before, q);
      assert run == before + [q];
    }
  }

  /** Filtering twice is filtering at the later cutoff. */
  lemma {:induction false} RecentTwice(ts: seq<int>, c: int, d: int)
    requires c <= d
    ensures Recent(Recent(ts, c), d) == Recent(ts, d)
  {
    if ts == [] {
    } else {
      var front, t := ts[..|ts| - 1], ts[|ts| - 1];
      RecentTwice(front, c, d);
      if t > c {
        assert (Recent(front, c) + [t])[..|Recent(front, c)|] == Recent(front, c);
      }
    }
  }

  lemma RecentOfNothing(ts: seq<int>, c: int)
    ensures Recent(ts[..0], c) == []
  {
  }

  lemma RecentSnoc(ts: seq<int>, t: int, c: int)
    ensures Recent(ts + [t], c) == Recent(ts, c) + if t > c then [t] else []
  {
    assert (ts + [t])[..|ts|] == ts;
  }

  lemma NothingYet(key: string)
    ensures Window(Windows([]), key) == [] == History([], key)
  {
  }

  /** Main result: what pruning threw away can never matter again.  For every
      cutoff a later request may use, the stored list and the complete
      admission history filter to the same sequence. */
  lemma {:induction false} PruningIsInvisible(run: seq<Request>, key: string, cutoff: int)
    requires Monotone(run)
    requires forall i :: 0 <= i < |run| ==> run[i].now - MINUTE <= cutoff
    ensures Recent(Window(Windows(run), key), cutoff) == Recent(History(run, key), cutoff)
  {
    hide Recent, Store, Windows, History, Admits;
    if run == [] {
      NothingYet(key);
    } else {
      var before, q := run[..|run| - 1], run[|run| - 1];
      assert run == before + [q];
      PruningIsInvisible(before, key, cutoff);
      RunStep(before, q);
      HistoryStep(before, q);
      StoreAt(Windows(before), q, key);
      assert History(before, key) + [] == History(before, key);
      if key == q.key {
        var stored := Window(Windows(before), key);
        assert Recent(stored, q.now - MINUTE) + [] == Recent(stored, q.now - MINUTE);
        RecentTwice(stored, q.now - MINUTE, cutoff);
        RecentSnoc(Recent(stored, q.now - MINUTE), q.now, cutoff);
        RecentSnoc(History(before, key), q.now, cutoff);
      }
    }
  }

  lemma {:induction false} RecentCountsTheWindow(ts: seq<int>, now: int)
    requires Past(ts, now)
    ensures |Recent(ts, now - MINUTE)| == InWindow(ts, now)
  {
    if ts == [] {
    } else {
      RecentCountsTheWindow(ts[..|ts| - 1], now);
    }
  }

  lemma AdmitsIffRoom(run: seq<Request>, q: Request)
    requires Monotone(run) && NoLaterThan(run, q.now)
    ensures Admits(Windows(run), q) <==> InWindow(History(run, q.key), q.now) < q.limit
  {
    hide Windows, History, Recent, InWindow;
    PruningIsInvisible(run, q.key, q.now - MINUTE);
    HistoryIsPast(run, q.key, q.now);
    RecentCountsTheWindow(History(run, q.key), q.now);
  }

  lemma {:induction false} RecentBounds(ts: seq<int>, c: int, now: int)
    requires Past(ts, now)
    ensures forall i :: 0 <= i < |Recent(ts, c)| ==> c < Recent(ts, c)[i] <= now
  {
    if ts == [] {
    } else {
      RecentBounds(ts[..|ts| - 1], c, now);
    }
  }

  lemma StoredIsInWindow(run: seq<Request>, q: Request)
    requires Monotone(run) && NoLaterThan(run, q.now)
    ensures var w := Window(Store(Windows(run), q), q.key);
            forall i :: 0 <= i < |w| ==> q.now - 60_000_000_000 < w[i] <= q.now
  {
    hide Windows, History, InWindow;
    PruningIsInvisible(run, q.key, q.now - MINUTE);
    HistoryIsPast(run, q.key, q.now);
    RecentBounds(History(run, q.key), q.now - MINUTE, q.now);
  }

  /** A request is refused exactly when `limit` admissions of its own key lie in
      its trailing minute, counted over the complete history. */
  lemma RefusedIffWindowFull(run: seq<Request>, i: nat)
    requires Monotone(run) && i < |run|
    ensures !Verdicts(run)[i] <==> InWindow(History(run[..i], run[i].key), run[i].now) >= run[i].limit
  {
    hide Verdicts, Windows, History, InWindow, Admits;
    VerdictAt(run, i);
    AdmitsIffRoom(run[..i], run[i]);
  }

  lemma {:induction false} VerdictsPrefix(run: seq<Request>, i: nat)
    requires i <= |run|
    ensures Verdicts(run[..i]) == Verdicts(run)[..i]
  {
    if i == |run| {
      assert run[..i] == run;
    } else {
      var before := run[..|run| - 1];
      VerdictsPrefix(before, i);
      assert before[..i] == run[..i];
    }
  }

  lemma VerdictAt(run: seq<Request>, i: nat)
    requires i < |run|
    ensures Verdicts(run)[i] == Admits(Windows(run[..i]), run[i])
  {
    var upTo := run[..i + 1];
    VerdictsPrefix(run, i + 1);
    assert upTo[..i] == run[..i];
    assert Verdicts(upTo)[i] == Admits(Windows(run[..i]), run[i]);
  }

  // ------------------------------------------------------- safety

  lemma InWindowSnoc(ts: seq<int>, t: int, x: int)
    ensures InWindow(ts + [t], x) == InWindow(ts, x) + if x - MINUTE < t <= x then 1 else 0
  {
    assert (ts + [t])[..|ts|] == ts;
  }

  /** Moving the window forward past the last time can only lose times. */
  lemma {:induction false} InWindowShrinks(ts: seq<int>, x: int, y: int)
    requires x <= y && Past(ts, x)
    ensures InWindow(ts, y) <= InWindow(ts, x)
  {
    if ts == [] {
    } else {
      InWindowShrinks(ts[..|ts| - 1], x, y);
    }
  }

  /** Main result: with a fixed limit per key, no trailing minute, wherever it
      ends, ever holds more admissions of that key than the limit. */
  lemma {:induction false} NoMinuteExceedsTheLimit(run: seq<Request>, key: string, limit: nat, x: int)
    requires Monotone(run)
    requires forall i :: 0 <= i < |run| && run[i].key == key ==> run[i].limit == limit
    ensures InWindow(History(run, key), x) <= limit
  {
    if run == [] {
    } else {
      hide Windows, Admits, InWindow, History, Verdicts;
      var n := |run| - 1;
      var before, q := run[..n], run[n];
      assert run == before + [q];
      NoMinuteExceedsTheLimit(before, key, limit, x);
      RunStep(before, q);
      assert History(before, key) + [] == History(before, key);
      HistoryStep(before, q);
      if key == q.key && Verdicts(run)[n] {
        InWindowSnoc(History(before, key), q.now, x);
        RefusedIffWindowFull(run, n);
        HistoryIsPast(before, key, q.now);
        if q.now <= x {
          InWindowShrinks(History(before, key), q.now, x);
        }
      }
    }
  }

  // ------------------------------------------------------- isolation

  /** The requests of one key, in order. */
  function Only(run: seq<Request>, key: string): seq<Request> {
    if run == [] then []
    else
      var front := Only(run[..|run| - 1], key);
      var q := run[|run| - 1];
      if q.key == key then front + [q] else front
  }

  /** The answers given to one key's requests, in order. */
  function AnswersTo(run: seq<Request>, verdicts: seq<bool>, key: string): seq<bool>
    requires |run| == |verdicts|
  {
    if run == [] then []
    else
      var n := |run| - 1;
      var front := AnswersTo(run[..n], verdicts[..n], key);
      if run[n].key == key then front + [verdicts[n]] else front
  }

  /** Main result: a key is answered as if it were the only key in the system. */
  lemma {:induction false} KeysAreIndependent(run: seq<Request>, key: string)
    ensures AnswersTo(run, Verdicts(run), key) == Verdicts(Only(run, key))
    ensures Window(Windows(run), key) == Window(Windows(Only(run, key)), key)
    ensures History(run, key) == History(Only(run, key), key)
  {
    if run == [] {
    } else {
      hide Recent, Store, Windows, History, Verdicts, Window;
      var before, q := run[..|run| - 1], run[|run| - 1];
      assert run == before + [q];
      KeysAreIndependent(before, key);
      RunStep(before, q);
      HistoryStep(before, q);
      StoreAt(Windows(before), q, key);
      assert Verdicts(run)[..|before|] == Verdicts(before);
      if q.key == key {
        var own := Only(before, key);
        RunStep(own, q);
        HistoryStep(own, q);
        StoreAt(Windows(own), q, key);
      }
    }
  }

  // ------------------------------------------------------- optimality

  /** How many of the first `n` requests a policy admits. */
  function Count(choice: seq<bool>, n: nat): nat
    requires n <= |choice|
  {
    if n == 0 then 0 else Count(choice, n - 1) + if choice[n - 1] then 1 else 0
  }

  /** A rival policy for one key: any choice at all that never lets a trailing
      minute hold more than `limit` admissions. */
  ghost predicate Feasible(run: seq<Request>, choice: seq<bool>, key: string, limit: int)
    requires |run| == |choice|
  {
    forall x :: InWindow(Admitted(run, choice, key), x) <= limit
  }

  ghost predicate OneKey(run: seq<Request>, key: string, limit: int) {
    forall i :: 0 <= i < |run| ==> run[i].key == key && run[i].limit == limit
  }

  /** Of the first `n` requests, all of `key` and none after `now`, exactly those
      from position `m` on lie in the trailing minute of `now`. */
  ghost predicate Block(run: seq<Request>, key: string, now: int, m: nat, n: nat) {
    m <= n <= |run| &&
    forall i :: 0 <= i < n ==> run[i].key == key && run[i].now <= now && (now - MINUTE < run[i].now <==> m <= i)
  }

  /** A nondecreasing clock makes every trailing minute such a block. */
  lemma {:induction false} WindowStart(run: seq<Request>, key: string, now: int, n: nat) returns (m: nat)
    requires Monotone(run) && n <= |run|
    requires forall i :: 0 <= i < n ==> run[i].key == key && run[i].now <= now
    ensures Block(run, key, now, m, n)
  {
    if n == 0 {
      m := 0;
    } else {
      m := WindowStart(run, key, now, n - 1);
      assert run[m].now <= run[n - 1].now;
      if m == n - 1 && run[m].now <= now - MINUTE {
        m := n;
      }
    }
  }

  /** Within a block the window count is a difference of prefix counts. */
  lemma {:induction false} BlockCount(run: seq<Request>, choice: seq<bool>, key: string, now: int, m: nat, n: nat)
    requires |run| == |choice| && Block(run, key, now, m, n)
    ensures InWindow(Admitted(run[..n], choice[..n], key), now) == Count(choice, n) - Count(choice, m)
  {
    if n == 0 {
    } else {
      var last := n - 1;
      assert run[..n][..last] == run[..last];
      assert choice[..n][..last] == choice[..last];
      if m < n {
        BlockCount(run, choice, key, now, m, last);
        if choice[last] {
          InWindowSnoc(Admitted(run[..last], choice[..last], key), run[last].now, now);
        }
      } else {
        BlockBefore(run, choice, key, now, n);
      }
    }
  }

  lemma {:induction false} BlockBefore(run: seq<Request>, choice: seq<bool>, key: string, now: int, n: nat)
    requires |run| == |choice| && n <= |run|
    requires forall i :: 0 <= i < n ==> run[i].now <= now - MINUTE
    ensures InWindow(Admitted(run[..n], choice[..n], key), now) == 0
  {
    if n == 0 {
    } else {
      var last := n - 1;
      assert run[..n][..last] == run[..last];
      assert choice[..n][..last] == choice[..last];
      BlockBefore(run, choice, key, now, last);
      InWindowSnoc(Admitted(run[..last], choice[..last], key), run[last].now, now);
    }
  }

  lemma AdmittedLast(run: seq<Request>, choice: seq<bool>, key: string)
    requires |run| == |choice| > 0
    ensures var n := |run| - 1;
            Admitted(run, choice, key) ==
            Admitted(run[..n], choice[..n], key) + if run[n].key == key && choice[n] then [run[n].now] else []
  {
  }

  /** A feasible choice stays feasible on every prefix. */
  lemma {:induction false} AdmittedPrefix(run: seq<Request>, choice: seq<bool>, key: string, k: nat, x: int)
    requires |run| == |choice| && k <= |run|
    ensures InWindow(Admitted(run[..k], choice[..k], key), x) <= InWindow(Admitted(run, choice, key), x)
  {
    hide Admitted, InWindow;
    if k == |run| {
      assert run[..k] == run && choice[..k] == choice;
    } else {
      var n := |run| - 1;
      AdmittedPrefix(run[..n], choice[..n], key, k, x);
      assert run[..n][..k] == run[..k] && choice[..n][..k] == choice[..k];
      AdmittedLast(run, choice, key);
      var front := Admitted(run[..n], choice[..n], key);
      assert front + [] == front;
      InWindowSnoc(front, run[n].now, x);
    }
  }

  /** A refused request already has `limit` admissions in its block. */
  lemma RefusalFillsTheBlock(run: seq<Request>, key: string, limit: int, m: nat, i: nat)
    requires Monotone(run) && OneKey(run, key, limit)
    requires i < |run| && !Verdicts(run)[i] && Block(run, key, run[i].now, m, i)
    ensures Count(Verdicts(run), i) - Count(Verdicts(run), m) >= limit
  {
    hide Windows, Admits, Count;
    RefusedIffWindowFull(run, i);
    VerdictsPrefix(run, i);
    BlockCount(run, Verdicts(run), key, run[i].now, m, i);
  }

  /** A feasible rival has at most `limit` admissions in the same block, request i included. */
  lemma RivalFitsTheBlock(run: seq<Request>, rival: seq<bool>, key: string, limit: int, m: nat, n: nat)
    requires |rival| == |run| && Feasible(run, rival, key, limit)
    requires 0 < n <= |run| && Block(run, key, run[n - 1].now, m, n)
    ensures Count(rival, n) - Count(rival, m) <= limit
  {
    hide Count, InWindow;
    var now := run[n - 1].now;
    BlockCount(run, rival, key, now, m, n);
    AdmittedPrefix(run, rival, key, n, now);
  }

  /** Main result: on every prefix of every run, `Allow` admits at least as many
      requests as any rival policy that respects the same limit.  When the rival
      gains on request n, the limiter is refusing it, so it already has `limit`
      admissions in the window of request n, where the rival has room for at
      most limit - 1 before it; before that window the limiter is not behind. */
  lemma {:induction false} GreedyIsOptimal(run: seq<Request>, rival: seq<bool>, key: string, limit: int, n: nat)
    requires Monotone(run) && OneKey(run, key, limit)
    requires |rival| == |run| && Feasible(run, rival, key, limit)
    requires n <= |run|
    ensures Count(rival, n) <= Count(Verdicts(run), n)
    decreases n
  {
    hide Verdicts, Feasible;
    if n == 0 {
    } else {
      var i := n - 1;
      GreedyIsOptimal(run, rival, key, limit, i);
      if rival[i] && !Verdicts(run)[i] {
        var m := WindowStart(run, key, run[i].now, i);
        GreedyIsOptimal(run, rival, key, limit, m);
        RefusalFillsTheBlock(run, key, limit, m, i);
        RivalFitsTheBlock(run, rival, key, limit, m, n);
      }
    }
  }

  lemma OnlyStep(run: seq<Request>, key: string)
    requires run != []
    ensures var front, last := run[..|run| - 1], run[|run| - 1];
            Only(run, key) == if last.key == key then Only(front, key) + [last] else Only(front, key)
  {
  }

  lemma {:induction false} OnlyIsOneKey(run: seq<Request>, key: string, limit: int)
    requires Monotone(run)
    requires forall i :: 0 <= i < |run| && run[i].key == key ==> run[i].limit == limit
    ensures var own := Only(run, key);
            OneKey(own, key, limit) && Monotone(own) && (run != [] ==> NoLaterThan(own, run[|run| - 1].now))
  {
    if run == [] {
    } else {
      var front, last := run[..|run| - 1], run[|run| - 1];
      OnlyIsOneKey(front, key, limit);
      hide Only;
      OnlyStep(run, key);
      assert front != [] ==> front[|front| - 1].now <= last.now;
    }
  }

  /** Main result, for a limiter shared by many keys: on every prefix of one
      key's requests the limiter granted at least as many as any rival could. */
  lemma GreedyIsOptimalPerKey(run: seq<Request>, rival: seq<bool>, key: string, limit: int, n: nat)
    requires Monotone(run)
    requires forall i :: 0 <= i < |run| && run[i].key == key ==> run[i].limit == limit
    requires |rival| == |Only(run, key)| && Feasible(Only(run, key), rival, key, limit)
    requires n <= |rival|
    ensures n <= |AnswersTo(run, Verdicts(run), key)|
    ensures Count(rival, n) <= Count(AnswersTo(run, Verdicts(run), key), n)
  {
    hide Verdicts, Feasible, Only, AnswersTo, Count, Windows, History;
    OnlyIsOneKey(run, key, limit);
    KeysAreIndependent(run, key);
    GreedyIsOptimal(Only(run, key), rival, key, limit, n);
  }
}
