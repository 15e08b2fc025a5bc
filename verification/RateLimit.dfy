/**
 The sliding-window rate limiter: its pruned lists against the full history of granted calls,
 over any interleaving of keys. Times are integers of one unit.
 */
module RateLimit {
  import opened SlidingWindow

  function Normal(key: string): string {
    if key == "" then "unknown" else key
  }

  function At(m: map<string, seq<int>>, key: string): seq<int> {
    if key in m then m[key] else []
  }

  class RateLimiter {
    var counts: map<string, seq<int>>
    const limit: int
    const window: int

    constructor (limit: int, window: int)
      ensures counts == map[] && this.limit == limit && this.window == window
    {
      counts := map[];
      this.limit := limit;
      this.window := window;
    }

    /**
     Grants a call and records it, or refuses it and only prunes. The empty key counts as
     "unknown"; every other key has its own list.
     */
    method Allow(key: string, now: int) returns (ok: bool)
      modifies this
      ensures var k := if key == "" then "unknown" else key;
              var times := if k in old(counts) then old(counts)[k] else [];
              && (ok <==> |Recent(times, now, window)| < limit)
              && k in counts && counts == old(counts)[k := counts[k]]
              && (forall t :: t in counts[k] <==> (t in times && now - t <= window) || (ok && t == now))
              && |counts[k]| == |Recent(times, now, window)| + if ok then 1 else 0
      ensures var s := Step(limit, window, Limiter(old(counts), map[]), Call(key, now));
              counts == s.counts && ok == Granted(limit, window, old(counts), Call(key, now))
    {
      var k := if key == "" then "unknown" else key;
      var times := if k in counts then counts[k] else [];
      KeptMeans(times, now, window);
      var kept: seq<int> := [];
      for i := 0 to |times|
        invariant kept == Kept(times[..i], now, window)
        modifies {}
      {
        assert times[..i + 1][..i] == times[..i];
        if now - times[i] <= window {
          kept := kept + [times[i]];
        }
      }
      assert times[..|times|] == times;
      if |kept| >= limit {
        counts := counts[k := kept];
        return false;
      }
      kept := kept + [now];
      counts := counts[k := kept];
      return true;
    }
  }

  // ---------------------------------------------------------------- runs

  datatype Call = Call(key: string, now: int)

  /** The pruned lists the limiter keeps, and every call it ever granted. */
  datatype Limiter = Limiter(counts: map<string, seq<int>>, history: map<string, seq<int>>)

  predicate Granted(limit: int, window: int, counts: map<string, seq<int>>, c: Call) {
    |Kept(At(counts, Normal(c.key)), c.now, window)| < limit
  }

  function Step(limit: int, window: int, s: Limiter, c: Call): Limiter {
    var k := Normal(c.key);
    var kept := Kept(At(s.counts, k), c.now, window);
    if Granted(limit, window, s.counts, c)
    then Limiter(s.counts[k := kept + [c.now]], s.history[k := At(s.history, k) + [c.now]])
    else s.(counts := s.counts[k := kept])
  }

  function Run(limit: int, window: int, calls: seq<Call>): Limiter {
    if calls == [] then Limiter(map[], map[])
    else Step(limit, window, Run(limit, window, calls[..|calls| - 1]), calls[|calls| - 1])
  }

  ghost predicate ClockForward(calls: seq<Call>) {
    forall i, j | 0 <= i < j < |calls| :: calls[i].now <= calls[j].now
  }

  /** From `now` on, nobody can tell the pruned list from the full history. */
  ghost predicate SameFrom(pruned: seq<int>, history: seq<int>, now: int, window: int) {
    forall later | now <= later :: Kept(pruned, later, window) == Kept(history, later, window)
  }

  lemma StepKeepsSame(limit: int, window: int, s: Limiter, c: Call, k: string)
    requires SameFrom(At(s.counts, k), At(s.history, k), c.now, window)
    ensures var s' := Step(limit, window, s, c); SameFrom(At(s'.counts, k), At(s'.history, k), c.now, window)
  {
    var s' := Step(limit, window, s, c);
    if k == Normal(c.key) {
      var pruned, history := At(s.counts, k), At(s.history, k);
      forall later | c.now <= later
        ensures Kept(At(s'.counts, k), later, window) == Kept(At(s'.history, k), later, window)
      {
        KeptTwice(pruned, c.now, later, window);
      }
    }
  }

  /**
   On every run with a non-decreasing clock: the pruned list answers like the full history,
   each key stores at most `limit` times, and every grant was within the limit.
   */
  lemma {:induction false} RunInvariant(limit: int, window: int, calls: seq<Call>, k: string, now: int)
    requires ClockForward(calls) && forall c | c in calls :: c.now <= now
    ensures var s := Run(limit, window, calls);
            && SameFrom(At(s.counts, k), At(s.history, k), now, window)
            && |At(s.counts, k)| <= (if limit < 0 then 0 else limit)
            && Admitted(limit, window, At(s.history, k))
  {
    if calls != [] {
      var n := |calls| - 1;
      var c, s := calls[n], Run(limit, window, calls[..n]);
      RunInvariant(limit, window, calls[..n], k, c.now);
      StepKeepsSame(limit, window, s, c, k);
      assert SameFrom(At(Step(limit, window, s, c).counts, k), At(Step(limit, window, s, c).history, k), c.now, window);
      if k == Normal(c.key) && Granted(limit, window, s.counts, c) {
        assert |Kept(At(s.history, k), c.now, window)| < limit;
      }
    }
  }

  /** Each call is decided exactly as counting the full history of granted calls would. */
  lemma {:induction false} DecisionIsExact(limit: int, window: int, calls: seq<Call>, c: Call)
    requires ClockForward(calls + [c])
    ensures var s := Run(limit, window, calls);
            Granted(limit, window, s.counts, c) <==> |Kept(At(s.history, Normal(c.key)), c.now, window)| < limit
  {
    assert (calls + [c])[|calls|] == c;
    assert forall i | 0 <= i < |calls| :: (calls + [c])[i] == calls[i];
    RunInvariant(limit, window, calls, Normal(c.key), c.now);
  }

  /** Call `i` counts for `k` and was granted. */
  predicate GrantedAt(limit: int, window: int, calls: seq<Call>, k: string, i: nat)
    requires i < |calls|
  {
    && (if calls[i].key == "" then "unknown" else calls[i].key) == k
    && Granted(limit, window, Run(limit, window, calls[..i]).counts, calls[i])
  }

  /** The granted calls of `k` at an instant of the closed window. */
  ghost function GrantsWithin(limit: int, window: int, calls: seq<Call>, k: string, start: int): set<nat> {
    set i: nat | i < |calls| && GrantedAt(limit, window, calls, k, i) && start <= calls[i].now <= start + window
  }

  lemma {:induction false} GrantedAtPrefix(limit: int, window: int, calls: seq<Call>, k: string, n: nat, i: nat)
    requires i < n <= |calls|
    ensures GrantedAt(limit, window, calls[..n], k, i) <==> GrantedAt(limit, window, calls, k, i)
  {
    assert calls[..n][..i] == calls[..i];
  }

  lemma {:induction false} GrantsPush(limit: int, window: int, calls: seq<Call>, k: string, start: int)
    requires calls != []
    ensures var n := |calls| - 1;
            var last := GrantedAt(limit, window, calls, k, n) && start <= calls[n].now <= start + window;
            |GrantsWithin(limit, window, calls, k, start)|
            == |GrantsWithin(limit, window, calls[..n], k, start)| + if last then 1 else 0
  {
    var n := |calls| - 1;
    var init := GrantsWithin(limit, window, calls[..n], k, start);
    var last := GrantedAt(limit, window, calls, k, n) && start <= calls[n].now <= start + window;
    forall i: nat ensures i in GrantsWithin(limit, window, calls, k, start) <==> i in init || (last && i == n) {
      if i < n { GrantedAtPrefix(limit, window, calls, k, n, i); }
    }
    assert GrantsWithin(limit, window, calls, k, start) == init + if last then {n} else {};
  }

  lemma {:induction false} HistoryPush(limit: int, window: int, calls: seq<Call>, k: string, start: int)
    requires calls != []
    ensures var n := |calls| - 1;
            var last := GrantedAt(limit, window, calls, k, n) && start <= calls[n].now <= start + window;
            InWindow(At(Run(limit, window, calls).history, k), start, window)
            == InWindow(At(Run(limit, window, calls[..n]).history, k), start, window) + if last then 1 else 0
  {
    var past := At(Run(limit, window, calls[..|calls| - 1]).history, k);
    assert (past + [calls[|calls| - 1].now])[..|past|] == past;
  }

  /** The history of a key is made of its granted calls. */
  lemma {:induction false} HistoryIsGrants(limit: int, window: int, calls: seq<Call>, k: string, start: int)
    ensures InWindow(At(Run(limit, window, calls).history, k), start, window)
         == |GrantsWithin(limit, window, calls, k, start)|
  {
    if calls == [] {
      assert GrantsWithin(limit, window, calls, k, start) == {};
    } else {
      HistoryIsGrants(limit, window, calls[..|calls| - 1], k, start);
      GrantsPush(limit, window, calls, k, start);
      HistoryPush(limit, window, calls, k, start);
    }
  }

  /** At most `limit` calls of a key are granted in any closed window, over every run. */
  lemma {:induction false} AtMostLimitPerWindow(limit: int, window: int, calls: seq<Call>, k: string, start: int)
    requires ClockForward(calls)
    ensures |GrantsWithin(limit, window, calls, k, start)| <= if limit < 0 then 0 else limit
  {
    HistoryIsGrants(limit, window, calls, k, start);
    if calls != [] {
      assert forall c | c in calls :: c.now <= calls[|calls| - 1].now;
      RunInvariant(limit, window, calls, k, calls[|calls| - 1].now);
    }
    AdmittedIsBounded(limit, window, At(Run(limit, window, calls).history, k), start);
  }
}
