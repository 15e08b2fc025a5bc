/**
 Sliding windows over lists of times: what a window keeps, and the bound that follows when
 every time was admitted with fewer than `limit` others in its window.
 */
module SlidingWindow {

  /** The times no older than `window` at `now`. */
  function Kept(times: seq<int>, now: int, window: int): (kept: seq<int>)
    ensures |kept| <= |times|
  {
    if times == [] then [] else
    Kept(times[..|times| - 1], now, window) + if now - times[|times| - 1] <= window then [times[|times| - 1]] else []
  }

  /** Which of the times those are. */
  ghost function Recent(times: seq<int>, now: int, window: int): set<int> {
    set i | 0 <= i < |times| && now - times[i] <= window
  }

  lemma {:induction false} KeptMeans(times: seq<int>, now: int, window: int)
    ensures |Kept(times, now, window)| == |Recent(times, now, window)|
    ensures forall t :: t in Kept(times, now, window) <==> t in times && now - t <= window
  {
    if times == [] {
      assert Recent(times, now, window) == {};
    } else {
      var n := |times| - 1;
      KeptMeans(times[..n], now, window);
      assert times == times[..n] + [times[n]];
      var last := if now - times[n] <= window then {n} else {};
      assert Recent(times, now, window) == Recent(times[..n], now, window) + last;
    }
  }

  lemma {:induction false} KeptTwice(times: seq<int>, first: int, second: int, window: int)
    requires first <= second
    ensures Kept(Kept(times, first, window), second, window) == Kept(times, second, window)
  {
    if times != [] {
      var n := |times| - 1;
      KeptTwice(times[..n], first, second, window);
      if first - times[n] <= window {
      } else {
        assert Kept(times, first, window) == Kept(times[..n], first, window);
        assert Kept(times, second, window) == Kept(times[..n], second, window);
      }
    }
  }

  /** Every time was added while its window kept fewer than `limit` earlier ones. */
  ghost predicate Admitted(limit: int, window: int, times: seq<int>) {
    times != [] ==>
      Admitted(limit, window, times[..|times| - 1]) && |Kept(times[..|times| - 1], times[|times| - 1], window)| < limit
  }

  /** A step that adds a time or none keeps admission exactly when an added time was admitted. */
  lemma {:induction false} AdmittedStep(limit: int, window: int, times: seq<int>, adds: bool, now: int)
    ensures Admitted(limit, window, times + if adds then [now] else [])
       <==> Admitted(limit, window, times) && (adds ==> |Kept(times, now, window)| < limit)
  {
    if adds {
      assert (times + [now])[..|times|] == times;
    } else {
      assert times + [] == times;
    }
  }

  /** How many of the times lie in the closed window that starts at `start`. */
  function InWindow(times: seq<int>, start: int, window: int): nat {
    if times == [] then 0 else
    InWindow(times[..|times| - 1], start, window) + if start <= times[|times| - 1] <= start + window then 1 else 0
  }

  /** Which of the times those are. */
  ghost function Within(times: seq<int>, start: int, window: int): set<int> {
    set i | 0 <= i < |times| && start <= times[i] <= start + window
  }

  lemma {:induction false} InWindowMeans(times: seq<int>, start: int, window: int)
    ensures InWindow(times, start, window) == |Within(times, start, window)|
  {
    if times == [] {
      assert Within(times, start, window) == {};
    } else {
      var n := |times| - 1;
      InWindowMeans(times[..n], start, window);
      var last := if start <= times[n] <= start + window then {n} else {};
      assert Within(times, start, window) == Within(times[..n], start, window) + last;
    }
  }

  lemma {:induction false} WindowWithinKept(times: seq<int>, start: int, now: int, window: int)
    requires now <= start + window
    ensures InWindow(times, start, window) <= |Kept(times, now, window)|
  {
    if times != [] {
      WindowWithinKept(times[..|times| - 1], start, now, window);
    }
  }

  lemma {:induction false} AdmittedIsBounded(limit: int, window: int, history: seq<int>, start: int)
    requires Admitted(limit, window, history)
    ensures InWindow(history, start, window) <= if limit < 0 then 0 else limit
  {
    if history != [] {
      var n := |history| - 1;
      AdmittedIsBounded(limit, window, history[..n], start);
      if start <= history[n] <= start + window {
        WindowWithinKept(history[..n], start, history[n], window);
      }
    }
  }

  /** What a later window keeps, an earlier one kept. */
  lemma {:induction false} KeptShrinks(times: seq<int>, now: int, later: int, window: int)
    requires now <= later
    ensures |Kept(times, later, window)| <= |Kept(times, now, window)|
  {
    if times != [] {
      KeptShrinks(times[..|times| - 1], now, later, window);
    }
  }

  ghost predicate Sorted(times: seq<int>) {
    forall i, j | 0 <= i < j < |times| :: times[i] <= times[j]
  }

  lemma {:induction false} SortedPush(times: seq<int>, adds: bool, now: int)
    requires Sorted(times) && forall i | 0 <= i < |times| :: times[i] <= now
    ensures var times' := times + if adds then [now] else [];
            Sorted(times') && forall i | 0 <= i < |times'| :: times'[i] <= now
  {
  }

  lemma {:induction false} KeptIsWindow(times: seq<int>, now: int, window: int)
    requires forall i | 0 <= i < |times| :: times[i] <= now
    ensures |Kept(times, now, window)| == InWindow(times, now - window, window)
  {
    if times != [] {
      KeptIsWindow(times[..|times| - 1], now, window);
    }
  }

  /** At most `limit` of the times lie in any closed window. */
  ghost predicate Bounded(limit: nat, window: nat, times: seq<int>) {
    forall start :: InWindow(times, start, window) <= limit
  }

  /**
   The bound holds in every window exactly when every time was admitted under it: admission at
   the instant of the entry is not only enough but needed.
   */
  lemma {:induction false} AdmittedIff(limit: nat, window: nat, times: seq<int>)
    requires Sorted(times)
    ensures Admitted(limit, window, times) <==> Bounded(limit, window, times)
  {
    if Admitted(limit, window, times) {
      forall start ensures InWindow(times, start, window) <= limit {
        AdmittedIsBounded(limit, window, times, start);
      }
    } else {
      var n := |times| - 1;
      if Admitted(limit, window, times[..n]) {
        KeptIsWindow(times[..n], times[n], window);
        assert InWindow(times, times[n] - window, window) > limit;
      } else {
        AdmittedIff(limit, window, times[..n]);
        var start :| InWindow(times[..n], start, window) > limit;
        assert InWindow(times, start, window) > limit;
      }
    }
  }
}
