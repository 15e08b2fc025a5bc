/**
 The exchange cache of a machine: a list of entries that every push rewrites, and the map the
 list stands for.
 */
module ExchangeCache {
  import opened Wrappers
  import opened Exchange
  import opened Sequences

  /** The requested keys that are known, in the order of the request. */
  function Lookup(m: map<int, string>, requested: seq<int>): seq<KV> {
    if requested == [] then [] else
    var k := requested[|requested| - 1];
    Lookup(m, requested[..|requested| - 1]) + if k in m then [KV(k, m[k])] else []
  }

  function Wanted(requested: seq<int>): KV -> bool {
    (p: KV) => p.k in requested
  }

  /** The entries whose key is requested, in list order; everything for an empty request. */
  method FilterExchangeKeys(all: seq<KV>, requested: seq<int>) returns (out: seq<KV>)
    ensures out == if requested == [] then all else Select(all, Wanted(requested))
  {
    if |requested| == 0 {
      return all;
    }
    var want := set k | k in requested;
    out := [];
    for i := 0 to |all|
      invariant out == Select(all[..i], Wanted(requested))
    {
      assert all[..i] + [all[i]] == all[..i + 1];
      SelectPush(all[..i], all[i], Wanted(requested));
      if all[i].k in want {
        out := out + [all[i]];
      }
    }
    assert all[..|all|] == all;
  }

  /** What it returns: exactly the entries with a requested key, each in its place and as often as stored. */
  lemma {:induction false} FilterIsExact(all: seq<KV>, requested: seq<int>) returns (idx: seq<nat>)
    ensures forall i, j | 0 <= i < j < |idx| :: idx[i] < idx[j]
    ensures forall j | 0 <= j < |idx| :: idx[j] < |all|
    ensures forall i: nat | i < |all| :: i in idx <==> all[i].k in requested
    ensures Picked(Select(all, Wanted(requested)), idx, all)
  {
    idx := SelectPositions(all, Wanted(requested));
  }

  /** Requested keys, the value of `primary` before that of `secondary`. */
  method MergeExchangeKeys(primary: seq<KV>, secondary: seq<KV>, requested: seq<int>) returns (out: seq<KV>)
    ensures out == if requested == [] then secondary + primary
                   else Lookup(LastWins(secondary) + LastWins(primary), requested)
  {
    if |requested| == 0 {
      out := FilterExchangeKeys(secondary + primary, requested);
      return;
    }
    var byKey: map<int, string> := map[];
    for i := 0 to |secondary|
      invariant byKey == LastWins(secondary[..i])
    {
      assert secondary[..i + 1][..i] == secondary[..i];
      byKey := byKey[secondary[i].k := secondary[i].v];
    }
    assert secondary[..|secondary|] == secondary;
    for i := 0 to |primary|
      invariant byKey == LastWins(secondary) + LastWins(primary[..i])
    {
      assert primary[..i + 1][..i] == primary[..i];
      byKey := byKey[primary[i].k := primary[i].v];
    }
    assert primary[..|primary|] == primary;
    out := [];
    for i := 0 to |requested|
      invariant out == Lookup(byKey, requested[..i])
    {
      assert requested[..i + 1][..i] == requested[..i];
      if requested[i] in byKey {
        out := out + [KV(requested[i], byKey[requested[i]])];
      }
    }
    assert requested[..|requested|] == requested;
  }

  ghost predicate NoRepeats(ks: seq<int>) {
    forall i, j | 0 <= i < j < |ks| :: ks[i] != ks[j]
  }

  lemma {:induction false} LookupKeys(m: map<int, string>, requested: seq<int>)
    requires NoRepeats(requested)
    ensures DistinctKeys(Lookup(m, requested))
    ensures forall i | 0 <= i < |Lookup(m, requested)| :: Lookup(m, requested)[i].k in requested
  {
    if requested != [] {
      var init, k := requested[..|requested| - 1], requested[|requested| - 1];
      LookupKeys(m, init);
      assert init + [k] == requested;
      LookupPush(m, init, k);
    }
  }

  /** Looking up each key of a map once lists the map. */
  lemma {:induction false} LookupLists(m: map<int, string>, requested: seq<int>)
    ensures LastWins(Lookup(m, requested)) == map k | k in requested && k in m :: m[k]
  {
    if requested != [] {
      var init, k := requested[..|requested| - 1], requested[|requested| - 1];
      LookupLists(m, init);
      assert init + [k] == requested;
      LookupPush(m, init, k);
    }
  }

  /** What one push does to the stored list, in whatever order the keys are visited. */
  ghost predicate Upserted(before: Option<seq<KV>>, keys: seq<KV>, after: seq<KV>) {
    if before.None? || before.value == [] then after == keys
    else DistinctKeys(after) && LastWins(after) == LastWins(before.value) + LastWins(keys)
  }

  class ExchangeStore {
    var cache: map<int, seq<KV>>

    constructor ()
      ensures cache == map[]
    {
      cache := map[];
    }

    function Stored(machine: int): Option<seq<KV>>
      reads this
    {
      if machine in cache then Some(cache[machine]) else None
    }

    method UpsertGatewayExchange(machine: int, keys: seq<KV>)
      modifies this
      ensures machine in cache && Upserted(old(Stored(machine)), keys, cache[machine])
      ensures cache == old(cache)[machine := cache[machine]]
    {
      var merged := keys;
      var existing := if machine in cache then cache[machine] else [];
      if |existing| > 0 {
        var want := (set p | p in keys :: p.k) + (set p | p in existing :: p.k);
        var requested: seq<int> := [];
        var left := want;
        while left != {}
          invariant left <= want && NoRepeats(requested)
          invariant forall k :: k in requested <==> k in want && k !in left
          modifies {}
          decreases left
        {
          var k := Pick(left);
          requested := requested + [k];
          left := left - {k};
        }
        assert existing[0].k in want;
        merged := MergeExchangeKeys(keys, existing, requested);
        LookupOfAllKeys(existing, keys, want, requested);
      }
      cache := cache[machine := merged];
    }
  }

  lemma {:induction false} KnownAreWanted(existing: seq<KV>, keys: seq<KV>, want: set<int>)
    requires want == (set p | p in keys :: p.k) + (set p | p in existing :: p.k)
    ensures (LastWins(existing) + LastWins(keys)).Keys == want
  {
    forall k ensures k in LastWins(existing) + LastWins(keys) <==> k in want {
      LastWinsMeaning(existing, k);
      LastWinsMeaning(keys, k);
    }
  }

  lemma {:induction false} LookupOfAllKeys(existing: seq<KV>, keys: seq<KV>, want: set<int>, requested: seq<int>)
    requires want == (set p | p in keys :: p.k) + (set p | p in existing :: p.k)
    requires NoRepeats(requested) && forall k :: k in requested <==> k in want
    ensures var m := LastWins(existing) + LastWins(keys);
            DistinctKeys(Lookup(m, requested)) && LastWins(Lookup(m, requested)) == m
  {
    KnownAreWanted(existing, keys, want);
    LookupKeys(LastWins(existing) + LastWins(keys), requested);
    LookupLists(LastWins(existing) + LastWins(keys), requested);
  }

  // ---------------------------------------------------------------- runs

  /** The pushes overridden one after the other. */
  function Overridden(pushes: seq<seq<KV>>): map<int, string> {
    if pushes == [] then map[] else Overridden(pushes[..|pushes| - 1]) + LastWins(pushes[|pushes| - 1])
  }

  /** The successive lists of one machine, starting with no row. */
  ghost predicate IsRun(pushes: seq<seq<KV>>, lists: seq<seq<KV>>) {
    && |lists| == |pushes|
    && forall i {:trigger pushes[i]} | 0 <= i < |pushes| :: Upserted(Previous(lists, i), pushes[i], lists[i])
  }

  function Previous(lists: seq<seq<KV>>, i: nat): Option<seq<KV>>
    requires i <= |lists|
  {
    if i == 0 then None else Some(lists[i - 1])
  }

  /**
   The list refines a map: after any pushes, in whatever order keys were visited, it stands for
   the pushes overridden in order.
   */
  lemma {:induction false} CacheRefinesMap(pushes: seq<seq<KV>>, lists: seq<seq<KV>>, n: nat)
    requires IsRun(pushes, lists) && n < |lists|
    ensures LastWins(lists[n]) == Overridden(pushes[..n + 1])
  {
    assert pushes[..n + 1][..n] == pushes[..n];
    if n > 0 {
      CacheRefinesMap(pushes, lists, n - 1);
    }
  }

  /** Once a non-empty list has been merged, keys stay distinct for good. */
  lemma {:induction false} KeysStayDistinct(pushes: seq<seq<KV>>, lists: seq<seq<KV>>, i: nat, j: nat)
    requires IsRun(pushes, lists) && i < j < |lists| && lists[i] != []
    ensures lists[j] != [] && DistinctKeys(lists[j])
    decreases j
  {
    if j > i + 1 {
      KeysStayDistinct(pushes, lists, i, j - 1);
    }
    UpsertKeepsNonEmpty(lists[j - 1], pushes[j], lists[j]);
  }

  lemma {:induction false} UpsertKeepsNonEmpty(before: seq<KV>, keys: seq<KV>, after: seq<KV>)
    requires before != [] && Upserted(Some(before), keys, after)
    ensures after != [] && DistinctKeys(after)
  {
    var k := before[0].k;
    LastWinsMeaning(before, k);
    assert k in LastWins(after);
  }

  // ---------------------------------------------------------------- reads

  function Known(m: map<int, string>): int -> bool {
    (k: int) => k in m
  }

  lemma {:induction false} LookupPush(m: map<int, string>, requested: seq<int>, k: int)
    ensures Lookup(m, requested + [k]) == if k in m then Lookup(m, requested) + [KV(k, m[k])] else Lookup(m, requested)
  {
    assert (requested + [k])[..|requested|] == requested;
    assert Lookup(m, requested) + [] == Lookup(m, requested);
  }

  /** Each looked-up entry is the one its position asks for. */
  ghost predicate LooksUp(out: seq<KV>, idx: seq<nat>, m: map<int, string>, requested: seq<int>)
    requires Positions(idx, requested, Known(m))
  {
    |out| == |idx| && forall i | 0 <= i < |idx| :: out[i] == KV(requested[idx[i]], m[requested[idx[i]]])
  }

  lemma {:induction false} LooksUpPush(idx: seq<nat>, m: map<int, string>, requested: seq<int>, k: int)
    requires Positions(idx, requested, Known(m)) && LooksUp(Lookup(m, requested), idx, m, requested)
    ensures var idx' := if k in m then idx + [|requested|] else idx;
            Positions(idx', requested + [k], Known(m)) && LooksUp(Lookup(m, requested + [k]), idx', m, requested + [k])
  {
    LookupPush(m, requested, k);
    PositionsPush(idx, requested, k, Known(m));
  }

  lemma {:induction false} LookupPositions(m: map<int, string>, requested: seq<int>) returns (idx: seq<nat>)
    ensures Positions(idx, requested, Known(m)) && LooksUp(Lookup(m, requested), idx, m, requested)
  {
    if requested == [] {
      return [];
    }
    var n := |requested| - 1;
    var init, k := requested[..n], requested[n];
    assert init + [k] == requested;
    idx := LookupPositions(m, init);
    LooksUpPush(idx, m, init, k);
    if k in m {
      idx := idx + [n];
    }
  }

  /**
   What a read with a non-empty request returns: the requested known keys in the order of the
   request, each with its cached value if there is one and its telemetry value otherwise.
   */
  lemma {:induction false} ReadIsExact(cache: seq<KV>, telemetry: seq<KV>, requested: seq<int>) returns (idx: seq<nat>)
    ensures var c, t := LastWins(cache), LastWins(telemetry);
            var out := Lookup(t + c, requested);
            && (forall i, j | 0 <= i < j < |idx| :: idx[i] < idx[j])
            && (forall i: nat | i < |requested| :: i in idx <==> requested[i] in c || requested[i] in t)
            && |out| == |idx|
            && forall i | 0 <= i < |idx| ::
                 && idx[i] < |requested| && (requested[idx[i]] in c || requested[idx[i]] in t)
                 && var k := requested[idx[i]]; out[i] == KV(k, if k in c then c[k] else t[k])
  {
    idx := LookupPositions(LastWins(telemetry) + LastWins(cache), requested);
  }
}
