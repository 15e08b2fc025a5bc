/**
 Scenario definitions: validation, the cut into actions the firmware accepts, the write to
 queue and cache, and what is read back.
 */
module Scenario {
  import opened Wrappers
  import opened Decimal
  import opened Exchange
  import opened Sequences
  import opened MergeParams
  import opened Coalescing
  import opened ActionQueue
  import opened ExchangeCache

  const SCENARIO1_BASE := 592
  const PARAM_COUNT := 41
  const SLOT_COUNT := 8

  datatype DefinitionError =
    | NoParams
    | BadSlot
    | IndexOutside(k: int)
    | NotNumeric(k: int)
    | OutOfByteRange(k: int)
    | Slot1Reserved

  function SlotBase(slot: int): (base: int)
    ensures base == 551 + 41 * slot
  {
    SCENARIO1_BASE + (slot - 1) * PARAM_COUNT
  }

  predicate InSlot(slot: int, k: int) {
    SlotBase(slot) <= k < SlotBase(slot) + PARAM_COUNT
  }

  predicate ByteText(v: string) {
    Atoi(v).Some? && 0 <= Atoi(v).value <= 255
  }

  predicate ValidDefinition(slot: int, params: map<int, string>) {
    1 <= slot <= SLOT_COUNT && forall k | k in params :: InSlot(slot, k) && ByteText(params[k])
  }

  method ValidateDefinition(slot: int, params: map<int, string>) returns (err: Option<DefinitionError>)
    ensures err.None? <==> ValidDefinition(slot, params)
    ensures err.None? <==> 1 <= slot <= 8 && forall k | k in params ::
              551 + 41 * slot <= k < 592 + 41 * slot && Atoi(params[k]).Some? && 0 <= Atoi(params[k]).value <= 255
    ensures err == Some(BadSlot) <==> !(1 <= slot <= SLOT_COUNT)
    ensures forall k | err == Some(IndexOutside(k)) :: k in params && !InSlot(slot, k)
    ensures forall k | err == Some(NotNumeric(k)) :: k in params && InSlot(slot, k) && Atoi(params[k]).None?
    ensures forall k | err == Some(OutOfByteRange(k)) ::
              k in params && InSlot(slot, k) && Atoi(params[k]).Some? && !(0 <= Atoi(params[k]).value <= 255)
    ensures err.Some? ==> !err.value.NoParams? && !err.value.Slot1Reserved?
  {
    if slot < 1 || slot > SLOT_COUNT {
      return Some(BadSlot);
    }
    var left := params.Keys;
    while left != {}
      invariant left <= params.Keys
      invariant forall k | k in params && k !in left :: InSlot(slot, k) && ByteText(params[k])
      decreases left
    {
      var k := Pick(left);
      if k < SlotBase(slot) || k > SlotBase(slot) + PARAM_COUNT - 1 {
        return Some(IndexOutside(k));
      }
      var n := Atoi(params[k]);
      if n.None? {
        return Some(NotNumeric(k));
      }
      if n.value < 0 || n.value > 255 {
        return Some(OutOfByteRange(k));
      }
      left := left - {k};
    }
    return None;
  }

  /** The cut of `s` into pieces of `max`, the last one shorter. */
  ghost predicate IsChunking(chunks: seq<seq<KV>>, s: seq<KV>, max: nat)
    requires max > 0
  {
    && Flatten(chunks) == s
    && (forall i | 0 <= i < |chunks| :: 0 < |chunks[i]| <= max)
    && (forall i | 0 <= i < |chunks| - 1 :: |chunks[i]| == max)
  }

  method ChunkExchangeParams(params: seq<KV>, max: int) returns (out: seq<seq<KV>>)
    ensures max <= 0 ==> out == if params == [] then [] else [params]
    ensures max > 0 ==> IsChunking(out, params, max)
  {
    if max <= 0 || |params| <= max {
      if |params| == 0 {
        return [];
      }
      assert [params][..0] == [];
      return [params];
    }
    out := [];
    var i := 0;
    while i < |params|
      invariant 0 <= i
      invariant Flatten(out) == params[..if i < |params| then i else |params|]
      invariant forall j | 0 <= j < |out| :: 0 < |out[j]| <= max && (j < |out| - 1 || i <= |params| ==> |out[j]| == max)
      decreases |params| - i
    {
      var end := i + max;
      if end > |params| {
        end := |params|;
      }
      assert (out + [params[i..end]])[..|out|] == out;
      out := out + [params[i..end]];
      i := i + max;
    }
    assert params[..|params|] == params;
  }

  lemma {:induction false} ChunkedLength(chunks: seq<seq<KV>>, max: nat)
    requires chunks != [] && forall i | 0 <= i < |chunks| - 1 :: |chunks[i]| == max
    ensures |Flatten(chunks)| == (|chunks| - 1) * max + |chunks[|chunks| - 1]|
  {
    var n := |chunks| - 1;
    if n > 0 {
      ChunkedLength(chunks[..n], max);
      assert |chunks[..n][n - 1]| == max;
      assert (n - 1) * max + max == n * max;
    }
  }

  /** All 41 values of a slot: those given, "0" elsewhere. */
  function Definition(slot: int, params: map<int, string>): (d: seq<KV>)
    ensures |d| == PARAM_COUNT
  {
    seq(PARAM_COUNT, i =>
      KV(SlotBase(slot) + i, if SlotBase(slot) + i in params then params[SlotBase(slot) + i] else "0"))
  }

  /** The 41 entries of a slot in order, each with its given value, "0" without one. */
  ghost predicate Defines(d: seq<KV>, slot: int, params: map<int, string>) {
    |d| == 41 && forall i | 0 <= i < 41 ::
      var k := 551 + 41 * slot + i; d[i] == KV(k, if k in params then params[k] else "0")
  }

  /** Every given value stands, and "0" stands at every other index of the slot. */
  ghost predicate Holds(m: map<int, string>, slot: int, params: map<int, string>) {
    && (forall k | k in params :: k in m && m[k] == params[k])
    && (forall k | 551 + 41 * slot <= k < 592 + 41 * slot && k !in params :: k in m && m[k] == "0")
  }

  lemma {:induction false} DefinedHolds(d: seq<KV>, slot: int, params: map<int, string>)
    requires Defines(d, slot, params) && forall k | k in params :: 551 + 41 * slot <= k < 592 + 41 * slot
    ensures Holds(LastWins(d), slot, params)
    ensures forall k | k in LastWins(d) :: 551 + 41 * slot <= k < 592 + 41 * slot
  {
    forall k | 551 + 41 * slot <= k < 592 + 41 * slot
      ensures k in LastWins(d) && LastWins(d)[k] == if k in params then params[k] else "0"
    {
      LastWinsDistinct(d, k - (551 + 41 * slot));
    }
    forall k | k in LastWins(d) ensures 551 + 41 * slot <= k < 592 + 41 * slot {
      LastWinsMeaning(d, k);
    }
  }

  method WriteDefinitionChunks(slot: int, params: map<int, string>) returns (r: Result<seq<seq<KV>>, DefinitionError>)
    ensures r.Success? <==> ValidDefinition(slot, params) && slot != 1
    ensures r.Success? <==> 2 <= slot <= 8 && forall k | k in params ::
              551 + 41 * slot <= k < 592 + 41 * slot && Atoi(params[k]).Some? && 0 <= Atoi(params[k]).value <= 255
    ensures r.Success? ==> IsChunking(r.value, Definition(slot, params), MAX_FIRMWARE_PARAMS)
    ensures r.Success? ==> Defines(Flatten(r.value), slot, params) && Holds(LastWins(Flatten(r.value)), slot, params)
    ensures r.Success? ==> |r.value| == 2 && |r.value[0]| == 30 && |r.value[1]| == 11
    ensures ValidDefinition(slot, params) && slot == 1 ==> r == Failure(Slot1Reserved)
  {
    var err := ValidateDefinition(slot, params);
    if err.Some? {
      return Failure(err.value);
    }
    if slot == 1 {
      return Failure(Slot1Reserved);
    }
    var kvs: seq<KV> := [];
    for i := SlotBase(slot) to SlotBase(slot) + PARAM_COUNT
      invariant kvs == Definition(slot, params)[..i - SlotBase(slot)]
    {
      kvs := kvs + [KV(i, if i in params then params[i] else "0")];
    }
    assert kvs == Definition(slot, params);
    var chunks := ChunkExchangeParams(kvs, MAX_FIRMWARE_PARAMS);
    DefinitionIsTwoPieces(slot, params, chunks);
    DefinedHolds(kvs, slot, params);
    return Success(chunks);
  }

  /** No piece of a definition of slot 2 to 8 is ever coalesced. */
  lemma {:induction false} DefinitionIsNeverCoalesced(slot: int, params: map<int, string>, chunks: seq<seq<KV>>, c: nat)
    requires 2 <= slot <= SLOT_COUNT && IsChunking(chunks, Definition(slot, params), MAX_FIRMWARE_PARAMS)
        && c < |chunks|
    ensures !IsPureBlock(chunks[c])
  {
    forall j | 0 <= j < |chunks[c]| ensures !IsBlockIndex(chunks[c][j].k) {
      FlattenHas(chunks, c, j);
      var i :| 0 <= i < PARAM_COUNT && Definition(slot, params)[i] == chunks[c][j];
      assert chunks[c][j].k == SlotBase(slot) + i;
    }
  }

  /** A definition leaves as 30 entries, then 11. */
  lemma {:induction false} DefinitionIsTwoPieces(slot: int, params: map<int, string>, chunks: seq<seq<KV>>)
    requires IsChunking(chunks, Definition(slot, params), MAX_FIRMWARE_PARAMS)
    ensures |chunks| == 2 && |chunks[0]| == 30 && |chunks[1]| == 11
  {
    assert chunks != [];
    ChunkedLength(chunks, MAX_FIRMWARE_PARAMS);
  }

  lemma {:induction false} FlattenTwo(chunks: seq<seq<KV>>)
    requires |chunks| == 2
    ensures Flatten(chunks) == chunks[0] + chunks[1]
  {
    assert chunks[..1] == [chunks[0]];
    assert [chunks[0]][..0] == [] && Flatten([chunks[0]]) == [] + chunks[0] == chunks[0];
  }

  // ---------------------------------------------------------------- write and read back

  function Indices(slot: int): seq<int> {
    seq(PARAM_COUNT, i => SlotBase(slot) + i)
  }

  /** What the detail of a slot shows of a cached list. */
  function SlotEntries(cache: Option<seq<KV>>, slot: int): seq<KV> {
    Lookup(if cache.None? then map[] else LastWins(cache.value), Indices(slot))
  }

  /** The known indices of the slot in increasing order, each with its value, and nothing else. */
  ghost predicate Shows(out: seq<KV>, m: map<int, string>, slot: int) {
    && (forall i, j | 0 <= i < j < |out| :: out[i].k < out[j].k)
    && (forall p :: p in out <==> 551 + 41 * slot <= p.k < 592 + 41 * slot && p.k in m && m[p.k] == p.v)
  }

  lemma {:induction false} LookupIncreasing(m: map<int, string>, ks: seq<int>)
    requires forall i, j | 0 <= i < j < |ks| :: ks[i] < ks[j]
    ensures StrictlyIncreasing(Lookup(m, ks))
    ensures forall p :: p in Lookup(m, ks) <==> p.k in ks && p.k in m && m[p.k] == p.v
  {
    if ks != [] {
      var init, k := ks[..|ks| - 1], ks[|ks| - 1];
      LookupIncreasing(m, init);
      assert init + [k] == ks;
      LookupPush(m, init, k);
      forall i | 0 <= i < |Lookup(m, init)| ensures Lookup(m, init)[i].k < k {
        assert Lookup(m, init)[i] in Lookup(m, init);
      }
    }
  }

  lemma {:induction false} LookupShows(m: map<int, string>, slot: int)
    ensures Shows(Lookup(m, Indices(slot)), m, slot)
    ensures m == map[] ==> Lookup(m, Indices(slot)) == []
  {
    LookupIncreasing(m, Indices(slot));
    forall k ensures k in Indices(slot) <==> 551 + 41 * slot <= k < 592 + 41 * slot {
      if 551 + 41 * slot <= k < 592 + 41 * slot { assert Indices(slot)[k - (551 + 41 * slot)] == k; }
    }
    var out := Lookup(m, Indices(slot));
    assert out != [] ==> out[0] in out;
  }

  lemma {:induction false} LookupListed(m: map<int, string>, ks: seq<int>, s: seq<KV>)
    requires |ks| == |s| && forall i | 0 <= i < |s| :: s[i].k == ks[i] && s[i].k in m && m[s[i].k] == s[i].v
    ensures Lookup(m, ks) == s
  {
    if s != [] {
      var n := |s| - 1;
      LookupListed(m, ks[..n], s[..n]);
      assert s == s[..n] + [s[n]];
    }
  }

  lemma {:induction false} LookupAgrees(m: map<int, string>, m': map<int, string>, ks: seq<int>)
    requires forall k | k in ks :: (k in m <==> k in m') && (k in m ==> m[k] == m'[k])
    ensures Lookup(m, ks) == Lookup(m', ks)
  {
    if ks != [] {
      LookupAgrees(m, m', ks[..|ks| - 1]);
      assert ks[|ks| - 1] in ks;
    }
  }

  /**
   Writing a definition into the cache and reading the slot back gives exactly the 41 written
   or "0" values, whatever the cache held before and however the cache visits its keys.
   */
  lemma {:induction false} DefinitionReadsBack(slot: int, params: map<int, string>, before: Option<seq<KV>>,
                                               after: seq<KV>)
    requires Upserted(before, Definition(slot, params), after)
    ensures SlotEntries(Some(after), slot) == Definition(slot, params)
    ensures Defines(SlotEntries(Some(after), slot), slot, params)
  {
    var d := Definition(slot, params);
    forall i | 0 <= i < |d| ensures d[i].k in LastWins(after) && LastWins(after)[d[i].k] == d[i].v {
      LastWinsDistinct(d, i);
    }
    LookupListed(LastWins(after), Indices(slot), d);
  }

  /** What the cache stands for after a write: the given values and "0" in the slot, the rest as before. */
  lemma {:induction false} WriteIsKept(slot: int, params: map<int, string>, before: Option<seq<KV>>, d: seq<KV>,
                                       after: seq<KV>)
    requires Upserted(before, d, after) && Defines(d, slot, params)
    requires forall k | k in params :: 551 + 41 * slot <= k < 592 + 41 * slot
    ensures Holds(LastWins(after), slot, params)
    ensures var old' := if before.None? then map[] else LastWins(before.value);
            forall k | !(551 + 41 * slot <= k < 592 + 41 * slot) ::
              (k in LastWins(after) <==> k in old') && (k in old' ==> LastWins(after)[k] == old'[k])
  {
    DefinedHolds(d, slot, params);
  }

  /** Every other slot reads as before. */
  lemma {:induction false} OtherSlotsUntouched(slot: int, params: map<int, string>, before: Option<seq<KV>>,
                                               after: seq<KV>, other: int)
    requires Upserted(before, Definition(slot, params), after) && other != slot
    ensures SlotEntries(Some(after), other) == SlotEntries(before, other)
  {
    var d := Definition(slot, params);
    forall k | k in Indices(other) ensures k !in LastWins(d) {
      LastWinsMeaning(d, k);
      assert InSlot(other, k) && !InSlot(slot, k);
    }
    LookupAgrees(LastWins(after), if before.None? then map[] else LastWins(before.value), Indices(other));
  }

  function NewRows(chunks: seq<seq<KV>>, guids: seq<string>, userId: int, machine: int): seq<Row>
    requires |chunks| <= |guids|
  {
    seq(|chunks|, i requires 0 <= i < |chunks| => Row(Action(guids[i], userId, Some(machine), chunks[i]), Pending))
  }

  class ScenarioPortal {
    const queue: ActionStore
    const exchange: ExchangeStore

    constructor (queue: ActionStore, exchange: ExchangeStore)
      ensures this.queue == queue && this.exchange == exchange
    {
      this.queue := queue;
      this.exchange := exchange;
    }

    /** Queues the pieces of a definition and caches it. `guids` are the new identifiers. */
    method PutScenario(slot: int, params: map<int, string>, machine: int, userId: int, guids: seq<string>)
      returns (r: Result<seq<seq<KV>>, DefinitionError>)
      requires |guids| == 2 && guids[0] != guids[1] && !HasGuid(queue.rows, guids[0]) && !HasGuid(queue.rows, guids[1])
      modifies queue, exchange
      ensures r.Success? <==> params != map[] && ValidDefinition(slot, params) && slot != 1
      ensures r.Success? <==> params != map[] && 2 <= slot <= 8 && forall k | k in params ::
                551 + 41 * slot <= k < 592 + 41 * slot && Atoi(params[k]).Some? && 0 <= Atoi(params[k]).value <= 255
      ensures r.Failure? ==> queue.rows == old(queue.rows) && exchange.cache == old(exchange.cache)
      ensures r.Success? ==>
                && machine in exchange.cache
                && exchange.cache == old(exchange.cache)[machine := exchange.cache[machine]]
                && Upserted(old(exchange.Stored(machine)), Definition(slot, params), exchange.cache[machine])
                && Holds(LastWins(exchange.cache[machine]), slot, params)
                && Defines(SlotEntries(exchange.Stored(machine), slot), slot, params)
      ensures r.Success? ==>
                && |r.value| == 2 && |r.value[0]| == 30 && Defines(r.value[0] + r.value[1], slot, params)
                && queue.rows == old(queue.rows) + [Row(Action(guids[0], userId, Some(machine), r.value[0]), Pending),
                                                    Row(Action(guids[1], userId, Some(machine), r.value[1]), Pending)]
    {
      if |params| == 0 {
        return Failure(NoParams);
      }
      r := WriteDefinitionChunks(slot, params);
      if r.Failure? {
        return;
      }
      FlattenTwo(r.value);
      QueuePieces(r.value, machine, userId, guids);
      CacheDefinition(slot, params, machine, Flatten(r.value));
    }

    /** One queued action for each piece. */
    method QueuePieces(chunks: seq<seq<KV>>, machine: int, userId: int, guids: seq<string>)
      requires |chunks| == |guids| == 2 && guids[0] != guids[1]
      requires !HasGuid(queue.rows, guids[0]) && !HasGuid(queue.rows, guids[1])
      modifies queue
      ensures queue.rows == old(queue.rows) + [Row(Action(guids[0], userId, Some(machine), chunks[0]), Pending),
                                               Row(Action(guids[1], userId, Some(machine), chunks[1]), Pending)]
    {
      for i := 0 to |chunks|
        invariant queue.rows == old(queue.rows) + NewRows(chunks, guids, userId, machine)[..i]
      {
        queue.EnqueueCloudAction(Action(guids[i], userId, Some(machine), chunks[i]));
      }
    }

    /** The pushed definition, and what the cache then stands for and shows. */
    method CacheDefinition(ghost slot: int, ghost params: map<int, string>, machine: int, definition: seq<KV>)
      requires definition == Definition(slot, params) && Defines(definition, slot, params)
      requires forall k | k in params :: 551 + 41 * slot <= k < 592 + 41 * slot
      modifies exchange
      ensures machine in exchange.cache && exchange.cache == old(exchange.cache)[machine := exchange.cache[machine]]
      ensures Upserted(old(exchange.Stored(machine)), Definition(slot, params), exchange.cache[machine])
      ensures Holds(LastWins(exchange.cache[machine]), slot, params)
      ensures Defines(SlotEntries(exchange.Stored(machine), slot), slot, params)
    {
      exchange.UpsertGatewayExchange(machine, definition);
      WriteIsKept(slot, params, old(exchange.Stored(machine)), definition, exchange.cache[machine]);
      DefinitionReadsBack(slot, params, old(exchange.Stored(machine)), exchange.cache[machine]);
    }

    /** The entries a slot shows. */
    method ScenarioDetail(machine: int, slot: int) returns (r: Option<seq<KV>>)
      ensures r == if 1 <= slot <= SLOT_COUNT then Some(SlotEntries(exchange.Stored(machine), slot)) else None
      ensures r.Some? <==> 1 <= slot <= 8
      ensures r.Some? && machine in exchange.cache ==> Shows(r.value, LastWins(exchange.cache[machine]), slot)
      ensures r.Some? && machine !in exchange.cache ==> r.value == []
    {
      if slot < 1 || slot > SLOT_COUNT {
        return None;
      }
      var cache := if machine in exchange.cache then exchange.cache[machine] else [];
      var byK: map<int, string> := map[];
      for i := 0 to |cache|
        invariant byK == LastWins(cache[..i])
      {
        assert cache[..i + 1][..i] == cache[..i];
        byK := byK[cache[i].k := cache[i].v];
      }
      assert cache[..|cache|] == cache;
      var params: seq<KV> := [];
      for i := SlotBase(slot) to SlotBase(slot) + PARAM_COUNT
        invariant params == Lookup(byK, Indices(slot)[..i - SlotBase(slot)])
      {
        assert Indices(slot)[..i + 1 - SlotBase(slot)][..i - SlotBase(slot)] == Indices(slot)[..i - SlotBase(slot)];
        if i in byK {
          params := params + [KV(i, byK[i])];
        }
      }
      assert Indices(slot)[..PARAM_COUNT] == Indices(slot);
      assert cache == [] ==> LastWins(cache) == map[];
      LookupShows(LastWins(cache), slot);
      return Some(params);
    }
  }
}
