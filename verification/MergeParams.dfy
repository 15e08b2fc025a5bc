/**
 The merge of light and shutter block commands (`MergeBlockActions`): the state of its
 loop, what one more parameter does to it, and the block it renders.
 */
module MergeParams {
  import opened Wrappers
  import opened Decimal
  import opened Bits
  import opened Exchange
  import opened Sequences

  /** The index that undoes `k`: lights 605+i and 611+i, shutters 617+i and 620+i. */
  function Opposite(k: int): int
    requires IsBlockIndex(k)
  {
    if k < 611 then k + 6
    else if k < 617 then k - 6
    else if k < 620 then k + 3
    else k - 3
  }

  /** The pairs are symmetric: six lights off and on, three shutters open and closed. */
  lemma OppositePairs(i: nat)
    ensures i < 6 ==> Opposite(605 + i) == 611 + i && Opposite(611 + i) == 605 + i
    ensures i < 3 ==> Opposite(617 + i) == 620 + i && Opposite(620 + i) == 617 + i
  {
  }

  predicate IsBlockParam(p: KV) {
    IsBlockIndex(p.k) || p.k == INDEX_SCENARIO || p == KV(INDEX_SECURITY_OUTLETS, "0")
  }

  /** Only block parameters, and at least one light or shutter index among them. */
  predicate IsPureBlock(params: seq<KV>) {
    && (forall i | 0 <= i < |params| :: IsBlockParam(params[i]))
    && (exists i | 0 <= i < |params| :: IsBlockIndex(params[i].k))
  }

  /** The scan of the source, which stops at the first foreign parameter. */
  method IsPureBlockAction(params: seq<KV>) returns (pure: bool)
    ensures pure <==> IsPureBlock(params)
    ensures pure <==>
      (forall i | 0 <= i < |params| ::
         605 <= params[i].k <= 622 || params[i].k == 590 || (params[i].k == 623 && params[i].v == "0"))
      && exists i :: 0 <= i < |params| && 605 <= params[i].k <= 622
  {
    var hasBlock := false;
    for i := 0 to |params|
      invariant hasBlock <==> exists j | 0 <= j < i :: IsBlockIndex(params[j].k)
      invariant forall j | 0 <= j < i :: IsBlockParam(params[j])
    {
      var p := params[i];
      if IsBlockIndex(p.k) {
        hasBlock := true;
      } else if p.k == INDEX_SCENARIO {
      } else if p.k == INDEX_SECURITY_OUTLETS && p.v == "0" {
      } else {
        return false;
      }
    }
    return hasBlock;
  }

  /** What a value asks for: nothing ("0"), a text that is no number, or a set of bits. */
  datatype Intent = Silent | Garbled(text: string) | Move(mask: Mask)

  datatype Order = Order(k: int, intent: Intent)

  function IntentOf(v: string): Intent {
    match Atoi(v)
    case None => Garbled(v)
    case Some(m) => if m == 0 then Silent else Move(MaskOf(m))
  }

  function Read(p: KV): Order {
    Order(p.k, if IsBlockIndex(p.k) then IntentOf(p.v) else Silent)
  }

  function ReadAll(ps: seq<KV>): (os: seq<Order>)
    ensures |os| == |ps|
  {
    seq(|ps|, i requires 0 <= i < |ps| => Read(ps[i]))
  }

  /** The two maps the loop updates. A missing mask is the empty one. */
  datatype Merge = Merge(masks: map<int, Mask>, raw: map<int, string>) {
    function MaskAt(k: int): Mask {
      if k in masks then masks[k] else {}
    }

    function ValueAt(k: int): string {
      if k in raw then raw[k] else Itoa(IntOf(MaskAt(k)))
    }

    function IntentAt(k: int): Intent {
      if k in raw then Garbled(raw[k]) else if MaskAt(k) == {} then Silent else Move(MaskAt(k))
    }
  }

  const EMPTY := Merge(map[], map[])

  /** What one parameter does to the two maps. */
  function Step(a: Merge, o: Order): Merge {
    if !IsBlockIndex(o.k) then a else
    match o.intent
    case Silent => a
    case Garbled(text) => Merge(a.masks - {o.k}, a.raw[o.k := text])
    case Move(m) =>
      var raw := a.raw - {o.k};
      var masks := a.masks[o.k := a.MaskAt(o.k) + m];
      var k' := Opposite(o.k);
      if k' in raw then Merge(masks, raw) else Merge(masks[k' := a.MaskAt(k') - m], raw)
  }

  function Replay(a: Merge, os: seq<Order>): Merge {
    if os == [] then a else Step(Replay(a, os[..|os| - 1]), os[|os| - 1])
  }

  /** A complete block with these values. */
  function Block(value: int -> string): (out: seq<KV>)
    ensures |out| == 20 && out[0] == KV(INDEX_SCENARIO, "1") && out[19] == KV(INDEX_SECURITY_OUTLETS, "0")
    ensures forall i | 1 <= i < 19 :: out[i] == KV(604 + i, value(604 + i))
  {
    [KV(INDEX_SCENARIO, "1")]
    + seq(18, i => KV(INDEX_LIGHT_START + i, value(INDEX_LIGHT_START + i)))
    + [KV(INDEX_SECURITY_OUTLETS, "0")]
  }

  lemma SameBlock(value: int -> string, other: int -> string)
    requires forall k :: value(k) == other(k)
    ensures Block(value) == Block(other)
  {
  }

  function Render(a: Merge): (out: seq<KV>)
    ensures |out| == 20 && out[0] == KV(INDEX_SCENARIO, "1") && out[19] == KV(INDEX_SECURITY_OUTLETS, "0")
    ensures forall i | 1 <= i < 19 :: out[i] == KV(604 + i, a.ValueAt(604 + i))
  {
    Block((k: int) => a.ValueAt(k))
  }

  /** The block that replaces the commands whose parameters, in order, are `ps`. */
  function Merged(ps: seq<KV>): seq<KV> {
    Render(Replay(EMPTY, ReadAll(ps)))
  }

  /** The loops of the source compute `Merged` of the parameters in order. */
  method MergeBlockActions(chunks: seq<seq<KV>>) returns (out: seq<KV>)
    ensures out == Merged(Flatten(chunks))
  {
    var masks: map<int, Mask> := map[];
    var raw: map<int, string> := map[];
    for c := 0 to |chunks|
      invariant Merge(masks, raw) == Replay(EMPTY, ReadAll(Flatten(chunks[..c])))
    {
      var chunk := chunks[c];
      ghost var before := Merge(masks, raw);
      for i := 0 to |chunk|
        invariant Merge(masks, raw) == Replay(before, ReadAll(chunk)[..i])
      {
        var p := chunk[i];
        ReplayNext(before, chunk, i);
        if IsBlockIndex(p.k) {
          var m := Atoi(p.v);
          if m.None? {
            raw := raw[p.k := p.v];
            masks := masks - {p.k};
          } else if m.value != 0 {
            raw := raw - {p.k};
            masks := masks[p.k := (if p.k in masks then masks[p.k] else {}) + MaskOf(m.value)];
            var o := Opposite(p.k);
            if o !in raw {
              masks := masks[o := (if o in masks then masks[o] else {}) - MaskOf(m.value)];
            }
          }
        }
      }
      assert ReadAll(chunk)[..|chunk|] == ReadAll(chunk);
      ReplayChunk(chunks, c);
    }
    assert chunks[..|chunks|] == chunks;
    out := ListBlock((k: int) => if k in raw then raw[k] else Itoa(IntOf(if k in masks then masks[k] else {})));
    SameBlock((k: int) => if k in raw then raw[k] else Itoa(IntOf(if k in masks then masks[k] else {})),
              (k: int) => Merge(masks, raw).ValueAt(k));
  }

  /** The last loop of the source. */
  method ListBlock(value: int -> string) returns (out: seq<KV>)
    ensures out == Block(value)
  {
    out := [KV(INDEX_SCENARIO, "1")];
    for k := INDEX_LIGHT_START to INDEX_LIGHT_END + 1
      invariant out == Block(value)[..k - 604]
    {
      out := out + [KV(k, value(k))];
    }
    // The entries already stand in increasing order of k: the final sort moves nothing.
    out := out + [KV(INDEX_SECURITY_OUTLETS, "0")];
  }

  lemma {:induction false} ReplayConcat(a: Merge, xs: seq<Order>, ys: seq<Order>)
    ensures Replay(a, xs + ys) == Replay(Replay(a, xs), ys)
  {
    if ys == [] {
      assert xs + ys == xs;
    } else {
      assert (xs + ys)[..|xs + ys| - 1] == xs + ys[..|ys| - 1];
      ReplayConcat(a, xs, ys[..|ys| - 1]);
    }
  }

  lemma {:induction false} ReplayNext(a: Merge, ps: seq<KV>, i: nat)
    requires i < |ps|
    ensures Replay(a, ReadAll(ps)[..i + 1]) == Step(Replay(a, ReadAll(ps)[..i]), Read(ps[i]))
  {
    assert ReadAll(ps)[..i + 1][..i] == ReadAll(ps)[..i];
  }

  lemma {:induction false} ReplayChunk(chunks: seq<seq<KV>>, c: nat)
    requires c < |chunks|
    ensures Replay(EMPTY, ReadAll(Flatten(chunks[..c + 1]))) ==
            Replay(Replay(EMPTY, ReadAll(Flatten(chunks[..c]))), ReadAll(chunks[c]))
  {
    var seen := Flatten(chunks[..c]);
    assert chunks[..c + 1][..c] == chunks[..c];
    assert ReadAll(seen + chunks[c]) == ReadAll(seen) + ReadAll(chunks[c]);
    ReplayConcat(EMPTY, ReadAll(seen), ReadAll(chunks[c]));
  }

  // ---------------------------------------------------------------- invariants

  /** What every iteration keeps: disjoint maps, and no device on both sides of a pair. */
  ghost predicate Consistent(a: Merge) {
    && a.raw.Keys !! a.masks.Keys
    && (forall k | k in a.masks :: IsBlockIndex(k))
    && (forall k | k in a.raw :: IsBlockIndex(k) && IntentOf(a.raw[k]) == Garbled(a.raw[k]))
    && (forall k | IsBlockIndex(k) :: a.MaskAt(k) !! a.MaskAt(Opposite(k)))
  }

  /** The effect of a step, index by index. */
  lemma StepAt(a: Merge, o: Order, k: int)
    requires a.raw.Keys !! a.masks.Keys && IsBlockIndex(o.k)
    ensures Step(a, o).MaskAt(k) ==
            match o.intent
            case Silent => a.MaskAt(k)
            case Garbled(_) => if k == o.k then {} else a.MaskAt(k)
            case Move(m) =>
              if k == o.k then a.MaskAt(k) + m else if k == Opposite(o.k) then a.MaskAt(k) - m else a.MaskAt(k)
  {
  }

  lemma StepConsistent(a: Merge, p: KV)
    requires Consistent(a)
    ensures Consistent(Step(a, Read(p)))
  {
    if IsBlockIndex(p.k) {
      var o := Read(p);
      forall k | IsBlockIndex(k)
        ensures Step(a, o).MaskAt(k) !! Step(a, o).MaskAt(Opposite(k))
      {
        StepAt(a, o, k);
        StepAt(a, o, Opposite(k));
      }
    }
  }

  lemma {:induction false} ReplayConsistent(ps: seq<KV>)
    ensures Consistent(Replay(EMPTY, ReadAll(ps)))
  {
    if ps != [] {
      var n := |ps| - 1;
      ReplayConsistent(ps[..n]);
      assert ReadAll(ps)[..n] == ReadAll(ps[..n]);
      StepConsistent(Replay(EMPTY, ReadAll(ps[..n])), ps[n]);
    }
  }

  /** A rendered block reads back as the intents it was rendered from. */
  lemma ReadRender(a: Merge, k: int)
    requires Consistent(a) && IsBlockIndex(k)
    ensures IntentOf(a.ValueAt(k)) == a.IntentAt(k)
  {
    if k !in a.raw {
      MaskOfInt(a.MaskAt(k));
      AtoiOfItoa(IntOf(a.MaskAt(k)));
      IntOfZero(a.MaskAt(k));
    }
  }

  /** The value a block gives to index `k`, read as an intent. */
  function IntentIn(ps: seq<KV>, k: int): Intent {
    if k in LastWins(ps) then IntentOf(LastWins(ps)[k]) else Silent
  }

  /**
   For every input, the merged block is exactly 590, 605..622, 623 in increasing order with
   590 = "1" and 623 = "0", and it is itself a pure block.
   */
  lemma {:induction false} MergedShape(ps: seq<KV>)
    ensures |Merged(ps)| == 20 && StrictlyIncreasing(Merged(ps)) && IsPureBlock(Merged(ps))
    ensures Merged(ps)[0] == KV(INDEX_SCENARIO, "1") && Merged(ps)[19] == KV(INDEX_SECURITY_OUTLETS, "0")
    ensures forall i | 1 <= i < 19 :: Merged(ps)[i].k == 604 + i
  {
    RenderIsPure(Replay(EMPTY, ReadAll(ps)));
  }

  /** For every input, the merged block never moves one device both ways. */
  lemma {:induction false} MergedNeverConflicts(ps: seq<KV>, k: int)
    requires IsBlockIndex(k) && IntentIn(Merged(ps), k).Move? && IntentIn(Merged(ps), Opposite(k)).Move?
    ensures IntentIn(Merged(ps), k).mask !! IntentIn(Merged(ps), Opposite(k)).mask
  {
    var a := Replay(EMPTY, ReadAll(ps));
    ReplayConsistent(ps);
    RenderedIntent(a, k);
    RenderedIntent(a, Opposite(k));
  }

  lemma RenderIsPure(a: Merge)
    ensures StrictlyIncreasing(Render(a)) && IsPureBlock(Render(a))
  {
    assert IsBlockIndex(Render(a)[1].k);
  }

  lemma RenderedIntent(a: Merge, k: int)
    requires Consistent(a) && IsBlockIndex(k)
    ensures IntentIn(Render(a), k) == a.IntentAt(k)
  {
    RenderIsPure(a);
    LastWinsDistinct(Render(a), k - 604);
    ReadRender(a, k);
  }

  // ---------------------------------------------------------------- last intent wins

  /** An order that moves bit `b` to index `k`. */
  predicate Sets(o: Order, k: int, b: nat) {
    IsBlockIndex(o.k) && o.k == k && o.intent.Move? && b in o.intent.mask
  }

  /** An order after which bit `b` no longer stands on index `k`. */
  predicate Drops(o: Order, k: int, b: nat) {
    IsBlockIndex(o.k) &&
    ((Opposite(o.k) == k && o.intent.Move? && b in o.intent.mask) || (o.k == k && o.intent.Garbled?))
  }

  /** `i` is the last order that says something of index `k`. */
  ghost predicate LastToSpeak(os: seq<Order>, i: int, k: int) {
    && 0 <= i < |os| && os[i].k == k && !os[i].intent.Silent?
    && forall j | i < j < |os| :: os[j].k != k || os[j].intent.Silent?
  }

  /** Order `i` puts bit `b` on index `k` and no later order takes it away. */
  ghost predicate LastToSet(os: seq<Order>, i: int, k: int, b: nat) {
    0 <= i < |os| && Sets(os[i], k, b) && forall j | i < j < |os| :: !Drops(os[j], k, b)
  }

  /** A non-numeric value stands on an index exactly when it is the last intent there. */
  lemma {:induction false} RawIsLastIntent(os: seq<Order>, k: int, text: string)
    requires IsBlockIndex(k)
    ensures (k in Replay(EMPTY, os).raw && Replay(EMPTY, os).raw[k] == text)
       <==> (exists i :: LastToSpeak(os, i, k) && os[i].intent == Garbled(text))
  {
    if os != [] {
      var n := |os| - 1;
      RawIsLastIntent(os[..n], k, text);
      if os[n].k == k && !os[n].intent.Silent? {
        assert LastToSpeak(os, n, k);
      } else {
        forall i ensures LastToSpeak(os, i, k) <==> LastToSpeak(os[..n], i, k) {
          assert LastToSpeak(os[..n], i, k) ==> forall j | i < j < n :: os[j] == os[..n][j];
          assert LastToSpeak(os, i, k) ==> i < n;
        }
      }
    }
  }

  /**
   Bit `b` stands on index `k` exactly when some order put it there and nothing later took it
   away. On numeric values only the opposite index takes away: the last intent wins.
   */
  lemma {:induction false} BitIsLastIntent(os: seq<Order>, k: int, b: nat)
    requires IsBlockIndex(k)
    ensures b in Replay(EMPTY, os).MaskAt(k) <==> exists i :: LastToSet(os, i, k, b)
    ensures Replay(EMPTY, os).raw.Keys !! Replay(EMPTY, os).masks.Keys
  {
    if os != [] {
      var n := |os| - 1;
      BitIsLastIntent(os[..n], k, b);
      if IsBlockIndex(os[n].k) {
        StepAt(Replay(EMPTY, os[..n]), os[n], k);
      }
      if Sets(os[n], k, b) {
        assert LastToSet(os, n, k, b);
      } else {
        forall i | !Drops(os[n], k, b) ensures LastToSet(os, i, k, b) <==> LastToSet(os[..n], i, k, b) {
          assert LastToSet(os[..n], i, k, b) ==> forall j | i < j < n :: os[j] == os[..n][j];
          assert LastToSet(os, i, k, b) ==> i < n;
        }
      }
    }
  }

  // ---------------------------------------------------------------- the merged values, from the texts

  /** The text is a number with bit `b` set. */
  predicate HasBit(v: string, b: nat) {
    Atoi(v).Some? && (Atoi(v).value / Pow2(b)) % 2 == 1
  }

  lemma IntentHasBit(v: string, b: nat)
    requires b < 64
    ensures HasBit(v, b) <==> IntentOf(v).Move? && b in IntentOf(v).mask
  {
    if Atoi(v).Some? {
      BitIsParity(Atoi(v).value, b);
    }
  }

  /** The text that index `k` has in the merged block. */
  function MergedAt(ps: seq<KV>, k: int): string
    requires IsBlockIndex(k)
  {
    Merged(ps)[k - 604].v
  }

  /** Entry `i` gives index `k` a text that is no number, and after it `k` gets nothing but zeros. */
  ghost predicate LastGarbled(ps: seq<KV>, i: int, k: int) {
    && 0 <= i < |ps| && ps[i].k == k && Atoi(ps[i].v).None?
    && forall j | i < j < |ps| && ps[j].k == k :: Atoi(ps[j].v) == Some(0)
  }

  /**
   In the merged block a text that is no number stands on an index if and only if it is the last
   value but "0" the commands gave to that index.
   */
  lemma {:induction false} MergedTextIff(ps: seq<KV>, k: int, text: string)
    requires IsBlockIndex(k) && Atoi(text).None?
    ensures MergedAt(ps, k) == text <==> exists i :: LastGarbled(ps, i, k) && ps[i].v == text
  {
    var os := ReadAll(ps);
    RawIsLastIntent(os, k, text);
    TextIntents(ps, k);
    forall i
      ensures LastToSpeak(os, i, k) && os[i].intent == Garbled(text) <==> LastGarbled(ps, i, k) && ps[i].v == text
    {
      assert forall j | 0 <= j < |ps| :: os[j].k == ps[j].k;
    }
    ReplayConsistent(ps);
    RenderedText(Replay(EMPTY, os), k, text);
  }

  lemma {:induction false} TextIntents(ps: seq<KV>, k: int)
    requires IsBlockIndex(k)
    ensures forall i | 0 <= i < |ps| && ps[i].k == k ::
              && (ReadAll(ps)[i].intent.Silent? <==> Atoi(ps[i].v) == Some(0))
              && (Atoi(ps[i].v).None? ==> ReadAll(ps)[i].intent == Garbled(ps[i].v))
              && (ReadAll(ps)[i].intent.Garbled? ==> Atoi(ps[i].v).None?)
  {
  }

  lemma RenderedText(a: Merge, k: int, text: string)
    requires Consistent(a) && IsBlockIndex(k) && Atoi(text).None?
    ensures a.ValueAt(k) == text <==> k in a.raw && a.raw[k] == text
  {
    ReadRender(a, k);
  }

  /** Entry `i` sets bit `b` on index `k`, and no later one sets it on the opposite index or garbles `k`. */
  ghost predicate LastBit(ps: seq<KV>, i: int, k: int, b: nat)
    requires IsBlockIndex(k)
  {
    && 0 <= i < |ps| && ps[i].k == k && HasBit(ps[i].v, b)
    && forall j | i < j < |ps| ::
         !(ps[j].k == Opposite(k) && HasBit(ps[j].v, b)) && !(ps[j].k == k && Atoi(ps[j].v).None?)
  }

  /** In the merged block bit `b` is set on a numeric index if and only if some entry set it and none took it away. */
  lemma {:induction false} MergedBitIff(ps: seq<KV>, k: int, b: nat)
    requires IsBlockIndex(k) && b < 64 && Atoi(MergedAt(ps, k)).Some?
    ensures HasBit(MergedAt(ps, k), b) <==> exists i :: LastBit(ps, i, k, b)
  {
    var os := ReadAll(ps);
    BitIsLastIntent(os, k, b);
    ReplayConsistent(ps);
    RenderedBit(Replay(EMPTY, os), k, b);
    forall i ensures LastToSet(os, i, k, b) <==> LastBit(ps, i, k, b) {
      SetsAndDrops(ps, k, b);
    }
  }

  lemma RenderedBit(a: Merge, k: int, b: nat)
    requires Consistent(a) && IsBlockIndex(k) && b < 64 && Atoi(a.ValueAt(k)).Some?
    ensures HasBit(a.ValueAt(k), b) <==> b in a.MaskAt(k)
  {
    ReadRender(a, k);
    IntentHasBit(a.ValueAt(k), b);
  }

  lemma {:induction false} SetsAndDrops(ps: seq<KV>, k: int, b: nat)
    requires IsBlockIndex(k) && b < 64
    ensures forall i | 0 <= i < |ps| :: Sets(ReadAll(ps)[i], k, b) <==> ps[i].k == k && HasBit(ps[i].v, b)
    ensures forall i | 0 <= i < |ps| :: Drops(ReadAll(ps)[i], k, b) <==>
              (ps[i].k == Opposite(k) && HasBit(ps[i].v, b)) || (ps[i].k == k && Atoi(ps[i].v).None?)
  {
    forall i | 0 <= i < |ps|
      ensures Sets(ReadAll(ps)[i], k, b) <==> ps[i].k == k && HasBit(ps[i].v, b)
      ensures Drops(ReadAll(ps)[i], k, b) <==>
        (ps[i].k == Opposite(k) && HasBit(ps[i].v, b)) || (ps[i].k == k && Atoi(ps[i].v).None?)
    {
      IntentHasBit(ps[i].v, b);
    }
  }

  // ---------------------------------------------------------------- absorption

  /** Two loop states that render the same and go on alike. */
  ghost predicate Alike(a: Merge, c: Merge) {
    && a.raw == c.raw
    && a.raw.Keys !! a.masks.Keys && c.raw.Keys !! c.masks.Keys
    && forall k :: a.MaskAt(k) == c.MaskAt(k)
  }

  lemma {:induction false} AlikeReplay(a: Merge, c: Merge, os: seq<Order>)
    requires Alike(a, c)
    ensures Alike(Replay(a, os), Replay(c, os))
  {
    if os != [] {
      var n := |os| - 1;
      AlikeReplay(a, c, os[..n]);
      var a', c' := Replay(a, os[..n]), Replay(c, os[..n]);
      if IsBlockIndex(os[n].k) {
        forall k ensures Step(a', os[n]).MaskAt(k) == Step(c', os[n]).MaskAt(k) {
          StepAt(a', os[n], k);
          StepAt(c', os[n], k);
        }
      }
    }
  }

  /** `c` is the part of `a` below index `limit`. */
  ghost predicate IsPartOf(c: Merge, a: Merge, limit: int) {
    && c.raw.Keys !! c.masks.Keys
    && c.raw == (map k | k in a.raw && k < limit :: a.raw[k])
    && forall k :: c.MaskAt(k) == if k < limit then a.MaskAt(k) else {}
  }

  /** One more rendered index rebuilds one more index of the state and disturbs no other. */
  lemma PartGrows(c: Merge, a: Merge, k: int)
    requires Consistent(a) && IsPartOf(c, a, k)
    ensures IsPartOf(if IsBlockIndex(k) then Step(c, Order(k, a.IntentAt(k))) else c, a, k + 1)
  {
    if IsBlockIndex(k) {
      var o := Order(k, a.IntentAt(k));
      StepDisjoint(c, o);
      PartOfRaw(c.raw, a.raw, k);
      forall j ensures Step(c, o).MaskAt(j) == if j < k + 1 then a.MaskAt(j) else {} {
        StepAt(c, o, j);
        assert a.MaskAt(k) !! a.MaskAt(Opposite(k));
      }
    }
  }

  lemma StepDisjoint(a: Merge, o: Order)
    requires a.raw.Keys !! a.masks.Keys && IsBlockIndex(o.k)
    ensures Step(a, o).raw.Keys !! Step(a, o).masks.Keys
    ensures Step(a, o).raw == match o.intent
                              case Silent => a.raw
                              case Garbled(text) => a.raw[o.k := text]
                              case Move(_) => a.raw - {o.k}
  {
  }

  lemma PartOfRaw(c: map<int, string>, a: map<int, string>, k: int)
    requires c == map j | j in a && j < k :: a[j]
    ensures (if k in a then c[k := a[k]] else c - {k}) == map j | j in a && j < k + 1 :: a[j]
    ensures k !in c && c - {k} == c
  {
  }

  /** Replaying the first `n` entries of a rendered block rebuilds that part of the state. */
  lemma {:induction false} ReplayRender(a: Merge, n: nat)
    requires Consistent(a) && n <= 20
    ensures IsPartOf(Replay(EMPTY, ReadAll(Render(a))[..n]), a, 604 + n)
  {
    if n > 0 {
      ReplayRender(a, n - 1);
      ReplayNext(EMPTY, Render(a), n - 1);
      PartGrows(Replay(EMPTY, ReadAll(Render(a))[..n - 1]), a, 603 + n);
      if IsBlockIndex(603 + n) {
        ReadRender(a, 603 + n);
      }
    }
  }

  /**
   The merge absorbs its own output on the left, whatever the values: merging a merged block
   with later commands gives what merging all the original commands gives.
   */
  lemma {:induction false} MergeAbsorbs(xs: seq<KV>, ys: seq<KV>)
    ensures Merged(Merged(xs) + ys) == Merged(xs + ys)
  {
    ReadAllConcat(xs, ys);
    ReadAllConcat(Merged(xs), ys);
    ReplayMerged(xs);
    AlikeReplay(Replay(EMPTY, ReadAll(Merged(xs))), Replay(EMPTY, ReadAll(xs)), ReadAll(ys));
    AlikeRender(Replay(EMPTY, ReadAll(Merged(xs) + ys)), Replay(EMPTY, ReadAll(xs + ys)));
  }

  lemma {:induction false} ReadAllConcat(xs: seq<KV>, ys: seq<KV>)
    ensures Replay(EMPTY, ReadAll(xs + ys)) == Replay(Replay(EMPTY, ReadAll(xs)), ReadAll(ys))
  {
    assert ReadAll(xs + ys) == ReadAll(xs) + ReadAll(ys);
    ReplayConcat(EMPTY, ReadAll(xs), ReadAll(ys));
  }

  lemma {:induction false} ReplayMerged(xs: seq<KV>)
    ensures Alike(Replay(EMPTY, ReadAll(Merged(xs))), Replay(EMPTY, ReadAll(xs)))
  {
    var a := Replay(EMPTY, ReadAll(xs));
    ReplayConsistent(xs);
    ReplayRender(a, 20);
    assert ReadAll(Render(a))[..20] == ReadAll(Render(a));
  }

  lemma AlikeRender(a: Merge, c: Merge)
    requires Alike(a, c)
    ensures Render(a) == Render(c)
  {
    forall k ensures a.ValueAt(k) == c.ValueAt(k) {
      assert a.MaskAt(k) == c.MaskAt(k);
    }
  }
}
