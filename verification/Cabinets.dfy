/**
 What a cabinet does with the actions it receives, and the claim of `MergeBlockActions` that
 one merged block has the same effect as the commands it replaces.
 */
module Cabinets {
  import opened Bits
  import opened Exchange
  import opened MergeParams

  /**
   `sides` holds the pair (k, b) when the device on bit `b` of index `k` was last moved to
   `k`'s side of its pair. `rest` is everything else the cabinet knows.
   */
  datatype Cabinet<S> = Cabinet(sides: set<(int, nat)>, rest: S)

  /** The parts of the firmware nothing is assumed about. */
  datatype Firmware<!S> = Firmware(
    launch: (string, Cabinet<S>) -> Cabinet<S>,
    garbled: (KV, Cabinet<S>) -> Cabinet<S>,
    other: (seq<KV>, Cabinet<S>) -> Cabinet<S>)

  /** Every device of mask `m` moves to `k`'s side. */
  function Moved(sides: set<(int, nat)>, k: int, m: Mask): set<(int, nat)>
    requires IsBlockIndex(k)
  {
    (sides - set b | b in m :: (Opposite(k), b)) + set b | b in m :: (k, b)
  }

  /** 590 = "1" is the trigger of the block itself; any other value launches a scenario. */
  function ExecParam<S>(fw: Firmware<S>, p: KV, c: Cabinet<S>): Cabinet<S> {
    if IsBlockIndex(p.k) then
      match IntentOf(p.v)
      case Silent => c
      case Garbled(_) => fw.garbled(p, c)
      case Move(m) => c.(sides := Moved(c.sides, p.k, m))
    else if p.k == INDEX_SCENARIO && p.v != "1" then fw.launch(p.v, c)
    else c
  }

  function ExecBlock<S>(fw: Firmware<S>, ps: seq<KV>, c: Cabinet<S>): Cabinet<S> {
    if ps == [] then c else ExecParam(fw, ps[|ps| - 1], ExecBlock(fw, ps[..|ps| - 1], c))
  }

  /** One delivered action: a pure block, or something only the firmware understands. */
  function Exec<S>(fw: Firmware<S>, params: seq<KV>, c: Cabinet<S>): Cabinet<S> {
    if IsPureBlock(params) then ExecBlock(fw, params, c) else fw.other(params, c)
  }

  predicate LaunchesNothing(ps: seq<KV>) {
    forall i | 0 <= i < |ps| && ps[i].k == INDEX_SCENARIO :: ps[i].v == "1"
  }

  predicate Numeric(ps: seq<KV>) {
    forall i | 0 <= i < |ps| && IsBlockIndex(ps[i].k) :: !IntentOf(ps[i].v).Garbled?
  }

  lemma {:induction false} ExecConcat<S>(fw: Firmware<S>, xs: seq<KV>, ys: seq<KV>, c: Cabinet<S>)
    ensures ExecBlock(fw, xs + ys, c) == ExecBlock(fw, ys, ExecBlock(fw, xs, c))
  {
    if ys == [] {
      assert xs + ys == xs;
    } else {
      assert (xs + ys)[..|xs + ys| - 1] == xs + ys[..|ys| - 1];
      ExecConcat(fw, xs, ys[..|ys| - 1], c);
    }
  }

  /** `after` is `before` with every bit of `a` moved to the index it stands on. */
  ghost predicate Settles(a: Merge, before: set<(int, nat)>, after: set<(int, nat)>) {
    forall d: (int, nat) ::
      d in after <==> || (IsBlockIndex(d.0) && d.1 in a.MaskAt(d.0))
                      || (d in before && !(IsBlockIndex(d.0) && d.1 in a.MaskAt(Opposite(d.0))))
  }

  /** Executing numeric commands in order settles the cabinet as the state of the merge loop says. */
  lemma {:induction false} ExecSettles<S>(fw: Firmware<S>, ps: seq<KV>, c: Cabinet<S>)
    requires Numeric(ps) && LaunchesNothing(ps)
    ensures Replay(EMPTY, ReadAll(ps)).raw == map[]
    ensures Settles(Replay(EMPTY, ReadAll(ps)), c.sides, ExecBlock(fw, ps, c).sides)
    ensures ExecBlock(fw, ps, c).rest == c.rest
  {
    if ps != [] {
      var n := |ps| - 1;
      ExecSettles(fw, ps[..n], c);
      ReplayNext(EMPTY, ps, n);
      assert ReadAll(ps)[..n] == ReadAll(ps[..n]) && ReadAll(ps)[..n + 1] == ReadAll(ps);
      assert ps[n] in ps;
      if IsBlockIndex(ps[n].k) {
        StepSettles(Replay(EMPTY, ReadAll(ps[..n])), ps[n], c.sides, ExecBlock(fw, ps[..n], c).sides);
      }
    }
  }

  lemma StepSettles(a: Merge, p: KV, before: set<(int, nat)>, sides: set<(int, nat)>)
    requires a.raw == map[] && Settles(a, before, sides)
    requires IsBlockIndex(p.k) && !IntentOf(p.v).Garbled?
    ensures Step(a, Read(p)).raw == map[]
    ensures Settles(Step(a, Read(p)), before,
                    match IntentOf(p.v) case Move(m) => Moved(sides, p.k, m) case _ => sides)
  {
    var o := Read(p);
    if o.intent.Move? {
      forall d: (int, nat) | IsBlockIndex(d.0)
        ensures Step(a, o).MaskAt(d.0) == if d.0 == p.k then a.MaskAt(d.0) + o.intent.mask
                                          else if d.0 == Opposite(p.k) then a.MaskAt(d.0) - o.intent.mask
                                          else a.MaskAt(d.0)
      {
        StepAt(a, o, d.0);
      }
    }
  }

  /**
   The claim of the merge: on numeric commands that launch no scenario, the merged block leaves
   the cabinet exactly as the commands do one after the other, whatever its state and firmware.
   */
  lemma {:induction false} MergeKeepsEffect<S>(fw: Firmware<S>, ps: seq<KV>, c: Cabinet<S>)
    requires Numeric(ps) && LaunchesNothing(ps)
    ensures ExecBlock(fw, Merged(ps), c) == ExecBlock(fw, ps, c)
  {
    ExecSettles(fw, ps, c);
    ReplayMerged(ps);
    MergedIsReplayable(ps);
    ExecSettles(fw, Merged(ps), c);
    var before, direct, merged := c.sides, ExecBlock(fw, ps, c).sides, ExecBlock(fw, Merged(ps), c).sides;
  }

  lemma {:induction false} MergedIsReplayable(ps: seq<KV>)
    requires Replay(EMPTY, ReadAll(ps)).raw == map[]
    ensures Numeric(Merged(ps)) && LaunchesNothing(Merged(ps))
  {
    var a := Replay(EMPTY, ReadAll(ps));
    ReplayConsistent(ps);
    forall i | 0 <= i < 20 && IsBlockIndex(Merged(ps)[i].k)
      ensures !IntentOf(Merged(ps)[i].v).Garbled?
    {
      ReadRender(a, Merged(ps)[i].k);
    }
  }

  /** A firmware that records the scenarios it is asked to launch and does nothing else. */
  function Recorder(): Firmware<seq<string>> {
    Firmware((v, c: Cabinet<seq<string>>) => c.(rest := c.rest + [v]), (p, c) => c, (ps, c) => c)
  }

  /** How many scenarios a list of parameters launches. */
  function Launches(ps: seq<KV>): nat {
    if ps == [] then 0
    else Launches(ps[..|ps| - 1]) + if ps[|ps| - 1].k == INDEX_SCENARIO && ps[|ps| - 1].v != "1" then 1 else 0
  }

  lemma {:induction false} LaunchesMeaning(ps: seq<KV>, c: Cabinet<seq<string>>)
    ensures |ExecBlock(Recorder(), ps, c).rest| == |c.rest| + Launches(ps)
    ensures Launches(ps) == 0 <==> LaunchesNothing(ps)
  {
    if ps != [] {
      var n := |ps| - 1;
      LaunchesMeaning(ps[..n], c);
      assert forall i | 0 <= i < n :: ps[..n][i] == ps[i];
    }
  }

  /**
   The merge replaces every 590 by "1". So its claim holds for every cabinet and firmware
   exactly when no command of the run carries another 590: otherwise a scenario is lost.
   */
  lemma {:induction false} MergeKeepsEffectIff(ps: seq<KV>)
    requires Numeric(ps)
    ensures LaunchesNothing(ps)
       <==> (forall c: Cabinet<seq<string>> :: ExecBlock(Recorder(), Merged(ps), c) == ExecBlock(Recorder(), ps, c))
  {
    var blank := Cabinet({}, []);
    LaunchesMeaning(ps, blank);
    LaunchesMeaning(Merged(ps), blank);
    assert LaunchesNothing(Merged(ps));
    if LaunchesNothing(ps) {
      forall c: Cabinet<seq<string>> ensures ExecBlock(Recorder(), Merged(ps), c) == ExecBlock(Recorder(), ps, c) {
        MergeKeepsEffect(Recorder(), ps, c);
      }
    }
  }
}
