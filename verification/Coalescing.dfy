/**
 Coalescing of pending actions (`coalescePendingActions`): each maximal run of pure block
 actions leaves the queue as one merged action, everything else leaves unchanged.
 */
module Coalescing {
  import opened Wrappers
  import opened Exchange
  import opened Sequences
  import opened MergeParams
  import opened Cabinets
  import opened Grouping

  datatype Action = Action(guid: string, userId: int, machineId: Option<int>, params: seq<KV>)

  predicate PureAction(a: Action) {
    IsPureBlock(a.params)
  }

  /** The parameters of several actions, in order. */
  function Params(run: seq<Action>): seq<KV> {
    if run == [] then [] else Params(run[..|run| - 1]) + run[|run| - 1].params
  }

  /** A run leaves under its last action, with merged parameters when there are several. */
  function DeliveredAs(init: seq<Action>, last: Action): Action {
    if init == [] then last else last.(params := Merged(Params(init + [last])))
  }

  function Coalesced(q: seq<Action>): seq<Action> {
    Coalesce(q, PureAction, DeliveredAs)
  }

  lemma {:induction false} NextChunk(chunks: seq<seq<KV>>, q: seq<Action>, i: nat, j: nat)
    requires i <= j < |q| && Flatten(chunks) == Params(q[i..j])
    ensures Flatten(chunks + [q[j].params]) == Params(q[i..j + 1])
  {
    assert (chunks + [q[j].params])[..|chunks|] == chunks;
    assert q[i..j + 1][..j - i] == q[i..j];
  }

  lemma {:induction false} DeliveredRun(q: seq<Action>, i: nat, j: nat)
    requires i < j <= |q|
    ensures DeliveredAs(q[i..j - 1], q[j - 1]) ==
            if j - i > 1 then q[j - 1].(params := Merged(Params(q[i..j]))) else q[j - 1]
  {
    assert q[i..j - 1] + [q[j - 1]] == q[i..j];
  }

  method IsPureAction(a: Action) returns (pure: bool)
    ensures pure <==> PureAction(a)
  {
    pure := IsPureBlockAction(a.params);
  }

  /** The two nested loops of the source compute `Coalesced`. */
  method CoalescePendingActions(pending: seq<Action>) returns (out: seq<Action>)
    ensures out == Coalesced(pending)
  {
    out := [];
    var i := 0;
    while i < |pending|
      invariant 0 <= i <= |pending|
      invariant out + Coalesced(pending[i..]) == Coalesced(pending)
    {
      var pure := IsPureAction(pending[i]);
      if !pure {
        DeliverNext(out, pending, PureAction, DeliveredAs, i, i + 1, pending[i]);
        out := out + [pending[i]];
        i := i + 1;
        continue;
      }
      var j := i;
      var chunks: seq<seq<KV>> := [];
      while j < |pending|
        invariant i <= j <= |pending|
        invariant |chunks| == j - i && Flatten(chunks) == Params(pending[i..j])
        invariant j - i + PurePrefix(pending[j..], PureAction) == HeadRun(pending[i..], PureAction)
      {
        PurePrefixStep(pending, PureAction, j);
        var more := IsPureAction(pending[j]);
        if !more { break; }
        NextChunk(chunks, pending, i, j);
        chunks := chunks + [pending[j].params];
        j := j + 1;
      }
      var merged := pending[j - 1];
      if |chunks| > 1 {
        var params := MergeBlockActions(chunks);
        merged := merged.(params := params);
      }
      DeliveredRun(pending, i, j);
      DeliverNext(out, pending, PureAction, DeliveredAs, i, j, merged);
      out := out + [merged];
      i := j;
    }
  }

  // ---------------------------------------------------------------- partition

  lemma MergedIsPure()
    ensures DeliversPure(PureAction, DeliveredAs)
  {
    forall init, x | PureAction(x) ensures PureAction(DeliveredAs(init, x)) {
      MergedShape(Params(init + [x]));
    }
  }

  /**
   Every queue is cut, in order and without loss, into foreign actions and maximal pure runs.
   Each group yields one output under the GUID of its last action, a single action unchanged.
   */
  lemma {:induction false} CoalescingPartitions(q: seq<Action>)
    ensures var runs := Runs(q, PureAction);
            && Flatten(runs) == q
            && NoPureNeighbours(runs, PureAction)
            && |Coalesced(q)| == |runs|
            && forall i | 0 <= i < |runs| ::
                 && IsRun(runs[i], PureAction)
                 && var last := runs[i][|runs[i]| - 1];
                    Coalesced(q)[i] == if |runs[i]| == 1 then last else
                      Action(last.guid, last.userId, last.machineId, Merged(Params(runs[i])))
  {
    RunsPartition(q, PureAction);
    CoalesceIsPerRun(q, PureAction, DeliveredAs);
  }

  /** No two neighbouring outputs are pure. */
  lemma {:induction false} OutputsAlternate(q: seq<Action>, i: nat)
    requires i + 1 < |Coalesced(q)|
    ensures !(PureAction(Coalesced(q)[i]) && PureAction(Coalesced(q)[i + 1]))
  {
    RunsPartition(q, PureAction);
    CoalesceIsPerRun(q, PureAction, DeliveredAs);
    var runs := Runs(q, PureAction);
    assert IsRun(runs[i], PureAction) && IsRun(runs[i + 1], PureAction);
  }

  /** Actions within the firmware limit of 30 parameters are delivered within it. */
  lemma {:induction false} DeliveryFitsFirmware(q: seq<Action>, i: nat)
    requires forall a | a in q :: |a.params| <= 30
    requires i < |Coalesced(q)|
    ensures |Coalesced(q)[i].params| <= 30
  {
    RunsPartition(q, PureAction);
    CoalesceIsPerRun(q, PureAction, DeliveredAs);
    var run := Runs(q, PureAction)[i];
    FlattenHas(Runs(q, PureAction), i, |run| - 1);
  }

  predicate CutsOutlets(a: Action) {
    exists i | 0 <= i < |a.params| :: a.params[i].k == INDEX_SECURITY_OUTLETS && a.params[i].v != "0"
  }

  /** Commands of the security outlets are never merged, dropped, duplicated or reordered. */
  lemma {:induction false} OutletCommandsUnchanged(q: seq<Action>)
    ensures Select(Coalesced(q), CutsOutlets) == Select(q, CutsOutlets)
  {
    MergedIsPure();
    ForeignUnchanged(q, PureAction, DeliveredAs, CutsOutlets);
  }

  /** The same for all foreign actions: scenarios, heating and the rest keep their order. */
  lemma {:induction false} ForeignActionsUnchanged(q: seq<Action>)
    ensures Select(Coalesced(q), a => !PureAction(a)) == Select(q, a => !PureAction(a))
  {
    MergedIsPure();
    ForeignUnchanged(q, PureAction, DeliveredAs, a => !PureAction(a));
  }

  // ---------------------------------------------------------------- incrementality

  lemma {:induction false} ParamsConcat(xs: seq<Action>, ys: seq<Action>)
    ensures Params(xs + ys) == Params(xs) + Params(ys)
  {
    if ys == [] {
      assert xs + ys == xs;
    } else {
      assert (xs + ys)[..|xs + ys| - 1] == xs + ys[..|ys| - 1];
      ParamsConcat(xs, ys[..|ys| - 1]);
    }
  }

  lemma ParamsOfOne(a: Action)
    ensures Params([a]) == a.params
  {
    assert [a][..0] == [];
  }

  lemma {:induction false} DeliveryAbsorbs(run: seq<Action>, more: seq<Action>, x: Action)
    requires run != []
    ensures DeliveredAs([Deliver(run, DeliveredAs)] + more, x) == DeliveredAs(run + more, x)
  {
    var head := Deliver(run, DeliveredAs);
    var tail := more + [x];
    assert [head] + more + [x] == [head] + tail && run + more + [x] == run + tail;
    if |run| == 1 {
      assert run == [run[0]];
    } else {
      assert run[..|run| - 1] + [run[|run| - 1]] == run;
      ParamsConcat([head], tail);
      ParamsOfOne(head);
      ParamsConcat(run, tail);
      MergeAbsorbs(Params(run), Params(tail));
    }
  }

  /**
   Coalescing is incremental, whatever the values: coalescing an already coalesced queue with
   later actions gives what coalescing the whole queue gives.
   */
  lemma {:induction false} CoalescedIncremental(a: seq<Action>, b: seq<Action>)
    ensures Coalesced(Coalesced(a) + b) == Coalesced(a + b)
  {
    MergedIsPure();
    forall run, more, x | run != [] && (forall i | 0 <= i < |run| :: PureAction(run[i]))
      ensures DeliveredAs([Deliver(run, DeliveredAs)] + more, x) == DeliveredAs(run + more, x)
    {
      DeliveryAbsorbs(run, more, x);
    }
    CoalesceIncremental(a, b, PureAction, DeliveredAs);
  }

  /** A coalesced queue has nothing left to coalesce. */
  lemma {:induction false} CoalescedIdempotent(q: seq<Action>)
    ensures Coalesced(Coalesced(q)) == Coalesced(q)
  {
    CoalescedIncremental(q, []);
    assert Coalesced(q) + [] == Coalesced(q) && q + [] == q;
  }

  // ---------------------------------------------------------------- effect

  function Run<S>(fw: Firmware<S>, q: seq<Action>, c: Cabinet<S>): Cabinet<S> {
    ExecAll((a: Action, c) => Exec(fw, a.params, c), q, c)
  }

  /** What the actions of each merged run must satisfy. */
  ghost predicate Mergeable(run: seq<Action>, p: seq<KV> -> bool) {
    |run| > 1 ==> forall a | a in run :: p(a.params)
  }

  ghost predicate WhenMerged(q: seq<Action>, p: seq<KV> -> bool) {
    forall i | 0 <= i < |Runs(q, PureAction)| :: Mergeable(Runs(q, PureAction)[i], p)
  }

  lemma {:induction false} RunIsBlock<S>(fw: Firmware<S>, run: seq<Action>, c: Cabinet<S>)
    requires forall i | 0 <= i < |run| :: PureAction(run[i])
    ensures Run(fw, run, c) == ExecBlock(fw, Params(run), c)
  {
    if run != [] {
      RunIsBlock(fw, run[1..], Exec(fw, run[0].params, c));
      assert run == [run[0]] + run[1..];
      ParamsConcat([run[0]], run[1..]);
      ParamsOfOne(run[0]);
      ExecConcat(fw, run[0].params, Params(run[1..]), c);
    }
  }

  lemma {:induction false} ParamsReplayable(run: seq<Action>)
    requires forall a | a in run :: Numeric(a.params) && LaunchesNothing(a.params)
    ensures Numeric(Params(run)) && LaunchesNothing(Params(run))
  {
    if run != [] {
      ParamsReplayable(run[..|run| - 1]);
      assert run[|run| - 1] in run;
    }
  }

  lemma {:induction false} DeliveredRunKeepsEffect<S>(fw: Firmware<S>, run: seq<Action>, c: Cabinet<S>)
    requires IsRun(run, PureAction) && Mergeable(run, Numeric) && Mergeable(run, LaunchesNothing)
    ensures Exec(fw, Deliver(run, DeliveredAs).params, c) == Run(fw, run, c)
  {
    if |run| == 1 {
      assert run == [run[0]];
      RunOfOne(fw, run[0], c);
    } else {
      assert run[..|run| - 1] + [run[|run| - 1]] == run;
      MergedRunKeepsEffect(fw, run, c);
    }
  }

  lemma RunOfOne<S>(fw: Firmware<S>, a: Action, c: Cabinet<S>)
    ensures Run(fw, [a], c) == Exec(fw, a.params, c)
  {
    assert [a][1..] == [];
    assert Run(fw, [a], c) == Run(fw, [a][1..], Exec(fw, a.params, c));
  }

  lemma {:induction false} MergedRunKeepsEffect<S>(fw: Firmware<S>, run: seq<Action>, c: Cabinet<S>)
    requires forall i | 0 <= i < |run| :: PureAction(run[i])
    requires forall a | a in run :: Numeric(a.params) && LaunchesNothing(a.params)
    ensures Exec(fw, Merged(Params(run)), c) == Run(fw, run, c)
  {
    RunIsBlock(fw, run, c);
    ParamsReplayable(run);
    ExecMerged(fw, Params(run), c);
  }

  lemma {:induction false} ExecMerged<S>(fw: Firmware<S>, ps: seq<KV>, c: Cabinet<S>)
    requires Numeric(ps) && LaunchesNothing(ps)
    ensures Exec(fw, Merged(ps), c) == ExecBlock(fw, ps, c)
  {
    RenderIsPure(Replay(EMPTY, ReadAll(ps)));
    MergeKeepsEffect(fw, ps, c);
  }

  /**
   Coalescing preserves meaning: delivered to any cabinet with any firmware, the coalesced
   queue does what the original actions do one by one.
   */
  lemma {:induction false} CoalescedKeepsEffect<S(!new)>(fw: Firmware<S>, q: seq<Action>, c: Cabinet<S>)
    requires WhenMerged(q, Numeric) && WhenMerged(q, LaunchesNothing)
    ensures Run(fw, Coalesced(q), c) == Run(fw, q, c)
  {
    var exec := (a: Action, c: Cabinet<S>) => Exec(fw, a.params, c);
    RunsPartition(q, PureAction);
    forall i | 0 <= i < |Runs(q, PureAction)| ensures SameEffect(exec, Runs(q, PureAction)[i], DeliveredAs) {
      var run := Runs(q, PureAction)[i];
      assert IsRun(run, PureAction) && Mergeable(run, Numeric) && Mergeable(run, LaunchesNothing);
      forall c ensures exec(Deliver(run, DeliveredAs), c) == ExecAll(exec, run, c) {
        DeliveredRunKeepsEffect(fw, run, c);
      }
    }
    CoalesceKeepsEffect(exec, q, PureAction, DeliveredAs, c);
  }

  /** It is enough that every block action of the queue satisfies the condition. */
  lemma {:induction false} WhenAllThenWhenMerged(q: seq<Action>, p: seq<KV> -> bool)
    requires forall a | a in q && PureAction(a) :: p(a.params)
    ensures WhenMerged(q, p)
  {
    var runs := Runs(q, PureAction);
    RunsPartition(q, PureAction);
    forall i | 0 <= i < |runs| ensures Mergeable(runs[i], p) {
      assert IsRun(runs[i], PureAction);
      forall j | 0 <= j < |runs[i]| && |runs[i]| > 1 ensures p(runs[i][j].params) {
        FlattenHas(runs, i, j);
        assert PureAction(runs[i][j]);
      }
    }
  }

  /** How many scenarios the block actions of a queue launch. */
  function TotalLaunches(q: seq<Action>): nat {
    if q == [] then 0 else (if PureAction(q[0]) then Launches(q[0].params) else 0) + TotalLaunches(q[1..])
  }

  lemma {:induction false} RecorderCounts(q: seq<Action>, c: Cabinet<seq<string>>)
    ensures |Run(Recorder(), q, c).rest| == |c.rest| + TotalLaunches(q)
  {
    if q != [] {
      LaunchesMeaning(q[0].params, c);
      RecorderCounts(q[1..], Exec(Recorder(), q[0].params, c));
    }
  }

  lemma {:induction false} TotalLaunchesConcat(xs: seq<Action>, ys: seq<Action>)
    ensures TotalLaunches(xs + ys) == TotalLaunches(xs) + TotalLaunches(ys)
  {
    if xs == [] {
      assert xs + ys == ys;
    } else {
      assert (xs + ys)[1..] == xs[1..] + ys;
      TotalLaunchesConcat(xs[1..], ys);
    }
  }

  lemma {:induction false} NoLaunches(run: seq<Action>)
    requires TotalLaunches(run) == 0 && forall i | 0 <= i < |run| :: PureAction(run[i])
    ensures forall a | a in run :: LaunchesNothing(a.params)
  {
    if run != [] {
      NoLaunches(run[1..]);
      LaunchesMeaning(run[0].params, Cabinet({}, []));
      assert run == [run[0]] + run[1..];
    }
  }

  lemma {:induction false} MergedLaunchesNothing(run: seq<Action>)
    requires IsRun(run, PureAction)
    ensures var x := Deliver(run, DeliveredAs);
            TotalLaunches([x]) == if |run| == 1 then TotalLaunches(run) else 0
  {
    var x := Deliver(run, DeliveredAs);
    assert [x][1..] == [];
    assert TotalLaunches([x][1..]) == 0;
    if |run| == 1 {
      assert run == [x];
    } else {
      MergedLaunches(Params(run[..|run| - 1] + [run[|run| - 1]]));
    }
  }

  lemma {:induction false} MergedLaunches(ps: seq<KV>)
    ensures Launches(Merged(ps)) == 0
  {
    LaunchesMeaning(Merged(ps), Cabinet({}, []));
  }

  /** The first group, and what is delivered for it, count for themselves. */
  lemma {:induction false} HeadLaunches(q: seq<Action>)
    requires q != []
    ensures var n := HeadRun(q, PureAction);
            && TotalLaunches(q) == TotalLaunches(q[..n]) + TotalLaunches(q[n..])
            && TotalLaunches(Coalesced(q))
            == (if n == 1 then TotalLaunches(q[..n]) else 0) + TotalLaunches(Coalesced(q[n..]))
  {
    var n := HeadRun(q, PureAction);
    assert q == q[..n] + q[n..];
    TotalLaunchesConcat(q[..n], q[n..]);
    DeliveredLaunches(q, n);
  }

  lemma {:induction false} DeliveredLaunches(q: seq<Action>, n: nat)
    requires q != [] && n == HeadRun(q, PureAction)
    ensures TotalLaunches(Coalesced(q))
         == (if n == 1 then TotalLaunches(q[..n]) else 0) + TotalLaunches(Coalesced(q[n..]))
  {
    HeadIsRun(q, PureAction);
    MergedLaunchesNothing(q[..n]);
    TotalLaunchesConcat([Deliver(q[..n], DeliveredAs)], Coalesced(q[n..]));
  }

  /** Merging only ever loses launches, and loses none only if the merged actions carry none. */
  lemma {:induction false} LaunchesLost(q: seq<Action>)
    ensures TotalLaunches(Coalesced(q)) <= TotalLaunches(q)
    ensures TotalLaunches(Coalesced(q)) == TotalLaunches(q) ==> WhenMerged(q, LaunchesNothing)
    decreases |q|
  {
    if q != [] {
      var n := HeadRun(q, PureAction);
      LaunchesLost(q[n..]);
      HeadLaunches(q);
      HeadIsRun(q, PureAction);
      if TotalLaunches(Coalesced(q)) == TotalLaunches(q) && n > 1 {
        NoLaunches(q[..n]);
      }
    }
  }

  /**
   The exact condition: on numeric values coalescing keeps the effect of every queue unless a
   merged action carries a 590 other than "1", and then a scenario launch is lost.
   */
  lemma {:induction false} CoalescedKeepsEffectIff(q: seq<Action>)
    requires WhenMerged(q, Numeric)
    ensures WhenMerged(q, LaunchesNothing)
       <==> (forall c: Cabinet<seq<string>> :: Run(Recorder(), Coalesced(q), c) == Run(Recorder(), q, c))
  {
    if WhenMerged(q, LaunchesNothing) {
      forall c: Cabinet<seq<string>> ensures Run(Recorder(), Coalesced(q), c) == Run(Recorder(), q, c) {
        CoalescedKeepsEffect(Recorder(), q, c);
      }
    } else {
      var blank: Cabinet<seq<string>> := Cabinet({}, []);
      RecorderCounts(q, blank);
      RecorderCounts(Coalesced(q), blank);
      LaunchesLost(q);
    }
  }
}
