/** Two commands of the portal after whose merged delivery a cabinet stands otherwise than after them. */
module LostLaunch {
  import opened Wrappers
  import opened Exchange
  import opened MergeParams
  import opened Cabinets
  import opened Grouping
  import opened Coalescing
  import opened Expansion

  /** Two completed commands of one machine, as the portal queues them. */
  function Queued(x: seq<KV>, y: seq<KV>): (q: seq<Action>)
    ensures |q| == 2
  {
    [Action("a", 1, Some(7), x), Action("b", 1, Some(7), y)]
  }

  lemma {:induction false} QueuedLaunches(x: seq<KV>, y: seq<KV>)
    requires IsPureBlock(x) && IsPureBlock(y) && !LaunchesNothing(x)
    ensures TotalLaunches(Queued(x, y)) > 0 && TotalLaunches(Coalesced(Queued(x, y))) == 0
  {
    var q := Queued(x, y);
    LaunchesMeaning(x, Cabinet({}, []));
    assert q[1..] == [q[1]];
    assert q[..2] == q && q[2..] == [];
    CoalesceHead(q, PureAction, DeliveredAs, 2);
    assert Coalesced(q) == [Deliver(q, DeliveredAs)] + Coalesced([]);
    assert Coalesced(q) == [Deliver(q, DeliveredAs)];
    MergedLaunchesNothing(q);
  }

  lemma {:induction false} LaunchingCommand()
    ensures var a := [KV(590, "3"), KV(613, "4")];
            TouchesBlock(a) && AsksForBlockOnly(a) && 590 in LastWins(a) && LastWins(a)[590] != "1"
  {
    var a := [KV(590, "3"), KV(613, "4")];
    assert InBlock(a[1].k);
    assert a[..1] == [KV(590, "3")] && a[..1][..0] == [];
    assert LastWins(a) == map[590 := "3", 613 := "4"];
    assert "3"[0] != "1"[0];
  }

  lemma {:induction false} ShutterCommand()
    ensures var b := [KV(617, "2")]; TouchesBlock(b) && AsksForBlockOnly(b)
  {
    var b := [KV(617, "2")];
    assert InBlock(b[0].k);
    assert b[..0] == [] && LastWins(b) == map[617 := "2"];
  }

  /** A completed command keeps the 590 it was given. */
  lemma {:induction false} ExpansionLaunches(params: seq<KV>, out: seq<KV>)
    requires IsExpansion(params, out) && TouchesBlock(params)
    requires INDEX_SCENARIO in LastWins(params) && LastWins(params)[INDEX_SCENARIO] != "1"
    ensures !LaunchesNothing(out)
  {
    LastWinsMeaning(out, INDEX_SCENARIO);
  }

  /**
   "Launch scenario 3 and light a lamp", then "lower a shutter", each completed before it is
   queued: coalesced, the launch disappears, and a cabinet that records launches stands
   otherwise than after the two commands.
   */
  lemma {:induction false} LaunchLost(x: seq<KV>, y: seq<KV>)
    requires IsExpansion([KV(590, "3"), KV(613, "4")], x) && IsExpansion([KV(617, "2")], y)
    ensures IsPureBlock(x) && IsPureBlock(y)
    ensures var q, blank := Queued(x, y), Cabinet({}, []);
            Run(Recorder(), q, blank).rest != [] && Run(Recorder(), Coalesced(q), blank).rest == []
  {
    var q, blank := Queued(x, y), Cabinet({}, []);
    LaunchingCommand();
    ShutterCommand();
    ExpansionIsPureIff([KV(590, "3"), KV(613, "4")], x);
    ExpansionIsPureIff([KV(617, "2")], y);
    ExpansionLaunches([KV(590, "3"), KV(613, "4")], x);
    QueuedLaunches(x, y);
    RecorderCounts(q, blank);
    RecorderCounts(Coalesced(q), blank);
  }
}
