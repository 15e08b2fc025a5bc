/**
 The cloud action queue (`cloud_actions`): enqueue, poll and acknowledge as steps on the
 table, and what a cabinet sees over whole runs of those steps.
 */
module ActionQueue {
  import opened Wrappers
  import opened Coalescing
  import opened Sequences

  const DEFAULT_LIMIT := 20

  datatype Status = Pending | Delivered | Done {
    function Rank(): nat {
      match this case Pending => 0 case Delivered => 1 case Done => 2
    }
  }

  /** A row of the table; rows stand in creation order. */
  datatype Row = Row(action: Action, status: Status)

  predicate Waits(r: Row, m: int) {
    r.status == Pending && r.action.machineId == Some(m)
  }

  /** The pending actions of machine `m`, oldest first. */
  function PendingOf(rows: seq<Row>, m: int): seq<Action> {
    if rows == [] then [] else
    PendingOf(rows[..|rows| - 1], m) + if Waits(rows[|rows| - 1], m) then [rows[|rows| - 1].action] else []
  }

  /** All actions ever queued for machine `m`, oldest first. */
  function QueuedFor(rows: seq<Row>, m: int): seq<Action> {
    if rows == [] then [] else
    QueuedFor(rows[..|rows| - 1], m)
    + if rows[|rows| - 1].action.machineId == Some(m) then [rows[|rows| - 1].action] else []
  }

  ghost predicate UniqueGuids(rows: seq<Row>) {
    forall i, j | 0 <= i < j < |rows| :: rows[i].action.guid != rows[j].action.guid
  }

  predicate HasGuid(rows: seq<Row>, guid: string) {
    exists i | 0 <= i < |rows| :: rows[i].action.guid == guid
  }

  /** INSERT ... ON CONFLICT (guid) DO NOTHING. */
  function Enqueued(rows: seq<Row>, a: Action): seq<Row> {
    if HasGuid(rows, a.guid) then rows else rows + [Row(a, Pending)]
  }

  function Batch(rows: seq<Row>, m: int, limit: int): seq<Action> {
    var n := if limit <= 0 then DEFAULT_LIMIT else limit;
    var waiting := PendingOf(rows, m);
    if n < |waiting| then waiting[..n] else waiting
  }

  function Waiting(m: int): Row -> bool {
    (r: Row) => Waits(r, m)
  }

  function ActionsAt(rows: seq<Row>, at: seq<nat>): (actions: seq<Action>)
    requires forall j | 0 <= j < |at| :: at[j] < |rows|
    ensures |actions| == |at|
  {
    seq(|at|, j requires 0 <= j < |at| => rows[at[j]].action)
  }

  lemma {:induction false} PendingPush(rows: seq<Row>, last: Row, m: int)
    ensures PendingOf(rows + [last], m) == PendingOf(rows, m) + if Waits(last, m) then [last.action] else []
  {
    assert (rows + [last])[..|rows|] == rows;
  }

  lemma {:induction false} ActionsPush(rows: seq<Row>, last: Row, at: seq<nat>)
    requires forall j | 0 <= j < |at| :: at[j] < |rows|
    ensures ActionsAt(rows + [last], at) == ActionsAt(rows, at)
    ensures ActionsAt(rows + [last], at + [|rows|]) == ActionsAt(rows, at) + [last.action]
  {
  }

  /** Where the pending actions of `m` stand. */
  lemma {:induction false} PendingPositions(rows: seq<Row>, m: int) returns (idx: seq<nat>)
    ensures Positions(idx, rows, Waiting(m)) && PendingOf(rows, m) == ActionsAt(rows, idx)
  {
    if rows == [] {
      return [];
    }
    var init, last := rows[..|rows| - 1], rows[|rows| - 1];
    assert init + [last] == rows;
    idx := PendingPositions(init, m);
    PositionsPush(idx, init, last, Waiting(m));
    PendingPush(init, last, m);
    ActionsPush(init, last, idx);
    if Waits(last, m) {
      idx := idx + [|init|];
    }
  }

  ghost function WaitingRows(rows: seq<Row>, m: int): set<int> {
    set i | 0 <= i < |rows| && rows[i].status == Pending && rows[i].action.machineId == Some(m)
  }

  /**
   The rows one poll of `m` takes: waiting rows of `m` in order, none of which is passed over for
   a younger one, as many as there are up to the limit, which is 20 when none is given.
   */
  ghost predicate TakesOldest(rows: seq<Row>, m: int, limit: int, taken: seq<nat>) {
    && (forall i, j | 0 <= i < j < |taken| :: taken[i] < taken[j])
    && (forall j | 0 <= j < |taken| ::
          taken[j] < |rows| && rows[taken[j]].status == Pending && rows[taken[j]].action.machineId == Some(m))
    && (forall i: nat, j | i < |rows| && rows[i].status == Pending && rows[i].action.machineId == Some(m)
                           && i !in taken && 0 <= j < |taken| :: taken[j] < i)
    && var n := if limit <= 0 then 20 else limit;
       |taken| == if |WaitingRows(rows, m)| < n then |WaitingRows(rows, m)| else n
  }

  lemma {:induction false} PendingCount(rows: seq<Row>, m: int, idx: seq<nat>)
    requires Positions(idx, rows, Waiting(m))
    ensures |idx| == |WaitingRows(rows, m)|
  {
    PositionsCount(idx, rows, Waiting(m));
    assert Places(rows, Waiting(m)) == WaitingRows(rows, m);
  }

  lemma {:induction false} BatchTakesOldest(rows: seq<Row>, m: int, limit: int) returns (taken: seq<nat>)
    ensures TakesOldest(rows, m, limit, taken) && Batch(rows, m, limit) == ActionsAt(rows, taken)
  {
    var idx := PendingPositions(rows, m);
    PendingCount(rows, m, idx);
    var n := |Batch(rows, m, limit)|;
    taken := idx[..n];
    PrefixFirst(idx, rows, Waiting(m), n);
  }

  function Guids(batch: seq<Action>): set<string> {
    set i | 0 <= i < |batch| :: batch[i].guid
  }

  /** Every row whose GUID is in `guids` becomes delivered. */
  function MarkDelivered(rows: seq<Row>, guids: set<string>): seq<Row> {
    seq(|rows|, i requires 0 <= i < |rows| =>
      if rows[i].action.guid in guids then rows[i].(status := Delivered) else rows[i])
  }

  function Polled(rows: seq<Row>, m: int, limit: int): seq<Row> {
    MarkDelivered(rows, Guids(Batch(rows, m, limit)))
  }

  lemma {:induction false} PollTakesOldest(rows: seq<Row>, m: int, limit: int) returns (taken: seq<nat>)
    ensures TakesOldest(rows, m, limit, taken) && Batch(rows, m, limit) == ActionsAt(rows, taken)
    ensures |Polled(rows, m, limit)| == |rows| && forall i | 0 <= i < |rows| ::
              Polled(rows, m, limit)[i] ==
              if exists j :: 0 <= j < |taken| && rows[taken[j]].action.guid == rows[i].action.guid
              then Row(rows[i].action, Delivered) else rows[i]
  {
    taken := BatchTakesOldest(rows, m, limit);
    var batch := Batch(rows, m, limit);
    forall i | 0 <= i < |rows|
      ensures rows[i].action.guid in Guids(batch)
         <==> exists j :: 0 <= j < |taken| && rows[taken[j]].action.guid == rows[i].action.guid
    {
      assert forall j | 0 <= j < |taken| :: batch[j] == rows[taken[j]].action;
    }
  }

  /** Where the row of a GUID stands. */
  function Find(rows: seq<Row>, guid: string): (r: Option<nat>)
    ensures r.Some? ==> r.value < |rows| && rows[r.value].action.guid == guid
    ensures r.None? <==> !HasGuid(rows, guid)
  {
    if rows == [] then None
    else if rows[|rows| - 1].action.guid == guid then Some(|rows| - 1)
    else Find(rows[..|rows| - 1], guid)
  }

  /** UPDATE ... SET done WHERE guid = g OR (machine_id = m AND status = delivered). */
  function Closed(r: Row, guid: string, machine: Option<int>): Row {
    if r.action.guid == guid || (machine.Some? && r.action.machineId == machine && r.status == Delivered)
    then r.(status := Done) else r
  }

  function Acked(rows: seq<Row>, guid: string): seq<Row> {
    match Find(rows, guid)
    case None => rows
    case Some(at) => seq(|rows|, i requires 0 <= i < |rows| => Closed(rows[i], guid, rows[at].action.machineId))
  }

  /** The table with the store's methods. */
  class ActionStore {
    var rows: seq<Row>

    constructor ()
      ensures rows == []
    {
      rows := [];
    }

    method EnqueueCloudAction(a: Action)
      modifies this
      ensures rows == if exists i :: 0 <= i < |old(rows)| && old(rows)[i].action.guid == a.guid
                      then old(rows) else old(rows) + [Row(a, Pending)]
      ensures rows == Enqueued(old(rows), a)
    {
      if !HasGuid(rows, a.guid) {
        rows := rows + [Row(a, Pending)];
      }
    }

    /**
     One poll: read the oldest pending actions, coalesce them, mark each original delivered. Rows
     with the GUID of one it took become delivered, and no other row changes.
     */
    method FetchPendingActionsForMachine(m: int, limit: int) returns (deliver: seq<Action>, ghost taken: seq<nat>)
      modifies this
      ensures TakesOldest(old(rows), m, limit, taken) && deliver == Coalesced(ActionsAt(old(rows), taken))
      ensures |rows| == |old(rows)| && forall i | 0 <= i < |rows| ::
                var a := old(rows)[i].action;
                rows[i] == if exists j :: 0 <= j < |taken| && old(rows)[taken[j]].action.guid == a.guid
                           then Row(a, Delivered) else old(rows)[i]
      ensures deliver == Coalesced(Batch(old(rows), m, limit)) && rows == Polled(old(rows), m, limit)
    {
      var pending := Batch(rows, m, limit);
      taken := PollTakesOldest(rows, m, limit);
      if |pending| == 0 {
        assert rows == Polled(rows, m, limit);
        deliver := [];
        return;
      }
      deliver := CoalescePendingActions(pending);
      MarkEach(pending);
    }

    /** One UPDATE for each fetched action. */
    method MarkEach(pending: seq<Action>)
      modifies this
      ensures rows == MarkDelivered(old(rows), Guids(pending))
    {
      assert pending[..0] == [];
      for i := 0 to |pending|
        invariant rows == MarkDelivered(old(rows), Guids(pending[..i]))
      {
        rows := MarkDelivered(rows, {pending[i].guid});
        assert forall g :: g in Guids(pending[..i + 1]) <==> g in Guids(pending[..i]) || g == pending[i].guid;
      }
      assert pending[..|pending|] == pending;
    }

    method MarkActionDone(guid: string) returns (found: bool)
      modifies this
      ensures found <==> exists i :: 0 <= i < |old(rows)| && old(rows)[i].action.guid == guid
      ensures !found ==> rows == old(rows)
      ensures |rows| == |old(rows)| && forall i | 0 <= i < |rows| ::
                (old(rows)[i].action.guid == guid ==> rows[i] == Row(old(rows)[i].action, Done))
                && (rows[i] == old(rows)[i] || rows[i] == Row(old(rows)[i].action, Done))
      ensures forall at | 0 <= at < |rows| && UniqueGuids(old(rows)) && old(rows)[at].action.guid == guid ::
                forall i | 0 <= i < |rows| && i != at :: rows[i] ==
                  if old(rows)[at].action.machineId.Some? && old(rows)[i].status == Delivered
                     && old(rows)[i].action.machineId == old(rows)[at].action.machineId
                  then Row(old(rows)[i].action, Done) else old(rows)[i]
      ensures rows == Acked(old(rows), guid)
    {
      var at := Find(rows, guid);
      if at.None? {
        return false;
      }
      var machine := rows[at.value].action.machineId;
      rows := seq(|rows|, i requires 0 <= i < |rows| reads this => Closed(rows[i], guid, machine));
      return true;
    }
  }
}
