/**
 Whole runs of the action queue: what a cabinet has executed after any sequence of enqueues,
 polls and acknowledgements, and what happens to every row on the way.
 */
module QueueRuns {
  import opened Wrappers
  import opened Sequences
  import opened Exchange
  import opened Cabinets
  import opened Grouping
  import opened Coalescing
  import opened ActionQueue

  // ---------------------------------------------------------------- one poll

  lemma {:induction false} PendingAreRows(rows: seq<Row>, m: int)
    ensures forall a | a in PendingOf(rows, m) :: exists i :: 0 <= i < |rows| && rows[i] == Row(a, Pending)
  {
    if rows != [] {
      var n := |rows| - 1;
      PendingAreRows(rows[..n], m);
      forall a | a in PendingOf(rows, m) ensures exists i :: 0 <= i < |rows| && rows[i] == Row(a, Pending) {
        if a in PendingOf(rows[..n], m) {
          var i :| 0 <= i < n && rows[..n][i] == Row(a, Pending);
          assert rows[i] == Row(a, Pending);
        } else {
          assert rows[n] == Row(a, Pending);
        }
      }
    }
  }

  /** Marking rows by GUIDs none of them has changes nothing. */
  lemma {:induction false} MarkNone(rows: seq<Row>, guids: set<string>, extra: string)
    requires !HasGuid(rows, extra)
    ensures MarkDelivered(rows, guids + {extra}) == MarkDelivered(rows, guids)
  {
  }

  lemma {:induction false} GuidsSplit(batch: seq<Action>, a: Action)
    ensures Guids(batch + [a]) == Guids(batch) + {a.guid}
  {
    forall g ensures g in Guids(batch + [a]) <==> g in Guids(batch) + {a.guid} {
      assert (batch + [a])[|batch|] == a;
      assert forall i | 0 <= i < |batch| :: (batch + [a])[i] == batch[i];
    }
  }

  lemma {:induction false} NotAmong(rows: seq<Row>, m: int, batch: seq<Action>, guid: string)
    requires batch <= PendingOf(rows, m) && !HasGuid(rows, guid)
    ensures guid !in Guids(batch)
  {
    PendingAreRows(rows, m);
    assert forall i | 0 <= i < |batch| :: batch[i] in PendingOf(rows, m);
  }

  /** The last row is not in the batch: it stays as it is. */
  lemma {:induction false} MarkBefore(rows: seq<Row>, last: Row, m: int, n: nat)
    requires !HasGuid(rows, last.action.guid) && n <= |PendingOf(rows, m)|
    requires PendingOf(MarkDelivered(rows, Guids(PendingOf(rows, m)[..n])), m) == PendingOf(rows, m)[n..]
    ensures var guids := Guids(PendingOf(rows, m)[..n]);
            PendingOf(MarkDelivered(rows + [last], guids), m)
            == PendingOf(rows, m)[n..] + if Waits(last, m) then [last.action] else []
  {
    var guids := Guids(PendingOf(rows, m)[..n]);
    NotAmong(rows, m, PendingOf(rows, m)[..n], last.action.guid);
    assert MarkDelivered(rows + [last], guids)[..|rows|] == MarkDelivered(rows, guids);
  }

  /** The batch ends with the last row: nothing is left. */
  lemma {:induction false} MarkAll(rows: seq<Row>, last: Row, m: int)
    requires !HasGuid(rows, last.action.guid)
    requires PendingOf(MarkDelivered(rows, Guids(PendingOf(rows, m))), m) == []
    ensures PendingOf(MarkDelivered(rows + [last], Guids(PendingOf(rows, m) + [last.action])), m) == []
  {
    var guids := Guids(PendingOf(rows, m) + [last.action]);
    GuidsSplit(PendingOf(rows, m), last.action);
    MarkNone(rows, Guids(PendingOf(rows, m)), last.action.guid);
    assert MarkDelivered(rows + [last], guids)[..|rows|] == MarkDelivered(rows, guids);
  }

  /** Marking the first `n` pending actions of `m` leaves exactly the later ones pending. */
  lemma {:induction false} MarkTakesPrefix(rows: seq<Row>, m: int, n: nat)
    requires UniqueGuids(rows) && n <= |PendingOf(rows, m)|
    ensures PendingOf(MarkDelivered(rows, Guids(PendingOf(rows, m)[..n])), m) == PendingOf(rows, m)[n..]
  {
    if rows != [] {
      var k := |rows| - 1;
      var init, last := rows[..k], rows[k];
      var waiting := PendingOf(init, m);
      assert init + [last] == rows;
      assert !HasGuid(init, last.action.guid);
      if n <= |waiting| {
        assert PendingOf(rows, m)[..n] == waiting[..n];
        MarkTakesPrefix(init, m, n);
        MarkBefore(init, last, m, n);
      } else {
        assert PendingOf(rows, m)[..n] == waiting + [last.action];
        MarkTakesPrefix(init, m, |waiting|);
        assert waiting[..|waiting|] == waiting;
        MarkAll(init, last, m);
      }
    }
  }

  /** A row of another machine is never in a batch of `m`. */
  lemma {:induction false} OthersNotInBatch(rows: seq<Row>, m: int, batch: seq<Action>, i: nat)
    requires UniqueGuids(rows) && batch <= PendingOf(rows, m) && i < |rows| && rows[i].action.guid in Guids(batch)
    ensures rows[i].action.machineId == Some(m) && rows[i].status == Pending
  {
    PendingAreRows(rows, m);
    PendingBelong(rows, m);
    var j :| 0 <= j < |batch| && batch[j].guid == rows[i].action.guid;
    assert batch[j] in PendingOf(rows, m);
    var l :| 0 <= l < |rows| && rows[l] == Row(batch[j], Pending);
    assert l == i;
  }

  lemma {:induction false} PendingBelong(rows: seq<Row>, m: int)
    ensures forall a | a in PendingOf(rows, m) :: a.machineId == Some(m)
  {
    if rows != [] {
      PendingBelong(rows[..|rows| - 1], m);
    }
  }

  // ---------------------------------------------------------------- steps that keep the lists

  /** Rows change status only; those of `m` keep their pending state. */
  ghost predicate SamePending(rows: seq<Row>, rows': seq<Row>, m: int) {
    |rows'| == |rows| && forall i | 0 <= i < |rows| ::
      rows'[i].action == rows[i].action && (Waits(rows'[i], m) <==> Waits(rows[i], m))
  }

  lemma {:induction false} SamePendingKeeps(rows: seq<Row>, rows': seq<Row>, m: int)
    requires SamePending(rows, rows', m)
    ensures PendingOf(rows', m) == PendingOf(rows, m)
  {
    if rows != [] {
      SamePendingKeeps(rows[..|rows| - 1], rows'[..|rows| - 1], m);
    }
  }

  /** Acknowledging one delivered action closes all delivered actions of its machine and nothing else. */
  lemma {:induction false} AckClosesMachine(rows: seq<Row>, guid: string, at: nat)
    requires UniqueGuids(rows) && at < |rows| && rows[at].action.guid == guid
    requires rows[at].status == Delivered && rows[at].action.machineId.Some?
    ensures |Acked(rows, guid)| == |rows|
    ensures forall i | 0 <= i < |rows| ::
              Acked(rows, guid)[i] ==
              if rows[i].action.machineId == rows[at].action.machineId && rows[i].status == Delivered
              then rows[i].(status := Done) else rows[i]
  {
    assert HasGuid(rows, guid);
    var found := Find(rows, guid).value;
    assert found == at;
  }

  // ---------------------------------------------------------------- queued, less some

  /** The actions queued for `m` whose GUID is not in `skipped`, oldest first. */
  function Unskipped(rows: seq<Row>, m: int, skipped: set<string>): seq<Action> {
    if rows == [] then [] else
    var a := rows[|rows| - 1].action;
    Unskipped(rows[..|rows| - 1], m, skipped) + if a.machineId == Some(m) && a.guid !in skipped then [a] else []
  }

  function NotNamed(guid: string): Action -> bool {
    (a: Action) => a.guid != guid
  }

  ghost predicate Distinct(q: seq<Action>) {
    forall i, j | 0 <= i < j < |q| :: q[i].guid != q[j].guid
  }

  lemma {:induction false} UnskippedSame(rows: seq<Row>, rows': seq<Row>, m: int, skipped: set<string>)
    requires |rows'| == |rows| && forall i | 0 <= i < |rows| :: rows'[i].action == rows[i].action
    ensures Unskipped(rows', m, skipped) == Unskipped(rows, m, skipped)
  {
    if rows != [] {
      UnskippedSame(rows[..|rows| - 1], rows'[..|rows| - 1], m, skipped);
    }
  }

  lemma {:induction false} UnskippedPush(rows: seq<Row>, last: Row, m: int, skipped: set<string>)
    ensures Unskipped(rows + [last], m, skipped)
         == if last.action.machineId == Some(m) && last.action.guid !in skipped
            then Unskipped(rows, m, skipped) + [last.action] else Unskipped(rows, m, skipped)
  {
    assert (rows + [last])[..|rows|] == rows;
    assert Unskipped(rows, m, skipped) + [] == Unskipped(rows, m, skipped);
  }

  lemma {:induction false} UnskippedExcept(rows: seq<Row>, m: int, skipped: set<string>, guid: string)
    ensures Unskipped(rows, m, skipped + {guid}) == Select(Unskipped(rows, m, skipped), NotNamed(guid))
  {
    if rows != [] {
      var init, last := rows[..|rows| - 1], rows[|rows| - 1];
      UnskippedExcept(init, m, skipped, guid);
      assert init + [last] == rows;
      UnskippedPush(init, last, m, skipped);
      UnskippedPush(init, last, m, skipped + {guid});
      SelectPush(Unskipped(init, m, skipped), last.action, NotNamed(guid));
    }
  }

  lemma {:induction false} UnskippedAreRows(rows: seq<Row>, m: int, skipped: set<string>)
    ensures forall i | 0 <= i < |Unskipped(rows, m, skipped)| :: HasGuid(rows, Unskipped(rows, m, skipped)[i].guid)
  {
    if rows != [] {
      var n := |rows| - 1;
      var init := Unskipped(rows[..n], m, skipped);
      UnskippedAreRows(rows[..n], m, skipped);
      forall i | 0 <= i < |Unskipped(rows, m, skipped)| ensures HasGuid(rows, Unskipped(rows, m, skipped)[i].guid) {
        if i < |init| {
          var j :| 0 <= j < n && rows[..n][j].action.guid == init[i].guid;
          assert rows[j].action.guid == init[i].guid;
        } else {
          assert rows[n].action.guid == Unskipped(rows, m, skipped)[i].guid;
        }
      }
    }
  }

  lemma {:induction false} UnskippedDistinct(rows: seq<Row>, m: int, skipped: set<string>)
    requires UniqueGuids(rows)
    ensures Distinct(Unskipped(rows, m, skipped))
  {
    if rows != [] {
      var n := |rows| - 1;
      UnskippedDistinct(rows[..n], m, skipped);
      UnskippedAreRows(rows[..n], m, skipped);
      assert !HasGuid(rows[..n], rows[n].action.guid);
    }
  }

  predicate SkipsOne(rows: seq<Row>, m: int, skipped: set<string>) {
    exists i | 0 <= i < |rows| :: rows[i].action.machineId == Some(m) && rows[i].action.guid in skipped
  }

  lemma {:induction false} UnskippedIsQueuedIff(rows: seq<Row>, m: int, skipped: set<string>)
    ensures |Unskipped(rows, m, skipped)| <= |QueuedFor(rows, m)|
    ensures SkipsOne(rows, m, skipped) ==> |Unskipped(rows, m, skipped)| < |QueuedFor(rows, m)|
    ensures !SkipsOne(rows, m, skipped) ==> Unskipped(rows, m, skipped) == QueuedFor(rows, m)
  {
    if rows != [] {
      var n := |rows| - 1;
      UnskippedIsQueuedIff(rows[..n], m, skipped);
      if SkipsOne(rows[..n], m, skipped) {
        var i :| 0 <= i < n && rows[..n][i].action.machineId == Some(m) && rows[..n][i].action.guid in skipped;
        assert rows[i].action.guid in skipped;
      }
    }
  }

  // ---------------------------------------------------------------- runs

  datatype Event =
    | Enqueue(action: Action)
    | Poll(machine: int, limit: int)
    | Ack(guid: string)

  /**
   The table, and for one machine what the polls have taken from it in order and which of its
   actions were acknowledged before any poll took them.
   */
  datatype Queue = Queue(rows: seq<Row>, fetched: seq<Action>, skipped: set<string>)

  /** The GUID names an action of `m` that no poll has taken yet. */
  predicate NamesPending(rows: seq<Row>, guid: string, m: int) {
    exists i | 0 <= i < |rows| :: rows[i].action.guid == guid && Waits(rows[i], m)
  }

  function Next(m: int, q: Queue, e: Event): Queue {
    match e
    case Enqueue(a) => q.(rows := Enqueued(q.rows, a))
    case Ack(guid) =>
      Queue(Acked(q.rows, guid), q.fetched, if NamesPending(q.rows, guid, m) then q.skipped + {guid} else q.skipped)
    case Poll(m', limit) =>
      q.(rows := Polled(q.rows, m', limit),
         fetched := if m' == m then q.fetched + Batch(q.rows, m, limit) else q.fetched)
  }

  function RunQueue(m: int, es: seq<Event>): Queue {
    if es == [] then Queue([], [], {}) else Next(m, RunQueue(m, es[..|es| - 1]), es[|es| - 1])
  }

  /** What every step keeps. */
  ghost predicate QueueInvariant(m: int, q: Queue) {
    && UniqueGuids(q.rows)
    && Unskipped(q.rows, m, q.skipped) == q.fetched + PendingOf(q.rows, m)
    && forall g | g in q.skipped :: SkipsOne(q.rows, m, {g})
  }

  lemma EnqueueKeepsInvariant(m: int, q: Queue, a: Action)
    requires QueueInvariant(m, q)
    ensures QueueInvariant(m, Next(m, q, Enqueue(a)))
  {
    if !HasGuid(q.rows, a.guid) {
      var rows := q.rows + [Row(a, Pending)];
      assert rows[..|rows| - 1] == q.rows;
      forall g | g in q.skipped ensures g != a.guid && SkipsOne(rows, m, {g}) {
        var i :| 0 <= i < |q.rows| && q.rows[i].action.machineId == Some(m) && q.rows[i].action.guid in {g};
        assert rows[i].action.guid in {g};
      }
    }
  }

  lemma {:induction false} SkipsOneStays(rows: seq<Row>, rows': seq<Row>, m: int, guids: set<string>)
    requires SkipsOne(rows, m, guids)
    requires |rows'| == |rows| && forall i | 0 <= i < |rows| :: rows'[i].action == rows[i].action
    ensures SkipsOne(rows', m, guids)
  {
    var i :| 0 <= i < |rows| && rows[i].action.machineId == Some(m) && rows[i].action.guid in guids;
    assert rows'[i].action.guid in guids;
  }

  /** A poll of `m` moves a prefix of the pending actions to the fetched ones; others change nothing for `m`. */
  lemma {:induction false} PollMoves(rows: seq<Row>, m: int, m': int, limit: int)
    requires UniqueGuids(rows)
    ensures PendingOf(rows, m) == (if m' == m then Batch(rows, m, limit) else [])
        + PendingOf(Polled(rows, m', limit), m)
  {
    var batch, rows' := Batch(rows, m', limit), Polled(rows, m', limit);
    if m' == m {
      var n := |batch|;
      assert batch == PendingOf(rows, m)[..n];
      MarkTakesPrefix(rows, m, n);
    } else {
      forall i | 0 <= i < |rows'| ensures Waits(rows'[i], m) <==> Waits(rows[i], m) {
        if rows[i].action.guid in Guids(batch) { OthersNotInBatch(rows, m', batch, i); }
      }
      SamePendingKeeps(rows, rows', m);
    }
  }

  lemma PollKeepsInvariant(m: int, q: Queue, m': int, limit: int)
    requires QueueInvariant(m, q)
    ensures QueueInvariant(m, Next(m, q, Poll(m', limit)))
  {
    var rows := Polled(q.rows, m', limit);
    PollMoves(q.rows, m, m', limit);
    UnskippedSame(q.rows, rows, m, q.skipped);
    forall g | g in q.skipped ensures SkipsOne(rows, m, {g}) {
      SkipsOneStays(q.rows, rows, m, {g});
    }
    var batch := if m' == m then Batch(q.rows, m, limit) else [];
    assert q.fetched + (batch + PendingOf(rows, m)) == q.fetched + batch + PendingOf(rows, m);
  }

  /** An acknowledgement takes its GUID out of the pending actions, and nothing else. */
  lemma {:induction false} AckTakes(rows: seq<Row>, guid: string, m: int)
    ensures PendingOf(Acked(rows, guid), m) == Select(PendingOf(rows, m), NotNamed(guid))
  {
    if Find(rows, guid).Some? {
      PendingClosed(rows, guid, rows[Find(rows, guid).value].action.machineId, m);
    } else {
      NoneNamed(rows, guid, m);
      SelectAll(PendingOf(rows, m), NotNamed(guid));
    }
  }

  lemma {:induction false} NoneNamed(rows: seq<Row>, guid: string, m: int)
    requires !NamesPending(rows, guid, m)
    ensures forall i | 0 <= i < |PendingOf(rows, m)| :: PendingOf(rows, m)[i].guid != guid
  {
    PendingAreRows(rows, m);
    PendingBelong(rows, m);
    forall i | 0 <= i < |PendingOf(rows, m)| ensures PendingOf(rows, m)[i].guid != guid {
      var a := PendingOf(rows, m)[i];
      assert a in PendingOf(rows, m);
      var j :| 0 <= j < |rows| && rows[j] == Row(a, Pending);
      assert Waits(rows[j], m);
    }
  }

  lemma {:induction false} PendingClosed(rows: seq<Row>, guid: string, machine: Option<int>, m: int)
    ensures PendingOf(seq(|rows|, i requires 0 <= i < |rows| => Closed(rows[i], guid, machine)), m)
         == Select(PendingOf(rows, m), NotNamed(guid))
  {
    var rows' := seq(|rows|, i requires 0 <= i < |rows| => Closed(rows[i], guid, machine));
    if rows != [] {
      var init := rows[..|rows| - 1];
      PendingClosed(init, guid, machine, m);
      assert rows'[..|init|] == seq(|init|, i requires 0 <= i < |init| => Closed(init[i], guid, machine));
      SelectPush(PendingOf(init, m), rows[|init|].action, NotNamed(guid));
      assert PendingOf(init, m) + [] == PendingOf(init, m);
    }
  }

  lemma AckKeepsSkipped(m: int, q: Queue, guid: string)
    requires forall g | g in q.skipped :: SkipsOne(q.rows, m, {g})
    ensures var q' := Next(m, q, Ack(guid)); forall g | g in q'.skipped :: SkipsOne(q'.rows, m, {g})
  {
    var q' := Next(m, q, Ack(guid));
    forall g | g in q'.skipped ensures SkipsOne(q'.rows, m, {g}) {
      if g !in q.skipped {
        var i :| 0 <= i < |q.rows| && q.rows[i].action.guid == guid && Waits(q.rows[i], m);
        assert q.rows[i].action.guid in {g};
      }
      SkipsOneStays(q.rows, q'.rows, m, {g});
    }
  }

  /** An acknowledgement of a pending action takes it out of what is queued and out of what is pending. */
  lemma AckNamed(m: int, q: Queue, guid: string)
    requires QueueInvariant(m, q) && NamesPending(q.rows, guid, m)
    ensures Unskipped(q.rows, m, q.skipped + {guid}) == q.fetched + Select(PendingOf(q.rows, m), NotNamed(guid))
  {
    UnskippedExcept(q.rows, m, q.skipped, guid);
    SelectConcat(q.fetched, PendingOf(q.rows, m), NotNamed(guid));
    PendingNotFetched(m, q, guid);
    SelectAll(q.fetched, NotNamed(guid));
  }

  lemma AckKeepsInvariant(m: int, q: Queue, guid: string)
    requires QueueInvariant(m, q)
    ensures QueueInvariant(m, Next(m, q, Ack(guid)))
  {
    AckTakes(q.rows, guid, m);
    AckKeepsSkipped(m, q, guid);
    UnskippedSame(q.rows, Acked(q.rows, guid), m, Next(m, q, Ack(guid)).skipped);
    if NamesPending(q.rows, guid, m) {
      AckNamed(m, q, guid);
    } else {
      NoneNamed(q.rows, guid, m);
      SelectAll(PendingOf(q.rows, m), NotNamed(guid));
    }
  }

  lemma {:induction false} PendingHas(rows: seq<Row>, m: int, i: nat)
    requires i < |rows| && Waits(rows[i], m)
    ensures rows[i].action in PendingOf(rows, m)
  {
    if i < |rows| - 1 {
      PendingHas(rows[..|rows| - 1], m, i);
    }
  }

  lemma PendingNotFetched(m: int, q: Queue, guid: string)
    requires QueueInvariant(m, q) && NamesPending(q.rows, guid, m)
    ensures forall i | 0 <= i < |q.fetched| :: q.fetched[i].guid != guid
  {
    var i :| 0 <= i < |q.rows| && q.rows[i].action.guid == guid && Waits(q.rows[i], m);
    PendingHas(q.rows, m, i);
    var pending := PendingOf(q.rows, m);
    var j :| 0 <= j < |pending| && pending[j] == q.rows[i].action;
    UnskippedDistinct(q.rows, m, q.skipped);
    var all := q.fetched + pending;
    assert all[|q.fetched| + j].guid == guid;
    forall i | 0 <= i < |q.fetched| ensures q.fetched[i].guid != guid {
      assert all[i] == q.fetched[i];
    }
  }

  lemma {:induction false} InvariantHolds(m: int, es: seq<Event>)
    ensures QueueInvariant(m, RunQueue(m, es))
  {
    if es != [] {
      var n := |es| - 1;
      InvariantHolds(m, es[..n]);
      match es[n] {
        case Enqueue(a) => EnqueueKeepsInvariant(m, RunQueue(m, es[..n]), a);
        case Ack(guid) => AckKeepsInvariant(m, RunQueue(m, es[..n]), guid);
        case Poll(m', limit) => PollKeepsInvariant(m, RunQueue(m, es[..n]), m', limit);
      }
    }
  }

  /**
   Every run, whatever the interleaving of enqueues, polls of any machine with any limit, and
   acknowledgements of anything: the actions fetched for `m` followed by those still pending
   are exactly the actions queued for `m` in order, less those acknowledged while pending. None
   appears twice.
   */
  lemma {:induction false} QueueServesInOrder(m: int, es: seq<Event>)
    ensures var q := RunQueue(m, es);
            && UniqueGuids(q.rows)
            && q.fetched + PendingOf(q.rows, m) == Unskipped(q.rows, m, q.skipped)
            && Distinct(q.fetched + PendingOf(q.rows, m))
  {
    InvariantHolds(m, es);
    UnskippedDistinct(RunQueue(m, es).rows, m, RunQueue(m, es).skipped);
  }

  /** No acknowledgement of the run named an action of `m` that was still pending. */
  ghost predicate AcksFollowPolls(m: int, es: seq<Event>) {
    forall i | 0 <= i < |es| && es[i].Ack? :: !NamesPending(RunQueue(m, es[..i]).rows, es[i].guid, m)
  }

  lemma {:induction false} SkippedIff(m: int, es: seq<Event>)
    ensures RunQueue(m, es).skipped == {} <==> AcksFollowPolls(m, es)
  {
    if es != [] {
      var n := |es| - 1;
      assert forall i | 0 <= i <= n :: es[..n][..i] == es[..i];
      assert forall i | 0 <= i < n :: es[..n][i] == es[i];
      SkippedIff(m, es[..n]);
      if AcksFollowPolls(m, es[..n]) && !(es[n].Ack? && NamesPending(RunQueue(m, es[..n]).rows, es[n].guid, m)) {
        assert AcksFollowPolls(m, es);
      }
    }
  }

  /**
   `MarkActionDone` matches its GUID in any status. On every run nothing queued for `m` is
   skipped if and only if no acknowledgement named one of its actions before a poll took it.
   */
  lemma {:induction false} NothingSkippedIff(m: int, es: seq<Event>)
    ensures var q := RunQueue(m, es);
            QueuedFor(q.rows, m) == q.fetched + PendingOf(q.rows, m) <==> AcksFollowPolls(m, es)
  {
    var q := RunQueue(m, es);
    InvariantHolds(m, es);
    SkippedIff(m, es);
    UnskippedIsQueuedIff(q.rows, m, q.skipped);
    if q.skipped != {} {
      var g :| g in q.skipped;
      assert SkipsOne(q.rows, m, {g});
      var i :| 0 <= i < |q.rows| && q.rows[i].action.machineId == Some(m) && q.rows[i].action.guid in {g};
      assert q.rows[i].action.guid in q.skipped;
    }
  }

  /** The shortest run that loses a command: queued, acknowledged, and gone before any poll. */
  lemma AckSkips(m: int, a: Action)
    requires a.machineId == Some(m)
    ensures var q := RunQueue(m, [Enqueue(a), Ack(a.guid)]);
            QueuedFor(q.rows, m) == [a] && q.fetched == [] && PendingOf(q.rows, m) == []
  {
    var es := [Enqueue(a), Ack(a.guid)];
    assert es[..1] == [Enqueue(a)] && es[..1][..0] == [];
    assert RunQueue(m, es[..1]).rows == [Row(a, Pending)];
    assert [Row(a, Pending)][0].action.guid == a.guid;
    assert HasGuid([Row(a, Pending)], a.guid);
    assert RunQueue(m, es).rows == [Row(a, Done)];
    assert [Row(a, Done)][..0] == [];
  }

  // ---------------------------------------------------------------- what was queued

  /** Step `i` is the first to enqueue its GUID, for machine `m`. */
  ghost predicate FirstEnqueue(es: seq<Event>, i: int, m: int) {
    && 0 <= i < |es| && es[i].Enqueue? && es[i].action.machineId == Some(m)
    && forall k | 0 <= k < i && es[k].Enqueue? :: es[k].action.guid != es[i].action.guid
  }

  ghost predicate EnqueuesGuid(es: seq<Event>, guid: string) {
    exists i :: 0 <= i < |es| && es[i].Enqueue? && es[i].action.guid == guid
  }

  lemma {:induction false} SameActions(rows: seq<Row>, rows': seq<Row>, m: int)
    requires |rows'| == |rows| && forall i | 0 <= i < |rows| :: rows'[i].action == rows[i].action
    ensures QueuedFor(rows', m) == QueuedFor(rows, m)
    ensures forall guid :: HasGuid(rows', guid) <==> HasGuid(rows, guid)
  {
    if rows != [] {
      SameActions(rows[..|rows| - 1], rows'[..|rows| - 1], m);
    }
    forall guid ensures HasGuid(rows', guid) <==> HasGuid(rows, guid) {
      if i :| 0 <= i < |rows| && rows[i].action.guid == guid { assert rows'[i].action.guid == guid; }
      if i :| 0 <= i < |rows| && rows'[i].action.guid == guid { assert rows[i].action.guid == guid; }
    }
  }

  lemma {:induction false} GuidsAreEnqueued(m: int, es: seq<Event>, guid: string)
    ensures HasGuid(RunQueue(m, es).rows, guid) <==> EnqueuesGuid(es, guid)
  {
    if es != [] {
      var n := |es| - 1;
      var rows, rows' := RunQueue(m, es[..n]).rows, RunQueue(m, es).rows;
      GuidsAreEnqueued(m, es[..n], guid);
      assert EnqueuesGuid(es, guid) <==> EnqueuesGuid(es[..n], guid) || (es[n].Enqueue? && es[n].action.guid == guid);
      if es[n].Enqueue? {
        HasGuidPush(rows, Row(es[n].action, Pending), guid);
      } else {
        SameActions(rows, rows', m);
      }
    }
  }

  lemma {:induction false} HasGuidPush(rows: seq<Row>, last: Row, guid: string)
    ensures HasGuid(rows + [last], guid) <==> HasGuid(rows, guid) || last.action.guid == guid
  {
    var all := rows + [last];
    if i :| 0 <= i < |rows| && rows[i].action.guid == guid { assert all[i].action.guid == guid; }
    if last.action.guid == guid { assert all[|rows|].action.guid == guid; }
  }

  lemma {:induction false} FirstEnqueuePush(es: seq<Event>, i: int, m: int)
    requires es != []
    ensures var n := |es| - 1;
            FirstEnqueue(es, i, m) <==>
            if i == n then es[n].Enqueue? && es[n].action.machineId == Some(m)
                           && !EnqueuesGuid(es[..n], es[n].action.guid)
            else FirstEnqueue(es[..n], i, m)
  {
    assert forall k | 0 <= k < |es| - 1 :: es[..|es| - 1][k] == es[k];
  }

  /**
   The actions queued for `m` are those its enqueues brought, in the order of the run, each GUID
   the first time it came.
   */
  lemma {:induction false} QueuedAreEnqueued(m: int, es: seq<Event>) returns (idx: seq<nat>)
    ensures forall j, k | 0 <= j < k < |idx| :: idx[j] < idx[k]
    ensures |QueuedFor(RunQueue(m, es).rows, m)| == |idx|
    ensures forall j | 0 <= j < |idx| ::
              FirstEnqueue(es, idx[j], m) && es[idx[j]].action == QueuedFor(RunQueue(m, es).rows, m)[j]
    ensures forall i | FirstEnqueue(es, i, m) :: i in idx
  {
    if es == [] {
      return [];
    }
    var n := |es| - 1;
    var rows, rows' := RunQueue(m, es[..n]).rows, RunQueue(m, es).rows;
    idx := QueuedAreEnqueued(m, es[..n]);
    forall i ensures FirstEnqueue(es, i, m) <==>
        if i == n then es[n].Enqueue? && es[n].action.machineId == Some(m) && !EnqueuesGuid(es[..n], es[n].action.guid)
        else FirstEnqueue(es[..n], i, m)
    {
      FirstEnqueuePush(es, i, m);
    }
    if es[n].Enqueue? {
      GuidsAreEnqueued(m, es[..n], es[n].action.guid);
      assert (rows + [Row(es[n].action, Pending)])[..|rows|] == rows;
      if FirstEnqueue(es, n, m) {
        idx := idx + [n];
      }
    } else {
      SameActions(rows, rows', m);
    }
  }

  // ---------------------------------------------------------------- polls drain the queue

  /** Polls of `m` in a row, each with its limit. */
  function Polls(m: int, limits: seq<int>): (es: seq<Event>)
    ensures |es| == |limits|
  {
    seq(|limits|, i requires 0 <= i < |limits| => Poll(m, limits[i]))
  }

  /** How many actions they may take. */
  function Allowance(limits: seq<int>): (n: nat)
    ensures n >= |limits|
  {
    if limits == [] then 0 else
    var limit := limits[|limits| - 1];
    Allowance(limits[..|limits| - 1]) + if limit <= 0 then 20 else limit
  }

  /** What is left of a list when its first `n` elements are taken. */
  function Rest<T>(s: seq<T>, n: nat): seq<T> {
    if n < |s| then s[n..] else []
  }

  lemma {:induction false} RestTwice<T>(s: seq<T>, n: nat, k: nat)
    ensures Rest(Rest(s, n), k) == Rest(s, n + k)
  {
  }

  lemma {:induction false} PollLeaves(rows: seq<Row>, m: int, limit: int)
    requires UniqueGuids(rows)
    ensures var n := if limit <= 0 then 20 else limit;
            PendingOf(Polled(rows, m, limit), m) == Rest(PendingOf(rows, m), n)
  {
    PollMoves(rows, m, m, limit);
    var taken := BatchTakesOldest(rows, m, limit);
    var idx := PendingPositions(rows, m);
    PendingCount(rows, m, idx);
    var batch, rest := Batch(rows, m, limit), PendingOf(Polled(rows, m, limit), m);
    assert (batch + rest)[|batch|..] == rest;
  }

  lemma {:induction false} RunPush(m: int, es: seq<Event>, e: Event)
    ensures RunQueue(m, es + [e]) == Next(m, RunQueue(m, es), e)
  {
    assert (es + [e])[..|es|] == es;
  }

  lemma {:induction false} LastPoll(m: int, es: seq<Event>, limits: seq<int>)
    requires limits != []
    ensures var n := |limits| - 1;
            var q := RunQueue(m, es + Polls(m, limits[..n]));
            && UniqueGuids(q.rows)
            && RunQueue(m, es + Polls(m, limits)).rows == Polled(q.rows, m, limits[n])
            && RunQueue(m, es + Polls(m, limits)).skipped == q.skipped
  {
    var n := |limits| - 1;
    var earlier := es + Polls(m, limits[..n]);
    assert es + Polls(m, limits) == earlier + [Poll(m, limits[n])];
    RunPush(m, earlier, Poll(m, limits[n]));
    InvariantHolds(m, earlier);
  }

  lemma {:induction false} LastPollLeaves(m: int, es: seq<Event>, limits: seq<int>, n: nat)
    requires limits != [] && n == if limits[|limits| - 1] <= 0 then 20 else limits[|limits| - 1]
    ensures PendingOf(RunQueue(m, es + Polls(m, limits)).rows, m)
         == Rest(PendingOf(RunQueue(m, es + Polls(m, limits[..|limits| - 1])).rows, m), n)
  {
    LastPoll(m, es, limits);
    PollLeaves(RunQueue(m, es + Polls(m, limits[..|limits| - 1])).rows, m, limits[|limits| - 1]);
  }

  /** After any run, polls of `m` take its pending actions in order, as many as their limits allow, no others. */
  lemma {:induction false} PollsTake(m: int, es: seq<Event>, limits: seq<int>)
    ensures PendingOf(RunQueue(m, es + Polls(m, limits)).rows, m)
         == Rest(PendingOf(RunQueue(m, es).rows, m), Allowance(limits))
  {
    if limits == [] {
      assert es + Polls(m, limits) == es;
    } else {
      var n := |limits| - 1;
      var k := if limits[n] <= 0 then 20 else limits[n];
      var before := PendingOf(RunQueue(m, es).rows, m);
      var mid := PendingOf(RunQueue(m, es + Polls(m, limits[..n])).rows, m);
      PollsTake(m, es, limits[..n]);
      assert mid == Rest(before, Allowance(limits[..n]));
      LastPollLeaves(m, es, limits, k);
      RestTwice(before, Allowance(limits[..n]), k);
    }
  }

  /**
   After any run, polls of `m` that together may take as many actions as wait for it leave none
   waiting, whatever their limits: as many polls as waiting actions always do.
   */
  lemma {:induction false} PollsDrain(m: int, es: seq<Event>, limits: seq<int>)
    requires |WaitingRows(RunQueue(m, es).rows, m)| <= Allowance(limits)
    ensures forall r | r in RunQueue(m, es + Polls(m, limits)).rows ::
              !(r.status == Pending && r.action.machineId == Some(m))
    ensures PendingOf(RunQueue(m, es + Polls(m, limits)).rows, m) == []
  {
    var rows := RunQueue(m, es).rows;
    var idx := PendingPositions(rows, m);
    PendingCount(rows, m, idx);
    PollsTake(m, es, limits);
    var rows' := RunQueue(m, es + Polls(m, limits)).rows;
    forall i | 0 <= i < |rows'| ensures !(rows'[i].status == Pending && rows'[i].action.machineId == Some(m)) {
      if Waits(rows'[i], m) { PendingHas(rows', m, i); }
    }
  }

  lemma {:induction false} PollsKeep(m: int, es: seq<Event>, limits: seq<int>)
    ensures var q, q' := RunQueue(m, es), RunQueue(m, es + Polls(m, limits));
            QueuedFor(q'.rows, m) == QueuedFor(q.rows, m) && q'.skipped == q.skipped
  {
    if limits == [] {
      assert es + Polls(m, limits) == es;
    } else {
      var n := |limits| - 1;
      PollsKeep(m, es, limits[..n]);
      LastPoll(m, es, limits);
      SameActions(RunQueue(m, es + Polls(m, limits[..n])).rows, RunQueue(m, es + Polls(m, limits)).rows, m);
    }
  }

  // ---------------------------------------------------------------- the cabinet

  /** The cabinet of `m`, fed the coalesced batch of each of its polls. */
  function CabinetAfter<S>(fw: Firmware<S>, m: int, es: seq<Event>, c0: Cabinet<S>): Cabinet<S> {
    if es == [] then c0 else
    var n := |es| - 1;
    var c := CabinetAfter(fw, m, es[..n], c0);
    match es[n]
    case Poll(m', limit) => if m' == m then Run(fw, Coalesced(Batch(RunQueue(m, es[..n]).rows, m, limit)), c) else c
    case _ => c
  }

  /** Whenever a poll of `m` merges actions, they satisfy `p`. */
  ghost predicate WhenPolled(m: int, es: seq<Event>, p: seq<KV> -> bool) {
    forall i | 0 <= i < |es| && es[i].Poll? && es[i].machine == m ::
      WhenMerged(Batch(RunQueue(m, es[..i]).rows, m, es[i].limit), p)
  }

  lemma {:induction false} WhenPolledPrefix(m: int, es: seq<Event>, p: seq<KV> -> bool)
    requires es != []
    ensures var n := |es| - 1;
            WhenPolled(m, es, p) <==>
              WhenPolled(m, es[..n], p)
              && (es[n].Poll? && es[n].machine == m ==> WhenMerged(Batch(RunQueue(m, es[..n]).rows, m, es[n].limit), p))
  {
    var n := |es| - 1;
    assert forall i | 0 <= i <= n :: es[..n][..i] == es[..i];
    assert forall i | 0 <= i < n :: es[..n][i] == es[i];
    if WhenPolled(m, es, p) {
      forall i | 0 <= i < n && es[..n][i].Poll? && es[..n][i].machine == m
        ensures WhenMerged(Batch(RunQueue(m, es[..n][..i]).rows, m, es[..n][i].limit), p)
      {
        assert es[i].Poll?;
      }
    }
  }

  /**
   The cabinet of `m`, fed only coalesced batches, stands as if it had executed every fetched
   action one by one, in every run whose merged actions of `m` are numeric and launch nothing;
   acknowledgements and other machines do not matter.
   */
  lemma {:induction false} CabinetFollowsFetched<S(!new)>(fw: Firmware<S>, m: int, es: seq<Event>, c0: Cabinet<S>)
    requires WhenPolled(m, es, Numeric) && WhenPolled(m, es, LaunchesNothing)
    ensures CabinetAfter(fw, m, es, c0) == Run(fw, RunQueue(m, es).fetched, c0)
  {
    if es != [] {
      var n := |es| - 1;
      WhenPolledPrefix(m, es, Numeric);
      WhenPolledPrefix(m, es, LaunchesNothing);
      CabinetFollowsFetched(fw, m, es[..n], c0);
      if es[n].Poll? && es[n].machine == m {
        var q := RunQueue(m, es[..n]);
        var batch := Batch(q.rows, m, es[n].limit);
        CoalescedKeepsEffect(fw, batch, CabinetAfter(fw, m, es[..n], c0));
        ExecAllConcat((a: Action, c) => Exec(fw, a.params, c), q.fetched, batch, c0);
      }
    }
  }

  /** A cabinet that records launches misses those of the merged actions, and nothing brings them back. */
  lemma {:induction false} RecordedLaunches(m: int, es: seq<Event>, c0: Cabinet<seq<string>>)
    ensures var recorded := |CabinetAfter(Recorder(), m, es, c0).rest|;
            var launched := |c0.rest| + TotalLaunches(RunQueue(m, es).fetched);
            recorded <= launched && (recorded == launched ==> WhenPolled(m, es, LaunchesNothing))
  {
    if es != [] {
      var n := |es| - 1;
      RecordedLaunches(m, es[..n], c0);
      WhenPolledPrefix(m, es, LaunchesNothing);
      if es[n].Poll? && es[n].machine == m {
        var q := RunQueue(m, es[..n]);
        var batch := Batch(q.rows, m, es[n].limit);
        RecorderCounts(Coalesced(batch), CabinetAfter(Recorder(), m, es[..n], c0));
        TotalLaunchesConcat(q.fetched, batch);
        LaunchesLost(batch);
      }
    }
  }

  /** The exact condition over whole runs of numeric commands: no merged action of `m` launches a scenario. */
  lemma {:induction false} CabinetFollowsFetchedIff(m: int, es: seq<Event>)
    requires WhenPolled(m, es, Numeric)
    ensures WhenPolled(m, es, LaunchesNothing)
       <==> (forall c0: Cabinet<seq<string>> ::
         CabinetAfter(Recorder(), m, es, c0) == Run(Recorder(), RunQueue(m, es).fetched, c0))
  {
    if WhenPolled(m, es, LaunchesNothing) {
      forall c0: Cabinet<seq<string>>
        ensures CabinetAfter(Recorder(), m, es, c0) == Run(Recorder(), RunQueue(m, es).fetched, c0)
      {
        CabinetFollowsFetched(Recorder(), m, es, c0);
      }
    } else {
      var blank: Cabinet<seq<string>> := Cabinet({}, []);
      RecordedLaunches(m, es, blank);
      RecorderCounts(RunQueue(m, es).fetched, blank);
    }
  }

  /**
   Both halves together: when nothing of `m` is pending any more, as after enough polls, its
   cabinet stands as if it had executed every command ever queued for it, one by one in the order
   of the queue.
   */
  lemma {:induction false} CabinetFollowsQueue<S(!new)>(fw: Firmware<S>, m: int, es: seq<Event>, c0: Cabinet<S>)
    requires AcksFollowPolls(m, es) && WhenPolled(m, es, Numeric) && WhenPolled(m, es, LaunchesNothing)
    requires PendingOf(RunQueue(m, es).rows, m) == []
    ensures CabinetAfter(fw, m, es, c0) == Run(fw, QueuedFor(RunQueue(m, es).rows, m), c0)
  {
    NothingSkippedIff(m, es);
    CabinetFollowsFetched(fw, m, es, c0);
    assert RunQueue(m, es).fetched + [] == RunQueue(m, es).fetched;
  }

  /** After any run, enough further polls bring the cabinet up to every command queued for it until then. */
  lemma {:induction false} CabinetCatchesUp<S(!new)>(fw: Firmware<S>, m: int, es: seq<Event>, limits: seq<int>,
                                                     c0: Cabinet<S>)
    requires AcksFollowPolls(m, es) && |WaitingRows(RunQueue(m, es).rows, m)| <= Allowance(limits)
    requires WhenPolled(m, es + Polls(m, limits), Numeric) && WhenPolled(m, es + Polls(m, limits), LaunchesNothing)
    ensures CabinetAfter(fw, m, es + Polls(m, limits), c0) == Run(fw, QueuedFor(RunQueue(m, es).rows, m), c0)
  {
    PollsDrain(m, es, limits);
    PollsKeep(m, es, limits);
    SkippedIff(m, es);
    SkippedIff(m, es + Polls(m, limits));
    CabinetFollowsQueue(fw, m, es + Polls(m, limits), c0);
  }

  /**
   Whatever the event: no row leaves the table or changes its action, and a status only moves
   from pending to delivered to done.
   */
  lemma StatusOnlyAdvances(m: int, q: Queue, e: Event, i: nat)
    requires UniqueGuids(q.rows) && i < |q.rows|
    ensures var rows := Next(m, q, e).rows;
            i < |rows| && rows[i].action == q.rows[i].action && q.rows[i].status.Rank() <= rows[i].status.Rank()
  {
    if e.Poll? && q.rows[i].action.guid in Guids(Batch(q.rows, e.machine, e.limit)) {
      OthersNotInBatch(q.rows, e.machine, Batch(q.rows, e.machine, e.limit), i);
    }
  }
}
