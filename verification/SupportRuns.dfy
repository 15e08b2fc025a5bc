/**
 Send attempts and statuses of support reports over whole runs, with submissions and rounds of
 the syncer interleaved statement by statement.
 */
module SupportRuns {
  import opened Wrappers
  import opened Sequences
  import opened Bits
  import opened SupportReports

  /** A send attempt: when it was made, and whether it opened an issue. */
  datatype Try = Try(at: int, created: bool)

  /** The desk, and the attempts of each report. */
  datatype Ledger = Ledger(desk: Desk, tries: seq<seq<Try>>)

  function Log(cfg: Settings, l: Ledger, e: Event): Ledger
    requires |l.tries| == |l.desk.reports|
  {
    var d := Next(cfg, l.desk, e);
    if e.File? && |d.reports| > |l.desk.reports| then Ledger(d, l.tries + [[]])
    else if Sends(l.desk, e) then
      var id := l.desk.claims[e.claim].id;
      Ledger(d, l.tries[id := l.tries[id] + [Try(e.now, e.outcome.Created?)]])
    else Ledger(d, l.tries)
  }

  function Logged(cfg: Settings, es: seq<Event>): (l: Ledger)
    ensures |l.tries| == |l.desk.reports|
    ensures l.desk == Run(cfg, es)
  {
    if es == [] then Ledger(EMPTY, []) else Log(cfg, Logged(cfg, es[..|es| - 1]), es[|es| - 1])
  }

  // ---------------------------------------------------------------- what a report knows of its attempts

  /** What the row remembers of its attempts, disciplined or not. */
  ghost predicate Tracks(r: Report, tries: seq<Try>) {
    && r.attempts == |tries|
    && (r.status == Pending <==> forall i | 0 <= i < |tries| :: !tries[i].created)
    && (r.status == Pending && tries != [] ==> r.updatedAt == tries[|tries| - 1].at)
    && (r.payload.Some? <==> r.status == Pending)
    && (r.issue.None? <==> r.status == Pending)
  }

  lemma {:induction false} SendKeepsTrack(r: Report, tries: seq<Try>, outcome: Outcome, now: int)
    requires Tracks(r, tries)
    ensures Tracks(Sent(r, outcome, now), tries + [Try(now, outcome.Created?)])
  {
    var tries' := tries + [Try(now, outcome.Created?)];
    assert tries'[|tries|] == Try(now, outcome.Created?);
    assert forall i | 0 <= i < |tries| :: tries'[i] == tries[i];
  }

  /** Every run: see the corollaries below. */
  lemma {:induction false} RowsTrack(cfg: Settings, es: seq<Event>, i: nat)
    requires i < |Logged(cfg, es).tries|
    ensures Tracks(Logged(cfg, es).desk.reports[i], Logged(cfg, es).tries[i])
  {
    var n := |es| - 1;
    var l, e := Logged(cfg, es[..n]), es[n];
    if i < |l.desk.reports| {
      RowsTrack(cfg, es[..n], i);
      if Sends(l.desk, e) && l.desk.claims[e.claim].id == i {
        SendKeepsTrack(l.desk.reports[i], l.tries[i], e.outcome, e.now);
      }
    }
  }

  /** The payload is kept exactly while the report is pending, when it has no issue yet. */
  lemma {:induction false} PayloadOnlyWhilePending(cfg: Settings, es: seq<Event>, i: nat)
    requires i < |Run(cfg, es).reports|
    ensures Run(cfg, es).reports[i].payload.Some? <==> Run(cfg, es).reports[i].status == Pending
    ensures Run(cfg, es).reports[i].issue.None? <==> Run(cfg, es).reports[i].status == Pending
  {
    RowsTrack(cfg, es, i);
  }

  // ---------------------------------------------------------------- attempts

  /** Successive attempts are more than 1, 2, 4... minutes apart. */
  ghost predicate BackedOff(tries: seq<Try>) {
    forall k | 1 <= k < |tries| :: tries[k].at - tries[k - 1].at > 60_000 * Pow2(k - 1)
  }

  /** At most ten attempts, backed off, and none after the one that opened an issue: one issue at most. */
  ghost predicate Disciplined(tries: seq<Try>) {
    && |tries| <= 10
    && BackedOff(tries)
    && forall k | 0 <= k < |tries| - 1 :: !tries[k].created
  }

  /** One more attempt keeps discipline exactly when it finds the report due. */
  lemma {:induction false} DueIff(r: Report, tries: seq<Try>, t: Try)
    requires Tracks(r, tries) && Disciplined(tries)
    ensures Disciplined(tries + [t]) <==> DueForSend(r, t.at)
  {
    var tries', n := tries + [t], |tries|;
    assert tries'[n] == t && forall i | 0 <= i < n :: tries'[i] == tries[i];
    if Disciplined(tries') {
      assert n > 0 ==> tries'[n].at - tries'[n - 1].at > 60_000 * Pow2(n - 1);
      forall i | 0 <= i < n ensures !tries[i].created {
        assert !tries'[i].created;
      }
    }
  }

  lemma {:induction false} DisciplinedPrefix(tries: seq<Try>, t: Try)
    requires Disciplined(tries + [t])
    ensures Disciplined(tries)
  {
    var tries' := tries + [t];
    assert forall i | 0 <= i < |tries| :: tries'[i] == tries[i];
    forall k | 1 <= k < |tries| ensures tries[k].at - tries[k - 1].at > 60_000 * Pow2(k - 1) {
      assert tries'[k].at - tries'[k - 1].at > 60_000 * Pow2(k - 1);
    }
  }

  ghost predicate AllDisciplined(l: Ledger) {
    forall i | 0 <= i < |l.tries| :: Disciplined(l.tries[i])
  }

  /** A send of the step finds its report due. */
  predicate FindsDue(d: Desk, e: Event) {
    Sends(d, e) ==> DueForSend(d.reports[d.claims[e.claim].id], e.now)
  }

  ghost predicate SendsFindDue(cfg: Settings, es: seq<Event>) {
    forall k | 0 <= k < |es| :: FindsDue(Run(cfg, es[..k]), es[k])
  }

  lemma {:induction false} FindsDuePrefix(cfg: Settings, es: seq<Event>)
    requires es != []
    ensures var n := |es| - 1;
            SendsFindDue(cfg, es) <==> SendsFindDue(cfg, es[..n]) && FindsDue(Run(cfg, es[..n]), es[n])
  {
    var n := |es| - 1;
    assert forall k | 0 <= k <= n :: es[..n][..k] == es[..k];
    assert forall k | 0 <= k < n :: es[..n][k] == es[k];
    if SendsFindDue(cfg, es) {
      forall k | 0 <= k < n ensures FindsDue(Run(cfg, es[..n][..k]), es[..n][k]) {
        assert FindsDue(Run(cfg, es[..k]), es[k]);
      }
    }
  }

  lemma {:induction false} StepDisciplinedIff(cfg: Settings, l: Ledger, e: Event)
    requires |l.tries| == |l.desk.reports| && forall i | 0 <= i < |l.tries| :: Tracks(l.desk.reports[i], l.tries[i])
    ensures AllDisciplined(Log(cfg, l, e)) <==> AllDisciplined(l) && FindsDue(l.desk, e)
  {
    var l' := Log(cfg, l, e);
    if e.File? && |l'.desk.reports| > |l.desk.reports| {
      assert l'.tries[|l.tries|] == [];
      assert forall i | 0 <= i < |l.tries| :: l'.tries[i] == l.tries[i];
    } else if Sends(l.desk, e) {
      var id, t := l.desk.claims[e.claim].id, Try(e.now, e.outcome.Created?);
      assert l'.tries[id] == l.tries[id] + [t];
      assert forall i | 0 <= i < |l.tries| && i != id :: l'.tries[i] == l.tries[i];
      if Disciplined(l'.tries[id]) { DisciplinedPrefix(l.tries[id], t); }
      if Disciplined(l.tries[id]) { DueIff(l.desk.reports[id], l.tries[id], t); }
    }
  }

  /**
   Over every run the attempts of every report are disciplined if and only if every send finds
   its report due at that instant. Neither a submission nor the syncer checks that again between
   deciding a send and making it.
   */
  lemma {:induction false} AttemptsIff(cfg: Settings, es: seq<Event>)
    ensures AllDisciplined(Logged(cfg, es)) <==> SendsFindDue(cfg, es)
  {
    if es != [] {
      var n := |es| - 1;
      AttemptsIff(cfg, es[..n]);
      FindsDuePrefix(cfg, es);
      forall i | 0 <= i < |Logged(cfg, es[..n]).tries|
        ensures Tracks(Logged(cfg, es[..n]).desk.reports[i], Logged(cfg, es[..n]).tries[i])
      {
        RowsTrack(cfg, es[..n], i);
      }
      StepDisciplinedIff(cfg, Logged(cfg, es[..n]), es[n]);
    }
  }

  lemma {:induction false} BackoffAddsUp(tries: seq<Try>, k: nat)
    requires BackedOff(tries) && k < |tries|
    ensures tries[k].at - tries[0].at >= 60_000 * (Pow2(k) - 1)
  {
    if k > 0 {
      BackoffAddsUp(tries, k - 1);
    }
  }

  /** Then at most ten attempts, attempt k+1 at least 2^k - 1 minutes after the first, and one issue. */
  lemma {:induction false} RetriesBackOff(cfg: Settings, es: seq<Event>, i: nat, k: nat)
    requires SendsFindDue(cfg, es)
    requires i < |Run(cfg, es).reports| && k < |Logged(cfg, es).tries[i]|
    ensures var tries := Logged(cfg, es).tries[i];
            && |tries| <= 10
            && tries[k].at - tries[0].at >= 60_000 * (Pow2(k) - 1)
            && (tries[k].created ==> k == |tries| - 1)
  {
    AttemptsIff(cfg, es);
    BackoffAddsUp(Logged(cfg, es).tries[i], k);
  }

  // ---------------------------------------------------------------- sends that do not overlap

  /** Step `i` decided the send of claim `c`. */
  predicate ClaimedAt(cfg: Settings, es: seq<Event>, i: nat, c: nat)
    requires i < |es|
  {
    |Run(cfg, es[..i]).claims| == c < |Next(cfg, Run(cfg, es[..i]), es[i]).claims|
  }

  lemma {:induction false} WasClaimed(cfg: Settings, es: seq<Event>, c: nat) returns (i: nat)
    requires c < |Run(cfg, es).claims|
    ensures i < |es| && ClaimedAt(cfg, es, i, c)
    ensures Next(cfg, Run(cfg, es[..i]), es[i]).claims[c].id == Run(cfg, es).claims[c].id
  {
    var n := |es| - 1;
    if c < |Run(cfg, es[..n]).claims| {
      i := WasClaimed(cfg, es[..n], c);
      PrefixOfPrefix(es, i, n);
    } else {
      i := n;
    }
  }

  /** The step sends report `id`. */
  predicate SendsTo(d: Desk, e: Event, id: nat) {
    Sends(d, e) && d.claims[e.claim].id == id
  }

  lemma {:induction false} PendingStays(d: Desk, e: Event, id: nat)
    requires id < |d.reports| && d.reports[id].status == Pending && !SendsTo(d, e, id)
    ensures id < |ReportsAfter(d, e)| && ReportsAfter(d, e)[id] == d.reports[id]
  {
  }

  lemma {:induction false} StaysPending(cfg: Settings, es: seq<Event>, i: nat, k: nat, id: nat)
    requires i <= k <= |es| && id < |Run(cfg, es[..i]).reports| && Run(cfg, es[..i]).reports[id].status == Pending
    requires forall j | i <= j < k :: !SendsTo(Run(cfg, es[..j]), es[j], id)
    ensures id < |Run(cfg, es[..k]).reports| && Run(cfg, es[..k]).reports[id] == Run(cfg, es[..i]).reports[id]
  {
    if i < k {
      StaysPending(cfg, es, i, k - 1, id);
      RunTake(cfg, EMPTY, es, k - 1);
      PendingStays(Run(cfg, es[..k - 1]), es[k - 1], id);
    }
  }

  /**
   No send of a report comes between the instant another send of it was decided and that send:
   no retry between its insert and its own send, and no other send between its listing and its retry.
   */
  ghost predicate SendsApart(cfg: Settings, es: seq<Event>) {
    forall i, j, k | 0 <= i < j < k < |es| && Sends(Run(cfg, es[..k]), es[k]) && ClaimedAt(cfg, es, i, es[k].claim) ::
      !SendsTo(Run(cfg, es[..j]), es[j], Run(cfg, es[..k]).claims[es[k].claim].id)
  }

  /** A report due at step `i` is due at step `k` when no send of it comes between. */
  lemma {:induction false} StaysDue(cfg: Settings, es: seq<Event>, i: nat, k: nat, id: nat, since: int, now: int)
    requires i <= k <= |es| && since <= now
    requires id < |Run(cfg, es[..i]).reports| && DueForSend(Run(cfg, es[..i]).reports[id], since)
    requires forall j | i <= j < k :: !SendsTo(Run(cfg, es[..j]), es[j], id)
    ensures id < |Run(cfg, es[..k]).reports| && DueForSend(Run(cfg, es[..k]).reports[id], now)
  {
    StaysPending(cfg, es, i, k, id);
  }

  lemma {:induction false} DueWhenClaimed(cfg: Settings, es: seq<Event>, c: nat) returns (i: nat)
    requires c < |Run(cfg, es).claims|
    ensures i < |es| && ClaimedAt(cfg, es, i, c)
    ensures var id := Run(cfg, es).claims[c].id;
            id < |Run(cfg, es[..i + 1]).reports| && DueForSend(Run(cfg, es[..i + 1]).reports[id], es[i].now)
  {
    i := WasClaimed(cfg, es, c);
    RunTake(cfg, EMPTY, es, i);
  }

  lemma {:induction false} SendIsDue(cfg: Settings, es: seq<Event>, k: nat)
    requires ClockForward(es) && SendsApart(cfg, es) && k < |es| && Sends(Run(cfg, es[..k]), es[k])
    ensures FindsDue(Run(cfg, es[..k]), es[k])
  {
    var id := Run(cfg, es[..k]).claims[es[k].claim].id;
    var i := DueWhenClaimed(cfg, es[..k], es[k].claim);
    PrefixOfPrefix(es, i, k);
    PrefixOfPrefix(es, i + 1, k);
    assert ClaimedAt(cfg, es, i, es[k].claim);
    assert es[..k][i].now <= es[k].now;
    StaysDue(cfg, es, i + 1, k, id, es[i].now, es[k].now);
  }

  /** Then every send finds its report due, whatever else overlaps. */
  lemma {:induction false} SendsApartFindDue(cfg: Settings, es: seq<Event>)
    requires ClockForward(es) && SendsApart(cfg, es)
    ensures SendsFindDue(cfg, es)
  {
    forall k | 0 <= k < |es| ensures FindsDue(Run(cfg, es[..k]), es[k]) {
      if Sends(Run(cfg, es[..k]), es[k]) { SendIsDue(cfg, es, k); }
    }
  }

  // ---------------------------------------------------------------- statuses

  predicate Final(s: Status) {
    s == Resolved || s == Closed
  }

  /** The moves a status may make in one step. */
  predicate MayMove(from: Status, to: Status) {
    to == from || (from == Pending && to == Open) || (from == Open && Final(to))
  }

  ghost predicate StepForward(d: Desk, e: Event) {
    forall i | 0 <= i < |d.reports| :: MayMove(d.reports[i].status, ReportsAfter(d, e)[i].status)
  }

  /** The step opens an issue for a report that is resolved or closed. */
  predicate Reopens(d: Desk, e: Event) {
    Sends(d, e) && e.outcome.Created? && Final(d.reports[d.claims[e.claim].id].status)
  }

  /**
   Over every run statuses only move from pending to open, then to resolved or closed, if and
   only if no send opens a second issue for a report that is resolved or closed.
   */
  lemma {:induction false} StatusesMoveForwardIff(cfg: Settings, es: seq<Event>)
    ensures (forall k | 0 <= k < |es| :: StepForward(Run(cfg, es[..k]), es[k]))
       <==> (forall k | 0 <= k < |es| :: !Reopens(Run(cfg, es[..k]), es[k]))
  {
    forall k | 0 <= k < |es| ensures StepForward(Run(cfg, es[..k]), es[k]) <==> !Reopens(Run(cfg, es[..k]), es[k]) {
    }
  }

  /** What one step does to a report, final or not. */
  lemma {:induction false} StepOnReport(d: Desk, e: Event, i: nat)
    requires i < |d.reports|
    ensures i < |ReportsAfter(d, e)|
    ensures SendsTo(d, e, i) ==> ReportsAfter(d, e)[i].attempts == d.reports[i].attempts + 1
    ensures !SendsTo(d, e, i) ==> ReportsAfter(d, e)[i].attempts == d.reports[i].attempts
    ensures !SendsTo(d, e, i) && Final(d.reports[i].status) ==> ReportsAfter(d, e)[i] == d.reports[i]
  {
  }

  lemma {:induction false} AttemptsGrow(cfg: Settings, d: Desk, es: seq<Event>, i: nat)
    requires i < |d.reports|
    ensures i < |RunFrom(cfg, d, es).reports| && d.reports[i].attempts <= RunFrom(cfg, d, es).reports[i].attempts
  {
    if es != [] {
      AttemptsGrow(cfg, d, es[..|es| - 1], i);
      StepOnReport(RunFrom(cfg, d, es[..|es| - 1]), es[|es| - 1], i);
    }
  }

  ghost predicate NeverSent(cfg: Settings, d: Desk, es: seq<Event>, i: nat) {
    forall k | 0 <= k < |es| :: !SendsTo(RunFrom(cfg, d, es[..k]), es[k], i)
  }

  lemma {:induction false} NeverSentPrefix(cfg: Settings, d: Desk, es: seq<Event>, i: nat)
    requires es != []
    ensures var n := |es| - 1;
            NeverSent(cfg, d, es, i) <==> NeverSent(cfg, d, es[..n], i) && !SendsTo(RunFrom(cfg, d, es[..n]), es[n], i)
  {
    var n := |es| - 1;
    assert forall k | 0 <= k <= n :: es[..n][..k] == es[..k];
    assert forall k | 0 <= k < n :: es[..n][k] == es[k];
    if NeverSent(cfg, d, es, i) {
      forall k | 0 <= k < n ensures !SendsTo(RunFrom(cfg, d, es[..n][..k]), es[..n][k], i) {
        assert !SendsTo(RunFrom(cfg, d, es[..k]), es[k], i);
      }
    }
  }

  /**
   A resolved or closed report is as it was after any further run if and only if no send of the
   run meets it: a send counts an attempt, and attempts never go down.
   */
  lemma {:induction false} FinalIsFinalIff(cfg: Settings, d: Desk, es: seq<Event>, i: nat)
    requires i < |d.reports| && Final(d.reports[i].status)
    ensures i < |RunFrom(cfg, d, es).reports|
    ensures NeverSent(cfg, d, es, i) ==> RunFrom(cfg, d, es).reports[i] == d.reports[i]
    ensures !NeverSent(cfg, d, es, i) ==> RunFrom(cfg, d, es).reports[i].attempts > d.reports[i].attempts
  {
    if es != [] {
      var n := |es| - 1;
      FinalIsFinalIff(cfg, d, es[..n], i);
      NeverSentPrefix(cfg, d, es, i);
      AttemptsGrow(cfg, d, es[..n], i);
      StepOnReport(RunFrom(cfg, d, es[..n]), es[n], i);
    }
  }

  /** When every send finds its report due, no report is reopened and final ones are never sent. */
  lemma {:induction false} DueSendsMoveForward(cfg: Settings, es: seq<Event>, k: nat)
    requires SendsFindDue(cfg, es) && k < |es|
    ensures StepForward(Run(cfg, es[..k]), es[k])
    ensures forall i | 0 <= i < |Run(cfg, es[..k]).reports| && Final(Run(cfg, es[..k]).reports[i].status) ::
              ReportsAfter(Run(cfg, es[..k]), es[k])[i] == Run(cfg, es[..k]).reports[i]
  {
    assert FindsDue(Run(cfg, es[..k]), es[k]);
  }

  // ---------------------------------------------------------------- a late send

  /** A report that is stored, and listed by the syncer before its submission sends it. */
  function StartedDesk(payload: string, t: int): Desk {
    Desk([NewReport(1, payload, t)], map[0 := Grant(1, true)], [Claim(0, false), Claim(0, false)])
  }

  lemma {:induction false} LogPush(cfg: Settings, es: seq<Event>, e: Event)
    ensures Logged(cfg, es + [e]) == Log(cfg, Logged(cfg, es), e)
  {
    assert (es + [e])[..|es|] == es;
  }

  lemma {:induction false} Asked(cfg: Settings, t: int) returns (es: seq<Event>)
    requires cfg.Positive()
    ensures forall e | e in es :: e.now == t
    ensures Logged(cfg, es) == Ledger(Desk([], map[0 := Grant(1, false)], []), [])
  {
    LogPush(cfg, [], Ask(0, 1, t));
    es := [] + [Ask(0, 1, t)];
  }

  lemma {:induction false} Stored(cfg: Settings, payload: string, t: int) returns (es: seq<Event>)
    requires cfg.Positive()
    ensures forall e | e in es :: e.now == t
    ensures Logged(cfg, es) ==
            Ledger(Desk([NewReport(1, payload, t)], map[0 := Grant(1, true)], [Claim(0, false)]), [[]])
  {
    var asked := Asked(cfg, t);
    LogPush(cfg, asked, File(0, payload, t));
    assert [] + [NewReport(1, payload, t)] == [NewReport(1, payload, t)] && [] + [Claim(0, false)] == [Claim(0, false)];
    es := asked + [File(0, payload, t)];
  }

  lemma {:induction false} Started(cfg: Settings, payload: string, t: int) returns (es: seq<Event>)
    requires cfg.Positive()
    ensures ClockForward(es) && forall e | e in es :: e.now <= t + 1
    ensures Logged(cfg, es) == Ledger(StartedDesk(payload, t), [[]])
  {
    var stored := Stored(cfg, payload, t);
    LogPush(cfg, stored, List(0, t + 1));
    assert [Claim(0, false)] + [Claim(0, false)] == [Claim(0, false), Claim(0, false)];
    es := stored + [List(0, t + 1)];
    assert forall i | 0 <= i < |stored| :: stored[i] in stored;
  }

  lemma {:induction false} RetryMeans(payload: string, t: int, retry: Outcome)
    ensures var d, e := StartedDesk(payload, t), Send(1, retry, t + 1);
            && Sends(d, e)
            && ReportsAfter(d, e) == [Sent(NewReport(1, payload, t), retry, t + 1)]
            && ClaimsAfter(d, e) == [Claim(0, false), Claim(0, true)]
  {
  }

  /** The syncer sends the report. */
  lemma {:induction false} Retried(cfg: Settings, payload: string, t: int, retry: Outcome) returns (es: seq<Event>)
    requires cfg.Positive()
    ensures ClockForward(es) && forall e | e in es :: e.now <= t + 1
    ensures var l := Logged(cfg, es);
            && l.desk.reports == [Sent(NewReport(1, payload, t), retry, t + 1)]
            && l.desk.claims == [Claim(0, false), Claim(0, true)]
            && l.tries == [[Try(t + 1, retry.Created?)]]
  {
    var start := Started(cfg, payload, t);
    LogPush(cfg, start, Send(1, retry, t + 1));
    RetryMeans(payload, t, retry);
    assert [] + [Try(t + 1, retry.Created?)] == [Try(t + 1, retry.Created?)];
    es := start + [Send(1, retry, t + 1)];
  }

  lemma {:induction false} CloseTogether(a: Try, b: Try)
    requires b.at - a.at == 1
    ensures !BackedOff([a, b])
  {
    assert [a, b][1].at - [a, b][0].at == 1 && Pow2(0) == 1;
  }

  /**
   A submission whose own send comes after the syncer's: two attempts a millisecond apart,
   whatever GitHub answers, and two issues if it accepts both.
   */
  lemma {:induction false} LateSendBreaksBackoff(cfg: Settings, payload: string, t: int, retry: Outcome, own: Outcome)
    returns (es: seq<Event>)
    requires cfg.Positive()
    ensures ClockForward(es)
    ensures Logged(cfg, es).tries == [[Try(t + 1, retry.Created?), Try(t + 2, own.Created?)]]
    ensures !BackedOff(Logged(cfg, es).tries[0])
  {
    var sent := Retried(cfg, payload, t, retry);
    var a, b := Try(t + 1, retry.Created?), Try(t + 2, own.Created?);
    LogPush(cfg, sent, Send(0, own, t + 2));
    assert [a] + [b] == [a, b];
    CloseTogether(a, b);
    es := sent + [Send(0, own, t + 2)];
  }

  /** With the issue closed meanwhile, the late send reopens a resolved report. */
  lemma {:induction false} LateSendReopens(cfg: Settings, payload: string, t: int, first: Issue, second: Issue)
    returns (es: seq<Event>, last: Event)
    requires cfg.Positive()
    ensures ClockForward(es + [last])
    ensures |Run(cfg, es).reports| == 1 && Run(cfg, es).reports[0].status == Resolved
    ensures |Run(cfg, es + [last]).reports| == 1 && Run(cfg, es + [last]).reports[0].status == Open
  {
    var later := t + REFRESH_AFTER + 2;
    var sent := Retried(cfg, payload, t, Created(first));
    es := sent + [Refresh(0, IssueState(true, true), later)];
    last := Send(0, Created(second), later);
    RunPush(cfg, EMPTY, sent, Refresh(0, IssueState(true, true), later));
    RunPush(cfg, EMPTY, es, last);
    forall i, j | 0 <= i < j < |es + [last]| ensures (es + [last])[i].now <= (es + [last])[j].now {
      if i < |sent| { assert sent[i] in sent; }
    }
  }
}
