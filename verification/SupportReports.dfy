/**
 Support reports: the service with its quota on submissions, and the rounds of its syncer. The
 send attempts and statuses over runs are in `SupportRuns`. Times are integer milliseconds;
 report `i` of the table has id `i`.
 */
module SupportReports {
  import opened Wrappers
  import opened Bits
  import opened Sequences
  import opened SlidingWindow

  const MINUTE := 60_000
  const MAX_ATTEMPTS := 10
  const PENDING_BATCH := 50
  const OPEN_BATCH := 100
  const REFRESH_AFTER := 10 * MINUTE

  datatype Status = Pending | Open | Resolved | Closed

  datatype Issue = Issue(repo: string, number: int)

  /** A filed report; the payload is kept only until the issue exists. */
  datatype Report = Report(
    userId: int,
    payload: Option<string>,
    status: Status,
    issue: Option<Issue>,
    attempts: nat,
    createdAt: int,
    updatedAt: int,
    syncedAt: Option<int>)

  /** What one send attempt meets. */
  datatype Outcome = Unreadable | Refused | Created(issue: Issue)

  /** The state of an issue as it is read back. */
  datatype IssueState = IssueState(closed: bool, completed: bool)

  function StatusFromIssue(s: IssueState): Status {
    if !s.closed then Open else if s.completed then Resolved else Closed
  }

  function NewReport(userId: int, payload: string, now: int): Report {
    Report(userId, Some(payload), Pending, None, 0, now, now, None)
  }

  function MarkSent(r: Report, issue: Issue, now: int): Report {
    r.(status := Open, issue := Some(issue), payload := None, attempts := r.attempts + 1,
       updatedAt := now, syncedAt := Some(now))
  }

  function MarkFailed(r: Report, now: int): Report {
    r.(attempts := r.attempts + 1, updatedAt := now)
  }

  /** One send attempt with its store write. */
  function Sent(r: Report, outcome: Outcome, now: int): Report {
    match outcome
    case Unreadable => MarkFailed(r, now)
    case Refused => MarkFailed(r, now)
    case Created(issue) => MarkSent(r, issue, now)
  }

  function UpdateStatus(r: Report, status: Status, now: int): Report {
    r.(status := status, syncedAt := Some(now), updatedAt := if r.status == status then r.updatedAt else now)
  }

  /** Waiting for its issue, below the cap, and past its backoff of 1, 2, 4... minutes. */
  predicate DueForSend(r: Report, now: int) {
    r.status == Pending && r.attempts < MAX_ATTEMPTS
    && (r.attempts == 0 || r.updatedAt < now - MINUTE * Pow2(r.attempts - 1))
  }

  predicate DueForRefresh(r: Report, olderThan: int) {
    r.status == Open && (r.syncedAt.None? || r.syncedAt.value < olderThan)
  }

  // ---------------------------------------------------------------- quota

  /** When the account filed its reports. */
  function FiledAt(reports: seq<Report>, userId: int): seq<int> {
    if reports == [] then [] else
    FiledAt(reports[..|reports| - 1], userId)
    + if reports[|reports| - 1].userId == userId then [reports[|reports| - 1].createdAt] else []
  }

  /** The reports of an account created after `since`. */
  function CountSince(reports: seq<Report>, userId: int, since: int): nat {
    if reports == [] then 0 else
    var r := reports[|reports| - 1];
    CountSince(reports[..|reports| - 1], userId, since) + if r.userId == userId && r.createdAt > since then 1 else 0
  }

  /** Which reports those are. */
  ghost function FiledSince(reports: seq<Report>, userId: int, since: int): set<int> {
    set i | 0 <= i < |reports| && reports[i].userId == userId && reports[i].createdAt > since
  }

  lemma {:induction false} CountSinceMeans(reports: seq<Report>, userId: int, since: int)
    ensures CountSince(reports, userId, since) == |FiledSince(reports, userId, since)|
  {
    if reports == [] {
      assert FiledSince(reports, userId, since) == {};
    } else {
      var n := |reports| - 1;
      CountSinceMeans(reports[..n], userId, since);
      var last := if reports[n].userId == userId && reports[n].createdAt > since then {n} else {};
      assert FiledSince(reports, userId, since) == FiledSince(reports[..n], userId, since) + last;
    }
  }

  /** The oldest of them. */
  function OldestSince(reports: seq<Report>, userId: int, since: int): Option<int> {
    if reports == [] then None else
    var r := reports[|reports| - 1];
    var older := OldestSince(reports[..|reports| - 1], userId, since);
    if r.userId == userId && r.createdAt > since && (older.None? || r.createdAt < older.value)
    then Some(r.createdAt) else older
  }

  datatype SubmitError = RateLimited(retryAt: int)

  // ---------------------------------------------------------------- steps

  /** A submission the quota let through, and whether its report is stored by now. */
  datatype Grant = Grant(userId: int, filed: bool)

  /**
   A send that was decided and not yet made: by the submission that stored the report, or by
   the syncer that listed it as due. Nothing checks the report again before the send.
   */
  datatype Claim = Claim(id: nat, done: bool)

  /** The stored reports, the submissions under way, and the sends decided. */
  datatype Desk = Desk(reports: seq<Report>, grants: map<nat, Grant>, claims: seq<Claim>)

  const EMPTY := Desk([], map[], [])

  /**
   One atomic step. A submission is `Ask`, which counts, `File`, which stores the report, and,
   if GitHub is configured, the `Send` it claimed. The syncer lists a due report, then sends it.
   */
  datatype Event =
    | Ask(sub: nat, userId: int, now: int)
    | File(sub: nat, payload: string, now: int)
    | List(id: nat, now: int)
    | Send(claim: nat, outcome: Outcome, now: int)
    | Refresh(id: nat, state: IssueState, now: int)

  datatype Settings = Settings(limit: int, window: int)
  {
    /** What the constructor makes of any configuration. */
    predicate Positive() {
      limit > 0 && window > 0
    }
  }

  predicate Accepts(cfg: Settings, reports: seq<Report>, userId: int, now: int) {
    CountSince(reports, userId, now - cfg.window) < cfg.limit
  }

  /** The step stores a report of the account. */
  predicate Files(d: Desk, e: Event, u: int) {
    e.File? && e.sub in d.grants && d.grants[e.sub] == Grant(u, false)
  }

  predicate Grants(cfg: Settings, d: Desk, e: Event) {
    e.Ask? && e.sub !in d.grants && Accepts(cfg, d.reports, e.userId, e.now)
  }

  /** The step is a send that was decided. */
  predicate Sends(d: Desk, e: Event) {
    e.Send? && e.claim < |d.claims| && !d.claims[e.claim].done && d.claims[e.claim].id < |d.reports|
  }

  predicate Lists(d: Desk, e: Event) {
    e.List? && e.id < |d.reports| && DueForSend(d.reports[e.id], e.now)
  }

  /** A refresh finds its report open, since only the one syncer that holds the lock closes reports. */
  function ReportsAfter(d: Desk, e: Event): seq<Report> {
    match e
    case File(sub, payload, now) =>
      if sub in d.grants && !d.grants[sub].filed
      then d.reports + [NewReport(d.grants[sub].userId, payload, now)] else d.reports
    case Send(claim, outcome, now) =>
      if !Sends(d, e) then d.reports else
      var id := d.claims[claim].id;
      d.reports[id := Sent(d.reports[id], outcome, now)]
    case Refresh(id, state, now) =>
      if id < |d.reports| && d.reports[id].status == Open
      then d.reports[id := UpdateStatus(d.reports[id], StatusFromIssue(state), now)] else d.reports
    case _ => d.reports
  }

  function GrantsAfter(cfg: Settings, d: Desk, e: Event): map<nat, Grant> {
    match e
    case Ask(sub, userId, _) => if Grants(cfg, d, e) then d.grants[sub := Grant(userId, false)] else d.grants
    case File(sub, _, _) => if sub in d.grants then d.grants[sub := Grant(d.grants[sub].userId, true)] else d.grants
    case _ => d.grants
  }

  function ClaimsAfter(d: Desk, e: Event): seq<Claim> {
    match e
    case File(sub, _, _) =>
      if sub in d.grants && !d.grants[sub].filed then d.claims + [Claim(|d.reports|, false)] else d.claims
    case List(id, _) => if Lists(d, e) then d.claims + [Claim(id, false)] else d.claims
    case Send(claim, _, _) => if Sends(d, e) then d.claims[claim := d.claims[claim].(done := true)] else d.claims
    case _ => d.claims
  }

  function Next(cfg: Settings, d: Desk, e: Event): Desk {
    Desk(ReportsAfter(d, e), GrantsAfter(cfg, d, e), ClaimsAfter(d, e))
  }

  function RunFrom(cfg: Settings, d: Desk, es: seq<Event>): Desk {
    if es == [] then d else Next(cfg, RunFrom(cfg, d, es[..|es| - 1]), es[|es| - 1])
  }

  function Run(cfg: Settings, es: seq<Event>): Desk {
    RunFrom(cfg, EMPTY, es)
  }

  ghost predicate ClockForward(es: seq<Event>) {
    forall i, j | 0 <= i < j < |es| :: es[i].now <= es[j].now
  }

  // ---------------------------------------------------------------- one round of the syncer

  /** The first reports that are due, in creation order: at most 50, none skipped. */
  ghost predicate IsPendingBatch(reports: seq<Report>, now: int, ids: seq<nat>) {
    && |ids| <= 50
    && (forall j | 0 <= j < |ids| :: ids[j] < |reports| && DueForSend(reports[ids[j]], now))
    && (forall j, k | 0 <= j < k < |ids| :: ids[j] < ids[k])
    && (forall i: nat | i < |reports| && DueForSend(reports[i], now) && i !in ids ::
          |ids| == 50 && forall j | 0 <= j < |ids| :: ids[j] < i)
  }

  /** The order of `synced_at NULLS FIRST`. */
  predicate SyncedBefore(a: Report, b: Report) {
    b.syncedAt.Some? && (a.syncedAt.None? || a.syncedAt.value < b.syncedAt.value)
  }

  ghost predicate SortedBySync(reports: seq<Report>, ids: seq<nat>)
    requires forall j | 0 <= j < |ids| :: ids[j] < |reports|
  {
    forall j, k | 0 <= j < k < |ids| :: ids[j] != ids[k] && !SyncedBefore(reports[ids[k]], reports[ids[j]])
  }

  /** The open reports read the longest ago: at most 100, none skipped for one read later. */
  ghost predicate IsOpenBatch(reports: seq<Report>, olderThan: int, ids: seq<nat>) {
    && |ids| <= 100
    && (forall j | 0 <= j < |ids| :: ids[j] < |reports| && DueForRefresh(reports[ids[j]], olderThan))
    && SortedBySync(reports, ids)
    && (forall i: nat | i < |reports| && DueForRefresh(reports[i], olderThan) && i !in ids ::
          |ids| == 100 && forall j | 0 <= j < |ids| :: !SyncedBefore(reports[i], reports[ids[j]]))
  }

  /**
   What the sends of a round do: report by report one more attempt; with an issue it is open,
   without its payload, else only the time of the attempt changes. The others stay as they were.
   */
  ghost predicate Retried(before: seq<Report>, ids: seq<nat>, create: nat -> Outcome, clock: nat -> int,
                          after: seq<Report>)
    requires forall j | 0 <= j < |ids| :: ids[j] < |before|
  {
    && |after| == |before|
    && (forall i: nat | i < |before| && i !in ids :: after[i] == before[i])
    && forall j | 0 <= j < |ids| :: after[ids[j]] == RowRetried(before[ids[j]], create(ids[j]), clock(j + 1))
  }

  ghost function RowRetried(r: Report, outcome: Outcome, now: int): Report {
    match outcome
    case Created(issue) =>
      Report(r.userId, None, Open, Some(issue), r.attempts + 1, r.createdAt, now, Some(now))
    case _ => r.(attempts := r.attempts + 1, updatedAt := now)
  }

  lemma {:induction false} RetriedPush(before: seq<Report>, ids: seq<nat>, i: nat, create: nat -> Outcome,
                                       clock: nat -> int, after: seq<Report>)
    requires i < |ids| && (forall j | 0 <= j < |ids| :: ids[j] < |before|)
    requires forall j, k | 0 <= j < k < |ids| :: ids[j] < ids[k]
    requires Retried(before, ids[..i], create, clock, after)
    ensures Retried(before, ids[..i + 1], create, clock,
                    after[ids[i] := Sent(after[ids[i]], create(ids[i]), clock(i + 1))])
  {
    assert ids[..i + 1] == ids[..i] + [ids[i]];
    assert ids[i] !in ids[..i];
  }

  /**
   What the refreshes of a round do: a report with an issue that can be read is open, resolved or
   closed as the issue is open, completed or neither, and its status is dated when it changes. The
   others stay as they were.
   */
  ghost predicate Refreshed(before: seq<Report>, ids: seq<nat>, read: nat -> Option<IssueState>, clock: nat -> int,
                            start: nat, after: seq<Report>)
    requires forall j | 0 <= j < |ids| :: ids[j] < |before|
  {
    && |after| == |before|
    && (forall i: nat | i < |before| && i !in ids :: after[i] == before[i])
    && forall j | 0 <= j < |ids| ::
         after[ids[j]] == RowRefreshed(before[ids[j]], read(ids[j]), clock(start + j + 1))
  }

  ghost function RowRefreshed(r: Report, state: Option<IssueState>, now: int): Report {
    if r.issue.None? || state.None? then r else
    var status := if !state.value.closed then Open else if state.value.completed then Resolved else Closed;
    r.(status := status, syncedAt := Some(now), updatedAt := if r.status == status then r.updatedAt else now)
  }

  function Listings(ids: seq<nat>, now: int): (es: seq<Event>)
    ensures |es| == |ids|
  {
    seq(|ids|, i requires 0 <= i < |ids| => List(ids[i], now))
  }

  /** One send per listed report, under the claims from `base` on, the i-th at the instant after the i-th. */
  function Retries(ids: seq<nat>, base: nat, create: nat -> Outcome, clock: nat -> int): (es: seq<Event>)
    ensures |es| == |ids|
  {
    seq(|ids|, i requires 0 <= i < |ids| => Send(base + i, create(ids[i]), clock(i + 1)))
  }

  /** The claims of a listing after `k` of its sends. */
  function Listed(ids: seq<nat>, k: nat): (claims: seq<Claim>)
    ensures |claims| == |ids| && forall j | 0 <= j < |ids| :: claims[j] == Claim(ids[j], j < k)
  {
    seq(|ids|, j requires 0 <= j < |ids| => Claim(ids[j], j < k))
  }

  /** One refresh per listed report that has an issue and whose issue can be read. */
  function Refreshes(reports: seq<Report>, ids: seq<nat>, read: nat -> Option<IssueState>, clock: nat -> int,
                     start: nat): seq<Event>
    requires forall j | 0 <= j < |ids| :: ids[j] < |reports|
  {
    if ids == [] then [] else
    var n := |ids| - 1;
    var id := ids[n];
    Refreshes(reports, ids[..n], read, clock, start)
    + if reports[id].issue.Some? && read(id).Some? then [Refresh(id, read(id).value, clock(start + n + 1))] else []
  }

  // ---------------------------------------------------------------- the service

  class Service {
    var reports: seq<Report>
    var grants: map<nat, Grant>
    var claims: seq<Claim>
    const cfg: Settings

    constructor (limit: int, window: int)
      ensures Snapshot() == EMPTY && cfg.Positive()
      ensures cfg.limit == if limit <= 0 then 5 else limit
      ensures cfg.window == if window <= 0 then 86_400_000 else window
    {
      reports := [];
      grants := map[];
      claims := [];
      cfg := Settings(if limit <= 0 then 5 else limit, if window <= 0 then 24 * 60 * MINUTE else window);
    }

    function Snapshot(): Desk
      reads this
    {
      Desk(reports, grants, claims)
    }

    /**
     Files a report and sends it, or refuses it with the oldest counted report plus the window.
     Undisturbed, a submission is its steps in a row.
     */
    method SubmitReport(sub: nat, userId: int, payload: string, outcome: Option<Outcome>, now: int)
      returns (r: Result<nat, SubmitError>)
      requires cfg.limit > 0 && sub !in grants
      modifies this
      ensures var filed := Next(cfg, Next(cfg, old(Snapshot()), Ask(sub, userId, now)), File(sub, payload, now));
              Snapshot() == if outcome.Some? then Next(cfg, filed, Send(|old(claims)|, outcome.value, now)) else filed
      ensures r.Success? <==> Accepts(cfg, old(reports), userId, now)
      ensures r.Success? <==> |FiledSince(old(reports), userId, now - cfg.window)| < cfg.limit
      ensures r.Success? ==> r.value == |old(reports)| && reports == old(reports) + [
                match outcome
                case None => Report(userId, Some(payload), Pending, None, 0, now, now, None)
                case Some(Created(issue)) => Report(userId, None, Open, Some(issue), 1, now, now, Some(now))
                case _ => Report(userId, Some(payload), Pending, None, 1, now, now, None)]
      ensures r.Failure? ==> reports == old(reports) && exists i ::
                && i in FiledSince(reports, userId, now - cfg.window)
                && r.error.retryAt == reports[i].createdAt + cfg.window
                && forall j | j in FiledSince(reports, userId, now - cfg.window) ::
                     reports[i].createdAt <= reports[j].createdAt
      ensures r.Failure? ==>
                var oldest := OldestSince(old(reports), userId, now - cfg.window);
                oldest.Some? && r.error.retryAt == oldest.value + cfg.window
    {
      CountSinceMeans(reports, userId, now - cfg.window);
      var since := now - cfg.window;
      var n := CountSince(reports, userId, since);
      var oldest := OldestSince(reports, userId, since);
      OldestIsOldest(reports, userId, since);
      SubmissionMeans(cfg, Snapshot(), sub, userId, payload, now);
      if n >= cfg.limit {
        return Failure(RateLimited(oldest.value + cfg.window));
      }
      var id := |reports|;
      reports := reports + [NewReport(userId, payload, now)];
      grants := grants[sub := Grant(userId, true)];
      claims := claims + [Claim(id, false)];
      if outcome.Some? {
        reports := reports[id := Sent(reports[id], outcome.value, now)];
        claims := claims[|claims| - 1 := Claim(id, true)];
      }
      return Success(id);
    }

    /**
     One round of the syncer: it lists what is due and sends it, then refreshes open reports.
     `clock` gives the instant of each statement, `create` and `read` what GitHub answers.
     */
    method SyncOnce(clock: nat -> int, create: nat -> Outcome, read: nat -> Option<IssueState>)
      returns (ghost pending: seq<nat>, ghost open: seq<nat>)
      modifies this`reports, this`claims
      ensures IsPendingBatch(old(reports), clock(0), pending)
      ensures var listed := RunFrom(cfg, old(Snapshot()), Listings(pending, clock(0)));
              var mid := RunFrom(cfg, listed, Retries(pending, |old(claims)|, create, clock));
              && IsOpenBatch(mid.reports, clock(|pending|) - 600_000, open)
              && Snapshot() == RunFrom(cfg, mid, Refreshes(mid.reports, open, read, clock, |pending|))
    {
      var due := RetryPending(clock, create);
      var ids := RefreshOpen(clock, read, |due|);
      pending, open := due, ids;
    }

    method RetryPending(clock: nat -> int, create: nat -> Outcome) returns (due: seq<nat>)
      modifies this`reports, this`claims
      ensures IsPendingBatch(old(reports), clock(0), due)
      ensures var listed := RunFrom(cfg, old(Snapshot()), Listings(due, clock(0)));
              Snapshot() == RunFrom(cfg, listed, Retries(due, |old(claims)|, create, clock))
    {
      due := ListPending(reports, clock(0));
      ListingsMean(cfg, Snapshot(), due, clock(0));
      ghost var was := claims;
      claims := claims + Listed(due, 0);
      SendEach(due, was, create, clock);
    }

    /** The loop over the listed reports, under the claims of the listing. */
    method SendEach(due: seq<nat>, ghost was: seq<Claim>, create: nat -> Outcome, clock: nat -> int)
      requires claims == was + Listed(due, 0) && forall j | 0 <= j < |due| :: due[j] < |reports|
      requires forall j, k | 0 <= j < k < |due| :: due[j] < due[k]
      modifies this`reports, this`claims
      ensures Retried(old(reports), due, create, clock, reports)
      ensures Snapshot() == RunFrom(cfg, old(Snapshot()), Retries(due, |was|, create, clock))
    {
      ghost var listed := Snapshot();
      for i := 0 to |due|
        invariant Snapshot() == RunFrom(cfg, listed, Retries(due, |was|, create, clock)[..i])
        invariant |reports| == |listed.reports| && claims == was + Listed(due, i)
        invariant Retried(listed.reports, due[..i], create, clock, reports)
      {
        RetriedPush(listed.reports, due, i, create, clock, reports);
        var id := due[i];
        RetryStep(cfg, listed, Snapshot(), was, due, i, create, clock);
        reports := reports[id := Sent(reports[id], create(id), clock(i + 1))];
        claims := claims[|claims| - |due| + i := Claim(id, true)];
      }
      assert Retries(due, |was|, create, clock)[..|due|] == Retries(due, |was|, create, clock);
      assert due[..|due|] == due;
    }

    method RefreshOpen(clock: nat -> int, read: nat -> Option<IssueState>, start: nat) returns (ids: seq<nat>)
      modifies this`reports
      ensures IsOpenBatch(old(reports), clock(start) - 600_000, ids)
      ensures Snapshot() == RunFrom(cfg, old(Snapshot()), Refreshes(old(reports), ids, read, clock, start))
    {
      ids := ListOpenToSync(reports, clock(start) - REFRESH_AFTER);
      RefreshEach(ids, clock, read, start);
    }

    /** A report without an issue, or whose issue cannot be read, is skipped. */
    method RefreshOne(id: nat, state: Option<IssueState>, now: int)
      requires id < |reports|
      modifies this`reports
      ensures reports == if old(reports)[id].issue.None? || state.None? then old(reports) else
                         old(reports)[id := UpdateStatus(old(reports)[id], StatusFromIssue(state.value), now)]
    {
      if reports[id].issue.Some? && state.Some? {
        reports := reports[id := UpdateStatus(reports[id], StatusFromIssue(state.value), now)];
      }
    }

    /** The loop over the listed reports. */
    method RefreshEach(ids: seq<nat>, clock: nat -> int, read: nat -> Option<IssueState>, start: nat)
      requires forall j | 0 <= j < |ids| :: ids[j] < |reports| && reports[ids[j]].status == Open
      requires SortedBySync(reports, ids)
      modifies this`reports
      ensures Refreshed(old(reports), ids, read, clock, start, reports)
      ensures Snapshot() == RunFrom(cfg, old(Snapshot()), Refreshes(old(reports), ids, read, clock, start))
    {
      ghost var was := Snapshot();
      ghost var rows := RowsRefreshed(was.reports, ids, read, clock, start);
      for i := 0 to |ids|
        invariant |reports| == |was.reports|
        invariant Snapshot() == RunFrom(cfg, was, Refreshes(was.reports, ids[..i], read, clock, start))
        invariant reports == Rewrite(was.reports, ids[..i], rows[..i])
      {
        var id := ids[i];
        var state := read(id);
        RefreshStep(cfg, was, ids, i, read, clock, start);
        RefreshTurn(was.reports, ids, i, read, clock, start, reports);
        RefreshOne(id, state, clock(start + i + 1));
      }
      assert ids[..|ids|] == ids && rows[..|rows|] == rows;
      RewriteIsRefreshed(was.reports, ids, read, clock, start);
    }
  }

  method ListPending(reports: seq<Report>, now: int) returns (ids: seq<nat>)
    ensures IsPendingBatch(reports, now, ids)
    ensures forall i | i in ids :: i < |reports| && reports[i].status == Pending && reports[i].attempts < 10
              && (reports[i].attempts == 0 || reports[i].updatedAt < now - 60_000 * Pow2(reports[i].attempts - 1))
    ensures |ids| < 50 ==> forall i: nat | i < |reports| && reports[i].status == Pending && reports[i].attempts < 10
              && (reports[i].attempts == 0 || reports[i].updatedAt < now - 60_000 * Pow2(reports[i].attempts - 1)) ::
              i in ids
  {
    ids := [];
    for i := 0 to |reports|
      invariant |ids| <= PENDING_BATCH
      invariant forall j | 0 <= j < |ids| :: ids[j] < i && DueForSend(reports[ids[j]], now)
      invariant forall j, k | 0 <= j < k < |ids| :: ids[j] < ids[k]
      invariant forall l: nat | l < i && DueForSend(reports[l], now) && l !in ids ::
          |ids| == PENDING_BATCH && forall j | 0 <= j < |ids| :: ids[j] < l
    {
      if DueForSend(reports[i], now) && |ids| < PENDING_BATCH {
        ids := ids + [i];
      }
    }
  }

  /** Puts one report after those read before it or at the same instant. */
  function Placed(reports: seq<Report>, ids: seq<nat>, x: nat): (r: seq<nat>)
    requires x < |reports| && forall j | 0 <= j < |ids| :: ids[j] < |reports|
    ensures |r| == |ids| + 1 && forall y :: y in r <==> y == x || y in ids
  {
    if ids == [] || !SyncedBefore(reports[x], reports[ids[|ids| - 1]]) then
      ids + [x]
    else
      assert forall y :: y in ids <==> y in ids[..|ids| - 1] || y == ids[|ids| - 1];
      Placed(reports, ids[..|ids| - 1], x) + [ids[|ids| - 1]]
  }

  lemma {:induction false} PlacedIsSorted(reports: seq<Report>, ids: seq<nat>, x: nat)
    requires x < |reports| && x !in ids && (forall j | 0 <= j < |ids| :: ids[j] < |reports|)
        && SortedBySync(reports, ids)
    ensures forall j | 0 <= j < |Placed(reports, ids, x)| :: Placed(reports, ids, x)[j] < |reports|
    ensures SortedBySync(reports, Placed(reports, ids, x))
  {
    var r := Placed(reports, ids, x);
    forall j | 0 <= j < |r| ensures r[j] < |reports| {
      assert r[j] in r;
    }
    if ids != [] {
      var n := |ids| - 1;
      if SyncedBefore(reports[x], reports[ids[n]]) {
        PlacedIsSorted(reports, ids[..n], x);
        var init := Placed(reports, ids[..n], x);
        forall j | 0 <= j < |init| ensures init[j] != ids[n] && !SyncedBefore(reports[ids[n]], reports[init[j]]) {
          assert init[j] in init;
        }
      }
    }
  }

  method ListOpenToSync(reports: seq<Report>, olderThan: int) returns (ids: seq<nat>)
    ensures IsOpenBatch(reports, olderThan, ids)
    ensures forall i | i in ids :: i < |reports| && reports[i].status == Open
              && (reports[i].syncedAt.None? || reports[i].syncedAt.value < olderThan)
    ensures |ids| < 100 ==> forall i: nat | i < |reports| && reports[i].status == Open
              && (reports[i].syncedAt.None? || reports[i].syncedAt.value < olderThan) :: i in ids
  {
    var all: seq<nat> := [];
    for i := 0 to |reports|
      invariant forall l | l in all :: l < i && DueForRefresh(reports[l], olderThan)
      invariant forall l: nat | l < i && DueForRefresh(reports[l], olderThan) :: l in all
      invariant forall j | 0 <= j < |all| :: all[j] < |reports|
      invariant SortedBySync(reports, all)
    {
      if DueForRefresh(reports[i], olderThan) {
        PlacedIsSorted(reports, all, i);
        all := Placed(reports, all, i);
      }
    }
    ids := if |all| > OPEN_BATCH then all[..OPEN_BATCH] else all;
  }

  lemma {:induction false} ListingsUpTo(cfg: Settings, d: Desk, ids: seq<nat>, now: int, k: nat)
    requires k <= |ids| && forall j | 0 <= j < |ids| :: ids[j] < |d.reports| && DueForSend(d.reports[ids[j]], now)
    ensures RunFrom(cfg, d, Listings(ids, now)[..k]) == d.(claims := d.claims + Listed(ids, 0)[..k])
  {
    if k > 0 {
      ListingsUpTo(cfg, d, ids, now, k - 1);
      RunTake(cfg, d, Listings(ids, now), k - 1);
      assert d.claims + Listed(ids, 0)[..k - 1] + [Listed(ids, 0)[k - 1]] == d.claims + Listed(ids, 0)[..k];
    }
  }

  /** Listing due reports claims their sends and changes nothing else. */
  lemma {:induction false} ListingsMean(cfg: Settings, d: Desk, ids: seq<nat>, now: int)
    requires forall j | 0 <= j < |ids| :: ids[j] < |d.reports| && DueForSend(d.reports[ids[j]], now)
    ensures RunFrom(cfg, d, Listings(ids, now)) == d.(claims := d.claims + Listed(ids, 0))
  {
    ListingsUpTo(cfg, d, ids, now, |ids|);
    assert Listings(ids, now)[..|ids|] == Listings(ids, now) && Listed(ids, 0)[..|ids|] == Listed(ids, 0);
  }

  lemma {:induction false} ListedNext(was: seq<Claim>, ids: seq<nat>, i: nat)
    requires i < |ids|
    ensures (was + Listed(ids, i))[|was| + i := Claim(ids[i], true)] == was + Listed(ids, i + 1)
  {
  }

  /** What the i-th turn of the sending loop does. */
  lemma {:induction false} RetryStep(cfg: Settings, listed: Desk, d: Desk, was: seq<Claim>, ids: seq<nat>, i: nat,
                                     create: nat -> Outcome, clock: nat -> int)
    requires i < |ids| && ids[i] < |d.reports| && d.claims == was + Listed(ids, i)
    requires d == RunFrom(cfg, listed, Retries(ids, |was|, create, clock)[..i])
    ensures RunFrom(cfg, listed, Retries(ids, |was|, create, clock)[..i + 1])
         == Desk(d.reports[ids[i] := Sent(d.reports[ids[i]], create(ids[i]), clock(i + 1))], d.grants,
                 d.claims[|was| + i := Claim(ids[i], true)])
    ensures d.claims[|was| + i := Claim(ids[i], true)] == was + Listed(ids, i + 1)
  {
    RunTake(cfg, listed, Retries(ids, |was|, create, clock), i);
    assert d.claims[|was| + i] == Claim(ids[i], false);
    ListedNext(was, ids, i);
  }

  /** A submission up to its insert. */
  lemma SubmissionMeans(cfg: Settings, d: Desk, sub: nat, userId: int, payload: string, now: int)
    requires sub !in d.grants
    ensures Next(cfg, Next(cfg, d, Ask(sub, userId, now)), File(sub, payload, now)) ==
            if Accepts(cfg, d.reports, userId, now)
            then Desk(d.reports + [NewReport(userId, payload, now)], d.grants[sub := Grant(userId, true)],
                      d.claims + [Claim(|d.reports|, false)])
            else d
  {
    if Accepts(cfg, d.reports, userId, now) {
      assert Next(cfg, d, Ask(sub, userId, now)) == d.(grants := d.grants[sub := Grant(userId, false)]);
    } else {
      assert Next(cfg, d, Ask(sub, userId, now)) == d;
    }
  }

  /** One more report of the batch is refreshed, or skipped when its issue cannot be read. */
  lemma {:induction false} RefreshNext(cfg: Settings, d: Desk, ids: seq<nat>, i: nat,
                                       read: nat -> Option<IssueState>, clock: nat -> int, start: nat)
    requires i < |ids| && forall j | 0 <= j < |ids| :: ids[j] < |d.reports|
    ensures var before := Refreshes(d.reports, ids[..i], read, clock, start);
            var after := Refreshes(d.reports, ids[..i + 1], read, clock, start);
            RunFrom(cfg, d, after) ==
            if d.reports[ids[i]].issue.Some? && read(ids[i]).Some?
            then Next(cfg, RunFrom(cfg, d, before), Refresh(ids[i], read(ids[i]).value, clock(start + i + 1)))
            else RunFrom(cfg, d, before)
  {
    assert ids[..i + 1][..i] == ids[..i];
    var before := Refreshes(d.reports, ids[..i], read, clock, start);
    var after := Refreshes(d.reports, ids[..i + 1], read, clock, start);
    if d.reports[ids[i]].issue.Some? && read(ids[i]).Some? {
      var e := Refresh(ids[i], read(ids[i]).value, clock(start + i + 1));
      assert after == before + [e];
      RunPush(cfg, d, before, e);
    } else {
      assert after == before;
    }
  }

  lemma {:induction false} RefreshTouchesOne(d: Desk, id: nat, state: IssueState, now: int)
    ensures var reports := ReportsAfter(d, Refresh(id, state, now));
            |reports| == |d.reports| && forall j | 0 <= j < |reports| && j != id :: reports[j] == d.reports[j]
  {
  }

  /** The reports listed from `i` on stand in `now` as they were listed. */
  ghost predicate StandAs(now: Desk, d: Desk, ids: seq<nat>, i: nat)
    requires forall j | 0 <= j < |ids| :: ids[j] < |d.reports|
  {
    |now.reports| == |d.reports| && forall j | i <= j < |ids| :: now.reports[ids[j]] == d.reports[ids[j]]
  }

  lemma {:induction false} RefreshLeaves(now: Desk, d: Desk, ids: seq<nat>, i: nat, state: IssueState, at: int)
    requires (forall j | 0 <= j < |ids| :: ids[j] < |d.reports|) && forall j, k | 0 <= j < k < |ids| :: ids[j] != ids[k]
    requires i < |ids| && StandAs(now, d, ids, i)
    ensures StandAs(now.(reports := ReportsAfter(now, Refresh(ids[i], state, at))), d, ids, i + 1)
  {
    RefreshTouchesOne(now, ids[i], state, at);
  }

  lemma {:induction false} RefreshKeeps(cfg: Settings, d: Desk, ids: seq<nat>, i: nat,
                                        read: nat -> Option<IssueState>, clock: nat -> int, start: nat)
    requires i < |ids| && forall j | 0 <= j < |ids| :: ids[j] < |d.reports|
    requires forall j, k | 0 <= j < k < |ids| :: ids[j] != ids[k]
    requires StandAs(RunFrom(cfg, d, Refreshes(d.reports, ids[..i], read, clock, start)), d, ids, i)
    ensures StandAs(RunFrom(cfg, d, Refreshes(d.reports, ids[..i + 1], read, clock, start)), d, ids, i + 1)
  {
    RefreshNext(cfg, d, ids, i, read, clock, start);
    if read(ids[i]).Some? {
      var now := RunFrom(cfg, d, Refreshes(d.reports, ids[..i], read, clock, start));
      RefreshLeaves(now, d, ids, i, read(ids[i]).value, clock(start + i + 1));
    }
  }

  /** The first i refreshes leave the reports that come after them as they were. */
  lemma {:induction false} RefreshesKeep(cfg: Settings, d: Desk, ids: seq<nat>, i: nat,
                                         read: nat -> Option<IssueState>, clock: nat -> int, start: nat)
    requires i <= |ids| && forall j | 0 <= j < |ids| :: ids[j] < |d.reports|
    requires forall j, k | 0 <= j < k < |ids| :: ids[j] != ids[k]
    ensures StandAs(RunFrom(cfg, d, Refreshes(d.reports, ids[..i], read, clock, start)), d, ids, i)
  {
    if i > 0 {
      RefreshesKeep(cfg, d, ids, i - 1, read, clock, start);
      RefreshKeeps(cfg, d, ids, i - 1, read, clock, start);
    }
  }

  lemma {:induction false} RefreshFinds(cfg: Settings, d: Desk, ids: seq<nat>, i: nat,
                                        read: nat -> Option<IssueState>, clock: nat -> int, start: nat)
    requires i < |ids| && (forall j | 0 <= j < |ids| :: ids[j] < |d.reports|) && SortedBySync(d.reports, ids)
    ensures var now := RunFrom(cfg, d, Refreshes(d.reports, ids[..i], read, clock, start));
            |now.reports| == |d.reports| && now.reports[ids[i]] == d.reports[ids[i]]
  {
    RefreshesKeep(cfg, d, ids, i, read, clock, start);
  }

  lemma {:induction false} RefreshMeans(cfg: Settings, d: Desk, id: nat, state: IssueState, now: int)
    requires id < |d.reports| && d.reports[id].status == Open
    ensures Next(cfg, d, Refresh(id, state, now))
         == d.(reports := d.reports[id := UpdateStatus(d.reports[id], StatusFromIssue(state), now)])
  {
  }

  /** What the i-th turn of the loop does. */
  lemma {:induction false} RefreshStep(cfg: Settings, d: Desk, ids: seq<nat>, i: nat,
                                       read: nat -> Option<IssueState>, clock: nat -> int, start: nat)
    requires i < |ids| && forall j | 0 <= j < |ids| :: ids[j] < |d.reports| && d.reports[ids[j]].status == Open
    requires SortedBySync(d.reports, ids)
    ensures var now := RunFrom(cfg, d, Refreshes(d.reports, ids[..i], read, clock, start));
            var id, state := ids[i], read(ids[i]);
            && |now.reports| == |d.reports| && now.reports[id] == d.reports[id]
            && RunFrom(cfg, d, Refreshes(d.reports, ids[..i + 1], read, clock, start)) ==
               if now.reports[id].issue.Some? && state.Some?
               then now.(reports := now.reports[
                           id := UpdateStatus(now.reports[id], StatusFromIssue(state.value), clock(start + i + 1))])
               else now
  {
    RefreshFinds(cfg, d, ids, i, read, clock, start);
    RefreshNext(cfg, d, ids, i, read, clock, start);
    if read(ids[i]).Some? {
      var now := RunFrom(cfg, d, Refreshes(d.reports, ids[..i], read, clock, start));
      RefreshMeans(cfg, now, ids[i], read(ids[i]).value, clock(start + i + 1));
    }
  }

  /** What the refreshes make of the listed reports. */
  ghost function RowsRefreshed(before: seq<Report>, ids: seq<nat>, read: nat -> Option<IssueState>, clock: nat -> int,
                               start: nat): (rows: seq<Report>)
    requires forall j | 0 <= j < |ids| :: ids[j] < |before|
    ensures |rows| == |ids|
  {
    seq(|ids|, j requires 0 <= j < |ids| => RowRefreshed(before[ids[j]], read(ids[j]), clock(start + j + 1)))
  }

  lemma {:induction false} RewriteNext(before: seq<Report>, ids: seq<nat>, rows: seq<Report>, i: nat)
    requires |rows| == |ids| && i < |ids| && forall j | 0 <= j < |ids| :: ids[j] < |before|
    ensures Rewrite(before, ids[..i + 1], rows[..i + 1]) == Rewrite(before, ids[..i], rows[..i])[ids[i] := rows[i]]
  {
    assert ids[..i + 1][..i] == ids[..i] && rows[..i + 1][..i] == rows[..i];
  }

  /** A refreshed row is skipped or updated as the turn of the loop does. */
  lemma RowRefreshedIs(rows: seq<Report>, id: nat, state: Option<IssueState>, now: int)
    requires id < |rows|
    ensures rows[id := RowRefreshed(rows[id], state, now)] ==
            if rows[id].issue.None? || state.None? then rows
            else rows[id := UpdateStatus(rows[id], StatusFromIssue(state.value), now)]
  {
  }

  /** What the i-th turn of the loop leaves, against the rows as they were listed. */
  lemma {:induction false} RefreshTurn(before: seq<Report>, ids: seq<nat>, i: nat, read: nat -> Option<IssueState>,
                                       clock: nat -> int, start: nat, now: seq<Report>)
    requires i < |ids| && (forall j | 0 <= j < |ids| :: ids[j] < |before|) && |now| == |before|
    requires now == Rewrite(before, ids[..i], RowsRefreshed(before, ids, read, clock, start)[..i])
    requires now[ids[i]] == before[ids[i]]
    ensures Rewrite(before, ids[..i + 1], RowsRefreshed(before, ids, read, clock, start)[..i + 1]) ==
            if now[ids[i]].issue.None? || read(ids[i]).None? then now
            else now[ids[i] := UpdateStatus(now[ids[i]], StatusFromIssue(read(ids[i]).value), clock(start + i + 1))]
  {
    RewriteNext(before, ids, RowsRefreshed(before, ids, read, clock, start), i);
    RowRefreshedIs(now, ids[i], read(ids[i]), clock(start + i + 1));
  }

  lemma {:induction false} RewriteIsRefreshed(before: seq<Report>, ids: seq<nat>, read: nat -> Option<IssueState>,
                                              clock: nat -> int, start: nat)
    requires forall j | 0 <= j < |ids| :: ids[j] < |before|
    requires SortedBySync(before, ids)
    ensures Refreshed(before, ids, read, clock, start,
                      Rewrite(before, ids, RowsRefreshed(before, ids, read, clock, start)))
  {
    RewriteMeans(before, ids, RowsRefreshed(before, ids, read, clock, start));
  }

  lemma {:induction false} RunTake(cfg: Settings, d: Desk, es: seq<Event>, i: nat)
    requires i < |es|
    ensures RunFrom(cfg, d, es[..i + 1]) == Next(cfg, RunFrom(cfg, d, es[..i]), es[i])
  {
    assert es[..i + 1][..i] == es[..i];
  }

  lemma {:induction false} RunPush(cfg: Settings, d: Desk, es: seq<Event>, e: Event)
    ensures RunFrom(cfg, d, es + [e]) == Next(cfg, RunFrom(cfg, d, es), e)
  {
    assert (es + [e])[..|es|] == es;
  }

  // ---------------------------------------------------------------- quota over runs

  /** The oldest counted report exists when any is counted, and is the oldest. */
  lemma {:induction false} OldestIsOldest(reports: seq<Report>, userId: int, since: int)
    ensures OldestSince(reports, userId, since).Some? <==> CountSince(reports, userId, since) > 0
    ensures OldestSince(reports, userId, since).None? ==>
              forall r | r in reports && r.userId == userId :: r.createdAt <= since
    ensures forall o | OldestSince(reports, userId, since) == Some(o) ::
              && o > since
              && (exists r :: r in reports && r.userId == userId && r.createdAt == o)
              && forall r | r in reports && r.userId == userId && r.createdAt > since :: o <= r.createdAt
  {
    if reports != [] {
      var n := |reports| - 1;
      OldestIsOldest(reports[..n], userId, since);
      assert reports[n] in reports && forall r | r in reports :: r in reports[..n] || r == reports[n];
      var older := OldestSince(reports[..n], userId, since);
      if older.Some? {
        var r :| r in reports[..n] && r.userId == userId && r.createdAt == older.value;
        assert r in reports;
      }
    }
  }

  lemma {:induction false} CountIsKept(reports: seq<Report>, userId: int, now: int, window: int)
    ensures CountSince(reports, userId, now - window) == |Kept(FiledAt(reports, userId), now, window - 1)|
  {
    if reports != [] {
      var n := |reports| - 1;
      CountIsKept(reports[..n], userId, now, window);
      if reports[n].userId == userId {
      } else {
        assert FiledAt(reports, userId) == FiledAt(reports[..n], userId);
      }
    }
  }

  lemma {:induction false} FiledAtSame(reports: seq<Report>, reports': seq<Report>, userId: int)
    requires |reports'| == |reports|
    requires forall i | 0 <= i < |reports| ::
               reports'[i].userId == reports[i].userId && reports'[i].createdAt == reports[i].createdAt
    ensures FiledAt(reports', userId) == FiledAt(reports, userId)
  {
    if reports != [] {
      FiledAtSame(reports[..|reports| - 1], reports'[..|reports| - 1], userId);
    }
  }

  lemma {:induction false} FiledAtPush(reports: seq<Report>, r: Report, userId: int)
    ensures FiledAt(reports + [r], userId)
         == FiledAt(reports, userId) + if r.userId == userId then [r.createdAt] else []
  {
    assert (reports + [r])[..|reports|] == reports;
  }

  /** What a step adds to the account's filings. */
  lemma {:induction false} StepFiles(d: Desk, e: Event, u: int)
    ensures FiledAt(ReportsAfter(d, e), u) == FiledAt(d.reports, u) + if Files(d, e, u) then [e.now] else []
  {
    match e {
      case File(sub, payload, now) =>
        if sub in d.grants && !d.grants[sub].filed {
          FiledAtPush(d.reports, NewReport(d.grants[sub].userId, payload, now), u);
        }
      case _ => FiledAtSame(d.reports, ReportsAfter(d, e), u);
    }
  }

  /** At most `limit` reports of the account are accepted in any rolling window (start, start + window]. */
  ghost predicate WithinQuota(cfg: Settings, es: seq<Event>, u: int)
    requires cfg.Positive()
  {
    Bounded(cfg.limit, cfg.window - 1, FiledAt(Run(cfg, es).reports, u))
  }

  /** Every report of the account is stored at an instant at which the quota would accept it. */
  ghost predicate FilesAccepted(cfg: Settings, es: seq<Event>, u: int) {
    forall k | 0 <= k < |es| && Files(Run(cfg, es[..k]), es[k], u) ::
      Accepts(cfg, Run(cfg, es[..k]).reports, u, es[k].now)
  }

  lemma {:induction false} FilesPrefix(cfg: Settings, es: seq<Event>, u: int)
    requires es != []
    ensures var n := |es| - 1;
            FilesAccepted(cfg, es, u) <==>
              FilesAccepted(cfg, es[..n], u)
              && (Files(Run(cfg, es[..n]), es[n], u) ==> Accepts(cfg, Run(cfg, es[..n]).reports, u, es[n].now))
  {
    var n := |es| - 1;
    assert forall k | 0 <= k <= n :: es[..n][..k] == es[..k];
    assert forall k | 0 <= k < n :: es[..n][k] == es[k];
    if FilesAccepted(cfg, es, u) {
      forall k | 0 <= k < n && Files(Run(cfg, es[..n][..k]), es[..n][k], u)
        ensures Accepts(cfg, Run(cfg, es[..n][..k]).reports, u, es[..n][k].now)
      {
        assert Files(Run(cfg, es[..k]), es[k], u);
      }
    }
  }

  lemma {:induction false} StoringIsAdmitted(cfg: Settings, d: Desk, e: Event, u: int)
    ensures Admitted(cfg.limit, cfg.window - 1, FiledAt(ReportsAfter(d, e), u))
       <==> (&& Admitted(cfg.limit, cfg.window - 1, FiledAt(d.reports, u))
             && (Files(d, e, u) ==> Accepts(cfg, d.reports, u, e.now)))
  {
    StepFiles(d, e, u);
    AcceptsIff(cfg, d.reports, u, e.now);
    AdmittedStep(cfg.limit, cfg.window - 1, FiledAt(d.reports, u), Files(d, e, u), e.now);
  }

  lemma {:induction false} FiledAdmittedIff(cfg: Settings, es: seq<Event>, u: int)
    ensures Admitted(cfg.limit, cfg.window - 1, FiledAt(Run(cfg, es).reports, u)) <==> FilesAccepted(cfg, es, u)
  {
    if es != [] {
      var n := |es| - 1;
      FiledAdmittedIff(cfg, es[..n], u);
      FilesPrefix(cfg, es, u);
      StoringIsAdmitted(cfg, Run(cfg, es[..n]), es[n], u);
    }
  }

  lemma {:induction false} FiledSorted(cfg: Settings, es: seq<Event>, u: int, now: int)
    requires ClockForward(es) && forall e | e in es :: e.now <= now
    ensures var filed := FiledAt(Run(cfg, es).reports, u);
            Sorted(filed) && forall i | 0 <= i < |filed| :: filed[i] <= now
  {
    if es != [] {
      var n := |es| - 1;
      FiledSorted(cfg, es[..n], u, es[n].now);
      StepFiles(Run(cfg, es[..n]), es[n], u);
      SortedPush(FiledAt(Run(cfg, es[..n]).reports, u), Files(Run(cfg, es[..n]), es[n], u), es[n].now);
    }
  }

  /**
   The quota is checked when a submission asks and spent when its report is stored. Over every
   run it holds if and only if it would have accepted each report at the instant of storing it.
   */
  lemma {:induction false} QuotaIff(cfg: Settings, es: seq<Event>, u: int)
    requires cfg.Positive() && ClockForward(es)
    ensures WithinQuota(cfg, es, u) <==> FilesAccepted(cfg, es, u)
  {
    if es != [] {
      FiledSorted(cfg, es, u, es[|es| - 1].now);
    }
    FiledAdmittedIff(cfg, es, u);
    AdmittedIff(cfg.limit, cfg.window - 1, FiledAt(Run(cfg, es).reports, u));
  }

  /** Step `i` is where the submission was let through. */
  predicate GrantedAt(cfg: Settings, es: seq<Event>, i: nat, sub: nat)
    requires i < |es|
  {
    Grants(cfg, Run(cfg, es[..i]), es[i]) && es[i].sub == sub
  }

  lemma {:induction false} WasGranted(cfg: Settings, es: seq<Event>, sub: nat) returns (i: nat)
    requires sub in Run(cfg, es).grants
    ensures i < |es| && GrantedAt(cfg, es, i, sub) && es[i].userId == Run(cfg, es).grants[sub].userId
  {
    var n := |es| - 1;
    if sub in Run(cfg, es[..n]).grants {
      i := WasGranted(cfg, es[..n], sub);
      assert es[..n][..i] == es[..i];
    } else {
      i := n;
    }
  }

  /** No report of the account is stored between the count and the report of another of its submissions. */
  ghost predicate SubmissionsApart(cfg: Settings, es: seq<Event>, u: int) {
    forall i, j, k | 0 <= i < j < k < |es| && es[k].File? && GrantedAt(cfg, es, i, es[k].sub) ::
      Files(Run(cfg, es[..k]), es[k], u) ==> !Files(Run(cfg, es[..j]), es[j], u)
  }

  lemma {:induction false} FiledNone(cfg: Settings, es: seq<Event>, u: int, i: nat, k: nat)
    requires i <= k <= |es| && forall j | i <= j < k :: !Files(Run(cfg, es[..j]), es[j], u)
    ensures FiledAt(Run(cfg, es[..k]).reports, u) == FiledAt(Run(cfg, es[..i]).reports, u)
  {
    if i < k {
      FiledNone(cfg, es, u, i, k - 1);
      RunTake(cfg, EMPTY, es, k - 1);
      StepFiles(Run(cfg, es[..k - 1]), es[k - 1], u);
      assert FiledAt(Run(cfg, es[..k - 1]).reports, u) + [] == FiledAt(Run(cfg, es[..k - 1]).reports, u);
    }
  }

  /** Acceptance is decided by the instants of the account's filings. */
  lemma {:induction false} AcceptsIff(cfg: Settings, reports: seq<Report>, u: int, now: int)
    ensures Accepts(cfg, reports, u, now) <==> |Kept(FiledAt(reports, u), now, cfg.window - 1)| < cfg.limit
  {
    CountIsKept(reports, u, now, cfg.window);
  }

  lemma {:induction false} AcceptsLater(cfg: Settings, before: seq<Report>, after: seq<Report>, u: int,
                                        now: int, later: int)
    requires FiledAt(after, u) == FiledAt(before, u) && now <= later && Accepts(cfg, before, u, now)
    ensures Accepts(cfg, after, u, later)
  {
    AcceptsIff(cfg, before, u, now);
    AcceptsIff(cfg, after, u, later);
    KeptShrinks(FiledAt(before, u), now, later, cfg.window - 1);
  }

  lemma {:induction false} AcceptanceStillHolds(cfg: Settings, es: seq<Event>, u: int, i: nat, k: nat)
    requires ClockForward(es) && i < k < |es| && Accepts(cfg, Run(cfg, es[..i]).reports, u, es[i].now)
    requires forall j | i <= j < k :: !Files(Run(cfg, es[..j]), es[j], u)
    ensures Accepts(cfg, Run(cfg, es[..k]).reports, u, es[k].now)
  {
    FiledNone(cfg, es, u, i, k);
    AcceptsLater(cfg, Run(cfg, es[..i]).reports, Run(cfg, es[..k]).reports, u, es[i].now, es[k].now);
  }

  /**
   Hence at most `limit` accepted reports of an account in any rolling window when its own
   submissions do not overlap, whatever else happens to reports in between.
   */
  lemma {:induction false} QuotaHolds(cfg: Settings, es: seq<Event>, u: int)
    requires cfg.Positive() && ClockForward(es) && SubmissionsApart(cfg, es, u)
    ensures WithinQuota(cfg, es, u)
  {
    forall k | 0 <= k < |es| && Files(Run(cfg, es[..k]), es[k], u)
      ensures Accepts(cfg, Run(cfg, es[..k]).reports, u, es[k].now)
    {
      var i := WasGranted(cfg, es[..k], es[k].sub);
      assert es[..k][..i] == es[..i];
      assert GrantedAt(cfg, es, i, es[k].sub);
      AcceptanceStillHolds(cfg, es, u, i, k);
    }
    QuotaIff(cfg, es, u);
  }

  lemma {:induction false} CountShrinks(reports: seq<Report>, userId: int, since: int, later: int)
    requires since <= later
    ensures CountSince(reports, userId, later) <= CountSince(reports, userId, since)
    ensures (forall r | r in reports && r.userId == userId && r.createdAt > since :: r.createdAt > later) ==>
              CountSince(reports, userId, later) == CountSince(reports, userId, since)
    ensures (exists r :: r in reports && r.userId == userId && since < r.createdAt <= later) ==>
              CountSince(reports, userId, later) < CountSince(reports, userId, since)
  {
    if reports != [] {
      var n := |reports| - 1;
      CountShrinks(reports[..n], userId, since, later);
      assert reports == reports[..n] + [reports[n]];
    }
  }

  lemma {:induction false} CreatedInThePast(cfg: Settings, es: seq<Event>, now: int)
    requires forall e | e in es :: e.now <= now
    ensures forall r | r in Run(cfg, es).reports :: r.createdAt <= now
  {
    if es != [] {
      var n := |es| - 1;
      CreatedInThePast(cfg, es[..n], now);
      assert es[n] in es;
    }
  }

  lemma {:induction false} CountIsInWindow(reports: seq<Report>, userId: int, now: int, window: int)
    requires forall r | r in reports :: r.createdAt <= now
    ensures CountSince(reports, userId, now - window)
        == InWindow(FiledAt(reports, userId), now - window + 1, window - 1)
  {
    if reports != [] {
      var n := |reports| - 1;
      CountIsInWindow(reports[..n], userId, now, window);
      assert reports[n] in reports;
      if reports[n].userId == userId {
        assert FiledAt(reports, userId)[..|FiledAt(reports[..n], userId)|] == FiledAt(reports[..n], userId);
      } else {
        assert FiledAt(reports, userId) == FiledAt(reports[..n], userId);
      }
    }
  }

  /** Then the account never stands above its limit. */
  lemma {:induction false} NeverAboveLimit(cfg: Settings, es: seq<Event>, u: int, now: int)
    requires cfg.Positive() && (forall e | e in es :: e.now <= now) && WithinQuota(cfg, es, u)
    ensures CountSince(Run(cfg, es).reports, u, now - cfg.window) <= cfg.limit
  {
    CreatedInThePast(cfg, es, now);
    CountIsInWindow(Run(cfg, es).reports, u, now, cfg.window);
  }

  /** From `now` on, the account is refused before `at` and accepted from it on. */
  ghost predicate AcceptsExactlyFrom(cfg: Settings, reports: seq<Report>, u: int, now: int, at: int) {
    forall t | now <= t :: Accepts(cfg, reports, u, t) <==> t >= at
  }

  lemma {:induction false} RefusedBefore(cfg: Settings, reports: seq<Report>, u: int, now: int, t: int)
    requires cfg.Positive() && now <= t && !Accepts(cfg, reports, u, now)
    ensures var oldest := OldestSince(reports, u, now - cfg.window);
            oldest.Some? && now < oldest.value + cfg.window
            && (t < oldest.value + cfg.window ==> !Accepts(cfg, reports, u, t))
            && (t >= oldest.value + cfg.window ==>
                  CountSince(reports, u, t - cfg.window)
                  <= CountSince(reports, u, oldest.value)
                  < CountSince(reports, u, now - cfg.window))
  {
    OldestIsOldest(reports, u, now - cfg.window);
    var oldest := OldestSince(reports, u, now - cfg.window).value;
    CountShrinks(reports, u, now - cfg.window, oldest);
    if t < oldest + cfg.window {
      CountShrinks(reports, u, now - cfg.window, t - cfg.window);
    } else {
      CountShrinks(reports, u, oldest, t - cfg.window);
    }
  }

  /**
   A refused submission is told the oldest counted report plus the window. When nothing is
   stored in between, that instant is exact if and only if fewer than `limit` of the counted
   reports are newer than the oldest.
   */
  lemma {:induction false} RetryAtIff(cfg: Settings, reports: seq<Report>, u: int, now: int)
    requires cfg.Positive() && !Accepts(cfg, reports, u, now)
    ensures var oldest := OldestSince(reports, u, now - cfg.window);
            oldest.Some? &&
            (AcceptsExactlyFrom(cfg, reports, u, now, oldest.value + cfg.window) <==>
             CountSince(reports, u, oldest.value) < cfg.limit)
  {
    RefusedBefore(cfg, reports, u, now, now);
    var oldest := OldestSince(reports, u, now - cfg.window).value;
    if CountSince(reports, u, oldest) < cfg.limit {
      forall t | now <= t ensures Accepts(cfg, reports, u, t) <==> t >= oldest + cfg.window {
        RefusedBefore(cfg, reports, u, now, t);
      }
    } else {
      assert !Accepts(cfg, reports, u, oldest + cfg.window);
    }
  }

  /** So it is exact after every run in which the account's submissions do not overlap. */
  lemma {:induction false} RetryAtIsExact(cfg: Settings, es: seq<Event>, u: int, now: int)
    requires cfg.Positive() && ClockForward(es) && SubmissionsApart(cfg, es, u) && forall e | e in es :: e.now <= now
    requires !Accepts(cfg, Run(cfg, es).reports, u, now)
    ensures var oldest := OldestSince(Run(cfg, es).reports, u, now - cfg.window);
            oldest.Some? && AcceptsExactlyFrom(cfg, Run(cfg, es).reports, u, now, oldest.value + cfg.window)
  {
    QuotaHolds(cfg, es, u);
    NeverAboveLimit(cfg, es, u, now);
    var reports := Run(cfg, es).reports;
    RefusedBefore(cfg, reports, u, now, now);
    RefusedBefore(cfg, reports, u, now, OldestSince(reports, u, now - cfg.window).value + cfg.window);
    RetryAtIff(cfg, reports, u, now);
  }
}
