/**
 Requests for a reset link that overlap: what the separate statements of `Issue`, and a count
 taken before them, let through.
 */
module ResetRaces {
  import opened Sequences
  import opened SlidingWindow
  import opened ResetTokens
  import I = Identity

  /** `n` self-service requests of one account: all are let through, all retire, all store their link. */
  function Race(n: nat, u: int, digest: nat -> string, now: int): (steps: seq<Step>)
    ensures |steps| == 3 * n
  {
    seq(3 * n, i requires 0 <= i < 3 * n =>
      Step(if i < n then Ask(i, u, true)
           else if i < 2 * n then Retire(i - n)
           else Insert(i - 2 * n, digest(i - 2 * n)), now))
  }

  /** The stage of request `i` after `m` steps of the race. */
  function RaceStage(n: nat, m: nat, i: nat): Stage {
    if i < m - 2 * n then Served else if i < m - n then Retired else Admitted
  }

  function RaceTable(n: nat, u: int, digest: nat -> string, now: int, m: nat): Table {
    Table(seq(if m < 2 * n then 0 else m - 2 * n, (i: nat) => NewToken(u, digest(i), now)),
          map i: nat | 0 <= i < (if m < n then m else n) :: Request(u, true, RaceStage(n, m, i)))
  }

  lemma RaceStep(n: nat, u: int, digest: nat -> string, now: int, m: nat)
    requires m < 3 * n
    ensures Apply(RaceTable(n, u, digest, now, m), Race(n, u, digest, now)[m]) == RaceTable(n, u, digest, now, m + 1)
  {
    var t, t' := RaceTable(n, u, digest, now, m), RaceTable(n, u, digest, now, m + 1);
    var st := Race(n, u, digest, now)[m];
    assert RowsAfter(t, st) == t'.rows;
    assert RequestsAfter(t, st) == t'.requests;
  }

  lemma {:induction false} RaceRuns(n: nat, u: int, digest: nat -> string, now: int, m: nat)
    requires m <= 3 * n
    ensures Run(Race(n, u, digest, now)[..m]) == RaceTable(n, u, digest, now, m)
  {
    if m > 0 {
      RaceRuns(n, u, digest, now, m - 1);
      RunNext(Race(n, u, digest, now), m - 1);
      RaceStep(n, u, digest, now, m - 1);
    }
  }

  lemma {:induction false} RaceServes(n: nat, u: int, digest: nat -> string, now: int, m: nat)
    requires m <= 3 * n
    ensures SelfServed(Race(n, u, digest, now)[..m], u) == seq(if m < 2 * n then 0 else m - 2 * n, i => now)
  {
    if m > 0 {
      RaceServes(n, u, digest, now, m - 1);
      RaceRuns(n, u, digest, now, m - 1);
      ServedNext(Race(n, u, digest, now), u, m - 1);
    }
  }

  lemma {:induction false} RaceIssues(n: nat, u: int, digest: nat -> string, now: int, m: nat)
    requires m <= 3 * n
    ensures Recorded(Race(n, u, digest, now)[..m]).issued == set i: nat | 0 <= i < m - 2 * n :: digest(i)
  {
    if m > 0 {
      RaceIssues(n, u, digest, now, m - 1);
      PrefixOfPrefix(Race(n, u, digest, now), m - 1, m);
      assert Race(n, u, digest, now)[..m][m - 1] == Race(n, u, digest, now)[m - 1];
    }
  }

  lemma {:induction false} AllCount(rows: seq<Token>, p: Token -> bool)
    requires forall i | 0 <= i < |rows| :: p(rows[i])
    ensures Count(rows, p) == |rows|
  {
    if rows != [] {
      AllCount(rows[..|rows| - 1], p);
    }
  }

  lemma {:induction false} AllInWindow(times: seq<int>, now: int, window: nat)
    requires forall i | 0 <= i < |times| :: times[i] == now
    ensures InWindow(times, now, window) == |times|
  {
    if times != [] {
      AllInWindow(times[..|times| - 1], now, window);
    }
  }

  lemma RaceIsFresh(n: nat, u: int, digest: nat -> string, now: int)
    requires forall i: nat, j: nat | i < j :: digest(i) != digest(j)
    ensures FreshDigests(Race(n, u, digest, now))
  {
    var steps := Race(n, u, digest, now);
    forall i | 0 <= i < |steps| && steps[i].op.Insert? ensures steps[i].op.hash !in Recorded(steps[..i]).issued {
      RaceIssues(n, u, digest, now, i);
    }
  }

  lemma RaceRows(n: nat, u: int, digest: nat -> string, now: int)
    ensures var rows := RaceTable(n, u, digest, now, 3 * n).rows;
            |rows| == n && forall i | 0 <= i < n :: rows[i] == NewToken(u, digest(i), now)
  {
  }

  /** There are `n` links, all usable and all of one account. */
  ghost predicate AllUsable(rows: seq<Token>, u: int, n: nat, now: int) {
    |rows| == n && forall i | 0 <= i < n ::
      rows[i].userId == u && rows[i].consumedAt.None? && rows[i].invalidatedAt.None? && now < rows[i].expiresAt
  }

  lemma RaceOutcome(n: nat, u: int, digest: nat -> string, now: int)
    ensures var steps := Race(n, u, digest, now);
            && Outstandings(Run(steps).rows, u) == n && AllUsable(Run(steps).rows, u, n, now)
            && InWindow(SelfServed(steps, u), now, 3_599_999) == n
  {
    var steps := Race(n, u, digest, now);
    assert steps[..3 * n] == steps;
    RaceRuns(n, u, digest, now, 3 * n);
    RaceRows(n, u, digest, now);
    AllCount(Run(steps).rows, OutstandingFor(u));
    RaceServes(n, u, digest, now, 3 * n);
    AllInWindow(SelfServed(steps, u), now, 3_599_999);
  }

  /**
   However many requests overlap, all are let through and each leaves a usable link, all within
   one hour. So two of them break the promise of a single link, and four the quota of three.
   */
  lemma RaceBreaksBoth(n: nat, u: int, digest: nat -> string, now: int)
    requires forall i: nat, j: nat | i < j :: digest(i) != digest(j)
    ensures var steps := Race(n, u, digest, now);
            && ClockForward(steps) && FreshDigests(steps)
            && AllUsable(Run(steps).rows, u, n, now)
            && (n > 1 ==> !NeverTwo(steps, u))
            && (n > 3 ==> !WithinQuota(steps, u))
  {
    var steps := Race(n, u, digest, now);
    RaceIsFresh(n, u, digest, now);
    RaceOutcome(n, u, digest, now);
    assert steps[..|steps|] == steps;
  }

  // ---------------------------------------------------------------- the race of a live account

  function EventOf(st: Step): I.Event {
    match st.op
    case Ask(req, id, selfService) => I.AskReset(req, id, selfService, st.now)
    case Retire(req) => I.RetireLinks(req, st.now)
    case Insert(req, digest) => I.StoreLink(req, digest, st.now)
    case _ => I.PurgeLinks(st.now)
  }

  /** The account is created, then its requests race for `m` steps. */
  function LiveRace(n: nat, user: I.User, digest: nat -> string, now: int, m: nat): (es: seq<I.Event>)
    requires m <= 3 * n
    ensures |es| == m + 1
  {
    [I.AddUser(user, now)] + seq(m, i requires 0 <= i < m => EventOf(Race(n, 0, digest, now)[i]))
  }

  lemma {:induction false} LiveStep(n: nat, db: I.Db, digest: nat -> string, now: int, m: nat)
    requires m < 3 * n && 0 in db.users && !db.users[0].forbidden && db.tokens == RaceTable(n, 0, digest, now, m)
    ensures var db' := I.Next(db, EventOf(Race(n, 0, digest, now)[m]));
            db'.users == db.users && db'.tokens == RaceTable(n, 0, digest, now, m + 1)
  {
    RaceStep(n, 0, digest, now, m);
  }

  lemma {:induction false} LiveRaceStarts(n: nat, user: I.User, digest: nat -> string, now: int)
    ensures var db := I.Run(LiveRace(n, user, digest, now, 0));
            db.users == map[0 := user] && db.tokens == RaceTable(n, 0, digest, now, 0)
  {
    var es := LiveRace(n, user, digest, now, 0);
    assert es == [I.AddUser(user, now)] && es[..0] == [];
    assert RaceTable(n, 0, digest, now, 0) == NOTHING;
  }

  lemma {:induction false} LiveRaceRuns(n: nat, user: I.User, digest: nat -> string, now: int, m: nat)
    requires m <= 3 * n && !user.forbidden
    ensures var db := I.Run(LiveRace(n, user, digest, now, m));
            db.users == map[0 := user] && db.tokens == RaceTable(n, 0, digest, now, m)
  {
    var es := LiveRace(n, user, digest, now, m);
    if m == 0 {
      LiveRaceStarts(n, user, digest, now);
    } else {
      LiveRaceRuns(n, user, digest, now, m - 1);
      assert es[..m] == LiveRace(n, user, digest, now, m - 1);
      LiveStep(n, I.Run(es[..m]), digest, now, m - 1);
    }
  }

  /** The race is a run of the whole system: a live account ends with as many usable links as it had requests. */
  lemma {:induction false} LiveAccountRaces(n: nat, user: I.User, digest: nat -> string, now: int)
    requires !user.forbidden
    ensures var db := I.Run(LiveRace(n, user, digest, now, 3 * n));
            && db.users == map[0 := user]
            && AllUsable(db.tokens.rows, 0, n, now)
  {
    LiveRaceRuns(n, user, digest, now, 3 * n);
    RaceRows(n, 0, digest, now);
  }
}
