/**
 Submissions that overlap: what a count taken before the insert lets through, and what becomes
 of the announced instant.
 */
module SupportRaces {
  import opened Wrappers
  import opened SlidingWindow
  import opened SupportReports

  /** `n` submissions of one account: all are counted at `t0`, then stored one millisecond apart. */
  function Race(n: nat, u: int, payload: string, t0: int): (es: seq<Event>)
    ensures |es| == 2 * n
  {
    seq(2 * n, i requires 0 <= i < 2 * n => if i < n then Ask(i, u, t0) else File(i - n, payload, t0 + i - n))
  }

  function RaceReports(k: nat, u: int, payload: string, t0: int): (reports: seq<Report>)
    ensures |reports| == k && forall i | 0 <= i < k :: reports[i] == NewReport(u, payload, t0 + i)
  {
    seq(k, i => NewReport(u, payload, t0 + i))
  }

  /** Submission `i` after `m` steps of the race. */
  function RaceGrant(n: nat, u: int, m: nat, i: nat): Grant {
    Grant(u, i < m - n)
  }

  function RaceDesk(n: nat, u: int, payload: string, t0: int, m: nat): Desk {
    Desk(RaceReports(if m < n then 0 else m - n, u, payload, t0),
         map i: nat | 0 <= i < (if m < n then m else n) :: RaceGrant(n, u, m, i),
         seq(if m < n then 0 else m - n, (i: nat) => Claim(i, false)))
  }

  lemma {:induction false} RaceStep(cfg: Settings, n: nat, u: int, payload: string, t0: int, m: nat)
    requires cfg.Positive() && m < 2 * n
    ensures Next(cfg, RaceDesk(n, u, payload, t0, m), Race(n, u, payload, t0)[m]) == RaceDesk(n, u, payload, t0, m + 1)
  {
    var d, d' := RaceDesk(n, u, payload, t0, m), RaceDesk(n, u, payload, t0, m + 1);
    var e := Race(n, u, payload, t0)[m];
    assert ReportsAfter(d, e) == d'.reports;
    assert GrantsAfter(cfg, d, e) == d'.grants;
    assert ClaimsAfter(d, e) == d'.claims;
  }

  lemma {:induction false} RaceRuns(cfg: Settings, n: nat, u: int, payload: string, t0: int, m: nat)
    requires cfg.Positive() && m <= 2 * n
    ensures Run(cfg, Race(n, u, payload, t0)[..m]) == RaceDesk(n, u, payload, t0, m)
  {
    if m > 0 {
      RaceRuns(cfg, n, u, payload, t0, m - 1);
      RunTake(cfg, EMPTY, Race(n, u, payload, t0), m - 1);
      RaceStep(cfg, n, u, payload, t0, m - 1);
    }
  }

  lemma {:induction false} RaceFiles(k: nat, u: int, payload: string, t0: int, window: nat)
    requires k <= window + 1
    ensures InWindow(FiledAt(RaceReports(k, u, payload, t0), u), t0, window) == k
  {
    if k > 0 {
      RaceFiles(k - 1, u, payload, t0, window);
      assert RaceReports(k, u, payload, t0) == RaceReports(k - 1, u, payload, t0) + [NewReport(u, payload, t0 + k - 1)];
      FiledAtPush(RaceReports(k - 1, u, payload, t0), NewReport(u, payload, t0 + k - 1), u);
      var filed := FiledAt(RaceReports(k - 1, u, payload, t0), u);
      assert (filed + [t0 + k - 1])[..|filed|] == filed;
    }
  }

  lemma {:induction false} RaceCounts(k: nat, u: int, payload: string, t0: int, since: int)
    requires since <= t0 && k > 0
    ensures CountSince(RaceReports(k, u, payload, t0), u, since) == if since < t0 then k else k - 1
  {
    var reports := RaceReports(k, u, payload, t0);
    assert reports[..k - 1] == RaceReports(k - 1, u, payload, t0);
    if k > 1 {
      RaceCounts(k - 1, u, payload, t0, since);
    } else {
      assert reports[..0] == [];
    }
  }

  lemma {:induction false} RaceOldest(k: nat, u: int, payload: string, t0: int, since: int)
    requires since < t0 && k > 0
    ensures OldestSince(RaceReports(k, u, payload, t0), u, since) == Some(t0)
  {
    var reports := RaceReports(k, u, payload, t0);
    OldestIsOldest(reports, u, since);
    RaceCounts(k, u, payload, t0, since);
    assert reports[0] in reports && reports[0].createdAt == t0;
    forall r | r in reports ensures r.createdAt >= t0 {
      var i :| 0 <= i < k && reports[i] == r;
    }
  }

  /**
   However many submissions overlap, all are stored. With more than `limit` of them the quota is
   broken, and the instant a refused account is then told is too early: it is refused again.
   */
  lemma {:induction false} RaceBreaksQuota(cfg: Settings, n: nat, u: int, payload: string, t0: int)
    requires cfg.Positive() && cfg.limit < n < cfg.window
    ensures var es := Race(n, u, payload, t0);
            var reports := Run(cfg, es).reports;
            && ClockForward(es) && !WithinQuota(cfg, es, u)
            && !Accepts(cfg, reports, u, t0 + n)
            && OldestSince(reports, u, t0 + n - cfg.window) == Some(t0)
            && !Accepts(cfg, reports, u, t0 + cfg.window)
  {
    var es := Race(n, u, payload, t0);
    assert es[..2 * n] == es;
    RaceRuns(cfg, n, u, payload, t0, 2 * n);
    assert Run(cfg, es).reports == RaceReports(n, u, payload, t0);
    RaceFiles(n, u, payload, t0, cfg.window - 1);
    RaceCounts(n, u, payload, t0, t0 + n - cfg.window);
    RaceCounts(n, u, payload, t0, t0);
    RaceOldest(n, u, payload, t0, t0 + n - cfg.window);
  }
}
