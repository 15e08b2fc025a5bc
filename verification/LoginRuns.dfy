/**
 Sessions and the password they were opened with, over whole runs: a login reads the password in
 one step and stores its session in a later one.
 */
module LoginRuns {
  import opened Wrappers
  import opened Sequences
  import opened Identity
  import R = RememberSessions

  lemma StepKeepsSessionOwners(db: Db, e: Event)
    requires forall s | s in db.sessions.rows :: s.userId in db.users
    ensures forall s | s in Next(db, e).sessions.rows :: s.userId in Next(db, e).users
  {
    var st := R.Step(SessionOp(db, e), e.now);
    forall s' | s' in Next(db, e).sessions.rows ensures s'.userId in Next(db, e).users {
      R.StepContinues(db.sessions, st, s');
      if st.op.Drop? { SelectMeaning(db.sessions.rows, R.NotOf(st.op.userId)); }
    }
  }

  lemma {:induction false} SessionOwnersExist(es: seq<Event>)
    ensures forall s | s in Run(es).sessions.rows :: s.userId in Run(es).users
  {
    if es != [] {
      SessionOwnersExist(es[..|es| - 1]);
      StepKeepsSessionOwners(Run(es[..|es| - 1]), es[|es| - 1]);
    }
  }

  lemma {:induction false} SessionIdsArePast(es: seq<Event>)
    ensures forall s | s in Run(es).sessions.rows :: s.id < Run(es).sessions.next
  {
    RunProjects(es);
    R.HistoryIsPast(SessionSteps(es));
  }

  /** Every session that is not revoked was opened with the password its account has now. */
  ghost predicate Matched(db: Db) {
    forall s | s in db.sessions.rows && s.revokedAt.None? && s.userId in db.users ::
      s.id in db.openedWith && db.openedWith[s.id] == db.users[s.userId].passwordHash
  }

  /** A login that stores its session finds the password it had read. */
  predicate OpensFresh(db: Db, e: Event) {
    Opens(db, e) ==> db.users[db.logins[e.req].id].passwordHash == db.logins[e.req].hash
  }

  lemma {:induction false} SameHash(es: seq<Event>, e: Event, u: int)
    requires u in Run(es).users && u in Next(Run(es), e).users && SessionOp(Run(es), e) != R.PasswordWrite(u)
    ensures Next(Run(es), e).users[u].passwordHash == Run(es).users[u].passwordHash
  {
    if Next(Run(es), e).users[u].passwordHash != Run(es).users[u].passwordHash {
      PasswordChangeRevokes(es, e, u);
    }
  }

  /** An unrevoked session after a step: one from before, with no password write of its owner, or the one opened. */
  lemma {:induction false} UnrevokedComesFrom(es: seq<Event>, e: Event, s': R.Session)
    requires s' in Next(Run(es), e).sessions.rows && s'.revokedAt.None?
    ensures || (exists s :: s in Run(es).sessions.rows && R.Continues(s, s') && s.revokedAt.None?
                  && SessionOp(Run(es), e) != R.PasswordWrite(s'.userId))
            || (Opens(Run(es), e) && s'.id == Run(es).sessions.next && s'.userId == Run(es).logins[e.req].id)
  {
    var db, st := Run(es), R.Step(SessionOp(Run(es), e), e.now);
    R.StepContinues(db.sessions, st, s');
    if s :| s in db.sessions.rows && R.Continues(s, s') {
      if st.op == R.PasswordWrite(s'.userId) { R.PasswordWriteRevokes(db.sessions, s'.userId, e.now, s'); }
    }
  }

  lemma {:induction false} StepKeepsMatched(es: seq<Event>, e: Event)
    requires Matched(Run(es)) && OpensFresh(Run(es), e)
    ensures Matched(Next(Run(es), e))
  {
    var db, db' := Run(es), Next(Run(es), e);
    SessionOwnersExist(es);
    SessionIdsArePast(es);
    forall s' | s' in db'.sessions.rows && s'.revokedAt.None? && s'.userId in db'.users
      ensures s'.id in db'.openedWith && db'.openedWith[s'.id] == db'.users[s'.userId].passwordHash
    {
      UnrevokedComesFrom(es, e, s');
      if s :| s in db.sessions.rows && R.Continues(s, s') && s.revokedAt.None?
              && SessionOp(db, e) != R.PasswordWrite(s'.userId)
      {
        SameHash(es, e, s'.userId);
      }
    }
  }

  /** A login that finds another password leaves a usable session that does not match it. */
  lemma {:induction false} StaleLoginBreaks(db: Db, e: Event)
    requires R.Sound(db.sessions, e.now) && Opens(db, e) && !OpensFresh(db, e)
    ensures !Matched(Next(db, e))
  {
    var l, n := db.logins[e.req], |db.sessions.rows|;
    R.CreationKeepsNewest(db.sessions, l.id, e.digest, e.now, n);
    RememberMeans(db, e.req, e.digest, e.now);
    var s := Next(db, e).sessions.rows[n];
    assert s in Next(db, e).sessions.rows && s.id == db.sessions.next && s.userId == l.id && s.revokedAt.None?;
  }

  ghost predicate AlwaysMatched(es: seq<Event>) {
    forall k | 0 <= k <= |es| :: Matched(Run(es[..k]))
  }

  ghost predicate AlwaysFresh(es: seq<Event>) {
    forall k | 0 <= k < |es| :: OpensFresh(Run(es[..k]), es[k])
  }

  lemma {:induction false} MatchedUpTo(es: seq<Event>, k: nat)
    requires k <= |es| && AlwaysFresh(es)
    ensures Matched(Run(es[..k]))
  {
    if k > 0 {
      MatchedUpTo(es, k - 1);
      RunNext(es, k - 1);
      StepKeepsMatched(es[..k - 1], es[k - 1]);
    }
  }

  /**
   "A password change must never leave a session alive": at every point of a run each unrevoked
   session was opened with the password its account has then, if and only if every login that
   stored a session found the password it had read.
   */
  lemma {:induction false} SessionsMatchIff(es: seq<Event>)
    requires ClockForward(es)
    ensures AlwaysMatched(es) <==> AlwaysFresh(es)
  {
    if AlwaysFresh(es) {
      forall k | 0 <= k <= |es| ensures Matched(Run(es[..k])) {
        MatchedUpTo(es, k);
      }
    }
    if AlwaysMatched(es) {
      forall k | 0 <= k < |es| ensures OpensFresh(Run(es[..k]), es[k]) {
        RunNext(es, k);
        assert Matched(Run(es[..k + 1]));
        SessionsSound(es[..k], es[k].now);
        if Opens(Run(es[..k]), es[k]) && !OpensFresh(Run(es[..k]), es[k]) { StaleLoginBreaks(Run(es[..k]), es[k]); }
      }
    }
  }

  /** Step `i` is where the login read the account. */
  predicate ReadAt(es: seq<Event>, i: nat, req: nat)
    requires i < |es|
  {
    es[i].BeginLogin? && es[i].req == req && req !in Run(es[..i]).logins && req in LoginsAfter(Run(es[..i]), es[i])
  }

  lemma {:induction false} WasRead(es: seq<Event>, req: nat) returns (i: nat)
    requires req in Run(es).logins
    ensures i < |es| && ReadAt(es, i, req)
    ensures var l := Run(es).logins[req];
            l.id in Run(es[..i]).users && Run(es[..i]).users[l.id].passwordHash == l.hash
  {
    var n := |es| - 1;
    if req in Run(es[..n]).logins {
      i := WasRead(es[..n], req);
      PrefixOfPrefix(es, i, n);
    } else {
      i := n;
    }
  }

  /** No password write of the account comes between what a login of it read and its session. */
  ghost predicate LoginsApart(es: seq<Event>) {
    forall i, j, k | 0 <= i < j < k < |es| && Opens(Run(es[..k]), es[k]) && ReadAt(es, i, es[k].req) ::
      SessionOp(Run(es[..j]), es[j]) != R.PasswordWrite(Run(es[..k]).logins[es[k].req].id)
  }

  lemma {:induction false} HashSame(es: seq<Event>, i: nat, k: nat, u: int)
    requires i <= k <= |es| && u in Run(es[..i]).users
    requires forall j | i <= j < k :: SessionOp(Run(es[..j]), es[j]) != R.PasswordWrite(u)
    ensures u < Run(es[..k]).nextUser
    ensures u in Run(es[..k]).users ==> Run(es[..k]).users[u].passwordHash == Run(es[..i]).users[u].passwordHash
  {
    UserIdsArePast(es[..i]);
    if i < k {
      HashSame(es, i, k - 1, u);
      RunNext(es, k - 1);
      if u in Run(es[..k - 1]).users {
        if u in Run(es[..k]).users { SameHash(es[..k - 1], es[k - 1], u); }
      } else {
        GoneStaysGone(Run(es[..k - 1]), es[k - 1], u);
      }
    }
  }

  /** Then every login finds the password it had read, whatever else overlaps. */
  lemma {:induction false} LoginsApartFresh(es: seq<Event>, k: nat)
    requires LoginsApart(es) && k < |es|
    ensures OpensFresh(Run(es[..k]), es[k])
  {
    if Opens(Run(es[..k]), es[k]) {
      var u := Run(es[..k]).logins[es[k].req].id;
      var i := WasRead(es[..k], es[k].req);
      PrefixOfPrefix(es, i, k);
      assert ReadAt(es, i, es[k].req);
      assert SessionOp(Run(es[..i]), es[i]) == R.Nothing;
      HashSame(es, i, k, u);
    }
  }

  lemma {:induction false} RunPush(es: seq<Event>, e: Event)
    ensures Run(es + [e]) == Next(Run(es), e)
  {
    assert (es + [e])[..|es|] == es;
  }

  lemma {:induction false} LoginBegun(user: User, now: int) returns (es: seq<Event>)
    requires !user.forbidden
    ensures forall e | e in es :: e.now == now
    ensures Run(es) == EMPTY.(users := map[0 := user], nextUser := 1,
                              logins := map[0 := Login(0, user.passwordHash, false)])
  {
    RunPush([], AddUser(user, now));
    RunPush([AddUser(user, now)], BeginLogin(0, 0, now));
    assert [] + [AddUser(user, now)] == [AddUser(user, now)];
    es := [AddUser(user, now)] + [BeginLogin(0, 0, now)];
  }

  lemma {:induction false} PasswordChangedSince(user: User, hash: string, now: int) returns (es: seq<Event>)
    requires !user.forbidden
    ensures forall e | e in es :: e.now == now
    ensures var db := Run(es);
            && db.users == map[0 := user.(passwordHash := hash)] && db.sessions == R.Table([], 0)
            && db.logins == map[0 := Login(0, user.passwordHash, false)]
  {
    var begun := LoginBegun(user, now);
    RunPush(begun, UpdatePasswordHash(0, hash, now));
    es := begun + [UpdatePasswordHash(0, hash, now)];
  }

  /** A login with the old password, overlapped by a change of it: its session is usable afterwards. */
  lemma {:induction false} StaleLogin(user: User, hash: string, digest: string, now: int)
    returns (es: seq<Event>, s: R.Session)
    requires !user.forbidden && hash != user.passwordHash
    ensures ClockForward(es) && s in Run(es).sessions.rows && s.userId in Run(es).users
    ensures s.revokedAt.None? && now < s.expiresAt
    ensures Run(es).users[s.userId].passwordHash == hash
    ensures s.id in Run(es).openedWith && Run(es).openedWith[s.id] == user.passwordHash
  {
    var changed := PasswordChangedSince(user, hash, now);
    RunPush(changed, Remember(0, digest, now));
    RememberMeans(Run(changed), 0, digest, now);
    R.CreationKeepsNewest(R.Table([], 0), 0, digest, now, 0);
    es := changed + [Remember(0, digest, now)];
    s := Run(es).sessions.rows[0];
    assert forall i | 0 <= i < |es| :: es[i] in es;
  }
}
