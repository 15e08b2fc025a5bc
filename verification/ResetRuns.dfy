/**
 Reset links and the passwords they set, over whole runs of all tables.
 */
module ResetRuns {
  import opened Wrappers
  import opened Sequences
  import opened Identity
  import R = RememberSessions
  import T = ResetTokens

  lemma StepKeepsOwners(db: Db, e: Event)
    requires forall u | u in db.users :: 0 <= u < db.nextUser
    requires forall t | t in db.tokens.rows :: t.userId in db.users
    ensures forall t | t in Next(db, e).tokens.rows :: t.userId in Next(db, e).users
  {
    forall t' | t' in Next(db, e).tokens.rows ensures t'.userId in Next(db, e).users {
      T.StepContinues(db.tokens, T.Step(TokenOp(db, e), e.now), t');
    }
  }

  /** Every stored token belongs to an account that exists. */
  lemma {:induction false} OwnersExist(es: seq<Event>)
    ensures forall t | t in Run(es).tokens.rows :: t.userId in Run(es).users
  {
    if es != [] {
      var n := |es| - 1;
      OwnersExist(es[..n]);
      UserIdsArePast(es[..n]);
      StepKeepsOwners(Run(es[..n]), es[n]);
    }
  }

  lemma {:induction false} LinksLiveAnHour(es: seq<Event>, now: int)
    ensures forall t | t in Run(es).tokens.rows :: t.expiresAt == t.createdAt + 3_600_000
    ensures ClockForward(es) && NotAfter(es, now) ==> forall t | t in Run(es).tokens.rows :: t.createdAt <= now
  {
    RunProjects(es);
    T.TokensLiveAnHour(TokenSteps(es));
    if ClockForward(es) && NotAfter(es, now) {
      StepInstants(es, now);
      forall st | st in TokenSteps(es) ensures st.now <= now {
        var i :| 0 <= i < |es| && TokenSteps(es)[i] == st;
        TokenStepsOfPrefix(es, i);
      }
      T.TokensArePast(TokenSteps(es), now);
    }
  }

  lemma FreshLinkGoesOn(db: Db, t: T.Token, req: nat, hash: string, now: int)
    requires T.DistinctHashes(db.tokens.rows) && t in db.tokens.rows && T.UsableAt(t, t.hash, now)
    requires t.userId in db.users && !db.users[t.userId].forbidden
    ensures var read := Next(db, BeginReset(req, t.hash, true, now));
            && req in read.requests && read.requests[req] == t.hash
            && read.tokens == db.tokens && read.users == db.users
  {
    T.ConsumeMeans(db.tokens.rows, t.hash, now);
    assert ResetAccount(db, t.hash, now) == Some(t.userId);
  }

  /**
   Conversely, after any run a stored link less than an hour old, unused and not invalidated, of
   an account that is not forbidden, lets a reset with an acceptable password go on, and the
   reset then sets the password.
   */
  lemma {:induction false} FreshLinkResets(es: seq<Event>, t: T.Token, req: nat, hash: string, now: int)
    requires FreshDigests(es) && t in Run(es).tokens.rows
    requires t.consumedAt.None? && t.invalidatedAt.None? && now < t.createdAt + 3_600_000
    requires t.userId in Run(es).users ==> !Run(es).users[t.userId].forbidden
    ensures var read := Next(Run(es), BeginReset(req, t.hash, true, now));
            && req in read.requests && read.requests[req] == t.hash
            && var done := Next(read, FinishReset(req, hash, now));
               && ResetBy(read, FinishReset(req, hash, now)) == Some((t.hash, t.userId))
               && t.userId in done.users && done.users[t.userId].passwordHash == hash
  {
    OwnersExist(es);
    LinksLiveAnHour(es, now);
    RunProjects(es);
    T.TokensAreSingleUse(TokenSteps(es));
    FreshLinkGoesOn(Run(es), t, req, hash, now);
    var read := Next(Run(es), BeginReset(req, t.hash, true, now));
    FinishMeans(read, req, hash, now);
    assert T.Consumable(read.tokens.rows, t.hash, now) == Some(t.userId);
  }

  /**
   What a reset that goes through does, after any run: its token was stored less than an hour
   before, unused and not invalidated, the account has the new password and is otherwise as it
   was, none of its links is left, and none of its sessions.
   */
  lemma {:induction false} ResetMeans(es: seq<Event>, e: Event)
    requires ResetBy(Run(es), e).Some?
    ensures var db, db' := Run(es), Next(Run(es), e);
            var (digest, u) := ResetBy(db, e).value;
            && (exists t :: t in db.tokens.rows && t.hash == digest && t.userId == u && t.consumedAt.None?
                  && t.invalidatedAt.None? && e.now < t.createdAt + 3_600_000
                  && (ClockForward(es) && NotAfter(es, e.now) ==> t.createdAt <= e.now))
            && u in db.users && db'.users == db.users[u := db.users[u].(passwordHash := e.hash)]
            && (forall t | t in db'.tokens.rows && t.userId == u :: t.consumedAt.Some? || t.invalidatedAt.Some?)
            && forall s | s in db'.sessions.rows && s.userId == u :: s.revokedAt.Some?
  {
    var db := Run(es);
    var (digest, u) := ResetBy(db, e).value;
    OwnersExist(es);
    LinksLiveAnHour(es, e.now);
    FinishMeans(db, e.req, e.hash, e.now);
    forall s | s in Next(db, e).sessions.rows && s.userId == u ensures s.revokedAt.Some? {
      R.PasswordWriteRevokes(db.sessions, u, e.now, s);
    }
  }

  /** Step `i` is a reset by the token of this digest that goes through. */
  predicate ResetAt(es: seq<Event>, i: nat, digest: string)
    requires i < |es|
  {
    ResetBy(Run(es[..i]), es[i]).Some? && ResetBy(Run(es[..i]), es[i]).value.0 == digest
  }

  lemma {:induction false} ResetIsMatch(es: seq<Event>, i: nat)
    requires i < |es| && ResetBy(Run(es[..i]), es[i]).Some?
    ensures var (digest, u) := ResetBy(Run(es[..i]), es[i]).value;
            T.MatchesAt(TokenSteps(es), i, T.Match(digest, u, es[i].now))
  {
    TokenStepAt(es, i);
  }

  lemma {:induction false} MatchIsReset(es: seq<Event>, i: nat, m: T.Match)
    requires i < |es| && T.MatchesAt(TokenSteps(es), i, m)
    ensures ResetBy(Run(es[..i]), es[i]) == Some((m.hash, m.userId)) && es[i].now == m.at
  {
    TokenStepAt(es, i);
  }

  /**
   A stored token is marked consumed if and only if some step of the run was a reset by it that
   went through, and so, by `ResetMeans`, replaced its owner's password.
   */
  lemma {:induction false} ConsumedIffReset(es: seq<Event>, t: T.Token)
    requires FreshDigests(es) && t in Run(es).tokens.rows
    ensures t.consumedAt.Some? <==> exists i :: 0 <= i < |es| && ResetAt(es, i, t.hash)
  {
    var steps := TokenSteps(es);
    RunProjects(es);
    T.TokensAreSingleUse(steps);
    assert T.SoundToken(T.Recorded(steps), t);
    if t.consumedAt.Some? {
      var m := T.Match(t.hash, t.userId, t.consumedAt.value);
      T.MatchesAreSteps(steps, m);
      var i :| 0 <= i < |steps| && T.MatchesAt(steps, i, m);
      MatchIsReset(es, i, m);
      assert ResetAt(es, i, t.hash);
    }
    if i :| 0 <= i < |es| && ResetAt(es, i, t.hash) {
      ResetIsMatch(es, i);
      T.MatchesAreSteps(steps, T.Match(t.hash, ResetBy(Run(es[..i]), es[i]).value.1, es[i].now));
    }
  }

  /**
   With any number of reset requests interleaved between their read and their consume step,
   one token changes a password at most once.
   */
  lemma {:induction false} OneResetPerToken(es: seq<Event>, i: nat, j: nat, digest: string)
    requires FreshDigests(es) && i < j < |es| && ResetAt(es, i, digest)
    ensures !ResetAt(es, j, digest)
  {
    if ResetAt(es, j, digest) {
      ResetIsMatch(es, i);
      ResetIsMatch(es, j);
      T.OneMatchPerToken(TokenSteps(es), i, j,
                         T.Match(digest, ResetBy(Run(es[..i]), es[i]).value.1, es[i].now),
                         T.Match(digest, ResetBy(Run(es[..j]), es[j]).value.1, es[j].now));
    }
  }

  /**
   At every point of the run the account has at most one usable reset link, if no link of it is
   stored between the two writes of another of its requests.
   */
  lemma {:induction false} AtMostOneLink(es: seq<Event>, u: int, k: nat)
    requires T.WritesApart(TokenSteps(es), u) && k <= |es|
    ensures var rows := Run(es[..k]).tokens.rows;
            forall i, j | 0 <= i < j < |rows| && rows[i].userId == u && rows[j].userId == u ::
              rows[i].consumedAt.Some? || rows[i].invalidatedAt.Some?
              || rows[j].consumedAt.Some? || rows[j].invalidatedAt.Some?
  {
    T.OutstandingsMean(Run(es[..k]).tokens.rows, u);
    T.WritesApartOneLink(TokenSteps(es), u);
    TokensOfPrefix(es, k);
  }

  lemma {:induction false} DropMeansDeleted(es: seq<Event>, i: nat, u: int)
    requires i < |es| && TokenSteps(es)[i].op == T.Drop(u)
    ensures es[i].DeleteUser? && es[i].id == u && u in Run(es[..i]).users
  {
    TokenStepsOfPrefix(es, i);
  }

  lemma {:induction false} LinksNeedAccounts(es: seq<Event>, j: nat, u: int)
    requires j < |es| && T.Inserts(T.Run(TokenSteps(es)[..j]), TokenSteps(es)[j], u)
    ensures u in Run(es[..j]).users
  {
    TokenStepAt(es, j);
  }

  /** Account ids are never used again, so no link is stored for a deleted account. */
  lemma {:induction false} IdsAreNotReused(es: seq<Event>, u: int)
    ensures T.NeverReused(TokenSteps(es), u)
  {
    forall i, j | 0 <= i < j < |es| && TokenSteps(es)[i].op == T.Drop(u)
      ensures !T.Inserts(T.Run(TokenSteps(es)[..j]), TokenSteps(es)[j], u)
    {
      DropMeansDeleted(es, i, u);
      assert es[..j][..i] == es[..i];
      DeletedStaysDeleted(es[..j], i, u);
      if T.Inserts(T.Run(TokenSteps(es)[..j]), TokenSteps(es)[j], u) { LinksNeedAccounts(es, j, u); }
    }
  }

  /**
   In every run an account gets at most 3 self-service reset links in any hour, with links sent
   by administrators, resets, purges and everything else mixed in, if none is stored between
   the count and the link of another of its self-service requests.
   */
  lemma {:induction false} SelfServiceQuota(es: seq<Event>, u: int)
    requires ClockForward(es) && T.RequestsApart(TokenSteps(es), u)
    ensures T.WithinQuota(TokenSteps(es), u)
  {
    if es != [] { StepInstants(es, es[|es| - 1].now); }
    IdsAreNotReused(es, u);
    T.RequestsApartWithinQuota(TokenSteps(es), u);
  }
}
