/**
 Accounts, remembered sessions and reset tokens together: every write path as one step on the
 three tables, a request for a reset link as one step per statement, password reset as a read
 step and a consume step, and what holds over all runs of interleaved steps.
 */
module Identity {
  import opened Wrappers
  import opened Sequences
  import R = RememberSessions
  import T = ResetTokens

  datatype User = User(
    passwordHash: string,
    firstName: string,
    lastName: string,
    forbidden: bool,
    changeRequiredAt: Option<int>,
    tempExpiresAt: Option<int>,
    tempIssuedBy: Option<int>)

  /** A login whose password matched what it read, and whether it has opened its session. */
  datatype Login = Login(id: int, hash: string, done: bool)

  /**
   The tables, the reset requests that have read their token and not yet consumed it, the logins
   under way, and the password each session was opened with.
   */
  datatype Db = Db(
    users: map<int, User>,
    nextUser: nat,
    sessions: R.Table,
    tokens: T.Table,
    requests: map<nat, string>,
    logins: map<nat, Login>,
    openedWith: map<nat, string>)

  const EMPTY := Db(map[], 0, R.Table([], 0), T.NOTHING, map[], map[], map[])

  datatype Event =
    | AddUser(user: User, now: int)
    | DeleteUser(id: int, now: int)
    | SetForbidden(id: int, forbidden: bool, now: int)
    | UpdateUser(id: int, firstName: string, lastName: string, hash: string, now: int)
    | UpdatePasswordHash(id: int, hash: string, now: int)
    | SetTemporaryPassword(id: int, hash: string, expiresAt: int, issuedBy: int, now: int)
    | ClearPasswordChangeRequired(id: int, hash: string, now: int)
    | BeginLogin(req: nat, id: int, now: int)
    | Remember(req: nat, digest: string, now: int)
    | Refresh(digest: string, now: int)
    | Logout(digest: string, now: int)
    | AskReset(req: nat, id: int, selfService: bool, now: int)
    | RetireLinks(req: nat, now: int)
    | StoreLink(req: nat, digest: string, now: int)
    | PurgeLinks(now: int)
    | InvalidateTokens(id: int, now: int)
    | BeginReset(req: nat, digest: string, acceptable: bool, now: int)
    | FinishReset(req: nat, hash: string, now: int)

  // ---------------------------------------------------------------- steps

  /** The account row after a credential write, if the event is one that finds its account. */
  function CredentialWrite(db: Db, e: Event): Option<(int, User)> {
    match e
    case UpdateUser(id, first, last, hash, _) =>
      if id in db.users && hash != "" then
        Some((id, db.users[id].(firstName := first, lastName := last, passwordHash := hash)))
      else None
    case UpdatePasswordHash(id, hash, _) =>
      if id in db.users then Some((id, db.users[id].(passwordHash := hash))) else None
    case SetTemporaryPassword(id, hash, expiresAt, issuedBy, now) =>
      if id in db.users then
        Some((id, db.users[id].(passwordHash := hash, changeRequiredAt := Some(now),
                                tempExpiresAt := Some(expiresAt), tempIssuedBy := Some(issuedBy))))
      else None
    case ClearPasswordChangeRequired(id, hash, _) =>
      if id in db.users then
        Some((id, db.users[id].(passwordHash := hash, changeRequiredAt := None,
                                tempExpiresAt := None, tempIssuedBy := None)))
      else None
    case _ => None
  }

  /** The digest and account of a reset that goes through. */
  function ResetBy(db: Db, e: Event): Option<(string, int)> {
    if e.FinishReset? && e.req in db.requests && T.Consumable(db.tokens.rows, db.requests[e.req], e.now).Some?
    then Some((db.requests[e.req], T.Consumable(db.tokens.rows, db.requests[e.req], e.now).value))
    else None
  }

  /** The session a refresh finds usable, for an account that exists and is not forbidden. */
  function Refreshed(db: Db, digest: string, now: int): Option<R.Session> {
    match FindLast(db.sessions.rows, R.WithHash(digest))
    case None => None
    case Some(s) =>
      if s.Usable(now) && s.userId in db.users && !db.users[s.userId].forbidden then Some(s) else None
  }

  /** The account a reset link leads to, when its token is usable. */
  function ResetAccount(db: Db, digest: string, now: int): Option<int> {
    match FindLast(db.tokens.rows, T.WithHash(digest))
    case None => None
    case Some(t) => if t.StateAt(now) == T.Valid && t.userId in db.users then Some(t.userId) else None
  }

  /** The login stores its session, unless its account is gone. */
  predicate Opens(db: Db, e: Event) {
    e.Remember? && e.req in db.logins && !db.logins[e.req].done && db.logins[e.req].id in db.users
  }

  /** What the event does to the sessions. */
  function SessionOp(db: Db, e: Event): R.Op {
    if CredentialWrite(db, e).Some? then R.PasswordWrite(CredentialWrite(db, e).value.0)
    else if ResetBy(db, e).Some? then R.PasswordWrite(ResetBy(db, e).value.1)
    else match e
    case DeleteUser(id, _) => if id in db.users then R.Drop(id) else R.Nothing
    case Remember(req, digest, _) => if Opens(db, e) then R.Open(db.logins[req].id, digest) else R.Nothing
    case Refresh(digest, now) =>
      if Refreshed(db, digest, now).Some? then R.Use(Refreshed(db, digest, now).value.id) else R.Nothing
    case Logout(digest, _) => R.SignOut(digest)
    case _ => R.Nothing
  }

  /** What the event does to the tokens. A link of a deleted account is refused by its foreign key. */
  function TokenOp(db: Db, e: Event): T.Op {
    match e
    case DeleteUser(id, _) => if id in db.users then T.Drop(id) else T.Nothing
    case AskReset(req, id, selfService, _) =>
      if id in db.users && !db.users[id].forbidden then T.Ask(req, id, selfService) else T.Nothing
    case RetireLinks(req, _) => T.Retire(req)
    case StoreLink(req, digest, _) =>
      if req in db.tokens.requests && db.tokens.requests[req].userId in db.users
      then T.Insert(req, digest) else T.Nothing
    case PurgeLinks(_) => T.Purge
    case InvalidateTokens(id, _) => T.Invalidate(id)
    case BeginReset(_, digest, _, now) =>
      var u := ResetAccount(db, digest, now);
      if u.Some? && db.users[u.value].forbidden then T.Invalidate(u.value) else T.Nothing
    case FinishReset(req, _, _) => if req in db.requests then T.Consume(db.requests[req]) else T.Nothing
    case _ => T.Nothing
  }

  function UsersAfter(db: Db, e: Event): map<int, User> {
    var write := CredentialWrite(db, e);
    if write.Some? then db.users[write.value.0 := write.value.1] else
    match e
    case AddUser(user, _) => db.users[db.nextUser := user]
    case DeleteUser(id, _) => db.users - {id}
    case SetForbidden(id, forbidden, _) =>
      if id in db.users then db.users[id := db.users[id].(forbidden := forbidden)] else db.users
    case UpdateUser(id, first, last, _, _) =>
      if id in db.users then db.users[id := db.users[id].(firstName := first, lastName := last)] else db.users
    case FinishReset(_, hash, _) =>
      var r := ResetBy(db, e);
      if r.Some? && r.value.1 in db.users
      then db.users[r.value.1 := db.users[r.value.1].(passwordHash := hash)] else db.users
    case _ => db.users
  }

  function RequestsAfter(db: Db, e: Event): map<nat, string> {
    match e
    case BeginReset(req, digest, acceptable, now) =>
      var u := ResetAccount(db, digest, now);
      if u.Some? && !db.users[u.value].forbidden && acceptable then db.requests[req := digest] else db.requests
    case FinishReset(req, _, _) => db.requests - {req}
    case _ => db.requests
  }

  function LoginsAfter(db: Db, e: Event): map<nat, Login> {
    match e
    case BeginLogin(req, id, _) =>
      if req !in db.logins && id in db.users && !db.users[id].forbidden
      then db.logins[req := Login(id, db.users[id].passwordHash, false)] else db.logins
    case Remember(req, _, _) =>
      if req in db.logins then db.logins[req := db.logins[req].(done := true)] else db.logins
    case _ => db.logins
  }

  function Next(db: Db, e: Event): Db {
    Db(UsersAfter(db, e),
       if e.AddUser? then db.nextUser + 1 else db.nextUser,
       R.Apply(db.sessions, R.Step(SessionOp(db, e), e.now)),
       T.Apply(db.tokens, T.Step(TokenOp(db, e), e.now)),
       RequestsAfter(db, e),
       LoginsAfter(db, e),
       if Opens(db, e) then db.openedWith[db.sessions.next := db.logins[e.req].hash] else db.openedWith)
  }

  /** The tables after a request for a link that nothing disturbs: see `IssueIsFourSteps`. */
  function Issued(db: Db, req: nat, id: int, selfService: bool, digest: string, now: int): Db {
    db.(tokens := T.Table(Select(T.InvalidatedFor(db.tokens.rows, id, now) + [T.NewToken(id, digest, now)],
                                 T.NotOlder(now - T.RETENTION)),
                          db.tokens.requests[req := T.Request(id, selfService, T.Served)]))
  }

  lemma AskMeans(db: Db, req: nat, id: int, selfService: bool, now: int)
    requires req !in db.tokens.requests && id in db.users && !db.users[id].forbidden
    requires !(selfService && T.Throttled(db.tokens.rows, id, now))
    ensures Next(db, AskReset(req, id, selfService, now))
         == db.(tokens := T.Table(db.tokens.rows, db.tokens.requests[req := T.Request(id, selfService, T.Admitted)]))
  {
  }

  lemma RetireMeans(db: Db, req: nat, now: int)
    requires req in db.tokens.requests && db.tokens.requests[req].stage == T.Admitted
    ensures var r := db.tokens.requests[req];
            Next(db, RetireLinks(req, now)) ==
            db.(tokens := T.Table(T.InvalidatedFor(db.tokens.rows, r.userId, now),
                                  db.tokens.requests[req := r.(stage := T.Retired)]))
  {
  }

  lemma StoreMeans(db: Db, req: nat, digest: string, now: int)
    requires req in db.tokens.requests && db.tokens.requests[req].stage == T.Retired
    requires db.tokens.requests[req].userId in db.users
    ensures var r := db.tokens.requests[req];
            Next(db, StoreLink(req, digest, now)) ==
            db.(tokens := T.Table(db.tokens.rows + [T.NewToken(r.userId, digest, now)],
                                  db.tokens.requests[req := r.(stage := T.Served)]))
  {
  }

  lemma PurgeMeans(db: Db, now: int)
    ensures Next(db, PurgeLinks(now))
         == db.(tokens := db.tokens.(rows := Select(db.tokens.rows, T.NotOlder(now - T.RETENTION))))
  {
  }

  lemma RememberMeans(db: Db, req: nat, digest: string, now: int)
    requires req in db.logins && !db.logins[req].done
    ensures var l := db.logins[req];
            Next(db, Remember(req, digest, now)) ==
            if l.id in db.users
            then db.(sessions := R.Created(db.sessions, l.id, digest, now + R.LIFETIME, now),
                     logins := db.logins[req := l.(done := true)],
                     openedWith := db.openedWith[db.sessions.next := l.hash])
            else db.(logins := db.logins[req := l.(done := true)])
  {
  }

  lemma Overwritten<K, V>(m: map<K, V>, k: K, v: V, v': V)
    ensures m[k := v][k := v'] == m[k := v']
  {
  }

  /** Undisturbed, the four steps of a request make its link the account's only outstanding one. */
  lemma IssueIsFourSteps(db: Db, req: nat, id: int, selfService: bool, digest: string, now: int)
    requires req !in db.tokens.requests && id in db.users && !db.users[id].forbidden
    requires !(selfService && T.Throttled(db.tokens.rows, id, now))
    ensures Next(Next(Next(Next(db, AskReset(req, id, selfService, now)), RetireLinks(req, now)),
                      StoreLink(req, digest, now)), PurgeLinks(now))
         == Issued(db, req, id, selfService, digest, now)
  {
    var r := T.Request(id, selfService, T.Admitted);
    AskMeans(db, req, id, selfService, now);
    var asked := Next(db, AskReset(req, id, selfService, now));
    RetireMeans(asked, req, now);
    Overwritten(db.tokens.requests, req, r, r.(stage := T.Retired));
    var retired := Next(asked, RetireLinks(req, now));
    StoreMeans(retired, req, digest, now);
    Overwritten(db.tokens.requests, req, r.(stage := T.Retired), r.(stage := T.Served));
    PurgeMeans(Next(retired, StoreLink(req, digest, now)), now);
  }

  /** The new link is stored, for an hour, and every other link of the account is used or retired. */
  ghost predicate IsOnlyLink(rows: seq<T.Token>, id: int, digest: string, now: int) {
    var link := T.Token(id, digest, now, now + 3_600_000, None, None);
    && link in rows
    && forall t | t in rows && t.userId == id && t.consumedAt.None? && t.invalidatedAt.None? :: t == link
  }

  // ---------------------------------------------------------------- the two halves of a reset

  /** Every session of the account is revoked, and nothing else changes. */
  ghost predicate SessionsEnded(before: seq<R.Session>, after: seq<R.Session>, id: int, now: int) {
    |after| == |before| && forall i | 0 <= i < |before| ::
      after[i] == if before[i].userId == id && before[i].revokedAt.None?
                  then before[i].(revokedAt := Some(now)) else before[i]
  }

  /**
   A reset goes on for an acceptable password and a stored link that is unused, not retired and
   not past its end, of an account that exists and is not forbidden; digests being distinct, always.
   Only a forbidden account is changed: its links are retired.
   */
  ghost predicate LetsThrough(db: Db, digest: string, acceptable: bool, now: int, goesOn: bool, db': Db) {
    && db'.users == db.users && db'.sessions == db.sessions
    && (goesOn ==> acceptable && db'.tokens == db.tokens && exists t ::
          && t in db.tokens.rows && t.hash == digest && t.consumedAt.None? && t.invalidatedAt.None?
          && now < t.expiresAt && t.userId in db.users && !db.users[t.userId].forbidden)
    && (T.DistinctHashes(db.tokens.rows) ==> forall t |
          && t in db.tokens.rows && t.hash == digest && t.consumedAt.None? && t.invalidatedAt.None?
          && now < t.expiresAt && t.userId in db.users ::
          if db.users[t.userId].forbidden
          then forall t' | t' in db'.tokens.rows && t'.userId == t.userId ::
                 t'.consumedAt.Some? || t'.invalidatedAt.Some?
          else goesOn == acceptable)
  }

  lemma BeginMeans(db: Db, req: nat, digest: string, acceptable: bool, now: int)
    ensures var u := ResetAccount(db, digest, now);
            LetsThrough(db, digest, acceptable, now, u.Some? && !db.users[u.value].forbidden && acceptable,
                        Next(db, BeginReset(req, digest, acceptable, now)))
  {
    var found := FindLast(db.tokens.rows, T.WithHash(digest));
    assert forall t | t in db.tokens.rows && t.hash == digest :: found.Some?;
    var db' := Next(db, BeginReset(req, digest, acceptable, now));
    assert db'.sessions == db.sessions && db'.users == db.users;
    var u := ResetAccount(db, digest, now);
    if u.Some? && db.users[u.value].forbidden {
      assert db'.tokens.rows == T.InvalidatedFor(db.tokens.rows, u.value, now);
    } else {
      assert db'.tokens == db.tokens;
    }
  }

  /**
   A consumed link was unused, not retired and not past its end; its account gets the password and
   keeps no link and no session. Without one nothing happens; digests being distinct, one is always
   found.
   */
  ghost predicate Resets(db: Db, digest: string, hash: string, now: int, account: Option<int>, db': Db) {
    && (account.None? ==>
          db'.users == db.users && db'.tokens.rows == db.tokens.rows && db'.sessions.rows == db.sessions.rows)
    && (account.Some? ==>
          && SessionsEnded(db.sessions.rows, db'.sessions.rows, account.value, now)
          && (forall t | t in db'.tokens.rows && t.userId == account.value ::
                t.consumedAt.Some? || t.invalidatedAt.Some?)
          && db'.users == (if account.value in db.users
                           then db.users[account.value := db.users[account.value].(passwordHash := hash)] else db.users)
          && exists t :: t in db.tokens.rows && t.userId == account.value && t.hash == digest
               && t.consumedAt.None? && t.invalidatedAt.None? && now < t.expiresAt)
    && (T.DistinctHashes(db.tokens.rows) ==> forall t |
          && t in db.tokens.rows && t.hash == digest && t.consumedAt.None? && t.invalidatedAt.None?
          && now < t.expiresAt ::
          account == Some(t.userId))
  }

  lemma FinishMeans(db: Db, req: nat, hash: string, now: int)
    requires req in db.requests
    ensures Resets(db, db.requests[req], hash, now, T.Consumable(db.tokens.rows, db.requests[req], now),
                   Next(db, FinishReset(req, hash, now)))
  {
    T.ConsumeMeans(db.tokens.rows, db.requests[req], now);
  }

  // ---------------------------------------------------------------- the service

  class IdentityService {
    const sessions: R.SessionStore
    const tokens: T.TokenStore
    var users: map<int, User>
    var nextUser: nat
    var requests: map<nat, string>
    var asking: map<nat, T.Request>
    var logins: map<nat, Login>
    ghost var openedWith: map<nat, string>

    constructor (sessions: R.SessionStore, tokens: T.TokenStore)
      requires sessions.Contents() == R.Table([], 0) && tokens.rows == []
      ensures this.sessions == sessions && this.tokens == tokens && Snapshot() == EMPTY
    {
      this.sessions := sessions;
      this.tokens := tokens;
      users := map[];
      nextUser := 0;
      requests := map[];
      asking := map[];
      logins := map[];
      openedWith := map[];
    }

    ghost function Snapshot(): Db
      reads this, sessions, tokens
    {
      Db(users, nextUser, sessions.Contents(), T.Table(tokens.rows, asking), requests, logins, openedWith)
    }

    /** One transaction: the account row, and the end of all its remembered sessions. */
    method WriteCredential(id: int, user: User, now: int)
      modifies this`users, sessions
      ensures users == if id in old(users) then old(users)[id := user] else old(users)
      ensures sessions.Contents() == R.Table(R.AllRevoked(old(sessions.rows), id, now), old(sessions.next))
      ensures SessionsEnded(old(sessions.rows), sessions.rows, id, now)
    {
      if id in users {
        users := users[id := user];
      }
      sessions.RevokeAll(id, now);
    }

    method UpdateUserRow(id: int, firstName: string, lastName: string, hash: string, now: int) returns (found: bool)
      modifies this`users, sessions
      ensures Snapshot() == Next(old(Snapshot()), UpdateUser(id, firstName, lastName, hash, now))
      ensures found <==> id in old(users)
      ensures !found ==> users == old(users) && sessions.rows == old(sessions.rows)
      ensures found && hash == "" ==>
                && sessions.rows == old(sessions.rows)
                && users == old(users)[id := old(users)[id].(firstName := firstName, lastName := lastName)]
      ensures found && hash != "" ==>
                && SessionsEnded(old(sessions.rows), sessions.rows, id, now)
                && users == var u := old(users)[id];
                            old(users)[id := u.(firstName := firstName, lastName := lastName, passwordHash := hash)]
    {
      if id !in users {
        return false;
      }
      if hash != "" {
        WriteCredential(id, users[id].(firstName := firstName, lastName := lastName, passwordHash := hash), now);
      } else {
        users := users[id := users[id].(firstName := firstName, lastName := lastName)];
      }
      return true;
    }

    method WritePasswordHash(id: int, hash: string, now: int) returns (found: bool)
      modifies this`users, sessions
      ensures Snapshot() == Next(old(Snapshot()), UpdatePasswordHash(id, hash, now))
      ensures found <==> id in old(users)
      ensures !found ==> users == old(users) && sessions.rows == old(sessions.rows)
      ensures found ==>
                && SessionsEnded(old(sessions.rows), sessions.rows, id, now)
                && users == old(users)[id := old(users)[id].(passwordHash := hash)]
    {
      if id !in users {
        return false;
      }
      WriteCredential(id, users[id].(passwordHash := hash), now);
      return true;
    }

    method WriteTemporaryPassword(id: int, hash: string, expiresAt: int, issuedBy: int, now: int) returns (found: bool)
      modifies this`users, sessions
      ensures Snapshot() == Next(old(Snapshot()), SetTemporaryPassword(id, hash, expiresAt, issuedBy, now))
      ensures found <==> id in old(users)
      ensures !found ==> users == old(users) && sessions.rows == old(sessions.rows)
      ensures found ==>
                && SessionsEnded(old(sessions.rows), sessions.rows, id, now)
                && users == var u := old(users)[id];
                            old(users)[id := u.(passwordHash := hash, changeRequiredAt := Some(now),
                                                tempExpiresAt := Some(expiresAt), tempIssuedBy := Some(issuedBy))]
    {
      if id !in users {
        return false;
      }
      WriteCredential(id, users[id].(passwordHash := hash, changeRequiredAt := Some(now),
                                     tempExpiresAt := Some(expiresAt), tempIssuedBy := Some(issuedBy)), now);
      return true;
    }

    method LiftPasswordChange(id: int, hash: string, now: int) returns (found: bool)
      modifies this`users, sessions
      ensures Snapshot() == Next(old(Snapshot()), ClearPasswordChangeRequired(id, hash, now))
      ensures found <==> id in old(users)
      ensures !found ==> users == old(users) && sessions.rows == old(sessions.rows)
      ensures found ==>
                && SessionsEnded(old(sessions.rows), sessions.rows, id, now)
                && users == var u := old(users)[id];
                            old(users)[id := u.(passwordHash := hash, changeRequiredAt := None,
                                                tempExpiresAt := None, tempIssuedBy := None)]
    {
      if id !in users {
        return false;
      }
      WriteCredential(id, users[id].(passwordHash := hash, changeRequiredAt := None,
                                     tempExpiresAt := None, tempIssuedBy := None), now);
      return true;
    }

    method RegisterUser(user: User, now: int) returns (id: int)
      modifies this`users, this`nextUser
      ensures Snapshot() == Next(old(Snapshot()), AddUser(user, now)) && id == old(nextUser)
      ensures users == old(users)[id := user] && nextUser == id + 1
    {
      id := nextUser;
      users := users[nextUser := user];
      nextUser := nextUser + 1;
    }

    method MarkForbidden(id: int, forbidden: bool, now: int)
      modifies this`users
      ensures Snapshot() == Next(old(Snapshot()), SetForbidden(id, forbidden, now))
      ensures users == if id !in old(users) then old(users)
                       else old(users)[id := old(users)[id].(forbidden := forbidden)]
    {
      if id in users {
        users := users[id := users[id].(forbidden := forbidden)];
      }
    }

    method RemoveUser(id: int, now: int)
      modifies this`users, sessions, tokens
      ensures Snapshot() == Next(old(Snapshot()), DeleteUser(id, now)) && users == old(users) - {id}
      ensures forall s :: s in sessions.rows <==> s in old(sessions.rows) && (id in old(users) ==> s.userId != id)
      ensures forall t :: t in tokens.rows <==> t in old(tokens.rows) && (id in old(users) ==> t.userId != id)
    {
      if id in users {
        SelectMeaning(sessions.rows, R.NotOf(id));
        SelectMeaning(tokens.rows, T.NotOf(id));
        sessions.DropUser(id);
        tokens.DropUser(id);
      }
      users := users - {id};
    }

    /** The reading half of a login: the account as it was when the password matched. */
    method VerifyLogin(req: nat, id: int, now: int) returns (goesOn: bool)
      requires req !in logins
      modifies this`logins
      ensures Snapshot() == Next(old(Snapshot()), BeginLogin(req, id, now))
      ensures goesOn <==> id in users && !users[id].forbidden
      ensures logins == if goesOn then old(logins)[req := Login(id, users[id].passwordHash, false)] else old(logins)
    {
      if id !in users || users[id].forbidden {
        return false;
      }
      logins := logins[req := Login(id, users[id].passwordHash, false)];
      return true;
    }

    /** The writing half: nothing is read again, but the insert is refused if the account is gone. */
    method IssueRememberSession(req: nat, digest: string, now: int) returns (expiresAt: Option<int>)
      requires req in logins && !logins[req].done
      modifies this`logins, this`openedWith, sessions
      ensures Snapshot() == Next(old(Snapshot()), Remember(req, digest, now))
      ensures expiresAt == if old(logins)[req].id in users then Some(now + 2_592_000_000) else None
      ensures logins == old(logins)[req := old(logins)[req].(done := true)]
      ensures expiresAt.None? ==> sessions.rows == old(sessions.rows)
      ensures expiresAt.Some? ==>
                && openedWith == old(openedWith)[old(sessions.next) := old(logins)[req].hash]
                && |sessions.rows| == |old(sessions.rows)| + 1
                && var s := sessions.rows[|old(sessions.rows)|];
                   s == R.Session(old(sessions.next), old(logins)[req].id, digest, now, expiresAt.value,
                                  None, s.revokedAt)
    {
      RememberMeans(Snapshot(), req, digest, now);
      var l := logins[req];
      logins := logins[req := l.(done := true)];
      if l.id !in users {
        return None;
      }
      openedWith := openedWith[sessions.next := l.hash];
      expiresAt := Some(now + R.LIFETIME);
      sessions.Create(l.id, digest, expiresAt.value, now);
    }

    method RememberRefresh(digest: string, now: int) returns (account: Option<int>)
      modifies sessions
      ensures Snapshot() == Next(old(Snapshot()), Refresh(digest, now))
      ensures account == match Refreshed(old(Snapshot()), digest, now) case None => None case Some(s) => Some(s.userId)
      ensures account.Some? ==> account.value in users && !users[account.value].forbidden
      ensures account.Some? ==> exists s ::
                && s in old(sessions.rows) && s.hash == digest && s.userId == account.value
                && s.revokedAt.None? && now < s.expiresAt
      ensures account.None? ==> sessions.rows == old(sessions.rows)
      ensures account.None? && (exists s :: s in old(sessions.rows) && s.hash == digest) ==> exists s ::
                && s in old(sessions.rows) && s.hash == digest
                && (s.revokedAt.Some? || s.expiresAt <= now || s.userId !in users || users[s.userId].forbidden)
      ensures |sessions.rows| == |old(sessions.rows)| && forall i | 0 <= i < |sessions.rows| ::
                sessions.rows[i] == old(sessions.rows)[i].(lastUsedAt := sessions.rows[i].lastUsedAt)
    {
      var s := FindLast(sessions.rows, R.WithHash(digest));
      if s.None? || !s.value.Usable(now) {
        return None;
      }
      if s.value.userId !in users || users[s.value.userId].forbidden {
        return None;
      }
      sessions.Touch(s.value.id, now);
      return Some(s.value.userId);
    }

    method SignOut(digest: string, now: int)
      modifies sessions
      ensures Snapshot() == Next(old(Snapshot()), Logout(digest, now))
      ensures |sessions.rows| == |old(sessions.rows)| && forall i | 0 <= i < |sessions.rows| ::
                sessions.rows[i] == var s := old(sessions.rows)[i];
                                    if s.hash == digest && s.revokedAt.None? then s.(revokedAt := Some(now)) else s
    {
      sessions.RevokeByHash(digest, now);
    }

    /**
     Self-service: throttled per account, and nothing for an unknown or forbidden account. Alone,
     a request is its four steps in a row, after which its link is the account's only one.
     */
    method IssueResetIfEligible(req: nat, id: int, digest: string, now: int) returns (issued: bool)
      requires req !in asking
      modifies this`asking, tokens
      ensures issued <==>
                id in users && !users[id].forbidden && |T.RecentLinks(old(tokens.rows), id, now - 3_600_000)| < 3
      ensures Snapshot() == if issued then Issued(old(Snapshot()), req, id, true, digest, now) else old(Snapshot())
      ensures issued ==> IsOnlyLink(tokens.rows, id, digest, now)
    {
      T.CountRecentIsSize(tokens.rows, id, now - 3_600_000);
      if id !in users || users[id].forbidden {
        return false;
      }
      var recent := T.CountRecent(tokens.rows, id, now - T.HOUR);
      if recent >= T.MAX_PER_HOUR {
        return false;
      }
      var expiresAt := tokens.Issue(id, digest, now);
      asking := asking[req := T.Request(id, true, T.Served)];
      return true;
    }

    method IssueResetByAdmin(req: nat, id: int, digest: string, now: int) returns (issued: bool)
      requires req !in asking
      modifies this`asking, tokens
      ensures issued <==> id in users && !users[id].forbidden
      ensures Snapshot() == if issued then Issued(old(Snapshot()), req, id, false, digest, now) else old(Snapshot())
      ensures issued ==> IsOnlyLink(tokens.rows, id, digest, now)
    {
      if id !in users || users[id].forbidden {
        return false;
      }
      var expiresAt := tokens.Issue(id, digest, now);
      asking := asking[req := T.Request(id, false, T.Served)];
      return true;
    }

    /** The reading half of a reset: every refusal that is the user's fault comes before the consume. */
    method StartReset(req: nat, digest: string, acceptable: bool, now: int) returns (goesOn: bool)
      modifies this`requests, tokens
      ensures Snapshot() == Next(old(Snapshot()), BeginReset(req, digest, acceptable, now))
      ensures var u := ResetAccount(old(Snapshot()), digest, now);
              goesOn <==> u.Some? && !users[u.value].forbidden && acceptable
      ensures requests == if goesOn then old(requests)[req := digest] else old(requests)
      ensures LetsThrough(old(Snapshot()), digest, acceptable, now, goesOn, Snapshot())
    {
      BeginMeans(Snapshot(), req, digest, acceptable, now);
      var t := FindLast(tokens.rows, T.WithHash(digest));
      if t.None? || t.value.StateAt(now) != T.Valid {
        return false;
      }
      var u := t.value.userId;
      if u !in users {
        return false;
      }
      if users[u].forbidden {
        tokens.InvalidateForUser(u, now);
        return false;
      }
      if !acceptable {
        return false;
      }
      requests := requests[req := digest];
      return true;
    }

    /** The writing half: consume the token and set the password, or do neither. */
    method ConsumeAndSetPassword(req: nat, hash: string, now: int) returns (account: Option<int>)
      requires req in requests
      modifies this`users, this`requests, sessions, tokens
      ensures Snapshot() == Next(old(Snapshot()), FinishReset(req, hash, now))
      ensures account == T.Consumable(old(tokens.rows), old(requests)[req], now)
      ensures Resets(old(Snapshot()), old(requests)[req], hash, now, account, Snapshot())
    {
      FinishMeans(Snapshot(), req, hash, now);
      var digest := requests[req];
      requests := requests - {req};
      account := tokens.Consume(digest, now);
      if account.None? {
        return;
      }
      if account.value in users {
        users := users[account.value := users[account.value].(passwordHash := hash)];
      }
      sessions.RevokeAll(account.value, now);
    }
  }

  // ---------------------------------------------------------------- runs

  function Run(es: seq<Event>): Db {
    if es == [] then EMPTY else Next(Run(es[..|es| - 1]), es[|es| - 1])
  }

  function SessionSteps(es: seq<Event>): (steps: seq<R.Step>)
    ensures |steps| == |es|
  {
    if es == [] then [] else
    var n := |es| - 1;
    SessionSteps(es[..n]) + [R.Step(SessionOp(Run(es[..n]), es[n]), es[n].now)]
  }

  function TokenSteps(es: seq<Event>): (steps: seq<T.Step>)
    ensures |steps| == |es|
  {
    if es == [] then [] else
    var n := |es| - 1;
    TokenSteps(es[..n]) + [T.Step(TokenOp(Run(es[..n]), es[n]), es[n].now)]
  }

  ghost predicate ClockForward(es: seq<Event>) {
    forall i, j | 0 <= i < j < |es| :: es[i].now <= es[j].now
  }

  /** Every new reset link carries a digest never issued before. */
  ghost predicate FreshDigests(es: seq<Event>) {
    T.FreshDigests(TokenSteps(es))
  }

  lemma {:induction false} RunNext(es: seq<Event>, i: nat)
    requires i < |es|
    ensures Run(es[..i + 1]) == Next(Run(es[..i]), es[i])
  {
    PrefixOfPrefix(es, i, i + 1);
  }

  lemma {:induction false} SessionStepsOfPrefix(es: seq<Event>, i: nat)
    requires i <= |es|
    ensures SessionSteps(es)[..i] == SessionSteps(es[..i])
    ensures i < |es| ==> SessionSteps(es)[i] == R.Step(SessionOp(Run(es[..i]), es[i]), es[i].now)
  {
    if i == |es| {
      assert es[..i] == es;
    } else {
      var n := |es| - 1;
      SessionStepsOfPrefix(es[..n], i);
      PrefixOfPrefix(es, i, n);
    }
  }

  lemma {:induction false} TokenStepsOfPrefix(es: seq<Event>, i: nat)
    requires i <= |es|
    ensures TokenSteps(es)[..i] == TokenSteps(es[..i])
    ensures i < |es| ==> TokenSteps(es)[i] == T.Step(TokenOp(Run(es[..i]), es[i]), es[i].now)
  {
    if i == |es| {
      assert es[..i] == es;
    } else {
      var n := |es| - 1;
      TokenStepsOfPrefix(es[..n], i);
      PrefixOfPrefix(es, i, n);
    }
  }

  /** The sessions and the tokens of a run are the runs of their own steps. */
  lemma {:induction false} RunProjects(es: seq<Event>)
    ensures Run(es).sessions == R.Run(SessionSteps(es)) && Run(es).tokens == T.Run(TokenSteps(es))
  {
    if es != [] {
      var n := |es| - 1;
      RunProjects(es[..n]);
      SessionStepsOfPrefix(es, n);
      TokenStepsOfPrefix(es, n);
    }
  }

  ghost predicate NotAfter(es: seq<Event>, now: int) {
    forall e | e in es :: e.now <= now
  }

  lemma {:induction false} StepInstants(es: seq<Event>, now: int)
    requires ClockForward(es) && NotAfter(es, now)
    ensures R.ClockForward(SessionSteps(es)) && T.ClockForward(TokenSteps(es))
    ensures forall st | st in SessionSteps(es) :: st.now <= now
  {
    forall i | 0 <= i < |es| ensures SessionSteps(es)[i].now == es[i].now && TokenSteps(es)[i].now == es[i].now {
      SessionStepsOfPrefix(es, i);
      TokenStepsOfPrefix(es, i);
    }
  }

  lemma {:induction false} TokensOfPrefix(es: seq<Event>, k: nat)
    requires k <= |es|
    ensures T.Run(TokenSteps(es)[..k]) == Run(es[..k]).tokens
  {
    TokenStepsOfPrefix(es, k);
    RunProjects(es[..k]);
  }

  lemma {:induction false} TokenStepAt(es: seq<Event>, i: nat)
    requires i < |es|
    ensures T.Run(TokenSteps(es)[..i]) == Run(es[..i]).tokens
    ensures TokenSteps(es)[i] == T.Step(TokenOp(Run(es[..i]), es[i]), es[i].now)
  {
    TokensOfPrefix(es, i);
    TokenStepsOfPrefix(es, i);
  }

  // ---------------------------------------------------------------- sessions

  lemma {:induction false} UserIdsArePast(es: seq<Event>)
    ensures forall u | u in Run(es).users :: 0 <= u < Run(es).nextUser
  {
    if es != [] {
      UserIdsArePast(es[..|es| - 1]);
    }
  }

  /** No write path replaces a password without ending the account's sessions in the same step. */
  lemma {:induction false} PasswordChangeRevokes(es: seq<Event>, e: Event, u: int)
    requires u in Run(es).users && u in Next(Run(es), e).users
    requires Next(Run(es), e).users[u].passwordHash != Run(es).users[u].passwordHash
    ensures SessionOp(Run(es), e) == R.PasswordWrite(u)
  {
    UserIdsArePast(es);
  }

  lemma {:induction false} SessionsTail(es: seq<Event>, i: nat)
    requires i < |es|
    ensures var n := |es| - 1;
            SessionSteps(es)[i..] == SessionSteps(es[..n])[i..] + [R.Step(SessionOp(Run(es[..n]), es[n]), es[n].now)]
  {
  }

  /** The sessions of a longer run continue those of a shorter one. */
  lemma {:induction false} SessionsContinue(es: seq<Event>, i: nat)
    requires i <= |es|
    ensures Run(es).sessions == R.RunFrom(Run(es[..i]).sessions, SessionSteps(es)[i..])
    decreases |es|
  {
    if i == |es| {
      assert es[..i] == es;
    } else {
      var n := |es| - 1;
      SessionsContinue(es[..n], i);
      PrefixOfPrefix(es, i, n);
      SessionsTail(es, i);
      var last := R.Step(SessionOp(Run(es[..n]), es[n]), es[n].now);
    }
  }

  lemma {:induction false} SessionsSound(es: seq<Event>, now: int)
    requires ClockForward(es) && NotAfter(es, now)
    ensures R.Sound(Run(es).sessions, now)
  {
    StepInstants(es, now);
    RunProjects(es);
    R.RunIsSound(SessionSteps(es), now);
  }

  lemma {:induction false} RevokedByWrite(before: R.Table, u: int, now: int, rest: seq<R.Step>, s: R.Session)
    requires var at := before.(rows := R.AllRevoked(before.rows, u, now));
             s in R.RunFrom(at, rest).rows && s.userId == u && s.id < at.next
    ensures s.revokedAt.Some?
  {
    var at := before.(rows := R.AllRevoked(before.rows, u, now));
    R.RunFromContinues(at, rest, s);
    var r :| r in at.rows && R.Continues(r, s);
    R.PasswordWriteRevokes(before, u, now, r);
  }

  lemma {:induction false} WriteStep(es: seq<Event>, i: nat, u: int)
    requires i < |es| && u in Run(es[..i]).users && u in Run(es[..i + 1]).users
    requires Run(es[..i + 1]).users[u].passwordHash != Run(es[..i]).users[u].passwordHash
    ensures var before := Run(es[..i]).sessions;
            Run(es[..i + 1]).sessions == before.(rows := R.AllRevoked(before.rows, u, es[i].now))
  {
    assert es[..i + 1][..i] == es[..i];
    PasswordChangeRevokes(es[..i], es[i], u);
  }

  /**
   On every run of interleaved steps: when step `i` replaces the password of `u`, by whatever
   path, every session of `u` that existed then is revoked ever after.
   */
  lemma {:induction false} NoSessionSurvivesPasswordChange(es: seq<Event>, i: nat, u: int, s: R.Session)
    requires i < |es| && u in Run(es[..i]).users && u in Run(es[..i + 1]).users
    requires Run(es[..i + 1]).users[u].passwordHash != Run(es[..i]).users[u].passwordHash
    requires s in Run(es).sessions.rows && s.userId == u && s.id < Run(es[..i + 1]).sessions.next
    ensures s.revokedAt.Some?
  {
    WriteStep(es, i, u);
    SessionsContinue(es, i + 1);
    RevokedByWrite(Run(es[..i]).sessions, u, es[i].now, SessionSteps(es)[i + 1..], s);
  }

  /** A session revoked at some point of a run is never usable later, at any instant. */
  lemma {:induction false} RevokedIsNeverUsable(es: seq<Event>, i: nat, s: R.Session, s': R.Session, now: int)
    requires ClockForward(es) && i <= |es|
    requires s in Run(es[..i]).sessions.rows && s.revokedAt.Some?
    requires s' in Run(es).sessions.rows && s'.id == s.id
    ensures s'.revokedAt.Some? && !s'.Usable(now)
  {
    SessionsContinue(es, i);
    PrefixIsSound(es, i);
    var end :| R.Sound(Run(es[..i]).sessions, end);
    R.RevokedStaysRevoked(Run(es[..i]).sessions, end, SessionSteps(es)[i..], s, s');
  }

  lemma {:induction false} PrefixIsSound(es: seq<Event>, i: nat)
    requires ClockForward(es) && i <= |es|
    ensures exists end :: R.Sound(Run(es[..i]).sessions, end)
  {
    var end := if i == 0 then 0 else es[i - 1].now;
    SessionsSound(es[..i], end);
  }

  /** With a clock that never goes back, every account has at most 10 usable sessions at every instant. */
  lemma {:induction false} AtMostTenSessions(es: seq<Event>, u: int, now: int)
    requires ClockForward(es) && NotAfter(es, now)
    ensures |R.ActiveRows(Run(es).sessions.rows, u, now)| <= 10
  {
    StepInstants(es, now);
    RunProjects(es);
    R.AtMostTenUsable(SessionSteps(es), u, now);
  }

  /**
   What a successful refresh means, after any run: its session was opened less than 30 days
   ago whatever its use, it is not revoked, no password write of its account came after, and
   the account exists and is not forbidden.
   */
  lemma {:induction false} RefreshMeans(es: seq<Event>, digest: string, now: int)
    requires ClockForward(es) && NotAfter(es, now) && Refreshed(Run(es), digest, now).Some?
    ensures var s := Refreshed(Run(es), digest, now).value;
            && s in Run(es).sessions.rows && s.hash == digest
            && s.createdAt <= now < s.createdAt + 2_592_000_000
            && s.revokedAt.None? && R.OpenedSinceWrite(R.Live(SessionSteps(es)), s)
            && s.userId in Run(es).users && !Run(es).users[s.userId].forbidden
  {
    SessionsSound(es, now);
    RunProjects(es);
    R.SessionsFollowPasswords(SessionSteps(es), Refreshed(Run(es), digest, now).value);
  }

  // ---------------------------------------------------------------- deleted accounts

  lemma {:induction false} DeletedStaysDeleted(es: seq<Event>, i: nat, u: int)
    requires i < |es| && es[i].DeleteUser? && es[i].id == u && u in Run(es[..i]).users
    ensures u !in Run(es).users && u < Run(es).nextUser
    decreases |es|
  {
    var n := |es| - 1;
    if i == n {
      UserIdsArePast(es[..n]);
    } else {
      assert es[..n][..i] == es[..i];
      DeletedStaysDeleted(es[..n], i, u);
    }
    GoneStaysGone(Run(es[..n]), es[n], u);
  }

  lemma GoneStaysGone(db: Db, e: Event, u: int)
    requires u < db.nextUser && (u !in db.users || e == DeleteUser(u, e.now))
    ensures u !in Next(db, e).users && u < Next(db, e).nextUser
  {
  }
}
