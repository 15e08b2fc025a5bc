/**
 Password reset tokens: issue, invalidation, consumption and purge, and what holds of every
 token over all runs of the table's statements. Issuing a link is three steps of a request,
 which other requests may come between. Times are integer milliseconds.
 */
module ResetTokens {
  import opened Wrappers
  import opened Sequences
  import opened SlidingWindow

  const TTL := 60 * 60 * 1000
  const RETENTION := 30 * 24 * 60 * 60 * 1000
  const HOUR := 60 * 60 * 1000
  const MAX_PER_HOUR := 3

  datatype State = Valid | Expired | Used | Invalidated

  datatype Token = Token(
    userId: int,
    hash: string,
    createdAt: int,
    expiresAt: int,
    consumedAt: Option<int>,
    invalidatedAt: Option<int>)
  {
    function StateAt(now: int): State {
      if consumedAt.Some? then Used
      else if invalidatedAt.Some? then Invalidated
      else if !(expiresAt > now) then Expired
      else Valid
    }

    /** Neither used nor retired, expired or not. */
    predicate Outstanding() {
      consumedAt.None? && invalidatedAt.None?
    }
  }

  function NewToken(userId: int, hash: string, now: int): Token {
    Token(userId, hash, now, now + TTL, None, None)
  }

  function OutstandingFor(userId: int): Token -> bool {
    (t: Token) => t.userId == userId && t.Outstanding()
  }

  function CreatedAfter(userId: int, since: int): Token -> bool {
    (t: Token) => t.userId == userId && t.createdAt > since
  }

  function NotOlder(from: int): Token -> bool {
    (t: Token) => t.createdAt >= from
  }

  function NotOf(userId: int): Token -> bool {
    (t: Token) => t.userId != userId
  }

  function WithHash(hash: string): Token -> bool {
    (t: Token) => t.hash == hash
  }

  /** Every outstanding token of the account is retired. */
  function InvalidatedFor(rows: seq<Token>, userId: int, now: int): (r: seq<Token>)
    ensures |r| == |rows|
  {
    seq(|rows|, i requires 0 <= i < |rows| =>
      if rows[i].userId == userId && rows[i].Outstanding() then rows[i].(invalidatedAt := Some(now)) else rows[i])
  }

  /** The account whose token the conditional UPDATE matches. */
  function Consumable(rows: seq<Token>, hash: string, now: int): Option<int> {
    match FindLast(rows, WithHash(hash))
    case None => None
    case Some(t) => if t.StateAt(now) == Valid then Some(t.userId) else None
  }

  /** The conditional UPDATE: the matched token is consumed. */
  function Spent(rows: seq<Token>, hash: string, now: int): (r: seq<Token>)
    ensures |r| == |rows|
  {
    seq(|rows|, i requires 0 <= i < |rows| =>
      if rows[i].hash == hash && rows[i].StateAt(now) == Valid then rows[i].(consumedAt := Some(now)) else rows[i])
  }

  /** The token part of the consuming transaction. */
  function Consumed(rows: seq<Token>, hash: string, now: int): seq<Token> {
    match Consumable(rows, hash, now)
    case None => rows
    case Some(userId) => InvalidatedFor(Spent(rows, hash, now), userId, now)
  }

  /** The outstanding tokens of an account. */
  function Outstandings(rows: seq<Token>, userId: int): nat {
    Count(rows, OutstandingFor(userId))
  }

  /** The tokens of an account created after `since`. */
  function CountRecent(rows: seq<Token>, userId: int, since: int): nat {
    Count(rows, CreatedAfter(userId, since))
  }

  /** The links of an account created after an instant. */
  ghost function RecentLinks(rows: seq<Token>, userId: int, since: int): set<int> {
    set i | 0 <= i < |rows| && rows[i].userId == userId && rows[i].createdAt > since
  }

  lemma {:induction false} CountRecentIsSize(rows: seq<Token>, userId: int, since: int)
    ensures CountRecent(rows, userId, since) == |RecentLinks(rows, userId, since)|
    ensures Throttled(rows, userId, since + 3_600_000) <==> |RecentLinks(rows, userId, since)| >= 3
  {
    CountIsSize(rows, CreatedAfter(userId, since));
    assert Places(rows, CreatedAfter(userId, since)) == RecentLinks(rows, userId, since);
  }

  /** A link with this digest that was neither used nor retired and has not reached its end. */
  ghost predicate UsableAt(t: Token, hash: string, now: int) {
    t.hash == hash && t.consumedAt.None? && t.invalidatedAt.None? && now < t.expiresAt
  }

  /** What consuming a digest does: a match is a usable link, and in a table of distinct digests any is a match. */
  lemma {:induction false} ConsumeMeans(rows: seq<Token>, hash: string, now: int)
    ensures forall u | Consumable(rows, hash, now) == Some(u) ::
              exists t :: t in rows && UsableAt(t, hash, now) && t.userId == u
    ensures DistinctHashes(rows) ==> forall t | t in rows && UsableAt(t, hash, now) ::
              Consumable(rows, hash, now) == Some(t.userId)
    ensures Consumable(rows, hash, now).None? ==> Consumed(rows, hash, now) == rows
    ensures forall u | Consumable(rows, hash, now) == Some(u) ::
              |Consumed(rows, hash, now)| == |rows| && forall i | 0 <= i < |rows| ::
                Consumed(rows, hash, now)[i] ==
                if UsableAt(rows[i], hash, now) then rows[i].(consumedAt := Some(now))
                else if rows[i].userId == u && rows[i].consumedAt.None? && rows[i].invalidatedAt.None?
                then rows[i].(invalidatedAt := Some(now)) else rows[i]
  {
    var found := FindLast(rows, WithHash(hash));
    assert forall t | t in rows && t.hash == hash :: found.Some?;
  }

  class TokenStore {
    var rows: seq<Token>

    constructor ()
      ensures rows == []
    {
      rows := [];
    }

    method InvalidateForUser(userId: int, now: int)
      modifies this
      ensures |rows| == |old(rows)| && forall i | 0 <= i < |rows| ::
                rows[i] == var t := old(rows)[i];
                           if t.userId == userId && t.consumedAt.None? && t.invalidatedAt.None?
                           then t.(invalidatedAt := Some(now)) else t
      ensures rows == InvalidatedFor(old(rows), userId, now)
    {
      rows := InvalidatedFor(rows, userId, now);
    }

    method Create(userId: int, hash: string, expiresAt: int, now: int)
      modifies this
      ensures rows == old(rows) + [Token(userId, hash, now, expiresAt, None, None)]
    {
      rows := rows + [Token(userId, hash, now, expiresAt, None, None)];
    }

    method PurgeOlderThan(age: int, now: int)
      modifies this
      ensures forall t :: t in rows <==> t in old(rows) && t.createdAt >= now - age
      ensures rows == Select(old(rows), NotOlder(now - age))
    {
      SelectMeaning(rows, NotOlder(now - age));
      rows := Select(rows, NotOlder(now - age));
    }

    /**
     Mints a link, the three statements undisturbed: the new token is stored, no other token of
     the account is outstanding, and other accounts lose only what the purge takes.
     */
    method Issue(userId: int, hash: string, now: int) returns (expiresAt: int)
      modifies this
      ensures expiresAt == now + 3_600_000 && Token(userId, hash, now, expiresAt, None, None) in rows
      ensures forall t | t in rows && t.userId == userId && t.consumedAt.None? && t.invalidatedAt.None? ::
                t == Token(userId, hash, now, expiresAt, None, None)
      ensures forall t: Token | t.userId != userId ::
                t in rows <==> t in old(rows) && t.createdAt >= now - 2_592_000_000
      ensures rows == Select(InvalidatedFor(old(rows), userId, now) + [NewToken(userId, hash, now)],
                             NotOlder(now - RETENTION))
    {
      InvalidateForUser(userId, now);
      ghost var retired := rows;
      OthersStay(old(rows), userId, now);
      expiresAt := now + TTL;
      Create(userId, hash, expiresAt, now);
      SelectMeaning(rows, NotOlder(now - RETENTION));
      assert forall t :: t in rows <==> t in retired || t == NewToken(userId, hash, now);
      PurgeOlderThan(RETENTION, now);
    }

    /** Consumes a token and retires the others of its account; nothing happens without a match. */
    method Consume(hash: string, now: int) returns (userId: Option<int>)
      modifies this
      ensures userId == Consumable(old(rows), hash, now) && rows == Consumed(old(rows), hash, now)
      ensures userId.Some? ==> forall t | t in rows && t.userId == userId.value ::
                t.consumedAt.Some? || t.invalidatedAt.Some?
      ensures |rows| == |old(rows)|
      ensures forall i | 0 <= i < |rows| && old(rows)[i].hash != hash && Some(old(rows)[i].userId) != userId ::
          rows[i] == old(rows)[i]
    {
      userId := Consumable(rows, hash, now);
      if userId.None? {
        return;
      }
      rows := Spent(rows, hash, now);
      InvalidateForUser(userId.value, now);
    }

    method DropUser(userId: int)
      modifies this
      ensures rows == Select(old(rows), NotOf(userId))
    {
      rows := Select(rows, NotOf(userId));
    }
  }

  /** Retiring leaves the account nothing outstanding, and the others their tokens. */
  lemma {:induction false} OthersStay(rows: seq<Token>, userId: int, now: int)
    ensures forall t | t in InvalidatedFor(rows, userId, now) && t.userId == userId :: !t.Outstanding()
    ensures forall t: Token | t.userId != userId :: t in InvalidatedFor(rows, userId, now) <==> t in rows
  {
    var retired := InvalidatedFor(rows, userId, now);
    forall t: Token | t.userId != userId ensures t in retired <==> t in rows {
      if t in rows {
        var i :| 0 <= i < |rows| && rows[i] == t;
        assert retired[i] == t;
      }
    }
  }

  // ---------------------------------------------------------------- steps

  /** How far a request for a link has come: it was let through, it has retired the old links, it has its own. */
  datatype Stage = Admitted | Retired | Served

  datatype Request = Request(userId: int, selfService: bool, stage: Stage)

  /** The stored tokens, and the requests under way. */
  datatype Table = Table(rows: seq<Token>, requests: map<nat, Request>)

  const NOTHING := Table([], map[])

  /** One statement each: a request for a link is `Ask`, `Retire`, `Insert`, and a `Purge`. */
  datatype Op =
    | Nothing
    | Ask(req: nat, userId: int, selfService: bool)
    | Retire(req: nat)
    | Insert(req: nat, hash: string)
    | Purge
    | Invalidate(userId: int)
    | Consume(hash: string)
    | Drop(userId: int)

  datatype Step = Step(op: Op, now: int)

  /** A self-service request is dropped when the account had three links in the last hour. */
  predicate Throttled(rows: seq<Token>, userId: int, now: int) {
    CountRecent(rows, userId, now - HOUR) >= MAX_PER_HOUR
  }

  predicate Admits(t: Table, st: Step) {
    st.op.Ask? && st.op.req !in t.requests && !(st.op.selfService && Throttled(t.rows, st.op.userId, st.now))
  }

  predicate Retires(t: Table, st: Step) {
    st.op.Retire? && st.op.req in t.requests && t.requests[st.op.req].stage == Admitted
  }

  /** The step stores a link for the account. */
  predicate Inserts(t: Table, st: Step, u: int) {
    st.op.Insert? && st.op.req in t.requests && t.requests[st.op.req].stage == Retired
      && t.requests[st.op.req].userId == u
  }

  function RowsAfter(t: Table, st: Step): seq<Token> {
    match st.op
    case Retire(req) => if Retires(t, st) then InvalidatedFor(t.rows, t.requests[req].userId, st.now) else t.rows
    case Insert(req, hash) =>
      if req in t.requests && Inserts(t, st, t.requests[req].userId)
      then t.rows + [NewToken(t.requests[req].userId, hash, st.now)] else t.rows
    case Purge => Select(t.rows, NotOlder(st.now - RETENTION))
    case Invalidate(userId) => InvalidatedFor(t.rows, userId, st.now)
    case Consume(hash) => Consumed(t.rows, hash, st.now)
    case Drop(userId) => Select(t.rows, NotOf(userId))
    case _ => t.rows
  }

  function RequestsAfter(t: Table, st: Step): map<nat, Request> {
    match st.op
    case Ask(req, userId, selfService) =>
      if Admits(t, st) then t.requests[req := Request(userId, selfService, Admitted)] else t.requests
    case Retire(req) => if Retires(t, st) then t.requests[req := t.requests[req].(stage := Retired)] else t.requests
    case Insert(req, _) =>
      if req in t.requests && Inserts(t, st, t.requests[req].userId)
      then t.requests[req := t.requests[req].(stage := Served)] else t.requests
    case _ => t.requests
  }

  function Apply(t: Table, st: Step): Table {
    Table(RowsAfter(t, st), RequestsAfter(t, st))
  }

  function Run(steps: seq<Step>): Table {
    if steps == [] then NOTHING else Apply(Run(steps[..|steps| - 1]), steps[|steps| - 1])
  }

  ghost predicate ClockForward(steps: seq<Step>) {
    forall i, j | 0 <= i < j < |steps| :: steps[i].now <= steps[j].now
  }

  /** A consuming step that matched its token. */
  datatype Match = Match(hash: string, userId: int, at: int)

  /** All digests ever stored and all matches, in order. */
  datatype History = History(table: Table, issued: set<string>, matches: seq<Match>)

  function Record(h: History, st: Step): History {
    var t := Apply(h.table, st);
    match st.op
    case Insert(_, hash) => History(t, h.issued + {hash}, h.matches)
    case Consume(hash) =>
      var u := Consumable(h.table.rows, hash, st.now);
      if u.Some? then History(t, h.issued, h.matches + [Match(hash, u.value, st.now)]) else h
    case _ => h.(table := t)
  }

  function Recorded(steps: seq<Step>): (h: History)
    ensures h.table == Run(steps)
  {
    if steps == [] then History(NOTHING, {}, []) else Record(Recorded(steps[..|steps| - 1]), steps[|steps| - 1])
  }

  /** A new link carries a digest never used before. */
  ghost predicate FreshDigests(steps: seq<Step>) {
    forall i | 0 <= i < |steps| && steps[i].op.Insert? :: steps[i].op.hash !in Recorded(steps[..i]).issued
  }

  lemma {:induction false} FreshPrefix(steps: seq<Step>, n: nat)
    requires FreshDigests(steps) && n <= |steps|
    ensures FreshDigests(steps[..n])
  {
    forall i | 0 <= i < n && steps[..n][i].op.Insert?
      ensures steps[..n][i].op.hash !in Recorded(steps[..n][..i]).issued
    {
      PrefixOfPrefix(steps, i, n);
    }
  }

  // ---------------------------------------------------------------- rows one by one

  /** `t'` is the same token later on. */
  predicate Continues(t: Token, t': Token) {
    && t'.userId == t.userId && t'.hash == t.hash && t'.createdAt == t.createdAt && t'.expiresAt == t.expiresAt
    && (t.consumedAt.Some? ==> t'.consumedAt == t.consumedAt)
    && (t.invalidatedAt.Some? ==> t'.invalidatedAt == t.invalidatedAt)
  }

  lemma {:induction false} InvalidatedContinues(rows: seq<Token>, userId: int, now: int, t': Token)
    requires t' in InvalidatedFor(rows, userId, now)
    ensures exists t :: t in rows && Continues(t, t') && t'.consumedAt == t.consumedAt
  {
    var rows' := InvalidatedFor(rows, userId, now);
    var i :| 0 <= i < |rows'| && rows'[i] == t';
    assert rows[i] in rows && Continues(rows[i], t');
  }

  /** A token after a consumption: consumed by it, or as it was up to a first invalidation. */
  lemma {:induction false} ConsumedContinues(rows: seq<Token>, hash: string, now: int, t': Token)
    requires t' in Consumed(rows, hash, now)
    ensures exists t :: t in rows && Continues(t, t')
              && t'.consumedAt == if t.hash == hash && t.StateAt(now) == Valid && Consumable(rows, hash, now).Some?
                                  then Some(now) else t.consumedAt
  {
    var u := Consumable(rows, hash, now);
    if u.Some? {
      InvalidatedContinues(Spent(rows, hash, now), u.value, now, t');
      var s :| s in Spent(rows, hash, now) && Continues(s, t') && t'.consumedAt == s.consumedAt;
      var i :| 0 <= i < |rows| && Spent(rows, hash, now)[i] == s;
      assert rows[i] in rows && Continues(rows[i], t');
    } else {
      assert Continues(t', t');
    }
  }

  /** A row after any step continues an earlier one, or is the link the step stored. */
  lemma StepContinues(t: Table, st: Step, r': Token)
    requires r' in RowsAfter(t, st)
    ensures || (exists r :: r in t.rows && Continues(r, r') && (!st.op.Consume? ==> r'.consumedAt == r.consumedAt))
            || (Inserts(t, st, r'.userId) && r' == NewToken(r'.userId, st.op.hash, st.now))
    ensures st.op.Drop? ==> r'.userId != st.op.userId
  {
    match st.op {
      case Retire(req) => if Retires(t, st) { InvalidatedContinues(t.rows, t.requests[req].userId, st.now, r'); }
      case Invalidate(userId) => InvalidatedContinues(t.rows, userId, st.now, r');
      case Consume(hash) => ConsumedContinues(t.rows, hash, st.now, r');
      case Purge => SelectMeaning(t.rows, NotOlder(st.now - RETENTION));
      case Drop(userId) => SelectMeaning(t.rows, NotOf(userId));
      case _ =>
    }
    if r' in t.rows { assert Continues(r', r'); }
  }

  // ---------------------------------------------------------------- single use

  ghost predicate DistinctHashes(rows: seq<Token>) {
    forall i, j | 0 <= i < j < |rows| :: rows[i].hash != rows[j].hash
  }

  predicate MatchedBy(matches: seq<Match>, hash: string) {
    exists i | 0 <= i < |matches| :: matches[i].hash == hash
  }

  /** A stored token is known, lives an hour, and is marked consumed exactly when a step matched it. */
  ghost predicate SoundToken(h: History, t: Token) {
    && t.hash in h.issued && t.expiresAt == t.createdAt + TTL
    && (t.consumedAt.None? ==> !MatchedBy(h.matches, t.hash))
    && (t.consumedAt.Some? ==> Match(t.hash, t.userId, t.consumedAt.value) in h.matches)
  }

  /** What every step keeps: see the theorems below. */
  ghost predicate SingleUse(h: History) {
    && (forall t | t in h.table.rows :: SoundToken(h, t))
    && (forall i | 0 <= i < |h.matches| :: h.matches[i].hash in h.issued)
    && (forall i, j | 0 <= i < j < |h.matches| :: h.matches[i].hash != h.matches[j].hash)
  }

  lemma ConsumeKeepsSingleUse(h: History, hash: string, now: int)
    requires SingleUse(h) && DistinctHashes(h.table.rows) && Consumable(h.table.rows, hash, now).Some?
    ensures SingleUse(Record(h, Step(Consume(hash), now)))
  {
    var h' := Record(h, Step(Consume(hash), now));
    var live := FindLast(h.table.rows, WithHash(hash)).value;
    assert SoundToken(h, live) && !MatchedBy(h.matches, hash);
    assert h'.matches[|h.matches|] == Match(hash, live.userId, now);
    forall t' | t' in h'.table.rows ensures SoundToken(h', t') {
      ConsumedContinues(h.table.rows, hash, now, t');
      var t :| t in h.table.rows && Continues(t, t')
               && t'.consumedAt == if t.hash == hash && t.StateAt(now) == Valid then Some(now) else t.consumedAt;
      assert SoundToken(h, t);
      if t.hash == hash { assert t == live; }
    }
  }

  lemma StepKeepsSingleUse(h: History, st: Step)
    requires SingleUse(h) && DistinctHashes(h.table.rows) && (st.op.Insert? ==> st.op.hash !in h.issued)
    ensures SingleUse(Record(h, st))
  {
    if st.op.Consume? {
      if Consumable(h.table.rows, st.op.hash, st.now).Some? { ConsumeKeepsSingleUse(h, st.op.hash, st.now); }
    } else {
      var h' := Record(h, st);
      forall t' | t' in h'.table.rows ensures SoundToken(h', t') {
        StepContinues(h.table, st, t');
        if t :| t in h.table.rows && Continues(t, t') && t'.consumedAt == t.consumedAt {
          assert SoundToken(h, t);
        }
      }
    }
  }

  lemma {:induction false} SelectKeepsDistinct(rows: seq<Token>, p: Token -> bool)
    requires DistinctHashes(rows)
    ensures DistinctHashes(Select(rows, p))
  {
    if rows != [] {
      var n := |rows| - 1;
      SelectKeepsDistinct(rows[..n], p);
      SelectMeaning(rows[..n], p);
      forall i | 0 <= i < |Select(rows[..n], p)| ensures Select(rows[..n], p)[i].hash != rows[n].hash {
        assert Select(rows[..n], p)[i] in rows[..n];
      }
    }
  }

  lemma InsertKeepsDistinct(h: History, st: Step)
    requires SingleUse(h) && DistinctHashes(h.table.rows) && st.op.Insert? && st.op.hash !in h.issued
    ensures DistinctHashes(RowsAfter(h.table, st))
  {
    forall i | 0 <= i < |h.table.rows| ensures h.table.rows[i].hash != st.op.hash {
      assert SoundToken(h, h.table.rows[i]);
    }
  }

  lemma StepKeepsDistinct(h: History, st: Step)
    requires SingleUse(h) && DistinctHashes(h.table.rows) && (st.op.Insert? ==> st.op.hash !in h.issued)
    ensures DistinctHashes(RowsAfter(h.table, st))
  {
    match st.op {
      case Insert(_, _) => InsertKeepsDistinct(h, st);
      case Purge => SelectKeepsDistinct(h.table.rows, NotOlder(st.now - RETENTION));
      case Drop(userId) => SelectKeepsDistinct(h.table.rows, NotOf(userId));
      case _ =>
    }
  }

  /** Every stored token was made to end an hour after it was made. */
  lemma {:induction false} TokensLiveAnHour(steps: seq<Step>)
    ensures forall r | r in Run(steps).rows :: r.expiresAt == r.createdAt + 3_600_000
  {
    if steps != [] {
      var n := |steps| - 1;
      TokensLiveAnHour(steps[..n]);
      forall r' | r' in Run(steps).rows ensures r'.expiresAt == r'.createdAt + 3_600_000 {
        StepContinues(Run(steps[..n]), steps[n], r');
      }
    }
  }

  lemma {:induction false} TokensArePast(steps: seq<Step>, now: int)
    requires ClockForward(steps) && forall st | st in steps :: st.now <= now
    ensures forall r | r in Run(steps).rows :: r.createdAt <= now
  {
    if steps != [] {
      var n := |steps| - 1;
      TokensArePast(steps[..n], steps[n].now);
      forall r' | r' in Run(steps).rows ensures r'.createdAt <= now {
        StepContinues(Run(steps[..n]), steps[n], r');
      }
    }
  }

  /**
   On every run, whatever the interleaving: a token is matched by at most one consuming step,
   ever, and a stored token is marked consumed exactly when one matched it, at that instant.
   */
  lemma {:induction false} TokensAreSingleUse(steps: seq<Step>)
    requires FreshDigests(steps)
    ensures SingleUse(Recorded(steps)) && DistinctHashes(Run(steps).rows)
  {
    if steps != [] {
      var n := |steps| - 1;
      FreshPrefix(steps, n);
      TokensAreSingleUse(steps[..n]);
      StepKeepsSingleUse(Recorded(steps[..n]), steps[n]);
      StepKeepsDistinct(Recorded(steps[..n]), steps[n]);
    }
  }

  /** Step `i` is a consuming step that matches `m`. */
  predicate MatchesAt(steps: seq<Step>, i: nat, m: Match)
    requires i < |steps|
  {
    steps[i] == Step(Consume(m.hash), m.at) && Consumable(Run(steps[..i]).rows, m.hash, m.at) == Some(m.userId)
  }

  lemma {:induction false} MatchesAtPrefix(steps: seq<Step>, n: nat, i: nat, m: Match)
    requires i < n <= |steps|
    ensures MatchesAt(steps[..n], i, m) <==> MatchesAt(steps, i, m)
  {
    PrefixOfPrefix(steps, i, n);
  }

  /** The recorded matches are the matching steps. */
  lemma {:induction false} MatchesAreSteps(steps: seq<Step>, m: Match)
    ensures m in Recorded(steps).matches <==> exists i :: 0 <= i < |steps| && MatchesAt(steps, i, m)
  {
    if steps != [] {
      var n := |steps| - 1;
      MatchesAreSteps(steps[..n], m);
      forall i | 0 <= i < n ensures MatchesAt(steps[..n], i, m) <==> MatchesAt(steps, i, m) {
        MatchesAtPrefix(steps, n, i, m);
      }
      if MatchesAt(steps, n, m) {
        assert Recorded(steps).matches[|Recorded(steps).matches| - 1] == m;
      }
    }
  }

  /** Of two consuming steps on one digest, only one can match. */
  lemma {:induction false} OneMatchPerToken(steps: seq<Step>, i: nat, j: nat, m: Match, m': Match)
    requires FreshDigests(steps) && i < j < |steps|
    requires MatchesAt(steps, i, m) && MatchesAt(steps, j, m')
    ensures m.hash != m'.hash
  {
    FreshPrefix(steps, j);
    TokensAreSingleUse(steps[..j]);
    MatchesAtPrefix(steps, j, i, m);
    MatchesAreSteps(steps[..j], m);
    var t := FindLast(Run(steps[..j]).rows, WithHash(m'.hash)).value;
    assert SoundToken(Recorded(steps[..j]), t);
  }

  /** A match needs its token stored, unexpired, unused and not invalidated. */
  lemma MatchNeedsValidToken(h: History, st: Step)
    requires |Record(h, st).matches| > |h.matches|
    ensures exists t :: t in h.table.rows && st.op == Consume(t.hash) && UsableAt(t, t.hash, st.now)
              && Record(h, st).matches == h.matches + [Match(t.hash, t.userId, st.now)]
  {
    var t := FindLast(h.table.rows, WithHash(st.op.hash)).value;
    assert t in h.table.rows;
  }

  // ---------------------------------------------------------------- requests

  /** Step `i` is where the request was let through. */
  predicate AdmittedAt(steps: seq<Step>, i: nat, req: nat)
    requires i < |steps|
  {
    steps[i].op.Ask? && steps[i].op.req == req && Admits(Run(steps[..i]), steps[i])
  }

  /** Step `i` is where the request retired the old links. */
  predicate RetiredAt(steps: seq<Step>, i: nat, req: nat)
    requires i < |steps|
  {
    steps[i].op == Retire(req) && Retires(Run(steps[..i]), steps[i])
  }

  lemma {:induction false} WasAdmitted(steps: seq<Step>, req: nat) returns (i: nat)
    requires req in Run(steps).requests
    ensures i < |steps| && AdmittedAt(steps, i, req)
    ensures var r := Run(steps).requests[req];
            steps[i].op.userId == r.userId && steps[i].op.selfService == r.selfService
  {
    var n := |steps| - 1;
    if req in Run(steps[..n]).requests {
      i := WasAdmitted(steps[..n], req);
      PrefixOfPrefix(steps, i, n);
    } else {
      i := n;
    }
  }

  lemma {:induction false} WasRetired(steps: seq<Step>, req: nat) returns (i: nat)
    requires req in Run(steps).requests && Run(steps).requests[req].stage == Retired
    ensures i < |steps| && RetiredAt(steps, i, req)
    ensures Run(steps[..i]).requests[req].userId == Run(steps).requests[req].userId
  {
    var n := |steps| - 1;
    if RetiredAt(steps, n, req) {
      i := n;
    } else {
      i := WasRetired(steps[..n], req);
      PrefixOfPrefix(steps, i, n);
    }
  }

  // ---------------------------------------------------------------- one outstanding token

  lemma {:induction false} InvalidatedOutstandings(rows: seq<Token>, userId: int, now: int, u: int)
    ensures Outstandings(InvalidatedFor(rows, userId, now), u) <= if u == userId then 0 else Outstandings(rows, u)
  {
    if u == userId {
      CountNone(InvalidatedFor(rows, userId, now), OutstandingFor(u));
    } else {
      CountAtMost(rows, OutstandingFor(u), InvalidatedFor(rows, userId, now), OutstandingFor(u));
    }
  }

  lemma {:induction false} ConsumedOutstandings(rows: seq<Token>, hash: string, now: int, u: int)
    ensures Outstandings(Consumed(rows, hash, now), u) <= Outstandings(rows, u)
    ensures Consumable(rows, hash, now) == Some(u) ==> Outstandings(Consumed(rows, hash, now), u) == 0
  {
    if Consumable(rows, hash, now).Some? {
      CountAtMost(rows, OutstandingFor(u), Spent(rows, hash, now), OutstandingFor(u));
      InvalidatedOutstandings(Spent(rows, hash, now), Consumable(rows, hash, now).value, now, u);
    }
  }

  /** What it means to have no outstanding link, and to have at most one. */
  lemma {:induction false} OutstandingsMean(rows: seq<Token>, u: int)
    ensures Outstandings(rows, u) == 0
       <==> forall t | t in rows && t.userId == u :: t.consumedAt.Some? || t.invalidatedAt.Some?
    ensures Outstandings(rows, u) <= 1
       <==> forall i, j | 0 <= i < j < |rows| && rows[i].userId == u && rows[j].userId == u ::
              rows[i].consumedAt.Some? || rows[i].invalidatedAt.Some?
              || rows[j].consumedAt.Some? || rows[j].invalidatedAt.Some?
  {
    CountFew(rows, OutstandingFor(u));
  }

  /** Only storing a link adds an outstanding one. */
  lemma StepOutstandings(t: Table, st: Step, u: int)
    ensures Inserts(t, st, u) ==> Outstandings(RowsAfter(t, st), u) == Outstandings(t.rows, u) + 1
    ensures !Inserts(t, st, u) ==> Outstandings(RowsAfter(t, st), u) <= Outstandings(t.rows, u)
  {
    match st.op {
      case Retire(req) => if Retires(t, st) { InvalidatedOutstandings(t.rows, t.requests[req].userId, st.now, u); }
      case Insert(req, hash) =>
        if req in t.requests { CountPush(t.rows, NewToken(t.requests[req].userId, hash, st.now), OutstandingFor(u)); }
      case Purge => CountSelected(t.rows, NotOlder(st.now - RETENTION), OutstandingFor(u));
      case Invalidate(userId) => InvalidatedOutstandings(t.rows, userId, st.now, u);
      case Consume(hash) => ConsumedOutstandings(t.rows, hash, st.now, u);
      case Drop(userId) => CountSelected(t.rows, NotOf(userId), OutstandingFor(u));
      case _ =>
    }
  }

  /** At no point of the run does the account have two outstanding links. */
  ghost predicate NeverTwo(steps: seq<Step>, u: int) {
    forall k | 0 <= k <= |steps| :: Outstandings(Run(steps[..k]).rows, u) <= 1
  }

  /** Every link of the account is stored while it has no outstanding one. */
  ghost predicate InsertsFindNone(steps: seq<Step>, u: int) {
    forall k | 0 <= k < |steps| && Inserts(Run(steps[..k]), steps[k], u) :: Outstandings(Run(steps[..k]).rows, u) == 0
  }

  lemma {:induction false} RunNext(steps: seq<Step>, k: nat)
    requires k < |steps|
    ensures Run(steps[..k + 1]) == Apply(Run(steps[..k]), steps[k])
  {
    PrefixOfPrefix(steps, k, k + 1);
  }

  lemma {:induction false} NeverTwoUpTo(steps: seq<Step>, u: int, k: nat)
    requires InsertsFindNone(steps, u) && k <= |steps|
    ensures Outstandings(Run(steps[..k]).rows, u) <= 1
  {
    if k > 0 {
      NeverTwoUpTo(steps, u, k - 1);
      RunNext(steps, k - 1);
      StepOutstandings(Run(steps[..k - 1]), steps[k - 1], u);
    }
  }

  /**
   "Issuing a new link makes every earlier one unusable" holds over a run, in the sense that
   the account never has two outstanding links, if and only if no link of it is stored while
   another is outstanding.
   */
  lemma {:induction false} OneLinkIff(steps: seq<Step>, u: int)
    ensures NeverTwo(steps, u) <==> InsertsFindNone(steps, u)
  {
    if InsertsFindNone(steps, u) {
      forall k | 0 <= k <= |steps| ensures Outstandings(Run(steps[..k]).rows, u) <= 1 {
        NeverTwoUpTo(steps, u, k);
      }
    }
    if NeverTwo(steps, u) {
      forall k | 0 <= k < |steps| && Inserts(Run(steps[..k]), steps[k], u)
        ensures Outstandings(Run(steps[..k]).rows, u) == 0
      {
        RunNext(steps, k);
        StepOutstandings(Run(steps[..k]), steps[k], u);
        assert Outstandings(Run(steps[..k + 1]).rows, u) <= 1;
      }
    }
  }

  /** No link of the account is stored between the two writes of another of its requests. */
  ghost predicate WritesApart(steps: seq<Step>, u: int) {
    forall i, j, k | 0 <= i < j < k < |steps| && steps[k].op.Insert? && RetiredAt(steps, i, steps[k].op.req) ::
      Inserts(Run(steps[..k]), steps[k], u) ==> !Inserts(Run(steps[..j]), steps[j], u)
  }

  lemma {:induction false} NoneUntilInsert(steps: seq<Step>, u: int, i: nat, k: nat)
    requires i <= k <= |steps| && Outstandings(Run(steps[..i]).rows, u) == 0
    requires forall j | i <= j < k :: !Inserts(Run(steps[..j]), steps[j], u)
    ensures Outstandings(Run(steps[..k]).rows, u) == 0
  {
    if i < k {
      NoneUntilInsert(steps, u, i, k - 1);
      RunNext(steps, k - 1);
      StepOutstandings(Run(steps[..k - 1]), steps[k - 1], u);
    }
  }

  lemma {:induction false} NoneAfterRetire(steps: seq<Step>, i: nat, req: nat)
    requires i < |steps| && RetiredAt(steps, i, req)
    ensures Outstandings(Run(steps[..i + 1]).rows, Run(steps[..i]).requests[req].userId) == 0
  {
    RunNext(steps, i);
    var u := Run(steps[..i]).requests[req].userId;
    InvalidatedOutstandings(Run(steps[..i]).rows, u, steps[i].now, u);
  }

  lemma {:induction false} StoresAlone(steps: seq<Step>, u: int, k: nat)
    requires WritesApart(steps, u) && k < |steps| && Inserts(Run(steps[..k]), steps[k], u)
    ensures Outstandings(Run(steps[..k]).rows, u) == 0
  {
    var i := WasRetired(steps[..k], steps[k].op.req);
    PrefixOfPrefix(steps, i, k);
    assert RetiredAt(steps, i, steps[k].op.req);
    NoneAfterRetire(steps, i, steps[k].op.req);
    NoneUntilInsert(steps, u, i + 1, k);
  }

  /** Hence one link at most when the writes of the account's requests do not overlap, whatever else does. */
  lemma {:induction false} WritesApartOneLink(steps: seq<Step>, u: int)
    requires WritesApart(steps, u)
    ensures NeverTwo(steps, u)
  {
    forall k | 0 <= k < |steps| && Inserts(Run(steps[..k]), steps[k], u)
      ensures Outstandings(Run(steps[..k]).rows, u) == 0
    {
      StoresAlone(steps, u, k);
    }
    OneLinkIff(steps, u);
  }

  /** Right after a completed reset the account has none. */
  lemma {:induction false} NoneAfterReset(rows: seq<Token>, hash: string, now: int)
    requires Consumable(rows, hash, now).Some?
    ensures forall t | t in Consumed(rows, hash, now) && t.userId == Consumable(rows, hash, now).value ::
              t.consumedAt.Some? || t.invalidatedAt.Some?
  {
    ConsumedOutstandings(rows, hash, now, Consumable(rows, hash, now).value);
    OutstandingsMean(Consumed(rows, hash, now), Consumable(rows, hash, now).value);
  }

  lemma {:induction false} PurgeSpares(rows: seq<Token>, now: int, t: Token)
    requires t in rows && t.expiresAt == t.createdAt + TTL && t.StateAt(now) == Valid
    ensures t in Select(rows, NotOlder(now - RETENTION))
  {
    SelectMeaning(rows, NotOlder(now - RETENTION));
  }

  lemma {:induction false} TokensExpire(steps: seq<Step>)
    requires FreshDigests(steps)
    ensures forall t | t in Run(steps).rows :: t.expiresAt == t.createdAt + TTL
  {
    TokensAreSingleUse(steps);
    forall t | t in Run(steps).rows ensures t.expiresAt == t.createdAt + TTL {
      assert SoundToken(Recorded(steps), t);
    }
  }

  /** The purge deletes no usable token: it looks 30 days back, a token lives 60 minutes. */
  lemma {:induction false} PurgeSparesUsable(steps: seq<Step>, now: int, t: Token)
    requires FreshDigests(steps) && t in Run(steps).rows
    requires t.consumedAt.None? && t.invalidatedAt.None? && now < t.expiresAt
    ensures t in Select(Run(steps).rows, NotOlder(now - 2_592_000_000))
  {
    TokensExpire(steps);
    PurgeSpares(Run(steps).rows, now, t);
  }

  // ---------------------------------------------------------------- self-service quota

  /** The step stores a self-service link for the account. */
  predicate Serves(t: Table, st: Step, u: int) {
    Inserts(t, st, u) && t.requests[st.op.req].selfService
  }

  /** The instants of the self-service links of an account. */
  function SelfServed(steps: seq<Step>, u: int): seq<int> {
    if steps == [] then [] else
    var n := |steps| - 1;
    SelfServed(steps[..n], u) + if Serves(Run(steps[..n]), steps[n], u) then [steps[n].now] else []
  }

  lemma {:induction false} ServedNext(steps: seq<Step>, u: int, k: nat)
    requires k < |steps|
    ensures SelfServed(steps[..k + 1], u) ==
            SelfServed(steps[..k], u) + if Serves(Run(steps[..k]), steps[k], u) then [steps[k].now] else []
  {
    PrefixOfPrefix(steps, k, k + 1);
  }

  function ServedInLastHour(served: seq<int>, now: int): nat {
    |Kept(served, now, 3_599_999)|
  }

  /** At most three self-service links in any hour: in any 3,600,000 successive milliseconds. */
  ghost predicate WithinQuota(steps: seq<Step>, u: int) {
    Bounded(3, 3_599_999, SelfServed(steps, u))
  }

  /** Every self-service link is stored while the account had fewer than three in the last hour. */
  ghost predicate ServesWithinQuota(steps: seq<Step>, u: int) {
    forall k | 0 <= k < |steps| && Serves(Run(steps[..k]), steps[k], u) ::
      ServedInLastHour(SelfServed(steps[..k], u), steps[k].now) < 3
  }

  lemma {:induction false} SelfServedSorted(steps: seq<Step>, u: int, now: int)
    requires ClockForward(steps) && forall st | st in steps :: st.now <= now
    ensures Sorted(SelfServed(steps, u)) && forall i | 0 <= i < |SelfServed(steps, u)| :: SelfServed(steps, u)[i] <= now
  {
    if steps != [] {
      SelfServedSorted(steps[..|steps| - 1], u, steps[|steps| - 1].now);
    }
  }

  lemma {:induction false} ServesPrefix(steps: seq<Step>, u: int)
    requires steps != []
    ensures var n := |steps| - 1;
            ServesWithinQuota(steps, u) <==>
              ServesWithinQuota(steps[..n], u)
              && (Serves(Run(steps[..n]), steps[n], u)
                ==> ServedInLastHour(SelfServed(steps[..n], u), steps[n].now) < 3)
  {
    var n := |steps| - 1;
    assert forall k | 0 <= k <= n :: steps[..n][..k] == steps[..k];
    assert forall k | 0 <= k < n :: steps[..n][k] == steps[k];
    if ServesWithinQuota(steps, u) {
      forall k | 0 <= k < n && Serves(Run(steps[..n][..k]), steps[..n][k], u)
        ensures ServedInLastHour(SelfServed(steps[..n][..k], u), steps[..n][k].now) < 3
      {
        assert Serves(Run(steps[..k]), steps[k], u);
      }
    }
  }

  lemma {:induction false} ServedAdmittedIff(steps: seq<Step>, u: int)
    ensures SlidingWindow.Admitted(3, 3_599_999, SelfServed(steps, u)) <==> ServesWithinQuota(steps, u)
  {
    if steps != [] {
      var n := |steps| - 1;
      var served := SelfServed(steps[..n], u);
      ServedAdmittedIff(steps[..n], u);
      ServesPrefix(steps, u);
      AdmittedStep(3, 3_599_999, served, Serves(Run(steps[..n]), steps[n], u), steps[n].now);
    }
  }

  /**
   The quota is checked when a request asks and spent when its link is stored. Over every run
   it holds if and only if it would have held at the instant of storing, each time.
   */
  lemma {:induction false} QuotaIff(steps: seq<Step>, u: int)
    requires ClockForward(steps)
    ensures WithinQuota(steps, u) <==> ServesWithinQuota(steps, u)
  {
    if steps != [] {
      SelfServedSorted(steps, u, steps[|steps| - 1].now);
    }
    ServedAdmittedIff(steps, u);
    AdmittedIff(3, 3_599_999, SelfServed(steps, u));
  }

  /** The table knows of every recent self-service link. */
  ghost predicate Remembers(rows: seq<Token>, served: seq<int>, u: int, now: int) {
    forall later | now <= later :: ServedInLastHour(served, later) <= CountRecent(rows, u, later - HOUR)
  }

  lemma StepCounts(t: Table, st: Step, u: int, later: int)
    requires st.now <= later && st.op != Drop(u)
    ensures CountRecent(RowsAfter(t, st), u, later - HOUR)
         == CountRecent(t.rows, u, later - HOUR) + if Inserts(t, st, u) && later - st.now < HOUR then 1 else 0
  {
    var p := CreatedAfter(u, later - HOUR);
    match st.op {
      case Insert(req, hash) =>
        if req in t.requests { CountPush(t.rows, NewToken(t.requests[req].userId, hash, st.now), p); }
      case Purge => CountSelected(t.rows, NotOlder(st.now - RETENTION), p);
      case Drop(userId) => CountSelected(t.rows, NotOf(userId), p);
      case _ => CountSame(t.rows, RowsAfter(t, st), p);
    }
  }

  lemma {:induction false} ServedPush(served: seq<int>, serves: bool, now: int, later: int)
    ensures ServedInLastHour(served + if serves then [now] else [], later)
         == ServedInLastHour(served, later) + if serves && later - now < HOUR then 1 else 0
  {
    if serves {
      assert (served + [now])[..|served|] == served;
    } else {
      assert served + [] == served;
    }
  }

  lemma {:induction false} StepRemembers(t: Table, st: Step, served: seq<int>, u: int)
    requires Remembers(t.rows, served, u, st.now) && st.op != Drop(u)
    ensures Remembers(RowsAfter(t, st), served + if Serves(t, st, u) then [st.now] else [], u, st.now)
  {
    var served' := served + if Serves(t, st, u) then [st.now] else [];
    forall later | st.now <= later
      ensures ServedInLastHour(served', later) <= CountRecent(RowsAfter(t, st), u, later - HOUR)
    {
      assert ServedInLastHour(served, later) <= CountRecent(t.rows, u, later - HOUR);
      StepCounts(t, st, u, later);
      ServedPush(served, Serves(t, st, u), st.now, later);
    }
  }

  predicate Dropped(steps: seq<Step>, u: int) {
    exists i | 0 <= i < |steps| :: steps[i].op == Drop(u)
  }

  lemma {:induction false} TableRemembers(steps: seq<Step>, u: int, now: int)
    requires ClockForward(steps) && !Dropped(steps, u) && forall st | st in steps :: st.now <= now
    ensures Remembers(Run(steps).rows, SelfServed(steps, u), u, now)
  {
    if steps != [] {
      var n := |steps| - 1;
      forall i | 0 <= i < n ensures steps[..n][i].op != Drop(u) {
        assert steps[i].op != Drop(u);
      }
      TableRemembers(steps[..n], u, steps[n].now);
      StepRemembers(Run(steps[..n]), steps[n], SelfServed(steps[..n], u), u);
    }
  }

  /** No link is stored for an account after its deletion. */
  ghost predicate NeverReused(steps: seq<Step>, u: int) {
    forall i, j | 0 <= i < j < |steps| && steps[i].op == Drop(u) :: !Inserts(Run(steps[..j]), steps[j], u)
  }

  /** No self-service link of the account is stored between the count and the link of another request. */
  ghost predicate RequestsApart(steps: seq<Step>, u: int) {
    forall i, j, k | 0 <= i < j < k < |steps| && steps[k].op.Insert? && AdmittedAt(steps, i, steps[k].op.req) ::
      Serves(Run(steps[..k]), steps[k], u) ==> !Serves(Run(steps[..j]), steps[j], u)
  }

  lemma {:induction false} ServedSame(steps: seq<Step>, u: int, i: nat, k: nat)
    requires i <= k <= |steps| && forall j | i <= j < k :: !Serves(Run(steps[..j]), steps[j], u)
    ensures SelfServed(steps[..k], u) == SelfServed(steps[..i], u)
  {
    if i < k {
      ServedSame(steps, u, i, k - 1);
      ServedNext(steps, u, k - 1);
      assert SelfServed(steps[..k - 1], u) + [] == SelfServed(steps[..k - 1], u);
    }
  }

  /** What the count of a request saw bounds what is there when its link is stored, if none came between. */
  lemma {:induction false} CountStillHolds(steps: seq<Step>, u: int, i: nat, k: nat)
    requires ClockForward(steps) && i < k < |steps| && !Dropped(steps[..i], u)
    requires !Throttled(Run(steps[..i]).rows, u, steps[i].now)
    requires forall j | i <= j < k :: !Serves(Run(steps[..j]), steps[j], u)
    ensures ServedInLastHour(SelfServed(steps[..k], u), steps[k].now) < 3
  {
    TableRemembers(steps[..i], u, steps[i].now);
    assert ServedInLastHour(SelfServed(steps[..i], u), steps[i].now)
        <= CountRecent(Run(steps[..i]).rows, u, steps[i].now - HOUR);
    ServedSame(steps, u, i, k);
    KeptShrinks(SelfServed(steps[..i], u), steps[i].now, steps[k].now, 3_599_999);
  }

  /**
   Hence at most 3 self-service links in any hour when the account's own requests do not
   overlap, with any number of links of administrators, consumptions, invalidations and purges
   in between.
   */
  lemma {:induction false} RequestsApartWithinQuota(steps: seq<Step>, u: int)
    requires ClockForward(steps) && NeverReused(steps, u) && RequestsApart(steps, u)
    ensures WithinQuota(steps, u)
  {
    forall k | 0 <= k < |steps| && Serves(Run(steps[..k]), steps[k], u)
      ensures ServedInLastHour(SelfServed(steps[..k], u), steps[k].now) < 3
    {
      var i := WasAdmitted(steps[..k], steps[k].op.req);
      PrefixOfPrefix(steps, i, k);
      assert AdmittedAt(steps, i, steps[k].op.req);
      CountStillHolds(steps, u, i, k);
    }
    QuotaIff(steps, u);
  }
}
