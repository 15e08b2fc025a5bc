/**
 Remembered sessions: creation under a cap, revocation, and what holds of every session over
 all runs of the table's write paths. Times are integer milliseconds.
 */
module RememberSessions {
  import opened Wrappers
  import opened Sequences

  const LIFETIME := 30 * 24 * 60 * 60 * 1000
  const MAX_SESSIONS := 10

  datatype Session = Session(
    id: nat,
    userId: int,
    hash: string,
    createdAt: int,
    expiresAt: int,
    lastUsedAt: Option<int>,
    revokedAt: Option<int>)
  {
    predicate Usable(now: int) {
      revokedAt.None? && now < expiresAt
    }
  }

  /** The rows in insertion order, and the next id. */
  datatype Table = Table(rows: seq<Session>, next: nat)

  predicate ActiveFor(s: Session, userId: int, now: int) {
    s.userId == userId && s.Usable(now)
  }

  /** The order of `created_at, id`. */
  predicate Newer(a: Session, b: Session) {
    a.createdAt > b.createdAt || (a.createdAt == b.createdAt && a.id > b.id)
  }

  /** How many active sessions of the account come before `s` in `ORDER BY created_at DESC, id DESC`. */
  function CountNewer(rows: seq<Session>, userId: int, now: int, s: Session): nat {
    if rows == [] then 0 else
    var r := rows[|rows| - 1];
    CountNewer(rows[..|rows| - 1], userId, now, s) + if ActiveFor(r, userId, now) && Newer(r, s) then 1 else 0
  }

  /** The rows of the active sessions of an account. */
  ghost function ActiveRows(rows: seq<Session>, userId: int, now: int): set<int> {
    set i | 0 <= i < |rows| && rows[i].userId == userId && rows[i].revokedAt.None? && now < rows[i].expiresAt
  }

  /** Those of them opened after `s`, and at the same instant those with a larger id. */
  ghost function NewerRows(rows: seq<Session>, userId: int, now: int, s: Session): set<int> {
    set i | 0 <= i < |rows| && rows[i].userId == userId && rows[i].revokedAt.None? && now < rows[i].expiresAt
            && (rows[i].createdAt > s.createdAt || (rows[i].createdAt == s.createdAt && rows[i].id > s.id))
  }

  lemma {:induction false} CountNewerIsSize(rows: seq<Session>, userId: int, now: int, s: Session)
    ensures CountNewer(rows, userId, now, s) == |NewerRows(rows, userId, now, s)|
  {
    if rows == [] {
      assert NewerRows(rows, userId, now, s) == {};
    } else {
      var n := |rows| - 1;
      CountNewerIsSize(rows[..n], userId, now, s);
      var last := if ActiveFor(rows[n], userId, now) && Newer(rows[n], s) then {n} else {};
      assert NewerRows(rows, userId, now, s) == NewerRows(rows[..n], userId, now, s) + last;
    }
  }

  /** The active sessions of the account beyond the `max` newest are revoked. */
  function Capped(rows: seq<Session>, userId: int, now: int, max: nat): (r: seq<Session>)
    ensures |r| == |rows|
  {
    seq(|rows|, i requires 0 <= i < |rows| =>
      if ActiveFor(rows[i], userId, now) && CountNewer(rows, userId, now, rows[i]) >= max
      then rows[i].(revokedAt := Some(now)) else rows[i])
  }

  function Created(t: Table, userId: int, hash: string, expiresAt: int, now: int): Table {
    var s := Session(t.next, userId, hash, now, expiresAt, None, None);
    Table(Capped(t.rows + [s], userId, now, MAX_SESSIONS), t.next + 1)
  }

  function AllRevoked(rows: seq<Session>, userId: int, now: int): (r: seq<Session>)
    ensures |r| == |rows|
  {
    seq(|rows|, i requires 0 <= i < |rows| =>
      if rows[i].userId == userId && rows[i].revokedAt.None? then rows[i].(revokedAt := Some(now)) else rows[i])
  }

  function HashRevoked(rows: seq<Session>, hash: string, now: int): (r: seq<Session>)
    ensures |r| == |rows|
  {
    seq(|rows|, i requires 0 <= i < |rows| =>
      if rows[i].hash == hash && rows[i].revokedAt.None? then rows[i].(revokedAt := Some(now)) else rows[i])
  }

  function Touched(rows: seq<Session>, id: nat, now: int): (r: seq<Session>)
    ensures |r| == |rows|
  {
    seq(|rows|, i requires 0 <= i < |rows| => if rows[i].id == id then rows[i].(lastUsedAt := Some(now)) else rows[i])
  }

  function NotOf(userId: int): Session -> bool {
    (s: Session) => s.userId != userId
  }

  function WithHash(hash: string): Session -> bool {
    (s: Session) => s.hash == hash
  }

  /** No row is newer than one inserted now. */
  ghost predicate Past(t: Table, now: int) {
    forall s | s in t.rows :: s.id <= t.next && s.createdAt <= now
  }

  /** Rows that are not active sessions of the account stay as they are. */
  ghost predicate SparesInactive(rows: seq<Session>, rows': seq<Session>, userId: int, now: int)
    requires |rows| <= |rows'|
  {
    forall i | 0 <= i < |rows| && !ActiveFor(rows[i], userId, now) :: rows'[i] == rows[i]
  }

  lemma {:induction false} CapMeans(rows: seq<Session>, userId: int, now: int)
    ensures forall i | 0 <= i < |rows| ::
              Capped(rows, userId, now, MAX_SESSIONS)[i] ==
              if i in ActiveRows(rows, userId, now) && |NewerRows(rows, userId, now, rows[i])| >= 10
              then rows[i].(revokedAt := Some(now)) else rows[i]
  {
    forall i | 0 <= i < |rows|
      ensures CountNewer(rows, userId, now, rows[i]) == |NewerRows(rows, userId, now, rows[i])|
    {
      CountNewerIsSize(rows, userId, now, rows[i]);
    }
  }

  class SessionStore {
    var rows: seq<Session>
    var next: nat

    constructor ()
      ensures Contents() == Table([], 0)
    {
      rows := [];
      next := 0;
    }

    function Contents(): Table
      reads this
    {
      Table(rows, next)
    }

    /**
     Opens a session and closes the account's active ones beyond the ten newest. The new one is
     usable when no stored row is newer, and rows of other accounts stay as they are.
     */
    method Create(userId: int, hash: string, expiresAt: int, now: int)
      modifies this
      ensures Contents() == Created(old(Contents()), userId, hash, expiresAt, now)
      ensures |rows| == |old(rows)| + 1 && rows[|old(rows)|].userId == userId && rows[|old(rows)|].hash == hash
      ensures now < expiresAt && Past(old(Contents()), now) ==> rows[|old(rows)|].Usable(now)
      ensures SparesInactive(old(rows), rows, userId, now)
      ensures var all := old(rows) + [Session(old(next), userId, hash, now, expiresAt, None, None)];
              next == old(next) + 1 && |rows| == |all| && forall i | 0 <= i < |all| ::
                rows[i] == if i in ActiveRows(all, userId, now) && |NewerRows(all, userId, now, all[i])| >= 10
                           then all[i].(revokedAt := Some(now)) else all[i]
    {
      CapMeans(rows + [Session(next, userId, hash, now, expiresAt, None, None)], userId, now);
      ghost var s := Session(next, userId, hash, now, expiresAt, None, None);
      if Past(Contents(), now) {
        NoneNewer(rows + [s], userId, now, s);
      }
      rows := rows + [Session(next, userId, hash, now, expiresAt, None, None)];
      rows := Capped(rows, userId, now, MAX_SESSIONS);
      next := next + 1;
    }

    method Touch(id: nat, now: int)
      modifies this
      ensures next == old(next) && |rows| == |old(rows)| && forall i | 0 <= i < |rows| ::
                rows[i] == var s := old(rows)[i]; if s.id == id then s.(lastUsedAt := Some(now)) else s
      ensures Contents() == Table(Touched(old(rows), id, now), old(next))
    {
      rows := Touched(rows, id, now);
    }

    method RevokeByHash(hash: string, now: int)
      modifies this
      ensures next == old(next) && |rows| == |old(rows)| && forall i | 0 <= i < |rows| ::
                rows[i] == var s := old(rows)[i];
                           if s.hash == hash && s.revokedAt.None? then s.(revokedAt := Some(now)) else s
      ensures Contents() == Table(HashRevoked(old(rows), hash, now), old(next))
    {
      rows := HashRevoked(rows, hash, now);
    }

    /** Runs inside every transaction that writes a credential. */
    method RevokeAll(userId: int, now: int)
      modifies this
      ensures next == old(next) && |rows| == |old(rows)| && forall i | 0 <= i < |rows| ::
                rows[i] == var s := old(rows)[i];
                           if s.userId == userId && s.revokedAt.None? then s.(revokedAt := Some(now)) else s
      ensures Contents() == Table(AllRevoked(old(rows), userId, now), old(next))
    {
      rows := AllRevoked(rows, userId, now);
    }

    method DropUser(userId: int)
      modifies this
      ensures Contents() == Table(Select(old(rows), NotOf(userId)), old(next))
    {
      rows := Select(rows, NotOf(userId));
    }
  }

  // ---------------------------------------------------------------- steps

  /** What a write path does to the table. A password write always revokes the account's sessions. */
  datatype Op =
    | Nothing
    | Open(userId: int, hash: string)
    | PasswordWrite(userId: int)
    | Use(id: nat)
    | SignOut(hash: string)
    | Drop(userId: int)

  datatype Step = Step(op: Op, now: int)

  function Apply(t: Table, st: Step): Table {
    match st.op
    case Nothing => t
    case Open(userId, hash) => Created(t, userId, hash, st.now + LIFETIME, st.now)
    case PasswordWrite(userId) => t.(rows := AllRevoked(t.rows, userId, st.now))
    case Use(id) => t.(rows := Touched(t.rows, id, st.now))
    case SignOut(hash) => t.(rows := HashRevoked(t.rows, hash, st.now))
    case Drop(userId) => t.(rows := Select(t.rows, NotOf(userId)))
  }

  function Run(steps: seq<Step>): Table {
    if steps == [] then Table([], 0) else Apply(Run(steps[..|steps| - 1]), steps[|steps| - 1])
  }

  ghost predicate ClockForward(steps: seq<Step>) {
    forall i, j | 0 <= i < j < |steps| :: steps[i].now <= steps[j].now
  }

  // ---------------------------------------------------------------- what a step does to a session

  /** `s'` is the same session later on: only its last use, and a first revocation, may differ. */
  predicate Continues(s: Session, s': Session) {
    && s'.id == s.id && s'.userId == s.userId && s'.hash == s.hash
    && s'.createdAt == s.createdAt && s'.expiresAt == s.expiresAt
    && (s.revokedAt.Some? ==> s'.revokedAt == s.revokedAt)
  }

  /** Every row after a step continues a row from before, or is the one session just opened. */
  lemma StepContinues(t: Table, st: Step, s': Session)
    requires s' in Apply(t, st).rows
    ensures (exists s :: s in t.rows && Continues(s, s'))
         || (st.op.Open?
             && s' == Session(t.next, st.op.userId, st.op.hash, st.now, st.now + LIFETIME, None, s'.revokedAt))
  {
    if st.op.Drop? {
      SelectMeaning(t.rows, NotOf(st.op.userId));
      assert Continues(s', s');
    } else {
      var i :| 0 <= i < |Apply(t, st).rows| && Apply(t, st).rows[i] == s';
      if i < |t.rows| {
        assert Continues(t.rows[i], s');
      }
    }
  }

  // ---------------------------------------------------------------- order and lifetime

  ghost predicate Ordered(rows: seq<Session>) {
    rows != [] ==>
      && Ordered(rows[..|rows| - 1])
      && forall s | s in rows[..|rows| - 1] :: s.id < rows[|rows| - 1].id && s.createdAt <= rows[|rows| - 1].createdAt
  }

  /** Rows stand in the order of `created_at, id`, and expire 30 days after creation. */
  ghost predicate Sound(t: Table, now: int) {
    && Ordered(t.rows)
    && forall s | s in t.rows :: s.id < t.next && s.createdAt <= now && s.expiresAt == s.createdAt + LIFETIME
  }

  lemma {:induction false} OrderedSame(rows: seq<Session>, rows': seq<Session>)
    requires Ordered(rows) && |rows'| == |rows|
    requires forall i | 0 <= i < |rows| :: rows'[i].id == rows[i].id && rows'[i].createdAt == rows[i].createdAt
    ensures Ordered(rows')
  {
    if rows != [] {
      var n := |rows| - 1;
      OrderedSame(rows[..n], rows'[..n]);
      forall s | s in rows'[..n] ensures s.id < rows'[n].id && s.createdAt <= rows'[n].createdAt {
        var i :| 0 <= i < n && rows'[..n][i] == s;
        assert rows[..n][i] in rows[..n];
      }
    }
  }

  lemma {:induction false} OrderedSelected(rows: seq<Session>, p: Session -> bool)
    requires Ordered(rows)
    ensures Ordered(Select(rows, p))
  {
    if rows != [] {
      var n := |rows| - 1;
      OrderedSelected(rows[..n], p);
      SelectMeaning(rows[..n], p);
      assert rows[..n] + [rows[n]] == rows;
      SelectPush(rows[..n], rows[n], p);
      assert (Select(rows[..n], p) + [rows[n]])[..|Select(rows[..n], p)|] == Select(rows[..n], p);
    }
  }

  lemma {:induction false} OpenKeepsOrder(rows: seq<Session>, s: Session, userId: int, now: int)
    requires Ordered(rows) && forall r | r in rows :: r.id < s.id && r.createdAt <= s.createdAt
    ensures Ordered(Capped(rows + [s], userId, now, MAX_SESSIONS))
  {
    assert (rows + [s])[..|rows|] == rows;
    OrderedSame(rows + [s], Capped(rows + [s], userId, now, MAX_SESSIONS));
  }

  lemma StepKeepsOrder(t: Table, st: Step, before: int)
    requires Sound(t, before) && before <= st.now
    ensures Ordered(Apply(t, st).rows)
  {
    match st.op {
      case Nothing =>
      case Drop(userId) => OrderedSelected(t.rows, NotOf(userId));
      case Open(userId, hash) =>
        OpenKeepsOrder(t.rows, Session(t.next, userId, hash, st.now, st.now + LIFETIME, None, None), userId, st.now);
      case PasswordWrite(userId) => OrderedSame(t.rows, AllRevoked(t.rows, userId, st.now));
      case Use(id) => OrderedSame(t.rows, Touched(t.rows, id, st.now));
      case SignOut(hash) => OrderedSame(t.rows, HashRevoked(t.rows, hash, st.now));
    }
  }

  lemma StepKeepsSound(t: Table, st: Step, before: int)
    requires Sound(t, before) && before <= st.now
    ensures Sound(Apply(t, st), st.now)
  {
    var t' := Apply(t, st);
    StepKeepsOrder(t, st, before);
    forall s' | s' in t'.rows
      ensures s'.id < t'.next && s'.createdAt <= st.now && s'.expiresAt == s'.createdAt + LIFETIME
    {
      StepContinues(t, st, s');
    }
  }

  lemma {:induction false} RunIsSound(steps: seq<Step>, now: int)
    requires ClockForward(steps) && forall st | st in steps :: st.now <= now
    ensures Sound(Run(steps), now)
  {
    if steps != [] {
      var n := |steps| - 1;
      RunIsSound(steps[..n], steps[n].now);
      StepKeepsSound(Run(steps[..n]), steps[n], steps[n].now);
    }
  }

  // ---------------------------------------------------------------- the cap

  function IsActive(userId: int, now: int): Session -> bool {
    (s: Session) => ActiveFor(s, userId, now)
  }

  /** The active sessions of an account. */
  function Active(rows: seq<Session>, userId: int, now: int): nat {
    Count(rows, IsActive(userId, now))
  }

  lemma {:induction false} NoneNewer(rows: seq<Session>, userId: int, now: int, s: Session)
    requires forall r | r in rows :: r.id <= s.id && r.createdAt <= s.createdAt
    ensures CountNewer(rows, userId, now, s) == 0
  {
    if rows != [] {
      NoneNewer(rows[..|rows| - 1], userId, now, s);
      assert rows[|rows| - 1] in rows;
    }
  }

  /** In an ordered table the newer sessions are the later ones. */
  lemma {:induction false} NewerAreLater(rows: seq<Session>, userId: int, now: int, i: nat)
    requires Ordered(rows) && i < |rows|
    ensures CountNewer(rows, userId, now, rows[i]) == Active(rows[i + 1..], userId, now)
  {
    var n := |rows| - 1;
    if i == n {
      assert forall r | r in rows :: r in rows[..n] || r == rows[n];
      NoneNewer(rows, userId, now, rows[n]);
    } else {
      NewerAreLater(rows[..n], userId, now, i);
      assert rows[..n][i] in rows[..n];
      assert rows[i + 1..][..n - i - 1] == rows[..n][i + 1..];
    }
  }

  /** A row stays active under the cap iff fewer than `max` active ones come later. */
  lemma {:induction false} CappedAt(rows: seq<Session>, userId: int, now: int, max: nat, i: nat)
    requires Ordered(rows) && i < |rows|
    ensures ActiveFor(Capped(rows, userId, now, max)[i], userId, now)
       <==> ActiveFor(rows[i], userId, now) && Active(rows[i + 1..], userId, now) < max
  {
    NewerAreLater(rows, userId, now, i);
  }

  lemma {:induction false} ActiveFromNext(rows: seq<Session>, userId: int, now: int, i: nat)
    requires i < |rows|
    ensures Active(rows[i..], userId, now)
         == Active(rows[i + 1..], userId, now) + if ActiveFor(rows[i], userId, now) then 1 else 0
  {
    assert rows[i..] == [rows[i]] + rows[i + 1..];
    CountCons(rows[i], rows[i + 1..], IsActive(userId, now));
  }

  /** What the cap leaves active, from row `i` on. */
  lemma {:induction false} CappedCount(rows: seq<Session>, userId: int, now: int, max: nat, i: nat)
    requires Ordered(rows) && i <= |rows|
    ensures Active(Capped(rows, userId, now, max)[i..], userId, now)
         == if Active(rows[i..], userId, now) < max then Active(rows[i..], userId, now) else max
    decreases |rows| - i
  {
    if i < |rows| {
      CappedCount(rows, userId, now, max, i + 1);
      CappedAt(rows, userId, now, max, i);
      ActiveFromNext(rows, userId, now, i);
      ActiveFromNext(Capped(rows, userId, now, max), userId, now, i);
    }
  }

  lemma CreatedIsCapped(t: Table, userId: int, hash: string, now: int, u: int)
    requires Sound(t, now)
    ensures var t' := Created(t, userId, hash, now + LIFETIME, now);
            Active(t'.rows, u, now) <= if u == userId then MAX_SESSIONS else Active(t.rows, u, now)
  {
    var rows := t.rows + [Session(t.next, userId, hash, now, now + LIFETIME, None, None)];
    assert rows[..|rows| - 1] == t.rows;
    var capped := Capped(rows, userId, now, MAX_SESSIONS);
    if u == userId {
      CappedCount(rows, userId, now, MAX_SESSIONS, 0);
      assert capped[0..] == capped;
    } else {
      CountAtMost(rows, IsActive(u, now), capped, IsActive(u, now));
      CountPush(t.rows, rows[|t.rows|], IsActive(u, now));
      assert t.rows + [rows[|t.rows|]] == rows;
    }
  }

  lemma OtherStepsOnlyShrink(t: Table, st: Step, u: int)
    requires !st.op.Open? && !st.op.Drop?
    ensures Active(Apply(t, st).rows, u, st.now) <= Active(t.rows, u, st.now)
  {
    CountAtMost(t.rows, IsActive(u, st.now), Apply(t, st).rows, IsActive(u, st.now));
  }

  lemma StepKeepsCap(t: Table, st: Step, u: int)
    requires Sound(t, st.now) && Active(t.rows, u, st.now) <= MAX_SESSIONS
    ensures Active(Apply(t, st).rows, u, st.now) <= MAX_SESSIONS
  {
    if st.op.Open? {
      CreatedIsCapped(t, st.op.userId, st.op.hash, st.now, u);
    } else if st.op.Drop? {
      CountSelected(t.rows, NotOf(st.op.userId), IsActive(u, st.now));
    } else {
      OtherStepsOnlyShrink(t, st, u);
    }
  }

  lemma {:induction false} ActiveIsSize(rows: seq<Session>, u: int, now: int)
    ensures Active(rows, u, now) == |ActiveRows(rows, u, now)|
  {
    CountIsSize(rows, IsActive(u, now));
    assert Places(rows, IsActive(u, now)) == ActiveRows(rows, u, now);
  }

  /** With a clock that never goes back, every account has at most 10 usable sessions at every instant. */
  lemma {:induction false} AtMostTenUsable(steps: seq<Step>, u: int, now: int)
    requires ClockForward(steps) && forall st | st in steps :: st.now <= now
    ensures |ActiveRows(Run(steps).rows, u, now)| <= 10
  {
    CapHolds(steps, u, now);
    ActiveIsSize(Run(steps).rows, u, now);
  }

  lemma {:induction false} CapHolds(steps: seq<Step>, u: int, now: int)
    requires ClockForward(steps) && forall st | st in steps :: st.now <= now
    ensures Active(Run(steps).rows, u, now) <= MAX_SESSIONS
  {
    if steps != [] {
      var n := |steps| - 1;
      CapHolds(steps[..n], u, steps[n].now);
      RunIsSound(steps[..n], steps[n].now);
      StepKeepsCap(Run(steps[..n]), steps[n], u);
      CountAtMost(Run(steps).rows, IsActive(u, steps[n].now), Run(steps).rows, IsActive(u, now));
    }
  }

  /**
   Creation keeps exactly the newest active sessions: an active session survives iff fewer than
   10 active ones are newer, which in a sound table are the later rows, and the new one always does.
   */
  lemma CreationKeepsNewest(t: Table, userId: int, hash: string, now: int, i: nat)
    requires Sound(t, now) && i <= |t.rows|
    ensures var t' := Created(t, userId, hash, now + LIFETIME, now);
            var rows := t.rows + [Session(t.next, userId, hash, now, now + LIFETIME, None, None)];
            && |t'.rows| == |rows|
            && (i in ActiveRows(rows, userId, now) ==>
                 (i in ActiveRows(t'.rows, userId, now) <==> |ActiveRows(rows[i + 1..], userId, now)| < 10))
            && (i !in ActiveRows(rows, userId, now) ==> t'.rows[i] == rows[i])
            && |t.rows| in ActiveRows(t'.rows, userId, now)
  {
    var rows := t.rows + [Session(t.next, userId, hash, now, now + LIFETIME, None, None)];
    assert rows[..|rows| - 1] == t.rows;
    CappedAt(rows, userId, now, MAX_SESSIONS, i);
    CappedAt(rows, userId, now, MAX_SESSIONS, |t.rows|);
    ActiveIsSize(rows[i + 1..], userId, now);
  }

  // ---------------------------------------------------------------- passwords and revocation

  /** The step that opened each session, and the last password write of each account. */
  datatype Life = Life(table: Table, born: map<nat, nat>, wrote: map<int, nat>)

  function Live(steps: seq<Step>): (l: Life)
    ensures l.table == Run(steps)
  {
    if steps == [] then Life(Table([], 0), map[], map[]) else
    var n := |steps| - 1;
    var l := Live(steps[..n]);
    var t := Apply(l.table, steps[n]);
    match steps[n].op
    case Open(userId, _) => Life(t, l.born[l.table.next := n], l.wrote)
    case PasswordWrite(userId) => Life(t, l.born, l.wrote[userId := n])
    case _ => l.(table := t)
  }

  /** `s` was opened by a step after the last password write of its owner. */
  predicate OpenedSinceWrite(l: Life, s: Session) {
    s.id in l.born && (s.userId in l.wrote ==> l.wrote[s.userId] < l.born[s.id])
  }

  lemma {:induction false} HistoryIsPast(steps: seq<Step>)
    ensures forall u | u in Live(steps).wrote :: Live(steps).wrote[u] < |steps|
    ensures forall s | s in Run(steps).rows :: s.id < Run(steps).next
  {
    if steps != [] {
      var n := |steps| - 1;
      HistoryIsPast(steps[..n]);
      forall s' | s' in Run(steps).rows ensures s'.id < Run(steps).next {
        StepContinues(Run(steps[..n]), steps[n], s');
      }
    }
  }

  lemma PasswordWriteRevokes(t: Table, u: int, now: int, s': Session)
    requires s' in AllRevoked(t.rows, u, now) && s'.userId == u
    ensures s'.revokedAt.Some?
  {
  }

  /**
   On every run over all write paths, a session that is not revoked was opened after its
   owner's last password write: no session survives a password change.
   */
  lemma {:induction false} SessionsFollowPasswords(steps: seq<Step>, s: Session)
    requires s in Run(steps).rows && s.revokedAt.None?
    ensures OpenedSinceWrite(Live(steps), s)
  {
    var n := |steps| - 1;
    var t, st := Run(steps[..n]), steps[n];
    StepContinues(t, st, s);
    HistoryIsPast(steps[..n]);
    if r :| r in t.rows && Continues(r, s) {
      SessionsFollowPasswords(steps[..n], r);
      if st.op.PasswordWrite? && st.op.userId == s.userId {
        PasswordWriteRevokes(t, s.userId, st.now, s);
      }
    }
  }

  lemma {:induction false} OneRowPerId(rows: seq<Session>, r: Session, s: Session)
    requires Ordered(rows) && r in rows && s in rows && r.id == s.id
    ensures r == s
  {
    var n := |rows| - 1;
    assert forall x | x in rows :: x in rows[..n] || x == rows[n];
    if r in rows[..n] && s in rows[..n] {
      OneRowPerId(rows[..n], r, s);
    }
  }

  /** No run brings a revoked session back, or changes the end date of any session. */
  lemma {:induction false} RevokedStaysRevoked(t: Table, now: int, steps: seq<Step>, s: Session, s': Session)
    requires Sound(t, now) && s in t.rows && s' in RunFrom(t, steps).rows && s'.id == s.id
    ensures s'.expiresAt == s.expiresAt && (s.revokedAt.Some? ==> s'.revokedAt == s.revokedAt)
  {
    RunFromContinues(t, steps, s');
    var r :| r in t.rows && Continues(r, s');
    OneRowPerId(t.rows, r, s);
  }

  function RunFrom(t: Table, steps: seq<Step>): Table {
    if steps == [] then t else Apply(RunFrom(t, steps[..|steps| - 1]), steps[|steps| - 1])
  }

  lemma {:induction false} RunFromContinues(t: Table, steps: seq<Step>, s': Session)
    requires s' in RunFrom(t, steps).rows
    ensures t.next <= RunFrom(t, steps).next
    ensures (exists s :: s in t.rows && Continues(s, s')) || s'.id >= t.next
  {
    if steps == [] {
      assert Continues(s', s');
    } else {
      var n := |steps| - 1;
      NextGrows(t, steps[..n]);
      StepContinues(RunFrom(t, steps[..n]), steps[n], s');
      if r :| r in RunFrom(t, steps[..n]).rows && Continues(r, s') {
        RunFromContinues(t, steps[..n], r);
        if s :| s in t.rows && Continues(s, r) {
          assert Continues(s, s');
        }
      }
    }
  }

  lemma {:induction false} NextGrows(t: Table, steps: seq<Step>)
    ensures t.next <= RunFrom(t, steps).next
  {
    if steps != [] {
      NextGrows(t, steps[..|steps| - 1]);
    }
  }
}
