/**
 Custom light names: portal writes, and the gateway sync that merges entry by entry into the
 table of a cabinet. Times are integer milliseconds; the catalogue of light ids is a parameter.
 */
module LightNames {
  import opened Wrappers

  const MAX_RUNES := 40
  const MAX_FUTURE := 5 * 60 * 1000

  // ---------------------------------------------------------------- names

  /** The white space `strings.TrimSpace` removes. */
  predicate IsSpace(c: char) {
    var n := c as int;
    || 9 <= n <= 13 || n == 32 || n == 0x85 || n == 0xA0 || n == 0x1680 || 0x2000 <= n <= 0x200A
    || n == 0x2028 || n == 0x2029 || n == 0x202F || n == 0x205F || n == 0x3000
  }

  /** `strings.TrimSpace` is trimming on both sides for `blank` the white space. */
  function TrimLeft(s: string, blank: char -> bool): string {
    if s == [] || !blank(s[0]) then s else TrimLeft(s[1..], blank)
  }

  function TrimRight(s: string, blank: char -> bool): string {
    if s == [] || !blank(s[|s| - 1]) then s else TrimRight(s[..|s| - 1], blank)
  }

  function Trim(s: string, blank: char -> bool): string {
    TrimRight(TrimLeft(s, blank), blank)
  }

  datatype NameCheck = Invalid | Reset | Custom(name: string)

  predicate Printable(c: char) {
    c as int >= 0x20 && c as int != 0x7f && c != '<' && c != '>'
  }

  function NormalizeLightName(raw: string): NameCheck {
    var s := Trim(raw, IsSpace);
    if s == "" then Reset
    else if |s| > MAX_RUNES || exists i | 0 <= i < |s| :: !Printable(s[i]) then Invalid
    else Custom(s)
  }

  ghost predicate Blank(s: string, blank: char -> bool) {
    forall i | 0 <= i < |s| :: blank(s[i])
  }

  /** `raw` is `name` between blanks, and `name` is not empty and neither begins nor ends with one. */
  ghost predicate IsTrimmed(raw: string, name: string, blank: char -> bool) {
    && name != [] && !blank(name[0]) && !blank(name[|name| - 1])
    && exists before, after :: Blank(before, blank) && Blank(after, blank) && raw == before + name + after
  }

  /** 1 to 40 characters, no control character and no angle bracket. */
  ghost predicate Acceptable(name: string) {
    1 <= |name| <= 40 && forall i | 0 <= i < |name| :: name[i] as int >= 32 && name[i] !in {127 as char, '<', '>'}
  }

  lemma {:induction false} TrimLeftIs(before: string, s: string, blank: char -> bool)
    requires Blank(before, blank) && (s != [] ==> !blank(s[0]))
    ensures TrimLeft(before + s, blank) == s
  {
    if before == [] {
      assert before + s == s;
    } else {
      assert (before + s)[1..] == before[1..] + s && (before + s)[0] == before[0];
      TrimLeftIs(before[1..], s, blank);
    }
  }

  lemma {:induction false} TrimRightIs(s: string, after: string, blank: char -> bool)
    requires Blank(after, blank) && (s != [] ==> !blank(s[|s| - 1]))
    ensures TrimRight(s + after, blank) == s
  {
    if after == [] {
      assert s + after == s;
    } else {
      var n := |after| - 1;
      assert (s + after)[..|s + after| - 1] == s + after[..n] && (s + after)[|s + after| - 1] == after[n];
      TrimRightIs(s, after[..n], blank);
    }
  }

  /** What each side takes away. */
  lemma {:induction false} TakenLeft(s: string, blank: char -> bool) returns (before: string)
    ensures Blank(before, blank) && s == before + TrimLeft(s, blank)
    ensures TrimLeft(s, blank) != [] ==> !blank(TrimLeft(s, blank)[0])
  {
    if s == [] || !blank(s[0]) {
      before := [];
    } else {
      before := TakenLeft(s[1..], blank);
      before := [s[0]] + before;
    }
  }

  lemma {:induction false} TakenRight(s: string, blank: char -> bool) returns (after: string)
    ensures Blank(after, blank) && s == TrimRight(s, blank) + after
    ensures TrimRight(s, blank) != [] ==> !blank(TrimRight(s, blank)[|TrimRight(s, blank)| - 1])
  {
    if s == [] || !blank(s[|s| - 1]) {
      after := [];
    } else {
      after := TakenRight(s[..|s| - 1], blank);
      after := after + [s[|s| - 1]];
    }
  }

  lemma {:induction false} TrimIs(before: string, name: string, after: string, blank: char -> bool)
    requires Blank(before, blank) && Blank(after, blank)
    requires name != [] && !blank(name[0]) && !blank(name[|name| - 1])
    ensures Trim(before + name + after, blank) == name
  {
    assert before + name + after == before + (name + after);
    TrimLeftIs(before, name + after, blank);
    TrimRightIs(name, after, blank);
  }

  lemma {:induction false} TrimBlank(raw: string, blank: char -> bool)
    requires Blank(raw, blank)
    ensures Trim(raw, blank) == []
  {
    assert raw + [] == raw;
    TrimLeftIs(raw, [], blank);
  }

  /** Trimming leaves nothing exactly of a blank text, and otherwise the trimmed text in it. */
  lemma {:induction false} TrimMeans(raw: string, blank: char -> bool)
    ensures Trim(raw, blank) == [] <==> Blank(raw, blank)
    ensures Trim(raw, blank) != [] ==> IsTrimmed(raw, Trim(raw, blank), blank)
  {
    var left, name := TrimLeft(raw, blank), Trim(raw, blank);
    var before := TakenLeft(raw, blank);
    var after := TakenRight(left, blank);
    if name != [] {
      assert left[0] == name[0];
      assert raw == before + name + after;
      assert raw[|before|] == name[0];
    } else {
      assert raw == before + after;
      TrimBlank(raw, blank);
    }
  }

  lemma {:induction false} TrimIff(raw: string, name: string, blank: char -> bool)
    requires name != []
    ensures Trim(raw, blank) == name <==> IsTrimmed(raw, name, blank)
  {
    TrimMeans(raw, blank);
    if IsTrimmed(raw, name, blank) {
      var before, after :| Blank(before, blank) && Blank(after, blank) && raw == before + name + after;
      TrimIs(before, name, after, blank);
    }
  }

  lemma {:induction false} AcceptableIs(s: string)
    requires s != []
    ensures Acceptable(s) <==> |s| <= MAX_RUNES && forall i | 0 <= i < |s| :: Printable(s[i])
  {
  }

  /** Which texts take the name away, and which give which name; the others are refused. */
  lemma NormalizeMeans(raw: string)
    ensures NormalizeLightName(raw).Reset? <==> Blank(raw, IsSpace)
    ensures forall name ::
              NormalizeLightName(raw) == Custom(name) <==> IsTrimmed(raw, name, IsSpace) && Acceptable(name)
  {
    TrimMeans(raw, IsSpace);
    forall name ensures NormalizeLightName(raw) == Custom(name) <==> IsTrimmed(raw, name, IsSpace) && Acceptable(name) {
      if name != [] {
        TrimIff(raw, name, IsSpace);
        AcceptableIs(name);
      }
    }
  }

  /** An accepted name is the trimmed text of what was sent, and is accepted again as it is. */
  lemma AcceptedNameIsStable(raw: string)
    requires NormalizeLightName(raw).Custom?
    ensures var s := NormalizeLightName(raw).name;
            IsTrimmed(raw, s, IsSpace) && Acceptable(s) && NormalizeLightName(s) == Custom(s)
  {
    NormalizeMeans(raw);
    var s := NormalizeLightName(raw).name;
    NormalizeMeans(s);
    assert s == [] + s + [];
    assert IsTrimmed(s, s, IsSpace);
  }

  // ---------------------------------------------------------------- rows and entries

  datatype Row = Row(name: Option<string>, version: int, updatedAt: int, updatedBy: string)

  /** The `name` member of a sync entry as it was sent. */
  datatype SentName = Missing | Null | NotText | Text(text: string)

  /** One entry of a sync request; `at` is missing when its timestamp cannot be read. */
  datatype Entry = Entry(id: string, name: SentName, version: int, at: Option<int>)

  function Clamp(t: int, now: int): int {
    if t > now + MAX_FUTURE then now else t
  }

  /** The row an entry offers, if it is usable. */
  function Offer(catalog: seq<string>, e: Entry, now: int): Option<Row> {
    if e.id !in catalog || e.version <= 0 || e.at.None? then None else
    var at := Clamp(e.at.value, now);
    match e.name
    case Missing => Some(Row(None, e.version, at, "gateway"))
    case Null => Some(Row(None, e.version, at, "gateway"))
    case NotText => None
    case Text(text) =>
      match NormalizeLightName(text)
      case Invalid => None
      case Reset => Some(Row(None, e.version, at, "gateway"))
      case Custom(name) => Some(Row(Some(name), e.version, at, "gateway"))
  }

  /** The name an entry asks for: none when it is missing, null or blank, else the acceptable text in it. */
  ghost predicate AsksFor(sent: SentName, name: Option<string>) {
    match name
    case None => sent.Missing? || sent.Null? || (sent.Text? && Blank(sent.text, IsSpace))
    case Some(n) => sent.Text? && IsTrimmed(sent.text, n, IsSpace) && Acceptable(n)
  }

  /**
   The row an entry of a known light asks for: its version, its time or `now` when that is more
   than five minutes ahead, its name, and the gateway as the author.
   */
  ghost predicate AsksRow(catalog: seq<string>, e: Entry, now: int, r: Row) {
    && e.id in catalog && e.version >= 1 && e.at.Some?
    && r.version == e.version && r.updatedBy == "gateway"
    && r.updatedAt == (if e.at.value > now + 300_000 then now else e.at.value)
    && AsksFor(e.name, r.name)
  }

  lemma OfferMeans(catalog: seq<string>, e: Entry, now: int)
    ensures forall r :: Offer(catalog, e, now) == Some(r) <==> AsksRow(catalog, e, now, r)
  {
    if e.name.Text? {
      NormalizeMeans(e.name.text);
    }
  }

  function LexGreater(a: string, b: string): bool {
    if a == [] then false
    else if b == [] then true
    else if a[0] != b[0] then a[0] > b[0]
    else LexGreater(a[1..], b[1..])
  }

  lemma {:induction false} LexIrreflexive(a: string)
    ensures !LexGreater(a, a)
  {
    if a != [] {
      LexIrreflexive(a[1..]);
    }
  }

  /** (updated_at, version, updated_by) in that order; a perfect tie is not newer. */
  predicate LightNameNewer(a: Row, b: Row) {
    if a.updatedAt != b.updatedAt then a.updatedAt > b.updatedAt
    else if a.version != b.version then a.version > b.version
    else LexGreater(a.updatedBy, b.updatedBy)
  }

  /** A strictly later stamp, the author left aside. */
  predicate Later(a: Row, b: Row) {
    a.updatedAt > b.updatedAt || (a.updatedAt == b.updatedAt && a.version > b.version)
  }

  /** What one entry proposes for its light. */
  datatype Proposal = Proposal(id: string, offer: Option<Row>)

  function Proposals(catalog: seq<string>, es: seq<Entry>, now: int): (ps: seq<Proposal>)
    ensures |ps| == |es|
  {
    seq(|es|, i requires 0 <= i < |es| => Proposal(es[i].id, Offer(catalog, es[i], now)))
  }

  /** The offer borrows the stored author, so that ties keep the cloud row. */
  predicate Accepted(rows: map<string, Row>, p: Proposal) {
    && p.offer.Some?
    && (p.id in rows ==> LightNameNewer(p.offer.value.(updatedBy := rows[p.id].updatedBy), rows[p.id]))
  }

  /** One turn of the sync loop: an accepted offer is written, any other leaves the table alone. */
  function Turn(rows: map<string, Row>, p: Proposal): map<string, Row> {
    if Accepted(rows, p) then rows[p.id := p.offer.value] else rows
  }

  function Turns(rows: map<string, Row>, ps: seq<Proposal>): map<string, Row> {
    if ps == [] then rows else Turn(Turns(rows, ps[..|ps| - 1]), ps[|ps| - 1])
  }

  function SyncRows(catalog: seq<string>, rows: map<string, Row>, es: seq<Entry>, now: int): map<string, Row> {
    Turns(rows, Proposals(catalog, es, now))
  }

  datatype View = View(id: string, name: Option<string>, version: int, updatedAt: Option<int>)

  function ViewOf(rows: map<string, Row>, id: string): View {
    if id in rows then View(id, rows[id].name, rows[id].version, Some(rows[id].updatedAt)) else View(id, None, 0, None)
  }

  function Views(catalog: seq<string>, rows: map<string, Row>): (views: seq<View>)
    ensures |views| == |catalog|
  {
    seq(|catalog|, i requires 0 <= i < |catalog| => ViewOf(rows, catalog[i]))
  }

  /** A portal rename: the version follows the stored one, the time is the cloud clock. */
  function Renamed(rows: map<string, Row>, id: string, name: Option<string>, author: string,
                   now: int): map<string, Row> {
    rows[id := Row(name, if id in rows then rows[id].version + 1 else 1, now, author)]
  }

  // ---------------------------------------------------------------- the store

  class LightNameStore {
    var tables: map<int, map<string, Row>>

    constructor ()
      ensures tables == map[]
    {
      tables := map[];
    }

    function ListLightNames(machine: int): map<string, Row>
      reads this
    {
      if machine in tables then tables[machine] else map[]
    }

    method SetLightName(machine: int, id: string, name: Option<string>, author: string, now: int) returns (row: Row)
      modifies this
      ensures tables == old(tables)[machine := Renamed(old(ListLightNames(machine)), id, name, author, now)]
      ensures row == tables[machine][id]
      ensures var rows := old(ListLightNames(machine));
              && row == Row(name, if id in rows then rows[id].version + 1 else 1, now, author)
              && tables == old(tables)[machine := rows[id := row]]
    {
      var rows := ListLightNames(machine);
      row := Row(name, if id in rows then rows[id].version + 1 else 1, now, author);
      tables := tables[machine := rows[id := row]];
    }

    method PutLightNameExact(machine: int, id: string, row: Row)
      modifies this
      ensures tables == old(tables)[machine := old(ListLightNames(machine))[id := row]]
    {
      tables := tables[machine := ListLightNames(machine)[id := row]];
    }

    /** The handler's loop: the copy it reads and the table it writes stay in step. */
    method SyncLightNames(catalog: seq<string>, machine: int, es: seq<Entry>, now: int)
      returns (views: Option<seq<View>>)
      modifies this
      ensures views.None? <==> |es| > |catalog|
      ensures views.None? ==> tables == old(tables)
      ensures views.Some? ==>
                var rows := SyncRows(catalog, old(ListLightNames(machine)), es, now);
                && views.value == Views(catalog, rows)
                && ListLightNames(machine) == rows
                && tables - {machine} == old(tables) - {machine}
      ensures views.Some? ==>
                forall id :: Merges(catalog, old(ListLightNames(machine)), es, now, ListLightNames(machine), id)
      ensures views.Some? ==> |views.value| == |catalog|
      ensures views.Some? ==> forall i | 0 <= i < |catalog| ::
                var rows, id := ListLightNames(machine), catalog[i];
                views.value[i] == if id in rows then View(id, rows[id].name, rows[id].version, Some(rows[id].updatedAt))
                                  else View(id, None, 0, None)
    {
      if |es| > |catalog| {
        return None;
      }
      var rows := ListLightNames(machine);
      for i := 0 to |es|
        invariant rows == Turns(old(ListLightNames(machine)), Proposals(catalog, es, now)[..i])
        invariant ListLightNames(machine) == rows
        invariant tables - {machine} == old(tables) - {machine}
      {
        ghost var ps := Proposals(catalog, es, now);
        assert ps[..i + 1][..i] == ps[..i];
        var e := es[i];
        var offer := Offer(catalog, e, now);
        if offer.None? {
          continue;
        }
        var row := offer.value;
        if e.id in rows && !LightNameNewer(row.(updatedBy := rows[e.id].updatedBy), rows[e.id]) {
          continue;
        }
        PutLightNameExact(machine, e.id, row);
        rows := rows[e.id := row];
      }
      assert Proposals(catalog, es, now)[..|es|] == Proposals(catalog, es, now);
      forall id ensures Merges(catalog, old(ListLightNames(machine)), es, now, rows, id) {
        SyncMerges(catalog, old(ListLightNames(machine)), es, now, id);
      }
      return Some(Views(catalog, rows));
    }
  }

  // ---------------------------------------------------------------- the sync computes a maximum

  /** The rows offered for one light, in order. */
  function Offers(ps: seq<Proposal>, id: string): seq<Row> {
    if ps == [] then [] else
    var p := ps[|ps| - 1];
    Offers(ps[..|ps| - 1], id) + if p.id == id && p.offer.Some? then [p.offer.value] else []
  }

  function Stored(rows: map<string, Row>, id: string): seq<Row> {
    if id in rows then [rows[id]] else []
  }

  /** `r` is the first of the candidates with the latest stamp. */
  ghost predicate IsFirstLatest(rs: seq<Row>, r: Row) {
    exists i ::
      && 0 <= i < |rs| && rs[i] == r
      && (forall j | 0 <= j < |rs| :: !Later(rs[j], r))
      && forall j | 0 <= j < i :: Later(r, rs[j])
  }

  lemma {:induction false} FirstLatestPush(rs: seq<Row>, r: Row, x: Row)
    requires IsFirstLatest(rs, r)
    ensures IsFirstLatest(rs + [x], if Later(x, r) then x else r)
  {
    var i :|
      && 0 <= i < |rs| && rs[i] == r
      && (forall j | 0 <= j < |rs| :: !Later(rs[j], r))
      && forall j | 0 <= j < i :: Later(r, rs[j]);
    var all := rs + [x];
    if Later(x, r) {
      assert all[|rs|] == x;
    } else {
      assert all[i] == r;
    }
  }

  lemma TurnComparesStamps(rows: map<string, Row>, p: Proposal)
    requires p.id in rows && p.offer.Some?
    ensures Accepted(rows, p) <==> Later(p.offer.value, rows[p.id])
  {
    LexIrreflexive(rows[p.id].updatedBy);
  }

  /** `rows'` holds for `id` the first latest of the candidates, or nothing without candidates. */
  ghost predicate HoldsFirstLatest(rows': map<string, Row>, id: string, candidates: seq<Row>) {
    if candidates == [] then id !in rows' else id in rows' && IsFirstLatest(candidates, rows'[id])
  }

  lemma {:induction false} TurnKeepsFirstLatest(rows: map<string, Row>, p: Proposal, id: string, candidates: seq<Row>)
    requires HoldsFirstLatest(rows, id, candidates)
    ensures HoldsFirstLatest(Turn(rows, p), id,
                             candidates + if p.id == id && p.offer.Some? then [p.offer.value] else [])
  {
    if p.id == id && p.offer.Some? {
      var x := p.offer.value;
      if id in rows {
        TurnComparesStamps(rows, p);
        FirstLatestPush(candidates, rows[id], x);
      } else {
        assert (candidates + [x])[0] == x;
      }
    } else {
      assert candidates + [] == candidates;
    }
  }

  lemma {:induction false} TurnsAreFirstLatest(rows: map<string, Row>, ps: seq<Proposal>, id: string)
    ensures HoldsFirstLatest(Turns(rows, ps), id, Stored(rows, id) + Offers(ps, id))
  {
    if ps == [] {
      assert Stored(rows, id) + [] == Stored(rows, id);
      if id in rows {
        assert Stored(rows, id)[0] == rows[id];
      }
    } else {
      var n := |ps| - 1;
      TurnsAreFirstLatest(rows, ps[..n], id);
      TurnKeepsFirstLatest(Turns(rows, ps[..n]), ps[n], id, Stored(rows, id) + Offers(ps[..n], id));
      var more := if ps[n].id == id && ps[n].offer.Some? then [ps[n].offer.value] else [];
      assert Stored(rows, id) + Offers(ps, id) == Stored(rows, id) + Offers(ps[..n], id) + more;
    }
  }

  /** All that may stand for one light after a sync: its stored row, then the offers in order. */
  function Candidates(catalog: seq<string>, rows: map<string, Row>, es: seq<Entry>, now: int, id: string): seq<Row> {
    Stored(rows, id) + Offers(Proposals(catalog, es, now), id)
  }

  /**
   After a sync each light holds the first candidate with the latest (updated_at, version),
   among its stored row and the clamped entries offered for it; with no candidate it has no row.
   */
  lemma {:induction false} SyncIsFirstLatest(catalog: seq<string>, rows: map<string, Row>, es: seq<Entry>, now: int,
                                             id: string)
    ensures var rows' := SyncRows(catalog, rows, es, now);
            var candidates := Candidates(catalog, rows, es, now, id);
            && (id in rows' <==> candidates != [])
            && (id in rows' ==> IsFirstLatest(candidates, rows'[id]))
  {
    TurnsAreFirstLatest(rows, Proposals(catalog, es, now), id);
  }

  /**
   What a sync leaves for a light: its row as it was, or the row a usable entry of it asks for,
   which then has a later stamp than the row it had. No usable entry has a later stamp than that.
   */
  ghost predicate Merges(catalog: seq<string>, rows: map<string, Row>, es: seq<Entry>, now: int,
                         rows': map<string, Row>, id: string)
  {
    && (forall e, r | e in es && e.id == id && AsksRow(catalog, e, now, r) :: id in rows' && !Later(r, rows'[id]))
    && (id in rows ==> id in rows' && (rows'[id] == rows[id] || Later(rows'[id], rows[id])))
    && (id in rows' && !(id in rows && rows'[id] == rows[id]) ==>
          exists e :: e in es && e.id == id && AsksRow(catalog, e, now, rows'[id]))
  }

  lemma {:induction false} SyncMerges(catalog: seq<string>, rows: map<string, Row>, es: seq<Entry>, now: int,
                                      id: string)
    ensures Merges(catalog, rows, es, now, SyncRows(catalog, rows, es, now), id)
  {
    var rows' := SyncRows(catalog, rows, es, now);
    var offers := Offers(Proposals(catalog, es, now), id);
    SyncIsFirstLatest(catalog, rows, es, now, id);
    forall e, r | e in es && e.id == id && AsksRow(catalog, e, now, r) ensures r in offers {
      OfferMeans(catalog, e, now);
      OffersMeaning(catalog, es, id, now, r);
    }
    FirstLatestMeans(Stored(rows, id), offers);
    if id in rows' && rows'[id] in offers {
      OffersMeaning(catalog, es, id, now, rows'[id]);
      var e :| e in es && e.id == id && Offer(catalog, e, now) == Some(rows'[id]);
      OfferMeans(catalog, e, now);
    }
  }

  lemma {:induction false} FirstLatestMeans(stored: seq<Row>, offers: seq<Row>)
    requires |stored| <= 1
    ensures stored + offers == [] <==> stored == [] && offers == []
    ensures offers != [] <==> exists r :: r in offers
    ensures forall r | IsFirstLatest(stored + offers, r) ::
              && (forall x | x in offers :: !Later(x, r))
              && (stored != [] ==> r == stored[0] || Later(r, stored[0]))
              && (stored == [] || r != stored[0] ==> r in offers)
  {
    if offers != [] { assert offers[0] in offers; }
    forall r | IsFirstLatest(stored + offers, r)
      ensures forall x | x in offers :: !Later(x, r)
      ensures stored != [] ==> r == stored[0] || Later(r, stored[0])
      ensures stored == [] || r != stored[0] ==> r in offers
    {
      forall x | x in offers ensures !Later(x, r) {
        assert x in stored + offers;
      }
      assert r in stored + offers;
      assert stored != [] ==> (stored + offers)[0] == stored[0];
    }
  }

  /** A stored stamp never goes back in a sync, and a light without usable entry is untouched. */
  lemma {:induction false} SyncNeverGoesBack(catalog: seq<string>, rows: map<string, Row>, es: seq<Entry>, now: int,
                                             id: string)
    ensures var rows' := SyncRows(catalog, rows, es, now);
            && (id in rows ==> id in rows' && !Later(rows[id], rows'[id]))
            && ((forall e | e in es && e.id == id :: Offer(catalog, e, now).None?) ==>
                 (id in rows' <==> id in rows) && (id in rows ==> rows'[id] == rows[id]))
  {
    SyncIsFirstLatest(catalog, rows, es, now, id);
    var offers := Offers(Proposals(catalog, es, now), id);
    if id in rows {
      assert Candidates(catalog, rows, es, now, id)[0] == rows[id];
    }
    if forall e | e in es && e.id == id :: Offer(catalog, e, now).None? {
      if offers != [] {
        OffersMeaning(catalog, es, id, now, offers[0]);
      }
      assert Candidates(catalog, rows, es, now, id) == Stored(rows, id);
    }
  }

  lemma {:induction false} OffersAreProposed(ps: seq<Proposal>, id: string, r: Row)
    ensures r in Offers(ps, id) <==> Proposal(id, Some(r)) in ps
  {
    if ps != [] {
      var n := |ps| - 1;
      OffersAreProposed(ps[..n], id, r);
      assert ps == ps[..n] + [ps[n]];
    }
  }

  lemma {:induction false} OffersMeaning(catalog: seq<string>, es: seq<Entry>, id: string, now: int, r: Row)
    ensures r in Offers(Proposals(catalog, es, now), id)
       <==> exists e :: e in es && e.id == id && Offer(catalog, e, now) == Some(r)
  {
    var ps := Proposals(catalog, es, now);
    OffersAreProposed(ps, id, r);
    if Proposal(id, Some(r)) in ps {
      var i :| 0 <= i < |ps| && ps[i] == Proposal(id, Some(r));
      assert es[i] in es;
    }
    if e :| e in es && e.id == id && Offer(catalog, e, now) == Some(r) {
      var i :| 0 <= i < |es| && es[i] == e;
      assert ps[i] == Proposal(id, Some(r));
    }
  }

  /** Two usable entries for one light with the same stamp say the same. */
  ghost predicate TiesAgree(catalog: seq<string>, es: seq<Entry>, now: int) {
    forall e, f | e in es && f in es && e.id == f.id && Offer(catalog, e, now).Some? && Offer(catalog, f, now).Some? ::
      var x, y := Offer(catalog, e, now).value, Offer(catalog, f, now).value;
      Later(x, y) || Later(y, x) || x == y
  }

  /** Unless two different entries for one light tie, neither order nor repetition matters. */
  lemma {:induction false} OrderMattersOnTiesOnly(catalog: seq<string>, rows: map<string, Row>, es: seq<Entry>,
                                                  fs: seq<Entry>, now: int)
    requires (forall e :: e in es <==> e in fs) && TiesAgree(catalog, es, now)
    ensures SyncRows(catalog, rows, es, now) == SyncRows(catalog, rows, fs, now)
  {
    var x, y := SyncRows(catalog, rows, es, now), SyncRows(catalog, rows, fs, now);
    forall id ensures (id in x <==> id in y) && (id in x ==> x[id] == y[id]) {
      SyncIsFirstLatest(catalog, rows, es, now, id);
      SyncIsFirstLatest(catalog, rows, fs, now, id);
      var xs, ys := Offers(Proposals(catalog, es, now), id), Offers(Proposals(catalog, fs, now), id);
      forall r ensures r in xs <==> r in ys {
        OffersMeaning(catalog, es, id, now, r);
        OffersMeaning(catalog, fs, id, now, r);
      }
      assert xs == [] <==> ys == [] by {
        if xs != [] { assert xs[0] in ys; }
        if ys != [] { assert ys[0] in xs; }
      }
      if id in x {
        if x[id] in xs { OffersMeaning(catalog, es, id, now, x[id]); }
        if y[id] in xs { OffersMeaning(catalog, es, id, now, y[id]); }
        SameLatest(Stored(rows, id), xs, ys, x[id], y[id]);
      }
    }
    assert x.Keys == y.Keys;
  }

  lemma {:induction false} SameLatest(stored: seq<Row>, xs: seq<Row>, ys: seq<Row>, x: Row, y: Row)
    requires |stored| <= 1 && (forall r :: r in xs <==> r in ys)
    requires IsFirstLatest(stored + xs, x) && IsFirstLatest(stored + ys, y)
    requires x in xs && y in xs ==> Later(x, y) || Later(y, x) || x == y
    ensures x == y
  {
    assert x in stored + ys && y in stored + xs;
    assert !Later(x, y) && !Later(y, x);
  }

  // ---------------------------------------------------------------- fixed point

  /** What a gateway that adopted an answer sends back. */
  function Echo(views: seq<View>): seq<Entry> {
    seq(|views|, i requires 0 <= i < |views| =>
      Entry(views[i].id, if views[i].name.None? then Null else Text(views[i].name.value),
            views[i].version, views[i].updatedAt))
  }

  /** An entry that repeats a stored stamp, at whatever clock, is never newer. */
  lemma {:induction false} EchoIsIgnored(catalog: seq<string>, rows: map<string, Row>, e: Entry, now: int)
    requires e.id in rows ==> e.version == rows[e.id].version && e.at == Some(rows[e.id].updatedAt)
    requires e.id !in rows ==> e.version == 0
    ensures !Accepted(rows, Proposal(e.id, Offer(catalog, e, now)))
  {
    if e.id in rows && Offer(catalog, e, now).Some? {
      TurnComparesStamps(rows, Proposal(e.id, Offer(catalog, e, now)));
    }
  }

  lemma {:induction false} RejectedChangeNothing(rows: map<string, Row>, ps: seq<Proposal>)
    requires forall p | p in ps :: !Accepted(rows, p)
    ensures Turns(rows, ps) == rows
  {
    if ps != [] {
      RejectedChangeNothing(rows, ps[..|ps| - 1]);
      assert ps[|ps| - 1] in ps;
    }
  }

  /** Every entry of an echoed answer is rejected, whatever the table holds and whatever the clock says. */
  lemma {:induction false} EchoIsRejected(catalog: seq<string>, rows: map<string, Row>, now: int)
    ensures forall p | p in Proposals(catalog, Echo(Views(catalog, rows)), now) :: !Accepted(rows, p)
  {
    var es := Echo(Views(catalog, rows));
    var ps := Proposals(catalog, es, now);
    forall i | 0 <= i < |ps| ensures !Accepted(rows, ps[i]) {
      assert es[i].id == catalog[i];
      EchoIsIgnored(catalog, rows, es[i], now);
    }
  }

  /**
   Sync reaches a fixed point after one exchange: a gateway that adopts the answer and sends it
   back, at any clock, has every entry rejected, so nothing is written and nothing changes.
   */
  lemma {:induction false} SyncReachesFixedPoint(catalog: seq<string>, rows: map<string, Row>, es: seq<Entry>,
                                                 now: int, later: int)
    ensures var rows' := SyncRows(catalog, rows, es, now);
            var echo := Echo(Views(catalog, rows'));
            && (forall p | p in Proposals(catalog, echo, later) :: !Accepted(rows', p))
            && SyncRows(catalog, rows', echo, later) == rows'
  {
    var rows' := SyncRows(catalog, rows, es, now);
    EchoIsRejected(catalog, rows', later);
    RejectedChangeNothing(rows', Proposals(catalog, Echo(Views(catalog, rows')), later));
  }

  // ---------------------------------------------------------------- runs

  datatype Event =
    | Rename(id: string, name: Option<string>, author: string, now: int)
    | Sync(entries: seq<Entry>, now: int)

  function Next(catalog: seq<string>, rows: map<string, Row>, ev: Event): map<string, Row> {
    match ev
    case Rename(id, name, author, now) => if id in catalog then Renamed(rows, id, name, author, now) else rows
    case Sync(es, now) => SyncRows(catalog, rows, es, now)
  }

  function Run(catalog: seq<string>, events: seq<Event>): map<string, Row> {
    if events == [] then map[] else Next(catalog, Run(catalog, events[..|events| - 1]), events[|events| - 1])
  }

  ghost predicate SoundRow(catalog: seq<string>, id: string, r: Row, now: int) {
    id in catalog && r.version >= 1 && r.updatedAt <= now + 300_000
  }

  lemma {:induction false} TurnsKeepSound(catalog: seq<string>, rows: map<string, Row>, ps: seq<Proposal>, now: int)
    requires forall id | id in rows :: SoundRow(catalog, id, rows[id], now)
    requires forall p | p in ps && p.offer.Some? :: SoundRow(catalog, p.id, p.offer.value, now)
    ensures forall id | id in Turns(rows, ps) :: SoundRow(catalog, id, Turns(rows, ps)[id], now)
  {
    if ps != [] {
      TurnsKeepSound(catalog, rows, ps[..|ps| - 1], now);
      assert ps[|ps| - 1] in ps;
    }
  }

  /**
   On every run of renames and syncs with a non-decreasing clock, every stored row is of a
   known light, has a version of at least 1, and is never stamped more than five minutes ahead:
   a gateway with a wrong clock cannot win for longer.
   */
  lemma {:induction false} RowsStaySound(catalog: seq<string>, events: seq<Event>, now: int)
    requires forall i, j | 0 <= i < j < |events| :: events[i].now <= events[j].now
    requires forall i | 0 <= i < |events| :: events[i].now <= now
    ensures forall id | id in Run(catalog, events) :: SoundRow(catalog, id, Run(catalog, events)[id], now)
  {
    if events != [] {
      var n := |events| - 1;
      var rows := Run(catalog, events[..n]);
      RowsStaySound(catalog, events[..n], events[n].now);
      if events[n].Sync? {
        TurnsKeepSound(catalog, rows, Proposals(catalog, events[n].entries, events[n].now), events[n].now);
      }
    }
  }
}
