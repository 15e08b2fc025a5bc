/**
 A gateway sync that portal renames overlap: the sync reads the rows once and writes them entry
 by entry, without looking at the table again.
 */
module LightNameRaces {
  import opened Wrappers
  import opened Sequences
  import opened LightNames

  /** The stored rows, and the copy the sync read and keeps up to date with its own writes. */
  datatype Mid = Mid(table: map<string, Row>, copy: map<string, Row>)

  datatype Event =
    | Offered(p: Proposal)
    | Renaming(id: string, name: Option<string>, author: string, now: int)

  /** The step is an entry that the sync accepts by its copy and writes to the table. */
  predicate Writes(m: Mid, e: Event, id: string) {
    e.Offered? && e.p.id == id && Accepted(m.copy, e.p)
  }

  function Next(m: Mid, e: Event): Mid {
    match e
    case Offered(p) =>
      if Accepted(m.copy, p) then Mid(m.table[p.id := p.offer.value], m.copy[p.id := p.offer.value]) else m
    case Renaming(id, name, author, now) => m.(table := Renamed(m.table, id, name, author, now))
  }

  function Run(rows: map<string, Row>, es: seq<Event>): Mid {
    if es == [] then Mid(rows, rows) else Next(Run(rows, es[..|es| - 1]), es[|es| - 1])
  }

  lemma {:induction false} RunNext(rows: map<string, Row>, es: seq<Event>, k: nat)
    requires k < |es|
    ensures Run(rows, es[..k + 1]) == Next(Run(rows, es[..k]), es[k])
  {
    PrefixOfPrefix(es, k, k + 1);
  }

  // ---------------------------------------------------------------- undisturbed

  function Entries(ps: seq<Proposal>): (es: seq<Event>)
    ensures |es| == |ps|
  {
    seq(|ps|, i requires 0 <= i < |ps| => Offered(ps[i]))
  }

  /** Without renames the steps are the sync of `LightNames`. */
  lemma {:induction false} UndisturbedIsSync(rows: map<string, Row>, ps: seq<Proposal>)
    ensures Run(rows, Entries(ps)) == Mid(Turns(rows, ps), Turns(rows, ps))
  {
    if ps != [] {
      UndisturbedIsSync(rows, ps[..|ps| - 1]);
      assert Entries(ps)[..|ps| - 1] == Entries(ps[..|ps| - 1]);
    }
  }

  // ---------------------------------------------------------------- stamps

  /** A write of the sync takes no stored stamp back. */
  predicate Forward(m: Mid, e: Event) {
    e.Offered? && Accepted(m.copy, e.p) && e.p.id in m.table ==> !Later(m.table[e.p.id], e.p.offer.value)
  }

  /** The light stands in the copy as it is stored. */
  predicate Agrees(m: Mid, id: string) {
    (id in m.table <==> id in m.copy) && (id in m.table ==> m.table[id] == m.copy[id])
  }

  predicate Renames(e: Event, id: string) {
    e.Renaming? && e.id == id
  }

  /** Before step `k` the light was renamed since the sync read it or last wrote it. */
  predicate Overtaken(rows: map<string, Row>, es: seq<Event>, k: nat, id: string)
    requires k <= |es|
  {
    k > 0 &&
    (Renames(es[k - 1], id) || (Overtaken(rows, es, k - 1, id) && !Writes(Run(rows, es[..k - 1]), es[k - 1], id)))
  }

  /** A light that was overtaken stands at a higher version in the table than in the copy. */
  ghost predicate Ahead(m: Mid, id: string) {
    id in m.table && (id in m.copy ==> m.table[id].version > m.copy[id].version)
  }

  lemma {:induction false} AgreementUpTo(rows: map<string, Row>, es: seq<Event>, k: nat, id: string)
    requires k <= |es|
    ensures if Overtaken(rows, es, k, id) then Ahead(Run(rows, es[..k]), id) else Agrees(Run(rows, es[..k]), id)
  {
    if k > 0 {
      AgreementUpTo(rows, es, k - 1, id);
      RunNext(rows, es, k - 1);
    }
  }

  /**
   The answer is built from the copy. After any interleaving it shows the stored row of a light
   if and only if no rename of the light came after the sync read it or last wrote it.
   */
  lemma {:induction false} AnswerIsStoredIff(rows: map<string, Row>, es: seq<Event>, id: string)
    ensures Agrees(Run(rows, es), id) <==> !Overtaken(rows, es, |es|, id)
  {
    AgreementUpTo(rows, es, |es|, id);
    assert es[..|es|] == es;
  }

  /** No write of the sync meets a light renamed since the sync read or last wrote it. */
  ghost predicate RenamesApart(rows: map<string, Row>, es: seq<Event>) {
    forall k | 0 <= k < |es| && es[k].Offered? && Accepted(Run(rows, es[..k]).copy, es[k].p) ::
      !Overtaken(rows, es, k, es[k].p.id)
  }

  /**
   A stored stamp goes back in a sync only where a write overtakes a rename: when no light is
   renamed between the sync's read, or last write, and its write, none does.
   */
  lemma {:induction false} RenamesApartForward(rows: map<string, Row>, es: seq<Event>, k: nat)
    requires RenamesApart(rows, es) && k < |es|
    ensures Forward(Run(rows, es[..k]), es[k])
  {
    if es[k].Offered? && Accepted(Run(rows, es[..k]).copy, es[k].p) {
      AgreementUpTo(rows, es, k, es[k].p.id);
    }
  }

  /** Step `j` is the last rename of the light before step `k`, and the sync did not write it since. */
  predicate LastRename(rows: map<string, Row>, es: seq<Event>, j: nat, k: nat, id: string)
    requires j < k <= |es|
  {
    Renames(es[j], id) &&
    (k > j + 1 ==>
       LastRename(rows, es, j, k - 1, id) && !Renames(es[k - 1], id) && !Writes(Run(rows, es[..k - 1]), es[k - 1], id))
  }

  lemma {:induction false} OvertakenByLast(rows: map<string, Row>, es: seq<Event>, k: nat, id: string) returns (j: nat)
    requires k <= |es| && Overtaken(rows, es, k, id)
    ensures j < k && LastRename(rows, es, j, k, id)
  {
    if Renames(es[k - 1], id) {
      j := k - 1;
    } else {
      j := OvertakenByLast(rows, es, k - 1, id);
    }
  }

  /** The row a rename stores. */
  function RenamedRow(rows: map<string, Row>, es: seq<Event>, j: nat): (r: Row)
    requires j < |es| && es[j].Renaming?
    ensures r.updatedAt == es[j].now && r.name == es[j].name
  {
    Renamed(Run(rows, es[..j]).table, es[j].id, es[j].name, es[j].author, es[j].now)[es[j].id]
  }

  lemma {:induction false} StoredSince(rows: map<string, Row>, es: seq<Event>, j: nat, k: nat, id: string)
    requires j < k <= |es| && LastRename(rows, es, j, k, id)
    ensures id in Run(rows, es[..k]).table && Run(rows, es[..k]).table[id] == RenamedRow(rows, es, j)
  {
    RunNext(rows, es, k - 1);
    if k > j + 1 {
      StoredSince(rows, es, j, k - 1, id);
    }
  }

  /** The entry of step `k` is written over the rename of step `j`, which has the later stamp. */
  predicate LosesRename(rows: map<string, Row>, es: seq<Event>, j: nat, k: nat)
    requires j < k < |es|
  {
    && es[k].Offered? && Accepted(Run(rows, es[..k]).copy, es[k].p)
    && LastRename(rows, es, j, k, es[k].p.id) && Later(RenamedRow(rows, es, j), es[k].p.offer.value)
  }

  lemma {:induction false} ForwardAtIff(rows: map<string, Row>, es: seq<Event>, k: nat)
    requires k < |es|
    ensures Forward(Run(rows, es[..k]), es[k]) <==> forall j | 0 <= j < k :: !LosesRename(rows, es, j, k)
  {
    var m := Run(rows, es[..k]);
    if es[k].Offered? && Accepted(m.copy, es[k].p) {
      var id := es[k].p.id;
      forall j | 0 <= j < k && LastRename(rows, es, j, k, id)
        ensures id in m.table && m.table[id] == RenamedRow(rows, es, j)
      {
        StoredSince(rows, es, j, k, id);
      }
      if Overtaken(rows, es, k, id) {
        var j := OvertakenByLast(rows, es, k, id);
        assert Forward(m, es[k]) <==> !LosesRename(rows, es, j, k);
      } else {
        AgreementUpTo(rows, es, k, id);
      }
    }
  }

  /**
   Over every interleaving of a sync with renames, its writes take no stored stamp back if and
   only if none is written over a rename with a later stamp.
   */
  lemma {:induction false} NoStampGoesBackIff(rows: map<string, Row>, es: seq<Event>)
    ensures (forall k | 0 <= k < |es| :: Forward(Run(rows, es[..k]), es[k]))
       <==> (forall j, k | 0 <= j < k < |es| :: !LosesRename(rows, es, j, k))
  {
    forall k | 0 <= k < |es|
      ensures Forward(Run(rows, es[..k]), es[k]) <==> forall j | 0 <= j < k :: !LosesRename(rows, es, j, k)
    {
      ForwardAtIff(rows, es, k);
    }
  }

  /** A light renamed at 100 while the sync, which read it at 10, writes the entry of 50: the rename is lost. */
  lemma {:induction false} RenameLost(id: string, a: Row, name: Option<string>, author: string, offer: Row)
    requires a.updatedAt == 10 && offer.updatedAt == 50
    ensures var es := [Renaming(id, name, author, 100), Offered(Proposal(id, Some(offer)))];
            && Run(map[id := a], es[..1]).table[id] == Row(name, a.version + 1, 100, author)
            && Run(map[id := a], es).table == map[id := offer]
            && !Forward(Run(map[id := a], es[..1]), es[1])
  {
    var es := [Renaming(id, name, author, 100), Offered(Proposal(id, Some(offer)))];
    assert es[..1] == [Renaming(id, name, author, 100)] && es[..1][..0] == [] && es[..2] == es;
    RunNext(map[id := a], es, 1);
  }
}
