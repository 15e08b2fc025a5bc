/**
 Pushes into the exchange cache that overlap: the upsert reads the row and writes it in two
 statements, which other pushes may come between.
 */
module CacheRaces {
  import opened Wrappers
  import opened Sequences
  import opened Exchange
  import opened ExchangeCache

  /** A push reads the row and, later, writes it. */
  datatype Event =
    | Begin(push: nat, keys: seq<KV>)
    | Write(push: nat, merged: seq<KV>)

  /** What a push has read, and whether it has written. */
  datatype Push = Push(keys: seq<KV>, seen: Option<seq<KV>>, done: bool)

  /** The row of one machine, the pushes begun, and the pushes written, in order. */
  datatype Row = Row(stored: Option<seq<KV>>, pushes: map<nat, Push>, written: seq<seq<KV>>)

  function View(stored: Option<seq<KV>>): map<int, string> {
    if stored.None? then map[] else LastWins(stored.value)
  }

  /** The step is the write of a push that was begun. */
  predicate Writes(r: Row, e: Event) {
    e.Write? && e.push in r.pushes && !r.pushes[e.push].done
  }

  function Next(r: Row, e: Event): Row {
    match e
    case Begin(push, keys) =>
      if push in r.pushes then r else r.(pushes := r.pushes[push := Push(keys, r.stored, false)])
    case Write(push, merged) =>
      if !Writes(r, e) then r else
      Row(Some(merged), r.pushes[push := r.pushes[push].(done := true)], r.written + [r.pushes[push].keys])
  }

  function Run(es: seq<Event>): Row {
    if es == [] then Row(None, map[], []) else Next(Run(es[..|es| - 1]), es[|es| - 1])
  }

  /** Each push writes what the upsert makes of the row it read. */
  ghost predicate Lawful(es: seq<Event>) {
    forall i | 0 <= i < |es| && Writes(Run(es[..i]), es[i]) ::
      var p := Run(es[..i]).pushes[es[i].push]; Upserted(p.seen, p.keys, es[i].merged)
  }

  /** The cache stands for all written pushes, overridden in the order they were written. */
  ghost predicate KeepsPushes(r: Row) {
    View(r.stored) == Overridden(r.written)
  }

  /** What the push does not overwrite is as it was when the push read the row. */
  predicate SeesTheRest(r: Row, e: Event) {
    Writes(r, e) ==>
      var p := r.pushes[e.push];
      View(p.seen) - LastWins(p.keys).Keys == View(r.stored) - LastWins(p.keys).Keys
  }

  lemma {:induction false} OverridesAlike(a: map<int, string>, b: map<int, string>, m: map<int, string>)
    ensures a + m == b + m <==> a - m.Keys == b - m.Keys
  {
    if a + m == b + m {
      forall k ensures k in a - m.Keys <==> k in b - m.Keys {
        assert k in a + m <==> k in b + m;
      }
      forall k | k in a - m.Keys ensures a[k] == b[k] {
        assert (a + m)[k] == (b + m)[k];
      }
    } else if a - m.Keys == b - m.Keys {
      forall k ensures k in a + m <==> k in b + m {
        assert k in a - m.Keys <==> k in b - m.Keys;
      }
      forall k | k in a + m ensures (a + m)[k] == (b + m)[k] {
        if k !in m { assert (a - m.Keys)[k] == (b - m.Keys)[k]; }
      }
    }
  }

  /** A write keeps every earlier push exactly when it saw all it does not overwrite. */
  lemma {:induction false} StepKeepsPushesIff(r: Row, e: Event)
    requires KeepsPushes(r)
    requires Writes(r, e) ==> Upserted(r.pushes[e.push].seen, r.pushes[e.push].keys, e.merged)
    ensures KeepsPushes(Next(r, e)) <==> SeesTheRest(r, e)
  {
    if Writes(r, e) {
      var p := r.pushes[e.push];
      OverridesAlike(View(p.seen), View(r.stored), LastWins(p.keys));
      assert (r.written + [p.keys])[..|r.written|] == r.written;
    }
  }

  lemma {:induction false} RunNext(es: seq<Event>, i: nat)
    requires i < |es|
    ensures Run(es[..i + 1]) == Next(Run(es[..i]), es[i])
  {
    assert es[..i + 1][..i] == es[..i];
  }

  lemma {:induction false} KeepsPushesUpTo(es: seq<Event>, k: nat)
    requires Lawful(es) && k <= |es| && forall i | 0 <= i < |es| :: SeesTheRest(Run(es[..i]), es[i])
    ensures KeepsPushes(Run(es[..k]))
  {
    if k > 0 {
      KeepsPushesUpTo(es, k - 1);
      RunNext(es, k - 1);
      StepKeepsPushesIff(Run(es[..k - 1]), es[k - 1]);
    }
  }

  /**
   The upsert reads the row and writes it in two statements. At every point of a run the cache
   stands for all written pushes if and only if each push, when it wrote, had seen everything it
   did not overwrite itself.
   */
  lemma {:induction false} PushesKeptIff(es: seq<Event>)
    requires Lawful(es)
    ensures (forall k | 0 <= k <= |es| :: KeepsPushes(Run(es[..k])))
       <==> (forall i | 0 <= i < |es| :: SeesTheRest(Run(es[..i]), es[i]))
  {
    if forall i | 0 <= i < |es| :: SeesTheRest(Run(es[..i]), es[i]) {
      forall k | 0 <= k <= |es| ensures KeepsPushes(Run(es[..k])) {
        KeepsPushesUpTo(es, k);
      }
    }
    if forall k | 0 <= k <= |es| :: KeepsPushes(Run(es[..k])) {
      forall i | 0 <= i < |es| ensures SeesTheRest(Run(es[..i]), es[i]) {
        RunNext(es, i);
        assert KeepsPushes(Run(es[..i])) && KeepsPushes(Run(es[..i + 1]));
        StepKeepsPushesIff(Run(es[..i]), es[i]);
      }
    }
  }

  // ---------------------------------------------------------------- pushes that do not overlap

  /** Step `i` is where the push read the row. */
  predicate BegunAt(es: seq<Event>, i: nat, push: nat)
    requires i < |es|
  {
    es[i].Begin? && es[i].push == push && push !in Run(es[..i]).pushes
  }

  lemma {:induction false} WasBegun(es: seq<Event>, push: nat) returns (i: nat)
    requires push in Run(es).pushes
    ensures i < |es| && BegunAt(es, i, push) && Run(es).pushes[push].seen == Run(es[..i]).stored
  {
    var n := |es| - 1;
    if push in Run(es[..n]).pushes {
      i := WasBegun(es[..n], push);
      PrefixOfPrefix(es, i, n);
    } else {
      i := n;
    }
  }

  /** No push is written between the read and the write of another. */
  ghost predicate PushesApart(es: seq<Event>) {
    forall i, j, k | 0 <= i < j < k < |es| && Writes(Run(es[..k]), es[k]) && BegunAt(es, i, es[k].push) ::
      !Writes(Run(es[..j]), es[j])
  }

  lemma {:induction false} StoredSame(es: seq<Event>, i: nat, k: nat)
    requires i <= k <= |es| && forall j | i <= j < k :: !Writes(Run(es[..j]), es[j])
    ensures Run(es[..k]).stored == Run(es[..i]).stored
  {
    if i < k {
      StoredSame(es, i, k - 1);
      RunNext(es, k - 1);
    }
  }

  /** Then every push finds the row as it read it, and the cache stands for all of them at every point. */
  lemma {:induction false} PushesApartKept(es: seq<Event>, k: nat)
    requires Lawful(es) && PushesApart(es) && k <= |es|
    ensures KeepsPushes(Run(es[..k]))
  {
    forall n | 0 <= n < |es| ensures SeesTheRest(Run(es[..n]), es[n]) {
      if Writes(Run(es[..n]), es[n]) {
        var i := WasBegun(es[..n], es[n].push);
        PrefixOfPrefix(es, i, n);
        assert BegunAt(es, i, es[n].push);
        StoredSame(es, i, n);
      }
    }
    PushesKeptIff(es);
  }

  /** Two pushes of one key each that both read the empty row: the first written is lost. */
  lemma {:induction false} PushLost(a: KV, b: KV)
    requires a.k != b.k
    ensures var es := [Begin(0, [a]), Begin(1, [b]), Write(0, [a]), Write(1, [b])];
            Lawful(es) && Run(es).written == [[a], [b]] && a.k !in View(Run(es).stored)
  {
    var es := [Begin(0, [a]), Begin(1, [b]), Write(0, [a]), Write(1, [b])];
    assert es[..4] == es;
    RunNext(es, 0);
    RunNext(es, 1);
    RunNext(es, 2);
    RunNext(es, 3);
    assert Run(es).stored == Some([b]);
    assert LastWins([b]) == map[b.k := b.v] by {
      assert [b][..0] == [];
    }
  }
}
