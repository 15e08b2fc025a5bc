/** Exchange-table entries, the index constants, and the map a list of entries stands for. */
module Exchange {

  const INDEX_SCENARIO := 590
  const INDEX_LIGHT_START := 605
  const INDEX_LIGHT_END := 622
  const INDEX_SECURITY_OUTLETS := 623
  const MAX_FIRMWARE_PARAMS := 30

  datatype KV = KV(k: int, v: string)

  predicate IsBlockIndex(k: int) {
    INDEX_LIGHT_START <= k <= INDEX_LIGHT_END
  }

  /** The map a list of entries stands for: the last entry of a key wins. */
  function LastWins(ps: seq<KV>): map<int, string> {
    if ps == [] then map[]
    else LastWins(ps[..|ps| - 1])[ps[|ps| - 1].k := ps[|ps| - 1].v]
  }

  ghost predicate StrictlyIncreasing(ps: seq<KV>) {
    forall i, j | 0 <= i < j < |ps| :: ps[i].k < ps[j].k
  }

  ghost predicate DistinctKeys(ps: seq<KV>) {
    forall i, j | 0 <= i < j < |ps| :: ps[i].k != ps[j].k
  }

  /** `k` is bound to the value of its last entry. */
  lemma {:induction false} LastWinsMeaning(ps: seq<KV>, k: int)
    ensures k in LastWins(ps) <==> exists i :: 0 <= i < |ps| && ps[i].k == k
    ensures k in LastWins(ps) ==>
              exists i :: 0 <= i < |ps| && ps[i] == KV(k, LastWins(ps)[k]) && forall j | i < j < |ps| :: ps[j].k != k
  {
    if ps != [] {
      var n := |ps| - 1;
      LastWinsMeaning(ps[..n], k);
      if ps[n].k == k {
        assert ps[n] == KV(k, LastWins(ps)[k]);
      } else if k in LastWins(ps[..n]) {
        var i :| 0 <= i < n && ps[..n][i] == KV(k, LastWins(ps)[k]) && forall j | i < j < n :: ps[..n][j].k != k;
        assert ps[i] == KV(k, LastWins(ps)[k]);
      } else {
        assert forall i | 0 <= i < n :: ps[i] == ps[..n][i];
      }
    }
  }

  lemma {:induction false} LastWinsConcat(xs: seq<KV>, ys: seq<KV>)
    ensures LastWins(xs + ys) == LastWins(xs) + LastWins(ys)
  {
    if ys == [] {
      assert xs + ys == xs;
    } else {
      assert (xs + ys)[..|xs + ys| - 1] == xs + ys[..|ys| - 1];
      LastWinsConcat(xs, ys[..|ys| - 1]);
    }
  }

  /** Without duplicates every entry is the one that wins. */
  lemma {:induction false} LastWinsDistinct(ps: seq<KV>, i: nat)
    requires DistinctKeys(ps) && i < |ps|
    ensures ps[i].k in LastWins(ps) && LastWins(ps)[ps[i].k] == ps[i].v
  {
    LastWinsMeaning(ps, ps[i].k);
  }

  /** The last entry of a strictly increasing list is the largest of its map. */
  lemma {:induction false} SameLast(xs: seq<KV>, ys: seq<KV>)
    requires StrictlyIncreasing(xs) && StrictlyIncreasing(ys) && xs != [] && ys != []
    requires LastWins(xs) == LastWins(ys)
    ensures xs[|xs| - 1] == ys[|ys| - 1]
  {
    var m, n := |xs| - 1, |ys| - 1;
    LastWinsDistinct(xs, m);
    LastWinsDistinct(ys, n);
    LastWinsMeaning(ys, xs[m].k);
    LastWinsMeaning(xs, ys[n].k);
  }

  /** A strictly increasing list is determined by the map it stands for. */
  lemma {:induction false} SortedIsUnique(xs: seq<KV>, ys: seq<KV>)
    requires StrictlyIncreasing(xs) && StrictlyIncreasing(ys)
    requires LastWins(xs) == LastWins(ys)
    ensures xs == ys
  {
    EmptyMap(xs);
    EmptyMap(ys);
    if xs != [] {
      var m, n := |xs| - 1, |ys| - 1;
      SameLast(xs, ys);
      DropLast(xs);
      DropLast(ys);
      SortedIsUnique(xs[..m], ys[..n]);
      assert xs == xs[..m] + [xs[m]];
      assert ys == ys[..n] + [ys[n]];
    }
  }

  lemma {:induction false} EmptyMap(ps: seq<KV>)
    ensures LastWins(ps) == map[] <==> ps == []
  {
    if ps != [] {
      assert ps[|ps| - 1].k in LastWins(ps);
    }
  }

  lemma {:induction false} DropLast(xs: seq<KV>)
    requires xs != [] && DistinctKeys(xs)
    ensures LastWins(xs[..|xs| - 1]) == LastWins(xs) - {xs[|xs| - 1].k}
  {
    var m := |xs| - 1;
    LastWinsMeaning(xs[..m], xs[m].k);
    assert forall i | 0 <= i < m :: xs[..m][i].k != xs[m].k;
  }
}
