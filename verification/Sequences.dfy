/** Selecting, counting and flattening, and the arbitrary element a map iteration visits next. */
module Sequences {
  import opened Wrappers

  function Flatten<T>(chunks: seq<seq<T>>): seq<T> {
    if chunks == [] then [] else Flatten(chunks[..|chunks| - 1]) + chunks[|chunks| - 1]
  }

  lemma {:induction false} FlattenCons<T>(x: seq<T>, xs: seq<seq<T>>)
    ensures Flatten([x] + xs) == x + Flatten(xs)
  {
    if xs == [] {
      assert ([x] + xs)[..0] == [];
    } else {
      assert ([x] + xs)[..|xs|] == [x] + xs[..|xs| - 1];
      FlattenCons(x, xs[..|xs| - 1]);
    }
  }

  lemma {:induction false} PushAssociates<T>(xs: seq<T>, x: T, ys: seq<T>)
    ensures xs + ([x] + ys) == xs + [x] + ys
  {
  }

  lemma {:induction false} FlattenHas<T>(chunks: seq<seq<T>>, i: nat, j: nat)
    requires i < |chunks| && j < |chunks[i]|
    ensures chunks[i][j] in Flatten(chunks)
  {
    if i < |chunks| - 1 {
      FlattenHas(chunks[..|chunks| - 1], i, j);
    }
  }

  /** The elements that satisfy `p`, in order: what a DELETE of the others leaves. */
  function Select<T>(s: seq<T>, p: T -> bool): seq<T> {
    if s == [] then [] else
    Select(s[..|s| - 1], p) + if p(s[|s| - 1]) then [s[|s| - 1]] else []
  }

  lemma {:induction false} SelectMeaning<T>(s: seq<T>, p: T -> bool)
    ensures forall x :: x in Select(s, p) <==> x in s && p(x)
  {
    if s != [] {
      SelectMeaning(s[..|s| - 1], p);
      assert s == s[..|s| - 1] + [s[|s| - 1]];
    }
  }

  /** Selecting from a table with one more row. */
  lemma {:induction false} SelectPush<T>(s: seq<T>, x: T, p: T -> bool)
    ensures Select(s + [x], p) == if p(x) then Select(s, p) + [x] else Select(s, p)
  {
    assert (s + [x])[..|s|] == s;
    assert Select(s, p) + [] == Select(s, p);
  }

  lemma {:induction false} SelectConcat<T>(xs: seq<T>, ys: seq<T>, p: T -> bool)
    ensures Select(xs + ys, p) == Select(xs, p) + Select(ys, p)
  {
    if ys == [] {
      assert xs + ys == xs;
    } else {
      assert (xs + ys)[..|xs + ys| - 1] == xs + ys[..|ys| - 1];
      SelectConcat(xs, ys[..|ys| - 1], p);
    }
  }

  lemma {:induction false} SelectNone<T>(s: seq<T>, p: T -> bool)
    requires forall i | 0 <= i < |s| :: !p(s[i])
    ensures Select(s, p) == []
  {
    if s != [] {
      SelectNone(s[..|s| - 1], p);
    }
  }

  lemma {:induction false} SelectAll<T>(s: seq<T>, p: T -> bool)
    requires forall i | 0 <= i < |s| :: p(s[i])
    ensures Select(s, p) == s
  {
    if s != [] {
      SelectAll(s[..|s| - 1], p);
    }
  }

  /** `idx` lists, in order, exactly the positions whose element satisfies `p`. */
  ghost predicate Positions<T>(idx: seq<nat>, s: seq<T>, p: T -> bool) {
    && (forall i, j | 0 <= i < j < |idx| :: idx[i] < idx[j])
    && (forall i | 0 <= i < |idx| :: idx[i] < |s| && p(s[idx[i]]))
    && (forall j | 0 <= j < |s| && p(s[j]) :: j in idx)
  }

  /** The elements at those positions. */
  ghost predicate Picked<T>(out: seq<T>, idx: seq<nat>, s: seq<T>)
    requires forall i | 0 <= i < |idx| :: idx[i] < |s|
  {
    |out| == |idx| && forall i | 0 <= i < |idx| :: out[i] == s[idx[i]]
  }

  lemma {:induction false} PositionsPush<T>(idx: seq<nat>, s: seq<T>, x: T, p: T -> bool)
    requires Positions(idx, s, p)
    ensures Positions(if p(x) then idx + [|s|] else idx, s + [x], p)
  {
    var all := if p(x) then idx + [|s|] else idx;
    forall j | 0 <= j < |s + [x]| && p((s + [x])[j]) ensures j in all {
      if j == |s| { assert all[|idx|] == j; } else { assert j in idx; }
    }
  }

  /** Selecting keeps exactly those elements, in their order. */
  lemma {:induction false} SelectPositions<T>(s: seq<T>, p: T -> bool) returns (idx: seq<nat>)
    ensures Positions(idx, s, p) && Picked(Select(s, p), idx, s)
  {
    if s == [] {
      return [];
    }
    var n := |s| - 1;
    var init, x := s[..n], s[n];
    assert init + [x] == s;
    idx := SelectPositions(init, p);
    SelectPush(init, x, p);
    PositionsPush(idx, init, x, p);
    if p(x) {
      idx := idx + [n];
    }
  }

  function Elements<T>(s: seq<T>): set<T> {
    set x | x in s
  }

  lemma {:induction false} IncreasingSize(idx: seq<nat>)
    requires forall i, j | 0 <= i < j < |idx| :: idx[i] < idx[j]
    ensures |Elements(idx)| == |idx|
  {
    if idx == [] {
      assert Elements(idx) == {};
    } else {
      var init, last := idx[..|idx| - 1], idx[|idx| - 1];
      IncreasingSize(init);
      assert idx == init + [last];
      assert last !in Elements(init) && Elements(idx) == Elements(init) + {last};
    }
  }

  lemma {:induction false} TakeHas<T>(s: seq<T>, n: nat)
    requires n <= |s|
    ensures forall k | 0 <= k < n :: s[k] in s[..n]
  {
    assert forall k | 0 <= k < n :: s[..n][k] == s[k];
  }

  /** The first listed positions come before all others. */
  lemma {:induction false} PrefixFirst<T>(idx: seq<nat>, s: seq<T>, p: T -> bool, n: nat)
    requires Positions(idx, s, p) && n <= |idx|
    ensures forall i, j | 0 <= i < |s| && p(s[i]) && i !in idx[..n] && 0 <= j < n :: idx[j] < i
  {
    TakeHas(idx, n);
    forall i, j | 0 <= i < |s| && p(s[i]) && i !in idx[..n] && 0 <= j < n ensures idx[j] < i {
      assert i in idx;
    }
  }

  function Places<T>(s: seq<T>, p: T -> bool): set<int> {
    set i | 0 <= i < |s| && p(s[i])
  }

  /** There are as many listed positions as elements that satisfy `p`. */
  lemma {:induction false} PositionsCount<T>(idx: seq<nat>, s: seq<T>, p: T -> bool)
    requires Positions(idx, s, p)
    ensures |idx| == |Places(s, p)|
  {
    IncreasingSize(idx);
    assert Places(s, p) == Elements(idx);
  }

  lemma PrefixOfPrefix<T>(s: seq<T>, i: nat, j: nat)
    requires i <= j <= |s|
    ensures s[..j][..i] == s[..i]
  {
  }

  /** The last element that satisfies `p`. */
  function FindLast<T>(s: seq<T>, p: T -> bool): (r: Option<T>)
    ensures r.Some? ==> r.value in s && p(r.value)
    ensures r.None? ==> forall x | x in s :: !p(x)
  {
    if s == [] then None
    else if p(s[|s| - 1]) then Some(s[|s| - 1])
    else FindLast(s[..|s| - 1], p)
  }

  /** How many elements satisfy `p`. */
  function Count<T>(s: seq<T>, p: T -> bool): nat {
    if s == [] then 0 else Count(s[..|s| - 1], p) + if p(s[|s| - 1]) then 1 else 0
  }

  /** The count is the size of the set of their positions. */
  lemma {:induction false} CountIsSize<T>(s: seq<T>, p: T -> bool)
    ensures Count(s, p) == |Places(s, p)|
  {
    if s == [] {
      assert Places(s, p) == {};
    } else {
      var n := |s| - 1;
      CountIsSize(s[..n], p);
      assert Places(s, p) == Places(s[..n], p) + if p(s[n]) then {n} else {};
    }
  }

  lemma {:induction false} CountPush<T>(s: seq<T>, x: T, p: T -> bool)
    ensures Count(s + [x], p) == Count(s, p) + if p(x) then 1 else 0
  {
    assert (s + [x])[..|s|] == s;
  }

  lemma {:induction false} CountCons<T>(x: T, s: seq<T>, p: T -> bool)
    ensures Count([x] + s, p) == Count(s, p) + if p(x) then 1 else 0
  {
    if s == [] {
      assert [x] + s == [x] && [x][..0] == [];
    } else {
      assert ([x] + s)[..|s|] == [x] + s[..|s| - 1];
      CountCons(x, s[..|s| - 1], p);
    }
  }

  lemma {:induction false} CountNone<T>(s: seq<T>, p: T -> bool)
    requires forall i | 0 <= i < |s| :: !p(s[i])
    ensures Count(s, p) == 0
  {
    if s != [] {
      CountNone(s[..|s| - 1], p);
    }
  }

  /** A count of none or one, element by element. */
  lemma {:induction false} CountFew<T>(s: seq<T>, p: T -> bool)
    ensures Count(s, p) == 0 <==> forall i | 0 <= i < |s| :: !p(s[i])
    ensures Count(s, p) <= 1 <==> forall i, j | 0 <= i < j < |s| :: !(p(s[i]) && p(s[j]))
  {
    if s != [] {
      CountFew(s[..|s| - 1], p);
    }
  }

  /** Rewriting rows in place adds none that satisfies `q` where none satisfied `p`. */
  lemma {:induction false} CountAtMost<T>(s: seq<T>, p: T -> bool, s': seq<T>, q: T -> bool)
    requires |s'| == |s| && forall i | 0 <= i < |s| :: q(s'[i]) ==> p(s[i])
    ensures Count(s', q) <= Count(s, p)
  {
    if s != [] {
      CountAtMost(s[..|s| - 1], p, s'[..|s| - 1], q);
    }
  }

  lemma {:induction false} CountSame<T>(s: seq<T>, s': seq<T>, p: T -> bool)
    requires |s'| == |s| && forall i | 0 <= i < |s| :: p(s'[i]) <==> p(s[i])
    ensures Count(s', p) == Count(s, p)
  {
    CountAtMost(s, p, s', p);
    CountAtMost(s', p, s, p);
  }

  /** Deleting rows lowers a count, unless only rows go that did not count. */
  lemma {:induction false} CountSelected<T>(s: seq<T>, keep: T -> bool, p: T -> bool)
    ensures Count(Select(s, keep), p) <= Count(s, p)
    ensures (forall x | x in s && p(x) :: keep(x)) ==> Count(Select(s, keep), p) == Count(s, p)
  {
    if s != [] {
      var init, last := s[..|s| - 1], s[|s| - 1];
      CountSelected(init, keep, p);
      assert init + [last] == s;
      SelectPush(init, last, keep);
      CountPush(Select(init, keep), last, p);
    }
  }

  /** The elements at the listed places are replaced one after the other. */
  function Rewrite<T>(s: seq<T>, at: seq<nat>, xs: seq<T>): (r: seq<T>)
    requires |xs| == |at| && forall j | 0 <= j < |at| :: at[j] < |s|
    ensures |r| == |s|
  {
    if at == [] then s else
    var n := |at| - 1;
    Rewrite(s, at[..n], xs[..n])[at[n] := xs[n]]
  }

  /** At distinct places each is replaced once, and the others stay. */
  lemma {:induction false} RewriteMeans<T>(s: seq<T>, at: seq<nat>, xs: seq<T>)
    requires |xs| == |at| && forall j | 0 <= j < |at| :: at[j] < |s|
    requires forall j, k | 0 <= j < k < |at| :: at[j] != at[k]
    ensures forall i: nat | i < |s| && i !in at :: Rewrite(s, at, xs)[i] == s[i]
    ensures forall j | 0 <= j < |at| :: Rewrite(s, at, xs)[at[j]] == xs[j]
  {
    if at != [] {
      var n := |at| - 1;
      RewriteMeans(s, at[..n], xs[..n]);
      assert at == at[..n] + [at[n]];
      forall j | 0 <= j < n ensures Rewrite(s, at, xs)[at[j]] == xs[j] {
        assert at[..n][j] == at[j] && xs[..n][j] == xs[j];
      }
    }
  }

  method Pick<T>(s: set<T>) returns (x: T)
    requires s != {}
    ensures x in s
  {
    x :| x in s;
  }
}
