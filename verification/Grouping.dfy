/**
 Cutting a queue into maximal runs of "pure" items and delivering one item per group. The
 theory is independent of what the items are: `pure` says which may be grouped, `deliver` what
 the items before the last one turn the last one into.
 */
module Grouping {
  import opened Sequences

  /** How many items at the head of the queue are pure. */
  function PurePrefix<T>(q: seq<T>, pure: T -> bool): (n: nat)
    ensures n <= |q|
  {
    if q == [] || !pure(q[0]) then 0 else 1 + PurePrefix(q[1..], pure)
  }

  lemma {:induction false} PurePrefixMeaning<T>(q: seq<T>, pure: T -> bool)
    ensures forall i | 0 <= i < PurePrefix(q, pure) :: pure(q[i])
    ensures PurePrefix(q, pure) < |q| ==> !pure(q[PurePrefix(q, pure)])
  {
    if q != [] && pure(q[0]) {
      PurePrefixMeaning(q[1..], pure);
    }
  }

  /** Scanning one item further. */
  lemma {:induction false} PurePrefixStep<T>(q: seq<T>, pure: T -> bool, j: nat)
    requires j <= |q|
    ensures PurePrefix(q[j..], pure) == if j < |q| && pure(q[j]) then 1 + PurePrefix(q[j + 1..], pure) else 0
  {
    if j < |q| {
      assert q[j..][1..] == q[j + 1..];
    }
  }

  /** The size of the group the head of the queue belongs to. */
  function HeadRun<T>(q: seq<T>, pure: T -> bool): (n: nat)
    requires q != []
    ensures 0 < n <= |q|
  {
    if pure(q[0]) then PurePrefix(q, pure) else 1
  }

  function Runs<T>(q: seq<T>, pure: T -> bool): (runs: seq<seq<T>>)
    ensures forall i | 0 <= i < |runs| :: runs[i] != []
  {
    if q == [] then [] else [q[..HeadRun(q, pure)]] + Runs(q[HeadRun(q, pure)..], pure)
  }

  /** A group leaves under its last item. */
  function Deliver<T>(run: seq<T>, deliver: (seq<T>, T) -> T): T
    requires run != []
  {
    deliver(run[..|run| - 1], run[|run| - 1])
  }

  function Coalesce<T>(q: seq<T>, pure: T -> bool, deliver: (seq<T>, T) -> T): seq<T> {
    if q == [] then [] else
    var n := HeadRun(q, pure);
    [Deliver(q[..n], deliver)] + Coalesce(q[n..], pure, deliver)
  }

  lemma {:induction false} PurePrefixIs<T>(q: seq<T>, pure: T -> bool, n: nat)
    requires n <= |q| && (forall i | 0 <= i < n :: pure(q[i])) && (n < |q| ==> !pure(q[n]))
    ensures PurePrefix(q, pure) == n
  {
    if n > 0 {
      PurePrefixIs(q[1..], pure, n - 1);
    }
  }

  /** A group is one foreign item or a run of pure ones. */
  ghost predicate IsRun<T>(run: seq<T>, pure: T -> bool) {
    run != [] && ((|run| == 1 && !pure(run[0])) || forall i | 0 <= i < |run| :: pure(run[i]))
  }

  /** The first `n` items form a group the rest of the queue does not extend. */
  lemma {:induction false} CoalesceHead<T>(q: seq<T>, pure: T -> bool, deliver: (seq<T>, T) -> T, n: nat)
    requires 0 < n <= |q| && IsRun(q[..n], pure) && (pure(q[0]) && n < |q| ==> !pure(q[n]))
    ensures Coalesce(q, pure, deliver) == [Deliver(q[..n], deliver)] + Coalesce(q[n..], pure, deliver)
  {
    assert forall i | 0 <= i < n :: q[i] == q[..n][i];
    if pure(q[0]) {
      PurePrefixIs(q, pure, n);
    }
  }

  lemma {:induction false} HeadIsRun<T>(q: seq<T>, pure: T -> bool)
    requires q != []
    ensures IsRun(q[..HeadRun(q, pure)], pure)
    ensures pure(q[0]) && HeadRun(q, pure) < |q| ==> !pure(q[HeadRun(q, pure)])
  {
    PurePrefixMeaning(q, pure);
  }

  /** Delivering the group that starts at position `i` and ends before `j`. */
  lemma {:induction false} DeliverNext<T>(out: seq<T>, q: seq<T>, pure: T -> bool, deliver: (seq<T>, T) -> T, i: nat,
                                          j: nat, x: T)
    requires i < |q| && j == i + HeadRun(q[i..], pure) && x == deliver(q[i..j - 1], q[j - 1])
    ensures out + [x] + Coalesce(q[j..], pure, deliver) == out + Coalesce(q[i..], pure, deliver)
  {
    var rest, n := q[i..], j - i;
    assert rest[n..] == q[j..];
    assert Deliver(rest[..n], deliver) == x by {
      assert rest[..n][..n - 1] == q[i..j - 1];
    }
    PushAssociates(out, x, Coalesce(q[j..], pure, deliver));
  }

  ghost predicate NoPureNeighbours<T>(runs: seq<seq<T>>, pure: T -> bool)
    requires forall i | 0 <= i < |runs| :: runs[i] != []
  {
    forall i | 0 <= i < |runs| - 1 :: !(pure(runs[i][0]) && pure(runs[i + 1][0]))
  }

  /** Every queue is cut, in order and without loss, into foreign items and maximal pure runs. */
  lemma {:induction false} RunsPartition<T>(q: seq<T>, pure: T -> bool)
    ensures Flatten(Runs(q, pure)) == q
    ensures forall i | 0 <= i < |Runs(q, pure)| :: IsRun(Runs(q, pure)[i], pure)
    ensures NoPureNeighbours(Runs(q, pure), pure)
    ensures q != [] ==> Runs(q, pure) != [] && Runs(q, pure)[0][0] == q[0]
  {
    if q != [] {
      var n := HeadRun(q, pure);
      var rest := Runs(q[n..], pure);
      RunsPartition(q[n..], pure);
      FlattenCons(q[..n], rest);
      assert q[..n] + q[n..] == q;
      HeadIsRun(q, pure);
      var runs := Runs(q, pure);
      forall i | 0 <= i < |runs| - 1 ensures !(pure(runs[i][0]) && pure(runs[i + 1][0])) {
        if i == 0 {
          assert rest[0][0] == q[n];
        } else {
          assert runs[i] == rest[i - 1] && runs[i + 1] == rest[i];
        }
      }
    }
  }

  /** Each group yields one output, in order. */
  lemma {:induction false} CoalesceIsPerRun<T>(q: seq<T>, pure: T -> bool, deliver: (seq<T>, T) -> T)
    ensures |Coalesce(q, pure, deliver)| == |Runs(q, pure)|
    ensures forall i | 0 <= i < |Runs(q, pure)| :: Coalesce(q, pure, deliver)[i] == Deliver(Runs(q, pure)[i], deliver)
  {
    if q != [] {
      CoalesceIsPerRun(q[HeadRun(q, pure)..], pure, deliver);
    }
  }

  /** What `deliver` must satisfy: one item is unchanged, a pure run stays pure. */
  ghost predicate DeliversPure<T(!new)>(pure: T -> bool, deliver: (seq<T>, T) -> T) {
    && (forall x :: deliver([], x) == x)
    && (forall init, x | pure(x) :: pure(deliver(init, x)))
  }

  lemma {:induction false} HeadForeign<T(!new)>(q: seq<T>, pure: T -> bool, deliver: (seq<T>, T) -> T, p: T -> bool)
    requires DeliversPure(pure, deliver) && q != []
    requires forall x | p(x) :: !pure(x)
    ensures Select([Deliver(q[..HeadRun(q, pure)], deliver)], p) == Select(q[..HeadRun(q, pure)], p)
  {
    if pure(q[0]) {
      PurePrefixMeaning(q, pure);
      SelectNone(q[..HeadRun(q, pure)], p);
      SelectNone([Deliver(q[..HeadRun(q, pure)], deliver)], p);
    } else {
      assert q[..1][..0] == [];
      assert q[..1] == [Deliver(q[..1], deliver)];
    }
  }

  /** Any selection of foreign items comes out identical: unchanged, complete and in order. */
  lemma {:induction false} ForeignUnchanged<T(!new)>(q: seq<T>, pure: T -> bool, deliver: (seq<T>, T) -> T,
                                              p: T -> bool)
    requires DeliversPure(pure, deliver)
    requires forall x | p(x) :: !pure(x)
    ensures Select(Coalesce(q, pure, deliver), p) == Select(q, p)
  {
    if q != [] {
      var n := HeadRun(q, pure);
      ForeignUnchanged(q[n..], pure, deliver, p);
      HeadForeign(q, pure, deliver, p);
      SelectConcat([Deliver(q[..n], deliver)], Coalesce(q[n..], pure, deliver), p);
      assert q[..n] + q[n..] == q;
      SelectConcat(q[..n], q[n..], p);
    }
  }

  /** What a delivered run followed by more pure items is worth. */
  ghost predicate Absorbs<T(!new)>(pure: T -> bool, deliver: (seq<T>, T) -> T) {
    forall run, more, x | run != [] && (forall i | 0 <= i < |run| :: pure(run[i])) ::
      deliver([Deliver(run, deliver)] + more, x) == deliver(run + more, x)
  }

  /** Coalescing an already coalesced queue with later items is coalescing the whole queue. */
  lemma {:induction false} CoalesceIncremental<T(!new)>(a: seq<T>, b: seq<T>, pure: T -> bool,
                                                 deliver: (seq<T>, T) -> T)
    requires DeliversPure(pure, deliver) && Absorbs(pure, deliver)
    ensures Coalesce(Coalesce(a, pure, deliver) + b, pure, deliver) == Coalesce(a + b, pure, deliver)
    decreases |a|
  {
    if a == [] {
      assert Coalesce(a, pure, deliver) + b == b && a + b == b;
    } else {
      var n := HeadRun(a, pure);
      var head := Deliver(a[..n], deliver);
      var rest := Coalesce(a[n..], pure, deliver) + b;
      HeadIsRun(a, pure);
      assert Coalesce(a, pure, deliver) + b == [head] + rest;
      assert pure(a[n - 1]) <==> pure(a[0]);
      assert a[..n][..n - 1] == a[..n - 1];
      assert !pure(a[0]) ==> a[..n - 1] == [];
      assert pure(head) <==> pure(a[0]);
      if pure(a[0]) && n == |a| {
        assert rest == b && a[..n] == a;
        CoalesceTouching(a, head, b, pure, deliver);
      } else {
        CoalesceIncremental(a[n..], b, pure, deliver);
        CoalesceSeparate(a, head, rest, b, pure, deliver, n);
      }
    }
  }

  /** The whole of `a` is one pure run, which `b` may extend. */
  lemma {:induction false} CoalesceTouching<T(!new)>(a: seq<T>, head: T, b: seq<T>, pure: T -> bool,
                                              deliver: (seq<T>, T) -> T)
    requires DeliversPure(pure, deliver) && Absorbs(pure, deliver)
    requires a != [] && (forall i | 0 <= i < |a| :: pure(a[i])) && head == Deliver(a, deliver) && pure(head)
    ensures Coalesce([head] + b, pure, deliver) == Coalesce(a + b, pure, deliver)
  {
    var r := PurePrefix(b, pure);
    PurePrefixMeaning(b, pure);
    CoalesceRunThen(a, b, pure, deliver, r);
    CoalesceRunThen([head], b, pure, deliver, r);
    AbsorbRun(a, head, b[..r], pure, deliver);
  }

  lemma {:induction false} CoalesceRunThen<T>(run: seq<T>, b: seq<T>, pure: T -> bool, deliver: (seq<T>, T) -> T,
                                              r: nat)
    requires run != [] && (forall i | 0 <= i < |run| :: pure(run[i]))
    requires r <= |b| && (forall i | 0 <= i < r :: pure(b[i])) && (r < |b| ==> !pure(b[r]))
    ensures Coalesce(run + b, pure, deliver) == [Deliver(run + b[..r], deliver)] + Coalesce(b[r..], pure, deliver)
  {
    var q, n := run + b, |run| + r;
    assert q[..n] == run + b[..r];
    assert q[n..] == b[r..];
    CoalesceHead(q, pure, deliver, n);
  }

  lemma {:induction false} AbsorbRun<T(!new)>(run: seq<T>, head: T, more: seq<T>, pure: T -> bool,
                                       deliver: (seq<T>, T) -> T)
    requires DeliversPure(pure, deliver) && Absorbs(pure, deliver)
    requires run != [] && (forall i | 0 <= i < |run| :: pure(run[i])) && head == Deliver(run, deliver)
    ensures Deliver([head] + more, deliver) == Deliver(run + more, deliver)
  {
    if more == [] {
      assert run + more == run && [head] + more == [head] && [head][..0] == [];
    } else {
      var r := |more| - 1;
      assert (run + more)[..|run| + r] == run + more[..r];
      assert ([head] + more)[..1 + r] == [head] + more[..r];
    }
  }

  /** The head group of `a` ends inside `a`, or is foreign: `b` cannot extend it. */
  lemma {:induction false} CoalesceSeparate<T(!new)>(a: seq<T>, head: T, rest: seq<T>, b: seq<T>,
                                                   pure: T -> bool, deliver: (seq<T>, T) -> T, n: nat)
    requires DeliversPure(pure, deliver) && a != [] && n == HeadRun(a, pure) && head == Deliver(a[..n], deliver)
    requires rest == Coalesce(a[n..], pure, deliver) + b && (pure(head) <==> pure(a[0]))
    requires pure(a[0]) ==> n < |a|
    requires Coalesce(rest, pure, deliver) == Coalesce(a[n..] + b, pure, deliver)
    ensures Coalesce([head] + rest, pure, deliver) == Coalesce(a + b, pure, deliver)
  {
    assert (a + b)[..n] == a[..n] && (a + b)[n..] == a[n..] + b;
    assert ([head] + rest)[..1] == [head] && ([head] + rest)[1..] == rest;
    HeadIsRun(a, pure);
    if pure(a[0]) {
      assert a[n..][0] == a[n];
      assert rest[0] == a[n] by {
        assert a[n..][..1][..0] == [];
      }
    }
    CoalesceHead(a + b, pure, deliver, n);
    CoalesceHead([head] + rest, pure, deliver, 1);
    assert [head][..0] == [];
  }

  // ---------------------------------------------------------------- effect

  function ExecAll<T, C>(exec: (T, C) -> C, q: seq<T>, c: C): C {
    if q == [] then c else ExecAll(exec, q[1..], exec(q[0], c))
  }

  lemma {:induction false} ExecAllConcat<T, C>(exec: (T, C) -> C, xs: seq<T>, ys: seq<T>, c: C)
    ensures ExecAll(exec, xs + ys, c) == ExecAll(exec, ys, ExecAll(exec, xs, c))
  {
    if xs == [] {
      assert xs + ys == ys;
    } else {
      assert (xs + ys)[1..] == xs[1..] + ys;
      ExecAllConcat(exec, xs[1..], ys, exec(xs[0], c));
    }
  }

  /** A delivered group does what its items do one by one. */
  ghost predicate SameEffect<T, C(!new)>(exec: (T, C) -> C, run: seq<T>, deliver: (seq<T>, T) -> T)
    requires run != []
  {
    forall c :: exec(Deliver(run, deliver), c) == ExecAll(exec, run, c)
  }

  /** If every group keeps its effect, so does the coalesced queue. */
  lemma {:induction false} CoalesceKeepsEffect<T, C(!new)>(exec: (T, C) -> C, q: seq<T>, pure: T -> bool,
                                                    deliver: (seq<T>, T) -> T, c: C)
    requires forall i | 0 <= i < |Runs(q, pure)| :: SameEffect(exec, Runs(q, pure)[i], deliver)
    ensures ExecAll(exec, Coalesce(q, pure, deliver), c) == ExecAll(exec, q, c)
    decreases |q|
  {
    if q != [] {
      var n := HeadRun(q, pure);
      var run, rest := q[..n], q[n..];
      assert Runs(q, pure)[0] == run;
      assert forall i | 0 <= i < |Runs(rest, pure)| :: Runs(q, pure)[i + 1] == Runs(rest, pure)[i];
      var c' := exec(Deliver(run, deliver), c);
      CoalesceKeepsEffect(exec, rest, pure, deliver, c');
      assert q == run + rest;
      ExecAllConcat(exec, run, rest, c);
      assert Coalesce(q, pure, deliver)[1..] == Coalesce(rest, pure, deliver);
    }
  }
}
