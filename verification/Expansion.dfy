/**
 Completion of a command to the full scenario block (`ExpandLegacyScenarioBlock`): a list of
 entries becomes the sorted listing of the default block overridden by what was asked.
 */
module Expansion {
  import opened Exchange
  import opened Sequences
  import opened Decimal
  import opened MergeParams
  import opened Cabinets

  predicate InBlock(k: int) {
    INDEX_LIGHT_START <= k <= INDEX_SECURITY_OUTLETS
  }

  predicate TouchesBlock(params: seq<KV>) {
    exists i | 0 <= i < |params| :: InBlock(params[i].k)
  }

  /** 590 = "1" and every index of 605..623 = "0". */
  function DefaultBlock(): map<int, string> {
    DefaultBelow(INDEX_SECURITY_OUTLETS + 1)
  }

  /** The part of the default block below index `limit`. */
  function DefaultBelow(limit: int): map<int, string> {
    (map k | INDEX_LIGHT_START <= k < limit && InBlock(k) :: "0")[INDEX_SCENARIO := "1"]
  }

  /** What a completed command is: unchanged outside the block, else sorted and complete. */
  ghost predicate IsExpansion(params: seq<KV>, out: seq<KV>) {
    if !TouchesBlock(params) then out == params
    else StrictlyIncreasing(out) && LastWins(out) == DefaultBlock() + LastWins(params)
  }

  /** Puts one entry at its place in an increasing list. */
  function Insert(s: seq<KV>, p: KV): seq<KV> {
    if s == [] || s[|s| - 1].k < p.k then s + [p] else Insert(s[..|s| - 1], p) + [s[|s| - 1]]
  }

  lemma {:induction false} InsertKeepsOrder(s: seq<KV>, p: KV)
    requires StrictlyIncreasing(s) && forall i | 0 <= i < |s| :: s[i].k != p.k
    ensures StrictlyIncreasing(Insert(s, p)) && |Insert(s, p)| == |s| + 1
    ensures Insert(s, p)[|s|].k == if s != [] && s[|s| - 1].k > p.k then s[|s| - 1].k else p.k
  {
    if s != [] && s[|s| - 1].k > p.k {
      InsertKeepsOrder(s[..|s| - 1], p);
    }
  }

  lemma {:induction false} InsertAdds(s: seq<KV>, p: KV)
    requires forall i | 0 <= i < |s| :: s[i].k != p.k
    ensures LastWins(Insert(s, p)) == LastWins(s)[p.k := p.v]
  {
    if s == [] || s[|s| - 1].k < p.k {
    } else {
      InsertAdds(s[..|s| - 1], p);
    }
  }

  /** What one insertion does when the key is new. */
  lemma {:induction false} InsertMeans(s: seq<KV>, p: KV)
    requires StrictlyIncreasing(s) && p.k !in LastWins(s)
    ensures StrictlyIncreasing(Insert(s, p)) && LastWins(Insert(s, p)) == LastWins(s)[p.k := p.v]
  {
    LastWinsMeaning(s, p.k);
    InsertKeepsOrder(s, p);
    InsertAdds(s, p);
  }

  /** The listing of a map in increasing order of keys, whatever order it is visited in. */
  method SortedListing(m: map<int, string>) returns (out: seq<KV>)
    ensures StrictlyIncreasing(out) && LastWins(out) == m
  {
    out := [];
    var left := m.Keys;
    while left != {}
      invariant left <= m.Keys
      invariant StrictlyIncreasing(out) && LastWins(out) == m - left
      decreases left
    {
      var k := Pick(left);
      InsertMeans(out, KV(k, m[k]));
      out := Insert(out, KV(k, m[k]));
      left := left - {k};
    }
  }

  /** The scan of the source, which stops at the first index of the block. */
  method HasBlockIndex(params: seq<KV>) returns (has: bool)
    ensures has <==> TouchesBlock(params)
  {
    for i := 0 to |params|
      invariant !exists j | 0 <= j < i :: InBlock(params[j].k)
    {
      if InBlock(params[i].k) {
        return true;
      }
    }
    return false;
  }

  method LastOfEach(params: seq<KV>) returns (byIndex: map<int, string>)
    ensures byIndex == LastWins(params)
  {
    byIndex := map[];
    for i := 0 to |params|
      invariant byIndex == LastWins(params[..i])
    {
      assert params[..i + 1][..i] == params[..i];
      byIndex := byIndex[params[i].k := params[i].v];
    }
    assert params[..|params|] == params;
  }

  /** What is missing of the block is added. */
  method Filled(asked: map<int, string>) returns (byIndex: map<int, string>)
    ensures byIndex == DefaultBlock() + asked
  {
    byIndex := asked;
    if INDEX_SCENARIO !in byIndex {
      byIndex := byIndex[INDEX_SCENARIO := "1"];
    }
    FillFirst(asked);
    for i := INDEX_LIGHT_START to INDEX_SECURITY_OUTLETS + 1
      invariant byIndex == DefaultBelow(i) + asked
    {
      FillNext(i, asked);
      if i !in byIndex {
        byIndex := byIndex[i := "0"];
      }
    }
  }

  /** The loops of the source, over a map visited in any order and then sorted. */
  method ExpandLegacyScenarioBlock(params: seq<KV>) returns (out: seq<KV>)
    ensures IsExpansion(params, out)
    ensures (forall i | 0 <= i < |params| :: !(605 <= params[i].k <= 623)) ==> out == params
    ensures (exists i :: 0 <= i < |params| && 605 <= params[i].k <= 623) ==> Completes(params, out)
  {
    var hasLightShutter := HasBlockIndex(params);
    if !hasLightShutter {
      return params;
    }
    var byIndex := LastOfEach(params);
    byIndex := Filled(byIndex);
    out := SortedListing(byIndex);
    ExpansionCompletes(params, out);
  }

  lemma FillFirst(asked: map<int, string>)
    ensures DefaultBelow(INDEX_LIGHT_START) + asked ==
            if INDEX_SCENARIO in asked then asked else asked[INDEX_SCENARIO := "1"]
  {
  }

  lemma FillNext(i: int, asked: map<int, string>)
    requires InBlock(i)
    ensures DefaultBelow(i + 1) + asked ==
            if i in DefaultBelow(i) + asked then DefaultBelow(i) + asked else (DefaultBelow(i) + asked)[i := "0"]
  {
  }

  // ---------------------------------------------------------------- properties

  ghost predicate Names(params: seq<KV>, k: int) {
    exists i :: 0 <= i < |params| && params[i].k == k
  }

  /** `p` is the last entry of its key. */
  ghost predicate IsLastOf(params: seq<KV>, p: KV) {
    exists i :: 0 <= i < |params| && params[i] == p && forall j | i < j < |params| :: params[j].k != p.k
  }

  /**
   In increasing order: 590, all of 605..623 and the keys asked for, no others. Each key asked for
   has the last value given; of the others 590 is "1" and 605..623 are "0".
   */
  ghost predicate Completes(params: seq<KV>, out: seq<KV>) {
    && (forall i, j | 0 <= i < j < |out| :: out[i].k < out[j].k)
    && (forall k :: Names(out, k) <==> k == 590 || 605 <= k <= 623 || Names(params, k))
    && (forall i | 0 <= i < |out| :: if Names(params, out[i].k) then IsLastOf(params, out[i])
                                     else out[i].v == if out[i].k == 590 then "1" else "0")
  }

  /** What the completion of a command that names an index of the block is, index by index. */
  lemma {:induction false} ExpansionCompletes(params: seq<KV>, out: seq<KV>)
    requires IsExpansion(params, out) && exists i :: 0 <= i < |params| && 605 <= params[i].k <= 623
    ensures Completes(params, out)
  {
    forall k ensures Names(out, k) <==> k == 590 || 605 <= k <= 623 || Names(params, k) {
      LastWinsMeaning(out, k);
      LastWinsMeaning(params, k);
    }
    forall i | 0 <= i < |out| ensures
        if Names(params, out[i].k) then IsLastOf(params, out[i])
        else out[i].v == if out[i].k == 590 then "1" else "0"
    {
      LastWinsDistinct(out, i);
      LastWinsMeaning(params, out[i].k);
    }
  }

  /** The map iteration order cannot be seen: an input has one completion. */
  lemma {:induction false} ExpansionIsUnique(params: seq<KV>, x: seq<KV>, y: seq<KV>)
    requires IsExpansion(params, x) && IsExpansion(params, y)
    ensures x == y
  {
    if TouchesBlock(params) {
      SortedIsUnique(x, y);
    }
  }

  lemma {:induction false} ExpansionTouchesBlock(params: seq<KV>, out: seq<KV>)
    requires TouchesBlock(params) && IsExpansion(params, out)
    ensures TouchesBlock(out)
  {
    assert 605 in DefaultBlock();
    LastWinsMeaning(out, 605);
  }

  /** Completing a completed command changes nothing. */
  lemma {:induction false} ExpansionIsIdempotent(params: seq<KV>, once: seq<KV>, twice: seq<KV>)
    requires IsExpansion(params, once) && IsExpansion(once, twice)
    ensures twice == once
  {
    if TouchesBlock(params) {
      ExpansionTouchesBlock(params, once);
      SortedIsUnique(once, twice);
    }
  }

  /** Only 590, 605..622 and 623 are named, and the last 623, if any, is "0". */
  predicate AsksForBlockOnly(params: seq<KV>) {
    && (forall i | 0 <= i < |params| :: params[i].k == INDEX_SCENARIO || InBlock(params[i].k))
    && (INDEX_SECURITY_OUTLETS in LastWins(params) ==> LastWins(params)[INDEX_SECURITY_OUTLETS] == "0")
  }

  /** A completed command may be merged exactly when the command asked for the block only. */
  lemma {:induction false} ExpansionIsPureIff(params: seq<KV>, out: seq<KV>)
    requires IsExpansion(params, out)
    ensures IsPureBlock(out) <==> TouchesBlock(params) && AsksForBlockOnly(params)
  {
    if TouchesBlock(params) {
      assert 605 in DefaultBlock();
      LastWinsMeaning(out, 605);
      var full := DefaultBlock() + LastWins(params);
      forall i | 0 <= i < |out| ensures out[i].k in full && full[out[i].k] == out[i].v {
        LastWinsDistinct(out, i);
      }
      if AsksForBlockOnly(params) {
        forall i | 0 <= i < |out| ensures IsBlockParam(out[i]) {
          LastWinsMeaning(params, out[i].k);
        }
      } else if i :| 0 <= i < |params| && params[i].k != INDEX_SCENARIO && !InBlock(params[i].k) {
        LastWinsMeaning(params, params[i].k);
        LastWinsMeaning(out, params[i].k);
      } else {
        LastWinsMeaning(out, INDEX_SECURITY_OUTLETS);
      }
    }
  }

  /**
   A numeric command that names no 590 is completed to one that merging can never alter: its
   values stay numeric and its 590 is "1".
   */
  lemma {:induction false} ExpandedCommandMergesSafely(params: seq<KV>, out: seq<KV>)
    requires IsExpansion(params, out) && Numeric(params)
    requires forall i | 0 <= i < |params| :: params[i].k != INDEX_SCENARIO
    ensures Numeric(out) && LaunchesNothing(out)
  {
    if TouchesBlock(params) {
      assert "0"[..0] == "" && ParseDigits("0") == 0;
      forall i | 0 <= i < |out|
        ensures IsBlockIndex(out[i].k) ==> !IntentOf(out[i].v).Garbled?
        ensures out[i].k == INDEX_SCENARIO ==> out[i].v == "1"
      {
        LastWinsDistinct(out, i);
        LastWinsMeaning(params, out[i].k);
      }
    }
  }
}
