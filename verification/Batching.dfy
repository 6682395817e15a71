/** How the upload queue cuts itself into size-bounded batches, first come first
    served: each round sends the longest prefix that fits and pops it. */
module Batching {
  import opened Collections

  function Sum(sizes: seq<nat>): nat {
    if sizes == [] then 0 else sizes[0] + Sum(sizes[1..])
  }

  /** How many leading messages fit on top of `used` bytes. */
  function FitFrom(sizes: seq<nat>, used: nat, max: int): (n: nat)
    ensures n <= |sizes|
  {
    if sizes == [] || used + sizes[0] > max then 0
    else 1 + FitFrom(sizes[1..], used + sizes[0], max)
  }

  lemma FitFromStep(sizes: seq<nat>, used: nat, max: int)
    ensures FitFrom(sizes, used, max) ==
            if sizes == [] || used + sizes[0] > max then 0 else 1 + FitFrom(sizes[1..], used + sizes[0], max)
  {
  }

  /** The size of the next batch; nothing fits a limit below one. */
  function Fit(sizes: seq<nat>, max: int): (n: nat)
    ensures n <= |sizes|
  {
    if max < 1 then 0 else FitFrom(sizes, 0, max)
  }

  lemma {:induction false} SumConcat(a: seq<nat>, b: seq<nat>)
    ensures Sum(a + b) == Sum(a) + Sum(b)
  {
    if a == [] {
      assert a + b == b;
    } else {
      assert (a + b)[1..] == a[1..] + b;
      SumConcat(a[1..], b);
    }
  }

  lemma SumSplit(s: seq<nat>, i: nat)
    requires i <= |s|
    ensures Sum(s) == Sum(s[..i]) + Sum(s[i..])
  {
    assert s == s[..i] + s[i..];
    SumConcat(s[..i], s[i..]);
  }

  lemma {:induction false} FitFromLongest(sizes: seq<nat>, used: nat, max: int)
    requires used <= max
    ensures var n := FitFrom(sizes, used, max);
            used + Sum(sizes[..n]) <= max && (n < |sizes| ==> used + Sum(sizes[..n + 1]) > max)
  {
    if sizes != [] && used + sizes[0] <= max {
      var n := FitFrom(sizes, used, max);
      FitFromLongest(sizes[1..], used + sizes[0], max);
      assert sizes[..n][1..] == sizes[1..][..n - 1];
      assert n < |sizes| ==> sizes[..n + 1][1..] == sizes[1..][..n];
    } else if sizes != [] {
      assert sizes[..1][1..] == [];
    }
  }

  /** A batch is the longest prefix whose total size is within the limit. */
  lemma FitLongest(sizes: seq<nat>, max: int, m: nat)
    requires max >= 1 && m <= |sizes|
    ensures m <= Fit(sizes, max) <==> Sum(sizes[..m]) <= max
  {
    var n := Fit(sizes, max);
    FitFromLongest(sizes, 0, max);
    if m <= n {
      SumSplit(sizes[..n], m);
      assert sizes[..n][..m] == sizes[..m];
    } else {
      SumSplit(sizes[..m], n + 1);
      assert sizes[..m][..n + 1] == sizes[..n + 1];
    }
  }

  // --------------------------------------------------------- repeated rounds

  /** What `k` rounds without arrivals leave in the queue. */
  function Drain(sizes: seq<nat>, max: int, k: nat): seq<nat> {
    if k == 0 then sizes
    else
      var before := Drain(sizes, max, k - 1);
      before[Fit(before, max)..]
  }

  /** A split of the queue, in order, into batches within the limit. */
  predicate Splits(sizes: seq<nat>, max: int, batches: seq<seq<nat>>) {
    && Flatten(batches) == sizes
    && forall i :: 0 <= i < |batches| ==> Sum(batches[i]) <= max
  }

  lemma {:induction false} DrainSuffix(sizes: seq<nat>, max: int, k: nat)
    ensures |Drain(sizes, max, k)| <= |sizes|
    ensures Drain(sizes, max, k) == sizes[|sizes| - |Drain(sizes, max, k)|..]
  {
    if k > 0 {
      DrainSuffix(sizes, max, k - 1);
    }
  }

  /** After `k` rounds the greedy queue has sent at least what any `k` batches hold. */
  lemma {:induction false} GreedyStaysAhead(
      sizes: seq<nat>, max: int, batches: seq<seq<nat>>, rest: seq<nat>)
    requires max >= 1 && Flatten(batches) + rest == sizes
    requires forall i :: 0 <= i < |batches| ==> Sum(batches[i]) <= max
    ensures |Drain(sizes, max, |batches|)| <= |rest|
  {
    if batches != [] {
      var k := |batches| - 1;
      var front, last := batches[..k], batches[k];
      assert Flatten(front) + (last + rest) == sizes;
      GreedyStaysAhead(sizes, max, front, last + rest);
      var left := Drain(sizes, max, k);
      DrainSuffix(sizes, max, k);
      if |rest| < |left| {
        AheadInBatch(sizes, left, last, rest, max);
      }
    }
  }

  lemma AheadInBatch(sizes: seq<nat>, left: seq<nat>, last: seq<nat>, rest: seq<nat>, max: int)
    requires max >= 1 && |rest| < |left| <= |last + rest| <= |sizes|
    requires left == sizes[|sizes| - |left|..]
    requires last + rest == sizes[|sizes| - |last + rest|..]
    requires Sum(last) <= max
    ensures |left| - Fit(left, max) <= |rest|
  {
    var m := |left| - |rest|;
    assert left[..m] == last[|last| - m..];
    SumSplit(last, |last| - m);
    FitLongest(left, max, m);
  }

  /** Greedy rounds empty the queue in the fewest batches of any split in order. */
  lemma GreedyOptimal(sizes: seq<nat>, max: int, batches: seq<seq<nat>>)
    requires max >= 1 && Splits(sizes, max, batches)
    ensures Drain(sizes, max, |batches|) == []
  {
    assert Flatten(batches) + [] == sizes;
    GreedyStaysAhead(sizes, max, batches, []);
  }

  /** The batches that the rounds send. */
  function Batches(sizes: seq<nat>, max: int, k: nat): seq<seq<nat>> {
    if k == 0 then []
    else
      var before := Drain(sizes, max, k - 1);
      Batches(sizes, max, k - 1) + [before[..Fit(before, max)]]
  }

  /** The rounds that empty the queue are themselves such a split. */
  lemma {:induction false} GreedySplits(sizes: seq<nat>, max: int, k: nat)
    requires max >= 1
    ensures |Batches(sizes, max, k)| == k
    ensures Flatten(Batches(sizes, max, k)) + Drain(sizes, max, k) == sizes
    ensures forall i :: 0 <= i < k ==> Sum(Batches(sizes, max, k)[i]) <= max
  {
    hide *;
    if k == 0 {
      NoBatches(sizes, max);
    } else {
      GreedySplits(sizes, max, k - 1);
      var front := Batches(sizes, max, k - 1);
      var batch := OneMoreBatch(sizes, max, k - 1);
      forall i | 0 <= i < k ensures Sum((front + [batch])[i]) <= max {
      }
    }
  }

  lemma NoBatches(sizes: seq<nat>, max: int)
    ensures Batches(sizes, max, 0) == [] && Drain(sizes, max, 0) == sizes
    ensures Flatten([]) + sizes == sizes
  {
  }

  lemma OneMoreBatch(sizes: seq<nat>, max: int, k: nat) returns (batch: seq<nat>)
    requires max >= 1
    ensures Batches(sizes, max, k + 1) == Batches(sizes, max, k) + [batch] && Sum(batch) <= max
    ensures Flatten(Batches(sizes, max, k) + [batch]) + Drain(sizes, max, k + 1) ==
            Flatten(Batches(sizes, max, k)) + Drain(sizes, max, k)
  {
    hide Fit, Sum, Flatten;
    var before := Drain(sizes, max, k);
    var n := Fit(before, max);
    batch := before[..n];
    FitLongest(before, max, n);
    FlattenMore(Batches(sizes, max, k), batch, before[n..]);
    assert before == batch + before[n..];
  }

  lemma FlattenMore(batches: seq<seq<nat>>, batch: seq<nat>, rest: seq<nat>)
    ensures Flatten(batches + [batch]) + rest == Flatten(batches) + (batch + rest)
  {
    assert (batches + [batch])[..|batches + [batch]| - 1] == batches;
  }

  lemma {:induction false} DrainFirst(sizes: seq<nat>, max: int, k: nat)
    ensures Drain(sizes, max, k + 1) == Drain(sizes[Fit(sizes, max)..], max, k)
  {
    hide Fit;
    if k == 0 {
      assert Drain(sizes, max, 0) == sizes;
    } else {
      DrainFirst(sizes, max, k - 1);
      var before := Drain(sizes, max, k);
      assert Drain(sizes, max, k + 1) == before[Fit(before, max)..];
    }
  }

  predicate AllFit(sizes: seq<nat>, max: int) {
    forall i :: 0 <= i < |sizes| ==> sizes[i] <= max
  }

  /** Two batches in a row are together over the limit, so `k` of them need a
      total size of at least (k/2) * (max + 1). */
  lemma {:induction false} BatchesAreFull(sizes: seq<nat>, max: int, k: nat)
    requires max >= 1 && AllFit(sizes, max) && (k > 0 ==> Drain(sizes, max, k - 1) != [])
    ensures (k / 2) * (max + 1) <= Sum(sizes)
  {
    if k >= 2 {
      hide Fit, Sum, Drain;
      var n := Fit(sizes, max);
      var rest := sizes[n..];
      var m := Fit(rest, max);
      DrainFirst(sizes, max, k - 2);
      DrainSuffix(rest, max, k - 2);
      TwoBatchesOverLimit(sizes, max);
      if k >= 3 {
        DrainFirst(rest, max, k - 3);
      }
      BatchesAreFull(rest[m..], max, k - 2);
      SumSplit(sizes, n);
      SumSplit(rest, m);
      PairCount(k, max + 1);
    }
  }

  lemma PairCount(k: nat, w: int)
    requires k >= 2
    ensures (k / 2) * w == ((k - 2) / 2) * w + w
  {
    assert k / 2 == (k - 2) / 2 + 1;
  }

  lemma TwoBatchesOverLimit(sizes: seq<nat>, max: int)
    requires max >= 1 && AllFit(sizes, max)
    ensures var n := Fit(sizes, max); var rest := sizes[n..];
            rest != [] ==> Sum(sizes[..n]) + Sum(rest[..Fit(rest, max)]) > max
  {
    hide Fit;
    var n := Fit(sizes, max);
    var rest := sizes[n..];
    if rest != [] {
      FitLongest(sizes, max, n + 1);
      SumSplit(sizes[..n + 1], n);
      assert sizes[..n + 1][..n] == sizes[..n] && sizes[..n + 1][n..] == [sizes[n]];
      assert rest[..1] == [sizes[n]] && Sum([sizes[n]]) == sizes[n];
      var m := Fit(rest, max);
      FitLongest(rest, max, 1);
      SumSplit(rest[..m], 1);
      assert rest[..m][..1] == rest[..1];
    }
  }

  // ------------------------------------------------------------ when it drains

  lemma FitPositive(sizes: seq<nat>, max: int)
    requires sizes != []
    ensures Fit(sizes, max) > 0 <==> max >= 1 && sizes[0] <= max
  {
  }

  lemma {:induction false} DrainsByRound(sizes: seq<nat>, max: int, k: nat)
    requires max >= 1 && AllFit(sizes, max)
    ensures |Drain(sizes, max, k)| + k <= |sizes| || Drain(sizes, max, k) == []
  {
    if k > 0 {
      DrainsByRound(sizes, max, k - 1);
      var before := Drain(sizes, max, k - 1);
      DrainSuffix(sizes, max, k - 1);
      if before != [] {
        FitPositive(before, max);
      }
    }
  }

  lemma {:induction false} NeverPassesOversize(sizes: seq<nat>, max: int, k: nat, p: nat)
    requires p < |sizes| && (max < 1 || sizes[p] > max)
    ensures |Drain(sizes, max, k)| >= |sizes| - p
  {
    if k > 0 {
      NeverPassesOversize(sizes, max, k - 1, p);
      var before := Drain(sizes, max, k - 1);
      hide Fit;
      DrainSuffix(sizes, max, k - 1);
      FitStopsAt(before, max, p - (|sizes| - |before|));
    }
  }

  lemma FitStopsAt(sizes: seq<nat>, max: int, p: nat)
    requires p < |sizes| && (max < 1 || sizes[p] > max)
    ensures Fit(sizes, max) <= p
  {
    if max >= 1 {
      SumSplit(sizes[..p + 1], p);
      assert sizes[..p + 1][p..] == [sizes[p]];
      assert Sum([sizes[p]]) == sizes[p];
      FitLongest(sizes, max, p + 1);
    }
  }

  /** Rounds without arrivals empty the queue exactly when every message fits
      the limit; a message that does not fit blocks everything behind it. */
  lemma DrainsExactlyIfAllFit(sizes: seq<nat>, max: int)
    ensures (exists k: nat :: Drain(sizes, max, k) == []) <==> sizes == [] || (max >= 1 && AllFit(sizes, max))
  {
    if sizes == [] {
      assert Drain(sizes, max, 0) == [];
    } else if max >= 1 && AllFit(sizes, max) {
      DrainsByRound(sizes, max, |sizes|);
      assert Drain(sizes, max, |sizes|) == [];
    } else {
      var p :| 0 <= p < |sizes| && (max < 1 || sizes[p] > max);
      forall k: nat ensures Drain(sizes, max, k) != [] {
        NeverPassesOversize(sizes, max, k, p);
      }
    }
  }

  /** How many messages the rounds pop while `late[r]` arrives during round `r`. */
  function Popped(sizes: seq<nat>, max: int, late: seq<seq<nat>>): nat
    decreases |late|
  {
    if late == [] then 0
    else
      var n := Fit(sizes, max);
      n + Popped(sizes[n..] + late[0], max, late[1..])
  }

  /** Whatever arrives meanwhile, the message at position `p` is popped within
      `p + 1` rounds if it and those before it fit. */
  lemma {:induction false} AnsweredWithin(sizes: seq<nat>, max: int, late: seq<seq<nat>>, p: nat)
    requires max >= 1 && p < |sizes| && AllFit(sizes[..p + 1], max) && |late| > p
    ensures Popped(sizes, max, late) > p
    decreases p
  {
    hide Fit;
    var n := Fit(sizes, max);
    assert sizes[0] == sizes[..p + 1][0];
    FitPositive(sizes, max);
    if n <= p {
      var queue := sizes[n..] + late[0];
      assert queue[..p - n + 1] == sizes[..p + 1][n..];
      AnsweredWithin(queue, max, late[1..], p - n);
    }
  }
}
