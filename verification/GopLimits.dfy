/** The limits of the buffer of groups of pictures: how many of the oldest groups go when one is added. */
module GopLimits {
  /** What the limits look at in a group. */
  datatype Item = Item(start: nat, size: int)

  datatype Limits = Limits(maxGops: int, maxBytes: int, maxDuration: int)

  /** The bytes of the groups from position `k` on. */
  function Total(items: seq<Item>, k: nat): int
    decreases |items| - k
  {
    if k >= |items| then 0 else items[k].size + Total(items, k + 1)
  }

  // Each limit moves the position of the oldest group that stays.

  function ByCount(items: seq<Item>, k: nat, maxGops: int): (r: nat)
    requires k <= |items|
    ensures k <= r <= |items|
    decreases |items| - k
  {
    if k < |items| && |items| - k > maxGops then ByCount(items, k + 1, maxGops) else k
  }

  function ByBytes(items: seq<Item>, k: nat, maxBytes: int): (r: nat)
    requires k <= |items|
    ensures k <= r <= |items|
    decreases |items| - k
  {
    if Total(items, k) > maxBytes && |items| - k > 1 then ByBytes(items, k + 1, maxBytes) else k
  }

  function ByTime(items: seq<Item>, k: nat, cutoff: int): (r: nat)
    requires k <= |items|
    ensures k <= r <= |items|
    decreases |items| - k
  {
    if k < |items| && items[k].start <= cutoff then ByTime(items, k + 1, cutoff) else k
  }

  /** The three limits, one after the other: how many of the oldest groups go. */
  function Removed(items: seq<Item>, limits: Limits, newest: nat): (r: nat)
    ensures r <= |items|
  {
    var few := ByBytes(items, ByCount(items, 0, limits.maxGops), limits.maxBytes);
    if limits.maxDuration > 0 && |items| - few > 1 then ByTime(items, few, newest - limits.maxDuration) else few
  }

  /** The groups from position `k` on are within all limits. */
  ghost predicate WithinLimits(items: seq<Item>, k: nat, limits: Limits, newest: nat) {
    && |items| - k <= limits.maxGops
    && (Total(items, k) <= limits.maxBytes || |items| - k <= 1)
    && (limits.maxDuration > 0 ==> forall i :: k <= i < |items| ==> items[i].start > newest - limits.maxDuration)
  }

  /** Groups arrive in the order of their start times, and the newest gave the newest time. */
  ghost predicate InOrder(items: seq<Item>, newest: nat) {
    && items != [] && items[|items| - 1].start == newest
    && forall i, j :: 0 <= i < j < |items| ==> items[i].start <= items[j].start
  }

  lemma {:induction false} ByCountIs(items: seq<Item>, k: nat, maxGops: int)
    requires k <= |items| && maxGops >= 0
    ensures var r := ByCount(items, k, maxGops);
            |items| - r <= maxGops && (r == k || |items| - r >= maxGops)
    decreases |items| - k
  {
    if |items| - k > maxGops {
      ByCountIs(items, k + 1, maxGops);
    }
  }

  // The count loop asks only how many groups there are, and removing the oldest of none does nothing.

  predicate CountGuard(n: nat, maxGops: int) { n > maxGops }
  function CountTurn(n: nat): nat { if n == 0 then 0 else n - 1 }

  function CountTurns(n: nat, turns: nat): nat
    decreases turns
  {
    if turns == 0 then n else CountTurns(CountTurn(n), turns - 1)
  }

  /** The loop ends exactly when the limit is not negative: on no groups at all a negative limit lets it go on, and the
      turn changes nothing. */
  lemma CountLoopEnds(n: nat, maxGops: int)
    ensures (exists turns :: !CountGuard(CountTurns(n, turns), maxGops)) <==> maxGops >= 0
    ensures maxGops < 0 ==> CountGuard(0, maxGops) && CountTurn(0) == 0
  {
    if maxGops >= 0 {
      TurnsEmpty(n);
      assert !CountGuard(CountTurns(n, n), maxGops);
    }
  }

  lemma {:induction false} TurnsEmpty(n: nat)
    ensures CountTurns(n, n) == 0
    decreases n
  {
    if n > 0 {
      TurnsEmpty(n - 1);
    }
  }

  lemma {:induction false} ByBytesIs(items: seq<Item>, k: nat, maxBytes: int)
    requires k <= |items|
    ensures var r := ByBytes(items, k, maxBytes);
            && (Total(items, r) <= maxBytes || |items| - r <= 1) && (k < |items| ==> r < |items|)
            && forall j :: k <= j < r ==> Total(items, j) > maxBytes && |items| - j > 1
    decreases |items| - k
  {
    if Total(items, k) > maxBytes && |items| - k > 1 {
      ByBytesIs(items, k + 1, maxBytes);
    }
  }

  lemma {:induction false} ByTimeIs(items: seq<Item>, k: nat, cutoff: int)
    requires k <= |items|
    ensures var r := ByTime(items, k, cutoff);
            && (r < |items| ==> items[r].start > cutoff)
            && forall j :: k <= j < r ==> items[j].start <= cutoff
    decreases |items| - k
  {
    if k < |items| && items[k].start <= cutoff {
      ByTimeIs(items, k + 1, cutoff);
    }
  }

  /** However the start times lie: removing fewer of the oldest groups would break a limit. */
  lemma NoFewer(items: seq<Item>, limits: Limits, newest: nat, k: nat)
    requires limits.maxGops >= 0 && k < Removed(items, limits, newest)
    ensures !WithinLimits(items, k, limits, newest)
  {
    var a := ByCount(items, 0, limits.maxGops);
    var few := ByBytes(items, a, limits.maxBytes);
    ByCountIs(items, 0, limits.maxGops);
    ByBytesIs(items, a, limits.maxBytes);
    ByTimeIs(items, few, newest - limits.maxDuration);
    if a <= k < few {
      assert Total(items, k) > limits.maxBytes;
    } else if few <= k {
      assert items[k].start <= newest - limits.maxDuration;
    }
  }

  lemma {:induction false} TotalShrinks(items: seq<Item>, k: nat, m: nat)
    requires k <= m && forall i :: 0 <= i < |items| ==> items[i].size >= 0
    ensures Total(items, m) <= Total(items, k)
    decreases m
  {
    if k < m {
      TotalShrinks(items, k, m - 1);
    }
  }

  /** The oldest group that the count and byte limits leave. */
  function Few(items: seq<Item>, limits: Limits): (k: nat)
    ensures k <= |items|
  {
    ByBytes(items, ByCount(items, 0, limits.maxGops), limits.maxBytes)
  }

  predicate InWindow(item: Item, limits: Limits, newest: nat) { item.start > newest - limits.maxDuration }

  /** Of the groups that the count and byte limits leave, no one in the window is followed by one outside it, and
      one that is left alone, which the time limit does not look at, lies in the window. */
  predicate WindowIsSuffix(items: seq<Item>, limits: Limits, newest: nat) {
    var few := Few(items, limits);
    limits.maxDuration <= 0 ||
    (if |items| - few > 1
     then forall i, j :: few <= i < j < |items| && InWindow(items[i], limits, newest) ==> InWindow(items[j], limits, newest)
     else few < |items| ==> InWindow(items[few], limits, newest))
  }

  /** When what is left is within all limits. */
  lemma WithinExactly(items: seq<Item>, limits: Limits, newest: nat)
    requires limits.maxGops >= 0 && forall i :: 0 <= i < |items| ==> items[i].size >= 0
    ensures WithinLimits(items, Removed(items, limits, newest), limits, newest) <==> WindowIsSuffix(items, limits, newest)
  {
    var r, few := Removed(items, limits, newest), Few(items, limits);
    var a := ByCount(items, 0, limits.maxGops);
    ByCountIs(items, 0, limits.maxGops);
    ByBytesIs(items, a, limits.maxBytes);
    TotalShrinks(items, few, r);
    if limits.maxDuration > 0 && |items| - few > 1 {
      WindowAfter(items, limits, newest);
    }
  }

  lemma WindowAfter(items: seq<Item>, limits: Limits, newest: nat)
    requires limits.maxDuration > 0 && |items| - Few(items, limits) > 1
    ensures var r := Removed(items, limits, newest);
            (forall i :: r <= i < |items| ==> InWindow(items[i], limits, newest)) <==> WindowIsSuffix(items, limits, newest)
  {
    var r, few := Removed(items, limits, newest), Few(items, limits);
    ByTimeIs(items, few, newest - limits.maxDuration);
    forall j | few <= j < r ensures !InWindow(items[j], limits, newest) {
    }
    if r < |items| {
      assert InWindow(items[r], limits, newest);
    }
  }

  /** When nothing is left of groups that were there: the time limit has taken them all, the newest included. */
  lemma AllRemovedExactly(items: seq<Item>, limits: Limits, newest: nat)
    requires limits.maxGops >= 1 && items != []
    ensures Removed(items, limits, newest) == |items| <==>
              && limits.maxDuration > 0 && |items| - Few(items, limits) > 1
              && forall i :: Few(items, limits) <= i < |items| ==> !InWindow(items[i], limits, newest)
  {
    var few := Few(items, limits);
    CountKeepsNewest(items, limits.maxGops);
    ByBytesIs(items, ByCount(items, 0, limits.maxGops), limits.maxBytes);
    if limits.maxDuration > 0 && |items| - few > 1 {
      var r := Removed(items, limits, newest);
      ByTimeIs(items, few, newest - limits.maxDuration);
      if r < |items| {
        assert InWindow(items[r], limits, newest);
      }
    }
  }

  /** Two groups out of order, added after the newest one had left: both go. */
  lemma OutOfOrder()
    ensures Removed([Item(5, 1), Item(3, 1)], Limits(10, 100, 1), 10) == 2
  {
    var items, limits := [Item(5, 1), Item(3, 1)], Limits(10, 100, 1);
    assert Total(items, 1) == 1 && Total(items, 0) == 2;
    AllRemovedExactly(items, limits, 10);
  }

  /** With start times in order, what remains is the longest run of newest groups within all limits, the newest included. */
  lemma RemovedIsLeast(items: seq<Item>, limits: Limits, newest: nat)
    requires InOrder(items, newest) && limits.maxGops >= 1 && forall i :: 0 <= i < |items| ==> items[i].size >= 0
    ensures var r := Removed(items, limits, newest);
            && r < |items| && WithinLimits(items, r, limits, newest)
            && forall k :: 0 <= k < r ==> !WithinLimits(items, k, limits, newest)
  {
    var r, few := Removed(items, limits, newest), Few(items, limits);
    CountKeepsNewest(items, limits.maxGops);
    ByBytesIs(items, ByCount(items, 0, limits.maxGops), limits.maxBytes);
    if limits.maxDuration > 0 && |items| - few > 1 {
      TimeKeepsNewest(items, few, newest, limits.maxDuration);
    }
    WithinExactly(items, limits, newest);
    forall k | 0 <= k < r ensures !WithinLimits(items, k, limits, newest) {
      NoFewer(items, limits, newest, k);
    }
  }

  lemma CountKeepsNewest(items: seq<Item>, maxGops: int)
    requires items != [] && maxGops >= 1
    ensures var r := ByCount(items, 0, maxGops); r < |items| && |items| - r <= maxGops
  {
    ByCountIs(items, 0, maxGops);
  }

  lemma TimeKeepsNewest(items: seq<Item>, k: nat, newest: nat, window: nat)
    requires InOrder(items, newest) && window > 0 && k < |items|
    ensures var r := ByTime(items, k, newest - window);
            r < |items| && forall i :: r <= i < |items| ==> items[i].start > newest - window
  {
    ByTimeIs(items, k, newest - window);
  }
}
