/**
  The list of scanned networks that the configuration portal shows: an exchange sort
  of indices by signal strength, duplicates overwritten in place by a tombstone, and
  a filter by signal quality.
 */
module WifiScan {
  import opened Sequences

  datatype Network = Network(ssid: string, rssi: int)

  const TOMBSTONE := -1
  const NO_MINIMUM := -1

  /** Signal quality in percent. */
  function Quality(rssi: int): int {
    if rssi <= -100 then 0 else if rssi >= -50 then 100 else 2 * (rssi + 100)
  }

  /**
    The scale: 0 up to -100 dBm, 100 from -50 dBm on, and two percent for each dBm
    between; so it is monotone, and a percentage.
   */
  lemma QualityIsMonotone(a: int, b: int)
    ensures a <= -100 ==> Quality(a) == 0
    ensures a >= -50 ==> Quality(a) == 100
    ensures -100 <= a <= b <= -50 ==> Quality(b) - Quality(a) == 2 * (b - a)
    ensures a <= b ==> Quality(a) <= Quality(b)
    ensures 0 <= Quality(a) <= 100
  {}

  predicate Passes(minimum: int, rssi: int) {
    minimum == NO_MINIMUM || minimum < Quality(rssi)
  }

  function Identity(n: nat): (s: seq<int>)
    ensures |s| == n && forall i | 0 <= i < n :: s[i] == i
  {
    seq(n, i => i)
  }

  /** `order` lists every network once. */
  ghost predicate IsOrder(nets: seq<Network>, order: seq<int>) {
    && |order| == |nets|
    && multiset(order) == multiset(Identity(|nets|))
    && forall i | 0 <= i < |order| :: 0 <= order[i] < |nets|
  }

  /** Stronger signals come first. */
  ghost predicate Descending(nets: seq<Network>, order: seq<int>)
    requires forall i | 0 <= i < |order| :: 0 <= order[i] < |nets|
  {
    forall i, j | 0 <= i < j < |order| :: nets[order[i]].rssi >= nets[order[j]].rssi
  }

  /** The first `i` places are settled: nothing behind them is stronger. */
  ghost predicate SettledUpTo(nets: seq<Network>, order: seq<int>, i: int)
    requires forall k | 0 <= k < |order| :: 0 <= order[k] < |nets|
  {
    forall a, b | 0 <= a < i && a < b < |order| :: nets[order[a]].rssi >= nets[order[b]].rssi
  }

  /** Sorts the indices by exchanging every pair that is out of order. */
  method Sort(nets: seq<Network>) returns (indices: array<int>)
    ensures fresh(indices) && IsOrder(nets, indices[..]) && Descending(nets, indices[..])
  {
    var n := |nets|;
    indices := new int[n](i => i);
    assert indices[..] == Identity(n);
    for i := 0 to n
      invariant IsOrder(nets, indices[..]) && SettledUpTo(nets, indices[..], i)
    {
      Settle(nets, indices, i);
    }
  }

  /** The inner loop: puts the strongest of the remaining networks in place `i`. */
  method Settle(nets: seq<Network>, indices: array<int>, i: nat)
    requires i < indices.Length && IsOrder(nets, indices[..]) && SettledUpTo(nets, indices[..], i)
    modifies indices
    ensures IsOrder(nets, indices[..]) && SettledUpTo(nets, indices[..], i + 1)
  {
    for j := i + 1 to indices.Length
      invariant IsOrder(nets, indices[..]) && SettledUpTo(nets, indices[..], i)
      invariant forall b | i < b < j :: nets[indices[i]].rssi >= nets[indices[b]].rssi
    {
      if nets[indices[j]].rssi > nets[indices[i]].rssi {
        ghost var before := indices[..];
        Swap(indices, i, j);
        SwapKeepsOrder(nets, before, indices[..], i, j);
      }
    }
  }

  lemma SwapKeepsOrder(nets: seq<Network>, before: seq<int>, after: seq<int>, i: nat, j: nat)
    requires IsOrder(nets, before) && SettledUpTo(nets, before, i) && i < j < |before| == |after|
    requires multiset(after) == multiset(before) && after[i] == before[j] && after[j] == before[i]
    requires forall k | 0 <= k < |before| && k != i && k != j :: after[k] == before[k]
    ensures IsOrder(nets, after) && SettledUpTo(nets, after, i)
  {}

  method Swap(a: array<int>, i: nat, j: nat)
    requires i < j < a.Length
    modifies a
    ensures multiset(a[..]) == old(multiset(a[..]))
    ensures a[i] == old(a[j]) && a[j] == old(a[i])
    ensures forall k | 0 <= k < a.Length && k != i && k != j :: a[k] == old(a[k])
  {
    a[i], a[j] := a[j], a[i];
  }

  // ---------------------------------------------------------------------------
  // Duplicates
  // ---------------------------------------------------------------------------

  /** An earlier entry of the list, before position `bound`, has the same name. */
  ghost predicate Repeated(nets: seq<Network>, order: seq<int>, k: nat, bound: nat)
    requires k < |order| && forall i | 0 <= i < |order| :: 0 <= order[i] < |nets|
  {
    exists m: nat :: m < k && m < bound && nets[order[m]].ssid == nets[order[k]].ssid
  }

  /** The list with entries that repeat a name before `bound` overwritten. */
  ghost predicate Deduplicated(nets: seq<Network>, order: seq<int>, list: seq<int>, bound: nat)
    requires forall i | 0 <= i < |order| :: 0 <= order[i] < |nets|
  {
    && |list| == |order|
    && forall k: nat | k < |order| :: list[k] == if Repeated(nets, order, k, bound) then TOMBSTONE else order[k]
  }

  /** The name behind an index; for the tombstone, whatever the driver answers. */
  function SsidAt(nets: seq<Network>, index: int, unknown: string): string {
    if 0 <= index < |nets| then nets[index].ssid else unknown
  }

  /**
    Overwrites every later entry with the name of an entry.  Entries overwritten
    before are skipped as a reference, and overwriting them again changes nothing,
    whatever name the driver reports for them.
   */
  method RemoveDuplicates(nets: seq<Network>, indices: array<int>, unknown: string)
    requires forall i | 0 <= i < indices.Length :: 0 <= indices[i] < |nets|
    modifies indices
    ensures Deduplicated(nets, old(indices[..]), indices[..], |old(indices[..])|)
  {
    ghost var order := indices[..];
    var n := indices.Length;
    for i := 0 to n
      invariant Deduplicated(nets, order, indices[..], i)
    {
      ghost var before := indices[..];
      if indices[i] != TOMBSTONE {
        var cssid := SsidAt(nets, indices[i], unknown);
        for j := i + 1 to n
          invariant forall k | 0 <= k < n ::
            indices[k] == if i < k < j && nets[order[k]].ssid == cssid then TOMBSTONE else before[k]
        {
          if cssid == SsidAt(nets, indices[j], unknown) {
            indices[j] := TOMBSTONE;
          }
        }
      }
      NextBound(nets, order, before, indices[..], i);
    }
  }

  /** One round of the outer loop moves the bound by one. */
  lemma NextBound(nets: seq<Network>, order: seq<int>, before: seq<int>, after: seq<int>, i: nat)
    requires forall k | 0 <= k < |order| :: 0 <= order[k] < |nets|
    requires Deduplicated(nets, order, before, i) && i < |order| == |after|
    requires before[i] == TOMBSTONE ==> after == before
    requires before[i] != TOMBSTONE ==>
      forall k | 0 <= k < |after| ::
        after[k] == if i < k && nets[order[k]].ssid == nets[order[i]].ssid then TOMBSTONE else before[k]
    ensures Deduplicated(nets, order, after, i + 1)
  {
    forall k: nat | k < |order|
      ensures after[k] == if Repeated(nets, order, k, i + 1) then TOMBSTONE else order[k]
    {
      if before[i] == TOMBSTONE {
        var m: nat :| m < i && nets[order[m]].ssid == nets[order[i]].ssid;
        assert Repeated(nets, order, k, i + 1) ==> Repeated(nets, order, k, i);
      } else {
        assert Repeated(nets, order, k, i + 1) <==>
          Repeated(nets, order, k, i) || (i < k && nets[order[i]].ssid == nets[order[k]].ssid);
      }
    }
  }

  // ---------------------------------------------------------------------------
  // What survives
  // ---------------------------------------------------------------------------

  /** Position `k` is the first of its name. */
  ghost predicate Survives(nets: seq<Network>, order: seq<int>, k: nat)
    requires k < |order| && forall i | 0 <= i < |order| :: 0 <= order[i] < |nets|
  {
    !Repeated(nets, order, k, |order|)
  }

  lemma {:induction false} FirstOfItsName(nets: seq<Network>, order: seq<int>, k: nat) returns (first: nat)
    requires k < |order| && forall i | 0 <= i < |order| :: 0 <= order[i] < |nets|
    ensures first <= k && Survives(nets, order, first)
    ensures nets[order[first]].ssid == nets[order[k]].ssid
  {
    first := k;
    if !Survives(nets, order, k) {
      var m: nat :| m < k && nets[order[m]].ssid == nets[order[k]].ssid;
      first := FirstOfItsName(nets, order, m);
    }
  }

  lemma IndexListed(nets: seq<Network>, order: seq<int>, x: nat) returns (k: nat)
    requires IsOrder(nets, order) && x < |nets|
    ensures k < |order| && order[k] == x
  {
    assert Identity(|nets|)[x] == x;
    assert x in multiset(Identity(|nets|));
    assert x in multiset(order);
    k :| 0 <= k < |order| && order[k] == x;
  }

  /**
    After sorting and removing duplicates exactly one entry is left for the name of
    each network, and it has the strongest signal of all networks of that name.
   */
  lemma OneStrongestPerName(nets: seq<Network>, order: seq<int>, x: nat) returns (k: nat)
    requires IsOrder(nets, order) && Descending(nets, order) && x < |nets|
    ensures k < |order| && Survives(nets, order, k) && nets[order[k]].ssid == nets[x].ssid
    ensures forall j: nat | j < |order| && Survives(nets, order, j) && nets[order[j]].ssid == nets[x].ssid :: j == k
    ensures forall y | 0 <= y < |nets| && nets[y].ssid == nets[x].ssid :: nets[order[k]].rssi >= nets[y].rssi
  {
    var at := IndexListed(nets, order, x);
    k := FirstOfItsName(nets, order, at);
    forall y | 0 <= y < |nets| && nets[y].ssid == nets[x].ssid ensures nets[order[k]].rssi >= nets[y].rssi {
      var atY := IndexListed(nets, order, y);
      assert nets[order[atY]].ssid == nets[order[k]].ssid;
    }
  }

  // ---------------------------------------------------------------------------
  // The page
  // ---------------------------------------------------------------------------

  /** The entries that the page gets, in order. */
  function Shown(nets: seq<Network>, list: seq<int>, minimum: int): seq<int> {
    if list == [] then []
    else
      var last := list[|list| - 1];
      Shown(nets, list[..|list| - 1], minimum)
      + if 0 <= last < |nets| && Passes(minimum, nets[last].rssi) then [last] else []
  }

  lemma {:induction false} ShownIff(nets: seq<Network>, list: seq<int>, minimum: int, x: int)
    ensures x in Shown(nets, list, minimum) <==> 
              x in list && 0 <= x < |nets| && (minimum == -1 || minimum < Quality(nets[x].rssi))
  {
    if list != [] {
      var n := |list| - 1;
      ShownIff(nets, list[..n], minimum, x);
      assert list == list[..n] + [list[n]];
    }
  }

  /** The entries in order that are the first of their name. */
  ghost function Survivors(nets: seq<Network>, order: seq<int>): seq<int>
    requires forall i | 0 <= i < |order| :: 0 <= order[i] < |nets|
  {
    if order == [] then []
    else
      var n := |order| - 1;
      Survivors(nets, order[..n]) + if Survives(nets, order, n) then [order[n]] else []
  }

  /** Whether an entry repeats a name depends only on the entries before it. */
  lemma RepeatedInFront(nets: seq<Network>, order: seq<int>, k: nat, n: nat)
    requires forall i | 0 <= i < |order| :: 0 <= order[i] < |nets|
    requires k < n <= |order|
    ensures Repeated(nets, order[..n], k, n) <==> Repeated(nets, order, k, |order|)
  {
    if Repeated(nets, order, k, |order|) {
      var m: nat :| m < k && nets[order[m]].ssid == nets[order[k]].ssid;
      assert order[..n][m] == order[m];
    }
  }

  lemma DeduplicatedFront(nets: seq<Network>, order: seq<int>, list: seq<int>, n: nat)
    requires forall i | 0 <= i < |order| :: 0 <= order[i] < |nets|
    requires Deduplicated(nets, order, list, |order|) && |order| == n + 1
    ensures Deduplicated(nets, order[..n], list[..n], n)
    ensures list[n] == if Survives(nets, order, n) then order[n] else TOMBSTONE
  {
    hide Repeated;
    forall k: nat | k < n
      ensures list[k] == if Repeated(nets, order[..n], k, n) then TOMBSTONE else order[k]
    {
      RepeatedInFront(nets, order, k, n);
    }
  }

  /** Without a filter the page shows the survivors. */
  lemma {:induction false} ShownWithoutFilter(nets: seq<Network>, order: seq<int>, list: seq<int>)
    requires forall k | 0 <= k < |order| :: 0 <= order[k] < |nets|
    requires Deduplicated(nets, order, list, |order|)
    ensures Shown(nets, list, NO_MINIMUM) == Survivors(nets, order)
  {
    if list != [] {
      hide Survives, Repeated;
      var n := |list| - 1;
      DeduplicatedFront(nets, order, list, n);
      ShownWithoutFilter(nets, order[..n], list[..n]);
    }
  }

  lemma ShownAll(nets: seq<Network>, order: seq<int>)
    requires forall k | 0 <= k < |order| :: 0 <= order[k] < |nets|
    ensures Shown(nets, order, NO_MINIMUM) == order
  {
    if order != [] {
      ShownAll(nets, order[..|order| - 1]);
    }
  }

  /** Entries that are not overwritten are in order of signal strength. */
  ghost predicate Sorted(nets: seq<Network>, list: seq<int>) {
    forall i, j | 0 <= i < j < |list| && 0 <= list[i] < |nets| && 0 <= list[j] < |nets| ::
      nets[list[i]].rssi >= nets[list[j]].rssi
  }

  /** In front of an entry that passes, every entry passes. */
  lemma {:induction false} AllPassBefore(nets: seq<Network>, list: seq<int>, minimum: int, last: int)
    requires Sorted(nets, list + [last]) && 0 <= last < |nets| && Passes(minimum, nets[last].rssi)
    ensures Shown(nets, list, minimum) == Shown(nets, list, NO_MINIMUM)
  {
    if list != [] {
      var n := |list| - 1;
      var all := list + [last];
      assert all[n] == list[n] && all[n + 1] == last;
      assert Sorted(nets, list[..n] + [last]) by {
        assert forall k | 0 <= k < n :: (list[..n] + [last])[k] == all[k];
      }
      AllPassBefore(nets, list[..n], minimum, last);
      if 0 <= list[n] < |nets| {
        QualityIsMonotone(nets[last].rssi, nets[list[n]].rssi);
      }
    }
  }

  /** The quality filter cuts the list of survivors off; it takes nothing from the middle. */
  lemma {:induction false} PassingIsPrefix(nets: seq<Network>, list: seq<int>, minimum: int)
    requires Sorted(nets, list)
    ensures Shown(nets, list, minimum) <= Shown(nets, list, NO_MINIMUM)
  {
    if list != [] {
      var n := |list| - 1;
      PassingIsPrefix(nets, list[..n], minimum);
      if 0 <= list[n] < |nets| && Passes(minimum, nets[list[n]].rssi) {
        assert list[..n] + [list[n]] == list;
        AllPassBefore(nets, list[..n], minimum, list[n]);
      }
    }
  }

  /** What is left to be filtered. */
  ghost function Candidates(nets: seq<Network>, order: seq<int>, removeDuplicates: bool): seq<int>
    requires forall i | 0 <= i < |order| :: 0 <= order[i] < |nets|
  {
    if removeDuplicates then Survivors(nets, order) else order
  }

  /**
    The page: a beginning of the sorted networks, or of those that are the first of
    their name, and exactly those of them that pass the filter.
   */
  method ScanItems(nets: seq<Network>, minimum: int, removeDuplicates: bool, unknown: string)
    returns (shown: seq<int>, ghost order: seq<int>)
    ensures IsOrder(nets, order) && Descending(nets, order)
    ensures Subsequence(shown, order) && shown <= Candidates(nets, order, removeDuplicates)
    ensures forall x :: x in shown <==>
              && 0 <= x < |nets| && (minimum == -1 || minimum < Quality(nets[x].rssi))
              && (removeDuplicates ==> exists k: nat :: k < |order| && order[k] == x && Survives(nets, order, k))
  {
    hide Shown, Subsequence, Candidates, Survives;
    var indices := Sort(nets);
    order := indices[..];
    if removeDuplicates {
      RemoveDuplicates(nets, indices, unknown);
    }
    shown := ListPassing(nets, indices, minimum);
    ShownFromOrder(nets, order, indices[..], minimum, removeDuplicates);
    ShownIsPrefix(nets, order, indices[..], minimum, removeDuplicates);
  }

  /** The loop that fills the page: skips overwritten entries and those too weak. */
  method ListPassing(nets: seq<Network>, indices: array<int>, minimum: int) returns (shown: seq<int>)
    requires forall k | 0 <= k < indices.Length :: indices[k] == TOMBSTONE || 0 <= indices[k] < |nets|
    ensures shown == Shown(nets, indices[..], minimum)
  {
    ghost var list := indices[..];
    shown := [];
    for i := 0 to indices.Length
      invariant shown == Shown(nets, list[..i], minimum)
    {
      assert list[..i + 1][..i] == list[..i];
      if indices[i] != TOMBSTONE {
        var rssiperc := Quality(nets[indices[i]].rssi);
        if minimum == NO_MINIMUM || minimum < rssiperc {
          shown := shown + [indices[i]];
        }
      }
    }
    assert list[..|list|] == list;
  }

  lemma ShownIsPrefix(nets: seq<Network>, order: seq<int>, list: seq<int>, minimum: int, removeDuplicates: bool)
    requires IsOrder(nets, order) && Descending(nets, order)
    requires if removeDuplicates then Deduplicated(nets, order, list, |order|) else list == order
    ensures Shown(nets, list, minimum) <= Candidates(nets, order, removeDuplicates)
  {
    assert Sorted(nets, list) by {
      assert forall k | 0 <= k < |list| && 0 <= list[k] :: list[k] == order[k];
    }
    PassingIsPrefix(nets, list, minimum);
    if removeDuplicates {
      ShownWithoutFilter(nets, order, list);
    } else {
      ShownAll(nets, order);
    }
  }

  lemma ShownFromOrder(nets: seq<Network>, order: seq<int>, list: seq<int>, minimum: int, removeDuplicates: bool)
    requires IsOrder(nets, order)
    requires if removeDuplicates then Deduplicated(nets, order, list, |order|) else list == order
    ensures Subsequence(Shown(nets, list, minimum), order)
    ensures forall x :: x in Shown(nets, list, minimum) <==>
              && 0 <= x < |nets| && Passes(minimum, nets[x].rssi)
              && (removeDuplicates ==> exists k: nat :: k < |order| && order[k] == x && Survives(nets, order, k))
  {
    ShownSubsequence(nets, order, list, minimum);
    forall x
      ensures x in Shown(nets, list, minimum) <==>
              && 0 <= x < |nets| && Passes(minimum, nets[x].rssi)
              && (removeDuplicates ==> exists k: nat :: k < |order| && order[k] == x && Survives(nets, order, k))
    {
      ShownIff(nets, list, minimum, x);
      if 0 <= x < |nets| {
        var at := IndexListed(nets, order, x);
        assert list[at] in list;
      }
    }
  }

  lemma {:induction false} ShownSubsequence(nets: seq<Network>, order: seq<int>, list: seq<int>, minimum: int)
    requires |list| == |order| && forall k | 0 <= k < |order| :: list[k] == TOMBSTONE || list[k] == order[k]
    ensures Subsequence(Shown(nets, list, minimum), order)
  {
    if list != [] {
      hide Subsequence, Passes;
      var n := |list| - 1;
      ShownSubsequence(nets, order[..n], list[..n], minimum);
      var front := Shown(nets, list[..n], minimum);
      assert order == order[..n] + [order[n]];
      if Shown(nets, list, minimum) == front {
        SubsequenceExtend(front, order[..n], [order[n]]);
      } else {
        SubsequenceAppend(front, order[..n], [order[n]]);
      }
    }
  }
}
