/** Sorting as exchanges of items: what they keep, and that they lead to any order. */
module Exchanges {
  import opened Lists

  predicate SwapsFit(swaps: seq<(nat, nat)>, n: nat) {
    forall m: nat | m < |swaps| :: swaps[m].0 < n && swaps[m].1 < n
  }

  /** The list after the first `n` exchanges. */
  ghost function Exchanged<T>(items: seq<T>, swaps: seq<(nat, nat)>, n: nat): (items': seq<T>)
    requires SwapsFit(swaps, |items|) && n <= |swaps|
    ensures |items'| == |items|
  {
    if n == 0 then items else Swapped(Exchanged(items, swaps, n - 1), swaps[n - 1].0, swaps[n - 1].1)
  }

  lemma SwapKeepsItems<T>(list: seq<T>, i: nat, j: nat)
    requires i < |list| && j < |list|
    ensures multiset(Swapped(list, i, j)) == multiset(list)
  {
  }

  /** Exchanges lose nobody... */
  lemma {:induction false} ExchangesKeepItems<T>(items: seq<T>, swaps: seq<(nat, nat)>, n: nat)
    requires SwapsFit(swaps, |items|) && n <= |swaps|
    ensures multiset(Exchanged(items, swaps, n)) == multiset(items)
  {
    if n > 0 {
      ExchangesKeepItems(items, swaps, n - 1);
      SwapKeepsItems(Exchanged(items, swaps, n - 1), swaps[n - 1].0, swaps[n - 1].1);
    }
  }

  lemma {:induction false} ExchangedFront<T>(items: seq<T>, swaps: seq<(nat, nat)>, more: seq<(nat, nat)>, n: nat)
    requires SwapsFit(swaps + more, |items|) && n <= |swaps|
    ensures SwapsFit(swaps, |items|) && Exchanged(items, swaps + more, n) == Exchanged(items, swaps, n)
  {
    assert forall m: nat | m < |swaps| :: (swaps + more)[m] == swaps[m];
    if n > 0 {
      ExchangedFront(items, swaps, more, n - 1);
    }
  }

  lemma LongerFits(swaps: seq<(nat, nat)>, i: nat, j: nat, n: nat)
    requires SwapsFit(swaps, n) && i < n && j < n
    ensures SwapsFit(swaps + [(i, j)], n) && (swaps + [(i, j)])[|swaps|] == (i, j)
  {
  }

  lemma OneMoreExchange<T>(items: seq<T>, swaps: seq<(nat, nat)>, i: nat, j: nat)
    requires SwapsFit(swaps, |items|) && i < |items| && j < |items|
    ensures SwapsFit(swaps + [(i, j)], |items|)
    ensures Exchanged(items, swaps + [(i, j)], |swaps| + 1) == Swapped(Exchanged(items, swaps, |swaps|), i, j)
  {
    LongerFits(swaps, i, j, |items|);
    ExchangedFront(items, swaps, [(i, j)], |swaps|);
  }

  /** ...and lead to any order: whatever a sort makes of a list, some exchanges make of it. */
  lemma {:induction false} AnyOrderByExchanges<T>(items: seq<T>, sorted: seq<T>, n: nat) returns (swaps: seq<(nat, nat)>)
    requires multiset(items) == multiset(sorted) && n <= |items| == |sorted|
    ensures SwapsFit(swaps, |items|) && Exchanged(items, swaps, |swaps|)[..n] == sorted[..n]
  {
    swaps := [];
    if n > 0 {
      swaps := AnyOrderByExchanges(items, sorted, n - 1);
      var so := Exchanged(items, swaps, |swaps|);
      ExchangesKeepItems(items, swaps, |swaps|);
      var j := FindBehind(so, sorted, n - 1);
      OneMoreExchange(items, swaps, n - 1, j);
      OneMoreFits(so, sorted, n, j);
      swaps := swaps + [(n - 1, j)];
    }
  }

  lemma OneMoreFits<T>(so: seq<T>, sorted: seq<T>, n: nat, j: nat)
    requires 0 < n <= |so| == |sorted| && n - 1 <= j < |so| && so[j] == sorted[n - 1] && so[..n - 1] == sorted[..n - 1]
    ensures Swapped(so, n - 1, j)[..n] == sorted[..n]
  {
    assert forall i: nat | i < n - 1 :: so[i] == so[..n - 1][i] == sorted[..n - 1][i] == sorted[i];
  }

  /** Lists with the same items that agree so far: what comes next in one is still to come
      in the other. */
  lemma FindBehind<T>(so: seq<T>, sorted: seq<T>, n: nat) returns (j: nat)
    requires multiset(so) == multiset(sorted) && n < |so| == |sorted| && so[..n] == sorted[..n]
    ensures n <= j < |so| && so[j] == sorted[n]
  {
    SplitItems(so, n);
    SplitItems(sorted, n);
    assert multiset(so[n..]) == multiset(sorted) - multiset(sorted[..n]) == multiset(sorted[n..]);
    assert sorted[n] == sorted[n..][0];
    assert sorted[n] in multiset(so[n..]);
    var i: nat :| i < |so[n..]| && so[n..][i] == sorted[n];
    j := n + i;
  }

  lemma SplitItems<T>(list: seq<T>, n: nat)
    requires n <= |list|
    ensures multiset(list[n..]) == multiset(list) - multiset(list[..n])
  {
    assert list == list[..n] + list[n..];
  }
}
