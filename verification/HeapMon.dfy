/** Heap monitoring (heapmon.c): choosing the processes to scan, and the exchange
    sort of the results. */
module HeapMon {
  import opened TopN

  const MAX_TARGETS: nat := 12

  ghost predicate NoRepeats(s: seq<int>) {
    forall i, j :: 0 <= i < j < |s| ==> s[i] != s[j]
  }

  lemma OneMore(s: seq<int>, x: int)
    ensures NoRepeats(s) && x !in s ==> NoRepeats(s + [x])
    ensures forall p :: p in s + [x] <==> p in s || p == x
  {
  }

  lemma NextMember(s: seq<int>, i: nat)
    requires i < |s|
    ensures forall p :: p in s[..i + 1] <==> p in s[..i] || p == s[i]
  {
    assert s[..i + 1] == s[..i] + [s[i]];
  }

  /** The target list: the growers, then the largest processes not already there.
      With half of the places for each list nothing is ever dropped. */
  method MergeTargets(growers: seq<int>, largest: seq<int>, targets: array<int>) returns (count: nat)
    requires targets.Length == MAX_TARGETS
    requires |growers| <= MAX_TARGETS / 2 && |largest| <= MAX_TARGETS / 2
    requires NoRepeats(growers) && NoRepeats(largest)
    modifies targets
    ensures count <= 12 && NoRepeats(targets[..count])
    ensures growers <= targets[..count]
    ensures forall p :: p in targets[..count] <==> p in growers || p in largest
  {
    hide NoRepeats;
    count := 0;
    for i := 0 to |growers|
      invariant count == i && targets[..count] == growers[..i]
    {
      targets[count] := growers[i];
      count := count + 1;
    }
    assert targets[..count] == growers;
    for i := 0 to |largest|
      invariant |growers| <= count <= |growers| + i
      invariant NoRepeats(targets[..count]) && targets[..|growers|] == growers
      invariant forall p :: p in targets[..count] <==> p in growers || p in largest[..i]
    {
      ghost var was := targets[..count];
      var found := false;
      var k := 0;
      while k < count && !found
        invariant 0 <= k <= count && targets[..count] == was
        invariant found <==> largest[i] in was[..k]
      {
        if targets[k] == largest[i] {
          found := true;
        }
        k := k + 1;
      }
      assert !found ==> was[..k] == was;
      NextMember(largest, i);
      if !found && count < MAX_TARGETS {
        OneMore(was, largest[i]);
        targets[count] := largest[i];
        count := count + 1;
        assert targets[..count] == was + [largest[i]];
      }
    }
    assert growers == targets[..count][..|growers|];
  }

  datatype Result = Result(pid: int, rss: int, initialRss: int)

  /** The total increase the results are ranked by. */
  function Increase(r: Result): int {
    r.rss - r.initialRss
  }

  /** A swap is a permutation. */
  lemma SwapKeeps(s: seq<Result>, t: seq<Result>, j: nat)
    requires 0 < j < |s| == |t| && t[0] == s[j] && t[j] == s[0]
    requires forall k :: 0 < k < |s| && k != j ==> t[k] == s[k]
    ensures multiset(t) == multiset(s)
  {
    assert t == s[0 := s[j]][j := s[0]];
  }

  method Exchange(results: array<Result>, i: nat, j: nat, n: nat)
    requires i < j < n <= results.Length
    modifies results
    ensures results[i] == old(results[j]) && results[j] == old(results[i])
    ensures forall k :: 0 <= k < results.Length && k != i && k != j ==> results[k] == old(results[k])
    ensures multiset(results[i..n]) == multiset(old(results[i..n]))
  {
    ghost var was := results[i..n];
    var tmp := results[i];
    results[i] := results[j];
    results[j] := tmp;
    SwapKeeps(was, results[i..n], j - i);
  }

  /** The inner loop of the exchange sort: afterwards slot `i` holds a largest
      increase of the slots from `i` on. */
  method BringLargest(results: array<Result>, i: nat, n: nat)
    requires i < n <= results.Length
    modifies results
    ensures multiset(results[i..n]) == multiset(old(results[i..n]))
    ensures forall q :: i <= q < n ==>
              results[i].rss - results[i].initialRss >= results[q].rss - results[q].initialRss
    ensures forall k :: 0 <= k < i || n <= k < results.Length ==> results[k] == old(results[k])
  {
    ghost var all := results[i..n];
    var j := i + 1;
    while j < n
      invariant i < j <= n
      invariant multiset(results[i..n]) == multiset(all)
      invariant forall q :: i <= q < j ==> Increase(results[i]) >= Increase(results[q])
      invariant forall k :: 0 <= k < i || n <= k < results.Length ==> results[k] == old(results[k])
    {
      if Increase(results[j]) > Increase(results[i]) {
        Exchange(results, i, j, n);
      }
      j := j + 1;
    }
  }

  /** Rearranging the slots from `i` on keeps them below a bound. */
  lemma StillBelow(before: seq<Result>, after: seq<Result>, bound: int)
    requires multiset(before) == multiset(after)
    requires forall q :: 0 <= q < |before| ==> bound >= Increase(before[q])
    ensures forall q :: 0 <= q < |after| ==> bound >= Increase(after[q])
  {
    forall q | 0 <= q < |after|
      ensures bound >= Increase(after[q])
    {
      assert after[q] in multiset(before);
    }
  }

  /** heapmon_collect's sort: the results in descending order of increase, none lost
      or duplicated, nothing behind them touched. */
  method ExchangeSort(results: array<Result>, n: nat)
    requires n <= results.Length
    modifies results
    ensures multiset(results[..n]) == multiset(old(results[..n]))
    ensures forall p, q :: 0 <= p < q < n ==>
              results[p].rss - results[p].initialRss >= results[q].rss - results[q].initialRss
    ensures IsSorted(old(results[..n]), results[..n], Increase)
    ensures forall k :: n <= k < results.Length ==> results[k] == old(results[k])
  {
    var i := 0;
    while i < n - 1
      invariant 0 <= i <= n
      invariant multiset(results[..n]) == multiset(old(results[..n]))
      invariant forall p, q :: 0 <= p < i && p < q < n ==> Increase(results[p]) >= Increase(results[q])
      invariant forall k :: n <= k < results.Length ==> results[k] == old(results[k])
    {
      ghost var head, tail := results[..i], results[i..n];
      assert results[..n] == head + tail;
      BringLargest(results, i, n);
      assert results[..n] == head + results[i..n];
      forall p, q | 0 <= p < i + 1 && p < q < n
        ensures Increase(results[p]) >= Increase(results[q])
      {
        if p < i {
          assert head[p] == results[p];
          if q >= i {
            StillBelow(tail, results[i..n], Increase(head[p]));
            assert results[i..n][q - i] == results[q];
          } else {
            assert head[q] == results[q];
          }
        }
      }
      i := i + 1;
    }
  }
}
