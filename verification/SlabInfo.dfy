/** Slab cache monitoring (slabinfo.c): caches whose size moved by at least 512 KB
    since the last round, ranked both ways. */
module SlabInfo {
  import opened Text
  import opened Sequences
  import opened TopN

  const MAX_SLABS: nat := 512
  const TOP_COUNT: nat := 20
  const MIN_DELTA: int := 524288

  /** A line of /proc/slabinfo: the size is the number of objects times theirs. */
  datatype Slab = Slab(name: string, size: int, objects: int, objectSize: int)

  datatype Change = Change(name: string, size: int, delta: int, objects: int, deltaObjects: int, objectSize: int)

  /** find_slab: the first cache of that name, -1 where there is none. */
  function Find(slabs: seq<Slab>, name: string): (i: int)
    ensures -1 <= i < |slabs|
    ensures i >= 0 ==> slabs[i].name == name
    ensures forall j :: 0 <= j < (if i < 0 then |slabs| else i) ==> slabs[j].name != name
  {
    IndexWhere(slabs, (s: Slab) => s.name == name, 0)
  }

  lemma FindIs(slabs: seq<Slab>, name: string, k: nat)
    requires k <= |slabs| && forall j :: 0 <= j < k ==> slabs[j].name != name
    ensures k == |slabs| ==> Find(slabs, name) == -1
    ensures k < |slabs| && slabs[k].name == name ==> Find(slabs, name) == k
  {
    var i := Find(slabs, name);
    assert i >= 0 ==> slabs[i].name == name;
  }

  function ChangeOf(before: Slab, now: Slab): Change {
    Change(now.name, now.size, now.size - before.size, now.objects, now.objects - before.objects, now.objectSize)
  }

  /** The changes of a round: caches known from the last one that moved enough. */
  function Changes(previous: seq<Slab>, current: seq<Slab>): seq<Change> {
    if current == [] then []
    else
      var n := |current| - 1;
      var p := Find(previous, current[n].name);
      Changes(previous, current[..n])
      + if p >= 0 && Big(ChangeOf(previous[p], current[n])) then [ChangeOf(previous[p], current[n])] else []
  }

  predicate Big(c: Change) {
    c.delta >= MIN_DELTA || c.delta <= -MIN_DELTA
  }

  lemma LastChange(previous: seq<Slab>, current: seq<Slab>, c: Change)
    requires current != []
    ensures c in Changes(previous, current)
            <==> c in Changes(previous, current[..|current| - 1]) || IsChangeAt(previous, current, |current| - 1, c)
    ensures forall k :: 0 <= k < |current| - 1 ==>
              IsChangeAt(previous, current[..|current| - 1], k, c) == IsChangeAt(previous, current, k, c)
  {
    hide Find;
  }

  lemma {:induction false} ChangesAreAt(previous: seq<Slab>, current: seq<Slab>, c: Change)
    ensures c in Changes(previous, current)
            <==> exists k :: 0 <= k < |current| && IsChangeAt(previous, current, k, c)
  {
    if current != [] {
      var short := current[..|current| - 1];
      ChangesAreAt(previous, short, c);
      LastChange(previous, current, c);
      hide *;
      if c in Changes(previous, short) {
        var k :| 0 <= k < |short| && IsChangeAt(previous, short, k, c);
        assert IsChangeAt(previous, current, k, c);
      }
      if k :| 0 <= k < |current| && IsChangeAt(previous, current, k, c) {
        assert k < |short| ==> IsChangeAt(previous, short, k, c);
      }
    }
  }

  predicate IsChangeAt(previous: seq<Slab>, current: seq<Slab>, k: nat, c: Change)
    requires k < |current|
  {
    var p := Find(previous, current[k].name);
    p >= 0 && c == ChangeOf(previous[p], current[k]) && Big(c)
  }

  /** `c` shows line `k` of this scan against line `p` of the last one, the first of the
      same name: a size that moved by 512 KB or more, and the figures of both lines. */
  ghost predicate Moved(previous: seq<Slab>, current: seq<Slab>, k: int, p: int, c: Change) {
    && 0 <= k < |current| && 0 <= p < |previous|
    && previous[p].name == current[k].name && (forall j :: 0 <= j < p ==> previous[j].name != current[k].name)
    && (current[k].size - previous[p].size >= 524288 || previous[p].size - current[k].size >= 524288)
    && c.name == current[k].name && c.size == current[k].size && c.objects == current[k].objects
    && c.objectSize == current[k].objectSize
    && c.delta == current[k].size - previous[p].size
    && c.deltaObjects == current[k].objects - previous[p].objects
  }

  lemma MovedIsChange(previous: seq<Slab>, current: seq<Slab>, k: nat, c: Change)
    requires k < |current|
    ensures IsChangeAt(previous, current, k, c) <==> exists p :: Moved(previous, current, k, p, c)
  {
    var f := Find(previous, current[k].name);
    if IsChangeAt(previous, current, k, c) {
      assert Moved(previous, current, k, f, c);
    }
    if p :| Moved(previous, current, k, p, c) {
      FindIs(previous, current[k].name, p);
    }
  }

  /** The changes of a round are exactly the caches that moved. */
  lemma ChangesAre(previous: seq<Slab>, current: seq<Slab>, c: Change)
    ensures c in Changes(previous, current) <==> exists k, p :: Moved(previous, current, k, p, c)
  {
    hide Changes;
    hide Moved;
    ChangesAreAt(previous, current, c);
    forall k: nat | k < |current|
      ensures IsChangeAt(previous, current, k, c) <==> exists p :: Moved(previous, current, k, p, c)
    {
      MovedIsChange(previous, current, k, c);
    }
    if k, p :| Moved(previous, current, k, p, c) {
      MovedIndex(previous, current, k, p, c);
      assert IsChangeAt(previous, current, k, c);
    }
  }

  lemma MovedIndex(previous: seq<Slab>, current: seq<Slab>, k: int, p: int, c: Change)
    requires Moved(previous, current, k, p, c)
    ensures 0 <= k < |current|
  {
  }

  ghost predicate LineMoved(previous: seq<Slab>, current: seq<Slab>, k: int, c: Change) {
    exists p :: Moved(previous, current, k, p, c)
  }

  /** Every entry of the list is the change of a line of its own, in the lines' order. */
  ghost predicate InOrder(previous: seq<Slab>, current: seq<Slab>, list: seq<Change>, at: seq<nat>) {
    && |at| == |list|
    && (forall i :: 0 <= i < |at| ==> LineMoved(previous, current, at[i], list[i]))
    && (forall i, j :: 0 <= i < j < |at| ==> at[i] < at[j])
  }

  lemma LineMovedStays(previous: seq<Slab>, current: seq<Slab>, more: Slab, k: int, c: Change)
    requires LineMoved(previous, current, k, c)
    ensures 0 <= k < |current| && LineMoved(previous, current + [more], k, c)
  {
    var p :| Moved(previous, current, k, p, c);
    assert Moved(previous, current + [more], k, p, c);
  }

  lemma InOrderStays(previous: seq<Slab>, current: seq<Slab>, list: seq<Change>, at: seq<nat>, more: Slab)
    requires InOrder(previous, current, list, at)
    ensures InOrder(previous, current + [more], list, at)
    ensures forall i :: 0 <= i < |at| ==> at[i] < |current|
  {
    hide LineMoved;
    forall i | 0 <= i < |at|
      ensures at[i] < |current| && LineMoved(previous, current + [more], at[i], list[i])
    {
      LineMovedStays(previous, current, more, at[i], list[i]);
    }
  }

  lemma InOrderMore(previous: seq<Slab>, current: seq<Slab>, list: seq<Change>, at: seq<nat>, k: nat, c: Change)
    requires InOrder(previous, current, list, at)
    requires LineMoved(previous, current, k, c) && forall i :: 0 <= i < |at| ==> at[i] < k
    ensures InOrder(previous, current, list + [c], at + [k])
  {
    hide LineMoved;
  }

  /** Each of them once, in the order of the scan. */
  lemma {:induction false} ChangesInOrder(previous: seq<Slab>, current: seq<Slab>) returns (at: seq<nat>)
    ensures InOrder(previous, current, Changes(previous, current), at)
  {
    hide InOrder;
    if current == [] {
      at := [];
      NothingInOrder(previous);
    } else {
      var n := |current| - 1;
      var before := ChangesInOrder(previous, current[..n]);
      assert current[..n] + [current[n]] == current;
      var list, p := Changes(previous, current[..n]), Find(previous, current[n].name);
      InOrderStays(previous, current[..n], list, before, current[n]);
      if p >= 0 && Big(ChangeOf(previous[p], current[n])) {
        assert Moved(previous, current, n, p, ChangeOf(previous[p], current[n]));
        InOrderMore(previous, current, list, before, n, ChangeOf(previous[p], current[n]));
        at := before + [n];
      } else {
        assert list + [] == list;
        at := before;
      }
    }
  }

  lemma NothingInOrder(previous: seq<Slab>)
    ensures InOrder(previous, [], [], [])
  {
  }

  /** What the two lists say of the scans, in the lines' own figures: every grower is a
      cache that is larger than its namesake by the delta shown, every shrinker a smaller
      one, ordered by how much; and one that moved is left out only by a full list of
      caches that moved at least as far. */
  ghost predicate ListsShow(previous: seq<Slab>, current: seq<Slab>, growers: seq<Change>, shrinkers: seq<Change>) {
    && |growers| <= 20 && |shrinkers| <= 20
    && (forall c :: c in growers ==> c.delta > 0 && exists k, p :: Moved(previous, current, k, p, c))
    && (forall c :: c in shrinkers ==> c.delta < 0 && exists k, p :: Moved(previous, current, k, p, c))
    && (forall i, j :: 0 <= i < j < |growers| ==> growers[i].delta >= growers[j].delta)
    && (forall i, j :: 0 <= i < j < |shrinkers| ==> shrinkers[i].delta <= shrinkers[j].delta)
    && (forall k, p, c :: Moved(previous, current, k, p, c) && c.delta > 0 && c !in growers ==>
          |growers| == 20 && forall g :: g in growers ==> g.delta >= c.delta)
    && (forall k, p, c :: Moved(previous, current, k, p, c) && c.delta < 0 && c !in shrinkers ==>
          |shrinkers| == 20 && forall g :: g in shrinkers ==> g.delta <= c.delta)
  }

  lemma ListsShowCaches(previous: seq<Slab>, current: seq<Slab>, growers: seq<Change>, shrinkers: seq<Change>)
    requires IsTop(Changes(previous, current), growers, TOP_COUNT, Growth, Grew)
    requires IsTop(Changes(previous, current), shrinkers, TOP_COUNT, Shrinkage, Shrank)
    ensures ListsShow(previous, current, growers, shrinkers)
  {
    hide Changes;
    hide Moved;
    hide IsTop;
    var all := Changes(previous, current);
    TopMeans(all, growers, TOP_COUNT, Growth, Grew);
    TopMeans(all, shrinkers, TOP_COUNT, Shrinkage, Shrank);
    forall c
      ensures c in all <==> exists k, p :: Moved(previous, current, k, p, c)
    {
      ChangesAre(previous, current, c);
    }
    forall i, j | 0 <= i < j < |growers|
      ensures growers[i].delta >= growers[j].delta
    {
      assert Growth(growers[i]) >= Growth(growers[j]);
    }
    forall i, j | 0 <= i < j < |shrinkers|
      ensures shrinkers[i].delta <= shrinkers[j].delta
    {
      assert Shrinkage(shrinkers[i]) >= Shrinkage(shrinkers[j]);
    }
    forall c | c in all && c.delta > 0 && c !in growers
      ensures |growers| == 20 && forall g :: g in growers ==> g.delta >= c.delta
    {
      assert Grew(c) && forall g :: g in growers ==> Growth(g) >= Growth(c);
    }
    forall c | c in all && c.delta < 0 && c !in shrinkers
      ensures |shrinkers| == 20 && forall g :: g in shrinkers ==> g.delta <= c.delta
    {
      assert Shrank(c) && forall g :: g in shrinkers ==> Shrinkage(g) >= Shrinkage(c);
    }
    assert forall c :: c in growers ==> Grew(c);
    assert forall c :: c in shrinkers ==> Shrank(c);
  }

  function Growth(c: Change): int {
    c.delta
  }

  function Shrinkage(c: Change): int {
    -c.delta
  }

  predicate Grew(c: Change) {
    c.delta > 0
  }

  predicate Shrank(c: Change) {
    c.delta < 0
  }

  class Service {
    const current: array<Slab>
    const previous: array<Slab>
    var currentCount: nat
    var previousCount: nat
    var hasPrevious: bool
    var growers: seq<Change>
    var shrinkers: seq<Change>

    ghost predicate Valid()
      reads this
    {
      && current.Length == MAX_SLABS && previous.Length == MAX_SLABS && current != previous
      && currentCount <= MAX_SLABS && previousCount <= MAX_SLABS
    }

    constructor ()
      ensures Valid() && currentCount == 0 && !hasPrevious
      ensures fresh(current) && fresh(previous)
    {
      current := new Slab[MAX_SLABS](_ => Slab("", 0, 0, 0));
      previous := new Slab[MAX_SLABS](_ => Slab("", 0, 0, 0));
      currentCount, previousCount, hasPrevious := 0, 0, false;
      growers, shrinkers := [], [];
    }

    method FindSlab(name: string) returns (i: int)
      requires Valid()
      ensures i == Find(previous[..previousCount], name)
    {
      for k := 0 to previousCount
        invariant forall j :: 0 <= j < k ==> previous[j].name != name
      {
        FindIs(previous[..previousCount], name, k);
        if previous[k].name == name { return k; }
      }
      FindIs(previous[..previousCount], name, previousCount);
      i := -1;
    }

    /** The loop that collects the changes. */
    method ListChanges() returns (list: seq<Change>)
      requires Valid()
      ensures list == Changes(previous[..previousCount], current[..currentCount])
    {
      list := [];
      for i := 0 to currentCount
        invariant list == Changes(previous[..previousCount], current[..i])
      {
        assert current[..i + 1][..i] == current[..i];
        var cur := current[i];
        var p := FindSlab(cur.name);
        if p >= 0 {
          var delta := cur.size - previous[p].size;
          var absDelta := if delta < 0 then -delta else delta;
          if absDelta >= MIN_DELTA {
            list := list + [Change(cur.name, cur.size, delta, cur.objects, cur.objects - previous[p].objects, cur.objectSize)];
          }
        }
      }
    }

    /** slabinfo_collect; None where the file cannot be read: then the last scan has
        already become the previous one, and the lists stay as they were. */
    method Collect(scan: Option<seq<Slab>>) returns (ret: int)
      requires Valid() && (scan.Some? ==> |scan.value| <= MAX_SLABS)
      modifies this, current, previous
      ensures Valid() && previous[..previousCount] == old(current[..currentCount])
      ensures scan.None? ==>
                && ret == -1 && current[..currentCount] == old(current[..currentCount])
                && growers == old(growers) && shrinkers == old(shrinkers) && hasPrevious == old(hasPrevious)
      ensures scan.Some? ==> ret == 0 && current[..currentCount] == scan.value && hasPrevious
      ensures scan.Some? && !old(hasPrevious) ==> growers == [] && shrinkers == []
      ensures scan.Some? && old(hasPrevious) ==>
                var changes := Changes(old(current[..currentCount]), scan.value);
                && IsTop(changes, growers, TOP_COUNT, Growth, Grew)
                && IsTop(changes, shrinkers, TOP_COUNT, Shrinkage, Shrank)
                && ListsShow(old(current[..currentCount]), scan.value, growers, shrinkers)
    {
      hide IsTop;
      hide Changes;
      hide ListsShow;
      forall i | 0 <= i < MAX_SLABS {
        previous[i] := current[i];
      }
      previousCount := currentCount;
      assert previous[..previousCount] == old(current[..currentCount]);
      if scan.None? { return -1; }
      forall i | 0 <= i < |scan.value| {
        current[i] := scan.value[i];
      }
      currentCount := |scan.value|;
      assert current[..currentCount] == scan.value;
      assert previous[..previousCount] == old(current[..currentCount]);
      growers, shrinkers := [], [];
      if hasPrevious {
        var list := ListChanges();
        growers := SelectTop(list, TOP_COUNT, Growth, Grew);
        shrinkers := SelectTop(list, TOP_COUNT, Shrinkage, Shrank);
        ListsShowCaches(old(current[..currentCount]), scan.value, growers, shrinkers);
      }
      hasPrevious := true;
      ret := 0;
    }
  }
}
