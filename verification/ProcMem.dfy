/** Per-process memory tracking (procmem.c): what its deltas mean over recycled
    nodes, and its three top-N lists. */
module ProcMem {
  import opened Text
  import opened PidTable
  import opened TopN

  const MAX_PROCS: nat := 4096
  const POOL_SIZE: nat := 8192
  const HASH_SIZE: nat := 8192
  const TOP_COUNT: nat := 12

  datatype Mem = Mem(rss: int, data: int, cmd: string)

  /** One pid as read from /proc; a negative figure means it could not be read. */
  datatype Sample = Sample(pid: int, rss: int, data: int, cmd: string)

  datatype Change = Change(pid: int, cmd: string, rss: int, data: int, rssDelta: int, dataDelta: int)

  ghost predicate DistinctPids(scan: seq<Sample>) {
    forall i, j :: 0 <= i < j < |scan| ==> scan[i].pid != scan[j].pid
  }

  /** The samples a scan keeps, in order. */
  function Readable(scan: seq<Sample>): (r: seq<Entry<Mem>>)
    ensures |r| <= |scan|
  {
    if scan == [] then []
    else
      var s := scan[|scan| - 1];
      Readable(scan[..|scan| - 1])
      + if s.rss < 0 || s.data < 0 then [] else [Entry(s.pid, Mem(s.rss, s.data, s.cmd))]
  }

  /** The records of a round: the scan stops when the pool is full. */
  function Accepted(scan: seq<Sample>): seq<Entry<Mem>> {
    Readable(scan)[..Min(|Readable(scan)|, POOL_SIZE)]
  }

  /** `kept` are exactly the samples whose figures could be read - a figure of 0 is read -
      in their order; `at` says where they stand in the scan. */
  ghost predicate Keeps(scan: seq<Sample>, kept: seq<Entry<Mem>>, at: seq<nat>) {
    && |at| == |kept|
    && (forall k :: 0 <= k < |at| ==>
          at[k] < |scan| && var s := scan[at[k]]; kept[k] == Entry(s.pid, Mem(s.rss, s.data, s.cmd)))
    && (forall k, l :: 0 <= k < l < |at| ==> at[k] < at[l])
    && (forall i :: 0 <= i < |scan| ==> (scan[i].rss >= 0 && scan[i].data >= 0 <==> i in at))
  }

  lemma KeepsMore(scan: seq<Sample>, kept: seq<Entry<Mem>>, at: seq<nat>, s: Sample)
    requires Keeps(scan, kept, at)
    ensures s.rss < 0 || s.data < 0 ==> Keeps(scan + [s], kept, at)
    ensures s.rss >= 0 && s.data >= 0 ==>
              Keeps(scan + [s], kept + [Entry(s.pid, Mem(s.rss, s.data, s.cmd))], at + [|scan|])
  {
    assert forall i :: 0 <= i < |scan| ==> (scan + [s])[i] == scan[i];
    assert |scan| !in at;
    assert forall i: nat :: i in at + [|scan|] <==> i in at || i == |scan|;
  }

  lemma {:induction false} ReadableIs(scan: seq<Sample>) returns (at: seq<nat>)
    ensures Keeps(scan, Readable(scan), at)
  {
    hide Keeps;
    if scan == [] {
      at := [];
      assert Keeps([], [], []) by { KeepsNothing(); }
    } else {
      var n := |scan| - 1;
      var before := ReadableIs(scan[..n]);
      KeepsMore(scan[..n], Readable(scan[..n]), before, scan[n]);
      assert scan[..n] + [scan[n]] == scan;
      assert Readable(scan[..n]) + [] == Readable(scan[..n]);
      at := if scan[n].rss < 0 || scan[n].data < 0 then before else before + [n];
    }
  }

  lemma KeepsNothing()
    ensures Keeps([], [], [])
  {
  }

  /** A round accepts exactly the readable samples, in order; of more than 8192 the
      first 8192. */
  lemma AcceptedIs(scan: seq<Sample>) returns (kept: seq<Entry<Mem>>, at: seq<nat>)
    ensures Keeps(scan, kept, at) && Accepted(scan) == if |kept| <= 8192 then kept else kept[..8192]
  {
    kept := Readable(scan);
    at := ReadableIs(scan);
  }

  lemma {:induction false} ReadablePids(scan: seq<Sample>)
    requires DistinctPids(scan)
    ensures Distinct(Readable(scan))
    ensures forall k :: 0 <= k < |Readable(scan)| ==>
              exists i :: 0 <= i < |scan| && scan[i].pid == Readable(scan)[k].pid
  {
    if scan != [] {
      var short := scan[..|scan| - 1];
      ReadablePids(short);
      forall k | 0 <= k < |Readable(scan)|
        ensures exists i :: 0 <= i < |scan| && scan[i].pid == Readable(scan)[k].pid
      {
        if k < |Readable(short)| {
          var i :| 0 <= i < |short| && short[i].pid == Readable(short)[k].pid;
          assert scan[i].pid == Readable(scan)[k].pid;
        } else {
          assert scan[|scan| - 1].pid == Readable(scan)[k].pid;
        }
      }
      forall k | 0 <= k < |Readable(short)|
        ensures Readable(short)[k].pid != scan[|scan| - 1].pid
      {
        var i :| 0 <= i < |short| && short[i].pid == Readable(short)[k].pid;
        assert scan[i].pid != scan[|scan| - 1].pid;
      }
    }
  }

  lemma AcceptedDistinct(scan: seq<Sample>)
    requires DistinctPids(scan)
    ensures Distinct(Accepted(scan))
  {
    ReadablePids(scan);
  }

  /** The change reported for record `i` of a round. Its pid's record of the last
      round counts only if it sits in a slot above `i`: every lower slot already
      holds a record of this round. */
  function ChangeAt(before: seq<Entry<Mem>>, e: Entry<Mem>, i: nat): Change {
    var o := SlotOf(before, e.pid);
    var m := e.value;
    if o > i
    then Change(e.pid, m.cmd, m.rss, m.data, m.rss - before[o].value.rss, m.data - before[o].value.data)
    else Change(e.pid, m.cmd, m.rss, m.data, 0, 0)
  }

  /** The list a round builds, limited to its array. */
  function Changes(before: seq<Entry<Mem>>, now: seq<Entry<Mem>>): seq<Change> {
    seq(Min(|now|, MAX_PROCS), i requires 0 <= i < |now| => ChangeAt(before, now[i], i))
  }

  /** An entry shows record `i` of a round. */
  ghost predicate Shows(c: Change, now: seq<Entry<Mem>>, i: int) {
    && 0 <= i < |now|
    && c.pid == now[i].pid && c.cmd == now[i].value.cmd && c.rss == now[i].value.rss && c.data == now[i].value.data
  }

  /** The ranked list shows the records of the round one by one, the first 4096 of
      them, whatever is known of the last round. */
  lemma ChangesShowRecords(before: seq<Entry<Mem>>, now: seq<Entry<Mem>>)
    ensures |Changes(before, now)| == if |now| <= 4096 then |now| else 4096
    ensures forall i :: 0 <= i < |Changes(before, now)| ==> Shows(Changes(before, now)[i], now, i)
  {
  }

  /** What a delta is meant to be: the difference to the last round, if the pid was
      there. */
  function TrueRssDelta(before: seq<Entry<Mem>>, e: Entry<Mem>): int {
    var o := SlotOf(before, e.pid);
    if o >= 0 then e.value.rss - before[o].value.rss else 0
  }

  function TrueDataDelta(before: seq<Entry<Mem>>, e: Entry<Mem>): int {
    var o := SlotOf(before, e.pid);
    if o >= 0 then e.value.data - before[o].value.data else 0
  }

  /** A reported delta, computed when slot `i` was the last one filled, is the true one
      exactly when the pid is new, or its old record sat in a higher slot, or the figure
      did not change; where it is not the true one it is 0. */
  lemma DeltaIsTrueIff(before: seq<Entry<Mem>>, e: Entry<Mem>, i: nat)
    ensures var c, o := ChangeAt(before, e, i), SlotOf(before, e.pid);
            && (c.rssDelta == TrueRssDelta(before, e)
                <==> o < 0 || o > i || before[o].value.rss == e.value.rss)
            && (c.dataDelta == TrueDataDelta(before, e)
                <==> o < 0 || o > i || before[o].value.data == e.value.data)
            && (c.rssDelta == TrueRssDelta(before, e) || c.rssDelta == 0)
            && (c.dataDelta == TrueDataDelta(before, e) || c.dataDelta == 0)
  {
  }

  /** Looked up in a pool the two rounds do not share, the previous table would give
      the true deltas. */
  lemma UnsharedDeltaIsTrue(pool: seq<Node<Mem>>, before: seq<Entry<Mem>>, e: Entry<Mem>)
    requires Layered(pool, before, [], HASH_SIZE)
    ensures var r := Walk(pool, Last(before, HASH_SIZE, Hash(e.pid, HASH_SIZE), |before|), e.pid);
            && TrueRssDelta(before, e) == (if r == NIL then 0 else e.value.rss - pool[r].value.rss)
            && TrueDataDelta(before, e) == (if r == NIL then 0 else e.value.data - pool[r].value.data)
  {
    UnsharedLookup(pool, before, HASH_SIZE, e.pid);
    var o := SlotOf(before, e.pid);
    assert o >= 0 ==> Holds(pool, before, HASH_SIZE, o);
  }

  /** The usual case: pids persist in order and new ones come last. Then no delta is
      ever seen. */
  lemma AppendOnlyShowsNothing(before: seq<Entry<Mem>>, now: seq<Entry<Mem>>)
    requires Distinct(before) && Distinct(now) && |before| <= |now|
    requires forall k :: 0 <= k < |before| ==> before[k].pid == now[k].pid
    ensures forall c :: c in Changes(before, now) ==> c.rssDelta == 0 && c.dataDelta == 0
    ensures Filter(Changes(before, now), Grew) == [] && Filter(Changes(before, now), Shrank) == []
  {
    forall i | 0 <= i < |now|
      ensures ChangeAt(before, now[i], i).rssDelta == 0 && ChangeAt(before, now[i], i).dataDelta == 0
    {
      var o := SlotOf(before, now[i].pid);
      assert o >= 0 ==> now[o].pid == now[i].pid;
    }
    FilterNone(Changes(before, now), Grew);
    FilterNone(Changes(before, now), Shrank);
  }

  lemma {:induction false} FilterNone(s: seq<Change>, ok: Change -> bool)
    requires forall c :: c in s ==> !ok(c)
    ensures Filter(s, ok) == []
  {
    if s != [] {
      FilterNone(s[1..], ok);
    }
  }

  predicate Grew(c: Change) {
    c.rssDelta > 0
  }

  predicate Shrank(c: Change) {
    c.rssDelta < 0
  }

  predicate Any(c: Change) {
    true
  }

  function Growth(c: Change): int {
    c.rssDelta
  }

  function Shrinkage(c: Change): int {
    -c.rssDelta
  }

  function Rss(c: Change): int {
    c.rss
  }

  ghost predicate AllShow(list: seq<Change>, now: seq<Entry<Mem>>) {
    forall c :: c in list ==> exists i :: Shows(c, now, i)
  }

  /** No record among the first 4096 that the list leaves out is larger than one in it. */
  ghost predicate NoneLarger(topRss: seq<Change>, now: seq<Entry<Mem>>) {
    forall i, c :: 0 <= i < |now| && i < 4096 && c in topRss ==>
      c.rss >= now[i].value.rss || exists d :: d in topRss && Shows(d, now, i)
  }

  /** A change seen is left out only by a full list of changes as large. */
  ghost predicate NoneLeftOut(changes: seq<Change>, growers: seq<Change>, shrinkers: seq<Change>) {
    && (forall c :: c in changes && c.rssDelta > 0 && c !in growers ==>
          |growers| == 12 && forall g :: g in growers ==> g.rssDelta >= c.rssDelta)
    && (forall c :: c in changes && c.rssDelta < 0 && c !in shrinkers ==>
          |shrinkers| == 12 && forall g :: g in shrinkers ==> g.rssDelta <= c.rssDelta)
  }

  lemma ChangesAreShown(changes: seq<Change>, growers: seq<Change>, shrinkers: seq<Change>)
    requires IsTop(changes, growers, TOP_COUNT, Growth, Grew)
    requires IsTop(changes, shrinkers, TOP_COUNT, Shrinkage, Shrank)
    ensures NoneLeftOut(changes, growers, shrinkers)
  {
    hide IsTop;
    TopMeans(changes, growers, TOP_COUNT, Growth, Grew);
    TopMeans(changes, shrinkers, TOP_COUNT, Shrinkage, Shrank);
    forall c | c in changes && c.rssDelta > 0 && c !in growers
      ensures |growers| == 12 && forall g :: g in growers ==> g.rssDelta >= c.rssDelta
    {
      assert Grew(c) && forall g :: g in growers ==> Growth(g) >= Growth(c);
    }
    forall c | c in changes && c.rssDelta < 0 && c !in shrinkers
      ensures |shrinkers| == 12 && forall g :: g in shrinkers ==> g.rssDelta <= c.rssDelta
    {
      assert Shrank(c) && forall g :: g in shrinkers ==> Shrinkage(g) >= Shrinkage(c);
    }
  }

  /** What the three lists say of the records of a round, in the records' own figures:
      every entry shows a record; growers come with the largest increase first, shrinkers
      with the largest decrease first, the third list with the largest size first, full
      or complete, and with none larger left out. */
  ghost predicate ListsShow(now: seq<Entry<Mem>>, growers: seq<Change>, shrinkers: seq<Change>, topRss: seq<Change>) {
    && AllShow(growers, now) && AllShow(shrinkers, now) && AllShow(topRss, now)
    && (forall i, j :: 0 <= i < j < |growers| ==> growers[i].rssDelta >= growers[j].rssDelta)
    && (forall i, j :: 0 <= i < j < |shrinkers| ==> shrinkers[i].rssDelta <= shrinkers[j].rssDelta)
    && (forall i, j :: 0 <= i < j < |topRss| ==> topRss[i].rss >= topRss[j].rss)
    && (forall c :: c in growers ==> c.rssDelta > 0) && (forall c :: c in shrinkers ==> c.rssDelta < 0)
    && |growers| <= 12 && |shrinkers| <= 12 && |topRss| == Min(12, |now|)
    && NoneLarger(topRss, now)
  }

  lemma TopShows(before: seq<Entry<Mem>>, now: seq<Entry<Mem>>, top: seq<Change>, score: Change -> int,
                 ok: Change -> bool)
    requires IsTop(Changes(before, now), top, TOP_COUNT, score, ok)
    ensures AllShow(top, now)
  {
    hide Changes;
    var all := Changes(before, now);
    ChangesShowRecords(before, now);
    forall c | c in top
      ensures exists i :: Shows(c, now, i)
    {
      assert c in multiset(all);
      var i :| 0 <= i < |all| && all[i] == c;
      assert Shows(c, now, i);
    }
  }

  lemma LargestAreShown(before: seq<Entry<Mem>>, now: seq<Entry<Mem>>, topRss: seq<Change>)
    requires IsTop(Changes(before, now), topRss, TOP_COUNT, Rss, Any)
    ensures NoneLarger(topRss, now) && |topRss| == Min(12, |now|)
  {
    hide Changes;
    hide Filter;
    var all := Changes(before, now);
    ChangesShowRecords(before, now);
    AllQualify(all);
    forall i, c | 0 <= i < |now| && i < 4096 && c in topRss
      ensures c.rss >= now[i].value.rss || exists d :: d in topRss && Shows(d, now, i)
    {
      var d := all[i];
      assert Shows(d, now, i);
      if d !in topRss {
        assert d !in multiset(topRss) && d in multiset(all);
        assert d in multiset(all) - multiset(topRss) && Any(d);
        assert Rss(c) >= Rss(d);
      }
    }
  }

  lemma ListsShowRecords(before: seq<Entry<Mem>>, now: seq<Entry<Mem>>, growers: seq<Change>, shrinkers: seq<Change>,
                         topRss: seq<Change>)
    requires IsTop(Changes(before, now), growers, TOP_COUNT, Growth, Grew)
    requires IsTop(Changes(before, now), shrinkers, TOP_COUNT, Shrinkage, Shrank)
    requires IsTop(Changes(before, now), topRss, TOP_COUNT, Rss, Any)
    ensures ListsShow(now, growers, shrinkers, topRss)
  {
    hide Changes;
    hide IsTop;
    hide AllShow;
    hide NoneLarger;
    var all := Changes(before, now);
    TopShows(before, now, growers, Growth, Grew);
    TopShows(before, now, shrinkers, Shrinkage, Shrank);
    TopShows(before, now, topRss, Rss, Any);
    LargestAreShown(before, now, topRss);
    TopMeans(all, growers, TOP_COUNT, Growth, Grew);
    TopMeans(all, shrinkers, TOP_COUNT, Shrinkage, Shrank);
    TopMeans(all, topRss, TOP_COUNT, Rss, Any);
    forall i, j | 0 <= i < j < |growers|
      ensures growers[i].rssDelta >= growers[j].rssDelta
    {
      assert Growth(growers[i]) >= Growth(growers[j]);
    }
    forall i, j | 0 <= i < j < |shrinkers|
      ensures shrinkers[i].rssDelta <= shrinkers[j].rssDelta
    {
      assert Shrinkage(shrinkers[i]) >= Shrinkage(shrinkers[j]);
    }
    forall i, j | 0 <= i < j < |topRss|
      ensures topRss[i].rss >= topRss[j].rss
    {
      assert Rss(topRss[i]) >= Rss(topRss[j]);
    }
    assert forall c :: c in growers ==> Grew(c);
    assert forall c :: c in shrinkers ==> Shrank(c);
  }

  lemma {:induction false} AllQualify(all: seq<Change>)
    ensures Filter(all, Any) == all
  {
    if all != [] {
      AllQualify(all[1..]);
    }
  }

  class Service {
    const table: Table<Mem>
    var growers: seq<Change>
    var shrinkers: seq<Change>
    var topRss: seq<Change>

    /** The list the last round sorted. */
    ghost var changes: seq<Change>

    ghost predicate Valid()
      reads this, table, table.pool, table.current, table.previous
    {
      && table.Valid() && table.size == HASH_SIZE && table.pool.Length == POOL_SIZE
      && Distinct(table.before) && Distinct(table.now)
      && (!table.hasPrevious ==> table.now == [] && table.before == [])
    }

    constructor ()
      ensures Valid() && fresh(table) && fresh(table.pool) && fresh(table.current) && fresh(table.previous)
      ensures table.now == []
    {
      table := new Table<Mem>(HASH_SIZE, POOL_SIZE, Mem(0, 0, ""));
      growers, shrinkers, topRss, changes := [], [], [], [];
    }

    /** collect_callback for a readable pid; `more` is false when the pool is full. */
    method Accept(s: Sample, list: seq<Change>) returns (more: bool, list': seq<Change>)
      requires table.Valid() && table.size == HASH_SIZE && table.pool.Length == POOL_SIZE
      requires !table.hasPrevious ==> table.before == []
      requires Distinct(table.now + [Entry(s.pid, Mem(s.rss, s.data, s.cmd))])
      requires list == Changes(table.before, table.now)
      modifies table`poolIdx, table`now, table.pool, table.current
      ensures table.Valid()
      ensures more <==> old(|table.now|) < POOL_SIZE
      ensures table.now == old(table.now) + if more then [Entry(s.pid, Mem(s.rss, s.data, s.cmd))] else []
      ensures list' == Changes(table.before, table.now)
    {
      hide Layered;
      hide Last;
      hide Hash;
      ghost var was := table.now;
      ghost var e := Entry(s.pid, Mem(s.rss, s.data, s.cmd));
      var slot := table.poolIdx;
      more := table.Insert(s.pid, Mem(s.rss, s.data, s.cmd));
      if !more {
        assert was + [] == was;
        return false, list;
      }
      var rssDelta, dataDelta := 0, 0;
      if table.hasPrevious {
        assert table.now[slot] == e;
        var prev := table.LookupPrevious(s.pid);
        if prev != NIL {
          rssDelta := s.rss - table.pool[prev].value.rss;
          dataDelta := s.data - table.pool[prev].value.data;
        }
      }
      list' := list;
      var change := Change(s.pid, s.cmd, s.rss, s.data, rssDelta, dataDelta);
      assert change == ChangeAt(table.before, e, slot);
      if |list| < MAX_PROCS {
        list' := list + [change];
      }
    }

    /** The walk over /proc that calls back for every pid. */
    method Scan(scan: seq<Sample>) returns (list: seq<Change>)
      requires table.Valid() && table.size == HASH_SIZE && table.pool.Length == POOL_SIZE
      requires !table.hasPrevious ==> table.before == []
      requires table.now == [] && DistinctPids(scan)
      modifies table`poolIdx, table`now, table.pool, table.current
      ensures table.Valid() && table.now == Accepted(scan)
      ensures list == Changes(table.before, table.now)
    {
      hide Table.Valid;
      hide ChangeAt;
      list := [];
      var more := true;
      var k := 0;
      while k < |scan| && more
        invariant 0 <= k <= |scan|
        invariant table.Valid() && (!table.hasPrevious ==> table.before == [])
        invariant table.now == Accepted(scan[..k])
        invariant more <==> |Readable(scan[..k])| <= POOL_SIZE
        invariant list == Changes(table.before, table.now)
      {
        var s := scan[k];
        assert scan[..k + 1][..k] == scan[..k];
        ReadablePids(scan[..k + 1]);
        if s.rss >= 0 && s.data >= 0 {
          assert Readable(scan[..k + 1]) == table.now + [Entry(s.pid, Mem(s.rss, s.data, s.cmd))];
          more, list := Accept(s, list);
        }
        k := k + 1;
      }
      ReadableGrows(scan, k);
    }

    /** procmem_collect: after a round, the list it ranked is exactly the changes
        of the accepted records, and each of the three lists is a best-of of it. */
    method Collect(scan: seq<Sample>)
      requires Valid() && DistinctPids(scan)
      modifies this, table, table.pool, table.current, table.previous
      ensures Valid() && table.hasPrevious
      ensures table.before == old(table.now) && table.now == Accepted(scan)
      ensures changes == Changes(old(table.now), Accepted(scan))
      ensures IsTop(changes, growers, TOP_COUNT, Growth, Grew)
      ensures IsTop(changes, shrinkers, TOP_COUNT, Shrinkage, Shrank)
      ensures IsTop(changes, topRss, TOP_COUNT, Rss, Any)
      ensures ListsShow(Accepted(scan), growers, shrinkers, topRss)
      ensures NoneLeftOut(changes, growers, shrinkers)
    {
      hide Layered;
      hide IsTop;
      hide Changes;
      hide ListsShow;
      hide NoneLeftOut;
      hide Accepted;
      hide Distinct;
      hide Last;
      table.BeginRound();
      var list := Scan(scan);
      AcceptedDistinct(scan);
      changes := list;
      growers := SelectTop(list, TOP_COUNT, Growth, Grew);
      shrinkers := SelectTop(list, TOP_COUNT, Shrinkage, Shrank);
      topRss := SelectTop(list, TOP_COUNT, Rss, Any);
      ListsShowRecords(table.before, table.now, growers, shrinkers, topRss);
      ChangesAreShown(changes, growers, shrinkers);
      table.hasPrevious := true;
    }

    /** procmem_get_pid_info between rounds. Its delta compares with the last round
        only where the old record's slot was not reused by any record of this one. */
    method GetPidInfo(pid: int) returns (info: Option<Change>)
      requires Valid()
      ensures info == (var i := SlotOf(table.now, pid);
                       if i < 0 then None
                       else Some(ChangeAt(table.before, table.now[i], |table.now| - 1)))
      ensures info.Some? ==> Shows(info.value, table.now, SlotOf(table.now, pid))
    {
      hide Layered;
      var e := table.LookupCurrent(pid);
      if e == NIL { return None; }
      var m := table.pool[e].value;
      var rssDelta, dataDelta := 0, 0;
      if table.hasPrevious {
        var prev := table.LookupPrevious(pid);
        if prev != NIL {
          assert prev < |table.now| ==> prev == e by {
            if prev < |table.now| { SlotIs(table.now, prev); }
          }
          rssDelta := m.rss - table.pool[prev].value.rss;
          dataDelta := m.data - table.pool[prev].value.data;
        }
      }
      info := Some(Change(pid, m.cmd, m.rss, m.data, rssDelta, dataDelta));
    }

    /** Any number of rounds: the last report depends on the last two scans alone. */
    method Rounds(scans: seq<seq<Sample>>)
      requires Valid() && table.now == [] && scans != []
      requires forall r :: 0 <= r < |scans| ==> DistinctPids(scans[r])
      modifies this, table, table.pool, table.current, table.previous
      ensures Valid()
      ensures changes == Changes(if |scans| == 1 then [] else Accepted(scans[|scans| - 2]), Accepted(scans[|scans| - 1]))
    {
      hide Changes;
      hide Accepted;
      hide IsTop;
      hide ListsShow;
      hide NoneLeftOut;
      for r := 0 to |scans|
        invariant Valid()
        invariant table.now == if r == 0 then [] else Accepted(scans[r - 1])
        invariant r > 0 ==>
                    changes == Changes(if r == 1 then [] else Accepted(scans[r - 2]), Accepted(scans[r - 1]))
      {
        Collect(scans[r]);
      }
    }
  }

  /** Once a prefix of the scan has filled the pool the rest adds nothing. */
  lemma {:induction false} ReadableGrows(scan: seq<Sample>, k: nat)
    requires k <= |scan|
    ensures Readable(scan[..k]) <= Readable(scan)
    ensures k == |scan| || |Readable(scan[..k])| >= POOL_SIZE ==> Accepted(scan[..k]) == Accepted(scan)
    decreases |scan|
  {
    if k == |scan| {
      assert scan[..k] == scan;
    } else {
      var short := scan[..|scan| - 1];
      ReadableGrows(short, k);
      assert short[..k] == scan[..k];
    }
  }

  /** What is listed is true: every listed grower is a process of this scan that was in
      the last one and has grown by the figure shown, every shrinker one that shrank,
      and no pid is in both lists. What the recycled nodes cost is only what is missing. */
  lemma ListedChangesAreTrue(before: seq<Entry<Mem>>, now: seq<Entry<Mem>>, growers: seq<Change>, shrinkers: seq<Change>)
    requires Distinct(now)
    requires IsTop(Changes(before, now), growers, TOP_COUNT, Growth, Grew)
    requires IsTop(Changes(before, now), shrinkers, TOP_COUNT, Shrinkage, Shrank)
    ensures forall c :: c in growers ==> c.rssDelta > 0 && TrueChange(before, now, c)
    ensures forall c :: c in shrinkers ==> c.rssDelta < 0 && TrueChange(before, now, c)
    ensures forall c, d :: c in growers && d in shrinkers ==> c.pid != d.pid
  {
    forall c | c in growers
      ensures Grew(c) && TrueChange(before, now, c)
    {
      assert c in multiset(Changes(before, now));
      ListedChangeIsTrue(before, now, c);
    }
    forall c | c in shrinkers
      ensures Shrank(c) && TrueChange(before, now, c)
    {
      assert c in multiset(Changes(before, now));
      ListedChangeIsTrue(before, now, c);
    }
  }

  /** The process is in both scans and its figures differ by what is shown. */
  ghost predicate TrueChange(before: seq<Entry<Mem>>, now: seq<Entry<Mem>>, c: Change) {
    var i, o := SlotOf(now, c.pid), SlotOf(before, c.pid);
    && i >= 0 && o >= 0
    && c.rss == now[i].value.rss && c.rssDelta == now[i].value.rss - before[o].value.rss
    && c.data == now[i].value.data && c.dataDelta == now[i].value.data - before[o].value.data
  }

  lemma ListedChangeIsTrue(before: seq<Entry<Mem>>, now: seq<Entry<Mem>>, c: Change)
    requires Distinct(now) && c in Changes(before, now) && c.rssDelta != 0
    ensures TrueChange(before, now, c)
  {
    var i :| 0 <= i < |Changes(before, now)| && Changes(before, now)[i] == c;
    SlotIs(now, i);
  }
}
