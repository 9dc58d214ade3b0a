/** Fork and exit detection by comparing two scans (procevent.c), over the recycled
    nodes of PidTable, and the ring of recent events. */
module ProcEvent {
  import opened Sequences
  import opened Text
  import opened PidTable

  const HASH_SIZE: nat := 4096
  const POOL_SIZE: nat := 8192
  const MAX_EVENTS: nat := 100

  datatype Kind = Fork | Exec | Exit

  datatype Event = Event(kind: Kind, pid: int, cmd: string, timestamp: nat)

  /** A process as a scan sees it: its pid and its command. */
  type Proc = Entry<string>

  /** A scan fills the pool and stops. */
  function Accepted(scan: seq<Proc>): seq<Proc> {
    scan[..Min(|scan|, POOL_SIZE)]
  }

  /** Whether find_pid finds the record just inserted in slot `i` in the previous
      table: its old record is in a higher slot, or its own slot held a record of
      the same bucket before it was overwritten. */
  predicate SeenBefore(before: seq<Proc>, pid: int, i: nat) {
    SlotOf(before, pid) > i || (i < |before| && Hash(before[i].pid, HASH_SIZE) == Hash(pid, HASH_SIZE))
  }

  /** The fork events for the first `n` records of a round, in scan order. */
  function Forks(before: seq<Proc>, now: seq<Proc>, n: nat): seq<Proc>
    requires n <= |now|
  {
    if n == 0 then []
    else Forks(before, now, n - 1) + if SeenBefore(before, now[n - 1].pid, n - 1) then [] else [now[n - 1]]
  }

  /** The slots whose records the exit scan reports from bucket `h`, starting below
      slot `n`: the walk follows old links and reports nothing once it has got below
      slot `floor`, where the new records are. */
  function BucketExits(before: seq<Proc>, now: seq<Proc>, floor: nat, h: nat, n: nat): seq<int>
    requires n <= |before|
    decreases n
  {
    var k := Last(before, HASH_SIZE, h, n);
    if k < floor then []
    else (if SlotOf(now, before[k].pid) == NIL then [k] else []) + BucketExits(before, now, floor, h, k)
  }

  /** The reported slots over the first `h` buckets. */
  function ExitSlots(before: seq<Proc>, now: seq<Proc>, floor: nat, h: nat): seq<int> {
    if h == 0 then [] else ExitSlots(before, now, floor, h - 1) + BucketExits(before, now, floor, h - 1, |before|)
  }

  /** A record that an exit is reported for. */
  ghost predicate Reported(before: seq<Proc>, now: seq<Proc>, floor: nat, o: int) {
    floor <= o < |before| && SlotOf(now, before[o].pid) == NIL
  }

  lemma {:induction false} BucketExitsAre(before: seq<Proc>, now: seq<Proc>, floor: nat, h: nat, n: nat)
    requires n <= |before|
    ensures forall o :: o in BucketExits(before, now, floor, h, n)
                        <==> o < n && Reported(before, now, floor, o) && Hash(before[o].pid, HASH_SIZE) == h
    ensures forall i, j :: 0 <= i < j < |BucketExits(before, now, floor, h, n)| ==>
              BucketExits(before, now, floor, h, n)[i] != BucketExits(before, now, floor, h, n)[j]
    decreases n
  {
    var k := Last(before, HASH_SIZE, h, n);
    if k >= floor {
      BucketExitsAre(before, now, floor, h, k);
      var rest := BucketExits(before, now, floor, h, k);
      assert k !in rest;
      forall o
        ensures o in BucketExits(before, now, floor, h, n)
                <==> o < n && Reported(before, now, floor, o) && Hash(before[o].pid, HASH_SIZE) == h
      {
        assert o in BucketExits(before, now, floor, h, n)
          <==> (o == k && SlotOf(now, before[k].pid) == NIL) || o in rest;
      }
    }
  }

  lemma DistinctConcat(a: seq<int>, b: seq<int>)
    requires forall i, j :: 0 <= i < j < |a| ==> a[i] != a[j]
    requires forall i, j :: 0 <= i < j < |b| ==> b[i] != b[j]
    requires forall o :: o in a ==> o !in b
    ensures forall i, j :: 0 <= i < j < |a + b| ==> (a + b)[i] != (a + b)[j]
  {
    forall i, j | 0 <= i < j < |a + b|
      ensures (a + b)[i] != (a + b)[j]
    {
      if i < |a| <= j {
        assert a[i] in a && b[j - |a|] in b;
      }
    }
  }

  lemma {:induction false} ExitSlotsAre(before: seq<Proc>, now: seq<Proc>, floor: nat, h: nat)
    ensures forall o :: o in ExitSlots(before, now, floor, h)
                        <==> Reported(before, now, floor, o) && Hash(before[o].pid, HASH_SIZE) < h
    ensures forall i, j :: 0 <= i < j < |ExitSlots(before, now, floor, h)| ==>
              ExitSlots(before, now, floor, h)[i] != ExitSlots(before, now, floor, h)[j]
  {
    hide BucketExits;
    hide Hash;
    hide SlotOf;
    if h > 0 {
      var a := ExitSlots(before, now, floor, h - 1);
      var b := BucketExits(before, now, floor, h - 1, |before|);
      ExitSlotsAre(before, now, floor, h - 1);
      BucketExitsAre(before, now, floor, h - 1, |before|);
      DistinctConcat(a, b);
    }
  }

  /** The exit events of a round. */
  function Exits(before: seq<Proc>, now: seq<Proc>): seq<Proc> {
    Records(before, ExitSlots(before, now, |now|, HASH_SIZE))
  }

  function Records(before: seq<Proc>, slots: seq<int>): seq<Proc> {
    seq(|slots|, i requires 0 <= i < |slots| =>
      if 0 <= slots[i] < |before| then before[slots[i]] else Entry(0, ""))
  }

  /** The records of distinct slots are distinct, and are those reported. */
  lemma ReportedRecords(before: seq<Proc>, now: seq<Proc>, floor: nat)
    requires Distinct(before)
    ensures var exits := Records(before, ExitSlots(before, now, floor, HASH_SIZE));
            && Distinct(exits)
            && forall p :: p in exits <==> exists o :: Reported(before, now, floor, o) && before[o] == p
  {
    var slots := ExitSlots(before, now, floor, HASH_SIZE);
    var exits := Records(before, slots);
    ExitSlotsAre(before, now, floor, HASH_SIZE);
    forall i | 0 <= i < |slots|
      ensures Reported(before, now, floor, slots[i]) && exits[i] == before[slots[i]]
    {
      assert slots[i] in slots;
    }
    forall p | exists o :: Reported(before, now, floor, o) && before[o] == p
      ensures p in exits
    {
      var o :| Reported(before, now, floor, o) && before[o] == p;
      assert o in slots;
      var i :| 0 <= i < |slots| && slots[i] == o;
      assert exits[i] == p;
    }
  }

  /** The exit events are exactly the records left in the slots this round did not
      reuse whose pid is gone from the scan, each reported once. */
  lemma ExitsAreLeftovers(before: seq<Proc>, now: seq<Proc>)
    requires Distinct(before)
    ensures Distinct(Exits(before, now))
    ensures forall p :: p in Exits(before, now)
                        <==> exists o :: |now| <= o < |before| && before[o] == p && SlotOf(now, p.pid) == NIL
  {
    ReportedRecords(before, now, |now|);
    forall p
      ensures p in Exits(before, now)
              <==> exists o :: |now| <= o < |before| && before[o] == p && SlotOf(now, p.pid) == NIL
    {
      if o :| |now| <= o < |before| && before[o] == p && SlotOf(now, p.pid) == NIL {
        assert Reported(before, now, |now|, o);
      }
    }
  }

  ghost predicate ForkedAt(before: seq<Proc>, now: seq<Proc>, p: Proc, i: int) {
    0 <= i < |now| && now[i] == p && !SeenBefore(before, p.pid, i)
  }

  /** The fork events are exactly the records whose pid was not seen before. */
  lemma {:induction false} ForksAre(before: seq<Proc>, now: seq<Proc>, n: nat)
    requires n <= |now|
    ensures forall p :: p in Forks(before, now, n) <==> exists i :: i < n && ForkedAt(before, now, p, i)
  {
    if n > 0 {
      ForksAre(before, now, n - 1);
      forall p
        ensures p in Forks(before, now, n) <==> exists i :: i < n && ForkedAt(before, now, p, i)
      {
        assert p in Forks(before, now, n)
          <==> p in Forks(before, now, n - 1) || ForkedAt(before, now, p, n - 1);
      }
    }
  }

  /** Each of them once, in the order of the scan. */
  lemma {:induction false} ForksInOrder(before: seq<Proc>, now: seq<Proc>, n: nat) returns (at: seq<nat>)
    requires n <= |now|
    ensures |at| == |Forks(before, now, n)|
    ensures forall k :: 0 <= k < |at| ==> at[k] < n && ForkedAt(before, now, Forks(before, now, n)[k], at[k])
    ensures forall k, l :: 0 <= k < l < |at| ==> at[k] < at[l]
  {
    hide SeenBefore;
    at := [];
    if n > 0 {
      at := ForksInOrder(before, now, n - 1);
      if !SeenBefore(before, now[n - 1].pid, n - 1) {
        at := at + [n - 1];
      }
    }
  }

  /** Which pids share a bucket. */
  lemma SameBucketIff(p: nat, q: nat)
    requires p < 0x1_0000_0000 && q < 0x1_0000_0000
    ensures Hash(p, HASH_SIZE) == Hash(q, HASH_SIZE) <==> (p - q) % 4096 == 0
  {
    HashIs(p, 4096);
    HashIs(q, 4096);
  }

  // ----- What the events are meant to be -----

  /** The processes of one scan missing from another. */
  function Missing(a: seq<Proc>, b: seq<Proc>): seq<Proc> {
    if a == [] then []
    else Missing(a[..|a| - 1], b) + if SlotOf(b, a[|a| - 1].pid) == NIL then [a[|a| - 1]] else []
  }

  function Pids(s: seq<Proc>): set<int> {
    set p | p in s :: p.pid
  }

  lemma PidsAppend(s: seq<Proc>, x: Proc)
    ensures Pids(s + [x]) == Pids(s) + {x.pid}
  {
    forall p | p in Pids(s) + {x.pid}
      ensures p in Pids(s + [x])
    {
      if p in Pids(s) {
        var y :| y in s && y.pid == p;
        assert y in s + [x];
      } else {
        assert x in s + [x];
      }
    }
  }

  lemma {:induction false} PidsCount(a: seq<Proc>)
    requires Distinct(a)
    ensures |a| == |Pids(a)|
  {
    if a != [] {
      var n := |a| - 1;
      PidsCount(a[..n]);
      PidsAppend(a[..n], a[n]);
      assert a == a[..n] + [a[n]];
      assert a[n].pid !in Pids(a[..n]);
    }
  }

  lemma {:induction false} MissingIs(a: seq<Proc>, b: seq<Proc>)
    requires Distinct(a)
    ensures Pids(Missing(a, b)) == Pids(a) - Pids(b)
    ensures Distinct(Missing(a, b))
  {
    if a != [] {
      var n := |a| - 1;
      var x := a[n];
      MissingIs(a[..n], b);
      PidsAppend(a[..n], x);
      assert a == a[..n] + [x];
      assert x.pid !in Pids(a[..n]);
      assert SlotOf(b, x.pid) == NIL <==> x.pid !in Pids(b);
      var m := Missing(a[..n], b);
      PidsAppend(m, x);
      assert m + [] == m;
      forall k | 0 <= k < |m|
        ensures m[k].pid != x.pid
      {
        assert m[k] in m && m[k].pid in Pids(m);
      }
    }
  }

  lemma DifferenceBalance(a: set<int>, b: set<int>)
    ensures |a - b| - |b - a| == |a| - |b|
  {
    assert a == (a - b) + a * b && b == (b - a) + a * b;
  }

  // ----- The events of tables that share no node -----

  /** The exit scan over one chain of the pool `prev`, as it is written: every node
      whose pid the current table, over the pool `cur`, does not show. In the daemon
      both are one pool. */
  function ChainExits(prev: seq<Node<string>>, cur: seq<Node<string>>, now: seq<Proc>, e: int): seq<Proc>
    requires Linked(prev) && Linked(cur) && |now| <= |cur| && NIL <= e < |prev|
    decreases e
  {
    if e == NIL then []
    else (if Walk(cur, Last(now, HASH_SIZE, Hash(prev[e].pid, HASH_SIZE), |now|), prev[e].pid) == NIL
          then [Entry(prev[e].pid, prev[e].value)] else [])
         + ChainExits(prev, cur, now, prev[e].next)
  }

  /** The scan over the first `h` chains of the previous table. */
  function TableExits(prev: seq<Node<string>>, cur: seq<Node<string>>, before: seq<Proc>, now: seq<Proc>, h: nat)
    : seq<Proc>
    requires Linked(prev) && Linked(cur) && |now| <= |cur| && |before| <= |prev|
  {
    if h == 0 then []
    else TableExits(prev, cur, before, now, h - 1)
         + ChainExits(prev, cur, now, Last(before, HASH_SIZE, h - 1, |before|))
  }

  /** The records of a scan whose pid the previous table, over the pool `prev`, does
      not show. */
  function TableForks(prev: seq<Node<string>>, before: seq<Proc>, now: seq<Proc>): seq<Proc>
    requires Linked(prev) && |before| <= |prev|
  {
    if now == [] then []
    else
      var n := |now| - 1;
      TableForks(prev, before, now[..n])
      + if Walk(prev, Last(before, HASH_SIZE, Hash(now[n].pid, HASH_SIZE), |before|), now[n].pid) == NIL
        then [now[n]] else []
  }

  lemma {:induction false} NewChainIsSilent(pool: seq<Node<string>>, before: seq<Proc>, now: seq<Proc>, e: int)
    requires Layered(pool, before, now, HASH_SIZE) && NIL <= e < |now|
    ensures ChainExits(pool, pool, now, e) == []
    decreases e
  {
    if e != NIL {
      assert Holds(pool, now, HASH_SIZE, e);
      CurrentLookup(pool, before, now, HASH_SIZE, now[e].pid);
      NewChainIsSilent(pool, before, now, pool[e].next);
    }
  }

  lemma RecordsAppend(before: seq<Proc>, a: seq<int>, b: seq<int>)
    ensures Records(before, a + b) == Records(before, a) + Records(before, b)
  {
  }

  /** A chain of the old pool, of which the records `over` have overwritten the lowest
      slots: none, or the ones of this very round. */
  lemma {:induction false} ChainExitsAre(prev: seq<Node<string>>, cur: seq<Node<string>>, before: seq<Proc>,
                                         over: seq<Proc>, was: seq<Proc>, now: seq<Proc>, h: nat, n: nat)
    requires Layered(prev, before, over, HASH_SIZE) && Layered(cur, was, now, HASH_SIZE) && n <= |before|
    requires over == [] || (over == now && prev == cur)
    ensures ChainExits(prev, cur, now, Last(before, HASH_SIZE, h, n))
         == Records(before, BucketExits(before, now, |over|, h, n))
    decreases n
  {
    hide Layered;
    hide Walk;
    hide Hash;
    hide Records;
    hide BucketExits;
    LayeredIs(prev, before, over);
    LayeredIs(cur, was, now);
    BucketExitsStep(before, now, |over|, h, n);
    RecordsOf(before);
    var k := Last(before, HASH_SIZE, h, n);
    if k < |over| {
      if over != [] {
        NewChainIsSilent(prev, before, now, k);
      }
    } else if k != NIL {
      OldNodeIs(prev, before, over, k);
      CurrentLookup(cur, was, now, HASH_SIZE, before[k].pid);
      ChainExitsAre(prev, cur, before, over, was, now, h, k);
      RecordsAppend(before, if SlotOf(now, before[k].pid) == NIL then [k] else [],
                    BucketExits(before, now, |over|, h, k));
    }
  }

  lemma BucketExitsStep(before: seq<Proc>, now: seq<Proc>, floor: nat, h: nat, n: nat)
    requires n <= |before|
    ensures var k := Last(before, HASH_SIZE, h, n);
            BucketExits(before, now, floor, h, n)
            == if k < floor then []
               else (if SlotOf(now, before[k].pid) == NIL then [k] else []) + BucketExits(before, now, floor, h, k)
  {
  }

  lemma RecordsOf(before: seq<Proc>)
    ensures Records(before, []) == [] && forall k :: 0 <= k < |before| ==> Records(before, [k]) == [before[k]]
  {
  }

  lemma LayeredIs(pool: seq<Node<string>>, before: seq<Proc>, now: seq<Proc>)
    requires Layered(pool, before, now, HASH_SIZE)
    ensures Linked(pool) && |before| <= |pool| && |now| <= |pool|
  {
  }

  lemma OldNodeIs(pool: seq<Node<string>>, before: seq<Proc>, over: seq<Proc>, k: nat)
    requires Layered(pool, before, over, HASH_SIZE) && |over| <= k < |before|
    ensures k < |pool| && pool[k].pid == before[k].pid && pool[k].value == before[k].value
    ensures pool[k].next == Last(before, HASH_SIZE, Hash(before[k].pid, HASH_SIZE), k)
  {
    assert Holds(pool, before, HASH_SIZE, k);
  }

  lemma {:induction false} TableExitsAre(prev: seq<Node<string>>, cur: seq<Node<string>>, before: seq<Proc>,
                                         over: seq<Proc>, was: seq<Proc>, now: seq<Proc>, h: nat)
    requires Layered(prev, before, over, HASH_SIZE) && Layered(cur, was, now, HASH_SIZE)
    requires over == [] || (over == now && prev == cur)
    ensures TableExits(prev, cur, before, now, h) == Records(before, ExitSlots(before, now, |over|, h))
  {
    hide Layered;
    hide BucketExits;
    hide ChainExits;
    LayeredIs(prev, before, over);
    LayeredIs(cur, was, now);
    if h > 0 {
      TableExitsAre(prev, cur, before, over, was, now, h - 1);
      ChainExitsAre(prev, cur, before, over, was, now, h - 1, |before|);
      RecordsAppend(before, ExitSlots(before, now, |over|, h - 1), BucketExits(before, now, |over|, h - 1, |before|));
    }
  }

  /** Over the shared pool the scan yields the exit events of the round. */
  lemma SharedScanIsExits(pool: seq<Node<string>>, before: seq<Proc>, now: seq<Proc>)
    requires Layered(pool, before, now, HASH_SIZE)
    ensures TableExits(pool, pool, before, now, HASH_SIZE) == Exits(before, now)
  {
    TableExitsAre(pool, pool, before, now, before, now, HASH_SIZE);
  }

  /** Looked up in a pool it does not share, the previous table is the last scan. */
  lemma UnsharedFindIsMembership(pool: seq<Node<string>>, before: seq<Proc>, pid: int)
    requires Layered(pool, before, [], HASH_SIZE)
    ensures Walk(pool, Last(before, HASH_SIZE, Hash(pid, HASH_SIZE), |before|), pid) == NIL
            <==> pid !in Pids(before)
  {
    UnsharedLookup(pool, before, HASH_SIZE, pid);
    SlotIsMembership(before, pid);
  }

  lemma {:induction false} TableForksAre(prev: seq<Node<string>>, before: seq<Proc>, now: seq<Proc>)
    requires Layered(prev, before, [], HASH_SIZE)
    ensures TableForks(prev, before, now) == Missing(now, before)
  {
    if now != [] {
      TableForksAre(prev, before, now[..|now| - 1]);
      UnsharedLookup(prev, before, HASH_SIZE, now[|now| - 1].pid);
    }
  }

  lemma {:induction false} MissingMembers(a: seq<Proc>, b: seq<Proc>)
    ensures forall p :: p in Missing(a, b) <==> p in a && SlotOf(b, p.pid) == NIL
  {
    if a != [] {
      MissingMembers(a[..|a| - 1], b);
      assert a == a[..|a| - 1] + [a[|a| - 1]];
    }
  }

  /** With tables that share no node, the exit scan as written reports exactly the
      processes of the last scan that are missing from this one, each once; the lookups
      report as forked exactly those missing from the last one; and the two counts
      differ by the growth of the number of processes. */
  lemma UnsharedEventsBalance(prev: seq<Node<string>>, cur: seq<Node<string>>, before: seq<Proc>, was: seq<Proc>,
                              now: seq<Proc>)
    requires Layered(prev, before, [], HASH_SIZE) && Layered(cur, was, now, HASH_SIZE)
    requires Distinct(before) && Distinct(now)
    ensures var exits, forks := TableExits(prev, cur, before, now, HASH_SIZE), TableForks(prev, before, now);
            && Distinct(exits) && (forall p :: p in exits <==> p in before && p.pid !in Pids(now))
            && Distinct(forks) && (forall p :: p in forks <==> p in now && p.pid !in Pids(before))
            && |forks| - |exits| == |now| - |before|
  {
    hide Layered;
    hide TableExits;
    hide TableForks;
    hide ExitSlots;
    LayeredIs(prev, before, []);
    LayeredIs(cur, was, now);
    TableExitsAre(prev, cur, before, [], was, now, HASH_SIZE);
    ReportedRecords(before, now, 0);
    TableForksAre(prev, before, now);
    MissingMembers(now, before);
    MissingIs(now, before);
    var exits, forks := TableExits(prev, cur, before, now, HASH_SIZE), TableForks(prev, before, now);
    PidsOfExits(before, now, exits);
    PidsCount(exits);
    PidsCount(forks);
    PidsCount(now);
    PidsCount(before);
    DifferenceBalance(Pids(now), Pids(before));
  }

  lemma PidsOfExits(before: seq<Proc>, now: seq<Proc>, exits: seq<Proc>)
    requires forall p :: p in exits <==> exists o :: Reported(before, now, 0, o) && before[o] == p
    ensures forall p :: p in exits <==> p in before && p.pid !in Pids(now)
    ensures Pids(exits) == Pids(before) - Pids(now)
  {
    forall p: Proc
      ensures p in exits <==> p in before && p.pid !in Pids(now)
    {
      if p in before && p.pid !in Pids(now) {
        var o :| 0 <= o < |before| && before[o] == p;
        assert Reported(before, now, 0, o);
      }
    }
    forall pid | pid in Pids(before) - Pids(now)
      ensures pid in Pids(exits)
    {
      var p :| p in before && p.pid == pid;
      assert p in exits;
    }
  }

  /** A reported exit is always true; a true exit is reported exactly when its old
      slot lies above the records of this round. */
  lemma ExitReportedIff(before: seq<Proc>, now: seq<Proc>, o: nat)
    requires Distinct(before) && o < |before| && SlotOf(now, before[o].pid) == NIL
    ensures before[o] in Exits(before, now) <==> o >= |now|
  {
    ExitsAreLeftovers(before, now);
    if before[o] in Exits(before, now) {
      var k :| |now| <= k < |before| && before[k] == before[o];
      assert before[k].pid == before[o].pid;
    }
  }

  lemma SlotIsMembership(gen: seq<Proc>, pid: int)
    ensures SlotOf(gen, pid) == NIL <==> pid !in Pids(gen)
  {
    if pid in Pids(gen) {
      var p :| p in gen && p.pid == pid;
      var k :| 0 <= k < |gen| && gen[k] == p;
    }
  }

  /** A record's fork event is right - there exactly if the last scan did not have the
      pid - if and only if: a new process does not take over a slot of its own bucket,
      a surviving one sat higher or takes over such a slot. */
  lemma ForkRightIff(before: seq<Proc>, now: seq<Proc>, i: nat)
    requires i < |now| && Distinct(now)
    ensures var pid := now[i].pid;
            var o := SlotOf(before, pid);
            var sameBucket := i < |before| && Hash(before[i].pid, HASH_SIZE) == Hash(pid, HASH_SIZE);
            (now[i] in Forks(before, now, |now|) <==> pid !in Pids(before))
            <==> if o == NIL then !sameBucket else o > i || sameBucket
  {
    hide SeenBefore;
    hide Forks;
    ForksAre(before, now, |now|);
    SlotIsMembership(before, now[i].pid);
    SeenBeforeIs(before, now[i].pid, i);
    if now[i] in Forks(before, now, |now|) {
      var k :| k < |now| && ForkedAt(before, now, now[i], k);
      assert now[k].pid == now[i].pid;
    } else {
      assert !ForkedAt(before, now, now[i], i);
    }
  }

  /** One process ends, one stays: the end is missed. One starts and is listed first:
      the survivor is reported as forked as well. */
  lemma MissedExitAndFalseFork()
    ensures var a, b := Entry(1, "a"), Entry(2, "b");
            Exits([a, b], [b]) == [] && Forks([b], [a, b], 2) == [a, b]
  {
    var a, b: Proc := Entry(1, "a"), Entry(2, "b");
    ExitsAreLeftovers([a, b], [b]);
    assert [b][0].pid == 2;
    forall p
      ensures p !in Exits([a, b], [b])
    {
      assert forall o :: 1 <= o < 2 ==> SlotOf([b], [a, b][o].pid) != NIL;
    }
    HeadIsMember(Exits([a, b], [b]));
    assert Forks([b], [a, b], 1) == [a];
  }

  // ----- The service -----

  function Events(kind: Kind, procs: seq<Proc>, clock: nat): seq<Event> {
    seq(|procs|, i requires 0 <= i < |procs| => Event(kind, procs[i].pid, procs[i].value, clock))
  }

  function Count(log: seq<Event>, kind: Kind): nat {
    if log == [] then 0
    else Count(log[..|log| - 1], kind) + if log[|log| - 1].kind == kind then 1 else 0
  }

  lemma {:induction false} ForksPrefix(before: seq<Proc>, now: seq<Proc>, x: Proc, n: nat)
    requires n <= |now|
    ensures Forks(before, now + [x], n) == Forks(before, now, n)
  {
    if n > 0 {
      ForksPrefix(before, now, x, n - 1);
    }
  }

  /** The fork events of a round, none in a first round. */
  function ForkLog(compare: bool, before: seq<Proc>, now: seq<Proc>, clock: nat): seq<Event> {
    if compare then Events(Fork, Forks(before, now, |now|), clock) else []
  }

  /** The exit events for a list of old slots. */
  function ExitLog(before: seq<Proc>, slots: seq<int>, clock: nat): seq<Event> {
    Events(Exit, Records(before, slots), clock)
  }

  lemma ForkLogAppend(compare: bool, before: seq<Proc>, now: seq<Proc>, x: Proc, clock: nat, log: seq<Event>)
    ensures log + ForkLog(compare, before, now + [x], clock)
         == log + ForkLog(compare, before, now, clock)
            + if !compare || SeenBefore(before, x.pid, |now|) then [] else [Event(Fork, x.pid, x.value, clock)]
  {
    hide SeenBefore;
    ForksPrefix(before, now, x, |now|);
    var more := if SeenBefore(before, x.pid, |now|) then [] else [x];
    assert Forks(before, now + [x], |now| + 1) == Forks(before, now, |now|) + more;
    EventsAppend(Fork, Forks(before, now, |now|), more, clock);
    Assoc(log, ForkLog(compare, before, now, clock), Events(Fork, more, clock));
    assert log + [] == log;
  }

  lemma EventsAppend(kind: Kind, a: seq<Proc>, b: seq<Proc>, clock: nat)
    ensures Events(kind, a + b, clock) == Events(kind, a, clock) + Events(kind, b, clock)
  {
  }

  lemma ForkLogEmpty(compare: bool, before: seq<Proc>, clock: nat, log: seq<Event>)
    ensures log + ForkLog(compare, before, [], clock) == log
  {
  }

  lemma ExitLogAppend(before: seq<Proc>, a: seq<int>, b: seq<int>, clock: nat, log: seq<Event>)
    ensures log + ExitLog(before, a + b, clock) == log + ExitLog(before, a, clock) + ExitLog(before, b, clock)
  {
  }

  lemma ExitLogEmpty(before: seq<Proc>, clock: nat)
    ensures ExitLog(before, [], clock) == []
  {
  }

  lemma FirstRoundLog(before: seq<Proc>, now: seq<Proc>, clock: nat, log: seq<Event>)
    ensures log + ForkLog(false, before, now, clock) == log
  {
  }

  /** The exit events of the first `h` buckets, bucket by bucket. */
  lemma ExitLogStep(before: seq<Proc>, now: seq<Proc>, h: nat, clock: nat, log: seq<Event>)
    ensures log + ExitLog(before, ExitSlots(before, now, |now|, 0), clock) == log
    ensures log + ExitLog(before, ExitSlots(before, now, |now|, h), clock)
            + ExitLog(before, BucketExits(before, now, |now|, h, |before|), clock)
            == log + ExitLog(before, ExitSlots(before, now, |now|, h + 1), clock)
    ensures ExitLog(before, ExitSlots(before, now, |now|, HASH_SIZE), clock) == Events(Exit, Exits(before, now), clock)
  {
    hide BucketExits;
    ExitLogAppend(before, ExitSlots(before, now, |now|, h), BucketExits(before, now, |now|, h, |before|), clock, log);
    ExitLogEmpty(before, clock);
  }

  lemma ExitLogOne(before: seq<Proc>, e: nat, clock: nat)
    requires e < |before|
    ensures ExitLog(before, [e], clock) == [Event(Exit, before[e].pid, before[e].value, clock)]
  {
  }

  lemma SeenBeforeIs(before: seq<Proc>, pid: int, i: nat)
    ensures SeenBefore(before, pid, i)
            <==> SlotOf(before, pid) > i
                 || (i < |before| && Hash(before[i].pid, HASH_SIZE) == Hash(pid, HASH_SIZE))
  {
  }

  /** What the walk over bucket `h` still reports when it stands at slot `e`. */
  function ExitsFrom(before: seq<Proc>, now: seq<Proc>, h: nat, e: int): seq<int>
    requires e < |before| || e < |now|
  {
    if e < |now| then []
    else (if SlotOf(now, before[e].pid) == NIL then [e] else []) + BucketExits(before, now, |now|, h, e)
  }

  lemma ExitsFromStep(before: seq<Proc>, now: seq<Proc>, h: nat, e: int)
    requires e < |before| || e < |now|
    ensures e < |now| ==> ExitsFrom(before, now, h, e) == []
    ensures e >= |now| ==>
              var k := Last(before, HASH_SIZE, h, e);
              && (k < |before| || k < |now|)
              && ExitsFrom(before, now, h, e)
                 == (if SlotOf(now, before[e].pid) == NIL then [e] else []) + ExitsFrom(before, now, h, k)
  {
  }

  lemma BucketExitsFrom(before: seq<Proc>, now: seq<Proc>, h: nat, n: nat)
    requires n <= |before|
    ensures var k := Last(before, HASH_SIZE, h, n);
            (k < |before| || k < |now|) && BucketExits(before, now, |now|, h, n) == ExitsFrom(before, now, h, k)
  {
  }

  /** The ring position of the event with number `j`. */
  function Pos(j: nat): (r: nat)
    ensures r < MAX_EVENTS
  {
    j % MAX_EVENTS
  }

  lemma CountAppend(log: seq<Event>, e: Event)
    ensures forall k :: Count(log + [e], k) == Count(log, k) + if e.kind == k then 1 else 0
  {
    assert (log + [e])[..|log|] == log;
  }

  lemma {:induction false} CountEvents(log: seq<Event>, kind: Kind, procs: seq<Proc>, clock: nat)
    ensures forall k :: Count(log + Events(kind, procs, clock), k) == Count(log, k) + if k == kind then |procs| else 0
  {
    hide Count;
    if procs == [] {
      assert log + Events(kind, procs, clock) == log;
    } else {
      var n := |procs| - 1;
      CountEvents(log, kind, procs[..n], clock);
      var e := Event(kind, procs[n].pid, procs[n].value, clock);
      assert log + Events(kind, procs, clock) == log + Events(kind, procs[..n], clock) + [e];
      CountAppend(log + Events(kind, procs[..n], clock), e);
    }
  }

  /** The events a round adds: the forks in scan order, then the exits, each with its
      process, its command and the time of the round. */
  ghost predicate RoundEvents(added: seq<Event>, forks: seq<Proc>, exits: seq<Proc>, clock: nat) {
    && |added| == |forks| + |exits|
    && (forall i :: 0 <= i < |forks| ==> added[i] == Event(Fork, forks[i].pid, forks[i].value, clock))
    && (forall i :: 0 <= i < |exits| ==>
          added[|forks| + i] == Event(Exit, exits[i].pid, exits[i].value, clock))
  }

  /** And what they add to the counters. */
  lemma RoundAdds(log: seq<Event>, after: seq<Event>, before: seq<Proc>, now: seq<Proc>, clock: nat)
    requires after == log + ForkLog(true, before, now, clock) + Events(Exit, Exits(before, now), clock)
    ensures var forks, exits := Forks(before, now, |now|), Exits(before, now);
            && log <= after && RoundEvents(after[|log|..], forks, exits, clock)
            && Count(after, Fork) == Count(log, Fork) + |forks| && Count(after, Exec) == Count(log, Exec)
            && Count(after, Exit) == Count(log, Exit) + |exits|
  {
    hide Forks;
    hide Exits;
    hide Count;
    var forks, exits := Forks(before, now, |now|), Exits(before, now);
    CountEvents(log, Fork, forks, clock);
    CountEvents(log + Events(Fork, forks, clock), Exit, exits, clock);
  }

  lemma PosStep(n: nat)
    ensures Pos(n + 1) == (Pos(n) + 1) % MAX_EVENTS
    ensures forall j: nat :: n - MAX_EVENTS < j < n ==> Pos(j) != Pos(n)
  {
  }

  lemma PosBack(n: nat, i: nat)
    requires i < n && i < MAX_EVENTS
    ensures (Pos(n) - 1 - i + MAX_EVENTS) % MAX_EVENTS == Pos(n - 1 - i)
  {
  }

  /** The ring of recent events and the counters. */
  class EventRing {
    const events: array<Event>
    var head: nat
    var count: nat
    var forks: nat
    var execs: nat
    var exits: nat

    /** Every event ever added. */
    ghost var log: seq<Event>

    /** The ring holds the last 100 events, each at its number modulo 100, and the
        counters count the whole log. */
    ghost predicate Valid()
      reads this, events
    {
      && events.Length == MAX_EVENTS
      && head == Pos(|log|) && count == Min(|log|, MAX_EVENTS)
      && (forall j: nat :: |log| - MAX_EVENTS <= j < |log| ==> events[Pos(j)] == log[j])
      && forks == Count(log, Fork) && execs == Count(log, Exec) && exits == Count(log, Exit)
    }

    constructor ()
      ensures Valid() && log == [] && fresh(events)
    {
      events := new Event[MAX_EVENTS](_ => Event(Fork, 0, "", 0));
      head, count, forks, execs, exits, log := 0, 0, 0, 0, 0, [];
    }

    lemma Counters()
      requires Valid()
      ensures forks == Count(log, Fork) && execs == Count(log, Exec) && exits == Count(log, Exit)
    {
    }

    /** add_event. */
    method Add(kind: Kind, pid: int, cmd: string, clock: nat)
      requires Valid()
      modifies this, events
      ensures Valid() && log == old(log) + [Event(kind, pid, cmd, clock)]
    {
      hide Pos;
      hide Count;
      PosStep(|log|);
      CountAppend(log, Event(kind, pid, cmd, clock));
      events[head] := Event(kind, pid, cmd, clock);
      head := (head + 1) % MAX_EVENTS;
      if count < MAX_EVENTS {
        count := count + 1;
      }
      match kind {
        case Fork => forks := forks + 1;
        case Exec => execs := execs + 1;
        case Exit => exits := exits + 1;
      }
      log := log + [Event(kind, pid, cmd, clock)];
    }

    /** procevent_get_recent: the newest events first, as many as asked for and held. */
    method GetRecent(maxEvents: int) returns (n: int, recent: seq<Event>)
      requires Valid()
      ensures n == Min(Min(|log|, 100), maxEvents)
      ensures |recent| == if n < 0 then 0 else n
      ensures forall i :: 0 <= i < |recent| ==> recent[i] == log[|log| - 1 - i]
    {
      hide Pos;
      n := count;
      if n > maxEvents {
        n := maxEvents;
      }
      recent := [];
      var i := 0;
      while i < n
        invariant 0 <= i && (i <= n || i == 0) && |recent| == i
        invariant forall j :: 0 <= j < i ==> recent[j] == log[|log| - 1 - j]
      {
        PosBack(|log|, i);
        var idx := (head as int - 1 - i + MAX_EVENTS) % MAX_EVENTS;
        recent := recent + [events[idx]];
        i := i + 1;
      }
    }
  }

  class Service {
    const table: Table<string>
    const ring: EventRing

    ghost predicate Valid()
      reads this, ring, ring.events, table, table.pool, table.current, table.previous
    {
      ring.Valid() && table.Valid() && table.size == HASH_SIZE && table.pool.Length == POOL_SIZE
    }

    constructor ()
      ensures Valid() && ring.log == [] && table.now == [] && !table.hasPrevious
      ensures fresh(table) && fresh(table.pool) && fresh(table.current) && fresh(table.previous)
      ensures fresh(ring) && fresh(ring.events)
    {
      table := new Table<string>(HASH_SIZE, POOL_SIZE, "");
      ring := new EventRing();
    }

    /** The scan: store each process, report a fork where the previous table does
        not know its pid. */
    method Scan(scan: seq<Proc>, clock: nat)
      requires Valid() && table.now == [] && Distinct(scan)
      modifies ring, ring.events
      modifies table`poolIdx, table`now, table.pool, table.current
      ensures Valid() && table.now == Accepted(scan)
      ensures ring.log == old(ring.log) + ForkLog(table.hasPrevious, table.before, table.now, clock)
    {
      hide Table.Valid;
      hide EventRing.Valid;
      hide SeenBefore;
      hide ForkLog;
      hide Hash;
      ghost var was := ring.log;
      ForkLogEmpty(table.hasPrevious, table.before, clock, was);
      for k := 0 to |scan|
        invariant Valid() && table.now == scan[..k] && k <= POOL_SIZE
        invariant ring.log == was + ForkLog(table.hasPrevious, table.before, table.now, clock)
      {
        var p := scan[k];
        var ok := table.Insert(p.pid, p.value);
        if !ok { break; }
        assert scan[..k + 1] == scan[..k] + [p];
        ForkLogAppend(table.hasPrevious, table.before, scan[..k], p, clock, was);
        SeenBeforeIs(table.before, p.pid, k);
        if table.hasPrevious {
          var e := table.LookupPrevious(p.pid);
          if e == NIL {
            ring.Add(Fork, p.pid, p.value, clock);
          }
        }
      }
    }

    /** One bucket of the exit scan. */
    method ScanBucket(h: nat, clock: nat)
      requires Valid() && h < HASH_SIZE
      modifies ring, ring.events
      ensures Valid()
      ensures ring.log == old(ring.log)
                       + ExitLog(table.before,
                                 BucketExits(table.before, table.now, |table.now|, h, |table.before|), clock)
    {
      hide EventRing.Valid;
      hide Table.Valid;
      hide ExitsFrom;
      hide BucketExits;
      hide ExitLog;
      hide Last;
      hide Hash;
      hide SlotOf;
      ghost var was := ring.log;
      assert ExitLog(table.before, [], clock) == [] by { ExitLogEmpty(table.before, clock); }
      ghost var done: seq<int> := [];
      ghost var all := BucketExits(table.before, table.now, |table.now|, h, |table.before|);
      table.PreviousHeadIs(h);
      var e := table.previous[h];
      BucketExitsFrom(table.before, table.now, h, |table.before|);
      while e != NIL
        invariant Valid() && NIL <= e < table.pool.Length
        invariant e >= |table.now| ==> e < |table.before| && Hash(table.before[e].pid, HASH_SIZE) == h
        invariant all == done + ExitsFrom(table.before, table.now, h, e)
        invariant ring.log == was + ExitLog(table.before, done, clock)
        decreases e
      {
        table.NodeIs(e);
        var node := table.pool[e];
        var c := table.LookupCurrent(node.pid);
        ExitsFromStep(table.before, table.now, h, e);
        ExitsFromStep(table.before, table.now, h, node.next);
        Assoc(done, if c == NIL then [e] else [], ExitsFrom(table.before, table.now, h, node.next));
        if c == NIL {
          ExitLogAppend(table.before, done, [e], clock, was);
          ExitLogOne(table.before, e, clock);
          ring.Add(Exit, node.pid, node.value, clock);
          done := done + [e];
        }
        e := node.next;
      }
      ExitsFromStep(table.before, table.now, h, e);
      assert done + [] == done;
    }

    /** procevent_collect; None where /proc cannot be opened. Either way the heads
        have been rotated. */
    method Collect(scan: Option<seq<Proc>>, clock: nat) returns (ret: int)
      requires Valid() && (scan.Some? ==> Distinct(scan.value))
      modifies ring, ring.events
      modifies table, table.pool, table.current, table.previous
      ensures Valid() && table.before == old(table.now)
      ensures scan.None? ==> ret == -1 && ring.log == old(ring.log) && table.now == []
                             && table.hasPrevious == old(table.hasPrevious)
      ensures scan.Some? ==> ret == 0 && table.now == Accepted(scan.value) && table.hasPrevious
      ensures scan.Some? ==>
                ring.log == old(ring.log) + ForkLog(old(table.hasPrevious), table.before, table.now, clock)
                       + if old(table.hasPrevious)
                         then Events(Exit, Exits(table.before, table.now), clock) else []
      ensures scan.Some? ==> table.now == if |scan.value| <= 8192 then scan.value else scan.value[..8192]
      ensures scan.Some? && !old(table.hasPrevious) ==> ring.log == old(ring.log)
      ensures scan.Some? && old(table.hasPrevious) ==>
                var forks, exits := Forks(table.before, table.now, |table.now|), Exits(table.before, table.now);
                && old(ring.log) <= ring.log && RoundEvents(ring.log[|old(ring.log)|..], forks, exits, clock)
                && ring.forks == old(ring.forks) + |forks| && ring.exits == old(ring.exits) + |exits|
                && ring.execs == old(ring.execs)
    {
      hide EventRing.Valid;
      hide Layered;
      hide Last;
      hide RoundEvents;
      hide Count;
      hide ForkLog;
      hide Events;
      hide Forks;
      hide Exits;
      hide ExitLog;
      hide ExitSlots;
      hide BucketExits;
      ring.Counters();
      table.BeginRound();
      if scan.None? { return -1; }
      Scan(scan.value, clock);
      ghost var was := ring.log;
      assert was + [] == was;
      FirstRoundLog(table.before, table.now, clock, old(ring.log));
      if table.hasPrevious {
        ExitLogStep(table.before, table.now, 0, clock, was);
        for h := 0 to HASH_SIZE
          invariant Valid() && table.before == old(table.now) && table.now == Accepted(scan.value)
          invariant ring.log == was + ExitLog(table.before, ExitSlots(table.before, table.now, |table.now|, h), clock)
        {
          ExitLogStep(table.before, table.now, h, clock, was);
          ScanBucket(h, clock);
        }
        RoundAdds(old(ring.log), ring.log, table.before, table.now, clock);
        ring.Counters();
      }
      table.hasPrevious := true;
      ret := 0;
    }
  }
}
