/** The chained pid tables of procmem.c, cpuload.c and procevent.c: two generations
    of bucket heads over one pool of nodes that every round fills again from slot 0.

    A link is a pool slot, NULL being NIL. The heads copied to `previous` keep
    pointing at slots the new round overwrites; nothing here assumes otherwise. */
module PidTable {
  const NIL: int := -1

  /** A record a round accepted, with what the service stores beside the pid. */
  datatype Entry<+R> = Entry(pid: int, value: R)

  datatype Node<+R> = Node(pid: int, value: R, next: int)

  /** hash_pid: the pid as an unsigned 32-bit number modulo the table size. */
  function Hash(pid: int, size: nat): (h: nat)
    requires size > 0
    ensures h < size
  {
    pid % 0x1_0000_0000 % size
  }

  /** Pids are at most 32 bits wide; a negative one wraps round. */
  lemma HashIs(pid: int, size: nat)
    requires size > 0
    ensures 0 <= pid < 0x1_0000_0000 ==> Hash(pid, size) == pid % size
    ensures -0x1_0000_0000 <= pid < 0 ==> Hash(pid, size) == (pid + 0x1_0000_0000) % size
  {
  }

  ghost predicate Distinct<R>(gen: seq<Entry<R>>) {
    forall i, j :: 0 <= i < j < |gen| ==> gen[i].pid != gen[j].pid
  }

  /** The newest of the first `n` records in bucket `h`. */
  function Last<R>(gen: seq<Entry<R>>, size: nat, h: nat, n: nat): (k: int)
    requires size > 0 && n <= |gen|
    ensures NIL <= k < n
    ensures k >= 0 ==> Hash(gen[k].pid, size) == h
    ensures forall j :: k < j < n ==> Hash(gen[j].pid, size) != h
  {
    if n == 0 then NIL
    else if Hash(gen[n - 1].pid, size) == h then n - 1
    else Last(gen, size, h, n - 1)
  }

  /** The slot of a pid in a generation, NIL where it has none. */
  function SlotOf<R>(gen: seq<Entry<R>>, pid: int): (k: int)
    ensures NIL <= k < |gen|
    ensures k >= 0 ==> gen[k].pid == pid
    ensures forall j :: k < j < |gen| ==> gen[j].pid != pid
  {
    if gen == [] then NIL
    else if gen[|gen| - 1].pid == pid then |gen| - 1
    else SlotOf(gen[..|gen| - 1], pid)
  }

  lemma SlotIs<R>(gen: seq<Entry<R>>, k: nat)
    requires Distinct(gen) && k < |gen|
    ensures SlotOf(gen, gen[k].pid) == k
  {
  }

  /** The measure of every chain walk: links go to lower slots. */
  ghost predicate Linked<R>(pool: seq<Node<R>>) {
    forall k :: 0 <= k < |pool| ==> NIL <= pool[k].next < k
  }

  /** find_in_hash from the head `e`. */
  function Walk<R>(pool: seq<Node<R>>, e: int, pid: int): (r: int)
    requires Linked(pool) && NIL <= e < |pool|
    ensures NIL <= r <= e && (r >= 0 ==> pool[r].pid == pid)
    decreases e
  {
    if e == NIL then NIL
    else if pool[e].pid == pid then e
    else Walk(pool, pool[e].next, pid)
  }

  /** Slot `k` holds record `k` of the generation, linked behind the newest earlier
      record of its bucket. */
  ghost predicate Holds<R>(pool: seq<Node<R>>, gen: seq<Entry<R>>, size: nat, k: nat)
    requires size > 0 && k < |gen| && k < |pool|
  {
    pool[k] == Node(gen[k].pid, gen[k].value, Last(gen, size, Hash(gen[k].pid, size), k))
  }

  /** The pool while `before` is being replaced by `now`: the first |now| slots are
      new, the slots above keep the old records, links included. */
  ghost predicate Layered<R>(pool: seq<Node<R>>, before: seq<Entry<R>>, now: seq<Entry<R>>, size: nat) {
    && size > 0 && Linked(pool) && |before| <= |pool| && |now| <= |pool|
    && (forall k :: 0 <= k < |now| ==> Holds(pool, now, size, k))
    && (forall k :: |now| <= k < |before| ==> Holds(pool, before, size, k))
  }

  lemma {:induction false} LastPrefix<R>(gen: seq<Entry<R>>, more: seq<Entry<R>>, size: nat, h: nat, n: nat)
    requires size > 0 && n <= |gen|
    ensures Last(gen + more, size, h, n) == Last(gen, size, h, n)
  {
    if n > 0 {
      LastPrefix(gen, more, size, h, n - 1);
    }
  }

  /** A walk that has entered the new records at slot `e` of the pid's own bucket
      misses no record of that pid up to `e`. */
  lemma {:induction false} WalkNew<R>(pool: seq<Node<R>>, before: seq<Entry<R>>, now: seq<Entry<R>>, size: nat,
                                      e: int, pid: int)
    requires Layered(pool, before, now, size) && NIL <= e < |now|
    requires e >= 0 ==> Hash(now[e].pid, size) == Hash(pid, size)
    ensures forall j :: Walk(pool, e, pid) < j <= e ==> now[j].pid != pid
    decreases e
  {
    assert e >= 0 ==> Holds(pool, now, size, e);
    if e >= 0 && now[e].pid != pid {
      var next := Last(now, size, Hash(pid, size), e);
      WalkNew(pool, before, now, size, next, pid);
      assert Walk(pool, e, pid) == Walk(pool, next, pid);
      forall j | Walk(pool, e, pid) < j <= e
        ensures now[j].pid != pid
      {
        if next < j < e {
          assert Hash(now[j].pid, size) != Hash(pid, size);
        }
      }
    }
  }

  /** The current table refines the map from the pids accepted so far in this round
      to their records. */
  lemma CurrentLookup<R>(pool: seq<Node<R>>, before: seq<Entry<R>>, now: seq<Entry<R>>, size: nat, pid: int)
    requires Layered(pool, before, now, size)
    ensures Walk(pool, Last(now, size, Hash(pid, size), |now|), pid) == SlotOf(now, pid)
  {
    var e := Last(now, size, Hash(pid, size), |now|);
    WalkNew(pool, before, now, size, e, pid);
    var r := Walk(pool, e, pid);
    assert forall j :: e < j < |now| ==> now[j].pid != pid;
    assert r >= 0 ==> Holds(pool, now, size, r);
  }

  lemma SlotOfPrefix<R>(gen: seq<Entry<R>>, n: nat, pid: int)
    requires 0 < n <= |gen|
    ensures SlotOf(gen[..n], pid) == if gen[n - 1].pid == pid then n - 1 else SlotOf(gen[..n - 1], pid)
  {
    assert gen[..n][..n - 1] == gen[..n - 1];
  }

  /** The previous table, walked while its nodes are being overwritten: records in
      slots not yet reused are found as they were; otherwise the walk continues at
      the newest overwritten slot of the bucket, inside the new records. */
  lemma {:induction false} StaleWalk<R>(pool: seq<Node<R>>, before: seq<Entry<R>>, now: seq<Entry<R>>, size: nat,
                                        pid: int, n: nat)
    requires Layered(pool, before, now, size) && |now| <= n <= |before|
    ensures var h := Hash(pid, size);
            var o := SlotOf(before[..n], pid);
            Walk(pool, Last(before, size, h, n), pid)
            == if o >= |now| then o
               else Walk(pool, Last(before, size, h, |now|), pid)
    decreases n
  {
    hide Hash;
    hide SlotOf;
    var h := Hash(pid, size);
    if n > |now| {
      StaleWalk(pool, before, now, size, pid, n - 1);
      SlotOfPrefix(before, n, pid);
      if Hash(before[n - 1].pid, size) == h {
        assert Holds(pool, before, size, n - 1);
        assert pool[n - 1].next == Last(before, size, h, n - 1);
      }
    }
  }

  /** The exact meaning of a lookup in the recycled previous table, when a round
      has accepted `now` so far: the old record where its slot has not been reused,
      and otherwise either nothing or the new record of the same pid. */
  lemma PreviousLookup<R>(pool: seq<Node<R>>, before: seq<Entry<R>>, now: seq<Entry<R>>, size: nat, pid: int)
    requires Layered(pool, before, now, size)
    ensures var o := SlotOf(before, pid);
            var r := Walk(pool, Last(before, size, Hash(pid, size), |before|), pid);
            && (o >= |now| ==> r == o)
            && (o < |now| ==> r < |now| && (r >= 0 ==> now[r].pid == pid))
  {
    var h := Hash(pid, size);
    var r := Walk(pool, Last(before, size, h, |before|), pid);
    if |before| >= |now| {
      assert before[..|before|] == before;
      StaleWalk(pool, before, now, size, pid, |before|);
    }
    if 0 <= r < |now| {
      assert Holds(pool, now, size, r);
    }
  }

  /** For the record just inserted: its pid is found in the previous table exactly
      when its old record is in a slot not yet reused, or its own new slot was, in
      the old round, the slot of a record of the same bucket. */
  lemma PreviousLookupOfNewest<R>(pool: seq<Node<R>>, before: seq<Entry<R>>, now: seq<Entry<R>>, size: nat)
    requires Layered(pool, before, now, size) && now != [] && Distinct(now)
    ensures var i := |now| - 1;
            var pid := now[i].pid;
            var o := SlotOf(before, pid);
            var r := Walk(pool, Last(before, size, Hash(pid, size), |before|), pid);
            r == if o > i then o
                 else if i < |before| && Hash(before[i].pid, size) == Hash(pid, size) then i
                 else NIL
  {
    var i := |now| - 1;
    var pid := now[i].pid;
    var h := Hash(pid, size);
    PreviousLookup(pool, before, now, size, pid);
    assert Holds(pool, now, size, i);
    if |before| > i {
      assert before[..|before|] == before;
      StaleWalk(pool, before, now, size, pid, |before|);
      assert Last(before, size, h, i + 1)
          == if Hash(before[i].pid, size) == h then i else Last(before, size, h, i);
    }
  }

  /** If the two generations shared no node - nothing of the old one overwritten -
      the previous table would be exactly the map of the old round. */
  lemma UnsharedLookup<R>(pool: seq<Node<R>>, before: seq<Entry<R>>, size: nat, pid: int)
    requires Layered(pool, before, [], size)
    ensures Walk(pool, Last(before, size, Hash(pid, size), |before|), pid) == SlotOf(before, pid)
  {
    PreviousLookup(pool, before, [], size, pid);
  }

  /** When a round starts, the records of the last one become the old layer. */
  lemma RotateLayers<R>(pool: seq<Node<R>>, before: seq<Entry<R>>, now: seq<Entry<R>>, size: nat)
    requires Layered(pool, before, now, size)
    ensures Layered(pool, now, [], size)
  {
  }

  /** Storing one more record keeps the layers. */
  lemma InsertKeepsLayers<R>(pool: seq<Node<R>>, before: seq<Entry<R>>, now: seq<Entry<R>>, size: nat, x: Entry<R>)
    requires Layered(pool, before, now, size) && |now| < |pool|
    ensures var head := Last(now, size, Hash(x.pid, size), |now|);
            Layered(pool[|now| := Node(x.pid, x.value, head)], before, now + [x], size)
  {
    var i := |now|;
    var pool' := pool[i := Node(x.pid, x.value, Last(now, size, Hash(x.pid, size), i))];
    forall k | 0 <= k < |now + [x]|
      ensures Holds(pool', now + [x], size, k)
    {
      LastPrefix(now, [x], size, Hash((now + [x])[k].pid, size), k);
      if k < i {
        assert Holds(pool, now, size, k);
      }
    }
    forall k | i + 1 <= k < |before|
      ensures Holds(pool', before, size, k)
    {
      assert Holds(pool, before, size, k);
    }
  }

  class Table<R> {
    const size: nat
    const pool: array<Node<R>>
    const current: array<int>
    const previous: array<int>
    var poolIdx: nat
    var hasPrevious: bool

    /** The records of the last round and of this one, by pool slot. */
    ghost var before: seq<Entry<R>>
    ghost var now: seq<Entry<R>>

    ghost predicate Valid()
      reads this, pool, current, previous
    {
      && size > 0 && current.Length == size && previous.Length == size && current != previous
      && poolIdx == |now|
      && Layered(pool[..], before, now, size)
      && (forall h :: 0 <= h < size ==> current[h] == Last(now, size, h, |now|))
      && (forall h :: 0 <= h < size ==> previous[h] == Last(before, size, h, |before|))
    }

    /** The service's init: everything zeroed. */
    constructor (buckets: nat, slots: nat, blank: R)
      requires buckets > 0
      ensures Valid() && fresh(pool) && fresh(current) && fresh(previous)
      ensures size == buckets && pool.Length == slots && !hasPrevious
      ensures before == [] && now == []
    {
      size := buckets;
      pool := new Node<R>[slots](_ => Node(0, blank, NIL));
      current := new int[buckets](_ => NIL);
      previous := new int[buckets](_ => NIL);
      poolIdx, hasPrevious := 0, false;
      before, now := [], [];
    }

    /** The start of a collection: the heads become the previous heads, the current
        ones are cleared, and the pool is filled again from its first slot. */
    method BeginRound()
      requires Valid()
      modifies this`poolIdx, this`before, this`now, current, previous
      ensures Valid() && before == old(now) && now == []
    {
      hide Last;
      hide Holds;
      RotateLayers(pool[..], before, now, size);
      forall h | 0 <= h < size {
        previous[h] := current[h];
      }
      forall h | 0 <= h < size {
        current[h] := NIL;
      }
      poolIdx := 0;
      before, now := now, [];
      assert pool[..] == old(pool[..]);
    }

    /** alloc_entry and insert_hash; false when the pool is exhausted. */
    method Insert(pid: int, value: R) returns (ok: bool)
      requires Valid()
      modifies this`poolIdx, this`now, pool, current
      ensures Valid()
      ensures ok <==> old(|now|) < pool.Length
      ensures now == if ok then old(now) + [Entry(pid, value)] else old(now)
    {
      if poolIdx >= pool.Length { return false; }
      var e := poolIdx;
      poolIdx := poolIdx + 1;
      var idx := Hash(pid, size);
      ghost var x := Entry(pid, value);
      InsertKeepsLayers(pool[..], before, now, size, x);
      assert current[idx] == Last(now, size, idx, |now|);
      pool[e] := Node(pid, value, NIL);
      pool[e] := pool[e].(next := current[idx]);
      current[idx] := e;
      assert pool[..] == old(pool[..])[e := Node(pid, value, old(current[idx]))];
      forall h | 0 <= h < size
        ensures current[h] == Last(now + [x], size, h, |now| + 1)
      {
        LastPrefix(now, [x], size, h, |now|);
      }
      now := now + [x];
      ok := true;
    }

    /** What the invariant says about one node and one previous head. */
    lemma NodeIs(e: int)
      requires Valid() && 0 <= e < pool.Length
      ensures NIL <= pool[e].next < e
      ensures e < |now| ==>
                pool[e] == Node(now[e].pid, now[e].value, Last(now, size, Hash(now[e].pid, size), e))
      ensures |now| <= e < |before| ==>
                pool[e] == Node(before[e].pid, before[e].value, Last(before, size, Hash(before[e].pid, size), e))
    {
      assert pool[..][e] == pool[e];
      assert e < |now| ==> Holds(pool[..], now, size, e);
      assert |now| <= e < |before| ==> Holds(pool[..], before, size, e);
    }

    lemma PreviousHeadIs(h: nat)
      requires Valid() && h < size
      ensures previous.Length == size && previous[h] == Last(before, size, h, |before|)
      ensures |before| <= pool.Length && |now| <= pool.Length
    {
    }

    /** find_in_hash over either array of heads; NIL where the pid is not found. */
    method FindInHash(heads: array<int>, pid: int) returns (e: int)
      requires Valid() && (heads == current || heads == previous)
      ensures e == Walk(pool[..], heads[Hash(pid, size)], pid)
    {
      e := heads[Hash(pid, size)];
      while e != NIL && pool[e].pid != pid
        invariant NIL <= e < pool.Length
        invariant Walk(pool[..], e, pid) == Walk(pool[..], heads[Hash(pid, size)], pid)
        decreases e
      {
        e := pool[e].next;
      }
    }

    /** find_in_hash over the current table. */
    method LookupCurrent(pid: int) returns (e: int)
      requires Valid()
      ensures e == SlotOf(now, pid)
      ensures e >= 0 ==> e < pool.Length && pool[e].value == now[e].value
    {
      e := FindInHash(current, pid);
      CurrentLookup(pool[..], before, now, size, pid);
      assert e >= 0 ==> Holds(pool[..], now, size, e);
    }

    /** find_in_hash over the previous table, as PreviousLookup and, for the record
        inserted last, PreviousLookupOfNewest describe it. */
    method LookupPrevious(pid: int) returns (e: int)
      requires Valid()
      ensures NIL <= e < pool.Length
      ensures SlotOf(before, pid) >= |now| ==> e == SlotOf(before, pid) && pool[e].value == before[e].value
      ensures SlotOf(before, pid) < |now| ==>
                e < |now| && (e >= 0 ==> now[e].pid == pid && pool[e].value == now[e].value)
      ensures now != [] && Distinct(now) && now[|now| - 1].pid == pid && SlotOf(before, pid) < |now| ==>
                e == if |now| <= |before| && Hash(before[|now| - 1].pid, size) == Hash(pid, size)
                     then |now| - 1 else NIL
    {
      hide Walk;
      hide Last;
      hide Hash;
      hide SlotOf;
      e := FindInHash(previous, pid);
      PreviousLookup(pool[..], before, now, size, pid);
      if now != [] && Distinct(now) && now[|now| - 1].pid == pid {
        PreviousLookupOfNewest(pool[..], before, now, size);
      }
      assert 0 <= e < |now| ==> Holds(pool[..], now, size, e);
      assert |now| <= e < |before| ==> Holds(pool[..], before, size, e);
    }
  }
}
