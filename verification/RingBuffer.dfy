/** The snapshot history (ringbuffer.c): a ring whose pushes may fail to allocate
    after they have already freed the slot they were going to fill. */
module RingBuffer {
  import opened Sequences
  import opened Text

  /** malloc and free, as far as they can go wrong: a block is freed only while it
      is live. */
  class Heap {
    ghost var live: set<nat>
    var next: nat

    ghost predicate Valid()
      reads this
    {
      forall b :: b in live ==> b < next
    }

    constructor ()
      ensures Valid() && live == {}
    {
      live, next := {}, 0;
    }

    /** `ok` says whether there is memory. */
    method Malloc(ok: bool) returns (b: Option<nat>)
      requires Valid()
      modifies this
      ensures Valid()
      ensures ok ==> b.Some? && b.value !in old(live) && live == old(live) + {b.value}
      ensures !ok ==> b.None? && live == old(live)
    {
      if !ok { return None; }
      b := Some(next);
      live := live + {next};
      next := next + 1;
    }

    method Free(b: nat)
      requires Valid() && b in live
      modifies this
      ensures Valid() && live == old(live) - {b}
    {
      live := live - {b};
    }
  }

  datatype Block = Block(id: nat, bytes: string)

  datatype Entry = Entry(timestamp: int, data: Option<Block>, size: nat)

  /** A snapshot that was stored. */
  datatype Item = Item(data: string, timestamp: int)

  /** What a ring stands for: the stored snapshots, oldest first, and whether the
      oldest one's data was freed by a push that then failed. */
  datatype History = History(items: seq<Item>, lost: bool)

  const NO_HISTORY := History([], false)

  function LastOf(items: seq<Item>, n: nat): seq<Item> {
    if |items| <= n then items else items[|items| - n..]
  }

  /** The effect of one push; `ok` says whether its malloc succeeds. */
  function PushOne(h: History, capacity: nat, x: Item, ok: bool): History {
    if ok then History(LastOf(h.items + [x], capacity), false)
    else History(h.items, h.lost || |h.items| == capacity)
  }

  /** The last `n` items, or all where there are fewer, in their order. */
  lemma LastOfIs(items: seq<Item>, n: nat)
    ensures |LastOf(items, n)| == if |items| <= n then |items| else n
    ensures forall k :: 0 <= k < |LastOf(items, n)| ==>
              LastOf(items, n)[k] == items[|items| - |LastOf(items, n)| + k]
  {
  }

  datatype Call = Push(x: Item, ok: bool) | Clear

  function Do(h: History, capacity: nat, c: Call): History {
    match c
    case Push(x, ok) => PushOne(h, capacity, x, ok)
    case Clear => NO_HISTORY
  }

  function DoAll(h: History, capacity: nat, calls: seq<Call>): History {
    if calls == [] then h else Do(DoAll(h, capacity, calls[..|calls| - 1]), capacity, calls[|calls| - 1])
  }

  /** The successful pushes since the last clear. */
  function Stored(calls: seq<Call>): seq<Item> {
    if calls == [] then []
    else
      var before := Stored(calls[..|calls| - 1]);
      match calls[|calls| - 1]
      case Push(x, ok) => if ok then before + [x] else before
      case Clear => []
  }

  /** Whether the last push since the last clear failed. */
  predicate FailedLast(calls: seq<Call>) {
    calls != [] && calls[|calls| - 1].Push? && !calls[|calls| - 1].ok
  }

  /** For any mix of successful and failed pushes and clears: the ring holds the
      last `capacity` successful snapshots in order, and the oldest has lost its
      data exactly when the ring is full and the last push failed. */
  lemma {:induction false} RingHoldsLatest(capacity: nat, calls: seq<Call>)
    requires capacity > 0
    ensures DoAll(NO_HISTORY, capacity, calls)
         == History(LastOf(Stored(calls), capacity), FailedLast(calls) && |Stored(calls)| >= capacity)
  {
    if calls != [] {
      var n := |calls| - 1;
      RingHoldsLatest(capacity, calls[..n]);
      var s := Stored(calls[..n]);
      if calls[n].Push? && calls[n].ok && |s| >= capacity {
        assert LastOf(s, capacity) + [calls[n].x] == (s + [calls[n].x])[|s| - capacity..];
        assert LastOf(LastOf(s, capacity) + [calls[n].x], capacity) == LastOf(s + [calls[n].x], capacity);
      }
    }
  }

  /** An entry shows a stored snapshot: NUL-terminated copy, size and time; without
      its data if that was freed. */
  predicate Shows(e: Entry, x: Item, lost: bool) {
    && e.timestamp == x.timestamp && e.size == |x.data|
    && if lost then e.data.None? else e.data.Some? && e.data.value.bytes == x.data + "\0"
  }

  /** The slots in use, oldest first. Until the ring has filled up once since it was
      cleared, it grows from slot 0. */
  function ViewOf(slots: seq<Entry>, head: nat, count: nat): (v: seq<Entry>)
    requires count <= |slots| && head <= |slots|
    ensures |v| == count
  {
    if count < |slots| then slots[..count] else slots[head..] + slots[..head]
  }

  function BlockOf(e: Entry): set<nat> {
    if e.data.Some? then {e.data.value.id} else {}
  }

  /** The blocks held by non-NULL slots. */
  function IdsOf(slots: seq<Entry>): set<nat> {
    if slots == [] then {} else IdsOf(slots[..|slots| - 1]) + BlockOf(slots[|slots| - 1])
  }

  /** No two slots hold the same block. */
  predicate DistinctIds(slots: seq<Entry>) {
    slots == []
    || (DistinctIds(slots[..|slots| - 1]) && IdsOf(slots[..|slots| - 1]) !! BlockOf(slots[|slots| - 1]))
  }

  /** Overwriting a slot trades its block for the new one. */
  lemma {:induction false} OverwriteIds(slots: seq<Entry>, p: nat, e: Entry)
    requires p < |slots| && DistinctIds(slots)
    requires BlockOf(e) !! (IdsOf(slots) - BlockOf(slots[p]))
    ensures BlockOf(slots[p]) <= IdsOf(slots)
    ensures IdsOf(slots[p := e]) == IdsOf(slots) - BlockOf(slots[p]) + BlockOf(e)
    ensures DistinctIds(slots[p := e])
  {
    hide BlockOf;
    var n := |slots| - 1;
    if p == n {
      assert slots[p := e][..n] == slots[..n];
    } else {
      OverwriteIds(slots[..n], p, e);
      assert slots[p := e][..n] == slots[..n][p := e];
    }
  }

  /** Storing at the head drops the oldest entry of a full ring and appends to any
      other. */
  lemma StoreView(slots: seq<Entry>, head: nat, count: nat, e: Entry)
    requires count <= |slots| && head < |slots| && (count < |slots| ==> head == count)
    ensures var after := if count < |slots| then count + 1 else count;
            var next := (head + 1) % |slots|;
            && (after < |slots| ==> next == after)
            && ViewOf(slots[head := e], next, after)
               == (if count == |slots| then ViewOf(slots, head, count)[1..] else ViewOf(slots, head, count)) + [e]
  {
    NextHead(head, |slots|);
    var t := slots[head := e];
    if count < |slots| {
      assert t[..count + 1] == slots[..count] + [e];
      assert t[0..] + t[..0] == t;
    } else if head + 1 == |slots| {
      assert t[0..] + t[..0] == slots[..head] + [e];
      assert slots[head..] + slots[..head] == [slots[head]] + slots[..head];
    } else {
      assert t[head + 1..] == slots[head + 1..] && t[..head + 1] == slots[..head] + [e];
      assert slots[head..] == [slots[head]] + slots[head + 1..];
      Assoc(slots[head + 1..], slots[..head], [e]);
    }
  }

  lemma NextHead(head: nat, n: nat)
    requires head < n
    ensures (head + 1) % n == if head + 1 == n then 0 else head + 1
  {
  }

  /** Freeing the head's data of a full ring hits the oldest entry. */
  lemma ClearView(slots: seq<Entry>, head: nat, count: nat)
    requires count <= |slots| && head < |slots| && (count < |slots| ==> head == count)
    ensures var e := slots[head].(data := None);
            ViewOf(slots[head := e], head, count)
            == if count == |slots| then ViewOf(slots, head, count)[0 := e] else ViewOf(slots, head, count)
  {
  }

  /** The entries show the history. */
  ghost predicate ShowsAll(view: seq<Entry>, h: History) {
    |view| == |h.items| && forall i :: 0 <= i < |view| ==> Shows(view[i], h.items[i], h.lost && i == 0)
  }

  lemma PushShows(view: seq<Entry>, h: History, capacity: nat, e: Entry, x: Item)
    requires capacity > 0 && ShowsAll(view, h) && |view| <= capacity && (h.lost ==> |view| == capacity)
    requires Shows(e, x, false)
    ensures ShowsAll((if |view| == capacity then view[1..] else view) + [e], PushOne(h, capacity, x, true))
  {
  }

  lemma FailShows(view: seq<Entry>, h: History, capacity: nat, e: Entry, x: Item)
    requires capacity > 0 && ShowsAll(view, h) && |view| <= capacity && (h.lost ==> |view| == capacity)
    requires |view| == capacity ==> e == view[0].(data := None)
    ensures ShowsAll(if |view| == capacity then view[0 := e] else view, PushOne(h, capacity, x, false))
    ensures PushOne(h, capacity, x, false).lost ==> |view| == capacity
  {
  }

  lemma PushNotLost(h: History, capacity: nat, x: Item)
    ensures !PushOne(h, capacity, x, true).lost
  {
  }

  lemma HeadIsOldest(slots: seq<Entry>, head: nat)
    requires head < |slots|
    ensures ViewOf(slots, head, |slots|)[0] == slots[head]
  {
  }

  class Ring {
    const entries: array<Entry>
    const capacity: nat
    const heap: Heap
    var head: nat
    var count: nat

    ghost var history: History

    /** The blocks of the ring itself: its struct and its array of entries. */
    const structBlock: nat
    const entriesBlock: nat

    /** The blocks that hold no snapshot: those two and what is not the ring's. */
    ghost const others: set<nat>

    ghost predicate Shape()
      reads this
    {
      && capacity > 0 && entries.Length == capacity && head < capacity && count <= capacity
      && (count < capacity ==> head == count)
      && structBlock in others && entriesBlock in others && structBlock != entriesBlock
    }

    ghost function View(): (v: seq<Entry>)
      requires Shape()
      reads this, entries
      ensures |v| == count
    {
      ViewOf(entries[..], head, count)
    }

    /** Live blocks are the others and those of the non-NULL slots, one per slot. */
    ghost predicate Valid()
      reads this, entries, heap
    {
      && Shape() && heap.Valid()
      && ShowsAll(View(), history) && (history.lost ==> count == capacity)
      && (forall p :: count <= p < capacity ==> entries[p].data.None?)
      && DistinctIds(entries[..])
      && heap.live == others + IdsOf(entries[..]) && others !! IdsOf(entries[..])
    }

    lemma HoldsHistory()
      requires Valid()
      ensures |View()| == |history.items|
    {
    }

    constructor (n: nat, h: Heap, structId: nat, entriesId: nat)
      requires n > 0 && h.Valid() && structId in h.live && entriesId in h.live && structId != entriesId
      ensures Valid() && history == NO_HISTORY && capacity == n
      ensures heap == h && others == h.live && fresh(entries)
      ensures structBlock == structId && entriesBlock == entriesId
    {
      entries := new Entry[n](_ => Entry(0, None, 0));
      capacity, heap := n, h;
      structBlock, entriesBlock := structId, entriesId;
      head, count, history := 0, 0, NO_HISTORY;
      others := h.live;
      new;
      NoBlocks(entries[..]);
    }

    /** ringbuf_create: either allocation may fail, and then nothing stays allocated. */
    static method Create(n: nat, h: Heap, structOk: bool, entriesOk: bool) returns (ring: Ring?)
      requires n > 0 && h.Valid()
      modifies h
      ensures h.Valid() && (ring != null <==> structOk && entriesOk)
      ensures ring == null ==> h.live == old(h.live)
      ensures ring != null ==>
                && fresh(ring) && fresh(ring.entries) && ring.Valid() && ring.heap == h
                && ring.capacity == n && ring.history == NO_HISTORY
                && ring.structBlock !in old(h.live) && ring.entriesBlock !in old(h.live)
                && h.live == old(h.live) + {ring.structBlock, ring.entriesBlock} == ring.others
    {
      var rb := h.Malloc(structOk);
      if rb.None? { return null; }
      var slots := h.Malloc(entriesOk);
      if slots.None? {
        h.Free(rb.value);
        return null;
      }
      ring := new Ring(n, h, rb.value, slots.value);
    }

    /** Between the free and the assignment in a push: as Valid, but the head slot's
        block is no longer live and the blocks `extra` are. */
    ghost predicate Released(extra: set<nat>)
      reads this, entries, heap
    {
      && Shape() && heap.Valid()
      && ShowsAll(View(), history) && (history.lost ==> count == capacity)
      && (forall p :: count <= p < capacity ==> entries[p].data.None?)
      && DistinctIds(entries[..]) && others !! IdsOf(entries[..])
      && heap.live == others + (IdsOf(entries[..]) - BlockOf(entries[head])) + extra
      && extra !! others + (IdsOf(entries[..]) - BlockOf(entries[head]))
    }

    /** Free the entry about to be overwritten. */
    method FreeHead()
      requires Valid()
      modifies heap
      ensures Released({})
    {
      hide DistinctIds;
      hide ShowsAll;
      OverwriteIds(entries[..], head, entries[head].(data := None));
      if entries[head].data.Some? {
        heap.Free(entries[head].data.value.id);
      }
    }

    /** A failed malloc leaves NULL in the head slot. */
    method DropHead(ghost x: Item)
      requires Released({})
      modifies this`history, entries
      ensures Valid() && history == PushOne(old(history), capacity, x, false)
    {
      hide DistinctIds;
      hide ShowsAll;
      hide PushOne;
      ghost var slots := entries[..];
      ghost var e := slots[head].(data := None);
      OverwriteIds(slots, head, e);
      ClearView(slots, head, count);
      HeadIsOldest(slots, head);
      FailShows(View(), history, capacity, e, x);
      entries[head] := entries[head].(data := None);
      assert entries[..] == slots[head := e];
      history := PushOne(history, capacity, x, false);
    }

    /** Fill the head slot and advance. */
    method StoreHead(e: Entry, ghost x: Item)
      requires Released(BlockOf(e)) && Shows(e, x, false)
      modifies this`head, this`count, this`history, entries
      ensures Valid() && history == PushOne(old(history), capacity, x, true)
    {
      hide DistinctIds;
      hide ShowsAll;
      hide PushOne;
      hide ViewOf;
      ghost var slots := entries[..];
      OverwriteIds(slots, head, e);
      StoreView(slots, head, count, e);
      PushShows(View(), history, capacity, e, x);
      PushNotLost(history, capacity, x);
      entries[head] := e;
      assert entries[..] == slots[head := e];
      head := (head + 1) % capacity;
      if count < capacity {
        count := count + 1;
      }
      history := PushOne(history, capacity, x, true);
    }

    /** ringbuf_push. None is a NULL data pointer; `ok` is the malloc's luck. */
    method PushData(data: Option<string>, now: int, ok: bool) returns (ret: int)
      requires Valid()
      modifies this`head, this`count, this`history, entries, heap
      ensures Valid()
      ensures data.None? ==> ret == -1 && history == old(history)
      ensures data.Some? ==> history == PushOne(old(history), capacity, Item(data.value, now), ok)
                             && ret == if ok then 0 else -1
    {
      hide DistinctIds;
      hide ShowsAll;
      hide IdsOf;
      if data.None? { return -1; }
      FreeHead();
      var b := heap.Malloc(ok);
      if b.None? {
        DropHead(Item(data.value, now));
        return -1;
      }
      StoreHead(Entry(now, Some(Block(b.value, data.value + "\0")), |data.value|), Item(data.value, now));
      ret := 0;
    }

    /** ringbuf_get: 0 is the oldest. */
    method Get(index: int) returns (e: Option<Entry>)
      requires Valid()
      ensures e == if 0 <= index < |history.items| then Some(View()[index]) else None
      ensures e.Some? ==>
                var x := history.items[index];
                && e.value.timestamp == x.timestamp && e.value.size == |x.data|
                && (e.value.data.None? <==> history.lost && index == 0)
                && (e.value.data.Some? ==> e.value.data.value.bytes == x.data + ['\0'])
    {
      if index < 0 || index >= count { return None; }
      var pos := (head as int - count + index + capacity) % capacity;
      Wrap(head as int - count + index, capacity);
      e := Some(entries[pos]);
    }

    /** ringbuf_get_recent: 0 is the newest. */
    method GetRecent(index: int) returns (e: Option<Entry>)
      requires Valid()
      ensures e == if 0 <= index < |history.items| then Some(View()[|history.items| - 1 - index]) else None
      ensures e.Some? ==>
                var x := history.items[|history.items| - 1 - index];
                && e.value.timestamp == x.timestamp && e.value.size == |x.data|
                && (e.value.data.None? <==> history.lost && index == |history.items| - 1)
                && (e.value.data.Some? ==> e.value.data.value.bytes == x.data + ['\0'])
    {
      if index < 0 || index >= count { return None; }
      var pos := (head as int - 1 - index + capacity) % capacity;
      Wrap(head as int - 1 - index, capacity);
      e := Some(entries[pos]);
    }

    /** ringbuf_clear: free what every non-NULL slot holds, once. */
    method ClearAll()
      requires Valid()
      modifies this`head, this`count, this`history, entries, heap
      ensures Valid() && history == NO_HISTORY && heap.live == others
    {
      var i := 0;
      while i < capacity
        invariant 0 <= i <= capacity && Shape() && heap.Valid()
        invariant DistinctIds(entries[..])
        invariant heap.live == others + IdsOf(entries[..]) && others !! IdsOf(entries[..])
        invariant forall p :: 0 <= p < i ==> entries[p].data.None?
      {
        ghost var slots := entries[..];
        OverwriteIds(slots, i, slots[i].(data := None));
        if entries[i].data.Some? {
          heap.Free(entries[i].data.value.id);
          entries[i] := entries[i].(data := None);
        }
        assert entries[..] == slots[i := slots[i].(data := None)];
        i := i + 1;
      }
      head, count, history := 0, 0, NO_HISTORY;
      NoBlocks(entries[..]);
    }

    /** ringbuf_destroy: every block of the ring is freed, once, and nothing else. */
    method Destroy()
      requires Valid()
      modifies this`head, this`count, this`history, entries, heap
      ensures heap.live == others - {structBlock, entriesBlock}
    {
      ClearAll();
      heap.Free(entriesBlock);
      heap.Free(structBlock);
    }
  }

  lemma {:induction false} NoBlocks(slots: seq<Entry>)
    requires forall p :: 0 <= p < |slots| ==> slots[p].data.None?
    ensures IdsOf(slots) == {} && DistinctIds(slots)
  {
    if slots != [] {
      NoBlocks(slots[..|slots| - 1]);
    }
  }

  lemma Wrap(x: int, capacity: nat)
    requires 0 <= x + capacity && x < capacity
    ensures (x + capacity) % capacity == if x < 0 then x + capacity else x
  {
  }
}
