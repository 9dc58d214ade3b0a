/** The history document of the daemon (get_history_callback in daemon.c): the ring's
    newest snapshots, written through the JSON builder. */
module SnapshotHistory {
  import opened Sequences
  import opened Text
  import opened JsonTree
  import opened JsonFormat
  import opened JsonWriter
  import opened JsonBuffer
  import opened RingBuffer

  /** The items for the newest `n` entries: those that still have their data, with
      their position. */
  function HistoryItems(view: seq<Entry>, n: nat): seq<Json>
    requires n <= |view|
  {
    if n == 0 then []
    else
      var e := view[|view| - n];
      HistoryItems(view, n - 1)
      + if e.data.Some?
        then [Obj([Member("timestamp", Int(e.timestamp)), Member("index", Int(n - 1))])] else []
  }

  function HistoryValue(view: seq<Entry>, n: nat): Json
    requires n <= |view|
  {
    Obj([Member("history", Arr(HistoryItems(view, n)))])
  }

  /** Of the newest `n` entries exactly those that still have their data are listed,
      newest first, each with its time and its position from the newest. */
  lemma {:induction false} ItemsAre(view: seq<Entry>, n: nat) returns (at: seq<nat>)
    requires n <= |view|
    ensures |at| == |HistoryItems(view, n)|
    ensures forall k :: 0 <= k < |at| ==>
              && at[k] < n
              && HistoryItems(view, n)[k]
                 == Obj([Member("timestamp", Int(view[|view| - 1 - at[k]].timestamp)), Member("index", Int(at[k]))])
    ensures forall k, l :: 0 <= k < l < |at| ==> at[k] < at[l]
    ensures forall i :: 0 <= i < n ==> (i in at <==> view[|view| - 1 - i].data.Some?)
  {
    at := [];
    if n > 0 {
      at := ItemsAre(view, n - 1);
      if view[|view| - n].data.Some? {
        at := at + [n - 1];
      }
    }
  }

  lemma HistoryKey()
    ensures QuotedKey("history") == "\"history\":"
  {
    hide *;
    PlainKey("history");
  }

  /** The text around them. */
  lemma HistoryText(view: seq<Entry>, n: nat)
    requires n <= |view|
    ensures JsonText(HistoryValue(view, n))
         == "{" + ("\"history\":" + ("[" + ItemsText(HistoryItems(view, n)) + "]")) + "}"
  {
    hide QuotedKey;
    hide HistoryItems;
    var items := HistoryItems(view, n);
    var m := Member("history", Arr(items));
    HistoryKey();
    assert MembersText([m]) == MemberText(m);
    assert JsonText(Arr(items)) == "[" + ItemsText(items) + "]";
  }

  lemma {:induction false} ItemsHaveNoReal(view: seq<Entry>, n: nat)
    requires n <= |view|
    ensures forall i :: 0 <= i < |HistoryItems(view, n)| ==> !HasReal(HistoryItems(view, n)[i])
  {
    if n > 0 {
      EntryCalls(view[|view| - n].timestamp, n - 1);
      ItemsHaveNoReal(view, n - 1);
    }
  }

  lemma {:induction false} ItemCallsAppend(items: seq<Json>, t: Json)
    requires !HasReal(t) && forall i :: 0 <= i < |items| ==> !HasReal(items[i])
    ensures forall i :: 0 <= i < |items + [t]| ==> !HasReal((items + [t])[i])
    ensures ItemCalls(items + [t]) == ItemCalls(items) + Calls(t)
  {
    if items == [] {
      assert items + [t] == [t] && [t][1..] == [];
    } else {
      assert (items + [t])[1..] == items[1..] + [t];
      ItemCallsAppend(items[1..], t);
      Assoc(Calls(items[0]), ItemCalls(items[1..]), Calls(t));
    }
  }

  lemma TwoMemberCalls(a: Member, b: Member)
    requires !MemberHasReal(a) && !MemberHasReal(b)
    ensures !HasReal(Obj([a, b]))
    ensures Calls(Obj([a, b]))
         == [ObjectStart] + ([Key(a.key)] + Calls(a.value) + ([Key(b.key)] + Calls(b.value))) + [ObjectEnd]
  {
    assert [a, b][1..] == [b] && [b][1..] == [];
    assert MemberCalls([b]) == [Key(b.key)] + Calls(b.value) + [];
  }

  lemma EntryCalls(timestamp: int, index: int)
    ensures var t := Obj([Member("timestamp", Int(timestamp)), Member("index", Int(index))]);
            && !HasReal(t)
            && Calls(t) == [ObjectStart, Key("timestamp"), PutInt(timestamp), Key("index"), PutInt(index), ObjectEnd]
  {
    TwoMemberCalls(Member("timestamp", Int(timestamp)), Member("index", Int(index)));
  }

  lemma DocumentCalls(view: seq<Entry>, n: nat)
    requires n <= |view|
    ensures forall i :: 0 <= i < |HistoryItems(view, n)| ==> !HasReal(HistoryItems(view, n)[i])
    ensures !HasReal(HistoryValue(view, n))
    ensures Calls(HistoryValue(view, n))
         == [ObjectStart, Key("history"), ArrayStart] + ItemCalls(HistoryItems(view, n)) + [ArrayEnd, ObjectEnd]
  {
    ItemsHaveNoReal(view, n);
    var items := HistoryItems(view, n);
    var m := Member("history", Arr(items));
    assert !MemberHasReal(m);
    assert [m][1..] == [];
    assert MemberCalls([m]) == [Key("history")] + ([ArrayStart] + ItemCalls(items) + [ArrayEnd]) + [];
  }

  /** The calls made before the closing ones, once `n` entries are done. */
  ghost function CallsSoFar(view: seq<Entry>, n: nat): seq<Op>
    requires n <= |view|
  {
    ItemsHaveNoReal(view, n);
    [ObjectStart, Key("history"), ArrayStart] + ItemCalls(HistoryItems(view, n))
  }

  lemma NextEntryCalls(view: seq<Entry>, n: nat)
    requires n < |view|
    ensures var e := view[|view| - 1 - n];
            CallsSoFar(view, n + 1)
            == CallsSoFar(view, n)
               + if e.data.Some?
                 then [ObjectStart, Key("timestamp"), PutInt(e.timestamp), Key("index"), PutInt(n), ObjectEnd]
                 else []
  {
    var e := view[|view| - 1 - n];
    ItemsHaveNoReal(view, n);
    ItemsHaveNoReal(view, n + 1);
    var items := HistoryItems(view, n);
    if e.data.Some? {
      EntryCalls(e.timestamp, n);
      var t := Obj([Member("timestamp", Int(e.timestamp)), Member("index", Int(n))]);
      ItemCallsAppend(items, t);
      Assoc([ObjectStart, Key("history"), ArrayStart], ItemCalls(items), Calls(t));
    } else {
      assert items + [] == items;
      assert CallsSoFar(view, n) + [] == CallsSoFar(view, n);
    }
  }

  lemma FinishedHistory(view: seq<Entry>, n: nat)
    requires n <= |view|
    ensures Run(BLANK, CallsSoFar(view, n) + [ArrayEnd, ObjectEnd])
         == Writer(JsonText(HistoryValue(view, n)), 0, true)
  {
    DocumentCalls(view, n);
    CallsAddValue(START, HistoryValue(view, n));
    FinishedText(Calls(HistoryValue(view, n)), HistoryValue(view, n));
  }

  /** get_history_callback into a freshly initialised builder. */
  method HistoryDocument(ring: Ring, json: JsonBuilder, count: int)
    requires ring.Valid() && json.Valid() && json.State() == BLANK && |ring.View()| <= INT64_MAX
    requires forall i :: 0 <= i < |ring.View()| ==> INT64_MIN <= ring.View()[i].timestamp <= INT64_MAX
    modifies json, json.buf
    ensures json.Valid()
    ensures var n := if count < 0 then 0 else Min(count, |ring.View()|);
            json.State() == Writer(JsonText(HistoryValue(ring.View(), n)), 0, true)
  {
    hide JsonBuilder.Valid;
    hide Run;
    hide CallsSoFar;
    hide HistoryValue;
    hide ViewOf;
    hide ShowsAll;
    hide DistinctIds;
    hide IdsOf;
    hide HistoryItems;
    hide JsonText;
    hide Step;
    ring.HoldsHistory();
    ghost var view := ring.View();
    var n := ring.count;
    var limit := if count > n then n else count;
    json.CallAll([ObjectStart, Key("history"), ArrayStart]);
    assert [ObjectStart, Key("history"), ArrayStart] == CallsSoFar(view, 0) by { NoCallsYet(view); }
    var i := 0;
    while i < limit
      invariant 0 <= i && (i <= limit || i == 0) && i <= |view|
      invariant json.Valid() && ring.Valid() && ring.View() == view
      invariant json.State() == Run(BLANK, CallsSoFar(view, i))
    {
      NextEntryCalls(view, i);
      var e := ring.GetRecent(i);
      if e.Some? && e.value.data.Some? {
        var ops := [ObjectStart, Key("timestamp"), PutInt(e.value.timestamp), Key("index"), PutInt(i), ObjectEnd];
        RunAppend(BLANK, CallsSoFar(view, i), ops);
        json.CallAll(ops);
      } else {
        assert CallsSoFar(view, i) + [] == CallsSoFar(view, i);
      }
      i := i + 1;
    }
    RunAppend(BLANK, CallsSoFar(view, i), [ArrayEnd, ObjectEnd]);
    json.CallAll([ArrayEnd, ObjectEnd]);
    FinishedHistory(view, i);
  }

  lemma NoCallsYet(view: seq<Entry>)
    ensures CallsSoFar(view, 0) == [ObjectStart, Key("history"), ArrayStart]
  {
  }
}
