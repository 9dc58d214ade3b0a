/** The service registry (service_manager.c): an array of at most 16 services, the
    lifecycle callbacks it makes, and the snapshot it composes. */
module ServiceManager {
  import opened Sequences
  import opened Text
  import opened JsonTree
  import opened JsonFormat
  import opened JsonWriter
  import opened JsonBuffer

  const MAX_SERVICES: nat := 16

  /** A service object: its address and the callbacks its ops table has. */
  datatype Service = Service(id: nat, name: string, hasInit: bool, hasDestroy: bool,
                             hasSnapshot: bool, enabled: bool)

  /** A successful init or a destroy of a service. */
  datatype Life = Inited(svc: Service) | Destroyed(svc: Service)

  /** The registered services in order, and all the callbacks made so far. */
  datatype Registry = Registry(services: seq<Service>, log: seq<Life>)

  /** svc_manager_register; `initOk` is what the service's init reports. */
  function Register(r: Registry, svc: Service, initOk: bool): (Registry, bool) {
    if |r.services| >= MAX_SERVICES || (svc.hasInit && !initOk) then (r, false)
    else (Registry(r.services + [svc], r.log + if svc.hasInit then [Inited(svc)] else []), true)
  }

  function IndexOf(s: seq<Service>, svc: Service): (i: int)
    ensures -1 <= i < |s|
    ensures i >= 0 ==> s[i] == svc && svc !in s[..i]
    ensures i < 0 ==> svc !in s
  {
    if s == [] then -1
    else if s[0] == svc then 0
    else
      var k := IndexOf(s[1..], svc);
      if k < 0 then -1 else (assert s[..k + 1] == [s[0]] + s[1..][..k]; k + 1)
  }

  function RemoveAt(s: seq<Service>, i: nat): seq<Service>
    requires i < |s|
  {
    s[..i] + s[i + 1..]
  }

  function EndOf(svc: Service): seq<Life> {
    if svc.hasDestroy then [Destroyed(svc)] else []
  }

  /** svc_manager_unregister. */
  function Unregister(r: Registry, svc: Service): Registry {
    var i := IndexOf(r.services, svc);
    if i < 0 then r else Registry(RemoveAt(r.services, i), r.log + EndOf(svc))
  }

  function EndsOf(services: seq<Service>): seq<Life> {
    if services == [] then [] else EndsOf(services[..|services| - 1]) + EndOf(services[|services| - 1])
  }

  /** svc_manager_shutdown. */
  function Shutdown(r: Registry): Registry {
    Registry([], r.log + EndsOf(r.services))
  }

  /** A registration is refused exactly by a full registry or a failing init, and then
      leaves no trace. */
  lemma RegisterIs(r: Registry, svc: Service, initOk: bool)
    ensures Register(r, svc, initOk).1 <==> |r.services| < 16 && (svc.hasInit ==> initOk)
    ensures Register(r, svc, initOk)
         == if |r.services| >= 16 || (svc.hasInit && !initOk) then (r, false)
            else if svc.hasInit then (Registry(r.services + [svc], r.log + [Inited(svc)]), true)
            else (Registry(r.services + [svc], r.log), true)
  {
    assert r.log + [] == r.log;
  }

  /** An unregistration takes out the first occurrence and destroys that service. */
  lemma UnregisterIs(r: Registry, before: seq<Service>, svc: Service, behind: seq<Service>)
    requires svc !in before
    ensures r.services == before + [svc] + behind ==>
              && Unregister(r, svc).services == before + behind
              && Unregister(r, svc).log == if svc.hasDestroy then r.log + [Destroyed(svc)] else r.log
    ensures r.services == before ==> Unregister(r, svc) == r
  {
    if r.services == before + [svc] + behind {
      assert r.services[|before|] == svc;
      assert r.services[..|before|] == before;
      assert IndexOf(r.services, svc) == |before| by { FirstIndex(r.services, svc, |before|); }
      assert r.services[|before| + 1..] == behind;
      assert r.log + [] == r.log;
    }
  }

  /** `ends` are exactly the destroys of the services that have the callback, in order;
      `at` says where these stand. */
  ghost predicate Ends(services: seq<Service>, ends: seq<Life>, at: seq<nat>) {
    && |at| == |ends|
    && (forall k :: 0 <= k < |at| ==> at[k] < |services| && ends[k] == Destroyed(services[at[k]]))
    && (forall k, l :: 0 <= k < l < |at| ==> at[k] < at[l])
    && (forall i :: 0 <= i < |services| ==> (services[i].hasDestroy <==> i in at))
  }

  lemma EndsMore(services: seq<Service>, ends: seq<Life>, at: seq<nat>, svc: Service)
    requires Ends(services, ends, at)
    ensures !svc.hasDestroy ==> Ends(services + [svc], ends, at)
    ensures svc.hasDestroy ==> Ends(services + [svc], ends + [Destroyed(svc)], at + [|services|])
  {
    assert forall i :: 0 <= i < |services| ==> (services + [svc])[i] == services[i];
    assert |services| !in at;
    assert forall i: nat :: i in at + [|services|] <==> i in at || i == |services|;
  }

  lemma EndsNothing()
    ensures Ends([], [], [])
  {
  }

  /** Shutdown destroys the services that have the callback, each once and in order. */
  lemma {:induction false} EndsAre(services: seq<Service>) returns (at: seq<nat>)
    ensures Ends(services, EndsOf(services), at)
  {
    hide Ends;
    if services == [] {
      at := [];
      EndsNothing();
    } else {
      var n := |services| - 1;
      var before := EndsAre(services[..n]);
      EndsMore(services[..n], EndsOf(services[..n]), before, services[n]);
      assert services[..n] + [services[n]] == services;
      assert EndsOf(services[..n]) + [] == EndsOf(services[..n]);
      at := if services[n].hasDestroy then before + [n] else before;
    }
  }

  // ----- Order over runs -----

  datatype Call = Registering(svc: Service, initOk: bool) | Unregistering(svc: Service)

  function Serve(r: Registry, c: Call): Registry {
    match c
    case Registering(svc, initOk) => Register(r, svc, initOk).0
    case Unregistering(svc) => Unregister(r, svc)
  }

  function ServeAll(calls: seq<Call>): Registry {
    if calls == [] then Registry([], []) else Serve(ServeAll(calls[..|calls| - 1]), calls[|calls| - 1])
  }

  /** The successful registrations of a run, in order. */
  function Registered(calls: seq<Call>): seq<Service> {
    if calls == [] then []
    else
      var last, r := calls[|calls| - 1], ServeAll(calls[..|calls| - 1]);
      Registered(calls[..|calls| - 1])
      + if last.Registering? && Register(r, last.svc, last.initOk).1 then [last.svc] else []
  }

  /** The unregistrations that found their service, in order. */
  function Removed(calls: seq<Call>): seq<Service> {
    if calls == [] then []
    else
      var last, r := calls[|calls| - 1], ServeAll(calls[..|calls| - 1]);
      Removed(calls[..|calls| - 1])
      + if last.Unregistering? && last.svc in r.services then [last.svc] else []
  }

  /** `s` is `all` without some of its elements; `at` says where the others are. */
  ghost predicate Within(s: seq<Service>, all: seq<Service>, at: seq<nat>) {
    && |at| == |s|
    && (forall i :: 0 <= i < |s| ==> at[i] < |all| && all[at[i]] == s[i])
    && (forall i, j :: 0 <= i < j < |s| ==> at[i] < at[j])
  }

  lemma WithinRemove(s: seq<Service>, all: seq<Service>, at: seq<nat>, i: nat)
    requires Within(s, all, at) && i < |s|
    ensures Within(RemoveAt(s, i), all, at[..i] + at[i + 1..])
  {
  }

  lemma WithinAppend(s: seq<Service>, all: seq<Service>, at: seq<nat>, svc: Service)
    requires Within(s, all, at)
    ensures Within(s + [svc], all + [svc], at + [|all|])
  {
  }

  /** After any mix of registrations and unregistrations the registered services stand
      in the order of their registration. */
  lemma {:induction false} OrderSurvives(calls: seq<Call>) returns (at: seq<nat>)
    ensures Within(ServeAll(calls).services, Registered(calls), at)
  {
    hide Within;
    hide RemoveAt;
    if calls == [] {
      at := [];
      assert Within([], [], []) by { NoneWithin(); }
    } else {
      var n := |calls| - 1;
      at := OrderSurvives(calls[..n]);
      var r, last, all := ServeAll(calls[..n]), calls[n], Registered(calls[..n]);
      assert all + [] == all;
      if last.Registering? {
        if Register(r, last.svc, last.initOk).1 {
          WithinAppend(r.services, all, at, last.svc);
          at := at + [|all|];
        }
      } else {
        var i := IndexOf(r.services, last.svc);
        if i >= 0 {
          WithinSize(r.services, all, at);
          WithinRemove(r.services, all, at, i);
          at := at[..i] + at[i + 1..];
        }
      }
    }
  }

  lemma NoneWithin()
    ensures Within([], [], [])
  {
  }

  lemma WithinSize(s: seq<Service>, all: seq<Service>, at: seq<nat>)
    requires Within(s, all, at)
    ensures |at| == |s|
  {
  }

  lemma RemoveAtIs(s: seq<Service>, t: seq<Service>, i: nat)
    requires i < |s| && |t| == |s| - 1
    requires forall k :: 0 <= k < i ==> t[k] == s[k]
    requires forall k :: i <= k < |t| ==> t[k] == s[k + 1]
    ensures t == RemoveAt(s, i)
  {
  }

  lemma RemoveAtCount(s: seq<Service>, i: nat)
    requires i < |s|
    ensures multiset(s) == multiset(RemoveAt(s, i)) + multiset([s[i]])
  {
    assert s == s[..i] + [s[i]] + s[i + 1..];
  }

  /** And they are the registrations that have not been removed again. */
  lemma {:induction false} RegisteredAreKeptOrRemoved(calls: seq<Call>)
    ensures multiset(Registered(calls)) == multiset(ServeAll(calls).services) + multiset(Removed(calls))
  {
    if calls != [] {
      var n := |calls| - 1;
      RegisteredAreKeptOrRemoved(calls[..n]);
      var r, last := ServeAll(calls[..n]), calls[n];
      if last.Unregistering? && IndexOf(r.services, last.svc) >= 0 {
        RemoveAtCount(r.services, IndexOf(r.services, last.svc));
      }
    }
  }

  // ----- The composed snapshot -----

  /** What one service contributes; `render` is what its snapshot callback writes. */
  function ServiceCalls(svc: Service, render: Service -> seq<Op>): seq<Op> {
    if !svc.enabled then []
    else [Key(svc.name)] + if svc.hasSnapshot then render(svc) else [PutNull]
  }

  function ServicesCalls(services: seq<Service>, render: Service -> seq<Op>): seq<Op> {
    if services == [] then []
    else ServicesCalls(services[..|services| - 1], render) + ServiceCalls(services[|services| - 1], render)
  }

  /** The builder calls of svc_manager_snapshot_all. */
  function SnapshotCalls(services: seq<Service>, clock: int, render: Service -> seq<Op>): seq<Op> {
    [ObjectStart, Key("timestamp"), PutInt(clock), Key("services"), ObjectStart]
    + ServicesCalls(services, render) + [ObjectEnd, ObjectEnd]
  }

  /** The calls write exactly the value `v`, wherever a value may stand. */
  ghost predicate Emits(ops: seq<Op>, v: Json) {
    forall d: Document :: d.TakesValue() ==> Legal(d, ops) && Build(d, ops) == d.AddValue(v)
  }

  /** The members of the `services` object: the enabled services in registration
      order, null for those without a callback. */
  function ServiceMembers(services: seq<Service>, values: Service -> Json): seq<Member> {
    if services == [] then []
    else
      var svc := services[|services| - 1];
      ServiceMembers(services[..|services| - 1], values)
      + if svc.enabled then [Member(svc.name, if svc.hasSnapshot then values(svc) else Null)] else []
  }

  /** `members` are exactly those of the enabled services, in registration order; `at`
      says where these stand. */
  ghost predicate Lists(services: seq<Service>, members: seq<Member>, at: seq<nat>, values: Service -> Json) {
    && |at| == |members|
    && (forall k :: 0 <= k < |at| ==>
          && at[k] < |services|
          && var svc := services[at[k]];
             members[k] == Member(svc.name, if svc.hasSnapshot then values(svc) else Null))
    && (forall k, l :: 0 <= k < l < |at| ==> at[k] < at[l])
    && (forall i :: 0 <= i < |services| ==> (services[i].enabled <==> i in at))
  }

  lemma ListsMore(services: seq<Service>, members: seq<Member>, at: seq<nat>, values: Service -> Json, svc: Service)
    requires Lists(services, members, at, values)
    ensures !svc.enabled ==> Lists(services + [svc], members, at, values)
    ensures svc.enabled ==>
              var m := Member(svc.name, if svc.hasSnapshot then values(svc) else Null);
              Lists(services + [svc], members + [m], at + [|services|], values)
  {
    assert forall i :: 0 <= i < |services| ==> (services + [svc])[i] == services[i];
    assert |services| !in at;
    assert forall i: nat :: i in at + [|services|] <==> i in at || i == |services|;
  }

  lemma ListsNothing(values: Service -> Json)
    ensures Lists([], [], [], values)
  {
  }

  lemma {:induction false} MembersAre(services: seq<Service>, values: Service -> Json) returns (at: seq<nat>)
    ensures Lists(services, ServiceMembers(services, values), at, values)
  {
    hide Lists;
    if services == [] {
      at := [];
      ListsNothing(values);
    } else {
      var n := |services| - 1;
      var before := MembersAre(services[..n], values);
      ListsMore(services[..n], ServiceMembers(services[..n], values), before, values, services[n]);
      assert services[..n] + [services[n]] == services;
      assert ServiceMembers(services[..n], values) + [] == ServiceMembers(services[..n], values);
      at := if services[n].enabled then before + [n] else before;
    }
  }

  function SnapshotValue(services: seq<Service>, clock: int, values: Service -> Json): Json {
    Obj([Member("timestamp", Int(clock)), Member("services", Obj(ServiceMembers(services, values)))])
  }

  lemma StampKey()
    ensures QuotedKey("timestamp") == "\"timestamp\":"
  {
    hide *;
    PlainKey("timestamp");
  }

  lemma ServicesKey()
    ensures QuotedKey("services") == "\"services\":"
  {
    hide *;
    PlainKey("services");
  }

  /** The text of the snapshot around the services' own. */
  lemma SnapshotText(services: seq<Service>, clock: int, values: Service -> Json)
    ensures JsonText(SnapshotValue(services, clock, values))
         == "{" + "\"timestamp\":" + Signed(clock) + "," + "\"services\":"
            + ("{" + MembersText(ServiceMembers(services, values)) + "}") + "}"
  {
    hide QuotedKey;
    hide MembersText;
    var members := ServiceMembers(services, values);
    TwoMembers(Member("timestamp", Int(clock)), Member("services", Obj(members)));
    StampKey();
    ServicesKey();
    assert JsonText(Int(clock)) == Signed(clock);
    assert JsonText(Obj(members)) == "{" + MembersText(members) + "}";
  }

  lemma TwoMembers(a: Member, b: Member)
    ensures JsonText(Obj([a, b]))
         == "{" + QuotedKey(a.key) + JsonText(a.value) + "," + QuotedKey(b.key) + JsonText(b.value) + "}"
  {
    hide QuotedKey;
    assert [a, b][1..] == [b];
    assert MembersText([b]) == MemberText(b);
    assert MembersText([a, b]) == MemberText(a) + "," + MemberText(b);
  }

  lemma OneServiceAdds(d: Document, svc: Service, render: Service -> seq<Op>, values: Service -> Json)
    requires d.stack != [] && d.Top().TakesKey() && svc.enabled
    requires svc.hasSnapshot ==> Emits(render(svc), values(svc))
    ensures var ops := ServiceCalls(svc, render);
            var v := if svc.hasSnapshot then values(svc) else Null;
            Legal(d, ops) && Build(d, ops) == d.SetTop(ObjFrame(d.Top().members + [Member(svc.name, v)], None))
  {
    var f := d.Top().(key := Some(svc.name));
    var keyed := d.SetTop(f);
    OneCall(d, Key(svc.name));
    var body := if svc.hasSnapshot then render(svc) else [PutNull];
    var v := if svc.hasSnapshot then values(svc) else Null;
    assert keyed.TakesValue();
    if !svc.hasSnapshot {
      OneCall(keyed, PutNull);
    }
    LegalAppend(d, [Key(svc.name)], body);
    SetTopTwice(d, f, f.Add(v));
  }

  lemma {:induction false} ServicesAdd(d: Document, services: seq<Service>, render: Service -> seq<Op>,
                                       values: Service -> Json)
    requires d.stack != [] && d.Top() == ObjFrame([], None)
    requires forall s :: s in services && s.enabled && s.hasSnapshot ==> Emits(render(s), values(s))
    ensures Legal(d, ServicesCalls(services, render))
    ensures Build(d, ServicesCalls(services, render)) == d.SetTop(ObjFrame(ServiceMembers(services, values), None))
  {
    hide Emits;
    if services == [] {
      assert d.SetTop(d.Top()) == d;
    } else {
      var n := |services| - 1;
      var svc := services[n];
      ServicesAdd(d, services[..n], render, values);
      var before := ServicesCalls(services[..n], render);
      var members := ServiceMembers(services[..n], values);
      var e := d.SetTop(ObjFrame(members, None));
      if svc.enabled {
        OneServiceAdds(e, svc, render, values);
        LegalAppend(d, before, ServiceCalls(svc, render));
        SetTopTwice(d, ObjFrame(members, None), ObjFrame(ServiceMembers(services, values), None));
      } else {
        assert before + [] == before && members + [] == members;
      }
    }
  }

  /** If every enabled service's callback emits exactly one value, the snapshot is
      one object with a timestamp and exactly the enabled services, in order. */
  lemma SnapshotIsOneObject(services: seq<Service>, clock: int, render: Service -> seq<Op>, values: Service -> Json)
    requires forall s :: s in services && s.enabled && s.hasSnapshot ==> Emits(render(s), values(s))
    ensures Describes(SnapshotCalls(services, clock, render), SnapshotValue(services, clock, values))
  {
    var head := [ObjectStart, Key("timestamp"), PutInt(clock), Key("services"), ObjectStart];
    var body := ServicesCalls(services, render);
    var tail := [ObjectEnd, ObjectEnd];
    var outer := ObjFrame([Member("timestamp", Int(clock))], Some("services"));
    var d := Document([outer, ObjFrame([], None)], None);
    HeadBuilds(clock);
    ServicesAdd(d, services, render, values);
    var members := ServiceMembers(services, values);
    assert d.SetTop(ObjFrame(members, None)).stack == [outer, ObjFrame(members, None)];
    TailBuilds(clock, members);
    LegalAppend(START, head, body);
    LegalAppend(START, head + body, tail);
  }

  lemma HeadBuilds(clock: int)
    ensures var head := [ObjectStart, Key("timestamp"), PutInt(clock), Key("services"), ObjectStart];
            var outer := ObjFrame([Member("timestamp", Int(clock))], Some("services"));
            Legal(START, head) && Build(START, head) == Document([outer, ObjFrame([], None)], None)
  {
    var started := Document([ObjFrame([], None)], None);
    var stamped := Document([ObjFrame([Member("timestamp", Int(clock))], None)], None);
    OneCall(START, ObjectStart);
    assert START.Apply(ObjectStart).stack == started.stack;
    assert [] + [Member("timestamp", Int(clock))] == [Member("timestamp", Int(clock))];
    var m := Member("timestamp", Int(clock));
    assert !MemberHasReal(m);
    MemberCallsAdd(started, m);
    assert Calls(Int(clock)) == [PutInt(clock)];
    assert started.SetTop(stamped.Top()) == stamped;
    LegalAppend(START, [ObjectStart], [Key("timestamp")] + [PutInt(clock)]);
    var outer := ObjFrame([m], Some("services"));
    OneCall(stamped, Key("services"));
    assert stamped.SetTop(outer).stack == [outer];
    LegalAppend(START, [ObjectStart] + ([Key("timestamp")] + [PutInt(clock)]), [Key("services")]);
    OneCall(Document([outer], None), ObjectStart);
    assert [outer] + [ObjFrame([], None)] == [outer, ObjFrame([], None)];
    LegalAppend(START, [ObjectStart] + ([Key("timestamp")] + [PutInt(clock)]) + [Key("services")], [ObjectStart]);
    assert [ObjectStart] + ([Key("timestamp")] + [PutInt(clock)]) + [Key("services")] + [ObjectStart]
        == [ObjectStart, Key("timestamp"), PutInt(clock), Key("services"), ObjectStart];
  }

  lemma TailBuilds(clock: int, members: seq<Member>)
    ensures var outer := ObjFrame([Member("timestamp", Int(clock))], Some("services"));
            var d := Document([outer, ObjFrame(members, None)], None);
            && Legal(d, [ObjectEnd, ObjectEnd])
            && Build(d, [ObjectEnd, ObjectEnd])
               == Document([], Some(Obj([Member("timestamp", Int(clock)), Member("services", Obj(members))])))
  {
    hide Build;
    hide Legal;
    var stamp := Member("timestamp", Int(clock));
    var outer := ObjFrame([stamp], Some("services"));
    var d := Document([outer, ObjFrame(members, None)], None);
    var last := Member("services", Obj(members));
    OneCall(d, ObjectEnd);
    assert d.Pop().stack == [outer];
    assert [stamp] + [last] == [stamp, last];
    var e := Document([ObjFrame([stamp, last], None)], None);
    assert d.Apply(ObjectEnd).stack == e.stack;
    OneCall(e, ObjectEnd);
    LegalAppend(d, [ObjectEnd], [ObjectEnd]);
    assert [ObjectEnd] + [ObjectEnd] == [ObjectEnd, ObjectEnd];
  }

  // ----- The registry as written -----

  class Manager {
    const slots: array<Service>
    var count: nat

    /** The lifecycle callbacks made so far. */
    ghost var log: seq<Life>

    ghost predicate Valid()
      reads this
    {
      slots.Length == MAX_SERVICES && count <= MAX_SERVICES
    }

    ghost function State(): Registry
      requires Valid()
      reads this, slots
    {
      Registry(slots[..count], log)
    }

    constructor ()
      ensures Valid() && State() == Registry([], []) && fresh(slots)
    {
      slots := new Service[MAX_SERVICES](_ => Service(0, "", false, false, false, false));
      count, log := 0, [];
    }

    /** svc_manager_register. */
    method Add(svc: Service, initOk: bool) returns (ok: bool)
      requires Valid()
      modifies this, slots
      ensures Valid() && (State(), ok) == Register(old(State()), svc, initOk)
    {
      if count >= MAX_SERVICES { return false; }
      if svc.hasInit {
        if !initOk { return false; }
        log := log + [Inited(svc)];
      }
      slots[count] := svc;
      count := count + 1;
      assert slots[..count] == old(slots[..count]) + [svc];
      assert old(log) + [] == old(log);
      ok := true;
    }

    /** The search loop of svc_manager_unregister; count where there is none. */
    method Search(svc: Service) returns (idx: nat)
      requires Valid()
      ensures idx <= count && (idx < count <==> svc in slots[..count])
      ensures idx < count ==> IndexOf(slots[..count], svc) == idx
    {
      idx := 0;
      while idx < count && slots[idx] != svc
        invariant 0 <= idx <= count && svc !in slots[..idx]
      {
        idx := idx + 1;
      }
      if idx < count {
        assert slots[..count][..idx] == slots[..idx] && slots[..count][idx] == svc;
        FirstIndex(slots[..count], svc, idx);
      }
    }

    /** Remove slot `idx` by shifting the later ones down. */
    method ShiftDown(idx: nat)
      requires Valid() && idx < count
      modifies this`count, slots
      ensures Valid() && count == old(count) - 1 && slots[..count] == RemoveAt(old(slots[..count]), idx)
    {
      hide RemoveAt;
      ghost var all := slots[..count];
      var i := idx;
      while i < count - 1
        invariant idx <= i <= count - 1 && count == old(count)
        invariant forall k :: 0 <= k < idx ==> slots[k] == all[k]
        invariant forall k :: idx <= k < i ==> slots[k] == all[k + 1]
        invariant forall k :: i < k < count ==> slots[k] == all[k]
      {
        slots[i] := slots[i + 1];
        i := i + 1;
      }
      count := count - 1;
      RemoveAtIs(all, slots[..count], idx);
    }

    /** svc_manager_unregister: search, destroy, shift. */
    method Remove(svc: Service) returns (found: bool)
      requires Valid()
      modifies this, slots
      ensures Valid() && State() == Unregister(old(State()), svc)
      ensures found <==> svc in old(State()).services
    {
      var idx := Search(svc);
      if idx == count { return false; }
      assert log + [] == log;
      if svc.hasDestroy {
        log := log + [Destroyed(svc)];
      }
      ShiftDown(idx);
      found := true;
    }

    /** svc_manager_shutdown. */
    method Close()
      requires Valid()
      modifies this
      ensures Valid() && State() == Shutdown(old(State()))
    {
      ghost var all := slots[..count];
      assert log + [] == log;
      for i := 0 to count
        invariant count == old(count)
        invariant log == old(log) + EndsOf(all[..i])
      {
        var svc := slots[i];
        assert all[..i + 1] == all[..i] + [svc];
        assert all[..i + 1][..i] == all[..i];
        if svc.hasDestroy {
          log := log + [Destroyed(svc)];
        }
      }
      assert all[..count] == all;
      count := 0;
    }

    /** The loop body of svc_manager_snapshot_all. */
    static method SnapshotOne(json: JsonBuilder, svc: Service, render: Service -> seq<Op>)
      requires json.Valid() && forall k :: 0 <= k < |render(svc)| ==> InRange(render(svc)[k])
      modifies json, json.buf
      ensures json.Valid() && json.State() == Run(old(json.State()), ServiceCalls(svc, render))
    {
      if !svc.enabled { return; }
      ghost var w := json.State();
      json.PutKey(svc.name);
      RunAppend(w, [Key(svc.name)], if svc.hasSnapshot then render(svc) else [PutNull]);
      RunOne(w, Key(svc.name));
      if svc.hasSnapshot {
        json.CallAll(render(svc));
      } else {
        RunOne(json.State(), PutNull);
        json.PutNothing();
      }
    }

    /** svc_manager_snapshot_all over any builder; `render` stands for the snapshot
        callbacks. */
    method SnapshotAll(json: JsonBuilder, clock: int, render: Service -> seq<Op>)
      requires Valid() && json.Valid()
      requires INT64_MIN <= clock <= INT64_MAX
      requires forall s, k :: s in slots[..count] && 0 <= k < |render(s)| ==> InRange(render(s)[k])
      modifies json, json.buf
      ensures json.Valid()
      ensures json.State() == Run(old(json.State()), SnapshotCalls(slots[..count], clock, render))
    {
      hide JsonBuilder.Valid;
      hide ServiceCalls;
      hide Run;
      ghost var start := json.State();
      ghost var all := slots[..count];
      ghost var head := [ObjectStart, Key("timestamp"), PutInt(clock), Key("services"), ObjectStart];
      json.CallAll([ObjectStart, Key("timestamp"), PutInt(clock), Key("services"), ObjectStart]);
      assert head + ServicesCalls(all[..0], render) == head;
      for i := 0 to count
        invariant json.Valid() && slots[..count] == all
        invariant json.State() == Run(start, head + ServicesCalls(all[..i], render))
      {
        assert all[..i + 1][..i] == all[..i] && all[..i + 1][i] == all[i];
        Assoc(head, ServicesCalls(all[..i], render), ServiceCalls(all[i], render));
        RunAppend(start, head + ServicesCalls(all[..i], render), ServiceCalls(all[i], render));
        assert all[i] in all;
        SnapshotOne(json, slots[i], render);
      }
      assert all[..count] == all;
      RunAppend(start, head + ServicesCalls(all, render), [ObjectEnd, ObjectEnd]);
      json.CallAll([ObjectEnd, ObjectEnd]);
    }
  }

  lemma RunOne(w: Writer, op: Op)
    ensures Run(w, [op]) == Step(w, op)
  {
    assert Run(Step(w, op), [op][1..]) == Step(w, op);
  }

  lemma {:induction false} FirstIndex(s: seq<Service>, svc: Service, i: nat)
    requires i < |s| && s[i] == svc && svc !in s[..i]
    ensures IndexOf(s, svc) == i
  {
    if i > 0 {
      assert s[0] == s[..i][0];
      assert s[1..][..i - 1] == s[..i][1..];
      FirstIndex(s[1..], svc, i - 1);
    }
  }
}
