/** Whole runs of the plugin loader: service lifecycles and shutdown. */
module PluginRuns {
  import opened Sequences
  import opened Text
  import opened ServiceManager
  import opened PluginLoader

  // ----- Lifecycles -----

  datatype Phase = Down | Up | Broken

  /** Where a service stands after a log of callbacks; `Broken` once an init hits a
      running service or a destroy a stopped one. */
  function PhaseOf(log: seq<Life>, svc: Service): Phase {
    if log == [] then Down
    else
      var p := PhaseOf(log[..|log| - 1], svc);
      match log[|log| - 1]
      case Inited(s) => if s != svc then p else if p == Down then Up else Broken
      case Destroyed(s) => if s != svc then p else if p == Up then Down else Broken
  }

  predicate HasLifecycle(svc: Service) {
    svc.hasInit && svc.hasDestroy
  }

  ghost predicate NoRepeats(s: seq<Service>) {
    forall i, j :: 0 <= i < j < |s| ==> s[i] != s[j]
  }

  /** No service is registered twice, and the services running are exactly the
      registered ones. */
  ghost predicate InStep(r: Registry) {
    && NoRepeats(r.services)
    && forall s :: HasLifecycle(s) ==> PhaseOf(r.log, s) == if s in r.services then Up else Down
  }

  lemma PhaseAfter(log: seq<Life>, l: Life, svc: Service)
    ensures PhaseOf(log + [l], svc)
         == if l.svc != svc then PhaseOf(log, svc)
            else if l.Inited? then (if PhaseOf(log, svc) == Down then Up else Broken)
            else if PhaseOf(log, svc) == Up then Down else Broken
  {
    assert (log + [l])[..|log|] == log;
  }

  lemma RegisterKeepsStep(r: Registry, svc: Service, initOk: bool)
    requires InStep(r) && svc !in r.services
    ensures InStep(Register(r, svc, initOk).0)
  {
    var (v, ok) := Register(r, svc, initOk);
    if ok {
      forall s | HasLifecycle(s)
        ensures PhaseOf(v.log, s) == if s in v.services then Up else Down
      {
        if svc.hasInit {
          PhaseAfter(r.log, Inited(svc), s);
        } else {
          assert v.log == r.log;
        }
      }
    }
  }

  lemma RemoveAtMembers(s: seq<Service>, i: nat)
    requires i < |s| && NoRepeats(s)
    ensures NoRepeats(RemoveAt(s, i))
    ensures forall x :: x in RemoveAt(s, i) <==> x in s && x != s[i]
  {
    var t := RemoveAt(s, i);
    forall x
      ensures x in t <==> x in s && x != s[i]
    {
      if x in s && x != s[i] {
        var k :| 0 <= k < |s| && s[k] == x;
        assert t[if k < i then k else k - 1] == x;
      }
    }
  }

  lemma UnregisterKeepsStep(r: Registry, svc: Service)
    requires InStep(r)
    ensures InStep(Unregister(r, svc))
  {
    var i := IndexOf(r.services, svc);
    if i >= 0 {
      var v := Unregister(r, svc);
      RemoveAtMembers(r.services, i);
      forall s | HasLifecycle(s)
        ensures PhaseOf(v.log, s) == if s in v.services then Up else Down
      {
        if svc.hasDestroy {
          PhaseAfter(r.log, Destroyed(svc), s);
        } else {
          assert v.log == r.log;
        }
      }
    }
  }

  lemma LaterMembers(s: seq<Service>, k: nat)
    requires NoRepeats(s) && k < |s|
    ensures s[k] !in s[k + 1..]
    ensures forall x :: x in s[k..] <==> x == s[k] || x in s[k + 1..]
  {
    assert s[k..] == [s[k]] + s[k + 1..];
  }

  lemma EndPhase(log: seq<Life>, last: Service, svc: Service)
    requires HasLifecycle(svc)
    ensures PhaseOf(log + EndOf(last), svc)
         == if last != svc then PhaseOf(log, svc) else if PhaseOf(log, svc) == Up then Down else Broken
  {
    if last.hasDestroy {
      PhaseAfter(log, Destroyed(last), svc);
    } else {
      assert log + [] == log;
    }
  }

  lemma {:induction false} EndsStop(r: Registry, n: nat, svc: Service)
    requires InStep(r) && HasLifecycle(svc) && n <= |r.services|
    ensures PhaseOf(r.log + EndsOf(r.services[..n]), svc) == if svc in r.services[n..] then Up else Down
  {
    hide PhaseOf;
    if n == 0 {
      assert r.log + EndsOf(r.services[..0]) == r.log && r.services[0..] == r.services;
    } else {
      EndsStop(r, n - 1, svc);
      assert r.services[..n][..n - 1] == r.services[..n - 1];
      LaterMembers(r.services, n - 1);
      Assoc(r.log, EndsOf(r.services[..n - 1]), EndOf(r.services[n - 1]));
      EndPhase(r.log + EndsOf(r.services[..n - 1]), r.services[n - 1], svc);
    }
  }

  /** After the manager's shutdown no service runs: every successful init has been
      matched by exactly one destroy. */
  lemma ShutdownStopsAll(r: Registry, svc: Service)
    requires InStep(r) && HasLifecycle(svc)
    ensures PhaseOf(Shutdown(r).log, svc) == Down
  {
    EndsStop(r, |r.services|, svc);
    assert r.services[..|r.services|] == r.services;
  }

  // ----- Distinct paths give distinct service objects -----

  predicate Owned(path: string, lib: Library, owner: Service -> string) {
    lib.Opened? && lib.info.Some? ==> owner(lib.info.value.service) == path
  }

  predicate OwnedEvent(dir: string, ev: FileEvent, owner: Service -> string) {
    ev.Written? ==> Owned(dir + "/" + ev.file, ev.lib, owner)
  }

  predicate OwnedAction(a: Action, owner: Service -> string) {
    match a
    case LoadCall(path, lib, _) => Owned(path, lib, owner)
    case ReloadCall(path, lib, _) => Owned(path, lib, owner)
    case UpdatesCall(dir, events) => forall i :: 0 <= i < |events| ==> OwnedEvent(dir, events[i], owner)
    case UnloadCall(_) => true
  }

  ghost predicate Orderly(w: World, owner: Service -> string) {
    && Agree(w) && InStep(w.registry)
    && forall i :: 0 <= i < |w.slots| && w.slots[i].loaded ==> owner(w.slots[i].service) == w.slots[i].path
  }

  lemma PathIndexIs(slots: seq<Slot>, i: nat)
    requires DistinctPaths(slots) && i < |slots|
    ensures PathIndex(slots, slots[i].path) == i
  {
  }

  lemma LoadKeepsOrder(w: World, path: string, lib: Library, initOk: bool, owner: Service -> string)
    requires Orderly(w, owner) && |path| <= PATH_MAX && Owned(path, lib, owner)
    ensures Orderly(Load(w, path, lib, initOk).0, owner)
  {
    hide Load;
    hide Register;
    hide LoadedServices;
    LoadKeepsAgreement(w, path, lib, initOk);
    LoadEffect(w, path, lib, initOk);
    if Load(w, path, lib, initOk).0 != w {
      var svc := lib.info.value.service;
      if svc in w.registry.services {
        assert svc in multiset(w.registry.services);
        var k := LoadedServiceHasSlot(w.slots, svc);
        PathIndexIs(w.slots, k);
        assert false;
      }
      RegisterKeepsStep(w.registry, svc, initOk);
    }
  }

  lemma UnloadKeepsOrder(w: World, name: string, owner: Service -> string)
    requires Orderly(w, owner)
    ensures Orderly(Unload(w, name).0, owner)
  {
    hide Unload;
    hide Unregister;
    hide LoadedServices;
    hide LoadedHandles;
    UnloadKeepsAgreement(w, name);
    UnloadEffect(w, name);
    var i := NameIndex(w.slots, name);
    if i >= 0 && w.slots[i].loaded {
      UnregisterKeepsStep(w.registry, w.slots[i].service);
    }
  }

  lemma UnloadPathKeepsOrder(w: World, path: string, owner: Service -> string)
    requires Orderly(w, owner)
    ensures Orderly(UnloadPath(w, path), owner)
  {
    var e := PathIndex(w.slots, path);
    if e >= 0 && w.slots[e].loaded {
      UnloadKeepsOrder(w, w.slots[e].name, owner);
    }
  }

  lemma {:induction false} UpdatesKeepOrder(w: World, dir: string, events: seq<FileEvent>, owner: Service -> string)
    requires Orderly(w, owner)
    requires forall i :: 0 <= i < |events| ==> |dir| + 1 + |events[i].file| <= PATH_MAX
    requires forall i :: 0 <= i < |events| ==> OwnedEvent(dir, events[i], owner)
    ensures Orderly(Updates(w, dir, events), owner)
  {
    if events != [] {
      var n := |events| - 1;
      UpdatesKeepOrder(w, dir, events[..n], owner);
      var v := Updates(w, dir, events[..n]);
      var path := dir + "/" + events[n].file;
      UnloadPathKeepsOrder(v, path, owner);
      if events[n].Written? {
        LoadKeepsOrder(UnloadPath(v, path), path, events[n].lib, events[n].initOk, owner);
      }
    }
  }

  lemma ActKeepsOrder(w: World, a: Action, owner: Service -> string)
    requires Orderly(w, owner) && ShortPaths(a) && OwnedAction(a, owner)
    ensures Orderly(Act(w, a), owner)
  {
    match a {
      case LoadCall(path, lib, initOk) => LoadKeepsOrder(w, path, lib, initOk, owner);
      case UnloadCall(name) => UnloadKeepsOrder(w, name, owner);
      case ReloadCall(path, lib, initOk) =>
        UnloadPathKeepsOrder(w, path, owner);
        LoadKeepsOrder(UnloadPath(w, path), path, lib, initOk, owner);
      case UpdatesCall(dir, events) => UpdatesKeepOrder(w, dir, events, owner);
    }
  }

  /** Along every run init and destroy of a service alternate, and it is up exactly
      while it is registered. */
  lemma {:induction false} RunKeepsOrder(w: World, actions: seq<Action>, owner: Service -> string)
    requires Orderly(w, owner)
    requires forall i :: 0 <= i < |actions| ==> ShortPaths(actions[i]) && OwnedAction(actions[i], owner)
    ensures Orderly(Run(w, actions), owner)
  {
    if actions != [] {
      RunKeepsOrder(w, actions[..|actions| - 1], owner);
      ActKeepsOrder(Run(w, actions[..|actions| - 1]), actions[|actions| - 1], owner);
    }
  }

  lemma {:induction false} CloseSlotsKeepsOrder(w: World, n: nat, owner: Service -> string)
    requires Orderly(w, owner) && n <= |w.slots|
    ensures Orderly(CloseSlots(w, n), owner)
  {
    if n > 0 {
      CloseSlotsKeepsOrder(w, n - 1, owner);
      var v := CloseSlots(w, n - 1);
      if n <= |v.slots| && v.slots[n - 1].loaded {
        UnloadKeepsOrder(v, v.slots[n - 1].name, owner);
      }
    }
  }

  /** From start to shutdown: whatever was loaded, unloaded, reloaded or written on
      the way, every successful init of a service is matched by exactly one destroy,
      also when two loaded plugins share a name. */
  lemma EveryInitIsDestroyed(actions: seq<Action>, owner: Service -> string, svc: Service)
    requires forall i :: 0 <= i < |actions| ==> ShortPaths(actions[i]) && OwnedAction(actions[i], owner)
    requires HasLifecycle(svc)
    ensures var w := DaemonShutdown(Run(EMPTY, actions));
            w.registry.services == [] && PhaseOf(w.registry.log, svc) == Down
  {
    assert Orderly(EMPTY, owner);
    RunKeepsOrder(EMPTY, actions, owner);
    var w := Run(EMPTY, actions);
    CloseSlotsKeepsOrder(w, |w.slots|, owner);
    ShutdownStopsAll(CloseSlots(w, |w.slots|).registry, svc);
  }

  // ----- What the loader's shutdown closes -----

  lemma {:induction false} NameIndexSame(a: seq<Slot>, b: seq<Slot>, name: string)
    requires |a| == |b| && forall i :: 0 <= i < |a| ==> a[i].name == b[i].name
    ensures NameIndex(a, name) == NameIndex(b, name)
  {
    var i, j := NameIndex(a, name), NameIndex(b, name);
    assert i >= 0 ==> b[i].name == name;
    assert j >= 0 ==> a[j].name == name;
  }

  /** A loaded slot that the unload loop reaches by its name. */
  predicate Reached(w: World, i: nat)
    requires i < |w.slots|
  {
    NameIndex(w.slots, w.slots[i].name) == i
  }

  /** `v` is `w` with the first `n` slots closed where they are reached. */
  ghost predicate ClosedUpTo(w: World, v: World, n: nat) {
    && |v.slots| == |w.slots|
    && (forall i :: 0 <= i < |w.slots| ==> v.slots[i].name == w.slots[i].name)
    && (forall i :: 0 <= i < |w.slots| ==>
          (v.slots[i].loaded <==> w.slots[i].loaded && (i >= n || !Reached(w, i))))
  }

  lemma CloseStep(w: World, v: World, n: nat)
    requires n < |w.slots| && ClosedUpTo(w, v, n)
    ensures ClosedUpTo(w, if v.slots[n].loaded then Unload(v, v.slots[n].name).0 else v, n + 1)
  {
    hide Unload;
    hide NameIndex;
    var name := v.slots[n].name;
    NameIndexSame(v.slots, w.slots, name);
    UnloadEffect(v, name);
    var f := NameIndex(w.slots, name);
    NameIndexFirst(w.slots, n);
    if f < n {
      assert w.slots[f].name == name && Reached(w, f);
    }
  }

  lemma NothingClosed(w: World)
    ensures ClosedUpTo(w, w, 0)
  {
  }

  lemma CloseSlotsLength(w: World, v: World, n: nat)
    requires ClosedUpTo(w, v, n)
    ensures |v.slots| == |w.slots|
  {
  }

  lemma NameIndexFirst(slots: seq<Slot>, n: nat)
    requires n < |slots|
    ensures 0 <= NameIndex(slots, slots[n].name) <= n
    ensures slots[NameIndex(slots, slots[n].name)].name == slots[n].name
  {
  }

  /** The unload loop works by name, so it closes exactly the loaded slots that are
      the first of their name; a later one of the same name stays open. */
  lemma {:induction false} CloseSlotsCloses(w: World, n: nat)
    requires n <= |w.slots|
    ensures ClosedUpTo(w, CloseSlots(w, n), n)
  {
    hide Unload;
    hide ClosedUpTo;
    if n == 0 {
      assert ClosedUpTo(w, w, 0) by { NothingClosed(w); }
    } else {
      CloseSlotsCloses(w, n - 1);
      CloseSlotsLength(w, CloseSlots(w, n - 1), n - 1);
      CloseStep(w, CloseSlots(w, n - 1), n - 1);
    }
  }

  /** The loader's shutdown leaves no library open if and only if every loaded slot
      is the first of its name. */
  lemma ShutdownClosesAllIff(w: World, owner: Service -> string)
    requires Orderly(w, owner)
    ensures CloseSlots(w, |w.slots|).open == multiset{}
            <==> forall i :: 0 <= i < |w.slots| && w.slots[i].loaded ==> Reached(w, i)
  {
    CloseSlotsCloses(w, |w.slots|);
    var v := CloseSlots(w, |w.slots|);
    CloseSlotsKeepsOrder(w, |w.slots|, owner);
    if i: nat :| i < |v.slots| && v.slots[i].loaded {
      UpdateHandles(v.slots, i, v.slots[i]);
      assert v.slots[i].handle.value in HandleOf(v.slots[i]);
      assert v.slots[i].handle.value in v.open;
      assert !Reached(w, i);
    } else {
      NothingLoaded(v.slots);
    }
  }

  lemma {:induction false} NothingLoaded(slots: seq<Slot>)
    requires forall i :: 0 <= i < |slots| ==> !slots[i].loaded
    ensures LoadedHandles(slots) == multiset{}
  {
    if slots != [] {
      NothingLoaded(slots[..|slots| - 1]);
    }
  }
}
