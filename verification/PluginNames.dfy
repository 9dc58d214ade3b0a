/** Plugins of one name: unloading goes by name, and names need not be unique. */
module PluginNames {
  import opened Text
  import opened ServiceManager
  import opened PluginLoader
  import opened PluginRuns
  import opened HotReload

  /** Load `a`, delete it, load another file of the same plugin name, put `a` back. */
  function SharedNameRun(name: string, svcA: Service, svcB: Service): seq<Action> {
    [LoadCall("a", Good(1, name, svcA), true), UnloadCall(name),
     LoadCall("b", Good(2, name, svcB), true), LoadCall("a", Good(3, name, svcA), true)]
  }

  lemma LoadOpens(w: World, path: string, lib: Library, initOk: bool)
    requires !IsLoaded(w, path) && |w.slots| < MAX_PLUGINS
    requires lib.Opened? && lib.info.Some? && lib.info.value.api == API_VERSION
    requires var dup := NameIndex(w.slots, lib.info.value.name); dup < 0 || !w.slots[dup].loaded
    requires |w.registry.services| < MAX_SERVICES && (lib.info.value.service.hasInit ==> initOk)
    ensures Load(w, path, lib, initOk).0.open == w.open + multiset{lib.handle}
  {
  }

  lemma AfterFirstLoad(name: string, svc: Service) returns (w: World)
    requires |name| <= NAME_MAX
    ensures w == Run(EMPTY, SharedNameRun(name, svc, svc)[..1])
    ensures w.slots == [Slot("a", name, Some(1), svc, true)]
    ensures w.open == multiset{1} && w.registry.services == [svc]
  {
    var lib := Good(1, name, svc);
    var load := LoadCall("a", lib, true);
    assert SharedNameRun(name, svc, svc)[..1] == [] + [load];
    RunNothing();
    RunStep([], load);
    assert Cut(name, NAME_MAX) == name && Cut("a", PATH_MAX) == "a";
    LoadSucceeds(EMPTY, "a", lib, true);
    LoadOpens(EMPTY, "a", lib, true);
    w := Run(EMPTY, [load]);
    assert [] + [NewSlot("a", lib)] == [NewSlot("a", lib)];
    assert EMPTY.registry.services + [svc] == [svc];
  }

  lemma AfterUnload(w: World, name: string, svc: Service) returns (v: World)
    requires w.slots == [Slot("a", name, Some(1), svc, true)]
    requires w.open == multiset{1} && w.registry.services == [svc]
    ensures v == Act(w, UnloadCall(name))
    ensures v.slots == [Slot("a", name, None, svc, false)]
    ensures v.open == multiset{} && v.registry.services == []
  {
    hide Unregister;
    v := Unload(w, name).0;
    assert w.slots[0].name == name && NameIndex(w.slots, name) == 0;
    UnloadEffect(w, name);
    UnregisterRemoves(w.registry, svc);
  }

  lemma AfterBothLoads(w: World, name: string, svcA: Service, svcB: Service) returns (v: World)
    requires w.slots == [Slot("a", name, None, svcA, false)] && w.open == multiset{} && w.registry.services == []
    requires |name| <= NAME_MAX
    ensures v == Act(Act(w, LoadCall("b", Good(2, name, svcB), true)), LoadCall("a", Good(3, name, svcA), true))
    ensures v.slots == [Slot("a", name, Some(3), svcA, true), Slot("b", name, Some(2), svcB, true)]
    ensures v.open == multiset{2, 3}
  {
    hide Load;
    hide Register;
    var libA, libB := Good(3, name, svcA), Good(2, name, svcB);
    assert Cut(name, NAME_MAX) == name && Cut("a", PATH_MAX) == "a" && Cut("b", PATH_MAX) == "b";
    assert w.slots[0].path == "a" && PathIndex(w.slots, "a") == 0 && PathIndex(w.slots, "b") == -1;
    LoadSucceeds(w, "b", libB, true);
    LoadOpens(w, "b", libB, true);
    var u := Load(w, "b", libB, true).0;
    assert u.slots == [w.slots[0], NewSlot("b", libB)];
    assert u.slots[0].path == "a" && u.slots[0].name == name;
    assert PathIndex(u.slots, "a") == 0 && NameIndex(u.slots, name) == 0;
    LoadSucceeds(u, "a", libA, true);
    LoadOpens(u, "a", libA, true);
    v := Load(u, "a", libA, true).0;
    assert v.slots == [NewSlot("a", libA), NewSlot("b", libB)];
  }

  /** From a fresh start two loaded plugins come to share a name, and the loader's
      shutdown then leaves the second one's library open. */
  lemma NameCanRepeat(name: string, svcA: Service, svcB: Service)
    requires |name| <= NAME_MAX
    ensures var w := Run(EMPTY, SharedNameRun(name, svcA, svcB));
            && |w.slots| == 2 && w.slots[0].loaded && w.slots[1].loaded
            && w.slots[0].name == w.slots[1].name == name
            && w.open == multiset{2, 3} && CloseSlots(w, 2).open == multiset{2}
  {
    hide Run;
    hide Act;
    hide Unload;
    var run := SharedNameRun(name, svcA, svcB);
    var w1 := AfterFirstLoad(name, svcA);
    assert SharedNameRun(name, svcA, svcA)[..1] == run[..1];
    var w2 := AfterUnload(w1, name, svcA);
    var w4 := AfterBothLoads(w2, name, svcA, svcB);
    assert run[..1] + [run[1]] + [run[2]] + [run[3]] == run;
    RunStep(run[..1], run[1]);
    RunStep(run[..1] + [run[1]], run[2]);
    RunStep(run[..1] + [run[1]] + [run[2]], run[3]);
    assert w4 == Run(EMPTY, run);
    SharedNameShutdown(w4, name);
  }

  lemma SharedNameShutdown(w: World, name: string)
    requires |w.slots| == 2 && w.slots[0].name == w.slots[1].name == name
    requires w.slots[0].loaded && w.slots[0].handle == Some(3) && w.slots[1].loaded && w.open == multiset{2, 3}
    ensures CloseSlots(w, 2).open == multiset{2}
  {
    hide Unload;
    hide Unregister;
    assert NameIndex(w.slots, name) == 0;
    UnloadEffect(w, name);
    var v := CloseSlots(w, 1);
    assert CloseSlots(w, 0) == w && v == Unload(w, name).0;
    assert v.slots[0].name == v.slots[1].name == name && NameIndex(v.slots, name) == 0;
    UnloadEffect(v, name);
    assert CloseSlots(w, 2) == Unload(v, name).0 == v;
  }

  // ----- Deletion by name -----

  /** A delete event goes from the path to its slot's name and unloads the first slot
      of that name. It unloads the plugin of the path if and only if that slot is the
      first of its name, and otherwise at most the plugin in that first slot. */
  lemma DeleteUnloadsIff(w: World, path: string)
    requires Agree(w)
    ensures !IsLoaded(UnloadPath(w, path), path)
            <==> !IsLoaded(w, path) || Reached(w, PathIndex(w.slots, path))
    ensures forall q :: IsLoaded(UnloadPath(w, path), q)
                        <==> IsLoaded(w, q) && !(IsLoaded(w, path)
                             && PathIndex(w.slots, q) == NameIndex(w.slots, w.slots[PathIndex(w.slots, path)].name))
  {
    hide Unload;
    hide NameIndex;
    hide PathIndex;
    hide LoadedServices;
    hide LoadedHandles;
    var e := PathIndex(w.slots, path);
    if IsLoaded(w, path) {
      var name := w.slots[e].name;
      var i := NameIndex(w.slots, name);
      NameIndexFirst(w.slots, e);
      UnloadEffect(w, name);
      SamePaths(w.slots, UnloadPath(w, path).slots);
    }
  }

  ghost predicate UniqueNames(w: World) {
    forall i, j :: 0 <= i < j < |w.slots| && w.slots[i].loaded && w.slots[j].loaded
                   ==> w.slots[i].name != w.slots[j].name
  }

  /** What the duplicate check achieves: a name whose first slot is loaded is refused;
      a load that goes through keeps the loaded names unique if and only if no loaded
      slot, wherever it is, already has the name. */
  lemma LoadKeepsNamesUniqueIff(w: World, path: string, lib: Library, initOk: bool)
    requires UniqueNames(w) && lib.Opened? && lib.info.Some? && !IsLoaded(w, path)
    ensures var (v, ret) := Load(w, path, lib, initOk);
            var dup := NameIndex(w.slots, lib.info.value.name);
            && (dup >= 0 && w.slots[dup].loaded ==> v == w && ret == -1)
            && (ret == 0 ==>
                  (UniqueNames(v)
                   <==> forall i :: 0 <= i < |w.slots| && w.slots[i].loaded
                                    ==> w.slots[i].name != Cut(lib.info.value.name, NAME_MAX)))
  {
    var (v, ret) := Load(w, path, lib, initOk);
    if ret == 0 {
      PlaceKeepsNamesUniqueIff(w.slots, PathIndex(w.slots, path), NewSlot(path, lib));
    }
  }

  lemma PlaceKeepsNamesUniqueIff(slots: seq<Slot>, e: int, slot: Slot)
    requires UniqueNames(World(slots, multiset{}, Registry([], []))) && -1 <= e < |slots|
    requires slot.loaded && (e >= 0 ==> !slots[e].loaded)
    ensures UniqueNames(World(Place(slots, e, slot), multiset{}, Registry([], [])))
            <==> forall i :: 0 <= i < |slots| && slots[i].loaded ==> slots[i].name != slot.name
  {
    var after := Place(slots, e, slot);
    var k := if e >= 0 then e else |slots|;
    assert forall i :: 0 <= i < |slots| && i != k ==> after[i] == slots[i];
    if i: nat :| i < |slots| && slots[i].loaded && slots[i].name == slot.name {
      assert after[i].name == after[k].name && after[i].loaded && after[k].loaded;
    }
  }
}
