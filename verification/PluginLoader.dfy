/** The plugin loader (plugin_loader.c): what loading, unloading, reloading and file
    events do to the table of plugins, the open libraries and the registry. */
module PluginLoader {
  import opened Sequences
  import opened Text
  import opened ServiceManager

  const MAX_PLUGINS: nat := 64
  const API_VERSION: int := 1
  const PATH_MAX: nat := 511
  const NAME_MAX: nat := 63

  /** The plugin info symbol of a library. */
  datatype Info = Info(api: int, name: string, service: Service)

  /** What dlopen and dlsym yield for a path: no library, or a handle with or
      without the symbol. */
  datatype Library = NotFound | Opened(handle: nat, info: Option<Info>)

  datatype Slot = Slot(path: string, name: string, handle: Option<nat>, service: Service, loaded: bool)

  /** The plugin table, the open library handles and the service registry. */
  datatype World = World(slots: seq<Slot>, open: multiset<nat>, registry: Registry)

  const EMPTY := World([], multiset{}, Registry([], []))

  /** strncpy into a zeroed field. */
  function Cut(s: string, n: nat): string {
    s[..Min(|s|, n)]
  }

  function PathIndex(slots: seq<Slot>, path: string): (i: int)
    ensures -1 <= i < |slots|
    ensures i >= 0 ==> slots[i].path == path
    ensures forall j :: 0 <= j < (if i < 0 then |slots| else i) ==> slots[j].path != path
  {
    IndexWhere(slots, (s: Slot) => s.path == path, 0)
  }

  function NameIndex(slots: seq<Slot>, name: string): (i: int)
    ensures -1 <= i < |slots|
    ensures i >= 0 ==> slots[i].name == name
    ensures forall j :: 0 <= j < (if i < 0 then |slots| else i) ==> slots[j].name != name
  {
    IndexWhere(slots, (s: Slot) => s.name == name, 0)
  }

  /** plugin_loader_load. Every failure after dlopen closes the library again. */
  function Load(w: World, path: string, lib: Library, initOk: bool): (World, int) {
    var e := PathIndex(w.slots, path);
    if e >= 0 && w.slots[e].loaded then (w, 0)
    else if |w.slots| >= MAX_PLUGINS || lib.NotFound? || lib.info.None? || lib.info.value.api != API_VERSION then (w, -1)
    else
      var info := lib.info.value;
      var dup := NameIndex(w.slots, info.name);
      if dup >= 0 && w.slots[dup].loaded then (w, -1)
      else
        var (registry, ok) := Register(w.registry, info.service, initOk);
        if !ok then (w, -1)
        else
          var slot := Slot(Cut(path, PATH_MAX), Cut(info.name, NAME_MAX), Some(lib.handle), info.service, true);
          (World(Place(w.slots, e, slot), w.open + multiset{lib.handle}, registry), 0)
  }

  /** Reuse the slot of the path, or take the next one. */
  function Place(slots: seq<Slot>, e: int, slot: Slot): seq<Slot>
    requires e < |slots|
  {
    if e >= 0 then slots[e := slot] else slots + [slot]
  }

  /** plugin_loader_unload: the first slot of that name, loaded or not. */
  function Unload(w: World, name: string): (World, int) {
    var i := NameIndex(w.slots, name);
    if i < 0 || !w.slots[i].loaded then (w, -1)
    else
      var s := w.slots[i];
      var open := if s.handle.Some? then w.open - multiset{s.handle.value} else w.open;
      (World(w.slots[i := s.(handle := None, loaded := false)], open, Unregister(w.registry, s.service)), 0)
  }

  /** Unload by path, through the name of its slot. */
  function UnloadPath(w: World, path: string): World {
    var e := PathIndex(w.slots, path);
    if e >= 0 && w.slots[e].loaded then Unload(w, w.slots[e].name).0 else w
  }

  /** plugin_loader_reload. */
  function Reload(w: World, path: string, lib: Library, initOk: bool): (World, int) {
    Load(UnloadPath(w, path), path, lib, initOk)
  }

  /** An inotify event; `Written` covers close-after-write and move-in. */
  datatype FileEvent =
    | Written(file: string, lib: Library, initOk: bool)
    | Deleted(file: string)
    | Other(file: string)

  predicate IsSharedObject(file: string) {
    |file| >= 4 && file[|file| - 3..] == ".so"
  }

  function Handle(w: World, dir: string, ev: FileEvent): World {
    if !IsSharedObject(ev.file) then w
    else match ev
      case Written(file, lib, initOk) => Reload(w, dir + "/" + file, lib, initOk).0
      case Deleted(file) => UnloadPath(w, dir + "/" + file)
      case Other(_) => w
  }

  /** plugin_loader_check_updates over the events read. */
  function Updates(w: World, dir: string, events: seq<FileEvent>): World {
    if events == [] then w
    else Handle(Updates(w, dir, events[..|events| - 1]), dir, events[|events| - 1])
  }

  /** The unload loop of plugin_loader_shutdown over the first `n` slots. */
  function CloseSlots(w: World, n: nat): World
    requires n <= |w.slots|
  {
    if n == 0 then w
    else
      var v := CloseSlots(w, n - 1);
      if n <= |v.slots| && v.slots[n - 1].loaded then Unload(v, v.slots[n - 1].name).0 else v
  }

  /** The part of daemon_shutdown that concerns plugins and services. */
  function DaemonShutdown(w: World): World {
    var v := CloseSlots(w, |w.slots|);
    v.(registry := Shutdown(v.registry))
  }

  // ----- The two tables agree -----

  function ServiceOf(s: Slot): multiset<Service> {
    if s.loaded then multiset{s.service} else multiset{}
  }

  function HandleOf(s: Slot): multiset<nat> {
    if s.loaded && s.handle.Some? then multiset{s.handle.value} else multiset{}
  }

  function LoadedServices(slots: seq<Slot>): multiset<Service> {
    if slots == [] then multiset{}
    else LoadedServices(slots[..|slots| - 1]) + ServiceOf(slots[|slots| - 1])
  }

  function LoadedHandles(slots: seq<Slot>): multiset<nat> {
    if slots == [] then multiset{}
    else LoadedHandles(slots[..|slots| - 1]) + HandleOf(slots[|slots| - 1])
  }

  ghost predicate DistinctPaths(slots: seq<Slot>) {
    forall i, j :: 0 <= i < j < |slots| ==> slots[i].path != slots[j].path
  }

  ghost predicate LoadedHaveHandles(slots: seq<Slot>) {
    forall i :: 0 <= i < |slots| && slots[i].loaded ==> slots[i].handle.Some?
  }

  /** The invariant over both tables. */
  ghost predicate Agree(w: World) {
    && |w.slots| <= MAX_PLUGINS && |w.registry.services| <= MAX_SERVICES
    && multiset(w.registry.services) == LoadedServices(w.slots)
    && w.open == LoadedHandles(w.slots)
    && LoadedHaveHandles(w.slots)
    && DistinctPaths(w.slots)
  }

  lemma {:induction false} UpdateServices(slots: seq<Slot>, i: nat, s: Slot)
    requires i < |slots|
    ensures ServiceOf(slots[i]) <= LoadedServices(slots)
    ensures LoadedServices(slots[i := s]) == LoadedServices(slots) - ServiceOf(slots[i]) + ServiceOf(s)
  {
    hide ServiceOf;
    var n := |slots| - 1;
    if i == n {
      assert slots[i := s][..n] == slots[..n];
    } else {
      UpdateServices(slots[..n], i, s);
      assert slots[i := s][..n] == slots[..n][i := s];
    }
  }

  lemma {:induction false} UpdateHandles(slots: seq<Slot>, i: nat, s: Slot)
    requires i < |slots|
    ensures HandleOf(slots[i]) <= LoadedHandles(slots)
    ensures LoadedHandles(slots[i := s]) == LoadedHandles(slots) - HandleOf(slots[i]) + HandleOf(s)
  {
    hide HandleOf;
    var n := |slots| - 1;
    if i == n {
      assert slots[i := s][..n] == slots[..n];
    } else {
      UpdateHandles(slots[..n], i, s);
      assert slots[i := s][..n] == slots[..n][i := s];
    }
  }

  /** Placing a loaded slot over an unloaded one, or at the end. */
  lemma PlaceLoaded(slots: seq<Slot>, e: int, s: Slot)
    requires -1 <= e < |slots| && (e >= 0 ==> !slots[e].loaded)
    ensures LoadedServices(Place(slots, e, s)) == LoadedServices(slots) + ServiceOf(s)
    ensures LoadedHandles(Place(slots, e, s)) == LoadedHandles(slots) + HandleOf(s)
  {
    if e >= 0 {
      UpdateServices(slots, e, s);
      UpdateHandles(slots, e, s);
      assert LoadedServices(slots) - multiset{} == LoadedServices(slots);
      assert LoadedHandles(slots) - multiset{} == LoadedHandles(slots);
    } else {
      assert (slots + [s])[..|slots|] == slots;
    }
  }

  lemma UnregisterRemoves(r: Registry, svc: Service)
    requires svc in r.services
    ensures multiset(Unregister(r, svc).services) == multiset(r.services) - multiset{svc}
    ensures |Unregister(r, svc).services| == |r.services| - 1
  {
    var s := r.services;
    var i := IndexOf(s, svc);
    assert s == s[..i] + [svc] + s[i + 1..];
    assert multiset(s) == multiset(s[..i]) + multiset{svc} + multiset(s[i + 1..]);
    assert multiset(RemoveAt(s, i)) == multiset(s[..i]) + multiset(s[i + 1..]);
  }

  function Vacated(s: Slot): Slot {
    s.(handle := None, loaded := false)
  }

  /** An unload either changes nothing or vacates the first slot of that name,
      closes its library and unregisters its service. */
  lemma UnloadEffect(w: World, name: string)
    ensures var i := NameIndex(w.slots, name);
            var v := Unload(w, name).0;
            if i < 0 || !w.slots[i].loaded then v == w
            else && v.slots == w.slots[i := Vacated(w.slots[i])]
                 && v.open == w.open - HandleOf(w.slots[i])
                 && v.registry == Unregister(w.registry, w.slots[i].service)
  {
    var i := NameIndex(w.slots, name);
    if i >= 0 && w.slots[i].handle.None? {
      assert w.open - multiset{} == w.open;
    }
  }

  /** Unloading keeps the tables in step. */
  lemma UnloadKeepsAgreement(w: World, name: string)
    requires Agree(w)
    ensures Agree(Unload(w, name).0)
  {
    hide Unload;
    hide NameIndex;
    hide LoadedServices;
    hide LoadedHandles;
    hide Unregister;
    UnloadEffect(w, name);
    var i := NameIndex(w.slots, name);
    if i >= 0 && w.slots[i].loaded {
      var s := w.slots[i];
      UpdateServices(w.slots, i, Vacated(s));
      UpdateHandles(w.slots, i, Vacated(s));
      assert s.service in multiset(w.registry.services);
      UnregisterRemoves(w.registry, s.service);
    }
  }

  /** What a successful load stores. */
  function NewSlot(path: string, lib: Library): Slot
    requires lib.Opened? && lib.info.Some?
  {
    Slot(Cut(path, PATH_MAX), Cut(lib.info.value.name, NAME_MAX), Some(lib.handle), lib.info.value.service, true)
  }

  /** Which loads succeed, with what return value, and that all others leave no trace:
      not even an open library. */
  lemma LoadSucceedsIff(w: World, path: string, lib: Library, initOk: bool)
    ensures var (v, ret) := Load(w, path, lib, initOk);
            var e := PathIndex(w.slots, path);
            if e >= 0 && w.slots[e].loaded then v == w && ret == 0
            else if && |w.slots| < 64 && lib.Opened? && lib.info.Some? && lib.info.value.api == 1
                    && (var dup := NameIndex(w.slots, lib.info.value.name); dup < 0 || !w.slots[dup].loaded)
                    && |w.registry.services| < 16 && (lib.info.value.service.hasInit ==> initOk)
            then && ret == 0
                 && v.open == w.open + multiset{lib.handle}
                 && v.registry.services == w.registry.services + [lib.info.value.service]
            else v == w && ret == -1
  {
    if lib.Opened? && lib.info.Some? {
      RegisterIs(w.registry, lib.info.value.service, initOk);
    }
  }

  /** The slot a load has filled, all others being as they were. */
  lemma LoadFillsSlot(w: World, path: string, lib: Library, initOk: bool)
    requires var (v, ret) := Load(w, path, lib, initOk); v != w
    ensures lib.Opened? && lib.info.Some?
    ensures var v := Load(w, path, lib, initOk).0;
            var e := PathIndex(w.slots, path);
            var k := if e >= 0 then e else |w.slots|;
            && |v.slots| == (if e >= 0 then |w.slots| else |w.slots| + 1)
            && (forall j :: 0 <= j < |w.slots| && j != k ==> v.slots[j] == w.slots[j])
            && v.slots[k].path == (if |path| <= 511 then path else path[..511])
            && v.slots[k].name == (var n := lib.info.value.name; if |n| <= 63 then n else n[..63])
            && v.slots[k].handle == Some(lib.handle)
            && v.slots[k].service == lib.info.value.service && v.slots[k].loaded
  {
    LoadEffect(w, path, lib, initOk);
  }

  /** A load either changes nothing or registers the service, keeps the library open
      and places the new slot. */
  lemma LoadEffect(w: World, path: string, lib: Library, initOk: bool)
    ensures var e := PathIndex(w.slots, path);
            var (v, ret) := Load(w, path, lib, initOk);
            || v == w
            || (&& lib.Opened? && lib.info.Some? && ret == 0 && |w.slots| < MAX_PLUGINS
                && (e >= 0 ==> !w.slots[e].loaded)
                && Register(w.registry, lib.info.value.service, initOk) == (v.registry, true)
                && v.slots == Place(w.slots, e, NewSlot(path, lib))
                && v.open == w.open + multiset{lib.handle})
  {
  }

  lemma LoadKeepsAgreement(w: World, path: string, lib: Library, initOk: bool)
    requires Agree(w) && |path| <= PATH_MAX
    ensures Agree(Load(w, path, lib, initOk).0)
  {
    hide Load;
    hide PathIndex;
    hide LoadedServices;
    hide LoadedHandles;
    LoadEffect(w, path, lib, initOk);
    if Load(w, path, lib, initOk).0 != w {
      PlaceLoaded(w.slots, PathIndex(w.slots, path), NewSlot(path, lib));
    }
  }

  lemma UnloadPathKeepsAgreement(w: World, path: string)
    requires Agree(w)
    ensures Agree(UnloadPath(w, path))
  {
    var e := PathIndex(w.slots, path);
    if e >= 0 && w.slots[e].loaded {
      UnloadKeepsAgreement(w, w.slots[e].name);
    }
  }

  /** What the daemon may do to the loader between start and shutdown. */
  datatype Action =
    | LoadCall(path: string, lib: Library, initOk: bool)
    | UnloadCall(name: string)
    | ReloadCall(path: string, lib: Library, initOk: bool)
    | UpdatesCall(dir: string, events: seq<FileEvent>)

  function Act(w: World, a: Action): World {
    match a
    case LoadCall(path, lib, initOk) => Load(w, path, lib, initOk).0
    case UnloadCall(name) => Unload(w, name).0
    case ReloadCall(path, lib, initOk) => Reload(w, path, lib, initOk).0
    case UpdatesCall(dir, events) => Updates(w, dir, events)
  }

  function Run(w: World, actions: seq<Action>): World {
    if actions == [] then w else Act(Run(w, actions[..|actions| - 1]), actions[|actions| - 1])
  }

  /** The paths an action may store fit their field. */
  predicate ShortPaths(a: Action) {
    match a
    case LoadCall(path, _, _) => |path| <= PATH_MAX
    case ReloadCall(path, _, _) => |path| <= PATH_MAX
    case UpdatesCall(dir, events) =>
      forall i :: 0 <= i < |events| ==> |dir| + 1 + |events[i].file| <= PATH_MAX
    case UnloadCall(_) => true
  }

  lemma {:induction false} UpdatesKeepAgreement(w: World, dir: string, events: seq<FileEvent>)
    requires Agree(w) && forall i :: 0 <= i < |events| ==> |dir| + 1 + |events[i].file| <= PATH_MAX
    ensures Agree(Updates(w, dir, events))
  {
    if events != [] {
      var n := |events| - 1;
      UpdatesKeepAgreement(w, dir, events[..n]);
      var v := Updates(w, dir, events[..n]);
      var path := dir + "/" + events[n].file;
      UnloadPathKeepsAgreement(v, path);
      if events[n].Written? {
        LoadKeepsAgreement(UnloadPath(v, path), path, events[n].lib, events[n].initOk);
      }
    }
  }

  lemma ActKeepsAgreement(w: World, a: Action)
    requires Agree(w) && ShortPaths(a)
    ensures Agree(Act(w, a))
  {
    match a {
      case LoadCall(path, lib, initOk) => LoadKeepsAgreement(w, path, lib, initOk);
      case UnloadCall(name) => UnloadKeepsAgreement(w, name);
      case ReloadCall(path, lib, initOk) =>
        UnloadPathKeepsAgreement(w, path);
        LoadKeepsAgreement(UnloadPath(w, path), path, lib, initOk);
      case UpdatesCall(dir, events) => UpdatesKeepAgreement(w, dir, events);
    }
  }

  /** Along every run the registered services stay exactly those of the loaded plugins,
      the open libraries exactly theirs, and no path gets two slots. */
  lemma {:induction false} RunKeepsAgreement(w: World, actions: seq<Action>)
    requires Agree(w) && forall i :: 0 <= i < |actions| ==> ShortPaths(actions[i])
    ensures Agree(Run(w, actions))
  {
    if actions != [] {
      RunKeepsAgreement(w, actions[..|actions| - 1]);
      ActKeepsAgreement(Run(w, actions[..|actions| - 1]), actions[|actions| - 1]);
    }
  }

  lemma StartAgrees()
    ensures Agree(EMPTY)
  {
  }

  /** So they agree in every state a fresh daemon can reach. */
  lemma ReachableAgrees(actions: seq<Action>)
    requires forall i :: 0 <= i < |actions| ==> ShortPaths(actions[i])
    ensures Agree(Run(EMPTY, actions))
  {
    StartAgrees();
    RunKeepsAgreement(EMPTY, actions);
  }

  lemma {:induction false} LoadedServiceHasSlot(slots: seq<Slot>, svc: Service) returns (i: nat)
    requires svc in LoadedServices(slots)
    ensures i < |slots| && slots[i].loaded && slots[i].service == svc
  {
    var n := |slots| - 1;
    if svc in ServiceOf(slots[n]) {
      i := n;
    } else {
      i := LoadedServiceHasSlot(slots[..n], svc);
    }
  }

  /** No registered service belongs to a closed library. */
  lemma RegisteredIsOpen(w: World, svc: Service)
    requires Agree(w) && svc in w.registry.services
    ensures exists i :: && 0 <= i < |w.slots| && w.slots[i].loaded && w.slots[i].service == svc
                        && w.slots[i].handle.Some? && w.slots[i].handle.value in w.open
  {
    assert svc in multiset(w.registry.services);
    var i := LoadedServiceHasSlot(w.slots, svc);
    UpdateHandles(w.slots, i, w.slots[i]);
    assert w.slots[i].handle.value in HandleOf(w.slots[i]);
  }

  // ----- The loader as written -----

  /** The search may go on behind slot `k`. */
  lemma PathNotBefore(slots: seq<Slot>, path: string, k: nat)
    requires k <= |slots| && forall j :: 0 <= j < k ==> slots[j].path != path
    ensures k == |slots| ==> PathIndex(slots, path) == -1
    ensures k < |slots| && slots[k].path == path ==> PathIndex(slots, path) == k
  {
    var i := PathIndex(slots, path);
    assert i >= 0 ==> slots[i].path == path;
  }

  lemma NameNotBefore(slots: seq<Slot>, name: string, k: nat)
    requires k <= |slots| && forall j :: 0 <= j < k ==> slots[j].name != name
    ensures k == |slots| ==> NameIndex(slots, name) == -1
    ensures k < |slots| && slots[k].name == name ==> NameIndex(slots, name) == k
  {
    var i := NameIndex(slots, name);
    assert i >= 0 ==> slots[i].name == name;
  }

  /** An unload vacates the first slot of the name, if that one is loaded. */
  lemma UnloadIs(w: World, name: string)
    ensures var i := NameIndex(w.slots, name);
            Unload(w, name)
            == if i < 0 || !w.slots[i].loaded then (w, -1)
               else (World(w.slots[i := w.slots[i].(handle := None, loaded := false)],
                           if w.slots[i].handle.Some? then w.open - multiset{w.slots[i].handle.value} else w.open,
                           Unregister(w.registry, w.slots[i].service)), 0)
  {
  }

  class Loader {
    const plugins: array<Slot>
    var count: nat
    const manager: Manager

    /** The handles dlopen has returned and dlclose has not been given. */
    ghost var open: multiset<nat>

    ghost predicate Valid()
      reads this, manager
    {
      plugins.Length == MAX_PLUGINS && count <= MAX_PLUGINS && manager.Valid()
    }

    ghost function State(): World
      requires Valid()
      reads this, plugins, manager, manager.slots
    {
      World(plugins[..count], open, manager.State())
    }

    /** plugin_loader_init beside a freshly initialised service manager. */
    constructor ()
      ensures Valid() && State() == EMPTY
      ensures fresh(plugins) && fresh(manager) && fresh(manager.slots)
    {
      plugins := new Slot[MAX_PLUGINS](_ => Slot("", "", None, Service(0, "", false, false, false, false), false));
      count := 0;
      manager := new Manager();
      open := multiset{};
    }

    method FindByPath(path: string) returns (i: int)
      requires Valid()
      ensures i == PathIndex(plugins[..count], path)
    {
      for k := 0 to count
        invariant forall j :: 0 <= j < k ==> plugins[j].path != path
      {
        PathNotBefore(plugins[..count], path, k);
        if plugins[k].path == path { return k; }
      }
      PathNotBefore(plugins[..count], path, count);
      i := -1;
    }

    method FindByName(name: string) returns (i: int)
      requires Valid()
      ensures i == NameIndex(plugins[..count], name)
    {
      for k := 0 to count
        invariant forall j :: 0 <= j < k ==> plugins[j].name != name
      {
        NameNotBefore(plugins[..count], name, k);
        if plugins[k].name == name { return k; }
      }
      NameNotBefore(plugins[..count], name, count);
      i := -1;
    }

    /** plugin_loader_load. */
    method LoadPlugin(path: string, lib: Library, initOk: bool) returns (ret: int)
      requires Valid()
      modifies this, plugins, manager, manager.slots
      ensures Valid() && (State(), ret) == Load(old(State()), path, lib, initOk)
    {
      hide NameIndex;
      hide PathIndex;
      hide Register;
      var existing := FindByPath(path);
      if existing >= 0 && plugins[existing].loaded { return 0; }
      if count >= MAX_PLUGINS { return -1; }
      if lib.NotFound? { return -1; }
      ghost var wasOpen := open;
      open := open + multiset{lib.handle};
      assert open - multiset{lib.handle} == wasOpen;
      if lib.info.None? || lib.info.value.api != API_VERSION {
        open := open - multiset{lib.handle};
        return -1;
      }
      var info := lib.info.value;
      var dup := FindByName(info.name);
      if dup >= 0 && plugins[dup].loaded {
        open := open - multiset{lib.handle};
        return -1;
      }
      var ok := manager.Add(info.service, initOk);
      if !ok {
        open := open - multiset{lib.handle};
        assert manager.State() == old(manager.State()) by { RegisterFails(old(manager.State()), info.service, initOk); }
        return -1;
      }
      var slot := existing;
      if existing < 0 {
        slot := count;
        count := count + 1;
      }
      ghost var was := old(plugins[..count]);
      plugins[slot] := Slot(Cut(path, PATH_MAX), Cut(info.name, NAME_MAX), Some(lib.handle), info.service, true);
      assert plugins[..count] == Place(was, existing, plugins[slot]);
      ret := 0;
    }

    /** plugin_loader_unload. */
    method UnloadPlugin(name: string) returns (ret: int)
      requires Valid()
      modifies this, plugins, manager, manager.slots
      ensures Valid() && (State(), ret) == Unload(old(State()), name)
    {
      hide NameIndex;
      hide Unregister;
      hide Unload;
      UnloadIs(State(), name);
      var i := FindByName(name);
      if i < 0 || !plugins[i].loaded { return -1; }
      var found := manager.Remove(plugins[i].service);
      if plugins[i].handle.Some? {
        open := open - multiset{plugins[i].handle.value};
        plugins[i] := plugins[i].(handle := None);
      }
      plugins[i] := plugins[i].(loaded := false);
      assert plugins[..count] == old(plugins[..count])[i := Vacated(old(plugins[i]))];
      ret := 0;
    }

    /** plugin_loader_reload. */
    method ReloadPlugin(path: string, lib: Library, initOk: bool) returns (ret: int)
      requires Valid()
      modifies this, plugins, manager, manager.slots
      ensures Valid() && (State(), ret) == Reload(old(State()), path, lib, initOk)
    {
      hide Load;
      hide Unload;
      var i := FindByPath(path);
      if i >= 0 && plugins[i].loaded {
        var r := UnloadPlugin(plugins[i].name);
      }
      ret := LoadPlugin(path, lib, initOk);
    }

    /** The loop of plugin_loader_check_updates over the events it has read. */
    method CheckUpdates(dir: string, events: seq<FileEvent>)
      requires Valid()
      modifies this, plugins, manager, manager.slots
      ensures Valid() && State() == Updates(old(State()), dir, events)
    {
      hide Load;
      hide Unload;
      hide Reload;
      for k := 0 to |events|
        invariant Valid() && State() == Updates(old(State()), dir, events[..k])
      {
        assert events[..k + 1][..k] == events[..k] && events[..k + 1][k] == events[k];
        var ev := events[k];
        if IsSharedObject(ev.file) {
          var path := dir + "/" + ev.file;
          if ev.Written? {
            var r := ReloadPlugin(path, ev.lib, ev.initOk);
          } else if ev.Deleted? {
            var i := FindByPath(path);
            if i >= 0 && plugins[i].loaded {
              var r := UnloadPlugin(plugins[i].name);
            }
          }
        }
      }
      assert events[..|events|] == events;
    }

    /** The unload loop of plugin_loader_shutdown. */
    method ShutdownPlugins()
      requires Valid()
      modifies this, plugins, manager, manager.slots
      ensures Valid() && State() == CloseSlots(old(State()), old(count))
    {
      hide Unload;
      ghost var w := State();
      var i := 0;
      while i < count
        invariant 0 <= i <= count == old(count)
        invariant Valid() && State() == CloseSlots(w, i)
      {
        if plugins[i].loaded {
          UnloadLength(State(), plugins[i].name);
          var r := UnloadPlugin(plugins[i].name);
        }
        i := i + 1;
      }
    }

    /** daemon_shutdown, as far as plugins and services go: the loader first. */
    method ShutdownDaemon()
      requires Valid()
      modifies this, plugins, manager, manager.slots
      ensures Valid() && State() == DaemonShutdown(old(State()))
    {
      ShutdownPlugins();
      manager.Close();
    }

    /** plugin_loader_count. */
    method LoadedCount() returns (n: nat)
      requires Valid()
      ensures n == |LoadedServices(plugins[..count])|
    {
      n := 0;
      for i := 0 to count
        invariant n == |LoadedServices(plugins[..i])|
      {
        assert plugins[..i + 1][..i] == plugins[..i];
        if plugins[i].loaded {
          n := n + 1;
        }
      }
    }
  }

  lemma RegisterFails(r: Registry, svc: Service, initOk: bool)
    ensures !Register(r, svc, initOk).1 ==> Register(r, svc, initOk).0 == r
  {
  }

  lemma UnloadLength(w: World, name: string)
    ensures |Unload(w, name).0.slots| == |w.slots|
  {
  }
}
