/** Hot reload (plugin_loader_check_updates): what a run of file events leaves loaded,
    and how much room it takes. */
module HotReload {
  import opened Text
  import opened ServiceManager
  import opened PluginLoader
  import opened PluginRuns

  // ----- Hot reload converges -----

  predicate IsLoaded(w: World, path: string) {
    var e := PathIndex(w.slots, path);
    e >= 0 && w.slots[e].loaded
  }

  /** The slot that serves a path, with its library and its service. */
  function Serving(w: World, path: string): Option<Slot> {
    if IsLoaded(w, path) then Some(w.slots[PathIndex(w.slots, path)]) else None
  }

  lemma ServingIs(w: World)
    ensures forall q :: IsLoaded(w, q) <==> Serving(w, q).Some?
  {
  }

  /** Slot names follow the fixed naming of paths. */
  ghost predicate Named(w: World, nameOf: string -> string) {
    forall i :: 0 <= i < |w.slots| ==> w.slots[i].name == nameOf(w.slots[i].path)
  }

  ghost predicate Injective(nameOf: string -> string) {
    forall p, q :: nameOf(p) == nameOf(q) ==> p == q
  }

  /** A library that loads: right symbol and version, the path's name, and an init
      that succeeds. */
  predicate Loads(path: string, lib: Library, initOk: bool, nameOf: string -> string) {
    && lib.Opened? && lib.info.Some? && initOk
    && lib.info.value.api == API_VERSION
    && lib.info.value.name == nameOf(path) && |nameOf(path)| <= NAME_MAX
  }

  /** Room for the plugin: a free slot beyond those used, and a free service place
      unless the plugin's own will be freed first. */
  predicate Room(w: World, path: string) {
    |w.slots| < MAX_PLUGINS && (IsLoaded(w, path) || |w.registry.services| < MAX_SERVICES)
  }

  lemma NameHitsPath(w: World, path: string, nameOf: string -> string)
    requires DistinctPaths(w.slots) && Named(w, nameOf) && Injective(nameOf)
    ensures var i := NameIndex(w.slots, nameOf(path)); i == PathIndex(w.slots, path)
  {
    var e, i := PathIndex(w.slots, path), NameIndex(w.slots, nameOf(path));
    if i >= 0 {
      assert w.slots[i].path == path;
      PathIndexIs(w.slots, i);
    }
    assert e >= 0 ==> w.slots[e].name == nameOf(path);
  }

  /** With injective names, unloading by the name of a path's slot hits that slot. */
  lemma UnloadPathUnloads(w: World, path: string, nameOf: string -> string)
    requires Agree(w) && Named(w, nameOf) && Injective(nameOf)
    ensures var v := UnloadPath(w, path);
            && Agree(v) && Named(v, nameOf) && |v.slots| == |w.slots|
            && !IsLoaded(v, path)
            && (forall q :: q != path ==> IsLoaded(v, q) == IsLoaded(w, q) && Serving(v, q) == Serving(w, q))
            && (IsLoaded(w, path) ==> |v.registry.services| < MAX_SERVICES)
            && (!IsLoaded(w, path) ==> v == w)
  {
    hide Unload;
    hide Agree;
    hide NameIndex;
    hide Unregister;
    UnloadPathKeepsAgreement(w, path);
    AgreeBounds(w);
    var e := PathIndex(w.slots, path);
    if e >= 0 && w.slots[e].loaded {
      NameHitsPath(w, path, nameOf);
      assert w.slots[e].name == nameOf(path);
      UnloadEffect(w, nameOf(path));
      LoadedIsRegistered(w, e);
      UnregisterRemoves(w.registry, w.slots[e].service);
      VacateUnloads(w, UnloadPath(w, path), path, nameOf);
    }
  }

  lemma AgreeBounds(w: World)
    requires Agree(w)
    ensures DistinctPaths(w.slots) && |w.registry.services| <= MAX_SERVICES
  {
  }

  lemma VacateUnloads(w: World, v: World, path: string, nameOf: string -> string)
    requires Named(w, nameOf) && IsLoaded(w, path)
    requires var e := PathIndex(w.slots, path); v.slots == w.slots[e := Vacated(w.slots[e])]
    ensures Named(v, nameOf) && forall q :: IsLoaded(v, q) == (q != path && IsLoaded(w, q))
    ensures forall q :: Serving(v, q) == if q == path then None else Serving(w, q)
  {
    SamePaths(w.slots, v.slots);
  }

  lemma LoadedIsRegistered(w: World, i: nat)
    requires Agree(w) && i < |w.slots| && w.slots[i].loaded
    ensures w.slots[i].service in w.registry.services
  {
    UpdateServices(w.slots, i, w.slots[i]);
    assert w.slots[i].service in multiset(w.registry.services);
  }

  lemma SamePaths(a: seq<Slot>, b: seq<Slot>)
    requires |a| == |b| && forall i :: 0 <= i < |a| ==> a[i].path == b[i].path
    ensures forall p :: PathIndex(a, p) == PathIndex(b, p)
  {
    forall p
      ensures PathIndex(a, p) == PathIndex(b, p)
    {
      var i, j := PathIndex(a, p), PathIndex(b, p);
      assert i >= 0 ==> b[i].path == p;
      assert j >= 0 ==> a[j].path == p;
    }
  }

  lemma PathIndexAppend(slots: seq<Slot>, s: Slot, p: string)
    ensures PathIndex(slots + [s], p)
         == if PathIndex(slots, p) >= 0 then PathIndex(slots, p) else if s.path == p then |slots| else -1
  {
    var i := PathIndex(slots, p);
    var j := PathIndex(slots + [s], p);
    assert i >= 0 ==> (slots + [s])[i].path == p;
    assert (slots + [s])[|slots|].path == s.path;
    assert 0 <= j < |slots| ==> slots[j].path == p;
  }

  /** A load that passes every check. */
  lemma LoadSucceeds(w: World, path: string, lib: Library, initOk: bool)
    requires !IsLoaded(w, path) && |w.slots| < MAX_PLUGINS
    requires lib.Opened? && lib.info.Some? && lib.info.value.api == API_VERSION
    requires var dup := NameIndex(w.slots, lib.info.value.name); dup < 0 || !w.slots[dup].loaded
    requires |w.registry.services| < MAX_SERVICES && (lib.info.value.service.hasInit ==> initOk)
    ensures var v := Load(w, path, lib, initOk).0;
            && v.slots == Place(w.slots, PathIndex(w.slots, path), NewSlot(path, lib))
            && v.registry.services == w.registry.services + [lib.info.value.service]
  {
  }

  lemma PlaceIsLoaded(w: World, v: World, slot: Slot)
    requires slot.loaded && v.slots == Place(w.slots, PathIndex(w.slots, slot.path), slot)
    ensures forall q :: IsLoaded(v, q) == (q == slot.path || IsLoaded(w, q))
    ensures forall q :: Serving(v, q) == if q == slot.path then Some(slot) else Serving(w, q)
  {
    var e := PathIndex(w.slots, slot.path);
    if e >= 0 {
      SamePaths(w.slots, v.slots);
    } else {
      forall q
        ensures IsLoaded(v, q) == (q == slot.path || IsLoaded(w, q))
        ensures Serving(v, q) == if q == slot.path then Some(slot) else Serving(w, q)
      {
        PathIndexAppend(w.slots, slot, q);
      }
    }
  }

  lemma PlaceIsNamed(w: World, v: World, slot: Slot, nameOf: string -> string)
    requires Named(w, nameOf) && slot.name == nameOf(slot.path)
    requires v.slots == Place(w.slots, PathIndex(w.slots, slot.path), slot)
    ensures Named(v, nameOf)
  {
  }

  /** The path is served by exactly this library. */
  predicate Serves(w: World, path: string, lib: Library) {
    && Serving(w, path).Some? && lib.Opened? && lib.info.Some?
    && Serving(w, path).value.handle == Some(lib.handle)
    && Serving(w, path).value.service == lib.info.value.service
  }

  lemma LoadLoads(w: World, path: string, lib: Library, initOk: bool, nameOf: string -> string)
    requires Agree(w) && Named(w, nameOf) && Injective(nameOf)
    requires |path| <= PATH_MAX && Loads(path, lib, initOk, nameOf)
    requires !IsLoaded(w, path) && |w.slots| < MAX_PLUGINS && |w.registry.services| < MAX_SERVICES
    ensures var v := Load(w, path, lib, initOk).0;
            && Agree(v) && Named(v, nameOf) && IsLoaded(v, path)
            && (forall q :: q != path ==> IsLoaded(v, q) == IsLoaded(w, q))
            && Serves(v, path, lib) && (forall q :: q != path ==> Serving(v, q) == Serving(w, q))
  {
    hide Load;
    hide Agree;
    hide NameIndex;
    hide PathIndex;
    hide Place;
    LoadKeepsAgreement(w, path, lib, initOk);
    AgreeBounds(w);
    NameHitsPath(w, path, nameOf);
    LoadSucceeds(w, path, lib, initOk);
    var slot := NewSlot(path, lib);
    assert slot.path == path && slot.name == nameOf(path);
    PlaceIsLoaded(w, Load(w, path, lib, initOk).0, slot);
    PlaceIsNamed(w, Load(w, path, lib, initOk).0, slot, nameOf);
  }

  /** A name before the suffix. */
  ghost predicate PluginFile(file: string) {
    exists n: string :: n != "" && file == n + ".so"
  }

  /** The loader's test of a file name. */
  lemma SuffixTest(file: string)
    ensures IsSharedObject(file) <==> PluginFile(file)
    ensures PluginFile(file) <==> |file| >= 4 && file[|file| - 3..] == ['.', 's', 'o']
  {
    if |file| >= 4 && file[|file| - 3..] == ".so" {
      assert file == file[..|file| - 3] + ".so";
    }
  }

  /** The last write, move-in or deletion of the file of a path, None where there is
      none. */
  ghost function LastEvent(dir: string, events: seq<FileEvent>, path: string): Option<FileEvent> {
    if events == [] then None
    else
      var ev := events[|events| - 1];
      if PluginFile(ev.file) && !ev.Other? && dir + "/" + ev.file == path then Some(ev)
      else LastEvent(dir, events[..|events| - 1], path)
  }

  /** Every written library loads and finds room when its event is handled. */
  ghost predicate Feasible(w: World, dir: string, events: seq<FileEvent>, nameOf: string -> string) {
    forall k :: 0 <= k < |events| && events[k].Written? && PluginFile(events[k].file) ==>
      var path := dir + "/" + events[k].file;
      && |path| <= PATH_MAX && Loads(path, events[k].lib, events[k].initOk, nameOf)
      && Room(Updates(w, dir, events[..k]), path)
  }

  /** The path stands as the event has left it: served by the written library, or not
      loaded after a deletion. */
  predicate Follows(w: World, path: string, ev: FileEvent) {
    if ev.Written? then Serves(w, path, ev.lib) else Serving(w, path).None?
  }

  /** What one event does; all files but those with a name before the suffix, and all
      events but writes, moves and deletions, are skipped. */
  lemma HandleIs(w: World, dir: string, ev: FileEvent)
    ensures !PluginFile(ev.file) || ev.Other? ==> Handle(w, dir, ev) == w
    ensures PluginFile(ev.file) && ev.Written? ==>
              Handle(w, dir, ev) == Reload(w, dir + "/" + ev.file, ev.lib, ev.initOk).0
    ensures PluginFile(ev.file) && ev.Deleted? ==>
              Handle(w, dir, ev) == UnloadPath(w, dir + "/" + ev.file)
  {
    hide PluginFile;
    SuffixTest(ev.file);
  }

  lemma HandleConverges(w: World, dir: string, ev: FileEvent, nameOf: string -> string)
    requires Agree(w) && Named(w, nameOf) && Injective(nameOf)
    requires ev.Written? && PluginFile(ev.file) ==>
               var path := dir + "/" + ev.file;
               |path| <= PATH_MAX && Loads(path, ev.lib, ev.initOk, nameOf) && Room(w, path)
    ensures var v := Handle(w, dir, ev);
            && Agree(v) && Named(v, nameOf)
            && forall q :: if PluginFile(ev.file) && !ev.Other? && dir + "/" + ev.file == q
                           then Follows(v, q, ev) else Serving(v, q) == Serving(w, q)
  {
    hide PluginFile;
    hide Handle;
    hide Load;
    hide UnloadPath;
    hide Agree;
    hide PathIndex;
    HandleIs(w, dir, ev);
    if PluginFile(ev.file) && !ev.Other? {
      var path := dir + "/" + ev.file;
      UnloadPathUnloads(w, path, nameOf);
      if ev.Written? {
        LoadLoads(UnloadPath(w, path), path, ev.lib, ev.initOk, nameOf);
      }
    }
  }

  lemma FeasibleSplit(w: World, dir: string, events: seq<FileEvent>, nameOf: string -> string)
    requires events != [] && Feasible(w, dir, events, nameOf)
    ensures var n := |events| - 1;
            && Feasible(w, dir, events[..n], nameOf)
            && (events[n].Written? && PluginFile(events[n].file) ==>
                  var path := dir + "/" + events[n].file;
                  && |path| <= PATH_MAX && Loads(path, events[n].lib, events[n].initOk, nameOf)
                  && Room(Updates(w, dir, events[..n]), path))
  {
    hide PluginFile;
    hide Updates;
    hide Loads;
    hide Room;
    var n := |events| - 1;
    assert forall k {:trigger events[k]} :: 0 <= k < n ==> events[..n][k] == events[k] && events[..n][..k] == events[..k];
  }

  /** After any list of file events a path is loaded exactly when its last event was
      a write or move-in, and then from the library that event found; a path without
      events keeps its plugin. */
  lemma {:induction false} HotReloadConverges(w: World, dir: string, events: seq<FileEvent>, nameOf: string -> string)
    requires Agree(w) && Named(w, nameOf) && Injective(nameOf) && Feasible(w, dir, events, nameOf)
    ensures var v := Updates(w, dir, events);
            && Agree(v) && Named(v, nameOf)
            && forall q :: match LastEvent(dir, events, q)
                           case Some(ev) => Follows(v, q, ev)
                           case None => Serving(v, q) == Serving(w, q)
  {
    hide PluginFile;
    hide Agree;
    hide Named;
    hide Injective;
    hide IsLoaded;
    hide Handle;
    hide Feasible;
    if events != [] {
      var n := |events| - 1;
      FeasibleSplit(w, dir, events, nameOf);
      HotReloadConverges(w, dir, events[..n], nameOf);
      HandleConverges(Updates(w, dir, events[..n]), dir, events[n], nameOf);
    }
  }

  // ----- When every write finds room -----

  function PathsOf(slots: seq<Slot>): set<string> {
    if slots == [] then {} else PathsOf(slots[..|slots| - 1]) + {slots[|slots| - 1].path}
  }

  function LoadedPaths(slots: seq<Slot>): set<string> {
    if slots == [] then {}
    else
      var s := slots[|slots| - 1];
      LoadedPaths(slots[..|slots| - 1]) + if s.loaded then {s.path} else {}
  }

  /** The path an event writes. */
  ghost function WrittenBy(dir: string, ev: FileEvent): set<string> {
    if ev.Written? && PluginFile(ev.file) then {dir + "/" + ev.file} else {}
  }

  /** The paths that a list of events writes. */
  ghost function WrittenPaths(dir: string, events: seq<FileEvent>): set<string> {
    if events == [] then {}
    else WrittenPaths(dir, events[..|events| - 1]) + WrittenBy(dir, events[|events| - 1])
  }

  lemma {:induction false} PathsOfIs(slots: seq<Slot>, p: string)
    ensures p in PathsOf(slots) <==> exists i :: 0 <= i < |slots| && slots[i].path == p
    ensures p in LoadedPaths(slots) <==> exists i :: 0 <= i < |slots| && slots[i].loaded && slots[i].path == p
  {
    if slots != [] {
      var n := |slots| - 1;
      PathsOfIs(slots[..n], p);
      assert forall i :: 0 <= i < n ==> slots[..n][i] == slots[i];
    }
  }

  lemma {:induction false} WrittenIs(dir: string, events: seq<FileEvent>, n: nat)
    requires n < |events|
    ensures WrittenPaths(dir, events[..n]) <= WrittenPaths(dir, events)
    ensures WrittenBy(dir, events[n]) <= WrittenPaths(dir, events)
  {
    hide WrittenBy;
    var l := |events| - 1;
    if n < l {
      WrittenIs(dir, events[..l], n);
      assert events[..l][..n] == events[..n];
    }
  }

  lemma {:induction false} PathsCount(slots: seq<Slot>)
    requires DistinctPaths(slots)
    ensures |PathsOf(slots)| == |slots|
    ensures |LoadedPaths(slots)| == |LoadedServices(slots)|
  {
    if slots != [] {
      var n := |slots| - 1;
      PathsCount(slots[..n]);
      PathsOfIs(slots[..n], slots[n].path);
    }
  }

  lemma {:induction false} SubsetSize(a: set<string>, b: set<string>)
    requires a <= b
    ensures |a| <= |b|
  {
    assert b == a + (b - a);
  }

  lemma LoadedPathsAre(w: World, path: string)
    requires DistinctPaths(w.slots)
    ensures path in LoadedPaths(w.slots) <==> IsLoaded(w, path)
  {
    PathsOfIs(w.slots, path);
    if path in LoadedPaths(w.slots) {
      var i :| 0 <= i < |w.slots| && w.slots[i].loaded && w.slots[i].path == path;
      PathIndexIs(w.slots, i);
    }
  }

  lemma UnloadPathPaths(w: World, path: string)
    ensures PathsOf(UnloadPath(w, path).slots) == PathsOf(w.slots)
  {
    hide Unload;
    var e := PathIndex(w.slots, path);
    if e >= 0 && w.slots[e].loaded {
      UnloadEffect(w, w.slots[e].name);
      SamePathSets(w.slots, UnloadPath(w, path).slots);
    }
  }

  lemma {:induction false} SamePathSets(a: seq<Slot>, b: seq<Slot>)
    requires |a| == |b| && forall i :: 0 <= i < |a| ==> a[i].path == b[i].path
    ensures PathsOf(a) == PathsOf(b)
  {
    if a != [] {
      SamePathSets(a[..|a| - 1], b[..|b| - 1]);
    }
  }

  lemma PlacePaths(slots: seq<Slot>, slot: Slot)
    ensures PathsOf(Place(slots, PathIndex(slots, slot.path), slot)) <= PathsOf(slots) + {slot.path}
  {
    hide PathIndex;
    var e := PathIndex(slots, slot.path);
    if e >= 0 {
      SamePathSets(slots, slots[e := slot]);
    } else {
      assert (slots + [slot])[..|slots|] == slots;
    }
  }

  /** An event adds no slot but one for the path it writes. */
  lemma HandlePaths(w: World, dir: string, ev: FileEvent)
    requires ev.Written? ==> |dir| + 1 + |ev.file| <= PATH_MAX
    ensures PathsOf(Handle(w, dir, ev).slots) <= PathsOf(w.slots) + WrittenBy(dir, ev)
  {
    hide Load;
    hide UnloadPath;
    hide PathsOf;
    hide Place;
    hide PathIndex;
    hide PluginFile;
    hide Handle;
    HandleIs(w, dir, ev);
    var path := dir + "/" + ev.file;
    if PluginFile(ev.file) && !ev.Other? {
      UnloadPathPaths(w, path);
      if ev.Written? {
        var u := UnloadPath(w, path);
        LoadEffect(u, path, ev.lib, ev.initOk);
        if Load(u, path, ev.lib, ev.initOk).0 != u {
          assert Cut(path, PATH_MAX) == path;
          PlacePaths(u.slots, NewSlot(path, ev.lib));
        }
      }
    }
  }

  lemma {:induction false} UpdatesPaths(w: World, dir: string, events: seq<FileEvent>)
    requires forall k :: 0 <= k < |events| && events[k].Written? ==> |dir| + 1 + |events[k].file| <= PATH_MAX
    ensures PathsOf(Updates(w, dir, events).slots) <= PathsOf(w.slots) + WrittenPaths(dir, events)
  {
    hide Handle;
    hide PathsOf;
    hide WrittenBy;
    if events != [] {
      var n := |events| - 1;
      UpdatesPaths(w, dir, events[..n]);
      HandlePaths(Updates(w, dir, events[..n]), dir, events[n]);
    }
  }

  lemma {:induction false} LastWriteIsWritten(dir: string, events: seq<FileEvent>, path: string)
    requires LastEvent(dir, events, path).Some? && LastEvent(dir, events, path).value.Written?
    ensures path in WrittenPaths(dir, events)
  {
    var n := |events| - 1;
    var ev := events[n];
    if !(PluginFile(ev.file) && !ev.Other? && dir + "/" + ev.file == path) {
      LastWriteIsWritten(dir, events[..n], path);
    }
  }

  /** All written libraries load when they are handled on their own. */
  ghost predicate Loadable(dir: string, events: seq<FileEvent>, nameOf: string -> string) {
    forall k :: 0 <= k < |events| && events[k].Written? ==>
      var path := dir + "/" + events[k].file;
      |path| <= PATH_MAX && Loads(path, events[k].lib, events[k].initOk, nameOf)
  }

  lemma RoomAfter(w: World, dir: string, events: seq<FileEvent>, n: nat, nameOf: string -> string)
    requires Agree(w) && Named(w, nameOf) && Injective(nameOf)
    requires n < |events| && events[n].Written? && PluginFile(events[n].file)
    requires Loadable(dir, events, nameOf) && Feasible(w, dir, events[..n], nameOf)
    requires |PathsOf(w.slots) + WrittenPaths(dir, events)| < MAX_PLUGINS
    requires |LoadedPaths(w.slots) + WrittenPaths(dir, events)| <= MAX_SERVICES
    ensures Room(Updates(w, dir, events[..n]), dir + "/" + events[n].file)
  {
    hide Updates;
    hide Feasible;
    hide LoadedServices;
    hide LoadedHandles;
    hide LoadedHaveHandles;
    hide PathIndex;
    hide IsLoaded;
    var v, path := Updates(w, dir, events[..n]), dir + "/" + events[n].file;
    var written := WrittenPaths(dir, events);
    HotReloadConverges(w, dir, events[..n], nameOf);
    UpdatesPaths(w, dir, events[..n]);
    WrittenIs(dir, events, n);
    assert path in written;
    PathsCount(v.slots);
    SubsetSize(PathsOf(v.slots), PathsOf(w.slots) + written);
    if !IsLoaded(v, path) {
      forall q | q in LoadedPaths(v.slots)
        ensures q in LoadedPaths(w.slots) + written && q != path
      {
        LoadedPathsAre(v, q);
        LoadedPathsAre(w, q);
        if LastEvent(dir, events[..n], q).Some? {
          LastWriteIsWritten(dir, events[..n], q);
        }
      }
      LoadedPathsAre(v, path);
      SubsetSize(LoadedPaths(v.slots) + {path}, LoadedPaths(w.slots) + written);
      assert |multiset(v.registry.services)| == |LoadedPaths(v.slots)|;
    }
  }

  /** What a caller can check beforehand: if the slots in use and the distinct paths
      written are fewer than 64 together, and the loaded plugins and those paths at
      most 16, then every write finds room. */
  lemma {:induction false} EnoughRoom(w: World, dir: string, events: seq<FileEvent>, n: nat, nameOf: string -> string)
    requires Agree(w) && Named(w, nameOf) && Injective(nameOf) && n <= |events|
    requires Loadable(dir, events, nameOf)
    requires |PathsOf(w.slots) + WrittenPaths(dir, events)| < MAX_PLUGINS
    requires |LoadedPaths(w.slots) + WrittenPaths(dir, events)| <= MAX_SERVICES
    ensures Feasible(w, dir, events[..n], nameOf)
  {
    hide Updates;
    hide Loads;
    hide PathsOf;
    hide LoadedPaths;
    hide WrittenPaths;
    hide Named;
    hide Injective;
    hide Room;
    hide Agree;
    if n > 0 {
      EnoughRoom(w, dir, events, n - 1, nameOf);
      forall k | 0 <= k < n
        ensures events[..n][..k] == events[..k]
      {
      }
      forall k | 0 <= k < n && events[k].Written? && PluginFile(events[k].file)
        ensures Room(Updates(w, dir, events[..k]), dir + "/" + events[k].file)
      {
        if k == n - 1 {
          RoomAfter(w, dir, events, k, nameOf);
        } else {
          assert events[..n - 1][k] == events[k] && events[..n - 1][..k] == events[..k];
        }
      }
    }
  }

  /** Hot reload with the condition on the start alone. */
  lemma HotReloadWithRoom(w: World, dir: string, events: seq<FileEvent>, nameOf: string -> string)
    requires Agree(w) && Named(w, nameOf) && Injective(nameOf) && Loadable(dir, events, nameOf)
    requires |PathsOf(w.slots) + WrittenPaths(dir, events)| < MAX_PLUGINS
    requires |LoadedPaths(w.slots) + WrittenPaths(dir, events)| <= MAX_SERVICES
    ensures var v := Updates(w, dir, events);
            forall q :: match LastEvent(dir, events, q)
                        case Some(ev) => Follows(v, q, ev)
                        case None => Serving(v, q) == Serving(w, q)
  {
    EnoughRoom(w, dir, events, |events|, nameOf);
    assert events[..|events|] == events;
    HotReloadConverges(w, dir, events, nameOf);
  }

  // ----- The bound on slots -----

  /** With all slots used, or all services taken, nothing more is loaded. */
  lemma NoSlotNoLoad(w: World, path: string, lib: Library, initOk: bool)
    requires |w.slots| >= MAX_PLUGINS || (!IsLoaded(w, path) && |w.registry.services| >= MAX_SERVICES)
    ensures Load(w, path, lib, initOk).0 == w
  {
  }

  /** A write event leaves its plugin loaded if and only if there is room: a slot beyond
      those in use, even where the path has its own slot, because the capacity check
      comes before the slot is found again. */
  lemma ReloadLoadsIff(w: World, path: string, lib: Library, initOk: bool, nameOf: string -> string)
    requires Agree(w) && Named(w, nameOf) && Injective(nameOf)
    requires |path| <= PATH_MAX && Loads(path, lib, initOk, nameOf)
    ensures var v := Reload(w, path, lib, initOk).0;
            && (IsLoaded(v, path) <==> Room(w, path)) && (Room(w, path) ==> Serves(v, path, lib))
            && (forall q :: q != path ==> Serving(v, q) == Serving(w, q))
  {
    hide Load;
    hide UnloadPath;
    hide NameIndex;
    hide PathIndex;
    hide LoadedServices;
    hide LoadedHandles;
    hide DistinctPaths;
    UnloadPathUnloads(w, path, nameOf);
    var u := UnloadPath(w, path);
    if Room(w, path) {
      LoadLoads(u, path, lib, initOk, nameOf);
    } else {
      NoSlotNoLoad(u, path, lib, initOk);
    }
  }

  /** A written file whose name is `name` and the suffix is loaded exactly if there was
      room for it, and a deleted one is unloaded; nothing else changes. */
  lemma OneFileEvent(w: World, dir: string, name: string, lib: Library, initOk: bool, nameOf: string -> string)
    requires Agree(w) && Named(w, nameOf) && Injective(nameOf) && name != ""
    requires var path := dir + "/" + name + ".so"; |path| <= PATH_MAX && Loads(path, lib, initOk, nameOf)
    ensures var path := dir + "/" + name + ".so";
            var written := Updates(w, dir, [Written(name + ".so", lib, initOk)]);
            var deleted := Updates(w, dir, [Deleted(name + ".so")]);
            && (IsLoaded(written, path)
                <==> |w.slots| < 64 && (IsLoaded(w, path) || |w.registry.services| < 16))
            && (IsLoaded(written, path) ==> Serves(written, path, lib))
            && !IsLoaded(deleted, path)
            && forall q :: q != path ==>
                 Serving(written, q) == Serving(w, q) && Serving(deleted, q) == Serving(w, q)
  {
    hide Load;
    hide UnloadPath;
    hide Handle;
    hide Agree;
    hide IsLoaded;
    hide PluginFile;
    var path, file := dir + "/" + name + ".so", name + ".so";
    assert PluginFile(file) by { NamesFile(name); }
    assert dir + "/" + file == path;
    OneUpdate(w, dir, Written(file, lib, initOk));
    OneUpdate(w, dir, Deleted(file));
    HandleIs(w, dir, Written(file, lib, initOk));
    HandleIs(w, dir, Deleted(file));
    ReloadLoadsIff(w, path, lib, initOk, nameOf);
    UnloadPathUnloads(w, path, nameOf);
  }

  lemma NamesFile(name: string)
    requires name != ""
    ensures PluginFile(name + ".so")
  {
  }

  lemma OneUpdate(w: World, dir: string, ev: FileEvent)
    ensures Updates(w, dir, [ev]) == Handle(w, dir, ev)
  {
    hide Handle;
    assert [ev][..0] == [];
    assert Updates(w, dir, []) == w;
  }

  /** A library with a plugin that passes every check. */
  function Good(handle: nat, name: string, svc: Service): Library {
    Opened(handle, Some(Info(API_VERSION, name, svc)))
  }

  lemma RunStep(actions: seq<Action>, a: Action)
    ensures Run(EMPTY, actions + [a]) == Act(Run(EMPTY, actions), a)
  {
    assert (actions + [a])[..|actions|] == actions;
  }

  lemma RunNothing()
    ensures Run(EMPTY, []) == EMPTY
  {
  }

  /** Load and delete `n` plugins, each under its own number. */
  function FillRun(n: nat, svc: Service): seq<Action> {
    if n == 0 then []
    else FillRun(n - 1, svc)
         + [LoadCall(Decimal(n - 1), Good(n, Decimal(n - 1), svc), true), UnloadCall(Decimal(n - 1))]
  }

  /** Slots named by their paths, the numbers below `n`. */
  ghost predicate Numbered(w: World, n: nat) {
    && Agree(w) && |w.slots| == n
    && forall i :: 0 <= i < n ==> w.slots[i].path == w.slots[i].name == Decimal(i)
  }

  lemma OwnNames(w: World, n: nat)
    requires Numbered(w, n)
    ensures Named(w, p => p) && Injective(p => p)
  {
  }

  lemma NumberIsNew(w: World, n: nat)
    requires Numbered(w, n)
    ensures PathIndex(w.slots, Decimal(n)) == -1
  {
    var e := PathIndex(w.slots, Decimal(n));
    if e >= 0 {
      DecimalValue(e);
      DecimalValue(n);
    }
  }

  lemma {:induction false} NoServices(slots: seq<Slot>)
    requires forall i :: 0 <= i < |slots| ==> !slots[i].loaded
    ensures LoadedServices(slots) == multiset{}
  {
    if slots != [] {
      NoServices(slots[..|slots| - 1]);
    }
  }

  lemma NumberLoads(w: World, n: nat, svc: Service) returns (u: World)
    requires Numbered(w, n) && n < MAX_PLUGINS && forall q :: !IsLoaded(w, q)
    ensures u == Act(w, LoadCall(Decimal(n), Good(n + 1, Decimal(n), svc), true))
    ensures Numbered(u, n + 1) && forall q :: IsLoaded(u, q) <==> q == Decimal(n)
  {
    hide Load;
    hide PathIndex;
    hide NameIndex;
    hide LoadedServices;
    hide LoadedHandles;
    hide DistinctPaths;
    var path, lib := Decimal(n), Good(n + 1, Decimal(n), svc);
    assert Pow10(2) == 100;
    DecimalLength(n, 2);
    NumberIsNew(w, n);
    OwnNames(w, n);
    NoneRegistered(w);
    NameHitsPath(w, path, p => p) by { AgreeBounds(w); }
    LoadSucceeds(w, path, lib, true);
    LoadLoads(w, path, lib, true, p => p);
    u := Load(w, path, lib, true).0;
  }

  lemma NoneRegistered(w: World)
    requires Agree(w) && forall q :: !IsLoaded(w, q)
    ensures w.registry.services == []
  {
    forall i | 0 <= i < |w.slots|
      ensures !w.slots[i].loaded
    {
      PathIndexIs(w.slots, i);
      assert !IsLoaded(w, w.slots[i].path);
    }
    NoServices(w.slots);
    assert |multiset(w.registry.services)| == 0;
  }

  lemma NumberUnloads(u: World, n: nat)
    requires Numbered(u, n + 1) && forall q :: IsLoaded(u, q) <==> q == Decimal(n)
    ensures var v := Act(u, UnloadCall(Decimal(n))); Numbered(v, n + 1) && forall q :: !IsLoaded(v, q)
  {
    hide Unload;
    hide PathIndex;
    hide NameIndex;
    hide LoadedServices;
    hide LoadedHandles;
    OwnNames(u, n + 1);
    assert IsLoaded(u, Decimal(n));
    UnloadPathUnloads(u, Decimal(n), p => p);
    UnloadEffect(u, Decimal(n));
  }

  lemma {:induction false} FillRunFills(n: nat, svc: Service)
    requires n <= MAX_PLUGINS
    ensures var w := Run(EMPTY, FillRun(n, svc)); Numbered(w, n) && forall q :: !IsLoaded(w, q)
  {
    hide Act;
    hide Numbered;
    if n == 0 {
      RunNothing();
      assert Numbered(EMPTY, 0) by { EmptyNumbered(); }
    } else {
      FillRunFills(n - 1, svc);
      var w, k := Run(EMPTY, FillRun(n - 1, svc)), Decimal(n - 1);
      var load, unload := LoadCall(k, Good(n, k, svc), true), UnloadCall(k);
      var u := NumberLoads(w, n - 1, svc);
      NumberUnloads(u, n - 1);
      RunStep(FillRun(n - 1, svc), load);
      RunStep(FillRun(n - 1, svc) + [load], unload);
      assert FillRun(n - 1, svc) + [load] + [unload] == FillRun(n, svc);
    }
  }

  lemma EmptyNumbered()
    ensures Numbered(EMPTY, 0)
  {
  }

  /** A full table is reached from a fresh start, with a single plugin loaded; writing
      that plugin's file, with any library that would load, takes it away. */
  lemma FullTableLosesPlugin(svc: Service, lib: Library, initOk: bool)
    requires var path := Decimal(MAX_PLUGINS - 1); Loads(path, lib, initOk, p => p)
    ensures var path := Decimal(MAX_PLUGINS - 1);
            var w := Run(EMPTY, FillRun(MAX_PLUGINS - 1, svc) + [LoadCall(path, Good(MAX_PLUGINS, path, svc), true)]);
            && |w.slots| == MAX_PLUGINS && IsLoaded(w, path)
            && !IsLoaded(Reload(w, path, lib, initOk).0, path)
  {
    hide Act;
    hide Reload;
    hide Load;
    var n, path := MAX_PLUGINS - 1, Decimal(MAX_PLUGINS - 1);
    FillRunFills(n, svc);
    RunStep(FillRun(n, svc), LoadCall(path, Good(n + 1, path, svc), true));
    var w := NumberLoads(Run(EMPTY, FillRun(n, svc)), n, svc);
    OwnNames(w, n + 1);
    assert Pow10(2) == 100;
    DecimalLength(n, 2);
    ReloadLoadsIff(w, path, lib, initOk, p => p);
  }
}
