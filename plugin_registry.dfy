/** The plugin registry of Tk\Plugin\Factory: which plugins are available on disk, which
    are active (a row in the `plugin` table), the plugin objects held in memory, and the
    two-phase activation and deactivation with their compensating table writes.
    The database, the filesystem, the PHP runtime and the plugins' own code are inputs. */
module PluginRegistry {
  import opened PluginNames

  /** A plugin object held by the registry, known by its cleaned name; the class it was
      built from follows from that name (its persisted id and its back-reference to the
      registry are not modelled). */
  datatype Instance = Instance(name: string)

  /** The exceptions the registry raises. */
  datatype Error =
    | AlreadyActive                    // 'Plugin currently active.'
    | NotActive                        // 'Plugin currently inactive.'
    | InstantiateInactive(name: string) // 'Cannot instantiate an inactive plugin: ...'
    | MissingEntryFile                 // 'Cannot locate plugin file. ...'
    | WrongInterface(className: string) // 'Plugin class uses the incorrect interface: ...'
    | ActivateHookFailed(name: string)   // doActivate() threw; re-thrown wrapped
    | DeactivateHookFailed(name: string) // doDeactivate() threw; re-thrown wrapped
    | InitHookFailed(name: string)       // doInit() threw; propagates unwrapped

  datatype Outcome = Pass | Fail(error: Error)

  datatype Result<T> = Ok(value: T) | Err(error: Error)

  datatype Option<T> = None | Some(value: T)

  /** The filesystem as the registry sees it. */
  datatype Disk = Disk(
    dirs: set<string>,              // the paths is_dir() accepts
    files: set<string>,             // the paths is_file() accepts
    listing: seq<string>,           // what scandir() returns for the plugin root, in order
    manifests: map<string, string>) // readable composer.json path -> its "version" ("" if none)

  /** What the plugins' code decides. The classes PHP has declared change as entry files
      are included, so they are state of the registry (Factory.declared), not a part of this. */
  datatype Runtime = Runtime(
    conforming: set<string>,        // class names whose objects implement Iface
    failsInit: set<string>,         // cleaned names of plugins whose doInit() throws
    failsActivate: set<string>,     // ... whose doActivate() throws
    failsDeactivate: set<string>)   // ... whose doDeactivate() throws

  /** The version written for a plugin whose manifest gives none. */
  const PlaceholderVersion: string := "0.0.0"

  /** The version getPluginInfo reports for a plugin without a readable composer.json. */
  const FallbackInfoVersion: string := "0.0.1"

  function ManifestFile(root: string, name: string): (r: string) {
    PluginPath(root, name) + "/composer.json"
  }

  function EntryFile(root: string, name: string): (r: string) {
    PluginPath(root, name) + "/" + StartupClass + ".php"
  }

  /** getPluginInfo(name)->version. */
  function InfoVersion(root: string, disk: Disk, name: string): (r: string) {
    var file := ManifestFile(root, name);
    if file in disk.manifests then disk.manifests[file] else FallbackInfoVersion
  }

  /** The version activatePlugin writes: the manifest's unless PHP's empty() holds of it
      ("" and "0"), then the placeholder. */
  function VersionToWrite(version: string): (r: string)
    ensures r != "" && r != "0"
    ensures r == version || r == PlaceholderVersion
    ensures !IsFalsy(version) ==> r == version
  {
    if IsFalsy(version) then PlaceholderVersion else version
  }

  /** makePluginInstance fails to find the code: the class is not among the declared ones
      and the entry file `<plugin path>/Plugin.php` is not there. */
  predicate EntryMissing(root: string, disk: Disk, declared: set<string>, name: string) {
    DefaultClassname(name) !in declared && EntryFile(root, name) !in disk.files
  }

  /** The declared classes after makePluginInstance looked for a plugin's code: when its
      class is unknown and its entry file exists, include_once declares the class. */
  function AfterInclude(root: string, disk: Disk, declared: set<string>, name: string): (r: set<string>)
    ensures declared <= r <= declared + {DefaultClassname(name)}
    ensures DefaultClassname(name) in r <==> !EntryMissing(root, disk, declared, name)
  {
    if DefaultClassname(name) !in declared && EntryFile(root, name) in disk.files
    then declared + {DefaultClassname(name)}
    else declared
  }

  /** The plugin's class implements the plugin interface. */
  predicate Conforms(rt: Runtime, name: string) {
    DefaultClassname(name) in rt.conforming
  }

  /** Every held object is the one built for the cleaned form of its key, and a plugin
      held under its own clean name has its row in the table. */
  ghost predicate Coherent(table: map<string, string>, active: map<string, Instance>) {
    && (forall k :: k in active ==> active[k] == Instance(CleanPluginName(k)))
    && (forall k :: k in active && IsCleanName(k) ==> k in table)
  }

  /** Holding the object of a plugin that has its row, under any name that cleans to it,
      keeps the maps coherent. */
  lemma HoldKeepsCoherent(table: map<string, string>, active: map<string, Instance>, key: string)
    requires Coherent(table, active) && CleanPluginName(key) in table
    ensures Coherent(table, active[key := Instance(CleanPluginName(key))])
  {
    var held := active[key := Instance(CleanPluginName(key))];
    forall k | k in held
      ensures held[k] == Instance(CleanPluginName(k))
      ensures IsCleanName(k) ==> k in table
    {
      if k == key {
        CleanFixedPoint(key);
      }
    }
  }

  /** Dropping a plugin's row together with the object held under its clean name keeps
      the maps coherent. */
  lemma DropKeepsCoherent(table: map<string, string>, active: map<string, Instance>, c: string)
    requires Coherent(table, active)
    ensures Coherent(table - {c}, active - {c})
  {
  }

  // ---------------------------------------------------------------------------
  // getAvailablePlugins
  // ---------------------------------------------------------------------------

  /** A directory entry getAvailablePlugins keeps: it starts with neither '.' nor '_',
      and the plugin path made from it is a directory. */
  predicate IsPluginDir(root: string, disk: Disk, entry: string) {
    !(|entry| > 0 && (entry[0] == '.' || entry[0] == '_')) && PluginPath(root, entry) in disk.dirs
  }

  /** The entries getAvailablePlugins keeps, as a test on one entry. */
  function KeepsEntry(root: string, disk: Disk): (keep: string -> bool) {
    e => IsPluginDir(root, disk, e)
  }

  /** The entries of xs that keep accepts, in their order. */
  function Filter(keep: string -> bool, xs: seq<string>): (r: seq<string>) {
    if xs == [] then []
    else
      var last := xs[|xs| - 1];
      Filter(keep, xs[..|xs| - 1]) + (if keep(last) then [last] else [])
  }

  /** The names getAvailablePlugins returns: nothing when the plugin root is not a
      directory, otherwise the kept entries of its listing. */
  function AvailablePlugins(root: string, disk: Disk): (r: seq<string>) {
    if PluginPath(root, "") in disk.dirs then Filter(KeepsEntry(root, disk), disk.listing) else []
  }

  lemma {:induction false} FilterMembership(keep: string -> bool, xs: seq<string>, e: string)
    ensures e in Filter(keep, xs) <==> e in xs && keep(e)
  {
    if xs != [] {
      var init := xs[..|xs| - 1];
      FilterMembership(keep, init, e);
      assert xs == init + [xs[|xs| - 1]];
    }
  }

  /** Filtering respects concatenation, so the kept entries keep the listing's order. */
  lemma {:induction false} FilterAppend(keep: string -> bool, a: seq<string>, b: seq<string>)
    ensures Filter(keep, a + b) == Filter(keep, a) + Filter(keep, b)
  {
    if b == [] {
      assert a + b == a;
    } else {
      var init, last := b[..|b| - 1], b[|b| - 1];
      FilterAppend(keep, a, init);
      assert (a + b)[..|a + b| - 1] == a + init && (a + b)[|a + b| - 1] == last;
      var tail := if keep(last) then [last] else [];
      assert Filter(keep, a + b) == Filter(keep, a + init) + tail;
      assert Filter(keep, b) == Filter(keep, init) + tail;
    }
  }

  /** An entry is available exactly when the root is a directory, the entry is listed,
      it starts with neither '.' nor '_', and its plugin path is a directory. */
  lemma AvailableMembership(root: string, disk: Disk, e: string)
    ensures e in AvailablePlugins(root, disk) <==>
      root in disk.dirs && e in disk.listing && IsPluginDir(root, disk, e)
  {
    FilterMembership(KeepsEntry(root, disk), disk.listing, e);
  }

  /** An entry named "0" is kept even when it is a plain file: its plugin path is the
      root, which is a directory. */
  lemma AvailableKeepsZeroFile(root: string, disk: Disk)
    requires root in disk.dirs && disk.listing == ["0"]
    ensures AvailablePlugins(root, disk) == ["0"]
  {
    PluginPathOfZeroIsRoot(root);
    assert PluginPath(root, "") == root;
    assert KeepsEntry(root, disk)("0");
    assert disk.listing[..0] == [];
    assert Filter(KeepsEntry(root, disk), disk.listing) == Filter(KeepsEntry(root, disk), []) + ["0"];
  }

  // ---------------------------------------------------------------------------
  // initActivePlugins, as a function of its inputs
  // ---------------------------------------------------------------------------

  /** What one step of initActivePlugins raises for a plugin that has its row, given the
      classes declared before the step: its code is missing, its class has the wrong
      interface, or its doInit hook throws. */
  function InitStep(root: string, disk: Disk, rt: Runtime, declared: set<string>, c: string): (r: Outcome) {
    if EntryMissing(root, disk, declared, c) then Fail(MissingEntryFile)
    else if !Conforms(rt, c) then Fail(WrongInterface(DefaultClassname(c)))
    else if c in rt.failsInit then Fail(InitHookFailed(c))
    else Pass
  }

  /** Where a run of initActivePlugins ends: its outcome, the held objects and the
      declared classes. */
  datatype InitResult = InitResult(outcome: Outcome, active: map<string, Instance>, declared: set<string>)

  /** initActivePlugins over `entries` in order, from the held objects `active` and the
      declared classes `declared`: an entry without a row is passed over, an entry with a
      row is held under its listed name, and the first step that fails ends the run. */
  function InitRun(root: string, disk: Disk, rt: Runtime, table: map<string, string>,
                   entries: seq<string>, active: map<string, Instance>, declared: set<string>): (r: InitResult)
    decreases |entries|
  {
    if entries == [] then InitResult(Pass, active, declared)
    else
      var e := entries[0];
      var c := CleanPluginName(e);
      if c !in table then InitRun(root, disk, rt, table, entries[1..], active, declared)
      else
        var d := AfterInclude(root, disk, declared, c);
        match InitStep(root, disk, rt, declared, c)
        case Fail(err) => InitResult(Fail(err), active, d)
        case Pass => InitRun(root, disk, rt, table, entries[1..], active[e := Instance(c)], d)
  }

  /** One step of a run over entries[i..]: an entry without a row is passed over, a step
      that passes holds the entry and goes on, and a step that fails ends the run. */
  lemma InitRunUnfold(root: string, disk: Disk, rt: Runtime, table: map<string, string>,
                      entries: seq<string>, i: int, active: map<string, Instance>, declared: set<string>)
    requires 0 <= i < |entries|
    ensures var e := entries[i];
      var c := CleanPluginName(e);
      var step := InitStep(root, disk, rt, declared, c);
      var d := AfterInclude(root, disk, declared, c);
      InitRun(root, disk, rt, table, entries[i..], active, declared) ==
        if c !in table then InitRun(root, disk, rt, table, entries[i + 1..], active, declared)
        else if step == Pass then InitRun(root, disk, rt, table, entries[i + 1..], active[e := Instance(c)], d)
        else InitResult(step, active, d)
  {
    assert entries[i..][0] == entries[i] && entries[i..][1..] == entries[i + 1..];
  }

  /** A run only adds: the declared classes and the held names it started with remain. */
  lemma {:induction false} InitRunGrows(root: string, disk: Disk, rt: Runtime, table: map<string, string>,
                                        entries: seq<string>, active: map<string, Instance>, declared: set<string>)
    ensures var run := InitRun(root, disk, rt, table, entries, active, declared);
      declared <= run.declared && active.Keys <= run.active.Keys
    decreases |entries|
  {
    if entries != [] {
      var c := CleanPluginName(entries[0]);
      var d := AfterInclude(root, disk, declared, c);
      if c !in table {
        InitRunGrows(root, disk, rt, table, entries[1..], active, declared);
      } else if InitStep(root, disk, rt, declared, c) == Pass {
        InitRunGrows(root, disk, rt, table, entries[1..], active[entries[0] := Instance(c)], d);
      }
    }
  }

  /** Every name a run holds was held before or is a listed entry that has its row. */
  lemma {:induction false} InitRunKeys(root: string, disk: Disk, rt: Runtime, table: map<string, string>,
                                       entries: seq<string>, active: map<string, Instance>, declared: set<string>)
    ensures var run := InitRun(root, disk, rt, table, entries, active, declared);
      forall k :: k in run.active ==> k in active || (k in entries && CleanPluginName(k) in table)
    decreases |entries|
  {
    if entries != [] {
      var c := CleanPluginName(entries[0]);
      var d := AfterInclude(root, disk, declared, c);
      if c !in table {
        InitRunKeys(root, disk, rt, table, entries[1..], active, declared);
      } else if InitStep(root, disk, rt, declared, c) == Pass {
        InitRunKeys(root, disk, rt, table, entries[1..], active[entries[0] := Instance(c)], d);
      }
    }
  }

  /** A run passes exactly when the step of every listed entry that has its row passes
      against the classes declared at the end; then every such entry is held. */
  lemma {:induction false} InitRunPasses(root: string, disk: Disk, rt: Runtime, table: map<string, string>,
                                         entries: seq<string>, active: map<string, Instance>, declared: set<string>)
    ensures var run := InitRun(root, disk, rt, table, entries, active, declared);
      (run.outcome == Pass <==>
        forall e :: e in entries && CleanPluginName(e) in table ==>
          InitStep(root, disk, rt, run.declared, CleanPluginName(e)) == Pass) &&
      (run.outcome == Pass ==>
        forall e :: e in entries && CleanPluginName(e) in table ==> e in run.active)
    decreases |entries|
  {
    if entries != [] {
      var e0 := entries[0];
      var rest := entries[1..];
      var c := CleanPluginName(e0);
      var d := AfterInclude(root, disk, declared, c);
      assert forall e :: e in entries <==> e == e0 || e in rest by {
        assert entries == [e0] + rest;
      }
      if c !in table {
        InitRunPasses(root, disk, rt, table, rest, active, declared);
      } else if InitStep(root, disk, rt, declared, c) == Pass {
        var held := active[e0 := Instance(c)];
        InitRunPasses(root, disk, rt, table, rest, held, d);
        InitRunGrows(root, disk, rt, table, rest, held, d);
      }
    }
  }

  /** The run `run` stopped at entries[j]: that entry has its row and its step raises the
      run's outcome against the classes declared at the end, and every entry with a row
      listed before it passed its step and is held. */
  ghost predicate StopsAt(root: string, disk: Disk, rt: Runtime, table: map<string, string>,
                          entries: seq<string>, run: InitResult, j: int) {
    && 0 <= j < |entries|
    && CleanPluginName(entries[j]) in table
    && InitStep(root, disk, rt, run.declared, CleanPluginName(entries[j])) == run.outcome
    && forall i :: 0 <= i < j && CleanPluginName(entries[i]) in table ==>
         entries[i] in run.active && InitStep(root, disk, rt, run.declared, CleanPluginName(entries[i])) == Pass
  }

  /** Stopping at rest[j] is stopping at entry j + 1 once an entry is put in front that
      either has no row or passed and is held. */
  lemma StopsAtShift(root: string, disk: Disk, rt: Runtime, table: map<string, string>,
                     e0: string, rest: seq<string>, run: InitResult, j: int)
    requires StopsAt(root, disk, rt, table, rest, run, j)
    requires CleanPluginName(e0) in table ==>
      e0 in run.active && InitStep(root, disk, rt, run.declared, CleanPluginName(e0)) == Pass
    ensures StopsAt(root, disk, rt, table, [e0] + rest, run, j + 1)
  {
    var entries := [e0] + rest;
    forall i | 0 <= i < j + 1 && CleanPluginName(entries[i]) in table
      ensures entries[i] in run.active && InitStep(root, disk, rt, run.declared, CleanPluginName(entries[i])) == Pass
    {
      if i > 0 {
        assert entries[i] == rest[i - 1];
      }
    }
  }

  /** A run that fails stopped at the first listed entry with a row whose step fails. */
  lemma {:induction false} InitRunFailure(root: string, disk: Disk, rt: Runtime, table: map<string, string>,
                                          entries: seq<string>, active: map<string, Instance>, declared: set<string>)
    ensures var run := InitRun(root, disk, rt, table, entries, active, declared);
      run.outcome.Fail? ==> exists j :: StopsAt(root, disk, rt, table, entries, run, j)
    decreases |entries|
  {
    var run := InitRun(root, disk, rt, table, entries, active, declared);
    if entries != [] && run.outcome.Fail? {
      var e0 := entries[0];
      var rest := entries[1..];
      assert entries == [e0] + rest;
      var c := CleanPluginName(e0);
      var d := AfterInclude(root, disk, declared, c);
      if c !in table {
        InitRunFailure(root, disk, rt, table, rest, active, declared);
        var j :| StopsAt(root, disk, rt, table, rest, run, j);
        StopsAtShift(root, disk, rt, table, e0, rest, run, j);
      } else if InitStep(root, disk, rt, declared, c) == Pass {
        var held := active[e0 := Instance(c)];
        InitRunFailure(root, disk, rt, table, rest, held, d);
        InitRunGrows(root, disk, rt, table, rest, held, d);
        var j :| StopsAt(root, disk, rt, table, rest, run, j);
        StopsAtShift(root, disk, rt, table, e0, rest, run, j);
      } else {
        assert StopsAt(root, disk, rt, table, entries, run, 0);
      }
    }
  }

  /** A class declared by including one plugin's entry file serves a plugin listed later
      whose default class it is too ("bar" and "foo-bar" both use \bar\Plugin): both are
      held even when only the first one's entry file exists. */
  lemma SharedClassIncludedOnce(root: string, disk: Disk, rt: Runtime, table: map<string, string>,
                                declared: set<string>, a: string, b: string)
    requires IsCleanName(a) && IsCleanName(b) && a in table && b in table
    requires DefaultClassname(a) == DefaultClassname(b) && DefaultClassname(a) !in declared
    requires EntryFile(root, a) in disk.files && Conforms(rt, a)
    requires a !in rt.failsInit && b !in rt.failsInit
    ensures InitRun(root, disk, rt, table, [a, b], map[], declared) ==
      InitResult(Pass, map[a := Instance(a), b := Instance(b)], declared + {DefaultClassname(a)})
  {
    var cls := DefaultClassname(a);
    CleanFixedPoint(a);
    CleanFixedPoint(b);
    assert [a, b][1..] == [b] && [b][1..] == [];
    assert InitStep(root, disk, rt, declared, a) == Pass;
    assert AfterInclude(root, disk, declared, a) == declared + {cls};
    assert InitStep(root, disk, rt, declared + {cls}, b) == Pass;
    assert AfterInclude(root, disk, declared + {cls}, b) == declared + {cls};
    var held := map[a := Instance(a)];
    assert InitRun(root, disk, rt, table, [a, b], map[], declared) ==
      InitRun(root, disk, rt, table, [b], held, declared + {cls});
    assert InitRun(root, disk, rt, table, [b], held, declared + {cls}) ==
      InitRun(root, disk, rt, table, [], held[b := Instance(b)], declared + {cls});
  }

  // ---------------------------------------------------------------------------
  // The registry object
  // ---------------------------------------------------------------------------

  class Factory {
    /** The plugin root directory. */
    const pluginPath: string
    /** The `plugin` table: one row per active plugin, its name and version. */
    var table: map<string, string>
    /** The plugin objects held in memory (activePlugins). */
    var active: map<string, Instance>
    /** The classes the PHP process has declared so far: class_exists() answers from it,
        and including a plugin's entry file adds that plugin's class. This is state of the
        process rather than of the object; it is kept here because the registry's methods
        are what change it. */
    var declared: set<string>

    /** The table and the held objects are coherent. */
    ghost predicate Valid()
      reads this
    {
      Coherent(table, active)
    }

    /** The object's fields before initActivePlugins runs. */
    constructor (pluginPath: string, table: map<string, string>, declared: set<string>)
      ensures this.pluginPath == pluginPath && this.table == table && active == map[]
      ensures this.declared == declared
      ensures Valid()
    {
      this.pluginPath := pluginPath;
      this.table := table;
      active := map[];
      this.declared := declared;
    }

    /** isActive: the cleaned name has a row. */
    predicate IsActive(name: string)
      reads this
    {
      CleanPluginName(name) in table
    }

    /** dbActivate: inserts a row for the cleaned name; the unique key on `name` keeps an
        existing row as it is. */
    method DbActivate(name: string, version: string)
      modifies this
      ensures var c := CleanPluginName(name);
        table == (if c in old(table) then old(table) else old(table)[c := version])
      ensures active == old(active) && declared == old(declared)
    {
      var c := CleanPluginName(name);
      if c !in table {
        table := table[c := version];
      }
    }

    /** dbDeactivate: deletes the row of the cleaned name. */
    method DbDeactivate(name: string)
      modifies this
      ensures table == old(table) - {CleanPluginName(name)}
      ensures active == old(active) && declared == old(declared)
    {
      table := table - {CleanPluginName(name)};
    }

    /** getPlugin: the object held under the cleaned name, if any; only objects whose
        plugin has its row in the table are found. */
    function GetPlugin(name: string): (r: Option<Instance>)
      reads this
      requires Valid()
      ensures r.Some? <==> CleanPluginName(name) in active
      ensures r.Some? ==> r.value == Instance(CleanPluginName(name)) && IsActive(name)
    {
      var c := CleanPluginName(name);
      CleanIdempotent(name);
      if c in active then Some(active[c]) else None
    }

    /** getAvailablePlugins: the listing of the plugin root without the entries that
        start with '.' or '_' or whose plugin path is not a directory, in listing order. */
    method GetAvailablePlugins(disk: Disk) returns (available: seq<string>)
      ensures available == AvailablePlugins(pluginPath, disk)
    {
      available := [];
      if PluginPath(pluginPath, "") in disk.dirs {
        var fileList := disk.listing;
        var i := 0;
        while i < |fileList|
          invariant 0 <= i <= |fileList|
          invariant available == Filter(KeepsEntry(pluginPath, disk), fileList[..i])
        {
          var plugPath := fileList[i];
          assert fileList[..i + 1][..i] == fileList[..i];
          if IsPluginDir(pluginPath, disk, plugPath) {
            available := available + [plugPath];
          }
          i := i + 1;
        }
        assert fileList[..i] == fileList;
      }
    }

    /** deactivatePlugin. A plugin whose row exists but that is not held succeeds without
        any change. The hook runs before the row is deleted, so when it throws the
        re-inserted row is the one that was there. */
    method DeactivatePlugin(name: string, disk: Disk, rt: Runtime) returns (r: Outcome)
      requires Valid()
      modifies this
      ensures Valid() && declared == old(declared)
      ensures var c := CleanPluginName(name);
        if c !in old(table) then
          r == Fail(NotActive) && table == old(table) && active == old(active)
        else if c !in old(active) then
          r == Pass && table == old(table) && active == old(active)
        else if c in rt.failsDeactivate then
          r == Fail(DeactivateHookFailed(c)) && table == old(table) && active == old(active)
        else
          r == Pass && table == old(table) - {c} && active == old(active) - {c}
    {
      var c := CleanPluginName(name);
      CleanIdempotent(name);
      if !IsActive(c) {
        return Fail(NotActive);
      }
      if c in active {
        // the held object is never empty, so the `return false` branch cannot be taken;
        // the DEACTIVATE event is dispatched here
        var version := VersionToWrite(InfoVersion(pluginPath, disk, c));
        if c in rt.failsDeactivate {
          // doDeactivate() threw before the row was deleted
          DbActivate(c, version);
          return Fail(DeactivateHookFailed(c));
        }
        DropKeepsCoherent(table, active, c);
        DbDeactivate(c);
        active := active - {c};
      }
      return Pass;
    }

    /** makePluginInstance: only for a plugin with a row; when its code cannot be found
        it calls deactivatePlugin and then raises MissingEntryFile (or the deactivation's
        own error). Looking for the code may include the entry file, which declares the
        plugin's class. */
    method MakePluginInstance(name: string, disk: Disk, rt: Runtime) returns (r: Result<Instance>)
      requires Valid()
      modifies this
      ensures Valid()
      ensures var c := CleanPluginName(name);
        declared == if c in old(table) then AfterInclude(pluginPath, disk, old(declared), c) else old(declared)
      ensures var c := CleanPluginName(name);
        if c !in old(table) then
          r == Err(InstantiateInactive(c)) && table == old(table) && active == old(active)
        else if !EntryMissing(pluginPath, disk, old(declared), c) then
          table == old(table) && active == old(active) &&
          r == (if Conforms(rt, c) then Ok(Instance(c)) else Err(WrongInterface(DefaultClassname(c))))
        else if c !in old(active) then
          r == Err(MissingEntryFile) && table == old(table) && active == old(active)
        else if c in rt.failsDeactivate then
          r == Err(DeactivateHookFailed(c)) && table == old(table) && active == old(active)
        else
          r == Err(MissingEntryFile) && table == old(table) - {c} && active == old(active) - {c}
    {
      var c := CleanPluginName(name);
      CleanIdempotent(name);
      if !IsActive(c) {
        return Err(InstantiateInactive(c));
      }
      var cls := DefaultClassname(c);
      if cls !in declared {
        if EntryFile(pluginPath, c) !in disk.files {
          var d := DeactivatePlugin(c, disk, rt);
          if d.Fail? {
            return Err(d.error);
          }
          return Err(MissingEntryFile);
        }
        // include_once of the entry file declares the class
        declared := declared + {cls};
      }
      if cls !in rt.conforming {
        return Err(WrongInterface(cls));
      }
      return Ok(Instance(c));
    }

    /** activatePlugin. The row is written before the object is made; when the hook throws
        the row is deleted again, but when the code cannot be found the error leaves the
        row in place and nothing is held. */
    method ActivatePlugin(name: string, disk: Disk, rt: Runtime) returns (r: Outcome)
      requires Valid()
      modifies this
      ensures Valid()
      ensures var c := CleanPluginName(name);
        declared == if c in old(table) then old(declared) else AfterInclude(pluginPath, disk, old(declared), c)
      ensures var c := CleanPluginName(name);
        var v := VersionToWrite(InfoVersion(pluginPath, disk, c));
        if c in old(table) then
          r == Fail(AlreadyActive) && table == old(table) && active == old(active)
        else if EntryMissing(pluginPath, disk, old(declared), c) then
          r == Fail(MissingEntryFile) && table == old(table)[c := v] && active == old(active)
        else if !Conforms(rt, c) then
          r == Fail(WrongInterface(DefaultClassname(c))) && table == old(table)[c := v] && active == old(active)
        else if c in rt.failsActivate then
          r == Fail(ActivateHookFailed(c)) && table == old(table) && active == old(active)
        else
          r == Pass && table == old(table)[c := v] && active == old(active)[c := Instance(c)]
    {
      var c := CleanPluginName(name);
      CleanIdempotent(name);
      if IsActive(c) {
        return Fail(AlreadyActive);
      }
      r := ActivateNew(name, disk, rt);
    }

    /** activatePlugin for a plugin without a row: write the row, then make the object
        and run doActivate. */
    method ActivateNew(name: string, disk: Disk, rt: Runtime) returns (r: Outcome)
      requires Valid() && CleanPluginName(name) !in table
      modifies this
      ensures Valid()
      ensures declared == AfterInclude(pluginPath, disk, old(declared), CleanPluginName(name))
      ensures var c := CleanPluginName(name);
        var v := VersionToWrite(InfoVersion(pluginPath, disk, c));
        if EntryMissing(pluginPath, disk, old(declared), c) then
          r == Fail(MissingEntryFile) && table == old(table)[c := v] && active == old(active)
        else if !Conforms(rt, c) then
          r == Fail(WrongInterface(DefaultClassname(c))) && table == old(table)[c := v] && active == old(active)
        else if c in rt.failsActivate then
          r == Fail(ActivateHookFailed(c)) && table == old(table) && active == old(active)
        else
          r == Pass && table == old(table)[c := v] && active == old(active)[c := Instance(c)]
    {
      var c := CleanPluginName(name);
      CleanIdempotent(name);
      assert c !in active;
      var version := VersionToWrite(InfoVersion(pluginPath, disk, c));
      // the ACTIVATE event is dispatched here
      DbActivate(c, version);
      r := ActivateRow(c, disk, rt, old(table), version);
    }

    /** The part of activatePlugin after the row for `c` is written: make the object and
        run doActivate, deleting the row again when the hook throws. */
    method ActivateRow(c: string, disk: Disk, rt: Runtime, ghost before: map<string, string>, ghost v: string)
        returns (r: Outcome)
      requires Valid() && c !in active && CleanPluginName(c) == c
      requires c !in before && table == before[c := v]
      modifies this
      ensures Valid()
      ensures declared == AfterInclude(pluginPath, disk, old(declared), c)
      ensures if EntryMissing(pluginPath, disk, old(declared), c) then
          r == Fail(MissingEntryFile) && table == before[c := v] && active == old(active)
        else if !Conforms(rt, c) then
          r == Fail(WrongInterface(DefaultClassname(c))) && table == before[c := v] && active == old(active)
        else if c in rt.failsActivate then
          r == Fail(ActivateHookFailed(c)) && table == before && active == old(active)
        else
          r == Pass && table == before[c := v] && active == old(active)[c := Instance(c)]
    {
      var made := MakePluginInstance(c, disk, rt);
      // makePluginInstance returns an object or throws, so `if ($plugin)` always holds
      if made.Err? {
        return Fail(made.error);
      }
      if c in rt.failsActivate {
        // doActivate() threw: delete the row again
        DbDeactivate(c);
        assert table == before;
        return Fail(ActivateHookFailed(c));
      }
      HoldKeepsCoherent(table, active, c);
      active := active[c := made.value];
      return Pass;
    }

    /** One step of initActivePlugins for an entry that has a row: make its object, run
        its doInit hook and hold it under the entry as listed. A held plugin's class is
        declared, so the deactivation inside makePluginInstance never happens here. */
    method InitPlugin(pluginName: string, disk: Disk, rt: Runtime) returns (r: Outcome)
      requires Valid() && IsActive(pluginName)
      requires CleanPluginName(pluginName) in active ==>
        DefaultClassname(CleanPluginName(pluginName)) in declared
      modifies this
      ensures Valid() && table == old(table)
      ensures var c := CleanPluginName(pluginName);
        r == InitStep(pluginPath, disk, rt, old(declared), c) &&
        declared == AfterInclude(pluginPath, disk, old(declared), c) &&
        active == if r == Pass then old(active)[pluginName := Instance(c)] else old(active)
    {
      var c := CleanPluginName(pluginName);
      var made := MakePluginInstance(pluginName, disk, rt);
      if made.Err? {
        return Fail(made.error);
      }
      if c in rt.failsInit {
        // doInit() threw
        return Fail(InitHookFailed(c));
      }
      HoldKeepsCoherent(table, active, pluginName);
      active := active[pluginName := made.value];
      return Pass;
    }

    /** initActivePlugins: rebuilds the held objects from the available entries that have
        a row, keyed by the entry as listed, and stops at the first step that fails. The
        table is never changed: the deactivation inside makePluginInstance finds nothing
        held. */
    method InitActivePlugins(disk: Disk, rt: Runtime) returns (r: Outcome)
      requires Valid()
      modifies this
      ensures Valid() && table == old(table)
      ensures var run := InitRun(pluginPath, disk, rt, old(table), AvailablePlugins(pluginPath, disk), map[], old(declared));
        r == run.outcome && active == run.active && declared == run.declared
    {
      var available := GetAvailablePlugins(disk);
      active := map[];
      var i := 0;
      while i < |available|
        invariant 0 <= i <= |available|
        invariant Valid() && table == old(table)
        invariant forall k :: k in active ==> DefaultClassname(CleanPluginName(k)) in declared
        invariant InitRun(pluginPath, disk, rt, table, available[i..], active, declared) ==
          InitRun(pluginPath, disk, rt, old(table), available, map[], old(declared))
      {
        var pluginName := available[i];
        InitRunUnfold(pluginPath, disk, rt, table, available, i, active, declared);
        if IsActive(pluginName) {
          CleanIdempotent(pluginName);
          var step := InitPlugin(pluginName, disk, rt);
          if step.Fail? {
            return step;
          }
        }
        i := i + 1;
      }
      return Pass;
    }
  }

  /** The constructor: the fields, then initActivePlugins. */
  method Create(pluginPath: string, table: map<string, string>, declared: set<string>, disk: Disk, rt: Runtime)
    returns (f: Factory, r: Outcome)
    ensures fresh(f) && f.Valid()
    ensures f.pluginPath == pluginPath && f.table == table
    ensures var run := InitRun(pluginPath, disk, rt, table, AvailablePlugins(pluginPath, disk), map[], declared);
      r == run.outcome && f.active == run.active && f.declared == run.declared
  {
    f := new Factory(pluginPath, table, declared);
    r := f.InitActivePlugins(disk, rt);
  }

  /** Deactivation undoes activation: when a plugin without a row is activated and then
      deactivated, and its code, its interface and both hooks succeed, the table and the
      held objects are as they were. */
  method ActivateThenDeactivate(f: Factory, name: string, disk: Disk, rt: Runtime)
    returns (activated: Outcome, deactivated: Outcome)
    requires f.Valid()
    requires var c := CleanPluginName(name);
      c !in f.table && !EntryMissing(f.pluginPath, disk, f.declared, c) && Conforms(rt, c) &&
      c !in rt.failsActivate && c !in rt.failsDeactivate
    modifies f
    ensures activated == Pass && deactivated == Pass
    ensures f.Valid() && f.table == old(f.table) && f.active == old(f.active)
    ensures f.declared == AfterInclude(f.pluginPath, disk, old(f.declared), CleanPluginName(name))
  {
    var c := CleanPluginName(name);
    CleanIdempotent(name);
    CleanFixedPoint(c);
    var v := VersionToWrite(InfoVersion(f.pluginPath, disk, c));
    RemoveUndoesAdd(f.table, c, v);
    RemoveUndoesAdd(f.active, c, Instance(c));
    activated := f.ActivatePlugin(name, disk, rt);
    deactivated := f.DeactivatePlugin(name, disk, rt);
  }

  /** Removing a key just added to a map that lacked it gives the map back. */
  lemma RemoveUndoesAdd<V>(m: map<string, V>, k: string, v: V)
    requires k !in m
    ensures m[k := v] - {k} == m
  {
  }
}
