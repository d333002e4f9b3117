# Plugin registry of Tk\Plugin\Factory, modelled in Dafny

`Tk\Plugin\Factory` is the plugin registry of the Tk framework. It looks for plugins
in a plugin root directory. It records which plugins are active in a `plugin` database
table, one row per active plugin holding its name and version. For every active
plugin it keeps an object in memory (`activePlugins`). Activation writes the row, runs
the plugin's `doActivate` hook and deletes the row again when the hook throws.
Deactivation runs the plugin's `doDeactivate` hook first and deletes the row after it;
when the hook throws, it re-inserts the row, which is still there.

The model has two modules.

- `PluginNames` (`plugin_names.dfy`) holds the pure string functions of the registry:
  - `cleanPluginName`;
  - `getPluginPath`;
  - the default (non-psr-0) branch of `makePluginClassname`;
  - the PHP primitives they use (`strrpos`, `substr`, `trim`, `preg_replace`), written out.
- `PluginRegistry` (`plugin_registry.dfy`) holds the registry itself: a class `Factory`
  whose fields are those the source updates.
  - `table: map<string, string>` is the `plugin` table, from cleaned name to version.
    `isActive` is key membership, `dbActivate` an insert, `dbDeactivate` a delete.
  - `active: map<string, Instance>` is `activePlugins`.
  - `declared: set<string>` holds the classes the PHP process has declared so far.
    `class_exists` reads it, and the `include_once` of a plugin's entry file adds that
    plugin's class. It is process state rather than a field of the PHP object. It is
    kept on `Factory` because the registry's methods are what change it.
  - `activatePlugin`, `deactivatePlugin`, `makePluginInstance` and `initActivePlugins`
    are methods that change these fields step by step, as the source does.
  - `getAvailablePlugins` is a loop over the directory listing.
  - The filesystem (`Disk`) and what the plugins' own code decides (`Runtime`) are
    inputs. `Runtime` covers whether a class implements the plugin interface, and
    which hooks throw.
  - An exception is an `Outcome`/`Result` value holding an `Error` kind.

Every stateful method states its complete outcome, including the error paths. Most
do so as one case split over the inputs. `initActivePlugins` is a loop that stops at
the first failure, so its outcome is stated as equal to `InitRun`. `InitRun` is a
function that runs the same steps over the listing. Lemmas about `InitRun` then say:

- when the run passes (both directions);
- at which entry a failed run stopped, and why;
- which names end up held.

The case splits also cover three quirks of the code:

- `deactivatePlugin` on a plugin that has its row but no object in memory returns
  true and changes nothing.
- When `activatePlugin` cannot find the plugin's code, the deactivation inside
  `makePluginInstance` finds no object and does nothing. The error is raised outside
  the `try`, so the row written before it stays in the table.
- `deactivatePlugin` runs `doDeactivate` before deleting the row. When the hook throws,
  the compensating `dbActivate` re-inserts a row that is still there. Because `name`
  is a unique key, that insert leaves the table as it was.

The class invariant `Valid` holds for every object the registry keeps:

- each held object is the one built for the cleaned form of its key;
- a plugin held under its own clean name has its row.

`activatePlugin`, `deactivatePlugin`, `makePluginInstance` and `initActivePlugins`
preserve it.

### Behaviour of the code worth knowing

- `makePluginInstance` calls `deactivatePlugin` when the plugin's code is missing
  (Tk/Plugin/Factory.php:320). That call undoes only a plugin whose object is held.
  During `activatePlugin` and `initActivePlugins` no such object exists, so the row
  stays in the table (`ActivatePlugin`, `MakePluginInstance`).
- `activatePlugin` catches only what `doActivate` throws
  (Tk/Plugin/Factory.php:218-225). A wrong interface or a missing entry file is raised
  by `makePluginInstance`, before that `try`, so the row written at
  Tk/Plugin/Factory.php:214 stays with no object held.
- `initActivePlugins` has no `try` around `doInit` (Tk/Plugin/Factory.php:297-300).
  A failing `doInit` ends the loop with its own exception. The model reports it as
  `InitHookFailed`, with the table unchanged.
- `deactivatePlugin` catches what `doDeactivate` throws and re-inserts the row
  (Tk/Plugin/Factory.php:257-265). Because the row was never deleted, the table is as
  it was.
- In the code, `if ($plugin)` after `makePluginInstance` always holds, because that
  function either returns an object or throws. The model has no silent branch there.
- PHP's `!$pluginName` in `getPluginPath` is true for the string `"0"`, so the plugin
  named `0` resolves to the plugin root (`PluginPathOfZeroIsRoot`,
  `AvailableKeepsZeroFile`). The model keeps this behaviour.
- A class declared by including one plugin's entry file stays declared. A later plugin
  whose default class is the same (`bar` and `foo-bar` both use `\bar\Plugin`) finds
  it without an entry file of its own (`SharedClassIncludedOnce`).

## Model

| member | source | states |
|---|---|---|
| PluginNames.CleanPluginName | Tk/Plugin/Factory.php:446-452 | the result holds only `[a-zA-Z0-9_-]` characters, so it has no `/` and no `.` |
| PluginNames.CleanKeepsOwnCharacters | Tk/Plugin/Factory.php:446-452 | every character of the cleaned name occurs in the input |
| PluginNames.CleanFixedPoint | Tk/Plugin/Factory.php:446-452 | a name is left unchanged by cleaning exactly when it is already clean (both directions) |
| PluginNames.CleanIdempotent | Tk/Plugin/Factory.php:446-452 | cleaning twice gives the same as cleaning once |
| PluginNames.CleanIgnoresDirectory | Tk/Plugin/Factory.php:448-450 | `cleanPluginName(dir + "/" + name) == cleanPluginName(name)` for every dir and name |
| PluginNames.LastIndexOf | Tk/Plugin/Factory.php:449 | `strrpos`: `-1` (PHP's `false`) or an index of the input holding `c` after which no `c` follows |
| PluginNames.TextAfterLast | Tk/Plugin/Factory.php:448-450 | the text after the last `c` has no `c`; it is the whole input when there is no `c`, and otherwise it is preceded by a `c` |
| PluginNames.AfterLastIsSuffix | Tk/Plugin/Factory.php:449 | the text after the last `c` is a suffix of the input |
| PluginNames.AfterLastIgnoresPrefix | Tk/Plugin/Factory.php:448-450 | a prefix ending in `c` does not change the text after the last `c` |
| PluginNames.LastIndexAfterPrefix | Tk/Plugin/Factory.php:449 | where the last `c` of `p + s` lies: shifted into `s` when `s` has a `c`, else the last `c` of `p` |
| PluginNames.StripDisallowed | Tk/Plugin/Factory.php:451 | the `preg_replace` result is never longer than its input and holds only characters in `[a-zA-Z0-9_-]`; its value is fixed by `StripDisallowedKeepsNameChars`, `StripAppend` and `StripOne` |
| PluginNames.StripDisallowedKeepsNameChars | Tk/Plugin/Factory.php:451 | the `preg_replace` result is clean and holds exactly the input's characters in `[a-zA-Z0-9_-]` |
| PluginNames.StripAppend | Tk/Plugin/Factory.php:451 | the `preg_replace` works character by character: stripping `a + b` is stripping `a` followed by stripping `b` |
| PluginNames.StripOne | Tk/Plugin/Factory.php:451 | a single character is kept exactly when it is in `[a-zA-Z0-9_-]` |
| PluginNames.StripKeepsCleanText | Tk/Plugin/Factory.php:451 | the `preg_replace` leaves an already clean string unchanged |
| PluginNames.TrimLeft | Tk/Plugin/Factory.php:387 | the leading half of `trim` (also used at :363) is never longer than its input; characterised by `TrimLeftSpec` |
| PluginNames.TrimRight | Tk/Plugin/Factory.php:387 | the trailing half of `trim` is never longer than its input; characterised by `TrimRightSpec` |
| PluginNames.Trim | Tk/Plugin/Factory.php:387 | `trim(s, chars)`, as at :363 and :387, is never longer than its input; characterised by `TrimSpec` |
| PluginNames.TrimLeftSpec | Tk/Plugin/Factory.php:387 | the left part of `trim` is the suffix left after a run of trimmed characters, and does not start with one; a no-op on a string without one |
| PluginNames.TrimRightSpec | Tk/Plugin/Factory.php:387 | the right part of `trim` is the prefix left before a run of trimmed characters, and does not end with one; a no-op on a string without one |
| PluginNames.TrimSpec | Tk/Plugin/Factory.php:387 | `trim` is the slice between a leading and a trailing run of trimmed characters; it neither starts nor ends with one, and is a no-op on a string without one |
| PluginNames.PluginPath | Tk/Plugin/Factory.php:383-388 | the root when the cleaned name is `""` or `"0"`, otherwise `root + "/" + cleanPluginName(name)` (the `trim` of `/` changes nothing) |
| PluginNames.IsFalsy | Tk/Plugin/Factory.php:386 | definition of PHP's `!$s` on a string (also `empty()` of the version at :204): exactly `""` and `"0"`; see `PluginPathOfZeroIsRoot` and `VersionToWrite` |
| PluginNames.PluginPathStaysUnderRoot | Tk/Plugin/Factory.php:383-388 | a plugin path is the root or the root plus one clean segment without `/` or `.` |
| PluginNames.PluginPathOfZeroIsRoot | Tk/Plugin/Factory.php:385-386 | the plugin named `0`, and `x/0`, resolve to the root itself |
| PluginNames.DashOutsideLowerAlnum | Tk/Plugin/Factory.php:370 | the `preg_replace` keeps the length, keeps every `[a-z0-9]` character in place and turns every other character into `-` |
| PluginNames.ClassNamespace | Tk/Plugin/Factory.php:363-373 | definition of `$ns` in the default branch; see `ClassNamespaceIsTrailingRun` |
| PluginNames.DashedSuffix | Tk/Plugin/Factory.php:370-373 | the text after the last `-` of the dashed name is the longest run of `[a-z0-9]` that ends the name |
| PluginNames.TrimKeepsCleanName | Tk/Plugin/Factory.php:363 | the whitespace `trim` of a cleaned name changes nothing |
| PluginNames.ClassNamespaceIsTrailingRun | Tk/Plugin/Factory.php:363-373 | the class namespace holds only `[a-z0-9]` (so no `-`) and is the longest such run ending the cleaned name |
| PluginNames.DefaultClassname | Tk/Plugin/Factory.php:361-375 | definition of the default branch of `makePluginClassname`; see `DefaultClassnameCharacterized` |
| PluginNames.WrappedNamespaceInjective | Tk/Plugin/Factory.php:374 | the namespace can be read back from `"\\" + ns + "\\Plugin"` |
| PluginNames.DefaultClassnameCharacterized | Tk/Plugin/Factory.php:361-375 | the default class name is `"\\" + ns + "\\Plugin"` exactly when `ns` is the longest `[a-z0-9]` run ending the cleaned name (both directions) |
| PluginRegistry.VersionToWrite | Tk/Plugin/Factory.php:203-204 | the version written is the manifest's whenever PHP's `empty()` does not hold of it, and `0.0.0` otherwise; it is never `""` or `"0"` |
| PluginRegistry.ManifestFile | Tk/Plugin/Factory.php:399 | definition of the manifest path `<plugin path>/composer.json`; used by `InfoVersion` |
| PluginRegistry.InfoVersion | Tk/Plugin/Factory.php:396-405 | definition of `getPluginInfo(name)->version`: the readable manifest's version, otherwise `0.0.1`; see `ActivatePlugin` and `VersionToWrite` |
| PluginRegistry.EntryFile | Tk/Plugin/Factory.php:318 | definition of the entry file path `<plugin path>/Plugin.php`; used by `EntryMissing` and `AfterInclude` |
| PluginRegistry.EntryMissing | Tk/Plugin/Factory.php:317-319 | definition of the `!class_exists && !is_file` test; see `AfterInclude` and `MakePluginInstance` |
| PluginRegistry.Conforms | Tk/Plugin/Factory.php:329 | definition of the `instanceof Iface` test on the plugin's default class; see `MakePluginInstance` and `InitStep` |
| PluginRegistry.AfterInclude | Tk/Plugin/Factory.php:318-325 | looking for a plugin's code adds at most its default class to the declared classes, and that class is declared afterwards exactly when the code was found |
| PluginRegistry.HoldKeepsCoherent | Tk/Plugin/Factory.php:217-220 | holding the object of a plugin that has its row keeps the invariant |
| PluginRegistry.DropKeepsCoherent | Tk/Plugin/Factory.php:257-260 | deleting a row together with its held object keeps the invariant |
| PluginRegistry.Filter | Tk/Plugin/Factory.php:346-350 | definition of the `unset` loop as a filter in listing order; see `FilterMembership` and `FilterAppend` |
| PluginRegistry.IsPluginDir | Tk/Plugin/Factory.php:347 | definition of the test that keeps an entry: it does not start with `.` or `_` and its plugin path is a directory; see `AvailableMembership` and `AvailableKeepsZeroFile` |
| PluginRegistry.KeepsEntry | Tk/Plugin/Factory.php:347 | definition of the same test as a function over entries, handed to `Filter`; see `AvailableMembership` |
| PluginRegistry.AvailablePlugins | Tk/Plugin/Factory.php:341-353 | definition of `getAvailablePlugins`' result; see `AvailableMembership`, `AvailableKeepsZeroFile` and `Factory.GetAvailablePlugins` |
| PluginRegistry.FilterMembership | Tk/Plugin/Factory.php:346-350 | an entry survives the filter exactly when it is listed and accepted (both directions) |
| PluginRegistry.FilterAppend | Tk/Plugin/Factory.php:341-353 | filtering a concatenation concatenates the filtered parts, so the listing order is kept |
| PluginRegistry.AvailableMembership | Tk/Plugin/Factory.php:341-353 | an entry is available exactly when the root is a directory, the entry is listed, it starts with neither `.` nor `_`, and its plugin path is a directory |
| PluginRegistry.AvailableKeepsZeroFile | Tk/Plugin/Factory.php:347-348 | an entry `0` is kept even when it is a plain file, because its plugin path is the root |
| PluginRegistry.InitStep | Tk/Plugin/Factory.php:313-331 | definition of what one `makePluginInstance` plus `doInit` raises for a plugin with a row: `MissingEntryFile`, `WrongInterface`, `InitHookFailed`, or nothing; see `Factory.InitPlugin` |
| PluginRegistry.InitRun | Tk/Plugin/Factory.php:290-303 | definition of the `initActivePlugins` loop over a listing; see `InitRunGrows`, `InitRunKeys`, `InitRunPasses`, `InitRunFailure` |
| PluginRegistry.InitRunUnfold | Tk/Plugin/Factory.php:293-301 | one pass of the loop body over `entries[i]`: skipped without a row, held on success, the run ends on failure |
| PluginRegistry.InitRunGrows | Tk/Plugin/Factory.php:290-303 | a run of `initActivePlugins` only adds held names and declared classes |
| PluginRegistry.InitRunKeys | Tk/Plugin/Factory.php:290-303 | every name a run holds was held before, or is a listed entry whose cleaned name has a row |
| PluginRegistry.InitRunPasses | Tk/Plugin/Factory.php:290-303 | a run passes exactly when every listed entry with a row has its code, the right interface and a `doInit` that does not throw (both directions); then every such entry is held |
| PluginRegistry.InitRunFailure | Tk/Plugin/Factory.php:290-303 | a failed run stopped at a listed entry with a row whose step raises the run's error; every entry with a row before it passed and is held |
| PluginRegistry.SharedClassIncludedOnce | Tk/Plugin/Factory.php:316-323 | two plugins with one default class are both held after a run when only the first one's entry file exists, because its `include_once` declared the class |
| PluginRegistry.Factory.constructor | Tk/Plugin/Factory.php:61-68 | the plugin root, the table and the declared classes are set and nothing is held yet; the invariant holds |
| PluginRegistry.Factory.IsActive | Tk/Plugin/Factory.php:418-427 | definition: the cleaned name has a row in the table |
| PluginRegistry.Factory.DbActivate | Tk/Plugin/Factory.php:270-276 | inserts the cleaned name with the version unless the row exists; nothing held changes |
| PluginRegistry.Factory.DbDeactivate | Tk/Plugin/Factory.php:278-283 | deletes the cleaned name's row; nothing held changes |
| PluginRegistry.Factory.GetPlugin | Tk/Plugin/Factory.php:118-124 | finds an object exactly when one is held under the cleaned name; it is that plugin's object, and the plugin has its row |
| PluginRegistry.Factory.GetAvailablePlugins | Tk/Plugin/Factory.php:341-353 | returns `AvailablePlugins`: the listing without `.`/`_` entries and non-directories, in order, or nothing when the root is not a directory |
| PluginRegistry.Factory.DeactivatePlugin | Tk/Plugin/Factory.php:237-268 | no row: `NotActive`, no change; row but no object: success, no change; hook throws: error, table and objects as before; otherwise success with the row and the object removed; keeps the invariant |
| PluginRegistry.Factory.MakePluginInstance | Tk/Plugin/Factory.php:310-334 | no row: `InstantiateInactive` with the cleaned name; code found: the plugin's class is declared afterwards, then the plugin's object or `WrongInterface` with the table and objects unchanged; code missing: `deactivatePlugin` runs first (nothing held: no change; its hook throws: that error, no change; otherwise the row and the object are removed), then `MissingEntryFile` |
| PluginRegistry.Factory.ActivatePlugin | Tk/Plugin/Factory.php:196-228 | row exists: `AlreadyActive`, no change; otherwise the plugin's class is declared afterwards when its code was found; code missing or wrong interface: error, row stays, nothing held; hook throws: error, table and objects as before; otherwise success with the row written (version or `0.0.0`) and the object held |
| PluginRegistry.Factory.ActivateNew | Tk/Plugin/Factory.php:202-227 | for a plugin without a row: the row is written with the manifest's version or `0.0.0`, then each outcome of making the object and running the hook leaves the table and the held objects as `ActivatePlugin` states |
| PluginRegistry.Factory.ActivateRow | Tk/Plugin/Factory.php:216-226 | with the row just written: code missing or wrong interface keeps the row and holds nothing; a throwing hook deletes the row again; otherwise the object is held under the clean name; keeps the invariant |
| PluginRegistry.Factory.InitPlugin | Tk/Plugin/Factory.php:295-300 | one entry with a row: the step's outcome is `InitStep` on the classes declared before it; on success the object is held under the entry as listed; the class is declared when the code was found; the table never changes |
| PluginRegistry.Factory.InitActivePlugins | Tk/Plugin/Factory.php:290-303 | the table is unchanged, and the outcome, the held objects and the declared classes are those of `InitRun` over the available entries from nothing held |
| PluginRegistry.Create | Tk/Plugin/Factory.php:61-68 | a new registry with the given root, table and declared classes, whose outcome, held objects and declared classes are those of `InitRun`; on failure only the declared classes mean anything (see "## Left out") |
| PluginRegistry.ActivateThenDeactivate | Tk/Plugin/Factory.php:196-268 | activating a plugin without a row and then deactivating it, when its code is found and both hooks succeed, restores the table and the held objects; only the plugin's class stays declared |

## Left out

- The `install` DDL for each database driver, and the SQL text of `dbActivate`,
  `dbDeactivate`, `isActive` and `getDbPlugin`, are left out. The table is a map. Its
  keys are compared case-sensitively, as pgsql and sqlite compare them. Under MySQL's
  default collation `isActive("Foo")` holds when the row is `foo`, and the unique key
  of the `install` DDL (Tk/Plugin/Factory.php:152) refuses `Foo` beside `foo`; that
  case-insensitive matching is not modelled.
- The persisted `id` and the `NOW()` timestamp of a row are left out. Only the name
  and the version are kept.
- Create: when `initActivePlugins` raises, the exception escapes `__construct`
  (Tk/Plugin/Factory.php:67), so `new static(...)` at :81 yields no object. The model
  still returns `f`, which stands for that unreachable half-built object. After a
  failure only `f.declared` means anything: the classes the PHP process declared before
  the failure stay declared.
- DbActivate: an insert of an existing name is modelled as rejected by the unique
  key, with the table unchanged. Whether the database layer then raises is not
  modelled.
- `getPluginInfo` is an input. `Disk.manifests` gives the `version` of each readable
  `composer.json`, and `0.0.1` is used when no file is readable. JSON decoding, the
  `name` and `time` fields and `filectime` are left out.
- DeactivatePlugin reads the version from the held object's `getInfo()`. That is
  assumed to be what `getPluginInfo` gives for the same name, because the plugin base
  class is not part of this model.
- The psr-0 branch of `makePluginClassname` is left out; only the default branch is
  modelled. It depends on the manifest's autoload section and on `class_exists`.
- `class_exists` and `include_once` are modelled through the declared classes. After
  `include_once` of the entry file, exactly the plugin's default class is taken to be
  declared. An entry file that declares another class, or none, is not modelled.
  `new $class` and `instanceof Iface` are inputs (`Runtime`).
- ActivatePlugin: hook failures are taken to be PHP `\Exception`s, which the
  `catch (\Exception $e)` at Tk/Plugin/Factory.php:221 handles by deleting the row. A
  `doActivate` that throws a PHP `\Error` escapes that catch and leaves the row in
  place. That case is not modelled.
- DeactivatePlugin: likewise, a `doDeactivate` that throws a PHP `\Error` escapes the
  catch at Tk/Plugin/Factory.php:261. The table and the held objects are then as
  modelled for an `\Exception`, but the error is not the wrapped one.
- `isComposer` is left out. It uses Composer's class loader and a regular expression
  built with `preg_quote`.
- Event dispatch (ACTIVATE, DEACTIVATE), `vd` debug output, the `getInstance`
  singleton, `getDispatcher`, `getConfig`, `getDb`/`setDb` and `getTable` are left out.
  They are collaborators with no logic of their own.
- Exception messages, codes and the wrapping of hook exceptions are left out. An error
  is its kind plus a name. `InstantiateInactive` carries the cleaned plugin name of its
  message (Tk/Plugin/Factory.php:314), and `WrongInterface` the class name of its
  message (:330). `MissingEntryFile`, `AlreadyActive` and `NotActive` carry nothing,
  as their messages name nothing. `ActivateHookFailed`, `DeactivateHookFailed` and
  `InitHookFailed` carry the cleaned plugin name to say whose hook threw; the source's
  message there is the hook's own `$e->getMessage()` (:224, :264, :298), which is not
  modelled.
- GetAvailablePlugins builds the kept entries in a new sequence. The source
  `unset`s rejected entries of the listing array in place and then renumbers it with
  `array_merge`. The result is the same sequence.
- The plugin objects' own state and their back-reference to the registry
  (`setPluginFactory`) are left out. An object is known by its cleaned name, and its
  class follows from that name.
