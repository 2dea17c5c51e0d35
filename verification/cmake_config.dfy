/**
  Configuration loading in `scripts/cmake.py`. The `Builder` loads the JSON
  files named on its command line in sorted order, merging each into its
  configuration, and keeps a guard: for every top-level setting, the base
  name of the file that set it last. A file that overwrites a setting made
  by any file other than `config-base.json` draws a warning. The guard of
  a nested dict is a fresh `{}` that is dropped afterwards, so only
  top-level settings are tracked.

  The file system is a parameter (`files`, from argument to parsed JSON
  object). Warnings are collected as values instead of printed.
 */
module CMakeConfig {
  import Strings
  import SortedStrings
  import opened ConfigTree
  import opened Wrappers

  /** The one file whose settings may be overwritten without a warning. */
  const BaseConfig: string := "config-base.json"

  /** The printed warning: the setting, its old value and file, its new value and file. */
  datatype Warning = Warning(key: string, previous: Value, previousFile: string, value: Value, file: string)

  /** `Path(path).name`: the last `/`-separated component. */
  function BaseName(path: string): (name: string)
    ensures '/' !in name
  {
    var parts := Strings.Split(path, '/');
    parts[|parts| - 1]
  }

  /** The name of a file inside a directory is the file's own name, whatever the directory. */
  lemma BaseNameInDirectory(dir: string, name: string)
    requires '/' !in name
    ensures BaseName(dir + "/" + name) == name
    ensures BaseName(name) == name
  {
    Strings.SplitConcat(dir, name, '/');
    Strings.SplitWithoutSeparator(name, '/');
    assert dir + "/" + name == dir + ['/'] + name;
  }

  /** Every guarded setting is present at the top level and is not a dict. */
  predicate GuardConsistent(config: map<string, Value>, guard: map<string, string>)
  {
    forall k :: k in guard ==> k in config && !config[k].Object?
  }

  /** The guard after a file: each top-level non-dict setting of the file is now owned by it. */
  function Claim(guard: map<string, string>, frag: map<string, Value>, file: string): map<string, string>
  {
    guard + map k | k in frag && !frag[k].Object? :: file
  }

  /**
    The warnings a file draws: one for each non-dict setting of the file whose key
    is owned by a file other than the base file. A warning names the setting, its
    value before and after, the owning file and the file that overwrites it.
   */
  function Overrides(config: map<string, Value>, guard: map<string, string>, frag: map<string, Value>, file: string): set<Warning>
  {
    set k | k in frag && !frag[k].Object? && k in guard && guard[k] != BaseConfig && k in config ::
      Warning(k, config[k], guard[k], frag[k], file)
  }

  /** Claiming keeps every guarded setting a present non-dict one, whether or not the merge raises. */
  lemma ClaimKeepsConsistent(config: map<string, Value>, guard: map<string, string>, frag: map<string, Value>, file: string)
    requires GuardConsistent(config, guard)
    ensures GuardConsistent(Merge(config, frag), Claim(guard, frag, file))
  {
    var merged, claimed := Merge(config, frag), Claim(guard, frag, file);
    forall k | k in claimed ensures k in merged && !merged[k].Object? {
      MergeLookup(config, frag, k);
    }
  }

  /**
    The state the loop of `__init__` carries from file to file. One file draws
    at most one warning per key, so its warnings form a set; across files the
    same warning can be printed again, so they are collected as a multiset.
   */
  datatype Loaded = Loaded(config: map<string, Value>, guard: map<string, string>, warnings: multiset<Warning>)

  /** Loading one file over state `s`: `None` when it is missing or its merge raises. */
  function LoadOne(s: Loaded, path: string, files: map<string, map<string, Value>>): Option<Loaded>
  {
    if path !in files || !Compatible(s.config, files[path]) then None
    else
      var name := BaseName(path);
      Some(Loaded(Merge(s.config, files[path]), Claim(s.guard, files[path], name),
                  s.warnings + multiset(Overrides(s.config, s.guard, files[path], name))))
  }

  /** Loading `paths` in the order given; `None` when some file is missing or some merge raises. */
  function LoadAll(start: Loaded, paths: seq<string>, files: map<string, map<string, Value>>): Option<Loaded>
    decreases |paths|
  {
    if |paths| == 0 then Some(start)
    else match LoadAll(start, paths[..|paths| - 1], files)
      case None => None
      case Some(s) => LoadOne(s, paths[|paths| - 1], files)
  }

  class Builder {
    var config: map<string, Value>
    var configGuard: map<string, string>

    ghost predicate Valid()
      reads this
    {
      GuardConsistent(config, configGuard)
    }

    /** The class defaults `config = {}` and `config_guard = {}`. */
    constructor ()
      ensures Valid() && config == map[] && configGuard == map[]
    {
      config := map[];
      configGuard := map[];
    }

    /**
      `_update_config(config, new_config, config_guard, config_filename)`:
      the merge of the query script, with the guard claimed and the
      warnings drawn at the top level. A nested dict is merged with a
      fresh empty guard, so it draws no warning.
     */
    static method UpdateConfig(config: map<string, Value>, newConfig: map<string, Value>,
                               configGuard: map<string, string>, configFilename: string)
      returns (r: map<string, Value>, guard: map<string, string>, warnings: set<Warning>, ok: bool)
      requires GuardConsistent(config, configGuard)
      ensures ok <==> Compatible(config, newConfig)
      ensures ok ==> r == Merge(config, newConfig)
      ensures ok ==> guard == Claim(configGuard, newConfig, configFilename)
      ensures ok ==> warnings == Overrides(config, configGuard, newConfig, configFilename)
      ensures ok ==> GuardConsistent(r, guard)
      decreases Object(newConfig)
    {
      r, guard, warnings := config, configGuard, {};
      var todo := newConfig.Keys;
      TrackedStart(config, configGuard, newConfig, configFilename);
      while todo != {}
        invariant MergedSoFar(config, newConfig, todo, r)
        invariant Tracked(config, configGuard, newConfig, todo, configFilename, guard, warnings)
        decreases todo
      {
        var key :| key in todo;
        var newValue := newConfig[key];
        UntouchedKey(config, newConfig, todo, r, key);
        if newValue.Object? {
          TrackedDict(config, configGuard, newConfig, todo, configFilename, guard, warnings, key);
          var current := if key in r then r[key] else Object(map[]);
          if !current.Object? {
            if newValue.fields != map[] {
              // `.get` or an item assignment on a string, number, list or None raises
              return r, guard, warnings, false;
            }
            KeepStep(config, newConfig, todo, r, key);
          } else {
            if key !in r {
              EmptyIsCompatible(newValue.fields);
            }
            // the fresh guard owns no key, so the nested call draws no warning
            var merged, _, _, mergedOk := UpdateConfig(current.fields, newValue.fields, map[], configFilename);
            if !mergedOk {
              return r, guard, warnings, false;
            }
            MergeStep(config, newConfig, todo, r, key, merged);
            r := r[key := Object(merged)];
          }
        } else {
          TrackedScalar(config, configGuard, newConfig, todo, configFilename, guard, warnings, key);
          if key in guard && guard[key] != BaseConfig {
            warnings := warnings + {Warning(key, r[key], guard[key], newValue, configFilename)};
          }
          guard := guard[key := configFilename];
          ScalarStep(config, newConfig, todo, r, key);
          r := r[key := newValue];
        }
        todo := todo - {key};
      }
      MergedEverything(config, newConfig, r);
      TrackedEverything(config, configGuard, newConfig, configFilename, guard, warnings);
      ClaimKeepsConsistent(config, configGuard, newConfig, configFilename);
      ok := true;
    }

    /** `_load_config(config_filename)`: open the file, merge it in, record its base name. */
    method LoadConfig(path: string, files: map<string, map<string, Value>>) returns (ok: bool, warnings: set<Warning>)
      requires Valid()
      modifies this
      ensures Valid()
      ensures ok <==> path in files && Compatible(old(config), files[path])
      ensures ok ==> config == Merge(old(config), files[path])
      ensures ok ==> configGuard == Claim(old(configGuard), files[path], BaseName(path))
      ensures ok ==> warnings == Overrides(old(config), old(configGuard), files[path], BaseName(path))
    {
      if path !in files {
        return false, {};
      }
      var merged, guard, drawn, mergedOk := UpdateConfig(config, files[path], configGuard, BaseName(path));
      if !mergedOk {
        return false, {};
      }
      config, configGuard := merged, guard;
      return true, drawn;
    }

    /** The loop `for config_json in sorted(args.configs_json): self._load_config(config_json)`. */
    method LoadConfigs(args: seq<string>, files: map<string, map<string, Value>>) returns (ok: bool, warnings: multiset<Warning>)
      requires Valid()
      modifies this
      ensures Valid()
      ensures ok <==> LoadAll(Loaded(old(config), old(configGuard), multiset{}), SortedStrings.Sort(args), files).Some?
      ensures ok ==> LoadAll(Loaded(old(config), old(configGuard), multiset{}), SortedStrings.Sort(args), files) ==
                     Some(Loaded(config, configGuard, warnings))
    {
      var paths := SortedStrings.Sort(args);
      var start := Loaded(config, configGuard, multiset{});
      warnings := multiset{};
      for i := 0 to |paths|
        invariant Valid()
        invariant LoadAll(start, paths[..i], files) == Some(Loaded(config, configGuard, warnings))
      {
        assert paths[..i + 1][..i] == paths[..i];
        var loaded, drawn := LoadConfig(paths[i], files);
        if !loaded {
          LoadAllStopsAtFailure(start, paths, files, i + 1);
          return false, warnings;
        }
        warnings := warnings + multiset(drawn);
      }
      assert paths[..|paths|] == paths;
      return true, warnings;
    }
  }

  /** The guard and the warnings the loop of `UpdateConfig` has built from the keys of `newConfig` outside `todo`. */
  ghost predicate Tracked(config: map<string, Value>, configGuard: map<string, string>, newConfig: map<string, Value>,
                          todo: set<string>, file: string, guard: map<string, string>, warnings: set<Warning>)
  {
    todo <= newConfig.Keys &&
    guard == Claim(configGuard, newConfig - todo, file) &&
    warnings == Overrides(config, configGuard, newConfig - todo, file)
  }

  lemma TrackedStart(config: map<string, Value>, configGuard: map<string, string>, newConfig: map<string, Value>, file: string)
    ensures Tracked(config, configGuard, newConfig, newConfig.Keys, file, configGuard, {})
  {
    assert newConfig - newConfig.Keys == map[];
  }

  /** A dict value claims nothing and draws no warning at the top level. */
  lemma TrackedDict(config: map<string, Value>, configGuard: map<string, string>, newConfig: map<string, Value>,
                    todo: set<string>, file: string, guard: map<string, string>, warnings: set<Warning>, key: string)
    requires Tracked(config, configGuard, newConfig, todo, file, guard, warnings)
    requires key in todo && newConfig[key].Object?
    ensures Tracked(config, configGuard, newConfig, todo - {key}, file, guard, warnings)
  {
    ClaimStep(configGuard, newConfig, todo, key, file);
    OverridesStepDict(config, configGuard, newConfig, todo, key, file);
  }

  /**
    A non-dict value is claimed by the file, and draws a warning when a file
    other than the base file owned the key; the owner seen by the loop is
    still the one from before the call.
   */
  lemma TrackedScalar(config: map<string, Value>, configGuard: map<string, string>, newConfig: map<string, Value>,
                      todo: set<string>, file: string, guard: map<string, string>, warnings: set<Warning>, key: string)
    requires GuardConsistent(config, configGuard)
    requires Tracked(config, configGuard, newConfig, todo, file, guard, warnings)
    requires key in todo && !newConfig[key].Object?
    ensures key in guard <==> key in configGuard
    ensures key in guard ==> guard[key] == configGuard[key] && key in config
    ensures Tracked(config, configGuard, newConfig, todo - {key}, file, guard[key := file],
                    warnings + if key in guard && guard[key] != BaseConfig
                               then {Warning(key, config[key], guard[key], newConfig[key], file)} else {})
  {
    ClaimUntouched(configGuard, newConfig, todo, key, file);
    ClaimStep(configGuard, newConfig, todo, key, file);
    OverridesStep(config, configGuard, newConfig, todo, key, file);
  }

  lemma TrackedEverything(config: map<string, Value>, configGuard: map<string, string>, newConfig: map<string, Value>,
                          file: string, guard: map<string, string>, warnings: set<Warning>)
    requires Tracked(config, configGuard, newConfig, {}, file, guard, warnings)
    ensures guard == Claim(configGuard, newConfig, file)
    ensures warnings == Overrides(config, configGuard, newConfig, file)
  {
    assert newConfig - {} == newConfig;
  }

  /** A key the loop has not reached yet has its old owner, if any. */
  lemma ClaimUntouched(guard: map<string, string>, frag: map<string, Value>, todo: set<string>, key: string, file: string)
    requires key in todo
    ensures key in Claim(guard, frag - todo, file) <==> key in guard
    ensures key in guard ==> Claim(guard, frag - todo, file)[key] == guard[key]
  {
  }

  /** One more key claimed by the loop of `UpdateConfig`. */
  lemma ClaimStep(guard: map<string, string>, frag: map<string, Value>, todo: set<string>, key: string, file: string)
    requires key in todo && todo <= frag.Keys
    ensures Claim(guard, frag - (todo - {key}), file) ==
            if frag[key].Object? then Claim(guard, frag - todo, file)
            else Claim(guard, frag - todo, file)[key := file]
  {
  }

  /** One more key checked against the guard by the loop of `UpdateConfig`. */
  lemma OverridesStep(config: map<string, Value>, guard: map<string, string>, frag: map<string, Value>,
                      todo: set<string>, key: string, file: string)
    requires key in todo && todo <= frag.Keys
    requires GuardConsistent(config, guard)
    ensures Overrides(config, guard, frag - (todo - {key}), file) ==
            Overrides(config, guard, frag - todo, file) +
            if !frag[key].Object? && key in guard && guard[key] != BaseConfig
            then {Warning(key, config[key], guard[key], frag[key], file)} else {}
  {
    var after, before := Overrides(config, guard, frag - (todo - {key}), file), Overrides(config, guard, frag - todo, file);
    forall w | w in after ensures w in before || w.key == key {
    }
  }

  /** A dict value draws no warning at its own level. */
  lemma OverridesStepDict(config: map<string, Value>, guard: map<string, string>, frag: map<string, Value>,
                       todo: set<string>, key: string, file: string)
    requires key in todo && todo <= frag.Keys && frag[key].Object?
    ensures Overrides(config, guard, frag - (todo - {key}), file) == Overrides(config, guard, frag - todo, file)
  {
    var after, before := Overrides(config, guard, frag - (todo - {key}), file), Overrides(config, guard, frag - todo, file);
    forall w | w in after ensures w in before {
    }
  }

  /** Once a prefix of the files fails to load, so does the whole list. */
  lemma {:induction false} LoadAllStopsAtFailure(start: Loaded, paths: seq<string>, files: map<string, map<string, Value>>, n: nat)
    requires n <= |paths|
    requires LoadAll(start, paths[..n], files).None?
    ensures LoadAll(start, paths, files).None?
    decreases |paths| - n
  {
    if n < |paths| {
      assert paths[..n + 1][..n] == paths[..n];
      LoadAllStopsAtFailure(start, paths, files, n + 1);
    } else {
      assert paths[..n] == paths;
    }
  }

  // ---------------------------------------------------------------------------
  // Properties of the loading loop

  /**
    The guard and the warnings do not change what is loaded: the configuration
    is the plain fold of `ConfigTree`, and loading fails exactly when a file is
    missing or a merge raises.
   */
  lemma {:induction false} LoadAllIsMergeAll(start: Loaded, paths: seq<string>, files: map<string, map<string, Value>>)
    ensures LoadAll(start, paths, files).Some? <==>
              (forall i :: 0 <= i < |paths| ==> paths[i] in files) && MergeAll(start.config, Fragments(paths, files)).Some?
    ensures LoadAll(start, paths, files).Some? ==>
              LoadAll(start, paths, files).value.config == MergeAll(start.config, Fragments(paths, files)).value
    decreases |paths|
  {
    if |paths| > 0 {
      var n := |paths| - 1;
      var prefix := paths[..n];
      var before := LoadAll(start, prefix, files);
      LoadAllIsMergeAll(start, prefix, files);
      assert LoadAll(start, paths, files) == if before.None? then None else LoadOne(before.value, paths[n], files);
      var allIn := forall i :: 0 <= i < |paths| ==> paths[i] in files;
      var prefixIn := forall i :: 0 <= i < n ==> prefix[i] in files;
      assert allIn <==> prefixIn && paths[n] in files by {
        assert forall i :: 0 <= i < n ==> prefix[i] == paths[i];
      }
      if !allIn {
        assert LoadAll(start, paths, files).None?;
      } else {
        assert paths[..n + 1] == paths;
        MergeAllNext(start.config, paths, files, n);
        if before.Some? {
          var merged := MergeAll(start.config, Fragments(prefix, files));
          assert merged == Some(before.value.config);
        }
      }
    }
  }

  /** Loading keeps the guard consistent with the configuration. */
  lemma {:induction false} LoadAllKeepsConsistent(start: Loaded, paths: seq<string>, files: map<string, map<string, Value>>)
    requires GuardConsistent(start.config, start.guard)
    requires LoadAll(start, paths, files).Some?
    ensures GuardConsistent(LoadAll(start, paths, files).value.config, LoadAll(start, paths, files).value.guard)
    decreases |paths|
  {
    if |paths| > 0 {
      var n := |paths| - 1;
      LoadAllKeepsConsistent(start, paths[..n], files);
      var s := LoadAll(start, paths[..n], files).value;
      ClaimKeepsConsistent(s.config, s.guard, files[paths[n]], BaseName(paths[n]));
    }
  }

  /** File `paths[i]` sets `key` at the top level to something other than a dict. */
  predicate SetsAt(paths: seq<string>, files: map<string, map<string, Value>>, i: nat, key: string)
    requires i < |paths|
  {
    paths[i] in files && key in files[paths[i]] && !files[paths[i]][key].Object?
  }

  /** The guard names the last file that set a top-level setting. */
  lemma {:induction false} GuardNamesLastSetter(start: Loaded, paths: seq<string>, files: map<string, map<string, Value>>, i: nat, key: string)
    requires LoadAll(start, paths, files).Some?
    requires i < |paths| && SetsAt(paths, files, i, key)
    requires forall j :: i < j < |paths| ==> !SetsAt(paths, files, j, key)
    ensures key in LoadAll(start, paths, files).value.guard
    ensures LoadAll(start, paths, files).value.guard[key] == BaseName(paths[i])
    decreases |paths|
  {
    var n := |paths| - 1;
    var s := LoadAll(start, paths[..n], files).value;
    assert LoadAll(start, paths, files) == LoadOne(s, paths[n], files);
    if i < n {
      forall j | i < j < n ensures !SetsAt(paths[..n], files, j, key) {
        assert !SetsAt(paths, files, j, key);
      }
      GuardNamesLastSetter(start, paths[..n], files, i, key);
      assert !SetsAt(paths, files, n, key);
    }
  }

  /** Only files that set a top-level setting put it in the guard. */
  lemma {:induction false} GuardOnlyFromSetters(start: Loaded, paths: seq<string>, files: map<string, map<string, Value>>, key: string)
    requires LoadAll(start, paths, files).Some?
    requires key in LoadAll(start, paths, files).value.guard
    ensures key in start.guard || exists i :: 0 <= i < |paths| && SetsAt(paths, files, i, key)
    decreases |paths|
  {
    if |paths| > 0 {
      var n := |paths| - 1;
      var s := LoadAll(start, paths[..n], files).value;
      if key in s.guard {
        GuardOnlyFromSetters(start, paths[..n], files, key);
        if !(key in start.guard) {
          var i :| 0 <= i < n && SetsAt(paths[..n], files, i, key);
          assert SetsAt(paths, files, i, key);
        }
      } else {
        assert SetsAt(paths, files, n, key);
      }
    }
  }

  /** The files are loaded in sorted order, so the outcome does not depend on the order of the arguments. */
  lemma ArgumentOrderIrrelevant(start: Loaded, a: seq<string>, b: seq<string>, files: map<string, map<string, Value>>)
    requires multiset(a) == multiset(b)
    ensures LoadAll(start, SortedStrings.Sort(a), files) == LoadAll(start, SortedStrings.Sort(b), files)
  {
    SortedStrings.SortIgnoresOrder(a, b);
  }

  /**
    Reloading a file leaves the configuration and the guard as they were and
    warns once for each of its top-level settings, naming the file itself as
    the previous source, unless the file is `config-base.json`.
   */
  lemma ReloadWarnsAboutItself(config: map<string, Value>, guard: map<string, string>, frag: map<string, Value>, file: string)
    requires GuardConsistent(config, guard) && Compatible(config, frag)
    ensures var merged, claimed := Merge(config, frag), Claim(guard, frag, file);
            Merge(merged, frag) == merged &&
            Claim(claimed, frag, file) == claimed &&
            Overrides(merged, claimed, frag, file) ==
              if file == BaseConfig then {}
              else set k | k in frag && !frag[k].Object? :: Warning(k, frag[k], file, frag[k], file)
  {
    var merged, claimed := Merge(config, frag), Claim(guard, frag, file);
    MergeIdempotent(config, frag);
    forall k | k in frag && !frag[k].Object? ensures k in merged && merged[k] == frag[k] {
      MergeLookup(config, frag, k);
    }
  }

  /** Loading one more file is loading the list, then that file. */
  lemma LoadAllSnoc(start: Loaded, paths: seq<string>, path: string, files: map<string, map<string, Value>>)
    ensures LoadAll(start, paths + [path], files) ==
              if LoadAll(start, paths, files).None? then None else LoadOne(LoadAll(start, paths, files).value, path, files)
  {
    assert (paths + [path])[..|paths|] == paths;
  }

  /**
    The warnings of the loads add up: a warning printed by two loads is
    counted twice, and each load contributes the warnings its file draws.
   */
  lemma WarningsAccumulate(start: Loaded, paths: seq<string>, path: string, files: map<string, map<string, Value>>)
    requires LoadAll(start, paths + [path], files).Some?
    ensures LoadAll(start, paths, files).Some? && path in files
    ensures var s := LoadAll(start, paths, files).value;
            LoadAll(start, paths + [path], files).value.warnings ==
              s.warnings + multiset(Overrides(s.config, s.guard, files[path], BaseName(path)))
  {
    LoadAllSnoc(start, paths, path, files);
  }

  /** A file holding the one non-dict setting `key`, loaded over a state that holds at most that setting. */
  lemma SingleSetting(s: Loaded, path: string, files: map<string, map<string, Value>>, key: string, v: Value)
    requires path in files && files[path] == map[key := v] && '/' !in path
    requires !v.Object? && s.config.Keys <= {key} && GuardConsistent(s.config, s.guard)
    ensures LoadOne(s, path, files) ==
              Some(Loaded(map[key := v], map[key := path],
                          s.warnings + if key in s.guard && s.guard[key] != BaseConfig
                                       then multiset{Warning(key, s.config[key], s.guard[key], v, path)} else multiset{}))
  {
    var frag := map[key := v];
    BaseNameInDirectory("", path);
    MergeLookup(s.config, frag, key);
    assert Compatible(s.config, frag);
    assert Merge(s.config, frag) == frag;
    assert Claim(s.guard, frag, path) == map[key := path];
    var w := Overrides(s.config, s.guard, frag, path);
    forall x | x in w ensures x.key == key {
    }
    if key in s.guard && s.guard[key] != BaseConfig {
      assert Warning(key, s.config[key], s.guard[key], v, path) in w;
      assert w == {Warning(key, s.config[key], s.guard[key], v, path)};
      assert multiset(w) == multiset{Warning(key, s.config[key], s.guard[key], v, path)};
    } else {
      assert w == {};
      assert multiset(w) == multiset{};
    }
  }

  /** Loading a file that holds the one non-dict setting `key` after `paths` have loaded to `s`. */
  lemma LoadSingleAfter(start: Loaded, paths: seq<string>, path: string, files: map<string, map<string, Value>>,
                        key: string, v: Value, s: Loaded)
    requires LoadAll(start, paths, files) == Some(s)
    requires path in files && files[path] == map[key := v] && '/' !in path
    requires !v.Object? && s.config.Keys <= {key} && GuardConsistent(s.config, s.guard)
    ensures LoadAll(start, paths + [path], files) ==
              Some(Loaded(map[key := v], map[key := path],
                          s.warnings + if key in s.guard && s.guard[key] != BaseConfig
                                       then multiset{Warning(key, s.config[key], s.guard[key], v, path)} else multiset{}))
  {
    LoadAllSnoc(start, paths, path, files);
    SingleSetting(s, path, files, key, v);
  }

  /** The base file sets `key`, then a second file overwrites it without a warning. */
  lemma BaseThenSecond(start: Loaded, files: map<string, map<string, Value>>, key: string, v0: Value, v1: Value, second: string)
    requires start == Loaded(map[], map[], multiset{})
    requires !v0.Object? && !v1.Object? && '/' !in second
    requires BaseConfig in files && files[BaseConfig] == map[key := v0]
    requires second in files && files[second] == map[key := v1]
    ensures LoadAll(start, [BaseConfig, second], files) == Some(Loaded(map[key := v1], map[key := second], multiset{}))
  {
    var first := Loaded(map[key := v0], map[key := BaseConfig], multiset{});
    BaseFirst(start, files, key, v0);
    assert [BaseConfig] + [second] == [BaseConfig, second];
    assert first.guard[key] == BaseConfig && first.warnings + multiset{} == multiset{};
    LoadSingleAfter(start, [BaseConfig], second, files, key, v1, first);
  }

  /** The base file alone: its setting is owned by the base file. */
  lemma BaseFirst(start: Loaded, files: map<string, map<string, Value>>, key: string, v0: Value)
    requires start == Loaded(map[], map[], multiset{})
    requires !v0.Object?
    requires BaseConfig in files && files[BaseConfig] == map[key := v0]
    ensures LoadAll(start, [BaseConfig], files) == Some(Loaded(map[key := v0], map[key := BaseConfig], multiset{}))
  {
    assert [] + [BaseConfig] == [BaseConfig];
    assert start.warnings + multiset{} == multiset{};
    LoadSingleAfter(start, [], BaseConfig, files, key, v0, start);
  }

  /**
    The provenance rule on three files: the base file sets `key`, a second file
    overwrites it silently, a third overwrites it and draws the one warning,
    naming the second file.
   */
  lemma BaseOverrideIsSilent(start: Loaded, key: string, v0: Value, v1: Value, v2: Value, second: string, third: string)
    requires start == Loaded(map[], map[], multiset{})
    requires !v0.Object? && !v1.Object? && !v2.Object?
    requires '/' !in second && '/' !in third
    requires second != BaseConfig && third != BaseConfig && second != third
    ensures var files := map[BaseConfig := map[key := v0], second := map[key := v1], third := map[key := v2]];
            LoadAll(start, [BaseConfig, second, third], files) ==
              Some(Loaded(map[key := v2], map[key := third], multiset{Warning(key, v1, second, v2, third)}))
  {
    var files := map[BaseConfig := map[key := v0], second := map[key := v1], third := map[key := v2]];
    var s2 := Loaded(map[key := v1], map[key := second], multiset{});
    var w := Warning(key, v1, second, v2, third);
    BaseThenSecond(start, files, key, v0, v1, second);
    assert [BaseConfig, second] + [third] == [BaseConfig, second, third];
    assert s2.warnings + multiset{w} == multiset{w};
    LoadSingleAfter(start, [BaseConfig, second], third, files, key, v2, s2);
  }
}
