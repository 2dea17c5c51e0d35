/**
  The configuration files of both scripts are JSON documents; after
  `json.load` a document is a tree of dicts, lists, strings, numbers,
  booleans and `None`. Both scripts fold the documents they load into one
  dict with the same recursive rule (`update_config` in
  `scripts/query_config.py`, `Builder._update_config` in `scripts/cmake.py`):
  a key whose incoming value is a dict is merged recursively into what is
  already there, any other incoming value replaces what is there.

  This module holds that rule as a specification (`Merge`), the condition
  under which Python gets through it without raising (`Compatible`), and the
  dotted-path walk of `query_config.py` (`Get`).
 */
module ConfigTree {
  import opened Wrappers

  /** A JSON value as `json.load` returns it. Only integral numbers are modelled. */
  datatype Value =
    | Null
    | Boolean(b: bool)
    | Number(n: int)
    | Text(s: string)
    | Array(items: seq<Value>)
    | Object(fields: map<string, Value>)

  // ---------------------------------------------------------------------------
  // The merge rule

  /**
    The dict that merging `frag` into `tree` leaves behind: every key of either,
    the keys `frag` does not mention keep their value, and the keys it mentions
    take their incoming value as `Incoming` says.
   */
  function Merge(tree: map<string, Value>, frag: map<string, Value>): (r: map<string, Value>)
    ensures r.Keys == tree.Keys + frag.Keys
    decreases Object(frag), 0
  {
    map k | k in tree.Keys + frag.Keys :: if k in frag then Incoming(tree, k, frag[k]) else tree[k]
  }

  /**
    The value `key` ends up with when `v` arrives for it. A dict is merged into
    the dict already there, or into `{}` (`old_config.get(key, {})`). A dict
    arriving on a non-dict leaves the non-dict in place: Python does exactly
    that when the incoming dict is empty, and raises otherwise (see
    `Compatible`). Anything else replaces the old value.
   */
  function Incoming(tree: map<string, Value>, key: string, v: Value): Value
    decreases v, 1
  {
    if !v.Object? then v
    else if key !in tree then Object(Merge(map[], v.fields))
    else if tree[key].Object? then Object(Merge(tree[key].fields, v.fields))
    else tree[key]
  }

  /**
    Merging `frag` into `tree` raises nowhere: no non-empty dict arrives,
    at any depth, on a key whose present value is not a dict (Python would
    call `.get` on, or assign an item into, a string, number, list or `None`).
   */
  predicate Compatible(tree: map<string, Value>, frag: map<string, Value>)
    decreases Object(frag), 0
  {
    forall k :: k in frag ==> CompatibleAt(tree, k, frag[k])
  }

  predicate CompatibleAt(tree: map<string, Value>, key: string, v: Value)
    decreases v, 1
  {
    v.Object? && key in tree ==>
      if tree[key].Object? then Compatible(tree[key].fields, v.fields) else v.fields == map[]
  }

  /** Merging into an empty dict gives the fragment itself: loading one file into `{}` reproduces it. */
  lemma {:induction false} MergeIntoEmpty(frag: map<string, Value>)
    ensures Merge(map[], frag) == frag
    decreases Object(frag)
  {
    forall k | k in frag ensures Incoming(map[], k, frag[k]) == frag[k] {
      if frag[k].Object? {
        MergeIntoEmpty(frag[k].fields);
      }
    }
  }

  /** Nothing is ever incompatible with an empty dict. */
  lemma EmptyIsCompatible(frag: map<string, Value>)
    ensures Compatible(map[], frag)
  {
  }

  /**
    Loading the same fragment a second time changes nothing, and succeeds
    whenever the first load did.
   */
  lemma {:induction false} MergeIdempotent(tree: map<string, Value>, frag: map<string, Value>)
    ensures Merge(Merge(tree, frag), frag) == Merge(tree, frag)
    ensures Compatible(tree, frag) ==> Compatible(Merge(tree, frag), frag)
    decreases Object(frag)
  {
    var m := Merge(tree, frag);
    forall k | k in frag
      ensures Incoming(m, k, frag[k]) == m[k]
      ensures CompatibleAt(tree, k, frag[k]) ==> CompatibleAt(m, k, frag[k])
    {
      var v := frag[k];
      assert m[k] == Incoming(tree, k, v);
      if v.Object? {
        if k !in tree {
          MergeIdempotent(map[], v.fields);
          EmptyIsCompatible(v.fields);
          assert m[k] == Object(Merge(map[], v.fields));
        } else if tree[k].Object? {
          MergeIdempotent(tree[k].fields, v.fields);
          assert m[k] == Object(Merge(tree[k].fields, v.fields));
        } else {
          assert m[k] == tree[k];
        }
      }
    }
    assert Merge(m, frag) == m by {
      forall k | k in m ensures Merge(m, frag)[k] == m[k] {
      }
    }
  }

  /** The value `Merge` gives one key. */
  lemma MergeLookup(tree: map<string, Value>, frag: map<string, Value>, k: string)
    requires k in tree || k in frag
    ensures Merge(tree, frag)[k] == if k in frag then Incoming(tree, k, frag[k]) else tree[k]
  {
  }

  /** One key of `MergeAssociative`, given the claim one level down. */
  lemma MergeAssociativeAt(tree: map<string, Value>, a: map<string, Value>, b: map<string, Value>, k: string)
    requires k in tree.Keys + a.Keys + b.Keys
    requires k in a && k in b && a[k].Object? && b[k].Object? ==>
               var sub := if k in tree && tree[k].Object? then tree[k].fields else map[];
               Merge(Merge(sub, a[k].fields), b[k].fields) == Merge(sub, Merge(a[k].fields, b[k].fields))
    ensures Merge(Merge(tree, a), b)[k] == Merge(tree, Merge(a, b))[k]
  {
    var ta, ab := Merge(tree, a), Merge(a, b);
    MergeLookup(ta, b, k);
    MergeLookup(tree, ab, k);
    if k in a || k in b {
      MergeLookup(a, b, k);
    }
    if k in tree || k in a {
      MergeLookup(tree, a, k);
    }
    if k in a && k in b && a[k].Object? && b[k].Object? {
      var fa, fb := a[k].fields, b[k].fields;
      assert ab[k] == Object(Merge(fa, fb));
      if k !in tree {
        assert ta[k] == Object(Merge(map[], fa));
      } else if tree[k].Object? {
        assert ta[k] == Object(Merge(tree[k].fields, fa));
      } else {
        assert ta[k] == tree[k];
      }
    } else if k in b && b[k].Object? && k in a {
      assert ab[k] == a[k] == ta[k];
    } else if k in b && b[k].Object? {
      MergeIntoEmpty(b[k].fields);
      assert ab[k] == Object(Merge(map[], b[k].fields)) == b[k];
    } else if k in b {
      assert ab[k] == b[k];
    } else {
      assert k in a ==> ab[k] == a[k];
    }
  }

  /**
    Merging `a` and then `b` is merging the merge of `a` and `b`: a chain of
    configuration files acts as one file that holds their merge.
   */
  lemma {:induction false} MergeAssociative(tree: map<string, Value>, a: map<string, Value>, b: map<string, Value>)
    ensures Merge(Merge(tree, a), b) == Merge(tree, Merge(a, b))
    decreases Object(a)
  {
    forall k | k in tree.Keys + a.Keys + b.Keys
      ensures Merge(Merge(tree, a), b)[k] == Merge(tree, Merge(a, b))[k]
    {
      if k in a && k in b && a[k].Object? && b[k].Object? {
        var sub := if k in tree && tree[k].Object? then tree[k].fields else map[];
        MergeAssociative(sub, a[k].fields, b[k].fields);
      }
      MergeAssociativeAt(tree, a, b, k);
    }
  }

  // ---------------------------------------------------------------------------
  // The dotted-path walk of query_config.py

  /** Where the walk of a query ends: a value, `[query-unknown]`, or the `TypeError` Python raises. */
  datatype Lookup = Found(node: Value) | Unknown | Fails

  /** Python's `sub in s` on strings. */
  function Contains(s: string, sub: string): bool
    decreases |s|
  {
    sub <= s || (|s| > 0 && Contains(s[1..], sub))
  }

  /** `sub` occurs in `s` starting at position `i`. */
  ghost predicate OccursAt(s: string, sub: string, i: nat)
  {
    i + |sub| <= |s| && s[i..i + |sub|] == sub
  }

  /** `sub in s` holds exactly when `sub` occurs at some position of `s`. */
  lemma ContainsIffOccurs(s: string, sub: string)
    ensures Contains(s, sub) <==> exists i: nat :: OccursAt(s, sub, i)
  {
    if Contains(s, sub) {
      ContainsFindsOccurrence(s, sub);
    }
    forall i: nat | OccursAt(s, sub, i) ensures Contains(s, sub) {
      OccurrenceIsContained(s, sub, i);
    }
  }

  lemma {:induction false} ContainsFindsOccurrence(s: string, sub: string)
    requires Contains(s, sub)
    ensures exists i: nat :: OccursAt(s, sub, i)
    decreases |s|
  {
    if sub <= s {
      assert OccursAt(s, sub, 0);
    } else {
      ContainsFindsOccurrence(s[1..], sub);
      var i: nat :| OccursAt(s[1..], sub, i);
      assert s[i + 1..i + 1 + |sub|] == s[1..][i..i + |sub|];
      assert OccursAt(s, sub, i + 1);
    }
  }

  lemma {:induction false} OccurrenceIsContained(s: string, sub: string, i: nat)
    requires OccursAt(s, sub, i)
    ensures Contains(s, sub)
    decreases i
  {
    if i == 0 {
      assert sub <= s;
    } else {
      assert s[1..][i - 1..i - 1 + |sub|] == s[i..i + |sub|];
      OccurrenceIsContained(s[1..], sub, i - 1);
    }
  }

  /**
    The loop `for field in fields: if not field in node: ...; node = node[field]`.
    `in` on a dict asks for a key; on a string it is the substring test and on
    a list the element test, and when either holds the following `node[field]`
    raises; on a number, a boolean or `None` the `in` itself raises.
   */
  function Walk(node: Value, path: seq<string>): Lookup
    decreases |path|
  {
    if |path| == 0 then Found(node)
    else match node
      case Object(m) => if path[0] in m then Walk(m[path[0]], path[1..]) else Unknown
      case Text(s) => if Contains(s, path[0]) then Fails else Unknown
      case Array(items) => if Text(path[0]) in items then Fails else Unknown
      case _ => Fails
  }

  /** The walk starting at the loaded configuration dict. */
  function Get(config: map<string, Value>, path: seq<string>): Lookup
  {
    Walk(Object(config), path)
  }

  /** `path` leaves `frag` through a dict that lacks the next key: `frag` sets nothing on or above it. */
  predicate Untouched(frag: map<string, Value>, path: seq<string>)
    decreases |path|
  {
    |path| >= 1 &&
    (path[0] !in frag || (frag[path[0]].Object? && Untouched(frag[path[0]].fields, path[1..])))
  }

  /**
    Last one wins: a non-dict value that a fragment sets at some path is what
    the merged configuration holds there, whatever was there before.
   */
  lemma {:induction false} LastWins(tree: map<string, Value>, frag: map<string, Value>, path: seq<string>, v: Value)
    requires Compatible(tree, frag)
    requires Get(frag, path) == Found(v) && !v.Object?
    ensures Get(Merge(tree, frag), path) == Found(v)
    decreases |path|
  {
    var k := path[0];
    assert k in frag && Walk(frag[k], path[1..]) == Found(v);
    if |path| == 1 {
      assert frag[k] == v;
    } else {
      assert frag[k].Object?;
      var sub := frag[k].fields;
      if k !in tree {
        EmptyIsCompatible(sub);
        LastWins(map[], sub, path[1..], v);
      } else if tree[k].Object? {
        LastWins(tree[k].fields, sub, path[1..], v);
      }
    }
  }

  /** A value the fragment does not reach is kept, and so is the absence of one. */
  lemma {:induction false} PreservedWhenUntouched(tree: map<string, Value>, frag: map<string, Value>, path: seq<string>)
    requires Untouched(frag, path)
    ensures Get(Merge(tree, frag), path) == Get(tree, path)
    decreases |path|
  {
    var k := path[0];
    if k in frag {
      var sub := frag[k].fields;
      if k !in tree {
        PreservedWhenUntouched(map[], sub, path[1..]);
      } else if tree[k].Object? {
        PreservedWhenUntouched(tree[k].fields, sub, path[1..]);
      }
    }
  }

  // ---------------------------------------------------------------------------
  // Loading several files one after another

  /**
    Merging the fragments into `config` in order, as both scripts' loops
    over their file arguments do; `None` when some merge raises.
   */
  function MergeAll(config: map<string, Value>, frags: seq<map<string, Value>>): Option<map<string, Value>>
    decreases |frags|
  {
    if |frags| == 0 then Some(config)
    else match MergeAll(config, frags[..|frags| - 1])
      case None => None
      case Some(before) =>
        if Compatible(before, frags[|frags| - 1]) then Some(Merge(before, frags[|frags| - 1])) else None
  }

  // ---------------------------------------------------------------------------
  // The key-by-key merge loop, one step at a time

  /**
    The key-by-key merge loop has merged the keys of `newConfig` outside
    `todo` into `config`, each of them without raising, and left the rest
    of `config` as it was.
   */
  ghost predicate MergedSoFar(config: map<string, Value>, newConfig: map<string, Value>, todo: set<string>, r: map<string, Value>)
  {
    && todo <= newConfig.Keys
    && r.Keys == config.Keys + (newConfig.Keys - todo)
    && (forall k :: k in r ==>
          r[k] == if k in newConfig && k !in todo then Incoming(config, k, newConfig[k]) else config[k])
    && (forall k :: k in newConfig && k !in todo ==> CompatibleAt(config, k, newConfig[k]))
  }

  /** The next key still holds its value from before the loop; if it cannot be merged, neither can the whole file. */
  lemma UntouchedKey(config: map<string, Value>, newConfig: map<string, Value>, todo: set<string>, r: map<string, Value>, key: string)
    requires MergedSoFar(config, newConfig, todo, r) && key in todo
    ensures key in r <==> key in config
    ensures key in r ==> r[key] == config[key]
    ensures !CompatibleAt(config, key, newConfig[key]) ==> !Compatible(config, newConfig)
  {
  }

  /** A non-dict setting replaces what was there. */
  lemma ScalarStep(config: map<string, Value>, newConfig: map<string, Value>, todo: set<string>, r: map<string, Value>, key: string)
    requires MergedSoFar(config, newConfig, todo, r) && key in todo && !newConfig[key].Object?
    ensures MergedSoFar(config, newConfig, todo - {key}, r[key := newConfig[key]])
  {
  }

  /** An empty dict arriving on a non-dict leaves it alone. */
  lemma KeepStep(config: map<string, Value>, newConfig: map<string, Value>, todo: set<string>, r: map<string, Value>, key: string)
    requires MergedSoFar(config, newConfig, todo, r) && key in todo && newConfig[key] == Object(map[])
    requires key in config && !config[key].Object?
    ensures MergedSoFar(config, newConfig, todo - {key}, r)
  {
  }

  /** A dict arriving on a dict, or on nothing, is merged into it. */
  lemma MergeStep(config: map<string, Value>, newConfig: map<string, Value>, todo: set<string>, r: map<string, Value>,
                  key: string, merged: map<string, Value>)
    requires MergedSoFar(config, newConfig, todo, r) && key in todo && newConfig[key].Object?
    requires key in config ==> config[key].Object?
    requires merged == Merge(if key in config then config[key].fields else map[], newConfig[key].fields)
    requires Compatible(if key in config then config[key].fields else map[], newConfig[key].fields)
    ensures MergedSoFar(config, newConfig, todo - {key}, r[key := Object(merged)])
  {
  }

  /** Once every key is processed, the loop's result is the merge. */
  lemma MergedEverything(config: map<string, Value>, newConfig: map<string, Value>, r: map<string, Value>)
    requires MergedSoFar(config, newConfig, {}, r)
    ensures r == Merge(config, newConfig)
    ensures Compatible(config, newConfig)
  {
    forall k | k in r ensures r[k] == Merge(config, newConfig)[k] {
      MergeLookup(config, newConfig, k);
    }
  }

  /** The parsed contents of the named files, in the order given; `files` stands for the file system. */
  function Fragments(paths: seq<string>, files: map<string, map<string, Value>>): (frags: seq<map<string, Value>>)
    requires forall i :: 0 <= i < |paths| ==> paths[i] in files
    ensures |frags| == |paths|
    ensures forall i :: 0 <= i < |paths| ==> frags[i] == files[paths[i]]
  {
    seq(|paths|, i requires 0 <= i < |paths| => files[paths[i]])
  }

  /** Merging the files up to `i` is merging those before it, then file `i`. */
  lemma MergeAllNext(config: map<string, Value>, paths: seq<string>, files: map<string, map<string, Value>>, i: nat)
    requires i < |paths|
    requires forall j :: 0 <= j <= i ==> paths[j] in files
    ensures MergeAll(config, Fragments(paths[..i + 1], files)) ==
              match MergeAll(config, Fragments(paths[..i], files))
              case None => None
              case Some(before) =>
                if Compatible(before, files[paths[i]]) then Some(Merge(before, files[paths[i]])) else None
  {
    var frags := Fragments(paths[..i + 1], files);
    assert frags[..i] == Fragments(paths[..i], files);
    assert frags[i] == files[paths[i]];
  }

  /** The fragments merged into each other, first to last, starting from `{}`. */
  function Combined(frags: seq<map<string, Value>>): map<string, Value>
    decreases |frags|
  {
    if |frags| == 0 then map[] else Merge(Combined(frags[..|frags| - 1]), frags[|frags| - 1])
  }

  /** Loading a list of files succeeds with the same result as loading one file holding all of them merged. */
  lemma {:induction false} MergeAllIsOneMerge(config: map<string, Value>, frags: seq<map<string, Value>>)
    requires MergeAll(config, frags).Some?
    ensures MergeAll(config, frags).value == Merge(config, Combined(frags))
    decreases |frags|
  {
    if |frags| == 0 {
      assert Merge(config, map[]) == config;
    } else {
      var init, last := frags[..|frags| - 1], frags[|frags| - 1];
      MergeAllIsOneMerge(config, init);
      MergeAssociative(config, Combined(init), last);
    }
  }

  /**
    The configuration holds at a path the non-dict value set there by the
    last fragment that reaches the path.
   */
  lemma {:induction false} LastSetterWins(config: map<string, Value>, frags: seq<map<string, Value>>, i: nat, path: seq<string>, v: Value)
    requires MergeAll(config, frags).Some?
    requires i < |frags| && Get(frags[i], path) == Found(v) && !v.Object?
    requires forall j :: i < j < |frags| ==> Untouched(frags[j], path)
    ensures Get(MergeAll(config, frags).value, path) == Found(v)
    decreases |frags|
  {
    var n := |frags| - 1;
    var init := frags[..n];
    var before := MergeAll(config, init).value;
    if i == n {
      LastWins(before, frags[n], path, v);
    } else {
      assert forall j :: i < j < |init| ==> init[j] == frags[j];
      LastSetterWins(config, init, i, path, v);
      PreservedWhenUntouched(before, frags[n], path);
    }
  }
}
