/**
  `scripts/query_config.py`: load the JSON files named on the command line,
  merging each into the configuration built so far in the order given, then
  answer every `-q field.field...` query on one output line, answers
  separated by `|`.

  The file system is a parameter (`files`, from argument to parsed JSON
  object); a file that cannot be opened makes the script raise. The output
  is the sequence of `print` calls, with values kept as values.
 */
module QueryConfig {
  import Strings
  import opened ConfigTree
  import opened Wrappers

  /** `update_config(old_config, new_config)`: the merge, done in place key by key. */
  method UpdateConfig(oldConfig: map<string, Value>, newConfig: map<string, Value>) returns (config: map<string, Value>, ok: bool)
    ensures ok <==> Compatible(oldConfig, newConfig)
    ensures ok ==> config == Merge(oldConfig, newConfig)
    decreases Object(newConfig)
  {
    config := oldConfig;
    var todo := newConfig.Keys;
    while todo != {}
      invariant MergedSoFar(oldConfig, newConfig, todo, config)
      decreases todo
    {
      var key :| key in todo;
      var newValue := newConfig[key];
      if newValue.Object? {
        UntouchedKey(oldConfig, newConfig, todo, config, key);
        var current := if key in config then config[key] else Object(map[]);
        if !current.Object? {
          if newValue.fields != map[] {
            // `.get` or an item assignment on a string, number, list or None raises
            return config, false;
          }
          KeepStep(oldConfig, newConfig, todo, config, key);
        } else {
          if key !in config {
            EmptyIsCompatible(newValue.fields);
          }
          var merged, mergedOk := UpdateConfig(current.fields, newValue.fields);
          if !mergedOk {
            return config, false;
          }
          MergeStep(oldConfig, newConfig, todo, config, key, merged);
          config := config[key := Object(merged)];
        }
      } else {
        ScalarStep(oldConfig, newConfig, todo, config, key);
        config := config[key := newValue];
      }
      todo := todo - {key};
    }
    MergedEverything(oldConfig, newConfig, config);
    ok := true;
  }

  /**
    The loop `config = load_config(config, config_json)` over the arguments
    in the order given: it gets through only when every file exists and every
    merge is compatible, and then holds their merge in that order.
   */
  method LoadConfigs(paths: seq<string>, files: map<string, map<string, Value>>) returns (config: map<string, Value>, ok: bool)
    ensures ok <==> (forall i :: 0 <= i < |paths| ==> paths[i] in files) && MergeAll(map[], Fragments(paths, files)).Some?
    ensures ok ==> config == MergeAll(map[], Fragments(paths, files)).value
  {
    config := map[];
    for i := 0 to |paths|
      invariant forall j :: 0 <= j < i ==> paths[j] in files
      invariant MergeAll(map[], Fragments(paths[..i], files)) == Some(config)
    {
      if paths[i] !in files {
        return config, false;
      }
      MergeAllNext(map[], paths, files, i);
      var merged, mergedOk := UpdateConfig(config, files[paths[i]]);
      if !mergedOk {
        if forall j :: 0 <= j < |paths| ==> paths[j] in files {
          assert Fragments(paths, files)[..i + 1] == Fragments(paths[..i + 1], files);
          MergeAllStopsAtFailure(Fragments(paths, files), i + 1);
        }
        return config, false;
      }
      config := merged;
    }
    assert paths[..|paths|] == paths;
    return config, true;
  }

  /** Once a prefix of the fragments fails to merge, so does the whole list. */
  lemma {:induction false} MergeAllStopsAtFailure(frags: seq<map<string, Value>>, n: nat)
    requires n <= |frags|
    requires MergeAll(map[], frags[..n]).None?
    ensures MergeAll(map[], frags).None?
    decreases |frags| - n
  {
    if n < |frags| {
      assert frags[..n + 1][..n] == frags[..n];
      MergeAllStopsAtFailure(frags, n + 1);
    } else {
      assert frags[..n] == frags;
    }
  }

  // ---------------------------------------------------------------------------
  // The query loop

  /** `field in node`: `None` when the `in` itself raises. */
  function Membership(node: Value, field: string): Option<bool>
  {
    match node
    case Object(m) => Some(field in m)
    case Text(s) => Some(Contains(s, field))
    case Array(items) => Some(Text(field) in items)
    case _ => None
  }

  /** `node[field]` after a successful `in`: only a dict can be indexed by a string. */
  function Subscript(node: Value, field: string): Option<Value>
  {
    if node.Object? && field in node.fields then Some(node.fields[field]) else None
  }

  /** The inner loop over `query.split('.')`: where the walk from the configuration ends. */
  method Lookup(config: map<string, Value>, query: string) returns (r: Lookup)
    ensures r == Get(config, Strings.Split(query, '.'))
  {
    var fields := Strings.Split(query, '.');
    var node := Object(config);
    var i := 0;
    while i < |fields|
      invariant i <= |fields|
      invariant Walk(node, fields[i..]) == Get(config, fields)
    {
      assert fields[i..][1..] == fields[i + 1..];
      var present := Membership(node, fields[i]);
      if present.None? {
        return Fails;
      }
      if !present.value {
        return Unknown;
      }
      var next := Subscript(node, fields[i]);
      if next.None? {
        return Fails;
      }
      node := next.value;
      i := i + 1;
    }
    return Found(node);
  }

  /** One `print` call of the script. `Shown` is `print(config_node)`; its text is `str(config_node)`. */
  datatype Printed = Separator | Shown(node: Value) | UnknownQuery(query: string) | Newline

  /** Where the walk of each query ends, in order. */
  function Outcomes(config: map<string, Value>, queries: seq<string>): (outcomes: seq<Lookup>)
    ensures |outcomes| == |queries|
    ensures forall j :: 0 <= j < |queries| ==> outcomes[j] == Get(config, Strings.Split(queries[j], '.'))
  {
    seq(|queries|, j requires 0 <= j < |queries| => Get(config, Strings.Split(queries[j], '.')))
  }

  /** The answer printed for a query whose walk does not raise. */
  function Answer(outcome: Lookup, query: string): Printed
    requires outcome != Fails
  {
    match outcome
    case Found(v) => Shown(v)
    case Unknown => UnknownQuery(query)
  }

  /** The position of the first walk that raises, or the number of walks when none does. */
  function FirstFailure(outcomes: seq<Lookup>): (k: nat)
    ensures k <= |outcomes|
    ensures forall j :: 0 <= j < k ==> outcomes[j] != Fails
    ensures k < |outcomes| ==> outcomes[k] == Fails
    decreases |outcomes|
  {
    if |outcomes| == 0 then 0
    else if outcomes[0] == Fails then 0
    else 1 + FirstFailure(outcomes[1..])
  }

  /** The answers to queries none of whose walks raises, in order. */
  function Answers(outcomes: seq<Lookup>, queries: seq<string>): (answers: seq<Printed>)
    requires |outcomes| == |queries|
    requires forall j :: 0 <= j < |outcomes| ==> outcomes[j] != Fails
    ensures |answers| == |queries|
    ensures forall j :: 0 <= j < |queries| ==> answers[j] == Answer(outcomes[j], queries[j])
  {
    seq(|queries|, j requires 0 <= j < |queries| => Answer(outcomes[j], queries[j]))
  }

  /** The items with a `Separator` between neighbours. */
  function Interleave(items: seq<Printed>): seq<Printed>
    decreases |items|
  {
    if |items| == 0 then []
    else if |items| == 1 then items
    else Interleave(items[..|items| - 1]) + [Separator, items[|items| - 1]]
  }

  /** Item `j` sits at position `2j`, and a separator follows it unless it is the last. */
  lemma {:induction false} InterleaveAt(items: seq<Printed>, j: nat)
    requires j < |items|
    ensures |Interleave(items)| == 2 * |items| - 1
    ensures Interleave(items)[2 * j] == items[j]
    ensures j < |items| - 1 ==> Interleave(items)[2 * j + 1] == Separator
    decreases |items|
  {
    var n := |items| - 1;
    if n > 0 {
      var init := items[..n];
      var shorter := Interleave(init);
      assert Interleave(items) == shorter + [Separator, items[n]] by {
        assert init + [items[n]] == items;
        InterleaveSnoc(init, items[n]);
      }
      InterleaveAt(init, if j < n then j else 0);
    }
  }

  /** Items at the even positions, separators at the odd ones. */
  lemma InterleaveShape(items: seq<Printed>)
    requires |items| >= 1
    ensures |Interleave(items)| == 2 * |items| - 1
    ensures forall j :: 0 <= j < |items| ==> Interleave(items)[2 * j] == items[j]
    ensures forall j :: 0 <= j < |items| - 1 ==> Interleave(items)[2 * j + 1] == Separator
  {
    forall j | 0 <= j < |items|
      ensures |Interleave(items)| == 2 * |items| - 1
      ensures Interleave(items)[2 * j] == items[j]
      ensures j < |items| - 1 ==> Interleave(items)[2 * j + 1] == Separator
    {
      InterleaveAt(items, j);
    }
  }

  /** One more item after the first adds a separator before it. */
  lemma InterleaveSnoc(items: seq<Printed>, item: Printed)
    requires |items| >= 1
    ensures Interleave(items + [item]) == Interleave(items) + [Separator, item]
  {
    var longer := items + [item];
    assert longer[..|longer| - 1] == items && longer[|longer| - 1] == item;
  }

  /** The answers to one more query that does not raise. */
  lemma AnswersSnoc(outcomes: seq<Lookup>, queries: seq<string>, i: nat)
    requires i < |outcomes| == |queries|
    requires forall j :: 0 <= j <= i ==> outcomes[j] != Fails
    ensures Answers(outcomes[..i + 1], queries[..i + 1]) == Answers(outcomes[..i], queries[..i]) + [Answer(outcomes[i], queries[i])]
  {
    assert forall j :: 0 <= j < i ==> outcomes[..i + 1][j] == outcomes[..i][j] && queries[..i + 1][j] == queries[..i][j];
  }

  /**
    What the script prints: the answers up to the first query that raises,
    separated by `|`, and the closing newline only when no query raised and
    there was at least one.
   */
  function Report(config: map<string, Value>, queries: seq<string>): seq<Printed>
  {
    var outcomes := Outcomes(config, queries);
    var k := FirstFailure(outcomes);
    Interleave(Answers(outcomes[..k], queries[..k])) + (if k == |queries| && k > 0 then [Newline] else [])
  }

  /** The outer loop over the queries, with the `first` flag that places the separators. */
  method RunQueries(config: map<string, Value>, queries: seq<string>) returns (out: seq<Printed>, failed: bool)
    ensures out == Report(config, queries)
    ensures failed <==> exists j :: 0 <= j < |queries| && Get(config, Strings.Split(queries[j], '.')) == Fails
  {
    ghost var outcomes := Outcomes(config, queries);
    out := [];
    var first := true;
    for i := 0 to |queries|
      invariant first <==> i == 0
      invariant forall j :: 0 <= j < i ==> outcomes[j] != Fails
      invariant out == Interleave(Answers(outcomes[..i], queries[..i]))
    {
      var found := Lookup(config, queries[i]);
      assert found == outcomes[i];
      if found.Fails? {
        ReportAt(config, queries, i);
        return out, true;
      }
      AnswersSnoc(outcomes, queries, i);
      if first {
        assert Interleave([Answer(found, queries[i])]) == [Answer(found, queries[i])];
        first := false;
      } else {
        InterleaveSnoc(Answers(outcomes[..i], queries[..i]), Answer(found, queries[i]));
        out := out + [Separator];
      }
      if found.Found? {
        out := out + [Shown(found.node)];
      } else {
        out := out + [UnknownQuery(queries[i])];
      }
    }
    ReportAt(config, queries, |queries|);
    if !first {
      out := out + [Newline];
    }
    return out, false;
  }

  /** The report when query `i` is the first to raise, or when none does and `i` is the number of queries. */
  lemma ReportAt(config: map<string, Value>, queries: seq<string>, i: nat)
    requires i <= |queries|
    requires forall j :: 0 <= j < i ==> Outcomes(config, queries)[j] != Fails
    requires i < |queries| ==> Outcomes(config, queries)[i] == Fails
    ensures Report(config, queries) ==
              var outcomes := Outcomes(config, queries);
              Interleave(Answers(outcomes[..i], queries[..i])) + (if i == |queries| && i > 0 then [Newline] else [])
  {
    FirstFailureIs(Outcomes(config, queries), i);
  }

  /** `FirstFailure` is the first position that raises. */
  lemma FirstFailureIs(outcomes: seq<Lookup>, i: nat)
    requires i <= |outcomes|
    requires forall j :: 0 <= j < i ==> outcomes[j] != Fails
    requires i < |outcomes| ==> outcomes[i] == Fails
    ensures FirstFailure(outcomes) == i
  {
  }

  /**
    When no query raises, the line holds every answer in order at the even
    positions, `|` between neighbours, and ends with the newline.
   */
  lemma ReportWhenAllAnswered(config: map<string, Value>, queries: seq<string>)
    requires |queries| >= 1
    requires forall j :: 0 <= j < |queries| ==> Get(config, Strings.Split(queries[j], '.')) != Fails
    ensures |Report(config, queries)| == 2 * |queries|
    ensures forall j :: 0 <= j < |queries| ==>
              Report(config, queries)[2 * j] == Answer(Get(config, Strings.Split(queries[j], '.')), queries[j])
    ensures forall j :: 0 <= j < |queries| - 1 ==> Report(config, queries)[2 * j + 1] == Separator
    ensures Report(config, queries)[2 * |queries| - 1] == Newline
  {
    var outcomes := Outcomes(config, queries);
    ReportAt(config, queries, |queries|);
    assert queries[..|queries|] == queries && outcomes[..|queries|] == outcomes;
    InterleaveShape(Answers(outcomes, queries));
  }

  /** A query without dots asks for one top-level key. */
  lemma TopLevelQuery(config: map<string, Value>, key: string)
    requires '.' !in key
    ensures Get(config, Strings.Split(key, '.')) == if key in config then Found(config[key]) else Unknown
  {
    Strings.SplitWithoutSeparator(key, '.');
    assert [key][1..] == [];
    if key in config {
      assert Walk(Object(config), [key]) == Walk(config[key], []);
    }
  }

  /** A query whose walk passes through a number raises, instead of printing `[query-unknown]`. */
  lemma QueryThroughNumberFails(config: map<string, Value>, key: string, field: string, n: int)
    requires '.' !in key && '.' !in field
    requires key in config && config[key] == Number(n)
    ensures Get(config, Strings.Split(key + "." + field, '.')) == Fails
  {
    var path := [key, field];
    assert Strings.Split(key + "." + field, '.') == path by {
      Strings.SplitPair(key, field, '.');
      assert key + "." + field == key + ['.'] + field;
    }
    assert path[1..] == [field];
    assert Walk(Object(config), path) == Walk(Number(n), [field]);
  }
}
