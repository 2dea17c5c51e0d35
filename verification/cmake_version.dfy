/**
  The version-constraint checker of `scripts/cmake.py`: `check_version` and
  its printer `version_to_str`.

  A constraint string is a comma-separated list of clauses. Each clause is
  searched (not anchored) for the regular expression
      (=|<|<=|>|>=)(\d+)\.(\d+) ... \.(\d+)
  with exactly `|version|` digit groups. The search is modelled by hand:
  the leftmost position wins, the five alternatives of the comparator are
  tried in their written order, and every digit group is the maximal run
  of digits at its position (a shorter run would leave a digit where the
  pattern needs a `.`, or, for the last group, greedy matching takes the
  longest run).
 */
module CMakeVersion {
  import Strings
  import Lexicographic
  import opened Wrappers

  /** The outcome of `check_version`: a verdict, or the `ValueError` it raises. */
  datatype Result = Ok(satisfied: bool) | Malformed(constraint: string)

  datatype Comparator = Eq | Lt | Le | Gt | Ge

  /** A parsed clause: the comparator and the reference tuple read from its digit groups. */
  datatype Clause = Clause(op: Comparator, reference: seq<nat>)

  /** The digit groups read at some position, and the text after the last one. */
  datatype Groups = Groups(values: seq<nat>, rest: string)

  predicate IsDigit(c: char)
  {
    '0' <= c <= '9'
  }

  predicate AllDigits(s: string)
  {
    forall i :: 0 <= i < |s| ==> IsDigit(s[i])
  }

  /** The length of the longest run of digits at the start of `s`. */
  function DigitRun(s: string): (k: nat)
    ensures k <= |s|
    decreases |s|
  {
    if |s| == 0 || !IsDigit(s[0]) then 0 else 1 + DigitRun(s[1..])
  }

  /** `\d+` is greedy: the run is all digits and is followed by a non-digit or the end. */
  lemma {:induction false} DigitRunIsMaximal(s: string)
    ensures AllDigits(s[..DigitRun(s)])
    ensures DigitRun(s) == |s| || !IsDigit(s[DigitRun(s)])
    decreases |s|
  {
    if |s| > 0 && IsDigit(s[0]) {
      DigitRunIsMaximal(s[1..]);
      assert s[..DigitRun(s)] == [s[0]] + s[1..][..DigitRun(s[1..])];
    }
  }

  /** The value of one decimal digit. */
  function DigitValue(c: char): nat
  {
    if IsDigit(c) then c as int - '0' as int else 0
  }

  /** `int(ds)` for a string of decimal digits. */
  function DecimalValue(ds: string): nat
    decreases |ds|
  {
    if |ds| == 0 then 0
    else DecimalValue(ds[..|ds| - 1]) * 10 + DigitValue(ds[|ds| - 1])
  }

  /**
    Reads `n` digit groups separated by single dots at the start of `s`
    (the `(\d+)\.(\d+)...` part of the pattern). With `n == 0` the pattern
    has no digit part and reads nothing.
   */
  function ReadGroups(s: string, n: nat): (r: Option<Groups>)
    ensures r.Some? ==> |r.value.values| == n
    decreases n
  {
    if n == 0 then Some(Groups([], s))
    else
      var k := DigitRun(s);
      if k == 0 then None
      else
        var value := DecimalValue(s[..k]);
        if n == 1 then Some(Groups([value], s[k..]))
        else if k < |s| && s[k] == '.' then
          match ReadGroups(s[k + 1..], n - 1)
          case None => None
          case Some(g) => Some(Groups([value] + g.values, g.rest))
        else None
  }

  /** One alternative of the comparator: `op` followed by the digit groups read from `body`. */
  function WithGroups(op: Comparator, body: string, n: nat): (r: Option<Clause>)
    ensures r.Some? ==> r.value.op == op && |r.value.reference| == n
  {
    match ReadGroups(body, n)
    case None => None
    case Some(g) => Some(Clause(op, g.values))
  }

  /**
    The pattern matched at the start of `s`, trying `=`, `<`, `<=`, `>`, `>=`
    in that order, as the regular expression's alternation does.
   */
  function MatchHere(s: string, n: nat): (r: Option<Clause>)
    ensures r.Some? ==> |r.value.reference| == n
    ensures r.Some? ==> |s| > 0 && s[0] in "=<>"
  {
    if |s| == 0 then None
    else if s[0] == '=' then WithGroups(Eq, s[1..], n)
    else if s[0] == '<' then
      var lt := WithGroups(Lt, s[1..], n);
      if lt.Some? then lt
      else if |s| >= 2 && s[1] == '=' then WithGroups(Le, s[2..], n)
      else None
    else if s[0] == '>' then
      var gt := WithGroups(Gt, s[1..], n);
      if gt.Some? then gt
      else if |s| >= 2 && s[1] == '=' then WithGroups(Ge, s[2..], n)
      else None
    else None
  }

  /** `re.search` from position `from` on: the match at the leftmost position that has one. */
  function SearchFrom(s: string, n: nat, from: nat): (r: Option<Clause>)
    requires from <= |s| + 1
    ensures r.Some? ==> |r.value.reference| == n
    decreases |s| + 1 - from
  {
    if from > |s| then None
    else if MatchHere(s[from..], n).Some? then MatchHere(s[from..], n)
    else SearchFrom(s, n, from + 1)
  }

  /** The match found is at the leftmost position where the pattern matches, and there is none only if no position matches. */
  lemma {:induction false} SearchIsLeftmost(s: string, n: nat, from: nat)
    requires from <= |s| + 1
    ensures SearchFrom(s, n, from).None? <==> forall p :: from <= p <= |s| ==> MatchHere(s[p..], n).None?
    ensures SearchFrom(s, n, from).Some? ==>
              exists p :: from <= p <= |s| && MatchHere(s[p..], n) == SearchFrom(s, n, from) &&
                          forall q :: from <= q < p ==> MatchHere(s[q..], n).None?
    decreases |s| + 1 - from
  {
    if from <= |s| {
      if MatchHere(s[from..], n).None? {
        SearchIsLeftmost(s, n, from + 1);
        if SearchFrom(s, n, from + 1).Some? {
          var p :| from + 1 <= p <= |s| && MatchHere(s[p..], n) == SearchFrom(s, n, from) &&
                   forall q :: from + 1 <= q < p ==> MatchHere(s[q..], n).None?;
          assert forall q :: from <= q < p ==> MatchHere(s[q..], n).None?;
        }
      } else {
        assert MatchHere(s[from..], n) == SearchFrom(s, n, from);
      }
    }
  }

  /** `re.search(pattern, clause)` for a pattern with `n` digit groups. */
  function Search(clause: string, n: nat): (r: Option<Clause>)
    ensures r.Some? ==> |r.value.reference| == n
  {
    SearchFrom(clause, n, 0)
  }

  /** The `match` statement of `check_version`: the comparison under Python's tuple order. */
  predicate Holds(version: seq<nat>, c: Clause)
  {
    match c.op
    case Eq => version == c.reference
    case Lt => Lexicographic.Less(version, c.reference)
    case Le => Lexicographic.Less(version, c.reference) || version == c.reference
    case Gt => Lexicographic.Less(c.reference, version)
    case Ge => Lexicographic.Less(c.reference, version) || version == c.reference
  }

  /** A clause that parses and whose comparison holds. */
  predicate Passes(version: seq<nat>, clause: string)
  {
    var m := Search(clause, |version|);
    m.Some? && Holds(version, m.value)
  }

  /**
    The loop of `check_version` over the remaining clauses: the first clause
    that does not parse raises, the first whose comparison fails returns
    False, and True comes only after every clause.
   */
  function Evaluate(version: seq<nat>, clauses: seq<string>, whole: string): (r: Result)
    ensures r.Malformed? ==> r.constraint == whole
    decreases |clauses|
  {
    if |clauses| == 0 then Ok(true)
    else match Search(clauses[0], |version|)
      case None => Malformed(whole)
      case Some(c) => if !Holds(version, c) then Ok(false) else Evaluate(version, clauses[1..], whole)
  }

  /** What `check_version(version, constraints)` returns or raises. */
  function Satisfies(version: seq<nat>, constraints: string): Result
  {
    Evaluate(version, Strings.Split(constraints, ','), constraints)
  }

  /** `check_version`: the loop over the comma-separated clauses, with its early exits. */
  method CheckVersion(version: seq<nat>, constraints: string) returns (r: Result)
    ensures r == Satisfies(version, constraints)
  {
    var clauses := Strings.Split(constraints, ',');
    for i := 0 to |clauses|
      invariant Evaluate(version, clauses, constraints) == Evaluate(version, clauses[i..], constraints)
    {
      assert clauses[i..][1..] == clauses[i + 1..];
      var m := Search(clauses[i], |version|);
      if m.None? {
        return Malformed(constraints);
      }
      var reference := m.value.reference;
      match m.value.op
      case Eq =>
        if !(version == reference) { return Ok(false); }
      case Lt =>
        if !Lexicographic.Less(version, reference) { return Ok(false); }
      case Le =>
        if !(Lexicographic.Less(version, reference) || version == reference) { return Ok(false); }
      case Gt =>
        if !Lexicographic.Less(reference, version) { return Ok(false); }
      case Ge =>
        if !(Lexicographic.Less(reference, version) || version == reference) { return Ok(false); }
    }
    return Ok(true);
  }

  // ---------------------------------------------------------------------------
  // version_to_str

  function DigitChar(d: nat): (c: char)
    requires d < 10
    ensures IsDigit(c) && c as int - '0' as int == d
  {
    ('0' as int + d) as char
  }

  /** `str(x)` for a non-negative integer: decimal, without leading zeros. */
  function NatToStr(x: nat): (s: string)
    ensures |s| >= 1
    decreases x
  {
    if x < 10 then [DigitChar(x)] else NatToStr(x / 10) + [DigitChar(x % 10)]
  }

  lemma {:induction false} NatToStrDigits(x: nat)
    ensures AllDigits(NatToStr(x))
    ensures NatToStr(x)[0] == '0' ==> x == 0
    decreases x
  {
    if x >= 10 {
      NatToStrDigits(x / 10);
    }
  }

  /** `map(str, version)`. */
  function Components(version: seq<nat>): (parts: seq<string>)
    ensures |parts| == |version|
    ensures forall i :: 0 <= i < |version| ==> parts[i] == NatToStr(version[i])
  {
    seq(|version|, i requires 0 <= i < |version| => NatToStr(version[i]))
  }

  /** `version_to_str`: the components in decimal, joined with `.`. */
  function VersionToStr(version: seq<nat>): string
    decreases |version|
  {
    if |version| == 0 then ""
    else if |version| == 1 then NatToStr(version[0])
    else NatToStr(version[0]) + "." + VersionToStr(version[1..])
  }

  /** `version_to_str` is `'.'.join(map(str, version))`. */
  lemma {:induction false} VersionToStrIsJoin(version: seq<nat>)
    ensures VersionToStr(version) == Strings.Join(Components(version), '.')
    decreases |version|
  {
    if |version| >= 2 {
      VersionToStrIsJoin(version[1..]);
      assert Components(version)[1..] == Components(version[1..]);
    }
  }

  /** Splitting the printed version at `.` gives back the decimal components. */
  lemma VersionTextSplitsIntoComponents(version: seq<nat>)
    requires |version| >= 1
    ensures Strings.Split(VersionToStr(version), '.') == Components(version)
  {
    var parts := Components(version);
    forall i | 0 <= i < |parts| ensures '.' !in parts[i] {
      NatToStrDigits(version[i]);
      assert AllDigits(parts[i]);
    }
    Strings.SplitJoin(parts, '.');
    VersionToStrIsJoin(version);
  }

  // ---------------------------------------------------------------------------
  // Lemmas about reading numbers back

  /** `int(str(x)) == x`. */
  lemma {:induction false} DecimalValueOfNatToStr(x: nat)
    ensures DecimalValue(NatToStr(x)) == x
    decreases x
  {
    if x >= 10 {
      var s := NatToStr(x);
      assert s[..|s| - 1] == NatToStr(x / 10);
      DecimalValueOfNatToStr(x / 10);
    }
  }

  /** A run of digits followed by a non-digit (or nothing) is read whole. */
  lemma {:induction false} DigitRunOfDigits(ds: string, t: string)
    requires AllDigits(ds)
    requires |t| == 0 || !IsDigit(t[0])
    ensures DigitRun(ds + t) == |ds|
    decreases |ds|
  {
    if |ds| == 0 {
      assert ds + t == t;
    } else {
      assert (ds + t)[1..] == ds[1..] + t;
      DigitRunOfDigits(ds[1..], t);
    }
  }

  /** The text `version_to_str` prints contains neither `,` nor any comparator character. */
  lemma {:induction false} VersionTextAlphabet(version: seq<nat>)
    ensures forall i :: 0 <= i < |VersionToStr(version)| ==>
              IsDigit(VersionToStr(version)[i]) || VersionToStr(version)[i] == '.'
    decreases |version|
  {
    if |version| >= 1 {
      NatToStrDigits(version[0]);
    }
    if |version| >= 2 {
      VersionTextAlphabet(version[1..]);
    }
  }

  /** The decimal text of `x`, followed by a non-digit, reads back as the one group `x`. */
  lemma ReadNumberText(x: nat, t: string)
    requires |t| == 0 || !IsDigit(t[0])
    ensures var s := NatToStr(x) + t;
            DigitRun(s) == |NatToStr(x)| && s[|NatToStr(x)|..] == t &&
            DecimalValue(s[..DigitRun(s)]) == x
  {
    var ds := NatToStr(x);
    NatToStrDigits(x);
    DigitRunOfDigits(ds, t);
    DecimalValueOfNatToStr(x);
    assert (ds + t)[..|ds|] == ds;
  }

  /** A run of digits followed by a dot: its value, then the groups read after the dot. */
  lemma ReadGroupsAfterDigits(ds: string, rest: string, n: nat, g: Groups)
    requires |ds| >= 1 && AllDigits(ds)
    requires n >= 2
    requires ReadGroups(rest, n - 1) == Some(g)
    ensures ReadGroups(ds + "." + rest, n) == Some(Groups([DecimalValue(ds)] + g.values, g.rest))
  {
    var s := ds + "." + rest;
    assert s == ds + ("." + rest);
    DigitRunOfDigits(ds, "." + rest);
    assert s[..|ds|] == ds;
    assert s[|ds|] == '.';
    assert s[|ds| + 1..] == rest;
  }

  /** The decimal text of `x` followed by a dot: `x`, then the groups read after the dot. */
  lemma ReadGroupsCons(x: nat, rest: string, n: nat, g: Groups, s: string)
    requires n >= 2
    requires ReadGroups(rest, n - 1) == Some(g)
    requires s == NatToStr(x) + "." + rest
    ensures ReadGroups(s, n) == Some(Groups([x] + g.values, g.rest))
  {
    NatToStrDigits(x);
    DecimalValueOfNatToStr(x);
    ReadGroupsAfterDigits(NatToStr(x), rest, n, g);
  }

  /**
    The digit groups of `version_to_str(version)` read back as `version`,
    whatever non-digit text follows.
   */
  lemma {:induction false} ReadVersionText(version: seq<nat>, t: string)
    requires |t| == 0 || !IsDigit(t[0])
    ensures ReadGroups(VersionToStr(version) + t, |version|) == Some(Groups(version, t))
    decreases |version|
  {
    if |version| == 0 {
      assert VersionToStr(version) + t == t;
    } else if |version| == 1 {
      ReadSingleComponent(version, t);
    } else {
      var tail := version[1..];
      ReadVersionText(tail, t);
      ReadVersionStep(version, t);
    }
  }

  lemma ReadSingleComponent(version: seq<nat>, t: string)
    requires |version| == 1
    requires |t| == 0 || !IsDigit(t[0])
    ensures ReadGroups(VersionToStr(version) + t, 1) == Some(Groups(version, t))
  {
    assert VersionToStr(version) == NatToStr(version[0]);
    ReadNumberText(version[0], t);
    assert version == [version[0]];
  }

  lemma ReadVersionStep(version: seq<nat>, t: string)
    requires |version| >= 2
    requires ReadGroups(VersionToStr(version[1..]) + t, |version| - 1) == Some(Groups(version[1..], t))
    ensures ReadGroups(VersionToStr(version) + t, |version|) == Some(Groups(version, t))
  {
    var x, tail := version[0], version[1..];
    var s, rest := VersionToStr(version) + t, VersionToStr(tail) + t;
    assert s == NatToStr(x) + "." + rest by {
      VersionTextCons(version, t);
    }
    ReadGroupsCons(x, rest, |version|, Groups(tail, t), s);
    assert [x] + tail == version;
  }

  lemma VersionTextCons(version: seq<nat>, t: string)
    requires |version| >= 2
    ensures VersionToStr(version) + t == NatToStr(version[0]) + "." + (VersionToStr(version[1..]) + t)
  {
  }

  /** How a clause is written: its comparator, then `version_to_str` of its reference. */
  function OpText(op: Comparator): string
  {
    match op
    case Eq => "="
    case Lt => "<"
    case Le => "<="
    case Gt => ">"
    case Ge => ">="
  }

  function ClauseText(c: Clause): string
  {
    OpText(c.op) + VersionToStr(c.reference)
  }

  /**
    Printing a clause and searching the text for it gives the clause back,
    whatever non-digit text follows. (`<=` and `>=` need at least one
    component: with none, the pattern is the comparator alone and its first
    alternative `<` or `>` already matches.)
   */
  lemma ClauseReadsBack(c: Clause, t: string)
    requires |c.reference| >= 1 || (c.op != Le && c.op != Ge)
    requires |t| == 0 || !IsDigit(t[0])
    ensures Search(ClauseText(c) + t, |c.reference|) == Some(c)
  {
    var body := VersionToStr(c.reference) + t;
    var s := ClauseText(c) + t;
    assert s == OpText(c.op) + body;
    ReadVersionText(c.reference, t);
    MatchOpText(c.op, body, |c.reference|, Groups(c.reference, t));
    assert s[0..] == s;
  }

  /** A comparator followed by text whose digit groups read as `g` matches right there. */
  lemma MatchOpText(op: Comparator, body: string, n: nat, g: Groups)
    requires n >= 1 || (op != Le && op != Ge)
    requires ReadGroups(body, n) == Some(g)
    ensures MatchHere(OpText(op) + body, n) == Some(Clause(op, g.values))
  {
    var s := OpText(op) + body;
    match op
    case Eq =>
      assert s[0] == '=' && s[1..] == body;
    case Lt =>
      assert s[0] == '<' && s[1..] == body;
    case Gt =>
      assert s[0] == '>' && s[1..] == body;
    case Le =>
      assert s[0] == '<' && s[1] == '=' && s[2..] == body;
      LeadingEqualsReadsNothing(body, n);
      assert s[1..] == "=" + body;
    case Ge =>
      assert s[0] == '>' && s[1] == '=' && s[2..] == body;
      LeadingEqualsReadsNothing(body, n);
      assert s[1..] == "=" + body;
  }

  /** Text starting with `=` holds no digit group. */
  lemma LeadingEqualsReadsNothing(body: string, n: nat)
    requires n >= 1
    ensures ReadGroups("=" + body, n) == None
  {
    assert DigitRun("=" + body) == 0;
  }

  /** With an empty version `<=` reads as `<`: the alternation tries `<` first. */
  lemma EmptyVersionReadsLeAsLt()
    ensures Search("<=", 0) == Some(Clause(Lt, []))
    ensures Satisfies([], "<=") == Ok(false)
  {
    assert "<="[0..] == "<=";
    Strings.SplitWithoutSeparator("<=", ',');
    Lexicographic.Irreflexive([]);
  }

  /** A printed clause contains no `,`, so it is one piece of the split. */
  lemma ClauseTextHasNoComma(c: Clause)
    ensures ',' !in ClauseText(c)
  {
    var v := VersionToStr(c.reference);
    var s := ClauseText(c);
    var k := |OpText(c.op)|;
    assert s == OpText(c.op) + v;
    VersionTextAlphabet(c.reference);
    forall i | 0 <= i < |s| ensures s[i] != ',' {
      if i >= k { assert s[i] == v[i - k]; }
    }
  }

  // ---------------------------------------------------------------------------
  // Properties of check_version

  /** `check_version` returns True iff every clause parses and its comparison holds. */
  lemma {:induction false} EvaluateTrueIff(version: seq<nat>, clauses: seq<string>, whole: string)
    ensures Evaluate(version, clauses, whole) == Ok(true) <==>
            forall i :: 0 <= i < |clauses| ==> Passes(version, clauses[i])
    decreases |clauses|
  {
    if |clauses| > 0 {
      EvaluateTrueIff(version, clauses[1..], whole);
      assert forall i :: 1 <= i < |clauses| ==> clauses[i] == clauses[1..][i - 1];
    }
  }

  lemma SatisfiesIffEveryClauseHolds(version: seq<nat>, constraints: string)
    ensures Satisfies(version, constraints) == Ok(true) <==>
            forall clause :: clause in Strings.Split(constraints, ',') ==> Passes(version, clause)
  {
    var clauses := Strings.Split(constraints, ',');
    EvaluateTrueIff(version, clauses, constraints);
    assert Satisfies(version, constraints) == Evaluate(version, clauses, constraints);
  }

  /**
    Evaluation stops at the first clause that does not pass: that clause alone
    decides between False and the error, and later clauses are never parsed.
   */
  lemma {:induction false} FirstFailingClauseDecides(version: seq<nat>, clauses: seq<string>, whole: string, j: nat)
    requires j < |clauses|
    requires forall i :: 0 <= i < j ==> Passes(version, clauses[i])
    requires !Passes(version, clauses[j])
    ensures Evaluate(version, clauses, whole) ==
            if Search(clauses[j], |version|).None? then Malformed(whole) else Ok(false)
    decreases j
  {
    if j > 0 {
      assert Passes(version, clauses[0]);
      assert forall i :: 0 <= i < j - 1 ==> clauses[1..][i] == clauses[i + 1];
      FirstFailingClauseDecides(version, clauses[1..], whole, j - 1);
    }
  }

  /** Whatever follows a clause that returned False or raised is never looked at. */
  lemma {:induction false} LaterClausesIgnored(version: seq<nat>, clauses: seq<string>, more: seq<string>, whole: string)
    requires Evaluate(version, clauses, whole) != Ok(true)
    ensures Evaluate(version, clauses + more, whole) == Evaluate(version, clauses, whole)
    decreases |clauses|
  {
    assert |clauses| > 0;
    assert (clauses + more)[0] == clauses[0];
    if Passes(version, clauses[0]) {
      assert (clauses + more)[1..] == clauses[1..] + more;
      LaterClausesIgnored(version, clauses[1..], more, whole);
    }
  }

  /** `check_version(version, "")` raises: the one empty clause has no comparator. */
  lemma EmptyConstraintMalformed(version: seq<nat>)
    ensures Satisfies(version, "") == Malformed("")
  {
    assert Strings.Split("", ',') == [""];
    assert MatchHere(""[0..], |version|).None?;
  }

  /** Too few components for the version's arity raise: `=1.2` against a 3-tuple. */
  lemma TooFewComponentsMalformed(version: seq<nat>)
    requires |version| == 3
    ensures Satisfies(version, "=1.2") == Malformed("=1.2")
  {
    var s := "=1.2";
    Strings.SplitWithoutSeparator(s, ',');
    assert ReadGroups("1.2", 3).None? by {
      var rest := "1.2"[2..];
      assert DigitRun("1.2") == 1 by { assert "1.2"[1..][0] == '.'; }
      assert DigitRun(rest) == 1 by { assert rest[1..] == ""; }
      assert ReadGroups(rest, 2).None? by { assert rest[1..] == ""; }
    }
    assert MatchHere(s[0..], 3).None? by { assert s[0..] == s && s[1..] == "1.2"; }
    assert MatchHere(s[1..], 3).None? by { assert s[1..][0] == '1'; }
    assert MatchHere(s[2..], 3).None? by { assert s[2..][0] == '.'; }
    assert MatchHere(s[3..], 3).None? by { assert s[3..][0] == '2'; }
    assert MatchHere(s[4..], 3).None? by { assert s[4..] == ""; }
    SearchIsLeftmost(s, 3, 0);
  }

  /** Text in front of the comparator is skipped by the unanchored search. */
  lemma {:induction false} LeadingTextSkipped(junk: string, clause: string, n: nat)
    requires forall i :: 0 <= i < |junk| ==> junk[i] !in "=<>"
    ensures Search(junk + clause, n) == Search(clause, n)
  {
    var s := junk + clause;
    forall p | 0 <= p < |junk| ensures MatchHere(s[p..], n).None? {
      assert s[p..][0] == junk[p];
    }
    SkipJunk(s, n, |junk|, 0);
    SearchShift(junk, clause, n, 0);
  }

  lemma {:induction false} SkipJunk(s: string, n: nat, k: nat, from: nat)
    requires from <= k <= |s|
    requires forall p :: from <= p < k ==> MatchHere(s[p..], n).None?
    ensures SearchFrom(s, n, from) == SearchFrom(s, n, k)
    decreases k - from
  {
    if from < k {
      SkipJunk(s, n, k, from + 1);
    }
  }

  lemma {:induction false} SearchShift(junk: string, clause: string, n: nat, q: nat)
    requires q <= |clause| + 1
    ensures SearchFrom(junk + clause, n, |junk| + q) == SearchFrom(clause, n, q)
    decreases |clause| + 1 - q
  {
    if q <= |clause| {
      assert (junk + clause)[|junk| + q..] == clause[q..];
      SearchShift(junk, clause, n, q + 1);
    }
  }

  /** Round trip: every version satisfies the equality pin that `version_to_str` prints for it. */
  lemma VersionSatisfiesItsOwnPin(version: seq<nat>)
    ensures Satisfies(version, "=" + VersionToStr(version)) == Ok(true)
  {
    var c := Clause(Eq, version);
    var s := ClauseText(c);
    ClauseTextHasNoComma(c);
    Strings.SplitWithoutSeparator(s, ',');
    ClauseReadsBack(c, "");
    assert s + "" == s;
    assert Evaluate(version, [s][1..], s) == Ok(true);
  }

  /** Clauses written out and joined with `,`, as a constraint string. */
  function ConstraintText(cs: seq<Clause>): (text: string)
    ensures |cs| >= 1 ==> Strings.Split(text, ',') == ClauseTexts(cs)
  {
    var texts := ClauseTexts(cs);
    if |cs| >= 1 then
      forall i | 0 <= i < |texts| ensures ',' !in texts[i] { ClauseTextHasNoComma(cs[i]); }
      Strings.SplitJoin(texts, ',');
      Strings.Join(texts, ',')
    else Strings.Join(texts, ',')
  }

  function ClauseTexts(cs: seq<Clause>): (texts: seq<string>)
    ensures |texts| == |cs|
    ensures forall i :: 0 <= i < |cs| ==> texts[i] == ClauseText(cs[i])
  {
    seq(|cs|, i requires 0 <= i < |cs| => ClauseText(cs[i]))
  }

  /** Clauses that each read back as the intended clause evaluate to the conjunction of their comparisons. */
  lemma {:induction false} EvaluateReadBack(version: seq<nat>, cs: seq<Clause>, texts: seq<string>, whole: string)
    requires |texts| == |cs|
    requires forall i :: 0 <= i < |cs| ==> Search(texts[i], |version|) == Some(cs[i])
    ensures Evaluate(version, texts, whole) == Ok(forall i :: 0 <= i < |cs| ==> Holds(version, cs[i]))
    decreases |cs|
  {
    if |cs| > 0 {
      assert forall i :: 0 <= i < |cs| - 1 ==> texts[1..][i] == texts[i + 1];
      EvaluateReadBack(version, cs[1..], texts[1..], whole);
      assert forall i :: 1 <= i < |cs| ==> cs[i] == cs[1..][i - 1];
    }
  }

  /**
    Round trip for whole constraint strings: printing a non-empty list of
    clauses of the version's arity and checking the version against the
    text gives exactly "every comparison holds", never an error.
   */
  lemma ConstraintTextRoundTrip(version: seq<nat>, cs: seq<Clause>)
    requires |cs| >= 1 && |version| >= 1
    requires forall i :: 0 <= i < |cs| ==> |cs[i].reference| == |version|
    ensures Satisfies(version, ConstraintText(cs)) == Ok(forall i :: 0 <= i < |cs| ==> Holds(version, cs[i]))
  {
    var texts := ClauseTexts(cs);
    forall i | 0 <= i < |cs| ensures Search(texts[i], |version|) == Some(cs[i]) {
      ClauseReadsBack(cs[i], "");
      assert ClauseText(cs[i]) + "" == texts[i];
    }
    EvaluateReadBack(version, cs, texts, ConstraintText(cs));
  }

  /** Two printed clauses joined by a comma hold exactly when both comparisons hold. */
  lemma SatisfiesBoth(version: seq<nat>, c0: Clause, c1: Clause)
    requires |version| >= 1 && |c0.reference| == |version| && |c1.reference| == |version|
    ensures Satisfies(version, ClauseText(c0) + "," + ClauseText(c1)) == Ok(Holds(version, c0) && Holds(version, c1))
  {
    var cs := [c0, c1];
    var a, b := ClauseText(c0), ClauseText(c1);
    assert ConstraintText(cs) == a + "," + b by {
      assert ClauseTexts(cs) == [a, b];
      assert Strings.Join([a, b], ',') == a + [','] + b by {
        assert [a, b][1..] == [b];
      }
    }
    assert |cs| == 2 && cs[0] == c0 && cs[1] == c1;
    if Holds(version, c0) && Holds(version, c1) {
      forall i | 0 <= i < |cs| ensures Holds(version, cs[i]) {
        assert i == 0 || i == 1;
      }
    }
    ConstraintTextRoundTrip(version, cs);
  }

  /** A range `>=lo,<hi` holds exactly for the versions from `lo` up to, but excluding, `hi`. */
  lemma RangeConstraint(version: seq<nat>, lo: seq<nat>, hi: seq<nat>)
    requires |version| >= 1 && |lo| == |version| && |hi| == |version|
    ensures Satisfies(version, ">=" + VersionToStr(lo) + "," + "<" + VersionToStr(hi)) ==
            Ok((Lexicographic.Less(lo, version) || version == lo) && Lexicographic.Less(version, hi))
  {
    SatisfiesBoth(version, Clause(Ge, lo), Clause(Lt, hi));
    assert ">=" + VersionToStr(lo) + "," + "<" + VersionToStr(hi) == ClauseText(Clause(Ge, lo)) + "," + ClauseText(Clause(Lt, hi));
  }

  /**
    The unanchored search reads `~>x.y.z` as `>x.y.z`: a pessimistic-version
    pin holds exactly for the versions strictly above the reference.
   */
  lemma TildeReadsAsGreater(version: seq<nat>, reference: seq<nat>)
    requires |reference| == |version|
    ensures Satisfies(version, "~>" + VersionToStr(reference)) == Ok(Lexicographic.Less(reference, version))
  {
    TildeText(reference);
    PrefixedClause(version, "~", Clause(Gt, reference));
  }

  lemma TildeText(reference: seq<nat>)
    ensures "~" + ClauseText(Clause(Gt, reference)) == "~>" + VersionToStr(reference)
  {
    var v := VersionToStr(reference);
    assert ClauseText(Clause(Gt, reference)) == ">" + v;
    assert "~" + (">" + v) == ("~" + ">") + v;
  }

  /** Text without a comparator or a comma in front of a printed clause does not change the verdict. */
  lemma PrefixedClause(version: seq<nat>, junk: string, c: Clause)
    requires forall i :: 0 <= i < |junk| ==> junk[i] !in "=<>,"
    requires |c.reference| == |version|
    requires |c.reference| >= 1 || (c.op != Le && c.op != Ge)
    ensures Satisfies(version, junk + ClauseText(c)) == Ok(Holds(version, c))
  {
    var s := junk + ClauseText(c);
    assert ',' !in s by {
      ClauseTextHasNoComma(c);
      forall i | 0 <= i < |s| ensures s[i] != ',' {
        if i >= |junk| { assert s[i] == ClauseText(c)[i - |junk|]; }
      }
    }
    assert Search(s, |version|) == Some(c) by {
      ClauseReadsBack(c, "");
      assert ClauseText(c) + "" == ClauseText(c);
      LeadingTextSkipped(junk, ClauseText(c), |version|);
    }
    SingleClause(version, s, c);
  }

  /** A constraint without a comma is a single clause: it holds when that clause reads back and holds. */
  lemma SingleClause(version: seq<nat>, s: string, c: Clause)
    requires ',' !in s && Search(s, |version|) == Some(c)
    ensures Satisfies(version, s) == Ok(Holds(version, c))
  {
    Strings.SplitWithoutSeparator(s, ',');
    assert Evaluate(version, [s][1..], s) == Ok(true);
  }

  /** Against a 2-tuple, `=3.11.5` compares with `(3, 11)`: the extra component is ignored. */
  lemma ExtraComponentIgnored()
    ensures Search("=3.11.5", 2) == Some(Clause(Eq, [3, 11]))
  {
    assert NatToStr(11) == NatToStr(1) + [DigitChar(1)] == "11";
    ClauseReadsBack(Clause(Eq, [3, 11]), ".5");
    assert ClauseText(Clause(Eq, [3, 11])) + ".5" == "=3.11.5";
  }

  /** The interpreter check of the build: `(3, 11)` satisfies `=3.11` and `(3, 10)` does not. */
  lemma PythonPin()
    ensures Satisfies([3, 11], "=3.11") == Ok(true)
    ensures Satisfies([3, 10], "=3.11") == Ok(false)
  {
    assert NatToStr(11) == NatToStr(1) + [DigitChar(1)] == "11";
    ClauseReadsBack(Clause(Eq, [3, 11]), "");
    assert ClauseText(Clause(Eq, [3, 11])) + "" == "=3.11";
    Strings.SplitWithoutSeparator("=3.11", ',');
    assert [3, 10] != [3, 11];
  }
}
