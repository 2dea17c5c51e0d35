/**
  Python's `sorted()` on a list of strings: strings compare character by
  character by code point, a proper prefix first. `Sort` is a reference
  insertion sort; what matters about it is that its result is ordered, is a
  permutation of its input, and is the only ordered permutation, so the
  result does not depend on the order of the input.
 */
module SortedStrings {
  import Lexicographic

  /** The code points of a string. */
  function Codes(s: string): (codes: seq<nat>)
    ensures |codes| == |s|
    ensures forall i :: 0 <= i < |s| ==> codes[i] == s[i] as nat
  {
    seq(|s|, i requires 0 <= i < |s| => s[i] as nat)
  }

  /** `a < b` on Python strings. */
  predicate StrLess(a: string, b: string)
  {
    Lexicographic.Less(Codes(a), Codes(b))
  }

  predicate StrLe(a: string, b: string)
  {
    StrLess(a, b) || a == b
  }

  /** Every element is at most every later one. */
  predicate Ordered(s: seq<string>)
  {
    forall i, j :: 0 <= i < j < |s| ==> StrLe(s[i], s[j])
  }

  lemma CodesInjective(a: string, b: string)
    requires Codes(a) == Codes(b)
    ensures a == b
  {
    assert |a| == |b|;
    forall i | 0 <= i < |a| ensures a[i] == b[i] {
      assert Codes(a)[i] == Codes(b)[i];
    }
  }

  /** Exactly one of `a < b`, `a == b`, `b < a` holds. */
  lemma StrTrichotomy(a: string, b: string)
    ensures StrLess(a, b) || a == b || StrLess(b, a)
    ensures !(StrLess(a, b) && StrLess(b, a))
    ensures StrLess(a, b) ==> a != b
  {
    Lexicographic.Trichotomy(Codes(a), Codes(b));
    Lexicographic.Irreflexive(Codes(a));
    if Codes(a) == Codes(b) {
      CodesInjective(a, b);
    }
  }

  lemma StrLeTransitive(a: string, b: string, c: string)
    requires StrLe(a, b) && StrLe(b, c)
    ensures StrLe(a, c)
  {
    if StrLess(a, b) && StrLess(b, c) {
      Lexicographic.Transitive(Codes(a), Codes(b), Codes(c));
    }
  }

  /** `x` placed before the first element that is not smaller than it. */
  function Insert(x: string, s: seq<string>): (r: seq<string>)
    ensures multiset(r) == multiset(s) + multiset{x}
    decreases |s|
  {
    if |s| == 0 || !StrLess(s[0], x) then [x] + s
    else
      assert s == [s[0]] + s[1..];
      [s[0]] + Insert(x, s[1..])
  }

  function Sort(s: seq<string>): (r: seq<string>)
    ensures multiset(r) == multiset(s)
    decreases |s|
  {
    if |s| == 0 then []
    else
      assert s == [s[0]] + s[1..];
      Insert(s[0], Sort(s[1..]))
  }

  /** An element at most every element of an ordered list can go in front of it. */
  lemma PrependOrdered(y: string, t: seq<string>)
    requires Ordered(t)
    requires forall k :: 0 <= k < |t| ==> StrLe(y, t[k])
    ensures Ordered([y] + t)
  {
    var r := [y] + t;
    forall i, j | 0 <= i < j < |r| ensures StrLe(r[i], r[j]) {
      assert r[j] == t[j - 1];
      if i > 0 {
        assert r[i] == t[i - 1];
      }
    }
  }

  /** Inserting into an ordered list keeps it ordered. */
  lemma {:induction false} InsertOrdered(x: string, s: seq<string>)
    requires Ordered(s)
    ensures Ordered(Insert(x, s))
    decreases |s|
  {
    if |s| == 0 || !StrLess(s[0], x) {
      if |s| > 0 {
        StrTrichotomy(s[0], x);
        forall k | 0 <= k < |s| ensures StrLe(x, s[k]) {
          if k > 0 { StrLeTransitive(x, s[0], s[k]); }
        }
      }
      PrependOrdered(x, s);
    } else {
      var tail := s[1..];
      var rest := Insert(x, tail);
      OrderedTail(s);
      InsertOrdered(x, tail);
      forall k | 0 <= k < |rest| ensures StrLe(s[0], rest[k]) {
        assert rest[k] in multiset(rest);
        if rest[k] != x {
          assert rest[k] in multiset(tail);
          var m :| 0 <= m < |tail| && tail[m] == rest[k];
          assert s[m + 1] == rest[k];
        }
      }
      PrependOrdered(s[0], rest);
    }
  }

  /** `sorted()` returns an ordered permutation of its argument. */
  lemma {:induction false} SortOrdered(s: seq<string>)
    ensures Ordered(Sort(s))
    decreases |s|
  {
    if |s| > 0 {
      SortOrdered(s[1..]);
      InsertOrdered(s[0], Sort(s[1..]));
    }
  }

  /** Two ordered lists with the same elements are the same list. */
  lemma {:induction false} OrderedUnique(a: seq<string>, b: seq<string>)
    requires Ordered(a) && Ordered(b)
    requires multiset(a) == multiset(b)
    ensures a == b
    decreases |a|
  {
    if |a| > 0 {
      assert |b| == |a| by { assert |multiset(a)| == |multiset(b)|; }
      HeadIsLeast(a, b[0]);
      HeadIsLeast(b, a[0]);
      StrTrichotomy(a[0], b[0]);
      SameTails(a, b);
      OrderedTail(a);
      OrderedTail(b);
      OrderedUnique(a[1..], b[1..]);
      assert a == [a[0]] + a[1..] && b == [b[0]] + b[1..];
    }
  }

  /** The first element of an ordered list is at most each of its elements. */
  lemma HeadIsLeast(a: seq<string>, x: string)
    requires Ordered(a) && x in multiset(a)
    ensures StrLe(a[0], x)
  {
    var i :| 0 <= i < |a| && a[i] == x;
    if i > 0 {
      assert StrLe(a[0], a[i]);
    }
  }

  lemma OrderedTail(a: seq<string>)
    requires Ordered(a) && |a| > 0
    ensures Ordered(a[1..])
  {
    assert forall i, j :: 0 <= i < j < |a[1..]| ==> a[1..][i] == a[i + 1] && a[1..][j] == a[j + 1];
  }

  lemma SameTails(a: seq<string>, b: seq<string>)
    requires |a| > 0 && |b| > 0 && a[0] == b[0]
    requires multiset(a) == multiset(b)
    ensures multiset(a[1..]) == multiset(b[1..])
  {
    assert a == [a[0]] + a[1..] && b == [b[0]] + b[1..];
    assert multiset(a[1..]) == multiset(a) - multiset{a[0]};
    assert multiset(b[1..]) == multiset(b) - multiset{b[0]};
  }

  /** The arguments sorted are the same whatever order they were given in. */
  lemma SortIgnoresOrder(a: seq<string>, b: seq<string>)
    requires multiset(a) == multiset(b)
    ensures Sort(a) == Sort(b)
  {
    SortOrdered(a);
    SortOrdered(b);
    OrderedUnique(Sort(a), Sort(b));
  }
}
