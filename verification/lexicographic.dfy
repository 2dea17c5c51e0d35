/**
  Python's ordering of tuples of non-negative integers, which is also its
  ordering of strings once every character is read as its code point:
  the first position where the two differ decides, and a proper prefix
  comes before every longer sequence that extends it.
 */
module Lexicographic {

  /** `a < b` on Python tuples. */
  predicate Less(a: seq<nat>, b: seq<nat>)
    decreases |a|
  {
    |b| > 0 && (|a| == 0 || a[0] < b[0] || (a[0] == b[0] && Less(a[1..], b[1..])))
  }

  /** `a` and `b` agree up to `i`, where `a` ends or holds the smaller component. */
  ghost predicate LessAt(a: seq<nat>, b: seq<nat>, i: nat)
  {
    i <= |a| && i < |b| && a[..i] == b[..i] && (i == |a| || a[i] < b[i])
  }

  /** `Less` agrees with the reference reading by a first differing position. */
  lemma {:induction false} LessIffFirstDifference(a: seq<nat>, b: seq<nat>)
    ensures Less(a, b) <==> exists i: nat :: LessAt(a, b, i)
    decreases |a|
  {
    if Less(a, b) {
      if |a| == 0 || a[0] < b[0] {
        assert LessAt(a, b, 0);
      } else {
        LessIffFirstDifference(a[1..], b[1..]);
        var i: nat :| LessAt(a[1..], b[1..], i);
        assert a[..i + 1] == [a[0]] + a[1..][..i];
        assert b[..i + 1] == [b[0]] + b[1..][..i];
        assert LessAt(a, b, i + 1);
      }
    }
    if exists i: nat :: LessAt(a, b, i) {
      var i: nat :| LessAt(a, b, i);
      if i > 0 {
        assert a[0] == a[..i][0] == b[..i][0] == b[0];
        assert a[1..][..i - 1] == a[..i][1..];
        assert b[1..][..i - 1] == b[..i][1..];
        assert LessAt(a[1..], b[1..], i - 1);
        LessIffFirstDifference(a[1..], b[1..]);
      }
    }
  }

  lemma {:induction false} Irreflexive(a: seq<nat>)
    ensures !Less(a, a)
    decreases |a|
  {
    if |a| > 0 {
      Irreflexive(a[1..]);
    }
  }

  lemma {:induction false} Transitive(a: seq<nat>, b: seq<nat>, c: seq<nat>)
    requires Less(a, b) && Less(b, c)
    ensures Less(a, c)
    decreases |a|
  {
    if |a| > 0 && a[0] == b[0] && b[0] == c[0] {
      Transitive(a[1..], b[1..], c[1..]);
    }
  }

  /** Python tuples are totally ordered: exactly one of `<`, `==`, `>` holds. */
  lemma {:induction false} Trichotomy(a: seq<nat>, b: seq<nat>)
    ensures Less(a, b) || a == b || Less(b, a)
    ensures !(Less(a, b) && Less(b, a))
    decreases |a|
  {
    if |a| > 0 && |b| > 0 && a[0] == b[0] {
      Trichotomy(a[1..], b[1..]);
      if a[1..] == b[1..] {
        assert a == [a[0]] + a[1..] && b == [b[0]] + b[1..];
      }
    }
  }
}
