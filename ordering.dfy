/**
 * Python's ordering of `str` values (code point by code point, a proper
 * prefix first) and `sorted(...)` over a set of identifiers, which the two
 * inline scripts use to list drawing ids.
 */
module Ordering {

  /** Python's `a < b` on strings. */
  predicate Less(a: string, b: string)
  {
    if a == [] then b != []
    else if b == [] then false
    else if a[0] != b[0] then a[0] < b[0]
    else Less(a[1..], b[1..])
  }

  lemma {:induction false} LessIrreflexive(a: string)
    ensures !Less(a, a)
  {
    if a != [] {
      LessIrreflexive(a[1..]);
    }
  }

  lemma {:induction false} LessAsymmetric(a: string, b: string)
    ensures Less(a, b) ==> !Less(b, a)
  {
    if a != [] && b != [] && a[0] == b[0] {
      LessAsymmetric(a[1..], b[1..]);
    }
  }

  lemma {:induction false} LessTransitive(a: string, b: string, c: string)
    requires Less(a, b) && Less(b, c)
    ensures Less(a, c)
  {
    if a != [] && a[0] == b[0] && b[0] == c[0] {
      LessTransitive(a[1..], b[1..], c[1..]);
    }
  }

  /** Two different strings are always ordered one way or the other. */
  lemma {:induction false} LessTotal(a: string, b: string)
    requires a != b
    ensures Less(a, b) || Less(b, a)
  {
    if a != [] && b != [] && a[0] == b[0] {
      assert a == [a[0]] + a[1..] && b == [b[0]] + b[1..];
      LessTotal(a[1..], b[1..]);
    }
  }

  /** Strictly ascending, hence without duplicates. */
  ghost predicate StrictlySorted(s: seq<string>)
  {
    forall i, j :: 0 <= i < j < |s| ==> Less(s[i], s[j])
  }

  /** The least element of a non-empty set of strings. */
  method Least(xs: set<string>) returns (m: string)
    requires xs != {}
    ensures m in xs
    ensures forall x :: x in xs && x != m ==> Less(m, x)
  {
    m :| m in xs;
    var rest := xs - {m};
    while rest != {}
      invariant m in xs && rest <= xs
      invariant forall x :: x in xs && x !in rest && x != m ==> Less(m, x)
      decreases rest
    {
      var y :| y in rest;
      if y != m {
        LessTotal(m, y);
        if Less(y, m) {
          forall x | x in xs && x !in rest && x != y
            ensures Less(y, x)
          {
            if x != m {
              LessTransitive(y, m, x);
            }
          }
          m := y;
        }
      }
      rest := rest - {y};
    }
  }

  /** Python's `sorted(xs)` for a set of strings: every element once, in ascending order. */
  method SortedList(xs: set<string>) returns (s: seq<string>)
    ensures StrictlySorted(s)
    ensures forall x :: x in s <==> x in xs
    ensures |s| == |xs|
  {
    s := [];
    var rest := xs;
    while rest != {}
      invariant rest <= xs
      invariant forall x :: x in s <==> x in xs && x !in rest
      invariant StrictlySorted(s)
      invariant forall i, x :: 0 <= i < |s| && x in rest ==> Less(s[i], x)
      invariant |s| + |rest| == |xs|
      decreases |rest|
    {
      var m := Least(rest);
      forall i, x | 0 <= i < |s| && x in rest - {m}
        ensures Less(s[i], x)
      {
        LessTransitive(s[i], m, x);
      }
      s := s + [m];
      rest := rest - {m};
    }
  }

  lemma NonEmptyHasElement(s: seq<string>)
    ensures s != [] <==> exists x :: x in s
  {
    if s != [] {
      assert s[0] in s;
    }
  }

  /** Only one list is strictly sorted and holds exactly a given set of strings. */
  lemma {:induction false} SortedUnique(a: seq<string>, b: seq<string>)
    requires StrictlySorted(a) && StrictlySorted(b)
    requires forall x :: x in a <==> x in b
    ensures a == b
  {
    if a == [] || b == [] {
      NonEmptyHasElement(a);
      NonEmptyHasElement(b);
    } else {
      if a[0] != b[0] {
        assert a[0] in b;
        assert b[0] in a;
        var i :| 0 <= i < |a| && a[i] == b[0];
        var j :| 0 <= j < |b| && b[j] == a[0];
        assert Less(a[0], b[0]);
        assert Less(b[0], a[0]);
        LessAsymmetric(a[0], b[0]);
      }
      forall x
        ensures x in a[1..] <==> x in b[1..]
      {
        if x in a[1..] {
          var i :| 1 <= i < |a| && a[i] == x;
          assert Less(a[0], x);
          LessIrreflexive(x);
          assert x in a && x in b;
          var j :| 0 <= j < |b| && b[j] == x;
          assert j != 0 && b[1..][j - 1] == x;
        }
        if x in b[1..] {
          var j :| 1 <= j < |b| && b[j] == x;
          assert Less(b[0], x);
          LessIrreflexive(x);
          assert x in b && x in a;
          var i :| 0 <= i < |a| && a[i] == x;
          assert i != 0 && a[1..][i - 1] == x;
        }
      }
      SortedUnique(a[1..], b[1..]);
      assert a == [a[0]] + a[1..] && b == [b[0]] + b[1..];
    }
  }
}
