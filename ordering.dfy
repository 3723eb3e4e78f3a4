/**
 * Python's ordering of `str` values (code point by code point, a proper prefix first)
 * and `sorted()` applied to a set of strings.
 */
module Ordering {

  /** `a < b` on Python strings. */
  predicate Below(a: string, b: string) {
    if a == [] then b != []
    else if b == [] then false
    else if a[0] != b[0] then a[0] < b[0]
    else Below(a[1..], b[1..])
  }

  lemma {:induction false} BelowIrreflexive(a: string)
    ensures !Below(a, a)
  {
    if a != [] {
      BelowIrreflexive(a[1..]);
    }
  }

  lemma {:induction false} BelowAsymmetric(a: string, b: string)
    requires Below(a, b)
    ensures !Below(b, a)
  {
    if a != [] && b != [] && a[0] == b[0] {
      BelowAsymmetric(a[1..], b[1..]);
    }
  }

  lemma {:induction false} BelowTransitive(a: string, b: string, c: string)
    requires Below(a, b) && Below(b, c)
    ensures Below(a, c)
  {
    if a != [] && b != [] && c != [] && a[0] == b[0] && b[0] == c[0] {
      BelowTransitive(a[1..], b[1..], c[1..]);
    }
  }

  lemma {:induction false} BelowTotal(a: string, b: string)
    requires a != b
    ensures Below(a, b) || Below(b, a)
  {
    if a != [] && b != [] && a[0] == b[0] {
      assert a == [a[0]] + a[1..] && b == [b[0]] + b[1..];
      BelowTotal(a[1..], b[1..]);
    }
  }

  /** Each element comes before the next, so there are no repeats. */
  ghost predicate StrictlyAscending(xs: seq<string>) {
    forall i, j :: 0 <= i < j < |xs| ==> Below(xs[i], xs[j])
  }

  ghost predicate IsLeast(m: string, s: set<string>) {
    m in s && forall x :: x in s ==> !Below(x, m)
  }

  lemma {:induction false} LeastExists(s: set<string>)
    requires s != {}
    ensures exists m :: IsLeast(m, s)
    decreases |s|
  {
    var y :| y in s;
    if s != {y} {
      var rest := s - {y};
      LeastExists(rest);
      var m :| IsLeast(m, rest);
      if Below(y, m) {
        forall x | x in s
          ensures !Below(x, y)
        {
          if x == y {
            BelowIrreflexive(y);
          } else if Below(x, y) {
            BelowTransitive(x, y, m);
          }
        }
        assert IsLeast(y, s);
      } else {
        assert IsLeast(m, s);
      }
    } else {
      BelowIrreflexive(y);
      assert IsLeast(y, s);
    }
  }

  lemma LeastUnique(s: set<string>, m: string, n: string)
    requires IsLeast(m, s) && IsLeast(n, s)
    ensures m == n
  {
    if m != n {
      BelowTotal(m, n);
    }
  }

  /** The least element of a non-empty set. */
  ghost function Least(s: set<string>): (m: string)
    requires s != {}
    ensures IsLeast(m, s)
  {
    LeastExists(s);
    var m :| IsLeast(m, s);
    m
  }

  /** `sorted(s)`: the elements of `s`, least first. */
  ghost function SortedSeq(s: set<string>): seq<string>
    decreases |s|
  {
    if s == {} then []
    else
      var m := Least(s);
      [m] + SortedSeq(s - {m})
  }

  /** `sorted(s)` lists every element of `s` exactly once, in ascending order. */
  lemma {:induction false} SortedSeqSpec(s: set<string>)
    ensures StrictlyAscending(SortedSeq(s))
    ensures |SortedSeq(s)| == |s|
    ensures forall x :: x in SortedSeq(s) <==> x in s
    decreases |s|
  {
    if s != {} {
      var m := Least(s);
      var rest := s - {m};
      SortedSeqSpec(rest);
      var r := SortedSeq(s);
      assert r == [m] + SortedSeq(rest);
      forall i, j | 0 <= i < j < |r|
        ensures Below(r[i], r[j])
      {
        if i == 0 {
          assert r[j] in rest;
          assert !Below(r[j], m);
          BelowTotal(m, r[j]);
        }
      }
    }
  }

  /** The only strictly ascending listing of `s` is `sorted(s)`. */
  lemma {:induction false} SortedSeqUnique(s: set<string>, xs: seq<string>)
    requires StrictlyAscending(xs)
    requires forall x :: x in xs <==> x in s
    ensures xs == SortedSeq(s)
    decreases |s|
  {
    if s != {} {
      assert xs != [] by {
        var y :| y in s;
        assert y in xs;
      }
      forall x | x in s
        ensures !Below(x, xs[0])
      {
        var k :| 0 <= k < |xs| && xs[k] == x;
        if k == 0 {
          BelowIrreflexive(x);
        } else {
          BelowAsymmetric(xs[0], x);
        }
      }
      LeastUnique(s, xs[0], Least(s));
      var rest := s - {xs[0]};
      forall x
        ensures x in xs[1..] <==> x in rest
      {
        if x in xs[1..] {
          var k :| 1 <= k < |xs| && xs[k] == x;
          BelowIrreflexive(x);
          assert Below(xs[0], xs[k]);
        }
      }
      SortedSeqUnique(rest, xs[1..]);
      assert xs == [xs[0]] + xs[1..];
    }
  }

  /**
   * `sorted(s)` computed: repeatedly find the least remaining element by a scan
   * and append it.
   */
  method Sort(s: set<string>) returns (r: seq<string>)
    ensures r == SortedSeq(s)
  {
    r := [];
    var rest := s;
    while rest != {}
      invariant rest <= s
      invariant r + SortedSeq(rest) == SortedSeq(s)
      decreases |rest|
    {
      var m :| m in rest;
      var unseen := rest - {m};
      BelowIrreflexive(m);
      while unseen != {}
        invariant unseen <= rest && m in rest && m !in unseen
        invariant forall x :: x in rest && x !in unseen ==> !Below(x, m)
        decreases |unseen|
      {
        var y :| y in unseen;
        if Below(y, m) {
          forall x | x in rest && x !in unseen
            ensures !Below(x, y)
          {
            if Below(x, y) {
              BelowTransitive(x, y, m);
            }
          }
          BelowIrreflexive(y);
          m := y;
        }
        unseen := unseen - {y};
      }
      LeastUnique(rest, m, Least(rest));
      r := r + [m];
      rest := rest - {m};
    }
  }
}
