/**
 * Sets collected by a loop over a sequence: `{f(x) | x in xs}` and the union of `g(x)`,
 * each built by adding the contribution of one element after the other.
 */
module Images {

  /** The set of `f(x)` for the elements `x` of `xs`. */
  function Image<T>(xs: seq<T>, f: T -> string): set<string> {
    if xs == [] then {} else Image(xs[..|xs| - 1], f) + {f(xs[|xs| - 1])}
  }

  /** The union of `g(x)` over the elements `x` of `xs`. */
  function UnionOf<T>(xs: seq<T>, g: T -> set<string>): set<string> {
    if xs == [] then {} else UnionOf(xs[..|xs| - 1], g) + g(xs[|xs| - 1])
  }

  lemma {:induction false} ImageMembers<T>(xs: seq<T>, f: T -> string, d: string)
    ensures d in Image(xs, f) <==> exists j :: 0 <= j < |xs| && d == f(xs[j])
  {
    if xs != [] {
      var n := |xs| - 1;
      var init := xs[..n];
      ImageMembers(init, f, d);
      if d in Image(init, f) {
        var j :| 0 <= j < n && d == f(init[j]);
        assert init[j] == xs[j];
      }
      if (exists j :: 0 <= j < |xs| && d == f(xs[j])) {
        var j :| 0 <= j < |xs| && d == f(xs[j]);
        if j < n {
          assert init[j] == xs[j];
        }
      }
    }
  }

  lemma {:induction false} ImageSize<T>(xs: seq<T>, f: T -> string)
    ensures |Image(xs, f)| <= |xs|
  {
    if xs != [] {
      ImageSize(xs[..|xs| - 1], f);
    }
  }

  lemma {:induction false} UnionMembers<T>(xs: seq<T>, g: T -> set<string>, d: string)
    ensures d in UnionOf(xs, g) <==> exists i :: 0 <= i < |xs| && d in g(xs[i])
  {
    if xs != [] {
      var n := |xs| - 1;
      var init := xs[..n];
      UnionMembers(init, g, d);
      if d in UnionOf(init, g) {
        var i :| 0 <= i < n && d in g(init[i]);
        assert init[i] == xs[i];
      }
      if (exists i :: 0 <= i < |xs| && d in g(xs[i])) {
        var i :| 0 <= i < |xs| && d in g(xs[i]);
        if i < n {
          assert init[i] == xs[i];
        }
      }
    }
  }
}
