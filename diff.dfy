/**
 * The diff engine: compares two endpoint sets and renders the added and removed
 * descriptors as a line-oriented report, or nothing when the sets are equal.
 */
module Diff {
  import opened Wrappers
  import opened Text
  import opened Ordering

  const NEW_HEADER := "NEW ENDPOINTS:"
  const REMOVED_HEADER := "REMOVED ENDPOINTS:"

  /** `prefix + x` for every `x`, in order. */
  function Prefixed(prefix: string, xs: seq<string>): (r: seq<string>)
    ensures |r| == |xs|
    ensures forall k :: 0 <= k < |xs| ==> r[k] == prefix + xs[k]
  {
    seq(|xs|, k requires 0 <= k < |xs| => prefix + xs[k])
  }

  /** The section for one side: a header, then one marked line per descriptor; empty when there are none. */
  ghost function Section(header: string, marker: string, s: set<string>): seq<string> {
    if s == {} then [] else [header] + Prefixed(marker, SortedSeq(s))
  }

  /** The lines of the report from `previous` to `current`. */
  ghost function ReportLines(previous: set<string>, current: set<string>): seq<string> {
    var added, removed := current - previous, previous - current;
    Section(NEW_HEADER, "+ ", added)
    + (if added != {} && removed != {} then [""] else [])
    + Section(REMOVED_HEADER, "- ", removed)
  }

  /** The value of `get_diff`: the lines joined by newlines, or `None` when there are no lines. */
  ghost function Report(previous: set<string>, current: set<string>): Option<string> {
    var lines := ReportLines(previous, current);
    if lines != [] then Some(Join("\n", lines)) else None
  }

  /** A line of the form `<marker> <text>`. */
  predicate Marked(line: string, marker: char) {
    |line| >= 2 && line[0] == marker && line[1] == ' '
  }

  /** The texts of the lines marked with `marker`, in the order they appear. */
  function Payloads(lines: seq<string>, marker: char): seq<string> {
    if lines == [] then []
    else (if Marked(lines[0], marker) then [lines[0][2..]] else []) + Payloads(lines[1..], marker)
  }

  lemma {:induction false} PayloadsAppend(a: seq<string>, b: seq<string>, marker: char)
    ensures Payloads(a + b, marker) == Payloads(a, marker) + Payloads(b, marker)
  {
    if a != [] {
      assert (a + b)[1..] == a[1..] + b;
      PayloadsAppend(a[1..], b, marker);
    } else {
      assert a + b == b;
    }
  }

  lemma {:induction false} PayloadsOfPrefixed(marker: char, other: char, xs: seq<string>)
    requires marker != other
    ensures Payloads(Prefixed([marker, ' '], xs), marker) == xs
    ensures Payloads(Prefixed([marker, ' '], xs), other) == []
  {
    if xs != [] {
      var p := Prefixed([marker, ' '], xs);
      assert p[1..] == Prefixed([marker, ' '], xs[1..]);
      assert p[0][2..] == xs[0];
      PayloadsOfPrefixed(marker, other, xs[1..]);
      assert xs == [xs[0]] + xs[1..];
    }
  }

  /** The texts marked `marker` in a section with marker `marker` are the sorted descriptors; no other mark appears. */
  lemma SectionPayloads(header: string, marker: char, other: char, s: set<string>)
    requires marker != other
    requires !Marked(header, marker) && !Marked(header, other)
    ensures Payloads(Section(header, [marker, ' '], s), marker) == SortedSeq(s)
    ensures Payloads(Section(header, [marker, ' '], s), other) == []
  {
    if s != {} {
      var body := Prefixed([marker, ' '], SortedSeq(s));
      assert Section(header, [marker, ' '], s) == [header] + body;
      PayloadsAppend([header], body, marker);
      PayloadsAppend([header], body, other);
      PayloadsOfPrefixed(marker, other, SortedSeq(s));
    }
  }

  lemma ReportPayloads(previous: set<string>, current: set<string>)
    ensures Payloads(ReportLines(previous, current), '+') == SortedSeq(current - previous)
    ensures Payloads(ReportLines(previous, current), '-') == SortedSeq(previous - current)
  {
    var a := Section(NEW_HEADER, "+ ", current - previous);
    var sep := if current - previous != {} && previous - current != {} then [""] else [];
    var r := Section(REMOVED_HEADER, "- ", previous - current);
    SectionPayloads(NEW_HEADER, '+', '-', current - previous);
    SectionPayloads(REMOVED_HEADER, '-', '+', previous - current);
    PayloadsAppend(a + sep, r, '+');
    PayloadsAppend(a + sep, r, '-');
    PayloadsAppend(a, sep, '+');
    PayloadsAppend(a, sep, '-');
  }

  /** There is a report exactly when the two sets differ. */
  lemma ReportNoneIffEqual(previous: set<string>, current: set<string>)
    ensures Report(previous, current).None? <==> previous == current
    ensures ReportLines(previous, current) == [] <==> previous == current
  {
    if current - previous == {} && previous - current == {} {
      forall x
        ensures x in previous <==> x in current
      {
        assert x !in current - previous && x !in previous - current;
      }
    }
  }

  /**
   * The `+ ` lines are exactly the added descriptors and the `- ` lines exactly the
   * removed ones, each in strictly ascending order.
   */
  lemma AddedAndRemovedLines(previous: set<string>, current: set<string>)
    ensures var plus := Payloads(ReportLines(previous, current), '+');
      StrictlyAscending(plus) && forall x :: x in plus <==> x in current && x !in previous
    ensures var minus := Payloads(ReportLines(previous, current), '-');
      StrictlyAscending(minus) && forall x :: x in minus <==> x in previous && x !in current
  {
    ReportPayloads(previous, current);
    SortedSeqSpec(current - previous);
    SortedSeqSpec(previous - current);
  }

  /** Swapping the arguments swaps the added and removed lines. */
  lemma ReportAntisymmetric(a: set<string>, b: set<string>)
    ensures Payloads(ReportLines(a, b), '+') == Payloads(ReportLines(b, a), '-')
    ensures Payloads(ReportLines(a, b), '-') == Payloads(ReportLines(b, a), '+')
  {
    ReportPayloads(a, b);
    ReportPayloads(b, a);
  }

  /** No line of a section's body is a header or blank. */
  lemma PrefixedLinesAreMarked(marker: char, xs: seq<string>)
    ensures forall k :: 0 <= k < |xs| ==> Marked(Prefixed([marker, ' '], xs)[k], marker)
  {
  }

  /**
   * `NEW ENDPOINTS:` appears exactly when something was added, `REMOVED ENDPOINTS:`
   * exactly when something was removed, and one blank separator exactly when both did.
   */
  lemma {:induction false} ReportHeaders(previous: set<string>, current: set<string>)
    ensures NEW_HEADER in ReportLines(previous, current) <==> current - previous != {}
    ensures REMOVED_HEADER in ReportLines(previous, current) <==> previous - current != {}
    ensures multiset(ReportLines(previous, current))[""] == if current - previous != {} && previous - current != {} then 1 else 0
  {
    var added, removed := current - previous, previous - current;
    var a := Section(NEW_HEADER, "+ ", added);
    var sep: seq<string> := if added != {} && removed != {} then [""] else [];
    var r := Section(REMOVED_HEADER, "- ", removed);
    var lines := ReportLines(previous, current);
    assert lines == a + sep + r;
    var pa := Prefixed("+ ", SortedSeq(added));
    var pr := Prefixed("- ", SortedSeq(removed));
    PrefixedLinesAreMarked('+', SortedSeq(added));
    PrefixedLinesAreMarked('-', SortedSeq(removed));
    assert a == if added == {} then [] else [NEW_HEADER] + pa;
    assert r == if removed == {} then [] else [REMOVED_HEADER] + pr;
    assert NEW_HEADER !in pa && NEW_HEADER !in pr;
    assert REMOVED_HEADER !in pa && REMOVED_HEADER !in pr;
    assert "" !in pa && "" !in pr;
    assert multiset(pa)[""] == 0 && multiset(pr)[""] == 0;
    assert multiset(lines) == multiset(a) + multiset(sep) + multiset(r);
  }

  /**
   * The added section comes first: the report starts with the header of the first
   * non-empty section, and no `+ ` line follows a `- ` line.
   */
  lemma ReportOrder(previous: set<string>, current: set<string>)
    ensures current - previous != {} ==> ReportLines(previous, current)[0] == NEW_HEADER
    ensures current - previous == {} && previous - current != {} ==> ReportLines(previous, current)[0] == REMOVED_HEADER
    ensures exists k :: (0 <= k <= |ReportLines(previous, current)| &&
      Payloads(ReportLines(previous, current)[..k], '-') == [] &&
      Payloads(ReportLines(previous, current)[k..], '+') == [])
  {
    var added, removed := current - previous, previous - current;
    var a := Section(NEW_HEADER, "+ ", added);
    var sep: seq<string> := if added != {} && removed != {} then [""] else [];
    var r := Section(REMOVED_HEADER, "- ", removed);
    var lines := ReportLines(previous, current);
    SectionPayloads(NEW_HEADER, '+', '-', added);
    SectionPayloads(REMOVED_HEADER, '-', '+', removed);
    var k := |a + sep|;
    assert lines[..k] == a + sep && lines[k..] == r;
    PayloadsAppend(a, sep, '-');
  }

  lemma PrefixedSnoc(prefix: string, xs: seq<string>, x: string)
    ensures Prefixed(prefix, xs + [x]) == Prefixed(prefix, xs) + [prefix + x]
  {
  }

  /** Appends a header and one `marker`-prefixed line per element of `sorted`, in order. */
  method AppendSection(lines: seq<string>, header: string, marker: string, sorted: seq<string>)
    returns (r: seq<string>)
    ensures r == lines + [header] + Prefixed(marker, sorted)
  {
    r := lines + [header];
    ghost var start := r;
    var i := 0;
    while i < |sorted|
      invariant 0 <= i <= |sorted|
      invariant r == start + Prefixed(marker, sorted[..i])
    {
      assert sorted[..i + 1] == sorted[..i] + [sorted[i]];
      PrefixedSnoc(marker, sorted[..i], sorted[i]);
      r := r + [marker + sorted[i]];
      i := i + 1;
    }
    assert sorted[..i] == sorted;
  }

  /** `get_diff`: collects the report lines with appends, then joins them. */
  method GetDiff(previous: set<string>, current: set<string>) returns (changes: Option<string>)
    ensures changes == Report(previous, current)
    ensures changes.None? <==> previous == current
    ensures changes.Some? ==> changes.value != ""
  {
    var added := current - previous;
    var removed := previous - current;
    var lines: seq<string> := [];
    if added != {} {
      var sortedAdded := Sort(added);
      lines := AppendSection(lines, NEW_HEADER, "+ ", sortedAdded);
    }
    assert lines == Section(NEW_HEADER, "+ ", added);
    if removed != {} {
      if added != {} {
        lines := lines + [""];
      }
      var sortedRemoved := Sort(removed);
      lines := AppendSection(lines, REMOVED_HEADER, "- ", sortedRemoved);
    }
    assert lines == ReportLines(previous, current);
    ReportNoneIffEqual(previous, current);
    if lines != [] {
      changes := Some(Join("\n", lines));
    } else {
      changes := None;
    }
  }

  lemma SortedSingleton(x: string)
    ensures SortedSeq({x}) == [x]
  {
    assert Least({x}) == x;
    assert {x} - {x} == {};
  }

  /** An added operation alone: `NEW ENDPOINTS:` and one `+ ` line. */
  lemma AddedExample()
    ensures Report({"GET /a"}, {"GET /a", "POST /b"}) == Some("NEW ENDPOINTS:\n+ POST /b")
  {
    assert {"GET /a", "POST /b"} - {"GET /a"} == {"POST /b"};
    assert {"GET /a"} - {"GET /a", "POST /b"} == {};
    SortedSingleton("POST /b");
    assert "+ " + "POST /b" == "+ POST /b";
    assert Prefixed("+ ", ["POST /b"]) == ["+ POST /b"];
    assert Section(NEW_HEADER, "+ ", {"POST /b"}) == [NEW_HEADER, "+ POST /b"];
    assert ReportLines({"GET /a"}, {"GET /a", "POST /b"}) == [NEW_HEADER, "+ POST /b"];
    assert [NEW_HEADER, "+ POST /b"][1..] == ["+ POST /b"];
    assert Join("\n", [NEW_HEADER, "+ POST /b"]) == NEW_HEADER + "\n" + "+ POST /b";
    assert NEW_HEADER + "\n" + "+ POST /b" == "NEW ENDPOINTS:\n+ POST /b";
  }

  /** A removed operation alone: `REMOVED ENDPOINTS:` and one `- ` line. */
  lemma RemovedExample()
    ensures Report({"GET /a", "GET /b"}, {"GET /a"}) == Some("REMOVED ENDPOINTS:\n- GET /b")
  {
    assert {"GET /a"} - {"GET /a", "GET /b"} == {};
    assert {"GET /a", "GET /b"} - {"GET /a"} == {"GET /b"};
    SortedSingleton("GET /b");
    assert "- " + "GET /b" == "- GET /b";
    assert Prefixed("- ", ["GET /b"]) == ["- GET /b"];
    assert Section(REMOVED_HEADER, "- ", {"GET /b"}) == [REMOVED_HEADER, "- GET /b"];
    assert ReportLines({"GET /a", "GET /b"}, {"GET /a"}) == [REMOVED_HEADER, "- GET /b"];
    assert [REMOVED_HEADER, "- GET /b"][1..] == ["- GET /b"];
    assert Join("\n", [REMOVED_HEADER, "- GET /b"]) == REMOVED_HEADER + "\n" + "- GET /b";
    assert REMOVED_HEADER + "\n" + "- GET /b" == "REMOVED ENDPOINTS:\n- GET /b";
  }
}
