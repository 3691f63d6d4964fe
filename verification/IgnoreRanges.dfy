// slither-disable-start / slither-disable-end comments
// (slither/core/slither_core.py, parse_ignore_comments and has_ignore_comment).
//
// Lines are numbered from 1; each is already known to be a start comment, an
// end comment or neither.
module IgnoreRanges {
  import opened Options

  datatype Check = All | Named(id: int)

  datatype Line = Other | Start(checks: seq<Check>) | End(checks: seq<Check>)

  // end is None for float("inf").
  datatype Range = Range(start: nat, end: Option<nat>)

  ghost predicate Distinct(cs: seq<Check>) {
    forall i, j :: 0 <= i < j < |cs| ==> cs[i] != cs[j]
  }

  // ---------------------------------------------------------------------
  // Replaying the comments line by line
  // ---------------------------------------------------------------------

  // Is the check disabled once the first n lines have been read?
  ghost predicate Disabled(lines: seq<Line>, check: Check, n: nat)
    requires n <= |lines|
  {
    n > 0 &&
    match lines[n - 1]
    case Other => Disabled(lines, check, n - 1)
    case Start(cs) => check in cs || Disabled(lines, check, n - 1)
    case End(cs) => check !in cs && Disabled(lines, check, n - 1)
  }

  ghost predicate DisabledAt(lines: seq<Line>, check: Check, n: nat) {
    n <= |lines| && Disabled(lines, check, n)
  }

  // A start names checks that are enabled, an end checks that are disabled.
  ghost predicate LineOk(lines: seq<Line>, k: nat)
    requires k < |lines|
  {
    match lines[k]
    case Other => true
    case Start(cs) => Distinct(cs) && forall i :: 0 <= i < |cs| ==> !Disabled(lines, cs[i], k)
    case End(cs) => Distinct(cs) && forall i :: 0 <= i < |cs| ==> Disabled(lines, cs[i], k)
  }

  ghost predicate WellFormed(lines: seq<Line>, n: nat)
    requires n <= |lines|
  {
    forall k :: 0 <= k < n ==> LineOk(lines, k)
  }

  // ---------------------------------------------------------------------
  // The ranges of one check
  // ---------------------------------------------------------------------

  predicate Open(rs: seq<Range>) {
    |rs| > 0 && rs[|rs| - 1].end.None?
  }

  function Close(rs: seq<Range>, line: nat): seq<Range>
    requires |rs| > 0
  {
    rs[|rs| - 1 := Range(rs[|rs| - 1].start, Some(line))]
  }

  ghost function RangesOf(lines: seq<Line>, check: Check, n: nat): seq<Range>
    requires n <= |lines|
  {
    if n == 0 then []
    else
      var rs := RangesOf(lines, check, n - 1);
      match lines[n - 1]
      case Other => rs
      case Start(cs) => if check in cs then rs + [Range(n, None)] else rs
      case End(cs) => if check in cs && |rs| > 0 then Close(rs, n) else rs
  }

  ghost predicate Covers(r: Range, line: nat) {
    r.start <= line && (r.end.Some? ==> line < r.end.value)
  }

  // Sorted, disjoint, within the first n lines, and open at most at the end.
  ghost predicate Ordered(rs: seq<Range>, n: nat) {
    && (forall i :: 0 <= i < |rs| ==> 1 <= rs[i].start <= n)
    && (forall i :: 0 <= i < |rs| && rs[i].end.Some? ==> rs[i].start < rs[i].end.value <= n)
    && (forall i, j :: 0 <= i < j < |rs| ==> rs[i].end.Some? && rs[i].end.value < rs[j].start)
  }

  ghost predicate Covered(rs: seq<Range>, line: nat) {
    exists i :: 0 <= i < |rs| && Covers(rs[i], line)
  }

  lemma CoveredBeyond(rs: seq<Range>, n: nat, line: nat)
    requires Ordered(rs, n) && n <= line
    ensures Covered(rs, line) <==> Open(rs)
  {
  }

  lemma CoveredAfterStart(rs: seq<Range>, n: nat, line: nat)
    requires n > 0 && Ordered(rs, n - 1) && line < n
    ensures Covered(rs + [Range(n, None)], line) <==> Covered(rs, line)
  {
    var rs' := rs + [Range(n, None)];
    if Covered(rs, line) {
      var i :| 0 <= i < |rs| && Covers(rs[i], line);
      assert Covers(rs'[i], line);
    }
    if Covered(rs', line) {
      var i :| 0 <= i < |rs'| && Covers(rs'[i], line);
      assert i < |rs|;
    }
  }

  lemma CoveredAfterEnd(rs: seq<Range>, n: nat, line: nat)
    requires n > 0 && Ordered(rs, n - 1) && line < n && Open(rs)
    ensures Covered(Close(rs, n), line) <==> Covered(rs, line)
  {
    var rs' := Close(rs, n);
    assert forall i :: 0 <= i < |rs| ==> (Covers(rs'[i], line) <==> Covers(rs[i], line));
    if Covered(rs, line) {
      var i :| 0 <= i < |rs| && Covers(rs[i], line);
      assert Covers(rs'[i], line);
    }
  }

  // One more line read: rs becomes rs'.
  lemma NextLine(lines: seq<Line>, check: Check, n: nat)
    requires 0 < n <= |lines| && LineOk(lines, n - 1)
    requires var rs := RangesOf(lines, check, n - 1); Ordered(rs, n - 1) && (Open(rs) <==> Disabled(lines, check, n - 1))
    ensures var rs := RangesOf(lines, check, n); Ordered(rs, n) && (Open(rs) <==> Disabled(lines, check, n))
    ensures forall l: nat :: l < n ==>
              (Covered(RangesOf(lines, check, n), l) <==> Covered(RangesOf(lines, check, n - 1), l))
  {
    hide *;
    NextRangeOrdered(lines, check, n);
    forall l: nat | l < n
      ensures Covered(RangesOf(lines, check, n), l) <==> Covered(RangesOf(lines, check, n - 1), l)
    {
      NextRangeCovers(lines, check, n, l);
    }
  }

  lemma NextRangeOrdered(lines: seq<Line>, check: Check, n: nat)
    requires 0 < n <= |lines| && LineOk(lines, n - 1)
    requires var rs := RangesOf(lines, check, n - 1); Ordered(rs, n - 1) && (Open(rs) <==> Disabled(lines, check, n - 1))
    ensures var rs := RangesOf(lines, check, n); Ordered(rs, n) && (Open(rs) <==> Disabled(lines, check, n))
  {
    hide Ordered;
    hide Open;
    OrderedSteps(RangesOf(lines, check, n - 1), n);
  }

  lemma OrderedSteps(rs: seq<Range>, n: nat)
    requires n > 0 && Ordered(rs, n - 1)
    ensures Ordered(rs, n)
    ensures !Open(rs) ==> Ordered(rs + [Range(n, None)], n) && Open(rs + [Range(n, None)])
    ensures Open(rs) ==> |rs| > 0 && Ordered(Close(rs, n), n) && !Open(Close(rs, n))
  {
    if |rs| > 0 && rs[|rs| - 1].end.Some? { assert forall i :: 0 <= i < |rs| ==> rs[i].end.Some?; }
  }

  lemma NextRangeCovers(lines: seq<Line>, check: Check, n: nat, line: nat)
    requires 0 < n <= |lines| && LineOk(lines, n - 1) && line < n
    requires var rs := RangesOf(lines, check, n - 1); Ordered(rs, n - 1) && (Open(rs) <==> Disabled(lines, check, n - 1))
    ensures Covered(RangesOf(lines, check, n), line) <==> Covered(RangesOf(lines, check, n - 1), line)
  {
    hide Covered;
    hide Ordered;
    hide Close;
    var before := RangesOf(lines, check, n - 1);
    if lines[n - 1].Start? && !Open(before) { CoveredAfterStart(before, n, line); }
    if lines[n - 1].End? && Open(before) { CoveredAfterEnd(before, n, line); }
  }

  // The recorded ranges say exactly at which lines the check is disabled.
  lemma {:induction false} RangesMatchReplay(lines: seq<Line>, check: Check, n: nat)
    requires n <= |lines| && WellFormed(lines, n)
    ensures var rs := RangesOf(lines, check, n); Ordered(rs, n) && (Open(rs) <==> Disabled(lines, check, n))
    ensures forall l: nat :: l <= n ==> (Covered(RangesOf(lines, check, n), l) <==> Disabled(lines, check, l))
  {
    if n > 0 {
      RangesMatchReplay(lines, check, n - 1);
      assert LineOk(lines, n - 1);
      NextLine(lines, check, n);
    }
    CoveredBeyond(RangesOf(lines, check, n), n, n);
  }

  // A result on lines a..b is ignored when one range strictly contains them.
  ghost predicate Contains(r: Range, a: int, b: int) {
    r.start < a && (r.end.Some? ==> r.end.value > b)
  }

  ghost predicate SomeRangeContains(rs: seq<Range>, a: int, b: int) {
    exists i :: 0 <= i < |rs| && Contains(rs[i], a, b)
  }

  lemma SomeContainsConcat(p: seq<Range>, q: seq<Range>, a: int, b: int)
    ensures SomeRangeContains(p + q, a, b) <==> SomeRangeContains(p, a, b) || SomeRangeContains(q, a, b)
  {
    var pq := p + q;
    if SomeRangeContains(p, a, b) {
      var i :| 0 <= i < |p| && Contains(p[i], a, b);
      assert Contains(pq[i], a, b);
    }
    if SomeRangeContains(q, a, b) {
      var i :| 0 <= i < |q| && Contains(q[i], a, b);
      assert Contains(pq[|p| + i], a, b);
    }
    if SomeRangeContains(pq, a, b) {
      var i :| 0 <= i < |pq| && Contains(pq[i], a, b);
      assert if i < |p| then Contains(p[i], a, b) else Contains(q[i - |p|], a, b);
    }
  }

  lemma NotCoveredAtOwnEnd(rs: seq<Range>, n: nat, i: nat)
    requires Ordered(rs, n) && i < |rs| && rs[i].end.Some?
    ensures !Covered(rs, rs[i].end.value)
  {
  }

  // Consecutive covered lines are covered by one range.
  lemma ContainedIffCoveredThroughout(rs: seq<Range>, n: nat, a: nat, b: nat)
    requires Ordered(rs, n) && 1 <= a <= b
    ensures SomeRangeContains(rs, a, b) <==> forall l: nat :: a - 1 <= l <= b ==> Covered(rs, l)
  {
    if SomeRangeContains(rs, a, b) {
      var i :| 0 <= i < |rs| && Contains(rs[i], a, b);
      forall l: nat | a - 1 <= l <= b
        ensures Covered(rs, l)
      {
        assert Covers(rs[i], l);
      }
    }
    if forall l: nat :: a - 1 <= l <= b ==> Covered(rs, l) {
      assert Covered(rs, a - 1);
      var i :| 0 <= i < |rs| && Covers(rs[i], a - 1);
      if rs[i].end.Some? {
        NotCoveredAtOwnEnd(rs, n, i);
        assert !(a - 1 <= rs[i].end.value <= b);
      }
      assert Contains(rs[i], a, b);
    }
  }

  // That holds exactly when the check is disabled on every line from the one
  // before a up to b.
  lemma ContainedIffDisabledThroughout(lines: seq<Line>, check: Check, a: nat, b: nat)
    requires WellFormed(lines, |lines|) && 1 <= a <= b <= |lines|
    ensures SomeRangeContains(RangesOf(lines, check, |lines|), a, b) <==>
            forall l: nat :: a - 1 <= l <= b ==> DisabledAt(lines, check, l)
  {
    hide RangesOf;
    hide Disabled;
    hide SomeRangeContains;
    hide Covered;
    hide Ordered;
    RangesMatchReplay(lines, check, |lines|);
    var rs := RangesOf(lines, check, |lines|);
    ContainedIffCoveredThroughout(rs, |lines|, a, b);
    forall l: nat | a - 1 <= l <= b
      ensures Covered(rs, l) <==> DisabledAt(lines, check, l)
    {
    }
  }

  function OpenedIf(rs: seq<Range>, named: bool, line: nat): seq<Range> {
    if named then rs + [Range(line, None)] else rs
  }

  lemma AfterStart(lines: seq<Line>, check: Check, n: nat)
    requires n < |lines| && lines[n].Start?
    ensures RangesOf(lines, check, n + 1) == OpenedIf(RangesOf(lines, check, n), check in lines[n].checks, n + 1)
  {
  }

  function ClosedIf(rs: seq<Range>, named: bool, line: nat): seq<Range> {
    if named && |rs| > 0 then Close(rs, line) else rs
  }

  lemma AfterEnd(lines: seq<Line>, check: Check, n: nat)
    requires n < |lines| && lines[n].End?
    ensures RangesOf(lines, check, n + 1) == ClosedIf(RangesOf(lines, check, n), check in lines[n].checks, n + 1)
  {
  }

  // ---------------------------------------------------------------------
  // The parser and the test
  // ---------------------------------------------------------------------

  class SlitherCore {
    var ignoreRanges: map<Check, seq<Range>>

    constructor ()
      ensures ignoreRanges == map[]
    {
      ignoreRanges := map[];
    }

    // A defaultdict lookup.
    function Ranges(check: Check): seq<Range>
      reads this
    {
      if check in ignoreRanges then ignoreRanges[check] else []
    }

    ghost predicate Describes(lines: seq<Line>, n: nat)
      requires n <= |lines|
      reads this
    {
      forall check :: Ranges(check) == RangesOf(lines, check, n)
    }

    // False where the source logs an error and stops.
    method ParseIgnoreComments(lines: seq<Line>) returns (ok: bool)
      requires ignoreRanges == map[]
      modifies this
      ensures ok <==> WellFormed(lines, |lines|)
      ensures ok ==> Describes(lines, |lines|)
    {
      for n := 0 to |lines|
        invariant WellFormed(lines, n) && Describes(lines, n)
      {
        var handled := true;
        match lines[n] {
          case Other =>
            assert forall check :: RangesOf(lines, check, n + 1) == RangesOf(lines, check, n);
          case Start(cs) => handled := OpenRanges(cs, lines, n);
          case End(cs) => handled := CloseRanges(cs, lines, n);
        }
        assert handled <==> LineOk(lines, n);
        if !handled {
          return false;
        }
      }
      return true;
    }

    method OpenRanges(cs: seq<Check>, ghost lines: seq<Line>, n: nat) returns (ok: bool)
      requires n < |lines| && lines[n] == Start(cs) && WellFormed(lines, n) && Describes(lines, n)
      modifies this
      ensures ok <==> LineOk(lines, n)
      ensures ok ==> Describes(lines, n + 1)
    {
      hide RangesOf;
      hide Disabled;
      hide WellFormed;
      hide Covered;
      hide Ordered;
      for i := 0 to |cs|
        invariant Distinct(cs[..i]) && forall j :: 0 <= j < i ==> !Disabled(lines, cs[j], n)
        invariant forall check :: Ranges(check) == OpenedIf(RangesOf(lines, check, n), check in cs[..i], n + 1)
      {
        var check := cs[i];
        RangesMatchReplay(lines, check, n);
        if Open(Ranges(check)) {
          return false;
        }
        ignoreRanges := ignoreRanges[check := Ranges(check) + [Range(n + 1, None)]];
      }
      assert cs[..|cs|] == cs;
      forall check
        ensures Ranges(check) == RangesOf(lines, check, n + 1)
      {
        AfterStart(lines, check, n);
      }
      return true;
    }

    method CloseRanges(cs: seq<Check>, ghost lines: seq<Line>, n: nat) returns (ok: bool)
      requires n < |lines| && lines[n] == End(cs) && WellFormed(lines, n) && Describes(lines, n)
      modifies this
      ensures ok <==> LineOk(lines, n)
      ensures ok ==> Describes(lines, n + 1)
    {
      hide RangesOf;
      hide Disabled;
      hide WellFormed;
      hide Covered;
      hide Ordered;
      for i := 0 to |cs|
        invariant Distinct(cs[..i]) && forall j :: 0 <= j < i ==> Disabled(lines, cs[j], n)
        invariant forall check :: Ranges(check) == ClosedIf(RangesOf(lines, check, n), check in cs[..i], n + 1)
      {
        var check := cs[i];
        RangesMatchReplay(lines, check, n);
        if !Open(Ranges(check)) {
          return false;
        }
        ignoreRanges := ignoreRanges[check := Close(Ranges(check), n + 1)];
      }
      assert cs[..|cs|] == cs;
      forall check
        ensures Ranges(check) == RangesOf(lines, check, n + 1)
      {
        AfterEnd(lines, check, n);
      }
      return true;
    }

    // The range test of has_ignore_comment for a result on lines a..b.
    method InIgnoredRange(check: Check, a: nat, b: nat) returns (ignored: bool)
      ensures ignored <==> SomeRangeContains(Ranges(check), a, b) || SomeRangeContains(Ranges(All), a, b)
    {
      var ranges := Ranges(check) + Ranges(All);
      SomeContainsConcat(Ranges(check), Ranges(All), a, b);
      for i := 0 to |ranges|
        invariant forall j :: 0 <= j < i ==> !Contains(ranges[j], a, b)
      {
        if ranges[i].start < a && (ranges[i].end.None? || ranges[i].end.value > b) {
          assert Contains(ranges[i], a, b);
          return true;
        }
      }
      return false;
    }
  }
}
