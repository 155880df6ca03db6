/**
 The gap list of a stream receiver: which byte positions have not arrived yet,
 and how the list changes when a range of positions is filled.
 */
module StreamGaps {

  const MAX_BYTE_COUNT: nat := 0xFFFF_FFFF_FFFF_FFFF

  /** The positions start <= x < end are missing. */
  datatype Gap = Gap(start: nat, end: nat)

  ghost predicate InGap(g: Gap, x: nat) {
    g.start <= x < g.end
  }

  ghost predicate Missing(gaps: seq<Gap>, x: nat) {
    exists i :: 0 <= i < |gaps| && InGap(gaps[i], x)
  }

  /** Sorted, separated by received positions, and open at the top. */
  ghost predicate Ordered(gaps: seq<Gap>) {
    && |gaps| > 0 && gaps[|gaps| - 1].end == MAX_BYTE_COUNT
    && Ascending(gaps)
  }

  ghost predicate Ascending(gaps: seq<Gap>) {
    && (forall i :: 0 <= i < |gaps| ==> gaps[i].start < gaps[i].end)
    && (forall i, j :: 0 <= i < j < |gaps| ==> gaps[i].end < gaps[j].start)
  }

  /** The gaps from i to j, where start lies in gap i and end in or at the end of gap j, are replaced by what is
      left of them outside start .. end. */
  function Fill(gaps: seq<Gap>, i: nat, j: nat, start: nat, end: nat): seq<Gap>
    requires i <= j < |gaps|
  {
    gaps[..i]
    + (if start == gaps[i].start then [] else [Gap(gaps[i].start, start)])
    + (if end == gaps[j].end then [] else [Gap(end, gaps[j].end)])
    + gaps[j + 1..]
  }

  ghost predicate FillsGaps(gaps: seq<Gap>, i: nat, j: nat, start: nat, end: nat) {
    && i <= j < |gaps| && Ordered(gaps) && start < end < MAX_BYTE_COUNT
    && gaps[i].start <= start < gaps[i].end
    && gaps[j].start < end <= gaps[j].end
  }

  /** All of gaps lies strictly below, or strictly above, a position. */
  ghost predicate Below(gaps: seq<Gap>, x: nat) {
    forall i :: 0 <= i < |gaps| ==> gaps[i].end < x
  }

  ghost predicate Above(gaps: seq<Gap>, x: nat) {
    forall i :: 0 <= i < |gaps| ==> x <= gaps[i].start
  }

  lemma AscendingConcat(a: seq<Gap>, b: seq<Gap>, x: nat)
    requires Ascending(a) && Ascending(b) && Below(a, x) && Above(b, x)
    ensures Ascending(a + b)
  {
  }

  /** The parts of an ordered list below gap i and above gap j. */
  lemma Surroundings(gaps: seq<Gap>, i: nat, j: nat)
    requires Ordered(gaps) && i <= j < |gaps|
    ensures Ascending(gaps[..i]) && Below(gaps[..i], gaps[i].start)
    ensures Ascending(gaps[j + 1..]) && Above(gaps[j + 1..], gaps[j].end + 1)
  {
    var above := gaps[j + 1..];
    forall k | 0 <= k < |above|
      ensures gaps[j].end + 1 <= above[k].start
    {
      assert above[k] == gaps[j + 1 + k];
    }
  }

  /** What is left of the gaps that are filled. */
  function Leftover(gaps: seq<Gap>, i: nat, j: nat, start: nat, end: nat): seq<Gap>
    requires i <= j < |gaps|
  {
    (if start == gaps[i].start then [] else [Gap(gaps[i].start, start)])
        + (if end == gaps[j].end then [] else [Gap(end, gaps[j].end)])
  }

  lemma LeftoverAscends(gaps: seq<Gap>, i: nat, j: nat, start: nat, end: nat)
    requires FillsGaps(gaps, i, j, start, end)
    ensures Ascending(Leftover(gaps, i, j, start, end))
    ensures Above(Leftover(gaps, i, j, start, end), gaps[i].start)
            && Below(Leftover(gaps, i, j, start, end), gaps[j].end + 1)
    ensures gaps[i].start <= gaps[j].end
  {
    assert i < j ==> gaps[i].end < gaps[j].start;
  }

  lemma FillOrdered(gaps: seq<Gap>, i: nat, j: nat, start: nat, end: nat)
    requires FillsGaps(gaps, i, j, start, end)
    ensures Ordered(Fill(gaps, i, j, start, end))
  {
    var mid := Leftover(gaps, i, j, start, end);
    Surroundings(gaps, i, j);
    LeftoverAscends(gaps, i, j, start, end);
    FillAscends(gaps[..i], mid, gaps[j + 1..], gaps[i].start, gaps[j].end + 1);
    FillParts(gaps, i, j, start, end);
    FillOpen(gaps, i, j, start, end);
  }

  lemma FillParts(gaps: seq<Gap>, i: nat, j: nat, start: nat, end: nat)
    requires i <= j < |gaps|
    ensures Fill(gaps, i, j, start, end) == gaps[..i] + (Leftover(gaps, i, j, start, end) + gaps[j + 1..])
  {
  }

  lemma FillAscends(below: seq<Gap>, mid: seq<Gap>, above: seq<Gap>, lo: nat, hi: nat)
    requires Ascending(below) && Below(below, lo) && Ascending(above) && Above(above, hi)
    requires Ascending(mid) && Above(mid, lo) && Below(mid, hi) && lo <= hi
    ensures Ascending(below + (mid + above))
  {
    AscendingConcat(mid, above, hi);
    assert Above(mid + above, lo);
    AscendingConcat(below, mid + above, lo);
  }

  /** The list stays open at the top. */
  lemma FillOpen(gaps: seq<Gap>, i: nat, j: nat, start: nat, end: nat)
    requires FillsGaps(gaps, i, j, start, end)
    ensures var filled := Fill(gaps, i, j, start, end); |filled| > 0 && filled[|filled| - 1].end == MAX_BYTE_COUNT
  {
    if j + 1 < |gaps| {
      assert gaps[j + 1..][|gaps| - j - 2] == gaps[|gaps| - 1];
    }
  }

  lemma MissingConcat(a: seq<Gap>, b: seq<Gap>, x: nat)
    ensures Missing(a + b, x) <==> Missing(a, x) || Missing(b, x)
  {
    if Missing(a, x) {
      var k :| 0 <= k < |a| && InGap(a[k], x);
      assert InGap((a + b)[k], x);
    }
    if Missing(b, x) {
      var k :| 0 <= k < |b| && InGap(b[k], x);
      assert InGap((a + b)[|a| + k], x);
    }
  }

  lemma MissingBelow(gaps: seq<Gap>, i: nat, x: nat)
    requires Ordered(gaps) && i < |gaps| && Missing(gaps[..i], x)
    ensures x < gaps[i].start
  {
    var k :| 0 <= k < i && InGap(gaps[..i][k], x);
    assert gaps[k].end < gaps[i].start;
  }

  lemma MissingAbove(gaps: seq<Gap>, j: nat, x: nat)
    requires Ordered(gaps) && j < |gaps| && Missing(gaps[j + 1..], x)
    ensures gaps[j].end < x
  {
    var k :| 0 <= k < |gaps| - j - 1 && InGap(gaps[j + 1..][k], x);
    assert gaps[j].end < gaps[j + 1 + k].start;
  }

  lemma MissingInside(gaps: seq<Gap>, i: nat, j: nat, x: nat)
    requires Ordered(gaps) && i <= j < |gaps|
    ensures Missing(gaps[i..j + 1], x) ==> gaps[i].start <= x < gaps[j].end
    ensures Missing(gaps[i..j + 1], x) ==> InGap(gaps[i], x) || InGap(gaps[j], x) || gaps[i].end < x < gaps[j].start
    ensures InGap(gaps[i], x) || InGap(gaps[j], x) ==> Missing(gaps[i..j + 1], x)
  {
    var mid := gaps[i..j + 1];
    assert mid[0] == gaps[i] && mid[j - i] == gaps[j];
    if Missing(mid, x) {
      var k :| 0 <= k < |mid| && InGap(mid[k], x);
      assert mid[k] == gaps[i + k];
      assert k > 0 ==> gaps[i].end < gaps[i + k].start;
      assert i + k < j ==> gaps[i + k].end < gaps[j].start;
    }
  }

  lemma MissingParts(gaps: seq<Gap>, i: nat, j: nat, x: nat)
    requires i <= j < |gaps|
    ensures Missing(gaps, x) <==> Missing(gaps[..i], x) || Missing(gaps[i..j + 1], x) || Missing(gaps[j + 1..], x)
  {
    assert gaps == gaps[..i] + (gaps[i..j + 1] + gaps[j + 1..]);
    MissingConcat(gaps[..i], gaps[i..j + 1] + gaps[j + 1..], x);
    MissingConcat(gaps[i..j + 1], gaps[j + 1..], x);
  }

  /** What is missing below, inside and above the gaps i .. j. */
  lemma MissingWhere(gaps: seq<Gap>, i: nat, j: nat, x: nat)
    requires Ordered(gaps) && i <= j < |gaps|
    ensures Missing(gaps, x) <==> Missing(gaps[..i], x) || Missing(gaps[i..j + 1], x) || Missing(gaps[j + 1..], x)
    ensures Missing(gaps[..i], x) ==> x < gaps[i].start
    ensures Missing(gaps[i..j + 1], x) ==> gaps[i].start <= x < gaps[j].end
    ensures Missing(gaps[j + 1..], x) ==> gaps[j].end < x
    ensures InGap(gaps[i], x) || InGap(gaps[j], x) ==> Missing(gaps[i..j + 1], x)
    ensures Missing(gaps[i..j + 1], x) ==> InGap(gaps[i], x) || InGap(gaps[j], x) || gaps[i].end < x < gaps[j].start
  {
    MissingParts(gaps, i, j, x);
    MissingInside(gaps, i, j, x);
    if Missing(gaps[..i], x) {
      MissingBelow(gaps, i, x);
    }
    if Missing(gaps[j + 1..], x) {
      MissingAbove(gaps, j, x);
    }
  }

  /** Filling removes exactly the positions start .. end from the missing ones. */
  lemma FillMissing(gaps: seq<Gap>, i: nat, j: nat, start: nat, end: nat, x: nat)
    requires FillsGaps(gaps, i, j, start, end)
    ensures Missing(Fill(gaps, i, j, start, end), x) <==> Missing(gaps, x) && !(start <= x < end)
  {
    var left := if start == gaps[i].start then [] else [Gap(gaps[i].start, start)];
    var right := if end == gaps[j].end then [] else [Gap(end, gaps[j].end)];
    MissingWhere(gaps, i, j, x);
    MissingConcat(gaps[..i] + left + right, gaps[j + 1..], x);
    MissingConcat(gaps[..i] + left, right, x);
    MissingConcat(gaps[..i], left, x);
    assert Missing(left, x) <==> gaps[i].start <= x < start by {
      if gaps[i].start <= x < start { assert InGap(left[0], x); }
    }
    assert Missing(right, x) <==> end <= x < gaps[j].end by {
      if end <= x < gaps[j].end { assert InGap(right[0], x); }
    }
  }

  lemma AtGapEnd(gaps: seq<Gap>, i: nat)
    requires Ordered(gaps) && i < |gaps|
    ensures !Missing(gaps, gaps[i].end) && Missing(gaps, gaps[i].end - 1) && Missing(gaps, gaps[i].start)
  {
    assert InGap(gaps[i], gaps[i].end - 1) && InGap(gaps[i], gaps[i].start);
  }

  /** The positions between two neighbouring gaps have all arrived. */
  lemma BetweenGaps(gaps: seq<Gap>, i: nat, x: nat)
    requires Ordered(gaps) && i + 1 < |gaps| && gaps[i].end <= x < gaps[i + 1].start
    ensures !Missing(gaps, x)
  {
    MissingWhere(gaps, i, i + 1, x);
  }
}
