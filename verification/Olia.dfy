/**
 The coupling terms of the multipath congestion controller: what one path's
 window gains by them, the other paths' windows lose.
 */
module Olia {
  import opened Common

  /** One path: its window, its smoothed round trip and its bytes between losses, and the term computed for it. */
  class OliaSender {
    var congestionWindow: nat
    var smoothedRTT: int
    var smoothedBytes: nat
    var epsilonNum: int
    var epsilonDen: nat

    constructor (congestionWindow: nat, smoothedRTT: int, smoothedBytes: nat)
      ensures this.congestionWindow == congestionWindow && this.smoothedRTT == smoothedRTT
              && this.smoothedBytes == smoothedBytes && epsilonNum == 0 && epsilonDen == 1
    {
      this.congestionWindow, this.smoothedRTT, this.smoothedBytes := congestionWindow, smoothedRTT, smoothedBytes;
      epsilonNum, epsilonDen := 0, 1;
    }
  }

  /** What is measured of a path. */
  datatype Path = Path(congestionWindow: nat, smoothedRTT: int, smoothedBytes: nat)

  ghost function PathOf(p: OliaSender): Path
    reads p
  {
    Path(p.congestionWindow, p.smoothedRTT, p.smoothedBytes)
  }

  ghost function PathsOf(ps: seq<OliaSender>): (paths: seq<Path>)
    reads ps
    ensures |paths| == |ps| && forall i :: 0 <= i < |ps| ==> paths[i] == PathOf(ps[i])
  {
    seq(|ps|, i requires 0 <= i < |ps| reads ps => PathOf(ps[i]))
  }

  /** Path numbers are bytes, so there are at most this many paths. */
  const MAX_PATHS: nat := 256

  const HALF: int := 0x8000_0000_0000_0000

  /** The signed 64-bit number with the same low bits. */
  function Wrap(x: int): int {
    (x + HALF) % WORD - HALF
  }

  /** The comparison of two paths by bytes over squared round trip, as computed. */
  predicate AtLeast(bytes: nat, rtt2: int, bestBytes: nat, bestRtt2: int) {
    Wrap(Wrap(bytes) * bestRtt2) >= Wrap(Wrap(bestBytes) * rtt2)
  }

  function Squared(rtt: int): int {
    Wrap(rtt * rtt)
  }

  /** Paths with the largest window, other paths among the best, and the rest. */
  datatype Kind = Largest | BestOnly | Other

  /** What the terms are computed from. */
  datatype Measures = Measures(maxCwnd: nat, bestBytes: nat, bestRtt2: int)

  function KindOf(cwnd: nat, bytes: nat, rtt: int, x: Measures): Kind {
    if cwnd == x.maxCwnd then Largest
    else if AtLeast(bytes, Squared(rtt), x.bestBytes, x.bestRtt2) then BestOnly
    else Other
  }

  ghost predicate IsKinds(ps: seq<Path>, x: Measures, ks: seq<Kind>) {
    |ks| == |ps| && forall i :: 0 <= i < |ps| ==>
          ks[i] == KindOf(ps[i].congestionWindow, ps[i].smoothedBytes, ps[i].smoothedRTT, x)
  }

  ghost function Count(ks: seq<Kind>, k: Kind): nat {
    if ks == [] then 0 else Count(ks[..|ks| - 1], k) + if ks[|ks| - 1] == k then 1 else 0
  }

  lemma {:induction false} CountTotal(ks: seq<Kind>)
    ensures Count(ks, Largest) + Count(ks, BestOnly) <= |ks|
  {
    if ks == [] {
    } else {
      CountTotal(ks[..|ks| - 1]);
    }
  }

  lemma {:induction false} CountSome(ks: seq<Kind>, i: nat)
    requires i < |ks|
    ensures Count(ks, ks[i]) > 0
  {
    if i < |ks| - 1 {
      CountSome(ks[..|ks| - 1], i);
    }
  }

  // ------------------------------------------------------------------- the sum

  /** The sum of the terms, as exact fractions. */
  ghost function Sum(ps: seq<OliaSender>): real
    requires forall i :: 0 <= i < |ps| ==> ps[i].epsilonDen > 0
    reads ps
  {
    if ps == [] then 0.0
    else
      var p := ps[|ps| - 1];
      Sum(ps[..|ps| - 1]) + p.epsilonNum as real / p.epsilonDen as real
  }

  /** The term of each kind. */
  ghost predicate Assigned(p: OliaSender, k: Kind, n: nat, m: nat, b: nat)
    reads p
  {
    && p.epsilonDen > 0
    && match k
       case Largest => p.epsilonNum == -1 && p.epsilonDen == n * m
       case BestOnly => p.epsilonNum == 1 && p.epsilonDen == n * b
       case Other => p.epsilonNum == 0 && p.epsilonDen == 1
  }

  ghost predicate AllAssigned(ps: seq<OliaSender>, ks: seq<Kind>, n: nat, m: nat, b: nat)
    reads ps
  {
    |ps| == |ks| && forall i :: 0 <= i < |ps| ==> Assigned(ps[i], ks[i], n, m, b)
  }

  ghost function Share(n: nat, c: nat): real
    requires n > 0 && c > 0
  {
    1.0 / (n * c) as real
  }

  ghost function Term(k: Kind, best: real, largest: real): real {
    match k
    case Largest => -largest
    case BestOnly => best
    case Other => 0.0
  }

  ghost function Times(c: nat, x: real): real {
    if c == 0 then 0.0 else Times(c - 1, x) + x
  }

  lemma {:induction false} TimesIsProduct(c: nat, x: real)
    ensures Times(c, x) == c as real * x
  {
    if c == 0 {
    } else {
      TimesIsProduct(c - 1, x);
      assert c as real * x == (c - 1) as real * x + x;
    }
  }

  lemma AssignedTerm(p: OliaSender, k: Kind, n: nat, m: nat, b: nat)
    requires n > 0 && m > 0 && b > 0 && Assigned(p, k, n, m, b)
    ensures p.epsilonNum as real / p.epsilonDen as real == Term(k, Share(n, b), Share(n, m))
  {
  }

  lemma {:induction false} SumByKind(ps: seq<OliaSender>, ks: seq<Kind>, best: real, largest: real)
    requires |ps| == |ks| && forall i :: 0 <= i < |ps| ==> ps[i].epsilonDen > 0
    requires forall i :: 0 <= i < |ps| ==>
               ps[i].epsilonNum as real / ps[i].epsilonDen as real == Term(ks[i], best, largest)
    ensures Sum(ps) == Times(Count(ks, BestOnly), best) - Times(Count(ks, Largest), largest)
  {
    if ps == [] {
    } else {
      SumByKind(ps[..|ps| - 1], ks[..|ps| - 1], best, largest);
    }
  }

  lemma ShareTimes(n: nat, c: nat)
    requires n > 0 && c > 0
    ensures Times(c, Share(n, c)) == 1.0 / n as real
  {
    TimesIsProduct(c, Share(n, c));
    Cancel(n as real, c as real);
  }

  lemma Cancel(n: real, c: real)
    requires n > 0.0 && c > 0.0
    ensures c * (1.0 / (n * c)) == 1.0 / n
  {
  }

  /** With at least one path of each kind, gains and losses are equal. */
  lemma SumIsZero(ps: seq<OliaSender>, ks: seq<Kind>, n: nat)
    requires n > 0 && Count(ks, Largest) > 0 && Count(ks, BestOnly) > 0
    requires AllAssigned(ps, ks, n, Count(ks, Largest), Count(ks, BestOnly))
    ensures Sum(ps) == 0.0
  {
    var m, b := Count(ks, Largest), Count(ks, BestOnly);
    forall i | 0 <= i < |ps|
      ensures ps[i].epsilonNum as real / ps[i].epsilonDen as real == Term(ks[i], Share(n, b), Share(n, m))
    {
      AssignedTerm(ps[i], ks[i], n, m, b);
    }
    SumByKind(ps, ks, Share(n, b), Share(n, m));
    ShareTimes(n, m);
    ShareTimes(n, b);
  }

  lemma {:induction false} SumOfNone(ps: seq<OliaSender>)
    requires forall i :: 0 <= i < |ps| ==> ps[i].epsilonNum == 0 && ps[i].epsilonDen == 1
    ensures Sum(ps) == 0.0
  {
    if ps == [] {
    } else {
      SumOfNone(ps[..|ps| - 1]);
    }
  }

  // ------------------------------------------------------------ the best path

  /** All products of the comparison fit a signed word, and round trips are positive. */
  ghost predicate Fits(ps: seq<Path>) {
    && (forall i :: 0 <= i < |ps| ==>
        0 < ps[i].smoothedRTT && ps[i].smoothedRTT * ps[i].smoothedRTT < HALF && ps[i].smoothedBytes < HALF)
    && forall i, j :: 0 <= i < |ps| && 0 <= j < |ps| ==> Product(ps[i], ps[j]) < HALF
  }

  ghost function Product(p: Path, q: Path): int {
    p.smoothedBytes * (q.smoothedRTT * q.smoothedRTT)
  }

  /** p has at least as many bytes over squared round trip as q, without division. */
  ghost predicate NoWorse(p: Path, q: Path) {
    Product(q, p) <= Product(p, q)
  }

  lemma MulLe(a: int, b: int, c: int)
    requires a <= b && c >= 0
    ensures a * c <= b * c
  {
  }

  lemma CancelMul(r: int, x: int, y: int)
    requires r > 0 && r * x <= r * y
    ensures x <= y
  {
  }

  /** Fractions can be compared in two steps. */
  lemma Transitive(a: int, ra: int, b: int, rb: int, c: int, rc: int)
    requires ra > 0 && rb > 0 && rc > 0 && a * rb <= b * ra && b * rc <= c * rb
    ensures a * rc <= c * ra
  {
    MulLe(a * rb, b * ra, rc);
    MulLe(b * rc, c * rb, ra);
    assert rb * (a * rc) == a * rb * rc;
    assert b * ra * rc == b * rc * ra;
    assert c * rb * ra == rb * (c * ra);
    CancelMul(rb, a * rc, c * ra);
  }

  lemma Positive(ps: seq<Path>, i: nat)
    requires Fits(ps) && i < |ps|
    ensures 0 < Squared(ps[i].smoothedRTT) == ps[i].smoothedRTT * ps[i].smoothedRTT
  {
    var r := ps[i].smoothedRTT;
    MulLe(1, r, r);
  }

  lemma WrapSmall(x: int)
    requires -HALF <= x < HALF
    ensures Wrap(x) == x
  {
  }

  lemma Compared(ps: seq<Path>, i: nat, k: nat)
    requires Fits(ps) && i < |ps| && k < |ps|
    ensures AtLeast(ps[i].smoothedBytes, Squared(ps[i].smoothedRTT), ps[k].smoothedBytes, Squared(ps[k].smoothedRTT))
            <==> NoWorse(ps[i], ps[k])
  {
    Positive(ps, i);
    Positive(ps, k);
    MulLe(0, ps[i].smoothedBytes, Squared(ps[k].smoothedRTT));
    MulLe(0, ps[k].smoothedBytes, Squared(ps[i].smoothedRTT));
    assert Product(ps[i], ps[k]) < HALF && Product(ps[k], ps[i]) < HALF;
    WrapSmall(ps[i].smoothedBytes);
    WrapSmall(ps[k].smoothedBytes);
    WrapSmall(Product(ps[i], ps[k]));
    WrapSmall(Product(ps[k], ps[i]));
  }

  lemma NoWorseTransitive(ps: seq<Path>, i: nat, k: nat, j: nat)
    requires Fits(ps) && i < |ps| && j < |ps| && k < |ps| && NoWorse(ps[i], ps[k]) && NoWorse(ps[k], ps[j])
    ensures NoWorse(ps[i], ps[j])
  {
    Positive(ps, i);
    Positive(ps, j);
    Positive(ps, k);
    Transitive(ps[j].smoothedBytes, Squared(ps[j].smoothedRTT), ps[k].smoothedBytes, Squared(ps[k].smoothedRTT),
               ps[i].smoothedBytes, Squared(ps[i].smoothedRTT));
  }

  ghost predicate IsBest(ps: seq<Path>, k: nat, n: nat)
    requires k < n <= |ps|
  {
    forall j :: 0 <= j < n ==> NoWorse(ps[k], ps[j])
  }

  method GetMaxCwnd(ps: seq<OliaSender>) returns (bestCwnd: nat)
    ensures forall i :: 0 <= i < |ps| ==> ps[i].congestionWindow <= bestCwnd
    ensures ps != [] ==> exists i :: 0 <= i < |ps| && ps[i].congestionWindow == bestCwnd
  {
    bestCwnd := 0;
    for i := 0 to |ps|
      invariant forall j :: 0 <= j < i ==> ps[j].congestionWindow <= bestCwnd
      invariant i == 0 ==> bestCwnd == 0
      invariant i > 0 ==> exists j :: 0 <= j < i && ps[j].congestionWindow == bestCwnd
    {
      if ps[i].congestionWindow > bestCwnd {
        bestCwnd := ps[i].congestionWindow;
      } else if i == 0 {
        assert ps[i].congestionWindow == bestCwnd;
      }
    }
  }

  /** The last path that is no worse than the one chosen before it; if nothing overflows, no path is better. */
  method FindBest(ps: seq<OliaSender>) returns (bestBytes: nat, bestRtt2: int, ghost k: nat)
    ensures ps == [] ==> bestBytes == 0 && bestRtt2 == 0
    ensures ps != [] && Fits(PathsOf(ps)) ==>
              k < |ps| && bestBytes == ps[k].smoothedBytes && bestRtt2 == Squared(ps[k].smoothedRTT)
              && IsBest(PathsOf(ps), k, |ps|)
  {
    bestBytes, bestRtt2, k := 0, 0, 0;
    ghost var paths := PathsOf(ps);
    ghost var fits := Fits(paths);
    for i := 0 to |ps|
      invariant i == 0 ==> bestBytes == 0 && bestRtt2 == 0
      invariant i > 0 && fits ==>
                  k < i && bestBytes == ps[k].smoothedBytes && bestRtt2 == Squared(ps[k].smoothedRTT)
                  && IsBest(paths, k, i)
    {
      var rtt2, bytes := Squared(ps[i].smoothedRTT), ps[i].smoothedBytes;
      if fits {
        Step(paths, k, i);
      }
      if AtLeast(bytes, rtt2, bestBytes, bestRtt2) {
        bestRtt2, bestBytes, k := rtt2, bytes, i;
      }
    }
  }

  lemma Step(ps: seq<Path>, k: nat, i: nat)
    requires Fits(ps) && i < |ps| && (i > 0 ==> k < i && IsBest(ps, k, i))
    ensures i == 0 ==> AtLeast(ps[0].smoothedBytes, Squared(ps[0].smoothedRTT), 0, 0) && IsBest(ps, 0, 1)
    ensures i > 0 ==>
              if AtLeast(ps[i].smoothedBytes, Squared(ps[i].smoothedRTT), ps[k].smoothedBytes,
                         Squared(ps[k].smoothedRTT))
              then IsBest(ps, i, i + 1) else IsBest(ps, k, i + 1)
  {
    if i > 0 {
      Compared(ps, i, k);
      if NoWorse(ps[i], ps[k]) {
        forall j | 0 <= j < i
          ensures NoWorse(ps[i], ps[j])
        {
          NoWorseTransitive(ps, i, k, j);
        }
      }
    }
  }

  /** If nothing overflows, a path counts as best exactly when it is no worse than any path. */
  lemma BestPaths(ps: seq<Path>, k: nat, i: nat)
    requires Fits(ps) && k < |ps| && i < |ps| && IsBest(ps, k, |ps|)
    ensures AtLeast(ps[i].smoothedBytes, Squared(ps[i].smoothedRTT), ps[k].smoothedBytes, Squared(ps[k].smoothedRTT))
            <==> forall j :: 0 <= j < |ps| ==> NoWorse(ps[i], ps[j])
  {
    Compared(ps, i, k);
    if NoWorse(ps[i], ps[k]) {
      forall j | 0 <= j < |ps|
        ensures NoWorse(ps[i], ps[j])
      {
        NoWorseTransitive(ps, i, k, j);
      }
    }
  }

  // --------------------------------------------------------------- the method

  /** No path has a larger window. */
  ghost predicate Widest(ps: seq<Path>, i: nat)
    requires i < |ps|
  {
    forall j :: 0 <= j < |ps| ==> ps[j].congestionWindow <= ps[i].congestionWindow
  }

  /** The kinds are what they are meant to be: the paths with the largest window, and the others that are no worse
      than any. */
  ghost predicate Meant(ps: seq<Path>, ks: seq<Kind>) {
    && |ks| == |ps| && (forall i: nat :: i < |ps| ==> (ks[i].Largest? <==> Widest(ps, i)))
    && (Fits(ps) ==> forall i: nat :: i < |ps| ==> (ks[i].BestOnly? <==> !Widest(ps, i) && IsBest(ps, i, |ps|)))
  }

  lemma KindsMeant(ps: seq<Path>, x: Measures, ks: seq<Kind>, k: nat)
    requires IsKinds(ps, x, ks) && (forall i :: 0 <= i < |ps| ==> ps[i].congestionWindow <= x.maxCwnd)
    requires ps != [] ==> exists i :: 0 <= i < |ps| && ps[i].congestionWindow == x.maxCwnd
    requires ps != [] && Fits(ps) ==>
               k < |ps| && x.bestBytes == ps[k].smoothedBytes && x.bestRtt2 == Squared(ps[k].smoothedRTT)
               && IsBest(ps, k, |ps|)
    ensures Meant(ps, ks)
  {
    forall i: nat | i < |ps|
      ensures ks[i].Largest? <==> Widest(ps, i)
      ensures Fits(ps) ==> (ks[i].BestOnly? <==> !Widest(ps, i) && IsBest(ps, i, |ps|))
    {
      if Fits(ps) {
        BestPaths(ps, k, i);
      }
    }
  }

  /** The terms: none at all unless some path is among the best without the largest window; then those paths share a
      gain, and the paths with the largest window share the loss. */
  ghost predicate Terms(ps: seq<OliaSender>, ks: seq<Kind>)
    reads ps
  {
    if Count(ks, BestOnly) == 0 then forall i :: 0 <= i < |ps| ==> ps[i].epsilonNum == 0 && ps[i].epsilonDen == 1
    else AllAssigned(ps, ks, |ps|, Count(ks, Largest), Count(ks, BestOnly))
  }

  /** Sets the terms of all paths. Their sum is zero, whatever the windows, round trips and byte counts. */
  method GetEpsilon(ps: seq<OliaSender>) returns (ghost ks: seq<Kind>)
    requires |ps| <= MAX_PATHS && forall i, j :: 0 <= i < j < |ps| ==> ps[i] != ps[j]
    modifies ps`epsilonNum, ps`epsilonDen
    ensures PathsOf(ps) == old(PathsOf(ps)) && Meant(PathsOf(ps), ks) && Terms(ps, ks)
    ensures forall i :: 0 <= i < |ps| ==> ps[i].epsilonDen > 0
    ensures Sum(ps) == 0.0
  {
    ghost var paths := PathsOf(ps);
    var x, m, bNotM;
    x, m, bNotM, ks := Classify(ps);
    AssignTerms(ps, x, m, bNotM, ks);
    assert PathsOf(ps) == paths;
    if bNotM == 0 {
      SumOfNone(ps);
    } else {
      SumIsZero(ps, ks, |ps|);
    }
  }

  /** Finds the largest window and the best path, and counts the paths of each kind. */
  method Classify(ps: seq<OliaSender>) returns (x: Measures, m: nat, bNotM: nat, ghost ks: seq<Kind>)
    requires |ps| <= MAX_PATHS
    ensures IsKinds(PathsOf(ps), x, ks) && Meant(PathsOf(ps), ks)
    ensures forall i :: 0 <= i < |ps| ==> ps[i].congestionWindow <= x.maxCwnd
    ensures bNotM == Count(ks, BestOnly) && (bNotM > 0 ==> m == Count(ks, Largest) > 0)
  {
    ghost var paths := PathsOf(ps);
    var maxCwnd := GetMaxCwnd(ps);
    var bestBytes, bestRtt2;
    ghost var k;
    bestBytes, bestRtt2, k := FindBest(ps);
    x := Measures(maxCwnd, bestBytes, bestRtt2);
    m, bNotM, ks := CountKinds(ps, x);
    assert ps != [] ==> exists i :: 0 <= i < |paths| && paths[i].congestionWindow == x.maxCwnd by {
      if i :| 0 <= i < |ps| && ps[i].congestionWindow == maxCwnd {
        assert paths[i].congestionWindow == maxCwnd;
      }
    }
    CountsFit(paths, ks, x);
    KindsMeant(paths, x, ks, k);
  }

  /** A counter is a byte. */
  function Increment(c: nat): nat {
    if c == 255 then 0 else c + 1
  }

  ghost function LowByte(c: nat): nat {
    if c == 256 then 0 else c
  }

  method CountKinds(ps: seq<OliaSender>, x: Measures) returns (m: nat, bNotM: nat, ghost ks: seq<Kind>)
    requires |ps| <= MAX_PATHS
    ensures IsKinds(PathsOf(ps), x, ks) && m == LowByte(Count(ks, Largest)) && bNotM == LowByte(Count(ks, BestOnly))
  {
    m, bNotM, ks := 0, 0, [];
    for i := 0 to |ps|
      invariant |ks| == i && forall j :: 0 <= j < i ==>
                  ks[j] == KindOf(ps[j].congestionWindow, ps[j].smoothedBytes, ps[j].smoothedRTT, x)
      invariant m == LowByte(Count(ks, Largest)) && bNotM == LowByte(Count(ks, BestOnly))
    {
      var kind := KindOf(ps[i].congestionWindow, ps[i].smoothedBytes, ps[i].smoothedRTT, x);
      CountTotal(ks);
      assert (ks + [kind])[..|ks|] == ks;
      ks := ks + [kind];
      if kind.Largest? {
        m := Increment(m);
      } else if kind.BestOnly? {
        bNotM := Increment(bNotM);
      }
    }
  }

  method AssignTerms(ps: seq<OliaSender>, x: Measures, m: nat, bNotM: nat, ghost ks: seq<Kind>)
    requires IsKinds(PathsOf(ps), x, ks) && (forall i, j :: 0 <= i < j < |ps| ==> ps[i] != ps[j])
    requires forall i :: 0 <= i < |ps| ==> ps[i].congestionWindow <= x.maxCwnd
    requires bNotM > 0 && |ps| > 0 ==> m > 0
    modifies ps`epsilonNum, ps`epsilonDen
    ensures bNotM == 0 ==> forall i :: 0 <= i < |ps| ==> ps[i].epsilonNum == 0 && ps[i].epsilonDen == 1
    ensures bNotM > 0 ==> AllAssigned(ps, ks, |ps|, m, bNotM)
  {
    for i := 0 to |ps|
      invariant bNotM == 0 ==> forall j :: 0 <= j < i ==> ps[j].epsilonNum == 0 && ps[j].epsilonDen == 1
      invariant bNotM > 0 ==> forall j :: 0 <= j < i ==> Assigned(ps[j], ks[j], |ps|, m, bNotM)
    {
      var os := ps[i];
      assert ks[i] == KindOf(os.congestionWindow, os.smoothedBytes, os.smoothedRTT, x);
      if bNotM == 0 {
        os.epsilonNum, os.epsilonDen := 0, 1;
      } else if os.congestionWindow < x.maxCwnd && AtLeast(os.smoothedBytes, Squared(os.smoothedRTT), x.bestBytes,
                                                           x.bestRtt2) {
        MulPositive(|ps|, bNotM);
        os.epsilonNum, os.epsilonDen := 1, |ps| * bNotM;
      } else if os.congestionWindow == x.maxCwnd {
        MulPositive(|ps|, m);
        os.epsilonNum, os.epsilonDen := -1, |ps| * m;
      } else {
        os.epsilonNum, os.epsilonDen := 0, 1;
      }
    }
  }

  lemma MulPositive(a: nat, b: nat)
    requires a > 0 && b > 0
    ensures a * b > 0
  {
  }

  /** There is a path with the largest window, so the others are few enough to count; and if there are others, so are
      the paths with the largest window. */
  lemma CountsFit(ps: seq<Path>, ks: seq<Kind>, x: Measures)
    requires |ps| <= MAX_PATHS && IsKinds(ps, x, ks)
    requires ps != [] ==> exists i :: 0 <= i < |ps| && ps[i].congestionWindow == x.maxCwnd
    ensures Count(ks, BestOnly) < 256 && (Count(ks, BestOnly) > 0 ==> 0 < Count(ks, Largest) < 256)
  {
    CountTotal(ks);
    if ps != [] {
      var i :| 0 <= i < |ps| && ps[i].congestionWindow == x.maxCwnd;
      CountSome(ks, i);
    }
  }
}
