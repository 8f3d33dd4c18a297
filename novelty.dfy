/**
 * The novelty count: how many archived records look like the new minimum. The
 * archive is seen through two aligned sequences, the record energies `E` (sorted) and
 * `hits`, where `hits[j]` says whether record j's normalised fingerprint distance to
 * the query is below the minima threshold. `e` is the query energy, `thr` the energy
 * threshold and `start` the bisection point after equal energies.
 *
 * `Count` follows the lookup as written: each scan compares a record before testing
 * its energy gap, the forward scan starts one past `start` and does not reset the gap
 * left by the backward scan. `WindowCount` is the corrected lookup, proved to count
 * exactly the fingerprint matches inside the energy window.
 */
module Novelty {

  function Abs(x: real): (r: real)
    ensures r >= 0.0 && (r == x || r == -x)
  {
    if x < 0.0 then -x else x
  }

  predicate NonDecreasing(E: seq<real>)
  {
    forall i, j :: 0 <= i < j < |E| ==> E[i] <= E[j]
  }

  function Bit(b: bool): nat
  {
    if b then 1 else 0
  }

  /**
   * The backward scan from compare index c with the gap ed last computed: the number
   * of matches it adds, and the gap it leaves behind.
   */
  function BackScan(E: seq<real>, hits: seq<bool>, e: real, thr: real, c: nat, ed: real): (res: (nat, real))
    requires |hits| == |E| && c <= |E|
    ensures res.0 <= c
    decreases c
  {
    if ed >= thr || c == 0 then (0, ed)
    else
      var rest := BackScan(E, hits, e, thr, c - 1, Abs(E[c - 1] - e));
      (Bit(hits[c - 1]) + rest.0, rest.1)
  }

  /** The forward scan from compare index c with the gap ed it inherits: the number of matches it adds. */
  function FwdScan(E: seq<real>, hits: seq<bool>, e: real, thr: real, c: nat, ed: real): (n: nat)
    requires |hits| == |E| && c <= |E|
    ensures c < |E| ==> n <= |E| - c - 1
    ensures c == |E| ==> n == 0
    decreases |E| - c
  {
    if ed >= thr || c + 1 >= |E| then 0
    else Bit(hits[c + 1]) + FwdScan(E, hits, e, thr, c + 1, Abs(E[c + 1] - e))
  }

  /**
   * `_in_history_fp` as written: one for the query itself plus the matches of both
   * scans. Index `start` is never compared, so the count is at most the archive size
   * when `start` is inside the archive.
   */
  function Count(E: seq<real>, hits: seq<bool>, e: real, thr: real, start: nat): (r: nat)
    requires |hits| == |E| && start <= |E|
    ensures 1 <= r <= 1 + |E|
    ensures start < |E| ==> r <= |E|
  {
    var back := BackScan(E, hits, e, thr, start, 0.0);
    1 + back.0 + FwdScan(E, hits, e, thr, start, back.1)
  }

  /** The backward scan reads nothing at or above its compare index. */
  lemma {:induction false} BackScanLocal(E: seq<real>, hits: seq<bool>, E': seq<real>, hits': seq<bool>,
                                         e: real, thr: real, c: nat, ed: real)
    requires |hits| == |E| == |E'| == |hits'| && c <= |E|
    requires forall j :: 0 <= j < c ==> E[j] == E'[j] && hits[j] == hits'[j]
    ensures BackScan(E, hits, e, thr, c, ed) == BackScan(E', hits', e, thr, c, ed)
    decreases c
  {
    if ed < thr && c > 0 {
      BackScanLocal(E, hits, E', hits', e, thr, c - 1, Abs(E[c - 1] - e));
    }
  }

  /** The forward scan reads nothing at or below its compare index. */
  lemma {:induction false} FwdScanLocal(E: seq<real>, hits: seq<bool>, E': seq<real>, hits': seq<bool>,
                                        e: real, thr: real, c: nat, ed: real)
    requires |hits| == |E| == |E'| == |hits'| && c <= |E|
    requires forall j :: c < j < |E| ==> E[j] == E'[j] && hits[j] == hits'[j]
    ensures FwdScan(E, hits, e, thr, c, ed) == FwdScan(E', hits', e, thr, c, ed)
    decreases |E| - c
  {
    if ed < thr && c + 1 < |E| {
      FwdScanLocal(E, hits, E', hits', e, thr, c + 1, Abs(E[c + 1] - e));
    }
  }

  /** The record at the insertion point is never compared: changing it leaves the count unchanged. */
  lemma {:induction false} StartNeverCompared(E: seq<real>, hits: seq<bool>, E': seq<real>, hits': seq<bool>,
                                              e: real, thr: real, start: nat)
    requires |hits| == |E| == |E'| == |hits'| && start <= |E|
    requires forall j :: 0 <= j < |E| && j != start ==> E[j] == E'[j] && hits[j] == hits'[j]
    ensures Count(E, hits, e, thr, start) == Count(E', hits', e, thr, start)
  {
    BackScanLocal(E, hits, E', hits', e, thr, start, 0.0);
    var back := BackScan(E, hits, e, thr, start, 0.0);
    FwdScanLocal(E, hits, E', hits', e, thr, start, back.1);
  }

  /**
   * A backward scan that leaves a gap below the threshold started below it and found
   * every record below its compare index inside the energy window.
   */
  lemma {:induction false} BackScanOpen(E: seq<real>, hits: seq<bool>, e: real, thr: real, c: nat, ed: real)
    requires |hits| == |E| && c <= |E|
    ensures BackScan(E, hits, e, thr, c, ed).1 < thr ==>
              ed < thr && forall j :: 0 <= j < c ==> Abs(E[j] - e) < thr
    decreases c
  {
    if ed < thr && c > 0 {
      BackScanOpen(E, hits, e, thr, c - 1, Abs(E[c - 1] - e));
    }
  }

  /**
   * The forward scan adds something only when the backward scan went through index 0
   * with every record below `start` inside the energy window.
   */
  lemma {:induction false} ForwardNeedsFullBackward(E: seq<real>, hits: seq<bool>, e: real, thr: real, start: nat)
    requires |hits| == |E| && start <= |E|
    ensures var back := BackScan(E, hits, e, thr, start, 0.0);
            FwdScan(E, hits, e, thr, start, back.1) > 0 ==>
              forall j :: 0 <= j < start ==> Abs(E[j] - e) < thr
  {
    BackScanOpen(E, hits, e, thr, start, 0.0);
  }

  /**
   * The record just below the insertion point is always compared and counted when it
   * matches, whatever its energy gap (the gap is tested after the comparison).
   */
  lemma {:induction false} NeighbourBelowCounted(E: seq<real>, hits: seq<bool>, e: real, thr: real, start: nat)
    requires |hits| == |E| && 0 < start <= |E| && thr > 0.0 && hits[start - 1]
    ensures Count(E, hits, e, thr, start) >= 2
  {
  }

  /** Whether record j is a match inside the energy window. */
  predicate InWindow(E: seq<real>, hits: seq<bool>, e: real, thr: real, j: nat)
    requires |hits| == |E| && j < |E|
  {
    Abs(E[j] - e) < thr && hits[j]
  }

  /** The number of matches inside the energy window among records lo .. hi-1. */
  function Window(E: seq<real>, hits: seq<bool>, e: real, thr: real, lo: nat, hi: nat): (n: nat)
    requires |hits| == |E| && lo <= hi <= |E|
    ensures n <= hi - lo
    decreases hi - lo
  {
    if lo == hi then 0 else Bit(InWindow(E, hits, e, thr, lo)) + Window(E, hits, e, thr, lo + 1, hi)
  }

  /** The corrected backward scan: test the gap of record c-1 first, and count it only inside the window. */
  function WindowBack(E: seq<real>, hits: seq<bool>, e: real, thr: real, c: nat): (n: nat)
    requires |hits| == |E| && c <= |E|
    ensures n <= c
  {
    if c == 0 || Abs(E[c - 1] - e) >= thr then 0
    else Bit(hits[c - 1]) + WindowBack(E, hits, e, thr, c - 1)
  }

  /** The corrected forward scan: from record c on, with its own gap. */
  function WindowFwd(E: seq<real>, hits: seq<bool>, e: real, thr: real, c: nat): (n: nat)
    requires |hits| == |E| && c <= |E|
    ensures n <= |E| - c
    decreases |E| - c
  {
    if c == |E| || Abs(E[c] - e) >= thr then 0
    else Bit(hits[c]) + WindowFwd(E, hits, e, thr, c + 1)
  }

  /** The corrected lookup: the query plus the matches found by both corrected scans. */
  function WindowCount(E: seq<real>, hits: seq<bool>, e: real, thr: real, start: nat): (r: nat)
    requires |hits| == |E| && start <= |E|
    ensures 1 <= r <= 1 + |E|
  {
    1 + WindowBack(E, hits, e, thr, start) + WindowFwd(E, hits, e, thr, start)
  }

  lemma {:induction false} WindowSplit(E: seq<real>, hits: seq<bool>, e: real, thr: real, lo: nat, mid: nat, hi: nat)
    requires |hits| == |E| && lo <= mid <= hi <= |E|
    ensures Window(E, hits, e, thr, lo, hi) == Window(E, hits, e, thr, lo, mid) + Window(E, hits, e, thr, mid, hi)
    decreases mid - lo
  {
    if lo < mid {
      WindowSplit(E, hits, e, thr, lo + 1, mid, hi);
    }
  }

  lemma {:induction false} WindowEmpty(E: seq<real>, hits: seq<bool>, e: real, thr: real, lo: nat, hi: nat)
    requires |hits| == |E| && lo <= hi <= |E|
    requires forall j :: lo <= j < hi ==> Abs(E[j] - e) >= thr
    ensures Window(E, hits, e, thr, lo, hi) == 0
    decreases hi - lo
  {
    if lo < hi {
      WindowEmpty(E, hits, e, thr, lo + 1, hi);
    }
  }

  /** Below the query, the corrected backward scan counts every match of the window. */
  lemma {:induction false} WindowBackCountsWindow(E: seq<real>, hits: seq<bool>, e: real, thr: real, c: nat)
    requires |hits| == |E| && c <= |E| && NonDecreasing(E)
    requires forall j :: 0 <= j < c ==> E[j] <= e
    ensures WindowBack(E, hits, e, thr, c) == Window(E, hits, e, thr, 0, c)
    decreases c
  {
    if c > 0 {
      WindowSplit(E, hits, e, thr, 0, c - 1, c);
      if Abs(E[c - 1] - e) >= thr {
        forall j | 0 <= j < c - 1 ensures Abs(E[j] - e) >= thr {
          assert E[j] <= E[c - 1];
        }
        WindowEmpty(E, hits, e, thr, 0, c - 1);
      } else {
        WindowBackCountsWindow(E, hits, e, thr, c - 1);
      }
    }
  }

  /** Above the query, the corrected forward scan counts every match of the window. */
  lemma {:induction false} WindowFwdCountsWindow(E: seq<real>, hits: seq<bool>, e: real, thr: real, c: nat)
    requires |hits| == |E| && c <= |E| && NonDecreasing(E)
    requires forall j :: c <= j < |E| ==> e < E[j]
    ensures WindowFwd(E, hits, e, thr, c) == Window(E, hits, e, thr, c, |E|)
    decreases |E| - c
  {
    if c < |E| {
      if Abs(E[c] - e) >= thr {
        forall j | c + 1 <= j < |E| ensures Abs(E[j] - e) >= thr {
          assert E[c] <= E[j];
        }
        WindowEmpty(E, hits, e, thr, c + 1, |E|);
      } else {
        WindowFwdCountsWindow(E, hits, e, thr, c + 1);
      }
    }
  }

  /**
   * With a sorted archive and the insertion point after equal energies, the corrected
   * lookup counts the query plus exactly the matches inside the energy window.
   */
  lemma {:induction false} WindowCountIsWindow(E: seq<real>, hits: seq<bool>, e: real, thr: real, start: nat)
    requires |hits| == |E| && start <= |E| && NonDecreasing(E)
    requires forall j :: 0 <= j < start ==> E[j] <= e
    requires forall j :: start <= j < |E| ==> e < E[j]
    ensures WindowCount(E, hits, e, thr, start) == 1 + Window(E, hits, e, thr, 0, |E|)
  {
    WindowBackCountsWindow(E, hits, e, thr, start);
    WindowFwdCountsWindow(E, hits, e, thr, start);
    WindowSplit(E, hits, e, thr, 0, start, |E|);
  }

  /** Some match inside the window makes the window count positive. */
  lemma {:induction false} WindowHasMatch(E: seq<real>, hits: seq<bool>, e: real, thr: real, lo: nat, hi: nat, j: nat)
    requires |hits| == |E| && lo <= j < hi <= |E| && InWindow(E, hits, e, thr, j)
    ensures Window(E, hits, e, thr, lo, hi) >= 1
    decreases j - lo
  {
    if lo < j {
      WindowHasMatch(E, hits, e, thr, lo + 1, hi, j);
    }
  }

  /**
   * The corrected lookup meets novelty-count monotonicity: an archived match inside
   * the energy window makes the count at least two.
   */
  lemma {:induction false} WindowCountMonotone(E: seq<real>, hits: seq<bool>, e: real, thr: real, start: nat, j: nat)
    requires |hits| == |E| && start <= |E| && NonDecreasing(E)
    requires forall i :: 0 <= i < start ==> E[i] <= e
    requires forall i :: start <= i < |E| ==> e < E[i]
    requires j < |E| && InWindow(E, hits, e, thr, j)
    ensures WindowCount(E, hits, e, thr, start) >= 2
  {
    WindowCountIsWindow(E, hits, e, thr, start);
    WindowHasMatch(E, hits, e, thr, 0, |E|, j);
  }

  /**
   * As written, a match just above the query energy sits at the insertion point and is
   * never compared: the count stays 1 although the window holds a match.
   */
  lemma {:induction false} SkippedNeighbourExample()
    ensures Count([0.5], [true], 0.0, 1.0, 0) == 1
    ensures WindowCount([0.5], [true], 0.0, 1.0, 0) == 2
  {
  }

  /**
   * As written, the scan compares the first record outside the window too: with
   * energies 1.0, 2.0, 3.0, query 2.0001 and threshold 0.01, the record at 1.0 is
   * compared and counted.
   */
  lemma {:induction false} ComparedPastWindowExample()
    ensures Count([1.0, 2.0, 3.0], [true, true, true], 2.0001, 0.01, 2) == 3
    ensures WindowCount([1.0, 2.0, 3.0], [true, true, true], 2.0001, 0.01, 2) == 2
  {
    var E := [1.0, 2.0, 3.0];
    var hits := [true, true, true];
    assert BackScan(E, hits, 2.0001, 0.01, 0, 1.0001) == (0, 1.0001);
    assert BackScan(E, hits, 2.0001, 0.01, 1, 0.0001) == (1, 1.0001);
    assert BackScan(E, hits, 2.0001, 0.01, 2, 0.0) == (2, 1.0001);
  }

  /**
   * As written, the forward scan inherits the large gap the backward scan stopped on,
   * so matches above the query are missed even when they are inside the window.
   */
  lemma {:induction false} StaleGapExample()
    ensures Count([-2.0, 0.0, 0.25, 0.5], [false, true, true, true], 0.0, 1.0, 2) == 2
    ensures WindowCount([-2.0, 0.0, 0.25, 0.5], [false, true, true, true], 0.0, 1.0, 2) == 4
  {
    var E := [-2.0, 0.0, 0.25, 0.5];
    var hits := [false, true, true, true];
    assert BackScan(E, hits, 0.0, 1.0, 0, 2.0) == (0, 2.0);
    assert BackScan(E, hits, 0.0, 1.0, 1, 0.0) == (0, 2.0);
    assert BackScan(E, hits, 0.0, 1.0, 2, 0.0) == (1, 2.0);
    assert WindowFwd(E, hits, 0.0, 1.0, 4) == 0;
    assert WindowFwd(E, hits, 0.0, 1.0, 3) == 1;
    assert WindowFwd(E, hits, 0.0, 1.0, 2) == 2;
  }
}
