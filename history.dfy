/**
 * The history log `history.dat`: one line per logged event, holding the energy of the
 * structure at hand, its visit count, temperature, threshold, the fractions of found
 * minima that were repeats of the start (`same`), already known (`notunique`) or new
 * (`unique`), and the tag of the event.
 */
module History {
  import opened Structures

  datatype Fractions = Fractions(same: real, notUnique: real, unique: real)

  /** The counters a line's fractions are computed from: minima seen before, repeats of the start, all minima found. */
  datatype Counts = Counts(nNotUnique: nat, nSame: nat, nMin: nat)

  datatype Line = Line(energy: real, nVisits: int, temperature: real, ediff: real, counts: Counts, tag: Tag)

  /** The three fractions over the `nMin` minima found so far; the unique fraction is whatever is left. */
  function FractionsOf(nNotUnique: nat, nSame: nat, nMin: nat): Fractions
    requires nMin > 0
  {
    var notUnique := nNotUnique as real / nMin as real;
    var same := nSame as real / nMin as real;
    Fractions(same, notUnique, 1.0 - (notUnique + same))
  }

  /** The fractions a line shows. */
  function LineFractions(l: Line): Fractions
    requires l.counts.nMin > 0
  {
    FractionsOf(l.counts.nNotUnique, l.counts.nSame, l.counts.nMin)
  }

  /** The line logged for a state with these fields. */
  function LineOf(energy: real, nVisits: int, temperature: real, ediff: real,
                  nNotUnique: nat, nSame: nat, nMin: nat, tag: Tag): Line
  {
    Line(energy, nVisits, temperature, ediff, Counts(nNotUnique, nSame, nMin), tag)
  }

  /**
   * With every found minimum but the first counted once as a repeat, a known or a new
   * one, the fractions are proportions: each lies in [0, 1], and the unique fraction
   * is the share of new minima counting the starting one.
   */
  lemma {:induction false} FractionsPartition(nUnique: nat, nNotUnique: nat, nSame: nat, nMin: nat)
    requires nMin > 0 && nSame + nUnique + nNotUnique + 1 == nMin
    ensures var f := FractionsOf(nNotUnique, nSame, nMin);
            0.0 <= f.same <= 1.0 && 0.0 <= f.notUnique <= 1.0 && 0.0 < f.unique <= 1.0
            && f.unique == (nUnique + 1) as real / nMin as real
  {
    var m := nMin as real;
    var f := FractionsOf(nNotUnique, nSame, nMin);
    assert f.same * m == nSame as real;
    assert f.notUnique * m == nNotUnique as real;
    assert f.unique * m == m - nNotUnique as real - nSame as real;
    assert f.unique * m == (nUnique + 1) as real;
  }

  /** While an escape repeats, the count of repeats may run one ahead of the others: the fractions stay proportions. */
  lemma {:induction false} FractionsBounded(nNotUnique: nat, nSame: nat, nMin: nat)
    requires nMin > 0 && nSame + nNotUnique <= nMin
    ensures var f := FractionsOf(nNotUnique, nSame, nMin);
            0.0 <= f.same <= 1.0 && 0.0 <= f.notUnique <= 1.0 && 0.0 <= f.unique <= 1.0
  {
    var m := nMin as real;
    var a, b := nSame as real, nNotUnique as real;
    var f := FractionsOf(nNotUnique, nSame, nMin);
    assert f.same == a / m && f.notUnique == b / m;
    assert f.same + f.notUnique == (a + b) / m;
    ShareAtMostOne(a + b, m);
  }

  /** A part of a positive whole is at most one whole. */
  lemma ShareAtMostOne(x: real, m: real)
    requires m > 0.0 && 0.0 <= x <= m
    ensures 0.0 <= x / m <= 1.0
  {
    assert x / m * m == x;
  }
}
