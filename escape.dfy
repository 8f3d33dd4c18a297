/**
 * The escape loop as a chain of attempts. Each attempt draws Maxwell-Boltzmann
 * velocities, softens them, runs MD until `mdmin` maxima are passed and relaxes the
 * result; all of that is the `relax` oracle. Attempt i starts from the structure and
 * the MD time step that attempt i-1 left, at the start temperature boosted i times by
 * 1.05. The loop stops after the first attempt whose result is far enough from the
 * start both in fingerprint and in energy.
 */
module Escape {
  import opened Structures
  import opened Powers
  import opened History
  import Novelty

  /** What one attempt returns: the relaxed structure, the MD time step it adapted, and the optimiser's noise estimate. */
  datatype Relaxed = Relaxed(atoms: Structure, dt: real, noise: real)

  /**
   * The collaborators the controller calls but does not define:
   * `relax(draw, atoms, temperature, dt)` is one softened MD run plus local
   * optimisation, where `draw` numbers the random velocity draw (the count of minima
   * found before it, so no two attempts of a run share one); `dist` is the normalised
   * fingerprint distance `fp_distance(a, b) / rows(b)`; `ln` is `np.log`; `opt` is the
   * local optimisation on its own, used at start-up.
   */
  datatype Physics = Physics(
    relax: (nat, Structure, real, real) -> Relaxed,
    dist: (Descriptor, Descriptor) -> real,
    ln: real -> real,
    opt: Structure -> Structure)

  /** The two novelty gates: `minima_threshold` on the fingerprint distance and `energy_threshold` on the energy gap. */
  datatype Gates = Gates(minima: real, energy: real)

  /** The fields of the controller the escape loop reads and writes. */
  datatype EscState = EscState(atoms: Structure, temperature: real, dt: real, noise: real, fp: Descriptor,
                               ediff: real, nMin: nat, nSame: nat, nNotUnique: nat, nVisits: int,
                               tag: Tag, history: seq<Line>)

  /** The temperature boost applied on every repeat. */
  const BetaS: real := 1.05

  /** The temperature after i boosts. */
  function Heated(t: real, i: nat): real
  {
    if i == 0 then t else Heated(t, i - 1) * BetaS
  }

  /** The outcome of attempt i (counted from 0). */
  function Attempt(p: Physics, s: EscState, i: nat): Relaxed
  {
    if i == 0 then p.relax(s.nMin, s.atoms, s.temperature, s.dt)
    else
      var prev := Attempt(p, s, i - 1);
      p.relax(s.nMin + i, prev.atoms, Heated(s.temperature, i), prev.dt)
  }

  /** The fingerprint distance and the energy gap to the start after i attempts; both are zero before the first. */
  function Gauges(p: Physics, s: EscState, i: nat): (real, real)
  {
    if i == 0 then (0.0, 0.0)
    else
      var out := Attempt(p, s, i - 1).atoms;
      (p.dist(s.atoms.fingerprint, out.fingerprint), Novelty.Abs(s.atoms.energy - out.energy))
  }

  /** Both gates are passed after i attempts. */
  predicate Escaped(p: Physics, s: EscState, g: Gates, i: nat)
  {
    Gauges(p, s, i).0 >= g.minima && Gauges(p, s, i).1 >= g.energy
  }

  /** Some number of attempts passes both gates: the loop ends. */
  ghost predicate Escapes(p: Physics, s: EscState, g: Gates)
  {
    exists i: nat :: Escaped(p, s, g, i)
  }

  /** No fewer than n attempts pass both gates. */
  predicate NoneBefore(p: Physics, s: EscState, g: Gates, n: nat)
  {
    forall i: nat :: i < n ==> !Escaped(p, s, g, i)
  }

  /** n attempts are exactly what the loop makes: the gates are passed after n and after no fewer. */
  predicate FirstEscape(p: Physics, s: EscState, g: Gates, n: nat)
  {
    Escaped(p, s, g, n) && NoneBefore(p, s, g, n)
  }

  /** A gate pass no later than the first escape is the first escape. */
  lemma {:induction false} EscapedByFirst(p: Physics, s: EscState, g: Gates, n: nat, k: nat)
    requires FirstEscape(p, s, g, n) && Escaped(p, s, g, k) && k <= n
    ensures k == n
  {
  }

  /** The line logged by repeat i (i >= 1), before the i-th boost and after the i-th repeat was counted. */
  function RepeatLine(p: Physics, s: EscState, i: nat): Line
    requires 1 <= i
  {
    LineOf(Attempt(p, s, i - 1).atoms.energy, if i == 1 then s.nVisits else 0, Heated(s.temperature, i - 1),
           s.ediff, s.nNotUnique, s.nSame + i, s.nMin + i, Same)
  }

  /** The lines logged by repeats 1 .. k. */
  function RepeatLines(p: Physics, s: EscState, k: nat): (r: seq<Line>)
    ensures |r| == k
  {
    if k == 0 then [] else RepeatLines(p, s, k - 1) + [RepeatLine(p, s, k)]
  }

  /** From the second pass on, a pass first counts a repeat, logs it and boosts the temperature. */
  function Repeated(st: EscState, i: nat): (r: EscState)
    ensures r.nMin == st.nMin
  {
    if i == 0 then st
    else st.(nSame := st.nSame + 1, tag := Same, nVisits := 0, temperature := st.temperature * BetaS,
             history := st.history + [LineOf(st.atoms.energy, st.nVisits, st.temperature, st.ediff,
                                             st.nNotUnique, st.nSame + 1, st.nMin, Same)])
  }

  /** Then it attempts from the structure at hand and makes the result the structure at hand. */
  function Attempted(p: Physics, st: EscState): (r: EscState)
    ensures r.nMin == st.nMin + 1
  {
    var out := p.relax(st.nMin, st.atoms, st.temperature, st.dt);
    st.(atoms := out.atoms, dt := out.dt, noise := out.noise, fp := out.atoms.fingerprint, nMin := st.nMin + 1)
  }

  /** One pass of the loop body, the i-th (counted from 0). */
  function Body(p: Physics, st: EscState, i: nat): (r: EscState)
    ensures r.nMin == st.nMin + 1
  {
    Attempted(p, Repeated(st, i))
  }

  /** The state after k passes of the loop body. */
  function Steps(p: Physics, s: EscState, k: nat): (r: EscState)
    ensures r.nMin == s.nMin + k
  {
    if k == 0 then s else Body(p, Steps(p, s, k - 1), k - 1)
  }

  /** After the loop: the new minimum is logged with the tag `Inter`. */
  function Finish(st: EscState): EscState
  {
    st.(tag := Inter, nVisits := 0,
        history := st.history + [LineOf(st.atoms.energy, st.nVisits, st.temperature, st.ediff,
                                        st.nNotUnique, st.nSame, st.nMin, Inter)])
  }

  /**
   * What k passes of the loop body do to the counters: all passes but the first
   * count a repeat and clear the visit count, and the temperature is boosted k-1 times.
   */
  lemma {:induction false} StepsCounters(p: Physics, s: EscState, k: nat)
    ensures var st := Steps(p, s, k);
            && st.nSame == s.nSame + (if k == 0 then 0 else k - 1)
            && st.ediff == s.ediff && st.nNotUnique == s.nNotUnique
            && st.nVisits == (if k <= 1 then s.nVisits else 0)
            && st.tag == (if k <= 1 then s.tag else Same)
            && st.temperature == Heated(s.temperature, if k == 0 then 0 else k - 1)
  {
    if k > 0 {
      StepsCounters(p, s, k - 1);
    }
  }

  /** After k >= 1 passes the structure, step size, noise and descriptor are those of attempt k-1. */
  lemma {:induction false} StepsAttempts(p: Physics, s: EscState, k: nat)
    requires k > 0
    ensures var st := Steps(p, s, k);
            var r := Attempt(p, s, k - 1);
            st.atoms == r.atoms && st.dt == r.dt && st.noise == r.noise && st.fp == r.atoms.fingerprint
  {
    if k == 1 {
      assert Steps(p, s, 1) == Attempted(p, s);
    } else {
      StepsAttempts(p, s, k - 1);
      StepsCounters(p, s, k - 1);
      var prev := Steps(p, s, k - 1);
      var mid := Repeated(prev, k - 1);
      assert mid.nMin == s.nMin + (k - 1) && mid.atoms == Attempt(p, s, k - 2).atoms;
      assert mid.temperature == Heated(s.temperature, k - 1) && mid.dt == Attempt(p, s, k - 2).dt;
      assert Steps(p, s, k) == Attempted(p, mid);
    }
  }

  /** The lines k passes of the loop body log: one per repeat. */
  lemma {:induction false} StepsHistory(p: Physics, s: EscState, k: nat)
    ensures Steps(p, s, k).history == s.history + RepeatLines(p, s, if k == 0 then 0 else k - 1)
  {
    if k == 1 {
      assert Steps(p, s, 1) == Attempted(p, s);
    } else if k > 1 {
      StepsHistory(p, s, k - 1);
      RepeatLogged(p, s, k);
      assert RepeatLines(p, s, k - 1) == RepeatLines(p, s, k - 2) + [RepeatLine(p, s, k - 1)];
    }
  }

  /** Pass k-1 (k >= 2) logs repeat k-1. */
  lemma {:induction false} RepeatLogged(p: Physics, s: EscState, k: nat)
    requires k > 1
    ensures Steps(p, s, k).history == Steps(p, s, k - 1).history + [RepeatLine(p, s, k - 1)]
  {
    StepsCounters(p, s, k - 1);
    StepsAttempts(p, s, k - 1);
    var prev := Steps(p, s, k - 1);
    var line := LineOf(prev.atoms.energy, prev.nVisits, prev.temperature, prev.ediff,
                       prev.nNotUnique, prev.nSame + 1, prev.nMin, Same);
    assert prev.atoms == Attempt(p, s, k - 2).atoms && prev.temperature == Heated(s.temperature, k - 2);
    assert prev.nSame + 1 == s.nSame + (k - 1) && prev.nMin == s.nMin + (k - 1);
    assert line == RepeatLine(p, s, k - 1);
    assert Steps(p, s, k) == Attempted(p, Repeated(prev, k - 1));
    assert Repeated(prev, k - 1).history == prev.history + [line];
  }

  /** The gauges the loop computes after k passes are those of attempt k-1. */
  lemma {:induction false} StepsGauges(p: Physics, s: EscState, k: nat)
    requires k > 0
    ensures var st := Steps(p, s, k);
            Gauges(p, s, k) == (p.dist(s.atoms.fingerprint, st.fp), Novelty.Abs(s.atoms.energy - st.atoms.energy))
  {
    StepsAttempts(p, s, k);
  }

  /** The loop's view after k passes: the state `st` they left and the gauges it holds. */
  predicate Gauged(p: Physics, s: EscState, k: nat, st: EscState, escape: real, escapeEnergy: real)
  {
    st == Steps(p, s, k) && (escape, escapeEnergy) == Gauges(p, s, k)
  }

  /** One more pass is one more application of the body. */
  lemma StepsNext(p: Physics, s: EscState, k: nat)
    ensures Steps(p, s, k + 1) == Body(p, Steps(p, s, k), k)
  {
  }

  /** Up to the first escape n, the loop's gauges pass both gates exactly at n. */
  lemma {:induction false} EscapeCheck(p: Physics, s: EscState, g: Gates, n: nat, k: nat,
                                       st: EscState, escape: real, escapeEnergy: real)
    requires FirstEscape(p, s, g, n) && k <= n && Gauged(p, s, k, st, escape, escapeEnergy)
    ensures (escape >= g.minima && escapeEnergy >= g.energy) <==> k == n
  {
    if escape >= g.minima && escapeEnergy >= g.energy {
      EscapedByFirst(p, s, g, n, k);
    }
  }

  /** The first escape of an escape that ends. */
  lemma FirstEscapeOf(p: Physics, s: EscState, g: Gates) returns (n: nat)
    requires Escapes(p, s, g)
    ensures FirstEscape(p, s, g, n)
  {
    var bound: nat :| Escaped(p, s, g, bound);
    FirstEscapeExists(p, s, g, bound);
    n :| FirstEscape(p, s, g, n);
  }

  /** Boosting i times multiplies by 1.05 to the i-th power. */
  lemma {:induction false} HeatedPower(t: real, i: nat)
    ensures Heated(t, i) == t * Pow(BetaS, i)
  {
    if i > 0 {
      HeatedPower(t, i - 1);
      assert Heated(t, i) == (t * Pow(BetaS, i - 1)) * BetaS;
    }
  }

  /** A positive temperature stays positive under boosting. */
  lemma {:induction false} HeatedPositive(t: real, i: nat)
    requires t > 0.0
    ensures Heated(t, i) > 0.0
  {
    if i > 0 {
      HeatedPositive(t, i - 1);
    }
  }

  /** A positive temperature rises with every boost: later attempts run hotter. */
  lemma {:induction false} HeatedRises(t: real, i: nat, j: nat)
    requires t > 0.0 && i < j
    ensures Heated(t, i) < Heated(t, j)
    decreases j
  {
    HeatedPositive(t, j - 1);
    if i < j - 1 {
      HeatedRises(t, i, j - 1);
    }
  }

  /** The loop's attempt count is determined: two first escapes are the same. */
  lemma {:induction false} FirstEscapeUnique(p: Physics, s: EscState, g: Gates, n: nat, m: nat)
    requires FirstEscape(p, s, g, n) && FirstEscape(p, s, g, m)
    ensures n == m
  {
  }

  /** An escape that ends has a first escape. */
  lemma {:induction false} FirstEscapeExists(p: Physics, s: EscState, g: Gates, k: nat)
    requires Escaped(p, s, g, k)
    ensures exists n: nat :: n <= k && FirstEscape(p, s, g, n)
    decreases k
  {
    if forall i: nat :: i < k ==> !Escaped(p, s, g, i) {
      assert FirstEscape(p, s, g, k);
    } else {
      var i: nat :| i < k && Escaped(p, s, g, i);
      FirstEscapeExists(p, s, g, i);
    }
  }

  /** With a positive gate the loop attempts at least once; with neither gate positive it attempts nothing. */
  lemma {:induction false} AttemptsAtLeastOnce(p: Physics, s: EscState, g: Gates, n: nat)
    requires FirstEscape(p, s, g, n)
    ensures n == 0 <==> g.minima <= 0.0 && g.energy <= 0.0
  {
    if n > 0 {
      assert !Escaped(p, s, g, 0);
    }
  }

  /** Repeat j's line is the j-th of the logged repeats, tagged `Same`, at the temperature of attempt j-1. */
  lemma {:induction false} RepeatLinesAt(p: Physics, s: EscState, k: nat, j: nat)
    requires 1 <= j <= k
    ensures RepeatLines(p, s, k)[j - 1] == RepeatLine(p, s, j)
    ensures RepeatLines(p, s, k)[j - 1].tag == Same
    ensures RepeatLines(p, s, k)[j - 1].temperature == Heated(s.temperature, j - 1)
    decreases k
  {
    if j < k {
      RepeatLinesAt(p, s, k - 1, j);
    }
  }

  /** The fingerprint code yields a vector (global fingerprint) or a matrix (one row per site the species filter keeps). */
  predicate WellShaped(d: Descriptor)
  {
    d.Vector? || d.Matrix?
  }

  /** Every structure the relaxation returns carries a vector or matrix fingerprint. */
  ghost predicate ShapesFingerprints(p: Physics)
  {
    forall draw: nat, a: Structure, t: real, dt: real :: WellShaped(p.relax(draw, a, t, dt).atoms.fingerprint)
  }

  lemma {:induction false} AttemptShaped(p: Physics, s: EscState, i: nat)
    requires ShapesFingerprints(p)
    ensures WellShaped(Attempt(p, s, i).atoms.fingerprint)
  {
    if i > 0 {
      var prev := Attempt(p, s, i - 1);
      assert Attempt(p, s, i) == p.relax(s.nMin + i, prev.atoms, Heated(s.temperature, i), prev.dt);
    }
  }
}
