/**
 * The accept/reject rule. The candidates found since the last acceptance are judged
 * in list order against the energy of the current minimum, captured once before the
 * pass. A candidate is accepted when its energy exceeds that energy by less than the
 * adaptive threshold `ediff` as it stands at that moment: the threshold then shrinks
 * by `alpha_a`, the candidate becomes the current minimum and the pending list is
 * emptied. Otherwise the threshold grows by `alpha_r`.
 */
module Acceptance {
  import opened Results
  import opened Structures
  import opened Powers

  /** What one pass reads and updates: the threshold, the current minimum, the tag and the pending list. */
  datatype AccState = AccState(ediff: real, current: Structure, tag: Tag, pending: seq<Structure>)

  predicate Accepts(candidate: Structure, eCur: real, ediff: real)
  {
    candidate.energy - eCur < ediff
  }

  /** The verdict on one candidate. */
  function Judge(st: AccState, candidate: Structure, eCur: real, alphaA: real, alphaR: real): AccState
  {
    if Accepts(candidate, eCur, st.ediff) then AccState(st.ediff * alphaA, candidate, Accepted, [])
    else st.(ediff := st.ediff * alphaR, tag := Rejected)
  }

  /** The state after judging the first k candidates in order. */
  function Pass(init: AccState, candidates: seq<Structure>, k: nat, eCur: real, alphaA: real, alphaR: real): AccState
    requires k <= |candidates|
  {
    if k == 0 then init
    else Judge(Pass(init, candidates, k - 1, eCur, alphaA, alphaR), candidates[k - 1], eCur, alphaA, alphaR)
  }

  /** Whether candidate k is accepted, judged against the threshold left by the candidates before it. */
  predicate AcceptedAt(init: AccState, candidates: seq<Structure>, k: nat, eCur: real, alphaA: real, alphaR: real)
    requires k < |candidates|
  {
    Accepts(candidates[k], eCur, Pass(init, candidates, k, eCur, alphaA, alphaR).ediff)
  }

  /** The verdicts in candidate order, true for an acceptance. */
  function Verdicts(init: AccState, candidates: seq<Structure>, eCur: real, alphaA: real, alphaR: real): (v: seq<bool>)
    ensures |v| == |candidates|
  {
    seq(|candidates|, k requires 0 <= k < |candidates| => AcceptedAt(init, candidates, k, eCur, alphaA, alphaR))
  }

  /** Verdict k is the judgement on candidate k. */
  lemma VerdictAt(init: AccState, candidates: seq<Structure>, k: nat, eCur: real, alphaA: real, alphaR: real)
    requires k < |candidates|
    ensures Verdicts(init, candidates, eCur, alphaA, alphaR)[k] == AcceptedAt(init, candidates, k, eCur, alphaA, alphaR)
  {
  }

  /** How many of the first k verdicts are acceptances. */
  function CountAccepted(v: seq<bool>, k: nat): (r: nat)
    requires k <= |v|
    ensures r <= k
  {
    if k == 0 then 0 else CountAccepted(v, k - 1) + (if v[k - 1] then 1 else 0)
  }

  /** How many of the first k verdicts are rejections. */
  function CountRejected(v: seq<bool>, k: nat): (r: nat)
    requires k <= |v|
    ensures r + CountAccepted(v, k) == k
  {
    if k == 0 then 0 else CountRejected(v, k - 1) + (if v[k - 1] then 0 else 1)
  }

  /** One more candidate multiplies the threshold by the factor of its verdict. */
  lemma PassStep(init: AccState, candidates: seq<Structure>, k: nat, eCur: real, alphaA: real, alphaR: real)
    requires 0 < k <= |candidates|
    ensures var e := Pass(init, candidates, k - 1, eCur, alphaA, alphaR).ediff;
            Pass(init, candidates, k, eCur, alphaA, alphaR).ediff
              == if AcceptedAt(init, candidates, k - 1, eCur, alphaA, alphaR) then e * alphaA else e * alphaR
  {
  }

  /** The threshold e after the factors of the first k verdicts: alpha_a per acceptance, alpha_r per rejection. */
  function Scaled(e: real, v: seq<bool>, k: nat, alphaA: real, alphaR: real): real
    requires k <= |v|
  {
    if k == 0 then e
    else if v[k - 1] then Scaled(e, v, k - 1, alphaA, alphaR) * alphaA
    else Scaled(e, v, k - 1, alphaA, alphaR) * alphaR
  }

  /** The threshold after k candidates is the initial one scaled by their verdicts. */
  lemma {:induction false} PassScale(init: AccState, candidates: seq<Structure>, k: nat, eCur: real, alphaA: real, alphaR: real)
    requires k <= |candidates|
    ensures Pass(init, candidates, k, eCur, alphaA, alphaR).ediff
              == Scaled(init.ediff, Verdicts(init, candidates, eCur, alphaA, alphaR), k, alphaA, alphaR)
  {
    if k > 0 {
      var v := Verdicts(init, candidates, eCur, alphaA, alphaR);
      PassScale(init, candidates, k - 1, eCur, alphaA, alphaR);
      VerdictAt(init, candidates, k - 1, eCur, alphaA, alphaR);
      PassStep(init, candidates, k, eCur, alphaA, alphaR);
      assert Pass(init, candidates, k - 1, eCur, alphaA, alphaR).ediff == Scaled(init.ediff, v, k - 1, alphaA, alphaR);
    }
  }

  /** An acceptance multiplies by alpha_a: one more factor in the first power. */
  lemma AcceptStep(e: real, alphaA: real, alphaR: real, a: nat, r: nat, s: real, s': real)
    requires s == e * (Pow(alphaA, a) * Pow(alphaR, r)) && s' == s * alphaA
    ensures s' == e * (Pow(alphaA, a + 1) * Pow(alphaR, r))
  {
    var p, q := Pow(alphaA, a), Pow(alphaR, r);
    assert Pow(alphaA, a + 1) == p * alphaA;
    assert (e * (p * q)) * alphaA == e * ((p * alphaA) * q);
  }

  /** A rejection multiplies by alpha_r: one more factor in the second power. */
  lemma RejectStep(e: real, alphaA: real, alphaR: real, a: nat, r: nat, s: real, s': real)
    requires s == e * (Pow(alphaA, a) * Pow(alphaR, r)) && s' == s * alphaR
    ensures s' == e * (Pow(alphaA, a) * Pow(alphaR, r + 1))
  {
    var p, q := Pow(alphaA, a), Pow(alphaR, r);
    assert Pow(alphaR, r + 1) == q * alphaR;
    assert (e * (p * q)) * alphaR == e * (p * (q * alphaR));
  }

  /** The power form carries over an acceptance. */
  lemma AcceptedVerdict(e: real, v: seq<bool>, k: nat, alphaA: real, alphaR: real)
    requires 0 < k <= |v| && v[k - 1]
    requires Scaled(e, v, k - 1, alphaA, alphaR)
               == e * (Pow(alphaA, CountAccepted(v, k - 1)) * Pow(alphaR, CountRejected(v, k - 1)))
    ensures Scaled(e, v, k, alphaA, alphaR) == e * (Pow(alphaA, CountAccepted(v, k)) * Pow(alphaR, CountRejected(v, k)))
  {
    AcceptStep(e, alphaA, alphaR, CountAccepted(v, k - 1), CountRejected(v, k - 1),
               Scaled(e, v, k - 1, alphaA, alphaR), Scaled(e, v, k, alphaA, alphaR));
    assert CountAccepted(v, k) == CountAccepted(v, k - 1) + 1 && CountRejected(v, k) == CountRejected(v, k - 1);
  }

  /** The power form carries over a rejection. */
  lemma RejectedVerdict(e: real, v: seq<bool>, k: nat, alphaA: real, alphaR: real)
    requires 0 < k <= |v| && !v[k - 1]
    requires Scaled(e, v, k - 1, alphaA, alphaR)
               == e * (Pow(alphaA, CountAccepted(v, k - 1)) * Pow(alphaR, CountRejected(v, k - 1)))
    ensures Scaled(e, v, k, alphaA, alphaR) == e * (Pow(alphaA, CountAccepted(v, k)) * Pow(alphaR, CountRejected(v, k)))
  {
    RejectStep(e, alphaA, alphaR, CountAccepted(v, k - 1), CountRejected(v, k - 1),
               Scaled(e, v, k - 1, alphaA, alphaR), Scaled(e, v, k, alphaA, alphaR));
    assert CountAccepted(v, k) == CountAccepted(v, k - 1) && CountRejected(v, k) == CountRejected(v, k - 1) + 1;
  }

  /** Scaling multiplies by alpha_a to the number of acceptances and alpha_r to the number of rejections. */
  lemma {:induction false} ScaledPowers(e: real, v: seq<bool>, k: nat, alphaA: real, alphaR: real)
    requires k <= |v|
    ensures Scaled(e, v, k, alphaA, alphaR) == e * (Pow(alphaA, CountAccepted(v, k)) * Pow(alphaR, CountRejected(v, k)))
  {
    if k > 0 {
      ScaledPowers(e, v, k - 1, alphaA, alphaR);
      if v[k - 1] {
        AcceptedVerdict(e, v, k, alphaA, alphaR);
      } else {
        RejectedVerdict(e, v, k, alphaA, alphaR);
      }
    }
  }

  /**
   * The threshold after the first k candidates is the initial one times alpha_a per
   * acceptance and alpha_r per rejection among them.
   */
  lemma {:induction false} PassThreshold(init: AccState, candidates: seq<Structure>, k: nat, eCur: real, alphaA: real, alphaR: real)
    requires k <= |candidates|
    ensures var v := Verdicts(init, candidates, eCur, alphaA, alphaR);
            Pass(init, candidates, k, eCur, alphaA, alphaR).ediff
              == init.ediff * (Pow(alphaA, CountAccepted(v, k)) * Pow(alphaR, CountRejected(v, k)))
  {
    var v := Verdicts(init, candidates, eCur, alphaA, alphaR);
    PassScale(init, candidates, k, eCur, alphaA, alphaR);
    ScaledPowers(init.ediff, v, k, alphaA, alphaR);
    assert Pass(init, candidates, k, eCur, alphaA, alphaR).ediff == Scaled(init.ediff, v, k, alphaA, alphaR);
  }

  /** Positive factors keep a positive threshold positive. */
  lemma {:induction false} PassThresholdPositive(init: AccState, candidates: seq<Structure>, k: nat, eCur: real, alphaA: real, alphaR: real)
    requires k <= |candidates|
    requires init.ediff > 0.0 && alphaA > 0.0 && alphaR > 0.0
    ensures Pass(init, candidates, k, eCur, alphaA, alphaR).ediff > 0.0
  {
    PassThreshold(init, candidates, k, eCur, alphaA, alphaR);
    var v := Verdicts(init, candidates, eCur, alphaA, alphaR);
    var pa, pr := Pow(alphaA, CountAccepted(v, k)), Pow(alphaR, CountRejected(v, k));
    assert pa * pr > 0.0;
  }

  /** The tag after k > 0 candidates is the verdict on the last of them; no candidate changes nothing. */
  lemma {:induction false} PassTag(init: AccState, candidates: seq<Structure>, k: nat, eCur: real, alphaA: real, alphaR: real)
    requires k <= |candidates|
    ensures k == 0 ==> Pass(init, candidates, k, eCur, alphaA, alphaR) == init
    ensures k > 0 ==>
              Pass(init, candidates, k, eCur, alphaA, alphaR).tag
                == if AcceptedAt(init, candidates, k - 1, eCur, alphaA, alphaR) then Accepted else Rejected
  {
  }

  /**
   * The pending list is emptied by the first acceptance and otherwise left as it was.
   */
  lemma {:induction false} PassClears(init: AccState, candidates: seq<Structure>, k: nat, eCur: real, alphaA: real, alphaR: real)
    requires k <= |candidates|
    ensures var r := Pass(init, candidates, k, eCur, alphaA, alphaR);
            var v := Verdicts(init, candidates, eCur, alphaA, alphaR);
            && (CountAccepted(v, k) > 0 ==> r.pending == [])
            && (CountAccepted(v, k) == 0 ==> r.pending == init.pending)
  {
    if k > 0 {
      PassClears(init, candidates, k - 1, eCur, alphaA, alphaR);
    }
  }

  /** The index of the last acceptance among the first k verdicts, if any. */
  function LastAccepted(v: seq<bool>, k: nat): (r: Option<nat>)
    requires k <= |v|
    ensures r.Some? ==> r.value < k && v[r.value] && forall i :: r.value < i < k ==> !v[i]
    ensures r.None? ==> forall i :: 0 <= i < k ==> !v[i]
  {
    if k == 0 then None
    else if v[k - 1] then Some(k - 1)
    else LastAccepted(v, k - 1)
  }

  /**
   * The current minimum after k candidates is the last accepted one among them, or the
   * initial one when every candidate was rejected.
   */
  lemma {:induction false} PassCurrent(init: AccState, candidates: seq<Structure>, k: nat, eCur: real, alphaA: real, alphaR: real)
    requires k <= |candidates|
    ensures var v := Verdicts(init, candidates, eCur, alphaA, alphaR);
            Pass(init, candidates, k, eCur, alphaA, alphaR).current
              == match LastAccepted(v, k)
                 case Some(j) => candidates[j]
                 case None => init.current
  {
    if k > 0 {
      PassCurrent(init, candidates, k - 1, eCur, alphaA, alphaR);
      CurrentStep(init, candidates, k, eCur, alphaA, alphaR);
      VerdictAt(init, candidates, k - 1, eCur, alphaA, alphaR);
    }
  }

  /** One more candidate replaces the current minimum exactly when it is accepted. */
  lemma CurrentStep(init: AccState, candidates: seq<Structure>, k: nat, eCur: real, alphaA: real, alphaR: real)
    requires 0 < k <= |candidates|
    ensures Pass(init, candidates, k, eCur, alphaA, alphaR).current
              == if AcceptedAt(init, candidates, k - 1, eCur, alphaA, alphaR) then candidates[k - 1]
                 else Pass(init, candidates, k - 1, eCur, alphaA, alphaR).current
  {
  }

  /** One candidate within the threshold, from the defaults: 0.01 shrinks to 0.0095 and the tag is Accepted. */
  lemma {:induction false} SingleAcceptExample(cur: Structure, cand: Structure)
    requires cand.energy - cur.energy < 0.01
    ensures Pass(AccState(0.01, cur, Inter, [cand]), [cand], 1, cur.energy, 0.95, 1.05)
              == AccState(0.0095, cand, Accepted, [])
  {
  }

  /**
   * Candidates are judged against the threshold as already updated: the first candidate
   * is rejected and raises the threshold, and the second, which the initial threshold
   * would have rejected, is then accepted.
   */
  lemma {:induction false} UpdatedThresholdExample(cur: Structure, a: Structure, b: Structure)
    requires cur.energy == 0.0 && a.energy == 0.02 && b.energy == 0.0104
    ensures var r := Pass(AccState(0.01, cur, Inter, [a, b]), [a, b], 2, 0.0, 0.95, 1.05);
            r.current == b && r.tag == Accepted && r.pending == []
  {
    var s0 := AccState(0.01, cur, Inter, [a, b]);
    assert Pass(s0, [a, b], 0, 0.0, 0.95, 1.05) == s0;
    var s1 := Pass(s0, [a, b], 1, 0.0, 0.95, 1.05);
    assert s1 == Judge(s0, [a, b][0], 0.0, 0.95, 1.05);
    assert s1.ediff == 0.0105;
  }
}
