/**
 * The values the search controller works on: atomic structures as seen through the
 * calculator and the fingerprint code, their descriptors, and the archive records
 * (the `Minimum` objects of the program).
 */
module Structures {

  /** One atom: chemical symbol, atomic number and (abstract) position. */
  datatype Site = Site(symbol: string, number: nat, position: seq<real>)

  /**
   * A structural descriptor as a numpy array: a flat vector (non-periodic, global
   * fingerprint), a matrix of per-site vectors (periodic, local fingerprint), or an
   * array of some other rank: a 0-d scalar or an array with `extraDims + 3` axes.
   */
  datatype Descriptor =
    | Scalar(x: real)
    | Vector(v: seq<real>)
    | Matrix(rows: seq<seq<real>>)
    | HighRank(extraDims: nat)

  /** `len(desc.shape)` */
  function Ndim(d: Descriptor): (n: nat)
    ensures n == 1 <==> d.Vector?
    ensures n == 2 <==> d.Matrix?
  {
    match d
    case Scalar(_) => 0
    case Vector(_) => 1
    case Matrix(_) => 2
    case HighRank(k) => k + 3
  }

  /**
   * A structure as the controller sees it. `energy` is the calculator's answer to
   * `get_potential_energy()` and `fingerprint` the fingerprint code's answer for this
   * structure; both are deterministic for a fixed structure.
   */
  datatype Structure = Structure(sites: seq<Site>, periodic: bool, energy: real, fingerprint: Descriptor)

  /** The tag `_acc_rej` attached to history lines and archive records. */
  datatype Tag = Initial | Inter | Same | Accepted | Rejected | NA

  /** An archive record: a structure snapshot, its descriptor, its visit count and the search parameters when it was recorded. */
  datatype Minimum = Minimum(atoms: Structure, nVisit: int, fingerprint: Descriptor, temperature: real, ediff: real, tag: Tag)

  /** The sort key of a record: records are ordered by potential energy only. */
  function Key(m: Minimum): real
  {
    m.atoms.energy
  }

  /** The descriptor shape fixed for one run by the system's periodicity and size. */
  datatype Shape = VectorShape(len: nat) | MatrixShape(rows: nat, width: nat)

  predicate HasShape(d: Descriptor, s: Shape)
  {
    match s
    case VectorShape(n) => d.Vector? && |d.v| == n
    case MatrixShape(r, w) => d.Matrix? && |d.rows| == r && forall i :: 0 <= i < r ==> |d.rows[i]| == w
  }

  /** `desc.shape[0]`, the divisor of the normalised distance. */
  function Rows(d: Descriptor): (n: nat)
    requires d.Vector? || d.Matrix?
  {
    if d.Vector? then |d.v| else |d.rows|
  }

  /** A shape with at least one row, so the normalised distance is defined. */
  predicate NonEmptyShape(s: Shape)
  {
    match s
    case VectorShape(n) => n > 0
    case MatrixShape(r, _) => r > 0
  }

  lemma {:induction false} ShapeRows(d: Descriptor, s: Shape)
    requires HasShape(d, s) && NonEmptyShape(s)
    ensures (d.Vector? || d.Matrix?) && Rows(d) > 0
  {
  }

  /**
   * The species filter applied before the fingerprint is computed: the sites whose
   * symbol is not excluded, in their original order.
   */
  function SelectSites(sites: seq<Site>, exclude: seq<string>): (r: seq<Site>)
    ensures |r| <= |sites|
    ensures forall s :: s in r ==> s in sites && s.symbol !in exclude
    ensures forall s :: s in sites && s.symbol !in exclude ==> s in r
  {
    if sites == [] then []
    else if sites[0].symbol in exclude then SelectSites(sites[1..], exclude)
    else [sites[0]] + SelectSites(sites[1..], exclude)
  }

  /**
   * The filter keeps the order of the kept sites: filtering a concatenation is the
   * concatenation of the filtered parts.
   */
  lemma {:induction false} SelectSitesKeepsOrder(a: seq<Site>, b: seq<Site>, exclude: seq<string>)
    ensures SelectSites(a + b, exclude) == SelectSites(a, exclude) + SelectSites(b, exclude)
  {
    if a == [] {
      assert a + b == b;
    } else {
      assert (a + b)[0] == a[0];
      assert (a + b)[1..] == a[1..] + b;
      SelectSitesKeepsOrder(a[1..], b, exclude);
    }
  }
}
