/**
 * The minima hopping controller. Starting from a relaxed structure it repeatedly
 * escapes to a new local minimum (softened MD plus relaxation, heating up while it
 * keeps landing on the start), judges the candidates with the adaptive energy
 * threshold, counts how often the new minimum was seen before, adjusts the
 * temperature by that answer, and files the minimum in the energy-sorted archive.
 */
module MinimaHopping {
  import opened Results
  import opened Structures
  import Settings
  import opened RunTime
  import opened FingerprintFile
  import opened Archive
  import Novelty
  import opened Acceptance
  import opened History
  import opened Escape

  /** Why start-up stops the run (the program raises in each case). */
  datatype StartupError =
    | BadRunTime(timeError: TimeError) // `run_time` is not in the `D-HH:MM:SS` layout
    | PartialRestartFiles             // one of `min.extxyz` and `history.dat` exists without the other
    | FpRead(readError: ReadError)     // reading `fp.dat` failed
    | FpCountMismatch                 // `fp.dat` and `min.extxyz` hold different numbers of entries
    | EmptyFile                       // a list read back from a file is empty where its last or first entry is taken

  /**
   * What a previous run left in `output/`: which files exist, the structures in
   * `acc.extxyz` and `min.extxyz`, the lines of `fp.dat` and of `history.dat`.
   */
  datatype Disk = Disk(
    accExists: bool, minExists: bool, historyExists: bool, fpExists: bool,
    accepted: seq<Structure>, unique: seq<Structure>, fpLines: seq<seq<Sym>>, history: seq<Line>)

  /** How a run ends: the time budget ran out after `steps` hops, or every hop ran and the elapsed time is split up. */
  datatype Ending =
    | TimeUp(steps: nat)
    | Finished(steps: nat, split: (int, int, int, int))

  /**
   * The restart decision: restart when both `min.extxyz` and `history.dat` exist
   * and no fresh start is asked for; exactly one of the two is an error; neither
   * means a new run.
   */
  function RestartDecision(isUnique: bool, isHistory: bool, newStart: bool): (r: Result<bool, StartupError>)
    ensures r.Err? <==> isUnique != isHistory
    ensures r == Ok(true) <==> isUnique && isHistory && !newStart
    ensures r.Err? ==> r.error == PartialRestartFiles
  {
    if isUnique && isHistory then Ok(!newStart)
    else if isUnique != isHistory then Err(PartialRestartFiles)
    else Ok(false)
  }

  /** A record restored from `min.extxyz`: seen once, with the placeholder temperature, threshold and tag. */
  function Restored(atoms: Structure, fp: Descriptor): Minimum
  {
    Minimum(atoms, 1, fp, -100.0, -10.0, NA)
  }

  /** The energies of the archive records, in archive order. */
  function Energies(a: seq<Minimum>): (e: seq<real>)
    ensures |e| == |a|
  {
    seq(|a|, j requires 0 <= j < |a| => Key(a[j]))
  }

  /** Whether each archive record's fingerprint is within the minima threshold of `fp`. */
  function Matches(dist: (Descriptor, Descriptor) -> real, fp: Descriptor, a: seq<Minimum>, thr: real): (h: seq<bool>)
    ensures |h| == |a|
  {
    seq(|a|, j requires 0 <= j < |a| => dist(fp, a[j].fingerprint) < thr)
  }

  /**
   * The backward scan of `_in_history_fp` over the sorted archive `a`, from below
   * index `start` down: the matches it counts and the energy gap it leaves.
   */
  method ScanDown(a: seq<Minimum>, dist: (Descriptor, Descriptor) -> real, fp: Descriptor, minThr: real,
                  ePot: real, thr: real, start: nat) returns (found: nat, gap: real)
    requires start <= |a|
    ensures (found, gap) == Novelty.BackScan(Energies(a), Matches(dist, fp, a, minThr), ePot, thr, start, 0.0)
  {
    ghost var E := Energies(a);
    ghost var hits := Matches(dist, fp, a, minThr);
    ghost var back := Novelty.BackScan(E, hits, ePot, thr, start, 0.0);
    found, gap := 0, 0.0;
    var c: nat := start;
    while gap < thr && c > 0
      invariant c <= start
      invariant found + Novelty.BackScan(E, hits, ePot, thr, c, gap).0 == back.0
      invariant Novelty.BackScan(E, hits, ePot, thr, c, gap).1 == back.1
      decreases c
    {
      c := c - 1;
      var s := a[c];
      assert E[c] == s.atoms.energy && hits[c] == (dist(fp, s.fingerprint) < minThr);
      gap := Novelty.Abs(s.atoms.energy - ePot);
      if dist(fp, s.fingerprint) < minThr {
        found := found + 1;
      }
    }
  }

  /**
   * The forward scan of `_in_history_fp` from above index `start` up, inheriting the
   * gap `gap0` the backward scan left: the matches it counts.
   */
  method ScanUp(a: seq<Minimum>, dist: (Descriptor, Descriptor) -> real, fp: Descriptor, minThr: real,
                ePot: real, thr: real, start: nat, gap0: real) returns (found: nat)
    requires start <= |a|
    ensures found == Novelty.FwdScan(Energies(a), Matches(dist, fp, a, minThr), ePot, thr, start, gap0)
  {
    ghost var E := Energies(a);
    ghost var hits := Matches(dist, fp, a, minThr);
    found := 0;
    var gap := gap0;
    var c := start;
    while gap < thr && c + 1 < |a|
      invariant start <= c <= |a|
      invariant found + Novelty.FwdScan(E, hits, ePot, thr, c, gap) == Novelty.FwdScan(E, hits, ePot, thr, start, gap0)
      decreases |a| - c
    {
      c := c + 1;
      var s := a[c];
      assert E[c] == s.atoms.energy && hits[c] == (dist(fp, s.fingerprint) < minThr);
      gap := Novelty.Abs(s.atoms.energy - ePot);
      if dist(fp, s.fingerprint) < minThr {
        found := found + 1;
      }
    }
  }

  /** What start-up leaves: the start structure, the archive and its sorted copy, the temperature, threshold and earlier history lines. */
  datatype Setup = Setup(atoms: Structure, records: seq<Minimum>, sorted: seq<Minimum>,
                         temperature: real, ediff: real, history: seq<Line>)

  /** The structure a restart starts from: the last accepted one, or the last new one when no accepted file exists. */
  function LastStored(disk: Disk): Option<Structure>
  {
    var list := if disk.accExists then disk.accepted else disk.unique;
    if list == [] then None else Some(list[|list| - 1])
  }

  /** The archive restored from `min.extxyz` paired with the fingerprints read from `fp.dat`. */
  function Paired(unique: seq<Structure>, fps: seq<Descriptor>): seq<Minimum>
    requires |fps| == |unique|
  {
    if unique == [] then []
    else Paired(unique[..|unique| - 1], fps[..|fps| - 1]) + [Restored(unique[|unique| - 1], fps[|fps| - 1])]
  }

  /** The structure re-optimised on a restart with `restart_optim`, as it is. */
  function Reoptimised(a: Structure, restartOptim: bool, opt: Structure -> Structure): Structure
  {
    if restartOptim then opt(a) else a
  }

  /** The archive restored from `min.extxyz` with fingerprints computed afresh, after re-optimisation when asked for. */
  function Recomputed(unique: seq<Structure>, restartOptim: bool, opt: Structure -> Structure): seq<Minimum>
  {
    if unique == [] then []
    else
      var a := Reoptimised(unique[|unique| - 1], restartOptim, opt);
      Recomputed(unique[..|unique| - 1], restartOptim, opt) + [Restored(a, a.fingerprint)]
  }

  /**
   * The restored archive: from `fp.dat` when it exists and no re-optimisation is
   * asked for (read with the shape of the start structure `last`), otherwise with
   * fingerprints computed afresh.
   */
  function RestoredRecords(disk: Disk, last: Structure, restartOptim: bool, opt: Structure -> Structure): Result<seq<Minimum>, StartupError>
  {
    RestoredGrouped(disk, last, |last.sites|, restartOptim, opt)
  }

  /** The restore step with the periodic lines of `fp.dat` grouped `rowCount` at a time. */
  function RestoredGrouped(disk: Disk, last: Structure, rowCount: nat, restartOptim: bool, opt: Structure -> Structure)
    : Result<seq<Minimum>, StartupError>
  {
    if disk.fpExists && !restartOptim then
      match ParseFp(disk.fpLines, last.periodic, rowCount)
      case Err(e) => Err(FpRead(e))
      case Ok(fps) => if |fps| != |disk.unique| then Err(FpCountMismatch) else Ok(Paired(disk.unique, fps))
    else Ok(Recomputed(disk.unique, restartOptim, opt))
  }

  /**
   * The restore step grouping periodic fingerprints by the number of sites the
   * species filter keeps, which is the number of rows the fingerprint code computes.
   */
  function RestoredSelected(disk: Disk, last: Structure, exclude: seq<string>, restartOptim: bool,
                            opt: Structure -> Structure): Result<seq<Minimum>, StartupError>
  {
    RestoredGrouped(disk, last, |SelectSites(last.sites, exclude)|, restartOptim, opt)
  }

  /**
   * The restart branch of `_startup`: the start structure, the restored archive and
   * the rest of the set-up.
   */
  function Resume(disk: Disk, restartOptim: bool, startLowest: bool, opt: Structure -> Structure): Result<Setup, StartupError>
  {
    match LastStored(disk)
    case None => Err(EmptyFile)
    case Some(last) =>
      match RestoredRecords(disk, last, restartOptim, opt)
      case Err(e) => Err(e)
      case Ok(records) => Settle(disk, last, records, restartOptim, startLowest, opt)
  }

  /**
   * The rest of a restart once the archive is restored. Re-optimisation works on the
   * stored structures in place, so when the start structure is the last entry of
   * `min.extxyz` it is optimised once there and once more as the start. With
   * `start_lowest` the head of the sorted archive is the start instead; temperature
   * and threshold come from the last history line.
   */
  function Settle(disk: Disk, last: Structure, records: seq<Minimum>, restartOptim: bool, startLowest: bool,
                  opt: Structure -> Structure): Result<Setup, StartupError>
  {
    var held := if restartOptim && !disk.accExists then opt(last) else last;
    var start := Reoptimised(held, restartOptim, opt);
    var sorted := InsortAll(records);
    if startLowest && sorted == [] then Err(EmptyFile)
    else if disk.history == [] then Err(EmptyFile)
    else
      var line := disk.history[|disk.history| - 1];
      Ok(Setup(if startLowest then sorted[0].atoms else start, records, sorted,
               line.temperature, line.ediff, disk.history))
  }

  /** The fields of the controller `_startup` sets, and nothing else. */
  datatype StartView = StartView(atoms: Structure, atomsCur: Structure, allMinima: seq<Minimum>, allSorted: seq<Minimum>,
                       temperature: real, ediff: real, history: seq<Line>,
                       nMin: nat, nSame: nat, nUnique: nat, nNotUnique: nat, iStep: nat, nVisits: nat, accRej: Tag,
                       intermediate: seq<Structure>, uniqueMinima: seq<Structure>, acceptedMinima: seq<Structure>)

  /**
   * What `_startup` leaves once the set-up b is known: the start structure is also the
   * current minimum, the archive is the restored one, no minimum is counted but the
   * start, and the history ends with the start logged as `Initial`.
   */
  function Started(b: Setup): StartView
  {
    StartView(b.atoms, b.atoms, b.records, b.sorted, b.temperature, b.ediff,
         b.history + [LineOf(b.atoms.energy, 1, b.temperature, b.ediff, 0, 0, 1, Initial)],
         1, 0, 0, 0, 0, 0, Initial, [], [], [])
  }

  /** The error a start-up outcome reports, if any. */
  function ErrorOf<T>(r: Result<T, StartupError>): Option<StartupError>
  {
    if r.Err? then Some(r.error) else None
  }

  /**
   * `_startup` up to its closing history line: the run-time budget is checked, the
   * restart decided, and either the previous run resumed or the given structure
   * relaxed for a new run with an empty archive.
   */
  function Begin(cfg: Settings.Config, budget: Result<int, TimeError>, disk: Disk, opt: Structure -> Structure,
                 atoms: Structure, temperature: real, ediff: real): Result<Setup, StartupError>
  {
    if cfg.runTime != Settings.Unlimited && budget.Err? then Err(BadRunTime(budget.error))
    else
      match RestartDecision(disk.minExists, disk.historyExists, cfg.newStart)
      case Err(e) => Err(e)
      case Ok(restart) =>
        if restart then Resume(disk, cfg.restartOptim, cfg.startLowest, opt)
        else Ok(Setup(opt(atoms), [], [], temperature, ediff, if disk.historyExists then disk.history else []))
  }

  /** Start-up leaves the sorted archive a sorted permutation of the archive. */
  lemma {:induction false} BeginSorted(cfg: Settings.Config, budget: Result<int, TimeError>, disk: Disk,
                                       opt: Structure -> Structure, atoms: Structure, temperature: real, ediff: real)
    requires Begin(cfg, budget, disk, opt, atoms, temperature, ediff).Ok?
    ensures var b := Begin(cfg, budget, disk, opt, atoms, temperature, ediff).value;
            Sorted(b.sorted) && multiset(b.sorted) == multiset(b.records)
  {
    var b := Begin(cfg, budget, disk, opt, atoms, temperature, ediff).value;
    assert b.sorted == InsortAll(b.records);
  }

  /** With `start_lowest` a restart starts from a lowest-energy record of the restored archive. */
  lemma {:induction false} StartLowestIsLowest(disk: Disk, restartOptim: bool, opt: Structure -> Structure)
    requires Resume(disk, restartOptim, true, opt).Ok?
    ensures var r := Resume(disk, restartOptim, true, opt).value;
            forall m :: m in r.records ==> r.atoms.energy <= m.atoms.energy
  {
    var last := LastStored(disk).value;
    var records := RestoredRecords(disk, last, restartOptim, opt).value;
    if records != [] {
      FirstIsLowest(records);
    }
  }

  /**
   * The sorted archive as the source leaves it after the first escape of a restart
   * with `start_lowest`: the start is the head record's own structure, not a copy, and
   * the escape moves that structure in place, so the head record now holds the escaped
   * structure and its energy. The rest of the archive is untouched.
   */
  function AliasedLowest(sorted: seq<Minimum>, escaped: Structure): (r: seq<Minimum>)
    requires sorted != []
    ensures |r| == |sorted| && forall k :: 1 <= k < |r| ==> r[k] == sorted[k]
    ensures r[0].atoms == escaped && Key(r[0]) == escaped.energy
    ensures (r[0].nVisit, r[0].fingerprint, r[0].tag) == (sorted[0].nVisit, sorted[0].fingerprint, sorted[0].tag)
  {
    [sorted[0].(atoms := escaped)] + sorted[1..]
  }

  /**
   * The aliased archive stays sorted exactly when the escaped structure lies no higher
   * than the second record: an escape that climbs above it leaves the sorted archive
   * out of order for every later lookup and insertion.
   */
  lemma {:induction false} AliasedLowestOrder(sorted: seq<Minimum>, escaped: Structure)
    requires Sorted(sorted) && sorted != []
    ensures Sorted(AliasedLowest(sorted, escaped)) <==> |sorted| == 1 || escaped.energy <= Key(sorted[1])
  {
    var r := AliasedLowest(sorted, escaped);
    if |sorted| > 1 && escaped.energy <= Key(sorted[1]) {
      forall i, j | 0 <= i < j < |r|
        ensures Key(r[i]) <= Key(r[j])
      {
        if i == 0 && j > 1 {
          assert Key(sorted[1]) <= Key(sorted[j]);
        }
      }
    } else if |sorted| > 1 {
      assert Key(r[0]) > Key(r[1]);
    }
  }

  /** Archive energies 0.0 and 1.0 and an escape to energy 2.0: the archive is no longer sorted. */
  lemma {:induction false} AliasedLowestExample(a: Structure, b: Structure, escaped: Structure)
    requires a.energy == 0.0 && b.energy == 1.0 && escaped.energy == 2.0
    ensures var sorted := [Restored(a, a.fingerprint), Restored(b, b.fingerprint)];
      Sorted(sorted) && !Sorted(AliasedLowest(sorted, escaped))
  {
    var sorted := [Restored(a, a.fingerprint), Restored(b, b.fingerprint)];
    assert Sorted(sorted);
    AliasedLowestOrder(sorted, escaped);
  }

  /**
   * A restart reads back the fingerprints a previous run appended to `fp.dat`: with
   * one fingerprint per stored structure, periodic ones with one row per site of the
   * start structure, the restored archive pairs every stored structure with its own
   * fingerprint. The row condition holds only when no site is excluded
   * (`ExcludedRestartExample` shows the restart failing otherwise).
   */
  lemma {:induction false} RestoreReadsBack(disk: Disk, last: Structure, opt: Structure -> Structure, fps: seq<Descriptor>)
    requires last.periodic ==> |last.sites| > 0 && forall i :: 0 <= i < |fps| ==> fps[i].Matrix? && |fps[i].rows| == |last.sites|
    requires !last.periodic ==> forall i :: 0 <= i < |fps| ==> fps[i].Vector?
    requires disk.fpExists && disk.fpLines == Lines(WriteAll(fps)) && |fps| == |disk.unique|
    ensures RestoredRecords(disk, last, false, opt) == Ok(Paired(disk.unique, fps))
  {
    ReadWriteRoundTrip(fps, last.periodic, |last.sites|);
  }

  /**
   * Grouping by the selected sites reads back every `fp.dat` the previous run wrote:
   * periodic fingerprints have one row per site the filter keeps.
   */
  lemma {:induction false} RestoreReadsBackSelected(disk: Disk, last: Structure, exclude: seq<string>,
                                                    opt: Structure -> Structure, fps: seq<Descriptor>)
    requires last.periodic ==> var n := |SelectSites(last.sites, exclude)|;
               n > 0 && forall i :: 0 <= i < |fps| ==> fps[i].Matrix? && |fps[i].rows| == n
    requires !last.periodic ==> forall i :: 0 <= i < |fps| ==> fps[i].Vector?
    requires disk.fpExists && disk.fpLines == Lines(WriteAll(fps)) && |fps| == |disk.unique|
    ensures RestoredSelected(disk, last, exclude, false, opt) == Ok(Paired(disk.unique, fps))
  {
    ReadWriteRoundTrip(fps, last.periodic, |SelectSites(last.sites, exclude)|);
  }

  /** With nothing excluded from the start structure, both groupings restore the same archive. */
  lemma {:induction false} SelectedAgreesWhenNothingExcluded(disk: Disk, last: Structure, exclude: seq<string>,
                                                             restartOptim: bool, opt: Structure -> Structure)
    requires forall i :: 0 <= i < |last.sites| ==> last.sites[i].symbol !in exclude
    ensures RestoredSelected(disk, last, exclude, restartOptim, opt) == RestoredRecords(disk, last, restartOptim, opt)
  {
    KeepsAll(last.sites, exclude);
  }

  lemma {:induction false} KeepsAll(sites: seq<Site>, exclude: seq<string>)
    requires forall i :: 0 <= i < |sites| ==> sites[i].symbol !in exclude
    ensures SelectSites(sites, exclude) == sites
  {
    if sites != [] {
      KeepsAll(sites[1..], exclude);
    }
  }

  /**
   * A periodic run of two sites with one excluded writes fingerprints of one row. Two
   * stored structures leave two lines in `fp.dat`, which the restart reads as a single
   * two-row fingerprint and rejects for the count; grouping by the kept sites reads
   * both fingerprints back.
   */
  lemma ExcludedRestartExample(disk: Disk, last: Structure, opt: Structure -> Structure)
    requires last.periodic && last.sites == [Site("H", 1, []), Site("C", 6, [])]
    requires disk.fpExists && |disk.unique| == 2
    requires disk.fpLines == Lines(WriteAll([Matrix([[1.0]]), Matrix([[2.0]])]))
    ensures ParseFp(disk.fpLines, true, |last.sites|) == Ok([Matrix([[1.0], [2.0]])])
    ensures RestoredRecords(disk, last, false, opt) == Err(FpCountMismatch)
    ensures RestoredSelected(disk, last, ["H"], false, opt) == Ok(Paired(disk.unique, [Matrix([[1.0]]), Matrix([[2.0]])]))
  {
    var fps := [Matrix([[1.0]]), Matrix([[2.0]])];
    var merged := [Matrix([[1.0], [2.0]])];
    assert RowsOf(fps) == [[1.0], [2.0]] == RowsOf(merged);
    RowBoundariesUnwritten(fps, merged);
    ReadWriteRoundTrip(merged, true, 2);
    assert SelectSites(last.sites, ["H"]) == [Site("C", 6, [])];
    RestoreReadsBackSelected(disk, last, ["H"], opt, fps);
  }

  /** Restoring the archive on a restart: read `fp.dat` or recompute the fingerprints. */
  method Restore(disk: Disk, last: Structure, restartOptim: bool, opt: Structure -> Structure)
    returns (r: Result<seq<Minimum>, StartupError>)
    ensures r == RestoredRecords(disk, last, restartOptim, opt)
  {
    if disk.fpExists && !restartOptim {
      var fps := ReadFp(disk.fpLines, last.periodic, |last.sites|);
      if fps.Err? {
        return Err(FpRead(fps.error));
      }
      if |fps.value| != |disk.unique| {
        return Err(FpCountMismatch);
      }
      var records := PairRecords(disk.unique, fps.value);
      r := Ok(records);
    } else {
      var records := RecomputeRecords(disk.unique, restartOptim, opt);
      r := Ok(records);
    }
  }

  /** The rest of a restart once the archive is restored. */
  method Settled(disk: Disk, last: Structure, records: seq<Minimum>, restartOptim: bool, startLowest: bool,
                 opt: Structure -> Structure) returns (r: Result<Setup, StartupError>)
    ensures r == Settle(disk, last, records, restartOptim, startLowest, opt)
  {
    var start := last;
    if restartOptim && !disk.accExists {
      // the start structure is the last stored one, which the restore loop optimised in place
      start := opt(start);
    }
    if restartOptim {
      start := opt(start);
    }
    var sorted := SortByEnergy(records);
    if startLowest {
      if sorted == [] {
        return Err(EmptyFile);
      }
      start := sorted[0].atoms;
    }
    if disk.history == [] {
      return Err(EmptyFile);
    }
    var line := disk.history[|disk.history| - 1];
    r := Ok(Setup(start, records, sorted, line.temperature, line.ediff, disk.history));
  }

  /** The restart branch of `_startup`. */
  method Resumed(disk: Disk, restartOptim: bool, startLowest: bool, opt: Structure -> Structure)
    returns (r: Result<Setup, StartupError>)
    ensures r == Resume(disk, restartOptim, startLowest, opt)
  {
    var list := if disk.accExists then disk.accepted else disk.unique;
    if list == [] {
      return Err(EmptyFile);
    }
    var last := list[|list| - 1];
    assert LastStored(disk) == Some(last);
    var records := Restore(disk, last, restartOptim, opt);
    if records.Err? {
      return Err(records.error);
    }
    r := Settled(disk, last, records.value, restartOptim, startLowest, opt);
  }

  /** `_startup` up to its closing history line: the run-time check, then a restart or a new run. */
  method Begun(cfg: Settings.Config, budget: Result<int, TimeError>, disk: Disk, opt: Structure -> Structure,
               atoms: Structure, temperature: real, ediff: real) returns (r: Result<Setup, StartupError>)
    ensures r == Begin(cfg, budget, disk, opt, atoms, temperature, ediff)
  {
    if cfg.runTime != Settings.Unlimited && budget.Err? {
      return Err(BadRunTime(budget.error));
    }
    var decision := RestartDecision(disk.minExists, disk.historyExists, cfg.newStart);
    if decision.Err? {
      return Err(decision.error);
    }
    if decision.value {
      r := Resumed(disk, cfg.restartOptim, cfg.startLowest, opt);
    } else {
      r := Ok(Setup(opt(atoms), [], [], temperature, ediff, if disk.historyExists then disk.history else []));
    }
  }

  /** The restore loop over `fp.dat` and `min.extxyz` side by side. */
  method PairRecords(unique: seq<Structure>, fps: seq<Descriptor>) returns (records: seq<Minimum>)
    requires |fps| == |unique|
    ensures records == Paired(unique, fps)
  {
    records := [];
    for i := 0 to |unique|
      invariant records == Paired(unique[..i], fps[..i])
    {
      assert unique[..i + 1][..i] == unique[..i] && fps[..i + 1][..i] == fps[..i];
      records := records + [Restored(unique[i], fps[i])];
    }
    assert unique[..|unique|] == unique && fps[..|fps|] == fps;
  }

  /** The restore loop that recomputes fingerprints, re-optimising each structure first when asked to. */
  method RecomputeRecords(unique: seq<Structure>, restartOptim: bool, opt: Structure -> Structure) returns (records: seq<Minimum>)
    ensures records == Recomputed(unique, restartOptim, opt)
  {
    records := [];
    for i := 0 to |unique|
      invariant records == Recomputed(unique[..i], restartOptim, opt)
    {
      var atom := unique[i];
      if restartOptim {
        atom := opt(atom);
      }
      assert unique[..i + 1][..i] == unique[..i];
      records := records + [Restored(atom, atom.fingerprint)];
    }
    assert unique[..|unique|] == unique;
  }

  class Minimahopping {
    const cfg: Settings.Config
    const phys: Physics
    const budget: Result<int, TimeError>  // the run-time setting read by `_get_sec`

    var atoms: Structure          // the structure the next escape starts from
    var atomsCur: Structure       // the current (last accepted) minimum
    var fp: Descriptor            // the fingerprint of the last relaxed structure
    var temperature: real
    var ediff: real
    var dt: real
    var noise: real
    var counter: nat              // hops done
    var nMin: nat                 // minima found, the start included
    var nSame: nat                // escape attempts that did not leave the start
    var nUnique: nat              // new minima
    var nNotUnique: nat           // minima seen before
    var iStep: nat
    var nVisits: nat
    var accRej: Tag
    var runTimeSec: int
    var intermediate: seq<Structure>
    var allMinima: seq<Minimum>
    var allSorted: seq<Minimum>
    var uniqueMinima: seq<Structure>
    var acceptedMinima: seq<Structure>
    var history: seq<Line>        // the lines of `history.dat`
    var fpFile: seq<Sym>          // what this run appended to `fp.dat`
    var poslow: seq<Snapshot>     // the snapshot files written by the last hop

    /** The gates of the escape loop. */
    function GatesOf(): Gates
    {
      Gates(cfg.minimaThreshold, cfg.energyThreshold)
    }

    /** The fields the escape loop reads and writes. */
    function EscSnap(): EscState
      reads this
    {
      EscState(atoms, temperature, dt, noise, fp, ediff, nMin, nSame, nNotUnique, nVisits, accRej, history)
    }

    /** The history line the current state logs. */
    function CurrentLine(): Line
      reads this
    {
      LineOf(atoms.energy, nVisits, temperature, ediff, nNotUnique, nSame, nMin, accRej)
    }

    /** The fields start-up sets. */
    function StartFields(): StartView
      reads this
    {
      StartView(atoms, atomsCur, allMinima, allSorted, temperature, ediff, history,
           nMin, nSame, nUnique, nNotUnique, iStep, nVisits, accRej, intermediate, uniqueMinima, acceptedMinima)
    }

    /** The archive record of the current structure. */
    function Record(): Minimum
      reads this
    {
      Minimum(atoms, nVisits, fp, temperature, ediff, accRej)
    }

    /**
     * Between hops: the sorted archive is a sorted permutation of the archive, every
     * found minimum but the first is counted exactly once as a repeat, a known or a
     * new minimum, and every new minimum is kept.
     */
    ghost predicate Valid()
      reads this
    {
      Archived() && Counted()
    }

    /** The sorted archive is the archive in energy order. */
    ghost predicate Archived()
      reads this
    {
      Sorted(allSorted) && multiset(allMinima) == multiset(allSorted)
    }

    /** Every minimum found but the start is counted once as a repeat, a known one or a new one. */
    ghost predicate Counted()
      reads this
    {
      nMin >= 1 && nSame + nUnique + nNotUnique + 1 == nMin && |uniqueMinima| == nUnique
    }

    /** `__init__` with the merged settings: the temperature and threshold start at `T0` and `Ediff0`. */
    constructor (start: Structure, config: Settings.Config, physics: Physics)
      ensures cfg == config && phys == physics && budget == GetSec(config.runTime) && atoms == start
      ensures temperature == config.t0 && ediff == config.ediff0 && dt == config.dt && counter == 0
    {
      cfg := config;
      phys := physics;
      budget := GetSec(config.runTime);
      atoms := start;
      atomsCur := start;
      fp := start.fingerprint;
      temperature := config.t0;
      ediff := config.ediff0;
      dt := config.dt;
      noise := 0.0;
      counter := 0;
      nMin := 1;
      nSame := 0;
      nUnique := 0;
      nNotUnique := 0;
      iStep := 0;
      nVisits := 0;
      accRej := NA;
      runTimeSec := 0;
      intermediate := [];
      allMinima := [];
      allSorted := [];
      uniqueMinima := [];
      acceptedMinima := [];
      history := [];
      fpFile := [];
      poslow := [];
    }

    /**
     * `_startup`: checks the run-time budget, resumes the previous run or relaxes the
     * given structure for a new one, starts the counters and the archive from there, and
     * logs the start structure as `Initial`. The archive invariant holds afterwards.
     */
    method Startup(disk: Disk) returns (err: Option<StartupError>)
      modifies this
      ensures err == ErrorOf(Begin(cfg, budget, disk, phys.opt, old(atoms), old(temperature), old(ediff)))
      ensures err.None? ==> StartFields() == Started(Begin(cfg, budget, disk, phys.opt, old(atoms), old(temperature), old(ediff)).value)
      ensures err.None? && cfg.runTime != Settings.Unlimited ==> budget.Ok? && runTimeSec == budget.value
      ensures counter == old(counter)
    {
      var begun := Begun(cfg, budget, disk, phys.opt, atoms, temperature, ediff);
      if begun.Err? {
        return Some(begun.error);
      }
      if cfg.runTime != Settings.Unlimited {
        runTimeSec := budget.value;
      }
      Install(begun.value);
      err := None;
    }

    /** The state `_startup` leaves behind satisfies the invariant of the hop loop. */
    lemma StartedValid(b: Setup)
      requires Sorted(b.sorted) && multiset(b.sorted) == multiset(b.records)
      requires StartFields() == Started(b)
      ensures Valid()
    {
    }

    /** The whole state `_startup` leaves behind for a set-up. */
    method Install(b: Setup)
      modifies this`atoms, this`atomsCur, this`temperature, this`ediff, this`history, this`nVisits, this`accRej,
               this`nMin, this`nSame, this`nUnique, this`nNotUnique,
               this`uniqueMinima, this`acceptedMinima, this`intermediate, this`iStep, this`allMinima, this`allSorted
      ensures StartFields() == Started(b)
    {
      InstallStart(b);
      InstallArchive(b);
    }

    /** The start structure, search parameters and counters `_startup` leaves behind, logged as `Initial`. */
    method InstallStart(b: Setup)
      modifies this`atoms, this`atomsCur, this`temperature, this`ediff, this`history, this`nVisits, this`accRej,
               this`nMin, this`nSame, this`nUnique, this`nNotUnique
      ensures atoms == b.atoms && atomsCur == b.atoms && temperature == b.temperature && ediff == b.ediff
      ensures history == b.history + [LineOf(b.atoms.energy, 1, b.temperature, b.ediff, 0, 0, 1, Initial)]
      ensures (nMin, nSame, nUnique, nNotUnique, nVisits, accRej) == (1, 0, 0, 0, 0, Initial)
    {
      atoms, atomsCur := b.atoms, b.atoms;
      temperature, ediff, history := b.temperature, b.ediff, b.history;
      nMin, nSame, nUnique, nNotUnique := 1, 0, 0, 0;
      nVisits := 1;
      accRej := Initial;
      HistoryLog();
    }

    /** The archive `_startup` leaves behind once the set-up is known; with no minimum counted yet, the invariant holds. */
    method InstallArchive(b: Setup)
      modifies this`uniqueMinima, this`acceptedMinima, this`intermediate, this`iStep, this`allMinima, this`allSorted
      ensures allMinima == b.records && allSorted == b.sorted
      ensures iStep == 0 && intermediate == [] && uniqueMinima == [] && acceptedMinima == []
    {
      uniqueMinima, acceptedMinima, intermediate := [], [], [];
      iStep := 0;
      allMinima, allSorted := b.records, b.sorted;
    }


    /**
     * `__call__`: start-up, then hops while the hop counter is at most `totalsteps`,
     * stopping early after the first hop that finds the elapsed time (`elapsed(c)` once
     * c hops are done) over a limited budget. A run that is not cut short ends with the
     * final elapsed time split into days, hours, minutes and seconds and reports
     * `totalsteps` hops, although it ran one more.
     */
    method Run(totalsteps: nat, disk: Disk, elapsed: nat -> real, finalElapsed: real)
      returns (r: Result<Ending, StartupError>)
      requires AlwaysEscapes() && ShapesFingerprints(phys) && Gated()
      modifies this
      ensures var b := Begin(cfg, budget, disk, phys.opt, old(atoms), old(temperature), old(ediff));
              (r.Err? <==> b.Err?) && (r.Err? ==> r.error == b.error)
      ensures r.Ok? ==> Valid() && counter >= old(counter)
      ensures r.Ok? && cfg.runTime != Settings.Unlimited ==>
                forall c :: old(counter) < c < counter ==> elapsed(c) <= runTimeSec as real
      ensures r.Ok? && r.value.TimeUp? ==>
                && cfg.runTime != Settings.Unlimited && old(counter) < r.value.steps == counter <= totalsteps + 1
                && elapsed(counter) > runTimeSec as real
      ensures r.Ok? && r.value.Finished? ==>
                && counter == (if old(counter) > totalsteps then old(counter) else totalsteps + 1)
                && r.value == Finished(totalsteps, SplitElapsed(finalElapsed.Floor))
    {
      ghost var atoms0, temperature0, ediff0 := atoms, temperature, ediff;
      var err := Startup(disk);
      if err.Some? {
        return Err(err.value);
      }
      BeginSorted(cfg, budget, disk, phys.opt, atoms0, temperature0, ediff0);
      StartedValid(Begin(cfg, budget, disk, phys.opt, atoms0, temperature0, ediff0).value);
      var ending := Hops(totalsteps, elapsed, finalElapsed);
      r := Ok(ending);
    }

    /** The hop loop of `__call__` and the way it ends. */
    method Hops(totalsteps: nat, elapsed: nat -> real, finalElapsed: real) returns (e: Ending)
      requires Valid() && AlwaysEscapes() && ShapesFingerprints(phys) && Gated()
      modifies this`atoms, this`temperature, this`dt, this`noise, this`fp, this`nMin, this`nSame, this`accRej,
               this`history, this`nVisits, this`intermediate, this`ediff, this`atomsCur, this`iStep,
               this`nNotUnique, this`nUnique, this`uniqueMinima, this`fpFile, this`acceptedMinima,
               this`allMinima, this`allSorted, this`poslow, this`counter
      ensures Valid() && counter >= old(counter)
      ensures cfg.runTime != Settings.Unlimited ==>
                forall c :: old(counter) < c < counter ==> elapsed(c) <= runTimeSec as real
      ensures e.TimeUp? ==>
                && cfg.runTime != Settings.Unlimited && old(counter) < e.steps == counter <= totalsteps + 1
                && elapsed(counter) > runTimeSec as real
      ensures e.Finished? ==>
                && counter == (if old(counter) > totalsteps then old(counter) else totalsteps + 1)
                && e == Finished(totalsteps, SplitElapsed(finalElapsed.Floor))
    {
      ghost var c0 := counter;
      while counter <= totalsteps
        invariant Valid() && c0 <= counter && (counter <= totalsteps + 1 || counter == c0)
        invariant cfg.runTime != Settings.Unlimited ==> forall c :: c0 < c <= counter ==> elapsed(c) <= runTimeSec as real
        decreases totalsteps + 1 - counter
      {
        var attempts := Hop();
        if cfg.runTime != Settings.Unlimited && elapsed(counter) > runTimeSec as real {
          return TimeUp(counter);
        }
      }
      e := Finished(totalsteps, SplitElapsed(finalElapsed.Floor));
    }

    /** Some gate is positive, so the escape loop runs at least once per hop. */
    predicate Gated()
    {
      cfg.minimaThreshold > 0.0 || cfg.energyThreshold > 0.0
    }

    /** The escape loop ends from any state. */
    ghost predicate AlwaysEscapes()
    {
      forall st :: Escapes(phys, st, GatesOf())
    }

    /**
     * One hop of `__call__`: escape, judge the candidates, count the visits of the new
     * minimum, adjust the temperature, archive it, write the lowest snapshots, log the
     * hop, and go on from the current minimum. The hop adds the escape's attempts to the
     * minima found and counts the new minimum once as known or new; it keeps both
     * archive invariants and closes the history with the verdict of the hop.
     */
    method Hop() returns (attempts: nat)
      requires Archived() && Escapes(phys, EscSnap(), GatesOf()) && ShapesFingerprints(phys) && Gated()
      modifies this`atoms, this`temperature, this`dt, this`noise, this`fp, this`nMin, this`nSame, this`accRej,
               this`history, this`nVisits, this`intermediate, this`ediff, this`atomsCur, this`iStep,
               this`nNotUnique, this`nUnique, this`uniqueMinima, this`fpFile, this`acceptedMinima,
               this`allMinima, this`allSorted, this`poslow, this`counter
      ensures FirstEscape(phys, old(EscSnap()), GatesOf(), attempts) && attempts > 0
      ensures (counter, iStep, nMin, nSame) == (old(counter) + 1, old(iStep) + 1, old(nMin) + attempts, old(nSame) + attempts - 1)
      ensures nUnique + nNotUnique == old(nUnique) + old(nNotUnique) + 1
      ensures atoms == atomsCur
      ensures |allMinima| == |old(allMinima)| + 1 && allMinima[..|old(allMinima)|] == old(allMinima)
      ensures |history| == |old(history)| + attempts + 1 && history[..|old(history)|] == old(history)
      ensures history[|history| - 1].tag == accRej && (accRej == Accepted || accRej == Rejected)
      ensures Archived() && (old(Counted()) ==> Counted())
    {
      attempts := HopEscape();
      ghost var found, same := nMin, nSame;
      Judge();
      Keep();
      assert (nMin, nSame) == (found, same);
    }

    /**
     * The escape of a hop: the state the attempt chain leaves after the first passing
     * attempt count, closed by the `Inter` line; at least one attempt, counted, leaving
     * a fingerprint and the new minimum as the last candidate.
     */
    method HopEscape() returns (attempts: nat)
      requires Escapes(phys, EscSnap(), GatesOf()) && ShapesFingerprints(phys) && Gated()
      modifies this`atoms, this`temperature, this`dt, this`noise, this`fp, this`nMin, this`nSame,
               this`accRej, this`history, this`nVisits, this`intermediate
      ensures FirstEscape(phys, old(EscSnap()), GatesOf(), attempts) && attempts > 0
      ensures (nMin, nSame, nNotUnique) == (old(nMin) + attempts, old(nSame) + attempts - 1, old(nNotUnique))
      ensures |history| == |old(history)| + attempts && history[..|old(history)|] == old(history)
      ensures WellShaped(fp) && intermediate == old(intermediate) + [atoms]
      ensures atoms == Attempt(phys, old(EscSnap()), attempts - 1).atoms && temperature == Heated(old(temperature), attempts - 1)
    {
      ghost var s := EscSnap();
      attempts := Escape();
      EscapeDone(s, attempts);
    }

    /** What an escape of `attempts` passes from s leaves behind: at least one attempt, counted, and its fingerprint. */
    lemma EscapeDone(s: EscState, attempts: nat)
      requires FirstEscape(phys, s, GatesOf(), attempts) && ShapesFingerprints(phys) && Gated()
      ensures attempts > 0
      ensures var st := Finish(Steps(phys, s, attempts));
              && st.nMin == s.nMin + attempts && st.nSame == s.nSame + attempts - 1 && st.nNotUnique == s.nNotUnique
              && WellShaped(st.fp) && st.temperature == Heated(s.temperature, attempts - 1)
              && st.atoms == Attempt(phys, s, attempts - 1).atoms
              && |st.history| == |s.history| + attempts && st.history[..|s.history|] == s.history
    {
      AttemptsAtLeastOnce(phys, s, GatesOf(), attempts);
      StepsCounters(phys, s, attempts);
      StepsAttempts(phys, s, attempts);
      AttemptShaped(phys, s, attempts - 1);
      StepsHistory(phys, s, attempts);
      var st := Steps(phys, s, attempts);
      assert Finish(st).history == s.history + (RepeatLines(phys, s, attempts - 1) + [Finish(st).history[|st.history|]]);
    }

    /**
     * The judging part of a hop: the candidates are accepted or rejected, the hop is
     * counted and the visits of the new minimum are counted; the verdict on the last
     * candidate is the tag of the hop.
     */
    method Judge()
      requires intermediate != [] && Sorted(allSorted)
      modifies this`ediff, this`atomsCur, this`accRej, this`intermediate, this`iStep, this`nVisits
      ensures accRej == Accepted || accRej == Rejected
      ensures iStep == old(iStep) + 1 && nVisits >= 1
    {
      ghost var init := AccState(ediff, atomsCur, accRej, intermediate);
      ghost var candidates := intermediate;
      ghost var eCur := atomsCur.energy;
      AccRejStep();
      PassTag(init, candidates, |candidates|, eCur, cfg.alphaA, cfg.alphaR);
      HopLog();
      nVisits := InHistoryFp();
    }

    /** The second half of a hop: temperature, archive, snapshots, history line and the next start. */
    method Keep()
      requires Archived() && WellShaped(fp)
      modifies this`nNotUnique, this`nUnique, this`temperature, this`uniqueMinima, this`fpFile,
               this`acceptedMinima, this`allMinima, this`allSorted, this`poslow, this`history, this`nVisits,
               this`atoms, this`counter
      ensures nUnique + nNotUnique == old(nUnique) + old(nNotUnique) + 1
      ensures |uniqueMinima| - nUnique == |old(uniqueMinima)| - old(nUnique)
      ensures temperature == Adjusted(old(temperature), old(nVisits))
      ensures uniqueMinima == old(uniqueMinima) + (if old(nVisits) > 1 then [] else [old(atoms)])
      ensures acceptedMinima == old(acceptedMinima) + (if accRej == Accepted then [old(atoms)] else [])
      ensures allMinima == old(allMinima) + [Minimum(old(atoms), old(nVisits), fp, temperature, ediff, accRej)]
      ensures history == old(history) + [LineOf(old(atoms.energy), old(nVisits), temperature, ediff, nNotUnique, nSame, nMin, accRej)]
      ensures atoms == atomsCur && counter == old(counter) + 1
      ensures Archived()
    {
      var c := counter + 1;
      Feedback();
      Store();
      ghost var record, line, kept, sorted := Record(), CurrentLine(), uniqueMinima, allSorted;
      HistoryLog();
      atoms := atomsCur;
      counter := c;
      assert record == Minimum(old(atoms), old(nVisits), fp, temperature, ediff, accRej);
      assert (uniqueMinima, allSorted) == (kept, sorted);
      assert history == old(history) + [line];
    }

    /** The temperature `_adj_temperature` leaves: raised for a minimum seen before, lowered for a new one. */
    function Adjusted(t: real, visits: int): real
    {
      if visits > 1 then
        if cfg.enhancedFeedback then t * cfg.betaIncrease * (1.0 + phys.ln(visits as real)) else t * cfg.betaIncrease
      else t * cfg.betaDecrease
    }

    /**
     * The temperature feedback counts the new minimum once, as known or as new; a new
     * one is kept and its fingerprint appended to `fp.dat`.
     */
    method Feedback()
      requires WellShaped(fp)
      modifies this`nNotUnique, this`nUnique, this`temperature, this`uniqueMinima, this`fpFile
      ensures nUnique + nNotUnique == old(nUnique) + old(nNotUnique) + 1
      ensures |uniqueMinima| - nUnique == |old(uniqueMinima)| - old(nUnique)
      ensures temperature == Adjusted(old(temperature), nVisits)
      ensures uniqueMinima == old(uniqueMinima) + (if nVisits > 1 then [] else [atoms])
      ensures fpFile == old(fpFile) + (if nVisits > 1 then [] else WriteFp(fp))
    {
      AdjTemperature();
    }

    /**
     * Archiving the new minimum and writing the snapshots: the record joins the archive
     * and is inserted into the sorted archive after equal energies, which stays a sorted
     * permutation of the archive; the snapshots are those of the new sorted archive.
     */
    method Store()
      requires Archived()
      modifies this`acceptedMinima, this`allMinima, this`allSorted, this`poslow
      ensures acceptedMinima == old(acceptedMinima) + (if accRej == Accepted then [atoms] else [])
      ensures allMinima == old(allMinima) + [Record()] && allSorted == Insort(old(allSorted), Record())
      ensures poslow == Snapshots(PoslowRecords(allSorted, cfg.nPoslow))
      ensures |allMinima| == |old(allMinima)| + 1 && allMinima[..|old(allMinima)|] == old(allMinima)
      ensures Archived()
    {
      UpdateData();
      WritePoslow();
    }

    /** `_history_log`: one line for the current state; the visit count is then cleared. */
    method HistoryLog()
      modifies this`history, this`nVisits
      ensures history == old(history) + [old(CurrentLine())]
      ensures nVisits == 0
    {
      history := history + [CurrentLine()];
      nVisits := 0;
    }

    /** `_hoplog`: counts the hop step. */
    method HopLog()
      modifies this`iStep
      ensures iStep == old(iStep) + 1
    {
      iStep := iStep + 1;
    }

    /**
     * `_escape`: attempts from the current structure until the result passes both
     * gates, logging and boosting the temperature on every repeat. The attempt count
     * is returned; the new minimum becomes the structure at hand and joins the
     * candidates, tagged `Inter`. The boosted temperature is kept.
     */
    method Escape() returns (attempts: nat)
      requires Escapes(phys, EscSnap(), GatesOf())
      modifies this`atoms, this`temperature, this`dt, this`noise, this`fp, this`nMin, this`nSame,
               this`accRej, this`history, this`nVisits, this`intermediate
      ensures FirstEscape(phys, old(EscSnap()), GatesOf(), attempts)
      ensures EscSnap() == Finish(Steps(phys, old(EscSnap()), attempts))
      ensures intermediate == old(intermediate) + [atoms]
    {
      attempts := EscapeLoop();
      Conclude();
    }

    /** The loop of `_escape`: passes until the latest minimum passes both gates. */
    method EscapeLoop() returns (attempts: nat)
      requires Escapes(phys, EscSnap(), GatesOf())
      modifies this`atoms, this`temperature, this`dt, this`noise, this`fp, this`nMin, this`nSame,
               this`accRej, this`history, this`nVisits
      ensures FirstEscape(phys, old(EscSnap()), GatesOf(), attempts)
      ensures EscSnap() == Steps(phys, old(EscSnap()), attempts)
    {
      ghost var s := EscSnap();
      ghost var g := GatesOf();
      ghost var n := FirstEscapeOf(phys, s, g);
      var fpIn := atoms.fingerprint;
      var energyIn := atoms.energy;
      var escape, escapeEnergy := 0.0, 0.0;
      attempts := 0;
      EscapeCheck(phys, s, g, n, attempts, EscSnap(), escape, escapeEnergy);
      while escape < cfg.minimaThreshold || escapeEnergy < cfg.energyThreshold
        invariant attempts <= n
        invariant Gauged(phys, s, attempts, EscSnap(), escape, escapeEnergy)
        invariant (escape >= g.minima && escapeEnergy >= g.energy) <==> attempts == n
        decreases n - attempts
      {
        escape, escapeEnergy := EscapePass(s, attempts, fpIn, energyIn);
        attempts := attempts + 1;
        EscapeCheck(phys, s, g, n, attempts, EscSnap(), escape, escapeEnergy);
      }
    }

    /**
     * One pass of the escape loop's body, the i-th (counted from 0) after the start s,
     * with the gauges it computes against the start.
     */
    method EscapePass(ghost s: EscState, i: nat, fpIn: Descriptor, energyIn: real) returns (escape: real, escapeEnergy: real)
      requires EscSnap() == Steps(phys, s, i) && fpIn == s.atoms.fingerprint && energyIn == s.atoms.energy
      modifies this`atoms, this`temperature, this`dt, this`noise, this`fp, this`nMin, this`nSame,
               this`accRej, this`history, this`nVisits
      ensures Gauged(phys, s, i + 1, EscSnap(), escape, escapeEnergy)
    {
      RepeatStep(i);
      AttemptStep();
      escape := phys.dist(fpIn, fp);
      escapeEnergy := Novelty.Abs(energyIn - atoms.energy);
      StepsNext(phys, s, i);
      StepsGauges(phys, s, i + 1);
    }

    /** After the escape loop: the new minimum joins the candidates and is logged as `Inter`. */
    method Conclude()
      modifies this`accRej, this`history, this`nVisits, this`intermediate
      ensures EscSnap() == Finish(old(EscSnap()))
      ensures intermediate == old(intermediate) + [atoms]
    {
      intermediate := intermediate + [atoms];
      accRej := Inter;
      HistoryLog();
    }

    /** The first half of a pass of the escape loop: from the second pass on, count, log and boost a repeat. */
    method RepeatStep(i: nat)
      modifies this`temperature, this`nSame, this`accRej, this`history, this`nVisits
      ensures EscSnap() == Repeated(old(EscSnap()), i)
    {
      if i > 0 {
        nSame := nSame + 1;
        accRej := Same;
        HistoryLog();
        temperature := temperature * BetaS;
      }
    }

    /** The second half of a pass of the escape loop: attempt, and keep the result. */
    method AttemptStep()
      modifies this`atoms, this`dt, this`noise, this`fp, this`nMin
      ensures EscSnap() == Attempted(phys, old(EscSnap()))
    {
      var r := phys.relax(nMin, atoms, temperature, dt);
      atoms, dt, noise := r.atoms, r.dt, r.noise;
      fp := atoms.fingerprint;
      nMin := nMin + 1;
    }

    /**
     * `_acc_rej_step`: judges the candidates in order against the current minimum's
     * energy, captured once before the pass.
     */
    method AccRejStep()
      modifies this`ediff, this`atomsCur, this`accRej, this`intermediate
      ensures AccState(ediff, atomsCur, accRej, intermediate)
              == Pass(old(AccState(ediff, atomsCur, accRej, intermediate)), old(intermediate), |old(intermediate)|,
                      old(atomsCur.energy), cfg.alphaA, cfg.alphaR)
    {
      var eCur := atomsCur.energy;
      var candidates := intermediate;
      ghost var init := AccState(ediff, atomsCur, accRej, intermediate);
      for k := 0 to |candidates|
        invariant AccState(ediff, atomsCur, accRej, intermediate) == Pass(init, candidates, k, eCur, cfg.alphaA, cfg.alphaR)
      {
        var atom := candidates[k];
        if atom.energy - eCur < ediff {
          ediff := ediff * cfg.alphaA;
          atomsCur := atom;
          accRej := Accepted;
          intermediate := [];
        } else {
          ediff := ediff * cfg.alphaR;
          accRej := Rejected;
        }
      }
    }

    /**
     * `_in_history_fp`: bisects for the insertion point of the current structure,
     * then scans down and up the sorted archive counting fingerprint matches.
     */
    method InHistoryFp() returns (count: nat)
      requires Sorted(allSorted)
      ensures count == Novelty.Count(Energies(allSorted), Matches(phys.dist, fp, allSorted, cfg.minimaThreshold),
                                     atoms.energy, cfg.energyThreshold, UpperBound(allSorted, atoms.energy))
    {
      var mini := Minimum(atoms, -1, fp, temperature, ediff, accRej);
      var start := Bisect(allSorted, mini);
      var down, gap := ScanDown(allSorted, phys.dist, fp, cfg.minimaThreshold, atoms.energy, cfg.energyThreshold, start);
      var up := ScanUp(allSorted, phys.dist, fp, cfg.minimaThreshold, atoms.energy, cfg.energyThreshold, start, gap);
      count := 1 + down + up;
    }

    /**
     * `_adj_temperature`: a minimum seen before heats the search (more strongly with
     * enhanced feedback), a new one cools it and is kept and its fingerprint appended
     * to `fp.dat`.
     */
    method AdjTemperature()
      requires WellShaped(fp)
      modifies this`nNotUnique, this`nUnique, this`temperature, this`uniqueMinima, this`fpFile
      ensures nVisits > 1 ==>
                && nNotUnique == old(nNotUnique) + 1 && nUnique == old(nUnique)
                && temperature == (if cfg.enhancedFeedback
                                   then old(temperature) * cfg.betaIncrease * (1.0 + phys.ln(nVisits as real))
                                   else old(temperature) * cfg.betaIncrease)
                && uniqueMinima == old(uniqueMinima) && fpFile == old(fpFile)
      ensures nVisits <= 1 ==>
                && nUnique == old(nUnique) + 1 && nNotUnique == old(nNotUnique)
                && temperature == old(temperature) * cfg.betaDecrease
                && uniqueMinima == old(uniqueMinima) + [atoms] && fpFile == old(fpFile) + WriteFp(fp)
    {
      if nVisits > 1 {
        nNotUnique := nNotUnique + 1;
        if cfg.enhancedFeedback {
          temperature := temperature * cfg.betaIncrease * (1.0 + 1.0 * phys.ln(nVisits as real));
        } else {
          temperature := temperature * cfg.betaIncrease;
        }
      } else {
        nUnique := nUnique + 1;
        temperature := temperature * cfg.betaDecrease;
        uniqueMinima := uniqueMinima + [atoms];
        fpFile := fpFile + WriteFp(fp);
      }
    }

    /**
     * `_update_data`: an accepted minimum is kept as accepted; the record of the
     * current structure is appended to the archive and inserted into the sorted
     * archive after the records of equal energy.
     */
    method UpdateData()
      requires Sorted(allSorted)
      modifies this`acceptedMinima, this`allMinima, this`allSorted
      ensures acceptedMinima == old(acceptedMinima) + (if accRej == Accepted then [atoms] else [])
      ensures allMinima == old(allMinima) + [Record()]
      ensures allSorted == Insort(old(allSorted), Record())
    {
      if accRej == Accepted {
        acceptedMinima := acceptedMinima + [atoms];
      }
      var mini := Record();
      allMinima := allMinima + [mini];
      var k := Bisect(allSorted, mini);
      allSorted := allSorted[..k] + [mini] + allSorted[k..];
    }

    /** `_write_poslow`: the snapshot files of the lowest once-visited records. */
    method WritePoslow()
      modifies this`poslow
      ensures poslow == Snapshots(PoslowRecords(allSorted, cfg.nPoslow))
    {
      poslow := Archive.WritePoslow(allSorted, cfg.nPoslow);
    }
  }
}
