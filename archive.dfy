/**
 * The energy-ordered archive of minima: bisection for the insertion point after
 * equal keys, sorted insertion, the full sort used on restart, and the selection of
 * the lowest-energy once-visited records that are written as snapshot files.
 */
module Archive {
  import opened Structures
  import opened Decimal

  /** Non-decreasing in energy. */
  predicate Sorted(a: seq<Minimum>)
  {
    forall i, j :: 0 <= i < j < |a| ==> Key(a[i]) <= Key(a[j])
  }

  /**
   * The insertion point after equal keys: every record before it has a key at most e,
   * every record from it on a key above e.
   */
  function UpperBound(a: seq<Minimum>, e: real): (k: nat)
    requires Sorted(a)
    ensures k <= |a|
    ensures forall i :: 0 <= i < k ==> Key(a[i]) <= e
    ensures forall i :: k <= i < |a| ==> e < Key(a[i])
  {
    if a == [] || e < Key(a[0]) then 0
    else
      var k := UpperBound(a[1..], e);
      assert forall i :: 1 <= i < |a| ==> a[i] == a[1..][i - 1];
      1 + k
  }

  /** The insertion point is determined by the partition it makes. */
  lemma {:induction false} UpperBoundUnique(a: seq<Minimum>, e: real, k: nat)
    requires Sorted(a) && k <= |a|
    requires forall i :: 0 <= i < k ==> Key(a[i]) <= e
    requires forall i :: k <= i < |a| ==> e < Key(a[i])
    ensures k == UpperBound(a, e)
  {
    var u := UpperBound(a, e);
    var m := if k < u then k else u;
    if m < |a| {
      assert (m < k) == (Key(a[m]) <= e) == (m < u);
    }
  }

  /** `bisect.bisect(a, x)`: binary search for the insertion point after records with x's key. */
  method Bisect(a: seq<Minimum>, x: Minimum) returns (lo: nat)
    requires Sorted(a)
    ensures lo == UpperBound(a, Key(x))
  {
    lo := 0;
    var hi := |a|;
    while lo < hi
      invariant 0 <= lo <= hi <= |a|
      invariant forall i :: 0 <= i < lo ==> Key(a[i]) <= Key(x)
      invariant forall i :: hi <= i < |a| ==> Key(x) < Key(a[i])
      decreases hi - lo
    {
      var mid := (lo + hi) / 2;
      if Key(x) < Key(a[mid]) {
        hi := mid;
      } else {
        lo := mid + 1;
      }
    }
    UpperBoundUnique(a, Key(x), lo);
  }

  /** `bisect.insort(a, x)`: x inserted after every record whose key is at most its own. */
  function Insort(a: seq<Minimum>, x: Minimum): (b: seq<Minimum>)
    requires Sorted(a)
    ensures Sorted(b)
    ensures multiset(b) == multiset(a) + multiset{x}
    ensures |b| == |a| + 1
    ensures var k := UpperBound(a, Key(x));
            b[k] == x && (forall i :: 0 <= i < k ==> Key(b[i]) <= Key(x))
            && (forall i :: k < i < |b| ==> Key(x) < Key(b[i]))
  {
    var k := UpperBound(a, Key(x));
    InsertAt(a, x, k);
    a[..k] + [x] + a[k..]
  }

  /** Inserting at a point that splits the keys at x's own keeps the order and adds x to the records. */
  lemma InsertAt(a: seq<Minimum>, x: Minimum, k: nat)
    requires Sorted(a) && k <= |a|
    requires forall i :: 0 <= i < k ==> Key(a[i]) <= Key(x)
    requires forall i :: k <= i < |a| ==> Key(x) < Key(a[i])
    ensures var b := a[..k] + [x] + a[k..];
            && Sorted(b) && multiset(b) == multiset(a) + multiset{x} && |b| == |a| + 1 && b[k] == x
            && (forall i :: 0 <= i < k ==> b[i] == a[i])
            && (forall i :: k < i < |b| ==> b[i] == a[i - 1])
  {
    InsertPlaces(a, x, k);
    InsertSorted(a, x, k);
    assert a == a[..k] + a[k..];
  }

  /** Where each record lands when x is inserted at k. */
  lemma InsertPlaces(a: seq<Minimum>, x: Minimum, k: nat)
    requires k <= |a|
    ensures var b := a[..k] + [x] + a[k..];
            && |b| == |a| + 1 && b[k] == x
            && (forall i :: 0 <= i < k ==> b[i] == a[i])
            && (forall i :: k < i < |b| ==> b[i] == a[i - 1])
  {
  }

  lemma InsertSorted(a: seq<Minimum>, x: Minimum, k: nat)
    requires Sorted(a) && k <= |a|
    requires forall i :: 0 <= i < k ==> Key(a[i]) <= Key(x)
    requires forall i :: k <= i < |a| ==> Key(x) < Key(a[i])
    ensures Sorted(a[..k] + [x] + a[k..])
  {
    var b := a[..k] + [x] + a[k..];
    InsertPlaces(a, x, k);
    forall i, j | 0 <= i < j < |b| ensures Key(b[i]) <= Key(b[j]) {
      if j < k {
        assert b[i] == a[i] && b[j] == a[j];
      } else if k < i {
        assert b[i] == a[i - 1] && b[j] == a[j - 1];
      }
    }
  }

  /**
   * The stable sort by energy, as repeated insertion after equal keys: records of
   * equal energy keep their archive order.
   */
  function InsortAll(a: seq<Minimum>): (b: seq<Minimum>)
    ensures Sorted(b)
    ensures multiset(b) == multiset(a)
    decreases |a|
  {
    if a == [] then []
    else
      var init := a[..|a| - 1];
      assert a == init + [a[|a| - 1]];
      Insort(InsortAll(init), a[|a| - 1])
  }

  /** The head of the sorted archive has the lowest energy of all records. */
  lemma {:induction false} FirstIsLowest(a: seq<Minimum>)
    requires a != []
    ensures InsortAll(a) != []
    ensures forall m :: m in a ==> Key(InsortAll(a)[0]) <= Key(m)
  {
    var b := InsortAll(a);
    assert a[0] in multiset(b);
    forall m | m in a ensures Key(b[0]) <= Key(m) {
      assert m in multiset(b);
      var j :| 0 <= j < |b| && b[j] == m;
    }
  }

  /** The restart sort `list.sort()`: the records in non-decreasing energy, as a permutation of the input. */
  method SortByEnergy(a: seq<Minimum>) returns (b: seq<Minimum>)
    ensures b == InsortAll(a)
    ensures Sorted(b) && multiset(b) == multiset(a)
  {
    b := [];
    var i := 0;
    while i < |a|
      invariant 0 <= i <= |a|
      invariant b == InsortAll(a[..i])
    {
      InsortAllStep(a, i);
      b := Insort(b, a[i]);
      i := i + 1;
    }
    assert a[..|a|] == a;
  }

  /** Sorting one more record of the archive inserts it into the sorted prefix. */
  lemma {:induction false} InsortAllStep(a: seq<Minimum>, i: nat)
    requires i < |a|
    ensures InsortAll(a[..i + 1]) == Insort(InsortAll(a[..i]), a[i])
  {
    assert a[..i + 1][..i] == a[..i];
  }

  /** The records visited exactly once, in archive order. */
  function Uniques(a: seq<Minimum>): (u: seq<Minimum>)
    ensures |u| <= |a|
  {
    if a == [] then []
    else if a[0].nVisit == 1 then [a[0]] + Uniques(a[1..])
    else Uniques(a[1..])
  }

  /** The once-visited records are exactly the records of the archive with one visit. */
  lemma {:induction false} UniquesMembers(a: seq<Minimum>)
    ensures forall m :: m in Uniques(a) <==> m in a && m.nVisit == 1
  {
    if a != [] {
      UniquesMembers(a[1..]);
      assert a == [a[0]] + a[1..];
      forall m ensures m in Uniques(a) <==> m in a && m.nVisit == 1 {
        assert m in a <==> m == a[0] || m in a[1..];
      }
    }
  }

  lemma {:induction false} UniquesAppend(a: seq<Minimum>, b: seq<Minimum>)
    ensures Uniques(a + b) == Uniques(a) + Uniques(b)
  {
    if a == [] {
      assert a + b == b;
    } else {
      assert (a + b)[0] == a[0];
      assert (a + b)[1..] == a[1..] + b;
      UniquesAppend(a[1..], b);
    }
  }

  /** Taking the once-visited records keeps the energy order. */
  lemma {:induction false} UniquesSorted(a: seq<Minimum>)
    requires Sorted(a)
    ensures Sorted(Uniques(a))
  {
    if a != [] {
      var tail := a[1..];
      assert Sorted(tail) by {
        forall i, j | 0 <= i < j < |tail| ensures Key(tail[i]) <= Key(tail[j]) {
          assert tail[i] == a[i + 1] && tail[j] == a[j + 1];
        }
      }
      UniquesSorted(tail);
      var rest := Uniques(tail);
      if a[0].nVisit == 1 {
        var u := Uniques(a);
        assert u == [a[0]] + rest;
        forall i, j | 0 <= i < j < |u| ensures Key(u[i]) <= Key(u[j]) {
          assert u[j] == rest[j - 1] && rest[j - 1] in rest;
          if i == 0 {
            var m := rest[j - 1];
            UniquesMembers(tail);
            assert m in tail;
            var k :| 0 <= k < |tail| && tail[k] == m;
            assert a[k + 1] == m;
          } else {
            assert u[i] == rest[i - 1];
          }
        }
      }
    }
  }

  function Min(x: int, y: int): int
  {
    if x <= y then x else y
  }

  /**
   * The records the snapshot writer stores. The scan stops after the record that
   * makes the written count exceed `n_poslow + 1`; the test runs after every record,
   * written or not, so a negative `n_poslow` below -1 still inspects the first record.
   */
  function PoslowRecords(a: seq<Minimum>, nPoslow: int): (r: seq<Minimum>)
    ensures nPoslow >= -1 ==> |r| <= nPoslow + 2
    ensures nPoslow < -1 ==> |r| <= 1
    ensures forall m :: m in r ==> m in a && m.nVisit == 1
  {
    UniquesMembers(a);
    UniquesMembers(a[..Min(|a|, 1)]);
    if nPoslow >= -1 then
      var u := Uniques(a);
      u[..Min(|u|, nPoslow + 2)]
    else
      Uniques(a[..Min(|a|, 1)])
  }

  /** A snapshot file: the index its name is made from, and the record written to it. */
  datatype Snapshot = Snapshot(index: nat, record: Minimum)

  /** `minima/min` + the index padded to six digits + `.ascii` (periodic) or `.xyz`. */
  function SnapshotPath(i: nat, periodic: bool): string
  {
    "minima/min" + ZFill6(i) + (if periodic then ".ascii" else ".xyz")
  }

  /** The length of the run of digits in s starting at index k. */
  function DigitRun(s: string, k: nat): (n: nat)
    ensures k + n <= |s| || n == 0
    decreases |s| - k
  {
    if k < |s| && IsDigit(s[k]) then 1 + DigitRun(s, k + 1) else 0
  }

  lemma {:induction false} DigitRunOf(p: string, d: string, x: string, t: nat)
    requires AllDigits(d) && t <= |d| && |x| > 0 && !IsDigit(x[0])
    ensures DigitRun(p + d + x, |p| + t) == |d| - t
    decreases |d| - t
  {
    var s := p + d + x;
    if t < |d| {
      assert s[|p| + t] == d[t];
      DigitRunOf(p, d, x, t + 1);
    } else {
      assert s[|p| + t] == x[0];
    }
  }

  /** Distinct indices give distinct snapshot paths, so no snapshot of one pass overwrites another. */
  lemma {:induction false} SnapshotPathsDistinct(i: nat, j: nat, p: bool, q: bool)
    requires SnapshotPath(i, p) == SnapshotPath(j, q)
    ensures i == j
  {
    var pre := "minima/min";
    var d1, d2 := ZFill6(i), ZFill6(j);
    var x1: string := if p then ".ascii" else ".xyz";
    var x2: string := if q then ".ascii" else ".xyz";
    var s := SnapshotPath(i, p);
    assert s == pre + d1 + x1;
    assert s == pre + d2 + x2;
    DigitRunOf(pre, d1, x1, 0);
    DigitRunOf(pre, d2, x2, 0);
    assert |d1| == |d2|;
    assert d1 == s[|pre|..|pre| + |d1|];
    assert d2 == s[|pre|..|pre| + |d2|];
  }

  /** The path a snapshot is written to. */
  function PathOf(s: Snapshot): string
  {
    SnapshotPath(s.index, s.record.atoms.periodic)
  }

  /** The i-th snapshot holds the i-th record under the i-th file name. */
  predicate WrittenAs(written: seq<Snapshot>, r: seq<Minimum>)
  {
    |written| == |r| && forall i :: 0 <= i < |r| ==> written[i] == Snapshot(i, r[i])
  }

  /** The snapshots of the records r written in turn. */
  function Snapshots(r: seq<Minimum>): (w: seq<Snapshot>)
    ensures |w| == |r|
    decreases |r|
  {
    if |r| == 0 then []
    else Snapshots(r[..|r| - 1]) + [Snapshot(|r| - 1, r[|r| - 1])]
  }

  lemma {:induction false} SnapshotsAppend(r: seq<Minimum>, s: Minimum)
    ensures Snapshots(r + [s]) == Snapshots(r) + [Snapshot(|r|, s)]
  {
    assert (r + [s])[..|r|] == r;
  }

  /** Writing records in turn names the i-th snapshot after i and fills it with the i-th record. */
  lemma {:induction false} SnapshotsWritten(r: seq<Minimum>)
    ensures WrittenAs(Snapshots(r), r)
    decreases |r|
  {
    if |r| > 0 {
      var init := r[..|r| - 1];
      SnapshotsWritten(init);
      assert r == init + [r[|r| - 1]];
      forall i | 0 <= i < |r|
        ensures Snapshots(r)[i] == Snapshot(i, r[i])
      {
        if i < |r| - 1 {
          assert Snapshots(r)[i] == Snapshots(init)[i];
        }
      }
    }
  }

  /** The snapshots written in one pass go to pairwise different files. */
  lemma {:induction false} SnapshotFilesDistinct(r: seq<Minimum>, i: nat, j: nat)
    requires i < |r| && j < |r| && i != j
    ensures PathOf(Snapshots(r)[i]) != PathOf(Snapshots(r)[j])
  {
    SnapshotsWritten(r);
    if PathOf(Snapshots(r)[i]) == PathOf(Snapshots(r)[j]) {
      SnapshotPathsDistinct(i, j, r[i].atoms.periodic, r[j].atoms.periodic);
    }
  }

  /** `_write_poslow`: walks the sorted archive and writes the once-visited records in turn. */
  method WritePoslow(a: seq<Minimum>, nPoslow: int) returns (written: seq<Snapshot>)
    ensures written == Snapshots(PoslowRecords(a, nPoslow))
  {
    written := [];
    var count := 0;
    var k := 0;
    while k < |a|
      invariant 0 <= k <= |a|
      invariant count == |written|
      invariant written == Snapshots(Uniques(a[..k]))
      invariant k > 0 ==> count - 1 <= nPoslow
    {
      var s := a[k];
      UniquesNext(a, k);
      if s.nVisit == 1 {
        SnapshotsAppend(Uniques(a[..k]), s);
        written := written + [Snapshot(count, s)];
        count := count + 1;
      }
      if count - 1 > nPoslow {
        PoslowStop(a, nPoslow, k, count);
        return;
      }
      k := k + 1;
    }
    assert a[..|a|] == a;
    PoslowComplete(a, nPoslow, count);
  }

  /** One more record of the walk adds it to the once-visited records exactly when it was visited once. */
  lemma {:induction false} UniquesNext(a: seq<Minimum>, k: nat)
    requires k < |a|
    ensures a[k].nVisit == 1 ==> Uniques(a[..k + 1]) == Uniques(a[..k]) + [a[k]]
    ensures a[k].nVisit != 1 ==> Uniques(a[..k + 1]) == Uniques(a[..k])
  {
    assert a[..k + 1] == a[..k] + [a[k]];
    UniquesAppend(a[..k], [a[k]]);
    assert [a[k]][1..] == [];
  }

  /** When the scan breaks after record k, what it wrote is exactly the selection. */
  lemma {:induction false} PoslowStop(a: seq<Minimum>, nPoslow: int, k: nat, count: nat)
    requires k < |a| && count == |Uniques(a[..k + 1])| && count - 1 > nPoslow
    requires k > 0 ==> |Uniques(a[..k])| - 1 <= nPoslow
    ensures PoslowRecords(a, nPoslow) == Uniques(a[..k + 1])
  {
    if nPoslow >= -1 {
      StopCount(a, nPoslow, k, count);
      UniquesPrefix(a, k + 1);
    } else {
      assert k == 0;
    }
  }

  /** The break fires the first time the written count reaches `n_poslow + 2`. */
  lemma {:induction false} StopCount(a: seq<Minimum>, nPoslow: int, k: nat, count: nat)
    requires k < |a| && count == |Uniques(a[..k + 1])| && count - 1 > nPoslow >= -1
    requires k > 0 ==> |Uniques(a[..k])| - 1 <= nPoslow
    ensures count == nPoslow + 2
  {
    assert a[..k + 1] == a[..k] + [a[k]];
    UniquesAppend(a[..k], [a[k]]);
  }

  /** The once-visited records of a prefix are a prefix of the once-visited records. */
  lemma {:induction false} UniquesPrefix(a: seq<Minimum>, n: nat)
    requires n <= |a|
    ensures var p := Uniques(a[..n]); |p| <= |Uniques(a)| && Uniques(a)[..|p|] == p
  {
    assert a == a[..n] + a[n..];
    UniquesAppend(a[..n], a[n..]);
  }

  /** When the scan runs to the end, it wrote every once-visited record, which is the selection. */
  lemma {:induction false} PoslowComplete(a: seq<Minimum>, nPoslow: int, count: nat)
    requires count == |Uniques(a)|
    requires |a| > 0 ==> count - 1 <= nPoslow
    ensures PoslowRecords(a, nPoslow) == Uniques(a)
  {
    if nPoslow >= -1 {
      assert Uniques(a)[..|Uniques(a)|] == Uniques(a);
    } else {
      if |a| > 0 {
        assert false;
      }
      assert a[..0] == a;
    }
  }

  /**
   * With a sorted archive and `n_poslow >= -1`, the snapshots are the lowest-energy
   * once-visited records: in energy order, and no unwritten once-visited record lies below any written one.
   */
  lemma {:induction false} PoslowLowest(a: seq<Minimum>, nPoslow: int)
    requires Sorted(a) && nPoslow >= -1
    ensures var r := PoslowRecords(a, nPoslow);
            var u := Uniques(a);
            Sorted(r) && r == u[..|r|]
            && forall i, j :: 0 <= i < |r| <= j < |u| ==> Key(r[i]) <= Key(u[j])
  {
    UniquesSorted(a);
  }
}
