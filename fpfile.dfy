/**
 * The fingerprint cache file `fp.dat`: `_write_fp` appends one descriptor,
 * `_read_fp` reads all of them back. The text is modelled over abstract number
 * tokens: `str(num)` becomes `Num(num)`, and `float` reads it back exactly.
 */
module FingerprintFile {
  import opened Results
  import opened Structures

  datatype Sym = Num(x: real) | Space | Newline

  /** Each number followed by two spaces. */
  function WriteNumbers(v: seq<real>): (t: seq<Sym>)
    ensures Newline !in t
  {
    if v == [] then [] else [Num(v[0]), Space, Space] + WriteNumbers(v[1..])
  }

  /** One line of the file. */
  function WriteRow(v: seq<real>): seq<Sym>
  {
    WriteNumbers(v) + [Newline]
  }

  function WriteRows(rows: seq<seq<real>>): seq<Sym>
  {
    if rows == [] then [] else WriteRow(rows[0]) + WriteRows(rows[1..])
  }

  /**
   * `_write_fp`: a periodic (matrix) fingerprint gets one line per row, a
   * non-periodic (vector) fingerprint a single line. The source chooses the layout
   * by the structure's periodicity; the choice here is by the fingerprint's kind,
   * which agrees because periodic structures have matrix fingerprints and the
   * others vector fingerprints.
   */
  function WriteFp(fp: Descriptor): seq<Sym>
    requires fp.Vector? || fp.Matrix?
  {
    if fp.Matrix? then WriteRows(fp.rows) else WriteRow(fp.v)
  }

  /** The file after `_write_fp` was called once per descriptor, in order (append mode). */
  function WriteAll(fps: seq<Descriptor>): seq<Sym>
    requires forall i :: 0 <= i < |fps| ==> fps[i].Vector? || fps[i].Matrix?
  {
    if fps == [] then [] else WriteFp(fps[0]) + WriteAll(fps[1..])
  }

  /**
   * Iterating over a text file: a line ends after each newline; a last line
   * without a newline still counts when it is not empty. The newline is dropped.
   */
  function Lines(t: seq<Sym>): seq<seq<Sym>>
  {
    if t == [] then []
    else if t[0] == Newline then [[]] + Lines(t[1..])
    else
      var rest := Lines(t[1..]);
      if rest == [] then [[t[0]]] else [[t[0]] + rest[0]] + rest[1..]
  }

  /** `[float(num) for num in line.split()]` */
  function Numbers(line: seq<Sym>): seq<real>
  {
    if line == [] then []
    else if line[0].Num? then [line[0].x] + Numbers(line[1..])
    else Numbers(line[1..])
  }

  function RowValues(lines: seq<seq<Sym>>): (rows: seq<seq<real>>)
    ensures |rows| == |lines|
  {
    seq(|lines|, i requires 0 <= i < |lines| => Numbers(lines[i]))
  }

  /** Consecutive groups of n rows, one matrix each; a trailing incomplete group is dropped. */
  function Group(rows: seq<seq<real>>, n: nat): seq<Descriptor>
    requires n > 0
    decreases |rows|
  {
    if |rows| < n then [] else [Matrix(rows[..n])] + Group(rows[n..], n)
  }

  /** `_read_fp` fails only on a periodic file with lines when the structure has no atoms (`% 0`). */
  datatype ReadError = ZeroAtoms

  /** What `_read_fp` returns for the lines of the file. */
  function ParseFp(lines: seq<seq<Sym>>, periodic: bool, atomCount: nat): Result<seq<Descriptor>, ReadError>
  {
    if !periodic then Ok(seq(|lines|, i requires 0 <= i < |lines| => Vector(Numbers(lines[i]))))
    else if atomCount == 0 then (if lines == [] then Ok([]) else Err(ZeroAtoms))
    else Ok(Group(RowValues(lines), atomCount))
  }

  lemma MulMonotone(a: int, b: int, n: int)
    requires n > 0
    ensures a < b ==> a * n + n <= b * n
  {
    if a < b {
      var d := b - a;
      assert d * n >= n;
      assert b * n == a * n + d * n;
    }
  }

  /** Euclidean division is unique. */
  lemma {:induction false} DivModUnique(x: int, n: int, q: int, r: int)
    requires n > 0 && 0 <= r < n && x == q * n + r
    ensures x % n == r && x / n == q
  {
    var q', r' := x / n, x % n;
    assert x == q' * n + r';
    MulMonotone(q', q, n);
    MulMonotone(q, q', n);
  }

  lemma {:induction false} ModNext(i: nat, n: nat)
    requires n > 0
    ensures (i + 1) % n == (if i % n == n - 1 then 0 else i % n + 1)
  {
    var q, r := i / n, i % n;
    assert i == q * n + r;
    if r == n - 1 {
      assert i + 1 == (q + 1) * n + 0;
      DivModUnique(i + 1, n, q + 1, 0);
    } else {
      DivModUnique(i + 1, n, q, r + 1);
    }
  }

  lemma {:induction false} WholeGroups(i: nat, n: nat)
    requires n > 0
    ensures (i - i % n) % n == 0
  {
    assert i == (i / n) * n + i % n;
    DivModUnique(i - i % n, n, i / n, 0);
  }

  lemma {:induction false} DropGroup(k: nat, n: nat)
    requires n > 0 && k % n == 0 && k > 0
    ensures k >= n && (k - n) % n == 0
  {
    var q := k / n;
    assert k == q * n + 0;
    MulMonotone(q, 1, n);
    assert k - n == (q - 1) * n + 0;
    DivModUnique(k - n, n, q - 1, 0);
  }

  /** Grouping splits at a boundary that is a multiple of n. */
  lemma {:induction false} GroupAppend(s: seq<seq<real>>, t: seq<seq<real>>, n: nat)
    requires n > 0 && |s| % n == 0
    ensures Group(s + t, n) == Group(s, n) + Group(t, n)
    decreases |s|
  {
    if s == [] {
      assert s + t == t;
    } else {
      DropGroup(|s|, n);
      assert (s + t)[..n] == s[..n];
      assert (s + t)[n..] == s[n..] + t;
      GroupAppend(s[n..], t, n);
    }
  }

  /** One line of the periodic reader: it closes a group exactly when `(i + 1) % n == 0`. */
  lemma {:induction false} GroupStep(rows: seq<seq<real>>, i: nat, n: nat)
    requires n > 0 && i < |rows|
    ensures (i + 1) % n == 0 ==>
      i + 1 >= n && i + 1 - n == i - i % n &&
      Group(rows[..i + 1], n) == Group(rows[..i - i % n], n) + [Matrix(rows[i - i % n..i + 1])]
    ensures (i + 1) % n != 0 ==> (i + 1) % n == i % n + 1
  {
    ModNext(i, n);
    if (i + 1) % n == 0 {
      WholeGroups(i, n);
      var b := i - i % n;
      var last := rows[b..i + 1];
      assert rows[..i + 1] == rows[..b] + last;
      GroupAppend(rows[..b], last, n);
      assert last[..n] == last;
    }
  }

  /** `_read_fp`, with the file's lines as input: the accumulator loop of the periodic case. */
  method ReadFp(lines: seq<seq<Sym>>, periodic: bool, atomCount: nat) returns (r: Result<seq<Descriptor>, ReadError>)
    ensures r == ParseFp(lines, periodic, atomCount)
  {
    var fps: seq<Descriptor> := [];
    if periodic {
      if atomCount == 0 {
        // `(i + 1) % nat` raises on the first line
        r := if lines == [] then Ok([]) else Err(ZeroAtoms);
        assert r == ParseFp(lines, periodic, atomCount);
        return;
      }
      var fpArray: seq<seq<real>> := [];
      ghost var rows := RowValues(lines);
      ghost var done := 0;
      var i := 0;
      while i < |lines|
        invariant 0 <= done <= i <= |lines|
        invariant done == i - i % atomCount && |fpArray| == i % atomCount
        invariant fpArray == rows[done..i]
        invariant fps == Group(rows[..done], atomCount)
      {
        var fpVector := Numbers(lines[i]);
        fpArray := fpArray + [fpVector];
        assert fpArray == rows[done..i + 1];
        GroupStep(rows, i, atomCount);
        if (i + 1) % atomCount == 0 {
          fps := fps + [Matrix(fpArray)];
          fpArray := [];
          done := i + 1;
        }
        i := i + 1;
      }
      WholeGroups(i, atomCount);
      assert rows == rows[..done] + fpArray;
      GroupAppend(rows[..done], fpArray, atomCount);
      assert Group(fpArray, atomCount) == [];
      assert fps == Group(rows, atomCount);
      assert ParseFp(lines, periodic, atomCount) == Ok(Group(rows, atomCount));
    } else {
      for i := 0 to |lines|
        invariant fps == seq(i, k requires 0 <= k < i => Vector(Numbers(lines[k])))
      {
        fps := fps + [Vector(Numbers(lines[i]))];
      }
      assert fps == seq(|lines|, i requires 0 <= i < |lines| => Vector(Numbers(lines[i])));
      assert Ok(fps) == ParseFp(lines, periodic, atomCount);
    }
    r := Ok(fps);
  }

  lemma {:induction false} LinesLine(a: seq<Sym>, b: seq<Sym>)
    requires Newline !in a
    ensures Lines(a + [Newline] + b) == [a] + Lines(b)
  {
    if a == [] {
      assert a + [Newline] + b == [Newline] + b;
      assert ([Newline] + b)[1..] == b;
    } else {
      var t := a + [Newline] + b;
      assert t[0] == a[0];
      assert t[1..] == a[1..] + [Newline] + b;
      LinesLine(a[1..], b);
      assert [a[0]] + a[1..] == a;
    }
  }

  lemma {:induction false} NumbersWritten(v: seq<real>)
    ensures Numbers(WriteNumbers(v)) == v
  {
    if v != [] {
      var rest := WriteNumbers(v[1..]);
      var t := WriteNumbers(v);
      NumbersWritten(v[1..]);
      assert t == [Num(v[0])] + ([Space] + ([Space] + rest));
      assert Numbers([Space] + rest) == Numbers(rest) by {
        assert ([Space] + rest)[1..] == rest;
      }
      assert Numbers([Space] + ([Space] + rest)) == Numbers([Space] + rest) by {
        assert ([Space] + ([Space] + rest))[1..] == [Space] + rest;
      }
      assert t[1..] == [Space] + ([Space] + rest);
    }
  }

  /** Each written row reads back as one line with the same numbers. */
  lemma {:induction false} ReadWrittenRows(rows: seq<seq<real>>)
    ensures RowValues(Lines(WriteRows(rows))) == rows
  {
    if rows != [] {
      LinesLine(WriteNumbers(rows[0]), WriteRows(rows[1..]));
      assert WriteRows(rows) == WriteNumbers(rows[0]) + [Newline] + WriteRows(rows[1..]);
      ReadWrittenRows(rows[1..]);
      NumbersWritten(rows[0]);
    }
  }

  lemma {:induction false} WriteRowsAppend(a: seq<seq<real>>, b: seq<seq<real>>)
    ensures WriteRows(a + b) == WriteRows(a) + WriteRows(b)
  {
    if a == [] {
      assert a + b == b;
    } else {
      assert (a + b)[0] == a[0];
      assert (a + b)[1..] == a[1..] + b;
      WriteRowsAppend(a[1..], b);
    }
  }

  /** All rows of a sequence of matrix fingerprints, in file order. */
  function RowsOf(fps: seq<Descriptor>): seq<seq<real>>
    requires forall i :: 0 <= i < |fps| ==> fps[i].Matrix?
  {
    if fps == [] then [] else fps[0].rows + RowsOf(fps[1..])
  }

  lemma {:induction false} WriteAllMatrices(fps: seq<Descriptor>)
    requires forall i :: 0 <= i < |fps| ==> fps[i].Matrix?
    ensures WriteAll(fps) == WriteRows(RowsOf(fps))
  {
    if fps != [] {
      WriteAllMatrices(fps[1..]);
      WriteRowsAppend(fps[0].rows, RowsOf(fps[1..]));
    }
  }

  /**
   * `fp.dat` does not record where one periodic fingerprint ends: matrices holding the
   * same rows in the same order are written as the same text.
   */
  lemma RowBoundariesUnwritten(a: seq<Descriptor>, b: seq<Descriptor>)
    requires forall i :: 0 <= i < |a| ==> a[i].Matrix?
    requires forall i :: 0 <= i < |b| ==> b[i].Matrix?
    requires RowsOf(a) == RowsOf(b)
    ensures WriteAll(a) == WriteAll(b)
  {
    WriteAllMatrices(a);
    WriteAllMatrices(b);
  }

  lemma {:induction false} GroupRowsOf(fps: seq<Descriptor>, n: nat)
    requires n > 0
    requires forall i :: 0 <= i < |fps| ==> fps[i].Matrix? && |fps[i].rows| == n
    ensures Group(RowsOf(fps), n) == fps
  {
    if fps != [] {
      var rs := RowsOf(fps);
      assert rs[..n] == fps[0].rows;
      assert rs[n..] == RowsOf(fps[1..]);
      GroupRowsOf(fps[1..], n);
      assert fps[0] == Matrix(fps[0].rows);
    }
  }

  /** The values of a sequence of vector fingerprints. */
  function VectorsOf(fps: seq<Descriptor>): (vs: seq<seq<real>>)
    requires forall i :: 0 <= i < |fps| ==> fps[i].Vector?
    ensures |vs| == |fps| && forall i :: 0 <= i < |fps| ==> vs[i] == fps[i].v
  {
    seq(|fps|, i requires 0 <= i < |fps| => fps[i].v)
  }

  lemma {:induction false} WriteAllVectors(fps: seq<Descriptor>)
    requires forall i :: 0 <= i < |fps| ==> fps[i].Vector?
    ensures WriteAll(fps) == WriteRows(VectorsOf(fps))
  {
    if fps != [] {
      WriteAllVectors(fps[1..]);
      assert VectorsOf(fps)[1..] == VectorsOf(fps[1..]);
    }
  }

  /**
   * Reading back what `_write_fp` appended gives the same fingerprints: for periodic
   * runs when every fingerprint has exactly the `atomCount` rows the reader groups by,
   * for non-periodic runs always.
   */
  lemma {:induction false} ReadWriteRoundTrip(fps: seq<Descriptor>, periodic: bool, atomCount: nat)
    requires periodic ==> atomCount > 0 && forall i :: 0 <= i < |fps| ==> fps[i].Matrix? && |fps[i].rows| == atomCount
    requires !periodic ==> forall i :: 0 <= i < |fps| ==> fps[i].Vector?
    ensures ParseFp(Lines(WriteAll(fps)), periodic, atomCount) == Ok(fps)
  {
    if periodic {
      WriteAllMatrices(fps);
      ReadWrittenRows(RowsOf(fps));
      GroupRowsOf(fps, atomCount);
    } else {
      WriteAllVectors(fps);
      ReadWrittenRows(VectorsOf(fps));
      var lines := Lines(WriteAll(fps));
      assert seq(|lines|, i requires 0 <= i < |lines| => Vector(Numbers(lines[i]))) == fps;
    }
  }

  /** A trailing group of fewer than `atomCount` lines is dropped by the periodic reader. */
  lemma {:induction false} TrailingGroupDropped(lines: seq<seq<Sym>>, extra: seq<seq<Sym>>, atomCount: nat)
    requires atomCount > 0 && |lines| % atomCount == 0 && |extra| < atomCount
    ensures ParseFp(lines + extra, true, atomCount) == ParseFp(lines, true, atomCount)
  {
    var all := lines + extra;
    assert RowValues(all) == RowValues(lines) + RowValues(extra) by {
      forall k | 0 <= k < |all| ensures RowValues(all)[k] == (RowValues(lines) + RowValues(extra))[k] {
        if k >= |lines| {
          assert all[k] == extra[k - |lines|];
        }
      }
    }
    GroupAppend(RowValues(lines), RowValues(extra), atomCount);
    assert |RowValues(extra)| < atomCount;
    assert Group(RowValues(extra), atomCount) == [];
    assert Group(RowValues(all), atomCount) == Group(RowValues(lines), atomCount);
    assert ParseFp(all, true, atomCount) == Ok(Group(RowValues(all), atomCount));
    assert ParseFp(lines, true, atomCount) == Ok(Group(RowValues(lines), atomCount));
  }
}
