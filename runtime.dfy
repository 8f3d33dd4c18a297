/**
 * The wall-clock budget string `D-HH:MM:SS` (`_get_sec`) and the split of the elapsed
 * seconds into days, hours, minutes and seconds printed at the end of a run.
 */
module RunTime {
  import opened Results
  import opened Decimal

  /** Why `_get_sec` raises `ValueError`: the wrong number of fields to unpack, or a field `int()` rejects. */
  datatype TimeError = WrongFieldCount | NotAnInteger

  /** `str.split(c)`: the pieces between occurrences of `c`; there is always at least one. */
  function Split(s: string, c: char): (r: seq<string>)
    ensures |r| >= 1
  {
    if s == [] then [""]
    else if s[0] == c then [""] + Split(s[1..], c)
    else
      var rest := Split(s[1..], c);
      [[s[0]] + rest[0]] + rest[1..]
  }

  /** A string without the separator is one piece. */
  lemma {:induction false} SplitWhole(s: string, c: char)
    requires c !in s
    ensures Split(s, c) == [s]
  {
    if s != [] {
      assert c !in s[1..];
      SplitWhole(s[1..], c);
      assert [s[0]] + s[1..] == s;
    }
  }

  /**
   * The ASCII characters `str.strip()` and `int()` treat as white space: space, tab,
   * line feed, vertical tab, form feed, carriage return and the separators 0x1C-0x1F.
   */
  predicate IsSpace(ch: char)
  {
    ch == ' ' || 9 <= ch as int <= 13 || 28 <= ch as int <= 31
  }

  /** t without its leading white space. */
  function StripLeft(t: string): string
    decreases |t|
  {
    if t != [] && IsSpace(t[0]) then StripLeft(t[1..]) else t
  }

  /** t without its trailing white space. */
  function StripRight(t: string): string
    decreases |t|
  {
    if t != [] && IsSpace(t[|t| - 1]) then StripRight(t[..|t| - 1]) else t
  }

  /** The text `int()` reads: t without surrounding white space. */
  function Strip(t: string): string
  {
    StripRight(StripLeft(t))
  }

  /**
   * `int(t)` on a string: surrounding white space is ignored, then an optional sign
   * and a run of decimal digits follow.
   */
  function ParseInt(t: string): (r: Option<int>)
    ensures r.Some? <==> var u := Strip(t); (u != [] && AllDigits(u)) || (|u| > 1 && u[0] in "+-" && AllDigits(u[1..]))
  {
    var u := Strip(t);
    if u != [] && AllDigits(u) then Some(DigitsValue(u))
    else if |u| > 1 && u[0] in "+-" && AllDigits(u[1..]) then
      Some(if u[0] == '-' then -(DigitsValue(u[1..]) as int) else DigitsValue(u[1..]))
    else None
  }

  /** White space before and after a number does not change what `int()` reads. */
  lemma {:induction false} ParseIntPadded(a: string, t: string, b: string)
    requires forall k :: 0 <= k < |a| ==> IsSpace(a[k])
    requires forall k :: 0 <= k < |b| ==> IsSpace(b[k])
    requires t != [] && !IsSpace(t[0]) && !IsSpace(t[|t| - 1])
    ensures ParseInt(a + t + b) == ParseInt(t)
  {
    StripLeftSpaces(a, t + b);
    assert a + t + b == a + (t + b);
    StripRightSpaces(t, b);
    assert StripLeft(t) == t;
    assert StripRight(t) == t;
  }

  lemma {:induction false} StripLeftSpaces(a: string, t: string)
    requires forall k :: 0 <= k < |a| ==> IsSpace(a[k])
    requires t != [] && !IsSpace(t[0])
    ensures StripLeft(a + t) == t
    decreases |a|
  {
    if a != [] {
      assert (a + t)[1..] == a[1..] + t;
      StripLeftSpaces(a[1..], t);
    } else {
      assert a + t == t;
    }
  }

  lemma {:induction false} StripRightSpaces(t: string, b: string)
    requires forall k :: 0 <= k < |b| ==> IsSpace(b[k])
    requires t != [] && !IsSpace(t[|t| - 1])
    ensures StripRight(t + b) == t
    decreases |b|
  {
    if b != [] {
      assert (t + b)[..|t + b| - 1] == t + b[..|b| - 1];
      StripRightSpaces(t, b[..|b| - 1]);
    } else {
      assert t + b == t;
    }
  }

  /** A plain run of digits reads as its value. */
  lemma {:induction false} ParseDigits(t: string)
    requires t != [] && AllDigits(t)
    ensures ParseInt(t) == Some(DigitsValue(t))
  {
    assert IsDigit(t[0]) && IsDigit(t[|t| - 1]);
    assert StripLeft(t) == t;
    assert StripRight(t) == t;
  }

  /** `int()` reads a field padded with a blank as the number inside it. */
  lemma {:induction false} ParseIntSpaced()
    ensures ParseInt("00 ") == Some(0)
    ensures ParseInt(" 2") == Some(2)
  {
    ParseIntPadded([], "00", " ");
    assert [] + "00" + " " == "00 ";
    ParseDigits("00");
    assert DigitsValue("00") == 0 by { assert "00"[..1] == "0" && "0"[..0] == ""; }
    ParseIntPadded(" ", "2", []);
    assert " " + "2" + [] == " 2";
    ParseDigits("2");
    assert DigitsValue("2") == 2 by { assert "2"[..0] == ""; }
  }

  /** `_get_sec`: `int(nd) * 86400 + int(h) * 3600 + int(m) * 60 + int(s)` for `nd-h:m:s`. */
  function GetSec(runTime: string): Result<int, TimeError>
  {
    var parts := Split(runTime, '-');
    if |parts| != 2 then Err(WrongFieldCount)
    else Fields(parts[0], Split(parts[1], ':'))
  }

  /** The day field and the `h:m:s` pieces unpacked and converted. */
  function Fields(nd: string, hms: seq<string>): (r: Result<int, TimeError>)
    ensures r.Ok? ==> |hms| == 3
  {
    if |hms| != 3 then Err(WrongFieldCount)
    else
      var d, h, m, s := ParseInt(nd), ParseInt(hms[0]), ParseInt(hms[1]), ParseInt(hms[2]);
      if d.None? || h.None? || m.None? || s.None? then Err(NotAnInteger)
      else Ok(d.value * 86400 + h.value * 3600 + m.value * 60 + s.value)
  }

  /** The elapsed-time split: `//` and `%` by 86400, 3600 and 60 (floor division, as in Python). */
  function SplitElapsed(elapsed: int): (r: (int, int, int, int))
    ensures r.0 * 86400 + r.1 * 3600 + r.2 * 60 + r.3 == elapsed
    ensures 0 <= r.1 < 24 && 0 <= r.2 < 60 && 0 <= r.3 < 60
    ensures elapsed >= 0 ==> r.0 >= 0
  {
    var day := elapsed / (24 * 3600);
    var rest := elapsed % (24 * 3600);
    var hour := rest / 3600;
    var rest2 := rest % 3600;
    (day, hour, rest2 / 60, rest2 % 60)
  }

  /** A budget string in the `D-HH:MM:SS` layout. */
  function Format(d: nat, h: nat, m: nat, s: nat): string
  {
    ShowNat(d) + "-" + Pad2(h) + ":" + Pad2(m) + ":" + Pad2(s)
  }

  /** Splitting at the first separator: the head is the first piece. */
  lemma {:induction false} SplitAt(a: string, c: char, b: string)
    requires c !in a
    ensures Split(a + [c] + b, c) == [a] + Split(b, c)
  {
    if a == [] {
      assert a + [c] + b == [c] + b;
      assert ([c] + b)[1..] == b;
    } else {
      assert (a + [c] + b)[0] == a[0];
      assert (a + [c] + b)[1..] == a[1..] + [c] + b;
      SplitAt(a[1..], c, b);
      assert [a[0]] + a[1..] == a;
    }
  }

  lemma DigitsHaveNoSeparator(t: string, c: char)
    requires AllDigits(t) && !IsDigit(c)
    ensures c !in t
  {
  }

  /** The pieces of a budget string built from digit strings. */
  lemma {:induction false} SplitFields(tD: string, tH: string, tM: string, tS: string)
    requires AllDigits(tD) && AllDigits(tH) && AllDigits(tM) && AllDigits(tS)
    ensures var tail := tH + ":" + tM + ":" + tS;
      Split(tD + "-" + tail, '-') == [tD, tail] &&
      Split(tail, ':') == [tH, tM, tS]
  {
    DigitsHaveNoSeparator(tD, '-');
    DigitsHaveNoSeparator(tH, '-'); DigitsHaveNoSeparator(tM, '-'); DigitsHaveNoSeparator(tS, '-');
    DigitsHaveNoSeparator(tH, ':'); DigitsHaveNoSeparator(tM, ':'); DigitsHaveNoSeparator(tS, ':');
    var rest := tM + [':'] + tS;
    var tail := tH + [':'] + rest;
    assert tail == tH + ":" + tM + ":" + tS;
    assert '-' !in tail;
    SplitAt(tD, '-', tail);
    SplitAt(tH, ':', rest);
    SplitAt(tM, ':', tS);
    SplitWhole(tS, ':');
    SplitWhole(tail, '-');
  }

  /** `_get_sec` on four digit fields. */
  lemma {:induction false} GetSecFields(tD: string, tH: string, tM: string, tS: string)
    requires tD != [] && tH != [] && tM != [] && tS != []
    requires AllDigits(tD) && AllDigits(tH) && AllDigits(tM) && AllDigits(tS)
    ensures GetSec(tD + "-" + tH + ":" + tM + ":" + tS) ==
      Ok(DigitsValue(tD) * 86400 + DigitsValue(tH) * 3600 + DigitsValue(tM) * 60 + DigitsValue(tS))
  {
    SplitFields(tD, tH, tM, tS);
    var str := tD + "-" + tH + ":" + tM + ":" + tS;
    var tail := tH + ":" + tM + ":" + tS;
    assert str == tD + "-" + tail;
    assert Split(str, '-') == [tD, tail];
    assert GetSec(str) == Fields(tD, [tH, tM, tS]);
    ParseDigits(tD); ParseDigits(tH); ParseDigits(tM); ParseDigits(tS);
    FieldsOk(tD, [tH, tM, tS], DigitsValue(tD), DigitsValue(tH), DigitsValue(tM), DigitsValue(tS));
  }

  lemma {:induction false} FieldsOk(nd: string, hms: seq<string>, d: int, h: int, m: int, s: int)
    requires |hms| == 3
    requires ParseInt(nd) == Some(d) && ParseInt(hms[0]) == Some(h) && ParseInt(hms[1]) == Some(m) && ParseInt(hms[2]) == Some(s)
    ensures Fields(nd, hms) == Ok(d * 86400 + h * 3600 + m * 60 + s)
  {
  }

  /** The unlimited budget `infinit` has no `-`: read as a budget it is a wrong field count. */
  lemma {:induction false} GetSecRejectsInfinit()
    ensures GetSec("infinit") == Err(WrongFieldCount)
  {
    SplitWhole("infinit", '-');
  }

  /** Reading back a formatted budget gives its number of seconds. */
  lemma {:induction false} GetSecFormat(d: nat, h: nat, m: nat, s: nat, total: int)
    requires total == d * 86400 + h * 3600 + m * 60 + s
    ensures GetSec(Format(d, h, m, s)) == Ok(total)
  {
    ShowNatValue(d); Pad2Value(h); Pad2Value(m); Pad2Value(s);
    GetSecFields(ShowNat(d), Pad2(h), Pad2(m), Pad2(s));
  }

  /**
   * The elapsed-time split is the inverse of `_get_sec`: writing the split of a
   * non-negative number of seconds as `D-HH:MM:SS` and reading it back gives the
   * same number of seconds.
   */
  lemma {:induction false} SplitElapsedRoundTrip(elapsed: nat)
    ensures var r := SplitElapsed(elapsed);
      r.0 >= 0 && GetSec(Format(r.0, r.1, r.2, r.3)) == Ok(elapsed)
  {
    var r := SplitElapsed(elapsed);
    GetSecFormat(r.0, r.1, r.2, r.3, elapsed);
  }
}
