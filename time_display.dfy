/**
 * `formatTime` of components/CountdownGame.tsx: signed milliseconds to the "S:CC" text of
 * the timer, seconds then hundredths. JavaScript's `%` keeps the dividend's sign and
 * `Math.ceil`/`Math.floor` round real quotients, so both are written out here over
 * Dafny's Euclidean `/` and `%`.
 *
 * The partner of the display is `DisplayValue`, which reads a display back as signed
 * hundredths of a second.
 */
module TimeDisplay {
  import opened Wrappers
  import opened JsText

  function Abs(x: int): (r: nat)
    ensures r == x || r == -x
  {
    if x < 0 then -x else x
  }

  /** JavaScript's `a % b` for `b > 0`: the remainder carries the sign of `a`. */
  function TruncRem(a: int, b: int): (r: int)
    requires b > 0
    ensures a >= 0 ==> 0 <= r < b
    ensures a < 0 ==> -b < r <= 0
    ensures (a - r) % b == 0
  {
    if a >= 0 then
      assert a - a % b == b * (a / b);
      MultipleMod(b, a / b);
      a % b
    else
      assert a + (-a) % b == b * -((-a) / b);
      MultipleMod(b, -((-a) / b));
      -((-a) % b)
  }

  /** A multiple of `b` leaves no remainder. */
  lemma MultipleMod(b: int, k: int)
    requires b > 0
    ensures (b * k) % b == 0
  {
    var q, m := (b * k) / b, (b * k) % b;
    assert b * k == b * q + m && 0 <= m < b;
    assert b * (k - q) == m;
    ProductBelowFactor(b, k - q);
  }

  /** A multiple of `b` strictly between `-b` and `b` is zero. */
  lemma ProductBelowFactor(b: int, d: int)
    requires b > 0 && 0 <= b * d < b
    ensures d == 0
  {
  }

  /** Integer division rounding toward zero, `Math.trunc(a / b)` for `b > 0`. */
  function TruncDiv(a: int, b: int): (q: int)
    requires b > 0
    ensures a == b * q + TruncRem(a, b)
  {
    if a >= 0 then a / b else -((-a) / b)
  }

  /** `Math.ceil(a / b)` for `b > 0`. */
  function CeilDiv(a: int, b: int): (q: int)
    requires b > 0
    ensures a <= b * q < a + b
  {
    -((-a) / b)
  }

  /** The `totalSeconds` of `formatTime`: rounded toward zero on both sides of zero. */
  function TotalSeconds(ms: int): (secs: int)
    ensures ms >= 0 ==> 0 <= 1000 * secs <= ms < 1000 * secs + 1000
    ensures ms < 0 ==> secs <= 0 && ms <= 1000 * secs < ms + 1000
  {
    if ms < 0 then CeilDiv(ms, 1000) else ms / 1000
  }

  /** The second field of `formatTime` (named `milliseconds` there): hundredths of a second. */
  function Centis(ms: int): (c: nat)
    ensures c <= 100
  {
    if ms < 0 then Abs(TruncRem(ms, 1000) / 10) else (ms % 1000) / 10
  }

  /** The text before the colon: the literal "-0" just below zero, else `String(totalSeconds)` padded. */
  function SecondsStr(ms: int): (sec: string)
    ensures |sec| >= 2
  {
    if ms < 0 && ms > -1000 then "-0" else PadStart2(IntToString(TotalSeconds(ms)))
  }

  /** `formatTime(ms)` as the source writes it. */
  function FormatTime(ms: int): string {
    SecondsStr(ms) + ":" + PadStart2(IntToString(Centis(ms)))
  }

  /** Reads the two fields of a display as signed hundredths: a '-' on the seconds applies to both. */
  function FieldsValue(sec: string, cs: string): Option<int> {
    if cs == [] || !AllDigits(cs) then None
    else if |sec| >= 2 && sec[0] == '-' && AllDigits(sec[1..]) then
      Some(-(ParseNat(sec[1..]) * 100 + ParseNat(cs)))
    else if sec != [] && AllDigits(sec) then
      Some(ParseNat(sec) * 100 + ParseNat(cs))
    else None
  }

  /** Reads a display "S:CC" back as signed hundredths of a second; `None` if it is not one. */
  function DisplayValue(s: string): Option<int> {
    match IndexOf(s, ':')
    case None => None
    case Some(k) => FieldsValue(s[..k], s[k + 1..])
  }

  lemma DigitsHaveNoColon(s: string)
    requires AllDigits(s)
    ensures ':' !in s
  {
  }

  lemma DisplayValueSplit(sec: string, cs: string)
    requires ':' !in sec
    ensures DisplayValue(sec + ":" + cs) == FieldsValue(sec, cs)
  {
    var s := sec + ":" + cs;
    IndexOfAfter(sec, ':', cs);
    assert s[..|sec|] == sec;
    assert s[|sec| + 1..] == cs;
  }

  /** A padded numeral of `n` is all digits and reads back as `n`. */
  lemma PaddedNumeral(n: nat)
    ensures AllDigits(PadStart2(NatToString(n)))
    ensures ParseNat(PadStart2(NatToString(n))) == n
    ensures PadStart2(NatToString(n)) != []
  {
    ParseNatToString(n);
    ParseNatPadStart2(NatToString(n));
  }

  lemma DivTenShift(x: int, y: int)
    ensures (10 * x + y) / 10 == x + y / 10
  {
    var q, d := y / 10, y % 10;
    assert y == 10 * q + d && 0 <= d < 10;
    assert 10 * x + y == 10 * (x + q) + d;
  }

  /**
   * What the two fields of a display say, for any hundredths `c`: the seconds field reads
   * back as the seconds of `ms` rounded toward zero, with the sign of `ms`.
   */
  lemma SecondsFieldValue(ms: int, c: nat)
    ensures DisplayValue(SecondsStr(ms) + ":" + PadStart2(NatToString(c))).Some?
    ensures DisplayValue(SecondsStr(ms) + ":" + PadStart2(NatToString(c))).value
         == if ms < 0 then -(((-ms) / 1000) * 100 + c) else (ms / 1000) * 100 + c
  {
    PaddedNumeral(c);
    SecondsStrShape(ms);
    if ms >= 0 {
      UnsignedFieldsValue(SecondsStr(ms), PadStart2(NatToString(c)));
    } else {
      SignedFieldsValue(SecondsStr(ms), PadStart2(NatToString(c)));
    }
  }

  lemma UnsignedFieldsValue(sec: string, cs: string)
    requires sec != [] && AllDigits(sec) && cs != [] && AllDigits(cs)
    ensures DisplayValue(sec + ":" + cs).Some?
    ensures DisplayValue(sec + ":" + cs).value == ParseNat(sec) * 100 + ParseNat(cs)
  {
    DigitsHaveNoColon(sec);
    DisplayValueSplit(sec, cs);
    assert IsDigit(sec[0]);
  }

  lemma SignedFieldsValue(sec: string, cs: string)
    requires |sec| >= 2 && sec[0] == '-' && AllDigits(sec[1..]) && cs != [] && AllDigits(cs)
    ensures DisplayValue(sec + ":" + cs).Some?
    ensures DisplayValue(sec + ":" + cs).value == -(ParseNat(sec[1..]) * 100 + ParseNat(cs))
  {
    DigitsHaveNoColon(sec[1..]);
    assert sec == [sec[0]] + sec[1..];
    DisplayValueSplit(sec, cs);
  }

  /** The whole seconds of `formatTime`, toward zero, in terms of Euclidean division of the magnitude. */
  lemma TotalSecondsValue(ms: int)
    ensures TotalSeconds(ms) == if ms < 0 then -((-ms) / 1000) else ms / 1000
  {
  }

  /** The seconds field spelled out by sign, with `String` and the padding resolved. */
  lemma SecondsStrOf(ms: int)
    ensures SecondsStr(ms)
         == if ms >= 0 then PadStart2(NatToString(ms / 1000))
            else if ms > -1000 then "-0"
            else "-" + NatToString((-ms) / 1000)
  {
    TotalSecondsValue(ms);
    if ms >= 0 {
      var q := ms / 1000;
      IntToStringCases(q);
      assert SecondsStr(ms) == PadStart2(IntToString(q));
    } else if ms <= -1000 {
      var q := (-ms) / 1000;
      IntToStringCases(-q);
      var digits := NatToString(q);
      assert SecondsStr(ms) == PadStart2("-" + digits);
    }
  }

  /** The seconds field is a numeral of the whole seconds of `ms` toward zero, with a '-' when `ms < 0`. */
  lemma SecondsStrShape(ms: int)
    ensures ':' !in SecondsStr(ms) && |SecondsStr(ms)| >= 2
    ensures ms >= 0 ==> AllDigits(SecondsStr(ms)) && ParseNat(SecondsStr(ms)) == ms / 1000
    ensures ms < 0 ==> SecondsStr(ms)[0] == '-' && AllDigits(SecondsStr(ms)[1..])
                       && ParseNat(SecondsStr(ms)[1..]) == (-ms) / 1000
  {
    SecondsStrOf(ms);
    var sec := SecondsStr(ms);
    if ms >= 0 {
      PaddedNumeral(ms / 1000);
      DigitsHaveNoColon(sec);
    } else if ms > -1000 {
      assert sec[1..] == "0";
      assert ParseNat("0") == 0 by { assert "0"[..0] == []; }
    } else {
      var q := (-ms) / 1000;
      assert sec[1..] == NatToString(q);
      ParseNatToString(q);
      DigitsHaveNoColon(NatToString(q));
    }
  }

  /**
   * The display of `ms` reads back as `ms` in hundredths of a second rounded down
   * (toward minus infinity): positive times are cut down to the hundredth, and negative
   * times are rounded away from zero, so the display never shows less time elapsed than
   * there was.
   */
  lemma {:induction false} FormatTimeRoundTrip(ms: int)
    ensures DisplayValue(FormatTime(ms)) == Some(ms / 10)
  {
    if ms >= 0 {
      RoundTripNonNegative(ms);
    } else {
      RoundTripNegative(ms);
    }
  }

  lemma RoundTripNonNegative(ms: int)
    requires ms >= 0
    ensures DisplayValue(FormatTime(ms)) == Some(ms / 10)
  {
    var c := Centis(ms);
    FormatTimeOf(ms);
    SecondsFieldValue(ms, c);
    var v := DisplayValue(FormatTime(ms)).value;
    assert v == (ms / 1000) * 100 + c;
    CentisArithmetic(ms);
    assert v == ms / 10;
    SomeValue(DisplayValue(FormatTime(ms)), ms / 10);
  }

  lemma RoundTripNegative(ms: int)
    requires ms < 0
    ensures DisplayValue(FormatTime(ms)) == Some(ms / 10)
  {
    var c := Centis(ms);
    FormatTimeOf(ms);
    SecondsFieldValue(ms, c);
    var v := DisplayValue(FormatTime(ms)).value;
    assert v == -(((-ms) / 1000) * 100 + c);
    CentisArithmetic(ms);
    assert v == ms / 10;
    SomeValue(DisplayValue(FormatTime(ms)), ms / 10);
  }

  /** A present value, as an `Option` again. */
  lemma SomeValue(o: Option<int>, x: int)
    requires o.Some? && o.value == x
    ensures o == Some(x)
  {
  }

  /** The display with `String` of the hundredths resolved: they are never negative. */
  lemma FormatTimeOf(ms: int)
    ensures FormatTime(ms) == SecondsStr(ms) + ":" + PadStart2(NatToString(Centis(ms)))
  {
    IntToStringCases(Centis(ms));
  }

  /** Whole seconds toward zero and the hundredths of `formatTime` make up `ms` in hundredths, rounded down. */
  lemma CentisArithmetic(ms: int)
    ensures ms >= 0 ==> (ms / 1000) * 100 + Centis(ms) == ms / 10
    ensures ms < 0 ==> -(((-ms) / 1000) * 100 + Centis(ms)) == ms / 10
  {
    if ms >= 0 {
      DivTenShift(100 * (ms / 1000), ms % 1000);
      assert ms == 10 * (100 * (ms / 1000)) + ms % 1000;
    } else {
      var q, r := (-ms) / 1000, (-ms) % 1000;
      assert Centis(ms) == -((-r) / 10);
      DivTenShift(-100 * q, -r);
      assert ms == 10 * (-100 * q) + (-r);
    }
  }

  /**
   * Below 100 seconds a non-negative time shows as "SS:CC": two digits of whole seconds, a
   * colon, two digits of hundredths, both cut down (not rounded).
   */
  lemma FormatTimeTwoByTwo(ms: int)
    requires 0 <= ms < 100000
    ensures |FormatTime(ms)| == 5 && FormatTime(ms)[2] == ':'
    ensures AllDigits(FormatTime(ms)[..2]) && ParseNat(FormatTime(ms)[..2]) == ms / 1000
    ensures AllDigits(FormatTime(ms)[3..]) && ParseNat(FormatTime(ms)[3..]) == (ms % 1000) / 10
  {
    var secs, c := ms / 1000, (ms % 1000) / 10;
    assert TotalSeconds(ms) == secs && Centis(ms) == c;
    IntToStringCases(secs);
    IntToStringCases(c);
    var sec, cs := PadStart2(NatToString(secs)), PadStart2(NatToString(c));
    assert FormatTime(ms) == sec + ":" + cs;
    PadStart2Width(ms / 1000);
    PadStart2Width((ms % 1000) / 10);
    PaddedNumeral(ms / 1000);
    PaddedNumeral((ms % 1000) / 10);
    assert FormatTime(ms)[..2] == sec;
    assert FormatTime(ms)[3..] == cs;
  }

  /**
   * A negative time shows a '-' first. Within the first second past zero the seconds read
   * "-0"; from -1000 on they are `String` of the seconds rounded toward zero, with no zero
   * padding (so "-1", never "-01").
   */
  lemma FormatTimeNegativeSeconds(ms: int)
    requires ms < 0
    ensures FormatTime(ms)[0] == '-'
    ensures ms > -1000 ==> FormatTime(ms)[..3] == "-0:"
    ensures ms <= -1000 ==>
      var digits := NatToString((-ms) / 1000);
      digits[0] != '0' && |FormatTime(ms)| > |digits| + 1
      && FormatTime(ms)[..|digits| + 2] == "-" + digits + ":"
  {
    FormatTimeOf(ms);
    SecondsStrOf(ms);
    var cs := PadStart2(NatToString(Centis(ms)));
    if ms <= -1000 {
      var digits := NatToString((-ms) / 1000);
      assert FormatTime(ms) == "-" + digits + ":" + cs;
      assert FormatTime(ms)[..|digits| + 2] == "-" + digits + ":";
    }
  }

  /** The hundredths field overflows to 100 when the sub-second part of a negative time is within 9 ms of a full second. */
  predicate CentisOverflow(ms: int) {
    ms < 0 && TruncRem(ms, 1000) <= -991
  }

  /**
   * The hundredths of `formatTime` are at most 100, and 100 exactly in the overflow case:
   * `Math.floor` of a negative remainder rounds away from zero, so -999..-991 ms give -100.
   */
  lemma CentisRange(ms: int)
    ensures Centis(ms) <= 100
    ensures Centis(ms) == 100 <==> CentisOverflow(ms)
  {
  }

  /**
   * The display ends in a colon and two digits of hundredths except in the overflow case,
   * where it ends in ":100".
   */
  lemma FormatTimeCentisWidth(ms: int)
    ensures var r := FormatTime(ms);
      |r| >= 4 && (r[|r| - 3] == ':' <==> !CentisOverflow(ms))
    ensures var r := FormatTime(ms);
      CentisOverflow(ms) ==> r[|r| - 4..] == ":100"
    ensures var r := FormatTime(ms);
      !CentisOverflow(ms) ==> AllDigits(r[|r| - 2..])
  {
    CentisRange(ms);
    SecondsStrShape(ms);
    FormatTimeOf(ms);
    if CentisOverflow(ms) {
      OverflowTail(SecondsStr(ms), Centis(ms));
    } else {
      TwoDigitTail(SecondsStr(ms), Centis(ms));
    }
  }

  lemma OverflowTail(sec: string, c: nat)
    requires c == 100 && |sec| >= 2
    ensures var r := sec + ":" + PadStart2(NatToString(c));
      |r| >= 4 && r[|r| - 3] != ':' && r[|r| - 4..] == ":100"
  {
    assert NatToString(100) == "100";
  }

  lemma TwoDigitTail(sec: string, c: nat)
    requires c < 100 && |sec| >= 2
    ensures var r := sec + ":" + PadStart2(NatToString(c));
      |r| >= 5 && r[|r| - 3] == ':' && AllDigits(r[|r| - 2..])
  {
    var cs := PadStart2(NatToString(c));
    PadStart2Width(c);
    PaddedNumeral(c);
    var r := sec + ":" + cs;
    assert r[|r| - 2..] == cs;
  }

  /** At the target the display reads "00:00". */
  lemma FormatTimeAtTarget()
    ensures FormatTime(0) == "00:00"
  {
    IntToStringCases(0);
    assert TotalSeconds(0) == 0 && Centis(0) == 0;
    assert PadStart2(NatToString(0)) == "00";
  }

  /** 1234 ms before the target the display reads "01:23". */
  lemma FormatTimeBeforeTarget()
    ensures FormatTime(1234) == "01:23"
  {
    IntToStringCases(1);
    IntToStringCases(23);
    assert TotalSeconds(1234) == 1 && Centis(1234) == 23;
    assert PadStart2(NatToString(1)) == "01";
    assert NatToString(2) == "2" && NatToString(23) == "23";
  }

  /** The shortest duration, before a run, reads "05:00". */
  lemma FormatTimeFullDuration()
    ensures FormatTime(5000) == "05:00"
  {
    IntToStringCases(5);
    IntToStringCases(0);
    assert TotalSeconds(5000) == 5 && Centis(5000) == 0;
    assert PadStart2(NatToString(5)) == "05";
    assert PadStart2(NatToString(0)) == "00";
  }

  /** Half a second past the target the display reads "-0:50". */
  lemma FormatTimeHalfSecondPast()
    ensures FormatTime(-500) == "-0:50"
  {
    IntToStringCases(50);
    assert Centis(-500) == 50;
    assert NatToString(5) == "5" && NatToString(50) == "50";
  }

  /** One second past the target the display reads "-1:00". */
  lemma FormatTimeOneSecondPast()
    ensures FormatTime(-1000) == "-1:00"
  {
    IntToStringCases(-1);
    IntToStringCases(0);
    assert TotalSeconds(-1000) == -1 && Centis(-1000) == 0;
    assert IntToString(-1) == "-1";
    assert PadStart2(NatToString(0)) == "00";
  }

  /** 1234 ms past the target the hundredths round away from zero: "-1:24". */
  lemma FormatTimePastTarget()
    ensures FormatTime(-1234) == "-1:24"
  {
    IntToStringCases(-1);
    IntToStringCases(24);
    assert TotalSeconds(-1234) == -1 && Centis(-1234) == 24;
    assert IntToString(-1) == "-1";
    assert NatToString(2) == "2" && NatToString(24) == "24";
  }

  /** The hundredths overflow shown on a concrete time, 995 ms past zero. */
  lemma FormatTimeOverflowExample()
    ensures FormatTime(-995) == "-0:100"
  {
    IntToStringCases(100);
    assert Centis(-995) == 100;
    assert NatToString(1) == "1" && NatToString(10) == "10" && NatToString(100) == "100";
  }

  /**
   * Hundredths as evidently intended: the magnitude of the sub-second remainder cut down to
   * the hundredth, `Math.floor(Math.abs(ms % 1000) / 10)`, always two digits.
   */
  function FixedCentis(ms: int): (c: nat)
    ensures c < 100
  {
    Abs(TruncRem(ms, 1000)) / 10
  }

  /** `formatTime` with the hundredths rounded toward zero on both sides of zero. */
  function FormatTimeFixed(ms: int): string {
    SecondsStr(ms) + ":" + PadStart2(IntToString(FixedCentis(ms)))
  }

  /** The corrected display always ends in a colon and exactly two digits of hundredths. */
  lemma FormatTimeFixedWidth(ms: int)
    ensures var r := FormatTimeFixed(ms);
      |r| >= 5 && r[|r| - 3] == ':' && AllDigits(r[|r| - 2..])
  {
    var sec, cs := SecondsStr(ms), PadStart2(NatToString(FixedCentis(ms)));
    SecondsStrShape(ms);
    PadStart2Width(FixedCentis(ms));
    PaddedNumeral(FixedCentis(ms));
    var r := FormatTimeFixed(ms);
    assert r == sec + ":" + cs;
    assert r[|r| - 2..] == cs;
  }

  /** The corrected display reads back as `ms` in hundredths rounded toward zero. */
  lemma {:induction false} FormatTimeFixedRoundTrip(ms: int)
    ensures DisplayValue(FormatTimeFixed(ms)) == Some(TruncDiv(ms, 10))
  {
    if ms >= 0 {
      FixedRoundTripNonNegative(ms);
    } else {
      FixedRoundTripNegative(ms);
    }
  }

  lemma FixedRoundTripNonNegative(ms: int)
    requires ms >= 0
    ensures DisplayValue(FormatTimeFixed(ms)) == Some(ms / 10)
  {
    var c := FixedCentis(ms);
    FormatTimeFixedOf(ms);
    SecondsFieldValue(ms, c);
    var v := DisplayValue(FormatTimeFixed(ms)).value;
    assert v == (ms / 1000) * 100 + c;
    FixedCentisArithmetic(ms);
    assert TruncDiv(ms, 10) == ms / 10;
    assert v == ms / 10;
    SomeValue(DisplayValue(FormatTimeFixed(ms)), ms / 10);
  }

  lemma FixedRoundTripNegative(ms: int)
    requires ms < 0
    ensures DisplayValue(FormatTimeFixed(ms)) == Some(-((-ms) / 10))
  {
    var c := FixedCentis(ms);
    FormatTimeFixedOf(ms);
    SecondsFieldValue(ms, c);
    var v := DisplayValue(FormatTimeFixed(ms)).value;
    assert v == -(((-ms) / 1000) * 100 + c);
    FixedCentisArithmetic(ms);
    assert TruncDiv(ms, 10) == -((-ms) / 10);
    assert v == -((-ms) / 10);
    SomeValue(DisplayValue(FormatTimeFixed(ms)), -((-ms) / 10));
  }

  /** The corrected display with `String` of the hundredths resolved. */
  lemma FormatTimeFixedOf(ms: int)
    ensures FormatTimeFixed(ms) == SecondsStr(ms) + ":" + PadStart2(NatToString(FixedCentis(ms)))
  {
    IntToStringCases(FixedCentis(ms));
  }

  lemma FixedCentisArithmetic(ms: int)
    ensures ms >= 0 ==> (ms / 1000) * 100 + FixedCentis(ms) == TruncDiv(ms, 10)
    ensures ms < 0 ==> -(((-ms) / 1000) * 100 + FixedCentis(ms)) == TruncDiv(ms, 10)
  {
    var m := Abs(ms);
    var q, r := m / 1000, m % 1000;
    assert FixedCentis(ms) == r / 10;
    DivTenShift(100 * q, r);
    assert m == 10 * (100 * q) + r;
  }

  /** The correction changes only negative times whose remainder is not a whole hundredth. */
  lemma FormatTimeFixedAgrees(ms: int)
    ensures FormatTimeFixed(ms) == FormatTime(ms) <==> ms >= 0 || TruncRem(ms, 1000) % 10 == 0
  {
    FormatTimeFixedOf(ms);
    FormatTimeOf(ms);
    SameTailIff(SecondsStr(ms), FixedCentis(ms), Centis(ms));
    CentisAgree(ms);
  }

  /** Two displays with the same seconds field are equal exactly when their hundredths are. */
  lemma SameTailIff(sec: string, x: nat, y: nat)
    ensures sec + ":" + PadStart2(NatToString(x)) == sec + ":" + PadStart2(NatToString(y)) <==> x == y
  {
    var a, b := PadStart2(NatToString(x)), PadStart2(NatToString(y));
    if sec + ":" + a == sec + ":" + b {
      assert a == (sec + ":" + a)[|sec| + 1..];
      assert b == (sec + ":" + b)[|sec| + 1..];
      PaddedNumeral(x);
      PaddedNumeral(y);
    }
  }

  /** The two ways of computing the hundredths agree except below zero off a whole hundredth. */
  lemma CentisAgree(ms: int)
    ensures FixedCentis(ms) == Centis(ms) <==> ms >= 0 || TruncRem(ms, 1000) % 10 == 0
  {
    if ms < 0 {
      var r := TruncRem(ms, 1000);
      assert Centis(ms) == Abs(r / 10) && FixedCentis(ms) == Abs(r) / 10;
      NegativeHundredths(r);
    }
  }

  /** For a remainder in (-1000, 0], flooring and truncating its tenth agree exactly on multiples of 10. */
  lemma NegativeHundredths(r: int)
    requires -1000 < r <= 0
    ensures Abs(r / 10) == Abs(r) / 10 <==> r % 10 == 0
  {
    var q, d := (-r) / 10, (-r) % 10;
    assert -r == 10 * q + d && 0 <= d < 10;
    if d == 0 {
      assert r == 10 * -q;
      assert r / 10 == -q && r % 10 == 0;
    } else {
      assert r == 10 * (-q - 1) + (10 - d);
      assert r / 10 == -q - 1 && r % 10 == 10 - d;
    }
  }
}
