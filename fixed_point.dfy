/**
 * The fixed-point parser `customStringToIntParser`: a reading "d.d", "dd.d",
 * "-d.d" or "-dd.d" becomes ten times its value, as an integer.
 */
module FixedPoint {
  import opened Bytes

  /** What is left once an optional leading '-' is stripped. */
  function Unsigned(s: seq<byte>): seq<byte> {
    if |s| > 0 && s[0] == MINUS then s[1..] else s
  }

  /** The four shapes the parser is written for. */
  predicate ValueShape(s: seq<byte>) {
    var d := Unsigned(s);
    || (|d| == 3 && IsDigit(d[0]) && d[1] == DOT && IsDigit(d[2]))
    || (|d| == 4 && IsDigit(d[0]) && IsDigit(d[1]) && d[2] == DOT && IsDigit(d[3]))
  }

  /**
   * The parser as written: it indexes input[0] (so the input must not be
   * empty), strips one '-', and combines the digit bytes positionally for a
   * remaining length of 3 or 4; any other length hits no switch case and
   * leaves the result 0. The bytes themselves are not validated.
   */
  function ParseTemp(s: seq<byte>): (r: int)
    requires |s| > 0
    ensures |Unsigned(s)| != 3 && |Unsigned(s)| != 4 ==> r == 0
  {
    var negative := s[0] == MINUS;
    var d := if negative then s[1..] else s;
    var output :=
      if |d| == 3 then d[0] as int * 10 + d[2] as int - ZERO as int * 11
      else if |d| == 4 then d[0] as int * 100 + d[1] as int * 10 + d[3] as int - ZERO as int * 111
      else 0;
    if negative then -output else output
  }

  /** The digits of a numeral with its '.' (second to last byte) removed: "12.3" gives "123". */
  function DigitsOf(d: seq<byte>): seq<byte>
    requires |d| >= 2
  {
    d[..|d| - 2] + [d[|d| - 1]]
  }

  /** The usual base-ten value of a digit string, most significant digit first. */
  function DecimalValue(ds: seq<byte>): nat
    requires forall j :: 0 <= j < |ds| ==> IsDigit(ds[j])
  {
    if ds == [] then 0
    else
      assert IsDigit(ds[|ds| - 1]);
      DecimalValue(ds[..|ds| - 1]) * 10 + (ds[|ds| - 1] as int - ZERO as int)
  }

  /** A well-formed reading parses to its sign times the decimal value of its digits. */
  lemma ParseExact(s: seq<byte>)
    requires ValueShape(s)
    ensures |s| > 0 && |Unsigned(s)| >= 2
    ensures forall j :: 0 <= j < |DigitsOf(Unsigned(s))| ==> IsDigit(DigitsOf(Unsigned(s))[j])
    ensures ParseTemp(s) == (if s[0] == MINUS then -1 else 1) * DecimalValue(DigitsOf(Unsigned(s)))
  {
    var d := Unsigned(s);
    var ds := DigitsOf(d);
    if |d| == 3 {
      assert ds == [d[0], d[2]];
      assert ds[..1] == [d[0]] && [d[0]][..0] == [];
      assert DecimalValue([d[0]]) == d[0] as int - ZERO as int;
      assert DecimalValue(ds) == (d[0] as int - ZERO as int) * 10 + (d[2] as int - ZERO as int);
    } else {
      assert ds == [d[0], d[1], d[3]];
      assert ds[..2] == [d[0], d[1]] && [d[0], d[1]][..1] == [d[0]] && [d[0]][..0] == [];
      assert DecimalValue([d[0]]) == d[0] as int - ZERO as int;
      assert DecimalValue([d[0], d[1]]) == (d[0] as int - ZERO as int) * 10 + (d[1] as int - ZERO as int);
    }
  }

  /** Every well-formed reading lies in [-999, 999] tenths. */
  lemma ParseInRange(s: seq<byte>)
    requires ValueShape(s)
    ensures |s| > 0 && -999 <= ParseTemp(s) <= 999
  {
  }

  /** A leading '-' negates the reading exactly. */
  lemma ParseNegate(s: seq<byte>)
    requires |s| > 0 && s[0] != MINUS
    ensures ParseTemp([MINUS] + s) == -ParseTemp(s)
  {
    assert ([MINUS] + s)[1..] == s;
  }

  function DigitByte(n: int): byte
    requires 0 <= n < 10
  {
    (ZERO as int + n) as byte
  }

  /** The shortest reading of v tenths in the input format ("-4.2" for -42). */
  function Format(v: int): (s: seq<byte>)
    requires -999 <= v <= 999
    ensures ValueShape(s)
    ensures |s| > 0 && (s[0] == MINUS <==> v < 0)
  {
    var m := if v < 0 then -v else v;
    var body :=
      if m < 100 then [DigitByte(m / 10), DOT, DigitByte(m % 10)]
      else [DigitByte(m / 100), DigitByte(m / 10 % 10), DOT, DigitByte(m % 10)];
    if v < 0 then [MINUS] + body else body
  }

  /** The parser inverts formatting on the whole range of readings. */
  lemma ParseFormat(v: int)
    requires -999 <= v <= 999
    ensures ParseTemp(Format(v)) == v
  {
    var m := if v < 0 then -v else v;
    assert m == m / 100 * 100 + m / 10 % 10 * 10 + m % 10;
    var f := Format(v);
    if v < 0 {
      assert f[1..] == Unsigned(f);
    }
  }

  /** The sample readings a correct parser must handle, each giving value times ten. */
  lemma ParseSamples()
    ensures ParseTemp(FromString("-99.9")) == -999
    ensures ParseTemp(FromString("-10.5")) == -105
    ensures ParseTemp(FromString("-0.1")) == -1
    ensures ParseTemp(FromString("0.0")) == 0
    ensures ParseTemp(FromString("0.1")) == 1
    ensures ParseTemp(FromString("10.5")) == 105
    ensures ParseTemp(FromString("99.9")) == 999
  {
  }
}
