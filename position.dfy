/**
 * Decoding of an observation's POSITION payload into a point
 * (`parse_position`, DataProcessor.py:41-62), including the part of
 * Python's `float()` that turns a decimal string into a number.
 */
module PositionParser {
  import opened Wrappers
  import opened Exceptions
  import opened Geometry

  /** The Python values a payload can hold: numbers, strings, dicts, and anything else. */
  datatype PyValue =
    | Num(r: real)
    | Str(s: string)
    | Dict(entries: map<string, PyValue>)
    | Other

  /**
   * Python's `eval` of a string payload, which this model does not interpret:
   * the value it yields, or None when it raises.
   */
  type Evaluator = string -> Option<PyValue>

  predicate IsDigit(c: char)
  {
    '0' <= c <= '9'
  }

  predicate AllDigits(s: string)
  {
    forall i :: 0 <= i < |s| ==> IsDigit(s[i])
  }

  /** The number a string of decimal digits denotes ("" denotes 0). */
  function DigitsValue(s: string): nat
    requires AllDigits(s)
  {
    if |s| == 0 then 0 else DigitsValue(s[..|s| - 1]) * 10 + (s[|s| - 1] as int - '0' as int)
  }

  function Pow10(k: nat): (p: nat)
    ensures p >= 1
  {
    if k == 0 then 1 else 10 * Pow10(k - 1)
  }

  /** The index of the first '.' in `s`, or |s| when there is none. */
  function FirstDot(s: string): (k: nat)
    ensures k <= |s|
    ensures forall i :: 0 <= i < k ==> s[i] != '.'
    ensures k < |s| ==> s[k] == '.'
  {
    if |s| == 0 then 0 else if s[0] == '.' then 0 else 1 + FirstDot(s[1..])
  }

  /** The value of the decimal `whole.frac`. */
  function DecimalValue(whole: string, frac: string): (r: real)
    requires AllDigits(whole) && AllDigits(frac)
    ensures r >= 0.0
    ensures frac == "" ==> r == DigitsValue(whole) as real
  {
    DigitsValue(whole) as real + DigitsValue(frac) as real / Pow10(|frac|) as real
  }

  /** An unsigned decimal: digits, optionally a point and more digits, at least one digit in all. */
  function ParseUnsigned(s: string): (r: Option<real>)
    ensures r.Some? ==> r.value >= 0.0
    ensures |s| > 0 && AllDigits(s) ==> r == Some(DigitsValue(s) as real)
  {
    var k := FirstDot(s);
    var whole := s[..k];
    var frac := if k < |s| then s[k + 1..] else "";
    assert AllDigits(s) ==> k == |s| && whole == s && frac == "";
    if AllDigits(whole) && AllDigits(frac) && |whole| + |frac| > 0 then
      Some(DecimalValue(whole, frac))
    else
      None
  }

  /** `float(s)` on a string, for the decimal forms `[+|-]digits[.digits]`. */
  function ParseFloat(s: string): (r: Option<real>)
    ensures s == "" ==> r.None?
  {
    if |s| > 0 && s[0] == '-' then
      match ParseUnsigned(s[1..])
      case Some(u) => Some(-u)
      case None => None
    else if |s| > 0 && s[0] == '+' then
      ParseUnsigned(s[1..])
    else
      ParseUnsigned(s)
  }

  /** `float(v)`: numbers convert to themselves, strings are parsed, anything else is refused. */
  function ToFloat(v: PyValue, key: string): (r: Result<real, Error>)
    ensures r.Failure? ==> r.error == NotAFloat(key)
    ensures v.Num? ==> r == Success(v.r)
    ensures v.Dict? || v.Other? ==> r.Failure?
  {
    match v
    case Num(x) => Success(x)
    case Str(s) => (match ParseFloat(s) case Some(x) => Success(x) case None => Failure(NotAFloat(key)))
    case _ => Failure(NotAFloat(key))
  }

  /** `position_dict[key]`: a mapping with that key, else KeyError or TypeError. */
  function Subscript(d: PyValue, key: string): (r: Result<PyValue, Error>)
    ensures r.Success? <==> d.Dict? && key in d.entries
    ensures r.Success? ==> r.value == d.entries[key]
    ensures d.Dict? && key !in d.entries ==> r == Failure(MissingKey(key))
    ensures !d.Dict? ==> r == Failure(NotSubscriptable)
  {
    if !d.Dict? then Failure(NotSubscriptable)
    else if key in d.entries then Success(d.entries[key])
    else Failure(MissingKey(key))
  }

  /** `float(position_dict[key])`. */
  function Coordinate(d: PyValue, key: string): Result<real, Error>
  {
    match Subscript(d, key)
    case Failure(e) => Failure(e)
    case Success(v) => ToFloat(v, key)
  }

  /**
   * A coordinate is read iff the payload is a dict whose entry converts;
   * otherwise TypeError for a non-dict, KeyError for a missing key, or
   * `float()`'s ValueError or TypeError, recorded as `NotAFloat(key)`.
   */
  lemma CoordinateOfPayload(d: PyValue, key: string)
    ensures Coordinate(d, key).Success? <==> d.Dict? && key in d.entries && ToFloat(d.entries[key], key).Success?
    ensures !d.Dict? ==> Coordinate(d, key) == Failure(NotSubscriptable)
    ensures d.Dict? && key !in d.entries ==> Coordinate(d, key) == Failure(MissingKey(key))
    ensures d.Dict? && key in d.entries && Coordinate(d, key).Failure? ==> Coordinate(d, key).error == NotAFloat(key)
    ensures d.Dict? && key in d.entries && d.entries[key].Num? ==> Coordinate(d, key) == Success(d.entries[key].r)
  {
  }

  /** The mapping a payload stands for: a dict itself, or what `eval` makes of a string. */
  function Decoded(position: PyValue, ev: Evaluator): Option<PyValue>
  {
    match position
    case Dict(_) => Some(position)
    case Str(s) => ev(s)
    case _ => None
  }

  /**
   * `parse_position`: a string is evaluated, a dict taken as it is, anything
   * else raises ValueError; then "X" and then "Y" are converted with `float()`.
   */
  function ParsePosition(position: PyValue, ev: Evaluator): (r: Result<Point, Error>)
    ensures r == Failure(NotStringNorDict) <==> !position.Str? && !position.Dict?
    ensures position.Str? && ev(position.s).None? ==> r == Failure(EvalFailed)
    ensures r.Success? <==>
      Decoded(position, ev).Some?
      && Coordinate(Decoded(position, ev).value, "X").Success?
      && Coordinate(Decoded(position, ev).value, "Y").Success?
    ensures r.Success? ==>
      r.value == Point(Coordinate(Decoded(position, ev).value, "X").value,
                       Coordinate(Decoded(position, ev).value, "Y").value)
  {
    var dict :=
      if position.Str? then
        (match ev(position.s) case Some(v) => Success(v) case None => Failure(EvalFailed))
      else if position.Dict? then
        Success(position)
      else
        Failure(NotStringNorDict);
    match dict
    case Failure(e) => Failure(e)
    case Success(d) =>
      match Coordinate(d, "X")
      case Failure(e) => Failure(e)
      case Success(x) =>
        match Coordinate(d, "Y")
        case Failure(e) => Failure(e)
        case Success(y) => Success(Point(x, y))
  }

  /** The decimal digits of a natural number. */
  function FormatNat(n: nat): (s: string)
  {
    if n < 10 then ['0' + n as char] else FormatNat(n / 10) + ['0' + (n % 10) as char]
  }

  /** An integer as Python's `str()` writes it. */
  function FormatInt(i: int): (s: string)
  {
    if i < 0 then "-" + FormatNat(-i) else FormatNat(i)
  }

  lemma {:induction false} FormatNatDigits(n: nat)
    ensures |FormatNat(n)| > 0 && AllDigits(FormatNat(n)) && DigitsValue(FormatNat(n)) == n
  {
    if n >= 10 {
      FormatNatDigits(n / 10);
      var s := FormatNat(n / 10);
      var t := FormatNat(n);
      assert t == s + ['0' + (n % 10) as char];
      assert t[..|t| - 1] == s;
    }
  }

  /** A '.' is never found among leading digits. */
  lemma {:induction false} FirstDotAfterDigits(d: string, t: string)
    requires AllDigits(d)
    ensures FirstDot(d + t) == |d| + FirstDot(t)
  {
    if |d| > 0 {
      assert (d + t)[1..] == d[1..] + t;
      FirstDotAfterDigits(d[1..], t);
    } else {
      assert d + t == t;
    }
  }

  lemma DigitsThenPointZero(d: string)
    requires |d| > 0 && AllDigits(d)
    ensures ParseUnsigned(d + ".0") == Some(DigitsValue(d) as real)
  {
    var e := d + ".0";
    FirstDotAfterDigits(d, ".0");
    var k := FirstDot(e);
    assert k == |d|;
    var whole, frac := e[..k], e[k + 1..];
    assert whole == d && frac == "0";
    assert ParseUnsigned(e) == Some(DecimalValue(whole, frac));
    PointZeroAddsNothing(d);
  }

  lemma PointZeroAddsNothing(d: string)
    requires AllDigits(d)
    ensures DecimalValue(d, "0") == DigitsValue(d) as real
  {
    assert "0"[..0] == "";
  }

  lemma ParseFloatOfDigits(d: string)
    requires |d| > 0 && AllDigits(d)
    ensures ParseFloat(d) == Some(DigitsValue(d) as real)
  {
    assert IsDigit(d[0]);
  }

  lemma ParseFloatOfDigitsPointZero(d: string)
    requires |d| > 0 && AllDigits(d)
    ensures ParseFloat(d + ".0") == Some(DigitsValue(d) as real)
  {
    DigitsThenPointZero(d);
    assert (d + ".0")[0] == d[0] && IsDigit(d[0]);
  }

  lemma ParseFloatOfNegated(t: string)
    requires |t| > 0 && IsDigit(t[0])
    ensures ParseFloat("-" + t) == (match ParseUnsigned(t) case Some(u) => Some(-u) case None => None)
  {
    assert ("-" + t)[1..] == t;
  }

  /** `float` reads back an integer written in decimal, with or without a trailing ".0". */
  lemma ParseFloatOfFormatted(i: int)
    ensures ParseFloat(FormatInt(i)) == Some(i as real)
    ensures ParseFloat(FormatInt(i) + ".0") == Some(i as real)
  {
    ParseFloatOfFormattedPlain(i);
    ParseFloatOfFormattedPointZero(i);
  }

  lemma ParseFloatOfFormattedPlain(i: int)
    ensures ParseFloat(FormatInt(i)) == Some(i as real)
  {
    var n: nat := if i < 0 then -i else i;
    var d := FormatNat(n);
    FormatNatDigits(n);
    if i < 0 {
      ParseFloatOfNegated(d);
      assert ParseUnsigned(d) == Some(n as real);
    } else {
      ParseFloatOfDigits(d);
    }
  }

  lemma ParseFloatOfFormattedPointZero(i: int)
    ensures ParseFloat(FormatInt(i) + ".0") == Some(i as real)
  {
    var n: nat := if i < 0 then -i else i;
    var d := FormatNat(n);
    FormatNatDigits(n);
    if i < 0 {
      DigitsThenPointZero(d);
      assert (d + ".0")[0] == d[0];
      ParseFloatOfNegated(d + ".0");
      assert FormatInt(i) + ".0" == "-" + (d + ".0");
    } else {
      ParseFloatOfDigitsPointZero(d);
    }
  }

  /** The payload `{"X": "<a>.0", "Y": "<b>.0"}` of the documented example format. */
  function FormattedPosition(a: int, b: int): PyValue
  {
    Dict(map["X" := Str(FormatInt(a) + ".0"), "Y" := Str(FormatInt(b) + ".0")])
  }

  /**
   * Round trip: a dict payload, or a string payload that evaluates to it,
   * decodes to the coordinates it was written from.
   */
  lemma ParsePositionOfFormatted(a: int, b: int, s: string, ev: Evaluator)
    ensures ParsePosition(FormattedPosition(a, b), ev) == Success(Point(a as real, b as real))
    ensures ev(s) == Some(FormattedPosition(a, b)) ==>
      ParsePosition(Str(s), ev) == Success(Point(a as real, b as real))
  {
    var d := FormattedPosition(a, b);
    ParseFloatOfFormattedPointZero(a);
    ParseFloatOfFormattedPointZero(b);
    assert Coordinate(d, "X") == Success(a as real) by {
      assert Subscript(d, "X") == Success(Str(FormatInt(a) + ".0"));
    }
    assert Coordinate(d, "Y") == Success(b as real) by {
      assert Subscript(d, "Y") == Success(Str(FormatInt(b) + ".0"));
    }
  }

  /** A string payload decodes exactly as the dict that `eval` makes of it. */
  lemma StringFormAgreesWithDict(s: string, ev: Evaluator, m: map<string, PyValue>)
    requires ev(s) == Some(Dict(m))
    ensures ParsePosition(Str(s), ev) == ParsePosition(Dict(m), ev)
  {
  }

  /** "X" is looked up and converted before "Y": a payload bad in both reports "X". */
  lemma XIsCheckedBeforeY(m: map<string, PyValue>, ev: Evaluator)
    requires "X" !in m
    ensures ParsePosition(Dict(m), ev) == Failure(MissingKey("X"))
  {
  }
}
