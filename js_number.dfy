/** JavaScript numbers and the dynamically typed values the converter moves
    around. Numbers are exact rationals (`real`) plus NaN and the two
    infinities; IEEE rounding error is not modelled. */
module JsNumber {
  import opened JsText
  import opened Wrappers

  datatype JsNum = NaN | PosInf | NegInf | Num(r: real)

  /** A JavaScript value as it appears in attributes, style lookups and object
      fields: `undefined`, a string, or a number. */
  datatype JsValue = Undef | Str(s: string) | Number(n: JsNum)

  /** JavaScript truthiness: `undefined`, `''`, `0` and `NaN` are false. */
  predicate Truthy(v: JsValue)
  {
    match v
    case Undef => false
    case Str(s) => s != ""
    case Number(n) => n != NaN && n != Num(0.0)
  }

  /** `a || b` */
  function Or(a: JsValue, b: JsValue): (r: JsValue)
    ensures Truthy(a) ==> r == a
    ensures !Truthy(a) ==> r == b
  {
    if Truthy(a) then a else b
  }

  function Sign(n: JsNum): int
    requires n != NaN
  {
    match n
    case PosInf => 1
    case NegInf => -1
    case Num(x) => if x > 0.0 then 1 else if x < 0.0 then -1 else 0
  }

  function Infinity(sign: int): JsNum
  {
    if sign > 0 then PosInf else if sign < 0 then NegInf else NaN
  }

  /** `a * b` */
  function Mul(a: JsNum, b: JsNum): (r: JsNum)
    ensures a.Num? && b.Num? ==> r == Num(a.r * b.r)
    ensures a == NaN || b == NaN ==> r == NaN
  {
    if a.Num? && b.Num? then Num(a.r * b.r)
    else if a == NaN || b == NaN then NaN
    else Infinity(Sign(a) * Sign(b))
  }

  /** `a + b` */
  function Add(a: JsNum, b: JsNum): (r: JsNum)
    ensures a.Num? && b.Num? ==> r == Num(a.r + b.r)
    ensures a == NaN || b == NaN ==> r == NaN
  {
    if a.Num? && b.Num? then Num(a.r + b.r)
    else if a == NaN || b == NaN then NaN
    else if a.Num? then b
    else if b.Num? then a
    else if a == b then a
    else NaN
  }

  /** `a - b` */
  function Sub(a: JsNum, b: JsNum): (r: JsNum)
    ensures a.Num? && b.Num? ==> r == Num(a.r - b.r)
  {
    Add(a, Mul(Num(-1.0), b))
  }

  /** `a / b`; a finite number divided by zero is an infinity, `0 / 0` is NaN
      (signed zero is not modelled). */
  function Div(a: JsNum, b: JsNum): (r: JsNum)
    ensures a.Num? && b.Num? && b.r != 0.0 ==> r == Num(a.r / b.r)
    ensures a.Num? && b == Num(0.0) ==> r == Infinity(Sign(a))
  {
    if a == NaN || b == NaN then NaN
    else if a.Num? && b.Num? then (if b.r != 0.0 then Num(a.r / b.r) else Infinity(Sign(a)))
    else if a.Num? then Num(0.0)
    else if b.Num? then Infinity(Sign(a) * (if b.r < 0.0 then -1 else 1))
    else NaN
  }

  /** `Math.round(x)`: the nearest integer, halves rounded up. */
  function Round(n: JsNum): (r: JsNum)
    ensures n.Num? ==> r.Num? && r.r == r.r.Floor as real && n.r - 0.5 < r.r <= n.r + 0.5
    ensures !n.Num? ==> r == n
  {
    if n.Num? then Num((n.r + 0.5).Floor as real) else n
  }

  /** A whole number rounds to itself. */
  lemma RoundWhole(k: int)
    ensures Round(Num(k as real)) == Num(k as real)
  {
    assert (k as real + 0.5).Floor == k;
  }

  /** `Math.ceil(x)` */
  function Ceil(n: JsNum): (r: JsNum)
    ensures n.Num? ==> r.Num? && r.r == r.r.Floor as real && n.r <= r.r < n.r + 1.0
    ensures !n.Num? ==> r == n
  {
    if n.Num? then Num(-((-n.r).Floor) as real) else n
  }

  /** `Math.max(a, b)` */
  function Max(a: JsNum, b: JsNum): (r: JsNum)
    ensures a.Num? && b.Num? ==> r.Num? && r.r >= a.r && r.r >= b.r && (r.r == a.r || r.r == b.r)
    ensures a == NaN || b == NaN ==> r == NaN
  {
    if a == NaN || b == NaN then NaN
    else if a == PosInf || b == PosInf then PosInf
    else if a == NegInf then b
    else if b == NegInf then a
    else if a.r >= b.r then a else b
  }

  // ---------------------------------------------------------------------------
  // Reading numbers from text
  // ---------------------------------------------------------------------------

  /** The value of the digits after a decimal point. */
  function FracValue(s: string): (v: real)
    requires forall i :: 0 <= i < |s| ==> IsDigit(s[i])
    ensures 0.0 <= v <= 1.0
  {
    if s == [] then 0.0 else
      assert IsDigit(s[0]);
      ((s[0] as int - '0' as int) as real + FracValue(s[1..])) / 10.0
  }

  predicate AllDigits(s: string) { forall i :: 0 <= i < |s| ==> IsDigit(s[i]) }

  /** The length of the run of decimal digits at `s[from..]`. */
  function DigitRun(s: string, from: nat): (k: nat)
    requires from <= |s|
    ensures from + k <= |s| && AllDigits(s[from..from + k])
    ensures from + k < |s| ==> !IsDigit(s[from + k])
  {
    FindChar(s, c => !IsDigit(c), from) - from
  }

  /** A string that is exactly an unsigned decimal literal without exponent:
      digits, optionally a point and more digits, at least one digit in all. */
  function DecimalLiteral(s: string): (v: Option<real>)
    ensures v.Some? ==> v.value >= 0.0
  {
    var k := DigitRun(s, 0);
    if k == |s| then (if k == 0 then None else Some(DigitsValue(s) as real))
    else if s[k] != '.' then None
    else
      var f := s[k + 1..];
      if !AllDigits(f) || k + |f| == 0 then None
      else Some(DigitsValue(s[..k]) as real + FracValue(f))
  }

  /** `Number(s)`: surrounding white space ignored, the empty string is 0,
      an optional sign, `Infinity` or a decimal literal; anything else is NaN. */
  function StringToNumber(s: string): (n: JsNum)
    ensures Trim(s) == "" ==> n == Num(0.0)
  {
    var t := Trim(s);
    if t == "" then Num(0.0)
    else
      var neg := t[0] == '-';
      var body := if t[0] == '-' || t[0] == '+' then t[1..] else t;
      if body == "Infinity" then (if neg then NegInf else PosInf)
      else match DecimalLiteral(body)
        case None => NaN
        case Some(v) => Num(if neg then -v else v)
  }

  /** `Number(v)` */
  function ToNumber(v: JsValue): (n: JsNum)
    ensures v.Number? ==> n == v.n
    ensures v.Undef? ==> n == NaN
  {
    match v
    case Undef => NaN
    case Str(s) => StringToNumber(s)
    case Number(n) => n
  }

  /** The value of a hexadecimal digit. */
  function HexDigitValue(c: char): (v: nat)
    requires IsHexDigit(c)
    ensures v < 16
  {
    if IsDigit(c) then c as int - '0' as int
    else if 'a' <= c <= 'f' then c as int - 'a' as int + 10
    else c as int - 'A' as int + 10
  }

  predicate AllHexDigits(s: string) { forall i :: 0 <= i < |s| ==> IsHexDigit(s[i]) }

  /** The value of a string of hexadecimal digits, most significant first. */
  function HexValue(s: string): nat
    requires AllHexDigits(s)
  {
    if s == [] then 0 else
      assert IsHexDigit(s[|s| - 1]);
      HexValue(s[..|s| - 1]) * 16 + HexDigitValue(s[|s| - 1])
  }

  /** A whole number with a sign. */
  function Whole(neg: bool, v: nat): (n: JsNum)
    ensures n.Num? && n.r == n.r.Floor as real
  {
    var i: int := if neg then -(v as int) else v as int;
    Num(i as real)
  }

  /** `parseInt(s)` with no radix: leading white space skipped, an optional
      sign, a `0x`/`0X` prefix selecting base 16, then the longest run of
      digits; NaN when there is no digit. */
  function ParseInt(s: string): (n: JsNum)
    ensures n == NaN || (n.Num? && n.r == n.r.Floor as real)
  {
    var i := FindChar(s, c => !IsSpace(c), 0);
    var t := s[i..];
    var neg := t != "" && t[0] == '-';
    var body := if t != "" && (t[0] == '-' || t[0] == '+') then t[1..] else t;
    if |body| >= 2 && body[0] == '0' && (body[1] == 'x' || body[1] == 'X') then
      var h := body[2..];
      var k := FindChar(h, c => !IsHexDigit(c), 0);
      if k == 0 then NaN else Whole(neg, HexValue(h[..k]))
    else
      var k := DigitRun(body, 0);
      if k == 0 then NaN else Whole(neg, DigitsValue(body[..k]))
  }

  /** `parseFloat(s)`: leading white space skipped, an optional sign, then
      `Infinity` or the longest prefix of the form digits, point, digits
      holding at least one digit; NaN otherwise. */
  function ParseFloat(s: string): (n: JsNum)
  {
    var i := FindChar(s, c => !IsSpace(c), 0);
    var t := s[i..];
    var neg := t != "" && t[0] == '-';
    var body := if t != "" && (t[0] == '-' || t[0] == '+') then t[1..] else t;
    if |body| >= 8 && body[..8] == "Infinity" then (if neg then NegInf else PosInf)
    else
      var k := DigitRun(body, 0);
      var f := if k < |body| && body[k] == '.' then DigitRun(body, k + 1) else 0;
      if k + f == 0 then NaN
      else
        var v := DigitsValue(body[..k]) as real + (if f == 0 then 0.0 else FracValue(body[k + 1..k + 1 + f]));
        Num(if neg then -v else v)
  }

  // ---------------------------------------------------------------------------
  // Writing numbers as text
  // ---------------------------------------------------------------------------

  function Pow10(k: nat): (p: nat)
    ensures p >= 1
  {
    if k == 0 then 1 else 10 * Pow10(k - 1)
  }

  /** The number of fractional digits `String(x)` prints for `x >= 0`: the
      least `k <= 20` for which `x * 10^k` is whole, or 20. */
  function FracDigits(x: real, k: nat): (d: nat)
    requires k <= 20
    decreases 20 - k
    ensures k <= d <= 20
  {
    var y := x * Pow10(k) as real;
    if y == y.Floor as real || k == 20 then k else FracDigits(x, k + 1)
  }

  /** `n` written with exactly `w` digits, zeros on the left. */
  function PadDigits(n: nat, w: nat): (s: string)
    ensures |s| >= w
    ensures |NatToString(n)| >= w ==> s == NatToString(n)
  {
    var d := NatToString(n);
    if |d| >= w then d else Repeat("0", w - |d|) + d
  }

  /** Plain decimal notation of a non-whole number. */
  function FractionString(x: real): (s: string)
    ensures |s| >= 1 && IsDigit(s[|s| - 1])
  {
    var a := if x < 0.0 then -x else x;
    var k := FracDigits(a, 1);
    var p := Pow10(k) as real;
    assert a * p >= 0.0 by { MulNonNegative(a, p); }
    var scaled: nat := (a * p).Floor;
    var q := Pow10(k);
    assert scaled / q >= 0 && scaled % q >= 0 by { DivModNonNegative(scaled, q); }
    var pad := PadDigits(scaled % q, k);
    LastIsDigit(scaled % q, k);
    (if x < 0.0 then "-" else "") + NatToString(scaled / q) + "." + pad
  }

  lemma LastIsDigit(n: nat, w: nat)
    ensures var p := PadDigits(n, w); |p| >= 1 && IsDigit(p[|p| - 1])
  {
    var d := NatToString(n);
    var p := PadDigits(n, w);
    if |d| < w {
      assert p == Repeat("0", w - |d|) + d;
    }
    assert p[|p| - 1] == d[|d| - 1];
  }

  lemma DivModNonNegative(a: nat, b: nat)
    requires b >= 1
    ensures a / b >= 0 && a % b >= 0
  {
  }

  lemma MulNonNegative(a: real, b: real)
    requires a >= 0.0 && b >= 0.0
    ensures a * b >= 0.0
  {
  }

  /** `String(x)` for a number: NaN, the infinities, and finite numbers in
      plain decimal notation. */
  function ToString(n: JsNum): (s: string)
    ensures n.Num? && n.r == n.r.Floor as real ==> s == IntToString(n.r.Floor)
    ensures n == NaN ==> s == "NaN"
  {
    match n
    case NaN => "NaN"
    case PosInf => "Infinity"
    case NegInf => "-Infinity"
    case Num(x) => if x == x.Floor as real then IntToString(x.Floor) else FractionString(x)
  }

  /** `'' + v` */
  function Render(v: JsValue): (s: string)
    ensures v.Str? ==> s == v.s
    ensures v.Number? ==> s == ToString(v.n)
  {
    match v
    case Undef => "undefined"
    case Str(s) => s
    case Number(n) => ToString(n)
  }

  /** A lower-case hexadecimal digit. */
  function HexChar(d: nat): (c: char)
    requires d < 16
    ensures IsHexDigit(c) && HexDigitValue(c) == d
    ensures !('A' <= c <= 'Z')
  {
    if d < 10 then ('0' as int + d) as char else ('a' as int + d - 10) as char
  }

  /** The lower-case hexadecimal digits of `n`, most significant first. */
  function HexDigits(n: nat): (s: string)
    decreases n
    ensures |s| >= 1 && AllHexDigits(s) && HexValue(s) == n
    ensures n < 16 <==> |s| == 1
    ensures 16 <= n < 256 <==> |s| == 2
    ensures forall i :: 0 <= i < |s| ==> !('A' <= s[i] <= 'Z')
  {
    if n < 16 then [HexChar(n)] else
      var s := HexDigits(n / 16) + [HexChar(n % 16)];
      assert s[..|s| - 1] == HexDigits(n / 16);
      s
  }

  /** `x.toString(16)` for a whole number: an optional minus sign and
      lower-case hexadecimal digits. A fraction is not written (see README). */
  function ToHexString(n: JsNum): (s: string)
    ensures n.Num? && 0.0 <= n.r ==> s == HexDigits(n.r.Floor)
  {
    match n
    case NaN => "NaN"
    case PosInf => "Infinity"
    case NegInf => "-Infinity"
    case Num(x) =>
      if x >= 0.0 then HexDigits(x.Floor) else "-" + HexDigits((-x).Floor)
  }
}
