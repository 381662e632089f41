/** The colour codec of svg2vectordrawable.js: `formatColor`, `numberToHex`
    and `precentToHex`. Every unanchored regular expression of the source is
    modelled by an explicit search for the text it matches. */
module Color {
  import opened JsText
  import opened JsNumber
  import opened ColorKeywords

  // ---------------------------------------------------------------------------
  // numberToHex, precentToHex
  // ---------------------------------------------------------------------------

  predicate IsUpperHex(s: string)
  {
    forall i :: 0 <= i < |s| ==> IsHexDigit(s[i]) && !('a' <= s[i] <= 'z')
  }

  /** `numberToHex(num)`: `Number(num).toString(16)`, with a `0` in front
      when that is a single character, upper-cased. */
  function NumberToHex(n: JsNum): (r: string)
  {
    var h := ToHexString(n);
    ToUpper(if |h| == 1 then "0" + h else h)
  }

  /** `precentToHex(p)`: the share `p` of 100 scaled to 0..255, rounded, in hex. */
  function PercentToHex(p: JsNum): (r: string)
  {
    NumberToHex(Round(Div(Mul(p, Num(255.0)), Num(100.0))))
  }

  lemma HexValueIgnoresCase(s: string)
    requires AllHexDigits(s)
    ensures AllHexDigits(ToUpper(s)) && IsUpperHex(ToUpper(s)) && HexValue(ToUpper(s)) == HexValue(s)
  {
    if s != [] {
      var u := ToUpper(s);
      HexValueIgnoresCase(s[..|s| - 1]);
      assert ToUpper(s[..|s| - 1]) == u[..|u| - 1];
    }
  }

  lemma HexValueLeadingZero(s: string)
    requires AllHexDigits(s)
    ensures AllHexDigits("0" + s) && HexValue("0" + s) == HexValue(s)
  {
    if s != [] {
      HexValueLeadingZero(s[..|s| - 1]);
      assert ("0" + s)[..|s|] == "0" + s[..|s| - 1];
    }
  }

  /** A channel value 0..255 becomes exactly two upper-case digits that read
      back as the value; below 16 the first digit is `0`. */
  lemma NumberToHexTwoDigits(n: nat)
    requires n <= 255
    ensures var r := NumberToHex(Num(n as real));
      |r| == 2 && IsUpperHex(r) && AllHexDigits(r) && HexValue(r) == n &&
      (n < 16 ==> r[0] == '0')
  {
    var h := ToHexString(Num(n as real));
    var p := if |h| == 1 then "0" + h else h;
    if |h| == 1 { HexValueLeadingZero(h); }
    HexValueIgnoresCase(p);
  }

  /** The two ends of the percentage scale. */
  lemma PercentToHexEnds()
    ensures PercentToHex(Num(0.0)) == "00"
    ensures PercentToHex(Num(100.0)) == "FF"
  {
    PercentToHexZero();
    PercentToHexFull();
  }

  lemma PercentToHexZero()
    ensures PercentToHex(Num(0.0)) == "00"
  {
    assert Round(Div(Mul(Num(0.0), Num(255.0)), Num(100.0))) == Num(0.0);
    assert ToHexString(Num(0.0)) == "0";
    assert ToUpper("00") == "00";
  }

  lemma PercentToHexFull()
    ensures PercentToHex(Num(100.0)) == "FF"
  {
    assert Round(Div(Mul(Num(100.0), Num(255.0)), Num(100.0))) == Num(255.0);
    HexOf255();
    assert ToUpper("ff") == "FF";
  }

  lemma HexOf255()
    ensures ToHexString(Num(255.0)) == "ff"
  {
    assert HexDigits(15) == "f";
    assert HexDigits(255) == HexDigits(15) + [HexChar(15)];
  }

  /** A percentage 0..100 becomes two digits reading back as `round(p * 255 / 100)`. */
  lemma PercentToHexChannel(p: real)
    requires 0.0 <= p <= 100.0
    ensures var r := PercentToHex(Num(p));
      |r| == 2 && IsUpperHex(r) && AllHexDigits(r) && HexValue(r) == ((p * 255.0 / 100.0) + 0.5).Floor
  {
    var v := ((p * 255.0 / 100.0) + 0.5).Floor;
    assert 0 <= v <= 255;
    assert Round(Div(Mul(Num(p), Num(255.0)), Num(100.0))) == Num(v as real);
    NumberToHexTwoDigits(v);
  }

  // ---------------------------------------------------------------------------
  // The patterns formatColor tests
  // ---------------------------------------------------------------------------

  /** `/#[0-9A-Fa-f]{6}/` matches at `i`. */
  predicate Hex6At(s: string, i: int)
  {
    0 <= i && i + 7 <= |s| && s[i] == '#' && forall j :: i + 1 <= j < i + 7 ==> IsHexDigit(s[j])
  }

  predicate HasHex6(s: string) { exists i | 0 <= i <= |s| :: Hex6At(s, i) }

  /** `/#[0-9A-Fa-f]{3}/` matches at `i`. */
  predicate Hex3At(s: string, i: int)
  {
    0 <= i && i + 4 <= |s| && s[i] == '#' && forall j :: i + 1 <= j < i + 4 ==> IsHexDigit(s[j])
  }

  predicate HasHex3(s: string) { exists i | 0 <= i <= |s| :: Hex3At(s, i) }

  /** Where one channel of an `rgb(...)` pattern that starts at `from` ends:
      one or more digits, then `%` when `percent`; -1 when there is none. */
  function ChannelEnd(t: string, from: nat, percent: bool): (e: int)
    requires from <= |t|
    ensures e == -1 || from < e <= |t|
  {
    var k := DigitRun(t, from);
    if k == 0 then -1
    else if !percent then from + k
    else if from + k < |t| && t[from + k] == '%' then from + k + 1
    else -1
  }

  /** `/rgb\(\d+\,\d+\,\d+\)/i` (or its `%` form) matches at `i`. */
  predicate RgbAt(t: string, i: int, percent: bool)
  {
    0 <= i && i + 4 <= |t| && ToLower(t[i..i + 4]) == "rgb(" && ChannelsAt(t, i + 4, percent)
  }

  /** The three channels of the `rgb` pattern, from `from` to the closing `)`. */
  predicate ChannelsAt(t: string, from: nat, percent: bool)
    requires from <= |t|
  {
    var a := ChannelEnd(t, from, percent);
    0 <= a < |t| && t[a] == ',' &&
    var b := ChannelEnd(t, a + 1, percent);
    0 <= b < |t| && t[b] == ',' &&
    var c := ChannelEnd(t, b + 1, percent);
    0 <= c < |t| && t[c] == ')'
  }

  predicate HasRgb(t: string, percent: bool) { exists i | 0 <= i <= |t| :: RgbAt(t, i, percent) }

  /** `/^(#|rgb)/i` */
  predicate StartsWithHashOrRgb(s: string)
  {
    (|s| >= 1 && s[0] == '#') || (|s| >= 3 && ToLower(s[..3]) == "rgb")
  }

  /** The channel texts: the first `rgb(` (any case) and the first `)` removed,
      every `%` removed in the percent form, then split on `,`. */
  function RgbChannels(s: string, percent: bool): seq<string>
  {
    var body := ReplaceFirst(ReplaceFirstIgnoreCase(s, "rgb(", ""), ")", "");
    Split(if percent then RemoveAll(body, IsPercent) else body, ',')
  }

  predicate IsPercent(c: char) { c == '%' }

  /** `Number(parts[k])`, where a missing part is `undefined`. */
  function Channel(parts: seq<string>, k: nat): JsNum
  {
    if k < |parts| then StringToNumber(parts[k]) else NaN
  }

  /** `formatColor(hexColor)` */
  function FormatColor(s: string): (r: string)
  {
    if HasHex6(s) then ToUpper(s)
    else if HasHex3(s) then
      ToUpper("#" + [s[1], s[1], s[2], s[2], s[3], s[3]])
    else if HasRgb(RemoveSpaces(s), false) then
      var c := RgbChannels(s, false);
      ToUpper("#" + NumberToHex(Channel(c, 0)) + NumberToHex(Channel(c, 1)) + NumberToHex(Channel(c, 2)))
    else if HasRgb(RemoveSpaces(s), true) then
      var c := RgbChannels(s, true);
      ToUpper("#" + PercentToHex(Channel(c, 0)) + PercentToHex(Channel(c, 1)) + PercentToHex(Channel(c, 2)))
    else if !StartsWithHashOrRgb(s) then ToUpper(KeywordToHex(s))
    else ""
  }

  // ---------------------------------------------------------------------------
  // What formatColor promises
  // ---------------------------------------------------------------------------

  /** A `#RRGGBB` input comes back upper-cased, so formatting is idempotent on it. */
  lemma FormatColorHex6Idempotent(s: string)
    requires HasHex6(s)
    ensures FormatColor(s) == ToUpper(s)
    ensures FormatColor(FormatColor(s)) == FormatColor(s)
  {
    var i :| 0 <= i <= |s| && Hex6At(s, i);
    var u := ToUpper(s);
    forall j | i + 1 <= j < i + 7 ensures IsHexDigit(u[j]) {
      assert IsHexDigit(s[j]);
    }
    assert Hex6At(u, i);
    ToUpperIdempotent(s);
  }

  /** `#RGB` is expanded to `#RRGGBB` and upper-cased. */
  lemma FormatColorExpandsShortHex(a: char, b: char, c: char)
    requires IsHexDigit(a) && IsHexDigit(b) && IsHexDigit(c)
    ensures FormatColor(['#', a, b, c]) == ToUpper(['#', a, a, b, b, c, c])
  {
    var s := ['#', a, b, c];
    assert Hex3At(s, 0);
  }

  /** Text without white space is left alone by `replace(/\s*\/g, '')`. */
  lemma RemoveSpacesNoop(s: string)
    requires forall i :: 0 <= i < |s| ==> !IsSpace(s[i])
    ensures RemoveSpaces(s) == s
  {
    RemoveAllNoop(s, IsSpace);
  }

  /** `Number` reads back what `NatToString` writes. */
  lemma NumberOfDigits(n: nat)
    ensures StringToNumber(NatToString(n)) == Num(n as real)
  {
    var d := NatToString(n);
    TrimNoop(d);
    assert DigitRun(d, 0) == |d|;
  }

  /** The text `rgb(r,g,b)` for whole numbers. */
  function RgbText(r: nat, g: nat, b: nat): string
  {
    RgbPattern(NatToString(r), NatToString(g), NatToString(b), false)
  }

  /** The text `rgb(r%,g%,b%)` for whole numbers. */
  function RgbPercentText(r: nat, g: nat, b: nat): string
  {
    RgbPattern(NatToString(r), NatToString(g), NatToString(b), true)
  }

  /** `DigitRun` stops exactly after a run of digits. */
  lemma DigitRunOf(t: string, from: nat, d: string)
    requires AllDigits(d) && from + |d| <= |t| && t[from..from + |d|] == d
    requires from + |d| < |t| ==> !IsDigit(t[from + |d|])
    ensures DigitRun(t, from) == |d|
  {
    forall j | from <= j < from + |d| ensures IsDigit(t[j]) {
      assert t[j] == d[j - from];
    }
  }

  lemma {:induction false} NoRgbPastStart(t: string, percent: bool)
    requires forall i :: 1 <= i < |t| ==> t[i] !in "rR"
    requires !RgbAt(t, 0, percent)
    ensures !HasRgb(t, percent)
  {
    forall i | 1 <= i <= |t| ensures !RgbAt(t, i, percent) {
      if i + 4 <= |t| {
        assert ToLower(t[i..i + 4])[0] == LowerChar(t[i]);
      }
    }
  }

  /** `rgb(R,G,B)`, or `rgb(R%,G%,B%)` when `percent`, for digit strings. */
  function RgbPattern(R: string, G: string, B: string, percent: bool): string
  {
    "rgb(" + RgbBody(R, G, B, percent) + ")"
  }

  /** What lies between `rgb(` and `)` in `RgbPattern`. */
  function RgbBody(R: string, G: string, B: string, percent: bool): string
  {
    var sep := if percent then "%," else ",";
    R + sep + G + sep + B + (if percent then "%" else "")
  }

  lemma RgbPatternChars(R: string, G: string, B: string, percent: bool)
    requires AllDigits(R) && AllDigits(G) && AllDigits(B)
    ensures var t := RgbPattern(R, G, B, percent);
      forall i :: 4 <= i < |t| ==> IsDigit(t[i]) || t[i] in "%,)"
  {
    var t := RgbPattern(R, G, B, percent);
    var w := if percent then 1 else 0;
    forall i | 4 <= i < |t| ensures IsDigit(t[i]) || t[i] in "%,)" {
      if i < 4 + |R| { assert t[i] == R[i - 4]; }
      else if i <= 4 + |R| + w { }
      else if i < 5 + w + |R| + |G| { assert t[i] == G[i - 5 - w - |R|]; }
      else if i <= 5 + 2 * w + |R| + |G| { }
      else if i < 6 + 2 * w + |R| + |G| + |B| { assert t[i] == B[i - 6 - 2 * w - |R| - |G|]; }
    }
  }

  /** Where the pieces of `RgbPattern` sit. */
  lemma RgbPatternLayout(R: string, G: string, B: string, percent: bool)
    ensures var t := RgbPattern(R, G, B, percent);
      var w := if percent then 1 else 0;
      var a := 4 + |R| + w;
      var b := a + 1 + |G| + w;
      var c := b + 1 + |B| + w;
      |t| == c + 1 && t[..4] == "rgb(" && t[4..4 + |R|] == R &&
      t[a] == ',' && t[a + 1..a + 1 + |G|] == G &&
      t[b] == ',' && t[b + 1..b + 1 + |B|] == B && t[c] == ')' &&
      (percent ==> t[4 + |R|] == '%' && t[a + 1 + |G|] == '%' && t[b + 1 + |B|] == '%')
  {
  }

  /** A channel of digits `d` at `from` ends after the digits and, in the percent form, the `%`. */
  lemma ChannelEndOf(t: string, from: nat, d: string, percent: bool)
    requires AllDigits(d) && d != [] && from + |d| < |t| && t[from..from + |d|] == d
    requires !IsDigit(t[from + |d|])
    requires percent ==> t[from + |d|] == '%'
    ensures ChannelEnd(t, from, percent) == from + |d| + (if percent then 1 else 0)
  {
    DigitRunOf(t, from, d);
  }

  /** Text laid out as `rgb(` R `,` G `,` B `)`, with `%` after each channel
      in the percent form, matches that form. */
  lemma RgbAtLayout(t: string, R: string, G: string, B: string, percent: bool, w: nat, a: nat, b: nat, c: nat)
    requires AllDigits(R) && AllDigits(G) && AllDigits(B) && R != [] && G != [] && B != []
    requires w == (if percent then 1 else 0) && a == 4 + |R| + w && b == a + 1 + |G| + w && c == b + 1 + |B| + w
    requires |t| == c + 1 && t[..4] == "rgb(" && t[4..4 + |R|] == R
    requires t[a] == ',' && t[a + 1..a + 1 + |G|] == G
    requires t[b] == ',' && t[b + 1..b + 1 + |B|] == B && t[c] == ')'
    requires percent ==> t[4 + |R|] == '%' && t[a + 1 + |G|] == '%' && t[b + 1 + |B|] == '%'
    ensures RgbAt(t, 0, percent)
    ensures percent ==> !RgbAt(t, 0, false)
  {
    ChannelsLayout(t, R, G, B, percent, w, a, b, c);
    assert ToLower(t[0..4]) == "rgb(" by {
      assert t[0..4] == t[..4];
      LowerRgb(t[0..4]);
    }
    if percent {
      assert !ChannelsAt(t, 4, false) by {
        ChannelEndOf(t, 4, R, false);
      }
    }
  }

  /** The three channels of that layout match from position 4. */
  lemma ChannelsLayout(t: string, R: string, G: string, B: string, percent: bool, w: nat, a: nat, b: nat, c: nat)
    requires AllDigits(R) && AllDigits(G) && AllDigits(B) && R != [] && G != [] && B != []
    requires w == (if percent then 1 else 0) && a == 4 + |R| + w && b == a + 1 + |G| + w && c == b + 1 + |B| + w
    requires |t| == c + 1 && t[4..4 + |R|] == R
    requires t[a] == ',' && t[a + 1..a + 1 + |G|] == G
    requires t[b] == ',' && t[b + 1..b + 1 + |B|] == B && t[c] == ')'
    requires percent ==> t[4 + |R|] == '%' && t[a + 1 + |G|] == '%' && t[b + 1 + |B|] == '%'
    ensures ChannelsAt(t, 4, percent)
  {
    ChannelEndBefore(t, 4, R, percent, w, a);
    ChannelEndBefore(t, a + 1, G, percent, w, b);
    ChannelEndBefore(t, b + 1, B, percent, w, c);
    ChannelsAtOf(t, 4, a, b, c, percent);
  }

  /** A channel of digits `d` at `from`, followed by a `%` when `percent`,
      ends at `e` when the character at `e` is not a digit. */
  lemma ChannelEndBefore(t: string, from: nat, d: string, percent: bool, w: nat, e: nat)
    requires AllDigits(d) && d != [] && w == (if percent then 1 else 0) && e == from + |d| + w
    requires e < |t| && t[from..from + |d|] == d && !IsDigit(t[e])
    requires percent ==> t[from + |d|] == '%'
    ensures ChannelEnd(t, from, percent) == e
  {
    ChannelEndOf(t, from, d, percent);
  }

  lemma ChannelsAtOf(t: string, from: nat, a: int, b: int, c: int, percent: bool)
    requires from <= |t|
    requires ChannelEnd(t, from, percent) == a && 0 <= a < |t| && t[a] == ','
    requires ChannelEnd(t, a + 1, percent) == b && 0 <= b < |t| && t[b] == ','
    requires ChannelEnd(t, b + 1, percent) == c && 0 <= c < |t| && t[c] == ')'
    ensures ChannelsAt(t, from, percent)
  {
  }

  lemma LowerRgb(x: string)
    requires x == "rgb("
    ensures ToLower(x) == "rgb("
  {
    assert ToLower(x)[0] == 'r' && ToLower(x)[1] == 'g' && ToLower(x)[2] == 'b' && ToLower(x)[3] == '(';
  }

  lemma RgbPatternMatches(R: string, G: string, B: string, percent: bool)
    requires AllDigits(R) && AllDigits(G) && AllDigits(B) && R != [] && G != [] && B != []
    ensures RgbAt(RgbPattern(R, G, B, percent), 0, percent)
    ensures percent ==> !RgbAt(RgbPattern(R, G, B, percent), 0, false)
  {
    RgbPatternLayout(R, G, B, percent);
    var w := if percent then 1 else 0;
    RgbAtLayout(RgbPattern(R, G, B, percent), R, G, B, percent, w, 4 + |R| + w, 5 + |R| + |G| + 2 * w, 6 + |R| + |G| + |B| + 3 * w);
  }

  /** Text that starts with `rgb(` followed only by digits, `%`, `,` and `)`
      has no hex colour and no white space, and the `rgb` pattern can match
      only at its start. */
  /** Text of `rgb(` and then digits, `%`, `,` and `)` has no `#`, no white
      space and no `r` past its start. */
  lemma RgbTextChars(t: string)
    requires |t| >= 4 && t[..4] == "rgb("
    requires forall i :: 4 <= i < |t| ==> IsDigit(t[i]) || t[i] in "%,)"
    ensures forall i :: 0 <= i < |t| ==> t[i] != '#' && !IsSpace(t[i]) && (i >= 1 ==> t[i] !in "rR")
  {
    forall i | 0 <= i < |t| ensures t[i] != '#' && !IsSpace(t[i]) && (i >= 1 ==> t[i] !in "rR") {
      if i < 4 { assert t[i] == t[..4][i]; }
    }
  }

  lemma RgbSyntaxOf(t: string, percent: bool)
    requires |t| >= 4 && t[..4] == "rgb("
    requires forall i :: 4 <= i < |t| ==> IsDigit(t[i]) || t[i] in "%,)"
    requires RgbAt(t, 0, percent)
    requires percent ==> !RgbAt(t, 0, false)
    ensures !HasHex6(t) && !HasHex3(t) && RemoveSpaces(t) == t && HasRgb(t, percent)
    ensures percent ==> !HasRgb(t, false)
  {
    RgbTextChars(t);
    NoHashNoHex(t);
    RemoveSpacesNoop(t);
    if percent {
      NoRgbPastStart(t, false);
    }
  }

  lemma RgbPatternSyntax(R: string, G: string, B: string, percent: bool)
    requires AllDigits(R) && AllDigits(G) && AllDigits(B) && R != [] && G != [] && B != []
    ensures var t := RgbPattern(R, G, B, percent);
      !HasHex6(t) && !HasHex3(t) && RemoveSpaces(t) == t && HasRgb(t, percent) &&
      (percent ==> !HasRgb(t, false))
  {
    RgbPatternChars(R, G, B, percent);
    RgbPatternLayout(R, G, B, percent);
    RgbPatternMatches(R, G, B, percent);
    RgbSyntaxOf(RgbPattern(R, G, B, percent), percent);
  }

  /** Text that matches only the `rgb` pattern of the given form is decoded channel by channel. */
  lemma FormatColorOfRgb(t: string, percent: bool)
    requires !HasHex6(t) && !HasHex3(t) && RemoveSpaces(t) == t
    requires HasRgb(t, percent) && (percent ==> !HasRgb(t, false))
    ensures var c := RgbChannels(t, percent);
      FormatColor(t) == ToUpper(
        if percent then "#" + PercentToHex(Channel(c, 0)) + PercentToHex(Channel(c, 1)) + PercentToHex(Channel(c, 2))
        else "#" + NumberToHex(Channel(c, 0)) + NumberToHex(Channel(c, 1)) + NumberToHex(Channel(c, 2)))
  {
  }

  /** `rgb(r,g,b)` with channels 0..255 becomes `#` and the two-digit hex of each channel. */
  lemma FormatColorRgb(r: nat, g: nat, b: nat)
    requires r <= 255 && g <= 255 && b <= 255
    ensures FormatColor(RgbText(r, g, b)) ==
      "#" + NumberToHex(Num(r as real)) + NumberToHex(Num(g as real)) + NumberToHex(Num(b as real))
  {
    var x, y, z := NumberToHex(Num(r as real)), NumberToHex(Num(g as real)), NumberToHex(Num(b as real));
    assert FormatColor(RgbText(r, g, b)) == ToUpper("#" + x + y + z) by {
      FormatColorOfDigits(r, g, b, false);
    }
    assert IsUpperHex(x) && IsUpperHex(y) && IsUpperHex(z) by {
      NumberToHexTwoDigits(r);
      NumberToHexTwoDigits(g);
      NumberToHexTwoDigits(b);
    }
    UpperHexColor(x, y, z);
  }

  /** `rgb(r%,g%,b%)` with shares 0..100 becomes `#` and `round(p * 255 / 100)` in hex per channel. */
  lemma FormatColorRgbPercent(r: nat, g: nat, b: nat)
    requires r <= 100 && g <= 100 && b <= 100
    ensures FormatColor(RgbPercentText(r, g, b)) ==
      "#" + PercentToHex(Num(r as real)) + PercentToHex(Num(g as real)) + PercentToHex(Num(b as real))
  {
    var x, y, z := PercentToHex(Num(r as real)), PercentToHex(Num(g as real)), PercentToHex(Num(b as real));
    assert FormatColor(RgbPercentText(r, g, b)) == ToUpper("#" + x + y + z) by {
      FormatColorOfDigits(r, g, b, true);
    }
    assert IsUpperHex(x) && IsUpperHex(y) && IsUpperHex(z) by {
      PercentToHexChannel(r as real);
      PercentToHexChannel(g as real);
      PercentToHexChannel(b as real);
    }
    UpperHexColor(x, y, z);
  }

  /** The `rgb` pattern written with the digits of `r`, `g` and `b` is
      decoded to those three numbers. */
  lemma FormatColorOfDigits(r: nat, g: nat, b: nat, percent: bool)
    ensures var t := RgbPattern(NatToString(r), NatToString(g), NatToString(b), percent);
      FormatColor(t) == ToUpper(
        if percent then "#" + PercentToHex(Num(r as real)) + PercentToHex(Num(g as real)) + PercentToHex(Num(b as real))
        else "#" + NumberToHex(Num(r as real)) + NumberToHex(Num(g as real)) + NumberToHex(Num(b as real)))
  {
    var R, G, B := NatToString(r), NatToString(g), NatToString(b);
    var t := RgbPattern(R, G, B, percent);
    var c := RgbChannels(t, percent);
    assert Channel(c, 0) == Num(r as real) && Channel(c, 1) == Num(g as real) && Channel(c, 2) == Num(b as real) by {
      ChannelsOfDigits(r, g, b, percent);
    }
    RgbPatternSyntax(R, G, B, percent);
    FormatColorOfRgb(t, percent);
  }

  /** The channels of the `rgb` pattern read back as the numbers written. */
  lemma ChannelsOfDigits(r: nat, g: nat, b: nat, percent: bool)
    ensures var c := RgbChannels(RgbPattern(NatToString(r), NatToString(g), NatToString(b), percent), percent);
      Channel(c, 0) == Num(r as real) && Channel(c, 1) == Num(g as real) && Channel(c, 2) == Num(b as real)
  {
    var R, G, B := NatToString(r), NatToString(g), NatToString(b);
    RgbChannelsOf(R, G, B, percent);
    NumberOfDigits(r);
    NumberOfDigits(g);
    NumberOfDigits(b);
  }

  lemma NoHashNoHex(t: string)
    requires '#' !in t
    ensures !HasHex6(t) && !HasHex3(t)
  {
  }

  lemma UpperHexUnchanged(x: string)
    requires IsUpperHex(x)
    ensures ToUpper(x) == x
  {
  }

  /** `#` followed by three upper-case hex codes is already upper-case. */
  lemma UpperHexColor(x: string, y: string, z: string)
    requires IsUpperHex(x) && IsUpperHex(y) && IsUpperHex(z)
    ensures ToUpper("#" + x + y + z) == "#" + x + y + z
  {
    UpperHexUnchanged(x);
    UpperHexUnchanged(y);
    UpperHexUnchanged(z);
    ToUpperAppend("#", x);
    ToUpperAppend("#" + x, y);
    ToUpperAppend("#" + x + y, z);
  }

  /** Splitting the channel text of `rgb(R<s1>G<s2>B<s3>` gives back `R`, `G` and `B`. */
  lemma RgbChannelsOf(R: string, G: string, B: string, percent: bool)
    requires AllDigits(R) && AllDigits(G) && AllDigits(B)
    ensures var c := RgbChannels(RgbPattern(R, G, B, percent), percent);
      |c| >= 3 && c[0] == R && c[1] == G && c[2] == B
  {
    var t := RgbPattern(R, G, B, percent);
    var body := RgbBody(R, G, B, percent);
    assert t == "rgb(" + (body + ")");
    assert t[..4] == "rgb(" && t[4..] == body + ")";
    RgbBodyChars(R, G, B, percent);
    if percent {
      RemovePercents(R, G, B);
    }
    ChannelsOfText(t, body, R, G, B, percent);
  }

  lemma ChannelsOfText(t: string, body: string, R: string, G: string, B: string, percent: bool)
    requires AllDigits(R) && AllDigits(G) && AllDigits(B)
    requires |t| >= 4 && t[..4] == "rgb(" && t[4..] == body + ")" && ')' !in body
    requires (if percent then RemoveAll(body, IsPercent) else body) == R + "," + G + "," + B
    ensures var c := RgbChannels(t, percent);
      |c| >= 3 && c[0] == R && c[1] == G && c[2] == B
  {
    var x := R + "," + G + "," + B;
    assert RgbChannels(t, percent) == Split(x, ',') by {
      StripRgbCall(t, body);
    }
    SplitThree(R, G, B);
  }

  /** `rgb(` and the closing `)` come off the channel text. */
  lemma StripRgbCall(t: string, body: string)
    requires |t| >= 4 && t[..4] == "rgb(" && t[4..] == body + ")" && ')' !in body
    ensures ReplaceFirst(ReplaceFirstIgnoreCase(t, "rgb(", ""), ")", "") == body
  {
    StripRgb(t, body + ")");
    FirstOccurrenceAtEnd(body, ')');
  }

  lemma StripRgb(t: string, rest: string)
    requires |t| >= 4 && t[..4] == "rgb(" && t[4..] == rest
    ensures ReplaceFirstIgnoreCase(t, "rgb(", "") == rest
  {
    assert ToLower(t)[..4] == "rgb(";
    assert OccursAt(ToLower(t), "rgb(", 0);
  }

  lemma RgbBodyChars(R: string, G: string, B: string, percent: bool)
    requires AllDigits(R) && AllDigits(G) && AllDigits(B)
    ensures ')' !in RgbBody(R, G, B, percent)
  {
    var body := RgbBody(R, G, B, percent);
    var w := if percent then 1 else 0;
    forall i | 0 <= i < |body| ensures body[i] != ')' {
      if i < |R| { assert body[i] == R[i]; }
      else if i < |R| + 1 + w { }
      else if i < |R| + 1 + w + |G| { assert body[i] == G[i - |R| - 1 - w]; }
      else if i < |R| + 2 + 2 * w + |G| { }
      else if i < |R| + 2 + 2 * w + |G| + |B| { assert body[i] == B[i - |R| - 2 - 2 * w - |G|]; }
    }
  }

  /** Removing `%` from a channel, its `%` and what follows. */
  lemma RemovePercentAfter(D: string, comma: bool, rest: string)
    requires AllDigits(D)
    ensures var sep := if comma then "%," else "%";
      RemoveAll(D + sep + rest, IsPercent) == D + (if comma then "," else "") + RemoveAll(rest, IsPercent)
  {
    var sep := if comma then "%," else "%";
    RemoveAllNoop(D, IsPercent);
    assert D + sep + rest == D + (sep + rest);
    RemoveAllAppend(D, sep + rest, IsPercent);
    if comma {
      RemovePercentComma(rest);
    } else {
      RemovePercentOnly(rest);
    }
  }

  lemma RemovePercentComma(rest: string)
    ensures RemoveAll("%," + rest, IsPercent) == "," + RemoveAll(rest, IsPercent)
  {
    var x := "%," + rest;
    assert RemoveAll(x, IsPercent) == RemoveAll(x[1..], IsPercent);
    var y := x[1..];
    assert y == [','] + rest;
    assert RemoveAll(y, IsPercent) == [','] + RemoveAll(y[1..], IsPercent);
    assert y[1..] == rest;
  }

  lemma RemovePercentOnly(rest: string)
    ensures RemoveAll("%" + rest, IsPercent) == RemoveAll(rest, IsPercent)
  {
    var x := "%" + rest;
    assert RemoveAll(x, IsPercent) == RemoveAll(x[1..], IsPercent);
    assert x[1..] == rest;
  }

  lemma RemovePercents(R: string, G: string, B: string)
    requires AllDigits(R) && AllDigits(G) && AllDigits(B)
    ensures RemoveAll(RgbBody(R, G, B, true), IsPercent) == R + "," + G + "," + B
  {
    RemovePercentAfter(B, false, "");
    assert B + "%" + "" == B + "%";
    RemovePercentAfter(G, true, B + "%");
    RemovePercentAfter(R, true, G + "%," + (B + "%"));
    assert RgbBody(R, G, B, true) == R + "%," + (G + "%," + (B + "%"));
  }

  lemma FirstOccurrenceAtEnd(body: string, c: char)
    requires c !in body
    ensures IndexOf(body + [c], [c]) == |body|
  {
    var t := body + [c];
    assert OccursAt(t, [c], |body|);
    forall j | 0 <= j < |body| ensures !OccursAt(t, [c], j) {
      assert t[j] == body[j];
    }
  }

  lemma SplitThree(R: string, G: string, B: string)
    requires ',' !in R && ',' !in G && ',' !in B
    ensures Split(R + "," + G + "," + B, ',') == [R, G, B]
  {
    SplitNone(B, ',');
    SplitFirst(G, B, ',');
    assert R + "," + G + "," + B == R + [','] + (G + [','] + B);
    SplitFirst(R, G + [','] + B, ',');
  }

  /** A name of lower-case letters that does not start with `rgb` matches none
      of the hex and `rgb` patterns. */
  lemma LettersAreNoColorSyntax(s: string)
    requires forall i :: 0 <= i < |s| ==> 'a' <= s[i] <= 'z'
    requires !(|s| >= 3 && s[..3] == "rgb")
    ensures !HasHex6(s) && !HasHex3(s) && !StartsWithHashOrRgb(s)
    ensures !HasRgb(RemoveSpaces(s), false) && !HasRgb(RemoveSpaces(s), true)
  {
    NoHashNoHex(s);
    RemoveSpacesNoop(s);
    forall i | 0 <= i <= |s| ensures !RgbAt(s, i, false) && !RgbAt(s, i, true) {
      if i + 4 <= |s| { assert s[i + 3] != '('; assert ToLower(s[i..i + 4])[3] == s[i + 3]; }
    }
    if |s| >= 3 { assert ToLower(s[..3]) == s[..3]; }
  }

  /** Such a name is looked up in the keyword table. */
  lemma FormatColorKeyword(s: string)
    requires forall i :: 0 <= i < |s| ==> 'a' <= s[i] <= 'z'
    requires !(|s| >= 3 && s[..3] == "rgb")
    ensures FormatColor(s) == ToUpper(KeywordToHex(s))
  {
    LettersAreNoColorSyntax(s);
  }

  /** The empty string is an unknown keyword. */
  lemma FormatColorEmpty()
    ensures FormatColor("") == "#000000"
  {
    FormatColorKeyword("");
  }

  /** Text that starts like a hex or `rgb` colour but matches none of the
      patterns is not looked up: the result is empty. */
  lemma FormatColorUnmatched(s: string)
    requires StartsWithHashOrRgb(s)
    requires !HasHex6(s) && !HasHex3(s)
    requires !HasRgb(RemoveSpaces(s), false) && !HasRgb(RemoveSpaces(s), true)
    ensures FormatColor(s) == ""
  {
  }

  lemma FormatColorUnmatchedExample()
    ensures FormatColor("#12") == ""
  {
    var s := "#12";
    RemoveSpacesNoop(s);
    assert !RgbAt(s, 0, false) && !RgbAt(s, 0, true);
    FormatColorUnmatched(s);
  }
}
