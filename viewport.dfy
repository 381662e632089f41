/** The size header of svg2vectordrawable.js: the drawable's width and height
    (`android:width`, `android:height`), which are divided by the density
    ratio, and its viewport (`android:viewportWidth`,
    `android:viewportHeight`), which is taken as it is. */
module Viewport {
  import opened JsText
  import opened JsNumber

  /** The density assumed when none is given. */
  const NoDpi := "nodpi"

  /** `standardDPI`: the density of `mdpi`. */
  const StandardDpi: real := 160.0

  /** `densityToRatio(d)`: a density whose `parseInt` is a number gives that
      number of dots per inch over 160; any other density is looked up by
      name. */
  function DensityToRatio(d: JsValue): (r: JsNum)
    ensures ParseInt(Render(d)).Num? ==> r == Num(ParseInt(Render(d)).r / StandardDpi)
  {
    var p := ParseInt(Render(d));
    if p == NaN then Num(if d.Str? then NamedRatio(d.s) else 1.0)
    else Div(p, Num(StandardDpi))
  }

  /** The `switch` over density names; `nodpi` and unknown names give 1. */
  function NamedRatio(name: string): real
  {
    if name == "ldpi" then 120.0 / StandardDpi
    else if name == "mdpi" then 160.0 / StandardDpi
    else if name == "hdpi" then 240.0 / StandardDpi
    else if name == "xhdpi" then 320.0 / StandardDpi
    else if name == "xxhdpi" then 480.0 / StandardDpi
    else if name == "xxxhdpi" then 640.0 / StandardDpi
    else if name == "nodpi" then 1.0
    else 1.0
  }

  predicate IsBucket(s: string)
  {
    s in {"ldpi", "mdpi", "hdpi", "xhdpi", "xxhdpi", "xxxhdpi"}
  }

  /** A text that starts with an ASCII letter holds no integer. */
  lemma ParseIntOfWord(s: string)
    requires s != [] && 'a' <= s[0] <= 'z'
    ensures ParseInt(s) == NaN
    ensures ParseInt(Render(Str(s))) == NaN
  {
    assert FindChar(s, c => !IsSpace(c), 0) == 0;
    assert DigitRun(s, 0) == 0;
  }

  /** A text of decimal digits is read as their value. */
  lemma ParseIntOfDigits(s: string)
    requires s != [] && forall i :: 0 <= i < |s| ==> IsDigit(s[i])
    ensures ParseInt(s) == Num(DigitsValue(s) as real)
  {
    ParseIntUnsigned(s);
    assert DigitRun(s, 0) == |s|;
    assert s[..|s|] == s;
  }

  /** `parseInt` of text that starts with neither white space, a sign nor `0x`. */
  lemma ParseIntUnsigned(s: string)
    requires s != [] && !IsSpace(s[0]) && s[0] != '-' && s[0] != '+'
    requires !(|s| >= 2 && s[0] == '0' && (s[1] == 'x' || s[1] == 'X'))
    ensures var k := DigitRun(s, 0); ParseInt(s) == if k == 0 then NaN else Whole(false, DigitsValue(s[..k]))
  {
    assert FindChar(s, c => !IsSpace(c), 0) == 0;
    assert s[0..] == s;
  }

  /** The named buckets: ldpi, mdpi, hdpi, xhdpi, xxhdpi and xxxhdpi are
      120, 160, 240, 320, 480 and 640 dots per inch over 160; every other
      name, `nodpi` among them, is 1. */
  lemma DensityBuckets(name: string)
    ensures name == "ldpi" ==> NamedRatio(name) == 0.75
    ensures name == "mdpi" ==> NamedRatio(name) == 1.0
    ensures name == "hdpi" ==> NamedRatio(name) == 1.5
    ensures name == "xhdpi" ==> NamedRatio(name) == 2.0
    ensures name == "xxhdpi" ==> NamedRatio(name) == 3.0
    ensures name == "xxxhdpi" ==> NamedRatio(name) == 4.0
    ensures !IsBucket(name) ==> NamedRatio(name) == 1.0
  {
  }

  /** A density written as a word is looked up by name. */
  lemma DensityOfWord(s: string)
    requires s != [] && 'a' <= s[0] <= 'z'
    ensures DensityToRatio(Str(s)) == Num(NamedRatio(s))
  {
    ParseIntOfWord(s);
  }

  /** A number of dots per inch, given as digits or as a number, gives
      that number over 160. */
  lemma DensityOfDpi(dpi: nat)
    ensures DensityToRatio(Str(NatToString(dpi))) == Num(dpi as real / 160.0)
    ensures DensityToRatio(Number(Num(dpi as real))) == Num(dpi as real / 160.0)
  {
    ParseIntOfDigits(NatToString(dpi));
    assert Render(Number(Num(dpi as real))) == NatToString(dpi);
  }

  /** `Math.ceil(size / densityToRatio(density))`; the size is a number from
      `parseInt` or a text from the `viewBox`, which the division reads. */
  function OutputSize(size: JsValue, density: JsValue): (n: JsNum)
    ensures ToNumber(size).Num? && DensityToRatio(density).Num? && DensityToRatio(density).r != 0.0 ==>
      n == Ceil(Num(ToNumber(size).r / DensityToRatio(density).r))
  {
    Ceil(Div(ToNumber(size), DensityToRatio(density)))
  }

  /** The output size is the size divided by dpi/160, rounded up. */
  lemma OutputSizeScales(size: real, dpi: nat)
    requires dpi > 0
    ensures OutputSize(Number(Num(size)), Number(Num(dpi as real))) == Ceil(Num(size * 160.0 / dpi as real))
    ensures OutputSize(Number(Num(size)), Str(NatToString(dpi))) == Ceil(Num(size * 160.0 / dpi as real))
  {
    var q := dpi as real / 160.0;
    assert DensityToRatio(Number(Num(dpi as real))) == Num(q) && DensityToRatio(Str(NatToString(dpi))) == Num(q) by {
      DensityOfDpi(dpi);
    }
    assert size / q == size * 160.0 / dpi as real by {
      DivideByRatio(size, dpi as real);
    }
  }

  lemma DivideByRatio(size: real, dpi: real)
    requires dpi > 0.0
    ensures size / (dpi / 160.0) == size * 160.0 / dpi
  {
    var q := dpi / 160.0;
    var a := size / q;
    assert a * q == size;
    assert a * dpi == size * 160.0 by {
      assert dpi == q * 160.0;
      assert a * dpi == (a * q) * 160.0;
    }
  }

  /** A density named by a word that is not a bucket, `nodpi` among them,
      keeps a whole size as it is. */
  lemma OutputSizeUnscaled(size: int, name: string)
    requires name != [] && 'a' <= name[0] <= 'z' && !IsBucket(name)
    ensures OutputSize(Number(Num(size as real)), Str(name)) == Num(size as real)
  {
    var x := size as real;
    calc {
      OutputSize(Number(Num(x)), Str(name));
    ==
      Ceil(Div(Num(x), DensityToRatio(Str(name))));
    == { DensityOfWord(name); DensityBuckets(name); }
      Ceil(Div(Num(x), Num(1.0)));
    == { assert x / 1.0 == x; }
      Ceil(Num(x));
    == { assert (-x).Floor == -size; }
      Num(x);
    }
  }

  // ---------------------------------------------------------------------------
  // The header of svg2vectorDrawableContent
  // ---------------------------------------------------------------------------

  /** The four values the header prints. */
  datatype Header = Header(width: JsNum, height: JsNum, viewportWidth: JsValue, viewportHeight: JsValue)

  /** `viewBox.split(' ')[k]`, `undefined` past the end. */
  function ViewBoxPart(viewBox: string, k: nat): (v: JsValue)
    ensures v.Undef? <==> k >= |Split(viewBox, ' ')|
  {
    var parts := Split(viewBox, ' ');
    if k < |parts| then Str(parts[k]) else Undef
  }

  /** The width (k = 2) or height (k = 3) before scaling: `parseInt` of the
      attribute, else the `viewBox` part, else 24. */
  function Size(attrib: map<string, string>, name: string, k: nat): JsValue
  {
    if name in attrib then Number(ParseInt(attrib[name]))
    else if "viewBox" in attrib then ViewBoxPart(attrib["viewBox"], k)
    else Number(Num(24.0))
  }

  /** A viewport dimension: the `viewBox` part, else `parseInt` of the
      attribute, else 24. */
  function ViewportSize(attrib: map<string, string>, name: string, k: nat): JsValue
  {
    if "viewBox" in attrib then ViewBoxPart(attrib["viewBox"], k)
    else if name in attrib then Number(ParseInt(attrib[name]))
    else Number(Num(24.0))
  }

  /** The density the sizes are divided by: an absent density is `nodpi`. */
  function EffectiveDensity(density: JsValue): JsValue
  {
    if density.Undef? then Str(NoDpi) else density
  }

  /** The header values for the root's attributes. */
  function ComputeHeader(attrib: map<string, string>, density: JsValue): Header
  {
    var d := EffectiveDensity(density);
    Header(OutputSize(Size(attrib, "width", 2), d), OutputSize(Size(attrib, "height", 3), d),
           ViewportSize(attrib, "width", 2), ViewportSize(attrib, "height", 3))
  }

  /** The opening of the drawable as svg2vectordrawable.js writes it. */
  function HeaderText(h: Header): string
  {
    "<?xml version=\"1.0\" encoding=\"utf-8\"?>\n"
    + "<vector xmlns:android=\"http://schemas.android.com/apk/res/android\"\n"
    + "    android:width=\"" + ToString(h.width) + "dp\"\n"
    + "    android:height=\"" + ToString(h.height) + "dp\"\n"
    + "    android:viewportWidth=\"" + Render(h.viewportWidth) + "\"\n"
    + "    android:viewportHeight=\"" + Render(h.viewportHeight) + "\">\n"
  }

  /** The viewport is never scaled: it is the same at every density. */
  lemma ViewportIgnoresDensity(attrib: map<string, string>, d1: JsValue, d2: JsValue)
    ensures ComputeHeader(attrib, d1).viewportWidth == ComputeHeader(attrib, d2).viewportWidth
    ensures ComputeHeader(attrib, d1).viewportHeight == ComputeHeader(attrib, d2).viewportHeight
  {
  }

  /** A root with neither `viewBox` nor `width`/`height` has a 24 by 24
      viewport and, without a density, a 24 by 24 size. */
  lemma HeaderDefaults(attrib: map<string, string>)
    requires "viewBox" !in attrib && "width" !in attrib && "height" !in attrib
    ensures ComputeHeader(attrib, Undef) == Header(Num(24.0), Num(24.0), Number(Num(24.0)), Number(Num(24.0)))
  {
    OutputSizeUnscaled(24, NoDpi);
  }

  /** With `viewBox="x y w h"` the viewport is `w` by `h` whatever the
      `width` and `height` say, and a missing `width` or `height` is taken
      from the `viewBox` and scaled. */
  lemma HeaderFromViewBox(attrib: map<string, string>, x: string, y: string, w: string, h: string, density: JsValue)
    requires ' ' !in x && ' ' !in y && ' ' !in w && ' ' !in h
    requires "viewBox" in attrib && attrib["viewBox"] == Join([x, y, w, h], ' ')
    ensures ComputeHeader(attrib, density).viewportWidth == Str(w)
    ensures ComputeHeader(attrib, density).viewportHeight == Str(h)
    ensures "width" !in attrib ==>
      ComputeHeader(attrib, density).width == OutputSize(Str(w), EffectiveDensity(density))
    ensures "height" !in attrib ==>
      ComputeHeader(attrib, density).height == OutputSize(Str(h), EffectiveDensity(density))
    ensures "width" !in attrib && density.Undef? ==>
      ComputeHeader(attrib, density).width == OutputSize(Str(w), Str(NoDpi))
  {
    JoinSplit([x, y, w, h], ' ');
  }

  /** `width`/`height` attributes set the size (scaled) and, without a
      `viewBox`, the viewport (unscaled). */
  lemma HeaderFromSize(attrib: map<string, string>, density: JsValue)
    requires "width" in attrib && "height" in attrib && "viewBox" !in attrib
    ensures ComputeHeader(attrib, density).width ==
      OutputSize(Number(ParseInt(attrib["width"])), EffectiveDensity(density))
    ensures ComputeHeader(attrib, density).height ==
      OutputSize(Number(ParseInt(attrib["height"])), EffectiveDensity(density))
    ensures density.Undef? ==>
      ComputeHeader(attrib, density).width == OutputSize(Number(ParseInt(attrib["width"])), Str(NoDpi)) &&
      ComputeHeader(attrib, density).height == OutputSize(Number(ParseInt(attrib["height"])), Str(NoDpi))
    ensures ComputeHeader(attrib, density).viewportWidth == Number(ParseInt(attrib["width"]))
    ensures ComputeHeader(attrib, density).viewportHeight == Number(ParseInt(attrib["height"]))
  {
  }
}
