/** The two colour helpers of lib/js2vectordrawable.js: `mergeColorAndOpacity`,
    which writes an opacity into a colour as the `AA` byte of `#AARRGGBB`,
    and `isPercent`. */
module ColorMerge {
  import opened JsText
  import opened JsNumber
  import opened Color

  /** `Number(Math.round(opacity * 255)).toString(16)`, with a `0` in front
      when that is one character. */
  function AlphaHex(opacity: JsValue): string
  {
    var h := ToHexString(Round(Mul(ToNumber(opacity), Num(255.0))));
    if |h| == 1 then "0" + h else h
  }

  /** `colorHex.slice(0, 1) + opacityHex + colorHex.slice(1)`, upper-cased. */
  function InsertAlpha(c: string, opacity: JsValue): string
  {
    var h := if |c| >= 1 then 1 else 0;
    ToUpper(c[..h] + AlphaHex(opacity) + c[h..])
  }

  /** `mergeColorAndOpacity(colorHex, opacity)` as the source writes it: the
      `#RGB` expansion fires wherever `#` and three hex digits occur, and then
      rebuilds the colour from characters 1 to 3, so that a `#RRGGBB` colour
      is replaced by the expansion of its first three digits. */
  function MergeColorAndOpacityAsWritten(colorHex: string, opacity: JsValue): (r: string)
    ensures |r| >= |colorHex| + 2 || HasHex3(colorHex)
  {
    var c := if HasHex3(colorHex)
      then "#" + [colorHex[1], colorHex[1], colorHex[2], colorHex[2], colorHex[3], colorHex[3]]
      else colorHex;
    InsertAlpha(c, opacity)
  }

  /** The same with the `#RGB` test anchored to the whole text, as intended:
      only a three-digit colour is expanded. */
  function MergeColorAndOpacity(colorHex: string, opacity: JsValue): (r: string)
    ensures |r| >= |colorHex| + 2
  {
    var c := if |colorHex| == 4 && Hex3At(colorHex, 0)
      then "#" + [colorHex[1], colorHex[1], colorHex[2], colorHex[2], colorHex[3], colorHex[3]]
      else colorHex;
    InsertAlpha(c, opacity)
  }

  /** The alpha byte: two upper-case digits reading back as the rounded
      `opacity * 255`, for every opacity from 0 to 1. */
  lemma AlphaByte(op: real)
    requires 0.0 <= op <= 1.0
    ensures var a := ToUpper(AlphaHex(Number(Num(op))));
      |a| == 2 && IsUpperHex(a) && HexValue(a) == (op * 255.0 + 0.5).Floor
  {
    var v := (op * 255.0 + 0.5).Floor;
    assert 0 <= v <= 255;
    assert Round(Mul(Num(op), Num(255.0))) == Num(v as real);
    assert ToUpper(AlphaHex(Number(Num(op)))) == NumberToHex(Num(v as real));
    NumberToHexTwoDigits(v);
  }

  /** A colour other than `#RGB` keeps its characters: the alpha byte goes
      in after the first one and everything is upper-cased. */
  lemma MergeKeepsColor(c: string, op: real)
    requires 0.0 <= op <= 1.0 && |c| >= 1 && !(|c| == 4 && Hex3At(c, 0))
    ensures var r := MergeColorAndOpacity(c, Number(Num(op)));
      |r| == |c| + 2 && r[..1] == ToUpper(c[..1]) && r[3..] == ToUpper(c[1..]) &&
      IsUpperHex(r[1..3]) && HexValue(r[1..3]) == (op * 255.0 + 0.5).Floor
  {
    var a := AlphaHex(Number(Num(op)));
    AlphaByte(op);
    ToUpperAppend(c[..1] + a, c[1..]);
    ToUpperAppend(c[..1], a);
    var r := MergeColorAndOpacity(c, Number(Num(op)));
    assert r == ToUpper(c[..1]) + ToUpper(a) + ToUpper(c[1..]);
  }

  /** `#RGB` is expanded to `#RRGGBB` before the alpha byte goes in. */
  lemma MergeExpandsShortHex(x: char, y: char, z: char, op: real)
    requires IsHexDigit(x) && IsHexDigit(y) && IsHexDigit(z) && 0.0 <= op <= 1.0
    ensures MergeColorAndOpacity(['#', x, y, z], Number(Num(op))) ==
      "#" + ToUpper(AlphaHex(Number(Num(op)))) + ToUpper([x, x, y, y, z, z])
  {
    var c := ['#', x, y, z];
    assert Hex3At(c, 0);
    var e := "#" + [x, x, y, y, z, z];
    var a := AlphaHex(Number(Num(op)));
    ToUpperAppend(e[..1] + a, e[1..]);
    ToUpperAppend(e[..1], a);
    assert e[..1] == "#" && e[1..] == [x, x, y, y, z, z];
  }

  /** Full opacity writes `FF` and zero opacity `00`. */
  lemma MergeOpacityEnds(c: string)
    requires |c| >= 1 && !(|c| == 4 && Hex3At(c, 0))
    ensures MergeColorAndOpacity(c, Number(Num(1.0))) == ToUpper(c[..1]) + "FF" + ToUpper(c[1..])
    ensures MergeColorAndOpacity(c, Number(Num(0.0))) == ToUpper(c[..1]) + "00" + ToUpper(c[1..])
  {
    InsertAlphaSplit(c, Number(Num(1.0)));
    InsertAlphaSplit(c, Number(Num(0.0)));
    AlphaOfOne();
    AlphaOfZero();
  }

  lemma InsertAlphaSplit(c: string, op: JsValue)
    requires |c| >= 1
    ensures InsertAlpha(c, op) == ToUpper(c[..1]) + ToUpper(AlphaHex(op)) + ToUpper(c[1..])
  {
    var a := AlphaHex(op);
    ToUpperAppend(c[..1] + a, c[1..]);
    ToUpperAppend(c[..1], a);
  }

  lemma AlphaOfOne()
    ensures ToUpper(AlphaHex(Number(Num(1.0)))) == "FF"
  {
    assert Round(Mul(Num(1.0), Num(255.0))) == Num(255.0);
    HexOf255();
    assert ToUpper("ff") == "FF";
  }

  lemma AlphaOfZero()
    ensures ToUpper(AlphaHex(Number(Num(0.0)))) == "00"
  {
    assert Round(Mul(Num(0.0), Num(255.0))) == Num(0.0);
    assert ToHexString(Num(0.0)) == "0";
    assert ToUpper("00") == "00";
  }

  /** The source's unanchored test also fires inside a six-digit colour:
      opaque red `#FF0000` comes out as opaque yellow `#FFFFFF00` instead
      of `#FFFF0000`. */
  lemma AsWrittenTurnsRedYellow()
    ensures MergeColorAndOpacityAsWritten("#FF0000", Number(Num(1.0))) == "#FFFFFF00"
    ensures MergeColorAndOpacity("#FF0000", Number(Num(1.0))) == "#FFFF0000"
  {
    AsWrittenRed();
    AnchoredRed();
  }

  lemma AsWrittenRed()
    ensures MergeColorAndOpacityAsWritten("#FF0000", Number(Num(1.0))) == "#FFFFFF00"
  {
    var one := Number(Num(1.0));
    assert Hex3At("#FF0000", 0);
    assert MergeColorAndOpacityAsWritten("#FF0000", one) == InsertAlpha("#FFFF00", one);
    var y := "#FFFF00";
    assert y[1..] == ['F', 'F', 'F', 'F', '0', '0'];
    FsAndZeros(y[1..]);
    OpaqueColor(y);
    OpaqueText(y, "#FFFFFF00");
  }

  lemma AnchoredRed()
    ensures MergeColorAndOpacity("#FF0000", Number(Num(1.0))) == "#FFFF0000"
  {
    var c := "#FF0000";
    assert MergeColorAndOpacity(c, Number(Num(1.0))) == InsertAlpha(c, Number(Num(1.0)));
    assert c[1..] == ['F', 'F', '0', '0', '0', '0'];
    FsAndZeros(c[1..]);
    OpaqueColor(c);
    OpaqueText(c, "#FFFF0000");
  }

  lemma OpaqueText(c: string, r: string)
    requires |c| == 7 && |r| == 9 && r[..3] == "#FF" && r[3..] == c[1..]
    ensures "#FF" + c[1..] == r
  {
    assert r == r[..3] + r[3..];
  }

  lemma FsAndZeros(t: string)
    requires forall i :: 0 <= i < |t| ==> t[i] == 'F' || t[i] == '0'
    ensures IsUpperHex(t)
  {
  }

  /** Full opacity in front of an upper-case `#RRGGBB`. */
  lemma OpaqueColor(c: string)
    requires |c| == 7 && c[0] == '#' && IsUpperHex(c[1..])
    ensures InsertAlpha(c, Number(Num(1.0))) == "#FF" + c[1..]
  {
    InsertAlphaSplit(c, Number(Num(1.0)));
    AlphaOfOne();
    assert c[..1] == "#";
    assert ToUpper("#") == "#";
    UpperHexUnchanged(c[1..]);
  }

  /** As written, every `#RRGGBB` colour is rebuilt from its first three digits. */
  lemma AsWrittenRebuildsSixDigits(c: string, op: JsValue)
    requires |c| == 7 && Hex6At(c, 0)
    ensures MergeColorAndOpacityAsWritten(c, op) ==
      InsertAlpha("#" + [c[1], c[1], c[2], c[2], c[3], c[3]], op)
  {
    assert Hex3At(c, 0);
  }

  /** The two merges agree on every colour the unanchored test leaves alone
      and on an exact `#RGB`: there, what the source writes is what
      `MergeKeepsColor` and `MergeExpandsShortHex` describe. */
  lemma AsWrittenAgreesOutsideBug(c: string, op: JsValue)
    requires !HasHex3(c) || (|c| == 4 && Hex3At(c, 0))
    ensures MergeColorAndOpacityAsWritten(c, op) == MergeColorAndOpacity(c, op)
  {
    if |c| == 4 && Hex3At(c, 0) {
      assert HasHex3(c);
    }
  }

  // ---------------------------------------------------------------------------
  // isPercent
  // ---------------------------------------------------------------------------

  /** `/(-)?\d+(\.d+)?%$/.test(String(value))`. The optional parts only widen
      the match: the text ends in a digit and `%`, or in a digit, a point, one
      or more letters `d` and `%` (the source writes `\.d+`, a literal `d`). */
  predicate IsPercent(v: JsValue)
  {
    PercentText(Render(v))
  }

  predicate PercentText(s: string)
  {
    |s| >= 2 && s[|s| - 1] == '%' && (IsDigit(s[|s| - 2]) || PointDs(s[..|s| - 1]))
  }

  /** `b` ends in a digit, a point and one or more `d`. */
  predicate PointDs(b: string)
  {
    var t := DropDs(b);
    |t| < |b| && |t| >= 2 && t[|t| - 1] == '.' && IsDigit(t[|t| - 2])
  }

  /** `b` without its trailing letters `d`. */
  function DropDs(b: string): (t: string)
    ensures |t| <= |b| && t == b[..|t|]
    ensures t == [] || t[|t| - 1] != 'd'
    ensures forall i :: |t| <= i < |b| ==> b[i] == 'd'
  {
    if b != [] && b[|b| - 1] == 'd' then DropDs(b[..|b| - 1]) else b
  }

  /** A decimal percentage such as `50%`, `-7.5%` is recognised. */
  lemma PercentOfDecimal(sign: string, w: string, f: string)
    requires sign == "" || sign == "-"
    requires w != [] && AllDigits(w) && AllDigits(f)
    ensures IsPercent(Str(sign + w + (if f == [] then "" else "." + f) + "%"))
  {
    var s := sign + w + (if f == [] then "" else "." + f) + "%";
    if f == [] {
      assert s[|s| - 2] == w[|w| - 1];
    } else {
      assert s[|s| - 2] == f[|f| - 1];
    }
  }

  /** A number is never a percentage, so a coordinate already made absolute
      is not scaled again. */
  lemma NumberIsNotPercent(n: JsNum)
    ensures !IsPercent(Number(n))
  {
    if n.Num? && n.r == n.r.Floor as real {
      IntegerEndsInDigit(n.r.Floor);
    }
  }

  lemma IntegerEndsInDigit(d: int)
    ensures var s := IntToString(d); |s| >= 1 && IsDigit(s[|s| - 1])
  {
    var t := NatToString(if d < 0 then -d else d);
    var s := IntToString(d);
    assert s[|s| - 1] == t[|t| - 1];
  }
}
