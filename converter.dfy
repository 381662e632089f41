/** `svg2vectorDrawableContent` of svg2vectordrawable.js: the style sheet
    is looked up, the header is written, and `travel` walks the parsed tree,
    appending a `<group>` for each `g`/`defs` element and a `<path>` with
    its Android attributes for each shape. */
module Converter {
  import opened JsText
  import opened JsNumber
  import opened Wrappers
  import opened XmlTree
  import opened StyleSheet
  import opened Color
  import opened Viewport

  // ---------------------------------------------------------------------------
  // Indentation
  // ---------------------------------------------------------------------------

  /** `repeatString(str, num)`: `str` appended `num * 4` times. */
  method RepeatString(str: string, num: int) returns (t: string)
    ensures t == Repeat(str, if num > 0 then num * 4 else 0)
  {
    var count := if num > 0 then num * 4 else 0;
    t := "";
    var i := 0;
    while i < count
      invariant 0 <= i <= count
      invariant t == Repeat(str, i)
    {
      t := t + str;
      i := i + 1;
    }
  }

  /** The indentation of a line written at depth `indent`. */
  function Pad(indent: nat): string
  {
    Repeat(" ", indent * 4)
  }

  /** Depth `indent` is indented by four blanks per level. */
  lemma PadIsFourBlanksPerLevel(indent: nat)
    ensures Pad(indent) == Spaces(4 * indent)
    ensures |Pad(indent + 1)| == |Pad(indent)| + 4
  {
    RepeatBlank(indent * 4);
  }

  // ---------------------------------------------------------------------------
  // The cascade
  // ---------------------------------------------------------------------------

  /** `groupAttrs`: the values a group hands to its children, keyed here by
      the CSS property each one comes from (`fill-opacity` for `fillAlpha`,
      `stroke-width` for `strokeWidth`, and so on). */
  type Attrs = map<string, JsValue>

  /** `groupAttrs.x`: `undefined` when the group did not set it. */
  function Get(g: Attrs, prop: string): JsValue
  {
    if prop in g then g[prop] else Undef
  }

  /** The ten properties a group collects. */
  const GroupProperties: set<string> := {"fill", "opacity", "fill-opacity", "stroke", "stroke-opacity",
    "stroke-width", "stroke-linejoin", "stroke-miterlimit", "stroke-linecap", "fill-rule"}

  lemma GroupPropertiesAreNames()
    ensures forall p :: p in GroupProperties ==> IsPropertyName(p)
  {
    forall p | p in GroupProperties ensures IsPropertyName(p) {
      assert forall i :: 0 <= i < |p| ==> 'a' <= p[i] <= 'z' || p[i] == '-';
    }
  }

  /** The element's value in the class rule of the style sheet, looked up
      only when there is a sheet and the element has a `class`. */
  function ClassValue(style: string, attrib: map<string, string>, prop: string): JsValue
    requires IsPropertyName(prop)
  {
    if style != "" && "class" in attrib then GetValueFromStyle("." + attrib["class"], prop, style) else Undef
  }

  /** The element's value in its `style` attribute. */
  function InlineValue(attrib: map<string, string>, prop: string): JsValue
    requires IsPropertyName(prop)
  {
    if "style" in attrib then GetValueFromStyleInline(prop, GetStyleInline(attrib)) else Undef
  }

  /** One property through the cascade, in the order the source assigns it:
      the starting value, then a truthy class-rule value, then a truthy
      inline value, then the presentation attribute. */
  function Cascade(base: JsValue, style: string, attrib: map<string, string>, prop: string): JsValue
    requires IsPropertyName(prop)
  {
    var c := ClassValue(style, attrib, prop);
    var v1 := if Truthy(c) then c else base;
    var s := InlineValue(attrib, prop);
    var v2 := if Truthy(s) then s else v1;
    if prop in attrib then Str(attrib[prop]) else v2
  }

  /** Where a property's value comes from, strongest first. */
  lemma CascadePrecedence(base: JsValue, style: string, attrib: map<string, string>, prop: string)
    requires IsPropertyName(prop)
    ensures prop in attrib ==> Cascade(base, style, attrib, prop) == Str(attrib[prop])
    ensures prop !in attrib && Truthy(InlineValue(attrib, prop)) ==>
      Cascade(base, style, attrib, prop) == InlineValue(attrib, prop)
    ensures prop !in attrib && !Truthy(InlineValue(attrib, prop)) && Truthy(ClassValue(style, attrib, prop)) ==>
      Cascade(base, style, attrib, prop) == ClassValue(style, attrib, prop)
    ensures prop !in attrib && !Truthy(InlineValue(attrib, prop)) && !Truthy(ClassValue(style, attrib, prop)) ==>
      Cascade(base, style, attrib, prop) == base
  {
  }

  /** An inline `prop:v;` beats the class rule and the group, but not an
      attribute. */
  lemma InlineDeclarationWins(base: JsValue, style: string, attrib: map<string, string>, prop: string, v: string, rest: string)
    requires IsPropertyName(prop) && PlainValue(v) && Truthy(ValueOf(v))
    requires prop !in attrib && "style" in attrib && attrib["style"] == prop + ":" + v + ";" + rest
    ensures Cascade(base, style, attrib, prop) == ValueOf(v)
  {
    InlineReadsDeclaration(prop, v, rest);
  }

  /** The group record: built from `{}` at every group, so nothing of an
      enclosing group is kept. */
  function GroupAttrs(style: string, attrib: map<string, string>): (g: Attrs)
    ensures forall p :: p in GroupProperties ==> p in g
  {
    GroupPropertiesAreNames();
    map p | p in GroupProperties :: Cascade(Undef, style, attrib, p)
  }

  /** A group passes on a property only when one of its own sources sets it. */
  lemma GroupValueSources(style: string, attrib: map<string, string>, prop: string)
    requires prop in GroupProperties
    ensures IsPropertyName(prop)
    ensures Get(GroupAttrs(style, attrib), prop) != Undef ==>
      prop in attrib || Truthy(InlineValue(attrib, prop)) || Truthy(ClassValue(style, attrib, prop))
    ensures prop in attrib ==> Get(GroupAttrs(style, attrib), prop) == Str(attrib[prop])
  {
    GroupPropertiesAreNames();
  }

  /** The ten values one shape is drawn with. */
  datatype Shape = Shape(fill: JsValue, opacity: JsValue, fillAlpha: JsValue, stroke: JsValue,
                         strokeAlpha: JsValue, strokeWidth: JsValue, strokeLineJoin: JsValue,
                         strokeMiterLimit: JsValue, strokeLineCap: JsValue, fillType: JsValue)

  /** A shape property: the group's value (or the default when the group has
      none that is truthy) through the cascade. */
  function ShapeValue(g: Attrs, style: string, attrib: map<string, string>, prop: string, default: JsValue): JsValue
    requires IsPropertyName(prop)
  {
    Cascade(Or(Get(g, prop), default), style, attrib, prop)
  }

  /** The ten properties of a shape; opacity defaults to 1, the others to `''`. */
  function ResolveShape(g: Attrs, style: string, attrib: map<string, string>): Shape
  {
    GroupPropertiesAreNames();
    Shape(ShapeValue(g, style, attrib, "fill", Str("")),
          ShapeValue(g, style, attrib, "opacity", Number(Num(1.0))),
          ShapeValue(g, style, attrib, "fill-opacity", Str("")),
          ShapeValue(g, style, attrib, "stroke", Str("")),
          ShapeValue(g, style, attrib, "stroke-opacity", Str("")),
          ShapeValue(g, style, attrib, "stroke-width", Str("")),
          ShapeValue(g, style, attrib, "stroke-linejoin", Str("")),
          ShapeValue(g, style, attrib, "stroke-miterlimit", Str("")),
          ShapeValue(g, style, attrib, "stroke-linecap", Str("")),
          ShapeValue(g, style, attrib, "fill-rule", Str("")))
  }

  /** A shape takes a group's value for a property it does not set itself. */
  lemma ShapeInheritsGroup(g: Attrs, style: string, attrib: map<string, string>, prop: string, default: JsValue)
    requires IsPropertyName(prop) && Truthy(Get(g, prop))
    requires prop !in attrib && !Truthy(InlineValue(attrib, prop)) && !Truthy(ClassValue(style, attrib, prop))
    ensures ShapeValue(g, style, attrib, prop, default) == Get(g, prop)
  {
  }

  // ---------------------------------------------------------------------------
  // What a shape emits
  // ---------------------------------------------------------------------------

  /** An attribute line `android:<name>="<value>"`. */
  type Attr = (string, JsValue)

  /** `[(name, value)]` when `cond` holds. */
  function Opt(name: string, cond: bool, value: JsValue): seq<Attr>
  {
    if cond then [(name, value)] else []
  }

  /** The colour formatter a conversion applies: `formatColor`, which is
      `Color.FormatColor`. */
  type Formatter = string -> string

  /** `fillColor`: with an opacity other than `''` and 1 the alpha byte goes
      in front of the formatted colour; otherwise `none` gives no colour and
      anything else is formatted. A number where a string is expected throws. */
  function FillColor(fmt: Formatter, fill: JsValue, opacity: JsValue): Result<string>
  {
    if opacity != Str("") && ToNumber(opacity) != Num(1.0) then
      if fill.Str? then
        Ok("#" + PercentToHex(Mul(ToNumber(opacity), Num(100.0))) + ReplaceFirst(fmt(fill.s), "#", ""))
      else Throws
    else if !fill.Str? then Throws
    else if ToLower(fill.s) == "none" then Ok("")
    else Ok(fmt(fill.s))
  }

  /** `x !== '' && Number(x) !== 1`: an alpha worth writing. */
  predicate AlphaShown(v: JsValue)
  {
    v != Str("") && ToNumber(v) != Num(1.0)
  }

  /** `stroke !== '' && stroke !== 'none'` */
  predicate StrokeGiven(v: JsValue)
  {
    v != Str("") && v != Str("none")
  }

  /** The stroke after `stroke = formatColor(stroke)`, which only runs for a
      given stroke. */
  function FormatStroke(fmt: Formatter, v: JsValue): Result<JsValue>
  {
    if !StrokeGiven(v) then Ok(v)
    else if v.Str? then Ok(Str(fmt(v.s)))
    else Throws
  }

  /** The fill lines: `fillColor` and `fillAlpha`. */
  function FillPart(fmt: Formatter, sh: Shape): Result<seq<Attr>>
  {
    match FillColor(fmt, sh.fill, sh.opacity)
    case Throws => Throws
    case Ok(fc) => Ok(Opt("fillColor", fc != "", Str(fc)) + Opt("fillAlpha", AlphaShown(sh.fillAlpha), sh.fillAlpha))
  }

  /** The stroke lines, each detail only while the formatted stroke is given. */
  function StrokePart(fmt: Formatter, sh: Shape): Result<seq<Attr>>
  {
    match FormatStroke(fmt, sh.stroke)
    case Throws => Throws
    case Ok(st) => Ok(StrokeLines(sh, st))
  }

  /** The stroke lines once the stroke has been formatted to `st`. */
  function StrokeLines(sh: Shape, st: JsValue): seq<Attr>
  {
    Opt("strokeColor", StrokeGiven(sh.stroke), st) + StrokeDetails(sh, StrokeGiven(st))
  }

  /** `strokeWidth || 1` */
  function WidthOrDefault(w: JsValue): JsValue
  {
    if w == Str("") then Str("1") else w
  }

  /** The lines after `strokeColor`, each written only while the formatted
      stroke is given (`on`); the width defaults to 1. */
  function StrokeDetails(sh: Shape, on: bool): seq<Attr>
  {
    Opt("strokeAlpha", sh.strokeAlpha != Str("") && on, sh.strokeAlpha)
    + Opt("strokeWidth", on, WidthOrDefault(sh.strokeWidth))
    + Opt("strokeLineJoin", sh.strokeLineJoin != Str("") && on, sh.strokeLineJoin)
    + Opt("strokeMiterLimit", sh.strokeMiterLimit != Str("") && on, sh.strokeMiterLimit)
    + Opt("strokeLineCap", sh.strokeLineCap != Str("") && on, sh.strokeLineCap)
  }

  /** `fillType="evenOdd"` for the `evenodd` rule only. */
  function FillTypePart(sh: Shape): seq<Attr>
  {
    Opt("fillType", sh.fillType == Str("evenodd"), Str("evenOdd"))
  }

  /** What one shape leaves in the output: its attribute lines, and its path
      data unless a `TypeError` ended it early. */
  datatype Emitted = Emitted(attrs: seq<Attr>, pathData: Option<string>)

  function ShapeEmission(fmt: Formatter, sh: Shape, pathData: Option<string>): Emitted
  {
    match FillPart(fmt, sh)
    case Throws => Emitted([], None)
    case Ok(a) =>
      match StrokePart(fmt, sh)
      case Throws => Emitted(a, None)
      case Ok(b) => Emitted(a + b + FillTypePart(sh), pathData)
  }

  // ---------------------------------------------------------------------------
  // The emission rules
  // ---------------------------------------------------------------------------

  /** A numeric opacity below 1 puts the alpha byte `round(opacity * 255)`,
      as two upper-case hex digits, in front of the six digits of the
      formatted colour (`#AARRGGBB`). */
  lemma FillAlphaPrefix(fmt: Formatter, fill: string, o: real, six: string)
    requires 0.0 <= o < 1.0
    requires fmt(fill) == "#" + six
    ensures var r := FillColor(fmt, Str(fill), Number(Num(o)));
      r.Ok? && |r.value| == 3 + |six| && r.value[0] == '#' && r.value[3..] == six &&
      IsUpperHex(r.value[1..3]) && HexValue(r.value[1..3]) == (o * 255.0 + 0.5).Floor
  {
    FillColorWithAlpha(fmt, fill, o);
    DropHash(fmt(fill), six);
    AlphaByte(o);
    GlueAlpha(PercentToHex(Num(o * 100.0)), six);
  }

  /** `precentToHex(opacity * 100)` is `round(opacity * 255)` in hex. */
  lemma AlphaByte(o: real)
    requires 0.0 <= o < 1.0
    ensures var h := PercentToHex(Num(o * 100.0));
      |h| == 2 && IsUpperHex(h) && HexValue(h) == (o * 255.0 + 0.5).Floor
  {
    var v := (o * 255.0 + 0.5).Floor;
    assert 0 <= v <= 255;
    ScaledShare(o);
    assert Round(Div(Mul(Num(o * 100.0), Num(255.0)), Num(100.0))) == Num(v as real);
    NumberToHexTwoDigits(v);
  }

  lemma ScaledShare(o: real)
    ensures Div(Mul(Num(o * 100.0), Num(255.0)), Num(100.0)) == Num(o * 255.0)
  {
    assert o * 100.0 * 255.0 / 100.0 == o * 255.0;
  }

  lemma GlueAlpha(h: string, six: string)
    requires |h| == 2
    ensures var r := "#" + h + six;
      |r| == 3 + |six| && r[0] == '#' && r[1..3] == h && r[3..] == six
  {
  }

  lemma FillColorWithAlpha(fmt: Formatter, fill: string, o: real)
    requires 0.0 <= o < 1.0
    ensures FillColor(fmt, Str(fill), Number(Num(o))) ==
      Ok("#" + PercentToHex(Num(o * 100.0)) + ReplaceFirst(fmt(fill), "#", ""))
  {
    assert ToNumber(Number(Num(o))) == Num(o);
    assert Mul(Num(o), Num(100.0)) == Num(o * 100.0);
  }

  lemma DropHash(c: string, six: string)
    requires c == "#" + six
    ensures ReplaceFirst(c, "#", "") == six
  {
    assert OccursAt(c, "#", 0);
  }

  /** Without a visible opacity, a fill of `none` in any letter case writes
      no `fillColor` line. */
  lemma NoneFillWritesNoColor(fmt: Formatter, sh: Shape)
    requires !AlphaShown(sh.opacity) && sh.fill.Str? && ToLower(sh.fill.s) == "none"
    ensures var p := FillPart(fmt, sh);
      p.Ok? && forall k :: 0 <= k < |p.value| ==> p.value[k].0 != "fillColor"
  {
  }

  /** A shape without a fill anywhere in the cascade (`''`) is filled
      black. */
  lemma MissingFillIsBlack(sh: Shape)
    requires !AlphaShown(sh.opacity) && sh.fill == Str("")
    ensures var p := FillPart(FormatColor, sh);
      p.Ok? && |p.value| >= 1 && p.value[0] == ("fillColor", Str("#000000"))
  {
    FormatColorEmpty();
    assert ToLower("") == "";
  }

  /** Without a stroke (`''` or `none`) no stroke line at all is written. */
  lemma NoStrokeNoStrokeLines(fmt: Formatter, sh: Shape)
    requires !StrokeGiven(sh.stroke)
    ensures StrokePart(fmt, sh) == Ok([])
  {
    assert StrokeDetails(sh, false) == [];
  }

  /** With a stroke, the formatted colour comes first and a width always
      follows, 1 when none was given. */
  lemma StrokeWidthDefaultsToOne(fmt: Formatter, sh: Shape)
    requires sh.stroke.Str? && StrokeGiven(sh.stroke) && StrokeGiven(Str(fmt(sh.stroke.s)))
    ensures var p := StrokePart(fmt, sh);
      p.Ok? && |p.value| >= 1 && p.value[0] == ("strokeColor", Str(fmt(sh.stroke.s))) &&
      ("strokeWidth", if sh.strokeWidth == Str("") then Str("1") else sh.strokeWidth) in p.value
  {
    var d := StrokeDetails(sh, true);
    var w := ("strokeWidth", WidthOrDefault(sh.strokeWidth));
    assert w in d;
  }

  /** `fillType="evenOdd"` is written exactly for the `evenodd` rule. */
  lemma EvenOddOnlyForEvenodd(fmt: Formatter, sh: Shape, d: Option<string>)
    requires FillPart(fmt, sh).Ok? && StrokePart(fmt, sh).Ok?
    ensures ("fillType", Str("evenOdd")) in ShapeEmission(fmt, sh, d).attrs <==> sh.fillType == Str("evenodd")
  {
    var x: Attr := ("fillType", Str("evenOdd"));
    FillTypeNameFacts();
    var fc := FillColor(fmt, sh.fill, sh.opacity).value;
    NotInOpt(x, "fillColor", fc != "", Str(fc));
    NotInOpt(x, "fillAlpha", AlphaShown(sh.fillAlpha), sh.fillAlpha);
    var st := FormatStroke(fmt, sh.stroke).value;
    NotInOpt(x, "strokeColor", StrokeGiven(sh.stroke), st);
    var on := StrokeGiven(st);
    NotInOpt(x, "strokeAlpha", sh.strokeAlpha != Str("") && on, sh.strokeAlpha);
    NotInOpt(x, "strokeWidth", on, WidthOrDefault(sh.strokeWidth));
    NotInOpt(x, "strokeLineJoin", sh.strokeLineJoin != Str("") && on, sh.strokeLineJoin);
    NotInOpt(x, "strokeMiterLimit", sh.strokeMiterLimit != Str("") && on, sh.strokeMiterLimit);
    NotInOpt(x, "strokeLineCap", sh.strokeLineCap != Str("") && on, sh.strokeLineCap);
    assert x !in FillPart(fmt, sh).value;
    assert x !in StrokePart(fmt, sh).value;
  }

  lemma FillTypeNameFacts()
    ensures "fillType" != "fillColor" && "fillType" != "fillAlpha" && "fillType" != "strokeColor"
    ensures "fillType" != "strokeAlpha" && "fillType" != "strokeWidth" && "fillType" != "strokeLineJoin"
    ensures "fillType" != "strokeMiterLimit" && "fillType" != "strokeLineCap"
  {
  }

  lemma NotInOpt(x: Attr, name: string, cond: bool, value: JsValue)
    requires x.0 != name
    ensures x !in Opt(name, cond, value)
  {
  }

  function AttrLine(pad: string, a: Attr): string
  {
    pad + "    android:" + a.0 + "=\"" + Render(a.1) + "\"\n"
  }

  function AttrLines(pad: string, attrs: seq<Attr>): string
  {
    if attrs == [] then "" else AttrLines(pad, attrs[..|attrs| - 1]) + AttrLine(pad, attrs[|attrs| - 1])
  }

  lemma {:induction false} AttrLinesConcat(pad: string, a: seq<Attr>, b: seq<Attr>)
    decreases |b|
    ensures AttrLines(pad, a + b) == AttrLines(pad, a) + AttrLines(pad, b)
  {
    if b == [] {
      assert a + b == a;
    } else {
      AttrLinesConcat(pad, a, b[..|b| - 1]);
      AttrLinesConcatStep(pad, a, b);
    }
  }

  /** The inductive step of `AttrLinesConcat`: one more line at the end of `b`. */
  lemma AttrLinesConcatStep(pad: string, a: seq<Attr>, b: seq<Attr>)
    requires b != []
    requires AttrLines(pad, a + b[..|b| - 1]) == AttrLines(pad, a) + AttrLines(pad, b[..|b| - 1])
    ensures AttrLines(pad, a + b) == AttrLines(pad, a) + AttrLines(pad, b)
  {
    var c := b[..|b| - 1];
    var last := b[|b| - 1];
    DropLastOfConcat(a, b);
    assert AttrLines(pad, a + b) == AttrLines(pad, a + c) + AttrLine(pad, last);
    AppendAssoc(AttrLines(pad, a), AttrLines(pad, c), AttrLine(pad, last));
  }

  /** `lines + o`, with the fact that appending it after `a0` is appending
      `o` to `a0 + lines`. */
  ghost function Extend(a0: seq<Attr>, lines: seq<Attr>, o: seq<Attr>): (r: seq<Attr>)
    ensures r == lines + o && a0 + r == (a0 + lines) + o
  {
    lines + o
  }

  /** The `<path …/>` element of a shape as it is appended to the output. */
  function ShapeText(pad: string, e: Emitted): string
  {
    PathOpen(pad) + AttrLines(pad, e.attrs) + PathClose(pad, e.pathData)
  }

  function PathOpen(pad: string): string
  {
    pad + "<path\n"
  }

  /** The closing `android:pathData` line, missing when the shape threw. */
  function PathClose(pad: string, pathData: Option<string>): string
  {
    if pathData.Some? then pad + "    android:pathData=\"" + pathData.value + "\"/>\n" else ""
  }

  /** The written text, regrouped as one `ShapeText`. */
  lemma ClosePath(before: string, pad: string, e: Emitted, xml: string)
    requires xml == before + PathOpen(pad) + AttrLines(pad, e.attrs) + PathClose(pad, e.pathData)
    ensures xml == before + ShapeText(pad, e)
  {
  }

  // ---------------------------------------------------------------------------
  // Path data
  // ---------------------------------------------------------------------------

  /** The shapes `shape_converter` turns into path data. */
  datatype ShapeKind = RectShape | CircleShape | PolygonShape | PolylineShape | LineShape | EllipseShape

  /** The external `shape_converter`, given the shape kind and the element's
      attributes. */
  type ShapeConverter = (ShapeKind, map<string, string>) -> string

  /** `/(path|rect|circle|polygon|polyline|line|ellipse)/i.test(name)` */
  predicate IsShapeName(name: string)
  {
    var l := ToLower(name);
    Contains(l, "path") || Contains(l, "rect") || Contains(l, "circle") || Contains(l, "polygon")
    || Contains(l, "polyline") || Contains(l, "line") || Contains(l, "ellipse")
  }

  /** The first of `rect`, `circle`, `polygon`, `polyline`, `line`, `ellipse`
      that occurs in the name, ignoring case. */
  function ShapeKindOf(name: string): Option<ShapeKind>
  {
    var l := ToLower(name);
    if Contains(l, "rect") then Some(RectShape)
    else if Contains(l, "circle") then Some(CircleShape)
    else if Contains(l, "polygon") then Some(PolygonShape)
    else if Contains(l, "polyline") then Some(PolylineShape)
    else if Contains(l, "line") then Some(LineShape)
    else if Contains(l, "ellipse") then Some(EllipseShape)
    else None
  }

  /** A character `replace(/[^0-9., ]/g, '')` removes from `points`. */
  predicate NotPointChar(c: char)
  {
    !(IsDigit(c) || c == '.' || c == ',' || c == ' ')
  }

  /** The attributes after a truthy `points` has been cleaned. */
  function CleanPoints(attrib: map<string, string>): map<string, string>
  {
    if "points" in attrib && attrib["points"] != "" then attrib["points" := RemoveAll(attrib["points"], NotPointChar)]
    else attrib
  }

  /** `d`: the converter's path for a basic shape, the trimmed `d` attribute
      otherwise, and nothing (a `TypeError`) when there is no `d`. */
  function PathData(name: string, attrib: map<string, string>, conv: ShapeConverter): Option<string>
  {
    var a := CleanPoints(attrib);
    match ShapeKindOf(name)
    case Some(k) => Some(conv(k, a))
    case None => if "d" in a then Some(Trim(a["d"])) else None
  }

  // ---------------------------------------------------------------------------
  // travel
  // ---------------------------------------------------------------------------

  predicate IsGroup(n: XNode)
  {
    n.Element? && (n.name == "g" || n.name == "defs")
  }

  /** The fixed inputs of one conversion: the style sheet, the shape
      converter and the colour formatter. */
  datatype Env = Env(style: string, conv: ShapeConverter, fmt: Formatter)

  /** What the `travel` frame over `obj` appends from sibling `i` on, at
      depth `indent` (already incremented) and with `groupAttrs` equal to
      `g`. A `TypeError` ends the frame: a group without children, or a
      shape cut short. */
  function TravelFrom(env: Env, obj: seq<XNode>, i: nat, indent: nat, g: Attrs): string
    requires i <= |obj|
    decreases obj, |obj| - i
  {
    if i == |obj| then ""
    else
      var n := obj[i];
      if IsGroup(n) then
        var g2 := GroupAttrs(env.style, n.attrib);
        if n.childs == [] then ""
        else if n.childs[0] == Text("\n") then TravelFrom(env, obj, i + 1, indent, g2)
        else
          GroupText(Pad(indent), TravelFrom(env, n.childs, 0, indent + 1, g2)) + TravelFrom(env, obj, i + 1, indent, g2)
      else if n.Element? && IsShapeName(n.name) then
        var e := ShapeOf(env, g, n);
        ShapeText(Pad(indent), e) + (if e.pathData.None? then "" else TravelFrom(env, obj, i + 1, indent, g))
      else TravelFrom(env, obj, i + 1, indent, g)
  }

  /** A `<group>` element around the text of its children. */
  function GroupText(pad: string, inner: string): string
  {
    pad + "<group>\n" + inner + pad + "</group>\n"
  }

  /** What a shape element emits under group values `g`. */
  function ShapeOf(env: Env, g: Attrs, n: XNode): Emitted
    requires n.Element?
  {
    ShapeEmission(env.fmt, ResolveShape(g, env.style, n.attrib), PathData(n.name, n.attrib, env.conv))
  }

  /** The output `travel` builds up. */
  class Emitter {
    /** `vectorDrawableXML` */
    var xml: string
    /** The style sheet, the shape converter and the colour formatter. */
    const env: Env

    constructor (header: string, env: Env)
      ensures xml == header && this.env == env
    {
      xml := header;
      this.env := env;
    }

    /** Appends one attribute line. */
    method AppendAttr(pad: string, name: string, value: JsValue)
      modifies this
      ensures xml == old(xml) + AttrLine(pad, (name, value))
    {
      xml := xml + pad + "    android:" + name + "=\"" + Render(value) + "\"\n";
    }

    /** Appends one attribute line and records it. */
    method Push(ghost base: string, pad: string, ghost a: seq<Attr>, name: string, value: JsValue) returns (ghost a2: seq<Attr>)
      requires xml == base + AttrLines(pad, a)
      modifies this
      ensures a2 == a + [(name, value)]
      ensures xml == base + AttrLines(pad, a2)
    {
      AppendAttr(pad, name, value);
      a2 := a + [(name, value)];
      AttrLinesConcat(pad, a, [(name, value)]);
    }

    /** Appends one attribute line when `cond` holds. */
    method EmitOpt(ghost base: string, pad: string, ghost a: seq<Attr>, name: string, cond: bool, value: JsValue)
      returns (ghost a2: seq<Attr>)
      requires xml == base + AttrLines(pad, a)
      modifies this
      ensures a2 == a + Opt(name, cond, value)
      ensures xml == base + AttrLines(pad, a2)
    {
      if cond {
        a2 := Push(base, pad, a, name, value);
      } else {
        a2 := a;
        assert a + [] == a;
      }
    }

    /** The fill lines of a shape, after the lines `a0` already written
        since `base`. */
    method EmitFill(ghost base: string, pad: string, ghost a0: seq<Attr>, sh: Shape) returns (threw: bool, ghost a: seq<Attr>)
      requires xml == base + AttrLines(pad, a0)
      modifies this
      ensures threw <==> FillPart(env.fmt, sh).Throws?
      ensures !threw ==> a == a0 + FillPart(env.fmt, sh).value && xml == base + AttrLines(pad, a)
      ensures threw ==> xml == old(xml) && a == a0
    {
      var fillColor := FillColor(env.fmt, sh.fill, sh.opacity);
      if fillColor.Throws? {
        return true, a0;
      }
      ghost var o1 := Opt("fillColor", fillColor.value != "", Str(fillColor.value));
      ghost var o2 := Opt("fillAlpha", AlphaShown(sh.fillAlpha), sh.fillAlpha);
      ghost var lines := Extend(a0, o1, o2);
      assert lines == FillPart(env.fmt, sh).value;
      a := EmitOpt(base, pad, a0, "fillColor", fillColor.value != "", Str(fillColor.value));
      a := EmitOpt(base, pad, a, "fillAlpha", AlphaShown(sh.fillAlpha), sh.fillAlpha);
      return false, a;
    }

    /** The stroke lines of a shape, after the lines `a0` already written
        since `base`. */
    method EmitStroke(ghost base: string, pad: string, ghost a0: seq<Attr>, sh: Shape) returns (threw: bool, ghost a: seq<Attr>)
      requires xml == base + AttrLines(pad, a0)
      modifies this
      ensures threw <==> StrokePart(env.fmt, sh).Throws?
      ensures !threw ==> a == a0 + StrokePart(env.fmt, sh).value && xml == base + AttrLines(pad, a)
      ensures threw ==> xml == old(xml) && a == a0
    {
      var stroke := sh.stroke;
      a := a0;
      if stroke != Str("") && stroke != Str("none") {
        if !stroke.Str? {
          return true, a0;
        }
        stroke := Str(env.fmt(stroke.s));
        a := Push(base, pad, a, "strokeColor", stroke);
      } else {
        assert a0 + [] == a0;
      }
      ghost var color := Opt("strokeColor", StrokeGiven(sh.stroke), stroke);
      assert a == a0 + color;
      assert FormatStroke(env.fmt, sh.stroke) == Ok(stroke);
      var on := stroke != Str("") && stroke != Str("none");
      a := EmitStrokeDetails(base, pad, a, sh, on);
      ghost var lines := Extend(a0, color, StrokeDetails(sh, on));
      assert lines == StrokeLines(sh, stroke);
      return false, a;
    }

    /** The lines after `strokeColor`, each written only while the
        formatted stroke is given (`on`). */
    method EmitStrokeDetails(ghost base: string, pad: string, ghost a0: seq<Attr>, sh: Shape, on: bool)
      returns (ghost a: seq<Attr>)
      requires xml == base + AttrLines(pad, a0)
      modifies this
      ensures a == a0 + StrokeDetails(sh, on) && xml == base + AttrLines(pad, a)
    {
      var width := WidthOrDefault(sh.strokeWidth);
      ghost var o1 := Opt("strokeAlpha", sh.strokeAlpha != Str("") && on, sh.strokeAlpha);
      ghost var o2 := Opt("strokeWidth", on, width);
      ghost var o3 := Opt("strokeLineJoin", sh.strokeLineJoin != Str("") && on, sh.strokeLineJoin);
      ghost var o4 := Opt("strokeMiterLimit", sh.strokeMiterLimit != Str("") && on, sh.strokeMiterLimit);
      ghost var o5 := Opt("strokeLineCap", sh.strokeLineCap != Str("") && on, sh.strokeLineCap);
      ghost var l2 := Extend(a0, o1, o2);
      ghost var l3 := Extend(a0, l2, o3);
      ghost var l4 := Extend(a0, l3, o4);
      ghost var l5 := Extend(a0, l4, o5);
      assert l5 == StrokeDetails(sh, on);
      a := EmitOpt(base, pad, a0, "strokeAlpha", sh.strokeAlpha != Str("") && on, sh.strokeAlpha);
      a := EmitOpt(base, pad, a, "strokeWidth", on, width);
      a := EmitOpt(base, pad, a, "strokeLineJoin", sh.strokeLineJoin != Str("") && on, sh.strokeLineJoin);
      a := EmitOpt(base, pad, a, "strokeMiterLimit", sh.strokeMiterLimit != Str("") && on, sh.strokeMiterLimit);
      a := EmitOpt(base, pad, a, "strokeLineCap", sh.strokeLineCap != Str("") && on, sh.strokeLineCap);
    }

    /** One shape drawn with `sh` and path data `d`: `<path`, its attribute
        lines in the source's order and its path data. Returns whether a
        `TypeError` cut it short. */
    method EmitShape(indent: nat, sh: Shape, d: Option<string>) returns (threw: bool)
      modifies this
      ensures xml == old(xml) + ShapeText(Pad(indent), ShapeEmission(env.fmt, sh, d))
      ensures threw == ShapeEmission(env.fmt, sh, d).pathData.None?
    {
      var pad := RepeatString(" ", indent);
      xml := xml + PathOpen(pad);
      ghost var a;
      threw, a := EmitShapeAttrs(xml, pad, sh);
      EmissionParts(env.fmt, sh, d);
      ghost var e := ShapeEmission(env.fmt, sh, d);
      if threw || d.None? {
        ClosePath(old(xml), pad, e, xml);
        return true;
      }
      xml := xml + PathClose(pad, d);
      ClosePath(old(xml), pad, e, xml);
    }

    /** The attribute lines of a shape: fill, stroke and fill rule, until a
        `TypeError`. */
    method EmitShapeAttrs(ghost head: string, pad: string, sh: Shape) returns (threw: bool, ghost a: seq<Attr>)
      requires xml == head
      modifies this
      ensures threw <==> FillPart(env.fmt, sh).Throws? || StrokePart(env.fmt, sh).Throws?
      ensures a == ShapeEmission(env.fmt, sh, None).attrs && xml == head + AttrLines(pad, a)
    {
      a := [];
      threw, a := EmitFill(head, pad, a, sh);
      if threw {
        return;
      }
      assert a == FillPart(env.fmt, sh).value;
      threw, a := EmitStroke(head, pad, a, sh);
      if threw {
        return;
      }
      a := EmitOpt(head, pad, a, "fillType", sh.fillType == Str("evenodd"), Str("evenOdd"));
    }

    /** `travel(obj, indent, groupAttrs)` */
    method Travel(obj: seq<XNode>, indent0: nat, groupAttrs0: Attrs)
      modifies this
      decreases obj, 2
      ensures xml == old(xml) + TravelFrom(env, obj, 0, indent0 + 1, groupAttrs0)
    {
      var indent := indent0 + 1;
      var groupAttrs := groupAttrs0;
      var i := 0;
      while i < |obj|
        invariant 0 <= i <= |obj|
        invariant old(xml) + TravelFrom(env, obj, 0, indent, groupAttrs0)
          == xml + TravelFrom(env, obj, i, indent, groupAttrs)
      {
        var stop;
        stop, groupAttrs := Visit(obj, i, indent, groupAttrs);
        if stop {
          return;
        }
        i := i + 1;
      }
    }

    /** One pass of `travel`'s loop: sibling `i` of `obj`. Returns whether a
        `TypeError` ended the frame, and `groupAttrs` afterwards. */
    method Visit(obj: seq<XNode>, i: nat, indent: nat, groupAttrs: Attrs) returns (stop: bool, groupAttrs2: Attrs)
      requires i < |obj| && indent >= 1
      modifies this
      decreases obj, 1
      ensures old(xml) + TravelFrom(env, obj, i, indent, groupAttrs)
        == xml + (if stop then "" else TravelFrom(env, obj, i + 1, indent, groupAttrs2))
    {
      var n := obj[i];
      if n.Element? && (n.name == "g" || n.name == "defs") {
        stop, groupAttrs2 := VisitGroup(obj, i, indent, groupAttrs);
      } else if n.Element? && IsShapeName(n.name) {
        stop := VisitShape(obj, i, indent, groupAttrs);
        groupAttrs2 := groupAttrs;
      } else {
        stop, groupAttrs2 := false, groupAttrs;
      }
    }

    /** A `g` or `defs` sibling: its children are drawn inside `<group>`
        unless the first of them is a line break; it has no children at all
        ends the frame. */
    method VisitGroup(obj: seq<XNode>, i: nat, indent: nat, groupAttrs: Attrs) returns (stop: bool, groupAttrs2: Attrs)
      requires i < |obj| && indent >= 1 && IsGroup(obj[i])
      modifies this
      decreases obj, 0
      ensures old(xml) + TravelFrom(env, obj, i, indent, groupAttrs)
        == xml + (if stop then "" else TravelFrom(env, obj, i + 1, indent, groupAttrs2))
    {
      var n := obj[i];
      groupAttrs2 := GroupAttrs(env.style, n.attrib);
      TravelGroupStep(env, obj, i, indent, groupAttrs);
      if n.childs == [] {
        return true, groupAttrs2;
      }
      if n.childs[0] != Text("\n") {
        var pad := RepeatString(" ", indent);
        ghost var inner := TravelFrom(env, n.childs, 0, indent + 1, groupAttrs2);
        xml := xml + pad + "<group>\n";
        Travel(n.childs, indent, groupAttrs2);
        xml := xml + pad + "</group>\n";
        GroupTextAppend(old(xml), pad, inner);
        AppendAssoc(old(xml), GroupText(pad, inner), TravelFrom(env, obj, i + 1, indent, groupAttrs2));
      }
      return false, groupAttrs2;
    }

    /** A shape sibling: its `<path>`; a `TypeError` ends the frame. */
    method VisitShape(obj: seq<XNode>, i: nat, indent: nat, groupAttrs: Attrs) returns (stop: bool)
      requires i < |obj| && obj[i].Element? && !IsGroup(obj[i]) && IsShapeName(obj[i].name)
      modifies this
      ensures old(xml) + TravelFrom(env, obj, i, indent, groupAttrs)
        == xml + (if stop then "" else TravelFrom(env, obj, i + 1, indent, groupAttrs))
    {
      var n := obj[i];
      ghost var e := ShapeOf(env, groupAttrs, n);
      ghost var rest := if e.pathData.None? then "" else TravelFrom(env, obj, i + 1, indent, groupAttrs);
      TravelShapeStep(env, obj, i, indent, groupAttrs);
      stop := EmitShape(indent, ResolveShape(groupAttrs, env.style, n.attrib), PathData(n.name, n.attrib, env.conv));
      AppendAssoc(old(xml), ShapeText(Pad(indent), e), rest);
    }
  }

  /** The attribute lines do not depend on the path data, and the path data
      is written unless a `TypeError` came first. */
  lemma EmissionParts(fmt: Formatter, sh: Shape, d: Option<string>)
    ensures ShapeEmission(fmt, sh, d).attrs == ShapeEmission(fmt, sh, None).attrs
    ensures ShapeEmission(fmt, sh, d).pathData
      == if FillPart(fmt, sh).Throws? || StrokePart(fmt, sh).Throws? then None else d
  {
  }

  /** `travel` over a shape sibling. */
  lemma TravelShapeStep(env: Env, obj: seq<XNode>, i: nat, indent: nat, g: Attrs)
    requires i < |obj| && obj[i].Element? && !IsGroup(obj[i]) && IsShapeName(obj[i].name)
    ensures var e := ShapeOf(env, g, obj[i]);
      TravelFrom(env, obj, i, indent, g)
      == ShapeText(Pad(indent), e) + (if e.pathData.None? then "" else TravelFrom(env, obj, i + 1, indent, g))
  {
  }

  /** `travel` over a `g` or `defs` sibling. */
  lemma TravelGroupStep(env: Env, obj: seq<XNode>, i: nat, indent: nat, g: Attrs)
    requires i < |obj| && IsGroup(obj[i])
    ensures var n := obj[i];
      var g2 := GroupAttrs(env.style, n.attrib);
      TravelFrom(env, obj, i, indent, g)
      == if n.childs == [] then ""
         else if n.childs[0] == Text("\n") then TravelFrom(env, obj, i + 1, indent, g2)
         else GroupText(Pad(indent), TravelFrom(env, n.childs, 0, indent + 1, g2)) + TravelFrom(env, obj, i + 1, indent, g2)
  {
  }

  lemma GroupTextAppend(x: string, pad: string, inner: string)
    ensures x + GroupText(pad, inner) == x + pad + "<group>\n" + inner + pad + "</group>\n"
  {
  }

  lemma DropLastOfConcat<T>(a: seq<T>, b: seq<T>)
    requires b != []
    ensures (a + b)[..|a + b| - 1] == a + b[..|b| - 1] && (a + b)[|a + b| - 1] == b[|b| - 1]
  {
  }

  // ---------------------------------------------------------------------------
  // svg2vectorDrawableContent
  // ---------------------------------------------------------------------------

  /** The whole conversion of a parsed document: a `TypeError` from
      `getStyle` (the root has no children, or a top-level `style` element
      is empty) escapes; otherwise the header, what `travel` appends, and
      the closing tag. */
  function Content(svg: XNode, density: JsValue, conv: ShapeConverter): Result<string>
    requires svg.Element?
  {
    if svg.childs == [] then Throws
    else
      var scan := ScanFrom(svg.childs, 0, "");
      if scan.threw then Throws
      else Ok(HeaderText(ComputeHeader(svg.attrib, density))
              + TravelFrom(Env(scan.text, conv, FormatColor), svg.childs, 0, 1, map[]) + "</vector>")
  }

  /** `svg2vectorDrawableContent(svgContent, density)` on the parsed root. */
  method Svg2VectorDrawableContent(svg: XNode, density: JsValue, conv: ShapeConverter) returns (r: Result<string>)
    requires svg.Element?
    ensures r == Content(svg, density, conv)
  {
    if svg.childs == [] {
      return Throws;
    }
    var style := GetStyle(svg.childs);
    if style.None? {
      return Throws;
    }
    var header := HeaderText(ComputeHeader(svg.attrib, density));
    var text := WriteDocument(header, Env(style.value, conv, FormatColor), svg.childs);
    return Ok(text);
  }

  /** The header, what `travel(svg.childNodes, 0)` appends, and `</vector>`. */
  method WriteDocument(header: string, env: Env, childs: seq<XNode>) returns (text: string)
    ensures text == header + TravelFrom(env, childs, 0, 1, map[]) + "</vector>"
  {
    var e := new Emitter(header, env);
    e.Travel(childs, 0, map[]);
    e.xml := e.xml + "</vector>";
    return e.xml;
  }
}
