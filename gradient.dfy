/** The gradient rewrite of lib/js2vectordrawable.js: `adjustGradientCoordinate`
    completes an SVG gradient's coordinates and makes them absolute, and
    `addGradientToElement` builds the `<aapt:attr><gradient>…` block that
    replaces a `url(#id)` paint. `vw` and `vh` stand for the converter's
    `viewportWidth` and `viewportHeight` fields, `bounds` for the
    `svg-path-bounds` library (which may throw). */
module Gradient {
  import opened JsText
  import opened JsNumber
  import opened Wrappers
  import opened SvgoTree
  import opened ColorMerge

  /** `[x1, y1, x2, y2]` as `pathBounds(d)` returns it. */
  datatype Box = Box(x1: JsNum, y1: JsNum, x2: JsNum, y2: JsNum)

  predicate IsGradientName(name: string)
  {
    name == "linearGradient" || name == "radialGradient" || name == "sweepGradient"
  }

  // ---------------------------------------------------------------------------
  // adjustGradientCoordinate
  // ---------------------------------------------------------------------------

  /** The coordinates a gradient gets when it lacks them. */
  function Defaults(elem: string): seq<Attr>
  {
    if elem == "linearGradient" then
      [Attr("x1", Str("0")), Attr("y1", Str("0")), Attr("x2", Str("100%")), Attr("y2", Str("100%"))]
    else if elem == "radialGradient" then
      [Attr("cx", Str("50%")), Attr("cy", Str("50%")), Attr("r", Str("50%"))]
    else if elem == "sweepGradient" then
      [Attr("cx", Str("50%")), Attr("cy", Str("50%"))]
    else []
  }

  /** Each default is added when the attribute is missing, in order. */
  function AddMissing(attrs: seq<Attr>, defs: seq<Attr>): (r: seq<Attr>)
    decreases |defs|
    ensures forall i :: 0 <= i < |defs| ==> HasAttr(r, defs[i].name)
    ensures forall m :: HasAttr(attrs, m) ==> Lookup(r, m) == Lookup(attrs, m)
  {
    if defs == [] then attrs
    else
      var a := if HasAttr(attrs, defs[0].name) then attrs else AddAttr(attrs, defs[0].name, defs[0].value);
      AddMissing(a, defs[1..])
  }

  /** A missing attribute gets the value of its first default; a name with
      no default stays missing. */
  lemma {:induction false} AddMissingValues(attrs: seq<Attr>, defs: seq<Attr>, i: nat)
    decreases |defs|
    requires i < |defs| && !HasAttr(attrs, defs[i].name)
    requires forall j :: 0 <= j < i ==> defs[j].name != defs[i].name
    ensures Lookup(AddMissing(attrs, defs), defs[i].name) == Some(defs[i].value)
  {
    var a := if HasAttr(attrs, defs[0].name) then attrs else AddAttr(attrs, defs[0].name, defs[0].value);
    assert AddMissing(attrs, defs) == AddMissing(a, defs[1..]);
    if i == 0 {
      assert Lookup(a, defs[0].name) == Some(defs[0].value);
    } else {
      assert defs[0].name != defs[i].name;
      assert Lookup(a, defs[i].name) == Lookup(attrs, defs[i].name);
      assert defs[1..][i - 1] == defs[i];
      forall j | 0 <= j < i - 1
        ensures defs[1..][j].name != defs[1..][i - 1].name
      {
        assert defs[1..][j] == defs[j + 1];
      }
      AddMissingValues(a, defs[1..], i - 1);
    }
  }

  /** A name that is neither present nor among the defaults stays missing. */
  lemma {:induction false} AddMissingOthers(attrs: seq<Attr>, defs: seq<Attr>, m: string)
    decreases |defs|
    requires !HasAttr(attrs, m) && forall i :: 0 <= i < |defs| ==> defs[i].name != m
    ensures Lookup(AddMissing(attrs, defs), m) == None
  {
    if defs != [] {
      var a := if HasAttr(attrs, defs[0].name) then attrs else AddAttr(attrs, defs[0].name, defs[0].value);
      assert defs[0].name != m;
      assert Lookup(a, m) == Lookup(attrs, m);
      assert forall i :: 0 <= i < |defs[1..]| ==> defs[1..][i] == defs[i + 1];
      AddMissingOthers(a, defs[1..], m);
    }
  }

  predicate IsXName(n: string) { n == "x1" || n == "x2" || n == "cx" || n == "fx" }
  predicate IsYName(n: string) { n == "y1" || n == "y2" || n == "cy" || n == "fy" }

  /** The attributes the loop over the gradient rewrites. */
  predicate IsPosition(n: string) { IsXName(n) || IsYName(n) || n == "r" }

  /** `parseFloat(value) / 100` */
  function Share(v: JsValue): JsNum
  {
    Div(ParseFloat(Render(v)), Num(100.0))
  }

  /** `Math.round(value * 100) / 100`: two decimals. */
  function Round2(v: JsValue): JsNum
  {
    Div(Round(Mul(ToNumber(v), Num(100.0))), Num(100.0))
  }

  /** A number with at most two decimals (or NaN, or an infinity). */
  predicate HasTwoDecimals(n: JsNum)
  {
    n.Num? ==> (n.r * 100.0).Floor as real == n.r * 100.0
  }

  /** The new value of one gradient attribute. `user` says whether
      `gradientUnits="userSpaceOnUse"`; `box` is what `pathBounds` gives for
      the painted element, consulted only without `userSpaceOnUse`. A
      non-percentage x or y coordinate without `userSpaceOnUse` reads a
      variable that is out of scope there, which throws. */
  function AdjustValue(vw: JsValue, vh: JsValue, user: bool, box: Result<Box>, a: Attr): (r: Result<JsValue>)
    ensures !IsPosition(a.name) ==> r == Ok(a.value)
    ensures IsPosition(a.name) && r.Ok? ==> r.value.Number? && HasTwoDecimals(r.value.n)
  {
    if !IsPosition(a.name) then Ok(a.value)
    else
      var v: Result<JsNum> :=
        if !user then
          if box.Throws? then Throws
          else if IsPercent(a.value) then
            var f := Share(a.value);
            var b := box.value;
            Ok(if IsXName(a.name) then Add(b.x1, Mul(Sub(b.x2, b.x1), f))
               else if IsYName(a.name) then Add(b.y1, Mul(Sub(b.y2, b.y1), f))
               else Mul(Max(Sub(b.x2, b.x1), Sub(b.y2, b.y1)), f))
          else if IsXName(a.name) || IsYName(a.name) then Throws
          else Ok(ToNumber(a.value))
        else if IsPercent(a.value) then
          var f := Share(a.value);
          Ok(if IsXName(a.name) then Mul(ToNumber(vw), f)
             else if IsYName(a.name) then Mul(ToNumber(vh), f)
             else Mul(Max(ToNumber(vw), ToNumber(vh)), f))
        else Ok(ToNumber(a.value));
      if v.Throws? then Throws
      else
        var n := Round2(Number(v.value));
        TwoDecimals(v.value);
        Ok(Number(n))
  }

  lemma TwoDecimals(x: JsNum)
    ensures HasTwoDecimals(Round2(Number(x)))
  {
    if x.Num? {
      var k := (x.r * 100.0 + 0.5).Floor;
      assert Round2(Number(x)) == Num(k as real / 100.0);
      assert (k as real / 100.0) * 100.0 == k as real;
    }
  }

  /** The loop over the gradient's attributes: every attribute gets its new
      value, and if one of them throws, the whole rewrite throws. */
  function AdjustAll(vw: JsValue, vh: JsValue, user: bool, box: Result<Box>, attrs: seq<Attr>): (r: Result<seq<Attr>>)
    ensures r.Ok? <==> forall i :: 0 <= i < |attrs| ==> AdjustValue(vw, vh, user, box, attrs[i]).Ok?
  {
    if exists i | 0 <= i < |attrs| :: AdjustValue(vw, vh, user, box, attrs[i]).Throws? then Throws
    else Ok(seq(|attrs|, i requires 0 <= i < |attrs| => Attr(attrs[i].name, AdjustValue(vw, vh, user, box, attrs[i]).value)))
  }

  /** `pathBounds(elem.attr('d').value)`; a node without `d` throws. */
  function BoxOf(elem: Node, bounds: JsValue -> Result<Box>): Result<Box>
  {
    if elem.Element? && HasAttr(elem.attrs, "d") then bounds(Lookup(elem.attrs, "d").value) else Throws
  }

  /** The gradient with its default coordinates added, before the loop. */
  function WithDefaults(g: Node): seq<Attr>
    requires g.Element?
  {
    AddMissing(g.attrs, Defaults(g.elem))
  }

  /** `adjustGradientCoordinate(gradient, elem)`: the gradient it leaves behind. */
  function AdjustedGradient(vw: JsValue, vh: JsValue, bounds: JsValue -> Result<Box>, g: Node, elem: Node): (r: Result<Node>)
    requires g.Element?
    ensures r.Ok? ==> r.value.Element? && r.value.elem == g.elem && r.value.content == g.content
    ensures r.Ok? ==> Names(r.value.attrs) == Names(WithDefaults(g))
  {
    var attrs := WithDefaults(g);
    var user := HasAttrValue(attrs, "gradientUnits", "userSpaceOnUse");
    match AdjustAll(vw, vh, user, BoxOf(elem, bounds), attrs)
    case Throws => Throws
    case Ok(a) => Ok(Element(g.elem, a, g.content))
  }

  // ---------------------------------------------------------------------------
  // What adjustGradientCoordinate promises
  // ---------------------------------------------------------------------------

  /** Every gradient comes out with its coordinates: x1, y1, x2, y2 for a
      linear one, cx, cy, r for a radial one, cx, cy for a sweep one. */
  lemma DefaultsPresent(vw: JsValue, vh: JsValue, bounds: JsValue -> Result<Box>, g: Node, elem: Node)
    requires g.Element? && AdjustedGradient(vw, vh, bounds, g, elem).Ok?
    ensures var a := AdjustedGradient(vw, vh, bounds, g, elem).value.attrs;
      forall i :: 0 <= i < |Defaults(g.elem)| ==> HasAttr(a, Defaults(g.elem)[i].name)
  {
    var a := AdjustedGradient(vw, vh, bounds, g, elem).value.attrs;
    var w := WithDefaults(g);
    forall i | 0 <= i < |Defaults(g.elem)|
      ensures HasAttr(a, Defaults(g.elem)[i].name)
    {
      SameNamesSameKeys(w, a, Defaults(g.elem)[i].name);
    }
  }

  /** Lists with the same names have the same keys. */
  lemma {:induction false} SameNamesSameKeys(x: seq<Attr>, y: seq<Attr>, m: string)
    requires Names(x) == Names(y)
    ensures HasAttr(x, m) <==> HasAttr(y, m)
  {
    if x != [] {
      assert Names(x[1..]) == Names(x)[1..] && Names(y[1..]) == Names(y)[1..];
      SameNamesSameKeys(x[1..], y[1..], m);
    }
  }

  /** Every coordinate comes out as a number with at most two decimals; every
      other attribute keeps its value. */
  lemma CoordinatesRounded(vw: JsValue, vh: JsValue, bounds: JsValue -> Result<Box>, g: Node, elem: Node)
    requires g.Element? && AdjustedGradient(vw, vh, bounds, g, elem).Ok?
    ensures var w := WithDefaults(g);
      var a := AdjustedGradient(vw, vh, bounds, g, elem).value.attrs;
      |a| == |w| &&
      forall i :: 0 <= i < |a| ==>
        a[i].name == w[i].name &&
        (IsPosition(a[i].name) ==> a[i].value.Number? && HasTwoDecimals(a[i].value.n)) &&
        (!IsPosition(a[i].name) ==> a[i].value == w[i].value)
  {
  }

  /** With `userSpaceOnUse`, a percentage is a share of the viewport: of its
      width for x, of its height for y, of the larger of the two for r. */
  lemma UserSpacePercent(vw: JsValue, vh: JsValue, box: Result<Box>, name: string, p: JsValue)
    requires IsPosition(name) && IsPercent(p)
    ensures AdjustValue(vw, vh, true, box, Attr(name, p)) == Ok(Number(Round2(Number(
      if IsXName(name) then Mul(ToNumber(vw), Share(p))
      else if IsYName(name) then Mul(ToNumber(vh), Share(p))
      else Mul(Max(ToNumber(vw), ToNumber(vh)), Share(p))))))
  {
  }

  /** Without `userSpaceOnUse`, a percentage is a share of the painted
      element's bounding box, and any other x or y coordinate throws. */
  lemma BoundingBoxCoordinates(vw: JsValue, vh: JsValue, b: Box, name: string, v: JsValue)
    requires IsXName(name) || IsYName(name)
    ensures IsPercent(v) ==> AdjustValue(vw, vh, false, Ok(b), Attr(name, v)) == Ok(Number(Round2(Number(
      if IsXName(name) then Add(b.x1, Mul(Sub(b.x2, b.x1), Share(v)))
      else Add(b.y1, Mul(Sub(b.y2, b.y1), Share(v)))))))
    ensures !IsPercent(v) ==> AdjustValue(vw, vh, false, Ok(b), Attr(name, v)) == Throws
  {
  }

  /** A number that already has two decimals is left as it is. */
  lemma Round2Keeps(n: JsNum)
    requires HasTwoDecimals(n)
    ensures Round2(Number(n)) == n
  {
    if n.Num? {
      var k := (n.r * 100.0).Floor;
      assert k as real == n.r * 100.0;
      assert (n.r * 100.0 + 0.5).Floor == k;
    }
  }

  /** With `userSpaceOnUse` the rewrite is idempotent: a gradient referenced
      by a second element gets the same coordinates again. */
  lemma AdjustValueIdempotent(vw: JsValue, vh: JsValue, box: Result<Box>, a: Attr)
    requires IsPosition(a.name) ==> a.value.Number? && HasTwoDecimals(a.value.n)
    ensures AdjustValue(vw, vh, true, box, a) == Ok(a.value)
  {
    if IsPosition(a.name) {
      NumberIsNotPercent(a.value.n);
      Round2Keeps(a.value.n);
    }
  }

  /** Without `userSpaceOnUse` the second reference throws: the coordinates
      are numbers by then, and a number is not a percentage. */
  lemma AdjustValueSecondBoxThrows(vw: JsValue, vh: JsValue, box: Result<Box>, a: Attr)
    requires IsXName(a.name) || IsYName(a.name)
    requires a.value.Number?
    ensures AdjustValue(vw, vh, false, box, a) == Throws
  {
    NumberIsNotPercent(a.value.n);
  }

  /** A coordinate the gradient lacks gets its default: `0`, `100%` or `50%`. */
  lemma DefaultValues(g: Node)
    requires g.Element?
    ensures var d := Defaults(g.elem);
      forall i :: 0 <= i < |d| && !HasAttr(g.attrs, d[i].name) ==> Lookup(WithDefaults(g), d[i].name) == Some(d[i].value)
  {
    var d := Defaults(g.elem);
    forall i | 0 <= i < |d| && !HasAttr(g.attrs, d[i].name)
      ensures Lookup(WithDefaults(g), d[i].name) == Some(d[i].value)
    {
      assert forall j, k :: 0 <= j < k < |d| ==> d[j].name != d[k].name;
      AddMissingValues(g.attrs, d, i);
    }
  }

  /** After the loop an attribute holds the new value of what it held before. */
  lemma AdjustedLookup(vw: JsValue, vh: JsValue, user: bool, box: Result<Box>, attrs: seq<Attr>, n: string)
    requires AdjustAll(vw, vh, user, box, attrs).Ok? && HasAttr(attrs, n)
    ensures var v := AdjustValue(vw, vh, user, box, Attr(n, Lookup(attrs, n).value));
      v.Ok? && Lookup(AdjustAll(vw, vh, user, box, attrs).value, n) == Some(v.value)
  {
    var r := AdjustAll(vw, vh, user, box, attrs).value;
    assert |r| == |attrs| && forall i :: 0 <= i < |attrs| ==>
      r[i] == Attr(attrs[i].name, AdjustValue(vw, vh, user, box, attrs[i]).value);
    var k := LookupSameNames(attrs, r, n);
    var a := attrs[k];
    assert a == Attr(n, Lookup(attrs, n).value);
    assert r[k] == Attr(n, AdjustValue(vw, vh, user, box, a).value);
  }

  /** Two lists with the same names find a name at the same place. */
  lemma {:induction false} LookupSameNames(x: seq<Attr>, y: seq<Attr>, n: string) returns (k: nat)
    requires |x| == |y| && forall i :: 0 <= i < |x| ==> y[i].name == x[i].name
    requires HasAttr(x, n)
    ensures k < |x| && x[k].name == n && Lookup(x, n) == Some(x[k].value) && Lookup(y, n) == Some(y[k].value)
  {
    if x[0].name == n {
      k := 0;
    } else {
      var k' := LookupSameNames(x[1..], y[1..], n);
      k := k' + 1;
    }
  }

  /** With `userSpaceOnUse` a linear gradient's missing start point is the
      origin and its missing end point the viewport's far corner (its width
      and height rounded to two decimals). */
  lemma LinearUserSpaceDefaults(vw: JsValue, vh: JsValue, bounds: JsValue -> Result<Box>, g: Node, elem: Node)
    requires g.Element? && g.elem == "linearGradient" && HasAttrValue(g.attrs, "gradientUnits", "userSpaceOnUse")
    ensures AdjustedGradient(vw, vh, bounds, g, elem).Ok?
    ensures var a := AdjustedGradient(vw, vh, bounds, g, elem).value.attrs;
      (!HasAttr(g.attrs, "x1") ==> Lookup(a, "x1") == Some(Number(Num(0.0)))) &&
      (!HasAttr(g.attrs, "y1") ==> Lookup(a, "y1") == Some(Number(Num(0.0)))) &&
      (!HasAttr(g.attrs, "x2") ==> Lookup(a, "x2") == Some(Number(Round2(vw)))) &&
      (!HasAttr(g.attrs, "y2") ==> Lookup(a, "y2") == Some(Number(Round2(vh))))
  {
    UserSpaceNeverThrows(vw, vh, bounds, g, elem);
    if !HasAttr(g.attrs, "x1") { ZeroDefault(vw, vh, bounds, g, elem, 0); }
    if !HasAttr(g.attrs, "y1") { ZeroDefault(vw, vh, bounds, g, elem, 1); }
    if !HasAttr(g.attrs, "x2") { WholeDefault(vw, vh, bounds, g, elem, 2, vw, "x2"); }
    if !HasAttr(g.attrs, "y2") { WholeDefault(vw, vh, bounds, g, elem, 3, vh, "y2"); }
  }

  /** With `userSpaceOnUse` a radial or sweep gradient's missing centre is
      the middle of the viewport, and a radial one's missing radius half the
      viewport's larger side (rounded to two decimals). */
  lemma RadialUserSpaceDefaults(vw: JsValue, vh: JsValue, bounds: JsValue -> Result<Box>, g: Node, elem: Node)
    requires g.Element? && (g.elem == "radialGradient" || g.elem == "sweepGradient")
    requires HasAttrValue(g.attrs, "gradientUnits", "userSpaceOnUse")
    ensures AdjustedGradient(vw, vh, bounds, g, elem).Ok?
    ensures var a := AdjustedGradient(vw, vh, bounds, g, elem).value.attrs;
      (!HasAttr(g.attrs, "cx") ==> Lookup(a, "cx") == Some(Number(Round2(Number(Mul(ToNumber(vw), Num(0.5))))))) &&
      (!HasAttr(g.attrs, "cy") ==> Lookup(a, "cy") == Some(Number(Round2(Number(Mul(ToNumber(vh), Num(0.5))))))) &&
      (g.elem == "radialGradient" && !HasAttr(g.attrs, "r") ==>
        Lookup(a, "r") == Some(Number(Round2(Number(Mul(Max(ToNumber(vw), ToNumber(vh)), Num(0.5)))))))
  {
    UserSpaceNeverThrows(vw, vh, bounds, g, elem);
    if !HasAttr(g.attrs, "cx") { HalfDefault(vw, vh, bounds, g, elem, 0, "cx", ToNumber(vw)); }
    if !HasAttr(g.attrs, "cy") { HalfDefault(vw, vh, bounds, g, elem, 1, "cy", ToNumber(vh)); }
    if g.elem == "radialGradient" && !HasAttr(g.attrs, "r") {
      HalfDefault(vw, vh, bounds, g, elem, 2, "r", Max(ToNumber(vw), ToNumber(vh)));
    }
  }

  /** A missing `0` default comes out as 0. */
  lemma ZeroDefault(vw: JsValue, vh: JsValue, bounds: JsValue -> Result<Box>, g: Node, elem: Node, k: nat)
    requires g.Element? && g.elem == "linearGradient" && HasAttrValue(g.attrs, "gradientUnits", "userSpaceOnUse")
    requires k < 2 && !HasAttr(g.attrs, Defaults(g.elem)[k].name)
    ensures AdjustedGradient(vw, vh, bounds, g, elem).Ok?
    ensures Lookup(AdjustedGradient(vw, vh, bounds, g, elem).value.attrs, Defaults(g.elem)[k].name) == Some(Number(Num(0.0)))
  {
    ZeroAdjusted(vw, vh, BoxOf(elem, bounds), Defaults(g.elem)[k].name);
    DefaultAdjusted(vw, vh, bounds, g, elem, k, Number(Num(0.0)));
  }

  /** A missing `100%` default comes out as the viewport's side `side`. */
  lemma WholeDefault(vw: JsValue, vh: JsValue, bounds: JsValue -> Result<Box>, g: Node, elem: Node, k: nat, side: JsValue, name: string)
    requires g.Element? && g.elem == "linearGradient" && HasAttrValue(g.attrs, "gradientUnits", "userSpaceOnUse")
    requires (k == 2 && side == vw && name == "x2") || (k == 3 && side == vh && name == "y2")
    requires !HasAttr(g.attrs, name)
    ensures AdjustedGradient(vw, vh, bounds, g, elem).Ok?
    ensures Lookup(AdjustedGradient(vw, vh, bounds, g, elem).value.attrs, name) == Some(Number(Round2(side)))
  {
    assert Defaults(g.elem)[k] == Attr(name, Str("100%"));
    ShareOfHundred();
    PercentAdjusted(vw, vh, BoxOf(elem, bounds), name, "100%", Num(1.0), ToNumber(side));
    MulOne(ToNumber(side));
    DefaultAdjusted(vw, vh, bounds, g, elem, k, Number(Round2(side)));
  }

  /** A missing `50%` default comes out as half of `side`: the viewport's
      width for cx, its height for cy, its larger side for r. */
  lemma HalfDefault(vw: JsValue, vh: JsValue, bounds: JsValue -> Result<Box>, g: Node, elem: Node, k: nat, name: string, side: JsNum)
    requires g.Element? && (g.elem == "radialGradient" || g.elem == "sweepGradient")
    requires HasAttrValue(g.attrs, "gradientUnits", "userSpaceOnUse")
    requires (k == 0 && name == "cx" && side == ToNumber(vw)) || (k == 1 && name == "cy" && side == ToNumber(vh)) ||
      (k == 2 && name == "r" && g.elem == "radialGradient" && side == Max(ToNumber(vw), ToNumber(vh)))
    requires !HasAttr(g.attrs, name)
    ensures AdjustedGradient(vw, vh, bounds, g, elem).Ok?
    ensures Lookup(AdjustedGradient(vw, vh, bounds, g, elem).value.attrs, name) == Some(Number(Round2(Number(Mul(side, Num(0.5))))))
  {
    assert Defaults(g.elem)[k] == Attr(name, Str("50%"));
    ShareOfHalf();
    PercentAdjusted(vw, vh, BoxOf(elem, bounds), name, "50%", Num(0.5), side);
    DefaultAdjusted(vw, vh, bounds, g, elem, k, Number(Round2(Number(Mul(side, Num(0.5))))));
  }

  /** A viewport 24 wide: a linear gradient without x2 ends at x = 24. */
  lemma LinearEndAtViewportWidth(vh: JsValue, bounds: JsValue -> Result<Box>, g: Node, elem: Node)
    requires g.Element? && g.elem == "linearGradient" && HasAttrValue(g.attrs, "gradientUnits", "userSpaceOnUse")
    requires !HasAttr(g.attrs, "x2")
    ensures AdjustedGradient(Number(Num(24.0)), vh, bounds, g, elem).Ok?
    ensures Lookup(AdjustedGradient(Number(Num(24.0)), vh, bounds, g, elem).value.attrs, "x2") == Some(Number(Num(24.0)))
  {
    var vw := Number(Num(24.0));
    assert HasTwoDecimals(Num(24.0));
    Round2Keeps(Num(24.0));
    WholeDefault(vw, vh, bounds, g, elem, 2, vw, "x2");
  }

  /** With `userSpaceOnUse` no attribute throws. */
  lemma UserSpaceNeverThrows(vw: JsValue, vh: JsValue, bounds: JsValue -> Result<Box>, g: Node, elem: Node)
    requires g.Element? && HasAttrValue(g.attrs, "gradientUnits", "userSpaceOnUse")
    ensures HasAttrValue(WithDefaults(g), "gradientUnits", "userSpaceOnUse")
    ensures AdjustedGradient(vw, vh, bounds, g, elem).Ok?
  {
    assert HasAttr(g.attrs, "gradientUnits");
  }

  /** The `k`-th default, when missing, comes out as its own adjusted value. */
  lemma DefaultAdjusted(vw: JsValue, vh: JsValue, bounds: JsValue -> Result<Box>, g: Node, elem: Node, k: nat, want: JsValue)
    requires g.Element? && HasAttrValue(g.attrs, "gradientUnits", "userSpaceOnUse")
    requires k < |Defaults(g.elem)| && !HasAttr(g.attrs, Defaults(g.elem)[k].name)
    requires AdjustValue(vw, vh, true, BoxOf(elem, bounds), Defaults(g.elem)[k]) == Ok(want)
    ensures AdjustedGradient(vw, vh, bounds, g, elem).Ok?
    ensures Lookup(AdjustedGradient(vw, vh, bounds, g, elem).value.attrs, Defaults(g.elem)[k].name) == Some(want)
  {
    var d := Defaults(g.elem);
    var w := WithDefaults(g);
    UserSpaceNeverThrows(vw, vh, bounds, g, elem);
    DefaultValues(g);
    assert Lookup(w, d[k].name) == Some(d[k].value);
    assert d[k] == Attr(d[k].name, d[k].value);
    AdjustedLookup(vw, vh, true, BoxOf(elem, bounds), w, d[k].name);
  }

  /** A default `0` stays 0. */
  lemma ZeroAdjusted(vw: JsValue, vh: JsValue, box: Result<Box>, name: string)
    requires IsXName(name) || IsYName(name)
    ensures AdjustValue(vw, vh, true, box, Attr(name, Str("0"))) == Ok(Number(Num(0.0)))
  {
    ZeroIsZero();
  }

  /** A percentage `p` reading as the share `f` of `side`: the viewport's
      width for an x, its height for a y, its larger side for r. */
  lemma PercentAdjusted(vw: JsValue, vh: JsValue, box: Result<Box>, name: string, p: string, f: JsNum, side: JsNum)
    requires IsPercent(Str(p)) && Share(Str(p)) == f
    requires (IsXName(name) && side == ToNumber(vw)) || (IsYName(name) && side == ToNumber(vh)) ||
      (name == "r" && side == Max(ToNumber(vw), ToNumber(vh)))
    ensures AdjustValue(vw, vh, true, box, Attr(name, Str(p))) == Ok(Number(Round2(Number(Mul(side, f)))))
  {
    assert IsPosition(name);
    UserSpacePercent(vw, vh, box, name, Str(p));
    if IsXName(name) {
      assert side == ToNumber(vw);
    } else if IsYName(name) {
      assert side == ToNumber(vh);
    } else {
      assert side == Max(ToNumber(vw), ToNumber(vh));
    }
  }

  /** A default of `0` is the number 0 after rounding. */
  lemma ZeroIsZero()
    ensures !IsPercent(Str("0")) && Round2(Number(ToNumber(Str("0")))) == Num(0.0)
  {
    TrimNoop("0");
    assert DigitRun("0", 0) == 1;
    assert DigitsValue("0") == 0;
  }

  /** `100%` is the whole. */
  lemma ShareOfHundred()
    ensures IsPercent(Str("100%")) && Share(Str("100%")) == Num(1.0)
  {
    assert DigitsValue("100") == 100 by { assert "100"[..2] == "10" && "10"[..1] == "1"; }
    ShareOfWhole("100", 100);
    assert "100" + "%" == "100%";
  }

  /** `50%` is the half. */
  lemma ShareOfHalf()
    ensures IsPercent(Str("50%")) && Share(Str("50%")) == Num(0.5)
  {
    assert DigitsValue("50") == 50 by { assert "50"[..1] == "5"; }
    ShareOfWhole("50", 50);
    assert "50" + "%" == "50%";
  }

  /** A whole percentage `w%` is `w / 100`. */
  lemma ShareOfWhole(w: string, v: nat)
    requires w != [] && AllDigits(w) && DigitsValue(w) == v
    ensures IsPercent(Str(w + "%")) && Share(Str(w + "%")) == Num(v as real / 100.0)
  {
    PercentOfDecimal("", w, "");
    assert "" + w + "" + "%" == w + "%";
    ParseFloatDigits(w, "%");
  }

  lemma MulOne(x: JsNum)
    ensures Mul(x, Num(1.0)) == x
  {
  }

  // ---------------------------------------------------------------------------
  // addGradientToElement
  // ---------------------------------------------------------------------------

  /** `gradient.hasAttr(name) ? gradient.attr(name).value : d` */
  function AttrOr(attrs: seq<Attr>, name: string, d: JsValue): (v: JsValue)
    ensures HasAttr(attrs, name) ==> v == Lookup(attrs, name).value
    ensures !HasAttr(attrs, name) ==> v == d
  {
    match Lookup(attrs, name)
    case Some(v) => v
    case None => d
  }

  /** The attributes of the Android `<gradient>` for an adjusted SVG gradient. */
  function TypeAttrs(vw: JsValue, vh: JsValue, g: Node): seq<Attr>
    requires g.Element?
  {
    var a := g.attrs;
    if g.elem == "linearGradient" then
      [Attr("android:type", Str("linear")),
       Attr("android:startX", AttrOr(a, "x1", Str("0"))),
       Attr("android:startY", AttrOr(a, "y1", Str("0"))),
       Attr("android:endX", AttrOr(a, "x2", vw)),
       Attr("android:endY", AttrOr(a, "y2", Str("0")))]
    else if g.elem == "radialGradient" then
      var cx := AttrOr(a, "cx", Number(Div(ToNumber(vw), Num(2.0))));
      var cy := AttrOr(a, "cy", Number(Div(ToNumber(vh), Num(2.0))));
      [Attr("android:type", Str("radial")),
       Attr("android:centerX", AttrOr(a, "rx", cx)),
       Attr("android:centerY", AttrOr(a, "ry", cy)),
       Attr("android:gradientRadius", AttrOr(a, "r", Number(Div(Max(ToNumber(vw), ToNumber(vh)), Num(2.0)))))]
    else []
  }

  /** A stop offset: a percentage becomes `Math.round(parseFloat(p)) / 100`. */
  function Offset(v: JsValue): JsValue
  {
    if IsPercent(v) then Number(Div(Round(ParseFloat(Render(v))), Num(100.0))) else v
  }

  /** One `<stop>` as an Android `<item>`; a node without `stop-color` or
      `offset` throws. */
  function ColorStop(item: Node): (r: Result<Node>)
    ensures r.Ok? <==> item.Element? && HasAttr(item.attrs, "stop-color") && HasAttr(item.attrs, "offset")
    ensures r.Ok? ==>
      var a := item.attrs;
      var c := Lookup(a, "stop-color").value;
      r.value.Element? && r.value.elem == "item" && r.value.content == [] &&
      Names(r.value.attrs) == ["android:color", "android:offset"] &&
      Lookup(r.value.attrs, "android:color") ==
        Some(if HasAttr(a, "stop-opacity") then Str(MergeColorAndOpacityAsWritten(Render(c), Lookup(a, "stop-opacity").value)) else c) &&
      Lookup(r.value.attrs, "android:offset") == Some(Offset(Lookup(a, "offset").value))
  {
    if item.Other? || !HasAttr(item.attrs, "stop-color") || !HasAttr(item.attrs, "offset") then Throws
    else
      var color := Lookup(item.attrs, "stop-color").value;
      var color' := if HasAttr(item.attrs, "stop-opacity")
        then Str(MergeColorAndOpacityAsWritten(Render(color), Lookup(item.attrs, "stop-opacity").value))
        else color;
      Ok(Element("item", [Attr("android:color", color'), Attr("android:offset", Offset(Lookup(item.attrs, "offset").value))], []))
  }

  /** The stops of a gradient, in order. A gradient without children has no
      `content` array, and iterating over it throws; so does a stop that
      throws. */
  function ColorStops(items: seq<Node>): (r: Result<seq<Node>>)
    ensures r.Ok? <==> items != [] && forall i :: 0 <= i < |items| ==> ColorStop(items[i]).Ok?
    ensures r.Ok? ==> |r.value| == |items| && forall i :: 0 <= i < |items| ==> r.value[i] == ColorStop(items[i]).value
  {
    if items == [] || exists i | 0 <= i < |items| :: ColorStop(items[i]).Throws? then Throws
    else Ok(seq(|items|, i requires 0 <= i < |items| => ColorStop(items[i]).value))
  }

  /** `url(#id)` for a gradient. */
  function UrlOf(id: JsValue): string
  {
    "url(#" + Render(id) + ")"
  }

  /** The `name` of the `<aapt:attr>`: the fill colour when the element's
      fill is this gradient, the stroke colour (which wins) when its stroke is. */
  function AaptAttrs(id: JsValue, elem: Node): (r: seq<Attr>)
    ensures elem.Element? && HasAttrValue(elem.attrs, "stroke", UrlOf(id)) ==> r == [Attr("name", Str("android:strokeColor"))]
    ensures elem.Element? && !HasAttrValue(elem.attrs, "stroke", UrlOf(id)) && HasAttrValue(elem.attrs, "fill", UrlOf(id)) ==>
      r == [Attr("name", Str("android:fillColor"))]
  {
    if elem.Other? then []
    else
      var a := if HasAttrValue(elem.attrs, "fill", UrlOf(id)) then [Attr("name", Str("android:fillColor"))] else [];
      if HasAttrValue(elem.attrs, "stroke", UrlOf(id)) then AddAttr(a, "name", Str("android:strokeColor")) else a
  }

  /** `addGradientToElement(gradient, elem)`: the gradient after the rewrite,
      and the `<aapt:attr>` block pushed as the element's last child. */
  function GradientBlock(vw: JsValue, vh: JsValue, bounds: JsValue -> Result<Box>, g: Node, elem: Node): Result<(Node, Node)>
    requires g.Element?
  {
    match Lookup(g.attrs, "id")
    case None => Throws
    case Some(id) =>
      match AdjustedGradient(vw, vh, bounds, g, elem)
      case Throws => Throws
      case Ok(g') =>
        match ColorStops(g'.content)
        case Throws => Throws
        case Ok(stops) =>
          Ok((g', Element("aapt:attr", AaptAttrs(id, elem), [Element("gradient", TypeAttrs(vw, vh, g'), stops)])))
  }

  // ---------------------------------------------------------------------------
  // What addGradientToElement promises
  // ---------------------------------------------------------------------------

  /** `addGradientToElement` throws exactly when the gradient has no `id`,
      its coordinates cannot be adjusted, or its stops do not convert;
      otherwise it leaves the adjusted gradient behind and the block holds
      one `<gradient>` whose items are the gradient's stops, in order. */
  lemma GradientBlockParts(vw: JsValue, vh: JsValue, bounds: JsValue -> Result<Box>, g: Node, elem: Node)
    requires g.Element?
    ensures GradientBlock(vw, vh, bounds, g, elem).Ok? <==>
      HasAttr(g.attrs, "id") && AdjustedGradient(vw, vh, bounds, g, elem).Ok? && ColorStops(g.content).Ok?
    ensures GradientBlock(vw, vh, bounds, g, elem).Ok? ==>
      var (g', aapt) := GradientBlock(vw, vh, bounds, g, elem).value;
      g' == AdjustedGradient(vw, vh, bounds, g, elem).value &&
      aapt.Element? && aapt.elem == "aapt:attr" && aapt.attrs == AaptAttrs(Lookup(g.attrs, "id").value, elem) &&
      |aapt.content| == 1 && aapt.content[0].Element? && aapt.content[0].elem == "gradient" &&
      |aapt.content[0].content| == |g.content| &&
      forall i :: 0 <= i < |g.content| ==> aapt.content[0].content[i] == ColorStop(g.content[i]).value
  {
  }

  /** A linear gradient becomes `android:type="linear"` with start and end
      points read from its adjusted x1, y1, x2, y2 (which the defaults
      guarantee), and one `<item>` per stop. */
  lemma LinearBlock(vw: JsValue, vh: JsValue, bounds: JsValue -> Result<Box>, g: Node, elem: Node)
    requires g.Element? && g.elem == "linearGradient"
    requires GradientBlock(vw, vh, bounds, g, elem).Ok?
    ensures var (g', aapt) := GradientBlock(vw, vh, bounds, g, elem).value;
      var a := g'.attrs;
      aapt.Element? && aapt.elem == "aapt:attr" && |aapt.content| == 1 &&
      aapt.content[0].Element? && aapt.content[0].elem == "gradient" &&
      |aapt.content[0].content| == |g.content| &&
      var t := aapt.content[0].attrs;
      Names(t) == ["android:type", "android:startX", "android:startY", "android:endX", "android:endY"] &&
      t[0].value == Str("linear") &&
      Lookup(a, "x1") == Some(t[1].value) && Lookup(a, "y1") == Some(t[2].value) &&
      Lookup(a, "x2") == Some(t[3].value) && Lookup(a, "y2") == Some(t[4].value)
  {
    var g' := AdjustedGradient(vw, vh, bounds, g, elem).value;
    var id := Lookup(g.attrs, "id").value;
    var stops := ColorStops(g'.content).value;
    assert GradientBlock(vw, vh, bounds, g, elem).value ==
      (g', Element("aapt:attr", AaptAttrs(id, elem), [Element("gradient", TypeAttrs(vw, vh, g'), stops)]));
    DefaultsPresent(vw, vh, bounds, g, elem);
    assert Defaults(g.elem)[0].name == "x1" && Defaults(g.elem)[1].name == "y1";
    assert Defaults(g.elem)[2].name == "x2" && Defaults(g.elem)[3].name == "y2";
    LinearTypeAttrs(vw, vh, g');
  }

  lemma LinearTypeAttrs(vw: JsValue, vh: JsValue, g: Node)
    requires g.Element? && g.elem == "linearGradient"
    requires HasAttr(g.attrs, "x1") && HasAttr(g.attrs, "y1") && HasAttr(g.attrs, "x2") && HasAttr(g.attrs, "y2")
    ensures var t := TypeAttrs(vw, vh, g);
      Names(t) == ["android:type", "android:startX", "android:startY", "android:endX", "android:endY"] &&
      t[0].value == Str("linear") &&
      Lookup(g.attrs, "x1") == Some(t[1].value) && Lookup(g.attrs, "y1") == Some(t[2].value) &&
      Lookup(g.attrs, "x2") == Some(t[3].value) && Lookup(g.attrs, "y2") == Some(t[4].value)
  {
    var a := g.attrs;
    var t := TypeAttrs(vw, vh, g);
    assert t == [Attr("android:type", Str("linear")), Attr("android:startX", AttrOr(a, "x1", Str("0"))),
      Attr("android:startY", AttrOr(a, "y1", Str("0"))), Attr("android:endX", AttrOr(a, "x2", vw)),
      Attr("android:endY", AttrOr(a, "y2", Str("0")))];
    var n := Names(t);
    assert |n| == 5 && n[0] == t[0].name && n[1] == t[1].name && n[2] == t[2].name && n[3] == t[3].name && n[4] == t[4].name;
    assert n == ["android:type", "android:startX", "android:startY", "android:endX", "android:endY"];
  }

  /** A radial gradient becomes `android:type="radial"`; `rx` and `ry`, when
      present, replace the centre coordinates. */
  lemma RadialBlock(vw: JsValue, vh: JsValue, bounds: JsValue -> Result<Box>, g: Node, elem: Node)
    requires g.Element? && g.elem == "radialGradient"
    requires GradientBlock(vw, vh, bounds, g, elem).Ok?
    ensures var (g', aapt) := GradientBlock(vw, vh, bounds, g, elem).value;
      var a := g'.attrs;
      aapt.Element? && |aapt.content| == 1 && aapt.content[0].Element? &&
      var t := aapt.content[0].attrs;
      Names(t) == ["android:type", "android:centerX", "android:centerY", "android:gradientRadius"] &&
      t[0].value == Str("radial") &&
      Lookup(a, if HasAttr(a, "rx") then "rx" else "cx") == Some(t[1].value) &&
      Lookup(a, if HasAttr(a, "ry") then "ry" else "cy") == Some(t[2].value) &&
      Lookup(a, "r") == Some(t[3].value)
  {
    var g' := AdjustedGradient(vw, vh, bounds, g, elem).value;
    var id := Lookup(g.attrs, "id").value;
    var stops := ColorStops(g'.content).value;
    assert GradientBlock(vw, vh, bounds, g, elem).value ==
      (g', Element("aapt:attr", AaptAttrs(id, elem), [Element("gradient", TypeAttrs(vw, vh, g'), stops)]));
    DefaultsPresent(vw, vh, bounds, g, elem);
    assert Defaults(g.elem)[0].name == "cx" && Defaults(g.elem)[1].name == "cy" && Defaults(g.elem)[2].name == "r";
    RadialTypeAttrs(vw, vh, g');
  }

  lemma RadialTypeAttrs(vw: JsValue, vh: JsValue, g: Node)
    requires g.Element? && g.elem == "radialGradient"
    requires HasAttr(g.attrs, "cx") && HasAttr(g.attrs, "cy") && HasAttr(g.attrs, "r")
    ensures var t := TypeAttrs(vw, vh, g);
      var a := g.attrs;
      Names(t) == ["android:type", "android:centerX", "android:centerY", "android:gradientRadius"] &&
      t[0].value == Str("radial") &&
      Lookup(a, if HasAttr(a, "rx") then "rx" else "cx") == Some(t[1].value) &&
      Lookup(a, if HasAttr(a, "ry") then "ry" else "cy") == Some(t[2].value) &&
      Lookup(a, "r") == Some(t[3].value)
  {
    RadialTypeNames(vw, vh, g);
    RadialTypeValues(vw, vh, g);
  }

  lemma RadialTypeNames(vw: JsValue, vh: JsValue, g: Node)
    requires g.Element? && g.elem == "radialGradient"
    ensures Names(TypeAttrs(vw, vh, g)) == ["android:type", "android:centerX", "android:centerY", "android:gradientRadius"]
  {
    var t := TypeAttrs(vw, vh, g);
    assert |t| == 4 && t[0].name == "android:type" && t[1].name == "android:centerX";
    assert t[2].name == "android:centerY" && t[3].name == "android:gradientRadius";
    NamesOfFour(t);
  }

  lemma NamesOfFour(t: seq<Attr>)
    requires |t| == 4
    ensures Names(t) == [t[0].name, t[1].name, t[2].name, t[3].name]
  {
    var n := Names(t);
    assert |n| == 4 && n[0] == t[0].name && n[1] == t[1].name && n[2] == t[2].name && n[3] == t[3].name;
  }

  lemma RadialTypeValues(vw: JsValue, vh: JsValue, g: Node)
    requires g.Element? && g.elem == "radialGradient"
    requires HasAttr(g.attrs, "cx") && HasAttr(g.attrs, "cy") && HasAttr(g.attrs, "r")
    ensures var t := TypeAttrs(vw, vh, g);
      var a := g.attrs;
      |t| == 4 && t[0].value == Str("radial") &&
      Lookup(a, if HasAttr(a, "rx") then "rx" else "cx") == Some(t[1].value) &&
      Lookup(a, if HasAttr(a, "ry") then "ry" else "cy") == Some(t[2].value) &&
      Lookup(a, "r") == Some(t[3].value)
  {
    var a := g.attrs;
    var cx := AttrOr(a, "cx", Number(Div(ToNumber(vw), Num(2.0))));
    var cy := AttrOr(a, "cy", Number(Div(ToNumber(vh), Num(2.0))));
    var t := TypeAttrs(vw, vh, g);
    assert t[1].value == AttrOr(a, "rx", cx) && t[2].value == AttrOr(a, "ry", cy);
  }

  /** A percentage offset `w%` becomes `w / 100`. */
  lemma PercentOffset(w: string)
    requires w != [] && AllDigits(w)
    ensures Offset(Str(w + "%")) == Number(Num(DigitsValue(w) as real / 100.0))
  {
    var s := w + "%";
    assert IsPercent(Str(s)) by { assert s[|s| - 2] == w[|w| - 1]; }
    OffsetOfPercent(Str(s));
    ParseFloatDigits(w, "%");
    RoundWhole(DigitsValue(w));
  }

  /** A decimal percentage `w.f%`, where `w` is `s[..k]`, `f` the `n` digits
      after the point and `x` the number they write, is rounded to a whole
      percent `m` first (halves up, as `Math.round` does) and then divided
      by 100. */
  lemma DecimalPercentOffset(s: string, k: nat, n: nat, x: real, m: int)
    requires 0 < k && 0 < n && |s| == k + n + 2 && s[k] == '.' && s[k + n + 1] == '%'
    requires AllDigits(s[..k]) && AllDigits(s[k + 1..k + 1 + n])
    requires x == DigitsValue(s[..k]) as real + FracValue(s[k + 1..k + 1 + n])
    requires m as real <= x + 0.5 < m as real + 1.0
    ensures Offset(Str(s)) == Number(Num(m as real / 100.0))
  {
    assert IsPercent(Str(s)) by { assert s[|s| - 2] == s[k + 1..k + 1 + n][n - 1]; }
    OffsetOfPercent(Str(s));
    DecimalParse(s, k, n, x);
    RoundTo(x, m);
  }

  /** The loop's rewrite of a percentage offset. */
  lemma OffsetOfPercent(v: JsValue)
    requires IsPercent(v)
    ensures Offset(v) == Number(Div(Round(ParseFloat(Render(v))), Num(100.0)))
  {
  }

  /** `Math.round(x) / 100` for `m` the nearest whole number to `x`. */
  lemma RoundTo(x: real, m: int)
    requires m as real <= x + 0.5 < m as real + 1.0
    ensures Div(Round(Num(x)), Num(100.0)) == Num(m as real / 100.0)
  {
    assert (x + 0.5).Floor == m;
  }

  /** `parseFloat` reads the whole of `w.f` in front of the `%`. */
  lemma DecimalParse(s: string, k: nat, n: nat, x: real)
    requires 0 < k && 0 < n && |s| == k + n + 2 && s[k] == '.' && s[k + n + 1] == '%'
    requires AllDigits(s[..k]) && AllDigits(s[k + 1..k + 1 + n])
    requires x == DigitsValue(s[..k]) as real + FracValue(s[k + 1..k + 1 + n])
    ensures ParseFloat(Render(Str(s))) == Num(x)
  {
    DecimalRuns(s, k, n);
    ParseFloatUnsigned(s, k, n, x);
  }

  /** `33.6%` is the offset 0.34. */
  lemma DecimalPercentOffsetExample()
    ensures Offset(Str("33.6%")) == Number(Num(0.34))
  {
    var s := "33.6%";
    assert s[..2] == "33" && s[3..4] == "6";
    assert DigitsValue("33") == 33 by { assert "33"[..1] == "3"; }
    assert FracValue("6") == 0.6 by { assert "6"[1..] == ""; }
    DecimalPercentOffset(s, 2, 1, 33.6, 34);
  }

  /** The runs of digits around the point. */
  lemma DecimalRuns(s: string, k: nat, n: nat)
    requires 0 < k && 0 < n && |s| == k + n + 2 && s[k] == '.' && s[k + n + 1] == '%'
    requires AllDigits(s[..k]) && AllDigits(s[k + 1..k + 1 + n])
    ensures IsDigit(s[0]) && DigitRun(s, 0) == k && DigitRun(s, k + 1) == n
  {
    assert s[0] == s[..k][0];
    assert s[0..k] == s[..k];
    DigitRunAt(s, 0, s[..k]);
    DigitRunAt(s, k + 1, s[k + 1..k + 1 + n]);
  }

  /** `parseFloat` of a text that starts with a digit and has a point after
      its first run of digits. */
  lemma ParseFloatUnsigned(s: string, k: nat, f: nat, x: real)
    requires s != [] && IsDigit(s[0])
    requires k < |s| && k == DigitRun(s, 0) && s[k] == '.' && f == DigitRun(s, k + 1) && f > 0
    requires x == DigitsValue(s[..k]) as real + FracValue(s[k + 1..k + 1 + f])
    ensures ParseFloat(s) == Num(x)
  {
    assert FindChar(s, c => !IsSpace(c), 0) == 0;
    assert s[0..] == s;
    assert !(|s| >= 8 && s[..8] == "Infinity") by { if |s| >= 8 { assert s[..8][0] == s[0]; } }
  }

  lemma DigitRunAt(s: string, from: nat, w: string)
    requires AllDigits(w) && from + |w| < |s| && s[from..from + |w|] == w && !IsDigit(s[from + |w|])
    ensures DigitRun(s, from) == |w|
  {
    assert forall j :: from <= j < from + |w| ==> s[j] == w[j - from];
  }

  /** `parseFloat` reads the digits in front of a non-digit, non-point suffix. */
  lemma ParseFloatDigits(w: string, rest: string)
    requires w != [] && AllDigits(w)
    requires rest != [] && !IsDigit(rest[0]) && rest[0] != '.'
    ensures ParseFloat(w + rest) == Num(DigitsValue(w) as real)
  {
    var s := w + rest;
    assert s[0..|w|] == w && s[|w|] == rest[0];
    DigitRunAt(s, 0, w);
    assert s[0] == w[0];
    assert s[..|w|] == w;
    ParseFloatWhole(s, |w|, DigitsValue(w) as real);
  }

  /** `parseFloat` of a text that starts with a digit and has no point after
      its first run of digits. */
  lemma ParseFloatWhole(s: string, k: nat, x: real)
    requires s != [] && IsDigit(s[0])
    requires k < |s| && k == DigitRun(s, 0) && s[k] != '.'
    requires x == DigitsValue(s[..k]) as real
    ensures ParseFloat(s) == Num(x)
  {
    assert FindChar(s, c => !IsSpace(c), 0) == 0;
    assert s[0..] == s;
    assert !(|s| >= 8 && s[..8] == "Infinity") by { if |s| >= 8 { assert s[..8][0] == s[0]; } }
  }

  lemma DigitRunOfDigits(s: string, w: string)
    requires AllDigits(w) && |w| < |s| && s[..|w|] == w && !IsDigit(s[|w|])
    ensures DigitRun(s, 0) == |w|
  {
    assert forall j :: 0 <= j < |w| ==> s[j] == w[j];
  }
}
