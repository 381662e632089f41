/** The tree rewrites of `refactorData` in lib/js2vectordrawable.js, as
    functions over the svgo tree: the `<g>` pass (groups renamed, elided,
    their fill, opacity and fill rule pushed to their children), the root
    pass (`<svg>` becomes `<vector>` and is sized), the path pass (SVG paint
    attributes become Android ones) and the gradient pass (each gradient
    reference becomes an `<aapt:attr>` block). */
module Refactor {
  import opened JsText
  import opened JsNumber
  import opened Wrappers
  import opened SvgoTree
  import opened ColorMerge
  import opened Gradient

  // ---------------------------------------------------------------------------
  // The <g> pass
  // ---------------------------------------------------------------------------

  /** What a group hands down to each of its children: `fill-rule="evenodd"`
      (only when the group is elided), its fill and its opacity. */
  datatype Pushes = Pushes(evenodd: bool, fill: Option<JsValue>, opacity: Option<JsValue>)

  const NoPushes := Pushes(false, None, None)

  /** `Math.round(g * c * 100) / 100`: a group opacity combined with a child's. */
  function CombineOpacity(g: JsValue, c: JsValue): JsNum
  {
    Div(Round(Mul(Mul(ToNumber(g), ToNumber(c)), Num(100.0))), Num(100.0))
  }

  /** A child's attributes after its group's pushes, in the order the group
      makes them: the fill rule, the fill, the opacity. */
  function PushAttrs(a: seq<Attr>, p: Pushes): (r: seq<Attr>)
  {
    PushOpacity(PushFill(PushRule(a, p.evenodd), p.fill), p.opacity)
  }

  /** `fill-rule="evenodd"` for a child that has no fill rule. */
  function PushRule(a: seq<Attr>, evenodd: bool): (r: seq<Attr>)
    ensures Lookup(r, "fill-rule") == if evenodd && !HasAttr(a, "fill-rule") then Some(Str("evenodd")) else Lookup(a, "fill-rule")
    ensures forall m :: m != "fill-rule" ==> Lookup(r, m) == Lookup(a, m)
  {
    if evenodd && !HasAttr(a, "fill-rule") then AddAttr(a, "fill-rule", Str("evenodd")) else a
  }

  /** The group's fill for a child that has no fill. */
  function PushFill(a: seq<Attr>, fill: Option<JsValue>): (r: seq<Attr>)
    ensures Lookup(r, "fill") == if HasAttr(a, "fill") then Lookup(a, "fill") else fill
    ensures forall m :: m != "fill" ==> Lookup(r, m) == Lookup(a, m)
  {
    if fill.Some? && !HasAttr(a, "fill") then AddAttr(a, "fill", fill.value) else a
  }

  /** The group's opacity, multiplied into the child's when it has one. */
  function PushOpacity(a: seq<Attr>, opacity: Option<JsValue>): (r: seq<Attr>)
    ensures Lookup(r, "opacity") == if opacity.None? then Lookup(a, "opacity")
      else if HasAttr(a, "opacity") then Some(Number(CombineOpacity(opacity.value, Lookup(a, "opacity").value)))
      else opacity
    ensures forall m :: m != "opacity" ==> Lookup(r, m) == Lookup(a, m)
  {
    if opacity.None? then a
    else if HasAttr(a, "opacity") then AddAttr(a, "opacity", Number(CombineOpacity(opacity.value, Lookup(a, "opacity").value)))
    else AddAttr(a, "opacity", opacity.value)
  }

  /** The group's own attributes once `fill-rule="nonzero"` is gone. */
  function GroupOwn(a: seq<Attr>): seq<Attr>
  {
    RemoveAttrValue(a, "fill-rule", "nonzero")
  }

  /** A group without `transform` whose fill is absent or `none` is elided. */
  predicate Elided(a: seq<Attr>)
  {
    var a1 := GroupOwn(a);
    !HasAttr(a1, "transform") && (!HasAttr(a1, "fill") || HasAttrValue(a1, "fill", "none"))
  }

  /** What the group at hand pushes to its children. */
  function ChildPushes(a: seq<Attr>): Pushes
  {
    var a1 := GroupOwn(a);
    Pushes(Elided(a) && HasAttrValue(a1, "fill-rule", "evenodd"), Lookup(a1, "fill"), Lookup(a1, "opacity"))
  }

  /** The attributes a kept group ends with: no fill and no opacity. */
  function KeptAttrs(a: seq<Attr>): seq<Attr>
  {
    RemoveAttr(RemoveAttr(GroupOwn(a), "fill"), "opacity")
  }

  /** A group with no children has no `content` array: iterating over it, or
      splicing it into the parent, throws. */
  predicate EmptyGroupThrows(a: seq<Attr>)
  {
    var p := ChildPushes(a);
    Elided(a) || p.fill.Some? || p.opacity.Some?
  }

  /** The `<g>` pass over a forest whose nodes first receive the pushes `p`
      of their parent. The source visits the `g` elements in document order;
      since each visit changes only the group, its place in its parent and
      its children's attributes, visiting the tree from the top gives the
      same result. */
  function Groups(items: seq<Node>, p: Pushes): (r: Result<seq<Node>>)
    decreases items, 0
    ensures r.Ok? ==> !Occurs(r.value, {"g"})
  {
    if items == [] then Ok([])
    else
      var head := GroupNode(items[0], p);
      var rest := Groups(items[1..], p);
      if head.Throws? || rest.Throws? then Throws
      else
        OccursAppend(head.value, rest.value, {"g"});
        Ok(head.value + rest.value)
  }

  /** One node of the `<g>` pass: what takes its place in its parent. */
  function GroupNode(n: Node, p: Pushes): (r: Result<seq<Node>>)
    decreases n, 0
    ensures r.Ok? ==> !Occurs(r.value, {"g"})
    ensures r.Ok? && n.Element? && n.elem != "g" ==>
      |r.value| == 1 && r.value[0].Element? && r.value[0].elem == n.elem && r.value[0].attrs == PushAttrs(n.attrs, p)
  {
    match n
    case Other => Ok([Other])
    case Element(e, a0, c) =>
      if e != "g" then KeptElement(e, PushAttrs(a0, p), c) else GroupElement(PushAttrs(a0, p), c)
  }

  /** An element other than `<g>`, with the attributes its parent pushed
      to it: it stays, and its own children start without pushes. */
  function KeptElement(e: string, a: seq<Attr>, c: seq<Node>): (r: Result<seq<Node>>)
    requires e != "g"
    decreases c, 1
    ensures r.Ok? ==> !Occurs(r.value, {"g"})
    ensures r.Ok? ==> |r.value| == 1 && r.value[0].Element? && r.value[0].elem == e && r.value[0].attrs == a
  {
    match Groups(c, NoPushes)
    case Throws => Throws
    case Ok(c') =>
      OccursSingle(Element(e, a, c'), {"g"});
      Ok([Element(e, a, c')])
  }

  /** A `<g>` with the attributes its parent pushed to it: elided into its
      children, or kept as a `<group>`. */
  function GroupElement(a: seq<Attr>, c: seq<Node>): (r: Result<seq<Node>>)
    decreases c, 1
    ensures r.Ok? ==> !Occurs(r.value, {"g"})
  {
    if c == [] && EmptyGroupThrows(a) then Throws
    else
      match Groups(c, ChildPushes(a))
      case Throws => Throws
      case Ok(c') =>
        if Elided(a) then Ok(c')
        else
          OccursSingle(Element("group", KeptAttrs(a), c'), {"g"});
          Ok([Element("group", KeptAttrs(a), c')])
  }

  /** The whole `<g>` pass; `querySelectorAll('g')` finds nothing and gives
      `null` when there is no group, and iterating over that throws. */
  function GroupPass(items: seq<Node>): Result<seq<Node>>
  {
    if !Occurs(items, {"g"}) then Throws else Groups(items, NoPushes)
  }

  // ---------------------------------------------------------------------------
  // What the <g> pass promises
  // ---------------------------------------------------------------------------

  /** The pass works sibling by sibling: on two forests side by side it
      gives their results side by side, and throws when either throws. */
  lemma {:induction false} GroupsAppend(a: seq<Node>, b: seq<Node>, p: Pushes)
    ensures Groups(a + b, p).Ok? <==> Groups(a, p).Ok? && Groups(b, p).Ok?
    ensures Groups(a + b, p).Ok? ==> Groups(a + b, p).value == Groups(a, p).value + Groups(b, p).value
  {
    if a == [] {
      assert a + b == b;
    } else {
      assert (a + b)[0] == a[0] && (a + b)[1..] == a[1..] + b;
      GroupsAppend(a[1..], b, p);
    }
  }

  /** An elided group's children, after its pushes and their own rewrite,
      take its place among its siblings, in their order. */
  lemma ElidedGroupSpliced(left: seq<Node>, g: Node, right: seq<Node>, p: Pushes)
    requires g.Element? && g.elem == "g" && g.content != []
    requires Elided(PushAttrs(g.attrs, p))
    ensures var l := Groups(left, p);
      var c := Groups(g.content, ChildPushes(PushAttrs(g.attrs, p)));
      var r := Groups(right, p);
      var all := Groups(left + [g] + right, p);
      (all.Ok? <==> l.Ok? && c.Ok? && r.Ok?) &&
      (all.Ok? ==> all.value == l.value + c.value + r.value)
  {
    GroupsAppend(left + [g], right, p);
    GroupsAppend(left, [g], p);
    assert [g][1..] == [];
    var h := GroupNode(g, p);
    assert h == GroupElement(PushAttrs(g.attrs, p), g.content);
    if h.Ok? {
      assert h.value + [] == h.value;
    }
  }

  /** A group that has a transform, or a fill other than `none`, stays as
      a `group` without fill and without opacity, with its children
      rewritten in place. */
  lemma KeptGroup(g: Node, p: Pushes)
    requires g.Element? && g.elem == "g" && !Elided(PushAttrs(g.attrs, p))
    requires g.content != [] || !EmptyGroupThrows(PushAttrs(g.attrs, p))
    ensures var a := PushAttrs(g.attrs, p);
      var c := Groups(g.content, ChildPushes(a));
      var r := GroupNode(g, p);
      (r.Ok? <==> c.Ok?) &&
      (r.Ok? ==>
        r.value == [Element("group", KeptAttrs(a), c.value)] &&
        !HasAttr(KeptAttrs(a), "fill") && !HasAttr(KeptAttrs(a), "opacity") &&
        (HasAttr(a, "transform") || (HasAttr(a, "fill") && !HasAttrValue(a, "fill", "none"))))
  {
    assert GroupNode(g, p) == GroupElement(PushAttrs(g.attrs, p), g.content);
  }

  /** A group with no children that would push something, or be elided,
      makes the pass throw. */
  lemma EmptyGroupFails(g: Node, p: Pushes)
    requires g.Element? && g.elem == "g" && g.content == []
    ensures GroupNode(g, p).Throws? <==> EmptyGroupThrows(PushAttrs(g.attrs, p))
  {
    assert GroupNode(g, p) == GroupElement(PushAttrs(g.attrs, p), g.content);
  }

  /** What a child receives from its group: its own fill rule and fill are
      kept, and only a missing one is filled in; its opacity is multiplied
      by the group's, rounded to two decimals, or is the group's when it had
      none; nothing else changes. */
  lemma PushedAttrs(a: seq<Attr>, p: Pushes)
    ensures var r := PushAttrs(a, p);
      Lookup(r, "fill-rule") == (if p.evenodd && !HasAttr(a, "fill-rule") then Some(Str("evenodd")) else Lookup(a, "fill-rule")) &&
      Lookup(r, "fill") == (if HasAttr(a, "fill") then Lookup(a, "fill") else p.fill) &&
      Lookup(r, "opacity") == (if p.opacity.None? then Lookup(a, "opacity")
        else if HasAttr(a, "opacity") then Some(Number(CombineOpacity(p.opacity.value, Lookup(a, "opacity").value)))
        else p.opacity) &&
      forall m :: m != "fill-rule" && m != "fill" && m != "opacity" ==> Lookup(r, m) == Lookup(a, m)
  {
    PushedRule(a, p);
    PushedFill(a, p);
    PushedOpacity(a, p);
    PushedOthers(a, p);
  }

  lemma PushedRule(a: seq<Attr>, p: Pushes)
    ensures Lookup(PushAttrs(a, p), "fill-rule") ==
      if p.evenodd && !HasAttr(a, "fill-rule") then Some(Str("evenodd")) else Lookup(a, "fill-rule")
  {
    var r1 := PushRule(a, p.evenodd);
    var r2 := PushFill(r1, p.fill);
    assert Lookup(r2, "fill-rule") == Lookup(r1, "fill-rule");
  }

  lemma PushedFill(a: seq<Attr>, p: Pushes)
    ensures Lookup(PushAttrs(a, p), "fill") == if HasAttr(a, "fill") then Lookup(a, "fill") else p.fill
  {
    var r1 := PushRule(a, p.evenodd);
    var r2 := PushFill(r1, p.fill);
    assert Lookup(r1, "fill") == Lookup(a, "fill");
    assert HasAttr(r1, "fill") == HasAttr(a, "fill");
    assert Lookup(PushOpacity(r2, p.opacity), "fill") == Lookup(r2, "fill");
  }

  lemma PushedOpacity(a: seq<Attr>, p: Pushes)
    ensures Lookup(PushAttrs(a, p), "opacity") == if p.opacity.None? then Lookup(a, "opacity")
      else if HasAttr(a, "opacity") then Some(Number(CombineOpacity(p.opacity.value, Lookup(a, "opacity").value)))
      else p.opacity
  {
    var r1 := PushRule(a, p.evenodd);
    var r2 := PushFill(r1, p.fill);
    assert Lookup(r2, "opacity") == Lookup(a, "opacity");
  }

  lemma PushedOthers(a: seq<Attr>, p: Pushes)
    ensures forall m :: m != "fill-rule" && m != "fill" && m != "opacity" ==> Lookup(PushAttrs(a, p), m) == Lookup(a, m)
  {
  }

  /** Only an elided group with `fill-rule="evenodd"` pushes it down. */
  lemma EvenoddPushedOnlyWhenElided(a: seq<Attr>)
    ensures ChildPushes(a).evenodd <==> Elided(a) && HasAttrValue(a, "fill-rule", "evenodd")
  {
  }

  /** Two opacities between 0 and 1 combine into one between 0 and 1. */
  lemma CombinedOpacityInRange(g: real, c: real)
    requires 0.0 <= g <= 1.0 && 0.0 <= c <= 1.0
    ensures var o := CombineOpacity(Number(Num(g)), Number(Num(c)));
      o.Num? && 0.0 <= o.r <= 1.0
  {
    MulNonNegative(g, c);
    assert g * c <= 1.0 by {
      assert g * c <= g * 1.0;
    }
  }

  // ---------------------------------------------------------------------------
  // The <svg> pass: root sizing
  // ---------------------------------------------------------------------------

  /** The converter's four size fields. */
  datatype Sizes = Sizes(width: JsValue, height: JsValue, viewportWidth: JsValue, viewportHeight: JsValue)

  /** `s.split(/\s+/)`: the pieces between runs of white space; a leading or
      trailing run gives an empty first or last piece. */
  function SplitOnSpaces(s: string): (parts: seq<string>)
    decreases |s|
    ensures |parts| >= 1
    ensures forall i :: 0 <= i < |parts| ==> NoSpace(parts[i])
  {
    var k := FindChar(s, IsSpace, 0);
    if k == |s| then [s]
    else
      var e := FindChar(s, c => !IsSpace(c), k);
      [s[..k]] + SplitOnSpaces(s[e..])
  }

  predicate NoSpace(t: string)
  {
    forall j :: 0 <= j < |t| ==> !IsSpace(t[j])
  }

  /** What array destructuring reads at index `i`: `undefined` past the end. */
  function Part(parts: seq<string>, i: nat): JsValue
  {
    if i < |parts| then Str(parts[i]) else Undef
  }

  /** The size fields after the root pass: `width` and `height` are parsed
      when both are present; the viewport is the third and fourth piece of
      `viewBox`, which also gives the size when neither is present. */
  function RootSizes(s: Sizes, a: seq<Attr>): (r: Sizes)
  {
    var both := HasAttr(a, "width") && HasAttr(a, "height");
    var w := if both then Number(ParseInt(Render(Lookup(a, "width").value))) else s.width;
    var h := if both then Number(ParseInt(Render(Lookup(a, "height").value))) else s.height;
    if !HasAttr(a, "viewBox") then Sizes(w, h, s.viewportWidth, s.viewportHeight)
    else
      var parts := SplitOnSpaces(Render(Lookup(a, "viewBox").value));
      var vw := Part(parts, 2);
      var vh := Part(parts, 3);
      if !HasAttr(a, "width") && !HasAttr(a, "height") then Sizes(vw, vh, vw, vh)
      else Sizes(w, h, vw, vh)
  }

  const GradientNames: set<string> := {"linearGradient", "radialGradient", "sweepGradient"}

  /** The attributes of `<vector>`: the old ones are dropped; the aapt
      namespace when the document has a gradient, then the size in `dp`
      and the viewport. */
  function RootAttrs(s: Sizes, gradients: bool): (r: seq<Attr>)
  {
    var a0: seq<Attr> := [];
    var a1 := if gradients then AddAttr(a0, "xmlns:aapt", Str("http://schemas.android.com/aapt")) else a0;
    var a2 := AddAttr(a1, "android:width", Str(Render(s.width) + "dp"));
    var a3 := AddAttr(a2, "android:height", Str(Render(s.height) + "dp"));
    var a4 := AddAttr(a3, "android:viewportWidth", s.viewportWidth);
    AddAttr(a4, "android:viewportHeight", s.viewportHeight)
  }

  /** The root pass: the first `<svg>` in document order becomes `<vector>`
      and sizes the converter; without one nothing changes. */
  function RootPass(s: Sizes, items: seq<Node>): (r: (Sizes, seq<Node>))
  {
    var svgs := Find(items, IsIn({"svg"}));
    if svgs == [] then (s, items)
    else
      FindSound(items, IsIn({"svg"}));
      var n := NodeAt(items, svgs[0]).value;
      var s' := RootSizes(s, n.attrs);
      (s', ReplaceAt(items, svgs[0], Element("vector", RootAttrs(s', Occurs(items, GradientNames)), n.content)))
  }

  // ---------------------------------------------------------------------------
  // The <path> pass
  // ---------------------------------------------------------------------------

  /** `/^url\(#.*\)$/`: `url(#`, then anything but a line terminator, then a
      final `)`. */
  predicate IsUrlPaint(s: string)
  {
    |s| >= 6 && s[..5] == "url(#" && s[|s| - 1] == ')' &&
    forall k :: 5 <= k < |s| - 1 ==> !IsLineTerminator(s[k])
  }

  /** An attribute under a new name: added under `to`, then removed under `from`. */
  function Rename(a: seq<Attr>, from: string, to: string): (r: seq<Attr>)
    requires from != to
    ensures HasAttr(a, from) ==> Lookup(r, to) == Lookup(a, from)
    ensures !HasAttr(a, from) ==> r == a
    ensures !HasAttr(r, from)
    ensures forall m :: m != from && m != to ==> Lookup(r, m) == Lookup(a, m)
  {
    if HasAttr(a, from) then RemoveAttr(AddAttr(a, to, Lookup(a, from).value), from) else a
  }

  /** A colour, with the opacity attribute `alpha` merged into it (and
      removed) when present, stored under `to`. */
  function PaintWith(a: seq<Attr>, color: string, alpha: string, to: string): (r: seq<Attr>)
    requires alpha != to
    ensures !HasAttr(r, alpha)
    ensures Lookup(r, to) == Some(Str(if HasAttr(a, alpha) then MergeColorAndOpacityAsWritten(color, Lookup(a, alpha).value) else color))
    ensures forall m :: m != alpha && m != to ==> Lookup(r, m) == Lookup(a, m)
  {
    if HasAttr(a, alpha) then AddAttr(RemoveAttr(a, alpha), to, Str(MergeColorAndOpacityAsWritten(color, Lookup(a, alpha).value)))
    else AddAttr(a, to, Str(color))
  }

  /** The paint `name` holds, as text, or `otherwise` when it is missing. */
  function PaintOf(a: seq<Attr>, name: string, otherwise: string): string
  {
    if HasAttr(a, name) then Render(Lookup(a, name).value) else otherwise
  }

  /** A colour merged with its opacity attribute, when there is one, by the
      source's `mergeColorAndOpacity`. */
  function Merged(color: string, opacity: Option<JsValue>): string
  {
    if opacity.Some? then MergeColorAndOpacityAsWritten(color, opacity.value) else color
  }

  /** The fill: `android:fillColor` from `fill` (unless it is a gradient
      reference) or `#000000`, with `fill-opacity` merged in. */
  function FillStep(a: seq<Attr>): (r: seq<Attr>)
    ensures !HasAttr(r, "fill")
    ensures forall m :: m != "fill" && m != "fill-opacity" && m != "android:fillColor" ==> Lookup(r, m) == Lookup(a, m)
    ensures IsUrlPaint(PaintOf(a, "fill", "#000000")) ==>
      Lookup(r, "fill-opacity") == Lookup(a, "fill-opacity") && Lookup(r, "android:fillColor") == Lookup(a, "android:fillColor")
    ensures !IsUrlPaint(PaintOf(a, "fill", "#000000")) ==>
      !HasAttr(r, "fill-opacity") &&
      Lookup(r, "android:fillColor") == Some(Str(Merged(PaintOf(a, "fill", "#000000"), Lookup(a, "fill-opacity"))))
  {
    if !HasAttr(a, "fill") then PaintWith(a, "#000000", "fill-opacity", "android:fillColor")
    else if IsUrlPaint(Render(Lookup(a, "fill").value)) then RemoveAttr(a, "fill")
    else RemoveAttr(PaintWith(a, Render(Lookup(a, "fill").value), "fill-opacity", "android:fillColor"), "fill")
  }

  /** `android:fillAlpha` from `opacity`. */
  function AlphaStep(a: seq<Attr>, to: string): (r: seq<Attr>)
    requires to != "opacity"
    ensures HasAttr(a, "opacity") ==> Lookup(r, to) == Lookup(a, "opacity")
    ensures forall m :: m != to || !HasAttr(a, "opacity") ==> Lookup(r, m) == Lookup(a, m)
  {
    if HasAttr(a, "opacity") then AddAttr(a, to, Lookup(a, "opacity").value) else a
  }

  /** The stroke colour, from `stroke` unless it is a gradient reference. */
  function StrokeColorStep(a: seq<Attr>): (r: seq<Attr>)
    requires HasAttr(a, "stroke")
    ensures !HasAttr(r, "stroke")
    ensures forall m :: m != "stroke" && m != "stroke-opacity" && m != "android:strokeColor" ==> Lookup(r, m) == Lookup(a, m)
    ensures IsUrlPaint(PaintOf(a, "stroke", "")) ==>
      Lookup(r, "stroke-opacity") == Lookup(a, "stroke-opacity") &&
      Lookup(r, "android:strokeColor") == Lookup(a, "android:strokeColor")
    ensures !IsUrlPaint(PaintOf(a, "stroke", "")) ==>
      !HasAttr(r, "stroke-opacity") &&
      Lookup(r, "android:strokeColor") == Some(Str(Merged(PaintOf(a, "stroke", ""), Lookup(a, "stroke-opacity"))))
  {
    if IsUrlPaint(Render(Lookup(a, "stroke").value)) then RemoveAttr(a, "stroke")
    else RemoveAttr(PaintWith(a, Render(Lookup(a, "stroke").value), "stroke-opacity", "android:strokeColor"), "stroke")
  }

  /** `android:strokeWidth`: `stroke-width`, or 1, SVG's default. */
  function StrokeWidthStep(a: seq<Attr>): (r: seq<Attr>)
    ensures Lookup(r, "android:strokeWidth") == Some(if HasAttr(a, "stroke-width") then Lookup(a, "stroke-width").value else Number(Num(1.0)))
    ensures !HasAttr(r, "stroke-width")
    ensures forall m :: m != "stroke-width" && m != "android:strokeWidth" ==> Lookup(r, m) == Lookup(a, m)
  {
    if HasAttr(a, "stroke-width") then AddAttr(RemoveAttr(a, "stroke-width"), "android:strokeWidth", Lookup(a, "stroke-width").value)
    else AddAttr(a, "android:strokeWidth", Number(Num(1.0)))
  }

  /** Line cap, line join and miter limit under their Android names. */
  function StrokeShapeStep(a: seq<Attr>): (r: seq<Attr>)
    ensures forall m :: m !in StrokeShapeNames ==> Lookup(r, m) == Lookup(a, m)
  {
    Rename(Rename(Rename(a, "stroke-linecap", "android:strokeLineCap"),
      "stroke-linejoin", "android:strokeLineJoin"), "stroke-miterlimit", "android:strokeMiterLimit")
  }

  const StrokeShapeNames: set<string> := {"stroke-linecap", "android:strokeLineCap", "stroke-linejoin",
    "android:strokeLineJoin", "stroke-miterlimit", "android:strokeMiterLimit"}

  /** The names the stroke part of the path pass may touch. */
  const StrokeNames: set<string> := StrokeShapeNames + {"stroke", "stroke-opacity", "android:strokeColor",
    "android:strokeAlpha", "stroke-width", "android:strokeWidth"}

  /** Everything the source does when the path has a stroke. */
  function StrokeStep(a: seq<Attr>): (r: seq<Attr>)
    ensures forall m :: m !in StrokeNames ==> Lookup(r, m) == Lookup(a, m)
    ensures !HasAttr(a, "stroke") ==> r == a
  {
    if !HasAttr(a, "stroke") then a
    else StrokeShapeStep(StrokeWidthStep(AlphaStep(StrokeColorStep(a), "android:strokeAlpha")))
  }

  /** The opacity goes, `nonzero` goes, `evenodd` becomes `android:fillType`,
      and `d` becomes `android:pathData`. */
  function TailStep(a: seq<Attr>): (r: seq<Attr>)
    ensures forall m :: m !in TailNames ==> Lookup(r, m) == Lookup(a, m)
  {
    var a1 := RemoveAttr(a, "opacity");
    var a2 := RemoveAttrValue(a1, "fill-rule", "nonzero");
    var a3 := if HasAttrValue(a2, "fill-rule", "evenodd")
      then RemoveAttr(AddAttr(a2, "android:fillType", Str("evenOdd")), "fill-rule") else a2;
    Rename(a3, "d", "android:pathData")
  }

  const TailNames: set<string> := {"opacity", "fill-rule", "android:fillType", "d", "android:pathData"}

  /** The attributes of one `<path>` after the path pass. */
  function PathAttrs(a: seq<Attr>): seq<Attr>
  {
    PathAttrs'(FillStep(a))
  }

  /** The rewrite of the path at one address. */
  function RewritePathAt(items: seq<Node>, addr: seq<nat>): seq<Node>
  {
    match NodeAt(items, addr)
    case Some(Element(e, a, c)) => ReplaceAt(items, addr, Element(e, PathAttrs(a), c))
    case _ => items
  }

  /** The paths at the listed addresses rewritten, first to last. */
  function PathsAt(items: seq<Node>, addrs: seq<seq<nat>>): seq<Node>
    decreases |addrs|
  {
    if addrs == [] then items else PathsAt(RewritePathAt(items, addrs[0]), addrs[1..])
  }

  /** The path pass; `querySelectorAll('path')` gives `null` when there is no
      path, and iterating over that throws. */
  function PathPass(items: seq<Node>): Result<seq<Node>>
  {
    var paths := Find(items, IsIn({"path"}));
    if paths == [] then Throws else Ok(PathsAt(items, paths))
  }

  // ---------------------------------------------------------------------------
  // What the path pass promises for one path
  // ---------------------------------------------------------------------------

  /** The fill: a path without `fill` is painted `#000000`, with its
      `fill-opacity` merged in; a gradient reference leaves
      `android:fillColor` and `fill-opacity` alone (the gradient block
      paints it); any other fill becomes `android:fillColor`, merged with
      `fill-opacity`; `fill` is always removed, and a `fill-opacity` that
      was merged in is removed too. */
  lemma PathFill(a: seq<Attr>)
    ensures var r := PathAttrs(a);
      var fo := Lookup(a, "fill-opacity");
      !HasAttr(r, "fill") &&
      (!HasAttr(a, "fill") ==>
        !HasAttr(r, "fill-opacity") &&
        Lookup(r, "android:fillColor") == Some(Str(if fo.Some? then MergeColorAndOpacityAsWritten("#000000", fo.value) else "#000000"))) &&
      (HasAttr(a, "fill") && IsUrlPaint(Render(Lookup(a, "fill").value)) ==>
        Lookup(r, "fill-opacity") == fo && Lookup(r, "android:fillColor") == Lookup(a, "android:fillColor")) &&
      (HasAttr(a, "fill") && !IsUrlPaint(Render(Lookup(a, "fill").value)) ==>
        var f := Render(Lookup(a, "fill").value);
        !HasAttr(r, "fill-opacity") &&
        Lookup(r, "android:fillColor") == Some(Str(if fo.Some? then MergeColorAndOpacityAsWritten(f, fo.value) else f)))
  {
    AfterFill(FillStep(a));
    if !HasAttr(a, "fill") {
      FillStepAbsent(a);
    } else if IsUrlPaint(Render(Lookup(a, "fill").value)) {
      FillStepUrl(a);
    } else {
      FillStepColor(a);
    }
  }

  lemma FillStepAbsent(a: seq<Attr>)
    requires !HasAttr(a, "fill")
    ensures var r := FillStep(a);
      var fo := Lookup(a, "fill-opacity");
      !HasAttr(r, "fill-opacity") &&
      Lookup(r, "android:fillColor") == Some(Str(if fo.Some? then MergeColorAndOpacityAsWritten("#000000", fo.value) else "#000000"))
  {
  }

  lemma FillStepUrl(a: seq<Attr>)
    requires HasAttr(a, "fill") && IsUrlPaint(Render(Lookup(a, "fill").value))
    ensures var r := FillStep(a);
      Lookup(r, "fill-opacity") == Lookup(a, "fill-opacity") && Lookup(r, "android:fillColor") == Lookup(a, "android:fillColor")
  {
    var r := RemoveAttr(a, "fill");
    assert FillStep(a) == r;
    FillNameFacts();
    assert Lookup(r, "fill-opacity") == Lookup(a, "fill-opacity");
  }

  lemma FillNameFacts()
    ensures "fill-opacity" != "fill" && "android:fillColor" != "fill" && "android:fillColor" != "fill-opacity"
  {
  }

  lemma FillStepColor(a: seq<Attr>)
    requires HasAttr(a, "fill") && !IsUrlPaint(Render(Lookup(a, "fill").value))
    ensures var r := FillStep(a);
      var fo := Lookup(a, "fill-opacity");
      var f := Render(Lookup(a, "fill").value);
      !HasAttr(r, "fill-opacity") &&
      Lookup(r, "android:fillColor") == Some(Str(if fo.Some? then MergeColorAndOpacityAsWritten(f, fo.value) else f))
  {
    var f := Render(Lookup(a, "fill").value);
    var p := PaintWith(a, f, "fill-opacity", "android:fillColor");
    assert FillStep(a) == RemoveAttr(p, "fill");
  }

  /** The steps after the fill leave `fill`, `fill-opacity` and
      `android:fillColor` alone. */
  lemma AfterFill(a1: seq<Attr>)
    ensures var r := PathAttrs'(a1);
      Lookup(r, "fill") == Lookup(a1, "fill") &&
      Lookup(r, "fill-opacity") == Lookup(a1, "fill-opacity") &&
      Lookup(r, "android:fillColor") == Lookup(a1, "android:fillColor")
  {
    FillNamesUntouched();
    Untouched(a1, "fill");
    Untouched(a1, "fill-opacity");
    Untouched(a1, "android:fillColor");
  }

  lemma FillNamesUntouched()
    ensures "fill" !in StrokeNames && "fill-opacity" !in StrokeNames && "android:fillColor" !in StrokeNames
    ensures "fill" !in TailNames && "fill-opacity" !in TailNames && "android:fillColor" !in TailNames
  {
  }

  /** A name that neither the alpha, the stroke nor the tail step touches. */
  lemma Untouched(a1: seq<Attr>, m: string)
    requires m !in StrokeNames && m !in TailNames && m != "android:fillAlpha"
    ensures Lookup(PathAttrs'(a1), m) == Lookup(a1, m)
  {
    var a2 := AlphaStep(a1, "android:fillAlpha");
    var a3 := StrokeStep(a2);
    assert Lookup(a2, m) == Lookup(a1, m);
    assert Lookup(a3, m) == Lookup(a2, m);
  }

  /** The steps of the path pass after the fill. */
  function PathAttrs'(a1: seq<Attr>): seq<Attr>
  {
    TailStep(StrokeStep(AlphaStep(a1, "android:fillAlpha")))
  }

  /** `from` is gone, and its value, if it had one, is now under `to`. */
  predicate Renamed(b: seq<Attr>, r: seq<Attr>, from: string, to: string)
  {
    !HasAttr(r, from) && (HasAttr(b, from) ==> Lookup(r, to) == Lookup(b, from))
  }

  /** The stroke: a path with `stroke` loses it, and gets
      `android:strokeWidth` (its `stroke-width`, or 1) and
      `android:strokeAlpha` from `opacity`. */
  lemma PathStroke(a: seq<Attr>)
    requires HasAttr(a, "stroke")
    ensures var r := PathAttrs(a);
      !HasAttr(r, "stroke") &&
      Lookup(r, "android:strokeWidth") == Some(if HasAttr(a, "stroke-width") then Lookup(a, "stroke-width").value else Number(Num(1.0))) &&
      !HasAttr(r, "stroke-width") &&
      (HasAttr(a, "opacity") ==> Lookup(r, "android:strokeAlpha") == Lookup(a, "opacity"))
  {
    var a2 := AlphaStep(FillStep(a), "android:fillAlpha");
    BeforeStroke(a, "stroke");
    BeforeStroke(a, "stroke-width");
    BeforeStroke(a, "opacity");
    StrokeStepPaint(a2);
    StrokeStepWidth(a2);
    if HasAttr(a, "opacity") {
      StrokeStepAlpha(a2);
    }
    var a3 := StrokeStep(a2);
    AfterStroke(a3, "stroke");
    AfterStroke(a3, "stroke-width");
    AfterStroke(a3, "android:strokeWidth");
    AfterStroke(a3, "android:strokeAlpha");
  }

  /** The stroke colour: with a stroke that is not a gradient reference,
      `android:strokeColor` is the stroke merged with `stroke-opacity`, which
      is removed; a gradient reference writes no colour and leaves
      `stroke-opacity` alone. */
  lemma PathStrokeColor(a: seq<Attr>)
    requires HasAttr(a, "stroke")
    ensures var r := PathAttrs(a);
      var so := Lookup(a, "stroke-opacity");
      var c := Render(Lookup(a, "stroke").value);
      (IsUrlPaint(c) ==>
        Lookup(r, "stroke-opacity") == so && Lookup(r, "android:strokeColor") == Lookup(a, "android:strokeColor")) &&
      (!IsUrlPaint(c) ==>
        !HasAttr(r, "stroke-opacity") &&
        Lookup(r, "android:strokeColor") == Some(Str(if so.Some? then MergeColorAndOpacityAsWritten(c, so.value) else c)))
  {
    var a2 := AlphaStep(FillStep(a), "android:fillAlpha");
    BeforeStroke(a, "stroke");
    BeforeStroke(a, "stroke-opacity");
    BeforeStroke(a, "android:strokeColor");
    StrokeStepColor(a2);
    var a3 := StrokeStep(a2);
    AfterStroke(a3, "stroke-opacity");
    AfterStroke(a3, "android:strokeColor");
  }

  /** The fill and the fill alpha leave the stroke attributes and
      `opacity` alone. */
  lemma BeforeStroke(a: seq<Attr>, m: string)
    requires m in StrokeNames || m == "opacity"
    ensures Lookup(AlphaStep(FillStep(a), "android:fillAlpha"), m) == Lookup(a, m)
  {
    PathNameFacts(m);
  }

  /** The tail step leaves the stroke attributes alone. */
  lemma AfterStroke(a3: seq<Attr>, m: string)
    requires m in StrokeNames
    ensures Lookup(TailStep(a3), m) == Lookup(a3, m)
  {
    PathNameFacts(m);
  }

  /** The stroke names are none of the names the fill, the fill alpha or
      the tail step write. */
  lemma PathNameFacts(m: string)
    requires m in StrokeNames || m == "opacity"
    ensures m != "fill" && m != "fill-opacity" && m != "android:fillColor" && m != "android:fillAlpha"
    ensures m in StrokeNames ==> m !in TailNames
  {
  }

  /** With a stroke, the line cap, line join and miter limit take their
      Android names. */
  lemma PathStrokeShape(a: seq<Attr>)
    requires HasAttr(a, "stroke")
    ensures var r := PathAttrs(a);
      Renamed(a, r, "stroke-linecap", "android:strokeLineCap") &&
      Renamed(a, r, "stroke-linejoin", "android:strokeLineJoin") &&
      Renamed(a, r, "stroke-miterlimit", "android:strokeMiterLimit")
  {
    PathStrokeRenamed(a, "stroke-linecap", "android:strokeLineCap");
    PathStrokeRenamed(a, "stroke-linejoin", "android:strokeLineJoin");
    PathStrokeRenamed(a, "stroke-miterlimit", "android:strokeMiterLimit");
  }

  lemma PathStrokeRenamed(a: seq<Attr>, from: string, to: string)
    requires HasAttr(a, "stroke")
    requires (from, to) in {("stroke-linecap", "android:strokeLineCap"), ("stroke-linejoin", "android:strokeLineJoin"),
      ("stroke-miterlimit", "android:strokeMiterLimit")}
    ensures Renamed(a, PathAttrs(a), from, to)
  {
    ShapeNamesAreStrokeNames(from, to);
    var a2 := AlphaStep(FillStep(a), "android:fillAlpha");
    BeforeStroke(a, "stroke");
    BeforeStroke(a, from);
    StrokeStepShape(a2, from, to);
    var a3 := StrokeStep(a2);
    AfterStroke(a3, from);
    AfterStroke(a3, to);
  }

  lemma ShapeNamesAreStrokeNames(from: string, to: string)
    requires (from, to) in {("stroke-linecap", "android:strokeLineCap"), ("stroke-linejoin", "android:strokeLineJoin"),
      ("stroke-miterlimit", "android:strokeMiterLimit")}
    ensures from in StrokeNames && to in StrokeNames
  {
  }

  /** Without `stroke`, no stroke attribute is written or removed. */
  lemma PathNoStroke(a: seq<Attr>, m: string)
    requires !HasAttr(a, "stroke") && m in StrokeNames
    ensures Lookup(PathAttrs(a), m) == Lookup(a, m)
  {
    var a2 := AlphaStep(FillStep(a), "android:fillAlpha");
    BeforeStroke(a, "stroke");
    BeforeStroke(a, m);
    assert StrokeStep(a2) == a2;
    AfterStroke(a2, m);
  }

  /** The stroke steps, one fact at a time. */
  lemma StrokeStepPaint(b: seq<Attr>)
    requires HasAttr(b, "stroke")
    ensures !HasAttr(StrokeStep(b), "stroke")
  {
    var c1 := StrokeColorStep(b);
    var c2 := AlphaStep(c1, "android:strokeAlpha");
    var c3 := StrokeWidthStep(c2);
    StrokeNameFacts();
    assert !HasAttr(c2, "stroke");
    assert !HasAttr(c3, "stroke");
  }

  /** Attribute names the stroke steps tell apart. */
  lemma StrokeNameFacts()
    ensures "opacity" != "stroke" && "opacity" != "stroke-opacity" && "opacity" != "android:strokeColor"
    ensures "stroke-width" != "stroke" && "stroke-width" != "stroke-opacity" && "stroke-width" != "android:strokeColor"
    ensures "stroke-width" != "android:strokeAlpha" && "android:strokeAlpha" != "android:strokeWidth"
    ensures "stroke" != "android:strokeAlpha" && "stroke" != "android:strokeWidth" && "stroke" != "stroke-width"
    ensures "stroke" !in StrokeShapeNames && "stroke-width" !in StrokeShapeNames
    ensures "android:strokeAlpha" !in StrokeShapeNames && "android:strokeWidth" !in StrokeShapeNames
  {
  }

  lemma StrokeStepWidth(b: seq<Attr>)
    requires HasAttr(b, "stroke")
    ensures var r := StrokeStep(b);
      Lookup(r, "android:strokeWidth") == Some(if HasAttr(b, "stroke-width") then Lookup(b, "stroke-width").value else Number(Num(1.0))) &&
      !HasAttr(r, "stroke-width")
  {
    var c1 := StrokeColorStep(b);
    var c2 := AlphaStep(c1, "android:strokeAlpha");
    var c3 := StrokeWidthStep(c2);
    StrokeNameFacts();
    assert Lookup(c1, "stroke-width") == Lookup(b, "stroke-width");
    assert Lookup(c2, "stroke-width") == Lookup(b, "stroke-width");
    assert Lookup(StrokeShapeStep(c3), "stroke-width") == Lookup(c3, "stroke-width");
    assert Lookup(StrokeShapeStep(c3), "android:strokeWidth") == Lookup(c3, "android:strokeWidth");
  }

  lemma StrokeStepAlpha(b: seq<Attr>)
    requires HasAttr(b, "stroke") && HasAttr(b, "opacity")
    ensures Lookup(StrokeStep(b), "android:strokeAlpha") == Lookup(b, "opacity")
  {
    var c1 := StrokeColorStep(b);
    var c2 := AlphaStep(c1, "android:strokeAlpha");
    var c3 := StrokeWidthStep(c2);
    StrokeNameFacts();
    assert Lookup(c1, "opacity") == Lookup(b, "opacity");
    assert Lookup(c3, "android:strokeAlpha") == Lookup(c2, "android:strokeAlpha");
    assert Lookup(StrokeShapeStep(c3), "android:strokeAlpha") == Lookup(c3, "android:strokeAlpha");
  }

  /** The steps after the stroke colour leave `android:strokeColor` and
      `stroke-opacity` as the colour step wrote them. */
  lemma StrokeStepColor(b: seq<Attr>)
    requires HasAttr(b, "stroke")
    ensures Lookup(StrokeStep(b), "android:strokeColor") == Lookup(StrokeColorStep(b), "android:strokeColor")
    ensures Lookup(StrokeStep(b), "stroke-opacity") == Lookup(StrokeColorStep(b), "stroke-opacity")
  {
    var c1 := StrokeColorStep(b);
    var c2 := AlphaStep(c1, "android:strokeAlpha");
    var c3 := StrokeWidthStep(c2);
    ColorNameFacts();
    StrokeStepKeeps(c1, "android:strokeColor");
    StrokeStepKeeps(c1, "stroke-opacity");
  }

  /** A name that the alpha, width and shape steps of the stroke do not touch. */
  lemma StrokeStepKeeps(c1: seq<Attr>, m: string)
    requires m != "opacity" && m != "android:strokeAlpha" && m != "stroke-width" && m != "android:strokeWidth"
    requires m !in StrokeShapeNames
    ensures Lookup(StrokeShapeStep(StrokeWidthStep(AlphaStep(c1, "android:strokeAlpha"))), m) == Lookup(c1, m)
  {
    var c2 := AlphaStep(c1, "android:strokeAlpha");
    var c3 := StrokeWidthStep(c2);
    assert Lookup(c2, m) == Lookup(c1, m);
    assert Lookup(c3, m) == Lookup(c2, m);
  }

  lemma ColorNameFacts()
    ensures "android:strokeColor" != "opacity" && "android:strokeColor" != "android:strokeAlpha"
    ensures "android:strokeColor" != "stroke-width" && "android:strokeColor" != "android:strokeWidth"
    ensures "stroke-opacity" != "opacity" && "stroke-opacity" != "android:strokeAlpha"
    ensures "stroke-opacity" != "stroke-width" && "stroke-opacity" != "android:strokeWidth"
    ensures "android:strokeColor" !in StrokeShapeNames && "stroke-opacity" !in StrokeShapeNames
  {
  }

  lemma StrokeStepShape(b: seq<Attr>, from: string, to: string)
    requires HasAttr(b, "stroke")
    requires (from, to) in {("stroke-linecap", "android:strokeLineCap"), ("stroke-linejoin", "android:strokeLineJoin"),
      ("stroke-miterlimit", "android:strokeMiterLimit")}
    ensures Renamed(b, StrokeStep(b), from, to)
  {
    var c1 := StrokeColorStep(b);
    var c2 := AlphaStep(c1, "android:strokeAlpha");
    var c3 := StrokeWidthStep(c2);
    assert Lookup(c1, from) == Lookup(b, from);
    assert Lookup(c3, from) == Lookup(b, from);
    if from == "stroke-linecap" {
      ShapeLineCap(c3);
    } else if from == "stroke-linejoin" {
      ShapeLineJoin(c3);
    } else {
      ShapeMiterLimit(c3);
    }
  }

  lemma ShapeLineCap(c: seq<Attr>)
    ensures Renamed(c, StrokeShapeStep(c), "stroke-linecap", "android:strokeLineCap")
  {
    var d1 := Rename(c, "stroke-linecap", "android:strokeLineCap");
    var d2 := Rename(d1, "stroke-linejoin", "android:strokeLineJoin");
  }

  lemma ShapeLineJoin(c: seq<Attr>)
    ensures Renamed(c, StrokeShapeStep(c), "stroke-linejoin", "android:strokeLineJoin")
  {
    var d1 := Rename(c, "stroke-linecap", "android:strokeLineCap");
    var d2 := Rename(d1, "stroke-linejoin", "android:strokeLineJoin");
    assert Lookup(d1, "stroke-linejoin") == Lookup(c, "stroke-linejoin");
  }

  lemma ShapeMiterLimit(c: seq<Attr>)
    ensures Renamed(c, StrokeShapeStep(c), "stroke-miterlimit", "android:strokeMiterLimit")
  {
    var d1 := Rename(c, "stroke-linecap", "android:strokeLineCap");
    var d2 := Rename(d1, "stroke-linejoin", "android:strokeLineJoin");
    assert Lookup(d2, "stroke-miterlimit") == Lookup(c, "stroke-miterlimit");
  }

  // ---------------------------------------------------------------------------
  // What the path pass promises for one path: the tail
  // ---------------------------------------------------------------------------

  /** Attribute names the tail step tells apart. */
  lemma TailNameFacts()
    ensures "opacity" != "fill-rule" && "opacity" != "android:fillType" && "opacity" != "d" && "opacity" != "android:pathData"
    ensures "fill-rule" != "android:fillType" && "fill-rule" != "d" && "fill-rule" != "android:pathData"
    ensures "android:fillType" != "d" && "android:fillType" != "android:pathData"
    ensures "android:fillAlpha" !in TailNames && "android:fillAlpha" !in StrokeNames
  {
  }

  /** `opacity` does not survive the tail step. */
  lemma TailOpacity(b: seq<Attr>)
    ensures !HasAttr(TailStep(b), "opacity")
  {
    TailNameFacts();
    var b1 := RemoveAttr(b, "opacity");
    var b2 := RemoveAttrValue(b1, "fill-rule", "nonzero");
    assert !HasAttr(b2, "opacity");
  }

  /** The fill rule: `nonzero` is dropped, `evenodd` becomes
      `android:fillType="evenOdd"`, any other value stays. */
  lemma TailFillRule(b: seq<Attr>)
    ensures var r := TailStep(b);
      var fr := Lookup(b, "fill-rule");
      (fr == Some(Str("nonzero")) ==> !HasAttr(r, "fill-rule") && Lookup(r, "android:fillType") == Lookup(b, "android:fillType")) &&
      (fr == Some(Str("evenodd")) ==> !HasAttr(r, "fill-rule") && Lookup(r, "android:fillType") == Some(Str("evenOdd"))) &&
      (fr != Some(Str("nonzero")) && fr != Some(Str("evenodd")) ==>
        Lookup(r, "fill-rule") == fr && Lookup(r, "android:fillType") == Lookup(b, "android:fillType"))
  {
    TailNameFacts();
    var b1 := RemoveAttr(b, "opacity");
    var b2 := RemoveAttrValue(b1, "fill-rule", "nonzero");
    assert Lookup(b1, "fill-rule") == Lookup(b, "fill-rule");
    assert Lookup(b1, "android:fillType") == Lookup(b, "android:fillType");
    assert Lookup(b2, "android:fillType") == Lookup(b, "android:fillType");
    var b3 := if HasAttrValue(b2, "fill-rule", "evenodd")
      then RemoveAttr(AddAttr(b2, "android:fillType", Str("evenOdd")), "fill-rule") else b2;
    assert TailStep(b) == Rename(b3, "d", "android:pathData");
  }

  /** `d` becomes `android:pathData`. */
  lemma TailData(b: seq<Attr>)
    ensures Renamed(b, TailStep(b), "d", "android:pathData")
  {
    TailNameFacts();
    var b1 := RemoveAttr(b, "opacity");
    var b2 := RemoveAttrValue(b1, "fill-rule", "nonzero");
    assert Lookup(b2, "d") == Lookup(b, "d");
    var b3 := if HasAttrValue(b2, "fill-rule", "evenodd")
      then RemoveAttr(AddAttr(b2, "android:fillType", Str("evenOdd")), "fill-rule") else b2;
    assert Lookup(b3, "d") == Lookup(b, "d");
  }

  /** The fill, the fill alpha and the stroke leave the names of the tail
      step alone. */
  lemma BeforeTail(a: seq<Attr>, m: string)
    requires m in TailNames
    ensures Lookup(StrokeStep(AlphaStep(FillStep(a), "android:fillAlpha")), m) == Lookup(a, m)
  {
    TailNamesApart(m);
  }

  lemma TailNamesApart(m: string)
    requires m in TailNames
    ensures m != "fill" && m != "fill-opacity" && m != "android:fillColor" && m != "android:fillAlpha" && m !in StrokeNames
  {
  }

  /** The path's `opacity` goes; its value, when it had one, is the
      `android:fillAlpha`. */
  lemma PathOpacity(a: seq<Attr>)
    ensures var r := PathAttrs(a);
      !HasAttr(r, "opacity") &&
      (HasAttr(a, "opacity") ==> Lookup(r, "android:fillAlpha") == Lookup(a, "opacity"))
  {
    TailOpacity(StrokeStep(AlphaStep(FillStep(a), "android:fillAlpha")));
    if HasAttr(a, "opacity") {
      PathFillAlpha(a);
    }
  }

  lemma PathFillAlpha(a: seq<Attr>)
    requires HasAttr(a, "opacity")
    ensures Lookup(PathAttrs(a), "android:fillAlpha") == Lookup(a, "opacity")
  {
    var a1 := FillStep(a);
    var a2 := AlphaStep(a1, "android:fillAlpha");
    var a3 := StrokeStep(a2);
    TailNameFacts();
    FillKeepsOpacity(a);
    assert Lookup(a3, "android:fillAlpha") == Lookup(a2, "android:fillAlpha");
    assert Lookup(TailStep(a3), "android:fillAlpha") == Lookup(a3, "android:fillAlpha");
  }

  lemma FillKeepsOpacity(a: seq<Attr>)
    ensures Lookup(FillStep(a), "opacity") == Lookup(a, "opacity")
  {
    PathNameFacts("opacity");
  }

  /** The path's fill rule, as the tail step leaves it. */
  lemma PathFillRule(a: seq<Attr>)
    ensures var r := PathAttrs(a);
      var fr := Lookup(a, "fill-rule");
      (fr == Some(Str("nonzero")) ==> !HasAttr(r, "fill-rule") && Lookup(r, "android:fillType") == Lookup(a, "android:fillType")) &&
      (fr == Some(Str("evenodd")) ==> !HasAttr(r, "fill-rule") && Lookup(r, "android:fillType") == Some(Str("evenOdd"))) &&
      (fr != Some(Str("nonzero")) && fr != Some(Str("evenodd")) ==>
        Lookup(r, "fill-rule") == fr && Lookup(r, "android:fillType") == Lookup(a, "android:fillType"))
  {
    var a3 := StrokeStep(AlphaStep(FillStep(a), "android:fillAlpha"));
    BeforeTail(a, "fill-rule");
    BeforeTail(a, "android:fillType");
    TailFillRule(a3);
  }

  /** The path data moves to `android:pathData`. */
  lemma PathData(a: seq<Attr>)
    ensures Renamed(a, PathAttrs(a), "d", "android:pathData")
  {
    var a3 := StrokeStep(AlphaStep(FillStep(a), "android:fillAlpha"));
    BeforeTail(a, "d");
    TailData(a3);
  }

  /** The names the path pass may write or remove. */
  const PathNames: set<string> := {"fill", "fill-opacity", "android:fillColor", "android:fillAlpha"} + StrokeNames + TailNames

  /** Every other attribute of a path is left as it was. */
  lemma PathOthers(a: seq<Attr>, m: string)
    requires m !in PathNames
    ensures Lookup(PathAttrs(a), m) == Lookup(a, m)
  {
    OutsidePathNames(m);
    Untouched(FillStep(a), m);
  }

  lemma OutsidePathNames(m: string)
    requires m !in PathNames
    ensures m != "fill" && m != "fill-opacity" && m != "android:fillColor" && m != "android:fillAlpha"
    ensures m !in StrokeNames && m !in TailNames
  {
  }

  /** The path at an address the pass visits is rewritten there, its
      children untouched. */
  lemma RewritePathRead(items: seq<Node>, addr: seq<nat>)
    requires NodeAt(items, addr).Some? && NodeAt(items, addr).value.Element?
    ensures var n := NodeAt(items, addr).value;
      NodeAt(RewritePathAt(items, addr), addr) == Some(Element(n.elem, PathAttrs(n.attrs), n.content))
  {
    var n := NodeAt(items, addr).value;
    ReplaceAtRead(items, addr, Element(n.elem, PathAttrs(n.attrs), n.content));
  }

  /** A document without `<path>` makes the path pass throw. */
  lemma PathPassNeedsPath(items: seq<Node>)
    ensures PathPass(items).Throws? <==> !Occurs(items, {"path"})
  {
    FindEmpty(items, {"path"});
  }

  // ---------------------------------------------------------------------------
  // What the root pass promises
  // ---------------------------------------------------------------------------

  /** A piece without white space splits into itself. */
  lemma SplitSingle(p: string)
    requires NoSpace(p)
    ensures SplitOnSpaces(p) == [p]
  {
    var k := FindChar(p, IsSpace, 0);
    assert k == |p|;
  }

  /** A piece, one space, and text starting with a non-space split at that space. */
  lemma SplitStep(p: string, rest: string)
    requires NoSpace(p) && rest != [] && !IsSpace(rest[0])
    ensures SplitOnSpaces(p + " " + rest) == [p] + SplitOnSpaces(rest)
  {
    var s := p + " " + rest;
    var k := FindChar(s, IsSpace, 0);
    assert s[|p|] == ' ';
    assert forall j :: 0 <= j < |p| ==> s[j] == p[j];
    var e := FindChar(s, c => !IsSpace(c), k);
    assert s[|p| + 1] == rest[0];
    assert e == |p| + 1;
    assert s[..k] == p && s[e..] == rest;
  }

  /** `"x y w h".split(/\s+/)` gives the four pieces. */
  lemma ViewBoxSplit(x: string, y: string, w: string, h: string)
    requires NoSpace(x) && NoSpace(y) && NoSpace(w) && NoSpace(h)
    requires y != [] && w != [] && h != []
    ensures SplitOnSpaces(x + " " + y + " " + w + " " + h) == [x, y, w, h]
  {
    var t3 := w + " " + h;
    var t2 := y + " " + t3;
    SplitTwo(w, h);
    SplitStep(y, t3);
    assert t2[0] == y[0];
    SplitStep(x, t2);
    JoinedRight(x, y, w, h);
  }

  lemma SplitTwo(w: string, h: string)
    requires NoSpace(w) && NoSpace(h) && h != []
    ensures SplitOnSpaces(w + " " + h) == [w, h]
  {
    SplitSingle(h);
    SplitStep(w, h);
  }

  lemma JoinedRight(x: string, y: string, w: string, h: string)
    ensures x + " " + y + " " + w + " " + h == x + " " + (y + " " + (w + " " + h))
  {
  }

  /** With `width` and `height`, both are parsed as integers; the viewport
      comes from `viewBox` when there is one and is kept otherwise. */
  lemma RootSizesFromSize(s: Sizes, a: seq<Attr>)
    requires HasAttr(a, "width") && HasAttr(a, "height")
    ensures var r := RootSizes(s, a);
      r.width == Number(ParseInt(Render(Lookup(a, "width").value))) &&
      r.height == Number(ParseInt(Render(Lookup(a, "height").value))) &&
      (!HasAttr(a, "viewBox") ==> r.viewportWidth == s.viewportWidth && r.viewportHeight == s.viewportHeight)
  {
  }

  /** Without `width` and `height`, a `viewBox` of `x y w h` sets the size
      and the viewport to `w` by `h`. */
  lemma RootSizesFromViewBox(s: Sizes, a: seq<Attr>, x: string, y: string, w: string, h: string)
    requires !HasAttr(a, "width") && !HasAttr(a, "height")
    requires NoSpace(x) && NoSpace(y) && NoSpace(w) && NoSpace(h) && y != [] && w != [] && h != []
    requires Lookup(a, "viewBox") == Some(Str(x + " " + y + " " + w + " " + h))
    ensures RootSizes(s, a) == Sizes(Str(w), Str(h), Str(w), Str(h))
  {
    ViewBoxSplit(x, y, w, h);
  }

  /** With only one of `width` and `height` and no `viewBox`, nothing is
      sized. */
  lemma RootSizesOneSided(s: Sizes, a: seq<Attr>)
    requires HasAttr(a, "width") != HasAttr(a, "height") && !HasAttr(a, "viewBox")
    ensures RootSizes(s, a) == s
  {
  }

  /** The names `<vector>` is left with. */
  const VectorNames: set<string> := {"xmlns:aapt", "android:width", "android:height", "android:viewportWidth", "android:viewportHeight"}

  /** The old attributes of `<svg>` are all dropped; the aapt namespace is
      declared exactly when there are gradients; the size is in `dp`. */
  lemma RootAttrsOnly(s: Sizes, gradients: bool, m: string)
    ensures var r := RootAttrs(s, gradients);
      (HasAttr(r, "xmlns:aapt") <==> gradients) &&
      Lookup(r, "android:width") == Some(Str(Render(s.width) + "dp")) &&
      Lookup(r, "android:height") == Some(Str(Render(s.height) + "dp")) &&
      Lookup(r, "android:viewportWidth") == Some(s.viewportWidth) &&
      Lookup(r, "android:viewportHeight") == Some(s.viewportHeight) &&
      (HasAttr(r, m) ==> m in VectorNames)
  {
    RootAttrsAapt(s, gradients);
    RootAttrsSize(s, gradients);
    if m !in VectorNames {
      RootAttrsOnlyThese(s, gradients, m);
    }
  }

  lemma VectorNameFacts()
    ensures "xmlns:aapt" != "android:width" && "xmlns:aapt" != "android:height"
    ensures "xmlns:aapt" != "android:viewportWidth" && "xmlns:aapt" != "android:viewportHeight"
    ensures "android:width" != "android:height" && "android:width" != "android:viewportWidth" && "android:width" != "android:viewportHeight"
    ensures "android:height" != "android:viewportWidth" && "android:height" != "android:viewportHeight"
    ensures "android:viewportWidth" != "android:viewportHeight"
  {
  }

  lemma RootAttrsAapt(s: Sizes, gradients: bool)
    ensures HasAttr(RootAttrs(s, gradients), "xmlns:aapt") <==> gradients
  {
    VectorNameFacts();
    var m := "xmlns:aapt";
    var a0: seq<Attr> := [];
    var a1 := if gradients then AddAttr(a0, m, Str("http://schemas.android.com/aapt")) else a0;
    var a2 := AddAttr(a1, "android:width", Str(Render(s.width) + "dp"));
    var a3 := AddAttr(a2, "android:height", Str(Render(s.height) + "dp"));
    var a4 := AddAttr(a3, "android:viewportWidth", s.viewportWidth);
    AddAttrElsewhere(a4, "android:viewportHeight", s.viewportHeight, m);
    AddAttrElsewhere(a3, "android:viewportWidth", s.viewportWidth, m);
    AddAttrElsewhere(a2, "android:height", Str(Render(s.height) + "dp"), m);
    AddAttrElsewhere(a1, "android:width", Str(Render(s.width) + "dp"), m);
  }

  lemma RootAttrsSize(s: Sizes, gradients: bool)
    ensures var r := RootAttrs(s, gradients);
      Lookup(r, "android:width") == Some(Str(Render(s.width) + "dp")) &&
      Lookup(r, "android:height") == Some(Str(Render(s.height) + "dp")) &&
      Lookup(r, "android:viewportWidth") == Some(s.viewportWidth) &&
      Lookup(r, "android:viewportHeight") == Some(s.viewportHeight)
  {
    VectorNameFacts();
    var a0: seq<Attr> := [];
    var a1 := if gradients then AddAttr(a0, "xmlns:aapt", Str("http://schemas.android.com/aapt")) else a0;
    var a2 := AddAttr(a1, "android:width", Str(Render(s.width) + "dp"));
    var a3 := AddAttr(a2, "android:height", Str(Render(s.height) + "dp"));
    var a4 := AddAttr(a3, "android:viewportWidth", s.viewportWidth);
    var a5 := AddAttr(a4, "android:viewportHeight", s.viewportHeight);
    assert RootAttrs(s, gradients) == a5;
    AddAttrElsewhere(a2, "android:height", Str(Render(s.height) + "dp"), "android:width");
    AddAttrElsewhere(a3, "android:viewportWidth", s.viewportWidth, "android:width");
    AddAttrElsewhere(a4, "android:viewportHeight", s.viewportHeight, "android:width");
    AddAttrElsewhere(a3, "android:viewportWidth", s.viewportWidth, "android:height");
    AddAttrElsewhere(a4, "android:viewportHeight", s.viewportHeight, "android:height");
    AddAttrElsewhere(a4, "android:viewportHeight", s.viewportHeight, "android:viewportWidth");
  }

  lemma RootAttrsOnlyThese(s: Sizes, gradients: bool, m: string)
    requires m !in VectorNames
    ensures !HasAttr(RootAttrs(s, gradients), m)
  {
    assert m != "xmlns:aapt" && m != "android:width" && m != "android:height";
    assert m != "android:viewportWidth" && m != "android:viewportHeight";
  }

  /** Without `<svg>` the root pass changes nothing. */
  lemma RootPassNoSvg(s: Sizes, items: seq<Node>)
    requires !Occurs(items, {"svg"})
    ensures RootPass(s, items) == (s, items)
  {
    FindEmpty(items, {"svg"});
  }

  /** With an `<svg>`, the first one becomes `<vector>` where it stood, with
      its children, and the sizes are read from it. */
  lemma RootPassVector(s: Sizes, items: seq<Node>)
    requires Occurs(items, {"svg"})
    ensures var svgs := Find(items, IsIn({"svg"}));
      svgs != [] &&
      NodeAt(items, svgs[0]).Some? && NodeAt(items, svgs[0]).value.Element? &&
      var n := NodeAt(items, svgs[0]).value;
      var (s', r) := RootPass(s, items);
      n.elem == "svg" && s' == RootSizes(s, n.attrs) &&
      NodeAt(r, svgs[0]) == Some(Element("vector", RootAttrs(s', Occurs(items, GradientNames)), n.content))
  {
    FindEmpty(items, {"svg"});
    var svgs := Find(items, IsIn({"svg"}));
    FindSound(items, IsIn({"svg"}));
    var n := NodeAt(items, svgs[0]).value;
    var s' := RootSizes(s, n.attrs);
    ReplaceAtRead(items, svgs[0], Element("vector", RootAttrs(s', Occurs(items, GradientNames)), n.content));
  }

  // ---------------------------------------------------------------------------
  // The gradient pass
  // ---------------------------------------------------------------------------

  /** The test of `*[fill="url(#id)"], *[stroke="url(#id)"]`. */
  function PaintedWith(url: string): Node -> bool
  {
    (n: Node) => n.Element? && (HasAttrValue(n.attrs, "fill", url) || HasAttrValue(n.attrs, "stroke", url))
  }

  /** `addGradientToElement` for the gradient at `ga` and the element at
      `ea`, both read from the current tree: the gradient is replaced by its
      adjusted self, then the block is pushed as the last child of the
      element, read again (it may be the gradient itself). */
  function AddGradient(vw: JsValue, vh: JsValue, bounds: JsValue -> Result<Box>, items: seq<Node>,
    ga: seq<nat>, ea: seq<nat>): (r: Result<seq<Node>>)
    ensures r.Ok? ==> |r.value| == |items|
  {
    match NodeAt(items, ga)
    case Some(Element(ge, gat, gc)) =>
      (match NodeAt(items, ea)
       case None => Ok(items)
       case Some(e) =>
         match GradientBlock(vw, vh, bounds, Element(ge, gat, gc), e)
         case Throws => Throws
         case Ok((g', aapt)) =>
           var items1 := ReplaceAt(items, ga, g');
           match NodeAt(items1, ea)
           case Some(Element(n, a, c)) => Ok(ReplaceAt(items1, ea, Element(n, a, c + [aapt])))
           case _ => Ok(items1))
    case _ => Ok(items)
  }

  /** The gradient at `ga` given to the elements at `es`, in order. */
  function Paint(vw: JsValue, vh: JsValue, bounds: JsValue -> Result<Box>, items: seq<Node>,
    ga: seq<nat>, es: seq<seq<nat>>): Result<seq<Node>>
    decreases |es|
  {
    if es == [] then Ok(items)
    else match AddGradient(vw, vh, bounds, items, ga, es[0])
      case Throws => Throws
      case Ok(items') => Paint(vw, vh, bounds, items', ga, es[1..])
  }

  /** One gradient of the list: its `id` (a gradient without one throws),
      then the elements painted with `url(#id)`, found in the current tree. */
  function OneGradient(vw: JsValue, vh: JsValue, bounds: JsValue -> Result<Box>, items: seq<Node>,
    ga: seq<nat>): Result<seq<Node>>
  {
    match NodeAt(items, ga)
    case Some(Element(_, a, _)) =>
      (match Lookup(a, "id")
       case None => Throws
       case Some(id) => Paint(vw, vh, bounds, items, ga, Find(items, PaintedWith(UrlOf(id)))))
    case _ => Ok(items)
  }

  /** The gradients at `gs`, in order. */
  function GradientsAt(vw: JsValue, vh: JsValue, bounds: JsValue -> Result<Box>, items: seq<Node>,
    gs: seq<seq<nat>>): Result<seq<Node>>
    decreases |gs|
  {
    if gs == [] then Ok(items)
    else match OneGradient(vw, vh, bounds, items, gs[0])
      case Throws => Throws
      case Ok(items') => GradientsAt(vw, vh, bounds, items', gs[1..])
  }

  /** The gradient pass: every gradient found at the start, in document
      order. Adding blocks only appends children, so the addresses found at
      the start stay valid. */
  function GradientPass(vw: JsValue, vh: JsValue, bounds: JsValue -> Result<Box>, items: seq<Node>): Result<seq<Node>>
  {
    GradientsAt(vw, vh, bounds, items, Find(items, IsIn(GradientNames)))
  }

  /** Without gradients the gradient pass changes nothing. */
  lemma GradientPassNoGradient(vw: JsValue, vh: JsValue, bounds: JsValue -> Result<Box>, items: seq<Node>)
    requires !Occurs(items, GradientNames)
    ensures GradientPass(vw, vh, bounds, items) == Ok(items)
  {
    FindEmpty(items, GradientNames);
  }

  /** When the first gradient has no `id`, the pass throws. */
  lemma FirstGradientWithoutId(vw: JsValue, vh: JsValue, bounds: JsValue -> Result<Box>, items: seq<Node>)
    requires Find(items, IsIn(GradientNames)) != []
    requires var g := NodeAt(items, Find(items, IsIn(GradientNames))[0]);
      g.Some? && g.value.Element? && !HasAttr(g.value.attrs, "id")
    ensures GradientPass(vw, vh, bounds, items) == Throws
  {
  }

  /** A gradient nothing is painted with is left as it is: its coordinates
      are adjusted only for the elements that use it. */
  lemma UnusedGradient(vw: JsValue, vh: JsValue, bounds: JsValue -> Result<Box>, items: seq<Node>, ga: seq<nat>)
    requires NodeAt(items, ga).Some? && NodeAt(items, ga).value.Element?
    requires var id := Lookup(NodeAt(items, ga).value.attrs, "id");
      id.Some? && Find(items, PaintedWith(UrlOf(id.value))) == []
    ensures OneGradient(vw, vh, bounds, items, ga) == Ok(items)
  {
  }

  /** For an element apart from the gradient: the gradient is replaced by
      its adjusted self and the block becomes the element's last child, or
      the whole thing throws when the block does. */
  lemma AddGradientAppends(vw: JsValue, vh: JsValue, bounds: JsValue -> Result<Box>, items: seq<Node>,
    ga: seq<nat>, ea: seq<nat>)
    requires Diverge(ga, ea)
    requires NodeAt(items, ga).Some? && NodeAt(items, ga).value.Element?
    requires NodeAt(items, ea).Some? && NodeAt(items, ea).value.Element?
    ensures var g := NodeAt(items, ga).value;
      var e := NodeAt(items, ea).value;
      var b := GradientBlock(vw, vh, bounds, g, e);
      var r := AddGradient(vw, vh, bounds, items, ga, ea);
      (r.Ok? <==> b.Ok?) &&
      (r.Ok? ==>
        NodeAt(r.value, ga) == Some(b.value.0) &&
        NodeAt(r.value, ea) == Some(Element(e.elem, e.attrs, e.content + [b.value.1])))
  {
    var g := NodeAt(items, ga).value;
    var e := NodeAt(items, ea).value;
    var b := GradientBlock(vw, vh, bounds, g, e);
    if b.Ok? {
      var items1 := ReplaceAt(items, ga, b.value.0);
      ReplaceAtElsewhere(items, ga, ea, b.value.0);
      ReplaceAtRead(items, ga, b.value.0);
      var e' := Element(e.elem, e.attrs, e.content + [b.value.1]);
      ReplaceAtRead(items1, ea, e');
      DivergeSymmetric(ga, ea);
      ReplaceAtElsewhere(items1, ea, ga, e');
    }
  }
}
