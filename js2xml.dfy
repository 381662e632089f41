/** The `JS2XML` converter of lib/js2vectordrawable.js: an object holding
    the drawing's size, its viewport and the current indentation level,
    which first rewrites the svgo tree (`refactorData`, see the `Refactor`
    module) and then prints it as VectorDrawable XML (`convert`,
    `travelConvert`, `createElement`, `createAttrs`, `createIndent`). The
    document is given as the children of svgo's `#document` root; `bounds`
    stands for the `svg-path-bounds` library. The line separator `EOL` is
    `"\n"`. */
module Js2Xml {
  import opened JsText
  import opened JsNumber
  import opened Wrappers
  import opened SvgoTree
  import opened Gradient
  import opened Refactor

  const EOL: string := "\n"

  /** `vectordrawableTags`: the only elements that are printed. */
  const VectordrawableTags: seq<string> := ["vector", "group", "path", "clip-path", "aapt:attr", "gradient", "item"]

  /** The attribute the printer puts first on `<vector>`. */
  const AndroidNamespace: string := " xmlns:android=\"http://schemas.android.com/apk/res/android\""

  const Header: string := "<?xml version=\"1.0\" encoding=\"utf-8\"?>"

  /** The sizes a new converter starts with. */
  const InitialSizes: Sizes := Sizes(Number(Num(24.0)), Number(Num(24.0)), Number(Num(24.0)), Number(Num(24.0)))

  // ---------------------------------------------------------------------------
  // The text the printer produces, as functions
  // ---------------------------------------------------------------------------

  /** `createIndent()`: `indent` (4) blanks per level below the current one. */
  function Indent(level: int): (r: string)
    requires level >= 1
    ensures |r| == 4 * (level - 1) && forall i :: 0 <= i < |r| ==> r[i] == ' '
  {
    Repeat(Spaces(4), level - 1)
  }

  /** A node `travelConvert` prints: an element with a VectorDrawable tag. */
  predicate Printed(n: Node)
  {
    n.Element? && n.elem in VectordrawableTags
  }

  /** One attribute of element `elem` at `level`: nothing when its value
      is `undefined`; the `name` of an `<aapt:attr>` on the tag's own line;
      any other attribute on a line of its own, one indent step deeper. */
  function AttrText(level: int, elem: string, a: Attr): string
    requires level >= 1
  {
    if a.value.Undef? then ""
    else if elem == "aapt:attr" && a.name == "name" then " " + a.name + "=\"" + Render(a.value) + "\""
    else EOL + Indent(level) + Spaces(4) + a.name + "=\"" + Render(a.value) + "\""
  }

  /** The attributes in their stored order. */
  function AttrsText(level: int, elem: string, attrs: seq<Attr>): string
    requires level >= 1
  {
    if attrs == [] then "" else AttrText(level, elem, attrs[0]) + AttrsText(level, elem, attrs[1..])
  }

  /** `createAttrs(elem)` */
  function CreateAttrsText(level: int, n: Node): string
    requires level >= 1 && n.Element?
  {
    (if n.elem == "vector" then AndroidNamespace else "") + AttrsText(level, n.elem, n.attrs)
  }

  /** `createElement(data)` at `level`: a childless element closes itself;
      otherwise its printed children come between its tags, one level
      deeper. */
  function ElementText(level: int, n: Node): string
    requires level >= 1 && n.Element?
    decreases n, 1
  {
    if n.content == [] then Indent(level) + "<" + n.elem + CreateAttrsText(level, n) + "/>" + EOL
    else
      Indent(level) + "<" + n.elem + CreateAttrsText(level, n) + ">" + EOL +
      ContentText(level + 1, n.content) +
      Indent(level) + "</" + n.elem + ">" + EOL
  }

  /** The printed nodes of a forest at `level`, in order. */
  function ContentText(level: int, items: seq<Node>): string
    requires level >= 1
    decreases items, 1
  {
    ContentFrom(level, items, 0)
  }

  /** The printed nodes among `items[i..]`. */
  function ContentFrom(level: int, items: seq<Node>, i: nat): string
    requires level >= 1
    decreases items, 0, |items| - i
  {
    if i >= |items| then ""
    else NodeText(level, items[i]) + ContentFrom(level, items, i + 1)
  }

  /** The printed nodes among `items[..i]`, as the printing loop builds them. */
  ghost function ContentPrefix(level: int, items: seq<Node>, i: nat): string
    requires level >= 1 && i <= |items|
  {
    if i == 0 then "" else ContentPrefix(level, items, i - 1) + NodeText(level, items[i - 1])
  }

  /** The loop's text, once every node is visited, is the forest's text. */
  lemma PrefixIsContent(level: int, items: seq<Node>)
    requires level >= 1
    ensures ContentPrefix(level, items, |items|) == ContentFrom(level, items, 0)
  {
    PrefixThenRest(level, items, |items|);
  }

  lemma {:induction false} PrefixThenRest(level: int, items: seq<Node>, i: nat)
    requires level >= 1 && i <= |items|
    ensures ContentPrefix(level, items, i) + ContentFrom(level, items, i) == ContentFrom(level, items, 0)
  {
    if i > 0 {
      PrefixThenRest(level, items, i - 1);
      Regroup(ContentPrefix(level, items, i - 1), NodeText(level, items[i - 1]), ContentFrom(level, items, i));
    }
  }

  /** One node of a forest: its element text when it is printed. */
  function NodeText(level: int, n: Node): string
    requires level >= 1
    decreases n, 2
  {
    if Printed(n) then ElementText(level, n) else ""
  }

  /** `convert(data)` once the tree is rewritten. */
  function DocumentText(items: seq<Node>): string
  {
    Header + EOL + ContentText(1, items) + EOL
  }

  // ---------------------------------------------------------------------------
  // Properties of the printed text
  // ---------------------------------------------------------------------------

  /** Printing a forest prints its parts one after the other. */
  lemma ContentAppend(level: int, a: seq<Node>, b: seq<Node>)
    requires level >= 1
    ensures ContentText(level, a + b) == ContentText(level, a) + ContentText(level, b)
  {
    ContentFromAppend(level, a, b, 0);
  }

  lemma {:induction false} ContentFromAppend(level: int, a: seq<Node>, b: seq<Node>, i: nat)
    requires level >= 1 && i <= |a|
    decreases |a| - i
    ensures ContentFrom(level, a + b, i) == ContentFrom(level, a, i) + ContentText(level, b)
  {
    if i == |a| {
      ContentFromShift(level, a, b, 0);
      assert ContentFrom(level, a, i) == "";
    } else {
      assert (a + b)[i] == a[i];
      var x := NodeText(level, a[i]);
      assert ContentFrom(level, a + b, i) == x + ContentFrom(level, a + b, i + 1);
      assert ContentFrom(level, a, i) == x + ContentFrom(level, a, i + 1);
      ContentFromAppend(level, a, b, i + 1);
    }
  }

  /** A forest of one node prints as that node. */
  lemma ContentSingle(level: int, n: Node)
    requires level >= 1
    ensures ContentText(level, [n]) == NodeText(level, n)
  {
    assert ContentFrom(level, [n], 1) == "";
  }

  lemma {:induction false} ContentFromShift(level: int, a: seq<Node>, b: seq<Node>, j: nat)
    requires level >= 1 && j <= |b|
    decreases |b| - j
    ensures ContentFrom(level, a + b, |a| + j) == ContentFrom(level, b, j)
  {
    if j < |b| {
      assert (a + b)[|a| + j] == b[j];
      ContentFromShift(level, a, b, j + 1);
    }
  }

  /** The nodes `travelConvert` prints, in document order. */
  function PrintedOnly(items: seq<Node>): (r: seq<Node>)
    ensures |r| <= |items|
    ensures forall i :: 0 <= i < |r| ==> Printed(r[i])
  {
    if items == [] then []
    else (if Printed(items[0]) then [items[0]] else []) + PrintedOnly(items[1..])
  }

  /** Text nodes, comments and elements without a VectorDrawable tag leave
      no trace in the output: the forest prints as its printed nodes alone. */
  lemma {:induction false} ContentSkipsUnprinted(level: int, items: seq<Node>)
    requires level >= 1
    ensures ContentText(level, items) == ContentText(level, PrintedOnly(items))
  {
    if items != [] {
      var head := if Printed(items[0]) then [items[0]] else [];
      assert items == [items[0]] + items[1..];
      ContentAppend(level, [items[0]], items[1..]);
      ContentAppend(level, head, PrintedOnly(items[1..]));
      ContentSkipsUnprinted(level, items[1..]);
      ContentSingle(level, items[0]);
      if head == [] {
        assert ContentText(level, head) == "";
      }
    }
  }

  /** The attributes print in their stored order. */
  lemma {:induction false} AttrsAppend(level: int, elem: string, a: seq<Attr>, b: seq<Attr>)
    requires level >= 1
    ensures AttrsText(level, elem, a + b) == AttrsText(level, elem, a) + AttrsText(level, elem, b)
  {
    if a == [] {
      assert a + b == b;
    } else {
      var ab := a + b;
      assert ab != [] && ab[0] == a[0] && ab[1..] == a[1..] + b;
      assert AttrsText(level, elem, ab) == AttrText(level, elem, a[0]) + AttrsText(level, elem, a[1..] + b);
      AttrsAppend(level, elem, a[1..], b);
    }
  }

  /** The attributes whose value is not `undefined`. */
  function Defined(attrs: seq<Attr>): (r: seq<Attr>)
    ensures forall i :: 0 <= i < |r| ==> !r[i].value.Undef?
  {
    if attrs == [] then []
    else (if attrs[0].value.Undef? then [] else [attrs[0]]) + Defined(attrs[1..])
  }

  /** An attribute whose value is `undefined` is not printed. */
  lemma {:induction false} UndefinedAttrsSkipped(level: int, elem: string, attrs: seq<Attr>)
    requires level >= 1
    ensures AttrsText(level, elem, attrs) == AttrsText(level, elem, Defined(attrs))
  {
    if attrs != [] {
      var head := if attrs[0].value.Undef? then [] else [attrs[0]];
      assert [attrs[0]][1..] == [];
      AttrsAppend(level, elem, head, Defined(attrs[1..]));
      UndefinedAttrsSkipped(level, elem, attrs[1..]);
      if head != [] {
        assert head[1..] == [];
      }
    }
  }

  /** A printed element closes itself exactly when it has no children. */
  lemma SelfClosing(level: int, n: Node)
    requires level >= 1 && Printed(n)
    ensures var t := ElementText(level, n);
      |t| >= 3 && (t[|t| - 3..] == "/>" + EOL <==> n.content == [])
  {
    var t := ElementText(level, n);
    var e := n.elem;
    assert e[|e| - 1] != '/';
    if n.content != [] {
      var front := Indent(level) + "<" + e + CreateAttrsText(level, n) + ">" + EOL +
        ContentText(level + 1, n.content) + Indent(level) + "</";
      assert t == front + e + ">" + EOL;
      assert t[|t| - 3] == e[|e| - 1];
    }
  }

  /** The document's top-level elements start in the first column, and
      each deeper level is four blanks further in. */
  lemma ElementStartsAtItsIndent(level: int, n: Node)
    requires level >= 1 && Printed(n)
    ensures var t := ElementText(level, n);
      |t| > 4 * (level - 1) && t[4 * (level - 1)] == '<' &&
      forall i :: 0 <= i < 4 * (level - 1) ==> t[i] == ' '
  {
    var t := ElementText(level, n);
    var ind := Indent(level);
    var p := ind + "<";
    var a := CreateAttrsText(level, n);
    if n.content == [] {
      assert t == p + n.elem + a + "/>" + EOL;
    } else {
      assert t == p + n.elem + a + ">" + EOL + ContentText(level + 1, n.content) + ind + "</" + n.elem + ">" + EOL;
    }
    assert t[..|p|] == p;
    BlanksThenTag(ind, t);
  }

  lemma BlanksThenTag(ind: string, t: string)
    requires forall i :: 0 <= i < |ind| ==> ind[i] == ' '
    requires |t| > |ind| && t[..|ind| + 1] == ind + "<"
    ensures t[|ind|] == '<' && forall i :: 0 <= i < |ind| ==> t[i] == ' '
  {
    assert forall i :: 0 <= i <= |ind| ==> t[i] == t[..|ind| + 1][i];
  }

  lemma Regroup(x: string, y: string, z: string)
    ensures x + (y + z) == (x + y) + z
  {
  }

  /** `refactorData` as the converter runs it: the gradient pass reads the
      viewport the converter holds at that point, the root pass replaces
      the sizes, and the path pass comes last. The sizes it returns are the
      ones the converter holds afterwards, also when the path pass throws. */
  function RefactorData(s: Sizes, bounds: JsValue -> Result<Box>, items: seq<Node>): (Sizes, Result<seq<Node>>)
  {
    match GradientPass(s.viewportWidth, s.viewportHeight, bounds, items)
    case Throws => (s, Throws)
    case Ok(i1) =>
      match GroupPass(i1)
      case Throws => (s, Throws)
      case Ok(i2) =>
        var (s', i3) := RootPass(s, i2);
        (s', PathPass(i3))
  }

  /** The whole conversion of a document by a new converter. */
  function ConvertText(bounds: JsValue -> Result<Box>, items: seq<Node>): Result<string>
  {
    Printout(RefactorData(InitialSizes, bounds, items).1)
  }

  /** A conversion succeeds exactly when the rewrite does, and then the text
      is the XML declaration on a line of its own, the printed tree and a
      final line break. */
  lemma ConvertTextParts(bounds: JsValue -> Result<Box>, items: seq<Node>)
    ensures ConvertText(bounds, items).Ok? <==> RefactorData(InitialSizes, bounds, items).1.Ok?
    ensures ConvertText(bounds, items).Ok? ==>
      var x := ConvertText(bounds, items).value;
      |x| >= |Header| + 2 && x[..|Header|] == Header && x[|Header|] == '\n' && x[|x| - 1] == '\n'
  {
    var t := RefactorData(InitialSizes, bounds, items).1;
    if t.Ok? {
      HeaderLine(ContentText(1, t.value));
    }
  }

  lemma HeaderLine(body: string)
    ensures var x := Header + EOL + body + EOL;
      |x| >= |Header| + 2 && x[..|Header|] == Header && x[|Header|] == '\n' && x[|x| - 1] == '\n'
  {
    var x := Header + EOL + body + EOL;
    assert x == Header + (EOL + body + EOL);
    assert x[..|Header|] == Header;
  }

  /** Without gradients the rewrite throws exactly when the group pass
      throws or the document, once its root is rewritten, has no `<path>`. */
  lemma RefactorWithoutGradients(s: Sizes, bounds: JsValue -> Result<Box>, items: seq<Node>)
    requires !Occurs(items, GradientNames)
    ensures RefactorData(s, bounds, items).1.Ok? <==>
      GroupPass(items).Ok? && Occurs(RootPass(s, GroupPass(items).value).1, {"path"})
  {
    GradientPassNoGradient(s.viewportWidth, s.viewportHeight, bounds, items);
    if GroupPass(items).Ok? {
      PathPassNeedsPath(RootPass(s, GroupPass(items).value).1);
    }
  }

  /** The printed document, when the rewrite did not throw. */
  function Printout(t: Result<seq<Node>>): Result<string>
  {
    match t
    case Throws => Throws
    case Ok(items) => Ok(DocumentText(items))
  }

  // ---------------------------------------------------------------------------
  // The converter object
  // ---------------------------------------------------------------------------

  class JS2XML {
    var width: JsValue
    var height: JsValue
    var viewportWidth: JsValue
    var viewportHeight: JsValue
    var indentLevel: int
    /** Blanks per indentation level. */
    const indent: nat := 4
    /** `pathBounds` */
    const bounds: JsValue -> Result<Box>

    /** `new JS2XML()`: 24 by 24, viewport 24 by 24, no indentation yet. */
    constructor (bounds: JsValue -> Result<Box>)
      ensures CurrentSizes() == InitialSizes && indentLevel == 0 && indent == 4 && this.bounds == bounds
    {
      width := Number(Num(24.0));
      height := Number(Num(24.0));
      viewportWidth := Number(Num(24.0));
      viewportHeight := Number(Num(24.0));
      indentLevel := 0;
      this.bounds := bounds;
    }

    function CurrentSizes(): Sizes
      reads this
    {
      Sizes(width, height, viewportWidth, viewportHeight)
    }

    /** `refactorData(data)`: the rewritten document, and the sizes the
        root pass read. */
    method RefactorTree(items: seq<Node>) returns (r: Result<seq<Node>>)
      modifies this
      ensures (CurrentSizes(), r) == RefactorData(old(CurrentSizes()), bounds, items)
      ensures indentLevel == old(indentLevel)
    {
      r := Throws;
      var i1 := GradientPass(viewportWidth, viewportHeight, bounds, items);
      if i1.Ok? {
        var i2 := GroupPass(i1.value);
        if i2.Ok? {
          var (s', i3) := RootPass(CurrentSizes(), i2.value);
          width, height, viewportWidth, viewportHeight := s'.width, s'.height, s'.viewportWidth, s'.viewportHeight;
          r := PathPass(i3);
        }
      }
    }

    /** `adjustGradientCoordinate(gradient, elem)`: the defaults are added,
        then every coordinate is overwritten in turn. This method stands
        alone: `RefactorTree` reaches the same result through the function
        `AdjustedGradient` it is proved equal to. */
    method AdjustGradientCoordinate(g: Node, elem: Node) returns (r: Result<Node>)
      requires g.Element?
      ensures r == AdjustedGradient(viewportWidth, viewportHeight, bounds, g, elem)
    {
      var attrs := WithDefaults(g);
      var user := HasAttrValue(attrs, "gradientUnits", "userSpaceOnUse");
      var box := BoxOf(elem, bounds);
      var out: seq<Attr> := [];
      var i := 0;
      while i < |attrs|
        invariant 0 <= i <= |attrs| && |out| == i
        invariant forall k :: 0 <= k < i ==> AdjustValue(viewportWidth, viewportHeight, user, box, attrs[k]).Ok?
        invariant forall k :: 0 <= k < i ==>
          out[k] == Attr(attrs[k].name, AdjustValue(viewportWidth, viewportHeight, user, box, attrs[k]).value)
      {
        var v := AdjustValue(viewportWidth, viewportHeight, user, box, attrs[i]);
        if v.Throws? {
          return Throws;
        }
        out := out + [Attr(attrs[i].name, v.value)];
        i := i + 1;
      }
      assert out == AdjustAll(viewportWidth, viewportHeight, user, box, attrs).value;
      return Ok(Element(g.elem, out, g.content));
    }

    /** `addGradientToElement(gradient, elem)`: the gradient it leaves
        behind and the `<aapt:attr>` block it pushes onto the element. This
        method stands alone: `RefactorTree` reaches the same result through
        the function `GradientBlock` it is proved equal to. */
    method AddGradientToElement(g: Node, elem: Node) returns (r: Result<(Node, Node)>)
      requires g.Element?
      ensures r == GradientBlock(viewportWidth, viewportHeight, bounds, g, elem)
    {
      var id := Lookup(g.attrs, "id");
      if id.None? {
        return Throws;
      }
      var aapt := AaptAttrs(id.value, elem);
      var g' := AdjustGradientCoordinate(g, elem);
      if g'.Throws? {
        return Throws;
      }
      var items := ColorStopsOf(g'.value.content);
      if items.Throws? {
        return Throws;
      }
      var gradient := Element("gradient", TypeAttrs(viewportWidth, viewportHeight, g'.value), items.value);
      return Ok((g'.value, Element("aapt:attr", aapt, [gradient])));
    }

    /** The loop over `gradient.content` in `addGradientToElement`: one
        `<item>` per stop, in order; a gradient without children has no
        `content` to loop over. Called by `AddGradientToElement`; proved
        equal to the function `ColorStops`. */
    method ColorStopsOf(stops: seq<Node>) returns (r: Result<seq<Node>>)
      ensures r == ColorStops(stops)
    {
      if stops == [] {
        return Throws;
      }
      var items: seq<Node> := [];
      var i := 0;
      while i < |stops|
        invariant 0 <= i <= |stops| && |items| == i
        invariant forall k :: 0 <= k < i ==> ColorStop(stops[k]).Ok? && items[k] == ColorStop(stops[k]).value
      {
        var item := ColorStop(stops[i]);
        if item.Throws? {
          return Throws;
        }
        items := items + [item.value];
        i := i + 1;
      }
      assert items == ColorStops(stops).value;
      return Ok(items);
    }

    /** `travelConvert(data)`: the printed children of `data`, one level
        deeper; the level is back where it was on return. */
    method TravelConvert(data: Node) returns (xml: string)
      requires indentLevel >= 0
      modifies this
      decreases data, 1
      ensures indentLevel == old(indentLevel) && CurrentSizes() == old(CurrentSizes())
      ensures xml == if data.Element? then ContentText(old(indentLevel) + 1, data.content) else ""
    {
      xml := "";
      indentLevel := indentLevel + 1;
      ghost var level := indentLevel;
      ghost var sizes := CurrentSizes();
      if data.Element? {
        var c := data.content;
        var i := 0;
        while i < |c|
          invariant 0 <= i <= |c|
          invariant indentLevel == level && CurrentSizes() == sizes
          invariant xml == ContentPrefix(level, c, i)
        {
          var e := "";
          if Printed(c[i]) {
            e := CreateElement(c[i]);
          }
          xml := xml + e;
          i := i + 1;
        }
        PrefixIsContent(level, c);
      }
      indentLevel := indentLevel - 1;
    }

    /** `createElement(data)` at the current level. */
    method CreateElement(data: Node) returns (xml: string)
      requires indentLevel >= 1 && data.Element?
      modifies this
      decreases data, 2
      ensures indentLevel == old(indentLevel) && CurrentSizes() == old(CurrentSizes())
      ensures xml == ElementText(indentLevel, data)
    {
      var attrs := CreateAttrs(data);
      if data.content == [] {
        return CreateIndent() + "<" + data.elem + attrs + "/>" + EOL;
      }
      var inner := TravelConvert(data);
      xml := CreateIndent() + "<" + data.elem + attrs + ">" + EOL + inner + CreateIndent() + "</" + data.elem + ">" + EOL;
    }

    /** `createAttrs(elem)`: `xmlns:android` first on `<vector>`, then each
        defined attribute in turn. */
    method CreateAttrs(n: Node) returns (attrs: string)
      requires indentLevel >= 1 && n.Element?
      ensures attrs == CreateAttrsText(indentLevel, n)
    {
      attrs := if n.elem == "vector" then AndroidNamespace else "";
      var a := n.attrs;
      var i := 0;
      while i < |a|
        invariant 0 <= i <= |a|
        invariant attrs + AttrsText(indentLevel, n.elem, a[i..]) == CreateAttrsText(indentLevel, n)
      {
        assert a[i..][1..] == a[i + 1..];
        var line := CreateAttr(n.elem, a[i]);
        assert AttrsText(indentLevel, n.elem, a[i..]) == line + AttrsText(indentLevel, n.elem, a[i + 1..]);
        Regroup(attrs, line, AttrsText(indentLevel, n.elem, a[i + 1..]));
        attrs := attrs + line;
        i := i + 1;
      }
    }

    /** One pass of the loop in `createAttrs(elem)`. */
    method CreateAttr(elem: string, attr: Attr) returns (line: string)
      requires indentLevel >= 1
      ensures line == AttrText(indentLevel, elem, attr)
    {
      line := "";
      if attr.value != Undef {
        if elem == "aapt:attr" && attr.name == "name" {
          line := " " + attr.name + "=\"" + Render(attr.value) + "\"";
        } else {
          line := EOL + CreateIndent() + Spaces(indent) + attr.name + "=\"" + Render(attr.value) + "\"";
        }
      }
    }

    /** `createIndent()` */
    function CreateIndent(): (r: string)
      requires indentLevel >= 1
      reads this
      ensures r == Indent(indentLevel)
    {
      Repeat(Spaces(indent), indentLevel - 1)
    }

    /** `convert(data)`: rewrite, then print after the XML declaration. */
    method Convert(items: seq<Node>) returns (r: Result<string>)
      requires indentLevel == 0
      modifies this
      ensures CurrentSizes() == RefactorData(old(CurrentSizes()), bounds, items).0 && indentLevel == 0
      ensures r == Printout(RefactorData(old(CurrentSizes()), bounds, items).1)
    {
      var t := RefactorTree(items);
      r := PrintDocument(t);
    }

    /** The second half of `convert(data)`: the declaration, then the
        rewritten document printed from the first level. */
    method PrintDocument(t: Result<seq<Node>>) returns (r: Result<string>)
      requires indentLevel == 0
      modifies this
      ensures indentLevel == 0 && CurrentSizes() == old(CurrentSizes())
      ensures r == Printout(t)
    {
      if t.Throws? {
        return Throws;
      }
      var body := TravelConvert(Element("#document", [], t.value));
      r := Ok(Header + EOL + body + EOL);
    }
  }

  /** `module.exports`: a new converter for every document. */
  method ToVectorDrawable(bounds: JsValue -> Result<Box>, items: seq<Node>) returns (r: Result<string>)
    ensures r == ConvertText(bounds, items)
  {
    var c := new JS2XML(bounds);
    r := c.Convert(items);
  }
}
