/** Style lookups of svg2vectordrawable.js: `getStyle` finds the text of the
    document's `<style>` element, `getValueFromStyle` reads a property from
    the class rule of that style sheet and `getValueFromStyleInline` reads a
    property from a `style="…"` attribute. */
module StyleSheet {
  import opened JsText
  import opened JsNumber
  import opened XmlTree
  import opened Wrappers

  // ---------------------------------------------------------------------------
  // getStyle
  // ---------------------------------------------------------------------------

  /** The outcome of scanning for style elements: the text found so far and
      whether a `TypeError` escaped the scan. */
  datatype Scan = Scan(text: string, threw: bool)

  /** `o[i].childs[0]` assigned to the result: a text child is the style
      sheet; an element child cannot be searched by the string lookups and
      acts as an empty sheet. */
  function SheetText(first: XNode): string
  {
    if first.Text? then first.text else ""
  }

  /** The inner function `t` of `getStyle`, from sibling `i` on, with the
      result so far `r`. Each element's children are scanned first (a
      `TypeError` among them is caught there and ends only that scan); then a
      `style` element makes its first child the result, and a `style`
      element without children throws out of this scan. */
  function ScanFrom(o: seq<XNode>, i: nat, r: string): Scan
    requires i <= |o|
    decreases o, |o| - i
  {
    if i == |o| then Scan(r, false)
    else
      var n := o[i];
      var r1 := if n.Element? && n.childs != [] then ScanFrom(n.childs, 0, r).text else r;
      if n.Element? && n.name == "style" then
        if n.childs == [] then Scan(r1, true)
        else ScanFrom(o, i + 1, SheetText(n.childs[0]))
      else ScanFrom(o, i + 1, r1)
  }

  /** `t(o)` as the loop it is, with the shared result variable `r`. */
  method ScanStyles(o: seq<XNode>, r0: string) returns (res: Scan)
    decreases o
    ensures res == ScanFrom(o, 0, r0)
  {
    var r := r0;
    var i := 0;
    while i < |o|
      invariant 0 <= i <= |o|
      invariant ScanFrom(o, i, r) == ScanFrom(o, 0, r0)
    {
      var n := o[i];
      if n.Element? && n.childs != [] {
        var inner := ScanStyles(n.childs, r);
        r := inner.text;
      }
      if n.Element? && n.name == "style" {
        if n.childs == [] {
          return Scan(r, true);
        }
        r := SheetText(n.childs[0]);
      }
      i := i + 1;
    }
    return Scan(r, false);
  }

  /** `getStyle(obj)`: the sheet of the last `style` element in document
      order (children before their parent), `""` when there is none, and
      `None` when the `TypeError` of a childless `style` escapes. */
  method GetStyle(o: seq<XNode>) returns (style: Option<string>)
    ensures style.None? <==> ScanFrom(o, 0, "").threw
    ensures style.Some? ==> style.value == ScanFrom(o, 0, "").text
  {
    var s := ScanStyles(o, "");
    if s.threw {
      return None;
    }
    return Some(s.text);
  }

  /** The `style` elements of `o[i..]` in the order the scan reaches them. */
  function StylesFrom(o: seq<XNode>, i: nat): seq<XNode>
    requires i <= |o|
    decreases o, |o| - i
  {
    if i == |o| then []
    else
      var n := o[i];
      (if n.Element? then StylesFrom(n.childs, 0) + (if n.name == "style" then [n] else []) else [])
      + StylesFrom(o, i + 1)
  }

  /** The sheet the last of `styles` leaves behind, starting from `r`. */
  function LastSheet(styles: seq<XNode>, r: string): string
  {
    if styles == [] then r
    else
      var s := styles[|styles| - 1];
      if s.Element? && s.childs != [] then SheetText(s.childs[0]) else r
  }

  predicate AllHaveChildren(styles: seq<XNode>)
  {
    forall k :: 0 <= k < |styles| ==> styles[k].Element? && styles[k].childs != []
  }

  lemma LastSheetAppend(a: seq<XNode>, b: seq<XNode>, r: string)
    requires AllHaveChildren(b)
    ensures LastSheet(a + b, r) == LastSheet(b, LastSheet(a, r))
  {
    if b != [] {
      assert (a + b)[|a + b| - 1] == b[|b| - 1];
    } else {
      assert a + b == a;
    }
  }

  lemma AllHaveChildrenSplit(a: seq<XNode>, b: seq<XNode>)
    requires AllHaveChildren(a + b)
    ensures AllHaveChildren(a) && AllHaveChildren(b)
  {
    assert forall k :: 0 <= k < |a| ==> (a + b)[k] == a[k];
    assert forall k :: 0 <= k < |b| ==> (a + b)[|a| + k] == b[k];
  }

  /** When every `style` element has children nothing throws, and the result
      is the sheet of the last `style` element in scan order. */
  lemma {:induction false} ScanFindsLastStyle(o: seq<XNode>, i: nat, r: string)
    requires i <= |o|
    requires AllHaveChildren(StylesFrom(o, i))
    decreases o, |o| - i
    ensures ScanFrom(o, i, r) == Scan(LastSheet(StylesFrom(o, i), r), false)
  {
    if i < |o| {
      var n := o[i];
      var own := if n.Element? then StylesFrom(n.childs, 0) + (if n.name == "style" then [n] else []) else [];
      assert StylesFrom(o, i) == own + StylesFrom(o, i + 1);
      AllHaveChildrenSplit(own, StylesFrom(o, i + 1));
      if n.Element? {
        var mine := if n.name == "style" then [n] else [];
        AllHaveChildrenSplit(StylesFrom(n.childs, 0), mine);
        if n.childs != [] {
          ScanFindsLastStyle(n.childs, 0, r);
        }
        ElementSheet(n, r);
      }
      var r2 := LastSheet(own, r);
      ScanFindsLastStyle(o, i + 1, r2);
      LastSheetAppend(own, StylesFrom(o, i + 1), r);
    }
  }

  /** The sheet an element's own subtree leaves behind, given what the scan
      of its children gives. */
  lemma ElementSheet(n: XNode, r: string)
    requires n.Element?
    requires AllHaveChildren(if n.name == "style" then [n] else [])
    requires n.childs != [] ==> ScanFrom(n.childs, 0, r).text == LastSheet(StylesFrom(n.childs, 0), r)
    ensures var mine := if n.name == "style" then [n] else [];
      LastSheet(StylesFrom(n.childs, 0) + mine, r)
      == LastSheet(mine, if n.childs != [] then ScanFrom(n.childs, 0, r).text else r)
  {
    var mine := if n.name == "style" then [n] else [];
    LastSheetAppend(StylesFrom(n.childs, 0), mine, r);
    if n.childs == [] {
      assert StylesFrom(n.childs, 0) == [];
    }
  }

  /** A document without any `style` element has the empty sheet. */
  lemma NoStyleElementNoSheet(o: seq<XNode>)
    requires StylesFrom(o, 0) == []
    ensures ScanFrom(o, 0, "") == Scan("", false)
  {
    ScanFindsLastStyle(o, 0, "");
  }

  /** A childless `style` element among the top-level nodes makes `getStyle` throw. */
  lemma {:induction false} TopLevelEmptyStyleThrows(o: seq<XNode>, i: nat, j: nat, r: string)
    requires i <= j < |o|
    requires o[j].Element? && o[j].name == "style" && o[j].childs == []
    decreases |o| - i
    ensures ScanFrom(o, i, r).threw
  {
    if i < j {
      var n := o[i];
      if !(n.Element? && n.name == "style" && n.childs == []) {
        var r1 := if n.Element? && n.childs != [] then ScanFrom(n.childs, 0, r).text else r;
        var r2 := if n.Element? && n.name == "style" then SheetText(n.childs[0]) else r1;
        TopLevelEmptyStyleThrows(o, i + 1, j, r2);
      }
    }
  }

  // ---------------------------------------------------------------------------
  // Normalising a style text
  // ---------------------------------------------------------------------------

  /** `replace(/\s{2,}/g, '')`: every run of two or more white-space characters removed. */
  function DropSpaceRuns(s: string): (t: string)
    decreases |s|
    ensures |t| <= |s|
    ensures forall x :: x in t ==> x in s
  {
    if s == [] then []
    else if IsSpace(s[0]) then
      var k := FindChar(s, c => !IsSpace(c), 0);
      assert k >= 1;
      (if k >= 2 then [] else s[..k]) + DropSpaceRuns(s[k..])
    else [s[0]] + DropSpaceRuns(s[1..])
  }

  /** The characters of `[\n|\r|\t]`: the class includes the bar. */
  predicate IsStripped(c: char) { c == '\n' || c == '|' || c == '\r' || c == '\t' }

  /** `replace(/\}/g, '}\n')` */
  function BreakAfterBraces(s: string): (t: string)
    ensures |t| >= |s|
    ensures forall x :: x in t ==> x in s || x == '\n'
  {
    if s == [] then [] else (if s[0] == '}' then "}\n" else [s[0]]) + BreakAfterBraces(s[1..])
  }

  function SkipOneSpace(s: string): (t: string)
    ensures |t| <= |s|
    ensures forall x :: x in t ==> x in s
  {
    if s != [] && IsSpace(s[0]) then s[1..] else s
  }

  /** `replace(/\s?c\s?/g, c)`: one white-space character on either side of each `c` removed. */
  function Squash(s: string, c: char): (t: string)
    decreases |s|
    ensures forall x :: x in t ==> x in s
  {
    if s == [] then []
    else if |s| >= 2 && IsSpace(s[0]) && s[1] == c then [c] + Squash(SkipOneSpace(s[2..]), c)
    else if s[0] == c then [c] + Squash(SkipOneSpace(s[1..]), c)
    else [s[0]] + Squash(s[1..], c)
  }

  /** The chain of replacements `getValueFromStyle` applies to the sheet. */
  function NormalizeSheet(s: string): string
  {
    Squash(Squash(BreakAfterBraces(RemoveAll(DropSpaceRuns(s), IsStripped)), '{'), ':')
  }

  /** The chain of replacements `getValueFromStyleInline` applies to the attribute. */
  function NormalizeInline(s: string): string
  {
    Squash(Squash(s, ':'), ';')
  }

  // ---------------------------------------------------------------------------
  // getValueFromStyle, getValueFromStyleInline
  // ---------------------------------------------------------------------------

  /** Property names the converter asks for: lower-case letters and `-`. */
  predicate IsPropertyName(p: string)
  {
    forall i :: 0 <= i < |p| ==> 'a' <= p[i] <= 'z' || p[i] == '-'
  }

  /** A character of the selector pattern: `.` matches anything but a line terminator. */
  predicate PatternCharMatches(p: char, c: char)
  {
    if p == '.' then !IsLineTerminator(c) else p == c
  }

  /** `selector{` matches at `i`. */
  predicate SelectorAt(s: string, sel: string, i: int)
  {
    0 <= i && i + |sel| < |s| && s[i + |sel|] == '{' &&
    forall j :: 0 <= j < |sel| ==> PatternCharMatches(sel[j], s[i + j])
  }

  /** The last `}` in `s[lo..hi]`, or -1. */
  function LastBrace(s: string, lo: nat, hi: nat): (k: int)
    requires lo <= hi <= |s|
    decreases hi
    ensures k == -1 || (lo <= k < hi && s[k] == '}')
    ensures forall j :: k < j < hi && lo <= j ==> s[j] != '}'
  {
    if hi == lo then -1
    else if s[hi - 1] == '}' then hi - 1
    else LastBrace(s, lo, hi - 1)
  }

  /** `s.match(RegExp(sel + '{.*}'))`, searched from `i`: the leftmost start
      where the selector and `{` match, extended to the last `}` before the
      end of that line. */
  function MatchRuleFrom(s: string, sel: string, i: nat): (m: Option<string>)
    requires i <= |s|
    decreases |s| - i
    ensures m.Some? ==> (|m.value| >= |sel| + 2 && m.value[|m.value| - 1] == '}' &&
      forall j :: |sel| <= j < |m.value| ==> !IsLineTerminator(m.value[j]))
  {
    if SelectorAt(s, sel, i) && LastBrace(s, i + |sel| + 1, FindChar(s, IsLineTerminator, i + |sel| + 1)) >= 0 then
      var e := LastBrace(s, i + |sel| + 1, FindChar(s, IsLineTerminator, i + |sel| + 1));
      assert forall j :: i + |sel| <= j <= e ==> !IsLineTerminator(s[j]);
      Some(s[i..e + 1])
    else if i == |s| then None
    else MatchRuleFrom(s, sel, i + 1)
  }

  /** `/^\.\d+/.test(r) ? Number(r) : r` */
  function ValueOf(r: string): (v: JsValue)
    ensures v.Str? || v.Number?
  {
    if |r| >= 2 && r[0] == '.' && IsDigit(r[1]) then Number(StringToNumber(r)) else Str(r)
  }

  /** What follows the first `prop:` of `m` on its line, up to the first `;`
      (`""` when there is no `prop:` or no `;`). */
  function PropertyIn(m: string, prop: string): (r: string)
    requires IsPropertyName(prop)
  {
    var k := IndexOf(m, prop + ":");
    if k < 0 then ""
    else
      var line := RestOfLine(m[k..]);
      assert forall j :: 0 <= j < |prop| + 1 ==> m[k..][j] == (prop + ":")[j];
      BeforeChar(line[|prop| + 1..], ';')
  }

  /** `getValueFromStyle(selectors, property, styleString)` */
  function GetValueFromStyle(sel: string, prop: string, sheet: string): (v: JsValue)
    requires IsPropertyName(prop)
  {
    match MatchRuleFrom(NormalizeSheet(sheet), sel, 0)
    case None => Str("")
    case Some(m) => ValueOf(PropertyIn(m, prop))
  }

  /** `getValueFromStyleInline(property, styleString)` */
  function GetValueFromStyleInline(prop: string, style: string): (v: JsValue)
    requires IsPropertyName(prop)
  {
    ValueOf(PropertyIn(NormalizeInline(style), prop))
  }

  /** `getStyleInline(obj)`: the `style` attribute, or `""`. */
  function GetStyleInline(attrib: map<string, string>): string
  {
    if "style" in attrib then attrib["style"] else ""
  }

  // ---------------------------------------------------------------------------
  // What the lookups promise
  // ---------------------------------------------------------------------------

  /** No `prop:` or no `;` after it: the lookup gives `""`. */
  lemma PropertyInMissing(m: string, prop: string)
    requires IsPropertyName(prop)
    requires ':' !in m || ';' !in m
    ensures PropertyIn(m, prop) == ""
  {
    var k := IndexOf(m, prop + ":");
    if k >= 0 {
      assert (prop + ":")[|prop|] == ':';
      assert m[k + |prop|] == ':';
      var line := RestOfLine(m[k..]);
      var r := line[|prop| + 1..];
      assert forall x :: x in r ==> x in m by {
        forall x | x in r ensures x in m {
          var j :| 0 <= j < |r| && r[j] == x;
          assert m[k + |prop| + 1 + j] == x;
        }
      }
    }
  }

  /** An inline style without `:` or without `;` gives `""` for every property. */
  lemma InlineMissing(prop: string, style: string)
    requires IsPropertyName(prop)
    requires ':' !in style || ';' !in style
    ensures GetValueFromStyleInline(prop, style) == Str("")
  {
    PropertyInMissing(NormalizeInline(style), prop);
  }

  /** A sheet without `{`, without `:` or without `;` gives `""` for every selector and property. */
  lemma SheetMissing(sel: string, prop: string, sheet: string)
    requires IsPropertyName(prop)
    requires '{' !in sheet || ':' !in sheet || ';' !in sheet
    ensures GetValueFromStyle(sel, prop, sheet) == Str("")
  {
    var t := NormalizeSheet(sheet);
    match MatchRuleFrom(t, sel, 0)
    case None =>
    case Some(m) =>
      MatchRuleIsPart(t, sel, 0);
      assert forall x :: x in m ==> x in t;
      assert forall x :: x in t ==> x in sheet || x == '\n';
      PropertyInMissing(m, prop);
  }

  lemma MatchRuleIsPart(s: string, sel: string, i: nat)
    requires i <= |s|
    decreases |s| - i
    ensures var m := MatchRuleFrom(s, sel, i);
      m.Some? ==> (m.value[|sel|] == '{' && forall x :: x in m.value ==> x in s)
  {
    if SelectorAt(s, sel, i) && LastBrace(s, i + |sel| + 1, FindChar(s, IsLineTerminator, i + |sel| + 1)) >= 0 {
      var e := LastBrace(s, i + |sel| + 1, FindChar(s, IsLineTerminator, i + |sel| + 1));
      var m := s[i..e + 1];
      assert m[|sel|] == s[i + |sel|];
      forall x | x in m ensures x in s {
        var j :| 0 <= j < |m| && m[j] == x;
        assert s[i + j] == x;
      }
    } else if i < |s| {
      MatchRuleIsPart(s, sel, i + 1);
    }
  }

  /** A value written `.digits` is read as a number. */
  lemma ValueOfFraction(d: string)
    requires AllDigits(d) && d != []
    ensures ValueOf("." + d) == Number(Num(FracValue(d)))
  {
    var s := "." + d;
    FractionLiteral(d);
    FractionTrimmed(d);
    assert s != "Infinity" by { assert s[0] != "Infinity"[0]; }
  }

  lemma FractionLiteral(d: string)
    requires AllDigits(d) && d != []
    ensures DecimalLiteral("." + d) == Some(FracValue(d))
  {
    var s := "." + d;
    assert DigitRun(s, 0) == 0;
    assert s[1..] == d;
    assert s[..0] == "";
  }

  lemma FractionTrimmed(d: string)
    requires AllDigits(d) && d != []
    ensures Trim("." + d) == "." + d
  {
    var s := "." + d;
    assert FindChar(s, c => !IsSpace(c), 0) == 0;
    assert IsDigit(s[|s| - 1]);
    assert LastNonSpace(s, |s|) == |s|;
    assert s[0..] == s;
  }

  // ---------------------------------------------------------------------------
  // Reading back a declaration
  // ---------------------------------------------------------------------------

  /** A value that normalisation leaves alone: no `:`, `;` or line
      terminator, and no white space at either end. */
  predicate PlainValue(v: string)
  {
    (forall i :: 0 <= i < |v| ==> v[i] != ':' && v[i] != ';' && !IsLineTerminator(v[i])) &&
    (v != [] ==> !IsSpace(v[0]) && !IsSpace(v[|v| - 1]))
  }

  /** A prefix without `c` that does not end in white space passes `Squash` unchanged. */
  lemma {:induction false} SquashPrefix(x: string, y: string, c: char)
    requires c !in x && (x != [] ==> !IsSpace(x[|x| - 1]))
    ensures Squash(x + y, c) == x + Squash(y, c)
  {
    if x != [] {
      var s := x + y;
      assert s[0] == x[0] && s[1..] == x[1..] + y;
      assert x[0] != c;
      assert |x| >= 2 ==> s[1] == x[1] && x[1] != c;
      assert !(|s| >= 2 && IsSpace(s[0]) && s[1] == c);
      assert Squash(s, c) == [x[0]] + Squash(x[1..] + y, c);
      SquashPrefix(x[1..], y, c);
      assert x == [x[0]] + x[1..];
    } else {
      assert x + y == y;
    }
  }

  lemma SquashAfter(y: string, c: char)
    requires !IsSpace(c)
    requires y == [] || !IsSpace(y[0])
    ensures Squash([c] + y, c) == [c] + Squash(y, c)
  {
    assert ([c] + y)[1..] == y;
  }

  /** `PropertyIn` finds `v` when `m` holds `prop:v;` at the first `prop:`. */
  lemma PropertyInAt(m: string, prop: string, k: nat, v: string)
    requires IsPropertyName(prop) && PlainValue(v)
    requires k + |prop| + |v| + 2 <= |m| && m[k..k + |prop| + |v| + 2] == prop + ":" + v + ";"
    requires IndexOf(m, prop + ":") == k
    ensures PropertyIn(m, prop) == v
  {
    var n := |prop| + |v| + 2;
    var d := prop + ":" + v + ";";
    assert m[k..][..n] == d;
    DeclarationOnOneLine(prop, v);
    var line := RestOfLine(m[k..]);
    LineKeeps(m[k..], d);
    var r := line[|prop| + 1..];
    assert r[..|v| + 1] == v + ";" by {
      assert line[..n] == d;
      forall j | 0 <= j < |v| + 1 ensures r[j] == (v + ";")[j] {
        assert r[j] == line[|prop| + 1 + j] == d[|prop| + 1 + j];
      }
    }
    BeforeSemicolon(r, v);
  }

  /** `prop:v;` holds no line terminator. */
  lemma DeclarationOnOneLine(prop: string, v: string)
    requires IsPropertyName(prop) && PlainValue(v)
    ensures var d := prop + ":" + v + ";"; forall j :: 0 <= j < |d| ==> !IsLineTerminator(d[j])
  {
    var d := prop + ":" + v + ";";
    forall j | 0 <= j < |d| ensures !IsLineTerminator(d[j]) {
      if j < |prop| { assert d[j] == prop[j]; }
      else if j == |prop| { }
      else if j < |prop| + 1 + |v| { assert d[j] == v[j - |prop| - 1]; }
    }
  }

  /** The rest of the line of `s` keeps a prefix `d` of `s` free of line terminators. */
  lemma LineKeeps(s: string, d: string)
    requires |d| <= |s| && s[..|d|] == d
    requires forall j :: 0 <= j < |d| ==> !IsLineTerminator(d[j])
    ensures |RestOfLine(s)| >= |d| && RestOfLine(s)[..|d|] == d
  {
  }

  /** `r.substring(0, r.indexOf(';'))` when `r` starts with `v;` and `v` has no `;`. */
  lemma BeforeSemicolon(r: string, v: string)
    requires |v| < |r| && r[..|v| + 1] == v + ";"
    requires forall j :: 0 <= j < |v| ==> v[j] != ';'
    ensures BeforeChar(r, ';') == v
  {
    assert r[|v|] == (v + ";")[|v|];
    assert forall j :: 0 <= j < |v| ==> r[j] == v[j] by {
      forall j | 0 <= j < |v| ensures r[j] == v[j] {
        assert r[j] == r[..|v| + 1][j];
      }
    }
    var t := BeforeChar(r, ';');
    assert ';' in r;
    assert forall j :: 0 <= j < |t| ==> t[j] != ';' && t[j] == r[j];
    assert |t| == |v|;
    assert t == v;
  }

  /** An inline style that starts with `prop:v;` gives `v` (read as a number
      when it is written `.digits`), whatever follows. */
  lemma InlineReadsDeclaration(prop: string, v: string, rest: string)
    requires IsPropertyName(prop) && PlainValue(v)
    ensures GetValueFromStyleInline(prop, prop + ":" + v + ";" + rest) == ValueOf(v)
  {
    var r2 := InlineNormalizesDeclaration(prop, v, rest);
    var t := prop + ":" + v + ";" + r2;
    assert t[0..|prop| + |v| + 2] == prop + ":" + v + ";";
    assert IndexOf(t, prop + ":") == 0 by {
      assert OccursAt(t, prop + ":", 0);
    }
    PropertyInAt(t, prop, 0, v);
  }

  /** Normalising an inline style keeps a leading `prop:v;` as it is. */
  lemma InlineNormalizesDeclaration(prop: string, v: string, rest: string) returns (r2: string)
    requires IsPropertyName(prop) && PlainValue(v)
    ensures NormalizeInline(prop + ":" + v + ";" + rest) == prop + ":" + v + ";" + r2
  {
    var r1 := ColonStep(prop, v, rest);
    DeclarationEnds(prop, v);
    r2 := SemicolonStep(prop + ":" + v, r1);
  }

  /** After a declaration without `;`, the `;` keeps its place. */
  lemma SemicolonStep(x: string, r1: string) returns (r2: string)
    requires ';' !in x && x != [] && !IsSpace(x[|x| - 1])
    ensures Squash(x + ";" + r1, ';') == x + ";" + r2
  {
    r2 := Squash(SkipOneSpace(r1), ';');
    SquashAt(r1, ';');
    SquashPrefix(x, ";" + r1, ';');
    assert x + ";" + r1 == x + (";" + r1);
    assert x + (";" + r2) == x + ";" + r2;
  }

  /** A `c` drops one white-space character after it. */
  lemma SquashAt(y: string, c: char)
    requires !IsSpace(c)
    ensures Squash([c] + y, c) == [c] + Squash(SkipOneSpace(y), c)
  {
    assert ([c] + y)[1..] == y;
  }

  /** `prop:v` holds no `;` and does not end in white space. */
  lemma DeclarationEnds(prop: string, v: string)
    requires IsPropertyName(prop) && PlainValue(v)
    ensures var x := prop + ":" + v; ';' !in x && !IsSpace(x[|x| - 1])
  {
    var x := prop + ":" + v;
    forall j | 0 <= j < |x| ensures x[j] != ';' {
      if j < |prop| { assert x[j] == prop[j]; }
      else if j > |prop| { assert x[j] == v[j - |prop| - 1]; }
    }
    if v != [] { assert x[|x| - 1] == v[|v| - 1]; }
  }

  lemma ColonStep(prop: string, v: string, rest: string) returns (r1: string)
    requires IsPropertyName(prop) && PlainValue(v)
    ensures Squash(prop + ":" + v + ";" + rest, ':') == prop + ":" + v + ";" + r1
  {
    r1 := Squash(rest, ':');
    var y := v + ";" + rest;
    calc {
      Squash(prop + ":" + v + ";" + rest, ':');
    == { assert prop + ":" + v + ";" + rest == prop + ([':'] + y); }
      Squash(prop + ([':'] + y), ':');
    == { var r := ValueColonStep(v, rest);
         assert y == [] || !IsSpace(y[0]) by {
           if v != [] { assert y[0] == v[0]; } else { assert y[0] == ';'; }
         }
         assert ':' !in prop by {
           forall j | 0 <= j < |prop| ensures prop[j] != ':' { }
         }
         NameColonStep(prop, y, r); }
      prop + ":" + (v + ";" + r1);
    == { assert prop + ":" + (v + ";" + r1) == prop + ":" + v + ";" + r1; }
      prop + ":" + v + ";" + r1;
    }
  }

  /** `v;rest` loses no white space around `:` inside `v`. */
  lemma ValueColonStep(v: string, rest: string) returns (r: string)
    requires PlainValue(v)
    ensures Squash(v + ";" + rest, ':') == r == v + ";" + Squash(rest, ':')
  {
    var sr := Squash(rest, ':');
    r := v + ";" + sr;
    SquashPrefix(";", rest, ':');
    assert ':' !in v by {
      forall j | 0 <= j < |v| ensures v[j] != ':' { }
    }
    SquashPrefix(v, ";" + rest, ':');
    assert v + ";" + rest == v + (";" + rest);
    assert r == v + (";" + sr);
  }

  /** `prop:y` keeps its colon when `y` does not start with white space. */
  lemma NameColonStep(prop: string, y: string, r: string)
    requires ':' !in prop && (prop != [] ==> !IsSpace(prop[|prop| - 1]))
    requires y == [] || !IsSpace(y[0])
    requires Squash(y, ':') == r
    ensures Squash(prop + ([':'] + y), ':') == prop + ":" + r
  {
    SquashAfter(y, ':');
    SquashPrefix(prop, [':'] + y, ':');
  }

  // ---------------------------------------------------------------------------
  // Reading a class rule
  // ---------------------------------------------------------------------------

  /** A rule of `sel` starts at `k`: the selector and `{` match there, and a
      `}` follows on the same line. */
  predicate RuleAt(s: string, sel: string, k: int)
  {
    SelectorAt(s, sel, k) && LastBrace(s, k + |sel| + 1, FindChar(s, IsLineTerminator, k + |sel| + 1)) >= 0
  }

  /** Where the rule that starts at `k` ends: the last `}` of its line. */
  function RuleEnd(s: string, sel: string, k: int): int
    requires SelectorAt(s, sel, k)
  {
    LastBrace(s, k + |sel| + 1, FindChar(s, IsLineTerminator, k + |sel| + 1))
  }

  /** The regular expression matches at the leftmost rule of `sel`: with a
      rule at `k` and none between `i` and `k`, the match is the text from
      `k` to the last `}` of that line. */
  lemma {:induction false} MatchRuleLeftmost(s: string, sel: string, i: nat, k: nat)
    requires i <= k <= |s| && RuleAt(s, sel, k)
    requires forall j :: i <= j < k ==> !RuleAt(s, sel, j)
    decreases k - i
    ensures MatchRuleFrom(s, sel, i) == Some(s[k..RuleEnd(s, sel, k) + 1])
  {
    if i < k {
      assert !RuleAt(s, sel, i);
      MatchRuleLeftmost(s, sel, i + 1, k);
    }
  }

  /** Without a rule of `sel` at or after `i`, nothing matches. */
  lemma {:induction false} MatchRuleNone(s: string, sel: string, i: nat)
    requires i <= |s|
    requires forall j :: i <= j <= |s| ==> !RuleAt(s, sel, j)
    decreases |s| - i
    ensures MatchRuleFrom(s, sel, i) == None
  {
    assert !RuleAt(s, sel, i);
    if i < |s| {
      MatchRuleNone(s, sel, i + 1);
    }
  }

  /** Text that no normalising replacement touches and that cannot open or
      close a rule or a declaration. */
  predicate RuleText(x: string)
  {
    forall c :: c in x ==> !IsSpace(c) && !IsStripped(c) && c != '{' && c != '}' && c != ':' && c != ';'
  }

  lemma {:induction false} DropSpaceRunsNoSpace(x: string)
    requires forall c :: c in x ==> !IsSpace(c)
    decreases |x|
    ensures DropSpaceRuns(x) == x
  {
    if x != [] {
      assert x[0] in x;
      assert forall c :: c in x[1..] ==> c in x;
      DropSpaceRunsNoSpace(x[1..]);
    }
  }

  lemma {:induction false} BreakBeforeLastBrace(x: string)
    requires '}' !in x
    decreases |x|
    ensures BreakAfterBraces(x + "}") == x + "}\n"
  {
    if x == [] {
      assert BreakAfterBraces("}") == "}\n" + BreakAfterBraces([]);
    } else {
      assert (x + "}")[1..] == x[1..] + "}";
      assert x[0] in x;
      BreakBeforeLastBrace(x[1..]);
    }
  }

  /** `Squash` leaves text alone when only its last character is white space
      and the one before it is not `c`. */
  lemma {:induction false} SquashQuiet(t: string, c: char)
    requires forall i :: 0 <= i < |t| - 1 ==> !IsSpace(t[i])
    requires |t| >= 2 ==> t[|t| - 2] != c
    decreases |t|
    ensures Squash(t, c) == t
  {
    if t != [] {
      if t[0] == c {
        assert SkipOneSpace(t[1..]) == t[1..];
      }
      SquashQuiet(t[1..], c);
    }
  }

  /** The characters of `sel{prop:v;` come from its three parts and its
      punctuation. */
  lemma DeclarationChars(sel: string, prop: string, v: string)
    ensures forall c :: c in sel + "{" + prop + ":" + v + ";" ==>
      c in sel || c in prop || c in v || c == '{' || c == ':' || c == ';'
  {
  }

  /** One rule has no white space, nothing stripped, and a line break after
      its `}` once the braces are broken. */
  lemma RuleBreaks(sel: string, prop: string, v: string)
    requires RuleText(sel) && RuleText(v) && IsPropertyName(prop)
    ensures var s := sel + "{" + prop + ":" + v + ";}";
      (forall c :: c in s ==> !IsSpace(c)) &&
      BreakAfterBraces(RemoveAll(DropSpaceRuns(s), IsStripped)) == s + "\n"
  {
    var d := sel + "{" + prop + ":" + v + ";";
    var s := d + "}";
    assert s == sel + "{" + prop + ":" + v + ";}";
    assert forall c :: c in prop ==> 'a' <= c <= 'z' || c == '-' by {
      forall c | c in prop ensures 'a' <= c <= 'z' || c == '-' {
        var j :| 0 <= j < |prop| && prop[j] == c;
      }
    }
    DeclarationChars(sel, prop, v);
    assert forall c :: c in d ==> !IsSpace(c) && !IsStripped(c) && c != '}';
    assert forall c :: c in s ==> c in d || c == '}';
    DropSpaceRunsNoSpace(s);
    RemoveAllNoop(s, IsStripped);
    BreakBeforeLastBrace(d);
    assert d + "}\n" == s + "\n";
  }

  /** Normalising the sheet of one rule only breaks the line after its `}`. */
  lemma RuleNormalizes(sel: string, prop: string, v: string)
    requires RuleText(sel) && RuleText(v) && IsPropertyName(prop)
    ensures var s := sel + "{" + prop + ":" + v + ";}"; NormalizeSheet(s) == s + "\n"
  {
    var s := sel + "{" + prop + ":" + v + ";}";
    RuleBreaks(sel, prop, v);
    var t := s + "\n";
    assert forall i :: 0 <= i < |t| - 1 ==> !IsSpace(t[i]) by {
      forall i | 0 <= i < |t| - 1 ensures !IsSpace(t[i]) {
        assert t[i] == s[i] && s[i] in s;
      }
    }
    assert t[|t| - 2] == '}';
    SquashQuiet(t, '{');
    SquashQuiet(t, ':');
  }

  /** In the normalised sheet of one rule, the regular expression matches
      the whole rule. */
  lemma RuleMatches(sel: string, prop: string, v: string)
    requires RuleText(sel) && RuleText(v) && IsPropertyName(prop)
    ensures var s := sel + "{" + prop + ":" + v + ";}"; MatchRuleFrom(s + "\n", sel, 0) == Some(s)
  {
    var s := sel + "{" + prop + ":" + v + ";}";
    var t := s + "\n";
    var n := |sel| + 1;
    assert t[..n] == sel + "{";
    assert SelectorAt(t, sel, 0) by {
      forall j | 0 <= j < |sel| ensures PatternCharMatches(sel[j], t[j]) {
        assert t[j] == sel[j];
      }
    }
    assert forall c :: c in prop ==> !IsLineTerminator(c) by {
      forall c | c in prop ensures !IsLineTerminator(c) {
        var j :| 0 <= j < |prop| && prop[j] == c;
      }
    }
    assert forall c :: c in s ==> !IsLineTerminator(c);
    assert FindChar(t, IsLineTerminator, n) == |t| - 1 by {
      forall j | n <= j < |t| - 1 ensures !IsLineTerminator(t[j]) {
        assert t[j] == s[j] && s[j] in s;
      }
      assert IsLineTerminator(t[|t| - 1]);
    }
    assert t[|t| - 2] == '}';
    assert LastBrace(t, n, |t| - 1) == |t| - 2;
    MatchRuleLeftmost(t, sel, 0, 0);
    assert t[0..|t| - 1] == s;
  }

  /** The first `prop:` of the rule is its declaration. */
  lemma RuleDeclaration(sel: string, prop: string, v: string)
    requires RuleText(sel) && RuleText(v) && IsPropertyName(prop)
    ensures PropertyIn(sel + "{" + prop + ":" + v + ";}", prop) == v
  {
    var s := sel + "{" + prop + ":" + v + ";}";
    var n := |sel| + 1;
    var p := prop + ":";
    assert s[n..n + |prop| + |v| + 2] == prop + ":" + v + ";";
    assert OccursAt(s, p, n);
    assert ':' !in prop by {
      forall j | 0 <= j < |prop| ensures prop[j] != ':' { }
    }
    assert forall j :: 0 <= j < n + |prop| ==> s[j] != ':' by {
      assert s[..n + |prop|] == sel + "{" + prop;
      forall j | 0 <= j < n + |prop| ensures s[j] != ':' {
        assert s[j] == s[..n + |prop|][j];
        assert s[j] in sel + "{" + prop;
      }
    }
    assert forall j :: 0 <= j < n ==> !OccursAt(s, p, j) by {
      forall j | 0 <= j < n ensures !OccursAt(s, p, j) {
        if j + |p| <= |s| {
          assert s[j..j + |p|][|prop|] == s[j + |prop|] != ':';
          assert p[|prop|] == ':';
        }
      }
    }
    assert IndexOf(s, p) == n;
    assert PlainValue(v) by {
      forall i | 0 <= i < |v| ensures v[i] != ':' && v[i] != ';' && !IsLineTerminator(v[i]) {
        assert v[i] in v;
      }
      if v != [] { assert v[0] in v && v[|v| - 1] in v; }
    }
    PropertyInAt(s, prop, n, v);
  }

  /** A style sheet holding the one rule `.cls{prop:v;}` gives `v` for
      `prop` of class `cls` (read as a number when it is written `.digits`). */
  lemma ClassRuleFound(cls: string, prop: string, v: string)
    requires RuleText(cls) && RuleText(v) && IsPropertyName(prop)
    ensures GetValueFromStyle("." + cls, prop, "." + cls + "{" + prop + ":" + v + ";}") == ValueOf(v)
  {
    var sel := "." + cls;
    assert RuleText(sel);
    assert sel + "{" + prop + ":" + v + ";}" == "." + cls + "{" + prop + ":" + v + ";}";
    RuleNormalizes(sel, prop, v);
    RuleMatches(sel, prop, v);
    RuleDeclaration(sel, prop, v);
  }
}
