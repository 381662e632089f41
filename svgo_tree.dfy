/** The svgo JSAPI tree that lib/js2vectordrawable.js rewrites: an element
    has a tag (`elem`), its attributes in insertion order (`attrs`, an object
    keyed by name in svgo) and its children (`content`); text, comments and
    other nodes without `elem` are `Other`. svgo leaves `content` undefined
    on an element without children; here that is the empty sequence.
    A node is addressed by the child indices leading to it from the root. */
module SvgoTree {
  import opened JsNumber
  import opened Wrappers

  datatype Attr = Attr(name: string, value: JsValue)

  datatype Node =
    | Element(elem: string, attrs: seq<Attr>, content: seq<Node>)
    | Other

  // ---------------------------------------------------------------------------
  // Attributes: attr, hasAttr, addAttr, removeAttr
  // ---------------------------------------------------------------------------

  /** `attr(name).value`, or None when there is no such attribute. */
  function Lookup(attrs: seq<Attr>, name: string): (v: Option<JsValue>)
    ensures v.Some? <==> exists i :: 0 <= i < |attrs| && attrs[i].name == name
  {
    if attrs == [] then None
    else if attrs[0].name == name then Some(attrs[0].value)
    else Lookup(attrs[1..], name)
  }

  /** `hasAttr(name)` */
  predicate HasAttr(attrs: seq<Attr>, name: string)
  {
    Lookup(attrs, name).Some?
  }

  /** `hasAttr(name, val)`: present and equal to the text `val`. */
  predicate HasAttrValue(attrs: seq<Attr>, name: string, val: string)
  {
    Lookup(attrs, name) == Some(Str(val))
  }

  function Names(attrs: seq<Attr>): (r: seq<string>)
    ensures |r| == |attrs| && forall i :: 0 <= i < |attrs| ==> r[i] == attrs[i].name
  {
    if attrs == [] then [] else [attrs[0].name] + Names(attrs[1..])
  }

  /** `addAttr({name, value})`: an attribute of that name is overwritten where
      it stands, otherwise the new one goes last. */
  function AddAttr(attrs: seq<Attr>, name: string, value: JsValue): (r: seq<Attr>)
    ensures Lookup(r, name) == Some(value)
    ensures forall m :: m != name ==> Lookup(r, m) == Lookup(attrs, m)
    ensures Names(r) == if HasAttr(attrs, name) then Names(attrs) else Names(attrs) + [name]
  {
    if attrs == [] then [Attr(name, value)]
    else if attrs[0].name == name then
      var r := [Attr(name, value)] + attrs[1..];
      assert r[1..] == attrs[1..];
      r
    else
      var rest := AddAttr(attrs[1..], name, value);
      var r := [attrs[0]] + rest;
      assert r[1..] == rest;
      assert HasAttr(attrs, name) == HasAttr(attrs[1..], name);
      r
  }

  /** `addAttr` leaves every other attribute as it was. */
  lemma AddAttrElsewhere(attrs: seq<Attr>, name: string, value: JsValue, m: string)
    requires m != name
    ensures Lookup(AddAttr(attrs, name, value), m) == Lookup(attrs, m)
  {
  }

  /** `removeAttr(name)`: the attribute is gone, the others keep their order. */
  function RemoveAttr(attrs: seq<Attr>, name: string): (r: seq<Attr>)
    ensures Lookup(r, name) == None
    ensures forall m :: m != name ==> Lookup(r, m) == Lookup(attrs, m)
    ensures forall i :: 0 <= i < |r| ==> r[i] in attrs && r[i].name != name
    ensures forall i :: 0 <= i < |attrs| && attrs[i].name != name ==> attrs[i] in r
  {
    if attrs == [] then []
    else if attrs[0].name == name then RemoveAttr(attrs[1..], name)
    else [attrs[0]] + RemoveAttr(attrs[1..], name)
  }

  /** `removeAttr(name, val)`: removes the attribute only when it holds `val`. */
  function RemoveAttrValue(attrs: seq<Attr>, name: string, val: string): (r: seq<Attr>)
    ensures HasAttrValue(attrs, name, val) ==> Lookup(r, name) == None
    ensures !HasAttrValue(attrs, name, val) ==> r == attrs
    ensures forall m :: m != name ==> Lookup(r, m) == Lookup(attrs, m)
  {
    if HasAttrValue(attrs, name, val) then RemoveAttr(attrs, name) else attrs
  }

  /** Adding the value an attribute already has changes nothing. */
  lemma {:induction false} AddAttrSame(attrs: seq<Attr>, name: string)
    requires HasAttr(attrs, name)
    ensures AddAttr(attrs, name, Lookup(attrs, name).value) == attrs
  {
    if attrs[0].name != name {
      AddAttrSame(attrs[1..], name);
    }
  }

  // ---------------------------------------------------------------------------
  // Queries over the tree
  // ---------------------------------------------------------------------------

  /** Some element of the forest, at any depth, is named `name`
      (`querySelector(name)` finds something). */
  predicate Occurs(items: seq<Node>, names: set<string>)
    decreases items
  {
    items != [] &&
    ((items[0].Element? && (items[0].elem in names || Occurs(items[0].content, names))) ||
     Occurs(items[1..], names))
  }

  /** A name occurs in two forests side by side when it occurs in one of them. */
  lemma {:induction false} OccursAppend(a: seq<Node>, b: seq<Node>, names: set<string>)
    ensures Occurs(a + b, names) <==> Occurs(a, names) || Occurs(b, names)
  {
    if a != [] {
      assert (a + b)[0] == a[0] && (a + b)[1..] == a[1..] + b;
      OccursAppend(a[1..], b, names);
    } else {
      assert a + b == b;
    }
  }

  /** A name occurs in a single node when it is the node's or occurs below it. */
  lemma OccursSingle(n: Node, names: set<string>)
    ensures Occurs([n], names) <==> n.Element? && (n.elem in names || Occurs(n.content, names))
  {
    assert [n][1..] == [];
  }

  /** The first element named `name` in document order (`querySelector`). */
  function FirstNamed(items: seq<Node>, name: string): (r: Option<Node>)
    decreases items
    ensures r.Some? <==> Occurs(items, {name})
    ensures r.Some? ==> r.value.Element? && r.value.elem == name
  {
    if items == [] then None
    else if items[0].Element? && items[0].elem == name then Some(items[0])
    else
      var inner := if items[0].Element? then FirstNamed(items[0].content, name) else None;
      if inner.Some? then inner else FirstNamed(items[1..], name)
  }

  /** The node at an address (a path of child indices from the root). */
  function NodeAt(items: seq<Node>, a: seq<nat>): Option<Node>
    decreases a
  {
    if a == [] || a[0] >= |items| then None
    else if |a| == 1 then Some(items[a[0]])
    else if items[a[0]].Other? then None
    else NodeAt(items[a[0]].content, a[1..])
  }

  /** The forest with the node at address `a` replaced by `n`; unchanged
      when `a` leads nowhere. */
  function ReplaceAt(items: seq<Node>, a: seq<nat>, n: Node): (r: seq<Node>)
    decreases a
    ensures |r| == |items|
  {
    if a == [] || a[0] >= |items| then items
    else if |a| == 1 then items[a[0] := n]
    else match items[a[0]]
      case Other => items
      case Element(e, at, c) => items[a[0] := Element(e, at, ReplaceAt(c, a[1..], n))]
  }

  /** What is stored at an address can be read back there. */
  lemma {:induction false} ReplaceAtRead(items: seq<Node>, a: seq<nat>, n: Node)
    requires NodeAt(items, a).Some?
    decreases a
    ensures NodeAt(ReplaceAt(items, a, n), a) == Some(n)
  {
    if |a| > 1 {
      ReplaceAtRead(items[a[0]].content, a[1..], n);
    }
  }

  /** Replacing a node by itself changes nothing. */
  lemma {:induction false} ReplaceAtSame(items: seq<Node>, a: seq<nat>)
    requires NodeAt(items, a).Some?
    decreases a
    ensures ReplaceAt(items, a, NodeAt(items, a).value) == items
  {
    if |a| > 1 {
      ReplaceAtSame(items[a[0]].content, a[1..]);
    }
  }

  /** `a` and `b` part ways: neither address leads through the other. */
  predicate Diverge(a: seq<nat>, b: seq<nat>)
    decreases a
  {
    a != [] && b != [] && (a[0] != b[0] || Diverge(a[1..], b[1..]))
  }

  /** Replacing the node at one address leaves the node at an address that
      parts ways with it where it was. */
  lemma {:induction false} ReplaceAtElsewhere(items: seq<Node>, a: seq<nat>, b: seq<nat>, n: Node)
    requires Diverge(a, b)
    decreases a
    ensures NodeAt(ReplaceAt(items, a, n), b) == NodeAt(items, b)
  {
    if a[0] < |items| && a[0] == b[0] && |a| > 1 && items[a[0]].Element? {
      ReplaceAtElsewhere(items[a[0]].content, a[1..], b[1..], n);
    }
  }

  /** Parting ways is symmetric. */
  lemma {:induction false} DivergeSymmetric(a: seq<nat>, b: seq<nat>)
    requires Diverge(a, b)
    decreases a
    ensures Diverge(b, a)
  {
    if a[0] == b[0] {
      DivergeSymmetric(a[1..], b[1..]);
    }
  }

  /** The test of a selector made of tag names (`querySelectorAll('a, b')`). */
  function IsIn(names: set<string>): Node -> bool
  {
    (n: Node) => n.Element? && n.elem in names
  }

  /** A query by tag names finds nothing exactly when none of the names occurs. */
  lemma FindEmpty(items: seq<Node>, names: set<string>)
    ensures Find(items, IsIn(names)) == [] <==> !Occurs(items, names)
  {
    FindFromEmpty(items, names, 0);
    assert items[0..] == items;
  }

  lemma {:induction false} FindFromEmpty(items: seq<Node>, names: set<string>, i: nat)
    requires i <= |items|
    decreases items, |items| - i
    ensures FindFrom(items, IsIn(names), i) == [] <==> !Occurs(items[i..], names)
  {
    if i < |items| {
      var p := IsIn(names);
      var here: seq<seq<nat>> := if p(items[i]) then [[i]] else [];
      var below := if items[i].Element? then Under(i, FindFrom(items[i].content, p, 0)) else [];
      var rest := FindFrom(items, p, i + 1);
      assert FindFrom(items, p, i) == here + below + rest;
      assert items[i..][0] == items[i] && items[i..][1..] == items[i + 1..];
      FindFromEmpty(items, names, i + 1);
      if items[i].Element? {
        FindFromEmpty(items[i].content, names, 0);
        assert items[i].content[0..] == items[i].content;
      }
    }
  }

  /** The addresses, in document order, of the nodes satisfying `p`
      (`querySelectorAll`). */
  function Find(items: seq<Node>, p: Node -> bool): seq<seq<nat>>
  {
    FindFrom(items, p, 0)
  }

  /** The addresses of the matching nodes among `items[i..]` and below them. */
  function FindFrom(items: seq<Node>, p: Node -> bool, i: nat): (r: seq<seq<nat>>)
    decreases items, |items| - i
    ensures forall k :: 0 <= k < |r| ==> r[k] != [] && i <= r[k][0] < |items|
  {
    if i >= |items| then []
    else
      var here: seq<seq<nat>> := if p(items[i]) then [[i]] else [];
      var below := if items[i].Element? then Under(i, FindFrom(items[i].content, p, 0)) else [];
      here + below + FindFrom(items, p, i + 1)
  }

  /** `addrs` moved below child `i`. */
  function Under(i: nat, addrs: seq<seq<nat>>): (r: seq<seq<nat>>)
    ensures |r| == |addrs| && forall k :: 0 <= k < |r| ==> r[k] == [i] + addrs[k]
  {
    seq(|addrs|, k requires 0 <= k < |addrs| => [i] + addrs[k])
  }

  /** Every address `Find` reports leads to a node satisfying `p`. */
  lemma FindSound(items: seq<Node>, p: Node -> bool)
    ensures forall k :: 0 <= k < |Find(items, p)| ==>
      NodeAt(items, Find(items, p)[k]).Some? && p(NodeAt(items, Find(items, p)[k]).value)
  {
    forall k | 0 <= k < |Find(items, p)|
      ensures NodeAt(items, Find(items, p)[k]).Some? && p(NodeAt(items, Find(items, p)[k]).value)
    {
      FindSoundAt(items, p, 0, k);
    }
  }

  lemma {:induction false} FindSoundAt(items: seq<Node>, p: Node -> bool, i: nat, k: nat)
    requires k < |FindFrom(items, p, i)|
    decreases items, |items| - i
    ensures NodeAt(items, FindFrom(items, p, i)[k]).Some? && p(NodeAt(items, FindFrom(items, p, i)[k]).value)
  {
    var here: seq<seq<nat>> := if p(items[i]) then [[i]] else [];
    var below := if items[i].Element? then Under(i, FindFrom(items[i].content, p, 0)) else [];
    var rest := FindFrom(items, p, i + 1);
    var all := FindFrom(items, p, i);
    assert all == here + below + rest;
    if k < |here| {
      assert all[k] == [i];
      NodeAtChild(items, i);
    } else if k < |here| + |below| {
      var j := k - |here|;
      IndexOfSecond(here, below, rest, j);
      var inner := FindFrom(items[i].content, p, 0);
      assert all[k] == [i] + inner[j];
      FindSoundAt(items[i].content, p, 0, j);
      NodeAtBelow(items, i, inner[j]);
    } else {
      IndexOfThird(here, below, rest, k - |here| - |below|);
      FindSoundAt(items, p, i + 1, k - |here| - |below|);
    }
  }

  lemma NodeAtChild(items: seq<Node>, i: nat)
    requires i < |items|
    ensures NodeAt(items, [i]) == Some(items[i])
  {
    assert [i][1..] == [];
  }

  lemma IndexOfSecond<T>(x: seq<T>, y: seq<T>, z: seq<T>, j: nat)
    requires j < |y|
    ensures (x + y + z)[|x| + j] == y[j]
  {
  }

  lemma IndexOfThird<T>(x: seq<T>, y: seq<T>, z: seq<T>, j: nat)
    requires j < |z|
    ensures (x + y + z)[|x| + |y| + j] == z[j]
  {
  }

  /** An address below child `i`. */
  lemma NodeAtBelow(items: seq<Node>, i: nat, b: seq<nat>)
    requires i < |items| && items[i].Element? && b != []
    ensures NodeAt(items, [i] + b) == NodeAt(items[i].content, b)
  {
    var a := [i] + b;
    assert a[0] == i && a[1..] == b;
  }
}
