/** Text primitives of the JavaScript runtime that the converter leans on:
    the `\s` character class, line terminators, ASCII case mapping,
    `indexOf`, `replace` (first occurrence), `split`, `trim` and `repeat`.
    Each regular expression of the source that is used only to find a fixed
    piece of text is modelled by the substring search defined here. */
module JsText {

  /** `\d` */
  predicate IsDigit(c: char) { '0' <= c <= '9' }

  /** `[0-9A-Fa-f]` */
  predicate IsHexDigit(c: char) { IsDigit(c) || 'a' <= c <= 'f' || 'A' <= c <= 'F' }

  /** The characters matched by JavaScript's `\s` (white space and line terminators). */
  predicate IsSpace(c: char)
  {
    c == ' ' || c == '\t' || c == '\n' || c == '\U{000B}' || c == '\U{000C}' || c == '\r' ||
    c == '\U{00A0}' || c == '\U{1680}' || ('\U{2000}' <= c <= '\U{200A}') ||
    c == '\U{2028}' || c == '\U{2029}' || c == '\U{202F}' || c == '\U{205F}' ||
    c == '\U{3000}' || c == '\U{FEFF}'
  }

  /** The characters that `.` in a regular expression does not match. */
  predicate IsLineTerminator(c: char)
  {
    c == '\n' || c == '\r' || c == '\U{2028}' || c == '\U{2029}'
  }

  function UpperChar(c: char): (u: char)
    ensures 'a' <= c <= 'z' ==> u as int == c as int - 32
    ensures !('a' <= c <= 'z') ==> u == c
  {
    if 'a' <= c <= 'z' then (c as int - 32) as char else c
  }

  function LowerChar(c: char): (l: char)
    ensures 'A' <= c <= 'Z' ==> l as int == c as int + 32
    ensures !('A' <= c <= 'Z') ==> l == c
  {
    if 'A' <= c <= 'Z' then (c as int + 32) as char else c
  }

  /** `String.prototype.toUpperCase`, on the ASCII letters. */
  function ToUpper(s: string): (r: string)
    ensures |r| == |s|
    ensures forall i :: 0 <= i < |s| ==> r[i] == UpperChar(s[i])
  {
    if s == [] then [] else [UpperChar(s[0])] + ToUpper(s[1..])
  }

  /** `String.prototype.toLowerCase`, on the ASCII letters. */
  function ToLower(s: string): (r: string)
    ensures |r| == |s|
    ensures forall i :: 0 <= i < |s| ==> r[i] == LowerChar(s[i])
  {
    if s == [] then [] else [LowerChar(s[0])] + ToLower(s[1..])
  }

  lemma ToUpperIdempotent(s: string)
    ensures ToUpper(ToUpper(s)) == ToUpper(s)
  {
    assert forall i :: 0 <= i < |s| ==> UpperChar(UpperChar(s[i])) == UpperChar(s[i]);
  }

  lemma ToUpperAppend(a: string, b: string)
    ensures ToUpper(a + b) == ToUpper(a) + ToUpper(b)
  {
    assert forall i :: 0 <= i < |a + b| ==> ToUpper(a + b)[i] == (ToUpper(a) + ToUpper(b))[i];
  }

  predicate OccursAt(s: string, p: string, k: int)
  {
    0 <= k && k + |p| <= |s| && s[k..k + |p|] == p
  }

  /** `s.indexOf(p, from)`: the first occurrence of `p` at or after `from`, or -1. */
  function IndexOfFrom(s: string, p: string, from: nat): (k: int)
    decreases |s| - from
    ensures k == -1 || (from <= k && OccursAt(s, p, k))
    ensures k >= 0 ==> forall j :: from <= j < k ==> !OccursAt(s, p, j)
    ensures k == -1 ==> forall j :: from <= j ==> !OccursAt(s, p, j)
  {
    if from + |p| > |s| then -1
    else if s[from..from + |p|] == p then from
    else IndexOfFrom(s, p, from + 1)
  }

  /** `s.indexOf(p)` */
  function IndexOf(s: string, p: string): (k: int)
    ensures k == -1 || OccursAt(s, p, k)
    ensures k >= 0 ==> forall j :: 0 <= j < k ==> !OccursAt(s, p, j)
    ensures k == -1 ==> forall j :: !OccursAt(s, p, j)
  {
    IndexOfFrom(s, p, 0)
  }

  predicate Contains(s: string, p: string) { IndexOf(s, p) >= 0 }

  /** `s.replace(p, r)` for a literal pattern: only the first occurrence is replaced. */
  function ReplaceFirst(s: string, p: string, r: string): (t: string)
    ensures IndexOf(s, p) == -1 ==> t == s
    ensures IndexOf(s, p) >= 0 ==>
      t == s[..IndexOf(s, p)] + r + s[IndexOf(s, p) + |p|..]
  {
    var k := IndexOf(s, p);
    if k < 0 then s else s[..k] + r + s[k + |p|..]
  }

  /** `s.replace(/p/i, r)` for a pattern of ASCII letters and punctuation:
      the first case-insensitive occurrence is replaced. */
  function ReplaceFirstIgnoreCase(s: string, p: string, r: string): (t: string)
    requires ToLower(p) == p
    ensures IndexOf(ToLower(s), p) == -1 ==> t == s
    ensures IndexOf(ToLower(s), p) >= 0 ==>
      t == s[..IndexOf(ToLower(s), p)] + r + s[IndexOf(ToLower(s), p) + |p|..]
  {
    var k := IndexOf(ToLower(s), p);
    if k < 0 then s else s[..k] + r + s[k + |p|..]
  }

  /** `s.replace(/c/g, '')` for one character class: every character satisfying `drop` is removed. */
  function RemoveAll(s: string, drop: char -> bool): (t: string)
    ensures |t| <= |s|
    ensures forall i :: 0 <= i < |t| ==> !drop(t[i])
    ensures forall c :: c in t ==> c in s
  {
    if s == [] then []
    else if drop(s[0]) then RemoveAll(s[1..], drop)
    else [s[0]] + RemoveAll(s[1..], drop)
  }

  lemma RemoveAllNoop(s: string, drop: char -> bool)
    requires forall i :: 0 <= i < |s| ==> !drop(s[i])
    ensures RemoveAll(s, drop) == s
  {
    if s != [] { RemoveAllNoop(s[1..], drop); }
  }

  lemma RemoveAllAppend(a: string, b: string, drop: char -> bool)
    ensures RemoveAll(a + b, drop) == RemoveAll(a, drop) + RemoveAll(b, drop)
  {
    if a != [] {
      var ab := a + b;
      assert ab[0] == a[0];
      assert ab[1..] == a[1..] + b;
      RemoveAllAppend(a[1..], b, drop);
      if drop(a[0]) {
        assert RemoveAll(ab, drop) == RemoveAll(ab[1..], drop);
        assert RemoveAll(a, drop) == RemoveAll(a[1..], drop);
      } else {
        assert RemoveAll(ab, drop) == [a[0]] + RemoveAll(ab[1..], drop);
        assert RemoveAll(a, drop) == [a[0]] + RemoveAll(a[1..], drop);
      }
    } else {
      assert a + b == b;
    }
  }

  // `s.replace(/\s*/g, '')`: all white space removed.
  function RemoveSpaces(s: string): (t: string)
    ensures forall i :: 0 <= i < |t| ==> !IsSpace(t[i])
  {
    RemoveAll(s, IsSpace)
  }

  /** The index of the first character of `s` satisfying `stop` at or after `from`, or `|s|`. */
  function FindChar(s: string, stop: char -> bool, from: nat): (k: nat)
    requires from <= |s|
    decreases |s| - from
    ensures from <= k <= |s|
    ensures k < |s| ==> stop(s[k])
    ensures forall j :: from <= j < k ==> !stop(s[j])
  {
    if from == |s| then from
    else if stop(s[from]) then from
    else FindChar(s, stop, from + 1)
  }

  /** What a trailing `.*` of a regular expression captures: the text up to the first line terminator. */
  function RestOfLine(s: string): (r: string)
    ensures r <= s
    ensures forall i :: 0 <= i < |r| ==> !IsLineTerminator(r[i])
    ensures |r| < |s| ==> IsLineTerminator(s[|r|])
  {
    s[..FindChar(s, IsLineTerminator, 0)]
  }

  /** `r.substring(0, r.indexOf(c))`: the text before the first `c`, and the
      empty string when there is no `c` (a negative end is clamped to 0). */
  function BeforeChar(r: string, c: char): (t: string)
    ensures c in r ==> t <= r && |t| < |r| && r[|t|] == c && c !in t
    ensures c !in r ==> t == ""
  {
    var k := FindChar(r, x => x == c, 0);
    if k < |r| then r[..k] else ""
  }

  /** `s.split(c)` for a one-character separator. */
  function Split(s: string, c: char): (parts: seq<string>)
    decreases |s|
    ensures |parts| >= 1
    ensures forall i :: 0 <= i < |parts| ==> c !in parts[i]
  {
    var k := FindChar(s, x => x == c, 0);
    if k == |s| then [s] else [s[..k]] + Split(s[k + 1..], c)
  }

  lemma AppendAssoc(x: string, y: string, z: string)
    ensures x + (y + z) == (x + y) + z
  {
  }

  /** The inverse of `Split`: `parts.join(c)`. */
  function Join(parts: seq<string>, c: char): string
  {
    if parts == [] then "" else if |parts| == 1 then parts[0] else parts[0] + [c] + Join(parts[1..], c)
  }

  lemma {:induction false} SplitJoin(s: string, c: char)
    decreases |s|
    ensures Join(Split(s, c), c) == s
  {
    var k := FindChar(s, x => x == c, 0);
    if k < |s| {
      var rest := s[k + 1..];
      assert Split(s, c) == [s[..k]] + Split(rest, c);
      SplitJoin(rest, c);
      JoinCons(s[..k], Split(rest, c), c);
      assert s == s[..k] + [c] + rest;
    }
  }

  lemma JoinCons(p: string, q: seq<string>, c: char)
    requires |q| >= 1
    ensures Join([p] + q, c) == p + [c] + Join(q, c)
  {
    assert ([p] + q)[1..] == q;
  }

  lemma SplitNone(x: string, c: char)
    requires c !in x
    ensures Split(x, c) == [x]
  {
    assert FindChar(x, y => y == c, 0) == |x|;
  }

  lemma SplitFirst(x: string, rest: string, c: char)
    requires c !in x
    ensures Split(x + [c] + rest, c) == [x] + Split(rest, c)
  {
    var s := x + [c] + rest;
    var k := FindChar(s, y => y == c, 0);
    forall j | 0 <= j < |x| ensures s[j] != c { assert s[j] == x[j]; }
    assert s[|x|] == c;
    assert k == |x|;
    assert s[..k] == x;
    assert s[k + 1..] == rest;
  }

  /** `Split` undoes `Join` when no part holds the separator. */
  lemma {:induction false} JoinSplit(parts: seq<string>, c: char)
    requires |parts| >= 1 && forall i :: 0 <= i < |parts| ==> c !in parts[i]
    ensures Split(Join(parts, c), c) == parts
  {
    if |parts| == 1 {
      SplitNone(parts[0], c);
    } else {
      JoinSplit(parts[1..], c);
      SplitFirst(parts[0], Join(parts[1..], c), c);
      assert [parts[0]] + parts[1..] == parts;
    }
  }

  /** `t` is `s[i..j]`, and everything before `i` and from `j` on is white space. */
  predicate TrimmedAt(s: string, t: string, i: int, j: int)
  {
    0 <= i <= j <= |s| && t == s[i..j] &&
    (forall k :: 0 <= k < i ==> IsSpace(s[k])) && (forall k :: j <= k < |s| ==> IsSpace(s[k]))
  }

  /** `String.prototype.trim`: white space and line terminators removed at both ends. */

  function Trim(s: string): (t: string)
    ensures |t| <= |s|
    ensures t != "" ==> !IsSpace(t[0]) && !IsSpace(t[|t| - 1])
    ensures exists i, j :: TrimmedAt(s, t, i, j)
  {
    var i := FindChar(s, c => !IsSpace(c), 0);
    var t := s[i..];
    var j := LastNonSpace(t, |t|);
    assert t[..j] == s[i..i + j];
    assert forall k :: i + j <= k < |s| ==> s[k] == t[k - i];
    assert TrimmedAt(s, t[..j], i, i + j);
    t[..j]
  }

  /** Text that neither starts nor ends in white space is its own trim. */
  lemma TrimNoop(s: string)
    requires s != [] && !IsSpace(s[0]) && !IsSpace(s[|s| - 1])
    ensures Trim(s) == s
  {
    assert FindChar(s, c => !IsSpace(c), 0) == 0;
    assert LastNonSpace(s, |s|) == |s|;
  }

  /** The length of the longest prefix of `s[..n]` that does not end in white space. */
  function LastNonSpace(s: string, n: nat): (j: nat)
    requires n <= |s|
    ensures j <= n
    ensures j > 0 ==> !IsSpace(s[j - 1])
    ensures forall k :: j <= k < n ==> IsSpace(s[k])
  {
    if n == 0 then 0 else if !IsSpace(s[n - 1]) then n else LastNonSpace(s, n - 1)
  }

  /** `str.repeat(n)` */
  function Repeat(s: string, n: nat): (r: string)
    ensures |r| == |s| * n
    ensures forall i :: 0 <= i < |r| ==> r[i] in s
  {
    if n == 0 then "" else Repeat(s, n - 1) + s
  }

  /** A string of `n` blanks. */
  function Spaces(n: nat): (r: string)
    ensures |r| == n && forall i :: 0 <= i < n ==> r[i] == ' '
  {
    if n == 0 then "" else Spaces(n - 1) + " "
  }

  lemma RepeatBlank(n: nat)
    ensures Repeat(" ", n) == Spaces(n)
  {
  }

  /** The decimal digits of a natural number, most significant first. */
  function NatToString(n: nat): (s: string)
    decreases n
    ensures |s| >= 1 && forall i :: 0 <= i < |s| ==> IsDigit(s[i])
    ensures DigitsValue(s) == n
  {
    if n < 10 then [('0' as int + n) as char] else NatToString(n / 10) + [('0' as int + n % 10) as char]
  }

  /** The value of a string of decimal digits (0 for the empty string). */
  function DigitsValue(s: string): nat
    requires forall i :: 0 <= i < |s| ==> IsDigit(s[i])
  {
    if s == [] then 0 else
      assert IsDigit(s[|s| - 1]);
      DigitsValue(s[..|s| - 1]) * 10 + (s[|s| - 1] as int - '0' as int)
  }

  /** `String(n)` for an integer: an optional minus sign and the digits. */
  function IntToString(n: int): (s: string)
    ensures n >= 0 ==> s == NatToString(n)
    ensures n < 0 ==> s == "-" + NatToString(-n)
  {
    if n < 0 then "-" + NatToString(-n) else NatToString(n)
  }
}
