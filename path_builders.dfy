/** The path-data builders of svg2vectordrawable.js: `rectToPath`,
    `polygonToPath` and `circleToPath`, over whole-number coordinates. */
module PathBuilders {
  import opened JsText

  /** `'' + n` for a whole number. */
  function S(n: int): string { IntToString(n) }

  /** One command with its coordinate pair: `cmd a,b`. */
  function Seg(cmd: string, a: string, b: string): string { cmd + a + "," + b }

  // ---------------------------------------------------------------------------
  // Points paths: `M` to the first pair, `L` to each later one, then `z`
  // ---------------------------------------------------------------------------

  /** The move-and-line commands for an even number of coordinate tokens,
      built pair by pair from the left as the loop of `polygonToPath` does. */
  function Pairs(t: seq<string>): string
    requires |t| % 2 == 0
    decreases |t|
  {
    if t == [] then ""
    else Pairs(t[..|t| - 2]) + Seg(if |t| == 2 then "M" else "L", t[|t| - 2], t[|t| - 1])
  }

  /** `L x,y` for each pair of `t`, read from the front. */
  function Lines(t: seq<string>): string
    requires |t| % 2 == 0
    decreases |t|
  {
    if t == [] then "" else Seg("L", t[0], t[1]) + Lines(t[2..])
  }

  /** A closed path through the points the tokens name. */
  function PointsPath(t: seq<string>): string
    requires |t| % 2 == 0
  {
    Pairs(t) + "z"
  }

  lemma {:induction false} LinesAppend(t: seq<string>, a: string, b: string)
    requires |t| % 2 == 0
    decreases |t|
    ensures Lines(t + [a, b]) == Lines(t) + Seg("L", a, b)
  {
    if t != [] {
      var u := t + [a, b];
      assert u[0] == t[0] && u[1] == t[1] && u[2..] == t[2..] + [a, b];
      LinesAppend(t[2..], a, b);
    } else {
      assert (t + [a, b])[2..] == [];
    }
  }

  /** The path moves to the first pair, draws a line to each later pair in
      order and closes. */
  lemma {:induction false} PairsAreMoveThenLines(t: seq<string>)
    requires |t| % 2 == 0 && |t| >= 2
    decreases |t|
    ensures Pairs(t) == Seg("M", t[0], t[1]) + Lines(t[2..])
  {
    if |t| > 2 {
      var p := t[..|t| - 2];
      PairsAreMoveThenLines(p);
      assert p[0] == t[0] && p[1] == t[1];
      assert t[2..] == p[2..] + [t[|t| - 2], t[|t| - 1]];
      LinesAppend(p[2..], t[|t| - 2], t[|t| - 1]);
    }
  }

  // ---------------------------------------------------------------------------
  // polygonToPath
  // ---------------------------------------------------------------------------

  /** The non-empty strings of `parts`, in order. */
  function NonEmpty(parts: seq<string>): (r: seq<string>)
    ensures |r| <= |parts|
    ensures forall i :: 0 <= i < |r| ==> r[i] != ""
  {
    if parts == [] then []
    else NonEmpty(parts[..|parts| - 1]) + (if parts[|parts| - 1] != "" then [parts[|parts| - 1]] else [])
  }

  /** The tokens of the comma-separated chunks `raw`: each chunk split at
      blanks, empty pieces dropped. */
  function TokensOf(raw: seq<string>): seq<string>
  {
    if raw == [] then [] else TokensOf(raw[..|raw| - 1]) + NonEmpty(Split(raw[|raw| - 1], ' '))
  }

  /** `pointsArray` for the `points` attribute. */
  function Tokens(points: string): seq<string>
  {
    TokensOf(Split(Trim(points), ','))
  }

  /** What `polygonToPath(points)` returns. */
  function PolygonPath(points: string): string
  {
    var t := Tokens(points);
    if |t| % 2 == 0 then PointsPath(t) else ""
  }

  /** The first half of `polygonToPath`: the points trimmed, split at
      commas, each chunk split at blanks, and the non-empty pieces pushed
      onto `pointsArray`. */
  method CollectTokens(points: string) returns (arr: seq<string>)
    ensures arr == Tokens(points)
  {
    var raw := Split(Trim(points), ',');
    arr := [];
    var i := 0;
    while i < |raw|
      invariant 0 <= i <= |raw|
      invariant arr == TokensOf(raw[..i])
    {
      var splitted := Split(raw[i], ' ');
      arr := PushNonEmpty(arr, splitted);
      TokensOfStep(raw, i);
      i := i + 1;
    }
    assert raw[..i] == raw;
  }

  /** One more chunk adds its non-empty pieces. */
  lemma TokensOfStep(raw: seq<string>, i: nat)
    requires i < |raw|
    ensures TokensOf(raw[..i + 1]) == TokensOf(raw[..i]) + NonEmpty(Split(raw[i], ' '))
  {
    assert raw[..i + 1][..i] == raw[..i];
  }

  /** The inner loop: the non-empty strings of `splitted` pushed onto `arr`. */
  method PushNonEmpty(arr0: seq<string>, splitted: seq<string>) returns (arr: seq<string>)
    ensures arr == arr0 + NonEmpty(splitted)
  {
    arr := arr0;
    var j := 0;
    while j < |splitted|
      invariant 0 <= j <= |splitted|
      invariant arr == arr0 + NonEmpty(splitted[..j])
    {
      assert splitted[..j + 1][..j] == splitted[..j];
      if |splitted[j]| > 0 {
        arr := arr + [splitted[j]];
      }
      j := j + 1;
    }
    assert splitted[..j] == splitted;
  }

  /** `polygonToPath(points)`: a path through the tokens when there is an
      even number of them and `""` otherwise. */
  method PolygonToPath(points: string) returns (d: string)
    ensures d == PolygonPath(points)
  {
    var arr := CollectTokens(points);
    if |arr| % 2 == 0 {
      d := JoinPairs(arr);
    } else {
      d := "";
    }
  }

  /** The second half of `polygonToPath`: `M` to the first pair, `L` to
      each later one, then `z`. */
  method JoinPairs(arr: seq<string>) returns (d: string)
    requires |arr| % 2 == 0
    ensures d == PointsPath(arr)
  {
    d := "";
    var k := 0;
    while k < |arr|
      invariant 0 <= k <= |arr| && k % 2 == 0
      invariant d == Pairs(arr[..k])
    {
      assert arr[..k + 2][..k] == arr[..k];
      d := d + (if k == 0 then "M" else "L");
      d := d + arr[k] + "," + arr[k + 1] + "";
      k := k + 2;
    }
    assert arr[..k] == arr;
    d := d + "z";
  }

  /** An odd number of tokens gives no path. */
  lemma PolygonOddIsEmpty(points: string)
    requires |Tokens(points)| % 2 == 1
    ensures PolygonPath(points) == ""
  {
  }

  lemma {:induction false} NonEmptyKeeps(parts: seq<string>)
    requires forall i :: 0 <= i < |parts| ==> parts[i] != ""
    ensures NonEmpty(parts) == parts
  {
    if parts != [] {
      var init := parts[..|parts| - 1];
      var last := parts[|parts| - 1];
      NonEmptyKeeps(init);
      assert NonEmpty(parts) == init + [last];
      assert init + [last] == parts;
    }
  }

  /** A coordinate token: not empty, no white space and no comma. */
  predicate IsToken(t: string)
  {
    t != "" && forall i :: 0 <= i < |t| ==> t[i] != ',' && !IsSpace(t[i])
  }

  /** Tokens written with single blanks between them are read back as they
      were written. */
  lemma {:induction false} TokensOfBlankSeparated(t: seq<string>)
    requires |t| >= 1 && forall i :: 0 <= i < |t| ==> IsToken(t[i])
    ensures Tokens(Join(t, ' ')) == t
  {
    var s := Join(t, ' ');
    assert forall i :: 0 <= i < |t| ==> ' ' !in t[i] by {
      forall i | 0 <= i < |t| ensures ' ' !in t[i] {
        assert forall j :: 0 <= j < |t[i]| ==> t[i][j] != ' ';
      }
    }
    JoinChars(t, ' ');
    assert Trim(s) == s by {
      JoinEnds(t, ' ');
      TrimNoop(s);
    }
    assert ',' !in s;
    SplitNone(s, ',');
    JoinSplit(t, ' ');
    NonEmptyKeeps(t);
    assert TokensOf([s]) == TokensOf([]) + NonEmpty(Split(s, ' '));
  }

  /** Every character of `Join(t, c)` is `c` or a character of a part. */
  lemma {:induction false} JoinChars(t: seq<string>, c: char)
    requires forall i :: 0 <= i < |t| ==> IsToken(t[i])
    requires c == ' '
    ensures ',' !in Join(t, c)
  {
    if |t| > 1 {
      JoinChars(t[1..], c);
      assert forall j :: 0 <= j < |t[0]| ==> t[0][j] != ',';
    } else if |t| == 1 {
      assert forall j :: 0 <= j < |t[0]| ==> t[0][j] != ',';
    }
  }

  /** `Join(t, c)` neither starts nor ends in white space. */
  lemma {:induction false} JoinEnds(t: seq<string>, c: char)
    requires |t| >= 1 && forall i :: 0 <= i < |t| ==> IsToken(t[i])
    ensures var s := Join(t, c); s != [] && !IsSpace(s[0]) && !IsSpace(s[|s| - 1])
  {
    assert IsToken(t[0]);
    if |t| > 1 {
      JoinEnds(t[1..], c);
      var s := Join(t, c);
      assert s == t[0] + [c] + Join(t[1..], c);
    }
  }

  /** `polygonToPath` of blank-separated tokens: a path through them when
      there is an even number of them, `""` otherwise. */
  lemma PolygonOfTokens(t: seq<string>)
    requires |t| >= 1 && forall i :: 0 <= i < |t| ==> IsToken(t[i])
    ensures |t| % 2 == 0 ==> PolygonPath(Join(t, ' ')) == Seg("M", t[0], t[1]) + Lines(t[2..]) + "z"
    ensures |t| % 2 == 1 ==> PolygonPath(Join(t, ' ')) == ""
  {
    TokensOfBlankSeparated(t);
    PolygonPathOf(Join(t, ' '), t);
    if |t| % 2 == 0 {
      PairsAreMoveThenLines(t);
    }
  }

  lemma PolygonPathOf(points: string, t: seq<string>)
    requires Tokens(points) == t
    ensures |t| % 2 == 0 ==> PolygonPath(points) == PointsPath(t)
    ensures |t| % 2 == 1 ==> PolygonPath(points) == ""
  {
  }

  // ---------------------------------------------------------------------------
  // rectToPath and circleToPath
  // ---------------------------------------------------------------------------

  /** `rectToPath(x, y, width, height, rx, ry)`: the four corners when both
      radii are 0, otherwise lines and quadratic corners. */
  function RectToPath(x: int, y: int, width: int, height: int, rx: int, ry: int): string
  {
    if rx == 0 && ry == 0 then
      Seg("M", S(x), S(y)) + Seg("L", S(x + width), S(y)) + Seg("L", S(x + width), S(y + height))
      + Seg("L", S(x), S(y + height)) + "z"
    else
      Seg("M", S(x + rx), S(y)) + ","
      + Seg("L", S(x + width - rx), S(y)) + ","
      + Seg("Q", S(x + width), S(y)) + "," + S(x + width) + "," + S(y + ry) + ","
      + Seg("L", S(x + width), S(y + height - ry)) + ","
      + Seg("Q", S(x + width), S(y + height)) + "," + S(x + width - rx) + "," + S(y + height) + ","
      + Seg("L", S(x + rx), S(y + height)) + ","
      + Seg("Q", S(x), S(y + height)) + "," + S(x) + "," + S(y + height - ry) + ","
      + Seg("L", S(x), S(y + ry)) + ","
      + Seg("Q", S(x), S(y)) + "," + S(x + rx) + "," + S(y) + "z"
  }

  /** A rectangle without rounding is the closed path through its corners
      (x,y), (x+w,y), (x+w,y+h) and (x,y+h), in that order. */
  lemma RectIsCornerPath(x: int, y: int, w: int, h: int)
    ensures RectToPath(x, y, w, h, 0, 0) ==
      PointsPath([S(x), S(y), S(x + w), S(y), S(x + w), S(y + h), S(x), S(y + h)])
  {
    var t := [S(x), S(y), S(x + w), S(y), S(x + w), S(y + h), S(x), S(y + h)];
    FourPairs(S(x), S(y), S(x + w), S(y), S(x + w), S(y + h), S(x), S(y + h));
    assert PointsPath(t) == Pairs(t) + "z";
  }

  /** `Pairs` of four coordinate pairs: one move and three lines. */
  lemma FourPairs(a: string, b: string, c: string, d: string, e: string, f: string, g: string, h: string)
    ensures Pairs([a, b, c, d, e, f, g, h]) == Seg("M", a, b) + Seg("L", c, d) + Seg("L", e, f) + Seg("L", g, h)
  {
    var t := [a, b, c, d, e, f, g, h];
    var t2 := t[..2];
    var t4 := t[..4];
    var t6 := t[..6];
    assert Pairs(t2) == Seg("M", a, b) by { assert t2[..0] == []; }
    assert Pairs(t4) == Seg("M", a, b) + Seg("L", c, d) by { assert t4[..2] == t2; }
    assert Pairs(t6) == Seg("M", a, b) + Seg("L", c, d) + Seg("L", e, f) by { assert t6[..4] == t4; }
    assert t[..6] == t6;
  }

  /** The opening of a relative arc command of radius `r`. */
  function ArcHead(r: int): string { "a" + S(r) + "," + S(r) + " 0 0,1 " }

  /** `circleToPath(cx, cy, r)`: a move to the left end of the circle and two
      half-circle arcs. */
  function CircleToPath(cx: int, cy: int, r: int): string
  {
    Seg("M", S(cx - r), S(cy)) + ArcHead(r) + S(r * 2) + ",0" + ArcHead(r) + "-" + S(r * 2) + ",0z"
  }

  /** A relative half-circle arc of radius `r` ending `dx` to the side. */
  function HalfArc(r: int, dx: int): string
  {
    ArcHead(r) + S(dx) + ",0"
  }

  /** For a positive radius the second arc goes back exactly as far as the
      first went forward, so the path ends where it started. */
  lemma CircleArcsReturn(cx: int, cy: int, r: int)
    requires r > 0
    ensures CircleToPath(cx, cy, r) == Seg("M", S(cx - r), S(cy)) + HalfArc(r, 2 * r) + HalfArc(r, -2 * r) + "z"
  {
    var d := S(r * 2);
    assert S(-2 * r) == "-" + d;
    ArcsRegrouped(Seg("M", S(cx - r), S(cy)), ArcHead(r), d);
  }

  lemma ArcsRegrouped(m: string, h: string, d: string)
    ensures m + h + d + ",0" + h + "-" + d + ",0z" == m + (h + d + ",0") + (h + ("-" + d) + ",0") + "z"
  {
    assert ",0z" == ",0" + "z";
  }

  /** A zero radius writes `-0` in the second arc. */
  lemma CircleZeroRadius(cx: int, cy: int)
    ensures CircleToPath(cx, cy, 0) == Seg("M", S(cx), S(cy)) + "a0,0 0 0,1 0,0a0,0 0 0,1 -0,0z"
  {
  }
}
