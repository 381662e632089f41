/** The SVG 1.0 colour keyword table (svgColorKeywordsToHex). The lookup is
    case-sensitive and every entry is `#` followed by six lower-case hex
    digits; an unknown keyword, the empty string included, gives black.
    The single switch of the source is split by first letter so that each
    part can be checked on its own; the mapping is the same. */
module ColorKeywords {
  import opened JsText

  const Black := "#000000"

  /** `#` followed by six lower-case hexadecimal digits. */
  predicate IsLowerHexColor(s: string)
  {
    |s| == 7 && s[0] == '#' && forall i :: 1 <= i < 7 ==> IsHexDigit(s[i]) && !('A' <= s[i] <= 'Z')
  }

  /** `svgColorKeywordsToHex(keyword)` */
  function KeywordToHex(keyword: string): (hex: string)
    ensures IsLowerHexColor(hex)
  {
    if keyword == "" then Black
    else match keyword[0]
      case 'a' => KeywordsA(keyword)
      case 'b' => KeywordsB(keyword)
      case 'c' => KeywordsC(keyword)
      case 'd' => KeywordsD(keyword)
      case 'f' => KeywordsF(keyword)
      case 'g' => KeywordsG(keyword)
      case 'h' => KeywordsH(keyword)
      case 'i' => KeywordsI(keyword)
      case 'k' => KeywordsK(keyword)
      case 'l' => KeywordsL(keyword)
      case 'm' => KeywordsM(keyword)
      case 'n' => KeywordsN(keyword)
      case 'o' => KeywordsO(keyword)
      case 'p' => KeywordsP(keyword)
      case 'r' => KeywordsR(keyword)
      case 's' => KeywordsS(keyword)
      case 't' => KeywordsT(keyword)
      case 'v' => KeywordsV(keyword)
      case 'w' => KeywordsW(keyword)
      case 'y' => KeywordsY(keyword)
      case _ => Black
  }

  function KeywordsA(keyword: string): (hex: string)
    ensures IsLowerHexColor(hex)
  {
    match keyword
    case "aliceblue" => "#f0f8ff"
    case "antiquewhite" => "#faebd7"
    case "aqua" => "#00ffff"
    case "aquamarine" => "#7fffd4"
    case "azure" => "#f0ffff"
    case _ => Black
  }

  function KeywordsB(keyword: string): (hex: string)
    ensures IsLowerHexColor(hex)
  {
    match keyword
    case "beige" => "#f5f5dc"
    case "bisque" => "#ffe4c4"
    case "black" => "#000000"
    case "blanchedalmond" => "#ffebcd"
    case "blue" => "#0000ff"
    case "blueviolet" => "#8a2be2"
    case "brown" => "#a52a2a"
    case "burlywood" => "#deb887"
    case _ => Black
  }

  function KeywordsC(keyword: string): (hex: string)
    ensures IsLowerHexColor(hex)
  {
    match keyword
    case "cadetblue" => "#5f9ea0"
    case "chartreuse" => "#7fff00"
    case "chocolate" => "#d2691e"
    case "coral" => "#ff7f50"
    case "cornflowerblue" => "#6495ed"
    case "cornsilk" => "#fff8dc"
    case "crimson" => "#dc143c"
    case "cyan" => "#00ffff"
    case _ => Black
  }

  function KeywordsD(keyword: string): (hex: string)
    ensures IsLowerHexColor(hex)
  {
    match keyword
    case "darkblue" => "#00008b"
    case "darkcyan" => "#008b8b"
    case "darkgoldenrod" => "#b8860b"
    case "darkgray" => "#a9a9a9"
    case "darkgreen" => "#006400"
    case "darkgrey" => "#a9a9a9"
    case "darkkhaki" => "#bdb76b"
    case "darkmagenta" => "#8b008b"
    case "darkolivegreen" => "#556b2f"
    case "darkorange" => "#ff8c00"
    case "darkorchid" => "#9932cc"
    case "darkred" => "#8b0000"
    case "darksalmon" => "#e9967a"
    case "darkseagreen" => "#8fbc8f"
    case "darkslateblue" => "#483d8b"
    case "darkslategray" => "#2f4f4f"
    case "darkslategrey" => "#2f4f4f"
    case "darkturquoise" => "#00ced1"
    case "darkviolet" => "#9400d3"
    case "deeppink" => "#ff1493"
    case "deepskyblue" => "#00bfff"
    case "dimgray" => "#696969"
    case "dimgrey" => "#696969"
    case "dodgerblue" => "#1e90ff"
    case _ => Black
  }

  function KeywordsF(keyword: string): (hex: string)
    ensures IsLowerHexColor(hex)
  {
    match keyword
    case "firebrick" => "#b22222"
    case "floralwhite" => "#fffaf0"
    case "forestgreen" => "#228b22"
    case "fuchsia" => "#ff00ff"
    case _ => Black
  }

  function KeywordsG(keyword: string): (hex: string)
    ensures IsLowerHexColor(hex)
  {
    match keyword
    case "gainsboro" => "#dcdcdc"
    case "ghostwhite" => "#f8f8ff"
    case "gold" => "#ffd700"
    case "goldenrod" => "#daa520"
    case "gray" => "#808080"
    case "green" => "#008000"
    case "greenyellow" => "#adff2f"
    case "grey" => "#808080"
    case _ => Black
  }

  function KeywordsH(keyword: string): (hex: string)
    ensures IsLowerHexColor(hex)
  {
    match keyword
    case "honeydew" => "#f0fff0"
    case "hotpink" => "#ff69b4"
    case _ => Black
  }

  function KeywordsI(keyword: string): (hex: string)
    ensures IsLowerHexColor(hex)
  {
    match keyword
    case "indianred" => "#cd5c5c"
    case "indigo" => "#4b0082"
    case "ivory" => "#fffff0"
    case _ => Black
  }

  function KeywordsK(keyword: string): (hex: string)
    ensures IsLowerHexColor(hex)
  {
    match keyword
    case "khaki" => "#f0e68c"
    case _ => Black
  }

  function KeywordsL(keyword: string): (hex: string)
    ensures IsLowerHexColor(hex)
  {
    match keyword
    case "lavender" => "#e6e6fa"
    case "lavenderblush" => "#fff0f5"
    case "lawngreen" => "#7cfc00"
    case "lemonchiffon" => "#fffacd"
    case "lightblue" => "#add8e6"
    case "lightcoral" => "#f08080"
    case "lightcyan" => "#e0ffff"
    case "lightgoldenrodyellow" => "#fafad2"
    case "lightgray" => "#d3d3d3"
    case "lightgreen" => "#90ee90"
    case "lightgrey" => "#d3d3d3"
    case "lightpink" => "#ffb6c1"
    case "lightsalmon" => "#ffa07a"
    case "lightseagreen" => "#20b2aa"
    case "lightskyblue" => "#87cefa"
    case "lightslategray" => "#778899"
    case "lightslategrey" => "#778899"
    case "lightsteelblue" => "#b0c4de"
    case "lightyellow" => "#ffffe0"
    case "lime" => "#00ff00"
    case "limegreen" => "#32cd32"
    case "linen" => "#faf0e6"
    case _ => Black
  }

  function KeywordsM(keyword: string): (hex: string)
    ensures IsLowerHexColor(hex)
  {
    match keyword
    case "magenta" => "#ff00ff"
    case "maroon" => "#800000"
    case "mediumaquamarine" => "#66cdaa"
    case "mediumblue" => "#0000cd"
    case "mediumorchid" => "#ba55d3"
    case "mediumpurple" => "#9370db"
    case "mediumseagreen" => "#3cb371"
    case "mediumslateblue" => "#7b68ee"
    case "mediumspringgreen" => "#00fa9a"
    case "mediumturquoise" => "#48d1cc"
    case "mediumvioletred" => "#c71585"
    case "midnightblue" => "#191970"
    case "mintcream" => "#f5fffa"
    case "mistyrose" => "#ffe4e1"
    case "moccasin" => "#ffe4b5"
    case _ => Black
  }

  function KeywordsN(keyword: string): (hex: string)
    ensures IsLowerHexColor(hex)
  {
    match keyword
    case "navajowhite" => "#ffdead"
    case "navy" => "#000080"
    case _ => Black
  }

  function KeywordsO(keyword: string): (hex: string)
    ensures IsLowerHexColor(hex)
  {
    match keyword
    case "oldlace" => "#fdf5e6"
    case "olive" => "#808000"
    case "olivedrab" => "#6b8e23"
    case "orange" => "#ffa500"
    case "orangered" => "#ff4500"
    case "orchid" => "#da70d6"
    case _ => Black
  }

  function KeywordsP(keyword: string): (hex: string)
    ensures IsLowerHexColor(hex)
  {
    match keyword
    case "palegoldenrod" => "#eee8aa"
    case "palegreen" => "#98fb98"
    case "paleturquoise" => "#afeeee"
    case "palevioletred" => "#db7093"
    case "papayawhip" => "#ffefd5"
    case "peachpuff" => "#ffdab9"
    case "peru" => "#cd853f"
    case "pink" => "#ffc0cb"
    case "plum" => "#dda0dd"
    case "powderblue" => "#b0e0e6"
    case "purple" => "#800080"
    case _ => Black
  }

  function KeywordsR(keyword: string): (hex: string)
    ensures IsLowerHexColor(hex)
  {
    match keyword
    case "red" => "#ff0000"
    case "rosybrown" => "#bc8f8f"
    case "royalblue" => "#4169e1"
    case _ => Black
  }

  function KeywordsS(keyword: string): (hex: string)
    ensures IsLowerHexColor(hex)
  {
    match keyword
    case "saddlebrown" => "#8b4513"
    case "salmon" => "#fa8072"
    case "sandybrown" => "#f4a460"
    case "seagreen" => "#2e8b57"
    case "seashell" => "#fff5ee"
    case "sienna" => "#a0522d"
    case "silver" => "#c0c0c0"
    case "skyblue" => "#87ceeb"
    case "slateblue" => "#6a5acd"
    case "slategray" => "#708090"
    case "slategrey" => "#708090"
    case "snow" => "#fffafa"
    case "springgreen" => "#00ff7f"
    case "steelblue" => "#4682b4"
    case _ => Black
  }

  function KeywordsT(keyword: string): (hex: string)
    ensures IsLowerHexColor(hex)
  {
    match keyword
    case "tan" => "#d2b48c"
    case "teal" => "#008080"
    case "thistle" => "#d8bfd8"
    case "tomato" => "#ff6347"
    case "turquoise" => "#40e0d0"
    case _ => Black
  }

  function KeywordsV(keyword: string): (hex: string)
    ensures IsLowerHexColor(hex)
  {
    match keyword
    case "violet" => "#ee82ee"
    case _ => Black
  }

  function KeywordsW(keyword: string): (hex: string)
    ensures IsLowerHexColor(hex)
  {
    match keyword
    case "wheat" => "#f5deb3"
    case "white" => "#ffffff"
    case "whitesmoke" => "#f5f5f5"
    case _ => Black
  }

  function KeywordsY(keyword: string): (hex: string)
    ensures IsLowerHexColor(hex)
  {
    match keyword
    case "yellow" => "#ffff00"
    case "yellowgreen" => "#9acd32"
    case _ => Black
  }

  /** Keywords are matched exactly: the empty string and a capitalised name fall back to black. */
  lemma KeywordLookupIsCaseSensitive()
    ensures KeywordToHex("red") == "#ff0000"
    ensures KeywordToHex("Red") == Black
    ensures KeywordToHex("") == Black
  {
  }
}
