# svg2vectordrawable in Dafny

This project models svg2vectordrawable, which turns SVG images into Android
VectorDrawable XML, and proves properties of the model. The repository has
two converters. Both are modelled.

- **`svg2vectordrawable.js`** is the converter the command line calls. It
  walks the tree that node-xml-lite parses (`svg2vectorDrawableContent`,
  `travel`) and appends VectorDrawable text to one string. Along the way it:
  - resolves each shape property through a cascade: group values, class
    rules of the style sheet, the inline `style`, then presentation
    attributes;
  - formats colours (`formatColor`, `numberToHex`, `precentToHex` and the
    SVG 1.0 keyword table);
  - scales the output size by the screen density (`densityToRatio`).

  It also has three standalone path builders: `rectToPath`, `polygonToPath`
  and `circleToPath`.
- **`lib/js2vectordrawable.js`**, the `JS2XML` object, rewrites an svgo tree
  and then prints it. The rewrite (`refactorData`) has four passes:
  - it turns gradients into `<aapt:attr>` blocks, filling in their default
    coordinates and making them absolute;
  - it elides `<g>` elements or keeps them as `<group>`, pushing fill, fill
    rule and opacity down to the children;
  - it turns `<svg>` into `<vector>` and reads the sizes;
  - it renames path attributes to their Android names.

  The printer (`convert`, `travelConvert`, `createElement`, `createAttrs`,
  `createIndent`) indents by a level counter it keeps on the object.

## How the model is built

- **JavaScript values:**
  - `JsNumber.JsNum` covers NaN, the two infinities and exact reals.
  - `JsNumber.JsValue` covers `undefined`, strings and numbers.
  - Conversions are written out explicitly: truthiness and `||`,
    `Math.round` (the floor of `x + 1/2`), `Math.ceil`, `parseInt`,
    `parseFloat`, `Number()`, `String()` and `toString(16)`.
- **Regular expressions:** each one is a predicate on positions, with the
  same unanchored behaviour. For example, `Color.Hex3At` matches
  `/#[0-9A-Fa-f]{3}/` at index `i`.
- **Exceptions:** `Wrappers.Result` has an `Ok` case and a `Throws` case.
  `Throws` models a `TypeError` the source lets escape, or one its
  `try/catch` stops.
- **The two trees:**
  - the node-xml-lite tree is `XmlTree.XNode`: text, or an element with a
    name, an attribute map and children;
  - the svgo tree is `SvgoTree.Node`: an element with a tag, an ordered
    attribute list and content, or another node. A node's place in the tree
    is given by its address, the list of child indices from the root.
- **Code that changes state is imperative Dafny, proved against
  specification functions:**
  - `Converter.Emitter` holds the output string of `travel`. Its `Travel`
    method loops over siblings and recurses into groups, and is proved equal
    to `Converter.TravelFrom`.
  - `Js2Xml.JS2XML` holds the object's fields, `indentLevel` among them.
    `TravelConvert` and `CreateElement` are proved to print
    `Js2Xml.ContentText` and `Js2Xml.ElementText`, and to leave the level
    as they found it.
  - The loops of `getStyle`, `repeatString`, `polygonToPath`,
    `adjustGradientCoordinate`, the colour stops and `createAttrs` are
    methods with loop invariants.
- **Rewriting the svgo tree:** the passes of `refactorData` are functions
  from tree to tree.

## Model

| member | source | states |
|---|---|---|
| JsNumber.Round | svg2vectordrawable.js:583 | `Math.round` gives a whole number within one half of its argument; NaN and the infinities pass through |
| JsNumber.Ceil | svg2vectordrawable.js:53-54 | `Math.ceil` gives the least whole number not below its argument |
| JsNumber.ParseInt | svg2vectordrawable.js:514 | `parseInt` gives NaN or a whole number |
| JsNumber.HexDigits | svg2vectordrawable.js:574 | the hex digits of n read back as n; one digit exactly below 16, two exactly from 16 to 255; all lower case |
| JsNumber.Or | svg2vectordrawable.js:189-190 | the logical or gives its left operand when that is truthy and its right operand otherwise |
| JsText.ToUpper | svg2vectordrawable.js:550 | `toUpperCase` keeps the length and maps each ASCII letter to upper case |
| JsText.ReplaceFirst | svg2vectordrawable.js:222 | `replace` with a literal pattern replaces its first occurrence only, and nothing when there is none |
| JsText.SplitJoin | svg2vectordrawable.js:1143-1146 | joining the pieces of `split(c)` with `c` gives back the text |
| JsText.JoinSplit | svg2vectordrawable.js:1143-1146 | splitting a join of pieces without `c` gives back the pieces |
| JsText.Trim | svg2vectordrawable.js:1142 | `trim` gives the substring left once the white space at both ends is removed: it neither starts nor ends with white space, and everything cut off is white space |
| Color.NumberToHexTwoDigits | svg2vectordrawable.js:573-579 | for 0 to 255, `numberToHex` gives exactly two upper-case hex digits that read back as the number, with a leading `0` below 16 |
| Color.PercentToHexEnds | svg2vectordrawable.js:582-584 | `precentToHex(0)` is `00` and `precentToHex(100)` is `FF` |
| Color.PercentToHexChannel | svg2vectordrawable.js:582-584 | for 0 to 100, `precentToHex(p)` is two upper-case digits reading back as `round(p * 255 / 100)` |
| Color.FormatColorHex6Idempotent | svg2vectordrawable.js:549-551 | text holding `#RRGGBB` comes back upper-cased, so `formatColor` is idempotent on it |
| Color.FormatColorExpandsShortHex | svg2vectordrawable.js:552-555 | `#RGB` becomes `#RRGGBB`, upper-cased |
| Color.FormatColorRgb | svg2vectordrawable.js:556-560 | `rgb(r,g,b)` with channels 0 to 255 becomes `#` followed by `numberToHex` of each channel |
| Color.FormatColorRgbPercent | svg2vectordrawable.js:561-565 | `rgb(r%,g%,b%)` with shares 0 to 100 becomes `#` followed by `round(p * 255 / 100)` of each channel in hex |
| Color.FormatColorOfDigits | svg2vectordrawable.js:556-565 | both `rgb` forms written with decimal digits decode to the numbers written |
| Color.FormatColorKeyword | svg2vectordrawable.js:566-567 | a lower-case word that does not start with `rgb` is looked up in the keyword table |
| Color.FormatColorEmpty | svg2vectordrawable.js:566-567 | the empty string is an unknown keyword and gives `#000000` |
| Color.FormatColorUnmatched | svg2vectordrawable.js:566-569 | text that starts with `#` or `rgb` but matches no pattern gives `''` |
| Color.FormatColorUnmatchedExample | svg2vectordrawable.js:566-569 | `#12` gives `''` |
| ColorKeywords.KeywordToHex | svg2vectordrawable.js:587-1035 | every keyword, and every unknown text, maps to `#` and six lower-case hex digits |
| ColorKeywords.KeywordsR | svg2vectordrawable.js:587-1035 | each part of the table gives a well-formed lower-case colour |
| StyleSheet.ScanStyles | svg2vectordrawable.js:1068-1079 | the loop of `getStyle`'s inner function `t`, recursion included, computes `ScanFrom` |
| StyleSheet.GetStyle | svg2vectordrawable.js:1065-1081 | `getStyle` gives the sheet the scan leaves, or `None` when the scan throws |
| StyleSheet.ScanFindsLastStyle | svg2vectordrawable.js:1065-1081 | when every `style` element has children, the result is the sheet of the last `style` element in scan order (children before their parent) |
| StyleSheet.NoStyleElementNoSheet | svg2vectordrawable.js:1065-1081 | without `style` elements the sheet is `''` |
| StyleSheet.TopLevelEmptyStyleThrows | svg2vectordrawable.js:1076-1078 | a childless top-level `style` element makes `getStyle` throw |
| StyleSheet.SheetMissing | svg2vectordrawable.js:1083-1101 | a sheet without `{`, `:` or `;` gives `''` for every selector and property |
| StyleSheet.InlineMissing | svg2vectordrawable.js:1103-1117 | an inline style without `:` or `;` gives `''` |
| StyleSheet.PropertyInMissing | svg2vectordrawable.js:1092-1094 | no `prop:`, or no `;` after it, gives `''` |
| StyleSheet.InlineReadsDeclaration | svg2vectordrawable.js:1103-1117 | an inline style starting with `prop:v;` gives `v`, whatever follows |
| StyleSheet.ValueOfFraction | svg2vectordrawable.js:1097-1099 | a value written `.digits` becomes that number |
| StyleSheet.MatchRuleFrom | svg2vectordrawable.js:1091 | the matched rule ends in `}` and stays on one line |
| StyleSheet.MatchRuleLeftmost | svg2vectordrawable.js:1091 | the match is the leftmost `sel{` whose line holds a `}`, running to the last `}` of that line |
| StyleSheet.MatchRuleNone | svg2vectordrawable.js:1091 | with no such position the match fails, so the value is `''` |
| StyleSheet.ClassRuleFound | svg2vectordrawable.js:1083-1101 | a sheet `.cls{prop:v;}` gives `v` for that class and property, as a number when it is written `.digits` |
| Viewport.DensityToRatio | svg2vectordrawable.js:511-545 | a density that `parseInt` reads as a number gives that number over 160 |
| Viewport.DensityBuckets | svg2vectordrawable.js:514-541 | ldpi to xxxhdpi give 120, 160, 240, 320, 480 and 640 over 160; `nodpi` and every other name give 1 |
| Viewport.DensityOfWord | svg2vectordrawable.js:514-541 | a density written as a word is looked up by name |
| Viewport.DensityOfDpi | svg2vectordrawable.js:542-545 | a density given as a number, in digits or as a value, is that number over 160 |
| Viewport.OutputSizeScales | svg2vectordrawable.js:53-54 | the output size is `ceil(size * 160 / dpi)` |
| Viewport.OutputSizeUnscaled | svg2vectordrawable.js:49-54 | `nodpi` or an unknown name keeps a whole size as it is |
| Viewport.ViewportIgnoresDensity | svg2vectordrawable.js:37-54 | the viewport is the same at every density |
| Viewport.HeaderDefaults | svg2vectordrawable.js:20-54 | without `viewBox`, `width` and `height`, size and viewport are 24 by 24 |
| Viewport.HeaderFromViewBox | svg2vectordrawable.js:25-54 | with `viewBox="x y w h"` the viewport is `w` by `h`, whatever `width` and `height` say |
| Viewport.HeaderFromSize | svg2vectordrawable.js:25-54 | `width` and `height` give the scaled size and, without `viewBox`, the unscaled viewport |
| Viewport.ViewBoxPart | svg2vectordrawable.js:28 | `viewBox.split(' ')[k]` is `undefined` exactly when there are at most k pieces |
| PathBuilders.PolygonToPath | svg2vectordrawable.js:1141-1164 | `polygonToPath` computes `PolygonPath` |
| PathBuilders.CollectTokens | svg2vectordrawable.js:1142-1151 | the first two loops collect the non-empty pieces of each comma-separated chunk, in order |
| PathBuilders.PushNonEmpty | svg2vectordrawable.js:1145-1150 | the inner loop appends the non-empty pieces, in order |
| PathBuilders.JoinPairs | svg2vectordrawable.js:1152-1159 | the output loop writes `M` to the first pair, `L` to each later pair, then `z` |
| PathBuilders.PolygonOddIsEmpty | svg2vectordrawable.js:1152-1163 | an odd number of tokens gives `""` |
| PathBuilders.PairsAreMoveThenLines | svg2vectordrawable.js:1154-1158 | the path moves to the first pair and draws a line to each later pair, in order |
| PathBuilders.PolygonOfTokens | svg2vectordrawable.js:1141-1164 | blank-separated tokens give a path through them when their number is even, `""` when odd |
| PathBuilders.TokensOfBlankSeparated | svg2vectordrawable.js:1142-1151 | tokens written with single blanks between them are read back exactly |
| PathBuilders.RectIsCornerPath | svg2vectordrawable.js:1123-1127 | with `rx = ry = 0`, `rectToPath` is the closed path through (x,y), (x+w,y), (x+w,y+h), (x,y+h) |
| PathBuilders.CircleArcsReturn | svg2vectordrawable.js:1166-1172 | for r > 0, `circleToPath` moves to (cx-r, cy) and draws two half arcs, 2r forward and 2r back |
| PathBuilders.CircleZeroRadius | svg2vectordrawable.js:1166-1172 | a zero radius writes `-0` in the second arc |
| Converter.RepeatString | svg2vectordrawable.js:1041-1047 | the loop appends `str` `num * 4` times (no times when `num` is not positive) |
| Converter.PadIsFourBlanksPerLevel | svg2vectordrawable.js:1041-1047 | indentation is four blanks per depth |
| Converter.CascadePrecedence | svg2vectordrawable.js:194-217 | a presentation attribute wins; otherwise a truthy inline value, then a truthy class-rule value, then the starting value |
| Converter.InlineDeclarationWins | svg2vectordrawable.js:203-210 | an inline `prop:v;` beats the class rule and the group |
| Converter.GroupAttrs | svg2vectordrawable.js:77-175 | a group's record has an entry for every property a group passes on |
| Converter.GroupValueSources | svg2vectordrawable.js:77-175 | a group passes on a property only when its own attribute, inline style or class rule sets it; its attribute always wins |
| Converter.ShapeInheritsGroup | svg2vectordrawable.js:189-217 | a shape takes the group's truthy value for a property it does not set itself |
| Converter.FillAlphaPrefix | svg2vectordrawable.js:219-222 | an opacity below 1 gives `#`, the alpha byte `round(opacity * 255)` in upper-case hex, then the six digits of the formatted colour |
| Converter.AlphaByte | svg2vectordrawable.js:220 | `precentToHex(opacity * 100)` is `round(opacity * 255)` as two upper-case hex digits |
| Converter.NoneFillWritesNoColor | svg2vectordrawable.js:223-232 | without a visible opacity, a fill of `none` in any letter case writes no `fillColor` |
| Converter.MissingFillIsBlack | svg2vectordrawable.js:225-232 | a shape without a fill is filled `#000000` |
| Converter.NoStrokeNoStrokeLines | svg2vectordrawable.js:276-398 | without a stroke (`''` or `none`) no stroke line is written |
| Converter.StrokeWidthDefaultsToOne | svg2vectordrawable.js:304-329 | with a stroke, `strokeColor` comes first and `strokeWidth` always follows, `"1"` when none is given |
| Converter.EvenOddOnlyForEvenodd | svg2vectordrawable.js:400-421 | `fillType="evenOdd"` is written exactly when the rule is `evenodd` |
| Converter.AttrLinesConcat | svg2vectordrawable.js:186-445 | the attribute lines of a shape are written in order |
| Converter.Emitter.Travel | svg2vectordrawable.js:67-449 | `travel` appends exactly `TravelFrom(obj, 0)` to the output |
| Converter.Emitter.Visit | svg2vectordrawable.js:72-446 | one pass of the sibling loop appends its sibling's part, or ends the frame on a `TypeError` |
| Converter.Emitter.VisitGroup | svg2vectordrawable.js:75-182 | a group resets `groupAttrs` and writes `<group>` around its children, except when its first child is a line break |
| Converter.Emitter.VisitShape | svg2vectordrawable.js:184-446 | a shape appends its `<path>` element |
| Converter.Emitter.EmitShape | svg2vectordrawable.js:186-445 | a shape's `<path`, its attribute lines in the source's order, then its path data unless a `TypeError` came first |
| Converter.Emitter.EmitFill | svg2vectordrawable.js:188-255 | the fill lines are written, or nothing when formatting throws |
| Converter.Emitter.EmitStroke | svg2vectordrawable.js:257-398 | the stroke lines are written, or nothing when formatting throws |
| Converter.Emitter.EmitStrokeDetails | svg2vectordrawable.js:281-398 | alpha, width, join, miter limit and cap follow the stroke colour, each only while a stroke is given |
| Converter.EmissionParts | svg2vectordrawable.js:186-445 | the attribute lines do not depend on the path data, and the path data is written exactly when no `TypeError` came first |
| Converter.TravelShapeStep | svg2vectordrawable.js:184-446 | `travel` over a shape writes the shape, then the rest of the siblings unless it threw |
| Converter.TravelGroupStep | svg2vectordrawable.js:75-182 | `travel` over a group: a childless group ends the frame; a line-break first child skips it; otherwise `<group>` around its children, then the rest |
| Converter.Svg2VectorDrawableContent | svg2vectordrawable.js:14-457 | the whole conversion of a parsed root equals `Content`: the header, what `travel` appends and `</vector>` |
| Converter.WriteDocument | svg2vectordrawable.js:56-65 | the document is the header, then `travel` of the root's children, then `</vector>` |
| SvgoTree.AddAttr | lib/js2vectordrawable.js:77 | `addAttr` sets the value, overwrites an existing name where it stands and appends a new one last, leaving the others alone |
| SvgoTree.RemoveAttr | lib/js2vectordrawable.js:70 | `removeAttr` removes the name and keeps every other attribute |
| SvgoTree.RemoveAttrValue | lib/js2vectordrawable.js:212 | `removeAttr(name, val)` removes the attribute only when it holds `val` |
| SvgoTree.AddAttrSame | lib/js2vectordrawable.js:77 | adding an attribute's own value changes nothing |
| SvgoTree.FirstNamed | lib/js2vectordrawable.js:110 | `querySelector` finds an element exactly when the name occurs, and what it finds has that name |
| SvgoTree.FindEmpty | lib/js2vectordrawable.js:48-49 | `querySelectorAll` by tag names finds nothing exactly when none of the names occurs |
| SvgoTree.FindSound | lib/js2vectordrawable.js:52 | every address `querySelectorAll` reports leads to a matching node |
| SvgoTree.ReplaceAtRead | lib/js2vectordrawable.js:139 | a node written at an address is read back there |
| SvgoTree.ReplaceAtElsewhere | lib/js2vectordrawable.js:55 | writing at one address leaves every address that parts ways with it unchanged |
| ColorMerge.MergeColorAndOpacityAsWritten | lib/js2vectordrawable.js:380-390 | as written, the result is two characters longer than the colour unless the unanchored `#RGB` test fired |
| ColorMerge.AsWrittenTurnsRedYellow | lib/js2vectordrawable.js:381-383 | as written, `#FF0000` at opacity 1 gives `#FFFFFF00`; the anchored test gives `#FFFF0000` |
| ColorMerge.AsWrittenRebuildsSixDigits | lib/js2vectordrawable.js:381-383 | as written, every `#RRGGBB` is rebuilt from its first three digits |
| ColorMerge.AsWrittenAgreesOutsideBug | lib/js2vectordrawable.js:380-390 | on a colour without `#` and three hex digits, and on an exact `#RGB`, the source's merge and the anchored one agree |
| ColorMerge.MergeColorAndOpacity | lib/js2vectordrawable.js:380-390 | the merged colour is at least two characters longer than the colour |
| ColorMerge.MergeKeepsColor | lib/js2vectordrawable.js:384-389 | a colour other than `#RGB` keeps its characters, upper-cased, with the alpha byte `round(opacity * 255)` in two digits after the first |
| ColorMerge.MergeExpandsShortHex | lib/js2vectordrawable.js:381-389 | `#RGB` is expanded to `#RRGGBB` before the alpha byte goes in |
| ColorMerge.MergeOpacityEnds | lib/js2vectordrawable.js:384-389 | opacity 1 writes `FF` and opacity 0 writes `00` |
| ColorMerge.AlphaByte | lib/js2vectordrawable.js:384-387 | for opacities from 0 to 1 the alpha byte is two upper-case digits reading back as `round(opacity * 255)` |
| ColorMerge.PercentOfDecimal | lib/js2vectordrawable.js:392-394 | `50%`, `-7.5%` and the like are percentages |
| ColorMerge.NumberIsNotPercent | lib/js2vectordrawable.js:392-394 | a number is never a percentage |
| ColorMerge.DropDs | lib/js2vectordrawable.js:393 | strips the trailing letters `d`, which the group `(\.d+)?` of the percent pattern matches literally (a point, then the letter `d`, not a digit) |
| Refactor.PushRule | lib/js2vectordrawable.js:74-80 | `fill-rule="evenodd"` goes only to a child without a fill rule |
| Refactor.PushFill | lib/js2vectordrawable.js:85-92 | the group's fill goes only to a child without a fill |
| Refactor.PushOpacity | lib/js2vectordrawable.js:94-103 | a child's opacity c becomes `round(g * c * 100) / 100`, and a child without one gets g |
| Refactor.Groups | lib/js2vectordrawable.js:65-107 | after the `<g>` pass no `g` remains |
| Refactor.GroupNode | lib/js2vectordrawable.js:65-107 | an element other than `g` stays, with its pushed attributes |
| Refactor.KeptElement | lib/js2vectordrawable.js:65-107 | a non-group element keeps its tag and attributes, and no `g` remains below it |
| Refactor.GroupElement | lib/js2vectordrawable.js:65-107 | an elided or kept group leaves no `g` behind |
| Refactor.GroupsAppend | lib/js2vectordrawable.js:66-107 | the pass works sibling by sibling and throws when any part throws |
| Refactor.ElidedGroupSpliced | lib/js2vectordrawable.js:72-83 | an elided group's rewritten children take its place among its siblings, in their order |
| Refactor.KeptGroup | lib/js2vectordrawable.js:67-103 | a group with a transform or a fill other than `none` becomes `<group>` without fill and opacity, its children rewritten in place |
| Refactor.EmptyGroupFails | lib/js2vectordrawable.js:73-103 | a childless group throws exactly when it would push something or be elided |
| Refactor.PushedAttrs | lib/js2vectordrawable.js:74-103 | a child keeps its own fill rule and fill, gets the group's only where missing, has its opacity combined, and keeps everything else |
| Refactor.EvenoddPushedOnlyWhenElided | lib/js2vectordrawable.js:73-80 | only an elided group with `fill-rule="evenodd"` pushes it down |
| Refactor.CombinedOpacityInRange | lib/js2vectordrawable.js:98 | two opacities in [0, 1] combine into one in [0, 1] |
| Refactor.SplitOnSpaces | lib/js2vectordrawable.js:118 | `split(/\s+/)` gives at least one piece, none holding white space |
| Refactor.ViewBoxSplit | lib/js2vectordrawable.js:118 | `"x y w h"` splits into its four pieces |
| Refactor.RootSizesFromSize | lib/js2vectordrawable.js:113-125 | with both `width` and `height`, both are parsed with `parseInt`; without `viewBox` the viewport is kept |
| Refactor.RootSizesFromViewBox | lib/js2vectordrawable.js:117-125 | with neither `width` nor `height`, `viewBox` sets size and viewport to `w` by `h` |
| Refactor.RootSizesOneSided | lib/js2vectordrawable.js:113-125 | with only one of `width` and `height` and no `viewBox`, nothing is sized |
| Refactor.RootAttrsOnly | lib/js2vectordrawable.js:126-134 | `<vector>` keeps only its Android attributes, sized in `dp`; `xmlns:aapt` appears exactly when there are gradients |
| Refactor.RootPassNoSvg | lib/js2vectordrawable.js:110-111 | without `<svg>` the root pass changes nothing |
| Refactor.RootPassVector | lib/js2vectordrawable.js:110-135 | the first `<svg>` becomes `<vector>` where it stood, with its children, and the sizes are read from it |
| Refactor.Rename | lib/js2vectordrawable.js:218-221 | renaming moves the value to the new name, removes the old name and leaves the rest |
| Refactor.PaintWith | lib/js2vectordrawable.js:141-159 | the colour, merged with the opacity attribute when present, is stored under the Android name, and the opacity attribute is removed |
| Refactor.FillStep | lib/js2vectordrawable.js:140-158 | `fill` is removed; without it `android:fillColor` is `#000000` merged with `fill-opacity` by the source's merge; a gradient reference writes no colour and keeps `fill-opacity`; any other fill becomes `android:fillColor`, merged with `fill-opacity`, which is removed; no other name changes |
| Refactor.AlphaStep | lib/js2vectordrawable.js:161-163 | `opacity` is copied to `android:fillAlpha` |
| Refactor.StrokeColorStep | lib/js2vectordrawable.js:166-175 | `stroke` is removed; a gradient reference writes no colour and keeps `stroke-opacity`; any other stroke becomes `android:strokeColor`, merged with `stroke-opacity` by the source's merge, which is removed; no other name changes |
| Refactor.StrokeWidthStep | lib/js2vectordrawable.js:181-190 | `android:strokeWidth` is `stroke-width`, or 1 without it, and `stroke-width` is gone |
| Refactor.StrokeStep | lib/js2vectordrawable.js:166-206 | without `stroke` nothing changes; with it, only the stroke names change |
| Refactor.TailStep | lib/js2vectordrawable.js:207-221 | the last step touches only `opacity`, the fill rule and the path data |
| Refactor.PathFill | lib/js2vectordrawable.js:140-158 | no `fill` remains; a path without fill gets `#000000` merged with its `fill-opacity`; a gradient reference `url(#id)` writes no colour; a colour fill is merged with its `fill-opacity` |
| Refactor.FillStepUrl | lib/js2vectordrawable.js:141-151 | a gradient reference leaves `android:fillColor` and `fill-opacity` alone |
| Refactor.PathStroke | lib/js2vectordrawable.js:166-190 | with a stroke: no `stroke` remains, `android:strokeWidth` is the width or 1, and the opacity becomes `android:strokeAlpha` |
| Refactor.PathStrokeColor | lib/js2vectordrawable.js:166-175 | with a stroke, `android:strokeColor` is the stroke merged with `stroke-opacity` by the source's merge and `stroke-opacity` is removed; a gradient reference writes no colour and keeps `stroke-opacity` |
| Refactor.PathStrokeShape | lib/js2vectordrawable.js:192-205 | line cap, line join and miter limit move to their Android names |
| Refactor.PathNoStroke | lib/js2vectordrawable.js:166-206 | without a stroke, no stroke attribute changes |
| Refactor.PathOpacity | lib/js2vectordrawable.js:161-210 | `opacity` is always removed, and its value becomes `android:fillAlpha` |
| Refactor.PathFillRule | lib/js2vectordrawable.js:212-216 | `nonzero` is dropped, `evenodd` becomes `android:fillType="evenOdd"`, any other rule stays |
| Refactor.PathData | lib/js2vectordrawable.js:218-221 | `d` moves to `android:pathData` |
| Refactor.PathOthers | lib/js2vectordrawable.js:138-222 | every other attribute of a path is left as it was |
| Refactor.RewritePathRead | lib/js2vectordrawable.js:139 | the path at a visited address is rewritten there, its children untouched |
| Refactor.PathPassNeedsPath | lib/js2vectordrawable.js:138-139 | the path pass throws exactly when there is no `<path>` |
| Refactor.AddGradient | lib/js2vectordrawable.js:54-56 | adding a gradient block keeps the number of top-level nodes |
| Refactor.AddGradientAppends | lib/js2vectordrawable.js:225-291 | the gradient is replaced by its adjusted self and the block becomes the element's last child, or everything throws when the block does |
| Refactor.GradientPassNoGradient | lib/js2vectordrawable.js:48-59 | without gradients the gradient pass changes nothing |
| Refactor.FirstGradientWithoutId | lib/js2vectordrawable.js:51 | a first gradient without `id` makes the pass throw |
| Refactor.UnusedGradient | lib/js2vectordrawable.js:52-57 | a gradient nothing is painted with is left as it is |
| Gradient.AddMissing | lib/js2vectordrawable.js:295-327 | every default is present afterwards, and attributes already there keep their values |
| Gradient.AddMissingValues | lib/js2vectordrawable.js:295-327 | a default whose name is missing, and not an earlier default's, is added with its value |
| Gradient.AddMissingOthers | lib/js2vectordrawable.js:295-327 | a name neither present nor among the defaults stays missing |
| Gradient.DefaultValues | lib/js2vectordrawable.js:295-327 | a coordinate the gradient lacks gets its default: `0` for x1 and y1, `100%` for x2 and y2, `50%` for cx, cy and r |
| Gradient.AdjustedLookup | lib/js2vectordrawable.js:328-377 | the value of each attribute after the rewrite is the rewrite of its value before |
| Gradient.LinearUserSpaceDefaults | lib/js2vectordrawable.js:293-377 | with `userSpaceOnUse` a linear gradient never throws, and a missing x1 or y1 becomes 0, x2 the viewport width and y2 the viewport height, rounded to two decimals |
| Gradient.RadialUserSpaceDefaults | lib/js2vectordrawable.js:293-377 | with `userSpaceOnUse` a missing cx or cy becomes half the viewport width or height, and a missing r half the larger of the two, rounded to two decimals |
| Gradient.LinearEndAtViewportWidth | lib/js2vectordrawable.js:293-377 | with `userSpaceOnUse` and a 24-wide viewport, a missing x2 becomes 24 |
| Gradient.DefaultsPresent | lib/js2vectordrawable.js:295-327 | the adjusted gradient has x1, y1, x2, y2 (linear), cx, cy, r (radial) or cx, cy (sweep); the values are stated by Gradient.DefaultValues and the user-space lemmas below |
| Gradient.AdjustValue | lib/js2vectordrawable.js:328-376 | a non-position attribute is unchanged; a position comes out as a number with at most two decimals |
| Gradient.AdjustAll | lib/js2vectordrawable.js:328-377 | the rewrite succeeds exactly when every attribute's rewrite does |
| Gradient.AdjustedGradient | lib/js2vectordrawable.js:293-378 | the gradient keeps its tag, its stops and its attribute names with defaults added |
| Gradient.CoordinatesRounded | lib/js2vectordrawable.js:328-376 | every coordinate has at most two decimals, and every other attribute keeps its value |
| Gradient.UserSpacePercent | lib/js2vectordrawable.js:361-373 | with `userSpaceOnUse` a percentage is a share of the viewport width (x), height (y) or the larger of the two (r) |
| Gradient.BoundingBoxCoordinates | lib/js2vectordrawable.js:337-359 | otherwise a percentage is a share of the painted element's bounds, and a non-percentage x or y throws |
| Gradient.AdjustValueIdempotent | lib/js2vectordrawable.js:361-375 | with `userSpaceOnUse` a second rewrite changes nothing |
| Gradient.AdjustValueSecondBoxThrows | lib/js2vectordrawable.js:337-359 | without `userSpaceOnUse` a second reference throws, since the coordinates are numbers by then |
| Gradient.AttrOr | lib/js2vectordrawable.js:241-256 | the attribute's value when present, the default otherwise |
| Gradient.ColorStop | lib/js2vectordrawable.js:274-287 | a stop becomes an `<item>` exactly when it has `stop-color` and `offset`, otherwise it throws; the item has `android:color`, the stop colour merged with `stop-opacity` by the source's merge when that is present, then `android:offset`, the converted offset, and no children |
| Gradient.ColorStops | lib/js2vectordrawable.js:274-287 | the stops convert exactly when there are some and each converts; then there is one item per stop, in the stops' order |
| Gradient.AaptAttrs | lib/js2vectordrawable.js:229-235 | the block is named `android:strokeColor` when the stroke uses the gradient (this wins), else `android:fillColor` when the fill does |
| Gradient.GradientBlockParts | lib/js2vectordrawable.js:225-291 | `addGradientToElement` throws exactly when the gradient has no `id`, its coordinates cannot be adjusted or its stops do not convert; otherwise it leaves the adjusted gradient and a block with the `name` of `AaptAttrs` holding one `<gradient>` with one item per stop, in order |
| Gradient.LinearBlock | lib/js2vectordrawable.js:239-249 | a linear gradient gives `android:type="linear"` with start and end read from x1, y1, x2, y2, and one item per stop |
| Gradient.RadialBlock | lib/js2vectordrawable.js:250-260 | a radial gradient gives `android:type="radial"`; `rx` and `ry` replace the centre when present |
| Gradient.PercentOffset | lib/js2vectordrawable.js:278-280 | an offset `w%` becomes `w / 100` |
| Gradient.DecimalPercentOffset | lib/js2vectordrawable.js:278-280 | an offset `w.f%` is rounded to a whole percentage first: it becomes `m / 100` for the m nearest to `w.f`, halves rounded up |
| Gradient.DecimalPercentOffsetExample | lib/js2vectordrawable.js:278-280 | `33.6%` becomes 0.34 |
| Js2Xml.Indent | lib/js2vectordrawable.js:465-469 | the indentation at level n is 4 * (n - 1) blanks |
| Js2Xml.ContentSkipsUnprinted | lib/js2vectordrawable.js:403-415 | only tags in `vectordrawableTags` are printed; other nodes leave no trace |
| Js2Xml.ContentAppend | lib/js2vectordrawable.js:406-411 | printing a forest prints its parts one after the other |
| Js2Xml.AttrsAppend | lib/js2vectordrawable.js:446-463 | attributes print in their stored order |
| Js2Xml.UndefinedAttrsSkipped | lib/js2vectordrawable.js:453 | an attribute whose value is `undefined` is not printed |
| Js2Xml.SelfClosing | lib/js2vectordrawable.js:421-443 | a printed element closes itself exactly when it has no children |
| Js2Xml.ElementStartsAtItsIndent | lib/js2vectordrawable.js:427-442 | an element at level n starts after 4 * (n - 1) blanks and then `<` |
| Js2Xml.PrintedOnly | lib/js2vectordrawable.js:408 | the filter keeps only nodes with a VectorDrawable tag |
| Js2Xml.ConvertTextParts | lib/js2vectordrawable.js:396-401 | a conversion succeeds exactly when the rewrite does, and its text is the XML declaration, a line break, the printed tree and a line break |
| Js2Xml.RefactorWithoutGradients | lib/js2vectordrawable.js:46-223 | without gradients the rewrite throws exactly when the group pass throws or the rewritten document has no `<path>` |
| Js2Xml.JS2XML.constructor | lib/js2vectordrawable.js:7-44 | a new converter is 24 by 24 with a 24 by 24 viewport, level 0 and indent 4 |
| Js2Xml.JS2XML.RefactorTree | lib/js2vectordrawable.js:46-223 | `refactorData` gives `RefactorData`'s tree and sizes and leaves the level alone |
| Js2Xml.JS2XML.AdjustGradientCoordinate | lib/js2vectordrawable.js:293-378 | the loop over the attributes computes `AdjustedGradient` |
| Js2Xml.JS2XML.AddGradientToElement | lib/js2vectordrawable.js:225-291 | computes `GradientBlock`, the adjusted gradient and the `<aapt:attr>` block, whose parts Gradient.GradientBlockParts, Gradient.LinearBlock and Gradient.RadialBlock state |
| Js2Xml.JS2XML.ColorStopsOf | lib/js2vectordrawable.js:274-287 | the loop over the stops computes `ColorStops`: it throws on a gradient without stops or on a stop that throws, and otherwise gives one item per stop, in order |
| Js2Xml.JS2XML.TravelConvert | lib/js2vectordrawable.js:403-415 | prints the children one level deeper and restores `indentLevel` and the sizes |
| Js2Xml.JS2XML.CreateElement | lib/js2vectordrawable.js:417-444 | prints `ElementText` at the current level and leaves the level as it was |
| Js2Xml.JS2XML.CreateAttrs | lib/js2vectordrawable.js:446-463 | `xmlns:android` first on `<vector>`, then each defined attribute in order |
| Js2Xml.JS2XML.CreateAttr | lib/js2vectordrawable.js:453-459 | the `name` of an `<aapt:attr>` goes on the tag's line; any other attribute goes on its own line, one step deeper |
| Js2Xml.JS2XML.CreateIndent | lib/js2vectordrawable.js:465-469 | the indentation of the current level |
| Js2Xml.JS2XML.Convert | lib/js2vectordrawable.js:396-401 | rewrite, then the XML declaration and the printed document; the level is back at 0 |
| Js2Xml.JS2XML.PrintDocument | lib/js2vectordrawable.js:398-400 | the declaration, a line break, the printed tree and a line break |
| Js2Xml.ToVectorDrawable | lib/js2vectordrawable.js:471-473 | a fresh converter converts the document as `ConvertText` says |

## Left out

- The command-line front end (`svg2vectordrawable_cli.js`) is not part of this model: argument parsing, directory walking and console output are I/O.
- File I/O in `svg2vectordrawable.js` is left out: `svg2vectorDrawableFile`, `getFileContent` (with its `eval` of a user script), `createFile` and `mkdir`.
- XML parsing by node-xml-lite and svgo is left out. The model takes the parsed tree as input.
  - A node-xml-lite element without children is taken to have an empty child list.
  - Indexing the first child of such an element throws.
- `./shape_converter` is not part of this model. `Converter.ShapeConverter` is a function parameter, applied to the kind of shape and its attributes.
- `ellipseToPath` is left out. It uses a floating-point constant and `toFixed` formatting.
- `svg-path-bounds` is a library outside this model. It is the `bounds` parameter, which may throw.
- `adjustGradientCoordinate` reads `valueFloat` out of scope for a non-percentage x or y coordinate without `userSpaceOnUse`. The model only makes that case throw.
- The svgo `JSAPI` methods are not visible. The model assumes the following:
  - `addAttr` on an existing name overwrites it in place, and a new name goes last.
  - `isEmpty` means no children.
  - `querySelectorAll` returns `null` when nothing matches, so the `<g>` and path passes throw on a document without `<g>` or `<path>`.
  - An element without children has no `content`, so iterating over it throws.
- The svgo tree is a value with addresses, not objects with parent links. Aliasing between nodes is not modelled.
- Refactor.Groups: the `<g>` pass is computed top-down on that value. The source visits groups in document order and mutates them in place; the two agree because each visit changes only the group and its children.
- JsNumber.ToString: a fractional number is written in plain decimal notation, not in JavaScript's shortest round-trip form. Exponent notation is not modelled.
- JsNumber.ToHexString: `toString(16)` of a fraction writes only the whole part.
- IEEE-754 rounding is not modelled. Numbers are exact reals, so `0.1 * 3` is exact.
- The line separator `EOL` is fixed to `"\n"`.
- The `try/catch` around each sibling loop of `travel` is modelled as ending the remaining siblings of that frame.
- Converter.Emitter: the mutation of `obj[i].attrib.points` is modelled by passing the cleaned attributes to the shape converter. The parsed tree is not updated.
- The `supportAttrs` list of `JS2XML` is never read by the source, so it is not modelled.
- JsText.ToUpper: `toUpperCase`, and `toLowerCase` (JsText.ToLower), are modelled on the ASCII letters only. Other letters, such as `é` or `ß`, are left as they are, where JavaScript maps them by the Unicode case rules.
- JsNumber.StringToNumber: `Number(s)` reads only decimal literals and `Infinity`. Exponent notation (`1e-1`) and hexadecimal, binary or octal literals (`0x1A`) give NaN in the model, where JavaScript reads them.
- JsNumber.ParseFloat: `parseFloat` stops before an exponent, so `parseFloat("5e-1")` gives 5 in the model and 0.5 in JavaScript.
- StyleSheet.MatchRuleFrom: the selector is placed into a regular expression. The model treats only `.` as a metacharacter, matching any character but a line terminator (StyleSheet.PatternCharMatches). Any other metacharacter in a selector, such as `*`, `+`, `[` or `(`, is matched literally.
- Gradient.PercentOffset: the lemmas about offsets (with Gradient.DecimalPercentOffset) cover unsigned percentages. A negative percentage, or one ending in the literal `d` the percent pattern admits, goes through the same `Offset` function but has no lemma of its own.
- Js2Xml.JS2XML.RefactorTree: the contract ties the method to the function `RefactorData`, and the rewrite is stated pass by pass (Refactor.GradientPassNoGradient, Refactor.AddGradientAppends, the `<g>` lemmas, Refactor.RootPassVector, Refactor.PathFill and the other path lemmas) and, for a document without gradients, by Js2Xml.RefactorWithoutGradients. No lemma describes the whole rewritten document in one statement.
- Js2Xml.JS2XML.Convert: proved equal to printing `RefactorData`'s result; its text is described by Js2Xml.ConvertTextParts and the printing lemmas, not by one statement relating it to the input document.
- Js2Xml.ToVectorDrawable: the same holds for `ConvertText`, which it is proved equal to.

## Findings

| source | as written | input that shows it | evidently intended | confidence | as-written member | corrected member |
|---|---|---|---|---|---|---|
| lib/js2vectordrawable.js:381-383 | the `#RGB` test `/#[0-9A-Fa-f]{3}/` is unanchored, so it also matches the first four characters of a six-digit colour, which is then rebuilt from its first three digits | `mergeColorAndOpacity('#FF0000', 1)` gives `#FFFFFF00` (opaque yellow) instead of `#FFFF0000` (opaque red); the lemma ColorMerge.AsWrittenTurnsRedYellow proves both values | expand only a colour that is exactly `#RGB` | not executed | ColorMerge.MergeColorAndOpacityAsWritten | ColorMerge.MergeColorAndOpacity |

The rest of the model follows the source as written: the fill and stroke colours of the path pass and the colour stops of a gradient use ColorMerge.MergeColorAndOpacityAsWritten. ColorMerge.MergeColorAndOpacity is the corrected definition, and ColorMerge.AsWrittenAgreesOutsideBug says on which colours the two agree.
