# Sierpinski triangle renderer — Dafny model

The program draws a Sierpinski triangle on a canvas. The user can change the
recursion depth, the fill colour and a light/dark display mode. Its logic comes in
three pure pieces, and each is modelled here as a pure function over immutable
data:

- **Fractal renderer** (`geometry.dfy`, `sierpinski.dfy`). The recursive
  subdivision `sierpinski` is modelled as the sequence of filled triangles it
  paints, in painting order. Each `Painted` element stands for one call of the
  triangle-filling primitive. `Draw` is the full redraw: the surface is cleared,
  then the subdivision of the bounding triangle computed from the surface's
  width and height is painted. Coordinates are exact `real`s and depth is a `nat`.
  A second, independent description addresses every painted triangle by its
  path of corners (a base-3 numeral). The model proves that the painting order
  is exactly the lexicographic order of those paths, which is the order of
  the numerals.
- **Colour arithmetic** (`colour.dfy`). This covers `lightenColor`: a
  `#rrggbb` string is decoded into a number below 2^24, split into red, green
  and blue bytes, and each byte is raised by a fixed amount and capped at 255.
  Hex parsing and formatting are proved to be inverses, and so are channel
  splitting and packing.
- **Chrome colours** (`chrome.dfy`). `setControlsColor` writes six custom style
  properties whose values depend on the colour and the mode. The document's
  style is modelled as a map, so "nothing else changes", idempotence,
  last-write-wins and the light/dark swap can all be stated. The glow shadow
  built by `animateShadow` is modelled as its list of layers: two in light
  mode, three in dark mode.

Two behaviours of the script shape the model:

- The script puts no clamp on depth, and a negative depth is not treated as 0.
  The model takes any `nat` depth and puts no clamp on it.
- The glow-removal timer is never cancelled when a new pulse starts. The timer
  is left out entirely (see below).

## Model

| member | source | states |
|---|---|---|
| Geometry.Mid | script.js:23-28 | the midpoint is exactly as far from the first point as the second point is from it, on both axes |
| Geometry.Child | script.js:23-32 | uniformly in the corner k, the sub-triangle the recursion descends into is the corner itself, then the midpoint of the edge leaving it, then the midpoint of the edge arriving at it |
| Geometry.ChildrenVertices | script.js:23-32 | the vertices of the three sub-triangles are exactly the three corners and the three edge midpoints of the parent |
| Geometry.ChildQuarterArea | script.js:23-32 | every corner sub-triangle has exactly a quarter of the parent's signed area, with the same sign |
| Sierpinski.Sierpinski | script.js:19-34 | depth d paints exactly 3^d triangles; every one carries the colour given at the top; depth 0 paints exactly the input triangle once |
| Sierpinski.Digits | script.js:19-34 | the d-corner path addressing painted triangle i has length d and reads back as i in base 3 |
| Sierpinski.IndexOfDigits | script.js:19-34 | reading the corner path of position i back in base 3 gives i |
| Sierpinski.DigitsOfIndex | script.js:19-34 | corner paths of a fixed length and their base-3 numbers correspond one to one |
| Sierpinski.DigitsBlock | script.js:30-32 | at depth at least 1, the corner path of position i is its leading corner k followed by the path of the offset j of i within k's block, with i = k's block start + j and j below 3^(depth-1) |
| Sierpinski.Block | script.js:30-32 | at depth at least 1, position i lies in the block of one corner's recursive call at an offset below 3^(depth-1), and its corner path is that corner followed by the offset's path |
| Sierpinski.PathsAreDigits | script.js:19-34 | position i of the enumeration of corner paths of length n, in lexicographic order, is the base-3 numeral of i |
| Sierpinski.LeavesPrefixed | script.js:30-32 | the leaves below corner k, in any list of paths, are the leaves of the parent on the same paths with k put in front |
| Sierpinski.SierpinskiIsPaths | script.js:19-34 | the painted sequence is one triangle per corner path of length depth, the leaf at that path, in lexicographic path order |
| Sierpinski.PathsStep | script.js:22-33 | one subdivision step: painting corner a, then b, then c paints the leaves on the paths starting with A, then B, then C |
| Sierpinski.PaintedLeaf | script.js:19-34 | the i-th painted triangle is the one reached by descending into the corners given by the base-3 digits of i, in the input colour |
| Sierpinski.SierpinskiIsLeaves | script.js:19-34 | the painted sequence equals the corner-path enumeration of all 3^d leaves |
| Sierpinski.LeafIsPainted | script.js:19-34 | every leaf of the subdivision tree is painted, at the position given by its corner path |
| Sierpinski.Subdivides | script.js:22-33 | at depth at least 1 the painted sequence is the subdivision of (a, mid(a,b), mid(c,a)), then of (b, mid(b,c), mid(a,b)), then of (c, mid(c,a), mid(b,c)), each at depth - 1 and a third of the length |
| Sierpinski.CornersKept | script.js:20-32 | each of the three input corners is a vertex of some painted triangle, at every depth |
| Sierpinski.LeafArea | script.js:23-32 | a triangle reached after n subdivision steps has the root's signed area divided by 4^n |
| Sierpinski.PaintedArea | script.js:19-34 | every painted triangle has the input's signed area divided by 4^depth |
| Sierpinski.PaintedInBox | script.js:19-34 | nothing is painted outside any axis-aligned box that holds the input triangle |
| Sierpinski.BoundingTriangle | script.js:41-43 | the base is horizontal 20 above the bottom edge; its corners are inset 20 from the sides; the apex is 20 below the top and horizontally centred between them |
| Sierpinski.Draw | script.js:36-45 | a redraw paints exactly 3^depth triangles, all in the picked colour |
| Sierpinski.DrawWithinMargin | script.js:41-44 | on a surface at least 40 by 40, every painted vertex lies within the 20-pixel margin |
| Sierpinski.DrawDepthZeroScenario | script.js:20-21 | depth 0 on a 300 by 300 surface paints exactly (150,20), (20,280), (280,280) |
| Sierpinski.DrawDepthOneScenario | script.js:22-33 | depth 1 on a 300 by 300 surface paints exactly the three half-scale corner triangles, leaving the centre unpainted |
| Colour.HexValue | script.js:50 | a character has a hexadecimal value exactly when it is a digit or a letter a-f of either case, and the value is below 16 (what an upper-case digit is worth is fixed by HexValueIgnoresCase) |
| Colour.HexValueIgnoresCase | script.js:50 | an upper-case digit A-F has the same value as its lower-case form, as base-16 `parseInt` reads either case |
| Colour.HexDigit | script.js:50 | the lower-case digit written for a value reads back as that value |
| Colour.HexNumber | script.js:50 | a run of n hexadecimal digits reads as a number below 16^n |
| Colour.ParseHexColor | script.js:50 | decoding succeeds exactly on `#` followed by six hex digits, and yields a number below 2^24 |
| Colour.ParseFormat | script.js:50 | formatting a number below 2^24 as `#rrggbb` and decoding it gives the number back |
| Colour.FormatParse | script.js:50 | decoding a lower-case `#rrggbb` string and formatting the number gives the string back |
| Colour.Channels | script.js:51-53 | red, green and blue each lie in [0, 255] and red * 65536 + green * 256 + blue is the packed number |
| Colour.ChannelsOfPack | script.js:51-53 | splitting a packed byte triple gives the triple back |
| Colour.PackOfChannels | script.js:51-53 | packing the split channels gives the number back |
| Colour.SaturatingAdd | script.js:51-53 | the result is at most 255 and at most channel + amt, and it is one of the two (Math.min) |
| Colour.Lighten | script.js:49-53 | for amt >= 0 every channel stays a byte and is never below its input; a channel reads 255 exactly when channel + amt reaches 255, and otherwise reads channel + amt, so each channel is min(255, channel + amt) |
| Colour.LightenMonotone | script.js:51-53 | a larger amount never gives a darker channel |
| Colour.SaturatingAddCompose | script.js:51-53 | lightening in two non-negative steps equals lightening once by their sum |
| Colour.LightenZero | script.js:51-53 | lightening by 0 leaves the channels unchanged |
| Colour.LightenColor | script.js:49-55 | the glow colour has opacity 0.70, its channels are the decoded colour's channels each lightened to min(255, channel + amt), and for amt >= 0 each lies between the picked channel and 255 |
| Colour.LightenScenario | script.js:49-56 | #3498db decodes to 0x3498db, and lightened by 72 it gives rgba(124, 224, 255, 0.70) |
| Chrome.Name | script.js:70-82 | the six control properties are written into the six control names, one each (distinctness is `NameInjective`); any other property keeps its own name; for a property that reuses no control name, it is a control property exactly when its name is a control name |
| Chrome.NameInjective | script.js:70-82 | two properties the style may hold that share a name are the same property, so the six control properties are written under six distinct names |
| Chrome.ControlColors | script.js:69-83 | exactly the six control properties are written |
| Chrome.SetControlsColor | script.js:69-83 | the triangle and range-bar colours are always the picked colour; dark mode makes the toggle bar #fff and the ball and thumb the colour; light mode swaps them; the thumb shadow follows the mode; exactly those six properties are added and no other property changes; a style in which no other property reuses a control name stays so |
| Chrome.ModeSwap | script.js:73-83 | switching mode swaps the toggle-bar colour with the toggle-ball and range-thumb colour, and keeps the triangle and range-bar colours |
| Chrome.OverrideTwice | script.js:69-83 | writing the same set of properties twice keeps only the second write |
| Chrome.LastCallWins | script.js:69-83 | a later call overrides an earlier one completely, whatever colour and mode each used |
| Chrome.SetControlsColorIdempotent | script.js:69-83 | re-applying the same colour and mode gives the same style |
| Chrome.ToggleTwice | script.js:69-83 | the control-colour writes the mode handler makes when the mode is switched there and back leave the same style as one write in the original mode |
| Chrome.GlowShadow | script.js:56-60 | the glow has two layers in light mode and three in dark mode; the first is a 6px ring in the colour lightened by 72, the second the fixed drop shadow, and the dark-mode third the white highlight |
| Chrome.DarkGlowExtendsLight | script.js:57-60 | the dark-mode glow is the light-mode glow with the highlight appended |
| Chrome.GlowRingBrighter | script.js:49-57 | the glow ring is never darker than the picked colour, its channels are at most 255, and its opacity is 0.70 |
| Chrome.Pulse | script.js:56-62 | while a pulse shows, the surface is raised and carries exactly the mode's glow, layer for layer: three layers in dark mode and two in light mode, the first in the lightened colour |
| Chrome.GlowScenario | script.js:56-57 | for #3498db in light mode the glow is the ring rgba(124,224,255,0.70) followed by the drop shadow |

## Left out

- Canvas and DOM calls (`ctx.*`, `getElementById`, `style.setProperty`, `classList`) are presentation side effects. A filled triangle is an element of the painted sequence. The written style is a map from property to value. The glow is a `SurfaceLook` value.
- The event listeners and the start-up code (script.js:86-110) are dispatch glue and are not modelled. The depth and colour handlers redraw and then pulse. The mode handler sets or clears the dark-mode class, relabels the switch, rewrites the control colours and redraws, without a pulse. Start-up writes the control colours and draws once.
- The 700 ms timer that removes the glow (script.js:63-66) is timer behaviour. It is not modelled, and neither is the way an earlier, uncancelled timer can clear a later pulse early.
- Depth is a `nat`. The slider supplies a whole number within its own bounds, which are in the page markup, and the page markup is not part of this model. A negative or non-numeric depth makes the script recurse until the call stack overflows with a RangeError; the model does not represent it.
- LightenColor: requires a `#` followed by exactly six hex digits, as the colour picker supplies. The script's `parseInt` also accepts partial and malformed strings, and a string with no digits gives NaN, which the shifts read as 0. Those cases are not modelled.
- GlowShadow: requires a `#rrggbb` colour, for the same reason as LightenColor.
- Pulse: requires a `#rrggbb` colour, for the same reason as LightenColor.
- Channels: the 32-bit `>>` and `&` are written as division and remainder by 2^16, 2^8 and 2^8. These agree for every non-negative number below 2^31, and every decoded colour is below 2^24. The 32-bit wrap-around of larger numbers is not modelled.
- Coordinates are exact reals. The IEEE-754 rounding of the script's halving is not modelled.
- The CSS text of `rgba(...)` and of the box shadow is not modelled. Only the numeric channels, the opacities, the layer geometry and the layer order are. The two thumb-shadow values are kept as the literal strings the script writes.
