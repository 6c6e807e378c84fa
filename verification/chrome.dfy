/**
 The colours of the user-interface chrome derived from the picked colour and
 the display mode: the custom style properties the controls read, and the
 layered glow shadow put around the drawing surface on input.
 */
module Chrome {
  import opened Colour

  /** Dark exactly when the page body carries the dark-mode class. */
  datatype Mode = Light | Dark

  function Other(m: Mode): (o: Mode)
    ensures o != m
  {
    if m == Light then Dark else Light
  }

  // ---------------------------------------------------------------------
  // Control colours
  // ---------------------------------------------------------------------

  /** A custom style property of the document: the six the controls read, or any other. */
  datatype Property =
    | TriangleColor | RangeBarColor | ToggleBarColor | ToggleBallColor | RangeThumbColor | RangeThumbShadow
    | OtherProperty(name: string)

  /** The property's name as written in the style sheet. */
  function Name(p: Property): (name: string)
    // the six control properties are written under the six control names
    ensures p in ControlProperties ==> name in ControlNames
    // any other property keeps its own name, which for a valid one is no control name
    ensures p.OtherProperty? ==> name == p.name
    ensures ValidProperty(p) ==> (p in ControlProperties <==> name in ControlNames)
  {
    match p
    case TriangleColor => "--triangle-color"
    case RangeBarColor => "--range-bar-color"
    case ToggleBarColor => "--toggle-bar-color"
    case ToggleBallColor => "--toggle-ball-color"
    case RangeThumbColor => "--range-thumb-color"
    case RangeThumbShadow => "--range-thumb-shadow"
    case OtherProperty(name) => name
  }

  const ControlNames: set<string> :=
    {"--triangle-color", "--range-bar-color", "--toggle-bar-color",
     "--toggle-ball-color", "--range-thumb-color", "--range-thumb-shadow"}

  /** An other property never reuses one of the six control names. */
  predicate ValidProperty(p: Property)
  {
    p.OtherProperty? ==> p.name !in ControlNames
  }

  /** Distinct valid properties have distinct names, so a map keyed by
      Property is a faithful picture of a style keyed by name. */
  lemma NameInjective(p: Property, q: Property)
    requires ValidProperty(p) && ValidProperty(q)
    requires Name(p) == Name(q)
    ensures p == q
  {
  }

  /** The document's custom style properties and their values. */
  type Style = map<Property, string>

  /** No property of the style reuses a control name under another key. */
  predicate ValidStyle(s: Style)
  {
    forall p :: p in s ==> ValidProperty(p)
  }

  const ControlProperties: set<Property> :=
    {TriangleColor, RangeBarColor, ToggleBarColor, ToggleBallColor, RangeThumbColor, RangeThumbShadow}

  const White: string := "#fff"
  const DarkThumbShadow: string := "0 2px 8px rgba(255,255,255,0.15)"
  const LightThumbShadow: string := "0 2px 8px rgba(0,0,0,0.15)"

  /**
   The six property values the script writes for colour hex in mode m: the
   triangle and range-bar colours, then the toggle bar, toggle ball, range
   thumb and thumb shadow chosen by the mode.
   */
  function ControlColors(hex: string, m: Mode): (c: Style)
    ensures c.Keys == ControlProperties
  {
    if m == Dark then
      map[TriangleColor := hex, RangeBarColor := hex, ToggleBarColor := White,
          ToggleBallColor := hex, RangeThumbColor := hex, RangeThumbShadow := DarkThumbShadow]
    else
      map[TriangleColor := hex, RangeBarColor := hex, ToggleBarColor := hex,
          ToggleBallColor := White, RangeThumbColor := White, RangeThumbShadow := LightThumbShadow]
  }

  /** Writes the six control-colour properties into the document's style. */
  function SetControlsColor(style: Style, hex: string, m: Mode): (s: Style)
    // the triangle and the range bar always take the picked colour
    ensures TriangleColor in s && s[TriangleColor] == hex
    ensures RangeBarColor in s && s[RangeBarColor] == hex
    // exactly the control properties are added, and nothing else changes
    ensures s.Keys == style.Keys + ControlProperties
    ensures forall k :: k in style && k !in ControlProperties ==> s[k] == style[k]
    // a style whose keys name distinct properties stays so
    ensures ValidStyle(style) ==> ValidStyle(s)
    // dark mode: white bar, coloured ball and thumb, light thumb shadow
    ensures m == Dark ==> && s[ToggleBarColor] == White
                          && s[ToggleBallColor] == hex && s[RangeThumbColor] == hex
                          && s[RangeThumbShadow] == DarkThumbShadow
    // light mode: coloured bar, white ball and thumb, dark thumb shadow
    ensures m == Light ==> && s[ToggleBarColor] == hex
                           && s[ToggleBallColor] == White && s[RangeThumbColor] == White
                           && s[RangeThumbShadow] == LightThumbShadow
  {
    style + ControlColors(hex, m)
  }

  /** Switching mode swaps the bar colour with the ball and thumb colour. */
  lemma ModeSwap(style: Style, hex: string, m: Mode)
    ensures var s := SetControlsColor(style, hex, m);
            var t := SetControlsColor(style, hex, Other(m));
            && s[ToggleBarColor] == t[ToggleBallColor]
            && s[ToggleBallColor] == t[ToggleBarColor]
            && s[RangeThumbColor] == t[ToggleBarColor]
            && s[TriangleColor] == t[TriangleColor]
            && s[RangeBarColor] == t[RangeBarColor]
  {
  }

  /** Overriding the same keys twice keeps only the second override. */
  lemma OverrideTwice(style: Style, c1: Style, c2: Style)
    requires c1.Keys == c2.Keys
    ensures (style + c1) + c2 == style + c2
  {
    var a, b := (style + c1) + c2, style + c2;
    assert a.Keys == b.Keys;
    forall k | k in a.Keys
      ensures a[k] == b[k]
    {
    }
  }

  /** A later call overrides an earlier one completely: the result depends
      only on the style before both calls and on the last colour and mode. */
  lemma LastCallWins(style: Style, hex1: string, m1: Mode, hex2: string, m2: Mode)
    ensures SetControlsColor(SetControlsColor(style, hex1, m1), hex2, m2)
         == SetControlsColor(style, hex2, m2)
  {
    OverrideTwice(style, ControlColors(hex1, m1), ControlColors(hex2, m2));
  }

  /** Re-applying the same colour and mode changes nothing. */
  lemma SetControlsColorIdempotent(style: Style, hex: string, m: Mode)
    ensures SetControlsColor(SetControlsColor(style, hex, m), hex, m) == SetControlsColor(style, hex, m)
  {
    LastCallWins(style, hex, m, hex, m);
  }

  /** Toggling the mode there and back restores every derived colour. */
  lemma ToggleTwice(style: Style, hex: string, m: Mode)
    ensures SetControlsColor(SetControlsColor(SetControlsColor(style, hex, m), hex, Other(m)), hex, m)
         == SetControlsColor(style, hex, m)
  {
    LastCallWins(SetControlsColor(style, hex, m), hex, Other(m), hex, m);
    LastCallWins(style, hex, m, hex, m);
  }

  // ---------------------------------------------------------------------
  // Glow shadow
  // ---------------------------------------------------------------------

  /** One layer of a box shadow: offsets, blur and spread in pixels, and a colour. */
  datatype ShadowLayer = ShadowLayer(dx: int, dy: int, blur: int, spread: int, color: Rgba)

  /** The amount every channel of the picked colour is raised by for the glow ring. */
  const GlowAmount: int := 72

  /** The soft drop shadow under the surface: 0 2px 18px 0 at 18% black. */
  const DropShadow: ShadowLayer := ShadowLayer(0, 2, 18, 0, Rgba(0, 0, 0, 0.18))

  /** The extra dark-mode highlight: 0 0 8px 2px at 15% white. */
  const DarkHighlight: ShadowLayer := ShadowLayer(0, 0, 8, 2, Rgba(255, 255, 255, 0.15))

  /**
   The glow put around the surface: a 6px ring in the lightened colour, the
   drop shadow, and in dark mode a white highlight after them.
   */
  function GlowShadow(hex: string, m: Mode): (layers: seq<ShadowLayer>)
    requires IsHexColor(hex)
    ensures |layers| == if m == Dark then 3 else 2
    // the ring is first, a 6px spread without blur or offset, in the lightened colour
    ensures layers[0] == ShadowLayer(0, 0, 0, 6, LightenColor(hex, GlowAmount))
    ensures layers[1] == DropShadow
    ensures m == Dark ==> layers[2] == DarkHighlight
  {
    var ring := ShadowLayer(0, 0, 0, 6, LightenColor(hex, GlowAmount));
    var shadow := [ring, DropShadow];
    if m == Dark then shadow + [DarkHighlight] else shadow
  }

  /** The dark-mode glow is the light-mode glow with one layer appended. */
  lemma DarkGlowExtendsLight(hex: string)
    requires IsHexColor(hex)
    ensures GlowShadow(hex, Dark) == GlowShadow(hex, Light) + [DarkHighlight]
  {
  }

  /** The glow ring is never darker than the picked colour, and its channels are bytes. */
  lemma GlowRingBrighter(hex: string, m: Mode)
    requires IsHexColor(hex)
    ensures var ring := GlowShadow(hex, m)[0].color;
            var d := Channels(ParseHexColor(hex).value);
            && d.r <= ring.r <= 255 && d.g <= ring.g <= 255 && d.b <= ring.b <= 255
            && ring.alpha == 0.70
  {
  }

  /** What the pulse leaves on the surface: its box shadow and whether it is raised. */
  datatype SurfaceLook = SurfaceLook(boxShadow: seq<ShadowLayer>, elevated: bool)

  /** The look of the surface while a pulse is showing. */
  function Pulse(hex: string, m: Mode): (look: SurfaceLook)
    requires IsHexColor(hex)
    ensures look.elevated
    ensures |look.boxShadow| == if m == Dark then 3 else 2
    ensures look.boxShadow[0].color == LightenColor(hex, GlowAmount)
    // the surface carries exactly the glow of the mode, layer for layer
    ensures look.boxShadow == GlowShadow(hex, m)
  {
    SurfaceLook(GlowShadow(hex, m), true)
  }

  /** The glow for #3498db in light mode: ring rgba(124,224,255,0.70) and the drop shadow. */
  lemma GlowScenario()
    ensures GlowShadow("#3498db", Light)
         == [ShadowLayer(0, 0, 0, 6, Rgba(124, 224, 255, 0.70)), DropShadow]
  {
    LightenScenario();
  }
}
