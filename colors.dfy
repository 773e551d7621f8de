/**
 * The `color` enum of the console and the macros it is built from: every
 * value is `RESET`, or one of the eight colours on the foreground or
 * background layer, optionally made `BRIGHTER` (a non-standard extension).
 */
module Colors {
  import opened Wrappers

  /** The colour macros BLACK..WHITE. */
  type Hue = k: int | 0 <= k < 8

  const BLACK: Hue := 0
  const RED: Hue := 1
  const GREEN: Hue := 2
  const YELLOW: Hue := 3
  const BLUE: Hue := 4
  const PURPLE: Hue := 5
  const CYAN: Hue := 6
  const WHITE: Hue := 7

  const RESET := 0
  const FOREGROUND := 30
  const BACKGROUND := 40
  const BRIGHTER := 60

  datatype Layer = Foreground | Background

  /** One value of the `color` enum. */
  datatype Color = Reset | Paint(layer: Layer, bright: bool, hue: Hue)

  // The enum members the console uses.
  const BlackFg := Paint(Foreground, false, BLACK)
  const LightBlackFg := Paint(Foreground, true, BLACK)
  const GreenBg := Paint(Background, false, GREEN)
  const CyanBg := Paint(Background, false, CYAN)
  const WhiteBg := Paint(Background, false, WHITE)
  const LightBlackBg := Paint(Background, true, BLACK)

  /** The numeric value of an enum member, as `(unsigned int)col` yields it. */
  function Code(c: Color): nat
  {
    match c
    case Reset => RESET
    case Paint(layer, bright, hue) =>
      (if layer == Foreground then FOREGROUND else BACKGROUND) + (if bright then BRIGHTER else 0) + hue
  }

  /** The enum member with numeric value `n`, if there is one. */
  function Decode(n: int): Option<Color>
  {
    if n == RESET then Some(Reset)
    else if FOREGROUND <= n < FOREGROUND + 8 then Some(Paint(Foreground, false, n - FOREGROUND))
    else if BACKGROUND <= n < BACKGROUND + 8 then Some(Paint(Background, false, n - BACKGROUND))
    else if FOREGROUND + BRIGHTER <= n < FOREGROUND + BRIGHTER + 8 then Some(Paint(Foreground, true, n - FOREGROUND - BRIGHTER))
    else if BACKGROUND + BRIGHTER <= n < BACKGROUND + BRIGHTER + 8 then Some(Paint(Background, true, n - BACKGROUND - BRIGHTER))
    else None
  }

  /** Decoding the code of a member gives the member back. */
  lemma DecodeCode(c: Color)
    ensures Decode(Code(c)) == Some(c)
  {
  }

  /** Every number that decodes is the code of what it decodes to. */
  lemma CodeDecode(n: int)
    ensures Decode(n).Some? ==> Code(Decode(n).value) == n
  {
  }

  /** The code is zero exactly for `reset`; the four ranges 30-37, 40-47, 90-97, 100-107
      hold exactly the foreground, background, bright foreground and bright background members. */
  lemma CodeRanges(c: Color)
    ensures Code(c) == 0 <==> c == Reset
    ensures 30 <= Code(c) <= 37 <==> c.Paint? && c.layer == Foreground && !c.bright
    ensures 40 <= Code(c) <= 47 <==> c.Paint? && c.layer == Background && !c.bright
    ensures 90 <= Code(c) <= 97 <==> c.Paint? && c.layer == Foreground && c.bright
    ensures 100 <= Code(c) <= 107 <==> c.Paint? && c.layer == Background && c.bright
    ensures c.Paint? ==> Code(c) % 10 == c.hue
  {
  }

  /** A bright member is its normal member plus BRIGHTER. */
  lemma BrightIsBasePlusBrighter(layer: Layer, hue: Hue)
    ensures Code(Paint(layer, true, hue)) == Code(Paint(layer, false, hue)) + BRIGHTER
  {
  }

  /** The values the enum gives its members. */
  lemma EnumValues()
    ensures Code(Reset) == 0
    ensures Code(BlackFg) == 30 && Code(Paint(Foreground, false, WHITE)) == 37
    ensures Code(GreenBg) == 42 && Code(CyanBg) == 46 && Code(WhiteBg) == 47
    ensures Code(LightBlackFg) == 90 && Code(Paint(Foreground, true, WHITE)) == 97
    ensures Code(LightBlackBg) == 100 && Code(Paint(Background, true, WHITE)) == 107
  {
  }
}
