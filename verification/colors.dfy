/** Colours, the distance between them, and the fixed table of concrete-block
    colours the converter matches pixels against. */
module Colors {
  import opened Arith

  /** One colour channel in thousandths of full intensity: the palette literals
      are written with three decimals (0.078, 0.643, ...), so 0..1000 holds
      every one of them exactly. */
  type Channel = x: int | 0 <= x <= 1000

  datatype Color = Color(r: Channel, g: Channel, b: Channel)

  /** The largest finite float64, (2 - 2^-52) * 2^1023, written out exactly.
      It is the starting "best distance" of the nearest-colour scan. */
  const MaxFloat64: int := 179769313486231570814527423731704356798070567525844996598917476803157260780028538760589558632766878171540458953514382464234321326889464182768467546703537516986049910576551282076245490090389328944075868508455133942304583236903222948165808559332123348274797826204144723168738177180919299881250404026184124858368

  /** Upper bound of SquaredRgb over all colours: three channels of 1000^2. */
  const MaxSquaredRgb: int := 3 * 1000 * 1000

  /** d squared: never negative, zero only at zero, and at most 1000^2 for a
      difference of two channels. */
  function Square(d: int): (s: int)
    ensures s >= 0 && (s == 0 <==> d == 0)
    ensures -1000 <= d <= 1000 ==> s <= 1000 * 1000
  {
    SquaredIsZeroOnlyAtZero(d);
    if -1000 <= d <= 1000 then SquareBound(d); d * d else d * d
  }

  /** Squared Euclidean distance in RGB, the integer stand-in for the
      perceptual distance of the source. */
  function SquaredRgb(a: Color, b: Color): int
  {
    Square(a.r - b.r) + Square(a.g - b.g) + Square(a.b - b.b)
  }

  /** A distance function: never negative, symmetric, and zero exactly on equal colours. */
  ghost predicate IsDistance(dist: (Color, Color) -> int)
  {
    forall a, b :: 0 <= dist(a, b) && dist(a, b) == dist(b, a) && (dist(a, b) == 0 <==> a == b)
  }

  /** Every distance the function can produce lies below the scan's sentinel. */
  ghost predicate BelowSentinel(dist: (Color, Color) -> int)
  {
    forall a, b :: dist(a, b) < MaxFloat64
  }

  lemma SquaredIsZeroOnlyAtZero(d: int)
    ensures d * d >= 0
    ensures d * d == 0 <==> d == 0
  {
  }

  lemma SquareBound(d: int)
    requires -1000 <= d <= 1000
    ensures d * d <= 1000 * 1000
  {
    var e := if d >= 0 then d else -d;
    assert d * d == e * e;
    MulMonotone(e, 1000, e);
    MulMonotone(e, 1000, 1000);
  }

  /** Squaring ignores the sign, so the distance is symmetric. */
  lemma SquareOfNegation(d: int)
    ensures Square(-d) == Square(d)
  {
  }

  /** The squared RGB distance is a distance in the sense the nearest-colour
      lemmas need. */
  lemma SquaredRgbIsDistance()
    ensures IsDistance(SquaredRgb)
  {
    forall a: Color, b: Color
      ensures SquaredRgb(a, b) == SquaredRgb(b, a)
    {
      SquareOfNegation(a.r - b.r);
      SquareOfNegation(a.g - b.g);
      SquareOfNegation(a.b - b.b);
    }
  }

  /** The squared RGB distance never exceeds three full channels squared, so
      it stays far below the scan's sentinel and the scan always picks an entry. */
  lemma SquaredRgbIsBounded()
    ensures forall a, b :: SquaredRgb(a, b) <= MaxSquaredRgb
    ensures BelowSentinel(SquaredRgb)
  {
  }

  /** The sixteen concrete blocks and their colours. */
  const Blocks: map<string, Color> := map[
    "Black Concrete"      := Color(78, 78, 78),
    "Red Concrete"        := Color(643, 224, 224),
    "Green Concrete"      := Color(459, 478, 224),
    "Brown Concrete"      := Color(545, 271, 204),
    "Blue Concrete"       := Color(224, 235, 545),
    "Purple Concrete"     := Color(392, 224, 518),
    "Cyan Concrete"       := Color(224, 569, 518),
    "Light Gray Concrete" := Color(518, 518, 518),
    "Gray Concrete"       := Color(318, 318, 318),
    "Pink Concrete"       := Color(929, 459, 576),
    "Lime Concrete"       := Color(596, 745, 216),
    "Yellow Concrete"     := Color(937, 745, 188),
    "Light Blue Concrete" := Color(345, 435, 576),
    "Magenta Concrete"    := Color(620, 224, 518),
    "Orange Concrete"     := Color(882, 380, 173),
    "White Concrete"      := Color(945, 945, 945)
  ]

  /** No two keys of a palette share a colour. */
  ghost predicate Injective(colors: map<string, Color>)
  {
    forall m, n :: m in colors && n in colors && colors[m] == colors[n] ==> m == n
  }

  /** The block table is non-empty and its colours are pairwise distinct, so an
      exact colour names exactly one block. */
  lemma BlocksAreDistinct()
    ensures "Black Concrete" in Blocks
    ensures Injective(Blocks)
  {
    assert forall n :: n in Blocks ==> BlockOf(Blocks[n]) == n;
  }

  /** The block whose colour is c, read off the table in reverse; the empty
      name for a colour no block has. */
  function BlockOf(c: Color): string
  {
    if c == Color(78, 78, 78) then "Black Concrete"
    else if c == Color(643, 224, 224) then "Red Concrete"
    else if c == Color(459, 478, 224) then "Green Concrete"
    else if c == Color(545, 271, 204) then "Brown Concrete"
    else if c == Color(224, 235, 545) then "Blue Concrete"
    else if c == Color(392, 224, 518) then "Purple Concrete"
    else if c == Color(224, 569, 518) then "Cyan Concrete"
    else if c == Color(518, 518, 518) then "Light Gray Concrete"
    else if c == Color(318, 318, 318) then "Gray Concrete"
    else if c == Color(929, 459, 576) then "Pink Concrete"
    else if c == Color(596, 745, 216) then "Lime Concrete"
    else if c == Color(937, 745, 188) then "Yellow Concrete"
    else if c == Color(345, 435, 576) then "Light Blue Concrete"
    else if c == Color(620, 224, 518) then "Magenta Concrete"
    else if c == Color(882, 380, 173) then "Orange Concrete"
    else if c == Color(945, 945, 945) then "White Concrete"
    else ""
  }
}
