/** The pixel-to-block grid: one block name per pixel, rows top to bottom,
    each row left to right. */
module Grid {
  import opened Colors
  import opened Mapper

  /** A decoded image as the colour at column x, row y. */
  type Image = (int, int) -> Color

  /** The order in which the palette map is ranged over while matching the
      pixel at (x, y). Every pixel's match ranges over the map afresh, and the
      language picks each such order independently. */
  type Orders = (int, int) -> seq<string>

  /** Every pixel of a width-by-height image is matched under an order that
      visits each key of the palette exactly once. */
  ghost predicate ValidOrders(colors: map<string, Color>, orders: Orders, width: nat, height: nat)
  {
    forall x, y :: 0 <= x < width && 0 <= y < height ==> Palette(colors, orders(x, y)).Valid()
  }

  /** A table of block names with `height` rows of `width` names each, where
      the name in row y, column x is the palette match of the pixel at (x, y),
      found by ranging over the palette in that pixel's order. */
  ghost predicate IsGridOf(pixels: seq<seq<string>>, colors: map<string, Color>, orders: Orders,
                           dist: Distance, img: Image, width: nat, height: nat)
    requires ValidOrders(colors, orders, width, height)
  {
    && |pixels| == height
    && (forall y :: 0 <= y < height ==> |pixels[y]| == width)
    && (forall y, x :: 0 <= y < height && 0 <= x < width ==>
          pixels[y][x] == ClosestColor(Palette(colors, orders(x, y)), dist, img(x, y)))
  }

  /** Allocates a height-by-width table of empty names, then fills it row by
      row with the palette match of each pixel. */
  method GenerateGrid(colors: map<string, Color>, orders: Orders, dist: Distance, img: Image, width: nat, height: nat)
    returns (pixels: seq<seq<string>>)
    requires ValidOrders(colors, orders, width, height)
    ensures IsGridOf(pixels, colors, orders, dist, img, width, height)
  {
    pixels := seq(height, _ => seq(width, _ => ""));
    var y := 0;
    while y < height
      invariant 0 <= y <= height
      invariant |pixels| == height
      invariant forall r :: 0 <= r < height ==> |pixels[r]| == width
      invariant forall r, x :: 0 <= r < y && 0 <= x < width ==>
        pixels[r][x] == ClosestColor(Palette(colors, orders(x, r)), dist, img(x, r))
    {
      var x := 0;
      while x < width
        invariant 0 <= x <= width
        invariant |pixels| == height
        invariant forall r :: 0 <= r < height ==> |pixels[r]| == width
        invariant forall r, c :: 0 <= r < y && 0 <= c < width ==>
          pixels[r][c] == ClosestColor(Palette(colors, orders(c, r)), dist, img(c, r))
        invariant forall c :: 0 <= c < x ==>
          pixels[y][c] == ClosestColor(Palette(colors, orders(c, y)), dist, img(c, y))
      {
        var block := ClosestColor(Palette(colors, orders(x, y)), dist, img(x, y));
        pixels := pixels[y := pixels[y][x := block]];
        x := x + 1;
      }
      y := y + 1;
    }
  }

  /** Every name in a grid is a key of the palette whenever the distance
      keeps below the sentinel, so looking a cell's name up in the colour map
      when rendering always finds the block's own colour, however each
      pixel's match ranged over the map. */
  lemma GridNamesAreKeys(pixels: seq<seq<string>>, colors: map<string, Color>, orders: Orders,
                         dist: Distance, img: Image, width: nat, height: nat)
    requires ValidOrders(colors, orders, width, height)
    requires |colors| > 0
    requires BelowSentinel(dist)
    requires IsGridOf(pixels, colors, orders, dist, img, width, height)
    ensures forall y, x :: 0 <= y < height && 0 <= x < width ==> pixels[y][x] in colors
  {
    var n :| n in colors;
    forall y, x | 0 <= y < height && 0 <= x < width
      ensures pixels[y][x] in colors
    {
      assert dist(img(x, y), colors[n]) < MaxFloat64;
      ClosestColorIsKey(Palette(colors, orders(x, y)), dist, img(x, y));
    }
  }

  /** The block table with the squared RGB distance: every cell of any grid
      names a block, whatever orders the table is ranged over in. */
  lemma BlocksGridNamesAreBlocks(pixels: seq<seq<string>>, orders: Orders, img: Image, width: nat, height: nat)
    requires ValidOrders(Blocks, orders, width, height)
    requires IsGridOf(pixels, Blocks, orders, SquaredRgb, img, width, height)
    ensures forall y, x :: 0 <= y < height && 0 <= x < width ==> pixels[y][x] in Blocks
  {
    SquaredRgbIsBounded();
    BlocksAreDistinct();
    GridNamesAreKeys(pixels, Blocks, orders, SquaredRgb, img, width, height);
  }
}
