# Image to Minecraft block art — verified core

The converter reads every image in an input directory. It resizes each image so
that its longer side is 128 pixels, then maps every pixel to the nearest colour
in a fixed table of sixteen concrete blocks. It writes one HTML page per image:
a table whose cells are coloured by the matched block and titled with its name.

This project models the parts of that pipeline that are pure logic:

- `colors.dfy` (module `Colors`): colours, the block table and a concrete
  distance. Colour channels are integers in thousandths of full intensity
  (0..1000). The table's literals have three decimals, so every block colour is
  exact. The concrete distance is squared Euclidean RGB distance.
- `mapper.dfy` (module `Mapper`): the nearest-colour scan `closestColor`. The
  palette is the Go map (`map<string, Color>`) together with the order in which
  `range` visits its keys (`Palette.Valid`: every key exactly once). Go leaves
  that order unspecified, so every lemma holds for any valid order. The scan is
  a left fold with state `Best(name, diff)`. It starts from the empty name and
  the largest finite float64, written out exactly, and takes an entry only on a
  strictly smaller distance. The distance is a parameter `(Color, Color) -> int`.
  The main theorem proves the scan against an independent reference definition,
  `IsFirstMin`.
- `grid.dfy` (module `Grid`): the pixel-to-name table built in `generateHTML`.
  An image is a function from `(x, y)` to a colour. The table has `Dy` rows of
  `Dx` names each and is filled row by row. Each pixel's match ranges over the
  palette map afresh, so each pixel gets its own iteration order (`Orders`).
  Two pixels of one colour that is equally near two blocks may therefore be
  given different names, and the model allows exactly that.
- `resize.dfy` (module `Resize`): the target size computed in `main`. Sizes are
  natural numbers. The 0×0 image reaches an integer division by zero in the
  else branch (w ≤ h); it is modelled as the `DivideByZero` result.
- `naming.dfy` (module `Naming`): the output file name. `Ext` follows Go's
  `path.Ext`: it searches backwards for the last `.` and stops at a `/`.
  `OutputName` then drops that extension and appends `.html`.

## Model

| member | source | states |
|---|---|---|
| Colors.SquaredRgbIsDistance | convertArt.go:49 | the distance is never negative, is symmetric, and is zero exactly on equal colours |
| Colors.SquaredRgbIsBounded | convertArt.go:45-50 | the distance never exceeds 3·1000², so it is always below the float64 sentinel the scan starts from |
| Colors.BlocksAreDistinct | convertArt.go:20-37 | the block table is non-empty and no two blocks share a colour |
| Mapper.Step | convertArt.go:49-53 | one iteration never raises the best distance, ends no farther than the entry visited, and either keeps the held entry or takes the visited entry with its distance; an entry no nearer than the held one (a tie included) leaves the held entry in place |
| Mapper.ScanFrom | convertArt.go:48-54 | the remaining iterations never raise the best distance and end no farther than any entry still to be visited; if no remaining entry is strictly nearer than the starting state, that state is kept; otherwise the held entry is a remaining one, strictly nearer than the start and strictly nearer than every remaining entry visited before it, so the first of equal minima wins |
| Mapper.ClosestColor | convertArt.go:40-57 | the result is the empty name or a key of the palette, and the empty name for an empty palette; Mapper.ClosestColorIsFirstMin characterises it fully |
| Mapper.HeldIsFirstMin | convertArt.go:48-54 | after any number of iterations the held entry is the first minimum of the entries visited, and no entry is held exactly while none is below the sentinel |
| Mapper.ScanReachesFinalState | convertArt.go:48-54 | running the remaining iterations of the loop from the state after i entries ends in the state after the whole palette |
| Mapper.ClosestColorIsFirstMin | convertArt.go:40-57 | if some entry is below the sentinel, the result is the name at the first minimum in iteration order; otherwise it is the empty name |
| Mapper.ClosestColorIffFirstMin | convertArt.go:48-54 | if some entry is below the sentinel, the name at position k is returned exactly when k is the first minimum (both directions) |
| Mapper.ClosestColorIsKey | convertArt.go:43-56 | if some key's distance is below the sentinel, the result is a key of the palette; otherwise it is the empty name |
| Mapper.ClosestColorIsMinimal | convertArt.go:48-53 | the returned entry is no farther from the target than any key of the palette |
| Mapper.ClosestColorTiesGoFirst | convertArt.go:50-53 | every entry visited before the returned one is strictly farther, because the update uses strict less-than, so the first of equal minima wins |
| Mapper.ExactMatchHasZeroDistance | convertArt.go:48-53 | when the target is some key's colour, the returned entry is at distance zero |
| Mapper.ExactMatchWins | convertArt.go:20-57 | with a proper distance and pairwise distinct colours, a target equal to key n's colour is mapped to n under any iteration order |
| Mapper.OrderIrrelevantWithoutTies | convertArt.go:48 | two iteration orders of the same map give the same name whenever exactly one key is at the minimum distance, whatever ties there are among farther keys |
| Mapper.BlocksClosestColor | convertArt.go:20-57 | with the block table and squared RGB distance, every colour maps to a block, and a block's own colour maps to that block, under any iteration order |
| Grid.GenerateGrid | convertArt.go:63-76 | the table has Dy rows of Dx names each, and the name at row y, column x is the closest colour to the pixel at (x, y), found by ranging over the palette in that pixel's own order |
| Grid.GridNamesAreKeys | convertArt.go:105-108 | with a non-empty palette and distances below the sentinel, every name in the table is a palette key whatever order each pixel's match used, so the colour-map lookup in the template finds a real colour |
| Grid.BlocksGridNamesAreBlocks | convertArt.go:127-130 | every name in a table built from the block table, under any per-pixel orders, is a key of the block table passed to the template |
| Resize.TargetSize | convertArt.go:171-178 | landscape: width 128, and height is the floor of 128·h/w (height·w ≤ 128·h < (height+1)·w); otherwise height 128 and width the floor of 128·w/h; division by zero exactly for 0×0 |
| Resize.TargetSizeFitsSide | convertArt.go:170-178 | neither side exceeds 128, the longer side is exactly 128, and a square image becomes 128×128 |
| Resize.TargetSizeKeepsOrientation | convertArt.go:174-178 | the result is wider than tall exactly when the input is, and square exactly when the input is |
| Naming.Ext | convertArt.go:181 | the extension is a suffix of the name that starts with the last '.' and holds no further '.' or '/'; it is empty exactly when no '.' follows the last '/' |
| Naming.TrimSuffix | convertArt.go:181 | when s ends in the suffix, the result followed by the suffix is s; otherwise the result is s unchanged |
| Naming.OutputName | convertArt.go:181 | the output name ends in ".html", and the stem before it followed by the input's extension gives back the input name |
| Naming.NoDotAppendsHtml | convertArt.go:181 | a name without '.' just gets ".html" appended |
| Naming.OnlyFinalExtensionDropped | convertArt.go:181 | "stem.word" becomes "stem.html" for any stem, so only the last extension is removed ("a.b.png" becomes "a.b.html") |
| Naming.OutputNameIdempotent | convertArt.go:181 | the output name of an output name is itself |
| Naming.SameStemSameOutput | convertArt.go:181 | two inputs that differ only in their final extension get the same output name, so the later page overwrites the earlier |
| Naming.OutputPath | convertArt.go:181 | for a listed file name (no '/'), the page path is the output directory, a '/', and the output name of the file, which holds no '/'; so the round trip of OutputName carries over to the path |

## Left out

- Directory listing, opening and creating files, `os.Exit` and error logging (convertArt.go:136-168, 183-185). These are I/O with no logic to state.
- Image decoding (`image.Decode`) and Lanczos resampling (`resize.Resize`, convertArt.go:163, 179). These are library calls. The model takes the decoded image as a function from `(x, y)` to a colour. `TargetSize` only computes the size passed to the resampler. A height or width of 0, which a very elongated image produces, is passed through as computed.
- The CIE76 distance and the conversion through `colorful.MakeColor` (convertArt.go:41, 49, 72). These are floating-point colour science in a library. The mapper takes the distance as a parameter, and the lemmas state what they need of it (`IsDistance`, `BelowSentinel`). A NaN distance, which never passes the `<` test, is not modelled; a distance at or above the sentinel plays the same role, and that case yields the empty name.
- Mapper.BlocksClosestColor, Grid.BlocksGridNamesAreBlocks: pixel colours are modelled on the same thousandths grid as the block literals, while the program's colours are float64 channels from `colorful.MakeColor` (16-bit values divided by 65535; convertArt.go:41, 72), which need not be whole thousandths. These two lemmas therefore cover every colour on that grid, not every float colour. The other mapper and grid lemmas take the distance as a parameter and never look at channel values, so the choice of grid does not affect them.
- The float-to-byte rounding of `RGB255` and the HTML template text, escaping and execution (convertArt.go:78-130). These wrap `fmt` and `html/template`. The model states only that every name handed to the template is a key of the colour map it is looked up in.
- Resize.TargetSize: the sizes are natural numbers, and 64-bit overflow of `128 * imgHeight` (convertArt.go:175) and of `128 * imgWidth` (convertArt.go:177) is not modelled. The decoded bounds start at (0, 0), and no image is large enough to overflow.
- Naming.OutputPath: `path.Join`'s cleaning step is modelled only for file names without '/'. Names returned by a directory listing never contain '/', and the joined element always ends in ".html", so cleaning leaves it unchanged.
