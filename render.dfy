/** Rendering one band as text: `height` lines of `width` symbols and a newline each,
    the text that `ispace` and `pspace` write to their band file. */
module Render {
  import opened Complex
  import opened Escape
  import opened Quantise

  /** The two iteration variants. `ISpace(par)` (ispace) starts every orbit at the pixel
      and iterates with the fixed parameter; `PSpace(seed)` (pspace) starts every orbit at
      the fixed seed and iterates with the pixel as parameter. */
  datatype Space = ISpace(par: Comp) | PSpace(seed: Comp)

  function Start(space: Space, pixel: Comp): (z0: Comp) {
    match space
    case ISpace(_) => pixel
    case PSpace(seed) => seed
  }

  function Param(space: Space, pixel: Comp): (c: Comp) {
    match space
    case ISpace(par) => par
    case PSpace(_) => pixel
  }

  /** Width of one pixel on the real axis. With width 0 the source's step is infinite but
      never used, since no column is rendered. */
  function RStep(topLeft: Comp, bottomRight: Comp, width: nat): (step: real) {
    if width == 0 then 0.0 else (bottomRight.r - topLeft.r) / (width as real)
  }

  /** Height of one pixel on the imaginary axis, under the same convention. */
  function IStep(topLeft: Comp, bottomRight: Comp, height: nat): (step: real) {
    if height == 0 then 0.0 else (topLeft.i - bottomRight.i) / (height as real)
  }

  /** The centre of cell x of n equal cells of [lo, hi] lies strictly inside (lo, hi). */
  lemma CentreInside(lo: real, hi: real, n: nat, x: nat)
    requires lo < hi && x < n
    ensures var p := lo + (x as real + 0.5) * ((hi - lo) / (n as real)); lo < p < hi
  {
    var step := (hi - lo) / (n as real);
    assert (n as real) * step == hi - lo;
    ScaleStrict(0.0, x as real + 0.5, step);
    ScaleStrict(x as real + 0.5, n as real, step);
  }

  lemma ScaleStrict(a: real, b: real, s: real)
    requires a < b && 0.0 < s
    ensures a * s < b * s
  {
  }

  /** The point sampled for column x and row y of a band: the centre of that pixel cell,
      in exact arithmetic. */
  function Pixel(topLeft: Comp, bottomRight: Comp, width: nat, height: nat, x: nat, y: nat): (p: Comp) {
    Comp(topLeft.r + (x as real + 0.5) * RStep(topLeft, bottomRight, width),
         topLeft.i - (y as real + 0.5) * IStep(topLeft, bottomRight, height))
  }

  /** Every sampled point lies strictly inside the band's rectangle. */
  lemma PixelInsideBand(topLeft: Comp, bottomRight: Comp, width: nat, height: nat, x: nat, y: nat)
    requires x < width && y < height
    requires topLeft.r < bottomRight.r && bottomRight.i < topLeft.i
    ensures var p := Pixel(topLeft, bottomRight, width, height, x, y);
      topLeft.r < p.r < bottomRight.r && bottomRight.i < p.i < topLeft.i
  {
    CentreInside(topLeft.r, bottomRight.r, width, x);
    CentreInside(bottomRight.i, topLeft.i, height, height - 1 - y);
  }

  /** The symbol the band shows at column x, row y. */
  ghost function PixelSymbol(space: Space, topLeft: Comp, bottomRight: Comp, bound: real,
                             width: nat, height: nat, iterate: nat, x: nat, y: nat): (ch: char)
    requires 0 < iterate
  {
    var p := Pixel(topLeft, bottomRight, width, height, x, y);
    Symbol(EscapeCount(Start(space, p), Param(space, p), bound, iterate), iterate)
  }

  /** One written line: `width` symbols from HexGs and a newline. */
  ghost predicate WellFormedLine(line: string, width: nat) {
    |line| == width + 1 && line[width] == '\n' &&
    forall x :: 0 <= x < width ==> line[x] in HexGs
  }

  /** A band's lines: `height` of them, each well formed. */
  ghost predicate WellFormedLines(lines: seq<string>, width: nat, height: nat) {
    |lines| == height && forall y :: 0 <= y < |lines| ==> WellFormedLine(lines[y], width)
  }

  /** ispace / pspace for one band, minus the file: each element of `lines` is what one
      `write_all` call writes. The pixel starts at the centre of the top-left cell, moves
      right by `rstep` per column, is reset to the left at each row and moves down by
      `istep` per row. */
  method RenderBand(space: Space, topLeft: Comp, bottomRight: Comp, bound: real,
                    width: nat, height: nat, iterate: nat) returns (lines: seq<string>)
    requires 0 < iterate || width == 0 || height == 0
    ensures WellFormedLines(lines, width, height)
    ensures forall y, x :: 0 <= y < height && 0 <= x < width ==>
      lines[y][x] == PixelSymbol(space, topLeft, bottomRight, bound, width, height, iterate, x, y)
  {
    var rstep := RStep(topLeft, bottomRight, width);
    var istep := IStep(topLeft, bottomRight, height);
    var crnt := Comp(topLeft.r + 0.5 * rstep, topLeft.i - 0.5 * istep);
    lines := [];
    var y := 0;
    while y < height
      invariant 0 <= y <= height
      invariant crnt.i == topLeft.i - (y as real + 0.5) * istep
      invariant WellFormedLines(lines, width, y)
      invariant forall j, x :: 0 <= j < y && 0 <= x < width ==>
        lines[j][x] == PixelSymbol(space, topLeft, bottomRight, bound, width, height, iterate, x, j)
    {
      var valstring := "";
      crnt := crnt.(r := topLeft.r + 0.5 * rstep);
      var x := 0;
      while x < width
        invariant 0 <= x <= width
        invariant crnt == Pixel(topLeft, bottomRight, width, height, x, y)
        invariant |valstring| == x
        invariant forall i :: 0 <= i < x ==>
          valstring[i] == PixelSymbol(space, topLeft, bottomRight, bound, width, height, iterate, i, y)
      {
        var counter := Evaluate(Start(space, crnt), Param(space, crnt), bound, iterate);
        valstring := valstring + [Symbol(counter, iterate)];
        crnt := crnt.(r := crnt.r + rstep);
        x := x + 1;
      }
      valstring := valstring + "\n";
      lines := lines + [valstring];
      crnt := crnt.(i := crnt.i - istep);
      y := y + 1;
    }
  }

  /** A pixel whose orbit starts outside the bound and a pixel whose orbit never leaves it
      both print '0', the first symbol of the scale. */
  lemma ImmediateAndNeverLookAlike(z0: Comp, c: Comp, bound: real, iterate: nat)
    requires 0 < iterate
    requires NormSq(z0) > bound * bound || forall k :: 0 <= k < iterate ==> !EscapesAt(z0, c, bound, k)
    ensures Symbol(EscapeCount(z0, c, bound, iterate), iterate) == '0'
  {
    ZeroCountIffImmediateOrNever(z0, c, bound, iterate);
  }
}
