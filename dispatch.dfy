/** multi_i / multi_p: the header file, the split of the region into bands and the
    dispatch of one band renderer per band. Threads are replaced by a sequential loop:
    the workers share nothing, so their order does not change any file. */
module Dispatch {
  import opened Complex
  import opened Escape
  import opened Quantise
  import opened Render

  /** What one spawned worker receives: its file ordinal, its corners and its pixel height. */
  datatype Band = Band(ordinal: nat, topLeft: Comp, bottomRight: Comp, height: nat)

  /** The fixed band separation: one eighth of the region's height, whatever the thread count. */
  function Separation(topLeft: Comp, bottomRight: Comp): (sep: real) {
    (topLeft.i - bottomRight.i) * 0.125
  }

  /** The band that loop round k (0-based) hands to its worker, in closed form. */
  function BandAt(topLeft: Comp, bottomRight: Comp, bandHeight: nat, k: nat): (b: Band) {
    var sep := Separation(topLeft, bottomRight);
    Band(k + 1,
         Comp(topLeft.r, topLeft.i - (k as real) * sep),
         Comp(bottomRight.r, topLeft.i - (k as real + 1.0) * sep),
         bandHeight)
  }

  /** The spawn loop of multi_i / multi_p, without the spawning: `loc_tl` and `loc_br`
      start at the top band and both move down by the separation after every round. */
  method Partition(topLeft: Comp, bottomRight: Comp, height: nat, threads: nat) returns (bands: seq<Band>)
    ensures |bands| == threads
    ensures forall k :: 0 <= k < threads ==> bands[k] == BandAt(topLeft, bottomRight, height / threads, k)
  {
    var separation := Separation(topLeft, bottomRight);
    var locTl := topLeft;
    var locBr := Comp(bottomRight.r, topLeft.i - separation);
    bands := [];
    var parallel := 1;
    while parallel < threads + 1
      invariant 1 <= parallel <= threads + 1
      invariant |bands| == parallel - 1
      invariant locTl == Comp(topLeft.r, topLeft.i - ((parallel - 1) as real) * separation)
      invariant locBr == Comp(bottomRight.r, topLeft.i - ((parallel - 1) as real + 1.0) * separation)
      invariant forall k :: 0 <= k < |bands| ==> bands[k] == BandAt(topLeft, bottomRight, height / threads, k)
    {
      bands := bands + [Band(parallel, locTl, locBr, height / threads)];
      locTl := locTl.(i := locTl.i - separation);
      locBr := locBr.(i := locBr.i - separation);
      parallel := parallel + 1;
    }
  }

  /** Consecutive bands touch, every band is one separation high, ordinals count from 1,
      and every band keeps the region's real bounds. */
  lemma BandsContiguous(topLeft: Comp, bottomRight: Comp, bandHeight: nat, k: nat)
    ensures var b, next := BandAt(topLeft, bottomRight, bandHeight, k), BandAt(topLeft, bottomRight, bandHeight, k + 1);
      b.bottomRight.i == next.topLeft.i &&
      b.topLeft.i - b.bottomRight.i == Separation(topLeft, bottomRight) &&
      b.ordinal == k + 1 && next.ordinal == b.ordinal + 1 &&
      b.topLeft.r == topLeft.r && b.bottomRight.r == bottomRight.r
  {
  }

  /** The bands start at the region's top edge and together span `threads` eighths of its
      height, so they end exactly at the region's bottom edge if and only if threads == 8. */
  lemma BandsCoverRegionIffEight(topLeft: Comp, bottomRight: Comp, bandHeight: nat, threads: nat)
    requires 0 < threads && topLeft.i != bottomRight.i
    ensures BandAt(topLeft, bottomRight, bandHeight, 0).topLeft.i == topLeft.i
    ensures topLeft.i - BandAt(topLeft, bottomRight, bandHeight, threads - 1).bottomRight.i
      == (threads as real) * Separation(topLeft, bottomRight)
    ensures BandAt(topLeft, bottomRight, bandHeight, threads - 1).bottomRight.i == bottomRight.i <==> threads == 8
  {
    var d := topLeft.i - bottomRight.i;
    var sep := Separation(topLeft, bottomRight);
    var t := threads as real;
    var last := BandAt(topLeft, bottomRight, bandHeight, threads - 1);
    assert last.bottomRight.i == topLeft.i - t * sep;
    if last.bottomRight.i == bottomRight.i {
      assert t * sep == 8.0 * sep;
      assert (t - 8.0) * sep == 0.0;
      NonzeroFactor(t - 8.0, sep);
    }
  }

  lemma NonzeroFactor(a: real, b: real)
    requires a * b == 0.0 && b != 0.0
    ensures a == 0.0
  {
  }

  /** Every band gets height / threads rows, so the bands hold at most `height` rows in all
      and fewer than `threads` rows are dropped; none are dropped exactly when threads
      divides height. */
  lemma RowsDropped(height: nat, threads: nat)
    requires 0 < threads
    ensures threads * (height / threads) <= height < threads * (height / threads) + threads
    ensures threads * (height / threads) == height <==> height % threads == 0
  {
    assert height == threads * (height / threads) + height % threads;
  }

  // ---- the header file --------------------------------------------------------------

  function DigitChar(d: nat): (ch: char)
    requires d < 10
  {
    "0123456789"[d]
  }

  predicate IsDigit(ch: char) {
    '0' <= ch <= '9'
  }

  function DigitValue(ch: char): (d: nat)
    requires IsDigit(ch)
    ensures d < 10
  {
    (ch as int) - ('0' as int)
  }

  /** `format!("{}", n)` for an unsigned integer: decimal, no leading zeros. */
  function Decimal(n: nat): (s: string)
    decreases n
  {
    if n < 10 then [DigitChar(n)] else Decimal(n / 10) + [DigitChar(n % 10)]
  }

  /** The value of a string of decimal digits. */
  function ParseDecimal(s: string): (n: nat)
    requires forall i :: 0 <= i < |s| ==> IsDigit(s[i])
  {
    if s == [] then 0
    else ParseDecimal(s[..|s| - 1]) * 10 + DigitValue(s[|s| - 1])
  }

  /** Decimal writes a non-empty string of digits that reads back as the same number. */
  lemma {:induction false} DecimalRoundTrip(n: nat)
    ensures |Decimal(n)| > 0
    ensures forall i :: 0 <= i < |Decimal(n)| ==> IsDigit(Decimal(n)[i])
    ensures ParseDecimal(Decimal(n)) == n
    decreases n
  {
    if n >= 10 {
      DecimalRoundTrip(n / 10);
      var s := Decimal(n);
      assert s[..|s| - 1] == Decimal(n / 10);
    }
  }

  /** The contents of file 0: "<width> <height>\n16 1\n". */
  function Header(width: nat, height: nat): (text: string) {
    Decimal(width) + " " + Decimal(height) + "\n" + "16 1\n"
  }

  /** The position of the first `ch` in s, or |s| when there is none. */
  function IndexOf(s: string, ch: char): (i: nat)
    ensures i <= |s|
    ensures forall j :: 0 <= j < i ==> s[j] != ch
    ensures i < |s| ==> s[i] == ch
  {
    if s == [] || s[0] == ch then 0 else 1 + IndexOf(s[1..], ch)
  }

  datatype Option<T> = None | Some(value: T)

  /** The reader side of the header format: two decimal numbers separated by a space,
      a newline, and then exactly "16 1\n". */
  function ParseHeader(s: string): (dims: Option<(nat, nat)>) {
    var sp := IndexOf(s, ' ');
    if sp == |s| then None
    else
      var w, rest := s[..sp], s[sp + 1..];
      var nl := IndexOf(rest, '\n');
      if nl == |rest| then None
      else
        var h := rest[..nl];
        if w == [] || h == [] || rest[nl + 1..] != "16 1\n" then None
        else if !(forall i :: 0 <= i < |w| ==> IsDigit(w[i])) then None
        else if !(forall i :: 0 <= i < |h| ==> IsDigit(h[i])) then None
        else Some((ParseDecimal(w), ParseDecimal(h)))
  }

  lemma IndexOfAfterPrefix(p: string, ch: char, q: string)
    requires forall i :: 0 <= i < |p| ==> p[i] != ch
    ensures IndexOf(p + [ch] + q, ch) == |p|
  {
    var s := p + [ch] + q;
    assert s[|p|] == ch;
    assert forall j :: 0 <= j < |p| ==> s[j] == p[j];
  }

  /** The header reads back as the width and height it was written from. */
  lemma HeaderRoundTrip(width: nat, height: nat)
    ensures ParseHeader(Header(width, height)) == Some((width, height))
  {
    DecimalRoundTrip(width);
    DecimalRoundTrip(height);
    var dw, dh := Decimal(width), Decimal(height);
    var s := Header(width, height);
    var rest := dh + "\n" + "16 1\n";
    assert s == dw + [' '] + rest;
    IndexOfAfterPrefix(dw, ' ', rest);
    assert s[..|dw|] == dw;
    assert s[|dw| + 1..] == rest;
    assert rest == dh + ['\n'] + "16 1\n";
    IndexOfAfterPrefix(dh, '\n', "16 1\n");
    assert rest[..|dh|] == dh;
    assert rest[|dh| + 1..] == "16 1\n";
  }

  // ---- dispatch -----------------------------------------------------------------------

  /** Lines of all band files, concatenated in ordinal order. */
  function Concat(files: seq<seq<string>>): (lines: seq<string>) {
    if files == [] then [] else Concat(files[..|files| - 1]) + files[|files| - 1]
  }

  /** Band files that are each well formed stack into a well-formed image body. */
  lemma {:induction false} ConcatWellFormed(files: seq<seq<string>>, width: nat, bandHeight: nat)
    requires forall k :: 0 <= k < |files| ==> WellFormedLines(files[k], width, bandHeight)
    ensures WellFormedLines(Concat(files), width, |files| * bandHeight)
  {
    if files != [] {
      var init, last := files[..|files| - 1], files[|files| - 1];
      ConcatWellFormed(init, width, bandHeight);
      var front := Concat(init);
      assert Concat(files) == front + last;
      assert |front| == |init| * bandHeight;
      assert WellFormedLines(last, width, bandHeight);
      assert |files| * bandHeight == |init| * bandHeight + bandHeight by {
        assert |files| == |init| + 1;
      }
      forall y | 0 <= y < |front| + |last|
        ensures WellFormedLine((front + last)[y], width)
      {
        if y < |front| {
          assert (front + last)[y] == front[y];
        } else {
          assert (front + last)[y] == last[y - |front|];
        }
      }
    }
  }

  /** multi_i (space = ISpace(par)) or multi_p (space = PSpace(seed)). `files[0]` is the
      header file and `files[k]` the lines written to band file k. The source divides by
      `iterate` for every pixel, so iterate == 0 is only allowed when no pixel exists. */
  method MultiSpace(space: Space, topLeft: Comp, bottomRight: Comp, bound: real,
                    width: nat, height: nat, iterate: nat, threads: nat) returns (files: seq<seq<string>>)
    requires threads == 0 || width == 0 || height / threads == 0 || 0 < iterate
    ensures |files| == threads + 1
    ensures files[0] == [Header(width, height)]
    ensures forall k :: 1 <= k <= threads ==>
      WellFormedLines(files[k], width, height / threads) &&
      forall y, x :: 0 <= y < height / threads && 0 <= x < width ==>
        var b := BandAt(topLeft, bottomRight, height / threads, k - 1);
        files[k][y][x] == PixelSymbol(space, b.topLeft, b.bottomRight, bound, width, b.height, iterate, x, y)
  {
    files := [[Header(width, height)]];
    var bands := Partition(topLeft, bottomRight, height, threads);
    var k := 0;
    while k < |bands|
      invariant 0 <= k <= |bands|
      invariant |files| == k + 1
      invariant files[0] == [Header(width, height)]
      invariant forall j :: 1 <= j <= k ==> WellFormedLines(files[j], width, height / threads)
      invariant forall j, y, x :: 1 <= j <= k && 0 <= y < height / threads && 0 <= x < width ==>
        var b := BandAt(topLeft, bottomRight, height / threads, j - 1);
        files[j][y][x] == PixelSymbol(space, b.topLeft, b.bottomRight, bound, width, b.height, iterate, x, y)
    {
      var band := bands[k];
      var lines := RenderBand(space, band.topLeft, band.bottomRight, bound, width, band.height, iterate);
      assert band.ordinal == |files|;
      files := files + [lines];
      k := k + 1;
    }
  }

  /** The band files read in ordinal order give threads * (height / threads) lines, at most
      `height`, each of `width` symbols and a newline. */
  lemma ImageBody(files: seq<seq<string>>, width: nat, height: nat, threads: nat)
    requires 0 < threads && |files| == threads + 1
    requires forall k :: 1 <= k <= threads ==> WellFormedLines(files[k], width, height / threads)
    ensures WellFormedLines(Concat(files[1..]), width, threads * (height / threads))
    ensures |Concat(files[1..])| <= height
  {
    var body := files[1..];
    assert forall k :: 0 <= k < |body| ==> body[k] == files[k + 1];
    ConcatWellFormed(body, width, height / threads);
    RowsDropped(height, threads);
  }

  /** The header of a 16 x 16 image reads "16 16\n16 1\n". */
  lemma ScenarioHeader()
    ensures Header(16, 16) == "16 16\n16 1\n"
  {
    assert Decimal(16) == Decimal(1) + [DigitChar(6)];
  }

  /** The 16 x 16 image of the region from (-2, 2) to (2, -2) with bound 2, 128 iterations
      and 4 threads: every band is 4 rows high, and the top-left pixel of band 1 prints '0'
      in both variants (for pspace with seed 0). */
  lemma TopLeftPixelScenario(par: Comp)
    ensures var b := BandAt(Comp(-2.0, 2.0), Comp(2.0, -2.0), 16 / 4, 0);
      b.height == 4 &&
      PixelSymbol(ISpace(par), b.topLeft, b.bottomRight, 2.0, 16, b.height, 128, 0, 0) == '0' &&
      PixelSymbol(PSpace(Comp(0.0, 0.0)), b.topLeft, b.bottomRight, 2.0, 16, b.height, 128, 0, 0) == '0'
  {
    var b := BandAt(Comp(-2.0, 2.0), Comp(2.0, -2.0), 16 / 4, 0);
    assert b.topLeft == Comp(-2.0, 2.0) && b.bottomRight == Comp(2.0, 1.5);
    assert RStep(b.topLeft, b.bottomRight, 16) == 0.25;
    assert IStep(b.topLeft, b.bottomRight, 4) == 0.125;
    var p := Pixel(b.topLeft, b.bottomRight, 16, 4, 0, 0);
    assert p == Comp(-1.875, 1.9375);
    FarCornerPixel(p, par);
  }

  /** The sampled point (-1.875, 1.9375) prints '0' in both variants. */
  lemma FarCornerPixel(p: Comp, par: Comp)
    requires p == Comp(-1.875, 1.9375)
    ensures Symbol(EscapeCount(p, par, 2.0, 128), 128) == '0'
    ensures Symbol(EscapeCount(Comp(0.0, 0.0), p, 2.0, 128), 128) == '0'
  {
    assert NormSq(p) > 2.0 * 2.0;
    ImmediateAndNeverLookAlike(p, par, 2.0, 128);
    var origin := Comp(0.0, 0.0);
    assert Orbit(origin, p, 1) == p;
    assert IsFirstEscape(origin, p, 2.0, 128, 1);
    FirstEscapeUnique(origin, p, 2.0, 128, 1, EscapeCount(origin, p, 2.0, 128));
    assert Symbol(1, 128) == '0';
  }
}
