# generic-fractals: escape-time renderer core in Dafny

This project models the integer and string skeleton of the escape-time fractal renderer in
`src/main.rs`:

- the escape-count loop that `ispace` and `pspace` run per pixel;
- the quantisation of a count to one of the sixteen `HEX_GS` symbols;
- the text of one band (`height` lines, each `width` symbols and a newline);
- the header file, the band numbering, the height split and the band-edge stepping of `multi_i` / `multi_p`.

Modules:

- `Complex` (complex.dfy): the value type `Comp`, the formula `z * z + c` and the orbit it generates. Components are exact `real`s. This is not IEEE f64.
- `Escape` (escape.dfy): `Evaluate`, the per-pixel loop. It is proved equal to `EscapeCount`, the least step below `iterate` at which the orbit is outside the bound, or 0 when there is none.
- `Quantise` (quantise.dfy): `HexGs`, `SymbolIndex` (`counter * 16 / iterate`) and `Symbol`.
- `Render` (render.dfy): the two variants as `Space` (`ISpace(par)`: orbit starts at the pixel, parameter fixed; `PSpace(seed)`: orbit starts at the seed, parameter is the pixel), the exact pixel centres, and `RenderBand`, the nested row/column loops of `ispace` / `pspace`.
- `Dispatch` (dispatch.dfy): `Partition` (the spawn loop as a sequential loop producing band descriptors), `Header`, and `MultiSpace`, which produces every file's lines.

Files are modelled as values. `files[0]` is the header file and `files[k]` is the sequence of `write_all` payloads of band file `k`.

Behaviour of the code worth knowing:

- A pixel that does not escape within `iterate` steps has its counter reset to 0 (src/main.rs:227-229, 279-281). It therefore prints `'0'`, the same symbol as a pixel that starts outside the bound, not the slowest symbol `'f'`. The count is never `iterate`, and `'f'` is printed only for counts of at least `15 * iterate / 16`. `ImmediateAndNeverLookAlike` and `OriginNeverEscapes` state this.
- The band separation is always one eighth of the region height (src/main.rs:124, 168), whatever the thread count. `BandsCoverRegionIffEight` proves the bands reach the region's bottom edge exactly when there are 8 threads.
- `threads == 0`, `width == 0` and `height == 0` are not rejected (src/main.rs:131, 175, 220, 223). With `threads == 0` only the header is written. With a zero dimension no pixel is evaluated.

## Model

| member | source | states |
|---|---|---|
| `Escape.Evaluate` | src/main.rs:224-236 | The escape loop returns `EscapeCount`: 0 or the first step below `iterate` at which `z.r² + z.i² > bound²`, with every earlier orbit point inside the bound |
| `Escape.EscapeCount` | src/main.rs:278-288 | The count is the least k < iterate at which the orbit is outside the bound when one exists, 0 when none exists, and below `iterate` whenever iterate > 0 |
| `Escape.ZeroCountIffImmediateOrNever` | src/main.rs:227-233 | The count is 0 exactly when the start is already outside the bound or the orbit never leaves it within `iterate` steps |
| `Escape.OriginNeverEscapes` | src/main.rs:276-288 | With seed 0 and pixel 0 the orbit never leaves any bound and the count is 0 |
| `Complex.OriginIsFixed` | src/main.rs:261 | The origin is a fixed point of `z * z + 0` at every step |
| `Quantise.SymbolIndex` | src/main.rs:237 | For 0 < iterate and counter < iterate, `counter * 16 / iterate` is below 16 (the `HEX_GS` lookup is in bounds) and is the floor of counter·16/iterate |
| `Quantise.Symbol` | src/main.rs:40-42 | Every printed symbol is one of the sixteen `HEX_GS` characters |
| `Quantise.SymbolIndexMonotone` | src/main.rs:289 | A larger count never gives a smaller `HEX_GS` index |
| `Render.PixelInsideBand` | src/main.rs:213-215 | The pixel sampled for column x, row y is the exact centre of its cell and lies strictly inside the band's rectangle |
| `Render.RenderBand` | src/main.rs:220-244 | A band writes exactly `height` lines, each `width` `HEX_GS` symbols and one `'\n'`, and the symbol at column x of line y is the quantised escape count of that pixel in the chosen variant |
| `Render.ImmediateAndNeverLookAlike` | src/main.rs:279-289 | A pixel that starts outside the bound and a pixel that never escapes both print `'0'` |
| `Dispatch.Partition` | src/main.rs:168-190 | The spawn loop produces `threads` bands; band k has ordinal k+1, height `height / threads`, and corners stepped down k separations from the top |
| `Dispatch.BandsContiguous` | src/main.rs:144-145 | Consecutive bands touch, each is one separation high, ordinals rise by one, and the real bounds are the region's |
| `Dispatch.BandsCoverRegionIffEight` | src/main.rs:124-129 | The bands start at the region's top edge, span `threads` eighths of its height, and end at its bottom edge if and only if threads == 8 |
| `Dispatch.RowsDropped` | src/main.rs:139 | The bands hold `threads * (height / threads)` rows, at most `height` and fewer than `threads` short of it, with none dropped exactly when threads divides height |
| `Dispatch.DecimalRoundTrip` | src/main.rs:119 | The decimal rendering of a number is a non-empty digit string that reads back as the same number |
| `Dispatch.HeaderRoundTrip` | src/main.rs:162-166 | The header `"<width> <height>\n16 1\n"` reads back as the width and height it was written from |
| `Dispatch.MultiSpace` | src/main.rs:152-194 | File 0 holds exactly the header; files 1..threads each hold `height / threads` well-formed lines whose symbols are those of band k's pixels; with threads == 0 only the header exists |
| `Dispatch.ImageBody` | src/main.rs:175-190 | The band files read in ordinal order give `threads * (height / threads)` lines, at most `height`, each `width` symbols and a newline |
| `Dispatch.ScenarioHeader` | src/main.rs:163 | The header of a 16×16 image is exactly `"16 16\n16 1\n"` |
| `Dispatch.TopLeftPixelScenario` | src/main.rs:271-289 | For the 16×16 region (-2,2)–(2,-2) with bound 2, 128 iterations and 4 threads, bands are 4 rows high and band 1's top-left pixel prints `'0'` for ispace with any parameter and for pspace with seed 0 |

## Left out

- File and directory I/O (`File::create`, `write_all`, `create_dir_all`, `read_to_string`) and the `.npxl` path names: output is modelled as the sequence of written strings per file. I/O failures and the resulting panics are not modelled.
- TOML configuration loading, the `Data` / `Config` / `Advanced` / `CompStruct` records, `exit(1)` and the hard-coded overrides in `main`: configuration glue.
- Threads (`thread::spawn`, `join().unwrap()`, `available_parallelism`): the workers share nothing and write separate files, so `MultiSpace` runs the bands one after another.
- IEEE f64: all coordinates are exact reals, so rounding and drift of the incremental `crnt.r += rstep` / `crnt.i -= istep` and the concrete orbit values of the f64 program are not captured. Infinite steps for a zero width or height are modelled as step 0; no pixel uses them.
- The `basemath` crate's `Comp` and its operators are not part of this model; `Complex.Comp` gives them the usual exact complex-number meaning.
- Integer widths: `u32` / `usize` are unbounded here, so a `threads + 1` overflow at `u32::MAX` and a `counter * 16` overflow for huge `iterate` are not modelled.
- Panics: the division by `iterate == 0` is excluded by the precondition of `RenderBand` and `MultiSpace` only when a pixel would be evaluated, which is exactly when the source would panic.
