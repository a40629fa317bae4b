# panorama-reader: rendering and pixel inspection

panorama-reader shows the result of a panorama simulation that was run
beforehand. That result holds the run parameters and, for every output pixel,
the samples its viewing ray produced, nearest first. This project models two
parts of the reader:

- **The renderer** (`src/rendering.rs`). `create_surface` walks the pixel grid
  row by row. For each pixel it picks a colour: the background for a pixel
  without samples, the nearest sample's own colour, or the terrain tint
  (`color_from_elev_dist`, built on `hsv`). It writes blue, green, red and a
  zero byte into the 4-byte slot of a Cairo RGB24 buffer.
- **The inspection arithmetic** (`src/interface.rs`). When a pixel is clicked,
  the viewer shows:
  - the direction of the ray;
  - if the ray met the terrain, the elevation in metres and feet, the distance
    in metric and imperial units, and latitude and longitude split by
    `as_dms` into degrees, minutes and seconds with a hemisphere letter.

Files:

- `numeric.dfy` (module `Numeric`) models the Rust float operations the code
  relies on, over `real`:
  - the saturating float-to-integer `as` casts (`u8`, and `usize` on a 64-bit
    target);
  - the truncating float remainder `%`.
- `data.dfy` (module `PanoramaData`) holds the stored result: parameters,
  output size and the per-pixel sample lists.
- `rendering.dfy` (module `Rendering`) has the colour functions and a
  specification `Raster` of the whole buffer. `CreateSurface` is an imperative
  method that fills an `array<Byte>` and is proved to leave exactly `Raster`
  in it. Pixel-level lemmas about `Raster` state what the loop writes where.
- `interface.dfy` (module `Interface`) has `AsDms`, the unit choices, the
  hemisphere letters, and the click handler `Click` as a pure function.

How the model is set up:

- `f64` is `real` throughout.
- `powf(0.65)` enters as a function parameter `pow065`.
- `params.get_azim_and_elev` enters as a function parameter `azimElev`.
- The source of `create_surface` has two nested loops, with the four byte
  writes inline. The model splits these into three methods:
  - `CreateSurface` runs the row loop;
  - `DrawRow` runs the loop over one row;
  - `PutPixel` does the four writes.

  Together they perform the same writes, in the same order and at the same
  offsets `((y * width) + x) * 4`.

The sample model follows `rendering.rs`, where the code and the stored data
format disagree:

- `rendering.rs` reads a list of samples per pixel (`result.get(0)`), each
  with a `PixelColor` tag.
- It reads the water level through `params.view.coloring.water_level()`.
- `src/data.rs` declares one `Option<ResultPixel>` per pixel, without a
  colour, and puts `water_level` in `Frame`.

`interface.rs` reads the optional pixel of `data.rs`. The model takes the
first element of the sample list for it: an empty list stands for `None`.

## Model

| member | source | states |
|---|---|---|
| Numeric.SatCast | src/rendering.rs:31-33 | `as` into an unsigned type never exceeds its maximum. It is 0 for inputs at or below 0 and the maximum at or above it. In between it is the whole part of the input. |
| Numeric.Trunc | src/rendering.rs:7-12 | The integer part rounded toward zero: it keeps the sign and is less than 1 away from the input. |
| Numeric.Abs | src/interface.rs:20 | `abs` is non-negative and is the input or its negation. |
| Numeric.FRem | src/rendering.rs:7-12 | For the divisors 360 and 2 that `hsv` uses, the remainder takes the sign of the dividend and is smaller than the divisor in magnitude: in [0, b) for a non-negative dividend and in (-b, 0] for a negative one. |
| Numeric.NegativeRemainder | src/rendering.rs:7-11 | The remainder truncates rather than floors: `-1 % 360` is -1 and `-420 % 360` is -60, so the branch that adds 360 is taken. `420 % 360` is 60. |
| Rendering.NormaliseHue | src/rendering.rs:7-11 | The normalised hue lies in [0, 360). |
| Rendering.NormaliseHueIsFloorMod | src/rendering.rs:7-11 | The normalised hue is the floored remainder `h - 360 * floor(h / 360)`. |
| Rendering.NormaliseHuePeriodic | src/rendering.rs:7-11 | Hues 360 degrees apart normalise to the same value. |
| Rendering.Sector | src/rendering.rs:14-28 | A normalised hue falls in exactly one of the six 60-degree branches, so the `unreachable!()` arm is never taken. |
| Rendering.SectorTriple | src/rendering.rs:14-25 | In every branch one of `rp`, `gp`, `bp` is 0, one equals `c`, and each is one of `c`, `x`, 0. |
| Rendering.SectorTriplePermutes | src/rendering.rs:14-25 | The branch's triple is a permutation of `(c, x, 0)`. |
| Rendering.SectorTripleBySector | src/rendering.rs:14-28 | The branch the if-chain takes is the one of the sector the hue lies in, in the order (c, x, 0), (x, c, 0), (0, c, x), (0, x, c), (x, 0, c), (c, 0, x). |
| Rendering.SectorWeight | src/rendering.rs:12 | The factor `1 - abs((h / 60) % 2 - 1)` lies in [0, 1]. |
| Rendering.SectorWeightTriangle | src/rendering.rs:12 | The factor is a triangle wave: in sector `k` it is `h/60 - k` for even `k` (rising from 0 to 1) and `k + 1 - h/60` for odd `k` (falling from 1 to 0). |
| Rendering.ScaleWithin | src/rendering.rs:12 | With a non-negative chroma `c`, `x = c * w` for such a factor lies between 0 and `c`. |
| Rendering.HsvOfNormalisedHue | src/rendering.rs:12-34 | For a hue in [0, 360): one channel is `(v * 255) as u8`, one is `((v - c) * 255) as u8`, and with `c >= 0` every channel lies between those two. |
| Rendering.Hsv | src/rendering.rs:5-35 | One channel is `(v * 255) as u8` and one is `((v - c) * 255) as u8`. With `c >= 0`, every channel lies between those two. |
| Rendering.HsvPeriodic | src/rendering.rs:7-11 | Hues 360 degrees apart give the same colour. |
| Rendering.FullySaturatedHasZero | src/rendering.rs:5-34 | At saturation 1 one channel is 0. |
| Rendering.ColorFromElevDist | src/rendering.rs:37-59 | At or below the water level the red channel is 0. Water at distance 0 is exactly (0, 128, 255). At distance 0 every colour, land or water, has a zero channel. |
| Rendering.WaterIgnoresElevation | src/rendering.rs:39-41 | At or below the water level the colour depends on the distance only. |
| Rendering.WaterDarkensWithDistance | src/rendering.rs:38-41 | With a positive render distance, farther water is never brighter in green or blue. |
| Rendering.WaterAtHalfDistance | src/rendering.rs:38-41 | Water at half the render distance is (0, 89, 178): a multiplier of 0.7 on 128 and 255, truncated. |
| Rendering.FirstSample | src/rendering.rs:72 | `result.get(0)` is present exactly when the list is non-empty, and is its first element. |
| Rendering.SampleColor | src/rendering.rs:73-82 | A `Terrain` sample at or below the water level has red 0, and one at distance 0 has a zero channel. An `Rgb` sample's channels are `(r * 255) as u8`, `(g * 255) as u8` and `(b * 255) as u8`. |
| Rendering.ExplicitColorPassesThrough | src/rendering.rs:77-81 | An `Rgb` sample is shown with the same bytes whatever the parameters, elevation, distance or `powf`: the three channels `(k * 255) as u8`. Each of red, green and blue in [0, 1] becomes the whole part of `255 * k`. |
| Rendering.ResolveColor | src/rendering.rs:71-85 | An empty sample list gives the background (28, 28, 28). Otherwise the colour is the colour of the nearest sample. |
| Rendering.FartherSamplesIgnored | src/rendering.rs:72 | Samples after the first never change the pixel. |
| Rendering.PixelBytes | src/rendering.rs:87-90 | A pixel's slot is four bytes: blue (`color.2`), green, red (`color.0`), then 0. |
| Rendering.Offset | src/rendering.rs:86 | The first byte of pixel (x, y) is a multiple of 4, and a quarter of it is the row-major index `y * width + x`. |
| Rendering.OffsetDecomposes | src/rendering.rs:86-90 | Byte `k` of pixel (x, y)'s slot decodes back to channel `k`, column `x` and row `y`. |
| Rendering.SlotInBounds | src/rendering.rs:62-90 | Every write of every pixel inside the raster lies inside a buffer of `4 * width * height` bytes. |
| Rendering.SlotsDisjoint | src/rendering.rs:69-90 | Different pixels, or different bytes of one pixel, are written at different offsets, so no write overwrites another pixel. |
| Rendering.EveryByteInASlot | src/rendering.rs:62-92 | Every byte of the buffer belongs to the slot of some pixel of the raster, so the loop leaves no byte unwritten. |
| Rendering.Raster | src/rendering.rs:61-96 | The specified image has `4 * width * height` bytes. Its contents are stated pixel by pixel by RasterAt. |
| Rendering.ColorGridAt | src/rendering.rs:69-85 | The specified colour of pixel (x, y) is the colour its own sample list resolves to. |
| Rendering.RasterAt | src/rendering.rs:86-90 | In the specified buffer, the slot of pixel (x, y) holds blue, green, red and 0 of that pixel's resolved colour. |
| Rendering.EmptyPixelIsBackground | src/rendering.rs:83-90 | The slot of a pixel with no sample holds 28, 28, 28, 0. |
| Rendering.PutPixel | src/rendering.rs:86-90 | The four writes put `color.2`, `color.1`, `color.0` and 0 at `pixel` to `pixel + 3`, and leave every other byte as it was. |
| Rendering.DrawRow | src/rendering.rs:70-91 | After the pass over row `y`, the buffer still starts with the rows above it, followed by the bytes of row `y`'s resolved colours. Every byte after row `y` keeps its old value. |
| Rendering.CreateSurface | src/rendering.rs:61-96 | After the fill, the buffer equals the specified raster: every pixel's slot holds its resolved colour. This follows from the lemmas above. |
| Interface.AsDms | src/interface.rs:19-25 | Every part is within the `usize` range, an angle of 0 gives (0, 0, 0), and below the `usize` range the degrees are the whole part of the magnitude. |
| Interface.AsDmsIgnoresSign | src/interface.rs:19-20 | `as_dms(-a) == as_dms(a)`. |
| Interface.AsDmsTruncates | src/interface.rs:19-25 | Below the `usize` range, minutes and seconds are in [0, 60). Also `deg + min/60 + sec/3600 <= abs(ang) < deg + min/60 + (sec+1)/3600`. |
| Interface.FloorOfScaled | src/interface.rs:22-23 | `(f * k) as usize` for `f` in [0, 1) and `k <= 60` is below `k` and brackets `f` between `n/k` and `(n+1)/k`. |
| Interface.WholeDegrees | src/interface.rs:19-25 | A whole number `n` of degrees within the `usize` range gives `(n, 0, 0)`. |
| Interface.AsDmsRoundTrip | src/interface.rs:19-25 | Splitting the value of any triple with minutes and seconds below 60 gives that triple back. |
| Interface.SiDistance | src/interface.rs:81-85 | The unit is kilometres exactly when the distance exceeds 1000 m, and metres otherwise. Value times unit gives the distance back. A km reading is above 1, an m reading at most 1000. |
| Interface.ImperialDistance | src/interface.rs:86-90 | The unit is miles (1609 m) exactly when the distance exceeds 805 m, and yards (0.912 m) otherwise. Value times unit gives the distance back. |
| Interface.ElevationOf | src/interface.rs:76-80 | The elevation is shown unchanged in metres. Its feet value times 0.304 gives the metres back, with the same sign and at least the same magnitude. |
| Interface.LatitudeLetter | src/interface.rs:100 | The letter is N exactly when the latitude is at least 0, so 0 is N. Otherwise it is S. |
| Interface.LongitudeLetter | src/interface.rs:108 | The letter is E exactly when the longitude is at least 0, so 0 is E. Otherwise it is W. |
| Interface.LatitudeOf | src/interface.rs:92-102 | The latitude label holds `as_dms` of the latitude, the letter N exactly when the latitude is at least 0 (S otherwise), and the signed decimal value. |
| Interface.LongitudeOf | src/interface.rs:93-110 | The longitude label holds `as_dms` of the longitude, the letter E exactly when the longitude is at least 0 (W otherwise), and the signed decimal value. |
| Interface.LatitudeSignRecovered | src/interface.rs:92-102 | The letter together with the magnitude `abs(lat)` gives the signed latitude back. Below the `usize` range, the split triple comes within one second below that magnitude. |
| Interface.LongitudeSignRecovered | src/interface.rs:93-110 | The same for longitude with E and W. |
| Interface.GeographicOf | src/interface.rs:75-121 | The four geographic labels all show "none" exactly when the pixel has no sample. Otherwise they show the nearest sample's values: the elevation in metres and in feet (`ElevationOf`), the distance as `SiDistance` and `ImperialDistance` of the sample's distance (km or m, mi or yds, by the thresholds above), and latitude and longitude as `LatitudeOf` and `LongitudeOf` (the split, N or S, E or W). |
| Interface.Click | src/interface.rs:61-121 | The click position is cut down to a pixel with `as usize`. The direction labels are always set, from `get_azim_and_elev` of that pixel. The geographic labels are "none" exactly when the pixel has no sample, and otherwise are `GeographicOf` that pixel's samples. |
| Interface.ClickShowsNearestSample | src/interface.rs:75 | Samples behind the nearest one never change any label. |
| Interface.ClickOutsideClamps | src/interface.rs:65-66 | A click at a window position at or below 0 in both coordinates saturates to pixel (0, 0): the direction labels are `get_azim_and_elev(0, 0)` and the geographic labels those of pixel (0, 0). |

## Left out

- GTK widgets, layout, window sizing and the crosshair drawing (`src/interface.rs:27-57, 126-220`) are user interface, not logic.
- The `chosen_pixel` cell and `queue_draw` (`src/interface.rs:36, 63-64`) are event-loop state.
- `get_azim_and_elev` is not defined in the files modelled here. It is a function parameter of `Click`, so its formula is not modelled.
- `powf` is a function parameter, so the shape of the hue curve for land is not modelled. The land properties hold for every `powf`.
- `f64` is idealised as `real`: no rounding, infinities or NaN.
- `ColorFromElevDist` and everything built on it require a non-zero `max_distance`. With `max_distance = 0.0` the source divides to infinity or NaN, and the model has no such values.
- Label texts: the `format!` precisions (`{:.1}`, `{:.0}`, `{:.3}`, `{:.6}`) and the string layout are not modelled. The labels carry the numbers and units they would print, and the four "… none" texts are the single `NoneShown` value.
- `ImageSurface::create`, `get_data` and their `expect` failures (`src/rendering.rs:64-67`) are library calls. `CreateSurface` receives a buffer of `4 * width * height` bytes. The model does not include Cairo's row stride, which equals `4 * width` for RGB24.
- The alpha channel of an explicit `Rgb` colour is ignored, as in the source.
- `Click` requires the clicked pixel to lie inside the result grid. The source indexes `result[y][x]` unchecked and panics outside it; the panic is not modelled.
- `CreateSurface` requires the result grid to cover the declared width and height, for the same reason.
- `src/main.rs`, file loading and deserialisation are not part of this model.
