/** Turning the samples of a panorama into pixel colours, and those colours
    into the 4-byte-per-pixel buffer of a Cairo RGB24 image surface. */
module Rendering {
  import opened Numeric
  import opened PanoramaData

  /** The `(u8, u8, u8)` triple the renderer computes for a pixel. */
  datatype Color = Color(r: Byte, g: Byte, b: Byte)

  /** The colour of a pixel whose ray met nothing. */
  const Background: Color := Color(28, 28, 28)

  predicate HasChannel(c: Color, v: Byte)
  {
    c.r == v || c.g == v || c.b == v
  }

  predicate ChannelsWithin(c: Color, lo: Byte, hi: Byte)
  {
    lo <= c.r <= hi && lo <= c.g <= hi && lo <= c.b <= hi
  }

  // ---------------------------------------------------------------------
  // HSV to RGB

  /** The hue brought into [0, 360) the way `hsv` does it: Rust's truncating
      `%`, then 360 added to a negative remainder. */
  function NormaliseHue(h: real): (n: real)
    ensures 0.0 <= n < 360.0
  {
    var m := FRem(h, 360.0);
    if m < 0.0 then m + 360.0 else m
  }

  /** The normalised hue is the floored modulus of the hue by 360. */
  lemma NormaliseHueIsFloorMod(h: real)
    ensures NormaliseHue(h) == h - 360.0 * (h / 360.0).Floor as real
  {
    var q := h / 360.0;
    if q < 0.0 && q != q.Floor as real {
      assert Trunc(q) == q.Floor + 1;
    }
  }

  /** A whole turn added to the hue does not change it. */
  lemma NormaliseHuePeriodic(h: real)
    ensures NormaliseHue(h + 360.0) == NormaliseHue(h)
  {
    var q := h / 360.0;
    assert (h + 360.0) / 360.0 == q + 1.0;
    assert (q + 1.0).Floor == q.Floor + 1;
    NormaliseHueIsFloorMod(h);
    NormaliseHueIsFloorMod(h + 360.0);
  }

  /** Which 60-degree sector a normalised hue lies in. The six sectors cover
      [0, 360) without overlap, so exactly one branch of `hsv` is taken. */
  function Sector(h: real): (k: nat)
    requires 0.0 <= h < 360.0
    ensures k < 6
    ensures forall j: int :: InSector(h, j) <==> j == k
  {
    var k := (h / 60.0).Floor;
    assert InSector(h, k);
    forall j: int | InSector(h, j) ensures j == k {
      assert 60.0 * j as real <= h < 60.0 * k as real + 60.0;
      assert 60.0 * k as real <= h < 60.0 * j as real + 60.0;
    }
    k
  }

  predicate InSector(h: real, k: int)
  {
    60.0 * k as real <= h < 60.0 * (k + 1) as real
  }

  /** The `(r', g', b')` triple of `hsv` for a normalised hue: the chroma `c`,
      the intermediate `x` and zero, arranged by sector. */
  function SectorTriple(h: real, c: real, x: real): (t: (real, real, real))
    requires 0.0 <= h < 360.0
    ensures t.0 == 0.0 || t.1 == 0.0 || t.2 == 0.0
    ensures t.0 == c || t.1 == c || t.2 == c
    ensures t.0 in {c, x, 0.0} && t.1 in {c, x, 0.0} && t.2 in {c, x, 0.0}
  {
    if h >= 0.0 && h < 60.0 then (c, x, 0.0)
    else if h >= 60.0 && h < 120.0 then (x, c, 0.0)
    else if h >= 120.0 && h < 180.0 then (0.0, c, x)
    else if h >= 180.0 && h < 240.0 then (0.0, x, c)
    else if h >= 240.0 && h < 300.0 then (x, 0.0, c)
    else if h >= 300.0 && h < 360.0 then (c, 0.0, x)
    else assert false; (0.0, 0.0, 0.0)
  }

  /** The triple of every sector is a rearrangement of (c, x, 0). */
  lemma SectorTriplePermutes(h: real, c: real, x: real)
    requires 0.0 <= h < 360.0
    ensures var t := SectorTriple(h, c, x); multiset{t.0, t.1, t.2} == multiset{c, x, 0.0}
  {
    var t := SectorTriple(h, c, x);
    if h < 60.0 {
      assert t == (c, x, 0.0);
    } else if h < 120.0 {
      assert t == (x, c, 0.0);
    } else if h < 180.0 {
      assert t == (0.0, c, x);
    } else if h < 240.0 {
      assert t == (0.0, x, c);
    } else if h < 300.0 {
      assert t == (x, 0.0, c);
    } else {
      assert t == (c, 0.0, x);
    }
  }

  /** `SectorTriple` takes the branch of the sector its hue lies in. */
  lemma SectorTripleBySector(h: real, c: real, x: real)
    requires 0.0 <= h < 360.0
    ensures SectorTriple(h, c, x) ==
            [(c, x, 0.0), (x, c, 0.0), (0.0, c, x), (0.0, x, c), (x, 0.0, c), (c, 0.0, x)][Sector(h)]
  {
    var k := Sector(h);
    assert InSector(h, k);
  }

  /** The weight is a triangle wave over the sectors: it rises from 0 to 1
      across an even sector and falls from 1 to 0 across an odd one. */
  lemma SectorWeightTriangle(h: real)
    requires 0.0 <= h < 360.0
    ensures var k := Sector(h);
            SectorWeight(h) == if k % 2 == 0 then h / 60.0 - k as real else (k + 1) as real - h / 60.0
  {
    var k := Sector(h);
    assert InSector(h, k);
    assert k as real <= h / 60.0 < k as real + 1.0;
    assert Trunc(h / 60.0 / 2.0) == k / 2;
  }

  /** `1 - |(h / 60) % 2 - 1|`, the weight of the intermediate channel: for a
      normalised hue it lies in [0, 1]. */
  function SectorWeight(h: real): (w: real)
    requires 0.0 <= h < 360.0
    ensures 0.0 <= w <= 1.0
  {
    var f := FRem(h / 60.0, 2.0);
    assert 0.0 <= f < 2.0;
    1.0 - Abs(f - 1.0)
  }

  /** A non-negative `c` scaled by a weight in [0, 1] lies in [0, c]. */
  lemma ScaleWithin(c: real, w: real, x: real)
    requires 0.0 <= w <= 1.0 && x == c * w
    ensures 0.0 <= c ==> 0.0 <= x <= c
  {
    if 0.0 <= c {
      assert c * (1.0 - w) >= 0.0;
    }
  }

  /** The colour `rgb` made from a rearrangement `t` of (c, x, 0), each entry
      lifted by `v - c`, scaled by 255 and cast: it has the lifted `c`, which
      is `v`, and the lifted 0 among its channels, and when `0 <= x <= c`
      every channel lies between those two. */
  lemma LiftedTriple(t: (real, real, real), c: real, x: real, v: real, rgb: Color)
    requires 0.0 <= c ==> 0.0 <= x <= c
    requires t.0 == 0.0 || t.1 == 0.0 || t.2 == 0.0
    requires t.0 == c || t.1 == c || t.2 == c
    requires t.0 in {c, x, 0.0} && t.1 in {c, x, 0.0} && t.2 in {c, x, 0.0}
    requires rgb == Color(AsU8((t.0 + (v - c)) * 255.0), AsU8((t.1 + (v - c)) * 255.0), AsU8((t.2 + (v - c)) * 255.0))
    ensures HasChannel(rgb, AsU8(v * 255.0))
    ensures HasChannel(rgb, AsU8((v - c) * 255.0))
    ensures 0.0 <= c ==> ChannelsWithin(rgb, AsU8((v - c) * 255.0), AsU8(v * 255.0))
  {
    var m := v - c;
    assert t.0 == c || t.0 == x || t.0 == 0.0;
    assert t.1 == c || t.1 == x || t.1 == 0.0;
    assert t.2 == c || t.2 == x || t.2 == 0.0;
    assert (c + m) * 255.0 == v * 255.0;
    if 0.0 <= c {
      ChannelWithin(t.0, c, v);
      ChannelWithin(t.1, c, v);
      ChannelWithin(t.2, c, v);
    }
  }

  /** One channel `e` in [0, c], lifted by `v - c`: once cast it lies between
      the lifted 0 and `v`. */
  lemma ChannelWithin(e: real, c: real, v: real)
    requires 0.0 <= e <= c
    ensures AsU8((v - c) * 255.0) <= AsU8((e + (v - c)) * 255.0) <= AsU8(v * 255.0)
  {
    SatCastMonotone((v - c) * 255.0, (e + (v - c)) * 255.0, 255);
    SatCastMonotone((e + (v - c)) * 255.0, v * 255.0, 255);
  }

  /** HSV to RGB for a hue in degrees: the largest channel is the value `v`,
      the smallest `v - v * s`, each scaled by 255 and cast with `as u8`. */
  function Hsv(h: real, s: real, v: real): (rgb: Color)
    ensures HasChannel(rgb, AsU8(v * 255.0))
    ensures HasChannel(rgb, AsU8((v - v * s) * 255.0))
    ensures 0.0 <= v * s ==> ChannelsWithin(rgb, AsU8((v - v * s) * 255.0), AsU8(v * 255.0))
  {
    HsvOfNormalisedHue(NormaliseHue(h), s, v)
  }

  /** The part of `hsv` after the hue is normalised. */
  function HsvOfNormalisedHue(h: real, s: real, v: real): (rgb: Color)
    requires 0.0 <= h < 360.0
    ensures HasChannel(rgb, AsU8(v * 255.0))
    ensures HasChannel(rgb, AsU8((v - v * s) * 255.0))
    ensures 0.0 <= v * s ==> ChannelsWithin(rgb, AsU8((v - v * s) * 255.0), AsU8(v * 255.0))
  {
    var c := v * s;
    var w := SectorWeight(h);
    var x := c * w;
    var m := v - c;
    var t := SectorTriple(h, c, x);
    var rgb := Color(AsU8((t.0 + m) * 255.0), AsU8((t.1 + m) * 255.0), AsU8((t.2 + m) * 255.0));
    ScaleWithin(c, w, x);
    LiftedTriple(t, c, x, v, rgb);
    rgb
  }

  /** Only the hue modulo 360 matters. */
  lemma HsvPeriodic(h: real, s: real, v: real)
    ensures Hsv(h + 360.0, s, v) == Hsv(h, s, v)
  {
    NormaliseHuePeriodic(h);
  }

  /** Fully saturated colours have one channel at zero. */
  lemma FullySaturatedHasZero(h: real, v: real)
    ensures HasChannel(Hsv(h, 1.0, v), 0)
  {
    assert (v - v * 1.0) * 255.0 == 0.0;
  }

  // ---------------------------------------------------------------------
  // Hypsometric tint

  /** The terrain tint of a point at elevation `elev` seen from `dist` away.
      `pow065` stands for `x.powf(0.65)`. At or below the water level the
      point is blue water without red, fading with distance; above it the hue
      runs from green toward red and beyond with elevation. */
  function ColorFromElevDist(params: Params, pow065: real -> real, elev: real, dist: real): (rgb: Color)
    requires params.view.frame.maxDistance != 0.0
    ensures elev <= params.view.coloring.waterLevel ==> rgb.r == 0
    ensures elev <= params.view.coloring.waterLevel && dist == 0.0 ==> rgb == Color(0, 128, 255)
    ensures dist == 0.0 ==> HasChannel(rgb, 0)
  {
    var distRatio := dist / params.view.frame.maxDistance;
    if elev <= params.view.coloring.waterLevel then
      var mul := 1.0 - distRatio * 0.6;
      Color(0, AsU8(128.0 * mul), AsU8(255.0 * mul))
    else
      var elevRatio := elev / 4500.0;
      var h := 120.0 - 240.0 * (if elevRatio < 0.0 then -pow065(-elevRatio) else pow065(elevRatio));
      var v := (if elevRatio > 0.7 then 2.1 - elevRatio * 2.0 else 0.9 - elevRatio / 0.7 * 0.2)
               * (1.0 - distRatio * 0.6);
      var s := 1.0 - distRatio * 0.9;
      assert dist == 0.0 ==> s == 1.0;
      FullySaturatedHasZero(h, v);
      Hsv(h, s, v)
  }

  /** The colour of water does not depend on how far below the water level it
      lies, nor on the elevation curve. */
  lemma WaterIgnoresElevation(params: Params, pow1: real -> real, pow2: real -> real, e1: real, e2: real, dist: real)
    requires params.view.frame.maxDistance != 0.0
    requires e1 <= params.view.coloring.waterLevel && e2 <= params.view.coloring.waterLevel
    ensures ColorFromElevDist(params, pow1, e1, dist) == ColorFromElevDist(params, pow2, e2, dist)
  {
  }

  /** With a positive render distance, farther water is never brighter. */
  lemma WaterDarkensWithDistance(params: Params, pow065: real -> real, elev: real, d1: real, d2: real)
    requires params.view.frame.maxDistance > 0.0
    requires elev <= params.view.coloring.waterLevel && d1 <= d2
    ensures var near := ColorFromElevDist(params, pow065, elev, d1);
            var far := ColorFromElevDist(params, pow065, elev, d2);
            far.g <= near.g && far.b <= near.b
  {
    var md := params.view.frame.maxDistance;
    assert d2 / md - d1 / md == (d2 - d1) / md;
    var m1 := 1.0 - d1 / md * 0.6;
    var m2 := 1.0 - d2 / md * 0.6;
    SatCastMonotone(128.0 * m2, 128.0 * m1, 255);
    SatCastMonotone(255.0 * m2, 255.0 * m1, 255);
  }

  /** Water at half the render distance: the multiplier is 0.7, so the
      channels are 128 * 0.7 and 255 * 0.7 cut down to integers. */
  lemma WaterAtHalfDistance(params: Params, pow065: real -> real)
    requires params.view.frame.maxDistance == 1000.0 && params.view.coloring.waterLevel == 0.0
    ensures ColorFromElevDist(params, pow065, -10.0, 500.0) == Color(0, 89, 178)
  {
    assert 500.0 / 1000.0 == 0.5;
    assert (128.0 * 0.7).Floor == 89;
    assert (255.0 * 0.7).Floor == 178;
  }

  // ---------------------------------------------------------------------
  // Sample resolution and pixel colour

  /** `result.get(0)`: the nearest sample, if the ray met anything. */
  function FirstSample(samples: seq<Sample>): (first: Option<Sample>)
    ensures first.Some? <==> |samples| > 0
    ensures first.Some? ==> first.value == samples[0]
  {
    if |samples| > 0 then Some(samples[0]) else None
  }

  /** The colour of one sample: its own colour scaled to bytes, or the
      terrain tint. */
  function SampleColor(params: Params, pow065: real -> real, sample: Sample): (rgb: Color)
    requires params.view.frame.maxDistance != 0.0
    ensures sample.color.Terrain? && sample.elevation <= params.view.coloring.waterLevel ==> rgb.r == 0
    ensures sample.color.Terrain? && sample.distance == 0.0 ==> HasChannel(rgb, 0)
    ensures sample.color.Rgb? ==> var c := sample.color.color;
            rgb == Color(AsU8(c.r * 255.0), AsU8(c.g * 255.0), AsU8(c.b * 255.0))
  {
    match sample.color
    case Terrain => ColorFromElevDist(params, pow065, sample.elevation, sample.distance)
    case Rgb(c) => Color(AsU8(c.r * 255.0), AsU8(c.g * 255.0), AsU8(c.b * 255.0))
  }

  /** An explicit colour is shown as it is, whatever the sample's elevation
      and distance and whatever the water level: each channel `k` in [0, 1]
      is shown as the whole part of `255 * k`. */
  lemma ExplicitColorPassesThrough(p1: Params, p2: Params, pow1: real -> real, pow2: real -> real, s1: Sample, s2: Sample)
    requires p1.view.frame.maxDistance != 0.0 && p2.view.frame.maxDistance != 0.0
    requires s1.color.Rgb? && s1.color == s2.color
    ensures SampleColor(p1, pow1, s1) == SampleColor(p2, pow2, s2)
    ensures var c := s1.color.color;
            SampleColor(p1, pow1, s1) == Color(AsU8(c.r * 255.0), AsU8(c.g * 255.0), AsU8(c.b * 255.0)) &&
            (0.0 <= c.r <= 1.0 ==> SampleColor(p1, pow1, s1).r == (c.r * 255.0).Floor) &&
            (0.0 <= c.g <= 1.0 ==> SampleColor(p1, pow1, s1).g == (c.g * 255.0).Floor) &&
            (0.0 <= c.b <= 1.0 ==> SampleColor(p1, pow1, s1).b == (c.b * 255.0).Floor)
  {
  }

  /** The colour of a pixel from its sample list: the nearest sample decides,
      and an empty list gives the background. */
  function ResolveColor(params: Params, pow065: real -> real, samples: seq<Sample>): (rgb: Color)
    requires params.view.frame.maxDistance != 0.0
    ensures samples == [] ==> rgb == Background
    ensures samples != [] ==> rgb == SampleColor(params, pow065, samples[0])
  {
    match FirstSample(samples)
    case Some(s) => SampleColor(params, pow065, s)
    case None => Background
  }

  /** Samples behind the nearest one never change the pixel. */
  lemma FartherSamplesIgnored(params: Params, pow065: real -> real, samples: seq<Sample>, behind: seq<Sample>)
    requires params.view.frame.maxDistance != 0.0
    requires samples != []
    ensures ResolveColor(params, pow065, samples + behind) == ResolveColor(params, pow065, samples)
  {
    assert (samples + behind)[0] == samples[0];
  }

  // ---------------------------------------------------------------------
  // The image buffer

  /** The four bytes of a pixel in a Cairo RGB24 buffer: blue, green, red and
      an unused byte left at 0. */
  function PixelBytes(c: Color): (bytes: seq<Byte>)
    ensures |bytes| == 4
    ensures bytes[0] == c.b && bytes[1] == c.g && bytes[2] == c.r && bytes[3] == 0
  {
    [c.b, c.g, c.r, 0]
  }

  /** First byte of pixel (x, y) in a buffer `width` pixels wide. */
  function Offset(width: nat, x: nat, y: nat): (o: nat)
    ensures o % 4 == 0 && o / 4 == y * width + x
  {
    ((y * width) + x) * 4
  }

  /** The dividend and remainder determine the quotient and remainder. */
  lemma DivModUnique(n: int, d: int, q: int, r: int)
    requires 0 < d && 0 <= r < d && n == q * d + r
    ensures n / d == q && n % d == r
  {
    var q', r' := n / d, n % d;
    assert n == d * q' + r';
    assert d * (q - q') == r' - r;
    if q' < q {
      MulAtLeast(d, q - q');
    } else if q < q' {
      MulAtLeast(d, q' - q);
    }
  }

  lemma MulAtLeast(d: int, k: int)
    requires 0 < d && 1 <= k
    ensures d <= d * k
  {
    assert d * k - d == d * (k - 1);
  }

  /** Byte `k` of the slot of pixel (x, y) identifies x, y and k again. */
  lemma OffsetDecomposes(width: nat, x: nat, y: nat, k: nat)
    requires x < width && k < 4
    ensures (Offset(width, x, y) + k) % 4 == k
    ensures (Offset(width, x, y) + k) / 4 == y * width + x
    ensures (Offset(width, x, y) + k) / 4 / width == y
    ensures (Offset(width, x, y) + k) / 4 % width == x
  {
    DivModUnique(Offset(width, x, y) + k, 4, y * width + x, k);
    DivModUnique(y * width + x, width, y, x);
  }

  /** The slot of pixel (x, y) starts `4 * x` bytes into row `y`. */
  lemma OffsetSplits(width: nat, x: nat, y: nat)
    ensures Offset(width, x, y) == 4 * width * y + 4 * x
  {
  }

  /** Every byte of a pixel slot lies inside a buffer of `4 * width * height`
      bytes. */
  lemma SlotInBounds(width: nat, height: nat, x: nat, y: nat)
    requires x < width && y < height
    ensures Offset(width, x, y) + 3 < 4 * width * height
  {
    assert (y + 1) * width <= height * width by {
      assert (height - (y + 1)) * width >= 0;
    }
  }

  /** Different pixels, or different bytes of one pixel, never share a byte of
      the buffer. */
  lemma SlotsDisjoint(width: nat, x1: nat, y1: nat, k1: nat, x2: nat, y2: nat, k2: nat)
    requires x1 < width && x2 < width && k1 < 4 && k2 < 4
    requires (x1, y1, k1) != (x2, y2, k2)
    ensures Offset(width, x1, y1) + k1 != Offset(width, x2, y2) + k2
  {
    OffsetDecomposes(width, x1, y1, k1);
    OffsetDecomposes(width, x2, y2, k2);
  }

  /** Every byte of the buffer belongs to the slot of some pixel. */
  lemma EveryByteInASlot(width: nat, height: nat, i: nat)
    requires i < 4 * width * height
    ensures 0 < width
    ensures i / 4 % width < width && i / 4 / width < height
    ensures Offset(width, i / 4 % width, i / 4 / width) + i % 4 == i
  {
    var p := i / 4;
    assert p < width * height;
    if width == 0 {
      assert false;
    }
    var y, x := p / width, p % width;
    assert p == y * width + x;
  }

  /** The colours of the first `count` pixels of a row of sample lists. */
  function RowColors(params: Params, pow065: real -> real, row: seq<seq<Sample>>, count: nat): (colors: seq<Color>)
    requires params.view.frame.maxDistance != 0.0
    requires count <= |row|
    ensures |colors| == count
  {
    if count == 0 then [] else RowColors(params, pow065, row, count - 1) + [ResolveColor(params, pow065, row[count - 1])]
  }

  /** The colours of the first `count` rows, each `width` pixels long. */
  function GridColors(params: Params, pow065: real -> real, grid: seq<seq<seq<Sample>>>, width: nat, count: nat): (colors: seq<seq<Color>>)
    requires params.view.frame.maxDistance != 0.0
    requires count <= |grid|
    requires forall y :: 0 <= y < count ==> width <= |grid[y]|
    ensures |colors| == count
    ensures forall y :: 0 <= y < count ==> |colors[y]| == width
  {
    if count == 0 then [] else GridColors(params, pow065, grid, width, count - 1) + [RowColors(params, pow065, grid[count - 1], width)]
  }

  /** The model the renderer can draw: no division by a zero render distance,
      and a sample list for every pixel of the declared raster. */
  ghost predicate Renderable(data: AllData)
  {
    data.params.view.frame.maxDistance != 0.0 && GridCovers(data)
  }

  /** The colour of every pixel of the declared raster, row by row. */
  ghost function ColorGrid(data: AllData, pow065: real -> real): (colors: seq<seq<Color>>)
    requires Renderable(data)
    ensures |colors| == Height(data)
    ensures forall y :: 0 <= y < Height(data) ==> |colors[y]| == Width(data)
  {
    GridColors(data.params, pow065, data.result, Width(data), Height(data))
  }

  lemma {:induction false} RowColorsAt(params: Params, pow065: real -> real, row: seq<seq<Sample>>, count: nat, x: nat)
    requires params.view.frame.maxDistance != 0.0
    requires x < count <= |row|
    ensures RowColors(params, pow065, row, count)[x] == ResolveColor(params, pow065, row[x])
  {
    if x < count - 1 {
      RowColorsAt(params, pow065, row, count - 1, x);
    }
  }

  lemma {:induction false} GridColorsAt(params: Params, pow065: real -> real, grid: seq<seq<seq<Sample>>>, width: nat, count: nat, y: nat)
    requires params.view.frame.maxDistance != 0.0
    requires y < count <= |grid|
    requires forall y :: 0 <= y < count ==> width <= |grid[y]|
    ensures GridColors(params, pow065, grid, width, count)[y] == RowColors(params, pow065, grid[y], width)
  {
    if y < count - 1 {
      GridColorsAt(params, pow065, grid, width, count - 1, y);
    }
  }

  /** Pixel (x, y) of the colour grid is the colour its samples resolve to. */
  lemma ColorGridAt(data: AllData, pow065: real -> real, x: nat, y: nat)
    requires Renderable(data) && x < Width(data) && y < Height(data)
    ensures ColorGrid(data, pow065)[y][x] == ResolveColor(data.params, pow065, data.result[y][x])
  {
    GridColorsAt(data.params, pow065, data.result, Width(data), Height(data), y);
    RowColorsAt(data.params, pow065, data.result[y], Width(data), x);
  }

  /** The bytes of the first `count` pixels of a row, left to right. */
  function RowBytes(row: seq<Color>, count: nat): (bytes: seq<Byte>)
    requires count <= |row|
    ensures |bytes| == 4 * count
  {
    if count == 0 then [] else RowBytes(row, count - 1) + PixelBytes(row[count - 1])
  }

  /** The bytes of the first `count` rows, each `width` pixels long, top to
      bottom. */
  function RowsBytes(rows: seq<seq<Color>>, width: nat, count: nat): (bytes: seq<Byte>)
    requires count <= |rows|
    requires forall y :: 0 <= y < count ==> width <= |rows[y]|
    ensures |bytes| == 4 * width * count
  {
    if count == 0 then [] else RowsBytes(rows, width, count - 1) + RowBytes(rows[count - 1], width)
  }

  /** The whole image the renderer draws: every row of the declared raster,
      every pixel of a row, four bytes each. */
  ghost function Raster(data: AllData, pow065: real -> real): (img: seq<Byte>)
    requires Renderable(data)
    ensures |img| == 4 * Width(data) * Height(data)
  {
    RowsBytes(ColorGrid(data, pow065), Width(data), Height(data))
  }

  /** Pixel `x` of a row occupies bytes `4 * x` to `4 * x + 3` of the row. */
  lemma {:induction false} RowBytesAt(row: seq<Color>, count: nat, x: nat, k: nat)
    requires count <= |row| && x < count && k < 4
    ensures RowBytes(row, count)[4 * x + k] == PixelBytes(row[x])[k]
  {
    if x < count - 1 {
      RowBytesAt(row, count - 1, x, k);
    }
  }

  /** Row `y` occupies the `4 * width` bytes after the rows above it. */
  lemma {:induction false} RowsBytesAt(rows: seq<seq<Color>>, width: nat, count: nat, y: nat, j: nat)
    requires count <= |rows|
    requires forall y :: 0 <= y < count ==> width <= |rows[y]|
    requires y < count && j < 4 * width
    ensures RowsBytes(rows, width, count)[4 * width * y + j] == RowBytes(rows[y], width)[j]
  {
    var above := RowsBytes(rows, width, count - 1);
    RowStart(width, y, count - 1);
    if y < count - 1 {
      RowsBytesAt(rows, width, count - 1, y, j);
    } else {
      assert 4 * width * y == |above|;
    }
  }

  /** Row `y` ends where row `y + 1` starts, no later than the rows above
      row `count` end. */
  lemma RowStart(width: nat, y: nat, count: nat)
    ensures y < count ==> 4 * width * y + 4 * width <= 4 * width * count
    ensures y == count ==> 4 * width * y == 4 * width * count
    ensures 4 * width * (y + 1) == 4 * width * y + 4 * width
  {
    MulStep(4 * width, y);
    if y < count {
      MulMonotone(4 * width, y + 1, count);
    }
  }

  lemma MulStep(d: nat, y: nat)
    ensures d * (y + 1) == d * y + d
  {
  }

  lemma {:induction false} MulMonotone(d: nat, a: nat, b: nat)
    requires a <= b
    ensures d * a <= d * b
    decreases b - a
  {
    if a < b {
      MulMonotone(d, a + 1, b);
      MulStep(d, a);
    }
  }

  /** In the bytes of `height` rows of `width` pixels, the slot of pixel
      (x, y) holds that pixel's colour, blue first, then a zero byte. */
  lemma SlotHoldsPixel(rows: seq<seq<Color>>, width: nat, height: nat, x: nat, y: nat)
    requires height <= |rows|
    requires forall y :: 0 <= y < height ==> width <= |rows[y]|
    requires x < width && y < height
    ensures var o, img := Offset(width, x, y), RowsBytes(rows, width, height);
            o + 4 <= |img| && img[o..o + 4] == PixelBytes(rows[y][x])
  {
    var o, img := Offset(width, x, y), RowsBytes(rows, width, height);
    SlotInBounds(width, height, x, y);
    OffsetSplits(width, x, y);
    forall k | 0 <= k < 4
      ensures img[o + k] == PixelBytes(rows[y][x])[k]
    {
      RowsBytesAt(rows, width, height, y, 4 * x + k);
      RowBytesAt(rows[y], width, x, k);
    }
  }

  /** The slot of pixel (x, y) of the raster holds the colour the pixel's
      samples resolve to. */
  lemma RasterAt(data: AllData, pow065: real -> real, x: nat, y: nat)
    requires Renderable(data) && x < Width(data) && y < Height(data)
    ensures var o := Offset(Width(data), x, y);
            o + 4 <= |Raster(data, pow065)| &&
            Raster(data, pow065)[o..o + 4] == PixelBytes(ResolveColor(data.params, pow065, data.result[y][x]))
  {
    SlotHoldsPixel(ColorGrid(data, pow065), Width(data), Height(data), x, y);
    ColorGridAt(data, pow065, x, y);
  }

  /** A pixel with no sample is drawn as the background. */
  lemma EmptyPixelIsBackground(data: AllData, pow065: real -> real, x: nat, y: nat)
    requires Renderable(data) && x < Width(data) && y < Height(data)
    requires data.result[y][x] == []
    ensures var o := Offset(Width(data), x, y);
            o + 4 <= |Raster(data, pow065)| && Raster(data, pow065)[o..o + 4] == [28, 28, 28, 0]
  {
    RasterAt(data, pow065, x, y);
  }

  /** Replacing four bytes before `end` leaves the bytes from `end` on
      as they were. */
  lemma TailUntouched(before: seq<Byte>, pixel: nat, px: seq<Byte>, end: nat)
    requires pixel + 4 <= end <= |before| && |px| == 4
    ensures (before[..pixel] + px + before[pixel + 4..])[end..] == before[end..]
  {
    var after := before[..pixel] + px + before[pixel + 4..];
    assert |after| == |before|;
    forall i | end <= i < |before|
      ensures after[i] == before[i]
    {
    }
  }

  /** Replacing the four bytes just past a prefix of the buffer extends the
      prefix by those four bytes. */
  lemma WrittenPrefix(before: seq<Byte>, prefix: seq<Byte>, px: seq<Byte>)
    requires prefix <= before && |prefix| + 4 <= |before| && |px| == 4
    ensures prefix + px <= before[..|prefix|] + px + before[|prefix| + 4..]
  {
    assert before[..|prefix|] == prefix;
  }

  /** Drawing pixel `x` of a row appends its four bytes to what is drawn. */
  lemma RowGrows(above: seq<Byte>, row: seq<Color>, x: nat)
    requires x < |row|
    ensures above + RowBytes(row, x + 1) == (above + RowBytes(row, x)) + PixelBytes(row[x])
  {
    assert RowBytes(row, x + 1) == RowBytes(row, x) + PixelBytes(row[x]);
  }

  /** The rows down to row `y` are the rows above it followed by the
      pixels of row `y`. */
  lemma RasterRowsGrow(data: AllData, pow065: real -> real, y: nat)
    requires Renderable(data) && y < Height(data)
    ensures RowsBytes(ColorGrid(data, pow065), Width(data), y + 1) ==
            RowsBytes(ColorGrid(data, pow065), Width(data), y) + RowBytes(RowColors(data.params, pow065, data.result[y], Width(data)), Width(data))
  {
    GridColorsAt(data.params, pow065, data.result, Width(data), Height(data), y);
  }

  /** The four writes of one pixel: blue, green, red and a zero byte from
      `pixel` on; nothing else in the buffer changes. */
  method PutPixel(img: array<Byte>, pixel: nat, color: Color)
    requires pixel + 4 <= img.Length
    modifies img
    ensures img[..] == old(img[..])[..pixel] + PixelBytes(color) + old(img[..])[pixel + 4..]
  {
    img[pixel] := color.b;
    img[pixel + 1] := color.g;
    img[pixel + 2] := color.r;
    img[pixel + 3] := 0;
  }

  /** One pass of the outer loop of `create_surface`: draws row `y`, pixel
      by pixel, at `((y * width) + x) * 4`, right after the `above` bytes
      already drawn. */
  method DrawRow(data: AllData, pow065: real -> real, img: array<Byte>, y: nat, ghost above: seq<Byte>)
    requires data.params.view.frame.maxDistance != 0.0
    requires y < Height(data) && y < |data.result| && Width(data) <= |data.result[y]|
    requires |above| == 4 * Width(data) * y && |above| + 4 * Width(data) <= img.Length
    requires above <= img[..]
    modifies img
    ensures above + RowBytes(RowColors(data.params, pow065, data.result[y], Width(data)), Width(data)) <= img[..]
    ensures img[|above| + 4 * Width(data)..] == old(img[..])[|above| + 4 * Width(data)..]
  {
    var width := Width(data);
    ghost var row := RowColors(data.params, pow065, data.result[y], width);
    for x := 0 to width
      invariant above + RowBytes(row, x) <= img[..]
      invariant img[|above| + 4 * width..] == old(img[..])[|above| + 4 * width..]
    {
      var color := ResolveColor(data.params, pow065, data.result[y][x]);
      RowColorsAt(data.params, pow065, data.result[y], width, x);
      var pixel := ((y * width) + x) * 4;
      assert pixel == |above| + 4 * x by {
        OffsetSplits(width, x, y);
      }
      ghost var before := img[..];
      PutPixel(img, pixel, color);
      WrittenPrefix(before, above + RowBytes(row, x), PixelBytes(color));
      TailUntouched(before, pixel, PixelBytes(color), |above| + 4 * width);
      RowGrows(above, row, x);
    }
  }

  /** `create_surface`: fills the buffer row by row, so that it ends up
      holding the raster. */
  method CreateSurface(data: AllData, pow065: real -> real, img: array<Byte>)
    requires Renderable(data)
    requires img.Length == 4 * Width(data) * Height(data)
    modifies img
    ensures img[..] == Raster(data, pow065)
  {
    var width := Width(data);
    var height := Height(data);
    ghost var colors := ColorGrid(data, pow065);
    for y := 0 to height
      invariant RowsBytes(colors, width, y) <= img[..]
    {
      RowStart(width, y, height);
      DrawRow(data, pow065, img, y, RowsBytes(colors, width, y));
      RasterRowsGrow(data, pow065, y);
    }
    assert |RowsBytes(colors, width, height)| == img.Length;
  }
}
