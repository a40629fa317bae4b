/** What the viewer shows about a clicked pixel: the direction of the ray,
    and, when the ray met the terrain, the elevation, the distance in metric
    and imperial units and the coordinates in degrees, minutes and seconds.
    Only the values behind the label texts are modelled, not their
    formatting. */
module Interface {
  import opened Numeric
  import opened PanoramaData

  // ---------------------------------------------------------------------
  // Degrees, minutes and seconds

  datatype Dms = Dms(deg: nat, min: nat, sec: nat)

  /** The angle a (deg, min, sec) triple stands for. */
  function DmsValue(d: Dms): real
  {
    d.deg as real + d.min as real / 60.0 + d.sec as real / 3600.0
  }

  /** `as_dms`: the magnitude of an angle split into whole degrees, whole
      minutes and whole seconds, each cut down with `as usize`. */
  function AsDms(ang: real): (d: Dms)
    ensures d.deg <= USIZE_MAX && d.min <= USIZE_MAX && d.sec <= USIZE_MAX
    ensures Abs(ang) <= 0.0 ==> d == Dms(0, 0, 0)
    ensures Abs(ang) < USIZE_MAX as real ==> d.deg as real <= Abs(ang) < d.deg as real + 1.0
  {
    var a := Abs(ang);
    var deg := AsUsize(a);
    var min := AsUsize((a - deg as real) * 60.0);
    var sec := AsUsize((a - deg as real - min as real / 60.0) * 3600.0);
    Dms(deg, min, sec)
  }

  /** The sign of the angle is dropped. */
  lemma AsDmsIgnoresSign(ang: real)
    ensures AsDms(-ang) == AsDms(ang)
  {
    assert Abs(-ang) == Abs(ang);
  }

  /** Below the `usize` range, minutes and seconds are below 60 and the
      triple truncates: it never exceeds the angle's magnitude and falls
      short of it by less than one second. */
  lemma AsDmsTruncates(ang: real)
    requires Abs(ang) < USIZE_MAX as real
    ensures var d := AsDms(ang);
            d.min < 60 && d.sec < 60 &&
            DmsValue(d) <= Abs(ang) < DmsValue(d) + 1.0 / 3600.0
  {
    var a := Abs(ang);
    var d := AsDms(ang);
    var f := a - d.deg as real;
    assert 0.0 <= f < 1.0;
    FloorOfScaled(f, 60.0, d.min);
    var g := f - d.min as real / 60.0;
    assert a - d.deg as real - d.min as real / 60.0 == g;
    FloorOfScaled(g * 60.0, 60.0, d.sec);
    assert g * 3600.0 == g * 60.0 * 60.0;
  }

  /** For `0 <= f < 1`, `n = (f * k) as usize` with `k <= 60` is the whole
      part of `f * k`: `n < k` and `n / k <= f < (n + 1) / k`. */
  lemma FloorOfScaled(f: real, k: real, n: nat)
    requires 0.0 <= f < 1.0 && 1.0 <= k <= 60.0
    requires n == AsUsize(f * k)
    ensures (n as real) < k
    ensures n as real / k <= f < (n as real + 1.0) / k
  {
    var p := f * k;
    MulSigns(f, k);
    MulSigns(1.0 - f, k);
    assert k - p == (1.0 - f) * k;
    assert p < USIZE_MAX as real;
    assert n as real <= p < n as real + 1.0;
    assert p / k == f;
    DivideBoth(n as real, p, k);
    DivideBoth(p, n as real + 1.0, k);
  }

  /** A product of a non-negative and a positive number. */
  lemma MulSigns(a: real, b: real)
    requires 0.0 <= a && 0.0 < b
    ensures 0.0 <= a * b
    ensures 0.0 < a ==> 0.0 < a * b
  {
  }

  /** Dividing by a positive number keeps the order. */
  lemma DivideBoth(a: real, b: real, k: real)
    requires a <= b && 0.0 < k
    ensures a / k <= b / k
    ensures a < b ==> a / k < b / k
  {
    assert b / k - a / k == (b - a) / k;
  }

  /** A whole number of degrees within the `usize` range splits into itself
      and no minutes or seconds. */
  lemma WholeDegrees(n: nat)
    requires n <= USIZE_MAX
    ensures AsDms(n as real) == Dms(n, 0, 0)
  {
  }

  /** Splitting is the inverse of `DmsValue` on well-formed triples. */
  lemma AsDmsRoundTrip(d: Dms)
    requires d.deg <= USIZE_MAX && d.min < 60 && d.sec < 60
    ensures AsDms(DmsValue(d)) == d
  {
    var a := DmsValue(d);
    var frac := d.min as real / 60.0 + d.sec as real / 3600.0;
    assert 0.0 <= frac < 1.0;
    assert Abs(a) == a;
    assert a.Floor == d.deg by {
      assert d.deg as real <= a < d.deg as real + 1.0;
    }
    assert AsUsize(a) == d.deg;
    assert (a - d.deg as real) * 60.0 == d.min as real + d.sec as real / 60.0;
    assert AsUsize((a - d.deg as real) * 60.0) == d.min;
    assert (a - d.deg as real - d.min as real / 60.0) * 3600.0 == d.sec as real;
  }

  // ---------------------------------------------------------------------
  // Distances and elevations

  datatype LengthUnit = Metres | Kilometres | Yards | Miles

  /** A length as shown: a value and its unit. */
  datatype Reading = Reading(value: real, unit: LengthUnit)

  /** The length of one unit in metres, with the factors the viewer uses. */
  function UnitLength(u: LengthUnit): (m: real)
    ensures m > 0.0
  {
    match u
    case Metres => 1.0
    case Kilometres => 1000.0
    case Yards => 0.912
    case Miles => 1609.0
  }

  /** The length a reading stands for, in metres. */
  function InMetres(r: Reading): real
  {
    r.value * UnitLength(r.unit)
  }

  /** The metric distance: kilometres beyond 1000 m, metres otherwise. */
  function SiDistance(d: real): (r: Reading)
    ensures r.unit == Kilometres || r.unit == Metres
    ensures r.unit == Kilometres <==> d > 1000.0
    ensures r.unit == Kilometres ==> r.value > 1.0
    ensures r.unit == Metres ==> r.value <= 1000.0
    ensures InMetres(r) == d
  {
    if d > 1000.0 then Reading(d / 1000.0, Kilometres) else Reading(d, Metres)
  }

  /** The imperial distance: miles beyond 805 m, yards otherwise. */
  function ImperialDistance(d: real): (r: Reading)
    ensures r.unit == Miles || r.unit == Yards
    ensures r.unit == Miles <==> d > 805.0
    ensures r.unit == Miles ==> r.value > 805.0 / 1609.0
    ensures r.unit == Yards ==> r.value <= 805.0 / 0.912
    ensures InMetres(r) == d
  {
    if d > 805.0 then Reading(d / 1609.0, Miles) else Reading(d / 0.912, Yards)
  }

  /** An elevation in metres and in feet of 0.304 m. */
  datatype Elevation = Elevation(metres: real, feet: real)

  function ElevationOf(e: real): (r: Elevation)
    ensures r.metres == e && r.feet * 0.304 == e
    ensures (r.feet < 0.0 <==> e < 0.0) && Abs(r.feet) >= Abs(e)
  {
    Elevation(e, e / 0.304)
  }

  // ---------------------------------------------------------------------
  // Coordinates

  /** The hemisphere letter of a latitude: zero counts as north. */
  function LatitudeLetter(lat: real): (c: char)
    ensures c == 'N' || c == 'S'
    ensures c == 'N' <==> lat >= 0.0
  {
    if lat >= 0.0 then 'N' else 'S'
  }

  /** The hemisphere letter of a longitude: zero counts as east. */
  function LongitudeLetter(lon: real): (c: char)
    ensures c == 'E' || c == 'W'
    ensures c == 'E' <==> lon >= 0.0
  {
    if lon >= 0.0 then 'E' else 'W'
  }

  /** A coordinate as shown: the split magnitude, the hemisphere letter and
      the signed decimal value. */
  datatype Coordinate = Coordinate(dms: Dms, letter: char, decimal: real)

  function LatitudeOf(lat: real): (c: Coordinate)
    ensures c.dms == AsDms(lat) && c.decimal == lat
    ensures c.letter == 'N' || c.letter == 'S'
    ensures c.letter == 'N' <==> lat >= 0.0
  {
    Coordinate(AsDms(lat), LatitudeLetter(lat), lat)
  }

  function LongitudeOf(lon: real): (c: Coordinate)
    ensures c.dms == AsDms(lon) && c.decimal == lon
    ensures c.letter == 'E' || c.letter == 'W'
    ensures c.letter == 'E' <==> lon >= 0.0
  {
    Coordinate(AsDms(lon), LongitudeLetter(lon), lon)
  }

  /** The letter and the magnitude together give the signed latitude back:
      the magnitude is the angle for N and its negation for S. */
  lemma LatitudeSignRecovered(lat: real)
    ensures (if LatitudeOf(lat).letter == 'N' then Abs(lat) else -Abs(lat)) == lat
    ensures var c := LatitudeOf(lat);
            Abs(lat) < USIZE_MAX as real ==> DmsValue(c.dms) <= Abs(lat) < DmsValue(c.dms) + 1.0 / 3600.0
  {
    if Abs(lat) < USIZE_MAX as real {
      AsDmsTruncates(lat);
    }
  }

  /** The same for longitudes, with E and W. */
  lemma LongitudeSignRecovered(lon: real)
    ensures (if LongitudeOf(lon).letter == 'E' then Abs(lon) else -Abs(lon)) == lon
    ensures var c := LongitudeOf(lon);
            Abs(lon) < USIZE_MAX as real ==> DmsValue(c.dms) <= Abs(lon) < DmsValue(c.dms) + 1.0 / 3600.0
  {
    if Abs(lon) < USIZE_MAX as real {
      AsDmsTruncates(lon);
    }
  }

  // ---------------------------------------------------------------------
  // The labels set on a click

  /** The four geographic labels (elevation, distance, latitude,
      longitude): `NoneShown` stands for the four texts ending in "none" that
      are set when the ray met nothing. */
  datatype Geographic =
    | NoneShown
    | Shown(elevation: Elevation, si: Reading, imperial: Reading, latitude: Coordinate, longitude: Coordinate)

  /** Every label the click handler sets: the direction of the ray in
      degrees, and the geographic labels. */
  datatype Labels = Labels(dirElevation: real, dirAzimuth: real, geographic: Geographic)

  /** The geographic labels for the samples of one pixel: the nearest
      sample decides. */
  function GeographicOf(samples: seq<Sample>): (g: Geographic)
    ensures g.NoneShown? <==> samples == []
    ensures g.Shown? ==> var s := samples[0];
            g.elevation == ElevationOf(s.elevation) &&
            g.si == SiDistance(s.distance) && g.imperial == ImperialDistance(s.distance) &&
            g.latitude == LatitudeOf(s.lat) && g.longitude == LongitudeOf(s.lon) &&
            g.elevation.metres == s.elevation && g.elevation.feet * 0.304 == s.elevation &&
            InMetres(g.si) == s.distance && InMetres(g.imperial) == s.distance &&
            g.latitude.decimal == s.lat && g.longitude.decimal == s.lon &&
            g.latitude.dms == AsDms(s.lat) && g.longitude.dms == AsDms(s.lon) &&
            (g.latitude.letter == 'N' <==> s.lat >= 0.0) &&
            (g.longitude.letter == 'E' <==> s.lon >= 0.0) &&
            (g.si.unit == Kilometres <==> s.distance > 1000.0) &&
            (g.imperial.unit == Miles <==> s.distance > 805.0)
  {
    if |samples| > 0 then
      var s := samples[0];
      Shown(ElevationOf(s.elevation), SiDistance(s.distance), ImperialDistance(s.distance),
            LatitudeOf(s.lat), LongitudeOf(s.lon))
    else
      NoneShown
  }

  /** The button-press handler for a click at window position (px, py):
      the position is cut down to a pixel with `as usize`, the direction
      labels come from `azimElev`, which stands for
      `params.get_azim_and_elev`, and the geographic labels from the
      pixel's samples. The handler indexes `result[y][x]` directly, so the
      pixel must lie inside the result grid. */
  function Click(data: AllData, azimElev: (nat, nat) -> (real, real), px: real, py: real): (l: Labels)
    requires AsUsize(py) < |data.result| && AsUsize(px) < |data.result[AsUsize(py)]|
    ensures var x, y := AsUsize(px), AsUsize(py);
            l.dirAzimuth == azimElev(x, y).0 && l.dirElevation == azimElev(x, y).1 &&
            (l.geographic.NoneShown? <==> data.result[y][x] == []) &&
            l.geographic == GeographicOf(data.result[y][x])
  {
    var x := AsUsize(px);
    var y := AsUsize(py);
    var (azim, elev) := azimElev(x, y);
    Labels(elev, azim, GeographicOf(data.result[y][x]))
  }

  /** Only the nearest sample of the clicked pixel decides what is shown. */
  lemma ClickShowsNearestSample(data: AllData, azimElev: (nat, nat) -> (real, real), px: real, py: real, behind: seq<Sample>)
    requires AsUsize(py) < |data.result| && AsUsize(px) < |data.result[AsUsize(py)]|
    requires data.result[AsUsize(py)][AsUsize(px)] != []
    ensures var x, y := AsUsize(px), AsUsize(py);
            var more := data.(result := data.result[y := data.result[y][x := data.result[y][x] + behind]]);
            Click(more, azimElev, px, py) == Click(data, azimElev, px, py)
  {
    var x, y := AsUsize(px), AsUsize(py);
    assert (data.result[y][x] + behind)[0] == data.result[y][x][0];
  }

  /** A click at a window position left of and above the image clamps to
      pixel (0, 0): the direction and the geographic labels are those of
      that pixel. */
  lemma ClickOutsideClamps(data: AllData, azimElev: (nat, nat) -> (real, real), px: real, py: real)
    requires px <= 0.0 && py <= 0.0
    requires 0 < |data.result| && 0 < |data.result[0]|
    ensures Click(data, azimElev, px, py) == Labels(azimElev(0, 0).1, azimElev(0, 0).0, GeographicOf(data.result[0][0]))
  {
  }
}
