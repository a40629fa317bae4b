/** The stored result of a panorama simulation: the run parameters and, for
    every output pixel, the samples its viewing ray produced. Every `f64` is a
    `real`. */
module PanoramaData {

  datatype Option<T> = None | Some(value: T)

  /** Rust's `u16`. */
  type U16 = n: int | 0 <= n <= 0xFFFF

  datatype Altitude = Absolute(metres: real) | Relative(metres: real)

  datatype Position = Position(latitude: real, longitude: real, altitude: Altitude)

  /** Viewing direction (azimuth), tilt (elevation angle) and field of view, all
      in degrees, and the distance at which the render stops. */
  datatype Frame = Frame(direction: real, tilt: real, fov: real, maxDistance: real)

  datatype Vector3 = Vector3(x: real, y: real, z: real)

  /** The colouring configuration. Both variants carry a `waterLevel`, so
      `coloring.waterLevel` is the shared accessor. The `maxDistance` of
      `Simple` belongs to the stored format and is not read by the renderer,
      which divides by `frame.maxDistance`. */
  datatype Coloring =
    | Simple(waterLevel: real, maxDistance: real)
    | Shading(waterLevel: real, ambientLight: real, lightDirection: Vector3)

  datatype View = View(position: Position, frame: Frame, coloring: Coloring, fogDistance: Option<real>)

  datatype Output = Output(width: U16, height: U16, showEyeLevel: bool)

  datatype Params = Params(view: View, output: Output)

  /** An explicit colour, each channel nominally in [0, 1]. */
  datatype Rgba = Rgba(r: real, g: real, b: real, a: real)

  /** How a sample is to be coloured: by the terrain tint, or with its own colour. */
  datatype PixelColor = Terrain | Rgb(color: Rgba)

  /** One point where a viewing ray met something. */
  datatype Sample = Sample(lat: real, lon: real, distance: real, elevation: real, color: PixelColor)

  /** `result[y][x]` lists the samples of pixel (x, y), nearest first. */
  datatype AllData = AllData(params: Params, result: seq<seq<seq<Sample>>>)

  /** The declared output size, as `usize`. */
  function Width(data: AllData): nat { data.params.output.width }
  function Height(data: AllData): nat { data.params.output.height }

  /** Every pixel of the declared raster has a sample list, so that
      `result[y][x]` never indexes outside the grid. */
  ghost predicate GridCovers(data: AllData)
  {
    Height(data) <= |data.result| &&
    forall y :: 0 <= y < Height(data) ==> Width(data) <= |data.result[y]|
  }
}
