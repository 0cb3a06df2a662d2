/** The phone the wallpaper is made for: the grid is drawn at a third of the
    screen's pixel size, pushed down by the status-bar safe area, and
    exported scaled back up to the full screen size. */
module Devices {
  import opened Seqs
  import opened Geometry

  datatype Device = Device(name: string, width: nat, height: nat)

  /** The phone models offered to choose from, with their screen sizes. */
  const Models: seq<Device> := [
    Device("iPhone 16 Pro Max", 1320, 2868),
    Device("iPhone 14/15 Pro Max", 1290, 2796),
    Device("iPhone 16 Pro", 1206, 2622),
    Device("iPhone 14/15 Pro", 1179, 2556),
    Device("iPhone 15/16 Plus", 1290, 2796),
    Device("iPhone 14 Plus", 1284, 2778),
    Device("iPhone 15/16", 1179, 2556),
    Device("iPhone 13/14", 1170, 2532),
    Device("iPhone 12/13 Mini", 1080, 2340)
  ]

  /** Models whose status bar wraps the camera island. */
  const DynamicIsland: seq<string> := [
    "iPhone 16 Pro Max", "iPhone 14/15 Pro Max", "iPhone 16 Pro",
    "iPhone 14/15 Pro", "iPhone 15/16 Plus", "iPhone 15/16"
  ]

  /** Models with a notch. */
  const Notch: seq<string> := ["iPhone 14 Plus", "iPhone 13/14", "iPhone 12/13 Mini"]

  /** `Math.round` of a third of `n` pixels, as a whole number within one
      pixel of that third. */
  function Third(n: nat): (w: int)
    ensures 3 * w - 1 <= n <= 3 * w + 1
    ensures w >= 0
  {
    Round(n as real / 3.0)
  }

  /** The drawn grid's width: a third of the screen width, 400 without a
      device. */
  function GridWidth(device: Option<Device>): (w: int)
    ensures device.None? ==> w == 400
    ensures device.Some? ==> 3 * w - 1 <= device.value.width <= 3 * w + 1
  {
    if device.Some? then Third(device.value.width) else 400
  }

  /** The drawn grid's height: a third of the screen height, 700 without a
      device. */
  function GridHeight(device: Option<Device>): (h: int)
    ensures device.None? ==> h == 700
    ensures device.Some? ==> 3 * h - 1 <= device.value.height <= 3 * h + 1
  {
    if device.Some? then Third(device.value.height) else 700
  }

  /** How far the grid is pushed down below the status bar. */
  function SafeAreaOffset(device: Option<Device>): (o: int)
    ensures o == 59 <==> device.Some? && device.value.name in DynamicIsland
    ensures o == 44 <==> device.Some? && device.value.name !in DynamicIsland && device.value.name in Notch
    ensures o == 0 <==> device.None? || (device.value.name !in DynamicIsland && device.value.name !in Notch)
  {
    if device.None? then 0
    else if device.value.name in DynamicIsland then 59
    else if device.value.name in Notch then 44
    else 0
  }

  /** No model is in both lists, so the order of the two checks does not
      matter. */
  lemma IslandAndNotchDisjoint(name: string)
    ensures !(name in DynamicIsland && name in Notch)
  {
  }

  /** Every model offered gets a safe area. */
  lemma ModelsHaveSafeArea(i: nat)
    requires i < |Models|
    ensures SafeAreaOffset(Some(Models[i])) > 0
  {
  }

  /** The export's scale factor; `None` where no image is exported (no
      device chosen), and where the grid has no width, on which the program
      divides by zero. */
  function ExportScale(device: Option<Device>): (s: Option<real>)
    ensures s.Some? <==> device.Some? && GridWidth(device) != 0
    ensures s.Some? ==> s.value * GridWidth(device) as real == device.value.width as real
    ensures s.Some? ==> s.value > 0.0 || device.value.width == 0
  {
    if device.None? || GridWidth(device) == 0 then None
    else Some(device.value.width as real / GridWidth(device) as real)
  }

  /** Any screen at least two pixels wide can be exported. */
  lemma WideScreensExport(d: Device)
    requires d.width >= 2
    ensures ExportScale(Some(d)).Some?
  {
  }

  /** When both screen sides are multiples of three the export scale is
      exactly 3 and the exported image has exactly the screen's size. */
  lemma ExactThirds(d: Device)
    requires d.width > 0 && d.width % 3 == 0 && d.height % 3 == 0
    ensures GridWidth(Some(d)) == d.width / 3 && GridHeight(Some(d)) == d.height / 3
    ensures ExportScale(Some(d)) == Some(3.0)
    ensures 3.0 * GridHeight(Some(d)) as real == d.height as real
  {
    var w := GridWidth(Some(d));
    assert 3 * w == d.width;
    assert d.width as real == 3.0 * w as real;
    assert d.width as real / w as real == 3.0;
  }

  /** Every model offered exports at scale 3 to its exact screen size. */
  lemma ModelsExportAtThree(i: nat)
    requires i < |Models|
    ensures ExportScale(Some(Models[i])) == Some(3.0)
    ensures 3.0 * GridHeight(Some(Models[i])) as real == Models[i].height as real
  {
    ExactThirds(Models[i]);
  }
}
