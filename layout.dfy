/**
 * Window geometry: the centred placement computed when a window is opened, and the
 * style values a maximized window takes. Pixel values are reals (the browser's
 * floating-point rounding is not modelled).
 */
module Layout {
  import opened Wrappers
  import opened Pages

  /** Height of the taskbar strip reserved at the bottom of the viewport, in pixels. */
  const TaskbarHeight: int := 28

  /** A style length: a pixel count, or a CSS expression written verbatim. */
  datatype Length = Px(px: real) | Css(text: string)

  datatype Geometry = Geometry(left: Length, top: Length, width: Length, height: Length)

  /** The style values `maximizeWindow` writes: the whole desktop above the taskbar. */
  const MaximizedGeometry: Geometry :=
    Geometry(Css("0"), Css("0"), Css("100%"), Css("calc(100vh - 28px)"))

  /** `config.width || 0.8`: a missing or zero fraction falls back to 0.8. */
  function FractionOr(fraction: Option<real>): (f: real)
    ensures fraction.Some? && fraction.value != 0.0 ==> f == fraction.value
    ensures fraction.None? || fraction.value == 0.0 ==> f == 0.8
  {
    if fraction.Some? && fraction.value != 0.0 then fraction.value else 0.8
  }

  /**
   * The geometry `openWindow` gives a new window: the configured fraction of the
   * usable viewport, centred in it.
   */
  function InitialGeometry(innerWidth: int, innerHeight: int, config: WindowConfig): (g: Geometry)
    ensures g.left.Px? && g.top.Px? && g.width.Px? && g.height.Px?
    ensures g.width.px == innerWidth as real * FractionOr(config.width)
    ensures g.height.px == (innerHeight - TaskbarHeight) as real * FractionOr(config.height)
    ensures 2.0 * g.left.px + g.width.px == innerWidth as real
    ensures 2.0 * g.top.px + g.height.px == (innerHeight - TaskbarHeight) as real
  {
    var screenWidth := innerWidth as real;
    var screenHeight := (innerHeight - TaskbarHeight) as real;
    var width := screenWidth * FractionOr(config.width);
    var height := screenHeight * FractionOr(config.height);
    Geometry(Px((screenWidth - width) / 2.0), Px((screenHeight - height) / 2.0), Px(width), Px(height))
  }

  /** The home window opened at start-up in an 800 x 600 viewport is 400 x 286, centred. */
  lemma HomeWindowIn800By600()
    ensures InitialGeometry(800, 600, WindowConfigFor("index"))
         == Geometry(Px(200.0), Px(143.0), Px(400.0), Px(286.0))
  {
  }
}
