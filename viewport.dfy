/** The image placement arithmetic of MainWindow.xaml.cs, over exact reals: the pivot-preserving
    zoom of ScaleImage, the cover fit of ResetImageSize, and the drag pan of Img_MouseMove.
    The image sits on a canvas at (left, top); its ScaleTransform scales it about that corner. */
module Viewport {
  import opened Wrappers

  type Pos = x: int | x > 0 witness 1

  datatype Point = Point(x: real, y: real)

  /** A decoded image: the path it came from and BitmapSource.PixelWidth / PixelHeight. */
  datatype Bitmap = Bitmap(path: string, pixelWidth: Pos, pixelHeight: Pos)

  /** Canvas.Left/Top of the image, ImageScaleTransform.ScaleX/ScaleY, and Img.Width/Height. */
  datatype Layout = Layout(left: real, top: real, scaleX: real, scaleY: real, width: real, height: real)

  /** What the frame shows: Img.Source and how it is placed. */
  datatype Display = Display(source: Option<Bitmap>, layout: Layout)

  const MinScale: real := 0.1
  const MaxScale: real := 10.0
  /** The wheel factors: one notch in zooms by 1.1, one notch out by 1/1.1. */
  const WheelIn: real := 1.1
  const WheelOut: real := 1.0 / 1.1

  predicate InScaleRange(s: real)
  {
    MinScale <= s <= MaxScale
  }

  /** The guard of ScaleImage: both candidate scales must lie in [0.1, 10]. */
  predicate ZoomAccepted(l: Layout, f: real)
  {
    InScaleRange(l.scaleX * f) && InScaleRange(l.scaleY * f)
  }

  /** ScaleImage: multiply both scales by f and move the image so that the canvas point c keeps the
      image point under it; a step whose candidate scale leaves [0.1, 10] is refused as a whole. */
  function ZoomAbout(l: Layout, c: Point, f: real): (r: Layout)
    ensures !ZoomAccepted(l, f) ==> r == l
    ensures ZoomAccepted(l, f) ==> r.scaleX == l.scaleX * f && r.scaleY == l.scaleY * f
    ensures ZoomAccepted(l, f) ==> c.x - r.left == (c.x - l.left) * f && c.y - r.top == (c.y - l.top) * f
    ensures r.width == l.width && r.height == l.height
  {
    if ZoomAccepted(l, f) then
      var dx, dy := c.x - l.left, c.y - l.top;
      l.(left := c.x - dx * f, top := c.y - dy * f, scaleX := l.scaleX * f, scaleY := l.scaleY * f)
    else
      l
  }

  /** The image-space coordinates of canvas point c: undo the translation, then the scale. */
  function ImagePointUnder(l: Layout, c: Point): Point
    requires l.scaleX != 0.0 && l.scaleY != 0.0
  {
    Point((c.x - l.left) / l.scaleX, (c.y - l.top) / l.scaleY)
  }

  /** An accepted zoom keeps the image point under the pivot where it was. */
  lemma ZoomKeepsPivot(l: Layout, c: Point, f: real)
    requires ZoomAccepted(l, f)
    ensures l.scaleX != 0.0 && l.scaleY != 0.0
    ensures ZoomAbout(l, c, f).scaleX != 0.0 && ZoomAbout(l, c, f).scaleY != 0.0
    ensures ImagePointUnder(ZoomAbout(l, c, f), c) == ImagePointUnder(l, c)
  {
  }

  /** One wheel notch in at (50, 50) from scale 1 at the origin: scale 1.1, image at (-5, -5). */
  lemma WheelInScenario(w: real, h: real)
    ensures ZoomAbout(Layout(0.0, 0.0, 1.0, 1.0, w, h), Point(50.0, 50.0), WheelIn)
         == Layout(-5.0, -5.0, 1.1, 1.1, w, h)
  {
  }

  /** Zooming never takes a uniform, in-range scale out of range or makes it non-uniform. */
  lemma ZoomKeepsScaleInvariant(l: Layout, c: Point, f: real)
    requires l.scaleX == l.scaleY && InScaleRange(l.scaleX)
    ensures ZoomAbout(l, c, f).scaleX == ZoomAbout(l, c, f).scaleY
    ensures InScaleRange(ZoomAbout(l, c, f).scaleX)
  {
  }

  /** ResetImageSize for a bitmap: scale 1, image at the origin, then the height is tried at the
      viewport height; when that makes the image narrower than the viewport, the width is fixed to
      the viewport width instead. The image always covers the viewport, keeping its aspect ratio. */
  function Fit(b: Bitmap, vw: real, vh: real): (r: Layout)
    ensures r.left == 0.0 && r.top == 0.0 && r.scaleX == 1.0 && r.scaleY == 1.0
    ensures r.width * (b.pixelHeight as real) == r.height * (b.pixelWidth as real)
    ensures r.width >= vw && r.height >= vh
    ensures r.width == vw || r.height == vh
  {
    var ratio := (b.pixelWidth as real) / (b.pixelHeight as real);
    var width := vh * ratio;
    if width >= vw then
      Layout(0.0, 0.0, 1.0, 1.0, width, vh)
    else
      var height := vw / ratio;
      assert height * ratio == vw;
      Layout(0.0, 0.0, 1.0, 1.0, vw, height)
  }

  /** Of all sizes with the bitmap's aspect ratio that cover the viewport, Fit picks the smallest. */
  lemma FitIsSmallestCover(b: Bitmap, vw: real, vh: real, w: real, h: real)
    requires w * (b.pixelHeight as real) == h * (b.pixelWidth as real)
    requires w >= vw && h >= vh
    ensures Fit(b, vw, vh).width <= w && Fit(b, vw, vh).height <= h
  {
  }

  /** ResetImageSize on what is shown: refit when there is a bitmap, otherwise change nothing. */
  function Refit(d: Display, vw: real, vh: real): (r: Display)
    ensures r.source == d.source
    ensures d.source.None? ==> r == d
    ensures d.source.Some? ==> r.layout == Fit(d.source.value, vw, vh)
  {
    match d.source
    case Some(b) => d.(layout := Fit(b, vw, vh))
    case None => d
  }

  /** One Img_MouseMove step: shift the image by the pointer's offset from the last drag point. */
  function Pan(l: Layout, from: Point, to: Point): (r: Layout)
    ensures r.left - l.left == to.x - from.x && r.top - l.top == to.y - from.y
    ensures r == l.(left := r.left, top := r.top)
  {
    l.(left := l.left + (to.x - from.x), top := l.top + (to.y - from.y))
  }

  /** The pointer position after a drag that started at `anchor` and went through `moves`. */
  function LastPoint(anchor: Point, moves: seq<Point>): Point
  {
    if moves == [] then anchor else moves[|moves| - 1]
  }

  /** The layout after the pointer, held down at `anchor`, moves through `moves` in order. */
  function DragPath(l: Layout, anchor: Point, moves: seq<Point>): Layout
    decreases |moves|
  {
    if moves == [] then l
    else
      var before := moves[..|moves| - 1];
      Pan(DragPath(l, anchor, before), LastPoint(anchor, before), moves[|moves| - 1])
  }

  /** The per-move offsets telescope: a whole drag shifts the image by last point minus anchor. */
  lemma {:induction false} DragTelescopes(l: Layout, anchor: Point, moves: seq<Point>)
    ensures DragPath(l, anchor, moves)
         == l.(left := l.left + (LastPoint(anchor, moves).x - anchor.x),
               top := l.top + (LastPoint(anchor, moves).y - anchor.y))
  {
    if moves != [] {
      DragTelescopes(l, anchor, moves[..|moves| - 1]);
    }
  }
}
