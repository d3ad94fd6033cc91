/** One frame window (MainWindow.xaml.cs): its geometry, the placement of its image, the gesture
    bookkeeping that tells clicks from drags and mouse input from touch, and the FrameConfig it
    shares with the orchestrator. The window is borderless, so its laid-out size (ActualWidth,
    ActualHeight) is taken to be its Width and Height. */
module Frame {
  import opened Wrappers
  import opened Config
  import opened Viewport
  import opened Cycler

  /** `_lastDragPoint`, `_mouseDownPoint` and `_isManipulating`. */
  datatype Session = Session(lastDrag: Option<Point>, mouseDown: Option<Point>, manipulating: bool)

  class MainWindow {
    const config: ConfigRef

    // Window geometry: Left, Top, Width, Height.
    var winLeft: real
    var winTop: real
    var winWidth: real
    var winHeight: real

    // The image: Img.Source, Canvas.Left/Top, ImageScaleTransform.ScaleX/ScaleY, Img.Width/Height.
    var source: Option<Bitmap>
    var left: real
    var top: real
    var scaleX: real
    var scaleY: real
    var imgWidth: real
    var imgHeight: real

    var lastDragPoint: Option<Point>
    var mouseDownPoint: Option<Point>
    var isManipulating: bool

    ghost function Geometry(): Rect
      reads this
    {
      Rect(winLeft, winTop, winWidth, winHeight)
    }

    ghost function Placement(): Layout
      reads this
    {
      Layout(left, top, scaleX, scaleY, imgWidth, imgHeight)
    }

    ghost function Shown(): Display
      reads this
    {
      Display(source, Placement())
    }

    ghost function GestureState(): Session
      reads this
    {
      Session(lastDragPoint, mouseDownPoint, isManipulating)
    }

    /** The scale is uniform and within [0.1, 10]; the image list fits a List<string>. */
    ghost predicate Valid()
      reads this, config
    {
      scaleX == scaleY && InScaleRange(scaleX) && Storable(config.value)
    }

    /** The constructor and Init: apply the stored rect only when it has an area, otherwise keep the
        platform's placement; show the image at the stored index without advancing. */
    constructor (config: ConfigRef, codec: Codec, placement: Rect)
      requires Storable(config.value)
      ensures this.config == config && Valid()
      ensures Geometry() == if HasArea(config.value.windowRect) then config.value.windowRect else placement
      ensures source == InitialSource(config.value, codec)
      ensures Placement() == Layout(0.0, 0.0, 1.0, 1.0, 0.0, 0.0)
      ensures GestureState() == Session(None, None, false)
    {
      this.config := config;
      left, top, scaleX, scaleY, imgWidth, imgHeight := 0.0, 0.0, 1.0, 1.0, 0.0, 0.0;
      lastDragPoint, mouseDownPoint, isManipulating := None, None, false;
      var rect := config.value.windowRect;
      if HasArea(rect) {
        winLeft, winTop, winWidth, winHeight := rect.left, rect.top, rect.width, rect.height;
      } else {
        winLeft, winTop, winWidth, winHeight := placement.left, placement.top, placement.width, placement.height;
      }
      source := InitialSource(config.value, codec);
    }

    /** ResetImageSize: with a bitmap, fit it to the window; without one, nothing changes. */
    method ResetImageSize()
      requires Valid()
      modifies this
      ensures Valid()
      ensures Shown() == Refit(old(Shown()), winWidth, winHeight)
      ensures Geometry() == old(Geometry()) && GestureState() == old(GestureState())
    {
      if source.Some? {
        var b := source.value;
        scaleX, scaleY := 1.0, 1.0;
        left, top := 0.0, 0.0;
        var l := Fit(b, winWidth, winHeight);
        imgWidth, imgHeight := l.width, l.height;
      }
    }

    /** MainWindow_Loaded. */
    method Loaded()
      requires Valid()
      modifies this
      ensures Valid()
      ensures Shown() == Refit(old(Shown()), winWidth, winHeight)
      ensures Geometry() == old(Geometry()) && GestureState() == old(GestureState())
    {
      ResetImageSize();
    }

    /** MainWindow_SizeChanged, with the new size the layout pass reports. */
    method SizeChanged(width: real, height: real)
      requires Valid()
      modifies this
      ensures Valid()
      ensures Geometry() == old(Geometry()).(width := width, height := height)
      ensures Shown() == Refit(old(Shown()), width, height)
      ensures GestureState() == old(GestureState())
    {
      winWidth, winHeight := width, height;
      ResetImageSize();
    }

    /** MainWindow_Closing: record the window's geometry in its config. */
    method Closing()
      modifies config
      ensures config.value == old(config.value).(windowRect := Geometry())
    {
      config.value := config.value.(windowRect := Rect(winLeft, winTop, winWidth, winHeight));
    }

    /** NextImage: with a nonempty list pick the next index (any index in range in random order),
        then load it; a load that throws is swallowed, leaving the picture as it was. */
    method NextImage(codec: Codec)
      requires Valid()
      modifies this, config
      ensures Valid()
      ensures Advanced(old(config.value), old(Shown()), config.value, Shown(), codec, winWidth, winHeight)
      ensures Geometry() == old(Geometry()) && GestureState() == old(GestureState())
    {
      var c := config.value;
      var n := |c.imgPaths|;
      if n == 0 {
        return;
      }
      if c.randomOrder {
        var k: int :| 0 <= k < n;
        config.value := c.(index := k);
      } else {
        config.value := c.(index := NextSequential(c.index, n));
      }
      var loaded := LoadAt(config.value.imgPaths, config.value.index, codec);
      if loaded.Some? {
        source := loaded;
        ResetImageSize();
      }
    }

    /** Window_Drop: a dropped path is appended and then NextImage runs, whether or not the frame
        is locked. A drop that carries no path changes nothing. */
    method Drop(path: Option<string>, codec: Codec)
      requires Valid() && |config.value.imgPaths| < Int32Max
      modifies this, config
      ensures Valid()
      ensures path.None? ==> config.value == old(config.value) && Shown() == old(Shown())
      ensures path.Some? ==>
                Advanced(old(config.value).(imgPaths := old(config.value.imgPaths) + [path.value]), old(Shown()),
                         config.value, Shown(), codec, winWidth, winHeight)
      ensures Geometry() == old(Geometry()) && GestureState() == old(GestureState())
    {
      if path.Some? {
        config.value := config.value.(imgPaths := config.value.imgPaths + [path.value]);
        NextImage(codec);
      }
    }

    /** Window_MouseEnter: advance once unless locked (the fade-in animation is not modelled). */
    method MouseEnter(codec: Codec)
      requires Valid()
      modifies this, config
      ensures Valid()
      ensures old(config.value.locked) ==> config.value == old(config.value) && Shown() == old(Shown())
      ensures !old(config.value.locked) ==>
                Advanced(old(config.value), old(Shown()), config.value, Shown(), codec, winWidth, winHeight)
      ensures Geometry() == old(Geometry()) && GestureState() == old(GestureState())
    {
      if config.value.locked {
        return;
      }
      NextImage(codec);
    }

    /** Window_MouseLeave: only a fade-out animation, which is not modelled; it never advances. */
    method MouseLeave()
      requires Valid()
      ensures config.value == old(config.value) && Shown() == old(Shown())
    {
    }

    /** LockBtn_Click. */
    method LockBtnClick()
      requires Valid()
      modifies config
      ensures Valid()
      ensures config.value == old(config.value).(locked := !old(config.value.locked))
    {
      config.value := config.value.(locked := !config.value.locked);
    }

    /** ScaleImage: the pivot-preserving zoom, refused whole outside [0.1, 10]. */
    method ScaleImage(center: Point, factor: real)
      requires Valid()
      modifies this
      ensures Valid()
      ensures Placement() == ZoomAbout(old(Placement()), center, factor)
      ensures source == old(source) && Geometry() == old(Geometry()) && GestureState() == old(GestureState())
    {
      ZoomKeepsScaleInvariant(Placement(), center, factor);
      var newScaleX := scaleX * factor;
      var newScaleY := scaleY * factor;
      if newScaleX < 0.1 || newScaleX > 10.0 || newScaleY < 0.1 || newScaleY > 10.0 {
        return;
      }
      var imagePointX, imagePointY := center.x - left, center.y - top;
      var newLeft, newTop := center.x - imagePointX * factor, center.y - imagePointY * factor;
      left, top := newLeft, newTop;
      scaleX, scaleY := newScaleX, newScaleY;
    }

    /** MainWindow_MouseWheel: one notch zooms by 1.1 (delta > 0) or by 1/1.1 about the pointer.
        The touch flag does not gate it. */
    method MouseWheel(position: Point, delta: int)
      requires Valid()
      modifies this
      ensures Valid()
      ensures Placement() == ZoomAbout(old(Placement()), position, if delta > 0 then WheelIn else WheelOut)
      ensures source == old(source) && Geometry() == old(Geometry()) && GestureState() == old(GestureState())
    {
      ScaleImage(position, if delta > 0 then 1.1 else 1.0 / 1.1);
    }

    /** Img_MouseLeftButtonDown: ignored during a touch session; a double click refits and forgets
        the mouse-down point (the drag point is left as it was); any other press anchors both. */
    method MouseLeftButtonDown(position: Point, clickCount: int)
      requires Valid()
      modifies this
      ensures Valid()
      ensures old(isManipulating) ==> Shown() == old(Shown()) && GestureState() == old(GestureState())
      ensures !old(isManipulating) && clickCount == 2 ==>
                Shown() == Refit(old(Shown()), winWidth, winHeight)
                && GestureState() == old(GestureState()).(mouseDown := None)
      ensures !old(isManipulating) && clickCount != 2 ==>
                Shown() == old(Shown())
                && GestureState() == Session(Some(position), Some(position), false)
      ensures Geometry() == old(Geometry())
    {
      if isManipulating {
        return;
      }
      if clickCount == 2 {
        ResetImageSize();
        mouseDownPoint := None;
        return;
      }
      mouseDownPoint, lastDragPoint := Some(position), Some(position);
    }

    /** Img_MouseLeftButtonUp: ignored during a touch session; a release exactly where the press
        was is a click, which advances unless locked; both anchors are cleared. */
    method MouseLeftButtonUp(position: Point, codec: Codec)
      requires Valid()
      modifies this, config
      ensures Valid()
      ensures old(isManipulating) ==>
                config.value == old(config.value) && Shown() == old(Shown()) && GestureState() == old(GestureState())
      ensures !old(isManipulating) ==> GestureState() == Session(None, None, false)
      ensures !old(isManipulating) && old(mouseDownPoint) == Some(position) && !old(config.value.locked) ==>
                Advanced(old(config.value), old(Shown()), config.value, Shown(), codec, winWidth, winHeight)
      ensures !old(isManipulating) && (old(mouseDownPoint) != Some(position) || old(config.value.locked)) ==>
                config.value == old(config.value) && Shown() == old(Shown())
      ensures Geometry() == old(Geometry())
    {
      if isManipulating {
        return;
      }
      if mouseDownPoint.Some? && position == mouseDownPoint.value {
        if !config.value.locked {
          NextImage(codec);
        }
      }
      mouseDownPoint := None;
      lastDragPoint := None;
    }

    /** Img_MouseMove: ignored during a touch session; while a drag point is set, move the image
        by the pointer's offset from it and make the pointer the new drag point. */
    method MouseMove(position: Point)
      requires Valid()
      modifies this
      ensures Valid()
      ensures old(isManipulating) || old(lastDragPoint).None? ==>
                Shown() == old(Shown()) && GestureState() == old(GestureState())
      ensures !old(isManipulating) && old(lastDragPoint).Some? ==>
                Placement() == Pan(old(Placement()), old(lastDragPoint).value, position)
                && source == old(source)
                && GestureState() == old(GestureState()).(lastDrag := Some(position))
      ensures Geometry() == old(Geometry())
    {
      if isManipulating {
        return;
      }
      if lastDragPoint.Some? {
        var offsetX, offsetY := position.x - lastDragPoint.value.x, position.y - lastDragPoint.value.y;
        lastDragPoint := Some(position);
        left := left + offsetX;
        top := top + offsetY;
      }
    }

    /** MainWindow_ManipulationStarted: a touch session begins. */
    method ManipulationStarted()
      requires Valid()
      modifies this
      ensures Valid()
      ensures GestureState() == old(GestureState()).(manipulating := true)
      ensures Shown() == old(Shown()) && Geometry() == old(Geometry())
    {
      isManipulating := true;
    }

    /** MainWindow_ManipulationDelta: outside a touch session it is ignored; otherwise a scale delta
        other than (1, 1) zooms about the manipulation origin by the mean of its two components
        (refused whole outside [0.1, 10]), and then the translation delta is added in any case. */
    method ManipulationDelta(scale: Point, translation: Point, origin: Point)
      requires Valid()
      modifies this
      ensures Valid()
      ensures !old(isManipulating) ==> Shown() == old(Shown())
      ensures old(isManipulating) ==>
                var zoomed := if scale.x != 1.0 || scale.y != 1.0
                              then ZoomAbout(old(Placement()), origin, (scale.x + scale.y) / 2.0)
                              else old(Placement());
                Placement() == zoomed.(left := zoomed.left + translation.x, top := zoomed.top + translation.y)
                && source == old(source)
      ensures GestureState() == old(GestureState()) && Geometry() == old(Geometry())
    {
      if !isManipulating {
        return;
      }
      if scale.x != 1.0 || scale.y != 1.0 {
        var scaleFactor := (scale.x + scale.y) / 2.0;
        ScaleImage(origin, scaleFactor);
      }
      if translation.x != 0.0 || translation.y != 0.0 {
        left := left + translation.x;
        top := top + translation.y;
      }
    }

    /** MainWindow_ManipulationCompleted: the touch session ends. */
    method ManipulationCompleted()
      requires Valid()
      modifies this
      ensures Valid()
      ensures GestureState() == old(GestureState()).(manipulating := false)
      ensures Shown() == old(Shown()) && Geometry() == old(Geometry())
    {
      isManipulating := false;
    }

    /** A press at `down`, moves through `moves`, and a release where the pointer last was. All of
        it is ignored during a touch session. Otherwise the image ends up shifted by the release
        point minus the press point, and the gesture advances (if unlocked) exactly when the two
        points coincide. */
    method PressDragRelease(down: Point, moves: seq<Point>, codec: Codec)
      requires Valid()
      modifies this, config
      ensures Valid()
      ensures old(isManipulating) ==>
                config.value == old(config.value) && Shown() == old(Shown()) && GestureState() == old(GestureState())
      ensures !old(isManipulating) ==>
                var up := LastPoint(down, moves);
                var dragged := Display(old(source), old(Placement()).(left := old(left) + (up.x - down.x),
                                                                      top := old(top) + (up.y - down.y)));
                && GestureState() == Session(None, None, false)
                && (if up == down && !old(config.value.locked)
                    then Advanced(old(config.value), dragged, config.value, Shown(), codec, winWidth, winHeight)
                    else config.value == old(config.value) && Shown() == dragged)
      ensures Geometry() == old(Geometry())
    {
      if isManipulating {
        MouseLeftButtonDown(down, 1);
        var j := 0;
        while j < |moves|
          invariant 0 <= j <= |moves|
          invariant Valid() && config.value == old(config.value) && Shown() == old(Shown())
          invariant GestureState() == old(GestureState()) && Geometry() == old(Geometry())
        {
          MouseMove(moves[j]);
          j := j + 1;
        }
        MouseLeftButtonUp(LastPoint(down, moves), codec);
        return;
      }
      MouseLeftButtonDown(down, 1);
      ghost var start := old(Placement());
      var i := 0;
      while i < |moves|
        invariant 0 <= i <= |moves|
        invariant Valid() && config.value == old(config.value) && source == old(source)
        invariant Geometry() == old(Geometry())
        invariant GestureState() == Session(Some(LastPoint(down, moves[..i])), Some(down), false)
        invariant Placement() == DragPath(start, down, moves[..i])
      {
        assert moves[..i + 1][..i] == moves[..i];
        MouseMove(moves[i]);
        i := i + 1;
      }
      assert moves[..i] == moves;
      DragTelescopes(start, down, moves);
      MouseLeftButtonUp(LastPoint(down, moves), codec);
    }
  }
}
