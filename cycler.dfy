/** The image-cycling rules of MainWindow.xaml.cs: how NextImage moves Config.Index, how an image is
    loaded for an index, and what Init shows when a frame opens. Decoding is the codec's business:
    a Codec maps each path that decodes to the pixel size of its image. */
module Cycler {
  import opened Wrappers
  import opened Config
  import opened Viewport

  datatype PixelSize = PixelSize(width: Pos, height: Pos)

  /** The paths that `new BitmapImage(new Uri(path))` decodes, with the size of each bitmap. */
  type Codec = map<string, PixelSize>

  function Decode(codec: Codec, path: string): (r: Option<Bitmap>)
    ensures r.Some? <==> path in codec
    ensures r.Some? ==> r.value.path == path
    ensures r.Some? ==> r.value.pixelWidth == codec[path].width && r.value.pixelHeight == codec[path].height
  {
    if path in codec then Some(Bitmap(path, codec[path].width, codec[path].height)) else None
  }

  /** C#'s unchecked `int` arithmetic: reduce into [-2^31, 2^31). */
  function Wrap32(x: int): (r: Int32)
    ensures Int32Min <= x <= Int32Max ==> r == x
    ensures x == Int32Max + 1 ==> r == Int32Min
  {
    (x - Int32Min) % 0x1_0000_0000 + Int32Min
  }

  /** C#'s `%` on a positive divisor: it truncates toward zero, so the remainder has the dividend's
      sign. Written as repeated subtraction; CsRemMatchesMod ties it to Dafny's Euclidean `%`. */
  function CsRem(a: int, n: int): (r: int)
    requires n > 0
    decreases if a < 0 then 1 - a else a
    ensures a >= 0 ==> 0 <= r < n
    ensures a < 0 ==> -n < r <= 0
    ensures 0 <= a < n ==> r == a
    ensures a == n ==> r == 0
  {
    if a < 0 then -CsRem(-a, n)
    else if a < n then a
    else CsRem(a - n, n)
  }

  /** On a non-negative dividend C#'s `%` agrees with Dafny's; on a negative one it is the negated
      remainder of the magnitude. */
  lemma CsRemMatchesMod(a: int, n: int)
    requires n > 0
    ensures a >= 0 ==> CsRem(a, n) == a % n
    ensures a < 0 ==> CsRem(a, n) == -((-a) % n)
  {
    if a < 0 {
      CsRemNonNeg(-a, n);
    } else {
      CsRemNonNeg(a, n);
    }
  }

  /** The subtraction loop of CsRem computes the Euclidean remainder of a non-negative dividend. */
  lemma {:induction false} CsRemNonNeg(a: int, n: int)
    requires a >= 0 && n > 0
    ensures CsRem(a, n) == a % n
    decreases a
  {
    if a >= n {
      CsRemNonNeg(a - n, n);
      ModStep(a, n);
    }
  }

  /** Taking one divisor off a dividend leaves its remainder alone. */
  lemma ModStep(a: int, n: int)
    requires a >= n > 0
    ensures (a - n) % n == a % n
  {
    var q, r := a / n, a % n;
    assert a == q * n + r;
    assert a - n == (q - 1) * n + r;
    ModUnique(a - n, n, q - 1, r);
  }

  /** Euclidean division is unique: a quotient and a remainder in [0, n) that rebuild x are x's. */
  lemma ModUnique(x: int, n: int, q: int, r: int)
    requires n > 0 && 0 <= r < n && x == q * n + r
    ensures x % n == r
  {
    var q', r' := x / n, x % n;
    assert x == q' * n + r' && 0 <= r' < n;
    var d := q - q';
    assert d * n == q * n - q' * n;
  }

  /** The sequential rule of NextImage: `Index = (Index + 1) % Count`. From an index in range it is
      the next index, wrapping from the last back to 0; at int.MaxValue the addition wraps first. */
  function NextSequential(index: Int32, n: int): (r: Int32)
    requires 0 < n <= Int32Max
    ensures 0 <= index < n ==> r == if index + 1 < n then index + 1 else 0
    ensures -1 <= index < Int32Max ==> 0 <= r < n
    ensures index == Int32Max ==> -n < r <= 0
  {
    CsRem(Wrap32(index + 1), n)
  }

  /** `Img.Source = new BitmapImage(new Uri(ImgPaths[Index]))`: an index outside the list throws
      ArgumentOutOfRangeException and a path that does not decode throws too. */
  function LoadAt(paths: seq<string>, index: int, codec: Codec): (r: Option<Bitmap>)
    ensures r.Some? <==> 0 <= index < |paths| && paths[index] in codec
    ensures r.Some? ==> r.value.path == paths[index]
    ensures 0 <= index < |paths| ==> r == Decode(codec, paths[index])
  {
    if 0 <= index < |paths| then Decode(codec, paths[index]) else None
  }

  /** What a NextImage call that lands on `index` leaves on screen: the new bitmap, refitted to the
      viewport, when it loads; otherwise the old picture (the exception is swallowed). */
  function AfterLoad(paths: seq<string>, index: int, codec: Codec, d: Display, vw: real, vh: real): (r: Display)
    ensures LoadAt(paths, index, codec).None? ==> r == d
    ensures LoadAt(paths, index, codec).Some? ==>
              r.source == LoadAt(paths, index, codec) && r.layout == Fit(r.source.value, vw, vh)
  {
    match LoadAt(paths, index, codec)
    case Some(b) => Refit(Display(Some(b), d.layout), vw, vh)
    case None => d
  }

  /** The effect of one NextImage call on a frame's config and on what it shows, where (vw, vh) is
      the viewport. An empty list changes nothing; random order picks any index in [0, n); the
      sequential rule is NextSequential; nothing else in the config changes. */
  ghost predicate Advanced(c0: FrameConfig, d0: Display, c1: FrameConfig, d1: Display,
                           codec: Codec, vw: real, vh: real)
  {
    var n := |c0.imgPaths|;
    if n == 0 then
      c1 == c0 && d1 == d0
    else
      && n <= Int32Max
      && c1 == c0.(index := c1.index)
      && (if c0.randomOrder then 0 <= c1.index < n else c1.index == NextSequential(c0.index, n))
      && d1 == AfterLoad(c1.imgPaths, c1.index, codec, d0, vw, vh)
  }

  /** An advance from an index in range stays in range, whatever the order. */
  lemma AdvanceStaysInRange(c0: FrameConfig, d0: Display, c1: FrameConfig, d1: Display,
                            codec: Codec, vw: real, vh: real)
    requires Advanced(c0, d0, c1, d1, codec, vw, vh)
    requires |c0.imgPaths| > 0 && 0 <= c0.index < |c0.imgPaths|
    ensures c1.imgPaths == c0.imgPaths && 0 <= c1.index < |c1.imgPaths|
  {
  }

  /** `k` sequential advances from `index` over a list of length n. */
  function Iterate(index: Int32, n: int, k: nat): Int32
    requires 0 < n <= Int32Max
  {
    if k == 0 then index else NextSequential(Iterate(index, n, k - 1), n)
  }

  /** Up to n advances from an index in range: the start moved k places on, wrapping once. */
  lemma {:induction false} IterateInRange(i: Int32, n: int, k: nat)
    requires 0 <= i < n <= Int32Max && k <= n
    ensures Iterate(i, n, k) == if i + k < n then i + k else i + k - n
  {
    if k > 0 {
      IterateInRange(i, n, k - 1);
    }
  }

  /** How many sequential advances lead from index i to index j. */
  function StepsBetween(i: int, j: int, n: int): (k: nat)
    requires 0 <= i < n && 0 <= j < n
    ensures k < n
  {
    if i <= j then j - i else j - i + n
  }

  /** From an in-range index, n sequential advances come back to the start ... */
  lemma SequentialCycleReturns(i: Int32, n: int)
    requires 0 <= i < n <= Int32Max
    ensures Iterate(i, n, n) == i
  {
    IterateInRange(i, n, n);
  }

  /** ... after visiting each index of the list exactly once on the way. */
  lemma SequentialCycleVisitsAll(i: Int32, n: int)
    requires 0 <= i < n <= Int32Max
    ensures forall j :: 0 <= j < n ==> Iterate(i, n, StepsBetween(i, j, n)) == j
    ensures forall a, b :: 0 <= a < b < n ==> Iterate(i, n, a) != Iterate(i, n, b)
  {
    forall j | 0 <= j < n
      ensures Iterate(i, n, StepsBetween(i, j, n)) == j
    {
      IterateInRange(i, n, StepsBetween(i, j, n));
    }
    forall a, b | 0 <= a < b < n
      ensures Iterate(i, n, a) != Iterate(i, n, b)
    {
      IterateInRange(i, n, a);
      IterateInRange(i, n, b);
    }
  }

  /** A drop appends its path and then advances. In sequential order from an index in range the
      advance lands on the new last index, the dropped path's, exactly when the frame was showing
      the last image (or was empty, at index 0). */
  lemma DropLandsOnNewPathIff(i: Int32, n: nat)
    requires 0 <= i && (i < n || i == 0) && n < Int32Max
    ensures NextSequential(i, n + 1) == n <==> i == n - 1 || n == 0
  {
  }

  /** Init as the corrected model has it: the image at the stored index when it loads, else none. */
  function InitialSource(c: FrameConfig, codec: Codec): (r: Option<Bitmap>)
    ensures r.Some? <==> 0 <= c.index < |c.imgPaths| && c.imgPaths[c.index] in codec
    ensures r.Some? ==> r.value.path == c.imgPaths[c.index]
  {
    if |c.imgPaths| > c.index then LoadAt(c.imgPaths, c.index, codec) else None
  }

  /** A new frame has no paths and index 0, so the guard `Count > Index` fails and it opens empty. */
  lemma FreshFrameShowsNothing(codec: Codec)
    ensures InitAsWritten(DefaultFrameConfig(), codec) == NoImage
    ensures InitialSource(DefaultFrameConfig(), codec) == None
  {
  }

  /** Three images in sequential order from index 0: the advances go to 1, 2 and back to 0. */
  lemma ThreeAdvancesScenario()
    ensures NextSequential(0, 3) == 1 && NextSequential(1, 3) == 2 && NextSequential(2, 3) == 0
  {
  }

  /** The outcome of Init as written: the guard `Count > Index` and an unprotected load. */
  datatype InitOutcome = NoImage | Shows(bitmap: Bitmap) | Throws

  function InitAsWritten(c: FrameConfig, codec: Codec): (r: InitOutcome)
    ensures r.Throws? <==> c.index < |c.imgPaths| && LoadAt(c.imgPaths, c.index, codec).None?
    ensures r.Shows? ==> Some(r.bitmap) == LoadAt(c.imgPaths, c.index, codec)
  {
    if |c.imgPaths| > c.index then
      match LoadAt(c.imgPaths, c.index, codec)
      case Some(b) => Shows(b)
      case None => Throws
    else NoImage
  }

  /** A frame whose stored image no longer decodes makes Init throw ... */
  lemma InitAsWrittenThrowsOnMissingFile()
    ensures InitAsWritten(DefaultFrameConfig().(imgPaths := ["C:\\gone.png"]), map[]) == Throws
  {
  }

  /** ... and so does a negative stored index, even on an empty list. */
  lemma InitAsWrittenThrowsOnNegativeIndex()
    ensures InitAsWritten(DefaultFrameConfig().(index := -1), map[]) == Throws
  {
  }

  /** The corrected Init agrees with the code wherever the code does not throw, and opens the frame
      with no image where it does. */
  lemma InitialSourceRefinesInit(c: FrameConfig, codec: Codec)
    ensures InitAsWritten(c, codec) == NoImage ==> InitialSource(c, codec) == None
    ensures InitAsWritten(c, codec).Shows? ==> InitialSource(c, codec) == Some(InitAsWritten(c, codec).bitmap)
    ensures InitAsWritten(c, codec) == Throws ==> InitialSource(c, codec) == None
  {
  }
}
