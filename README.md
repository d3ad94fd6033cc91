# DesktopImgFrame core, modelled in Dafny

DesktopImgFrame is a desktop picture-frame widget. It runs one or more borderless windows ("frames"), each showing one image from its own list of paths. This project models two sequential state machines and the records they share.

- **The frame window** (`Frame.MainWindow`, from `MainWindow.xaml.cs`). Its state is:
  - the window geometry;
  - the image's canvas position and its uniform scale;
  - the anchors used to tell a click from a drag (`_mouseDownPoint`, `_lastDragPoint`);
  - the touch-session flag `_isManipulating`;
  - the `FrameConfig` it shares with the orchestrator.

  Each event handler is a method that changes these fields. The methods cover:
  - zoom about a pivot, refused as a whole outside `[0.1, 10]`;
  - drag-panning, and telling a click from a drag;
  - ignoring mouse input while a touch session runs;
  - touch pinch and pan;
  - the fit to the window on load, on resize, on double click and after an image change;
  - moving to the next image (sequential or random), with the lock flag gating hover and click.
- **The orchestrator** (`Service.FrameService`, from `FrameService.cs`). Its state is the list of open windows, the config collection that is loaded and saved as a whole, and the `IsRunning` flag. Its events are kept as logs.
- **The records** (`Config`, from `ConfigEntity.cs`). `FrameConfig` and `ConfigEntity` are datatypes with their default values. A C# `FrameConfig` is one object shared by the window that shows it and the saved collection: the window changes it in place and the orchestrator removes it by reference. `Config.ConfigRef` models that object's identity, and its `value` holds the current contents.

The arithmetic sits in pure modules:
- `Viewport` holds the zoom, fit and pan formulas over exact reals.
- `Cycler` holds the index rule, with C#'s truncating `%` and unchecked `int` addition written out. It also holds image loading and the initial image.

How external things are represented:
- **Decoding:** a `Codec` maps each path that decodes to its pixel size. A path missing from the map, and an index outside the list, both make the load throw.
- **`Random.Next(0, Count)`:** a nondeterministic choice in `[0, Count)`.
- **Settings store:** `Start` takes the loaded collection as an argument, and `Stop` returns the collection it saves.
- **Window size:** the window is borderless, so its laid-out size (`ActualWidth`, `ActualHeight`) is taken to be its `Width` and `Height`.
- **Default placement:** the windowing system's default placement of a new window is the orchestrator's constant `placement`.

Where the code's behaviour is easy to misread:
- `ResetImageSize` makes a *cover* fit. The image is at least as large as the window in both dimensions and matches it in one (`MainWindow.xaml.cs:64-78`). Part of the image can be cropped; this is not a contain fit.
- The wheel handler does not check `_isManipulating`. The three mouse-button and move handlers check it, and so does `MainWindow_ManipulationDelta` (MainWindow.xaml.cs:316).
- A double click clears `_mouseDownPoint` only. `_lastDragPoint` keeps its value.
- A touch delta whose two scale components average to 1 still goes through `ScaleImage` with factor 1, which changes nothing. After a refused zoom, the translation delta is still applied.
- A drop appends the path and then advances as usual. In sequential order the advance lands on the dropped path's new index only when the frame was on its last image or was empty (see `Cycler.DropLandsOnNewPathIff`). The same path may of course also sit at an older index, and a dropped path that does not decode shows nothing new.
- `Stop` does not reset `IsRunning`. `Dispose` leaves the config collection alone. The windows it closes first record their geometry in their configs, so the saved collection holds the closing geometry.

## Model

| member | source | states |
|---|---|---|
| Config.DefaultRect | ConfigEntity.cs:12 | the default `WindowRect` has zero width and height |
| Config.DefaultFrameConfig | ConfigEntity.cs:5-13 | a new FrameConfig has no paths, index 0, is unlocked and sequential, has interval 5, and its rect has no area, so Init does not apply it |
| Config.DefaultConfigEntity | ConfigEntity.cs:14-17 | a new ConfigEntity has an empty frame-config list |
| Config.ConfigRef.constructor | ConfigEntity.cs:5-13 | a new FrameConfig object holds the given contents |
| Viewport.ZoomAbout | MainWindow.xaml.cs:218-249 | if either candidate scale `scale*f` is outside [0.1, 10], the layout is unchanged. Otherwise both scales are multiplied by f and the pivot's distance to the image corner is multiplied by f (new left = c - (c - left)*f). The image size is untouched |
| Viewport.ZoomKeepsPivot | MainWindow.xaml.cs:234-242 | an accepted zoom leaves the image-space point under the pivot, (c - left)/scale, where it was |
| Viewport.ZoomKeepsScaleInvariant | MainWindow.xaml.cs:227-232 | from a uniform scale in [0.1, 10], every zoom keeps the scale uniform and in range |
| Viewport.WheelInScenario | MainWindow.xaml.cs:215-249 | one notch in at (50, 50), from scale 1 at the origin, gives scale 1.1 with the image at (-5, -5) |
| Viewport.Fit | MainWindow.xaml.cs:59-78 | the fit sets scale 1 and position (0, 0), keeps the bitmap's aspect ratio w/h, and covers the viewport in both dimensions, matching it exactly in one |
| Viewport.FitIsSmallestCover | MainWindow.xaml.cs:64-78 | the fitted size is the smallest size with the bitmap's aspect ratio that covers the viewport |
| Viewport.Refit | MainWindow.xaml.cs:55-80 | with a bitmap the layout becomes the fit; with no bitmap nothing changes |
| Viewport.Pan | MainWindow.xaml.cs:291-303 | a move shifts the image by exactly the pointer's offset from the last drag point and changes nothing else |
| Viewport.DragTelescopes | MainWindow.xaml.cs:291-303 | a press at p1 followed by moves ending at pn shifts the image by exactly pn - p1 |
| Cycler.Decode | MainWindow.xaml.cs:143 | a load succeeds exactly for decodable paths, and the bitmap carries that path and the pixel width and height the codec gives for it |
| Cycler.Wrap32 | MainWindow.xaml.cs:139 | C# `int` addition is the identity in range and wraps int.MaxValue + 1 to int.MinValue |
| Cycler.CsRem | MainWindow.xaml.cs:139 | C# `%` gives a remainder with the dividend's sign, and a in [0, n) is its own remainder |
| Cycler.CsRemMatchesMod | MainWindow.xaml.cs:139 | on a non-negative dividend C#'s `%` is the Euclidean remainder; on a negative one it is the negated remainder of the magnitude |
| Cycler.CsRemNonNeg | MainWindow.xaml.cs:139 | on a non-negative dividend the truncating remainder equals the Euclidean one |
| Cycler.NextSequential | MainWindow.xaml.cs:139 | from an index in range the next index is index+1, or 0 after the last; from -1 up to int.MaxValue - 1 it lands in range; from int.MaxValue the addition wraps to int.MinValue and the result lies in (-n, 0], outside the list unless n is a power of two |
| Cycler.LoadAt | MainWindow.xaml.cs:141-146 | a load yields a bitmap exactly when the index is in range and its path decodes, and for an index in range it is the decoding of that path |
| Cycler.AfterLoad | MainWindow.xaml.cs:141-146 | after a successful load the new bitmap is shown fitted; after a failed one the previous picture stays |
| Cycler.AdvanceStaysInRange | MainWindow.xaml.cs:131-140 | from an index in range, an advance in either order keeps the paths and gives an index in range |
| Cycler.IterateInRange | MainWindow.xaml.cs:139 | k <= n sequential advances from i reach i+k, less n once it passes the end |
| Cycler.SequentialCycleReturns | MainWindow.xaml.cs:139 | n sequential advances from any in-range index return to it |
| Cycler.SequentialCycleVisitsAll | MainWindow.xaml.cs:139 | the first n sequential advances visit every index, each exactly once |
| Cycler.DropLandsOnNewPathIff | MainWindow.xaml.cs:119-139 | in sequential order, the advance after a drop lands on the dropped path's index (the new last one) exactly when the frame was on its last image or was empty |
| Cycler.ThreeAdvancesScenario | MainWindow.xaml.cs:139 | with three images, index 0 advances to 1, 1 to 2, and 2 back to 0 |
| Cycler.FreshFrameShowsNothing | MainWindow.xaml.cs:113-116 | a new FrameConfig fails the guard `Count > Index`, so the frame opens with no image |
| Cycler.InitAsWritten | MainWindow.xaml.cs:113-116 | Init throws exactly when `Count > Index` holds and the image at Index does not load |
| Cycler.InitAsWrittenThrowsOnMissingFile | MainWindow.xaml.cs:115 | a stored path that no longer decodes makes Init throw |
| Cycler.InitAsWrittenThrowsOnNegativeIndex | MainWindow.xaml.cs:113-115 | a stored index of -1 makes Init throw, even on an empty list |
| Cycler.InitialSource | MainWindow.xaml.cs:113-116 | the frame opens showing the image at the stored index exactly when it loads, and otherwise with no image |
| Cycler.InitialSourceRefinesInit | MainWindow.xaml.cs:113-116 | the corrected Init agrees with the code wherever the code does not throw |
| Frame.MainWindow.constructor | MainWindow.xaml.cs:103-117 | the window gets the stored rect when it has an area, else its default placement. It shows the initial source without advancing, starts at scale 1 with no anchors and no touch session, and is valid |
| Frame.MainWindow.ResetImageSize | MainWindow.xaml.cs:55-80 | with a bitmap the layout becomes the cover fit for the window size; with none nothing changes; the scale invariant holds |
| Frame.MainWindow.Loaded | MainWindow.xaml.cs:45-48 | loading refits |
| Frame.MainWindow.SizeChanged | MainWindow.xaml.cs:50-53 | a resize records the new size and refits to it |
| Frame.MainWindow.Closing | MainWindow.xaml.cs:98-101 | closing sets the config's WindowRect to exactly (Left, Top, Width, Height) and changes nothing else in it |
| Frame.MainWindow.NextImage | MainWindow.xaml.cs:129-147 | an empty list changes nothing. Otherwise the index follows the sequential rule, or is any index in [0, n) in random order. A successful load shows the image fitted; a failed load keeps the new index but leaves the picture and layout as they were |
| Frame.MainWindow.Drop | MainWindow.xaml.cs:119-127 | a drop appends the path and then advances, even when locked; a drop with no path changes nothing |
| Frame.MainWindow.MouseEnter | MainWindow.xaml.cs:149-155 | locked: nothing changes; unlocked: exactly one advance |
| Frame.MainWindow.MouseLeave | MainWindow.xaml.cs:169-174 | hover-leave never changes the config or the picture |
| Frame.MainWindow.LockBtnClick | MainWindow.xaml.cs:206-209 | the lock button flips Locked and nothing else |
| Frame.MainWindow.ScaleImage | MainWindow.xaml.cs:218-249 | the image layout becomes ZoomAbout of the old one, and the scale invariant holds |
| Frame.MainWindow.MouseWheel | MainWindow.xaml.cs:213-216 | a wheel notch zooms by 1.1 (delta > 0) or 1/1.1 about the pointer, whether or not a touch session runs |
| Frame.MainWindow.MouseLeftButtonDown | MainWindow.xaml.cs:251-265 | during a touch session nothing changes. A double click refits and clears only the mouse-down anchor. Any other press sets both anchors to the point |
| Frame.MainWindow.MouseLeftButtonUp | MainWindow.xaml.cs:267-284 | during a touch session nothing changes. Otherwise a release at the press point advances once if unlocked, any other release changes no config or picture, and both anchors are cleared |
| Frame.MainWindow.MouseMove | MainWindow.xaml.cs:286-304 | with a drag anchor and no touch session, the image pans by the offset from the anchor and the anchor moves to the pointer; otherwise nothing changes |
| Frame.MainWindow.ManipulationStarted | MainWindow.xaml.cs:307-312 | a touch session starts |
| Frame.MainWindow.ManipulationDelta | MainWindow.xaml.cs:314-337 | outside a session nothing changes. Inside one, a scale delta other than (1, 1) zooms about the manipulation origin by (sx+sy)/2, and then the translation is added even when the zoom was refused |
| Frame.MainWindow.ManipulationCompleted | MainWindow.xaml.cs:339-343 | the touch session ends |
| Frame.MainWindow.PressDragRelease | MainWindow.xaml.cs:251-304 | a press at p1, moves and a release at the last point pn shift the image by exactly pn - p1. The gesture advances (if unlocked) only when pn == p1, and it leaves both anchors clear |
| Service.RemoveFirst | FrameService.cs:41-42 | `List.Remove` leaves a list without x unchanged and otherwise drops one element, keeping only elements of the list |
| Service.RemoveFirstMultiset | FrameService.cs:41-42 | removal drops exactly one occurrence of x |
| Service.RemoveFirstAt | FrameService.cs:41-42 | removing at the first occurrence i gives the list less its i-th element, others in order |
| Service.RemoveFromDistinct | FrameService.cs:41-42 | in a list without repeats, removal drops exactly that element and keeps no repeats |
| Service.RemovalKeepsInvariant | FrameService.cs:39-42 | removing an open window and its config keeps both lists free of repeats, removes the config from both, and keeps windows aligned with configs |
| Service.FrameService.Data | FrameService.cs:81 | the saved collection holds each config's current contents, in order |
| Service.FrameService.constructor | FrameService.cs:11-13 | a new service is not running and has no windows and no configs |
| Service.FrameService.SetIsRunning | FrameService.cs:14-24 | assigning IsRunning fires IsRunningChanged with the new value exactly when the value changes |
| Service.FrameService.CreateNewFrame | FrameService.cs:28-35 | one new default config and one new window bound to it are appended, existing entries stay, and alignment is preserved |
| Service.FrameService.RemoveFrame | FrameService.cs:37-50 | a window that is not open changes nothing. An open one is removed with its config (by reference), the rest keep their order, it records its geometry, OnForceStop fires exactly when no window is left, and alignment is preserved |
| Service.FrameService.Dispose | FrameService.cs:52-59 | every window records its geometry in its config, the window list is emptied, and the config collection stays |
| Service.FrameService.Start | FrameService.cs:61-76 | IsRunning is set (firing once if it was false). The collection is the loaded one, or one default if that was empty. One new window per config is appended in collection order, so starting with no windows leaves windows and configs aligned |
| Service.FrameService.ShowAll | FrameService.cs:70-75 | one new window per config, in collection order, each showing its initial source |
| Service.FrameService.Materialize | FrameService.cs:64 | loading gives one fresh config object per stored record, in order |
| Service.FrameService.Stop | FrameService.cs:78-82 | Stop disposes and then saves the collection as it stands; IsRunning is not reset |

## Left out

- Animations: the opacity and blur ramps of `Window_MouseEnter` and `Window_MouseLeave` (MainWindow.xaml.cs:156-166, 175-183) are time-driven rendering. Only the lock check and the advance are modelled, so `Frame.MainWindow.MouseLeave` changes nothing.
- Theming, window chrome and capture: `GlobalService_OnThemeColorChanged`, `SetToolWindow`, the `BtnGrid` opacity toggles, `CaptureMouse` and `ReleaseMouseCapture` are UI plumbing.
- `NewFrameBtn_Click` and `CloseBtn_Click` reach the orchestrator through the `ServiceInstance` singleton. They are the orchestrator's `CreateNewFrame` and `RemoveFrame`, called directly.
- Image decoding is the codec's business: `BitmapImage` and `Uri` are a foreign library, modelled as the `Codec` map. Asynchronous loading inside WPF is not modelled.
- Randomness: `Random.Next` is a nondeterministic choice. Uniformity is not modelled.
- Settings persistence and the async plumbing of `Start` and `Stop` are I/O. A save followed by a load returning an equal collection is the store's property and is not modelled.
- Drop payload extraction (MainWindow.xaml.cs:121) is plumbing. Its result is the `Option<string>` argument of `Drop`.
- Floating point: positions and scales are exact reals. `0.1`, `1.1` and `1/1.1` are exact, and point equality at MainWindow.xaml.cs:274 is real equality. NaN and rounding are not modelled.
- The XAML is not part of this model. The image's initial canvas position (0, 0), scale 1 and size 0 before the first fit are assumed. WPF's unset values (NaN) are not modelled.
- The user moving the window (changes to Left and Top) comes from the platform and is not an operation here. Resizing is modelled by `SizeChanged`.
- `_manipulationStartCenter` is written and never read. `Interval` is stored but no timer uses it.
- Closing a window is modelled by its `Closing` handler only. The teardown of the window itself is not.
- Package.cs and App.xaml.cs are plugin metadata and application bootstrap.
- Frame.MainWindow.Drop: its precondition excludes a list that already holds int.MaxValue paths, where `List.Add` would throw.
- Service.FrameService.Start: its precondition asks that every loaded path list fits a `List<string>` (at most int.MaxValue elements), which a deserialised list always does.
- Frame.MainWindow.constructor: it models Init as corrected (see Findings). The exception that escapes Init in the code is modelled only by `Cycler.InitAsWritten`.

## Findings

| source | as written | input that shows it | evidently intended | confidence | as-written member | corrected member |
|---|---|---|---|---|---|---|
| MainWindow.xaml.cs:113-116 | Init loads `ImgPaths[Index]` outside any try/catch, guarded only by `Count > Index` | a stored config with `ImgPaths = ["C:\gone.png"]`, `Index = 0` and the file deleted; or `Index = -1` with any list | the frame opens with no image, as `NextImage` (lines 141-146) swallows its own load failures. Instead the exception escapes the MainWindow constructor and aborts `FrameService.Start` | medium; not executed | Cycler.InitAsWritten | Cycler.InitialSource |
