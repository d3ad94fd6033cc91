/** The persisted records of ConfigEntity.cs: one FrameConfig per frame and the ConfigEntity that
    holds them all, with the default values their property initialisers give. */
module Config {

  const Int32Min: int := -0x8000_0000
  const Int32Max: int := 0x7FFF_FFFF

  /** A C# `int`. */
  type Int32 = x: int | Int32Min <= x <= Int32Max

  /** System.Windows.Rect, as the window geometry is stored. */
  datatype Rect = Rect(left: real, top: real, width: real, height: real)

  /** `default(Rect)`: the value of the uninitialised `WindowRect` property. */
  function DefaultRect(): (r: Rect)
    ensures r.width == 0.0 && r.height == 0.0
  {
    Rect(0.0, 0.0, 0.0, 0.0)
  }

  /** The pattern `{ Width: > 0, Height: > 0 }` with which a window decides to apply a stored rect. */
  predicate HasArea(r: Rect)
  {
    r.width > 0.0 && r.height > 0.0
  }

  /** One frame's settings. `interval` is in minutes and is stored but not used by the frame. */
  datatype FrameConfig = FrameConfig(
    imgPaths: seq<string>,
    index: Int32,
    locked: bool,
    interval: Int32,
    randomOrder: bool,
    windowRect: Rect)

  /** A List<string> holds at most int.MaxValue paths. */
  predicate Storable(c: FrameConfig)
  {
    |c.imgPaths| <= Int32Max
  }

  /** `new FrameConfig()`. */
  function DefaultFrameConfig(): (c: FrameConfig)
    ensures c.imgPaths == [] && c.index == 0
    ensures !c.locked && !c.randomOrder && c.interval == 5
    ensures c.windowRect == DefaultRect() && !HasArea(c.windowRect)
  {
    FrameConfig([], 0, false, 5, false, DefaultRect())
  }

  /** The whole persisted collection. */
  datatype ConfigEntity = ConfigEntity(frameConfigs: seq<FrameConfig>)

  /** `new ConfigEntity()`. */
  function DefaultConfigEntity(): (e: ConfigEntity)
    ensures e.frameConfigs == []
  {
    ConfigEntity([])
  }

  /** FrameConfig is a C# class: the window that shows a frame and the collection that is saved share
      one object, which the window updates in place and the orchestrator removes by reference.
      A ConfigRef is that object's identity; `value` is its current contents. */
  class ConfigRef {
    var value: FrameConfig

    constructor (v: FrameConfig)
      ensures value == v
    {
      value := v;
    }
  }
}
