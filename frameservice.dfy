/** The frame orchestrator (FrameService.cs): the list of open windows, the collection of frame
    configs that is loaded and saved as a whole, the IsRunning flag and the two events. Loading and
    saving are the settings store's business: Start takes the loaded collection as an argument and
    Stop returns the collection it saves. */
module Service {
  import opened Wrappers
  import opened Config
  import opened Cycler
  import opened Frame

  /** `List<T>.Remove`: drop the first element equal to x, if any. */
  function RemoveFirst<T(==)>(s: seq<T>, x: T): (r: seq<T>)
    ensures x !in s ==> r == s
    ensures x in s ==> |r| == |s| - 1
    ensures forall y :: y in r ==> y in s
  {
    if s == [] then []
    else
      assert s == [s[0]] + s[1..];
      if s[0] == x then s[1..]
      else [s[0]] + RemoveFirst(s[1..], x)
  }

  /** RemoveFirst drops exactly one occurrence of x and keeps every other element. */
  lemma {:induction false} RemoveFirstMultiset<T>(s: seq<T>, x: T)
    ensures multiset(RemoveFirst(s, x)) == multiset(s) - multiset{x}
  {
    if s != [] {
      assert s == [s[0]] + s[1..];
      if s[0] != x {
        RemoveFirstMultiset(s[1..], x);
      }
    }
  }

  /** Removing the element at its first occurrence i keeps the others in order. */
  lemma {:induction false} RemoveFirstAt<T>(s: seq<T>, i: nat)
    requires i < |s| && s[i] !in s[..i]
    ensures RemoveFirst(s, s[i]) == s[..i] + s[i + 1..]
  {
    if i > 0 {
      assert s[1..][i - 1] == s[i];
      assert s[1..][..i - 1] == s[1..i];
      assert s[i] != s[0];
      RemoveFirstAt(s[1..], i - 1);
      assert s[1..][..i - 1] + s[1..][i..] == s[1..i] + s[i + 1..];
    }
  }

  predicate Distinct<T(==)>(s: seq<T>)
  {
    forall i, j :: 0 <= i < j < |s| ==> s[i] != s[j]
  }

  /** In a list without repeats, removing an element drops exactly that one. */
  lemma RemoveFromDistinct<T>(s: seq<T>, i: nat)
    requires Distinct(s) && i < |s|
    ensures RemoveFirst(s, s[i]) == s[..i] + s[i + 1..]
    ensures Distinct(RemoveFirst(s, s[i])) && s[i] !in RemoveFirst(s, s[i])
  {
    RemoveFirstAt(s, i);
    var r := s[..i] + s[i + 1..];
    assert forall k :: 0 <= k < |r| ==> r[k] == s[if k < i then k else k + 1];
  }

  /** The config object each window in `ws` shows, in window order. */
  function ConfigsOf(ws: seq<MainWindow>): (cs: seq<ConfigRef>)
    ensures |cs| == |ws| && forall i :: 0 <= i < |ws| ==> cs[i] == ws[i].config
  {
    seq(|ws|, i requires 0 <= i < |ws| => ws[i].config)
  }

  lemma ConfigsOfSplice(ws: seq<MainWindow>, i: nat)
    requires i < |ws|
    ensures ConfigsOf(ws[..i] + ws[i + 1..]) == ConfigsOf(ws)[..i] + ConfigsOf(ws)[i + 1..]
  {
  }

  /** Windows with distinct configs are themselves distinct. */
  lemma DistinctWindows(ws: seq<MainWindow>)
    requires Distinct(ConfigsOf(ws))
    ensures Distinct(ws)
  {
    forall a, b | 0 <= a < b < |ws| ensures ws[a] != ws[b] {
      assert ConfigsOf(ws)[a] != ConfigsOf(ws)[b];
    }
  }

  lemma DistinctAppend<T>(s: seq<T>, x: T)
    requires Distinct(s) && x !in s
    ensures Distinct(s + [x])
  {
  }

  /** Removing an open window and its config keeps windows' configs and the collection free of
      repeats, drops the window's config from both, and keeps windows aligned with configs. */
  lemma RemovalKeepsInvariant(ws: seq<MainWindow>, cs: seq<ConfigRef>, w: MainWindow)
    requires Distinct(ConfigsOf(ws)) && Distinct(cs) && w in ws
    ensures var ws', cs' := RemoveFirst(ws, w), RemoveFirst(cs, w.config);
            && Distinct(ConfigsOf(ws')) && Distinct(cs')
            && w !in ws' && w.config !in ConfigsOf(ws') && w.config !in cs'
            && (ConfigsOf(ws) == cs ==> ConfigsOf(ws') == cs')
  {
    var i :| 0 <= i < |ws| && ws[i] == w;
    DistinctWindows(ws);
    RemoveFromDistinct(ws, i);
    RemoveFromDistinct(ConfigsOf(ws), i);
    ConfigsOfSplice(ws, i);
    if w.config in cs {
      var j :| 0 <= j < |cs| && cs[j] == w.config;
      RemoveFromDistinct(cs, j);
      assert ConfigsOf(ws) == cs ==> j == i;
    }
  }

  class FrameService {
    /** Where the platform puts a window whose stored rect has no area. */
    const placement: Rect

    var isRunning: bool
    var windows: seq<MainWindow>
    var configs: seq<ConfigRef>
    /** The arguments of the IsRunningChanged notifications fired so far, oldest first. */
    var runningChanged: seq<bool>
    /** How many times OnForceStop has fired. */
    var forceStops: nat

    /** Each window has its own config object, config objects are not shared within the
        collection, and every window and config is well formed. */
    ghost predicate Valid()
      reads this, windows, configs, set w | w in windows :: w.config
    {
      && Distinct(ConfigsOf(windows))
      && Distinct(configs)
      && (forall w :: w in windows ==> w.Valid())
      && (forall c :: c in configs ==> Storable(c.value))
    }

    /** The state Start builds from an empty window list and that creating and removing frames
        keep: window i shows config i of the collection, so there are as many windows as configs
        and each window's config is in the collection. */
    ghost predicate Aligned()
      reads this
    {
      ConfigsOf(windows) == configs
    }

    /** `config.Data`: the collection as it would be saved now. */
    function Data(): (e: ConfigEntity)
      reads this, configs
      ensures |e.frameConfigs| == |configs|
      ensures forall i :: 0 <= i < |configs| ==> e.frameConfigs[i] == configs[i].value
    {
      ConfigEntity(seq(|configs|, i reads this, configs requires 0 <= i < |configs| => configs[i].value))
    }

    constructor (placement: Rect)
      ensures this.placement == placement && Valid() && Aligned()
      ensures !isRunning && windows == [] && configs == []
      ensures runningChanged == [] && forceStops == 0
    {
      this.placement := placement;
      isRunning := false;
      windows := [];
      configs := [];
      runningChanged := [];
      forceStops := 0;
    }

    /** The IsRunning setter: IsRunningChanged fires only when the value actually changes. */
    method SetIsRunning(value: bool)
      modifies this`isRunning, this`runningChanged
      ensures isRunning == value
      ensures runningChanged == old(runningChanged) + (if old(isRunning) != value then [value] else [])
    {
      if isRunning != value {
        isRunning := value;
        runningChanged := runningChanged + [value];
      }
    }

    /** CreateNewFrame: add one default config and one window showing it; nothing else changes. */
    method CreateNewFrame(codec: Codec)
      requires Valid()
      modifies this
      ensures Valid()
      ensures |configs| == |old(configs)| + 1 && configs[..|old(configs)|] == old(configs)
      ensures fresh(configs[|old(configs)|]) && configs[|old(configs)|].value == DefaultFrameConfig()
      ensures |windows| == |old(windows)| + 1 && windows[..|old(windows)|] == old(windows)
      ensures fresh(windows[|old(windows)|]) && windows[|old(windows)|].config == configs[|old(configs)|]
      ensures old(Aligned()) ==> Aligned()
      ensures isRunning == old(isRunning) && runningChanged == old(runningChanged) && forceStops == old(forceStops)
    {
      var fc := new ConfigRef(DefaultFrameConfig());
      configs := configs + [fc];
      var w := new MainWindow(fc, codec, placement);
      windows := windows + [w];
    }

    /** RemoveFrame: a window that is not open changes nothing. An open one is dropped together with
        its config (both found by reference), the others keep their order, the window closes (and
        records its geometry in its config), and OnForceStop fires when no window is left. */
    method RemoveFrame(w: MainWindow)
      requires Valid()
      modifies this, w.config
      ensures Valid()
      ensures w !in old(windows) ==>
                windows == old(windows) && configs == old(configs) && forceStops == old(forceStops)
                && w.config.value == old(w.config.value)
      ensures w in old(windows) ==>
                && windows == RemoveFirst(old(windows), w) && w !in windows
                && configs == RemoveFirst(old(configs), w.config) && w.config !in configs
                && w.config.value == old(w.config.value).(windowRect := w.Geometry())
                && forceStops == old(forceStops) + (if windows == [] then 1 else 0)
      ensures old(Aligned()) ==> Aligned()
      ensures isRunning == old(isRunning) && runningChanged == old(runningChanged)
    {
      if w in windows {
        RemovalKeepsInvariant(windows, configs, w);
        configs := RemoveFirst(configs, w.config);
        windows := RemoveFirst(windows, w);
        assert forall v :: v in windows ==> v in old(windows) && v.config in ConfigsOf(windows);
        w.Closing();
        if |windows| == 0 {
          forceStops := forceStops + 1;
        }
      }
    }

    /** Dispose: close every window (each records its geometry in its config) and empty the window
        list; the config collection stays as it is, so it is what Stop saves. */
    method Dispose()
      requires Valid()
      modifies this, set w | w in windows :: w.config
      ensures Valid()
      ensures windows == [] && configs == old(configs)
      ensures forall w :: w in old(windows) ==> w.config.value == old(w.config.value).(windowRect := w.Geometry())
      ensures isRunning == old(isRunning) && runningChanged == old(runningChanged) && forceStops == old(forceStops)
    {
      var i := 0;
      while i < |windows|
        invariant 0 <= i <= |windows| && windows == old(windows) && configs == old(configs)
        invariant Valid()
        invariant forall k :: 0 <= k < |windows| ==>
                    windows[k].config.value == if k < i then old(windows[k].config.value).(windowRect := windows[k].Geometry())
                                               else old(windows[k].config.value)
        invariant forall c :: c in configs ==> c.value.imgPaths == old(c.value.imgPaths)
        invariant isRunning == old(isRunning) && runningChanged == old(runningChanged) && forceStops == old(forceStops)
      {
        windows[i].Closing();
        i := i + 1;
      }
      windows := [];
    }

    /** Start: take the loaded collection (one fresh config object per stored record), set IsRunning,
        add a default config when the collection is empty, and open one window per config in
        collection order, after any windows already open. */
    method Start(loaded: ConfigEntity, codec: Codec)
      requires Valid()
      requires forall fc :: fc in loaded.frameConfigs ==> Storable(fc)
      modifies this
      ensures Valid()
      ensures isRunning && runningChanged == old(runningChanged) + (if old(isRunning) then [] else [true])
      ensures Data() == if loaded.frameConfigs == [] then ConfigEntity([DefaultFrameConfig()]) else loaded
      ensures forall c :: c in configs ==> fresh(c)
      ensures |windows| == |old(windows)| + |configs| && windows[..|old(windows)|] == old(windows)
      ensures ConfigsOf(windows) == ConfigsOf(old(windows)) + configs
      ensures forall i :: |old(windows)| <= i < |windows| ==>
                fresh(windows[i]) && windows[i].source == InitialSource(windows[i].config.value, codec)
      ensures old(windows) == [] ==> Aligned()
      ensures forceStops == old(forceStops)
    {
      var refs := Materialize(loaded.frameConfigs);
      configs := refs;
      SetIsRunning(true);
      if |configs| == 0 {
        var fc := new ConfigRef(DefaultFrameConfig());
        configs := configs + [fc];
      }
      ShowAll(codec);
    }

    /** The loop of Start: one new window per config, in collection order. */
    method ShowAll(codec: Codec)
      requires Valid()
      requires forall c :: c in ConfigsOf(windows) ==> c !in configs
      modifies this
      ensures Valid()
      ensures configs == old(configs) && |windows| == |old(windows)| + |configs|
      ensures windows[..|old(windows)|] == old(windows)
      ensures ConfigsOf(windows) == ConfigsOf(old(windows)) + configs
      ensures forall i :: |old(windows)| <= i < |windows| ==>
                fresh(windows[i]) && windows[i].source == InitialSource(windows[i].config.value, codec)
      ensures isRunning == old(isRunning) && runningChanged == old(runningChanged) && forceStops == old(forceStops)
    {
      ghost var before := windows;
      var i := 0;
      while i < |configs|
        invariant 0 <= i <= |configs| && configs == old(configs)
        invariant Valid()
        invariant |windows| == |before| + i && windows[..|before|] == before
        invariant ConfigsOf(windows) == ConfigsOf(before) + configs[..i]
        invariant forall k :: |before| <= k < |windows| ==>
                    fresh(windows[k]) && windows[k].source == InitialSource(windows[k].config.value, codec)
        invariant isRunning == old(isRunning) && runningChanged == old(runningChanged) && forceStops == old(forceStops)
      {
        var w := new MainWindow(configs[i], codec, placement);
        assert configs[..i + 1] == configs[..i] + [configs[i]];
        assert ConfigsOf(windows + [w]) == ConfigsOf(windows) + [w.config];
        DistinctAppend(ConfigsOf(windows), w.config);
        windows := windows + [w];
        i := i + 1;
      }
      assert configs[..i] == configs;
    }

    /** Part of `config.Load()`: one new config object per stored record, in order. */
    static method Materialize(fcs: seq<FrameConfig>) returns (refs: seq<ConfigRef>)
      ensures |refs| == |fcs| && Distinct(refs)
      ensures forall i :: 0 <= i < |refs| ==> fresh(refs[i]) && refs[i].value == fcs[i]
    {
      refs := [];
      var i := 0;
      while i < |fcs|
        invariant 0 <= i <= |fcs| && |refs| == i && Distinct(refs)
        invariant forall k :: 0 <= k < i ==> fresh(refs[k]) && refs[k].value == fcs[k]
      {
        var r := new ConfigRef(fcs[i]);
        refs := refs + [r];
        i := i + 1;
      }
    }

    /** Stop: Dispose, then save the collection. IsRunning is left as it was. */
    method Stop() returns (saved: ConfigEntity)
      requires Valid()
      modifies this, set w | w in windows :: w.config
      ensures Valid()
      ensures windows == [] && configs == old(configs) && saved == Data()
      ensures forall w :: w in old(windows) ==> w.config.value == old(w.config.value).(windowRect := w.Geometry())
      ensures isRunning == old(isRunning) && runningChanged == old(runningChanged) && forceStops == old(forceStops)
    {
      Dispose();
      saved := Data();
    }
  }
}
