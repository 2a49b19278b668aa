/** gatsby-plugin-image's loading state: the process-wide set of image
    keys (`JSON.stringify(image.images)`) known to be loaded, and the
    hydrator component's `isLoading` / `isLoaded` / `forceRender` flags,
    driven by mount, intersection, image-change, props-update, load and
    unmount events. Asynchronous steps (the dynamically loaded observer module,
    `decode()`) are separate events; outputs are the `onStartLoad` and
    `onLoad` callbacks in the order they are made. */
module ImageLoader {
  import opened Wrappers

  /** Browser capabilities: `"loading" in HTMLImageElement.prototype`,
      a server-rendered `<img data-gatsby-image-ssr>` inside the root,
      and the `GATSBY___IMAGE` global. */
  datatype Env = Env(nativeLazy: bool, ssrImage: bool, globalImage: bool)

  datatype Phase = Created | Mounted | Unmounted

  datatype Hydrator = Hydrator(
    key: string,
    phase: Phase,
    isLoading: bool,
    isLoaded: bool,
    forceRender: bool,
    /** The registered intersection observer and the caching flag it was
        set up with; None while nothing observes the root. */
    observer: Option<bool>,
    /** `hydrated.current`. */
    hydrated: bool,
    /** The `isLoaded` prop the hydrated main image was last rendered
        with; its `onLoad` handler reads this snapshot, not the live set.
        None while no hydrated main image (and so no handler) exists. */
    rendered: Option<bool>,
    /** The main image's `decode()` promises that have not settled. */
    pendingDecodes: nat,
    /** The server-rendered image's `load` listener and the key it
        captured at mount, while it waits. */
    ssrListener: Option<string>)

  datatype World = World(loaded: set<string>, img: Hydrator)

  datatype Event =
    | Mount(ssrComplete: bool)
    | Intersect
    | ImageChange(newKey: string)
      /** New props with the same `image.images`: a parent re-render. */
    | PropsUpdate
    | ImageLoad(hasDecode: bool)
    | DecodeSettled
    | SsrImageLoad
    | Unmount

  datatype Output = StartLoad(wasCached: bool) | OnLoad

  /** A flag that claims the image loaded, or a pending decode, refers to
      a recorded key (or the falsy empty key); a rendered main image
      exists only once hydration has been attempted. */
  predicate Consistent(w: World) {
    && ((w.img.isLoaded || w.img.pendingDecodes > 0) ==> w.img.key == "" || w.img.key in w.loaded)
    && (w.img.rendered.Some? ==> w.img.hydrated)
  }

  /** The constructor: `isLoading` starts as native lazy-loading support.
      The loaded set is shared by every image of the page, so a new
      hydrator starts with whatever keys earlier images recorded. */
  function Init(env: Env, loaded: set<string>, key: string): (w: World)
    ensures w.loaded == loaded && w.img.key == key && w.img.phase == Created
    ensures w.img.isLoading == env.nativeLazy && !w.img.isLoaded && !w.img.forceRender
    ensures w.img.observer.None? && w.img.rendered.None? && w.img.ssrListener.None?
    ensures Consistent(w)
  {
    World(loaded, Hydrator(key, Created, env.nativeLazy, false, false, None, false, None, 0, None))
  }

  /** `e && c.add(e)`: the empty string is falsy and never recorded. */
  function Record(loaded: set<string>, key: string): (r: set<string>)
    ensures loaded <= r && r - loaded <= {key}
    ensures key != "" ==> key in r
    ensures "" in r <==> "" in loaded
  {
    if key != "" then loaded + {key} else loaded
  }

  /** The new flags after a state update, with the `shouldComponentUpdate`
      rule: an update from not-loading to loading-but-not-loaded sets
      `forceRender`. */
  function SetFlags(h: Hydrator, isLoading: bool, isLoaded: bool): (r: Hydrator)
    ensures r.isLoading == isLoading && r.isLoaded == isLoaded
    ensures r.forceRender <==> h.forceRender || (!h.isLoading && isLoading && !isLoaded)
    ensures r.key == h.key && r.phase == h.phase && r.observer == h.observer
    ensures r.hydrated == h.hydrated && r.rendered == h.rendered
    ensures r.pendingDecodes == h.pendingDecodes && r.ssrListener == h.ssrListener
  {
    h.(isLoading := isLoading, isLoaded := isLoaded,
       forceRender := h.forceRender || (!h.isLoading && isLoading && !isLoaded))
  }

  /** `_lazyHydrate`, run by `shouldComponentUpdate` after a state update:
      the main image is rendered with `isLoaded = state.isLoaded || g(key)`,
      read at this moment. The first update of a native-lazy image with a
      server-rendered `<img>` only marks the root hydrated; no hydrated
      main image exists yet. */
  function Rerender(env: Env, h: Hydrator, loaded: set<string>): (r: Hydrator)
    ensures r.hydrated
    ensures r.rendered.Some? ==> (r.rendered.value <==> h.isLoaded || h.key in loaded)
    ensures r.rendered.None? <==> env.nativeLazy && env.ssrImage && !h.hydrated
    ensures r.(hydrated := h.hydrated, rendered := h.rendered) == h
  {
    if env.nativeLazy && env.ssrImage && !h.hydrated then h.(hydrated := true, rendered := None)
    else h.(hydrated := true, rendered := Some(h.isLoaded || h.key in loaded))
  }

  /** `setState` on a mounted component: new flags, then the re-render. */
  function Update(env: Env, w: World, isLoading: bool, isLoaded: bool): (r: Hydrator)
    ensures r.isLoading == isLoading && r.isLoaded == isLoaded && r.key == w.img.key
    ensures w.img.forceRender ==> r.forceRender
  {
    Rerender(env, SetFlags(w.img, isLoading, isLoaded), w.loaded)
  }

  /** `toggleIsLoaded`: calls `onLoad`, then sets `isLoaded` (a state
      update an unmounted component ignores). */
  function Toggle(env: Env, w: World): (r: (World, seq<Output>))
    ensures r.1 == [OnLoad] && r.0.loaded == w.loaded
    ensures w.img.phase == Mounted ==> r.0.img.isLoaded
  {
    if w.img.phase == Mounted then (w.(img := Update(env, w, w.img.isLoading, true)), [OnLoad])
    else (w, [OnLoad])
  }

  /** The keys an event may record: the current one, and the one the
      server-rendered image's listener captured at mount. */
  function Recordable(h: Hydrator): set<string> {
    {h.key} + (if h.ssrListener.Some? then {h.ssrListener.value} else {})
  }

  function Step(env: Env, w: World, ev: Event): (r: (World, seq<Output>))
    ensures w.loaded <= r.0.loaded && r.0.loaded - w.loaded <= Recordable(w.img)
    ensures "" in r.0.loaded ==> "" in w.loaded
    ensures w.img.forceRender ==> r.0.img.forceRender
  {
    var h := w.img;
    match ev
    case Mount(ssrComplete) =>
      if h.phase != Created then (w, [])
      else
        var h1 := h.(phase := Mounted);
        if env.nativeLazy && env.ssrImage && env.globalImage then
          if ssrComplete then (World(Record(w.loaded, h.key), h1), [StartLoad(false), OnLoad])
          else (w.(img := h1.(ssrListener := Some(h.key))), [StartLoad(false)])
        else (w.(img := h1.(observer := Some(true))), [])
    case Intersect =>
      if h.phase != Mounted || h.observer.None? then (w, [])
      else
        var cached := h.observer.value && h.key in w.loaded;
        (w.(img := Update(env, w, true, cached)), [StartLoad(cached)])
    case ImageChange(newKey) =>
      if h.phase != Mounted then (w, [])
      else
        // unobserve and unmount the hydrated tree, reset both flags (a
        // re-render), then observe again without caching
        var h1 := h.(key := newKey, rendered := if h.observer.Some? && h.hydrated then None else h.rendered);
        var h2 := Update(env, w.(img := h1), false, false);
        (w.(img := h2.(observer := Some(false))), [])
    case PropsUpdate =>
      // the state is unchanged, so `forceRender` is not touched, and
      // `_lazyHydrate` runs again with the current flags
      if h.phase != Mounted then (w, [])
      else (w.(img := Rerender(env, h, w.loaded)), [])
    case ImageLoad(hasDecode) =>
      if h.phase != Mounted || h.rendered != Some(false) then (w, [])
      else
        var w1 := w.(loaded := Record(w.loaded, h.key));
        if hasDecode then (w1.(img := h.(pendingDecodes := h.pendingDecodes + 1)), [])
        else Toggle(env, w1)
    case DecodeSettled =>
      if h.pendingDecodes == 0 then (w, [])
      else Toggle(env, w.(img := h.(pendingDecodes := h.pendingDecodes - 1)))
    case SsrImageLoad =>
      if h.ssrListener.None? then (w, [])
      else (World(Record(w.loaded, h.ssrListener.value), h.(ssrListener := None)), [OnLoad])
    case Unmount =>
      if h.phase != Mounted then (w, [])
      else
        var gone := if h.observer.Some? && h.hydrated then None else h.rendered;
        (w.(img := h.(phase := Unmounted, observer := None, rendered := gone)), [])
  }

  /** Replays a sequence of events, collecting the callbacks. */
  function Run(env: Env, w: World, evs: seq<Event>): (r: (World, seq<Output>))
    decreases |evs|
  {
    if evs == [] then (w, [])
    else
      var first := Step(env, w, evs[0]);
      var rest := Run(env, first.0, evs[1..]);
      (rest.0, first.1 + rest.1)
  }

  lemma RunTwo(env: Env, w: World, a: Event, b: Event)
    ensures var first := Step(env, w, a);
            var second := Step(env, first.0, b);
            Run(env, w, [a, b]) == (second.0, first.1 + second.1)
  {
    var first := Step(env, w, a);
    var second := Step(env, first.0, b);
    assert [a, b][1..] == [b];
    assert [b][1..] == [];
    assert Run(env, second.0, []) == (second.0, []);
    assert Run(env, first.0, [b]) == (second.0, second.1 + []);
    assert second.1 + [] == second.1;
  }

  lemma RunCons(env: Env, w: World, a: Event, evs: seq<Event>)
    ensures var first := Step(env, w, a);
            var rest := Run(env, first.0, evs);
            Run(env, w, [a] + evs) == (rest.0, first.1 + rest.1)
  {
    assert ([a] + evs)[1..] == evs;
  }

  // ---------------------------------------------------------------------
  // Properties of single events
  // ---------------------------------------------------------------------

  /** An intersection reported by an observer set up with caching allowed
      starts loading and counts as loaded exactly when the key is
      already known; the same value is reported as `wasCached`, and the
      re-rendered main image sees whether the key is known. */
  lemma IntersectFlags(env: Env, w: World)
    requires w.img.phase == Mounted && w.img.observer.Some?
    ensures var (w', out) := Step(env, w, Intersect);
            && w'.img.isLoading
            && (w'.img.isLoaded <==> w.img.observer.value && w.img.key in w.loaded)
            && out == [StartLoad(w'.img.isLoaded)]
            && w'.loaded == w.loaded
            && (w'.img.rendered.Some? ==> (w'.img.rendered.value <==> w.img.key in w.loaded))
  {
  }

  /** The main image's `load` does nothing unless a hydrated main image
      was rendered as not loaded. The snapshot is all it reads: a key
      recorded since that render does not stop it. */
  lemma LoadedImageIgnoresLoad(env: Env, w: World, hasDecode: bool)
    requires w.img.rendered != Some(false)
    ensures Step(env, w, ImageLoad(hasDecode)) == (w, [])
  {
  }

  /** Otherwise it records the key and marks the image loaded, at once
      without `decode()` and when `decode()` settles (resolved or
      rejected) with it, calling `onLoad` exactly once; the main image is
      then re-rendered as loaded. */
  lemma FreshLoadMarksLoaded(env: Env, w: World, hasDecode: bool)
    requires Consistent(w)
    requires w.img.phase == Mounted && w.img.rendered == Some(false) && w.img.pendingDecodes == 0
    ensures var evs := if hasDecode then [ImageLoad(true), DecodeSettled] else [ImageLoad(false)];
            var (w', out) := Run(env, w, evs);
            && w'.img.isLoaded
            && out == [OnLoad]
            && w'.loaded == Record(w.loaded, w.img.key)
            && w'.img.rendered == Some(true)
  {
    if hasDecode {
      RunTwo(env, w, ImageLoad(true), DecodeSettled);
    } else {
      assert Run(env, w, [ImageLoad(false)]) == (Step(env, w, ImageLoad(false)).0, Step(env, w, ImageLoad(false)).1 + []);
    }
  }

  /** Two `load` events before the first `decode()` settles both pass the
      not-loaded snapshot, so both start a decode and `onLoad` is called
      twice. */
  lemma LoadsBeforeDecodeCallOnLoadTwice(env: Env, w: World)
    requires Consistent(w)
    requires w.img.phase == Mounted && w.img.rendered == Some(false) && w.img.pendingDecodes == 0
    ensures var (w', out) := Run(env, w, [ImageLoad(true), ImageLoad(true), DecodeSettled, DecodeSettled]);
            && out == [OnLoad, OnLoad]
            && w'.img.isLoaded
            && w'.loaded == Record(w.loaded, w.img.key)
  {
    var w1 := Step(env, w, ImageLoad(true));
    var w2 := Step(env, w1.0, ImageLoad(true));
    assert w2.0.img.pendingDecodes == 2 && w2.1 == [];
    var w3 := Step(env, w2.0, DecodeSettled);
    assert w3.0.img.pendingDecodes == 1 && w3.1 == [OnLoad];
    var w4 := Step(env, w3.0, DecodeSettled);
    assert w4.1 == [OnLoad] && w4.0.img.isLoaded;
    RunTwo(env, w2.0, DecodeSettled, DecodeSettled);
    RunCons(env, w1.0, ImageLoad(true), [DecodeSettled, DecodeSettled]);
    RunCons(env, w, ImageLoad(true), [ImageLoad(true), DecodeSettled, DecodeSettled]);
  }

  /** A change of image clears both flags, and the intersection that
      follows never counts as cached, even for a key already loaded. */
  lemma ImageChangeDisablesCache(env: Env, w: World, newKey: string)
    requires w.img.phase == Mounted
    ensures var (w', out) := Run(env, w, [ImageChange(newKey), Intersect]);
            && out == [StartLoad(false)]
            && w'.img.isLoading && !w'.img.isLoaded
            && w'.img.key == newKey
  {
    var w1 := Step(env, w, ImageChange(newKey)).0;
    assert w1.img.observer == Some(false);
    RunTwo(env, w, ImageChange(newKey), Intersect);
  }

  /** On the native-lazy path with a server-rendered image, mounting
      reports an uncached start, and the image's own `load` records the
      key and calls `onLoad`, without any observer. */
  lemma NativeLazyMount(env: Env, loaded: set<string>, key: string)
    requires env.nativeLazy && env.ssrImage && env.globalImage
    ensures var (w', out) := Run(env, Init(env, loaded, key), [Mount(false), SsrImageLoad]);
            && out == [StartLoad(false), OnLoad]
            && w'.loaded == Record(loaded, key)
            && w'.img.observer.None?
  {
    RunTwo(env, Init(env, loaded, key), Mount(false), SsrImageLoad);
  }

  /** A parent re-render re-renders the main image with a fresh
      `g(key)`: once another image of the page has recorded the key, the
      image's own `load` no longer calls `onLoad` and leaves it not
      loaded. */
  lemma ParentRerenderSkipsLoad(env: Env, w: World, hasDecode: bool)
    requires w.img.phase == Mounted && w.img.hydrated && w.img.rendered == Some(false)
    requires !w.img.isLoaded && w.img.key in w.loaded
    ensures var (w', out) := Run(env, w, [PropsUpdate, ImageLoad(hasDecode)]);
            && out == []
            && !w'.img.isLoaded && w'.img.pendingDecodes == w.img.pendingDecodes
            && w'.img.rendered == Some(true)
            && w'.loaded == w.loaded
  {
    RunTwo(env, w, PropsUpdate, ImageLoad(hasDecode));
  }

  /** On the native-lazy path with a server-rendered image, the first
      parent re-render only marks the root hydrated; the second renders
      the main image, as loaded exactly when its key is known. */
  lemma NativeLazyHydratesOnSecondUpdate(env: Env, loaded: set<string>, key: string)
    requires env.nativeLazy && env.ssrImage && env.globalImage
    ensures var w1 := Run(env, Init(env, loaded, key), [Mount(false), PropsUpdate]).0;
            var w2 := Step(env, w1, PropsUpdate).0;
            && w1.img.hydrated && w1.img.rendered.None?
            && (w2.img.rendered == Some(key in loaded))
  {
    RunTwo(env, Init(env, loaded, key), Mount(false), PropsUpdate);
  }

  /** That listener records the key captured at mount, even when the
      image changed before the server-rendered image finished loading. */
  lemma SsrListenerRecordsMountKey(env: Env, loaded: set<string>, key: string, newKey: string)
    requires env.nativeLazy && env.ssrImage && env.globalImage
    ensures var (w', out) := Run(env, Init(env, loaded, key), [Mount(false), ImageChange(newKey), SsrImageLoad]);
            && out == [StartLoad(false), OnLoad]
            && w'.loaded == Record(loaded, key)
            && w'.img.key == newKey
  {
    var w0 := Init(env, loaded, key);
    var w1 := Step(env, w0, Mount(false));
    assert w1.0.img.ssrListener == Some(key) && w1.0.loaded == loaded;
    var w2 := Step(env, w1.0, ImageChange(newKey));
    assert w2.0.img.ssrListener == Some(key) && w2.0.loaded == loaded && w2.1 == [];
    RunTwo(env, w1.0, ImageChange(newKey), SsrImageLoad);
    RunCons(env, w0, Mount(false), [ImageChange(newKey), SsrImageLoad]);
  }

  // ---------------------------------------------------------------------
  // Properties of runs
  // ---------------------------------------------------------------------

  /** The loaded-key set is only ever added to, never with the empty key,
      and `forceRender`, once set, stays set. */
  lemma {:induction false} RunMonotone(env: Env, w: World, evs: seq<Event>)
    ensures w.loaded <= Run(env, w, evs).0.loaded
    ensures "" in Run(env, w, evs).0.loaded ==> "" in w.loaded
    ensures w.img.forceRender ==> Run(env, w, evs).0.img.forceRender
    decreases |evs|
  {
    if evs != [] {
      var w1 := Step(env, w, evs[0]).0;
      RunMonotone(env, w1, evs[1..]);
    }
  }

  /** Every event keeps the flags consistent with the set, except a change
      of image while a decode of the previous image is still pending. */
  lemma StepConsistent(env: Env, w: World, ev: Event)
    requires Consistent(w)
    requires !(ev.ImageChange? && w.img.pendingDecodes > 0)
    ensures Consistent(Step(env, w, ev).0)
  {
  }

  /** That exception is real: a decode started for the previous image
      settles after the change and marks the new, never-loaded image as
      loaded. */
  lemma DecodeOutlivesImageChange()
    ensures var env := Env(false, false, false);
            var evs := [Mount(false), Intersect, ImageLoad(true), ImageChange("b"), DecodeSettled];
            var w := Run(env, Init(env, {}, "a"), evs).0;
            w.img.isLoaded && w.img.key == "b" && "b" !in w.loaded
  {
    var env := Env(false, false, false);
    var w0 := Init(env, {}, "a");
    var w1 := Step(env, w0, Mount(false)).0;
    var w2 := Step(env, w1, Intersect).0;
    assert w2.img.rendered == Some(false);
    var w3 := Step(env, w2, ImageLoad(true)).0;
    var w4 := Step(env, w3, ImageChange("b")).0;
    var w5 := Step(env, w4, DecodeSettled).0;
    assert w3.loaded == {"a"} && w3.img.pendingDecodes == 1;
    assert w5.img.isLoaded && w5.img.key == "b" && w5.loaded == {"a"};
    var evs := [Mount(false), Intersect, ImageLoad(true), ImageChange("b"), DecodeSettled];
    assert evs[1..][1..][1..][1..] == [DecodeSettled];
    assert Run(env, w0, evs).0 == w5;
  }
}
