/**
 * Scene streaming (src/DX12/DirectStorageSample.cpp): each streaming volume
 * moves through five loading states as the camera enters and leaves it, and
 * shutdown drains the volumes' pending loads and unloads.
 *
 * A volume's future is the task the renderer started for it. Whether a
 * future is ready when it is polled, and the scene a finished load yields,
 * are inputs: a `Poll` per volume and call, a `DrainPoll` per volume and
 * drain round.
 */
module Streaming {
  import opened Wrappers
  import DS = DirectStorage
  import R = Renderer

  datatype LoadingState = Loaded | Loading | CancellationRequested | Unloading | Unloaded

  /** StreamingVolume (Renderer.h lines 209-222); `scene` is m_pSceneData, None for null. */
  datatype StreamingVolume = StreamingVolume(
    center: R.Point3,
    radius: R.Point3,
    transform: seq<real>,
    state: LoadingState,
    future: Option<R.Task>,
    frameTimes: seq<int>,
    workloadId: bv64,
    scene: Option<R.SceneData>,
    sceneName: string)

  /** The sample options the streaming code reads; `hasSetEvent` says whether the queue offers EnqueueSetEvent. */
  datatype StreamingOptions = StreamingOptions(
    useDirectStorage: bool,
    usePlacedResources: bool,
    allowCancellation: bool,
    ioTiming: bool,
    profilerOutputEnabled: bool,
    hasSetEvent: bool)

  /**
   * The answers of the volume's future at the three poll sites of one call,
   * the scene a ready load yields, and the clock when a load is requested.
   */
  datatype Poll = Poll(cancelReady: bool, loadReady: bool, unloadReady: bool, loaded: R.SceneData, requestTime: real)

  /** What each state says about the scene pointer and the future, kept by every step. */
  predicate Consistent(v: StreamingVolume)
  {
    match v.state
    case Unloaded => v.scene.None?
    case Loading => v.scene.None? && v.future.Some? && v.future.value.LoadTask?
    case CancellationRequested => v.scene.None? && v.future.Some? && v.future.value.LoadTask?
    case Loaded => v.scene.Some?
    case Unloading => v.scene.Some? && v.future == Some(R.UnloadTask(v.scene.value))
  }

  /** Position, size, placement and name never change while streaming. */
  predicate SamePlace(v: StreamingVolume, w: StreamingVolume)
  {
    w.center == v.center && w.radius == v.radius && w.transform == v.transform && w.sceneName == v.sceneName
  }

  function Inside(v: StreamingVolume, eye: R.Point3): bool
  {
    R.IsPointInside(v.center, v.radius, eye)
  }

  // ---------------------------------------------------------------------------
  // The six guarded blocks of CheckAndRequestScenesToLoad, on the state alone
  // ---------------------------------------------------------------------------

  function AfterRequest(s: LoadingState, inside: bool): LoadingState
  {
    if s == Unloaded && inside then Loading else s
  }

  function AfterCancel(s: LoadingState, inside: bool, allowCancellation: bool): LoadingState
  {
    if allowCancellation && s == Loading && !inside then CancellationRequested else s
  }

  function AfterCancelled(s: LoadingState, ready: bool): LoadingState
  {
    if s == CancellationRequested && ready then Unloading else s
  }

  function AfterLoaded(s: LoadingState, ready: bool): LoadingState
  {
    if s == Loading && ready then Loaded else s
  }

  function AfterLeft(s: LoadingState, inside: bool): LoadingState
  {
    if s == Loaded && !inside then Unloading else s
  }

  function AfterUnloaded(s: LoadingState, ready: bool): LoadingState
  {
    if s == Unloading && ready then Unloaded else s
  }

  /**
   * The state after one call: the six blocks in their fixed order. A volume
   * ends a call Loaded only with the camera inside it; it stays Loading only
   * while its load is not ready; and it ends Unloaded only if it was already
   * Unloaded outside the camera or an unload was found ready.
   */
  function NextState(s: LoadingState, inside: bool, poll: Poll, allowCancellation: bool): (t: LoadingState)
    ensures t == Loaded ==> inside
    ensures t == Loading ==> !poll.loadReady && (s == Loading || s == Unloaded) && (inside || !allowCancellation)
    ensures t == CancellationRequested ==>
      !poll.cancelReady && (s == CancellationRequested || (s == Loading && allowCancellation && !inside))
    ensures t == Unloaded ==> (s == Unloaded && !inside) || poll.unloadReady
    ensures s == Loaded && inside ==> t == Loaded
  {
    var s1 := AfterRequest(s, inside);
    var s2 := AfterCancel(s1, inside, allowCancellation);
    var s3 := AfterCancelled(s2, poll.cancelReady);
    var s4 := AfterLoaded(s3, poll.loadReady);
    var s5 := AfterLeft(s4, inside);
    AfterUnloaded(s5, poll.unloadReady)
  }

  /** A load that completes while the camera is outside goes Loading, Loaded, Unloading in one call. */
  lemma LoadFinishingOutsideUnloadsAtOnce(poll: Poll)
    requires poll.loadReady && !poll.unloadReady
    ensures NextState(Loading, false, poll, false) == Unloading
  {
  }

  /** Without cancellation a Loading volume ignores the camera until its load is ready. */
  lemma LoadingIgnoresCameraWithoutCancellation(poll: Poll, inside: bool)
    requires !poll.loadReady
    ensures NextState(Loading, inside, poll, false) == Loading
  {
  }

  /** With cancellation, leaving a Loading volume requests cancellation, unless the load was ready at once. */
  lemma LeavingCancelsLoad(poll: Poll)
    requires !poll.cancelReady
    ensures NextState(Loading, false, poll, true) == CancellationRequested
  {
  }

  /** A cancelled load never becomes Loaded: it goes on to Unloading and Unloaded. */
  lemma CancelledLoadIsNeverLoaded(poll: Poll, inside: bool, allowCancellation: bool)
    ensures NextState(CancellationRequested, inside, poll, allowCancellation) != Loaded
    ensures poll.cancelReady ==> NextState(CancellationRequested, inside, poll, allowCancellation) in {Unloading, Unloaded}
  {
  }

  /**
   * The renderer's scene list after the last three blocks, from state `s`:
   * the scene of a load found ready is added, and the scene of a Loaded
   * volume the camera is outside of is removed.
   */
  function ListAfterLoadBlocks(list: seq<R.SceneData>, s: LoadingState, scene: Option<R.SceneData>, inside: bool, poll: Poll)
    : seq<R.SceneData>
    requires s == Loaded ==> scene.Some?
  {
    var added := s == Loading && poll.loadReady;
    var l := if added then list + [poll.loaded] else list;
    if AfterLoaded(s, poll.loadReady) == Loaded && !inside then
      R.Removed(l, if added then poll.loaded else scene.value)
    else l
  }

  /** The renderer's scene list after one volume's step; the first three blocks leave it alone. */
  function SceneListAfter(list: seq<R.SceneData>, v: StreamingVolume, inside: bool, poll: Poll, allowCancellation: bool)
    : seq<R.SceneData>
    requires Consistent(v)
  {
    var s3 := AfterCancelled(AfterCancel(AfterRequest(v.state, inside), inside, allowCancellation), poll.cancelReady);
    ListAfterLoadBlocks(list, s3, v.scene, inside, poll)
  }

  /** The result of a cancelled load is never handed to the renderer. */
  lemma CancelledLoadNeverAdded(list: seq<R.SceneData>, v: StreamingVolume, inside: bool, poll: Poll, allowCancellation: bool)
    requires Consistent(v) && v.state == CancellationRequested
    ensures SceneListAfter(list, v, inside, poll, allowCancellation) == list
  {
  }

  /** A load found ready with the camera inside adds its scene exactly once. */
  lemma ReadyLoadAddedOnce(list: seq<R.SceneData>, v: StreamingVolume, poll: Poll, allowCancellation: bool)
    requires Consistent(v) && v.state == Loading && poll.loadReady
    ensures SceneListAfter(list, v, true, poll, allowCancellation) == list + [poll.loaded]
    ensures multiset(SceneListAfter(list, v, true, poll, allowCancellation))[poll.loaded] == multiset(list)[poll.loaded] + 1
  {
  }

  /** A load that completes with the camera outside is added and removed again: the list is as before. */
  lemma {:induction false} ReadyLoadOutsideLeavesListAsItWas(list: seq<R.SceneData>, v: StreamingVolume, poll: Poll)
    requires Consistent(v) && v.state == Loading && poll.loadReady && poll.loaded !in list
    ensures SceneListAfter(list, v, false, poll, false) == list
  {
    R.RemovedAfterAppend(list, poll.loaded);
  }

  /** The scene list after every volume's step, in vector order. */
  function SceneListAfterAll(list: seq<R.SceneData>, vs: seq<StreamingVolume>, eye: R.Point3, polls: seq<Poll>,
                             allowCancellation: bool): seq<R.SceneData>
    requires |polls| == |vs| && forall i :: 0 <= i < |vs| ==> Consistent(vs[i])
    decreases |vs|
  {
    if vs == [] then list
    else SceneListAfterAll(SceneListAfter(list, vs[0], Inside(vs[0], eye), polls[0], allowCancellation),
                           vs[1..], eye, polls[1..], allowCancellation)
  }

  lemma ListsStep(list: seq<R.SceneData>, vs: seq<StreamingVolume>, eye: R.Point3, polls: seq<Poll>,
                  allowCancellation: bool, i: nat)
    requires |polls| == |vs| && i < |vs| && forall k :: 0 <= k < |vs| ==> Consistent(vs[k])
    ensures SceneListAfterAll(list, vs[i..], eye, polls[i..], allowCancellation)
         == SceneListAfterAll(SceneListAfter(list, vs[i], Inside(vs[i], eye), polls[i], allowCancellation),
                              vs[i + 1..], eye, polls[i + 1..], allowCancellation)
  {
    assert vs[i..][1..] == vs[i + 1..] && polls[i..][1..] == polls[i + 1..];
  }

  // ---------------------------------------------------------------------------
  // The shutdown drain (DirectStorageSample.cpp lines 399-447)
  // ---------------------------------------------------------------------------

  /** The answers of a volume's future in one drain round, and the scene a ready load yields. */
  datatype DrainPoll = DrainPoll(loadReady: bool, unloadReady: bool, loaded: R.SceneData)

  predicate InFlight(v: StreamingVolume)
  {
    v.state == Loading || v.state == Unloading
  }

  /**
   * One volume in one drain round: a ready load becomes Loaded (without
   * reaching the renderer), a ready unload becomes Unloaded; nothing else
   * is touched, cancelled loads included.
   */
  function DrainStep(v: StreamingVolume, p: DrainPoll): (w: StreamingVolume)
    ensures Consistent(v) ==> Consistent(w)
    ensures SamePlace(v, w) && w.future == v.future && w.frameTimes == v.frameTimes
    ensures !InFlight(v) ==> w == v
    ensures v.state == Loading ==> w.state == (if p.loadReady then Loaded else Loading)
    ensures v.state == Unloading ==> w.state == (if p.unloadReady then Unloaded else Unloading)
  {
    if v.state == Loading && p.loadReady then v.(scene := Some(p.loaded), state := Loaded)
    else if v.state == Unloading && p.unloadReady then v.(scene := None, state := Unloaded)
    else v
  }

  /** The second phase of shutdown as written: an unload is started for each Loaded volume, whose state stays Loaded. */
  function RequestUnloadsAsWritten(v: StreamingVolume): (w: StreamingVolume)
    requires Consistent(v)
    ensures Consistent(w) && SamePlace(v, w) && w.state == v.state && w.scene == v.scene
    ensures v.state == Loaded ==> w.future == Some(R.UnloadTask(v.scene.value))
    ensures v.state != Loaded ==> w == v
  {
    if v.state == Loaded then v.(future := Some(R.UnloadTask(v.scene.value))) else v
  }

  /** The second phase as intended: the started unload also moves the volume to Unloading, so the next drain waits for it. */
  function RequestUnloads(v: StreamingVolume): (w: StreamingVolume)
    requires Consistent(v)
    ensures Consistent(w) && SamePlace(v, w) && w.scene == v.scene
    ensures v.state == Loaded ==> w.state == Unloading && w.future == Some(R.UnloadTask(v.scene.value))
    ensures v.state != Loaded ==> w == v
  {
    if v.state == Loaded then v.(state := Unloading, future := Some(R.UnloadTask(v.scene.value))) else v
  }

  /** After a finished drain, the unloads started as written leave nothing in flight: the next drain waits for none of them. */
  lemma UnloadsAsWrittenAreNotAwaited(v: StreamingVolume, p: DrainPoll)
    requires Consistent(v) && !InFlight(v)
    ensures !InFlight(RequestUnloadsAsWritten(v))
    ensures DrainStep(RequestUnloadsAsWritten(v), p) == RequestUnloadsAsWritten(v)
  {
  }

  /** With the intended second phase, a Loaded volume is in flight and becomes Unloaded once its unload is ready. */
  lemma UnloadsAreAwaited(v: StreamingVolume, p: DrainPoll)
    requires Consistent(v) && v.state == Loaded
    ensures InFlight(RequestUnloads(v))
    ensures p.unloadReady ==> DrainStep(RequestUnloads(v), p).state == Unloaded
    ensures p.unloadReady ==> DrainStep(RequestUnloads(v), p).scene == None
  {
  }

  // ---------------------------------------------------------------------------
  // The sample's streaming state
  // ---------------------------------------------------------------------------

  /** w is v after one pass of the streaming check with the camera at eye. */
  predicate Stepped(v: StreamingVolume, w: StreamingVolume, eye: R.Point3, poll: Poll, allowCancellation: bool)
  {
    Consistent(w) && SamePlace(v, w) && w.state == NextState(v.state, Inside(v, eye), poll, allowCancellation)
  }

  class Sample {
    var volumes: seq<StreamingVolume>
    const renderer: R.Renderer
    const options: StreamingOptions

    ghost predicate Valid()
      reads this, renderer, renderer.rollingFrameTimeSnapshot
    {
      renderer.Valid() && forall i :: 0 <= i < |volumes| ==> Consistent(volumes[i])
    }

    constructor (renderer: R.Renderer, options: StreamingOptions, volumes: seq<StreamingVolume>)
      requires renderer.Valid() && forall i :: 0 <= i < |volumes| ==> Consistent(volumes[i])
      ensures Valid() && this.renderer == renderer && this.options == options && this.volumes == volumes
    {
      this.renderer, this.options, this.volumes := renderer, options, volumes;
    }

    /**
     * Unloaded and inside: request the load. The workload id comes from
     * DStorageBeginProfileLoading when DirectStorage and I/O timing are both
     * on, and is 0 otherwise.
     */
    method RequestLoad(v: StreamingVolume, inside: bool, requestTime: real, storage: DS.StorageRuntime)
      returns (w: StreamingVolume)
      requires renderer.Valid() && storage.Valid() && Consistent(v)
      modifies renderer.rollingFrameTimeSnapshot.frameTimesCopy, storage, storage.workloads
      ensures renderer.Valid() && storage.Valid() && storage.workloads == old(storage.workloads) && Consistent(w)
      ensures SamePlace(v, w) && w.scene == v.scene && w.frameTimes == v.frameTimes
      ensures w.state == AfterRequest(v.state, inside)
      ensures !(v.state == Unloaded && inside) ==> w == v && unchanged(storage)
      ensures v.state == Unloaded && inside ==>
        var request := R.SceneLoadRequest(w.workloadId, v.sceneName, v.transform,
                                          options.useDirectStorage, options.usePlacedResources);
        && w.future.Some? && w.future.value.LoadTask? && w.future.value.request == request
        && w.future.value.path == R.LoadPathFor(request) && w.future.value.requestTime == requestTime
      ensures v.state == Unloaded && inside && options.useDirectStorage && options.ioTiming ==>
        && storage.fenceValueProfile == old(storage.fenceValueProfile) + 1
        && w.workloadId == (storage.fenceValueProfile % DS.WORKLOAD_SLOTS) as bv64
      ensures !(options.useDirectStorage && options.ioTiming) ==> unchanged(storage)
      ensures v.state == Unloaded && inside && !(options.useDirectStorage && options.ioTiming) ==> w.workloadId == 0
      ensures v.state == Unloaded && inside && options.useDirectStorage && options.ioTiming ==>
        storage.normalQueue == old(storage.normalQueue) +
          if options.hasSetEvent then [DS.SetEvent(storage.fenceValueProfile % DS.WORKLOAD_SLOTS)] else []
    {
      w := v;
      if v.state == Unloaded && inside {
        var workloadId: bv64 := 0;
        if options.useDirectStorage && options.ioTiming {
          workloadId := BeginWorkload(storage);
        }
        var request := R.SceneLoadRequest(workloadId, v.sceneName, v.transform,
                                          options.useDirectStorage, options.usePlacedResources);
        var task := renderer.LoadSceneAsync(request, requestTime);
        w := v.(state := Loading, workloadId := workloadId, future := Some(task));
      }
    }

    /** DStorageBeginProfileLoading, its slot number kept as the 64-bit workload id. */
    method BeginWorkload(storage: DS.StorageRuntime) returns (workloadId: bv64)
      requires storage.Valid()
      modifies storage, storage.workloads
      ensures storage.Valid() && storage.workloads == old(storage.workloads)
      ensures storage.fenceValueProfile == old(storage.fenceValueProfile) + 1
      ensures workloadId == (storage.fenceValueProfile % DS.WORKLOAD_SLOTS) as bv64
      ensures storage.normalQueue == old(storage.normalQueue) +
                if options.hasSetEvent then [DS.SetEvent(storage.fenceValueProfile % DS.WORKLOAD_SLOTS)] else []
    {
      var slot := storage.BeginProfileLoading(options.hasSetEvent);
      workloadId := slot as bv64;
    }

    /** Loading and outside, with cancellation allowed: request cancellation, and cancel the workload's reads under DirectStorage. */
    method RequestCancel(v: StreamingVolume, inside: bool, storage: DS.StorageRuntime) returns (w: StreamingVolume)
      requires storage.Valid() && Consistent(v)
      modifies storage
      ensures storage.Valid() && storage.workloads == old(storage.workloads) && Consistent(w)
      ensures w == v.(state := AfterCancel(v.state, inside, options.allowCancellation))
      ensures w.state != v.state && options.useDirectStorage ==>
        storage.normalQueue == DS.CancelMatching(old(storage.normalQueue), DS.ALL_BITS, v.workloadId)
      ensures w.state == v.state || !options.useDirectStorage ==> unchanged(storage)
    {
      w := v;
      if options.allowCancellation && v.state == Loading && !inside {
        w := v.(state := CancellationRequested);
        if options.useDirectStorage {
          storage.CancelRequest(v.workloadId);
        }
      }
    }

    /** CancellationRequested and ready: take the load's result and start unloading it at once. */
    method TakeCancelledLoad(v: StreamingVolume, poll: Poll) returns (w: StreamingVolume)
      requires Consistent(v)
      ensures Consistent(w)
      ensures w.state == AfterCancelled(v.state, poll.cancelReady)
      ensures w.state == v.state ==> w == v
      ensures w.state != v.state ==>
        w == v.(state := Unloading, scene := Some(poll.loaded), future := Some(R.UnloadTask(poll.loaded)))
    {
      w := v;
      if v.state == CancellationRequested && poll.cancelReady {
        assert v.scene.None?;
        var unload := renderer.UnloadSceneAsync(v.sceneName, poll.loaded);
        w := v.(state := Unloading, scene := Some(poll.loaded), future := Some(unload));
      }
    }

    /**
     * Loading: when ready, take the scene, hand it to the renderer and move
     * to Loaded (the samples go to the scene's timing record when profiler
     * output is on); otherwise record the last frame time.
     */
    method TakeLoadedScene(v: StreamingVolume, poll: Poll, lastFrameTime: int) returns (w: StreamingVolume)
      requires renderer.Valid() && Consistent(v)
      modifies renderer
      ensures renderer.Valid() && Consistent(w) && renderer.rollingFrameTimeSnapshot == old(renderer.rollingFrameTimeSnapshot)
      ensures w.state == AfterLoaded(v.state, poll.loadReady)
      ensures v.state == Loading && poll.loadReady ==>
        && w == v.(state := Loaded, scene := Some(poll.loaded),
                   frameTimes := if options.profilerOutputEnabled then [] else v.frameTimes)
        && renderer.sceneData == old(renderer.sceneData) + [poll.loaded]
      ensures v.state == Loading && !poll.loadReady ==>
        w == v.(frameTimes := v.frameTimes + [lastFrameTime]) && renderer.sceneData == old(renderer.sceneData)
      ensures v.state != Loading ==> w == v && renderer.sceneData == old(renderer.sceneData)
    {
      w := v;
      if v.state == Loading {
        if poll.loadReady {
          assert v.scene.None?;
          w := v.(state := Loaded, scene := Some(poll.loaded));
          if options.profilerOutputEnabled {
            w := w.(frameTimes := []);
          }
          renderer.AddScene(poll.loaded);
        } else {
          w := v.(frameTimes := v.frameTimes + [lastFrameTime]);
        }
      }
    }

    /** Loaded and outside: take the scene out of the renderer's list, then start unloading it. */
    method UnloadOnLeaving(v: StreamingVolume, inside: bool) returns (w: StreamingVolume)
      requires renderer.Valid() && Consistent(v)
      modifies renderer
      ensures renderer.Valid() && Consistent(w) && renderer.rollingFrameTimeSnapshot == old(renderer.rollingFrameTimeSnapshot)
      ensures w.state == AfterLeft(v.state, inside)
      ensures v.state == Loaded && !inside ==>
        && w == v.(state := Unloading, future := Some(R.UnloadTask(v.scene.value)))
        && renderer.sceneData == R.Removed(old(renderer.sceneData), v.scene.value)
      ensures !(v.state == Loaded && !inside) ==> w == v && renderer.sceneData == old(renderer.sceneData)
    {
      w := v;
      if v.state == Loaded && !inside {
        renderer.RemoveScene(v.scene.value);
        var unload := renderer.UnloadSceneAsync(v.sceneName, v.scene.value);
        w := v.(state := Unloading, future := Some(unload));
      }
    }

    /** Unloading and ready: the unload resolves to null, and the volume is Unloaded. */
    method TakeUnloadResult(v: StreamingVolume, poll: Poll) returns (w: StreamingVolume)
      requires Consistent(v)
      ensures Consistent(w)
      ensures w.state == AfterUnloaded(v.state, poll.unloadReady)
      ensures w.state != v.state ==> w == v.(state := Unloaded, scene := None)
      ensures w.state == v.state ==> w == v
    {
      w := v;
      if v.state == Unloading && poll.unloadReady {
        w := v.(state := Unloaded, scene := None);
      }
    }

    /** The first three blocks: request, cancel, and take a cancelled load; the scene list is not touched. */
    method RequestBlocks(v: StreamingVolume, inside: bool, poll: Poll, storage: DS.StorageRuntime)
      returns (w: StreamingVolume)
      requires renderer.Valid() && storage.Valid() && Consistent(v)
      modifies renderer.rollingFrameTimeSnapshot.frameTimesCopy, storage, storage.workloads
      ensures renderer.Valid() && storage.Valid() && storage.workloads == old(storage.workloads) && Consistent(w)
      ensures SamePlace(v, w) && (w.state == Loaded ==> w.scene == v.scene)
      ensures w.state == AfterCancelled(AfterCancel(AfterRequest(v.state, inside), inside, options.allowCancellation), poll.cancelReady)
    {
      var v1 := RequestLoad(v, inside, poll.requestTime, storage);
      var v2 := RequestCancel(v1, inside, storage);
      w := TakeCancelledLoad(v2, poll);
    }

    /** The last three blocks: take a ready load, unload on leaving, and take a ready unload. */
    method LoadBlocks(v: StreamingVolume, inside: bool, poll: Poll, lastFrameTime: int) returns (w: StreamingVolume)
      requires renderer.Valid() && Consistent(v)
      modifies renderer
      ensures renderer.Valid() && Consistent(w) && renderer.rollingFrameTimeSnapshot == old(renderer.rollingFrameTimeSnapshot)
      ensures SamePlace(v, w)
      ensures w.state == AfterUnloaded(AfterLeft(AfterLoaded(v.state, poll.loadReady), inside), poll.unloadReady)
      ensures renderer.sceneData == ListAfterLoadBlocks(old(renderer.sceneData), v.state, v.scene, inside, poll)
    {
      var v4 := TakeLoadedScene(v, poll, lastFrameTime);
      var v5 := UnloadOnLeaving(v4, inside);
      w := TakeUnloadResult(v5, poll);
    }

    /** The body of CheckAndRequestScenesToLoad's loop for one volume. */
    method StepVolume(v: StreamingVolume, eye: R.Point3, poll: Poll, lastFrameTime: int, storage: DS.StorageRuntime)
      returns (w: StreamingVolume)
      requires renderer.Valid() && storage.Valid() && Consistent(v)
      modifies renderer, renderer.rollingFrameTimeSnapshot.frameTimesCopy, storage, storage.workloads
      ensures renderer.Valid() && storage.Valid() && storage.workloads == old(storage.workloads)
      ensures renderer.rollingFrameTimeSnapshot == old(renderer.rollingFrameTimeSnapshot)
      ensures Stepped(v, w, eye, poll, options.allowCancellation)
      ensures renderer.sceneData == SceneListAfter(old(renderer.sceneData), v, Inside(v, eye), poll, options.allowCancellation)
    {
      var inside := R.IsPointInside(v.center, v.radius, eye);
      var v3 := RequestBlocks(v, inside, poll, storage);
      w := LoadBlocks(v3, inside, poll, lastFrameTime);
    }

    /**
     * CheckAndRequestScenesToLoad: every volume takes its step, in vector
     * order, against the same camera position.
     */
    method CheckAndRequestScenesToLoad(eye: R.Point3, polls: seq<Poll>, lastFrameTime: int, storage: DS.StorageRuntime)
      requires Valid() && storage.Valid() && |polls| == |volumes|
      modifies this, renderer, renderer.rollingFrameTimeSnapshot.frameTimesCopy, storage, storage.workloads
      ensures Valid() && storage.Valid() && |volumes| == |old(volumes)|
      ensures forall i :: 0 <= i < |volumes| ==> Stepped(old(volumes)[i], volumes[i], eye, polls[i], options.allowCancellation)
      ensures renderer.sceneData == SceneListAfterAll(old(renderer.sceneData), old(volumes), eye, polls, options.allowCancellation)
    {
      volumes := StepAll(volumes, eye, polls, lastFrameTime, storage);
    }

    /** The loop of CheckAndRequestScenesToLoad, over the volumes as they were when it began. */
    method StepAll(vs: seq<StreamingVolume>, eye: R.Point3, polls: seq<Poll>, lastFrameTime: int, storage: DS.StorageRuntime)
      returns (next: seq<StreamingVolume>)
      requires renderer.Valid() && storage.Valid() && |polls| == |vs|
      requires forall k :: 0 <= k < |vs| ==> Consistent(vs[k])
      modifies renderer, renderer.rollingFrameTimeSnapshot.frameTimesCopy, storage, storage.workloads
      ensures renderer.Valid() && storage.Valid() && |next| == |vs|
      ensures renderer.rollingFrameTimeSnapshot == old(renderer.rollingFrameTimeSnapshot)
      ensures forall i :: 0 <= i < |vs| ==> Stepped(vs[i], next[i], eye, polls[i], options.allowCancellation)
      ensures renderer.sceneData == SceneListAfterAll(old(renderer.sceneData), vs, eye, polls, options.allowCancellation)
    {
      next := [];
      for i := 0 to |vs|
        invariant renderer.Valid() && storage.Valid() && storage.workloads == old(storage.workloads)
        invariant renderer.rollingFrameTimeSnapshot == old(renderer.rollingFrameTimeSnapshot)
        invariant |next| == i
        invariant forall k :: 0 <= k < i ==> Stepped(vs[k], next[k], eye, polls[k], options.allowCancellation)
        invariant SceneListAfterAll(renderer.sceneData, vs[i..], eye, polls[i..], options.allowCancellation)
          == SceneListAfterAll(old(renderer.sceneData), vs, eye, polls, options.allowCancellation)
      {
        ListsStep(renderer.sceneData, vs, eye, polls, options.allowCancellation, i);
        var w := StepVolume(vs[i], eye, polls[i], lastFrameTime, storage);
        next := next + [w];
      }
    }

    /** One round of the drain lambda: every volume's DrainStep, and whether any volume was in flight. */
    method DrainRound(round: seq<DrainPoll>) returns (isInFlight: bool)
      requires Valid() && |round| == |volumes|
      modifies this
      ensures Valid() && |volumes| == |old(volumes)|
      ensures forall i :: 0 <= i < |volumes| ==> volumes[i] == DrainStep(old(volumes)[i], round[i])
      ensures isInFlight <==> exists i :: 0 <= i < |old(volumes)| && InFlight(old(volumes)[i])
    {
      isInFlight := false;
      var vs := volumes;
      for i := 0 to |vs|
        invariant Valid() && |volumes| == |vs| && volumes[i..] == vs[i..]
        invariant forall k :: 0 <= k < i ==> volumes[k] == DrainStep(vs[k], round[k])
        invariant isInFlight <==> exists k :: 0 <= k < i && InFlight(vs[k])
      {
        assert volumes[i] == vs[i];
        var v := vs[i];
        if v.state == Loading {
          if round[i].loadReady {
            v := v.(scene := Some(round[i].loaded), state := Loaded);
          }
          isInFlight := true;
        }
        if v.state == Unloading {
          if round[i].unloadReady {
            v := v.(scene := None, state := Unloaded);
            isInFlight := true;
          }
          isInFlight := true;
        }
        volumes := volumes[i := v];
      }
    }

    /**
     * The drain loop: rounds repeat while a round saw a volume in flight.
     * The rounds' answers are supplied; `finished` is false when they run
     * out first. A finished drain leaves no volume Loading or Unloading, and
     * volumes not in flight are never touched.
     */
    method WaitForInFlightOperations(rounds: seq<seq<DrainPoll>>) returns (finished: bool, used: nat)
      requires Valid() && forall r :: 0 <= r < |rounds| ==> |rounds[r]| == |volumes|
      modifies this
      ensures Valid() && |volumes| == |old(volumes)| && used <= |rounds|
      ensures finished ==> used > 0 && forall i :: 0 <= i < |volumes| ==> !InFlight(volumes[i])
      ensures !finished ==> used == |rounds|
      ensures forall i :: 0 <= i < |volumes| && !InFlight(old(volumes)[i]) ==> volumes[i] == old(volumes)[i]
      ensures forall i :: 0 <= i < |volumes| ==> SamePlace(old(volumes)[i], volumes[i])
      ensures forall i :: 0 <= i < |volumes| && old(volumes)[i].state == Loading ==> volumes[i].state in {Loading, Loaded}
      ensures forall i :: 0 <= i < |volumes| && old(volumes)[i].state == Unloading ==> volumes[i].state in {Unloading, Unloaded}
      ensures (forall i :: 0 <= i < |old(volumes)| ==> !InFlight(old(volumes)[i])) && |rounds| > 0 ==>
        finished && used == 1 && volumes == old(volumes)
    {
      var isInFlight := true;
      used := 0;
      while isInFlight && used < |rounds|
        invariant Valid() && |volumes| == |old(volumes)| && used <= |rounds|
        invariant !isInFlight ==> used > 0 && forall i :: 0 <= i < |volumes| ==> !InFlight(volumes[i])
        invariant forall i :: 0 <= i < |volumes| && !InFlight(old(volumes)[i]) ==> volumes[i] == old(volumes)[i]
        invariant forall i :: 0 <= i < |volumes| ==> SamePlace(old(volumes)[i], volumes[i])
        invariant forall i :: 0 <= i < |volumes| && old(volumes)[i].state == Loading ==> volumes[i].state in {Loading, Loaded}
        invariant forall i :: 0 <= i < |volumes| && old(volumes)[i].state == Unloading ==> volumes[i].state in {Unloading, Unloaded}
        invariant (forall i :: 0 <= i < |old(volumes)| ==> !InFlight(old(volumes)[i])) ==>
          volumes == old(volumes) && used <= 1 && (used > 0 ==> !isInFlight)
        decreases |rounds| - used
      {
        isInFlight := DrainRound(rounds[used]);
        used := used + 1;
      }
      finished := !isInFlight;
    }

    /** ShutdownStreaming as written: drain, start unloads of Loaded volumes without a state change, drain again. */
    method ShutdownStreamingAsWritten(firstRounds: seq<seq<DrainPoll>>, secondRounds: seq<seq<DrainPoll>>)
      returns (firstFinished: bool, secondFinished: bool, secondUsed: nat)
      requires Valid()
      requires forall r :: 0 <= r < |firstRounds| ==> |firstRounds[r]| == |volumes|
      requires forall r :: 0 <= r < |secondRounds| ==> |secondRounds[r]| == |volumes|
      modifies this
      ensures Valid() && |volumes| == |old(volumes)|
      ensures firstFinished && |secondRounds| > 0 ==> secondFinished && secondUsed == 1
      ensures firstFinished ==> forall i :: 0 <= i < |volumes| && volumes[i].state == Loaded ==>
        volumes[i].future == Some(R.UnloadTask(volumes[i].scene.value))
    {
      var firstUsed;
      firstFinished, firstUsed := WaitForInFlightOperations(firstRounds);
      volumes := seq(|volumes|, i requires 0 <= i < |volumes| && Consistent(volumes[i]) reads this =>
                       RequestUnloadsAsWritten(volumes[i]));
      secondFinished, secondUsed := WaitForInFlightOperations(secondRounds);
    }

    /** ShutdownStreaming as intended: the unloads started in the second phase are waited for by the second drain. */
    method ShutdownStreaming(firstRounds: seq<seq<DrainPoll>>, secondRounds: seq<seq<DrainPoll>>)
      returns (firstFinished: bool, secondFinished: bool)
      requires Valid()
      requires forall r :: 0 <= r < |firstRounds| ==> |firstRounds[r]| == |volumes|
      requires forall r :: 0 <= r < |secondRounds| ==> |secondRounds[r]| == |volumes|
      modifies this
      ensures Valid() && |volumes| == |old(volumes)|
      ensures forall i :: 0 <= i < |volumes| ==> SamePlace(old(volumes)[i], volumes[i])
      ensures firstFinished && secondFinished ==>
        forall i :: 0 <= i < |volumes| ==> volumes[i].state in {Unloaded, CancellationRequested}
    {
      var firstUsed, secondUsed;
      firstFinished, firstUsed := WaitForInFlightOperations(firstRounds);
      volumes := seq(|volumes|, i requires 0 <= i < |volumes| && Consistent(volumes[i]) reads this =>
                       RequestUnloads(volumes[i]));
      secondFinished, secondUsed := WaitForInFlightOperations(secondRounds);
    }
  }
}
