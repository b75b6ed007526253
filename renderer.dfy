/**
 * The renderer's scene bookkeeping (src/DX12/Renderer.h, src/DX12/Renderer.cpp):
 * streaming volumes' box test, the list of scenes being drawn, the timing
 * records of loaded scenes, and the asynchronous load and unload tasks with
 * the DirectStorage calls the load task makes.
 *
 * A future is modelled by the task it will run; what the task yields is given
 * by the Run* methods, and when it becomes ready is decided by the caller.
 */
module Renderer {
  import opened Wrappers
  import opened FrameTimeSnapshots
  import DS = DirectStorage

  // ---------------------------------------------------------------------------
  // StreamingVolume::IsPointInside (Renderer.cpp lines 743-755)
  // ---------------------------------------------------------------------------

  datatype Point3 = Point3(x: real, y: real, z: real)

  /** One bit per lane, as _mm_movemask_ps gathers the sign bits of the x, y and z comparisons. */
  function LaneBits(lanes: (bool, bool, bool)): nat
  {
    (if lanes.0 then 1 else 0) + (if lanes.1 then 2 else 0) + (if lanes.2 then 4 else 0)
  }

  /**
   * The point is compared lane by lane with center + radius (at most) and
   * center - radius (at least); it is inside when all three lanes pass.
   */
  function IsPointInside(center: Point3, radius: Point3, point: Point3): (inside: bool)
    ensures inside <==> && center.x - radius.x <= point.x <= center.x + radius.x
                        && center.y - radius.y <= point.y <= center.y + radius.y
                        && center.z - radius.z <= point.z <= center.z + radius.z
  {
    var maxs := Point3(center.x + radius.x, center.y + radius.y, center.z + radius.z);
    var mins := Point3(center.x - radius.x, center.y - radius.y, center.z - radius.z);
    var lessEqual := (point.x <= maxs.x, point.y <= maxs.y, point.z <= maxs.z);
    var greaterEqual := (point.x >= mins.x, point.y >= mins.y, point.z >= mins.z);
    var both := (lessEqual.0 && greaterEqual.0, lessEqual.1 && greaterEqual.1, lessEqual.2 && greaterEqual.2);
    LaneBits(both) == 0x7
  }

  // ---------------------------------------------------------------------------
  // Requests, timing records and scene data (Renderer.h lines 137-201)
  // ---------------------------------------------------------------------------

  /** SceneLoadRequest; the transform is the 16 entries of the scene's matrix. */
  datatype SceneLoadRequest = SceneLoadRequest(
    workloadId: bv64,
    sceneName: string,
    transform: seq<real>,
    useDirectStorage: bool,
    usePlacedResources: bool)

  /** SceneTimingData, without the compression ratio (a floating-point quotient of the two sizes). */
  datatype SceneTimingData = SceneTimingData(
    loadRequest: SceneLoadRequest,
    loadTime: real,
    frameTimeMeanBeforeLoading: real,
    frameTimeMedianBeforeLoading: int,
    ioTime: nat,
    sceneTextureFileDataSize: int,
    sceneTextureUncompressedSize: int)

  /** A scene the renderer may draw; `destroyed` records OnDestroy. */
  class SceneData {
    var hasTextureHeap: bool
    var sceneTransform: seq<real>
    var timingData: SceneTimingData
    var destroyed: bool

    constructor (hasTextureHeap: bool, sceneTransform: seq<real>, timingData: SceneTimingData)
      ensures this.hasTextureHeap == hasTextureHeap && this.sceneTransform == sceneTransform
      ensures this.timingData == timingData && !destroyed
    {
      this.hasTextureHeap, this.sceneTransform := hasTextureHeap, sceneTransform;
      this.timingData, this.destroyed := timingData, false;
    }
  }

  // ---------------------------------------------------------------------------
  // Futures and the load dispatch (Renderer.cpp lines 487-509)
  // ---------------------------------------------------------------------------

  datatype LoadPath = DirectStoragePath | PlainPath

  /** The task behind a future: a load with what was captured at request time, or an unload of a scene. */
  datatype Task =
    | LoadTask(path: LoadPath, request: SceneLoadRequest, requestTime: real, frameTimeMean: real, frameTimeMedian: int)
    | UnloadTask(scene: SceneData)

  /** LoadSceneAsync picks the DirectStorage loader exactly when the request asks for DirectStorage. */
  function LoadPathFor(request: SceneLoadRequest): (path: LoadPath)
    ensures path == DirectStoragePath <==> request.useDirectStorage
    ensures path == PlainPath <==> !request.useDirectStorage
  {
    if request.useDirectStorage then DirectStoragePath else PlainPath
  }

  /** UnloadSceneAsync's task: destroy the scene (releasing its heap) and resolve to null. */
  method RunUnloadTask(scene: SceneData) returns (result: Option<SceneData>)
    modifies scene
    ensures result == None
    ensures scene.destroyed && !scene.hasTextureHeap
    ensures scene.sceneTransform == old(scene.sceneTransform) && scene.timingData == old(scene.timingData)
  {
    scene.destroyed := true;
    scene.hasTextureHeap := false;
    result := None;
  }

  /** The no-DirectStorage load task: a new scene without a texture heap. */
  method RunLoadTaskPlain(task: Task, now: real) returns (scene: SceneData)
    requires task.LoadTask? && task.path == PlainPath
    ensures fresh(scene) && !scene.destroyed
    ensures !scene.hasTextureHeap
    ensures scene.sceneTransform == task.request.transform
    ensures scene.timingData.loadRequest == task.request
    ensures scene.timingData.frameTimeMeanBeforeLoading == task.frameTimeMean
    ensures scene.timingData.frameTimeMedianBeforeLoading == task.frameTimeMedian
    ensures scene.timingData.loadTime == now - task.requestTime
  {
    var timing := SceneTimingData(task.request, now - task.requestTime, task.frameTimeMean, task.frameTimeMedian, 0, 0, 0);
    scene := new SceneData(false, task.request.transform, timing);
  }

  /** The reads enqueued for a list of requests. */
  function ReadsOf(requests: seq<DS.ReadRequest>): (q: seq<DS.Command>)
    ensures |q| == |requests| && forall i :: 0 <= i < |requests| ==> q[i] == DS.Read(requests[i])
  {
    seq(|requests|, i requires 0 <= i < |requests| => DS.Read(requests[i]))
  }

  /** Every texture can be looked up and passes InitFromFile's alignment assertion. */
  ghost predicate TexturesReadable(storage: DS.StorageRuntime, textures: seq<string>)
    reads storage
  {
    forall t :: t in textures ==> t in storage.resourceTable && storage.resourceTable[t].header.resourceOffset % 4096 == 0
  }

  /**
   * LoadTextures on the DirectStorage path: one InitFromFile per texture of
   * the scene, each a read tagged with the workload, none submitted.
   */
  method EnqueueTextureReads(storage: DS.StorageRuntime, textures: seq<string>, hasHeap: bool, workloadId: bv64)
    returns (requests: seq<DS.ReadRequest>)
    requires storage.Valid() && TexturesReadable(storage, textures)
    modifies storage
    ensures storage.Valid() && storage.workloads == old(storage.workloads)
    ensures storage.normalQueue == old(storage.normalQueue) + ReadsOf(requests)
    ensures storage.fenceValueCPU == old(storage.fenceValueCPU) && storage.fenceValueGPU == old(storage.fenceValueGPU)
    ensures storage.fenceValueProfile == old(storage.fenceValueProfile)
    ensures storage.resourceTable == old(storage.resourceTable)
    ensures storage.sceneHeapTemplates == old(storage.sceneHeapTemplates)
    ensures storage.sceneSizeOnDisk == old(storage.sceneSizeOnDisk)
    ensures storage.sceneSizeUncompressed == old(storage.sceneSizeUncompressed)
    ensures |requests| == |textures|
    ensures forall i :: 0 <= i < |textures| ==> requests[i].cancellationTag == workloadId
    ensures forall i :: 0 <= i < |textures| ==>
      requests[i].offset == storage.resourceTable[textures[i]].header.resourceOffset && requests[i].offset % 4096 == 0
    ensures forall i :: 0 <= i < |textures| ==>
      requests[i].destination == if hasHeap then DS.Placed(storage.resourceTable[textures[i]].heapOffset) else DS.Committed
  {
    requests := [];
    for i := 0 to |textures|
      invariant storage.Valid() && storage.workloads == old(storage.workloads)
      invariant storage.normalQueue == old(storage.normalQueue) + ReadsOf(requests)
      invariant storage.fenceValueCPU == old(storage.fenceValueCPU) && storage.fenceValueGPU == old(storage.fenceValueGPU)
      invariant storage.fenceValueProfile == old(storage.fenceValueProfile)
      invariant storage.resourceTable == old(storage.resourceTable)
      invariant storage.sceneHeapTemplates == old(storage.sceneHeapTemplates)
      invariant storage.sceneSizeOnDisk == old(storage.sceneSizeOnDisk)
      invariant storage.sceneSizeUncompressed == old(storage.sceneSizeUncompressed)
      invariant |requests| == i
      invariant forall k :: 0 <= k < i ==> requests[k].cancellationTag == workloadId
      invariant forall k :: 0 <= k < i ==>
        requests[k].offset == storage.resourceTable[textures[k]].header.resourceOffset && requests[k].offset % 4096 == 0
      invariant forall k :: 0 <= k < i ==>
        requests[k].destination == if hasHeap then DS.Placed(storage.resourceTable[textures[k]].heapOffset) else DS.Committed
    {
      assert textures[i] in textures;
      var req := storage.InitFromFile(textures[i], hasHeap, workloadId);
      assert ReadsOf(requests + [req]) == ReadsOf(requests) + [DS.Read(req)];
      requests := requests + [req];
    }
  }

  /**
   * The DirectStorage load task: look the scene up (map::at), record its
   * sizes, ask the device for a heap when placed resources are requested,
   * enqueue its texture reads, then the end-of-loading marker, a CPU fence
   * and a submit, and wait for the fence over the observed completed values.
   * `createHeap` is the device's answer to CreateHeap for a description: the
   * heap pointer stays null when it refuses, and the reads then target
   * committed resources. A scene without a template is handed the empty
   * description that operator[] inserts.
   */
  method RunLoadTaskDirectStorage(storage: DS.StorageRuntime, task: Task, scenePathMap: map<string, DS.ScenePathPair>,
                                  textures: seq<string>, createHeap: DS.HeapDesc -> bool,
                                  hasSetEvent: bool, completedValues: seq<nat>, now: real)
    returns (scene: SceneData, fenceValue: nat, polls: Option<nat>)
    requires task.LoadTask? && task.path == DirectStoragePath
    requires storage.Valid() && TexturesReadable(storage, textures)
    requires task.request.sceneName in scenePathMap
    requires scenePathMap[task.request.sceneName] in storage.sceneSizeOnDisk
    requires scenePathMap[task.request.sceneName] in storage.sceneSizeUncompressed
    modifies storage
    ensures storage.Valid() && storage.workloads == old(storage.workloads)
    ensures fresh(scene) && !scene.destroyed
    ensures scene.hasTextureHeap == (task.request.usePlacedResources &&
      createHeap(DS.TemplateForScene(old(storage.sceneHeapTemplates), scenePathMap[task.request.sceneName]).0))
    ensures storage.sceneHeapTemplates ==
      if task.request.usePlacedResources
      then DS.TemplateForScene(old(storage.sceneHeapTemplates), scenePathMap[task.request.sceneName]).1
      else old(storage.sceneHeapTemplates)
    ensures scene.sceneTransform == task.request.transform
    ensures scene.timingData.loadRequest == task.request
    ensures scene.timingData.frameTimeMeanBeforeLoading == task.frameTimeMean
    ensures scene.timingData.frameTimeMedianBeforeLoading == task.frameTimeMedian
    ensures scene.timingData.loadTime == now - task.requestTime
    ensures scene.timingData.sceneTextureFileDataSize == old(storage.sceneSizeOnDisk)[scenePathMap[task.request.sceneName]]
    ensures scene.timingData.sceneTextureUncompressedSize ==
      old(storage.sceneSizeUncompressed)[scenePathMap[task.request.sceneName]]
    ensures exists requests: seq<DS.ReadRequest> ::
      && |requests| == |textures|
      && (forall i :: 0 <= i < |requests| ==> requests[i].cancellationTag == task.request.workloadId)
      && (forall i :: 0 <= i < |requests| ==>
            requests[i].destination == (if scene.hasTextureHeap
                                        then DS.Placed(old(storage.resourceTable)[textures[i]].heapOffset)
                                        else DS.Committed))
      && storage.normalQueue == old(storage.normalQueue) + ReadsOf(requests)
           + (if hasSetEvent then [DS.SetEvent(task.request.workloadId as nat)] else [])
           + [DS.Signal(DS.CpuFence, fenceValue), DS.Submit]
    ensures fenceValue == storage.fenceValueCPU == old(storage.fenceValueCPU) + 1
    ensures polls.Some? ==> polls.value < |completedValues| && completedValues[polls.value] >= fenceValue
    ensures polls.None? ==> forall k :: 0 <= k < |completedValues| ==> completedValues[k] < fenceValue
  {
    var request := task.request;
    var scenePair := scenePathMap[request.sceneName];
    var onDisk := storage.sceneSizeOnDisk[scenePair];
    var uncompressed := storage.sceneSizeUncompressed[scenePair];
    var hasHeap := false;
    if request.usePlacedResources {
      var heap := storage.GetTextureHeapDescForScene(scenePair);
      hasHeap := createHeap(heap);
    }
    var q0 := storage.normalQueue;
    var requests := EnqueueTextureReads(storage, textures, hasHeap, request.workloadId);
    var q1 := storage.normalQueue;
    storage.EndProfileLoading(request.workloadId as nat, hasSetEvent);
    var q2 := storage.normalQueue;
    fenceValue := storage.InsertFenceCPU();
    storage.SubmitNormal();
    polls := DS.WaitForFence(completedValues, fenceValue);
    var timing := SceneTimingData(request, now - task.requestTime, task.frameTimeMean, task.frameTimeMedian, 0, onDisk, uncompressed);
    scene := new SceneData(hasHeap, request.transform, timing);
    assert storage.normalQueue == q0 + ReadsOf(requests)
           + (if hasSetEvent then [DS.SetEvent(request.workloadId as nat)] else [])
           + [DS.Signal(DS.CpuFence, fenceValue), DS.Submit];
  }

  // ---------------------------------------------------------------------------
  // The renderer's scene list and timings (Renderer.h lines 250-261, Renderer.cpp lines 203-213)
  // ---------------------------------------------------------------------------

  /** The position of the first occurrence of `x` in `s`, as std::find returns it. */
  function FirstIndexOf<T(==)>(s: seq<T>, x: T): (i: nat)
    ensures i <= |s|
    ensures i < |s| ==> s[i] == x
    ensures forall k :: 0 <= k < i ==> s[k] != x
  {
    if s == [] then 0
    else if s[0] == x then 0
    else 1 + FirstIndexOf(s[1..], x)
  }

  /** The list with the first occurrence of `x` erased (std::find, then erase when found). */
  function Removed<T(==)>(s: seq<T>, x: T): (r: seq<T>)
    ensures x !in s ==> r == s
    ensures x in s ==> |r| == |s| - 1 && multiset(r) == multiset(s) - multiset{x}
  {
    var i := FirstIndexOf(s, x);
    if i < |s| then
      assert s == s[..i] + [x] + s[i + 1..];
      s[..i] + s[i + 1..]
    else s
  }

  /** Removing a scene just appended (and not listed before) gives the list back. */
  lemma {:induction false} RemovedAfterAppend<T>(s: seq<T>, x: T)
    requires x !in s
    ensures Removed(s + [x], x) == s
  {
    FirstIndexIsUnique(s + [x], x, |s|);
    assert (s + [x])[..|s|] == s;
  }

  class Renderer {
    var sceneData: seq<SceneData>
    var rollingFrameTimeSnapshot: FrameTimeSnapshotRolling

    ghost predicate Valid()
      reads this, rollingFrameTimeSnapshot
    {
      rollingFrameTimeSnapshot.Valid()
    }

    constructor ()
      ensures Valid() && sceneData == [] && fresh(rollingFrameTimeSnapshot)
      ensures fresh(rollingFrameTimeSnapshot.frameTimes) && fresh(rollingFrameTimeSnapshot.frameTimesCopy)
    {
      sceneData := [];
      rollingFrameTimeSnapshot := new FrameTimeSnapshotRolling();
    }

    method AddScene(scene: SceneData)
      modifies this
      ensures sceneData == old(sceneData) + [scene]
      ensures rollingFrameTimeSnapshot == old(rollingFrameTimeSnapshot)
    {
      sceneData := sceneData + [scene];
    }

    /** Erase the first occurrence of the scene, if there is one. */
    method RemoveScene(scene: SceneData)
      modifies this
      ensures sceneData == Removed(old(sceneData), scene)
      ensures rollingFrameTimeSnapshot == old(rollingFrameTimeSnapshot)
    {
      var i := 0;
      while i < |sceneData| && sceneData[i] != scene
        invariant i <= |sceneData|
        invariant forall k :: 0 <= k < i ==> sceneData[k] != scene
      {
        i := i + 1;
      }
      FirstIndexIsUnique(sceneData, scene, i);
      if i < |sceneData| {
        sceneData := sceneData[..i] + sceneData[i + 1..];
      }
    }

    /** One timing record per scene being drawn, in list order. */
    method GetSceneLoadingTimings() returns (timings: seq<SceneTimingData>)
      ensures |timings| == |sceneData|
      ensures forall i :: 0 <= i < |sceneData| ==> timings[i] == sceneData[i].timingData
    {
      timings := [];
      for i := 0 to |sceneData|
        invariant |timings| == i
        invariant forall k :: 0 <= k < i ==> timings[k] == sceneData[k].timingData
      {
        timings := timings + [sceneData[i].timingData];
      }
    }

    /** LoadSceneAsyncDirectStorage / LoadSceneAsyncNoDirectStorage: capture the rolling mean and median, then start the task. */
    method LoadSceneAsyncOn(path: LoadPath, request: SceneLoadRequest, requestTime: real) returns (task: Task)
      requires Valid()
      modifies rollingFrameTimeSnapshot.frameTimesCopy
      ensures Valid() && rollingFrameTimeSnapshot.frameTimes[..] == old(rollingFrameTimeSnapshot.frameTimes[..])
      ensures task.LoadTask? && task.path == path && task.request == request && task.requestTime == requestTime
      ensures task.frameTimeMean == rollingFrameTimeSnapshot.GetArithmeticMean()
      ensures rollingFrameTimeSnapshot.WindowLength() > 0 ==>
        task.frameTimeMedian == SortSeq(rollingFrameTimeSnapshot.Window())[rollingFrameTimeSnapshot.WindowLength() / 2]
    {
      var mean := rollingFrameTimeSnapshot.GetArithmeticMean();
      var median := rollingFrameTimeSnapshot.GetMedian();
      task := LoadTask(path, request, requestTime, mean, median);
    }

    /** LoadSceneAsync: dispatch on the request's DirectStorage flag. */
    method LoadSceneAsync(request: SceneLoadRequest, requestTime: real) returns (task: Task)
      requires Valid()
      modifies rollingFrameTimeSnapshot.frameTimesCopy
      ensures Valid() && rollingFrameTimeSnapshot.frameTimes[..] == old(rollingFrameTimeSnapshot.frameTimes[..])
      ensures task.LoadTask? && task.request == request && task.path == LoadPathFor(request)
      ensures task.requestTime == requestTime && task.frameTimeMean == rollingFrameTimeSnapshot.GetArithmeticMean()
      ensures rollingFrameTimeSnapshot.WindowLength() > 0 ==>
        task.frameTimeMedian == SortSeq(rollingFrameTimeSnapshot.Window())[rollingFrameTimeSnapshot.WindowLength() / 2]
    {
      if request.useDirectStorage {
        task := LoadSceneAsyncOn(DirectStoragePath, request, requestTime);
      } else {
        task := LoadSceneAsyncOn(PlainPath, request, requestTime);
      }
    }

    /** UnloadSceneAsync: a task that will destroy this scene. */
    method UnloadSceneAsync(sceneName: string, scene: SceneData) returns (task: Task)
      ensures task == UnloadTask(scene)
    {
      task := UnloadTask(scene);
    }
  }

  lemma {:induction false} FirstIndexIsUnique<T>(s: seq<T>, x: T, i: nat)
    requires i <= |s| && (i < |s| ==> s[i] == x) && forall k :: 0 <= k < i ==> s[k] != x
    ensures i == FirstIndexOf(s, x)
  {
    if s != [] && s[0] != x {
      FirstIndexIsUnique(s[1..], x, i - 1);
    }
  }
}
