/**
 * The sample's DirectStorage layer (src/DX12/GLTFTextureAndBuffersDirectStorage.cpp):
 * the tables built from the packaged metadata when streaming starts (records
 * per file, the name-to-entry table, per-scene sizes, per-scene heap
 * templates), the read request issued for one texture, the monotonic fence
 * counters, the 512-slot profiling ring and cancellation by tag.
 *
 * The DirectStorage queues are modelled as the sequence of commands enqueued
 * on them and not yet retired; a Submit is a command of its own, so "enqueues
 * but does not submit" is visible in the sequence.
 */
module DirectStorage {
  import opened Wrappers
  import TC = TextureConverter
  import PU = PackageUtils

  // ---------------------------------------------------------------------------
  // Records per metadata file (InitializeDirectStorage, lines 341-347)
  // ---------------------------------------------------------------------------

  /** The number of whole records of `recordSize` bytes that fit in a file of `fileSize` bytes. */
  function RecordCount(fileSize: nat, recordSize: nat): (n: nat)
    requires recordSize > 0
    ensures n * recordSize <= fileSize < n * recordSize + recordSize
  {
    fileSize / recordSize
  }

  // ---------------------------------------------------------------------------
  // The data file next to a metadata file (lines 468-469)
  // ---------------------------------------------------------------------------

  /** wstring::rfind searching backwards from position `from`. */
  function FindLastFrom(s: string, pat: string, from: nat): (r: Option<nat>)
    ensures r.Some? ==> r.value <= from && TC.OccursAt(s, pat, r.value)
    ensures r.Some? ==> forall k :: r.value < k <= from ==> !TC.OccursAt(s, pat, k)
    ensures r.None? ==> forall k :: 0 <= k <= from ==> !TC.OccursAt(s, pat, k)
  {
    if TC.OccursAt(s, pat, from) then Some(from)
    else if from == 0 then None
    else FindLastFrom(s, pat, from - 1)
  }

  /** wstring::rfind: the last position where `pat` occurs in `s`. */
  function RFind(s: string, pat: string): (r: Option<nat>)
    ensures r.Some? ==> TC.OccursAt(s, pat, r.value)
    ensures r.Some? ==> forall k :: r.value < k ==> !TC.OccursAt(s, pat, k)
    ensures r.None? ==> forall k :: !TC.OccursAt(s, pat, k)
  {
    FindLastFrom(s, pat, |s|)
  }

  const METADATA_FILE_NAME: string := "MetaData.bin"
  const TEXTURE_DATA_FILE_NAME: string := "TextureData.bin"

  /**
   * The metadata path up to its last "MetaData.bin", followed by
   * "TextureData.bin"; without an occurrence substr(0, npos) keeps the whole path.
   */
  function DataFileName(metaPath: string): (r: string)
    ensures |r| >= |TEXTURE_DATA_FILE_NAME| && r[|r| - |TEXTURE_DATA_FILE_NAME|..] == TEXTURE_DATA_FILE_NAME
    ensures r[..|r| - |TEXTURE_DATA_FILE_NAME|] <= metaPath
    ensures RFind(metaPath, METADATA_FILE_NAME).Some? ==>
      |r| - |TEXTURE_DATA_FILE_NAME| == RFind(metaPath, METADATA_FILE_NAME).value
    ensures RFind(metaPath, METADATA_FILE_NAME).None? ==> r[..|r| - |TEXTURE_DATA_FILE_NAME|] == metaPath
  {
    match RFind(metaPath, METADATA_FILE_NAME)
    case Some(p) => metaPath[..p] + TEXTURE_DATA_FILE_NAME
    case None => metaPath + TEXTURE_DATA_FILE_NAME
  }

  /** A metadata file written by the packager sits next to its data file. */
  lemma DataFileNameOfPackagedPath(dir: string)
    ensures DataFileName(dir + METADATA_FILE_NAME) == dir + TEXTURE_DATA_FILE_NAME
  {
    var s := dir + METADATA_FILE_NAME;
    assert s[|dir|..|dir| + |METADATA_FILE_NAME|] == METADATA_FILE_NAME;
    assert TC.OccursAt(s, METADATA_FILE_NAME, |dir|);
    var p := RFind(s, METADATA_FILE_NAME).value;
    assert p == |dir|;
    assert s[..p] == dir;
  }

  // ---------------------------------------------------------------------------
  // The resource table (lines 462-501)
  // ---------------------------------------------------------------------------

  /** One resource's placement as reported by GetResourceAllocationInfo1. */
  datatype AllocInfo = AllocInfo(offset: nat, sizeInBytes: nat)

  /** ResourceLookupEntry; `fileHandle` is the index of the data file opened for the record's metadata file. */
  datatype LookupEntry = LookupEntry(
    header: TC.MetadataRecord,
    heapOffset: nat,
    heapSize: nat,
    fileHandle: nat,
    gltfPath: string)

  type TableEntry = (string, LookupEntry)

  /** The record's name as the table key: the characters up to the terminator. */
  function KeyOf(r: TC.MetadataRecord): string
  {
    PU.CString(r.resourceName)
  }

  /** Every metadata file has one allocation entry per record. */
  predicate AllocsMatch(files: seq<seq<TC.MetadataRecord>>, allocs: seq<seq<AllocInfo>>)
  {
    |allocs| == |files| && forall i :: 0 <= i < |files| ==> |allocs[i]| == |files[i]|
  }

  /** The entry built for record `j` of metadata file `i`. */
  function EntryFor(i: nat, record: TC.MetadataRecord, alloc: AllocInfo): (e: TableEntry)
  {
    (KeyOf(record), LookupEntry(record, alloc.offset, alloc.sizeInBytes, i, record.resourceName))
  }

  /** The entries of metadata file `i`, in record order. */
  function FileEntries(i: nat, records: seq<TC.MetadataRecord>, allocs: seq<AllocInfo>): (es: seq<TableEntry>)
    requires |allocs| == |records|
    ensures |es| == |records|
    ensures forall j :: 0 <= j < |records| ==> es[j] == EntryFor(i, records[j], allocs[j])
  {
    seq(|records|, j requires 0 <= j < |records| => EntryFor(i, records[j], allocs[j]))
  }

  /** The entries of the first `n` metadata files, in the order the loops visit them. */
  function AllEntries(files: seq<seq<TC.MetadataRecord>>, allocs: seq<seq<AllocInfo>>, n: nat): seq<TableEntry>
    requires AllocsMatch(files, allocs) && n <= |files|
  {
    if n == 0 then []
    else AllEntries(files, allocs, n - 1) + FileEntries(n - 1, files[n - 1], allocs[n - 1])
  }

  /** insert_or_assign of every entry in turn: a later entry replaces an earlier one with the same key. */
  function TableOf(es: seq<TableEntry>): map<string, LookupEntry>
  {
    if es == [] then map[]
    else
      var rest := TableOf(es[1..]);
      if es[0].0 in rest then rest else rest[es[0].0 := es[0].1]
  }

  function KeySet(es: seq<TableEntry>): set<string>
  {
    set k | 0 <= k < |es| :: es[k].0
  }

  predicate HasDuplicateKey(es: seq<TableEntry>)
  {
    exists a, b :: 0 <= a < b < |es| && es[a].0 == es[b].0
  }

  lemma {:induction false} TableOfSnoc(es: seq<TableEntry>, x: TableEntry)
    ensures TableOf(es + [x]) == TableOf(es)[x.0 := x.1]
    decreases |es|
  {
    if es == [] {
      assert es + [x] == [x];
      assert ([x])[1..] == [];
    } else {
      assert (es + [x])[1..] == es[1..] + [x];
      TableOfSnoc(es[1..], x);
    }
  }

  /** The table's keys are exactly the keys of the entries inserted. */
  lemma {:induction false} TableKeys(es: seq<TableEntry>)
    ensures TableOf(es).Keys == KeySet(es)
    decreases |es|
  {
    if es != [] {
      TableKeys(es[1..]);
      assert KeySet(es) == {es[0].0} + KeySet(es[1..]) by {
        forall k | 0 <= k < |es[1..]| ensures es[1..][k].0 in KeySet(es) {
          assert es[1..][k] == es[k + 1];
        }
        forall key | key in KeySet(es) ensures key in {es[0].0} + KeySet(es[1..]) {
          var k :| 0 <= k < |es| && es[k].0 == key;
          if k > 0 {
            assert es[1..][k - 1] == es[k];
          }
        }
      }
    }
  }

  /** Each key maps to the last entry inserted under it. */
  lemma {:induction false} TableLastWins(es: seq<TableEntry>, k: nat)
    requires k < |es|
    requires forall m :: k < m < |es| ==> es[m].0 != es[k].0
    ensures es[k].0 in TableOf(es) && TableOf(es)[es[k].0] == es[k].1
    decreases |es|
  {
    if k == 0 {
      TableKeys(es[1..]);
      assert es[0].0 !in KeySet(es[1..]) by {
        forall m | 0 <= m < |es[1..]| ensures es[1..][m].0 != es[0].0 {
          assert es[1..][m] == es[m + 1];
        }
      }
    } else {
      TableLastWins(es[1..], k - 1);
    }
  }

  /** Every value in the table is an entry that was inserted under its key. */
  lemma {:induction false} TableValuesInserted(es: seq<TableEntry>)
    ensures forall key :: key in TableOf(es) ==> (key, TableOf(es)[key]) in es
    decreases |es|
  {
    if es != [] {
      TableValuesInserted(es[1..]);
    }
  }

  lemma DuplicateSnoc(es: seq<TableEntry>, x: TableEntry)
    ensures HasDuplicateKey(es + [x]) <==> HasDuplicateKey(es) || x.0 in KeySet(es)
  {
    var s := es + [x];
    if HasDuplicateKey(s) {
      var a, b :| 0 <= a < b < |s| && s[a].0 == s[b].0;
      if b < |es| {
        assert es[a].0 == es[b].0;
      } else {
        assert es[a].0 == x.0;
      }
    }
    if HasDuplicateKey(es) {
      var a, b :| 0 <= a < b < |es| && es[a].0 == es[b].0;
      assert s[a].0 == s[b].0;
    }
    if x.0 in KeySet(es) {
      var a :| 0 <= a < |es| && es[a].0 == x.0;
      assert s[a].0 == s[|es|].0;
    }
  }

  /** The inner loop: insert the records of metadata file `i` one by one. */
  method InsertFileEntries(table: map<string, LookupEntry>, duplicate: bool, ghost done: seq<TableEntry>,
                           i: nat, records: seq<TC.MetadataRecord>, allocs: seq<AllocInfo>)
    returns (table': map<string, LookupEntry>, duplicate': bool)
    requires |allocs| == |records|
    requires table == TableOf(done) && (duplicate <==> HasDuplicateKey(done))
    ensures table' == TableOf(done + FileEntries(i, records, allocs))
    ensures duplicate' <==> HasDuplicateKey(done + FileEntries(i, records, allocs))
  {
    ghost var es := FileEntries(i, records, allocs);
    table', duplicate' := table, duplicate;
    assert done + es[..0] == done;
    for j := 0 to |records|
      invariant table' == TableOf(done + es[..j])
      invariant duplicate' <==> HasDuplicateKey(done + es[..j])
    {
      var record := records[j];
      var key := KeyOf(record);
      var entry := LookupEntry(record, allocs[j].offset, allocs[j].sizeInBytes, i, record.resourceName);
      assert es[j] == (key, entry);
      ghost var prefix := done + es[..j];
      assert done + es[..j + 1] == prefix + [(key, entry)];
      TableKeys(prefix);
      DuplicateSnoc(prefix, (key, entry));
      TableOfSnoc(prefix, (key, entry));
      if key in table' {
        duplicate' := true;
      }
      table' := table'[key := entry];
    }
    assert es[..|records|] == es;
  }

  /**
   * The table-building loop: for metadata file `i` open the data file next to
   * it, then insert an entry for each of its records; `duplicate` reports a
   * name inserted twice, where the code asserts.
   */
  method BuildResourceTable(metaNames: seq<string>, files: seq<seq<TC.MetadataRecord>>, allocs: seq<seq<AllocInfo>>)
    returns (table: map<string, LookupEntry>, dataFiles: seq<string>, duplicate: bool)
    requires |metaNames| == |files| && AllocsMatch(files, allocs)
    ensures |dataFiles| == |files|
    ensures forall i :: 0 <= i < |files| ==> dataFiles[i] == DataFileName(metaNames[i])
    ensures table == TableOf(AllEntries(files, allocs, |files|))
    ensures duplicate <==> HasDuplicateKey(AllEntries(files, allocs, |files|))
  {
    dataFiles := seq(|metaNames|, k requires 0 <= k < |metaNames| => DataFileName(metaNames[k]));
    table, duplicate := map[], false;
    ghost var done: seq<TableEntry> := [];
    for i := 0 to |files|
      invariant done == AllEntries(files, allocs, i)
      invariant table == TableOf(done)
      invariant duplicate <==> HasDuplicateKey(done)
    {
      AllEntriesNext(files, allocs, i);
      table, duplicate := InsertFileEntries(table, duplicate, done, i, files[i], allocs[i]);
      done := done + FileEntries(i, files[i], allocs[i]);
    }
  }

  lemma AllEntriesNext(files: seq<seq<TC.MetadataRecord>>, allocs: seq<seq<AllocInfo>>, i: nat)
    requires AllocsMatch(files, allocs) && i < |files|
    ensures |allocs[i]| == |files[i]|
    ensures AllEntries(files, allocs, i + 1) == AllEntries(files, allocs, i) + FileEntries(i, files[i], allocs[i])
  {
  }

  /** Every entry of the first `n` files comes from one of their records and carries that record's allocation. */
  lemma {:induction false} AllEntriesOrigin(files: seq<seq<TC.MetadataRecord>>, allocs: seq<seq<AllocInfo>>, n: nat, x: TableEntry)
    requires AllocsMatch(files, allocs) && n <= |files|
    requires x in AllEntries(files, allocs, n)
    ensures x.1.fileHandle < n
    ensures exists j :: 0 <= j < |files[x.1.fileHandle]| && x == EntryFor(x.1.fileHandle, files[x.1.fileHandle][j], allocs[x.1.fileHandle][j])
    decreases n
  {
    var es := FileEntries(n - 1, files[n - 1], allocs[n - 1]);
    if x in AllEntries(files, allocs, n - 1) {
      AllEntriesOrigin(files, allocs, n - 1, x);
    } else {
      assert x in es;
      var j :| 0 <= j < |es| && es[j] == x;
    }
  }

  /**
   * The packager stores 4096-aligned offsets; then every entry of the table
   * passes the alignment assertion of InitFromFile.
   */
  lemma TableOffsetsAligned(files: seq<seq<TC.MetadataRecord>>, allocs: seq<seq<AllocInfo>>)
    requires AllocsMatch(files, allocs)
    requires forall i, j :: 0 <= i < |files| && 0 <= j < |files[i]| ==> files[i][j].resourceOffset % 4096 == 0
    ensures forall key :: key in TableOf(AllEntries(files, allocs, |files|)) ==>
      TableOf(AllEntries(files, allocs, |files|))[key].header.resourceOffset % 4096 == 0
  {
    var es := AllEntries(files, allocs, |files|);
    TableValuesInserted(es);
    forall key | key in TableOf(es) ensures TableOf(es)[key].header.resourceOffset % 4096 == 0 {
      AllEntriesOrigin(files, allocs, |files|, (key, TableOf(es)[key]));
    }
  }

  // ---------------------------------------------------------------------------
  // Per-scene sizes (lines 389-404)
  // ---------------------------------------------------------------------------

  /** A scene's glTF file name and the directory it was found in. */
  datatype ScenePathPair = ScenePathPair(sceneFile: string, scenePath: string)

  /** The sum of the records' compressed (on-disk) or uncompressed sizes. */
  function SumSizes(records: seq<TC.MetadataRecord>, compressed: bool): int
  {
    if records == [] then 0
    else (if compressed then records[0].resourceSizeCompressed else records[0].resourceSizeUncompressed)
         + SumSizes(records[1..], compressed)
  }

  /** What the first `n` metadata files add to `scene`: file `i` counts for the `i`-th scene in map order. */
  function SceneTotal(scene: ScenePathPair, scenes: seq<ScenePathPair>, files: seq<seq<TC.MetadataRecord>>,
                      n: nat, compressed: bool): int
    requires n <= |files| && n <= |scenes|
  {
    if n == 0 then 0
    else SceneTotal(scene, scenes, files, n - 1, compressed)
         + (if scenes[n - 1] == scene then SumSizes(files[n - 1], compressed) else 0)
  }

  /** The for_each over one file's records, adding to both running sizes of its scene. */
  method AddRecordSizes(uncompressed0: int, onDisk0: int, records: seq<TC.MetadataRecord>)
    returns (uncompressed: int, onDisk: int)
    ensures uncompressed == uncompressed0 + SumSizes(records, false)
    ensures onDisk == onDisk0 + SumSizes(records, true)
  {
    uncompressed, onDisk := uncompressed0, onDisk0;
    for j := 0 to |records|
      invariant uncompressed + SumSizes(records[j..], false) == uncompressed0 + SumSizes(records, false)
      invariant onDisk + SumSizes(records[j..], true) == onDisk0 + SumSizes(records, true)
    {
      assert records[j..][1..] == records[j + 1..];
      uncompressed := uncompressed + records[j].resourceSizeUncompressed;
      onDisk := onDisk + records[j].resourceSizeCompressed;
    }
  }

  /** The scenes paired with the first `n` metadata files. */
  function PairedScenes(scenes: seq<ScenePathPair>, n: nat): set<ScenePathPair>
    requires n <= |scenes|
  {
    set i | 0 <= i < n :: scenes[i]
  }

  /**
   * The sizes loop: metadata file `i` is paired with the `i`-th scene of the
   * scene map, and both of that scene's sizes (created as 0 by operator[])
   * grow by the file's record sizes. Advancing past the last scene is
   * undefined, hence the requirement.
   */
  method AccumulateSceneSizes(scenes: seq<ScenePathPair>, files: seq<seq<TC.MetadataRecord>>)
    returns (uncompressed: map<ScenePathPair, int>, onDisk: map<ScenePathPair, int>)
    requires |files| <= |scenes|
    ensures uncompressed.Keys == PairedScenes(scenes, |files|) && onDisk.Keys == PairedScenes(scenes, |files|)
    ensures forall s :: s in uncompressed ==> uncompressed[s] == SceneTotal(s, scenes, files, |files|, false)
    ensures forall s :: s in onDisk ==> onDisk[s] == SceneTotal(s, scenes, files, |files|, true)
  {
    uncompressed, onDisk := map[], map[];
    for i := 0 to |files|
      invariant uncompressed.Keys == PairedScenes(scenes, i) && onDisk.Keys == PairedScenes(scenes, i)
      invariant forall s :: s in uncompressed ==> uncompressed[s] == SceneTotal(s, scenes, files, i, false)
      invariant forall s :: s in onDisk ==> onDisk[s] == SceneTotal(s, scenes, files, i, true)
    {
      var scene := scenes[i];
      var u0 := if scene in uncompressed then uncompressed[scene] else 0;
      var d0 := if scene in onDisk then onDisk[scene] else 0;
      if scene !in uncompressed {
        SceneTotalUnpaired(scene, scenes, files, i);
      }
      var u, d := AddRecordSizes(u0, d0, files[i]);
      uncompressed := uncompressed[scene := u];
      onDisk := onDisk[scene := d];
      assert PairedScenes(scenes, i + 1) == PairedScenes(scenes, i) + {scene};
    }
  }

  /** A scene no file has been paired with yet has nothing added to it. */
  lemma {:induction false} SceneTotalUnpaired(scene: ScenePathPair, scenes: seq<ScenePathPair>,
                                              files: seq<seq<TC.MetadataRecord>>, n: nat)
    requires n <= |files| && n <= |scenes|
    requires scene !in PairedScenes(scenes, n)
    ensures SceneTotal(scene, scenes, files, n, false) == 0 && SceneTotal(scene, scenes, files, n, true) == 0
  {
    if n > 0 {
      assert scenes[n - 1] in PairedScenes(scenes, n);
      assert PairedScenes(scenes, n - 1) <= PairedScenes(scenes, n);
      SceneTotalUnpaired(scene, scenes, files, n - 1);
    }
  }

  /** When every metadata file is paired with a different scene, a scene's sizes are exactly its file's sums. */
  lemma {:induction false} DistinctScenesGetTheirFileSizes(scenes: seq<ScenePathPair>, files: seq<seq<TC.MetadataRecord>>,
                                                          n: nat, i: nat, compressed: bool)
    requires n <= |files| && n <= |scenes| && i < n
    requires forall a, b :: 0 <= a < b < n ==> scenes[a] != scenes[b]
    ensures SceneTotal(scenes[i], scenes, files, n, compressed) == SumSizes(files[i], compressed)
  {
    if i == n - 1 {
      assert scenes[i] !in PairedScenes(scenes, n - 1);
      SceneTotalUnpaired(scenes[i], scenes, files, n - 1);
    } else {
      DistinctScenesGetTheirFileSizes(scenes, files, n - 1, i, compressed);
    }
  }

  /** Only the first `n` files count towards a scene, so dropping the files after `m >= n` changes nothing. */
  lemma {:induction false} SceneTotalPrefix(scene: ScenePathPair, scenes: seq<ScenePathPair>,
                                            files: seq<seq<TC.MetadataRecord>>, m: nat, n: nat, compressed: bool)
    requires n <= m <= |files| && n <= |scenes|
    ensures SceneTotal(scene, scenes, files[..m], n, compressed) == SceneTotal(scene, scenes, files, n, compressed)
  {
    if n > 0 {
      SceneTotalPrefix(scene, scenes, files, m, n - 1, compressed);
      assert files[..m][n - 1] == files[n - 1];
    }
  }

  /**
   * The sizes loop with its scene iterator checked against the end of the
   * scene map: a metadata file past the last scene is paired with nothing,
   * where the loop as written advances past `cend()`.
   */
  method AccumulateSceneSizesGuarded(scenes: seq<ScenePathPair>, files: seq<seq<TC.MetadataRecord>>)
    returns (uncompressed: map<ScenePathPair, int>, onDisk: map<ScenePathPair, int>)
    ensures uncompressed.Keys == PairedScenes(scenes, Min(|files|, |scenes|))
    ensures onDisk.Keys == PairedScenes(scenes, Min(|files|, |scenes|))
    ensures forall s :: s in uncompressed ==> uncompressed[s] == SceneTotal(s, scenes, files, Min(|files|, |scenes|), false)
    ensures forall s :: s in onDisk ==> onDisk[s] == SceneTotal(s, scenes, files, Min(|files|, |scenes|), true)
  {
    var m := Min(|files|, |scenes|);
    uncompressed, onDisk := AccumulateSceneSizes(scenes, files[..m]);
    forall s | s in uncompressed
      ensures uncompressed[s] == SceneTotal(s, scenes, files, m, false)
    {
      SceneTotalPrefix(s, scenes, files, m, m, false);
    }
    forall s | s in onDisk
      ensures onDisk[s] == SceneTotal(s, scenes, files, m, true)
    {
      SceneTotalPrefix(s, scenes, files, m, m, true);
    }
  }

  /**
   * The directory search for one scene at `s\` that holds MetaData.bin and a
   * subdirectory `sub\` holding another one.
   */
  function NestedSceneSearch(query: string): seq<PU.Node>
  {
    if query == "s\\MetaData.bin" || query == "s\\sub\\MetaData.bin"
    then [PU.Node("MetaData.bin", false, 0, 64, [])]
    else []
  }

  /** The walk below `s\` finds its one subdirectory. */
  lemma NestedSceneWalk()
    ensures PU.WalkOrder("s\\", [PU.Node("sub", true, 0, 0, [])]) == ["s\\sub\\"]
  {
    var sub := PU.Node("sub", true, 0, 0, []);
    assert PU.Descends(sub) && PU.ChildPath("s\\", sub) == "s\\sub\\";
    assert PU.SubdirectoryPaths("s\\", []) == [] && PU.SubtreesLastFirst("s\\", []) == [];
    assert PU.WalkOrder("s\\sub\\", []) == [];
    assert PU.SubdirectoryPaths("s\\", [sub]) == ["s\\sub\\"];
    assert PU.SubtreesLastFirst("s\\", [sub]) == [];
  }

  /** Searching `s\` or `s\sub\` for MetaData.bin lists one file. */
  lemma NestedSceneFilesAt(path: string)
    requires path == "s\\" || path == "s\\sub\\"
    ensures |PU.FilesForPatterns(NestedSceneSearch, path, ["MetaData.bin"])| == 1
  {
    var file := PU.Node("MetaData.bin", false, 0, 64, []);
    assert NestedSceneSearch(path + "MetaData.bin") == [file];
    assert |PU.FilesIn(path, [file])| == 1;
    assert ["MetaData.bin"][1..] == [];
  }

  /** Searching `s\` and `s\sub\` for MetaData.bin lists one file in each. */
  lemma NestedSceneFiles()
    ensures |PU.FilesForPaths(NestedSceneSearch, ["s\\", "s\\sub\\"], ["MetaData.bin"])| == 2
  {
    NestedSceneFilesAt("s\\");
    NestedSceneFilesAt("s\\sub\\");
    var paths := ["s\\", "s\\sub\\"];
    assert paths[1..] == ["s\\sub\\"] && paths[1..][1..] == [];
  }

  /**
   * The metadata search walks subdirectories, so one scene can contribute two
   * metadata files: the sizes loop as written then runs its scene iterator
   * past the end of a one-scene map.
   */
  lemma MetadataFilesCanOutnumberScenes()
    ensures var listing := [PU.Node("sub", true, 0, 0, [])];
            var metaInfos := PU.FilesForPaths(NestedSceneSearch, ["s\\"] + PU.WalkOrder("s\\", listing), ["MetaData.bin"]);
            |metaInfos| == 2 > |[ScenePathPair("scene.gltf", "s\\")]|
  {
    NestedSceneWalk();
    NestedSceneFiles();
    assert ["s\\"] + ["s\\sub\\"] == ["s\\", "s\\sub\\"];
  }

  // ---------------------------------------------------------------------------
  // Per-scene heap templates (lines 420-452)
  // ---------------------------------------------------------------------------

  /** The parts of D3D12_HEAP_DESC taken from a file's allocation info; the rest is constant. */
  datatype HeapDesc = HeapDesc(sizeInBytes: nat, alignment: nat)

  /** A default-constructed D3D12_HEAP_DESC. */
  const EmptyHeapDesc: HeapDesc := HeapDesc(0, 0)

  /** The first scene, at or after `from`, whose directory is the metadata file's directory. */
  function FirstSceneFrom(fullPathName: PU.FullPathName, metaName: string, scenes: seq<ScenePathPair>, from: nat)
    : (k: Option<nat>)
    requires from <= |scenes|
    ensures k.Some? ==> from <= k.value < |scenes| && PU.IsSameDirectory(fullPathName, metaName, scenes[k.value].scenePath)
    ensures k.Some? ==> forall j :: from <= j < k.value ==> !PU.IsSameDirectory(fullPathName, metaName, scenes[j].scenePath)
    ensures k.None? ==> forall j :: from <= j < |scenes| ==> !PU.IsSameDirectory(fullPathName, metaName, scenes[j].scenePath)
    decreases |scenes| - from
  {
    if from == |scenes| then None
    else if PU.IsSameDirectory(fullPathName, metaName, scenes[from].scenePath) then Some(from)
    else FirstSceneFrom(fullPathName, metaName, scenes, from + 1)
  }

  function SceneOf(fullPathName: PU.FullPathName, metaName: string, scenes: seq<ScenePathPair>): Option<nat>
  {
    FirstSceneFrom(fullPathName, metaName, scenes, 0)
  }

  /** The inner while loop: walk the scene map until a scene in the same directory, then stop. */
  method FindSceneFor(fullPathName: PU.FullPathName, metaName: string, scenes: seq<ScenePathPair>)
    returns (k: Option<nat>)
    ensures k == SceneOf(fullPathName, metaName, scenes)
  {
    var j := 0;
    while j < |scenes|
      invariant j <= |scenes|
      invariant FirstSceneFrom(fullPathName, metaName, scenes, j) == SceneOf(fullPathName, metaName, scenes)
    {
      if PU.IsSameDirectory(fullPathName, metaName, scenes[j].scenePath) {
        return Some(j);
      }
      j := j + 1;
    }
    return None;
  }

  /** The metadata file's first matching scene is `scene`. */
  predicate AssignedTo(fullPathName: PU.FullPathName, metaName: string, scenes: seq<ScenePathPair>, scene: ScenePathPair)
  {
    var k := SceneOf(fullPathName, metaName, scenes);
    k.Some? && k.value < |scenes| && scenes[k.value] == scene
  }

  /** Each metadata file's first matching scene, in file order. */
  function Assignments(fullPathName: PU.FullPathName, metaNames: seq<string>, scenes: seq<ScenePathPair>)
    : (owners: seq<Option<nat>>)
    ensures |owners| == |metaNames|
    ensures forall i :: 0 <= i < |metaNames| ==> owners[i] == SceneOf(fullPathName, metaNames[i], scenes)
    ensures ValidAssignments(owners, scenes)
  {
    seq(|metaNames|, i requires 0 <= i < |metaNames| => SceneOf(fullPathName, metaNames[i], scenes))
  }

  predicate ValidAssignments(owners: seq<Option<nat>>, scenes: seq<ScenePathPair>)
  {
    forall i :: 0 <= i < |owners| && owners[i].Some? ==> owners[i].value < |scenes|
  }

  /** File `i` is owners to scene `s`. */
  predicate AssignedAt(owners: seq<Option<nat>>, scenes: seq<ScenePathPair>, i: nat, s: ScenePathPair)
    requires i < |owners| && ValidAssignments(owners, scenes)
  {
    owners[i].Some? && scenes[owners[i].value] == s
  }

  /** The templates after the first `n` files: each file's heap goes to its scene, replacing any earlier one. */
  function TemplatesOf(owners: seq<Option<nat>>, heaps: seq<HeapDesc>, scenes: seq<ScenePathPair>, n: nat)
    : map<ScenePathPair, HeapDesc>
    requires n <= |owners| && n <= |heaps| && ValidAssignments(owners, scenes)
  {
    if n == 0 then map[]
    else
      var t := TemplatesOf(owners, heaps, scenes, n - 1);
      match owners[n - 1]
      case Some(k) => t[scenes[k] := heaps[n - 1]]
      case None => t
  }

  /** The templates the loop builds over the metadata files. */
  function Templates(fullPathName: PU.FullPathName, metaNames: seq<string>, heaps: seq<HeapDesc>,
                     scenes: seq<ScenePathPair>): map<ScenePathPair, HeapDesc>
    requires |metaNames| <= |heaps|
  {
    TemplatesOf(Assignments(fullPathName, metaNames, scenes), heaps, scenes, |metaNames|)
  }

  lemma TemplatesOfNext(owners: seq<Option<nat>>, heaps: seq<HeapDesc>, scenes: seq<ScenePathPair>, i: nat)
    requires i < |owners| && i < |heaps| && ValidAssignments(owners, scenes)
    ensures TemplatesOf(owners, heaps, scenes, i + 1) ==
      if owners[i].Some? then TemplatesOf(owners, heaps, scenes, i)[scenes[owners[i].value] := heaps[i]]
      else TemplatesOf(owners, heaps, scenes, i)
  {
  }

  /** The template loop, run only when placed resources are enabled. */
  method BuildHeapTemplates(usePlacedResources: bool, fullPathName: PU.FullPathName, metaNames: seq<string>,
                            heaps: seq<HeapDesc>, scenes: seq<ScenePathPair>)
    returns (templates: map<ScenePathPair, HeapDesc>)
    requires |heaps| == |metaNames|
    ensures templates == if usePlacedResources then Templates(fullPathName, metaNames, heaps, scenes) else map[]
  {
    templates := map[];
    ghost var owners := Assignments(fullPathName, metaNames, scenes);
    if usePlacedResources {
      for i := 0 to |metaNames|
        invariant templates == TemplatesOf(owners, heaps, scenes, i)
      {
        var k := FindSceneFor(fullPathName, metaNames[i], scenes);
        TemplatesOfNext(owners, heaps, scenes, i);
        assert k == owners[i];
        if k.Some? {
          templates := templates[scenes[k.value] := heaps[i]];
        }
      }
    }
  }

  /** Every template belongs to one of the scenes, one that some file was owners to. */
  lemma {:induction false} TemplatesOfBelong(owners: seq<Option<nat>>, heaps: seq<HeapDesc>, scenes: seq<ScenePathPair>, n: nat)
    requires n <= |owners| && n <= |heaps| && ValidAssignments(owners, scenes)
    ensures forall s :: s in TemplatesOf(owners, heaps, scenes, n) ==>
      s in scenes && exists i :: 0 <= i < n && AssignedAt(owners, scenes, i, s)
  {
    if n > 0 {
      TemplatesOfBelong(owners, heaps, scenes, n - 1);
      var t := TemplatesOf(owners, heaps, scenes, n - 1);
      var tn := TemplatesOf(owners, heaps, scenes, n);
      forall s | s in tn
        ensures s in scenes && exists i :: 0 <= i < n && AssignedAt(owners, scenes, i, s)
      {
        if s !in t {
          assert AssignedAt(owners, scenes, n - 1, s);
        }
      }
    }
  }

  /** A scene's template is the heap of the last file owners to it. */
  lemma {:induction false} TemplatesOfLast(owners: seq<Option<nat>>, heaps: seq<HeapDesc>, scenes: seq<ScenePathPair>,
                                          n: nat, i: nat, s: ScenePathPair)
    requires n <= |owners| && n <= |heaps| && ValidAssignments(owners, scenes) && i < n
    requires AssignedAt(owners, scenes, i, s)
    requires forall m :: i < m < n ==> !AssignedAt(owners, scenes, m, s)
    ensures s in TemplatesOf(owners, heaps, scenes, n) && TemplatesOf(owners, heaps, scenes, n)[s] == heaps[i]
  {
    if i < n - 1 {
      assert !AssignedAt(owners, scenes, n - 1, s);
      TemplatesOfLast(owners, heaps, scenes, n - 1, i, s);
    }
  }

  /** Every template belongs to one of the scenes, and one that some metadata file was owners to. */
  lemma TemplatesBelongToMatchedScenes(fullPathName: PU.FullPathName, metaNames: seq<string>,
                                       heaps: seq<HeapDesc>, scenes: seq<ScenePathPair>)
    requires |metaNames| <= |heaps|
    ensures forall s :: s in Templates(fullPathName, metaNames, heaps, scenes) ==>
      s in scenes && exists i :: 0 <= i < |metaNames| && AssignedTo(fullPathName, metaNames[i], scenes, s)
  {
    var owners := Assignments(fullPathName, metaNames, scenes);
    TemplatesOfBelong(owners, heaps, scenes, |metaNames|);
    forall s | s in Templates(fullPathName, metaNames, heaps, scenes)
      ensures exists i :: 0 <= i < |metaNames| && AssignedTo(fullPathName, metaNames[i], scenes, s)
    {
      var i :| 0 <= i < |metaNames| && AssignedAt(owners, scenes, i, s);
      assert AssignedTo(fullPathName, metaNames[i], scenes, s);
    }
  }

  /** A scene's template is the heap of the last metadata file owners to it. */
  lemma TemplateOfLastFile(fullPathName: PU.FullPathName, metaNames: seq<string>,
                           heaps: seq<HeapDesc>, scenes: seq<ScenePathPair>, i: nat, s: ScenePathPair)
    requires |metaNames| <= |heaps| && i < |metaNames|
    requires AssignedTo(fullPathName, metaNames[i], scenes, s)
    requires forall m :: i < m < |metaNames| ==> !AssignedTo(fullPathName, metaNames[m], scenes, s)
    ensures s in Templates(fullPathName, metaNames, heaps, scenes)
    ensures Templates(fullPathName, metaNames, heaps, scenes)[s] == heaps[i]
  {
    var owners := Assignments(fullPathName, metaNames, scenes);
    forall m | i < m < |metaNames| ensures !AssignedAt(owners, scenes, m, s) {
      assert !AssignedTo(fullPathName, metaNames[m], scenes, s);
    }
    TemplatesOfLast(owners, heaps, scenes, |metaNames|, i, s);
  }

  /** GetTextureHeapDescForScene: operator[] yields the scene's template, or inserts and yields an empty one. */
  function TemplateForScene(templates: map<ScenePathPair, HeapDesc>, scene: ScenePathPair)
    : (r: (HeapDesc, map<ScenePathPair, HeapDesc>))
    ensures scene in r.1 && r.1[scene] == r.0
    ensures scene in templates ==> r.1 == templates
    ensures scene !in templates ==> r.0 == EmptyHeapDesc && r.1.Keys == templates.Keys + {scene}
    ensures forall s :: s in templates ==> s in r.1 && r.1[s] == templates[s]
  {
    if scene in templates then (templates[scene], templates)
    else (EmptyHeapDesc, templates[scene := EmptyHeapDesc])
  }

  /** GetSceneTextureDataSize*: map::at, which throws (None) for a scene without sizes. */
  function SizeForScene(sizes: map<ScenePathPair, int>, scene: ScenePathPair): (r: Option<int>)
    ensures r.Some? <==> scene in sizes
    ensures r.Some? ==> r.value == sizes[scene]
  {
    if scene in sizes then Some(sizes[scene]) else None
  }

  // ---------------------------------------------------------------------------
  // Queue commands and cancellation by tag (lines 160-174, 514-515, 668-671)
  // ---------------------------------------------------------------------------

  /** Where a texture read lands: a placed resource at an offset of the scene heap, or a committed resource. */
  datatype Destination = Placed(heapOffset: nat) | Committed

  /** The DSTORAGE_REQUEST fields InitFromFile fills in. */
  datatype ReadRequest = ReadRequest(
    compressionFormat: int,
    fileHandle: nat,
    offset: int,
    size: int,
    uncompressedSize: nat,
    destination: Destination,
    cancellationTag: bv64,
    name: string)

  datatype Fence = CpuFence | GpuFence

  /** What is enqueued on a DirectStorage queue. */
  datatype Command =
    | Read(request: ReadRequest)
    | Signal(fence: Fence, value: nat)
    | SetEvent(workloadId: nat)
    | Submit

  const ALL_BITS: bv64 := 0xFFFF_FFFF_FFFF_FFFF

  /** CancelRequestsWithTag's rule: a request is cancelled when its tag, masked, equals the value. */
  predicate Matches(tag: bv64, mask: bv64, value: bv64)
  {
    tag & mask == value
  }

  predicate CancelledBy(c: Command, mask: bv64, value: bv64)
  {
    c.Read? && Matches(c.request.cancellationTag, mask, value)
  }

  /** The queue after CancelRequestsWithTag(mask, value): matching reads are dropped, everything else stays in order. */
  function CancelMatching(q: seq<Command>, mask: bv64, value: bv64): (r: seq<Command>)
    ensures |r| <= |q|
    ensures forall c :: c in r ==> c in q && !CancelledBy(c, mask, value)
    ensures forall c :: c in q && !CancelledBy(c, mask, value) ==> c in r
  {
    if q == [] then []
    else if CancelledBy(q[0], mask, value) then CancelMatching(q[1..], mask, value)
    else [q[0]] + CancelMatching(q[1..], mask, value)
  }

  /** With an all-ones mask only the request tagged exactly `value` matches. */
  lemma AllBitsMaskMatchesExactTag(tag: bv64, value: bv64)
    ensures Matches(tag, ALL_BITS, value) <==> tag == value
  {
  }

  /** Mask 0 and value 0 match every request. */
  lemma ZeroMaskMatchesEveryTag(tag: bv64)
    ensures Matches(tag, 0, 0)
  {
  }

  /** DStorageCancelRequest(workloadId) drops exactly the reads tagged with that workload. */
  lemma CancelWorkloadIsExact(q: seq<Command>, workloadId: bv64)
    ensures forall c :: c in CancelMatching(q, ALL_BITS, workloadId) ==> !(c.Read? && c.request.cancellationTag == workloadId)
    ensures forall c :: c in q && !(c.Read? && c.request.cancellationTag == workloadId) ==> c in CancelMatching(q, ALL_BITS, workloadId)
  {
  }

  /** Shutdown's cancellation leaves no read at all, and keeps every other command. */
  lemma CancelAllLeavesNoReads(q: seq<Command>)
    ensures forall c :: c in CancelMatching(q, 0, 0) ==> !c.Read?
    ensures forall c :: c in q && !c.Read? ==> c in CancelMatching(q, 0, 0)
  {
  }

  /** The values signalled on `fence`, in queue order. */
  function SignalValues(q: seq<Command>, fence: Fence): seq<nat>
  {
    if q == [] then []
    else (if q[0].Signal? && q[0].fence == fence then [q[0].value] else []) + SignalValues(q[1..], fence)
  }

  lemma {:induction false} SignalValuesAppend(q: seq<Command>, c: Command, fence: Fence)
    ensures SignalValues(q + [c], fence) == SignalValues(q, fence) + SignalValues([c], fence)
    decreases |q|
  {
    if q == [] {
      assert q + [c] == [c];
    } else {
      assert (q + [c])[1..] == q[1..] + [c];
      SignalValuesAppend(q[1..], c, fence);
    }
  }

  /** Cancellation never removes a signal. */
  lemma {:induction false} CancelKeepsSignals(q: seq<Command>, mask: bv64, value: bv64, fence: Fence)
    ensures SignalValues(CancelMatching(q, mask, value), fence) == SignalValues(q, fence)
    decreases |q|
  {
    if q != [] {
      CancelKeepsSignals(q[1..], mask, value, fence);
      if !CancelledBy(q[0], mask, value) {
        assert ([q[0]] + CancelMatching(q[1..], mask, value))[1..] == CancelMatching(q[1..], mask, value);
      }
    }
  }

  predicate StrictlyIncreasing(vs: seq<nat>)
  {
    forall a, b :: 0 <= a < b < |vs| ==> vs[a] < vs[b]
  }

  /** The signals on a fence are strictly increasing and none is above the fence's counter. */
  predicate FenceOrdered(q: seq<Command>, fence: Fence, counter: nat)
  {
    var vs := SignalValues(q, fence);
    StrictlyIncreasing(vs) && forall a :: 0 <= a < |vs| ==> vs[a] <= counter
  }

  lemma SignalNextValue(q: seq<Command>, fence: Fence, counter: nat)
    requires FenceOrdered(q, fence, counter)
    ensures FenceOrdered(q + [Signal(fence, counter + 1)], fence, counter + 1)
  {
    SignalValuesAppend(q, Signal(fence, counter + 1), fence);
    assert SignalValues([Signal(fence, counter + 1)], fence) == [counter + 1];
  }

  lemma OtherCommandKeepsOrder(q: seq<Command>, c: Command, fence: Fence, counter: nat, counter': nat)
    requires FenceOrdered(q, fence, counter) && counter <= counter'
    requires !(c.Signal? && c.fence == fence)
    ensures FenceOrdered(q + [c], fence, counter')
  {
    SignalValuesAppend(q, c, fence);
    assert SignalValues([c], fence) == [];
  }

  /** DStorageSyncCPU(v)'s wait: poll the fence's completed value until it reaches `v`; None if the polls run out first. */
  method WaitForFence(completedValues: seq<nat>, fenceValue: nat) returns (polls: Option<nat>)
    ensures polls.Some? ==> polls.value < |completedValues| && completedValues[polls.value] >= fenceValue
    ensures polls.Some? ==> forall k :: 0 <= k < polls.value ==> completedValues[k] < fenceValue
    ensures polls.None? ==> forall k :: 0 <= k < |completedValues| ==> completedValues[k] < fenceValue
  {
    var k := 0;
    while k < |completedValues|
      invariant k <= |completedValues|
      invariant forall m :: 0 <= m < k ==> completedValues[m] < fenceValue
    {
      if completedValues[k] >= fenceValue {
        return Some(k);
      }
      k := k + 1;
    }
    return None;
  }

  // ---------------------------------------------------------------------------
  // The profiling ring (lines 558-628)
  // ---------------------------------------------------------------------------

  const WORKLOAD_SLOTS: nat := 512

  /** The marker callback on a uint64 slot: the first call stores "now", the next the time elapsed since. */
  function MarkerUpdate(slot: nat, now: nat): (r: nat)
    requires slot < UINT64_LIMIT && now < UINT64_LIMIT
    ensures r < UINT64_LIMIT
    ensures slot == 0 ==> r == now
    ensures slot != 0 ==> (slot + r) % UINT64_LIMIT == now
  {
    if slot == 0 then now else (now - slot) % UINT64_LIMIT
  }

  /** A begin marker at t1 followed by an end marker at t2 leaves the elapsed time in the slot. */
  lemma MarkersGiveElapsedTime(t1: nat, t2: nat)
    requires 0 < t1 <= t2 < UINT64_LIMIT
    ensures MarkerUpdate(MarkerUpdate(0, t1), t2) == t2 - t1
  {
  }

  /** A begin marker observed at time 0 is indistinguishable from no marker: the end marker then stores its own time. */
  lemma MarkerAtTimeZeroIsLost(t2: nat)
    requires t2 < UINT64_LIMIT
    ensures MarkerUpdate(MarkerUpdate(0, 0), t2) == t2
  {
  }

  // ---------------------------------------------------------------------------
  // The DirectStorage globals
  // ---------------------------------------------------------------------------

  /** The module's global state: queues, fence counters, profiling slots and the tables built at start-up. */
  class StorageRuntime {
    var normalQueue: seq<Command>
    var realtimeQueue: seq<Command>
    var fenceValueCPU: nat
    var fenceValueGPU: nat
    var fenceValueProfile: nat
    var workloads: array<nat>
    var resourceTable: map<string, LookupEntry>
    var dataFiles: seq<string>
    var sceneHeapTemplates: map<ScenePathPair, HeapDesc>
    var sceneSizeOnDisk: map<ScenePathPair, int>
    var sceneSizeUncompressed: map<ScenePathPair, int>

    ghost predicate Valid()
      reads this, workloads
    {
      && workloads.Length == WORKLOAD_SLOTS
      && (forall k :: 0 <= k < workloads.Length ==> workloads[k] < UINT64_LIMIT)
      && FenceOrdered(normalQueue, CpuFence, fenceValueCPU)
      && FenceOrdered(normalQueue, GpuFence, fenceValueGPU)
    }

    constructor ()
      ensures Valid() && fresh(workloads)
      ensures normalQueue == [] && realtimeQueue == []
      ensures fenceValueCPU == 0 && fenceValueGPU == 0 && fenceValueProfile == 0
      ensures forall k :: 0 <= k < workloads.Length ==> workloads[k] == 0
      ensures resourceTable == map[] && dataFiles == []
      ensures sceneHeapTemplates == map[] && sceneSizeOnDisk == map[] && sceneSizeUncompressed == map[]
    {
      normalQueue, realtimeQueue := [], [];
      fenceValueCPU, fenceValueGPU, fenceValueProfile := 0, 0, 0;
      workloads := new nat[WORKLOAD_SLOTS](_ => 0);
      resourceTable, dataFiles := map[], [];
      sceneHeapTemplates, sceneSizeOnDisk, sceneSizeUncompressed := map[], map[], map[];
    }

    /**
     * The table part of InitializeDirectStorage: metadata file `i` (named
     * `metaNames[i]`, read into `files[i]`) holds as many records as its size
     * allows; the tables are built from the records, the allocation infos and
     * the per-file heaps.
     */
    method InitializeTables(metaInfos: seq<PU.FileInfo>, recordSize: nat, files: seq<seq<TC.MetadataRecord>>,
                            allocs: seq<seq<AllocInfo>>, heaps: seq<HeapDesc>, scenes: seq<ScenePathPair>,
                            fullPathName: PU.FullPathName, usePlacedResources: bool)
      returns (duplicate: bool)
      requires Valid()
      requires recordSize > 0 && |files| == |metaInfos| == |heaps|
      requires forall i :: 0 <= i < |files| ==> |files[i]| == RecordCount(metaInfos[i].size, recordSize)
      requires AllocsMatch(files, allocs)
      modifies this
      ensures Valid() && unchanged(`normalQueue) && unchanged(`realtimeQueue) && workloads == old(workloads)
      ensures fenceValueCPU == old(fenceValueCPU) && fenceValueGPU == old(fenceValueGPU)
      ensures fenceValueProfile == old(fenceValueProfile)
      ensures resourceTable == TableOf(AllEntries(files, allocs, |files|))
      ensures duplicate <==> HasDuplicateKey(AllEntries(files, allocs, |files|))
      ensures |dataFiles| == |files| && forall i :: 0 <= i < |files| ==> dataFiles[i] == DataFileName(metaInfos[i].name)
      ensures forall s :: s in sceneSizeUncompressed ==>
        sceneSizeUncompressed[s] == SceneTotal(s, scenes, files, Min(|files|, |scenes|), false)
      ensures forall s :: s in sceneSizeOnDisk ==> sceneSizeOnDisk[s] == SceneTotal(s, scenes, files, Min(|files|, |scenes|), true)
      ensures sceneSizeOnDisk.Keys == sceneSizeUncompressed.Keys == PairedScenes(scenes, Min(|files|, |scenes|))
      ensures sceneHeapTemplates ==
        if usePlacedResources then Templates(fullPathName, MetaNames(metaInfos), heaps, scenes) else map[]
    {
      var metaNames := MetaNames(metaInfos);
      InitializeSceneTables(metaNames, files, heaps, scenes, fullPathName, usePlacedResources);
      resourceTable, dataFiles, duplicate := BuildResourceTable(metaNames, files, allocs);
    }

    /** The per-scene sizes and heap templates. */
    method InitializeSceneTables(metaNames: seq<string>, files: seq<seq<TC.MetadataRecord>>, heaps: seq<HeapDesc>,
                                 scenes: seq<ScenePathPair>, fullPathName: PU.FullPathName, usePlacedResources: bool)
      requires |files| == |metaNames| == |heaps|
      modifies this
      ensures unchanged(`normalQueue, `realtimeQueue, `workloads, `fenceValueCPU, `fenceValueGPU, `fenceValueProfile)
      ensures unchanged(`resourceTable, `dataFiles)
      ensures forall s :: s in sceneSizeUncompressed ==>
        sceneSizeUncompressed[s] == SceneTotal(s, scenes, files, Min(|files|, |scenes|), false)
      ensures forall s :: s in sceneSizeOnDisk ==> sceneSizeOnDisk[s] == SceneTotal(s, scenes, files, Min(|files|, |scenes|), true)
      ensures sceneSizeOnDisk.Keys == sceneSizeUncompressed.Keys == PairedScenes(scenes, Min(|files|, |scenes|))
      ensures sceneHeapTemplates == if usePlacedResources then Templates(fullPathName, metaNames, heaps, scenes) else map[]
    {
      sceneSizeUncompressed, sceneSizeOnDisk := AccumulateSceneSizesGuarded(scenes, files);
      sceneHeapTemplates := BuildHeapTemplates(usePlacedResources, fullPathName, metaNames, heaps, scenes);
    }

    /**
     * Texture::InitFromFile: look the texture up, and enqueue (without
     * submitting) one read of its payload into a placed resource when a heap is
     * given, a committed one otherwise. An unknown name would dereference a
     * null record, and the offset is asserted to be 4096-aligned.
     */
    method InitFromFile(fileName: string, hasHeap: bool, workloadId: bv64) returns (req: ReadRequest)
      requires Valid()
      requires fileName in resourceTable
      requires resourceTable[fileName].header.resourceOffset % 4096 == 0
      modifies this
      ensures unchanged(`resourceTable, `dataFiles, `sceneHeapTemplates, `sceneSizeOnDisk, `sceneSizeUncompressed, `fenceValueProfile)
      ensures Valid() && workloads == old(workloads) && unchanged(`realtimeQueue)
      ensures normalQueue == old(normalQueue) + [Read(req)]
      ensures fenceValueCPU == old(fenceValueCPU) && fenceValueGPU == old(fenceValueGPU)
      ensures req.compressionFormat == resourceTable[fileName].header.compressionFormat
      ensures req.fileHandle == resourceTable[fileName].fileHandle
      ensures req.offset == resourceTable[fileName].header.resourceOffset && req.offset % 4096 == 0
      ensures req.size == resourceTable[fileName].header.resourceSizeCompressed
      ensures req.uncompressedSize == resourceTable[fileName].header.resourceSizeUncompressed
      ensures req.destination == if hasHeap then Placed(resourceTable[fileName].heapOffset) else Committed
      ensures req.cancellationTag == workloadId
      ensures req.name == resourceTable[fileName].gltfPath
    {
      var entry := resourceTable[fileName];
      var header := entry.header;
      var destination := if hasHeap then Placed(entry.heapOffset) else Committed;
      req := ReadRequest(header.compressionFormat, entry.fileHandle, header.resourceOffset,
                         header.resourceSizeCompressed, header.resourceSizeUncompressed,
                         destination, workloadId, entry.gltfPath);
      OtherCommandKeepsOrder(normalQueue, Read(req), CpuFence, fenceValueCPU, fenceValueCPU);
      OtherCommandKeepsOrder(normalQueue, Read(req), GpuFence, fenceValueGPU, fenceValueGPU);
      normalQueue := normalQueue + [Read(req)];
    }

    /** DStorageSubmit. */
    method SubmitNormal()
      requires Valid()
      modifies this
      ensures unchanged(`resourceTable, `dataFiles, `sceneHeapTemplates, `sceneSizeOnDisk, `sceneSizeUncompressed, `fenceValueProfile)
      ensures Valid() && workloads == old(workloads) && unchanged(`realtimeQueue)
      ensures normalQueue == old(normalQueue) + [Submit]
      ensures fenceValueCPU == old(fenceValueCPU) && fenceValueGPU == old(fenceValueGPU)
    {
      OtherCommandKeepsOrder(normalQueue, Submit, CpuFence, fenceValueCPU, fenceValueCPU);
      OtherCommandKeepsOrder(normalQueue, Submit, GpuFence, fenceValueGPU, fenceValueGPU);
      normalQueue := normalQueue + [Submit];
    }

    /** DStorageInsertFenceCPU: the next CPU fence value, signalled at the end of the normal queue. */
    method InsertFenceCPU() returns (fenceValue: nat)
      requires Valid()
      modifies this
      ensures unchanged(`resourceTable, `dataFiles, `sceneHeapTemplates, `sceneSizeOnDisk, `sceneSizeUncompressed, `fenceValueProfile)
      ensures Valid() && workloads == old(workloads) && unchanged(`realtimeQueue)
      ensures fenceValue == old(fenceValueCPU) + 1 == fenceValueCPU
      ensures forall v :: v in SignalValues(old(normalQueue), CpuFence) ==> v < fenceValue
      ensures normalQueue == old(normalQueue) + [Signal(CpuFence, fenceValue)]
      ensures fenceValueGPU == old(fenceValueGPU)
    {
      SignalNextValue(normalQueue, CpuFence, fenceValueCPU);
      OtherCommandKeepsOrder(normalQueue, Signal(CpuFence, fenceValueCPU + 1), GpuFence, fenceValueGPU, fenceValueGPU);
      fenceValueCPU := fenceValueCPU + 1;
      fenceValue := fenceValueCPU;
      normalQueue := normalQueue + [Signal(CpuFence, fenceValue)];
    }

    /**
     * DStorageSyncGPU: signal the next GPU fence value and submit; the
     * graphics queue then waits for the returned value.
     */
    method SyncGPU() returns (fenceValue: nat)
      requires Valid()
      modifies this
      ensures unchanged(`resourceTable, `dataFiles, `sceneHeapTemplates, `sceneSizeOnDisk, `sceneSizeUncompressed, `fenceValueProfile)
      ensures Valid() && workloads == old(workloads) && unchanged(`realtimeQueue)
      ensures fenceValue == old(fenceValueGPU) + 1 == fenceValueGPU
      ensures forall v :: v in SignalValues(old(normalQueue), GpuFence) ==> v < fenceValue
      ensures normalQueue == old(normalQueue) + [Signal(GpuFence, fenceValue), Submit]
      ensures fenceValueCPU == old(fenceValueCPU)
    {
      SignalNextValue(normalQueue, GpuFence, fenceValueGPU);
      OtherCommandKeepsOrder(normalQueue, Signal(GpuFence, fenceValueGPU + 1), CpuFence, fenceValueCPU, fenceValueCPU);
      fenceValueGPU := fenceValueGPU + 1;
      fenceValue := fenceValueGPU;
      normalQueue := normalQueue + [Signal(GpuFence, fenceValue)];
      SubmitNormal();
    }

    /**
     * DStorageSyncCPU(): insert a CPU fence, submit, and wait for the fence
     * over the completed values observed by successive polls.
     */
    method SyncCPU(completedValues: seq<nat>) returns (fenceValue: nat, polls: Option<nat>)
      requires Valid()
      modifies this
      ensures unchanged(`resourceTable, `dataFiles, `sceneHeapTemplates, `sceneSizeOnDisk, `sceneSizeUncompressed, `fenceValueProfile)
      ensures Valid() && workloads == old(workloads) && unchanged(`realtimeQueue)
      ensures fenceValue == old(fenceValueCPU) + 1 == fenceValueCPU
      ensures normalQueue == old(normalQueue) + [Signal(CpuFence, fenceValue), Submit]
      ensures fenceValueGPU == old(fenceValueGPU)
      ensures polls.Some? ==> polls.value < |completedValues| && completedValues[polls.value] >= fenceValue
      ensures polls.None? ==> forall k :: 0 <= k < |completedValues| ==> completedValues[k] < fenceValue
    {
      fenceValue := InsertFenceCPU();
      SubmitNormal();
      polls := WaitForFence(completedValues, fenceValue);
    }

    /** CancelRequestsWithTag on the normal queue. */
    method CancelNormal(mask: bv64, value: bv64)
      requires Valid()
      modifies this
      ensures unchanged(`resourceTable, `dataFiles, `sceneHeapTemplates, `sceneSizeOnDisk, `sceneSizeUncompressed, `fenceValueProfile)
      ensures Valid() && workloads == old(workloads) && unchanged(`realtimeQueue)
      ensures normalQueue == CancelMatching(old(normalQueue), mask, value)
      ensures fenceValueCPU == old(fenceValueCPU) && fenceValueGPU == old(fenceValueGPU)
    {
      CancelKeepsSignals(normalQueue, mask, value, CpuFence);
      CancelKeepsSignals(normalQueue, mask, value, GpuFence);
      normalQueue := CancelMatching(normalQueue, mask, value);
    }

    /** DStorageCancelRequest: cancel the reads tagged with exactly this workload. */
    method CancelRequest(workloadId: bv64)
      requires Valid()
      modifies this
      ensures unchanged(`resourceTable, `dataFiles, `sceneHeapTemplates, `sceneSizeOnDisk, `sceneSizeUncompressed, `fenceValueProfile)
      ensures Valid() && workloads == old(workloads) && unchanged(`realtimeQueue)
      ensures normalQueue == CancelMatching(old(normalQueue), ALL_BITS, workloadId)
      ensures fenceValueCPU == old(fenceValueCPU) && fenceValueGPU == old(fenceValueGPU)
    {
      CancelNormal(ALL_BITS, workloadId);
    }

    /**
     * The queue part of ShutdownDirectStorage: cancel every outstanding read
     * on both queues, then synchronise with the CPU fence.
     */
    method Shutdown(completedValues: seq<nat>) returns (fenceValue: nat, polls: Option<nat>)
      requires Valid()
      modifies this
      ensures unchanged(`resourceTable, `dataFiles, `sceneHeapTemplates, `sceneSizeOnDisk, `sceneSizeUncompressed, `fenceValueProfile)
      ensures Valid() && workloads == old(workloads)
      ensures realtimeQueue == CancelMatching(old(realtimeQueue), 0, 0)
      ensures normalQueue == CancelMatching(old(normalQueue), 0, 0) + [Signal(CpuFence, fenceValue), Submit]
      ensures forall c :: c in normalQueue || c in realtimeQueue ==> !c.Read?
      ensures polls.Some? ==> polls.value < |completedValues| && completedValues[polls.value] >= fenceValue
    {
      CancelNormal(0, 0);
      realtimeQueue := CancelMatching(realtimeQueue, 0, 0);
      CancelAllLeavesNoReads(old(normalQueue));
      CancelAllLeavesNoReads(old(realtimeQueue));
      fenceValue, polls := SyncCPU(completedValues);
    }

    /**
     * DStorageBeginProfileLoading: the next profile counter value modulo 512
     * names the workload; its slot is cleared and, when the queue offers
     * EnqueueSetEvent, a marker event is enqueued.
     */
    method BeginProfileLoading(hasSetEvent: bool) returns (workloadId: nat)
      requires Valid()
      modifies this, workloads
      ensures unchanged(`resourceTable, `dataFiles, `sceneHeapTemplates, `sceneSizeOnDisk, `sceneSizeUncompressed)
      ensures Valid() && workloads == old(workloads) && unchanged(`realtimeQueue)
      ensures fenceValueProfile == old(fenceValueProfile) + 1
      ensures workloadId == fenceValueProfile % WORKLOAD_SLOTS && workloadId < WORKLOAD_SLOTS
      ensures workloads[workloadId] == 0
      ensures forall k :: 0 <= k < workloads.Length && k != workloadId ==> workloads[k] == old(workloads[k])
      ensures normalQueue == old(normalQueue) + if hasSetEvent then [SetEvent(workloadId)] else []
      ensures fenceValueCPU == old(fenceValueCPU) && fenceValueGPU == old(fenceValueGPU)
    {
      fenceValueProfile := fenceValueProfile + 1;
      workloadId := fenceValueProfile % WORKLOAD_SLOTS;
      workloads[workloadId] := 0;
      if hasSetEvent {
        OtherCommandKeepsOrder(normalQueue, SetEvent(workloadId), CpuFence, fenceValueCPU, fenceValueCPU);
        OtherCommandKeepsOrder(normalQueue, SetEvent(workloadId), GpuFence, fenceValueGPU, fenceValueGPU);
        normalQueue := normalQueue + [SetEvent(workloadId)];
      }
    }

    /** DStorageEndProfileLoading: enqueue the end marker event for the workload. */
    method EndProfileLoading(workloadId: nat, hasSetEvent: bool)
      requires Valid()
      modifies this
      ensures unchanged(`resourceTable, `dataFiles, `sceneHeapTemplates, `sceneSizeOnDisk, `sceneSizeUncompressed, `fenceValueProfile)
      ensures Valid() && workloads == old(workloads) && unchanged(`realtimeQueue)
      ensures normalQueue == old(normalQueue) + if hasSetEvent then [SetEvent(workloadId)] else []
      ensures fenceValueCPU == old(fenceValueCPU) && fenceValueGPU == old(fenceValueGPU)
    {
      if hasSetEvent {
        OtherCommandKeepsOrder(normalQueue, SetEvent(workloadId), CpuFence, fenceValueCPU, fenceValueCPU);
        OtherCommandKeepsOrder(normalQueue, SetEvent(workloadId), GpuFence, fenceValueGPU, fenceValueGPU);
        normalQueue := normalQueue + [SetEvent(workloadId)];
      }
    }

    /** DStorageProfileMarkerFenceCallback: the marker event for `workloadId` fired at time `now`. */
    method ProfileMarker(workloadId: nat, now: nat)
      requires Valid() && workloadId < WORKLOAD_SLOTS && now < UINT64_LIMIT
      modifies workloads
      ensures unchanged(`resourceTable, `dataFiles, `sceneHeapTemplates, `sceneSizeOnDisk, `sceneSizeUncompressed, `fenceValueProfile)
      ensures Valid()
      ensures workloads[workloadId] == MarkerUpdate(old(workloads[workloadId]), now)
      ensures forall k :: 0 <= k < workloads.Length && k != workloadId ==> workloads[k] == old(workloads[k])
    {
      workloads[workloadId] := MarkerUpdate(workloads[workloadId], now);
    }

    /** GetTextureHeapDescForScene: the scene's template, inserting an empty one when it has none. */
    method GetTextureHeapDescForScene(scene: ScenePathPair) returns (heap: HeapDesc)
      requires Valid()
      modifies this
      ensures Valid() && workloads == old(workloads)
      ensures unchanged(`normalQueue, `realtimeQueue, `fenceValueCPU, `fenceValueGPU, `fenceValueProfile)
      ensures unchanged(`resourceTable, `dataFiles, `sceneSizeOnDisk, `sceneSizeUncompressed)
      ensures (heap, sceneHeapTemplates) == TemplateForScene(old(sceneHeapTemplates), scene)
    {
      var r := TemplateForScene(sceneHeapTemplates, scene);
      heap, sceneHeapTemplates := r.0, r.1;
    }

    /** DStorageProfileRetrieveTiming: the slot's current value. */
    function RetrieveTiming(workloadId: nat): (t: nat)
      requires Valid() && workloadId < WORKLOAD_SLOTS
      reads this, workloads
      ensures t < UINT64_LIMIT && t == workloads[workloadId]
    {
      workloads[workloadId]
    }
  }

  /** The names of the metadata files, in listing order. */
  function MetaNames(infos: seq<PU.FileInfo>): (names: seq<string>)
    ensures |names| == |infos| && forall i :: 0 <= i < |infos| ==> names[i] == infos[i].name
  {
    seq(|infos|, i requires 0 <= i < |infos| => infos[i].name)
  }
}
