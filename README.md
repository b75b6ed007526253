# DirectStorage sample: a verified model of its streaming and packaging logic

This project models the parts of the DirectStorage sample whose logic can be
stated without Direct3D, the DirectStorage runtime, the GDeflate codec, the
file system or threads. Those calls become parameters of the model: an
abstract codec function, a directory tree, a canonicalising path function,
and per-poll readiness flags for futures.

- **Compression options** (`compression.dfy`, module `CompressionSupport`):
  - the three constant argument tables, including the level table's fourth, value-initialised slot `("", DEFAULT)`;
  - the six first-match `Translate*` functions.
- **The offline packager, TextureConverter** (`converter.dfy`, module `TextureConverter`):
  - the `wmain` option loop;
  - argument validation and resolution;
  - `Compress`, which passes `NONE` through and hands other formats to the codec;
  - the exhaustive format/level search;
  - file creation and the chunked, offset-returning `WriteDataToDisk`;
  - the per-image loop of `ConvertImages`. It writes each payload to `TextureData.bin`, then its `DirectStorageSampleTextureMetadataHeader` record to `MetaData.bin`, then zero to 4095 padding bytes, so every record's offset is 4096-aligned.
- **Package utilities** (`package_utils.dfy`, module `PackageUtils`):
  - glTF image URIs;
  - directory canonicalisation and comparison;
  - the stack-based directory walk;
  - the file listing, including its OR-combined file size.
- **The DirectStorage runtime bookkeeping** (`direct_storage.dfy`, module `DirectStorage`):
  - records per metadata file;
  - the data file next to each metadata file;
  - the name-to-entry resource table, with duplicate detection;
  - per-scene sizes and heap templates;
  - the read request `Texture::InitFromFile` enqueues;
  - the CPU, GPU and profile fence counters;
  - the 512-slot profiling ring and its marker callback;
  - cancellation by tag and mask.

  The queues are sequences of commands (`Read`, `Signal`, `SetEvent`, `Submit`), held with the counters, tables and the `workloads` array in the class `StorageRuntime`.
- **Frame-time snapshots** (`snapshots.dfy`, module `FrameTimeSnapshots`):
  - the unbounded snapshot, whose median sorts its deque in place;
  - the 60-slot rolling ring with `frameIdx` and `hasFilledOnce`.
- **The renderer's scene bookkeeping** (`renderer.dfy`, module `Renderer`):
  - `IsPointInside`;
  - the scene list with `AddScene`/`RemoveScene`;
  - `GetSceneLoadingTimings`;
  - the `LoadSceneAsync` dispatch;
  - `UnloadSceneAsync`;
  - the scene each load task builds. The DirectStorage path enqueues one read per texture, ends the profile workload, inserts a CPU fence, submits and waits.
- **Scene streaming** (`streaming.dfy`, module `Streaming`):
  - the five-state streaming volume;
  - the six guarded blocks of `CheckAndRequestScenesToLoad`, run in order for every volume in one call;
  - the two-phase drain of `ShutdownStreaming`.

`wrappers.dfy` holds `Option`, the byte type and the 64-bit limits.

Each imperative operation is a method proved against a specification function. Examples:

- `ConvertImages` keeps `Packaged`;
- `GetPathsBelow` returns `basePath` followed by `WalkOrder`, the order of its stack, which is a permutation of the pre-order `DirectoriesBelow`;
- `CheckAndRequestScenesToLoad` moves every volume by `NextState` and leaves the renderer's list at `SceneListAfterAll`.

The properties of those functions are proved as lemmas.

## Model

| member | source | states |
|---|---|---|
| CompressionSupport.IndexOfValue | src/Common/CompressionSupport.cpp:40-46 | the index of the first table slot holding the value, or the table length when none does |
| CompressionSupport.IndexOfName | src/Common/CompressionSupport.cpp:53-62 | the index of the first slot whose name equals the string exactly (length, then characters), or the table length |
| CompressionSupport.NameOf | src/Common/CompressionSupport.cpp:38-49 | the name of the first slot holding the value; the first slot's name when no slot does |
| CompressionSupport.ValueOf | src/Common/CompressionSupport.cpp:51-65 | the value of the first slot named by the string; the first slot's value when no slot is |
| CompressionSupport.TranslateCompressionFormatToString | src/Common/CompressionSupport.cpp:33-49 | "gdeflate" for GDEFLATE and "none" for every other value |
| CompressionSupport.TranslateCompressionFormatToValue | src/Common/CompressionSupport.cpp:51-65 | GDEFLATE exactly for "gdeflate"; NONE for every other string, "" included |
| CompressionSupport.TranslateCompressionLevelToStringGDeflate | src/Common/CompressionSupport.cpp:69-86 | "fastest" and "best" for their levels; "default" for DEFAULT and for any unknown level |
| CompressionSupport.TranslateCompressionLevelToValueGDeflate | src/Common/CompressionSupport.cpp:88-102 | FASTEST for "fastest", BEST_RATIO for "best", DEFAULT for every other string |
| CompressionSupport.TranslateCompressionExhaustiveToString | src/Common/CompressionSupport.cpp:106-125 | "true" for true and "false" for false |
| CompressionSupport.TranslateCompressionExhaustiveToValue | src/Common/CompressionSupport.cpp:106-111 | true exactly for "true" and "1"; "false", "0" and unknown strings give false |
| CompressionSupport.FormatValueRoundTrip | src/Common/CompressionSupport.cpp:38-65 | value→name→value is the identity exactly on NONE and GDEFLATE |
| CompressionSupport.FormatNameRoundTrip | src/Common/CompressionSupport.cpp:38-65 | name→value→name is the identity exactly on "none" and "gdeflate" |
| CompressionSupport.LevelEmptyNameMatchesFourthSlot | src/Common/CompressionSupport.cpp:69-73 | "" is found in the level table's value-initialised fourth slot and yields DEFAULT |
| CompressionSupport.LevelDefaultNamedByFirstSlot | src/Common/CompressionSupport.cpp:75-86 | DEFAULT is named by the first slot, "default", not by the fourth |
| CompressionSupport.LevelNameRoundTrip | src/Common/CompressionSupport.cpp:75-102 | name→level→name is the identity exactly on "default", "fastest" and "best" |
| CompressionSupport.ExhaustiveNameRoundTrip | src/Common/CompressionSupport.cpp:114-141 | name→bool→name is the identity exactly on "true" and "false", not on "1" or "0" |
| TextureConverter.SetField | src/TextureConverter/TextureConverter.cpp:144-166 | assigning one option changes that option and no other |
| TextureConverter.FindSubstring | src/TextureConverter/TextureConverter.cpp:144 | wcsstr: the first position where the key occurs, or none when it occurs nowhere |
| TextureConverter.FindChar | src/TextureConverter/TextureConverter.cpp:146 | wcschr: the first position of the character, or none |
| TextureConverter.ParseCommandLine | src/TextureConverter/TextureConverter.cpp:129-168 | the loop's options equal the fold of every argument over the defaults ("", "", "default", ""), where only '-' arguments count and the first matching key wins |
| TextureConverter.ValueFollowsKey | src/TextureConverter/TextureConverter.cpp:144-165 | an option's value is the text after the matched key, because each key ends at its only '=' |
| TextureConverter.UnsetOptionKeepsDefault | src/TextureConverter/TextureConverter.cpp:129-132 | an option no argument names keeps its default |
| TextureConverter.LastOptionWins | src/TextureConverter/TextureConverter.cpp:138-168 | the last argument naming a key decides its value |
| TextureConverter.ValidateCompressionArgs | src/TextureConverter/TextureConverter.cpp:77-100 | accepted iff the exhaustive string is "true" or "false", or the format is "none", or the format is "gdeflate" with a level of "default", "fastest" or "best" |
| TextureConverter.CompressionSettings | src/TextureConverter/TextureConverter.cpp:170-198 | rejected iff validation fails. Exhaustive iff the string is "true" or "1". Exhaustive settings use NONE/DEFAULT. Otherwise the format is GDEFLATE only for "gdeflate", with the level the string names (DEFAULT for an unknown one), and any other format uses DEFAULT |
| TextureConverter.DefaultOptionsRejected | src/TextureConverter/TextureConverter.cpp:129-176 | an empty command line fails validation |
| TextureConverter.LevelIgnoredUnlessGDeflate | src/TextureConverter/TextureConverter.cpp:85-97 | the level string does not affect the outcome unless the format is "gdeflate" |
| TextureConverter.Resize | src/TextureConverter/TextureConverter.cpp:373 | std::vector::resize keeps the prefix and zero-fills to the new length |
| TextureConverter.Compress | src/TextureConverter/TextureConverter.cpp:361-394 | NONE copies `src` to the front and returns its length, growing the buffer only when it is shorter. Other formats return the codec's size, or -1 when the codec cannot be created or fails |
| TextureConverter.CandidateSizes | src/TextureConverter/TextureConverter.cpp:344-348 | the six tries in loop order, format NONE..GDEFLATE by level FASTEST..BEST_RATIO |
| TextureConverter.CandidateAt | src/TextureConverter/TextureConverter.cpp:344-346 | try (format, level) is at index 3·format + level + 1 |
| TextureConverter.CompressIsCandidate | src/TextureConverter/TextureConverter.cpp:348 | one Compress call yields the candidate's size and payload whatever buffer it is given |
| TextureConverter.Pick | src/TextureConverter/TextureConverter.cpp:340-354 | the first strictly smallest eligible size below INT64_MAX; none when no eligible size is below INT64_MAX |
| TextureConverter.CompressExhaustiveAsWritten | src/TextureConverter/TextureConverter.cpp:332-358 | as written: the first strict minimum over all reported sizes, -1 included, and its format |
| TextureConverter.AsWrittenFailureWins | src/TextureConverter/TextureConverter.cpp:348-353 | with a codec that always fails, the first gdeflate try (-1) wins and -1 is returned as the size |
| TextureConverter.PickIgnoresSkippingWithoutFailures | src/TextureConverter/TextureConverter.cpp:348-353 | with no failed try, skipping failures picks the same try as the as-written comparison |
| TextureConverter.AsWrittenAgreesWhenGDeflateSucceeds | src/TextureConverter/TextureConverter.cpp:332-358 | when every gdeflate try succeeds, the as-written and corrected searches pick the same try |
| TextureConverter.AsWrittenReportsAnyFailure | src/TextureConverter/TextureConverter.cpp:348-353 | when any gdeflate try fails, the as-written search reports size -1 with format GDEFLATE |
| TextureConverter.TryCandidate | src/TextureConverter/TextureConverter.cpp:348-354 | one try of the corrected search keeps the best so far |
| TextureConverter.CompressExhaustive | src/TextureConverter/TextureConverter.cpp:332-358 | corrected: returns the first strict minimum among successful tries, with its payload and format |
| TextureConverter.ExhaustiveNeverExceedsInput | src/TextureConverter/TextureConverter.cpp:344-357 | the corrected result always exists and is no longer than the input, because NONE is tried |
| TextureConverter.OutputFile.constructor | src/TextureConverter/TextureConverter.cpp:400-401 | a handle that is not yet created and holds nothing |
| TextureConverter.OutputFile.WriteFile | src/TextureConverter/TextureConverter.cpp:315-322 | each call takes the next scripted answer: a failure writes nothing, a success writes the first min(count, chunk) elements; with the script used up it writes the whole chunk |
| TextureConverter.Answer | src/TextureConverter/TextureConverter.cpp:315-322 | one call reports at most what it was asked for, and nothing when it fails |
| TextureConverter.Run | src/TextureConverter/TextureConverter.cpp:311-324 | the chunk loop writes at most what remains and, unless it gives up, all of it; it never consumes more answers than it has |
| TextureConverter.RunStep | src/TextureConverter/TextureConverter.cpp:313-322 | one call of the loop: a failure ends it, a success of n elements continues it with n fewer to write |
| TextureConverter.RunWithoutFailures | src/TextureConverter/TextureConverter.cpp:311-324 | with no failing answer the loop never gives up and leaves no failing answer |
| TextureConverter.ProgressStep | src/TextureConverter/TextureConverter.cpp:311-324 | one call keeps what is written plus what the rest of the run writes equal to the whole run, or ends it as failed |
| TextureConverter.LateFailureKeepsEarlierChunks | src/TextureConverter/TextureConverter.cpp:315-321 | a failure after a full first chunk leaves that chunk written and reports failure |
| TextureConverter.ShortWritesAreContinued | src/TextureConverter/TextureConverter.cpp:315-319 | short and empty successful writes are continued until everything is written |
| TextureConverter.ZeroByteWritesAreRetried | src/TextureConverter/TextureConverter.cpp:311-319 | after any number of successful writes of nothing the loop still calls WriteFile |
| TextureConverter.CreateFileOnDisk | src/TextureConverter/TextureConverter.cpp:280-300 | opens and truncates the file only when its handle is not yet valid; fails iff it must create the file and cannot |
| TextureConverter.WriteDataToDisk | src/TextureConverter/TextureConverter.cpp:302-328 | writes the first byteCount elements as Run prescribes: chunks of at most MAXDWORD, short writes continued; returns the position before the write, or -1 when a call fails, with the chunks written before it left in the file; no call at all for 0 |
| TextureConverter.MaskClearsLowTwelveBits | src/TextureConverter/TextureConverter.cpp:565 | the mask (~4096 + 1) clears the low twelve bits, as ~4095 would |
| TextureConverter.AlignmentPadding | src/TextureConverter/TextureConverter.cpp:563-566 | the padding is 0..4095, makes the next offset a multiple of 4096, and is 0 for an aligned offset |
| TextureConverter.TruncatedName | src/TextureConverter/TextureConverter.cpp:552-553 | the stored name is the path's prefix of at most capacity−1 characters |
| TextureConverter.EncodeImage | src/TextureConverter/TextureConverter.cpp:509-541 | exhaustive: a payload no longer than the footprint. Compressed: the codec's output, or a failure iff the codec fails. NONE: the footprint itself, with an empty one rejected |
| TextureConverter.ExhaustivePayloadHasReportedSize | src/TextureConverter/TextureConverter.cpp:513-544 | the exhaustive payload has exactly the size the search reports |
| TextureConverter.RecordFor | src/TextureConverter/TextureConverter.cpp:547-554 | the record's compressed size is the payload length, its uncompressed size the footprint, its offset the write position, its format the encoding's, and its name the truncated path |
| TextureConverter.ConvertedBelowNext | src/TextureConverter/TextureConverter.cpp:412-440 | after image i, exactly the decodable images up to i have been converted, in order |
| TextureConverter.PackagedAppend | src/TextureConverter/TextureConverter.cpp:544-566 | payload at the aligned end of the data file, then its record, then padding: the files describe one more image and stay aligned |
| TextureConverter.EncodeForDisk | src/TextureConverter/TextureConverter.cpp:509-541 | succeeds iff EncodeImage gives a payload, and then returns that payload and its format |
| TextureConverter.WriteImageToDisk | src/TextureConverter/TextureConverter.cpp:543-566 | the data file grows by what was written of the payload and of the padding, the metadata file by what was written of one record. The record's offset is where the payload went, or -1 when the payload write failed. With no failing answer: the whole payload, record and padding |
| TextureConverter.PadToAlignment | src/TextureConverter/TextureConverter.cpp:561-566 | pads the data file from its current position towards the next multiple of 4096, as far as the writes go |
| TextureConverter.PackagedEmpty | src/TextureConverter/TextureConverter.cpp:498-506 | freshly created files describe no images |
| TextureConverter.AppendImage | src/TextureConverter/TextureConverter.cpp:509-566 | succeeds iff the image encodes; on failure nothing is written; while no write fails, the files describe one more image |
| TextureConverter.ConvertImage | src/TextureConverter/TextureConverter.cpp:497-566 | succeeds iff each file is open or can be created and the image encodes; creates the files before the first converted image |
| TextureConverter.IncompleteOnFailure | src/TextureConverter/TextureConverter.cpp:497-541 | an image that cannot be encoded, or a file that cannot be created, stops the conversion |
| TextureConverter.ConvertStep | src/TextureConverter/TextureConverter.cpp:410-566 | one pass keeps the loop state (converted images, open files, stored records) for one more image, or stops a conversion that cannot complete |
| TextureConverter.ConversionSoFarComplete | src/TextureConverter/TextureConverter.cpp:410-575 | after the last image the conversion has completed and every decodable image is converted |
| TextureConverter.ConvertImages | src/TextureConverter/TextureConverter.cpp:397-575 | true iff every decodable image encodes and, if there is one, both files can be created; failed writes go unnoticed. On true every decodable image is converted. While no write fails, each record points at a 4096-aligned range of the data file holding exactly its encoded payload |
| PackageUtils.ImageUris | src/Common/PackageUtils.cpp:42-46 | one path per image, its "uri", in index order |
| PackageUtils.GetGLTFTexturePaths | src/Common/PackageUtils.cpp:31-50 | no paths without an "images" key; otherwise one "uri" per image, in index order |
| PackageUtils.CString | src/Common/PackageUtils.cpp:118 | the characters before the first terminator |
| PackageUtils.CStringOfPlain | src/Common/PackageUtils.cpp:118 | a string without a terminator is its own C string |
| PackageUtils.GetFullDirectoryPath | src/Common/PackageUtils.cpp:107-119 | the full path, cut at its file-name part when there is one |
| PackageUtils.CStringOfPlainPrefix | src/Common/PackageUtils.cpp:113-118 | cutting at the file part gives a prefix of the full path |
| PackageUtils.IsSameDirectory | src/Common/PackageUtils.cpp:121-127 | true iff the two canonical directory prefixes are equal |
| PackageUtils.IsSameDirectoryEquivalence | src/Common/PackageUtils.cpp:121-127 | IsSameDirectory is reflexive, symmetric and transitive |
| PackageUtils.FilesInOneDirectory | src/Common/PackageUtils.cpp:107-127 | two files whose canonical paths share a directory compare as the same directory |
| PackageUtils.DirectoriesBelowAppend | src/Common/PackageUtils.cpp:146-158 | listing two runs of entries finds the directories of each, in order |
| PackageUtils.SkippedEntriesIgnored | src/Common/PackageUtils.cpp:148-150 | ".", ".." and non-directories add nothing |
| PackageUtils.DirectoriesBelowExtendPath | src/Common/PackageUtils.cpp:152 | every found directory extends its parent's path and ends in '\\' |
| PackageUtils.GetPathsBelow | src/Common/PackageUtils.cpp:129-165 | basePath followed by WalkOrder: each listing's subdirectories in order, then the subtrees below them from the last to the first; a permutation of basePath plus the pre-order DirectoriesBelow |
| PackageUtils.WalkOrderPermutesDirectoriesBelow | src/Common/PackageUtils.cpp:129-165 | the stack order finds every directory below the base exactly as often as the pre-order does |
| PackageUtils.WalkIsLastInFirstOut | src/Common/PackageUtils.cpp:137-158 | for a base holding a (which holds c) and b, the walk finds a, b, c, while the pre-order is a, c, b |
| PackageUtils.PushSubdirectories | src/Common/PackageUtils.cpp:146-158 | records the listing's subdirectories in listing order and puts their walk orders, last first, in front of the stack's |
| PackageUtils.ListedStep | src/Common/PackageUtils.cpp:146-158 | entry j is recorded and pushed when the walk descends into it, and skipped otherwise |
| PackageUtils.FoundPathsStep | src/Common/PackageUtils.cpp:150-153 | a descended entry adds its path to the found paths |
| PackageUtils.PendingOrderStep | src/Common/PackageUtils.cpp:154 | a pushed entry puts its walk order in front of the stack's |
| PackageUtils.PushStep | src/Common/PackageUtils.cpp:139-154 | pushing a directory puts its walk order in front of the stack's and its listing on the stack's size |
| PackageUtils.ListingStep | src/Common/PackageUtils.cpp:146-158 | one entry extends the listing's subdirectory paths and its subtrees, and is peeled off the listing's size |
| PackageUtils.ReportedSize | src/Common/PackageUtils.cpp:187 | the size is below 2^32 |
| PackageUtils.OrOfWordsExactIffHighZero | src/Common/PackageUtils.cpp:187 | high \| low equals the 64-bit size iff the high word is 0 |
| PackageUtils.ReportedSizeExactIffSmall | src/Common/PackageUtils.cpp:187 | the listed size is exact iff the file is smaller than 4 GiB |
| PackageUtils.FilesIn | src/Common/PackageUtils.cpp:182-189 | at most one file per entry, directories excluded |
| PackageUtils.FilesInNamedUnderPath | src/Common/PackageUtils.cpp:186-187 | every listed file is named searchPath + fileName and has a size below 2^32 |
| PackageUtils.FilesForPathsAppend | src/Common/PackageUtils.cpp:174-193 | files are grouped by search path first, then by pattern |
| PackageUtils.DirectoriesNotListed | src/Common/PackageUtils.cpp:184 | a directory entry adds no file |
| PackageUtils.AppendFiles | src/Common/PackageUtils.cpp:182-189 | the inner loop appends exactly the listing's files |
| PackageUtils.AppendPatternFiles | src/Common/PackageUtils.cpp:176-192 | appends the files of every pattern, in pattern order |
| PackageUtils.AppendPathFiles | src/Common/PackageUtils.cpp:174-193 | the nested loops yield FilesForPaths |
| PackageUtils.GetSupportedFilesInfo | src/Common/PackageUtils.cpp:167-196 | searches basePath, then the directories below it in WalkOrder, listing by path and then by pattern |
| DirectStorage.RecordCount | src/DX12/GLTFTextureAndBuffersDirectStorage.cpp:341-347 | the number of whole records that fit in the file (integer division) |
| DirectStorage.FindLastFrom | src/DX12/GLTFTextureAndBuffersDirectStorage.cpp:474 | the last occurrence at or before `from`, or none |
| DirectStorage.RFind | src/DX12/GLTFTextureAndBuffersDirectStorage.cpp:474 | wstring::rfind: the last occurrence, or none |
| DirectStorage.DataFileName | src/DX12/GLTFTextureAndBuffersDirectStorage.cpp:474 | the path up to its last "MetaData.bin" (the whole path without one) followed by "TextureData.bin" |
| DirectStorage.DataFileNameOfPackagedPath | src/DX12/GLTFTextureAndBuffersDirectStorage.cpp:474 | dir + "MetaData.bin" gives dir + "TextureData.bin" |
| DirectStorage.FileEntries | src/DX12/GLTFTextureAndBuffersDirectStorage.cpp:481-490 | record j of file i gets data file i and allocation j |
| DirectStorage.TableOfSnoc | src/DX12/GLTFTextureAndBuffersDirectStorage.cpp:496 | insert_or_assign replaces the key's entry |
| DirectStorage.TableKeys | src/DX12/GLTFTextureAndBuffersDirectStorage.cpp:468-502 | the table's keys are exactly the inserted names |
| DirectStorage.TableLastWins | src/DX12/GLTFTextureAndBuffersDirectStorage.cpp:496-500 | with duplicates, the last record inserted under a name wins |
| DirectStorage.TableValuesInserted | src/DX12/GLTFTextureAndBuffersDirectStorage.cpp:468-502 | every table value is an entry inserted under its key |
| DirectStorage.DuplicateSnoc | src/DX12/GLTFTextureAndBuffersDirectStorage.cpp:496-499 | insertion reports a duplicate iff the name was inserted before |
| DirectStorage.InsertFileEntries | src/DX12/GLTFTextureAndBuffersDirectStorage.cpp:481-501 | inserts one file's entries in order and tracks whether any name repeated |
| DirectStorage.BuildResourceTable | src/DX12/GLTFTextureAndBuffersDirectStorage.cpp:468-502 | one data file per metadata file; the table is the fold of every entry; duplicate iff some name repeats |
| DirectStorage.AllEntriesNext | src/DX12/GLTFTextureAndBuffersDirectStorage.cpp:468-481 | the entries of i+1 files are those of i files followed by file i's |
| DirectStorage.AllEntriesOrigin | src/DX12/GLTFTextureAndBuffersDirectStorage.cpp:481-490 | every entry comes from a record of its own file and carries that record's allocation |
| DirectStorage.TableOffsetsAligned | src/DX12/GLTFTextureAndBuffersDirectStorage.cpp:468-502 | packaged (aligned) records make every table entry pass InitFromFile's alignment assertion |
| DirectStorage.AddRecordSizes | src/DX12/GLTFTextureAndBuffersDirectStorage.cpp:409-411 | both running sizes grow by the sums of the records' sizes |
| DirectStorage.AccumulateSceneSizes | src/DX12/GLTFTextureAndBuffersDirectStorage.cpp:401-414 | as written: file i is paired with the i-th scene, so at most as many files as scenes are allowed; a scene's sizes are the sums over its files; exactly the paired scenes have sizes |
| DirectStorage.SceneTotalUnpaired | src/DX12/GLTFTextureAndBuffersDirectStorage.cpp:401-414 | a scene paired with no file gets nothing |
| DirectStorage.SceneTotalPrefix | src/DX12/GLTFTextureAndBuffersDirectStorage.cpp:401-414 | files after the n-th never count towards a scene's first-n total |
| DirectStorage.AccumulateSceneSizesGuarded | src/DX12/GLTFTextureAndBuffersDirectStorage.cpp:401-414 | corrected: pairing stops at the end of the scene map, so exactly the first min(files, scenes) scenes get sizes, summed over their paired files |
| DirectStorage.MetadataFilesCanOutnumberScenes | src/DX12/GLTFTextureAndBuffersDirectStorage.cpp:322-327 | one scene whose directory and subdirectory each hold MetaData.bin yields two metadata files |
| DirectStorage.DistinctScenesGetTheirFileSizes | src/DX12/GLTFTextureAndBuffersDirectStorage.cpp:401-414 | with distinct scenes, a scene's sizes are exactly its file's sums |
| DirectStorage.FirstSceneFrom | src/DX12/GLTFTextureAndBuffersDirectStorage.cpp:447-457 | the first scene, from a position on, in the file's directory, or none |
| DirectStorage.FindSceneFor | src/DX12/GLTFTextureAndBuffersDirectStorage.cpp:447-457 | the while loop stops at the first scene in the same directory |
| DirectStorage.Assignments | src/DX12/GLTFTextureAndBuffersDirectStorage.cpp:430-458 | each file's first matching scene, in file order |
| DirectStorage.TemplatesOfNext | src/DX12/GLTFTextureAndBuffersDirectStorage.cpp:453 | one more file replaces its scene's template |
| DirectStorage.BuildHeapTemplates | src/DX12/GLTFTextureAndBuffersDirectStorage.cpp:428-459 | no templates without placed resources; otherwise each file's heap goes to its first matching scene, the last file winning |
| DirectStorage.TemplatesOfBelong | src/DX12/GLTFTextureAndBuffersDirectStorage.cpp:447-457 | every template belongs to a scene some file matched |
| DirectStorage.TemplatesOfLast | src/DX12/GLTFTextureAndBuffersDirectStorage.cpp:453 | a scene's template is the heap of the last file assigned to it |
| DirectStorage.TemplatesBelongToMatchedScenes | src/DX12/GLTFTextureAndBuffersDirectStorage.cpp:428-459 | every template's scene is the first match of some metadata file |
| DirectStorage.TemplateOfLastFile | src/DX12/GLTFTextureAndBuffersDirectStorage.cpp:428-459 | a scene's template is the heap of the last metadata file matched to it |
| DirectStorage.TemplateForScene | src/DX12/GLTFTextureAndBuffersDirectStorage.cpp:88-91 | operator[] yields the scene's template, or inserts and yields an empty one; other scenes keep theirs |
| DirectStorage.SizeForScene | src/DX12/GLTFTextureAndBuffersDirectStorage.cpp:93-101 | map::at yields the scene's size; a missing scene is an error |
| DirectStorage.CancelMatching | src/DX12/GLTFTextureAndBuffersDirectStorage.cpp:668-671 | removes exactly the reads whose tag & mask equals the value; keeps everything else |
| DirectStorage.AllBitsMaskMatchesExactTag | src/DX12/GLTFTextureAndBuffersDirectStorage.cpp:670 | with mask UINT64_MAX a tag matches iff it equals the value |
| DirectStorage.ZeroMaskMatchesEveryTag | src/DX12/GLTFTextureAndBuffersDirectStorage.cpp:514-515 | mask 0 with value 0 matches every tag |
| DirectStorage.CancelWorkloadIsExact | src/DX12/GLTFTextureAndBuffersDirectStorage.cpp:668-671 | cancelling a workload drops exactly its reads |
| DirectStorage.CancelAllLeavesNoReads | src/DX12/GLTFTextureAndBuffersDirectStorage.cpp:514-515 | shutdown's cancellation leaves no reads and keeps every other command |
| DirectStorage.SignalValuesAppend | src/DX12/GLTFTextureAndBuffersDirectStorage.cpp:548-555 | the signals of a queue with one more command are the old signals followed by that command's |
| DirectStorage.CancelKeepsSignals | src/DX12/GLTFTextureAndBuffersDirectStorage.cpp:668-671 | cancellation never removes a fence signal |
| DirectStorage.SignalNextValue | src/DX12/GLTFTextureAndBuffersDirectStorage.cpp:548-555 | signalling the pre-incremented counter keeps a fence's signals strictly increasing and bounded by the counter |
| DirectStorage.OtherCommandKeepsOrder | src/DX12/GLTFTextureAndBuffersDirectStorage.cpp:548-666 | other commands keep that order |
| DirectStorage.WaitForFence | src/DX12/GLTFTextureAndBuffersDirectStorage.cpp:631-638 | returns at the first poll whose completed value reaches the fence value; reports none when no poll does |
| DirectStorage.MarkerUpdate | src/DX12/GLTFTextureAndBuffersDirectStorage.cpp:574-581 | an empty slot takes "now"; otherwise the slot becomes now − slot modulo 2^64 |
| DirectStorage.MarkersGiveElapsedTime | src/DX12/GLTFTextureAndBuffersDirectStorage.cpp:572-604 | a begin marker at t1 and an end marker at t2 leave t2 − t1 |
| DirectStorage.MarkerAtTimeZeroIsLost | src/DX12/GLTFTextureAndBuffersDirectStorage.cpp:574-577 | a begin marker at time 0 leaves the slot empty, so the end marker stores its own time |
| DirectStorage.StorageRuntime.constructor | src/DX12/GLTFTextureAndBuffersDirectStorage.cpp:558 | empty queues and tables, zero counters, zeroed 512-slot ring |
| DirectStorage.StorageRuntime.InitializeTables | src/DX12/GLTFTextureAndBuffersDirectStorage.cpp:336-502 | builds the resource table, duplicate flag, data files, per-scene sizes (pairing stopped at the end of the scene map) and templates as the specification functions say, for any number of metadata files including none; queues and counters unchanged |
| DirectStorage.StorageRuntime.InitializeSceneTables | src/DX12/GLTFTextureAndBuffersDirectStorage.cpp:401-459 | builds the per-scene sizes, paired up to the end of the scene map, and the heap templates |
| DirectStorage.StorageRuntime.InitFromFile | src/DX12/GLTFTextureAndBuffersDirectStorage.cpp:109-178 | enqueues one read, without submitting. It copies format, data file, aligned offset, both sizes and name from the entry, is tagged with the workload, and targets the heap offset iff a heap is given |
| DirectStorage.StorageRuntime.SubmitNormal | src/DX12/GLTFTextureAndBuffersDirectStorage.cpp:662-666 | appends a Submit to the normal queue |
| DirectStorage.StorageRuntime.InsertFenceCPU | src/DX12/GLTFTextureAndBuffersDirectStorage.cpp:548-555 | pre-increments the CPU counter and signals a value above every earlier CPU signal |
| DirectStorage.StorageRuntime.SyncGPU | src/DX12/GLTFTextureAndBuffersDirectStorage.cpp:653-660 | pre-increments the GPU counter, signals a value above every earlier GPU signal, and submits |
| DirectStorage.StorageRuntime.SyncCPU | src/DX12/GLTFTextureAndBuffersDirectStorage.cpp:640-651 | inserts a CPU fence, submits, and waits until the completed value reaches it |
| DirectStorage.StorageRuntime.CancelNormal | src/DX12/GLTFTextureAndBuffersDirectStorage.cpp:514-515 | CancelRequestsWithTag on the normal queue |
| DirectStorage.StorageRuntime.CancelRequest | src/DX12/GLTFTextureAndBuffersDirectStorage.cpp:668-671 | cancels exactly the workload's reads |
| DirectStorage.StorageRuntime.Shutdown | src/DX12/GLTFTextureAndBuffersDirectStorage.cpp:508-518 | cancels every read on both queues, then syncs on the CPU; no read remains |
| DirectStorage.StorageRuntime.BeginProfileLoading | src/DX12/GLTFTextureAndBuffersDirectStorage.cpp:585-604 | pre-increments the profile counter, returns it mod 512, zeroes that slot only, and enqueues the begin event when the queue supports it |
| DirectStorage.StorageRuntime.EndProfileLoading | src/DX12/GLTFTextureAndBuffersDirectStorage.cpp:609-622 | enqueues the end event when the queue supports it |
| DirectStorage.StorageRuntime.ProfileMarker | src/DX12/GLTFTextureAndBuffersDirectStorage.cpp:560-582 | updates only the workload's slot, by MarkerUpdate |
| DirectStorage.StorageRuntime.GetTextureHeapDescForScene | src/DX12/GLTFTextureAndBuffersDirectStorage.cpp:88-91 | the scene's template, inserting an empty one when it has none |
| DirectStorage.StorageRuntime.RetrieveTiming | src/DX12/GLTFTextureAndBuffersDirectStorage.cpp:625-628 | the slot's value, a 64-bit quantity |
| DirectStorage.MetaNames | src/DX12/GLTFTextureAndBuffersDirectStorage.cpp:470-474 | the metadata files' names, in listing order |
| FrameTimeSnapshots.Insert | src/DX12/Renderer.h:65 | insertion adds exactly one sample to the multiset |
| FrameTimeSnapshots.InsertKeepsSorted | src/DX12/Renderer.h:65 | insertion keeps a sorted list sorted |
| FrameTimeSnapshots.SortSeq | src/DX12/Renderer.h:65 | std::sort's result: sorted, same length, same multiset |
| FrameTimeSnapshots.SumBetweenExtremes | src/DX12/Renderer.h:72 | n·min ≤ sum ≤ n·max |
| FrameTimeSnapshots.MeanBetweenExtremes | src/DX12/Renderer.h:69-78 | a mean lies between the smallest and the largest sample |
| FrameTimeSnapshots.FrameTimeSnapshotUnlimited.constructor | src/DX12/Renderer.h:56 | no samples |
| FrameTimeSnapshots.FrameTimeSnapshotUnlimited.AddTime | src/DX12/Renderer.h:58-61 | appends the sample |
| FrameTimeSnapshots.FrameTimeSnapshotUnlimited.GetMedian | src/DX12/Renderer.h:63-67 | sorts the stored samples in place (same multiset) and returns the one at size/2; an empty list is excluded |
| FrameTimeSnapshots.FrameTimeSnapshotUnlimited.GetArithmeticMean | src/DX12/Renderer.h:69-78 | 0 without samples; otherwise between the smallest and the largest sample |
| FrameTimeSnapshots.FrameTimeSnapshotUnlimited.GetPopulationCount | src/DX12/Renderer.h:80-83 | the number of samples |
| FrameTimeSnapshots.FrameTimeSnapshotUnlimited.Reset | src/DX12/Renderer.h:85-88 | no samples |
| FrameTimeSnapshots.MeanOfSamples | src/DX12/Renderer.h:69-78 | the exact mean, between the extremes |
| FrameTimeSnapshots.FrameTimeSnapshotRolling.WindowLength | src/DX12/Renderer.h:115-118 | the window is all 60 slots when hasFilledOnce, else the first frameIdx |
| FrameTimeSnapshots.FrameTimeSnapshotRolling.Window | src/DX12/Renderer.h:117-118 | the samples the mean and median read |
| FrameTimeSnapshots.FrameTimeSnapshotRolling.constructor | src/DX12/Renderer.h:131-134 | an empty window with frameIdx 0 and zeroed slots |
| FrameTimeSnapshots.FrameTimeSnapshotRolling.AddTime | src/DX12/Renderer.h:98-103 | as written: writes slot frameIdx, advances frameIdx mod 60 (so it stays below 60), and sets hasFilledOnce to frameIdx == 0 |
| FrameTimeSnapshots.FrameTimeSnapshotRolling.AddTimeRetainingFill | src/DX12/Renderer.h:98-103 | corrected: the same, with hasFilledOnce kept once set |
| FrameTimeSnapshots.FrameTimeSnapshotRolling.GetMedian | src/DX12/Renderer.h:105-113 | sorts the window in the copy, leaves the samples unchanged, and returns the sorted window's element at length/2; slot 0 for an empty window |
| FrameTimeSnapshots.FrameTimeSnapshotRolling.GetArithmeticMean | src/DX12/Renderer.h:115-124 | 0 for an empty window; otherwise between the window's extremes |
| FrameTimeSnapshots.FrameTimeSnapshotRolling.Reset | src/DX12/Renderer.h:126-129 | frameIdx 0, hasFilledOnce false, zeroed slots |
| FrameTimeSnapshots.WindowAfterAddsAsWritten | src/DX12/Renderer.h:98-103 | after n adds the window is n mod 60 samples, or 60 exactly at positive multiples of 60 |
| FrameTimeSnapshots.IndexStep | src/DX12/Renderer.h:101 | one more add advances the index to n mod 60 |
| FrameTimeSnapshots.NextSampleAfterFullWindowShrinksIt | src/DX12/Renderer.h:102 | after 60k samples the window is full; the next sample shrinks it to 1 |
| FrameTimeSnapshots.WindowAfterAddsRetained | src/DX12/Renderer.h:98-103 | corrected: after n adds the window is min(n, 60) samples |
| Renderer.IsPointInside | src/DX12/Renderer.cpp:743-755 | inside iff center − radius ≤ p ≤ center + radius on each of x, y and z, bounds inclusive |
| Renderer.SceneData.constructor | src/DX12/Renderer.cpp:527 | a new scene with the given heap, transform and timing |
| Renderer.LoadPathFor | src/DX12/Renderer.cpp:499-509 | the DirectStorage path iff the request asks for DirectStorage |
| Renderer.RunUnloadTask | src/DX12/Renderer.cpp:487-497 | destroys the scene, releasing its heap, and resolves to null |
| Renderer.RunLoadTaskPlain | src/DX12/Renderer.cpp:637-741 | a fresh scene with no texture heap, its transform and request copied from the load request, and the captured mean, median and elapsed time |
| Renderer.ReadsOf | src/DX12/Renderer.cpp:565 | one read per request, in order |
| Renderer.EnqueueTextureReads | src/DX12/Renderer.cpp:565 | one read per texture, each tagged with the workload and targeting a placed resource at its heap offset iff a heap is given, appended to the normal queue; nothing else changes |
| Renderer.RunLoadTaskDirectStorage | src/DX12/Renderer.cpp:511-635 | a fresh scene with a heap iff placed resources are requested and the device creates a heap for the scene's template (the empty one operator[] inserts when it has none); the reads target placed resources iff that heap exists. It carries the scene's sizes. The texture reads, end marker, CPU fence and Submit are enqueued in that order, and the task waits on that fence |
| Renderer.FirstIndexOf | src/DX12/Renderer.h:256 | std::find: the first position of the scene, or the end |
| Renderer.Removed | src/DX12/Renderer.h:254-261 | erases one occurrence when present; otherwise the list is unchanged |
| Renderer.RemovedAfterAppend | src/DX12/Renderer.h:250-261 | removing a scene just added gives the list back |
| Renderer.FirstIndexIsUnique | src/DX12/Renderer.h:256 | the first index is determined by the list and the scene |
| Renderer.Renderer.constructor | src/DX12/Renderer.h:228-261 | no scenes and a fresh rolling snapshot |
| Renderer.Renderer.AddScene | src/DX12/Renderer.h:250-253 | appends the scene |
| Renderer.Renderer.RemoveScene | src/DX12/Renderer.h:254-261 | erases the first occurrence only, if any |
| Renderer.Renderer.GetSceneLoadingTimings | src/DX12/Renderer.cpp:203-213 | one timing record per scene, in list order |
| Renderer.Renderer.LoadSceneAsyncOn | src/DX12/Renderer.cpp:515-519 | captures the rolling mean and median (the sorted window's middle) without changing the samples, and starts the task |
| Renderer.Renderer.LoadSceneAsync | src/DX12/Renderer.cpp:499-509 | a load task on LoadPathFor(request) for that request, carrying the rolling mean and median captured at the request |
| Renderer.Renderer.UnloadSceneAsync | src/DX12/Renderer.cpp:487-497 | an unload task for that scene |
| Streaming.NextState | src/DX12/DirectStorageSample.cpp:312-392 | the six blocks in order. Loaded only when inside. Loading only while not ready and not cancelled. Unloaded only if it was already Unloaded (camera outside) or its unload was ready. A Loaded volume with the camera inside stays Loaded |
| Streaming.LoadFinishingOutsideUnloadsAtOnce | src/DX12/DirectStorageSample.cpp:349-381 | a load that completes outside goes Loading→Loaded→Unloading in one call |
| Streaming.LoadingIgnoresCameraWithoutCancellation | src/DX12/DirectStorageSample.cpp:329-334 | without cancellation a Loading volume ignores the camera |
| Streaming.LeavingCancelsLoad | src/DX12/DirectStorageSample.cpp:329-347 | with cancellation, leaving requests cancellation |
| Streaming.CancelledLoadIsNeverLoaded | src/DX12/DirectStorageSample.cpp:336-347 | a cancelled load never becomes Loaded; when ready it moves to Unloading |
| Streaming.CancelledLoadNeverAdded | src/DX12/DirectStorageSample.cpp:336-347 | a cancelled load's result never reaches the renderer's list |
| Streaming.ReadyLoadAddedOnce | src/DX12/DirectStorageSample.cpp:349-368 | a ready load with the camera inside is added exactly once |
| Streaming.ReadyLoadOutsideLeavesListAsItWas | src/DX12/DirectStorageSample.cpp:349-381 | a load that completes outside is added and removed: the list is as before |
| Streaming.ListsStep | src/DX12/DirectStorageSample.cpp:312 | the list after volumes i.. is volume i's step followed by the rest |
| Streaming.DrainStep | src/DX12/DirectStorageSample.cpp:406-432 | ready Loading→Loaded (no AddScene), ready Unloading→Unloaded; other volumes untouched |
| Streaming.RequestUnloadsAsWritten | src/DX12/DirectStorageSample.cpp:439-446 | as written: a Loaded volume gets an unload task but stays Loaded |
| Streaming.RequestUnloads | src/DX12/DirectStorageSample.cpp:439-446 | corrected: a Loaded volume gets an unload task and moves to Unloading |
| Streaming.UnloadsAsWrittenAreNotAwaited | src/DX12/DirectStorageSample.cpp:439-448 | after a finished drain, the unloads started as written are not in flight, and the next drain ignores them |
| Streaming.UnloadsAreAwaited | src/DX12/DirectStorageSample.cpp:439-448 | corrected: the Loaded volume is in flight and becomes Unloaded, scene null, once its unload is ready |
| Streaming.Sample.constructor | src/DX12/DirectStorageSample.cpp:311 | a sample over the given renderer, options and consistent volumes |
| Streaming.Sample.RequestLoad | src/DX12/DirectStorageSample.cpp:314-327 | Unloaded and inside → Loading with one load task for the volume's request. The workload id comes from BeginProfileLoading iff DirectStorage and I/O timing are both on, else 0 |
| Streaming.Sample.BeginWorkload | src/DX12/DirectStorageSample.cpp:319 | DStorageBeginProfileLoading's slot, as the request's 64-bit workload id |
| Streaming.Sample.RequestCancel | src/DX12/DirectStorageSample.cpp:329-334 | Loading, outside, cancellation allowed → CancellationRequested; the workload's reads are cancelled iff DirectStorage is on |
| Streaming.Sample.TakeCancelledLoad | src/DX12/DirectStorageSample.cpp:336-347 | a ready cancelled load is taken and unloaded at once (Unloading) |
| Streaming.Sample.TakeLoadedScene | src/DX12/DirectStorageSample.cpp:349-373 | ready → Loaded and the scene appended to the renderer once; not ready → the last frame time appended to the volume's samples |
| Streaming.Sample.UnloadOnLeaving | src/DX12/DirectStorageSample.cpp:375-381 | Loaded and outside → the scene is removed from the list, then unloaded (Unloading) |
| Streaming.Sample.TakeUnloadResult | src/DX12/DirectStorageSample.cpp:383-391 | a ready unload → Unloaded with a null scene |
| Streaming.Sample.RequestBlocks | src/DX12/DirectStorageSample.cpp:314-347 | the first three blocks, composed; the list is untouched |
| Streaming.Sample.LoadBlocks | src/DX12/DirectStorageSample.cpp:349-391 | the last three blocks, composed, with their effect on the list |
| Streaming.Sample.StepVolume | src/DX12/DirectStorageSample.cpp:314-391 | one volume moves by NextState and keeps its place; the list changes by SceneListAfter |
| Streaming.Sample.StepAll | src/DX12/DirectStorageSample.cpp:311-392 | the loop steps every volume in order |
| Streaming.Sample.CheckAndRequestScenesToLoad | src/DX12/DirectStorageSample.cpp:305-393 | every volume moves by NextState; the renderer's list becomes SceneListAfterAll |
| Streaming.Sample.DrainRound | src/DX12/DirectStorageSample.cpp:403-433 | every volume takes a DrainStep; the flag is set iff some volume was Loading or Unloading |
| Streaming.Sample.WaitForInFlightOperations | src/DX12/DirectStorageSample.cpp:399-437 | repeats until a round finds nothing in flight. Loading ends Loading/Loaded, Unloading ends Unloading/Unloaded, other volumes are untouched. With nothing in flight one round suffices |
| Streaming.Sample.ShutdownStreamingAsWritten | src/DX12/DirectStorageSample.cpp:395-450 | as written: the second drain takes one round and Loaded volumes remain Loaded with an unload pending |
| Streaming.Sample.ShutdownStreaming | src/DX12/DirectStorageSample.cpp:395-450 | corrected: after both drains finish every volume is Unloaded or CancellationRequested |

## Left out

- I/O: the files, directory listings, the image loaders and `GetCopyableFootprints` are inputs. Each image arrives decoded with its footprint bytes.
- `CopyPixels`, the resource-view heaps, the passes, the upload heaps and the GPU pipeline are outside the model.
- The GDeflate codec is an abstract function `Codec` from (format, level, bytes) to an outcome.
- `DStorageCreateCompressionCodec`'s hardware concurrency argument is not modelled.
- Concurrency: a `std::async` future is a `Task` value. Its readiness at each poll site is a `Poll` or `DrainPoll` input. A thread-pool marker callback is the explicit call `ProfileMarker`.
- `WaitForSingleObject` is not modelled. Instead, CPU fence waits walk a supplied sequence of completed values.
- `DStorageSyncCPU` reports `None` when the sequence runs out, where `DStorageSyncCPU` itself would block.
- The shutdown drain is bounded by a supplied sequence of rounds. The program spins for as long as a future stays unready.
- Floating point: `GetSceneTextureCompressionRatio` is not modelled.
- The snapshot means are exact rationals (`real`), not `double`.
- `IsPointInside` compares reals on x, y and z only; the fourth SSE lane that `movemask == 0x7` also inspects is not modelled.
- The camera is an input point.
- DirectStorage.MarkerUpdate: `MillisecondsNow` is an input `now`. The 64-bit wrap of the counters, tags and file offsets is modelled only where the program subtracts (the marker slot).
- Renderer.IsPointInside: does not model the fourth SSE lane. The code compares it too, and it is left out as floating-point SIMD detail.
- Text encoding: the UTF-8/UTF-16 conversions (`g_Converter`, `wstring_convert`) are identities on `string`.
- The upper-casing used to choose the DDS or WIC loader has no effect once images arrive decoded.
- `ConvertImages` takes the scene's directory with its trailing backslash as `baseDir`. `PathRemoveFileSpecW` and `PathAddBackslashW` are not modelled.
- The padding bytes come from an uninitialised stack buffer, so their content is an input `padBytes`.
- TextureConverter.OutputFile.WriteFile: the operating system's answers are a finite script. Once it is used up every write succeeds in full, so an endless run of successful writes of nothing, on which the loop spins forever, is not modelled. ZeroByteWritesAreRetried shows the retry itself.
- TextureConverter.WriteDataToDisk: the metadata file counts whole records, so a short write of part of a record is not modelled.
- TextureConverter.WriteImageToDisk: the debug-build `assert` on the offset (line 555) is not modelled; on a failed payload write the record carries offset -1, as in a release build.
- TextureConverter.EncodeImage: the exhaustive branch calls the corrected CompressExhaustive, not the as-written one (line 513). Where every gdeflate try succeeds the two agree (AsWrittenAgreesWhenGDeflateSucceeds). Otherwise the as-written search returns -1 with GDEFLATE (AsWrittenReportsAnyFailure), and the program then writes (size_t)-1 bytes (line 544) and records size -1 (line 549); that run is not modelled.
- TextureConverter.ExhaustivePayloadHasReportedSize: states the corrected search's size, as EncodeImage does; the as-written -1 size is not modelled.
- TextureConverter.EncodeForDisk: follows EncodeImage's corrected exhaustive branch.
- TextureConverter.AppendImage: follows EncodeImage's corrected exhaustive branch; the write of (size_t)-1 bytes is not modelled.
- TextureConverter.ConvertImage: follows EncodeImage's corrected exhaustive branch.
- TextureConverter.ConvertImages: follows EncodeImage's corrected exhaustive branch, so an exhaustive run with a failing gdeflate codec stores the smaller of the successful tries instead of a record of size -1.
- `GetSupportedFiles` and `GetGLTFPathFileMapping` are not part of this model: they only collect the scene list from the configuration file.
- The parts of `InitializeDirectStorage` that only talk to the runtime are not modelled:
  - factory, queue, status-array and event setup, and the metadata read with its busy spin;
  - the resource descriptions and `GetResourceAllocationInfo1`, whose results are inputs (`heaps`, `allocs`);
  - the debug-build assertion at line 338 that there are as many TextureData.bin files as MetaData.bin files: the model names each data file after its metadata file.
- The heap a scene's load creates is only a flag (`hasTextureHeap`). Whether `CreateHeap` succeeds for a description is an input of RunLoadTaskDirectStorage; `CreatePlacedResource` and `CreateCommittedResource` are not modelled.
- DirectStorage.StorageRuntime.InitializeTables: the debug-build assertion at line 337 is not modelled, so zero metadata files are accepted, as in a release build. Metadata files past the last scene are paired with no scene (AccumulateSceneSizesGuarded); as written the loop at lines 401-414 advances its scene iterator past `cend()`, which is undefined behaviour (see Findings).
- DirectStorage.AccumulateSceneSizes: models the loop as written and so requires no more metadata files than scenes; past that the program's behaviour is undefined. MetadataFilesCanOutnumberScenes shows the case arises.
- `Texture::InitFromFile`'s D3D resource creation and `m_header` bookkeeping are not modelled.
- A load task fails on a missing glTF file by calling `exit(0)`. This is left out: the model's load tasks always succeed.
- Renderer.RunLoadTaskDirectStorage: the texture list comes from the scene's glTF, which is not parsed. It is an input `textures`, required to name table entries.
- Renderer.RunLoadTaskDirectStorage: requires the scene in the scene-path map and its pair in both size maps. For a scene with no metadata file the `map::at` calls (src/DX12/Renderer.cpp:525, 533-534) throw `std::out_of_range` into the task's future; that failure is not modelled.
- CheckAndRequestScenesToLoad: some timing writes are not modelled:
  - the `ioTime` read from the profiling ring;
  - the move of the volume's frame times into the scene's timing record, which the model shows as an emptied sample list;
  - `Reset` of the scene's own frame times;
  - `m_profiler.AddData`.
- Streaming.Sample.TakeLoadedScene: samples the last frame time as an integer input, not the renderer's `GetLastFrameTiming` float.
- FrameTimeSnapshots.FrameTimeSnapshotRolling.constructor: the C++ constructor leaves both arrays uninitialised (`std::array` without an initialiser), so the model's zeroed slots are one possible state. `Reset` value-initialises and is modelled exactly.
- The window is the only part the mean and median read.

## Findings

| source | as written | input that shows it | evidently intended | confidence | as-written member | corrected member |
|---|---|---|---|---|---|---|
| src/TextureConverter/TextureConverter.cpp:348-354 | `CompressExhaustive` compares every reported size with `<`. A failed gdeflate try returns -1, which is smaller than any real size and wins; ConvertImages then writes -1 bytes and records size -1 with format GDEFLATE | a codec that cannot be created (every gdeflate try returns -1), any image: the search returns -1 and format GDEFLATE | skip failed tries (size < 0). NONE then always wins a tie-free fallback, and the result is at most the input length | not executed; high | TextureConverter.CompressExhaustiveAsWritten, TextureConverter.AsWrittenFailureWins | TextureConverter.CompressExhaustive, TextureConverter.ExhaustiveNeverExceedsInput |
| src/DX12/Renderer.h:102 | `hasFilledOnce = frameIdx == 0` is reassigned on every add, so the flag is true only right after the 60th, 120th, … sample. After the 61st sample the rolling mean and median look at one sample, not 60 | 61 calls of `AddTime` after a reset: the window length is 1 | keep the flag once set, so the window holds min(n, 60) samples | not executed; high | FrameTimeSnapshots.FrameTimeSnapshotRolling.AddTime, FrameTimeSnapshots.NextSampleAfterFullWindowShrinksIt | FrameTimeSnapshots.FrameTimeSnapshotRolling.AddTimeRetainingFill, FrameTimeSnapshots.WindowAfterAddsRetained |
| src/DX12/DirectStorageSample.cpp:439-448 | the second phase starts an unload for each Loaded volume but leaves its state Loaded. The second drain then sees nothing in flight and returns after one round without waiting for those unloads (only the futures' destructors wait later) | one volume Loaded at shutdown: the second drain returns at once with the volume still Loaded and its unload pending | move the volume to Unloading when its unload starts, so the drain waits for it to become Unloaded | not executed; medium | Streaming.Sample.ShutdownStreamingAsWritten, Streaming.UnloadsAsWrittenAreNotAwaited | Streaming.Sample.ShutdownStreaming, Streaming.UnloadsAreAwaited |
| src/DX12/GLTFTextureAndBuffersDirectStorage.cpp:401-414 | file i is paired with the i-th scene by advancing `pathPairItr` once per metadata file, with no check against `cend()`. The metadata search walks subdirectories (lines 322-327), so a scene directory can yield more metadata files than there are scenes, and the loop then dereferences past the end of the scene map | one scene at `s\` whose directory holds MetaData.bin and a subdirectory `sub\` with another MetaData.bin: two metadata files, one scene | stop pairing at the end of the scene map | not executed; medium | DirectStorage.AccumulateSceneSizes, DirectStorage.MetadataFilesCanOutnumberScenes | DirectStorage.AccumulateSceneSizesGuarded, DirectStorage.StorageRuntime.InitializeTables |
