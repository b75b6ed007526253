/**
 * Helpers shared by the packager and the sample (src/Common/PackageUtils.cpp):
 * the image URIs of a glTF document, directory identity through an abstract
 * path canonicaliser, the stack-driven walk over the directories below a base
 * path, and the listing of files that match search patterns.
 */
module PackageUtils {
  import opened Wrappers

  // ---------------------------------------------------------------------------
  // GetGLTFTexturePaths (lines 31-50)
  // ---------------------------------------------------------------------------

  datatype GltfImage = GltfImage(uri: string)

  /** The part of a glTF document that is read: the "images" array, if the key is present. */
  datatype GltfDocument = GltfDocument(images: Option<seq<GltfImage>>)

  function ImageUris(images: seq<GltfImage>): (paths: seq<string>)
    ensures |paths| == |images|
    ensures forall i :: 0 <= i < |images| ==> paths[i] == images[i].uri
  {
    if images == [] then [] else [images[0].uri] + ImageUris(images[1..])
  }

  /** One path per image, its "uri", in index order; none without an "images" key. */
  function GetGLTFTexturePaths(gltf: GltfDocument): (paths: seq<string>)
    ensures gltf.images.None? ==> paths == []
    ensures gltf.images.Some? ==>
              |paths| == |gltf.images.value|
              && forall i :: 0 <= i < |paths| ==> paths[i] == gltf.images.value[i].uri
  {
    match gltf.images
    case None => []
    case Some(images) => ImageUris(images)
  }

  // ---------------------------------------------------------------------------
  // GetFullDirectoryPath and IsSameDirectory (lines 107-127)
  // ---------------------------------------------------------------------------

  /**
   * GetFullPathNameW: the full path of a name and the index where its file-name
   * part starts, if it has one.
   */
  type FullPathName = string -> (string, Option<nat>)

  /** A wide C string read from a buffer: everything before the first NUL. */
  function CString(s: string): (r: string)
    ensures r <= s
    ensures forall i :: 0 <= i < |r| ==> r[i] != '\0'
    ensures |r| < |s| ==> s[|r|] == '\0'
  {
    if s == [] || s[0] == '\0' then [] else [s[0]] + CString(s[1..])
  }

  lemma {:induction false} CStringOfPlain(s: string)
    requires forall i :: 0 <= i < |s| ==> s[i] != '\0'
    ensures CString(s) == s
  {
    if s != [] {
      CStringOfPlain(s[1..]);
    }
  }

  /** The full path of `dir` cut where its file-name part starts (the terminator is written there). */
  function GetFullDirectoryPath(fullPathName: FullPathName, dir: string): (r: string)
    ensures forall i :: 0 <= i < |r| ==> r[i] != '\0'
    ensures r <= fullPathName(dir).0
    ensures var (full, filePart) := fullPathName(dir);
            (filePart.Some? && filePart.value <= |full| && (forall i :: 0 <= i < filePart.value ==> full[i] != '\0'))
            ==> r == full[..filePart.value]
    ensures var (full, filePart) := fullPathName(dir);
            filePart.None? && (forall i :: 0 <= i < |full| ==> full[i] != '\0') ==> r == full
  {
    var (full, filePart) := fullPathName(dir);
    if filePart.Some? && filePart.value <= |full| then
      var cut := full[..filePart.value];
      CStringOfPlainPrefix(full, filePart.value);
      CString(cut)
    else
      CString(full)
  }

  lemma CStringOfPlainPrefix(s: string, n: nat)
    requires n <= |s|
    ensures CString(s[..n]) <= s
    ensures (forall i :: 0 <= i < n ==> s[i] != '\0') ==> CString(s[..n]) == s[..n]
  {
    if forall i :: 0 <= i < n ==> s[i] != '\0' {
      CStringOfPlain(s[..n]);
    }
  }

  /** wcscmp(a, b) == 0 on the two strings' C-string views. */
  predicate SameCString(a: string, b: string)
  {
    CString(a) == CString(b)
  }

  function IsSameDirectory(fullPathName: FullPathName, dir1: string, dir2: string): (same: bool)
    ensures same <==> GetFullDirectoryPath(fullPathName, dir1) == GetFullDirectoryPath(fullPathName, dir2)
  {
    var fullDirPath1 := GetFullDirectoryPath(fullPathName, dir1);
    var fullDirPath2 := GetFullDirectoryPath(fullPathName, dir2);
    CStringOfPlain(fullDirPath1);
    CStringOfPlain(fullDirPath2);
    SameCString(fullDirPath1, fullDirPath2)
  }

  /** Whatever the canonicaliser, IsSameDirectory is an equivalence relation. */
  lemma IsSameDirectoryEquivalence(fullPathName: FullPathName, a: string, b: string, c: string)
    ensures IsSameDirectory(fullPathName, a, a)
    ensures IsSameDirectory(fullPathName, a, b) == IsSameDirectory(fullPathName, b, a)
    ensures IsSameDirectory(fullPathName, a, b) && IsSameDirectory(fullPathName, b, c) ==> IsSameDirectory(fullPathName, a, c)
  {
  }

  /** Two files in one directory: full paths that agree up to the file-name parts name the same directory. */
  lemma FilesInOneDirectory(fullPathName: FullPathName, file1: string, file2: string, dir: string)
    requires var (full1, part1) := fullPathName(file1);
             part1 == Some(|dir|) && full1[..Min(|dir|, |full1|)] == dir && |dir| <= |full1|
    requires var (full2, part2) := fullPathName(file2);
             part2 == Some(|dir|) && full2[..Min(|dir|, |full2|)] == dir && |dir| <= |full2|
    requires forall i :: 0 <= i < |dir| ==> dir[i] != '\0'
    ensures IsSameDirectory(fullPathName, file1, file2)
  {
  }

  // ---------------------------------------------------------------------------
  // GetPathsBelow (lines 129-165)
  // ---------------------------------------------------------------------------

  /**
   * An entry of a directory listing (WIN32_FIND_DATAW): its name, whether it is
   * a directory, the two 32-bit halves of its size, and, for a directory, the
   * listing of its own contents.
   */
  datatype Node = Node(name: string, isDirectory: bool, sizeHigh: bv32, sizeLow: bv32, children: seq<Node>)

  /** A listing entry the walk descends into: a directory other than "." and "..". */
  predicate Descends(e: Node)
  {
    e.isDirectory && e.name != "." && e.name != ".."
  }

  function ChildPath(path: string, e: Node): string
  {
    path + e.name + "\\"
  }

  /**
   * Every directory below `path` whose listing is `entries`, in depth-first
   * pre-order: the reference the walk is measured against.
   */
  function DirectoriesBelow(path: string, entries: seq<Node>): seq<string>
    decreases entries
  {
    if entries == [] then []
    else
      var e := entries[0];
      (if Descends(e) then [ChildPath(path, e)] + DirectoriesBelow(ChildPath(path, e), e.children) else [])
      + DirectoriesBelow(path, entries[1..])
  }

  /** The directories below a listing are those below each of its parts, in order. */
  lemma {:induction false} DirectoriesBelowAppend(path: string, entries1: seq<Node>, entries2: seq<Node>)
    ensures DirectoriesBelow(path, entries1 + entries2) == DirectoriesBelow(path, entries1) + DirectoriesBelow(path, entries2)
    decreases |entries1|
  {
    if entries1 == [] {
      assert entries1 + entries2 == entries2;
    } else {
      assert (entries1 + entries2)[1..] == entries1[1..] + entries2;
      DirectoriesBelowAppend(path, entries1[1..], entries2);
    }
  }

  /** Entries the walk skips (files, "." and "..") contribute nothing. */
  lemma SkippedEntriesIgnored(path: string, entries: seq<Node>, e: Node)
    requires !Descends(e)
    ensures DirectoriesBelow(path, entries + [e]) == DirectoriesBelow(path, entries)
  {
    DirectoriesBelowAppend(path, entries, [e]);
  }

  /** Every directory found below `path` is `path` followed by more text ending in a backslash. */
  lemma {:induction false} DirectoriesBelowExtendPath(path: string, entries: seq<Node>)
    ensures forall q :: q in DirectoriesBelow(path, entries) ==> path < q && q[|q| - 1] == '\\'
    decreases entries
  {
    if entries != [] {
      var e := entries[0];
      DirectoriesBelowExtendPath(path, entries[1..]);
      if Descends(e) {
        var c := ChildPath(path, e);
        DirectoriesBelowExtendPath(c, e.children);
        assert path < c by {
          assert c[..|path|] == path;
        }
      }
    }
  }

  /** A directory still to be listed: its path and what its listing returns. */
  datatype Pending = Pending(path: string, entries: seq<Node>)

  function ListingSize(entries: seq<Node>): nat
    decreases entries
  {
    if entries == [] then 0
    else 1 + ListingSize(entries[0].children) + ListingSize(entries[1..])
  }

  /** The size of what the stack still has to list; the top of the stack is its first element. */
  function StackSize(stack: seq<Pending>): nat
  {
    if stack == [] then 0
    else 1 + ListingSize(stack[0].entries) + StackSize(stack[1..])
  }

  /** The subdirectories a listing of `path` names, in listing order. */
  function SubdirectoryPaths(path: string, entries: seq<Node>): seq<string>
  {
    if entries == [] then []
    else (if Descends(entries[0]) then [ChildPath(path, entries[0])] else []) + SubdirectoryPaths(path, entries[1..])
  }

  /**
   * The order in which a last-in first-out walk finds the directories below
   * `path`: first the subdirectories its listing names, then everything below
   * the last of them, then below the one before it, and so on.
   */
  function WalkOrder(path: string, entries: seq<Node>): seq<string>
    decreases entries, 1
  {
    SubdirectoryPaths(path, entries) + SubtreesLastFirst(path, entries)
  }

  /** The walk orders of the subdirectories a listing names, from the last one to the first. */
  function SubtreesLastFirst(path: string, entries: seq<Node>): seq<string>
    decreases entries, 0
  {
    if entries == [] then []
    else
      var e := entries[0];
      SubtreesLastFirst(path, entries[1..]) + (if Descends(e) then WalkOrder(ChildPath(path, e), e.children) else [])
  }

  /** What the walk still finds from a stack, top first. */
  function StackWalkOrder(stack: seq<Pending>): seq<string>
  {
    if stack == [] then []
    else WalkOrder(stack[0].path, stack[0].entries) + StackWalkOrder(stack[1..])
  }

  /** The walk order is a reordering of the pre-order: every directory below `path`, each once. */
  lemma {:induction false} WalkOrderPermutesDirectoriesBelow(path: string, entries: seq<Node>)
    ensures multiset(WalkOrder(path, entries)) == multiset(DirectoriesBelow(path, entries))
    decreases entries
  {
    if entries != [] {
      var e := entries[0];
      WalkOrderPermutesDirectoriesBelow(path, entries[1..]);
      if Descends(e) {
        WalkOrderPermutesDirectoriesBelow(ChildPath(path, e), e.children);
      }
    }
  }

  /**
   * A base directory listing "a" (which holds "c") and then "b": the walk finds
   * a and b, then goes below b, then below a; the pre-order would put c before b.
   */
  lemma WalkIsLastInFirstOut()
    ensures var c := Node("c", true, 0, 0, []);
            var listing := [Node("a", true, 0, 0, [c]), Node("b", true, 0, 0, [])];
            && WalkOrder("r\\", listing) == ["r\\a\\", "r\\b\\", "r\\a\\c\\"]
            && DirectoriesBelow("r\\", listing) == ["r\\a\\", "r\\a\\c\\", "r\\b\\"]
  {
    var c := Node("c", true, 0, 0, []);
    var a, b := Node("a", true, 0, 0, [c]), Node("b", true, 0, 0, []);
    var listing := [a, b];
    assert listing[1..] == [b] && [b][1..] == [] && [c][1..] == [];
    assert ChildPath("r\\", a) == "r\\a\\" && ChildPath("r\\", b) == "r\\b\\";
    assert ChildPath("r\\a\\", c) == "r\\a\\c\\";
    assert WalkOrder("r\\a\\c\\", []) == [] && WalkOrder("r\\b\\", []) == [];
    assert SubdirectoryPaths("r\\a\\", [c]) == ["r\\a\\c\\"];
    assert SubtreesLastFirst("r\\a\\", [c]) == [];
    assert WalkOrder("r\\a\\", [c]) == ["r\\a\\c\\"];
    assert SubdirectoryPaths("r\\", [b]) == ["r\\b\\"];
    assert SubdirectoryPaths("r\\", listing) == ["r\\a\\"] + ["r\\b\\"];
    assert SubtreesLastFirst("r\\", [b]) == [];
    assert SubtreesLastFirst("r\\", listing) == [] + ["r\\a\\c\\"];
    assert DirectoriesBelow("r\\a\\", [c]) == ["r\\a\\c\\"];
    assert DirectoriesBelow("r\\", [b]) == ["r\\b\\"];
  }

  /**
   * The walk: `basePath` first, then every directory below it in the order a
   * stack yields them. The top of the stack is the front of the sequence.
   */
  method GetPathsBelow(basePath: string, listing: seq<Node>) returns (foundPaths: seq<string>)
    ensures foundPaths == [basePath] + WalkOrder(basePath, listing)
    ensures multiset(foundPaths) == multiset([basePath] + DirectoriesBelow(basePath, listing))
  {
    foundPaths := [basePath];
    var pathQueue := [Pending(basePath, listing)];
    assert pathQueue[1..] == [];
    while pathQueue != []
      invariant foundPaths + StackWalkOrder(pathQueue) == [basePath] + WalkOrder(basePath, listing)
      decreases StackSize(pathQueue)
    {
      var searchPath := pathQueue[0].path;
      var findData := pathQueue[0].entries;
      ghost var found, rest := foundPaths, pathQueue[1..];
      pathQueue := pathQueue[1..];
      foundPaths, pathQueue := PushSubdirectories(searchPath, findData, foundPaths, pathQueue);
      assert foundPaths + StackWalkOrder(pathQueue)
          == found + (SubdirectoryPaths(searchPath, findData) + SubtreesLastFirst(searchPath, findData)) + StackWalkOrder(rest);
    }
    WalkOrderPermutesDirectoriesBelow(basePath, listing);
  }

  /**
   * PushSubdirectories after the first j entries of a listing: the paths found
   * and the walk order of the stack, completed by what the rest of the listing
   * adds, give what the whole listing adds.
   */
  ghost predicate Listed(searchPath: string, findData: seq<Node>, j: nat, found: seq<string>, stack: seq<Pending>,
                         foundPaths: seq<string>, pathQueue: seq<Pending>)
  {
    && j <= |findData|
    && foundPaths + SubdirectoryPaths(searchPath, findData[j..]) == found + SubdirectoryPaths(searchPath, findData)
    && SubtreesLastFirst(searchPath, findData[j..]) + StackWalkOrder(pathQueue)
       == SubtreesLastFirst(searchPath, findData) + StackWalkOrder(stack)
    && StackSize(pathQueue) + ListingSize(findData[j..]) <= StackSize(stack) + ListingSize(findData)
  }

  /** Entry j is recorded and pushed when the walk descends into it, and skipped otherwise. */
  lemma ListedStep(searchPath: string, findData: seq<Node>, j: nat, found: seq<string>, stack: seq<Pending>,
                   foundPaths: seq<string>, pathQueue: seq<Pending>)
    requires j < |findData| && Listed(searchPath, findData, j, found, stack, foundPaths, pathQueue)
    ensures var e := findData[j];
            var child := Pending(ChildPath(searchPath, e), e.children);
            if Descends(e)
            then Listed(searchPath, findData, j + 1, found, stack, foundPaths + [child.path], [child] + pathQueue)
            else Listed(searchPath, findData, j + 1, found, stack, foundPaths, pathQueue)
  {
    FoundPathsStep(searchPath, findData, j, found, foundPaths);
    PendingOrderStep(searchPath, findData, j, stack, pathQueue);
    var e := findData[j];
    PushStep(Pending(ChildPath(searchPath, e), e.children), pathQueue);
    ListingStep(searchPath, findData, j);
  }

  /** The paths part of ListedStep. */
  lemma FoundPathsStep(searchPath: string, findData: seq<Node>, j: nat, found: seq<string>, foundPaths: seq<string>)
    requires j < |findData|
    requires foundPaths + SubdirectoryPaths(searchPath, findData[j..]) == found + SubdirectoryPaths(searchPath, findData)
    ensures var e := findData[j];
            (if Descends(e) then foundPaths + [ChildPath(searchPath, e)] else foundPaths)
            + SubdirectoryPaths(searchPath, findData[j + 1..]) == found + SubdirectoryPaths(searchPath, findData)
  {
    var e := findData[j];
    assert findData[j..][1..] == findData[j + 1..];
    var later := SubdirectoryPaths(searchPath, findData[j + 1..]);
    if Descends(e) {
      assert foundPaths + [ChildPath(searchPath, e)] + later == foundPaths + ([ChildPath(searchPath, e)] + later);
    } else {
      assert [] + later == later;
    }
  }

  /** The stack part of ListedStep. */
  lemma PendingOrderStep(searchPath: string, findData: seq<Node>, j: nat, stack: seq<Pending>, pathQueue: seq<Pending>)
    requires j < |findData|
    requires SubtreesLastFirst(searchPath, findData[j..]) + StackWalkOrder(pathQueue)
             == SubtreesLastFirst(searchPath, findData) + StackWalkOrder(stack)
    ensures var e := findData[j];
            SubtreesLastFirst(searchPath, findData[j + 1..])
            + (if Descends(e) then WalkOrder(ChildPath(searchPath, e), e.children) + StackWalkOrder(pathQueue)
               else StackWalkOrder(pathQueue))
            == SubtreesLastFirst(searchPath, findData) + StackWalkOrder(stack)
  {
    var e := findData[j];
    assert findData[j..][1..] == findData[j + 1..];
    var later := SubtreesLastFirst(searchPath, findData[j + 1..]);
    if Descends(e) {
      var w := WalkOrder(ChildPath(searchPath, e), e.children);
      assert later + (w + StackWalkOrder(pathQueue)) == (later + w) + StackWalkOrder(pathQueue);
    } else {
      assert later + [] == later;
    }
  }

  /**
   * One listing of the walk: each subdirectory is recorded as found and pushed
   * on the stack, so the last one named is listed next.
   */
  method PushSubdirectories(searchPath: string, findData: seq<Node>, found: seq<string>, stack: seq<Pending>)
    returns (foundPaths: seq<string>, pathQueue: seq<Pending>)
    ensures foundPaths == found + SubdirectoryPaths(searchPath, findData)
    ensures StackWalkOrder(pathQueue) == SubtreesLastFirst(searchPath, findData) + StackWalkOrder(stack)
    ensures StackSize(pathQueue) <= StackSize(stack) + ListingSize(findData)
  {
    foundPaths, pathQueue := found, stack;
    for j := 0 to |findData|
      invariant Listed(searchPath, findData, j, found, stack, foundPaths, pathQueue)
    {
      var entry := findData[j];
      ListedStep(searchPath, findData, j, found, stack, foundPaths, pathQueue);
      if entry.isDirectory && entry.name != "." && entry.name != ".." {
        var foundPath := searchPath + entry.name + "\\";
        foundPaths := foundPaths + [foundPath];
        pathQueue := [Pending(foundPath, entry.children)] + pathQueue;
      }
    }
    assert findData[|findData|..] == [];
  }

  /** Pushing a directory puts its walk order in front of the stack's, and its listing on the stack's size. */
  lemma PushStep(top: Pending, stack: seq<Pending>)
    ensures StackWalkOrder([top] + stack) == WalkOrder(top.path, top.entries) + StackWalkOrder(stack)
    ensures StackSize([top] + stack) == 1 + ListingSize(top.entries) + StackSize(stack)
  {
    assert ([top] + stack)[1..] == stack;
  }

  /** Peeling entry `j` off the rest of a listing. */
  lemma ListingStep(path: string, entries: seq<Node>, j: nat)
    requires j < |entries|
    ensures ListingSize(entries[j..]) == 1 + ListingSize(entries[j].children) + ListingSize(entries[j + 1..])
    ensures SubdirectoryPaths(path, entries[j..])
         == (if Descends(entries[j]) then [ChildPath(path, entries[j])] else []) + SubdirectoryPaths(path, entries[j + 1..])
    ensures SubtreesLastFirst(path, entries[j..])
         == SubtreesLastFirst(path, entries[j + 1..])
            + (if Descends(entries[j]) then WalkOrder(ChildPath(path, entries[j]), entries[j].children) else [])
  {
    assert entries[j..][1..] == entries[j + 1..];
  }

  // ---------------------------------------------------------------------------
  // GetSupportedFilesInfo (lines 167-196)
  // ---------------------------------------------------------------------------

  datatype FileInfo = FileInfo(name: string, size: nat)

  const TWO32: nat := 0x1_0000_0000

  /** nFileSizeHigh | nFileSizeLow: the halves are OR-ed, not shifted and added. */
  function ReportedSize(e: Node): (size: nat)
    ensures size < TWO32
  {
    OrOfWords(e.sizeHigh, e.sizeLow)
  }

  function OrOfWords(high: bv32, low: bv32): (size: nat)
    ensures size < TWO32
  {
    (high | low) as int
  }

  /** The size the file system reports in two 32-bit halves. */
  function TrueSize(e: Node): nat
  {
    WordsValue(e.sizeHigh, e.sizeLow)
  }

  function WordsValue(high: bv32, low: bv32): nat
  {
    high as int * TWO32 + low as int
  }

  lemma OrWithZero(low: bv32)
    ensures 0 | low == low
  {
  }

  lemma AtLeastOneWord(a: int)
    requires a >= 1
    ensures a * TWO32 >= TWO32
  {
  }

  lemma OrOfWordsExactIffHighZero(high: bv32, low: bv32)
    ensures OrOfWords(high, low) == WordsValue(high, low) <==> high == 0
  {
    var h := high as int;
    if high == 0 {
      OrWithZero(low);
      assert h == 0;
    } else {
      assert h >= 1;
      AtLeastOneWord(h);
    }
  }

  /** The reported size is the true size exactly when the file is smaller than 4 GiB. */
  lemma ReportedSizeExactIffSmall(e: Node)
    ensures ReportedSize(e) == TrueSize(e) <==> e.sizeHigh == 0
    ensures ReportedSize(e) == TrueSize(e) <==> TrueSize(e) < TWO32
  {
    OrOfWordsExactIffHighZero(e.sizeHigh, e.sizeLow);
    if e.sizeHigh != 0 {
      AtLeastOneWord(e.sizeHigh as int);
    }
  }

  /** FindFirstFileExW/FindNextFileW for a query string: the entries it enumerates. */
  type FindFiles = string -> seq<Node>

  /** The non-directory entries of one listing, named under `searchPath`. */
  function FilesIn(searchPath: string, entries: seq<Node>): (infos: seq<FileInfo>)
    ensures |infos| <= |entries|
  {
    if entries == [] then []
    else
      (if !entries[0].isDirectory then [FileInfo(searchPath + entries[0].name, ReportedSize(entries[0]))] else [])
      + FilesIn(searchPath, entries[1..])
  }

  function FilesForPatterns(find: FindFiles, searchPath: string, patterns: seq<string>): seq<FileInfo>
  {
    if patterns == [] then []
    else FilesIn(searchPath, find(searchPath + patterns[0])) + FilesForPatterns(find, searchPath, patterns[1..])
  }

  /** Search path by search path, and within one path pattern by pattern. */
  function FilesForPaths(find: FindFiles, searchPaths: seq<string>, patterns: seq<string>): seq<FileInfo>
  {
    if searchPaths == [] then []
    else FilesForPatterns(find, searchPaths[0], patterns) + FilesForPaths(find, searchPaths[1..], patterns)
  }

  /** Every listed file is named under its search path and reported below 4 GiB. */
  lemma {:induction false} FilesInNamedUnderPath(searchPath: string, entries: seq<Node>)
    ensures forall f :: f in FilesIn(searchPath, entries) ==> searchPath <= f.name && f.size < TWO32
  {
    if entries != [] {
      FilesInNamedUnderPath(searchPath, entries[1..]);
      assert searchPath <= searchPath + entries[0].name;
    }
  }

  /** Listing more search paths appends their files after the earlier ones: the order is path-major. */
  lemma {:induction false} FilesForPathsAppend(find: FindFiles, paths1: seq<string>, paths2: seq<string>, patterns: seq<string>)
    ensures FilesForPaths(find, paths1 + paths2, patterns)
            == FilesForPaths(find, paths1, patterns) + FilesForPaths(find, paths2, patterns)
    decreases |paths1|
  {
    if paths1 == [] {
      assert paths1 + paths2 == paths2;
    } else {
      assert (paths1 + paths2)[1..] == paths1[1..] + paths2;
      FilesForPathsAppend(find, paths1[1..], paths2, patterns);
    }
  }

  /** Directories in a listing never produce a file entry. */
  lemma {:induction false} DirectoriesNotListed(searchPath: string, entries: seq<Node>, e: Node)
    requires e.isDirectory
    ensures FilesIn(searchPath, [e] + entries) == FilesIn(searchPath, entries)
  {
    assert ([e] + entries)[1..] == entries;
  }

  /** The enumeration loop for one query: every non-directory entry, appended in order. */
  method AppendFiles(fileInfos: seq<FileInfo>, searchPath: string, findData: seq<Node>) returns (r: seq<FileInfo>)
    ensures r == fileInfos + FilesIn(searchPath, findData)
  {
    r := fileInfos;
    for k := 0 to |findData|
      invariant r + FilesIn(searchPath, findData[k..]) == fileInfos + FilesIn(searchPath, findData)
    {
      assert findData[k..][1..] == findData[k + 1..];
      if !findData[k].isDirectory {
        r := r + [FileInfo(searchPath + findData[k].name, ReportedSize(findData[k]))];
      }
    }
  }

  /** The pattern loop for one search path. */
  method AppendPatternFiles(fileInfos: seq<FileInfo>, find: FindFiles, searchPath: string, searchStrings: seq<string>)
    returns (r: seq<FileInfo>)
    ensures r == fileInfos + FilesForPatterns(find, searchPath, searchStrings)
  {
    r := fileInfos;
    for j := 0 to |searchStrings|
      invariant r + FilesForPatterns(find, searchPath, searchStrings[j..])
                == fileInfos + FilesForPatterns(find, searchPath, searchStrings)
    {
      assert searchStrings[j..][1..] == searchStrings[j + 1..];
      var findData := find(searchPath + searchStrings[j]);
      r := AppendFiles(r, searchPath, findData);
    }
  }

  /** The loop over search paths: each path's files, in path order. */
  method AppendPathFiles(find: FindFiles, searchPaths: seq<string>, searchStrings: seq<string>)
    returns (fileInfos: seq<FileInfo>)
    ensures fileInfos == FilesForPaths(find, searchPaths, searchStrings)
  {
    fileInfos := [];
    for i := 0 to |searchPaths|
      invariant fileInfos + FilesForPaths(find, searchPaths[i..], searchStrings)
                == FilesForPaths(find, searchPaths, searchStrings)
    {
      PathsStep(find, searchPaths, searchStrings, i);
      ghost var before := fileInfos;
      fileInfos := AppendPatternFiles(fileInfos, find, searchPaths[i], searchStrings);
      ConcatAssoc(before, FilesForPatterns(find, searchPaths[i], searchStrings), FilesForPaths(find, searchPaths[i + 1..], searchStrings));
    }
  }

  lemma ConcatAssoc<T>(a: seq<T>, b: seq<T>, c: seq<T>)
    ensures (a + b) + c == a + (b + c)
  {
  }

  lemma PathsStep(find: FindFiles, searchPaths: seq<string>, patterns: seq<string>, i: nat)
    requires i < |searchPaths|
    ensures FilesForPaths(find, searchPaths[i..], patterns)
         == FilesForPatterns(find, searchPaths[i], patterns) + FilesForPaths(find, searchPaths[i + 1..], patterns)
  {
    assert searchPaths[i..][1..] == searchPaths[i + 1..];
  }

  /** The files of every directory below `basePath` that match any of the patterns, path by path. */
  method GetSupportedFilesInfo(find: FindFiles, basePath: string, listing: seq<Node>, searchStrings: seq<string>)
    returns (fileInfos: seq<FileInfo>, ghost searchPaths: seq<string>)
    ensures searchPaths == [basePath] + WalkOrder(basePath, listing)
    ensures multiset(searchPaths) == multiset([basePath] + DirectoriesBelow(basePath, listing))
    ensures fileInfos == FilesForPaths(find, searchPaths, searchStrings)
  {
    var paths := GetPathsBelow(basePath, listing);
    searchPaths := paths;
    fileInfos := AppendPathFiles(find, paths, searchStrings);
  }
}
