/**
 * The offline packager (src/TextureConverter/TextureConverter.cpp): command-line
 * options, their validation, compression of one image's footprint bytes
 * (plain copy or an abstract codec), the exhaustive best-of search, chunked
 * writes, and the per-image loop that appends payloads and metadata records.
 */
module TextureConverter {
  import opened Wrappers
  import opened CompressionSupport

  // ---------------------------------------------------------------------------
  // Command-line options (wmain, lines 129-168)
  // ---------------------------------------------------------------------------

  datatype Options = Options(
    configFile: string,
    compressionFormat: string,
    compressionLevel: string,
    compressionExhaustive: string)

  const DefaultOptions: Options := Options("", "", "default", "")

  datatype OptionKey = ConfigFile | CompressionFormat | CompressionLevel | CompressionExhaustive

  /** The keys in the order wmain tries them on each argument. */
  const KeyOrder: seq<OptionKey> := [ConfigFile, CompressionFormat, CompressionLevel, CompressionExhaustive]

  function KeyText(k: OptionKey): string
  {
    match k
    case ConfigFile => "configFile="
    case CompressionFormat => "compressionFormat="
    case CompressionLevel => "compressionLevel="
    case CompressionExhaustive => "compressionExhaustive="
  }

  function Field(o: Options, k: OptionKey): string
  {
    match k
    case ConfigFile => o.configFile
    case CompressionFormat => o.compressionFormat
    case CompressionLevel => o.compressionLevel
    case CompressionExhaustive => o.compressionExhaustive
  }

  function SetField(o: Options, k: OptionKey, v: string): (r: Options)
    ensures Field(r, k) == v
    ensures forall k' :: k' != k ==> Field(r, k') == Field(o, k')
  {
    match k
    case ConfigFile => o.(configFile := v)
    case CompressionFormat => o.(compressionFormat := v)
    case CompressionLevel => o.(compressionLevel := v)
    case CompressionExhaustive => o.(compressionExhaustive := v)
  }

  predicate OccursAt(s: string, key: string, i: nat)
  {
    i + |key| <= |s| && s[i..i + |key|] == key
  }

  /** wcsstr: the first position at or after `from` where `key` occurs. */
  function FindSubstring(s: string, key: string, from: nat): (r: Option<nat>)
    requires from <= |s|
    ensures r.Some? ==> from <= r.value <= |s| && OccursAt(s, key, r.value)
    ensures r.Some? ==> forall j :: from <= j < r.value ==> !OccursAt(s, key, j)
    ensures r.None? ==> forall j :: from <= j <= |s| ==> !OccursAt(s, key, j)
    decreases |s| - from
  {
    if OccursAt(s, key, from) then Some(from)
    else if from == |s| then None
    else FindSubstring(s, key, from + 1)
  }

  /** wcschr: the first position at or after `from` holding `c`. */
  function FindChar(s: string, c: char, from: nat): (r: Option<nat>)
    requires from <= |s|
    ensures r.Some? ==> from <= r.value < |s| && s[r.value] == c
    ensures r.Some? ==> forall j :: from <= j < r.value ==> s[j] != c
    ensures r.None? ==> forall j :: from <= j < |s| ==> s[j] != c
    decreases |s| - from
  {
    if from == |s| then None
    else if s[from] == c then Some(from)
    else FindChar(s, c, from + 1)
  }

  /** The text after the first '=' at or after the match position. */
  function ValueFrom(arg: string, pos: nat): string
    requires pos <= |arg|
  {
    match FindChar(arg, '=', pos)
    case Some(e) => arg[e + 1..]
    case None => ""
  }

  /** The first key of `keys` found in `arg` after its leading '-', and the value that follows. */
  function MatchKeys(arg: string, keys: seq<OptionKey>): Option<(OptionKey, string)>
    requires 1 <= |arg|
  {
    if keys == [] then None
    else match FindSubstring(arg, KeyText(keys[0]), 1)
      case Some(p) => Some((keys[0], ValueFrom(arg, p)))
      case None => MatchKeys(arg, keys[1..])
  }

  /** What one argument sets: only arguments starting with '-' are looked at. */
  function Classify(arg: string): Option<(OptionKey, string)>
  {
    if |arg| == 0 || arg[0] != '-' then None else MatchKeys(arg, KeyOrder)
  }

  function ApplyArg(o: Options, arg: string): Options
  {
    match Classify(arg)
    case Some((k, v)) => SetField(o, k, v)
    case None => o
  }

  /** The options after reading `argv` from left to right. */
  function ParsedOptions(argv: seq<string>): Options
  {
    if argv == [] then DefaultOptions
    else ApplyArg(ParsedOptions(argv[..|argv| - 1]), argv[|argv| - 1])
  }

  /** The argument loop of wmain: each recognised option overwrites the string it names. */
  method ParseCommandLine(argv: seq<string>) returns (opts: Options)
    ensures opts == ParsedOptions(argv)
  {
    opts := DefaultOptions;
    for i := 0 to |argv|
      invariant opts == ParsedOptions(argv[..i])
    {
      assert argv[..i + 1][..i] == argv[..i];
      var arg := argv[i];
      if |arg| > 0 && arg[0] == '-' {
        var keys := KeyOrder;
        while keys != []
          invariant MatchKeys(arg, keys) == MatchKeys(arg, KeyOrder)
          decreases |keys|
        {
          var found := FindSubstring(arg, KeyText(keys[0]), 1);
          if found.Some? {
            opts := SetField(opts, keys[0], ValueFrom(arg, found.value));
            break;
          }
          keys := keys[1..];
        }
      }
    }
    assert argv[..|argv|] == argv;
  }

  /** Each key ends in its only '=', so an option's value is exactly the text after the key. */
  lemma ValueFollowsKey(arg: string, k: OptionKey, p: nat)
    requires 1 <= p && OccursAt(arg, KeyText(k), p)
    ensures ValueFrom(arg, p) == arg[p + |KeyText(k)|..]
  {
    var key := KeyText(k);
    var e := p + |key| - 1;
    assert arg[e] == key[|key| - 1] == '=';
    forall j | p <= j < e ensures arg[j] != '=' {
      assert arg[j] == key[j - p];
    }
    assert FindChar(arg, '=', p) == Some(e);
  }

  /** An option that no argument sets keeps its default. */
  lemma {:induction false} UnsetOptionKeepsDefault(argv: seq<string>, k: OptionKey)
    requires forall i :: 0 <= i < |argv| ==> Classify(argv[i]).None? || Classify(argv[i]).value.0 != k
    ensures Field(ParsedOptions(argv), k) == Field(DefaultOptions, k)
  {
    if argv != [] {
      UnsetOptionKeepsDefault(argv[..|argv| - 1], k);
    }
  }

  /** Later arguments override earlier ones: the last argument naming a key decides its value. */
  lemma {:induction false} LastOptionWins(argv: seq<string>, i: nat, k: OptionKey, v: string)
    requires i < |argv| && Classify(argv[i]) == Some((k, v))
    requires forall j :: i < j < |argv| ==> Classify(argv[j]).None? || Classify(argv[j]).value.0 != k
    ensures Field(ParsedOptions(argv), k) == v
  {
    if i < |argv| - 1 {
      LastOptionWins(argv[..|argv| - 1], i, k, v);
    }
  }

  // ---------------------------------------------------------------------------
  // Validation and resolution (lines 77-100, 170-198)
  // ---------------------------------------------------------------------------

  /**
   * An exhaustive string that round-trips accepts everything; otherwise the
   * format must round-trip, and for gdeflate so must the level.
   */
  function ValidateCompressionArgs(formatString: string, levelString: string, exhaustiveString: string): (ok: bool)
    ensures ok <==> exhaustiveString == "true" || exhaustiveString == "false"
                    || formatString == "none"
                    || (formatString == "gdeflate"
                        && (levelString == "default" || levelString == "fastest" || levelString == "best"))
  {
    if TranslateCompressionExhaustiveToString(TranslateCompressionExhaustiveToValue(exhaustiveString)) == exhaustiveString then
      true
    else
      var formatValue := TranslateCompressionFormatToValue(formatString);
      if TranslateCompressionFormatToString(formatValue) != formatString then false
      else if formatValue == FORMAT_GDEFLATE
              && TranslateCompressionLevelToStringGDeflate(TranslateCompressionLevelToValueGDeflate(levelString)) != levelString then
        false
      else true
  }

  datatype Settings = Settings(format: int, level: int, exhaustive: bool)

  /**
   * The settings wmain hands to ConvertImages, or None when it prints the usage
   * text and returns -1. The level is read only when the format is gdeflate.
   */
  function CompressionSettings(o: Options): (r: Option<Settings>)
    ensures r.None? <==> !ValidateCompressionArgs(o.compressionFormat, o.compressionLevel, o.compressionExhaustive)
    ensures r.Some? ==> (r.value.exhaustive <==> o.compressionExhaustive == "true" || o.compressionExhaustive == "1")
    ensures r.Some? && r.value.exhaustive ==> r.value.format == FORMAT_NONE && r.value.level == LEVEL_DEFAULT
    ensures r.Some? && !r.value.exhaustive ==>
              r.value.format == (if o.compressionFormat == "gdeflate" then FORMAT_GDEFLATE else FORMAT_NONE)
    ensures r.Some? && r.value.level != LEVEL_DEFAULT ==> r.value.format == FORMAT_GDEFLATE
    ensures r.Some? && !r.value.exhaustive && o.compressionFormat == "gdeflate" ==>
              r.value.level == TranslateCompressionLevelToValueGDeflate(o.compressionLevel)
    ensures r.Some? && r.value.format != FORMAT_GDEFLATE ==> r.value.level == LEVEL_DEFAULT
  {
    if !ValidateCompressionArgs(o.compressionFormat, o.compressionLevel, o.compressionExhaustive) then None
    else
      var exhaustive := if o.compressionExhaustive != "" then TranslateCompressionExhaustiveToValue(o.compressionExhaustive) else false;
      if exhaustive then Some(Settings(FORMAT_NONE, LEVEL_DEFAULT, true))
      else if o.compressionFormat == "" then Some(Settings(FORMAT_NONE, LEVEL_DEFAULT, false))
      else
        var format := TranslateCompressionFormatToValue(o.compressionFormat);
        var level := if format == FORMAT_GDEFLATE then TranslateCompressionLevelToValueGDeflate(o.compressionLevel) else LEVEL_DEFAULT;
        Some(Settings(format, level, false))
  }

  /** With no options at all the format string is "" and wmain rejects the command line. */
  lemma DefaultOptionsRejected()
    ensures CompressionSettings(ParsedOptions([])) == None
  {
  }

  /** Two command lines that differ only in the level resolve alike unless the format is gdeflate. */
  lemma LevelIgnoredUnlessGDeflate(o: Options, level: string)
    requires o.compressionFormat != "gdeflate"
    ensures CompressionSettings(o.(compressionLevel := level)) == CompressionSettings(o)
  {
  }

  // ---------------------------------------------------------------------------
  // Compress (lines 361-394)
  // ---------------------------------------------------------------------------

  /** What the GDeflate codec does for (format, level, source bytes). */
  datatype CodecOutcome =
    | CodecUnavailable
    | CompressFailed(bound: nat)
    | Compressed(bound: nat, output: seq<Byte>)

  type Codec = (int, int, seq<Byte>) -> CodecOutcome

  datatype CompressResult = CompressResult(size: int, buffer: seq<Byte>)

  /** std::vector::resize: keep the first n bytes, or append zeros. */
  function Resize(v: seq<Byte>, n: nat): (r: seq<Byte>)
    ensures |r| == n
    ensures forall i :: 0 <= i < n && i < |v| ==> r[i] == v[i]
    ensures forall i :: |v| <= i < n ==> r[i] == 0
  {
    if n <= |v| then v[..n] else v + seq(n - |v|, _ => 0 as Byte)
  }

  /** Whether the codec produced an output that fits the bound it reported. */
  predicate CodecSucceeds(o: CodecOutcome)
  {
    o.Compressed? && |o.output| <= o.bound
  }

  /**
   * Compress `src` into the buffer `dst`. For NONE `src` is copied to the
   * front and the buffer grows only when it is shorter than `src`.
   */
  function Compress(codec: Codec, format: int, level: int, dst: seq<Byte>, src: seq<Byte>): (r: CompressResult)
    ensures format == FORMAT_NONE ==>
              r.size == |src| && |r.buffer| == Max(|dst|, |src|)
              && r.buffer[..|src|] == src && r.buffer[|src|..] == dst[Min(|src|, |dst|)..]
    ensures format != FORMAT_NONE ==>
              r.size == (if CodecSucceeds(codec(format, level, src)) then |codec(format, level, src).output| else -1)
    ensures format != FORMAT_NONE && r.size >= 0 ==>
              r.size <= |r.buffer| && r.buffer[..r.size] == codec(format, level, src).output
  {
    if format != FORMAT_NONE then
      match codec(format, level, src)
      case CodecUnavailable => CompressResult(-1, dst)
      case CompressFailed(bound) => CompressResult(-1, Resize(dst, bound))
      case Compressed(bound, out) =>
        if |out| <= bound then
          var resized := Resize(dst, bound);
          var written := out + resized[|out|..];
          assert written[..|out|] == out;
          CompressResult(|out|, written)
        else CompressResult(-1, Resize(dst, bound))
    else
      var grown := if |dst| < |src| then Resize(dst, |src|) else dst;
      var copied := src + grown[|src|..];
      assert copied[..|src|] == src;
      CompressResult(|src|, copied)
  }

  // ---------------------------------------------------------------------------
  // CompressExhaustive (lines 332-358)
  // ---------------------------------------------------------------------------

  datatype Candidate = Candidate(format: int, level: int)

  /** format NONE..GDEFLATE, and for each, level FASTEST..BEST_RATIO. */
  const Candidates: seq<Candidate> := [
    Candidate(FORMAT_NONE, LEVEL_FASTEST), Candidate(FORMAT_NONE, LEVEL_DEFAULT), Candidate(FORMAT_NONE, LEVEL_BEST_RATIO),
    Candidate(FORMAT_GDEFLATE, LEVEL_FASTEST), Candidate(FORMAT_GDEFLATE, LEVEL_DEFAULT), Candidate(FORMAT_GDEFLATE, LEVEL_BEST_RATIO)]

  /** The size Compress reports for candidate k (it does not depend on the buffer passed in). */
  function CandidateSize(codec: Codec, src: seq<Byte>, k: nat): int
    requires k < |Candidates|
  {
    Compress(codec, Candidates[k].format, Candidates[k].level, [], src).size
  }

  function CandidateSizes(codec: Codec, src: seq<Byte>): (sizes: seq<int>)
    ensures |sizes| == |Candidates|
    ensures forall k :: 0 <= k < |Candidates| ==> sizes[k] == CandidateSize(codec, src, k)
  {
    [CandidateSize(codec, src, 0), CandidateSize(codec, src, 1), CandidateSize(codec, src, 2),
     CandidateSize(codec, src, 3), CandidateSize(codec, src, 4), CandidateSize(codec, src, 5)]
  }

  /** The bytes candidate k leaves at the front of its buffer. */
  function CandidatePayload(codec: Codec, src: seq<Byte>, k: nat): seq<Byte>
    requires k < |Candidates|
  {
    if Candidates[k].format == FORMAT_NONE then src
    else match codec(Candidates[k].format, Candidates[k].level, src)
      case Compressed(_, output) => output
      case _ => []
  }

  /** The loops visit the candidates in table order. */
  lemma CandidateAt(format: int, level: int)
    requires FORMAT_NONE <= format <= FORMAT_GDEFLATE && LEVEL_FASTEST <= level <= LEVEL_BEST_RATIO
    ensures 3 * format + level + 1 < |Candidates| && Candidates[3 * format + level + 1] == Candidate(format, level)
  {
  }

  /** Compress run on candidate k reports that candidate's size and leaves its payload at the front of the buffer. */
  lemma CompressIsCandidate(codec: Codec, buf: seq<Byte>, src: seq<Byte>, k: nat)
    requires k < |Candidates|
    ensures var c := Compress(codec, Candidates[k].format, Candidates[k].level, buf, src);
            c.size == CandidateSizes(codec, src)[k]
            && (c.size >= 0 ==> c.size <= |c.buffer| && c.buffer[..c.size] == CandidatePayload(codec, src, k))
  {
  }

  /** Whether a try may replace the best so far: the C++ program takes any size; skipping failures takes only sizes >= 0. */
  predicate Eligible(size: int, skipFailures: bool)
  {
    !skipFailures || size >= 0
  }

  function BestSize(sizes: seq<int>, pick: Option<nat>): int
  {
    if pick.Some? && pick.value < |sizes| then sizes[pick.value] else INT64_MAX
  }

  /**
   * The try that holds the smallest size after the first n tries, replacing
   * the best only on a strictly smaller size, starting from INT64_MAX.
   */
  function Pick(sizes: seq<int>, n: nat, skipFailures: bool): (r: Option<nat>)
    requires n <= |sizes|
    ensures r.Some? ==> r.value < n && Eligible(sizes[r.value], skipFailures) && sizes[r.value] < INT64_MAX
    ensures r.Some? ==> forall j :: 0 <= j < n && Eligible(sizes[j], skipFailures) ==> sizes[r.value] <= sizes[j]
    ensures r.Some? ==> forall j :: 0 <= j < r.value && Eligible(sizes[j], skipFailures) ==> sizes[r.value] < sizes[j]
    ensures r.None? ==> forall j :: 0 <= j < n && Eligible(sizes[j], skipFailures) ==> sizes[j] >= INT64_MAX
  {
    if n == 0 then None
    else
      var prev := Pick(sizes, n - 1, skipFailures);
      if Eligible(sizes[n - 1], skipFailures) && sizes[n - 1] < BestSize(sizes, prev) then Some(n - 1) else prev
  }

  /**
   * CompressExhaustive as the C++ program writes it: any reported size, -1 included,
   * replaces a larger best.
   */
  method CompressExhaustiveAsWritten(codec: Codec, dst: seq<Byte>, src: seq<Byte>, formatIn: int)
    returns (size: int, dstOut: seq<Byte>, formatOut: int)
    ensures var pick := Pick(CandidateSizes(codec, src), |Candidates|, false);
            size == BestSize(CandidateSizes(codec, src), pick)
            && formatOut == (if pick.Some? then Candidates[pick.value].format else formatIn)
  {
    ghost var sizes := CandidateSizes(codec, src);
    ghost var k := 0;
    ghost var best: Option<nat> := None;
    size, dstOut, formatOut := INT64_MAX, dst, formatIn;
    var temp: seq<Byte> := [];
    var format := FORMAT_NONE;
    while format <= FORMAT_GDEFLATE
      invariant FORMAT_NONE <= format <= FORMAT_GDEFLATE + 1 && k == 3 * format
      invariant best == Pick(sizes, k, false) && size == BestSize(sizes, best)
      invariant formatOut == if best.Some? then Candidates[best.value].format else formatIn
    {
      var level := LEVEL_FASTEST;
      while level <= LEVEL_BEST_RATIO
        invariant LEVEL_FASTEST <= level <= LEVEL_BEST_RATIO + 1 && k == 3 * format + level + 1
        invariant best == Pick(sizes, k, false) && size == BestSize(sizes, best)
        invariant formatOut == if best.Some? then Candidates[best.value].format else formatIn
      {
        CandidateAt(format, level);
        var c := Compress(codec, format, level, temp, src);
        CompressIsCandidate(codec, temp, src, k);
        temp := c.buffer;
        if c.size < size {
          size := c.size;
          dstOut := temp;
          temp := [];
          formatOut := format;
          best := Some(k);
        }
        k := k + 1;
        level := level + 1;
      }
      format := format + 1;
    }
  }

  /** A codec that cannot compress anything. */
  function FailingCodec(format: int, level: int, src: seq<Byte>): CodecOutcome
  {
    CodecUnavailable
  }

  /** As written, a failed gdeflate try (-1) is smaller than any real size and wins. */
  lemma AsWrittenFailureWins(src: seq<Byte>)
    requires |src| < INT64_MAX
    ensures var sizes := CandidateSizes(FailingCodec, src);
            var pick := Pick(sizes, |Candidates|, false);
            pick == Some(3) && BestSize(sizes, pick) == -1 && Candidates[3].format == FORMAT_GDEFLATE
  {
    var sizes := CandidateSizes(FailingCodec, src);
    assert sizes[0] == sizes[1] == sizes[2] == |src|;
    assert sizes[3] == sizes[4] == sizes[5] == -1;
  }

  /** Whether gdeflate at every level compresses `src` successfully. */
  predicate GDeflateSucceeds(codec: Codec, src: seq<Byte>)
  {
    && CodecSucceeds(codec(FORMAT_GDEFLATE, LEVEL_FASTEST, src))
    && CodecSucceeds(codec(FORMAT_GDEFLATE, LEVEL_DEFAULT, src))
    && CodecSucceeds(codec(FORMAT_GDEFLATE, LEVEL_BEST_RATIO, src))
  }

  /** Skipping failures changes nothing when none of the first n tries failed. */
  lemma {:induction false} PickIgnoresSkippingWithoutFailures(sizes: seq<int>, n: nat)
    requires n <= |sizes|
    requires forall j :: 0 <= j < n ==> sizes[j] >= 0
    ensures Pick(sizes, n, false) == Pick(sizes, n, true)
  {
    if n > 0 {
      PickIgnoresSkippingWithoutFailures(sizes, n - 1);
    }
  }

  /**
   * When every gdeflate try succeeds, the search as written and the search
   * that skips failures pick the same try: the two differ only on failures.
   */
  lemma AsWrittenAgreesWhenGDeflateSucceeds(codec: Codec, src: seq<Byte>)
    requires GDeflateSucceeds(codec, src)
    ensures Pick(CandidateSizes(codec, src), |Candidates|, false) == Pick(CandidateSizes(codec, src), |Candidates|, true)
  {
    var sizes := CandidateSizes(codec, src);
    assert sizes[0] >= 0 && sizes[1] >= 0 && sizes[2] >= 0;
    assert sizes[3] >= 0 && sizes[4] >= 0 && sizes[5] >= 0;
    PickIgnoresSkippingWithoutFailures(sizes, |Candidates|);
  }

  /**
   * As written, any failed gdeflate try makes the search report -1 and the
   * GDEFLATE format, whatever the other tries produced.
   */
  lemma AsWrittenReportsAnyFailure(codec: Codec, src: seq<Byte>)
    requires |src| < INT64_MAX && !GDeflateSucceeds(codec, src)
    ensures var sizes := CandidateSizes(codec, src);
            var pick := Pick(sizes, |Candidates|, false);
            pick.Some? && BestSize(sizes, pick) == -1 && Candidates[pick.value].format == FORMAT_GDEFLATE
  {
    var sizes := CandidateSizes(codec, src);
    var pick := Pick(sizes, |Candidates|, false);
    var k := if !CodecSucceeds(codec(FORMAT_GDEFLATE, LEVEL_FASTEST, src)) then 3
             else if !CodecSucceeds(codec(FORMAT_GDEFLATE, LEVEL_DEFAULT, src)) then 4 else 5;
    assert sizes[k] == -1;
    assert sizes[0] >= 0 && sizes[1] >= 0 && sizes[2] >= 0;
    assert sizes[3] >= -1 && sizes[4] >= -1 && sizes[5] >= -1;
  }

  /** The exhaustive search after its first k tries, failed tries skipped: the best try, its size, payload and format. */
  ghost predicate BestAfter(codec: Codec, src: seq<Byte>, k: nat, best: Option<nat>,
                            size: int, dstOut: seq<Byte>, formatOut: int)
  {
    && k <= |Candidates|
    && best == Pick(CandidateSizes(codec, src), k, true)
    && size == BestSize(CandidateSizes(codec, src), best)
    && (best.Some? ==> formatOut == Candidates[best.value].format
                       && 0 <= size <= |dstOut| && dstOut[..size] == CandidatePayload(codec, src, best.value))
  }

  /** One try of the exhaustive search: keep its buffer when it is a real payload strictly smaller than the best. */
  method TryCandidate(codec: Codec, src: seq<Byte>, format: int, level: int, temp: seq<Byte>,
                      size: int, dstOut: seq<Byte>, formatOut: int, ghost k: nat, ghost best: Option<nat>)
    returns (temp': seq<Byte>, size': int, dstOut': seq<Byte>, formatOut': int, ghost best': Option<nat>)
    requires |src| < INT64_MAX
    requires FORMAT_NONE <= format <= FORMAT_GDEFLATE && LEVEL_FASTEST <= level <= LEVEL_BEST_RATIO
    requires k == 3 * format + level + 1 && BestAfter(codec, src, k, best, size, dstOut, formatOut)
    ensures BestAfter(codec, src, k + 1, best', size', dstOut', formatOut')
  {
    CandidateAt(format, level);
    var c := Compress(codec, format, level, temp, src);
    CompressIsCandidate(codec, temp, src, k);
    temp', size', dstOut', formatOut', best' := c.buffer, size, dstOut, formatOut, best;
    if c.size >= 0 && c.size < size {
      size', dstOut', temp', formatOut', best' := c.size, c.buffer, [], format, Some(k);
    }
  }

  /**
   * CompressExhaustive with failed tries skipped. NONE is always tried and never
   * fails, so the result is a real payload no longer than the input.
   */
  method CompressExhaustive(codec: Codec, dst: seq<Byte>, src: seq<Byte>, formatIn: int)
    returns (size: int, dstOut: seq<Byte>, formatOut: int)
    requires |src| < INT64_MAX
    ensures var pick := Pick(CandidateSizes(codec, src), |Candidates|, true);
            pick.Some? && size == CandidateSizes(codec, src)[pick.value]
            && formatOut == Candidates[pick.value].format
            && 0 <= size <= |dstOut| && dstOut[..size] == CandidatePayload(codec, src, pick.value)
  {
    ghost var k: nat := 0;
    ghost var best: Option<nat> := None;
    size, dstOut, formatOut := INT64_MAX, dst, formatIn;
    var temp: seq<Byte> := [];
    var format := FORMAT_NONE;
    while format <= FORMAT_GDEFLATE
      invariant FORMAT_NONE <= format <= FORMAT_GDEFLATE + 1 && k == 3 * format
      invariant BestAfter(codec, src, k, best, size, dstOut, formatOut)
    {
      var level := LEVEL_FASTEST;
      while level <= LEVEL_BEST_RATIO
        invariant LEVEL_FASTEST <= level <= LEVEL_BEST_RATIO + 1 && k == 3 * format + level + 1
        invariant BestAfter(codec, src, k, best, size, dstOut, formatOut)
      {
        temp, size, dstOut, formatOut, best := TryCandidate(codec, src, format, level, temp, size, dstOut, formatOut, k, best);
        k := k + 1;
        level := level + 1;
      }
      format := format + 1;
    }
    assert CandidateSizes(codec, src)[0] == |src|;
  }

  /** The exhaustive result is never larger than storing the bytes uncompressed, and ties go to the earliest try. */
  lemma ExhaustiveNeverExceedsInput(codec: Codec, src: seq<Byte>)
    requires |src| < INT64_MAX
    ensures var sizes := CandidateSizes(codec, src);
            var pick := Pick(sizes, |Candidates|, true);
            pick.Some? && 0 <= sizes[pick.value] <= |src|
            && sizes[pick.value] <= Compress(codec, FORMAT_NONE, LEVEL_DEFAULT, [], src).size
  {
    var sizes := CandidateSizes(codec, src);
    assert sizes[0] == |src|;
  }

  // ---------------------------------------------------------------------------
  // Files and WriteDataToDisk (lines 280-328)
  // ---------------------------------------------------------------------------

  const MAXDWORD: nat := 0xFFFF_FFFF

  /** How the operating system answers one WriteFile call: failure, or success with a byte count. */
  datatype WriteAnswer = WriteFails | Wrote(count: nat)

  predicate NoFailures(answers: seq<WriteAnswer>)
  {
    forall k :: 0 <= k < |answers| ==> answers[k].Wrote?
  }

  /**
   * What one WriteFile call asking for `requested` elements reports: its
   * success flag and how many elements it wrote. Once the scripted answers
   * run out, every call writes all it was asked to.
   */
  function Answer(answers: seq<WriteAnswer>, requested: nat): (r: (bool, nat))
    ensures r.1 <= requested
    ensures !r.0 ==> r.1 == 0
  {
    if answers == [] then (true, requested)
    else match answers[0]
      case WriteFails => (false, 0)
      case Wrote(n) => (true, Min(n, requested))
  }

  /** What WriteDataToDisk's loop does with a script: elements written, whether it gave up, and the answers left. */
  datatype WriteRun = WriteRun(written: nat, failed: bool, rest: seq<WriteAnswer>)

  /**
   * The chunk loop of WriteDataToDisk over `remaining` elements: each call asks
   * for at most MAXDWORD, a short write is continued from where it stopped, and
   * the first failure ends the loop with what was already written left in place.
   */
  function Run(answers: seq<WriteAnswer>, remaining: nat): (r: WriteRun)
    ensures r.written <= remaining
    ensures !r.failed ==> r.written == remaining
    ensures |r.rest| <= |answers|
    ensures remaining == 0 ==> r == WriteRun(0, false, answers)
    decreases |answers|
  {
    if remaining == 0 then WriteRun(0, false, answers)
    else if answers == [] then WriteRun(remaining, false, [])
    else match answers[0]
      case WriteFails => WriteRun(0, true, answers[1..])
      case Wrote(n) =>
        var m := Min(n, Min(remaining, MAXDWORD));
        var next := Run(answers[1..], remaining - m);
        WriteRun(m + next.written, next.failed, next.rest)
  }

  /** A script with no failure in it never makes the loop give up, and what it leaves has none either. */
  lemma {:induction false} RunWithoutFailures(answers: seq<WriteAnswer>, remaining: nat)
    requires NoFailures(answers)
    ensures !Run(answers, remaining).failed && NoFailures(Run(answers, remaining).rest)
    decreases |answers|
  {
    if remaining > 0 && answers != [] {
      assert answers[0].Wrote?;
      var m := Min(answers[0].count, Min(remaining, MAXDWORD));
      assert NoFailures(answers[1..]) by {
        forall k | 0 <= k < |answers[1..]| ensures answers[1..][k].Wrote? {
          assert answers[1..][k] == answers[k + 1];
        }
      }
      RunWithoutFailures(answers[1..], remaining - m);
    }
  }

  /** One WriteFile call of the loop, as Run sees it. */
  lemma RunStep(answers: seq<WriteAnswer>, remaining: nat)
    requires remaining > 0
    ensures var n := Answer(answers, Min(remaining, MAXDWORD)).1;
            var after := if answers == [] then [] else answers[1..];
            && (!Answer(answers, Min(remaining, MAXDWORD)).0 ==> Run(answers, remaining) == WriteRun(0, true, after))
            && (Answer(answers, Min(remaining, MAXDWORD)).0 ==>
                  Run(answers, remaining) == WriteRun(n + Run(after, remaining - n).written,
                                                      Run(after, remaining - n).failed, Run(after, remaining - n).rest))
  {
  }

  /** Partway through the loop: what is left of the run, added to what was written, gives the whole run. */
  ghost predicate Progress(orig: seq<WriteAnswer>, byteCount: nat, answers: seq<WriteAnswer>, remaining: nat, written: nat)
  {
    var cur := Run(answers, remaining);
    Run(orig, byteCount) == WriteRun(written + cur.written, cur.failed, cur.rest)
  }

  /** One call of the loop keeps Progress, or ends the run as failed with what was written so far. */
  lemma ProgressStep(orig: seq<WriteAnswer>, byteCount: nat, answers: seq<WriteAnswer>, remaining: nat, written: nat,
                     ok: bool, n: nat, after: seq<WriteAnswer>)
    requires remaining > 0 && Progress(orig, byteCount, answers, remaining, written)
    requires (ok, n) == Answer(answers, Min(remaining, MAXDWORD))
    requires after == if answers == [] then [] else answers[1..]
    ensures n <= remaining
    ensures ok ==> Progress(orig, byteCount, after, remaining - n, written + n)
    ensures ok ==> |after| < |answers| || n > 0
    ensures !ok ==> Run(orig, byteCount) == WriteRun(written, true, after)
  {
    RunStep(answers, remaining);
  }

  /** A failure after a first full chunk leaves that chunk on disk and still reports -1. */
  lemma LateFailureKeepsEarlierChunks()
    ensures Run([Wrote(MAXDWORD), WriteFails], MAXDWORD + 1) == WriteRun(MAXDWORD, true, [])
  {
  }

  /** Short successful writes are continued until everything is written. */
  lemma ShortWritesAreContinued()
    ensures Run([Wrote(1), Wrote(0), Wrote(1)], 3) == WriteRun(3, false, [])
  {
  }

  /**
   * Successful writes of nothing are retried without limit: after any number
   * of them the loop still calls WriteFile, here to see it fail.
   */
  lemma {:induction false} ZeroByteWritesAreRetried(k: nat, remaining: nat)
    requires remaining > 0
    ensures Run(seq(k, _ => Wrote(0)) + [WriteFails], remaining) == WriteRun(0, true, [])
  {
    var script := seq(k, _ => Wrote(0)) + [WriteFails];
    if k > 0 {
      assert script[0] == Wrote(0);
      assert script[1..] == seq(k - 1, _ => Wrote(0)) + [WriteFails];
      ZeroByteWritesAreRetried(k - 1, remaining);
    } else {
      assert script == [WriteFails];
    }
  }

  /**
   * A file the packager writes sequentially. Elements are bytes for the data
   * file and whole records for the metadata file. `creatable` says how the
   * operating system will answer CreateFileW, and `answers` how it will answer
   * the coming WriteFile calls, one answer per call.
   */
  class OutputFile<T> {
    var contents: seq<T>
    var isOpen: bool
    var creatable: bool
    var answers: seq<WriteAnswer>

    constructor (creatable: bool, answers: seq<WriteAnswer>)
      ensures contents == [] && !isOpen && this.creatable == creatable && this.answers == answers
    {
      contents := [];
      isOpen := false;
      this.creatable := creatable;
      this.answers := answers;
    }

    /** WriteFile: writes the first `written` elements of the chunk as the next answer says, or fails. */
    method WriteFile(chunk: seq<T>) returns (ok: bool, written: nat)
      modifies this
      ensures (ok, written) == Answer(old(answers), |chunk|)
      ensures contents == old(contents) + chunk[..written]
      ensures answers == if old(answers) == [] then [] else old(answers)[1..]
      ensures isOpen == old(isOpen) && creatable == old(creatable)
    {
      ok, written := Answer(answers, |chunk|).0, Answer(answers, |chunk|).1;
      contents := contents + chunk[..written];
      if answers != [] {
        answers := answers[1..];
      }
    }
  }

  /** CreateFileOnDisk: open (and truncate) the file the first time it is needed. */
  method CreateFileOnDisk<T>(file: OutputFile<T>) returns (ok: bool)
    modifies file
    ensures ok <==> old(file.isOpen) || file.creatable
    ensures file.isOpen == ok
    ensures file.contents == if old(file.isOpen) || !ok then old(file.contents) else []
    ensures file.creatable == old(file.creatable) && file.answers == old(file.answers)
  {
    if !file.isOpen {
      if !file.creatable {
        return false;
      }
      file.isOpen := true;
      file.contents := [];
    }
    return true;
  }

  /** Appending the first n elements of the next chunk to a prefix gives a longer prefix. */
  lemma PrefixGrows<T>(data: seq<T>, written: nat, chunk: nat, n: nat)
    requires written + chunk <= |data| && n <= chunk
    ensures data[..written + n] == data[..written] + data[written..written + chunk][..n]
  {
  }

  /**
   * Write the first byteCount elements of `data` in chunks of at most MAXDWORD
   * and return the position before the write, or -1 if a write fails; a failed
   * write leaves the elements written before it in the file.
   */
  method WriteDataToDisk<T>(file: OutputFile<T>, data: seq<T>, byteCount: nat) returns (r: int)
    requires byteCount <= |data|
    modifies file
    ensures file.isOpen == old(file.isOpen) && file.creatable == old(file.creatable)
    ensures var run := Run(old(file.answers), byteCount);
            && file.answers == run.rest
            && file.contents == old(file.contents) + data[..run.written]
            && r == (if run.failed then -1 else |old(file.contents)|)
  {
    var position := |file.contents|;
    var written := 0;
    var bytesRemaining := byteCount;
    ghost var script, contents0 := file.answers, file.contents;
    while bytesRemaining > 0
      invariant 0 <= written <= byteCount && written + bytesRemaining == byteCount
      invariant file.contents == contents0 + data[..written]
      invariant file.isOpen == old(file.isOpen) && file.creatable == old(file.creatable)
      invariant Progress(script, byteCount, file.answers, bytesRemaining, written)
      decreases |file.answers|, bytesRemaining
    {
      var bytesToWrite := Min(bytesRemaining, MAXDWORD);
      ghost var answers := file.answers;
      var ok, n := file.WriteFile(data[written..written + bytesToWrite]);
      ProgressStep(script, byteCount, answers, bytesRemaining, written, ok, n, file.answers);
      if !ok {
        return -1;
      }
      PrefixGrows(data, written, bytesToWrite, n);
      bytesRemaining := bytesRemaining - n;
      written := written + n;
    }
    return position;
  }

  // ---------------------------------------------------------------------------
  // Alignment (lines 563-566)
  // ---------------------------------------------------------------------------

  /** The C++ program's mask (~4096 + 1) is ~4095: the AND clears the low twelve bits. */
  lemma MaskClearsLowTwelveBits(y: bv64)
    ensures y & (!(4096 as bv64) + 1) == y - y % 4096
  {
  }

  /** ((offset + 4095) & ~4095) - offset, with the AND written as rounding down to a multiple of 4096. */
  function AlignmentPadding(unalignedOffset: nat): (pad: nat)
    ensures pad < 4096
    ensures (unalignedOffset + pad) % 4096 == 0
    ensures unalignedOffset % 4096 == 0 ==> pad == 0
  {
    var roundedUp := unalignedOffset + 4095;
    (roundedUp - roundedUp % 4096) - unalignedOffset
  }

  // ---------------------------------------------------------------------------
  // ConvertImages (lines 397-575)
  // ---------------------------------------------------------------------------

  datatype Dimension = Texture2D | Texture3D

  /** What the image loader reports about a decoded image (IMG_INFO). */
  datatype ImageInfo = ImageInfo(width: nat, height: nat, depth: nat, arraySize: nat, mipMapCount: nat, format: int)

  datatype ResourceDesc = ResourceDesc(dimension: Dimension, width: nat, height: nat,
                                       depthOrArraySize: nat, mipLevels: nat, format: int)

  /** The D3D12 resource description built from the loader's info (lines 443-454). */
  function ResourceDescFor(info: ImageInfo): ResourceDesc
  {
    ResourceDesc(if info.depth > 1 then Texture3D else Texture2D, info.width, info.height,
                 Max(info.arraySize, info.depth), info.mipMapCount, info.format)
  }

  /**
   * A decoded image: its info and its pixels already laid out in the GPU copy
   * footprint; the footprint's total byte count is the length of that layout.
   */
  datatype DecodedImage = DecodedImage(info: ImageInfo, footprintBytes: seq<Byte>)

  /** An image name from the scene, and what the loader makes of it (None: it cannot be loaded). */
  datatype SourceImage = SourceImage(name: string, decoded: Option<DecodedImage>)

  /** DirectStorageSampleTextureMetadataHeader. */
  datatype MetadataRecord = MetadataRecord(
    resourceDesc: ResourceDesc,
    resourceSizeCompressed: int,
    resourceSizeUncompressed: nat,
    compressionFormat: int,
    resourceName: string,
    resourceOffset: int)

  /** wcsncpy into a fixed array of `capacity` characters, the last one forced to the terminator. */
  function TruncatedName(path: string, capacity: nat): (r: string)
    requires capacity >= 1
    ensures |r| == Min(|path|, capacity - 1)
    ensures r <= path
  {
    path[..Min(|path|, capacity - 1)]
  }

  /** The bytes and format that go to disk for one image, or the reason the conversion stops. */
  datatype Encoding = Encoded(payload: seq<Byte>, format: int) | CompressionFailed | EmptyPayload

  /**
   * Lines 509-541: exhaustive search, the configured codec (a failure stops the
   * conversion), or the footprint bytes as they are (empty stops the conversion).
   */
  function EncodeImage(codec: Codec, s: Settings, textureData: seq<Byte>): (e: Encoding)
    requires |textureData| < INT64_MAX
    ensures s.exhaustive ==> e.Encoded? && |e.payload| <= |textureData|
    ensures !s.exhaustive && s.format != FORMAT_NONE ==>
              (e.CompressionFailed? <==> !CodecSucceeds(codec(s.format, s.level, textureData)))
    ensures !s.exhaustive && s.format != FORMAT_NONE && e.Encoded? ==>
              e.payload == codec(s.format, s.level, textureData).output && e.format == s.format
    ensures !s.exhaustive && s.format == FORMAT_NONE ==>
              e == (if |textureData| == 0 then EmptyPayload else Encoded(textureData, FORMAT_NONE))
  {
    if s.exhaustive then
      var sizes := CandidateSizes(codec, textureData);
      var pick := Pick(sizes, |Candidates|, true);
      ExhaustiveNeverExceedsInput(codec, textureData);
      assert pick.Some?;
      Encoded(CandidatePayload(codec, textureData, pick.value), Candidates[pick.value].format)
    else if s.format != FORMAT_NONE then
      var c := Compress(codec, s.format, s.level, Resize([], |textureData|), textureData);
      if c.size == -1 then CompressionFailed else Encoded(c.buffer[..c.size], s.format)
    else if |textureData| == 0 then EmptyPayload
    else Encoded(textureData, FORMAT_NONE)
  }

  /** Every exhaustive payload has the size CompressExhaustive reports for it. */
  lemma {:induction false} ExhaustivePayloadHasReportedSize(codec: Codec, src: seq<Byte>)
    requires |src| < INT64_MAX
    ensures var pick := Pick(CandidateSizes(codec, src), |Candidates|, true);
            pick.Some? && |CandidatePayload(codec, src, pick.value)| == CandidateSizes(codec, src)[pick.value]
  {
    var sizes := CandidateSizes(codec, src);
    var pick := Pick(sizes, |Candidates|, true);
    assert sizes[0] == |src|;
    var k := pick.value;
    if Candidates[k].format != FORMAT_NONE {
      assert sizes[k] >= 0;
      assert CodecSucceeds(codec(Candidates[k].format, Candidates[k].level, src));
    }
  }

  /** The record written for an image whose payload landed at `offset`. */
  function RecordFor(baseDir: string, image: SourceImage, e: Encoding, offset: int, nameCapacity: nat): (r: MetadataRecord)
    requires image.decoded.Some? && e.Encoded? && nameCapacity >= 1
    ensures r.resourceSizeCompressed == |e.payload|
    ensures r.resourceSizeUncompressed == |image.decoded.value.footprintBytes|
    ensures r.resourceOffset == offset && r.compressionFormat == e.format
    ensures r.resourceName == TruncatedName(baseDir + image.name, nameCapacity)
  {
    MetadataRecord(ResourceDescFor(image.decoded.value.info), |e.payload|, |image.decoded.value.footprintBytes|,
                   e.format, TruncatedName(baseDir + image.name, nameCapacity), offset)
  }

  /** The images that have been converted, in increasing order, each one decoded. */
  ghost predicate ConvertedImages(images: seq<SourceImage>, converted: seq<nat>)
  {
    (forall k :: 0 <= k < |converted| ==>
       converted[k] < |images| && images[converted[k]].decoded.Some?
       && |images[converted[k]].decoded.value.footprintBytes| < INT64_MAX)
    && forall k, l :: 0 <= k < l < |converted| ==> converted[k] < converted[l]
  }

  /** After the first i images: `converted` lists, in order, exactly the decoded ones. */
  ghost predicate ConvertedBelow(images: seq<SourceImage>, converted: seq<nat>, i: nat)
  {
    && ConvertedImages(images, converted)
    && (converted == [] || converted[|converted| - 1] < i)
    && forall j :: 0 <= j < i && j < |images| && images[j].decoded.Some? ==> j in converted
  }

  /** Taking image i (when it is decoded) or skipping it (when it is not) moves ConvertedBelow to i + 1. */
  lemma ConvertedBelowNext(images: seq<SourceImage>, converted: seq<nat>, i: nat, take: bool)
    requires ConvertedBelow(images, converted, i) && i < |images|
    requires take <==> images[i].decoded.Some?
    requires take ==> |images[i].decoded.value.footprintBytes| < INT64_MAX
    ensures ConvertedBelow(images, if take then converted + [i] else converted, i + 1)
  {
    var c := if take then converted + [i] else converted;
    forall k | 0 <= k < |c|
      ensures c[k] < |images| && images[c[k]].decoded.Some? && |images[c[k]].decoded.value.footprintBytes| < INT64_MAX
    {
      if k < |converted| {
        assert c[k] == converted[k];
      }
    }
    forall k, l | 0 <= k < l < |c|
      ensures c[k] < c[l]
    {
      assert c[k] == converted[k];
      if l == |converted| {
        if k < |converted| - 1 {
          assert converted[k] < converted[|converted| - 1];
        }
      } else {
        assert c[l] == converted[l];
      }
    }
    forall j | 0 <= j < i + 1 && j < |images| && images[j].decoded.Some?
      ensures j in c
    {
      if j < i {
        var m :| 0 <= m < |converted| && converted[m] == j;
        assert c[m] == j;
      } else {
        assert c[|c| - 1] == j;
      }
    }
  }

  /**
   * Record r describes `image` and points at a 4096-aligned range of `data`
   * holding exactly the image's encoded payload.
   */
  ghost predicate ImageStored(codec: Codec, settings: Settings, baseDir: string, nameCapacity: nat,
                              image: SourceImage, r: MetadataRecord, data: seq<Byte>)
    requires image.decoded.Some? && |image.decoded.value.footprintBytes| < INT64_MAX && nameCapacity >= 1
  {
    var e := EncodeImage(codec, settings, image.decoded.value.footprintBytes);
    e.Encoded?
    && r == RecordFor(baseDir, image, e, r.resourceOffset, nameCapacity)
    && r.resourceOffset % 4096 == 0 && 0 <= r.resourceOffset
    && r.resourceOffset + |e.payload| <= |data|
    && data[r.resourceOffset..r.resourceOffset + |e.payload|] == e.payload
  }

  /** The two files after converting `converted`: one stored record per image, in order; the data file ends aligned. */
  ghost predicate Packaged(codec: Codec, settings: Settings, baseDir: string, nameCapacity: nat,
                           images: seq<SourceImage>, converted: seq<nat>,
                           records: seq<MetadataRecord>, data: seq<Byte>)
  {
    ConvertedImages(images, converted) && nameCapacity >= 1
    && |records| == |converted| && |data| % 4096 == 0
    && forall k :: 0 <= k < |converted| ==>
         ImageStored(codec, settings, baseDir, nameCapacity, images[converted[k]], records[k], data)
  }

  /** Appending one image's payload at the aligned end of the data file, then its record and the padding. */
  lemma {:induction false} PackagedAppend(codec: Codec, settings: Settings, baseDir: string, nameCapacity: nat,
                                          images: seq<SourceImage>, converted: seq<nat>,
                                          records: seq<MetadataRecord>, data: seq<Byte>,
                                          i: nat, payload: seq<Byte>, pad: seq<Byte>)
    requires Packaged(codec, settings, baseDir, nameCapacity, images, converted, records, data)
    requires i < |images| && images[i].decoded.Some? && |images[i].decoded.value.footprintBytes| < INT64_MAX
    requires converted == [] || converted[|converted| - 1] < i
    requires EncodeImage(codec, settings, images[i].decoded.value.footprintBytes).Encoded?
    requires EncodeImage(codec, settings, images[i].decoded.value.footprintBytes).payload == payload
    requires (|data| + |payload| + |pad|) % 4096 == 0
    ensures var e := EncodeImage(codec, settings, images[i].decoded.value.footprintBytes);
            Packaged(codec, settings, baseDir, nameCapacity, images, converted + [i],
                     records + [RecordFor(baseDir, images[i], e, |data|, nameCapacity)], data + payload + pad)
  {
    var e := EncodeImage(codec, settings, images[i].decoded.value.footprintBytes);
    var converted', records' := converted + [i], records + [RecordFor(baseDir, images[i], e, |data|, nameCapacity)];
    var data' := data + payload + pad;
    assert ConvertedImages(images, converted') by {
      forall k, l | 0 <= k < l < |converted'| ensures converted'[k] < converted'[l] {
        if l < |converted| {
          assert converted'[k] == converted[k] && converted'[l] == converted[l];
        } else {
          assert converted[k] <= converted[|converted| - 1];
        }
      }
    }
    forall k | 0 <= k < |converted'|
      ensures ImageStored(codec, settings, baseDir, nameCapacity, images[converted'[k]], records'[k], data')
    {
      if k < |converted| {
        var r := records[k];
        assert ImageStored(codec, settings, baseDir, nameCapacity, images[converted[k]], r, data);
        assert data'[r.resourceOffset..r.resourceOffset + r.resourceSizeCompressed]
               == data[r.resourceOffset..r.resourceOffset + r.resourceSizeCompressed];
      } else {
        assert data'[|data|..|data| + |payload|] == payload;
      }
    }
  }

  /**
   * Lines 509-541: produce the bytes to store for one image's footprint and the
   * format they are in, or fail as ConvertImages does.
   */
  method EncodeForDisk(codec: Codec, settings: Settings, compressionFormat: int, textureData: seq<Byte>)
    returns (ok: bool, gpuData: seq<Byte>, gpuDataSize: nat, formatOut: int)
    requires |textureData| < INT64_MAX
    requires !settings.exhaustive ==> compressionFormat == settings.format
    ensures var e := EncodeImage(codec, settings, textureData);
            (ok <==> e.Encoded?)
            && (ok ==> gpuDataSize <= |gpuData| && gpuData[..gpuDataSize] == e.payload && formatOut == e.format)
    ensures !settings.exhaustive ==> formatOut == compressionFormat
  {
    formatOut := compressionFormat;
    if settings.exhaustive {
      var size;
      size, gpuData, formatOut := CompressExhaustive(codec, [], textureData, compressionFormat);
      ExhaustivePayloadHasReportedSize(codec, textureData);
      return true, gpuData, size, formatOut;
    } else if compressionFormat != FORMAT_NONE {
      var c := Compress(codec, compressionFormat, settings.level, Resize([], |textureData|), textureData);
      if c.size == -1 {
        return false, [], 0, formatOut;
      }
      return true, c.buffer, c.size, formatOut;
    } else {
      gpuData := textureData;
      gpuDataSize := |gpuData|;
      if gpuDataSize == 0 {
        return false, gpuData, gpuDataSize, formatOut;
      }
      return true, gpuData, gpuDataSize, formatOut;
    }
  }

  /**
   * Lines 543-566: write the payload, then its record (whose offset is where the
   * payload went, or -1 when that write failed), then pad the data file to the
   * next 4096-byte boundary. A failed write does not stop the later ones.
   */
  method WriteImageToDisk(metaFile: OutputFile<MetadataRecord>, dataFile: OutputFile<Byte>,
                          desc: ResourceDesc, uncompressedSize: nat, format: int, name: string,
                          gpuData: seq<Byte>, gpuDataSize: nat, padBytes: seq<Byte>)
    returns (metadata: MetadataRecord)
    requires gpuDataSize <= |gpuData| && |padBytes| == 4096
    modifies metaFile, dataFile
    ensures metaFile.isOpen == old(metaFile.isOpen) && metaFile.creatable == old(metaFile.creatable)
    ensures dataFile.isOpen == old(dataFile.isOpen) && dataFile.creatable == old(dataFile.creatable)
    ensures var dataRun := Run(old(dataFile.answers), gpuDataSize);
            var metaRun := Run(old(metaFile.answers), 1);
            var padRun := Run(dataRun.rest, AlignmentPadding(|old(dataFile.contents)| + dataRun.written));
            && metadata == MetadataRecord(desc, gpuDataSize, uncompressedSize, format, name,
                                          if dataRun.failed then -1 else |old(dataFile.contents)|)
            && metaFile.contents == old(metaFile.contents) + [metadata][..metaRun.written]
            && metaFile.answers == metaRun.rest
            && dataFile.contents == old(dataFile.contents) + gpuData[..dataRun.written] + padBytes[..padRun.written]
            && dataFile.answers == padRun.rest
    ensures NoFailures(old(metaFile.answers)) && NoFailures(old(dataFile.answers)) ==>
              && NoFailures(metaFile.answers) && NoFailures(dataFile.answers)
              && metadata == MetadataRecord(desc, gpuDataSize, uncompressedSize, format, name, |old(dataFile.contents)|)
              && metaFile.contents == old(metaFile.contents) + [metadata]
              && dataFile.contents == old(dataFile.contents) + gpuData[..gpuDataSize]
                                      + padBytes[..AlignmentPadding(|old(dataFile.contents)| + gpuDataSize)]
  {
    ghost var data0, meta0 := dataFile.contents, metaFile.contents;
    ghost var dataRun := Run(dataFile.answers, gpuDataSize);
    ghost var metaRun := Run(metaFile.answers, 1);
    var textureDataOffsetOnDisk := WriteDataToDisk(dataFile, gpuData, gpuDataSize);
    metadata := MetadataRecord(desc, gpuDataSize, uncompressedSize, format, name, textureDataOffsetOnDisk);
    assert metaFile.contents == meta0 && metaRun == Run(metaFile.answers, 1);
    var _ := WriteDataToDisk(metaFile, [metadata], 1);
    assert dataFile.contents == data0 + gpuData[..dataRun.written] && dataFile.answers == dataRun.rest;
    PadToAlignment(dataFile, padBytes);
    if NoFailures(old(metaFile.answers)) && NoFailures(old(dataFile.answers)) {
      RunWithoutFailures(old(metaFile.answers), 1);
      RunWithoutFailures(old(dataFile.answers), gpuDataSize);
      RunWithoutFailures(dataRun.rest, AlignmentPadding(|data0| + dataRun.written));
    }
  }

  /** Lines 563-566: pad the data file from its current position to the next multiple of 4096. */
  method PadToAlignment(dataFile: OutputFile<Byte>, padBytes: seq<Byte>)
    requires |padBytes| == 4096
    modifies dataFile
    ensures dataFile.isOpen == old(dataFile.isOpen) && dataFile.creatable == old(dataFile.creatable)
    ensures var padRun := Run(old(dataFile.answers), AlignmentPadding(|old(dataFile.contents)|));
            && dataFile.contents == old(dataFile.contents) + padBytes[..padRun.written]
            && dataFile.answers == padRun.rest
  {
    var unalignedOffset := WriteDataToDisk(dataFile, [], 0);
    var dataAlignmentBytes := AlignmentPadding(unalignedOffset);
    var _ := WriteDataToDisk(dataFile, padBytes, dataAlignmentBytes);
  }

  /** No image converted: nothing written yet. */
  lemma PackagedEmpty(codec: Codec, settings: Settings, baseDir: string, nameCapacity: nat, images: seq<SourceImage>)
    requires nameCapacity >= 1
    ensures Packaged(codec, settings, baseDir, nameCapacity, images, [], [], [])
  {
  }

  /** Neither file will be refused a write. */
  predicate WritesSucceed(metaFile: OutputFile<MetadataRecord>, dataFile: OutputFile<Byte>)
    reads metaFile, dataFile
  {
    NoFailures(metaFile.answers) && NoFailures(dataFile.answers)
  }

  /**
   * Encode image i and append its payload, record and padding to the open files
   * (lines 509-566). Only the encoding can stop the conversion; failed writes
   * go unnoticed.
   */
  method AppendImage(codec: Codec, baseDir: string, images: seq<SourceImage>, i: nat, settings: Settings,
                     compressionFormat: int, nameCapacity: nat, padBytes: seq<Byte>,
                     metaFile: OutputFile<MetadataRecord>, dataFile: OutputFile<Byte>,
                     ghost converted: seq<nat>, ghost clean: bool)
    returns (ok: bool, formatOut: int)
    requires nameCapacity >= 1 && |padBytes| == 4096
    requires i < |images| && images[i].decoded.Some? && |images[i].decoded.value.footprintBytes| < INT64_MAX
    requires converted == [] || converted[|converted| - 1] < i
    requires !settings.exhaustive ==> compressionFormat == settings.format
    requires clean ==> WritesSucceed(metaFile, dataFile)
                       && Packaged(codec, settings, baseDir, nameCapacity, images, converted, metaFile.contents, dataFile.contents)
    modifies metaFile, dataFile
    ensures metaFile.creatable == old(metaFile.creatable) && dataFile.creatable == old(dataFile.creatable)
    ensures metaFile.isOpen == old(metaFile.isOpen) && dataFile.isOpen == old(dataFile.isOpen)
    ensures !settings.exhaustive ==> formatOut == compressionFormat
    ensures ok <==> EncodeImage(codec, settings, images[i].decoded.value.footprintBytes).Encoded?
    ensures !ok ==> metaFile.contents == old(metaFile.contents) && dataFile.contents == old(dataFile.contents)
                    && metaFile.answers == old(metaFile.answers) && dataFile.answers == old(dataFile.answers)
    ensures clean ==> WritesSucceed(metaFile, dataFile)
    ensures ok && clean ==>
              Packaged(codec, settings, baseDir, nameCapacity, images, converted + [i], metaFile.contents, dataFile.contents)
  {
    var image := images[i];
    var textureData := image.decoded.value.footprintBytes;
    var encoded, gpuData, gpuDataSize;
    encoded, gpuData, gpuDataSize, formatOut := EncodeForDisk(codec, settings, compressionFormat, textureData);
    if !encoded {
      return false, formatOut;
    }
    ghost var e := EncodeImage(codec, settings, textureData);
    ghost var metaBefore := metaFile.contents;
    ghost var dataBefore := dataFile.contents;
    var metadata := WriteImageToDisk(metaFile, dataFile, ResourceDescFor(image.decoded.value.info), |textureData|,
                                     formatOut, TruncatedName(baseDir + image.name, nameCapacity),
                                     gpuData, gpuDataSize, padBytes);
    if clean {
      assert metadata == RecordFor(baseDir, image, e, |dataBefore|, nameCapacity);
      PackagedAppend(codec, settings, baseDir, nameCapacity, images, converted, metaBefore, dataBefore,
                     i, e.payload, padBytes[..AlignmentPadding(|dataBefore| + gpuDataSize)]);
    }
    return true, formatOut;
  }

  /**
   * One iteration of the image loop for a decoded image: create the files if
   * this is the first image, then append the image. It stops the conversion
   * exactly when a file must be created and cannot be, or the image cannot be
   * encoded.
   */
  method ConvertImage(codec: Codec, baseDir: string, images: seq<SourceImage>, i: nat, settings: Settings,
                      compressionFormat: int, nameCapacity: nat, padBytes: seq<Byte>,
                      metaFile: OutputFile<MetadataRecord>, dataFile: OutputFile<Byte>,
                      ghost converted: seq<nat>, ghost clean: bool)
    returns (ok: bool, formatOut: int)
    requires nameCapacity >= 1 && |padBytes| == 4096
    requires i < |images| && images[i].decoded.Some? && |images[i].decoded.value.footprintBytes| < INT64_MAX
    requires ConvertedImages(images, converted) && (converted == [] || converted[|converted| - 1] < i)
    requires !settings.exhaustive ==> compressionFormat == settings.format
    requires converted == [] ==> !metaFile.isOpen && !dataFile.isOpen
    requires converted != [] ==> metaFile.isOpen && dataFile.isOpen
    requires clean ==> WritesSucceed(metaFile, dataFile)
    requires clean && converted != [] ==>
               Packaged(codec, settings, baseDir, nameCapacity, images, converted, metaFile.contents, dataFile.contents)
    modifies metaFile, dataFile
    ensures metaFile.creatable == old(metaFile.creatable) && dataFile.creatable == old(dataFile.creatable)
    ensures old(metaFile.isOpen) ==> metaFile.isOpen
    ensures old(dataFile.isOpen) ==> dataFile.isOpen
    ensures metaFile.isOpen ==> old(metaFile.isOpen) || metaFile.creatable
    ensures dataFile.isOpen ==> old(dataFile.isOpen) || dataFile.creatable
    ensures !settings.exhaustive ==> formatOut == compressionFormat
    ensures ok <==> (old(metaFile.isOpen) || metaFile.creatable) && (old(dataFile.isOpen) || dataFile.creatable)
                    && EncodeImage(codec, settings, images[i].decoded.value.footprintBytes).Encoded?
    ensures ok ==> metaFile.isOpen && dataFile.isOpen
    ensures !ok && converted != [] ==> metaFile.contents == old(metaFile.contents) && dataFile.contents == old(dataFile.contents)
    ensures clean ==> WritesSucceed(metaFile, dataFile)
    ensures ok && clean ==>
              Packaged(codec, settings, baseDir, nameCapacity, images, converted + [i], metaFile.contents, dataFile.contents)
  {
    formatOut := compressionFormat;
    ghost var metaReady, dataReady := metaFile.isOpen || metaFile.creatable, dataFile.isOpen || dataFile.creatable;
    var created := CreateFileOnDisk(metaFile);
    if !created {
      return false, formatOut;
    }
    created := CreateFileOnDisk(dataFile);
    if !created {
      return false, formatOut;
    }
    assert metaReady && dataReady;
    if converted == [] {
      PackagedEmpty(codec, settings, baseDir, nameCapacity, images);
      assert metaFile.contents == [] && dataFile.contents == [];
    } else {
      assert metaFile.contents == old(metaFile.contents) && dataFile.contents == old(dataFile.contents);
    }
    ok, formatOut := AppendImage(codec, baseDir, images, i, settings, compressionFormat, nameCapacity, padBytes,
                                 metaFile, dataFile, converted, clean);
    assert ok <==> EncodeImage(codec, settings, images[i].decoded.value.footprintBytes).Encoded?;
  }

  /**
   * Whether ConvertImages gets through all the images: every decodable image can
   * be encoded and, if there is one, both files can be created. Failed writes
   * play no part.
   */
  ghost predicate ConversionCompletes(codec: Codec, settings: Settings, images: seq<SourceImage>,
                                      metaCreatable: bool, dataCreatable: bool)
  {
    && (forall i :: 0 <= i < |images| && images[i].decoded.Some? && |images[i].decoded.value.footprintBytes| < INT64_MAX ==>
          EncodeImage(codec, settings, images[i].decoded.value.footprintBytes).Encoded?)
    && ((exists i :: 0 <= i < |images| && images[i].decoded.Some?) ==> metaCreatable && dataCreatable)
  }

  /** A decodable image that cannot be encoded, or a file that cannot be created, stops the conversion. */
  lemma IncompleteOnFailure(codec: Codec, settings: Settings, images: seq<SourceImage>, i: nat,
                            metaCreatable: bool, dataCreatable: bool)
    requires i < |images| && images[i].decoded.Some? && |images[i].decoded.value.footprintBytes| < INT64_MAX
    requires !(metaCreatable && dataCreatable &&
               EncodeImage(codec, settings, images[i].decoded.value.footprintBytes).Encoded?)
    ensures !ConversionCompletes(codec, settings, images, metaCreatable, dataCreatable)
  {
  }

  /**
   * The state of the image loop after the first i images: `converted` lists the
   * decoded ones, each of which could be encoded; the files are open exactly
   * when an image has been converted, and only if they could be created; while
   * every write has gone through, the files describe the converted images.
   */
  ghost predicate ConversionSoFar(codec: Codec, settings: Settings, baseDir: string, nameCapacity: nat,
                                  images: seq<SourceImage>, converted: seq<nat>, i: nat, clean: bool,
                                  metaFile: OutputFile<MetadataRecord>, dataFile: OutputFile<Byte>)
    reads metaFile, dataFile
  {
    && i <= |images|
    && ConvertedBelow(images, converted, i)
    && (metaFile.isOpen ==> metaFile.creatable) && (dataFile.isOpen ==> dataFile.creatable)
    && (forall j :: 0 <= j < i && images[j].decoded.Some? && |images[j].decoded.value.footprintBytes| < INT64_MAX ==>
          EncodeImage(codec, settings, images[j].decoded.value.footprintBytes).Encoded?)
    && (converted == [] ==> !metaFile.isOpen && !dataFile.isOpen)
    && (converted != [] ==> metaFile.isOpen && dataFile.isOpen)
    && (clean ==> WritesSucceed(metaFile, dataFile))
    && (clean && converted != [] ==>
          Packaged(codec, settings, baseDir, nameCapacity, images, converted, metaFile.contents, dataFile.contents))
  }

  /**
   * One pass of the image loop: skip image i if it was not decoded, otherwise
   * convert it. On false the loop stops, and the conversion cannot have
   * completed.
   */
  method ConvertStep(codec: Codec, baseDir: string, images: seq<SourceImage>, i: nat, settings: Settings,
                     compressionFormat: int, nameCapacity: nat, padBytes: seq<Byte>,
                     metaFile: OutputFile<MetadataRecord>, dataFile: OutputFile<Byte>,
                     ghost converted: seq<nat>, ghost clean: bool)
    returns (ok: bool, formatOut: int, ghost convertedOut: seq<nat>)
    requires nameCapacity >= 1 && |padBytes| == 4096 && i < |images|
    requires images[i].decoded.Some? ==> |images[i].decoded.value.footprintBytes| < INT64_MAX
    requires !settings.exhaustive ==> compressionFormat == settings.format
    requires ConversionSoFar(codec, settings, baseDir, nameCapacity, images, converted, i, clean, metaFile, dataFile)
    modifies metaFile, dataFile
    ensures metaFile.creatable == old(metaFile.creatable) && dataFile.creatable == old(dataFile.creatable)
    ensures !settings.exhaustive ==> formatOut == compressionFormat
    ensures ok ==> ConversionSoFar(codec, settings, baseDir, nameCapacity, images, convertedOut, i + 1, clean,
                                   metaFile, dataFile)
    ensures !ok ==> convertedOut == converted && images[i].decoded.Some?
    ensures !ok ==> !ConversionCompletes(codec, settings, images, metaFile.creatable, dataFile.creatable)
    ensures !ok && converted != [] ==> metaFile.isOpen && dataFile.isOpen
    ensures !ok && clean && converted != [] ==>
              Packaged(codec, settings, baseDir, nameCapacity, images, converted, metaFile.contents, dataFile.contents)
  {
    formatOut := compressionFormat;
    convertedOut := converted;
    if images[i].decoded.None? {
      // The loader cannot read this image: skip it.
      ConvertedBelowNext(images, converted, i, false);
      return true, formatOut, convertedOut;
    }
    ok, formatOut := ConvertImage(codec, baseDir, images, i, settings, compressionFormat,
                                  nameCapacity, padBytes, metaFile, dataFile, converted, clean);
    if !ok {
      IncompleteOnFailure(codec, settings, images, i, metaFile.creatable, dataFile.creatable);
      return;
    }
    ConvertedBelowNext(images, converted, i, true);
    convertedOut := converted + [i];
  }

  /** Once every image has been through the loop, the conversion has completed and every decoded image is converted. */
  lemma ConversionSoFarComplete(codec: Codec, settings: Settings, baseDir: string, nameCapacity: nat,
                                images: seq<SourceImage>, converted: seq<nat>, clean: bool,
                                metaFile: OutputFile<MetadataRecord>, dataFile: OutputFile<Byte>)
    requires ConversionSoFar(codec, settings, baseDir, nameCapacity, images, converted, |images|, clean, metaFile, dataFile)
    ensures ConversionCompletes(codec, settings, images, metaFile.creatable, dataFile.creatable)
    ensures forall i :: 0 <= i < |images| && images[i].decoded.Some? ==> i in converted
  {
    if exists j :: 0 <= j < |images| && images[j].decoded.Some? {
      var j :| 0 <= j < |images| && images[j].decoded.Some?;
      assert j in converted;
    }
  }

  /**
   * Convert the images of one scene. `baseDir` is the scene file's directory
   * with a trailing backslash; `padBytes` is the uninitialised stack buffer
   * whose bytes pad the data file. A decoding failure skips the image; a file
   * that cannot be created, a failed compression or an empty payload stops
   * the conversion with false. When no write is refused, the files describe
   * every converted image.
   */
  method ConvertImages(codec: Codec, baseDir: string, images: seq<SourceImage>, settings: Settings,
                       nameCapacity: nat, padBytes: seq<Byte>,
                       metaFile: OutputFile<MetadataRecord>, dataFile: OutputFile<Byte>)
    returns (ok: bool, ghost converted: seq<nat>)
    requires nameCapacity >= 1 && |padBytes| == 4096
    requires forall i :: 0 <= i < |images| && images[i].decoded.Some? ==>
               |images[i].decoded.value.footprintBytes| < INT64_MAX
    requires !metaFile.isOpen && !dataFile.isOpen
    modifies metaFile, dataFile
    ensures ConvertedImages(images, converted)
    ensures ok <==> ConversionCompletes(codec, settings, images, metaFile.creatable, dataFile.creatable)
    ensures ok ==> forall i :: 0 <= i < |images| && images[i].decoded.Some? ==> i in converted
    ensures ok && converted == [] ==> !metaFile.isOpen && !dataFile.isOpen
    ensures converted != [] ==> metaFile.isOpen && dataFile.isOpen
    ensures old(WritesSucceed(metaFile, dataFile)) && converted != [] ==>
              Packaged(codec, settings, baseDir, nameCapacity, images, converted, metaFile.contents, dataFile.contents)
  {
    converted := [];
    ghost var clean := WritesSucceed(metaFile, dataFile);
    var compressionFormat := settings.format;
    for i := 0 to |images|
      invariant !settings.exhaustive ==> compressionFormat == settings.format
      invariant metaFile.creatable == old(metaFile.creatable) && dataFile.creatable == old(dataFile.creatable)
      invariant ConversionSoFar(codec, settings, baseDir, nameCapacity, images, converted, i, clean, metaFile, dataFile)
    {
      var stepped;
      stepped, compressionFormat, converted := ConvertStep(codec, baseDir, images, i, settings, compressionFormat,
                                                           nameCapacity, padBytes, metaFile, dataFile, converted, clean);
      if !stepped {
        return false, converted;
      }
    }
    ConversionSoFarComplete(codec, settings, baseDir, nameCapacity, images, converted, clean, metaFile, dataFile);
    ok := true;
  }
}
