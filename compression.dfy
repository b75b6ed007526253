/**
 * Translation between the compression options' names and their DirectStorage
 * enum values (src/Common/CompressionSupport.cpp). Every table is searched
 * front to back and the first match wins; when nothing matches, the first
 * slot of the table is the answer.
 */
module CompressionSupport {

  /** DSTORAGE_COMPRESSION_FORMAT values. */
  const FORMAT_NONE: int := 0
  const FORMAT_GDEFLATE: int := 1

  /** DSTORAGE_COMPRESSION values. */
  const LEVEL_FASTEST: int := -1
  const LEVEL_DEFAULT: int := 0
  const LEVEL_BEST_RATIO: int := 1

  datatype ArgPair<V> = ArgPair(argString: string, argValue: V)

  const FormatTable: seq<ArgPair<int>> :=
    [ArgPair("none", FORMAT_NONE), ArgPair("gdeflate", FORMAT_GDEFLATE)]

  /**
   * Declared with four slots but given three initialisers: the fourth slot is
   * value-initialised to the empty name and the value 0, which is DEFAULT.
   */
  const LevelTable: seq<ArgPair<int>> :=
    [ArgPair("default", LEVEL_DEFAULT), ArgPair("fastest", LEVEL_FASTEST),
     ArgPair("best", LEVEL_BEST_RATIO), ArgPair("", 0)]

  const ExhaustiveTable: seq<ArgPair<bool>> :=
    [ArgPair("false", false), ArgPair("true", true), ArgPair("0", false), ArgPair("1", true)]

  /** A slot matches when its name has the same length as the string and then equals it. */
  predicate NameMatches(entry: string, s: string)
  {
    |entry| == |s| && entry == s
  }

  /** Index of the first slot at or after `from` holding `v`, or |table| when there is none. */
  function IndexOfValue<V(==)>(table: seq<ArgPair<V>>, v: V, from: nat): (k: nat)
    requires from <= |table|
    ensures from <= k <= |table|
    ensures k < |table| ==> table[k].argValue == v
    ensures forall j :: from <= j < k ==> table[j].argValue != v
    decreases |table| - from
  {
    if from == |table| then from
    else if table[from].argValue == v then from
    else IndexOfValue(table, v, from + 1)
  }

  /** Index of the first slot at or after `from` whose name is `s`, or |table| when there is none. */
  function IndexOfName<V>(table: seq<ArgPair<V>>, s: string, from: nat): (k: nat)
    requires from <= |table|
    ensures from <= k <= |table|
    ensures k < |table| ==> table[k].argString == s
    ensures forall j :: from <= j < k ==> table[j].argString != s
    decreases |table| - from
  {
    if from == |table| then from
    else if NameMatches(table[from].argString, s) then from
    else IndexOfName(table, s, from + 1)
  }

  /** Value-to-name lookup shared by the three Translate*ToString functions. */
  function NameOf<V(==)>(table: seq<ArgPair<V>>, v: V): (r: string)
    requires |table| > 0
    ensures (exists j :: 0 <= j < |table| && table[j].argValue == v) ==>
              r == table[IndexOfValue(table, v, 0)].argString
    ensures (forall j :: 0 <= j < |table| ==> table[j].argValue != v) ==> r == table[0].argString
  {
    var k := IndexOfValue(table, v, 0);
    if k < |table| then table[k].argString else table[0].argString
  }

  /** Name-to-value lookup shared by the three Translate*ToValue functions. */
  function ValueOf<V>(table: seq<ArgPair<V>>, s: string): (r: V)
    requires |table| > 0
    ensures (exists j :: 0 <= j < |table| && table[j].argString == s) ==>
              r == table[IndexOfName(table, s, 0)].argValue
    ensures (forall j :: 0 <= j < |table| ==> table[j].argString != s) ==> r == table[0].argValue
  {
    var k := IndexOfName(table, s, 0);
    if k < |table| then table[k].argValue else table[0].argValue
  }

  function TranslateCompressionFormatToString(v: int): (r: string)
    ensures r == (if v == FORMAT_GDEFLATE then "gdeflate" else "none")
  {
    assert FormatTable[1].argValue == FORMAT_GDEFLATE;
    NameOf(FormatTable, v)
  }

  function TranslateCompressionFormatToValue(s: string): (r: int)
    ensures r == (if s == "gdeflate" then FORMAT_GDEFLATE else FORMAT_NONE)
  {
    assert FormatTable[1].argString == "gdeflate";
    ValueOf(FormatTable, s)
  }

  function TranslateCompressionLevelToStringGDeflate(v: int): (r: string)
    ensures r == (if v == LEVEL_FASTEST then "fastest"
                  else if v == LEVEL_BEST_RATIO then "best"
                  else "default")
  {
    assert LevelTable[1].argValue == LEVEL_FASTEST;
    assert LevelTable[2].argValue == LEVEL_BEST_RATIO;
    NameOf(LevelTable, v)
  }

  function TranslateCompressionLevelToValueGDeflate(s: string): (r: int)
    ensures r == (if s == "fastest" then LEVEL_FASTEST
                  else if s == "best" then LEVEL_BEST_RATIO
                  else LEVEL_DEFAULT)
  {
    assert LevelTable[1].argString == "fastest";
    assert LevelTable[2].argString == "best";
    assert LevelTable[3].argString == "";
    ValueOf(LevelTable, s)
  }

  function TranslateCompressionExhaustiveToString(b: bool): (r: string)
    ensures r == (if b then "true" else "false")
  {
    assert ExhaustiveTable[1].argValue;
    NameOf(ExhaustiveTable, b)
  }

  function TranslateCompressionExhaustiveToValue(s: string): (r: bool)
    ensures r <==> s == "true" || s == "1"
  {
    assert ExhaustiveTable[1].argString == "true";
    assert ExhaustiveTable[2].argString == "0";
    assert ExhaustiveTable[3].argString == "1";
    ValueOf(ExhaustiveTable, s)
  }

  /** The two known formats survive value -> name -> value; any other value comes back as NONE. */
  lemma FormatValueRoundTrip(v: int)
    ensures TranslateCompressionFormatToValue(TranslateCompressionFormatToString(v)) == v
            <==> v == FORMAT_NONE || v == FORMAT_GDEFLATE
  {
  }

  /** name -> value -> name gives the name back exactly for "none" and "gdeflate". */
  lemma FormatNameRoundTrip(s: string)
    ensures TranslateCompressionFormatToString(TranslateCompressionFormatToValue(s)) == s
            <==> s == "none" || s == "gdeflate"
  {
  }

  /** The empty level name is found in the value-initialised fourth slot, not by the fallback. */
  lemma LevelEmptyNameMatchesFourthSlot()
    ensures IndexOfName(LevelTable, "", 0) == 3
    ensures TranslateCompressionLevelToValueGDeflate("") == LEVEL_DEFAULT
  {
    assert LevelTable[0].argString != "";
    assert LevelTable[1].argString != "";
    assert LevelTable[2].argString != "";
    assert LevelTable[3].argString == "";
  }

  /** DEFAULT is held by slots 0 and 3; the first match, "default", is the answer. */
  lemma LevelDefaultNamedByFirstSlot()
    ensures IndexOfValue(LevelTable, LEVEL_DEFAULT, 0) == 0
    ensures TranslateCompressionLevelToStringGDeflate(LEVEL_DEFAULT) == "default"
  {
  }

  /** name -> value -> name gives the name back exactly for the three documented level names. */
  lemma LevelNameRoundTrip(s: string)
    ensures TranslateCompressionLevelToStringGDeflate(TranslateCompressionLevelToValueGDeflate(s)) == s
            <==> s == "default" || s == "fastest" || s == "best"
  {
  }

  /** "true"/"false" round-trip; "1"/"0" parse but are printed back as "true"/"false". */
  lemma ExhaustiveNameRoundTrip(s: string)
    ensures TranslateCompressionExhaustiveToString(TranslateCompressionExhaustiveToValue(s)) == s
            <==> s == "true" || s == "false"
  {
  }
}
