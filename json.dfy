// The in-memory value model shared by the editor (types.ts is not part of
// this model; its shapes are read off their uses in App.tsx and the viewers),
// and the collaborators from utils/parserUtils and utils/jsonUtils, whose
// source is not part of this model either: they are passed in as functions.
module Json {
  import opened Results

  /** A parsed document. Numbers are integers here (see README). An object is
      its entries in enumeration order. */
  datatype JsonValue =
    | Null
    | Bool(b: bool)
    | Num(n: int)
    | Str(s: string)
    | Arr(items: seq<JsonValue>)
    | Obj(members: seq<Member>)

  datatype Member = Member(key: string, value: JsonValue)

  /** The four supported formats. */
  datatype Format = JsonFormat | Yaml | Xml | Csv

  /** The lower-case name of a format, as used in file extensions. */
  function FormatName(f: Format): string {
    match f
    case JsonFormat => "json"
    case Yaml => "yaml"
    case Xml => "xml"
    case Csv => "csv"
  }

  /** One step of a path into a value: an array index or an object key. */
  datatype PathKey = Index(i: nat) | Key(k: string)

  type Path = seq<PathKey>

  datatype SortOrder = Asc | Desc

  /** The keys of an object, in order (`Object.keys`). */
  function Keys(ms: seq<Member>): (ks: seq<string>)
    ensures |ks| == |ms| && forall i :: 0 <= i < |ms| ==> ks[i] == ms[i].key
  {
    seq(|ms|, i requires 0 <= i < |ms| => ms[i].key)
  }

  predicate DistinctKeys(ms: seq<Member>) {
    forall i, j :: 0 <= i < j < |ms| ==> ms[i].key != ms[j].key
  }

  /** Every object in the tree has distinct keys, as every JavaScript object does. */
  predicate WellFormed(v: JsonValue) {
    match v
    case Arr(items) => forall i :: 0 <= i < |items| ==> WellFormed(items[i])
    case Obj(ms) => DistinctKeys(ms) && forall i :: 0 <= i < |ms| ==> WellFormed(ms[i].value)
    case _ => true
  }

  /** The functions of utils/parserUtils and utils/jsonUtils the editor calls.
      A function that can throw returns a `Result` whose `Err` is the message. */
  datatype Codecs = Codecs(
    detectFormat: string -> Format,
    parseContent: (string, Format) -> Result<JsonValue>,
    stringifyContent: (JsonValue, Format) -> Result<string>,
    minifyContent: (JsonValue, Format) -> Result<string>,
    sortJson: (JsonValue, SortOrder) -> Result<JsonValue>,
    updateValueAtPath: (JsonValue, Path, JsonValue) -> Result<JsonValue>)
}
