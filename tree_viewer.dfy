// The pure logic of the tree view (components/TreeViewer.tsx): the
// JavaScript accessor shown for a node's path, the context-menu highlight
// test, and the choice between the error, empty and tree states.
module PathDisplay {
  import opened Results
  import opened Json
  import opened Text

  // ---------------------------------------------------------------------------
  // generatePathString
  // ---------------------------------------------------------------------------

  predicate IsIdentifierStart(c: char) {
    'a' <= c <= 'z' || 'A' <= c <= 'Z' || c == '_' || c == '$'
  }

  predicate IsIdentifierPart(c: char) {
    IsIdentifierStart(c) || IsDigit(c)
  }

  /** The key matches `^[a-zA-Z_$][a-zA-Z0-9_$]*$`. */
  predicate IsIdentifier(k: string) {
    |k| >= 1 && IsIdentifierStart(k[0]) && forall i :: 1 <= i < |k| ==> IsIdentifierPart(k[i])
  }

  /** One step of the `reduce`: the accessor so far, extended by the key at
      position `i`. An identifier at position 0 replaces the (empty)
      accumulator. */
  function Step(acc: string, key: PathKey, i: nat): string {
    match key
    case Index(n) => acc + "[" + NatToString(n) + "]"
    case Key(k) =>
      if IsIdentifier(k) then (if i == 0 then k else acc + "." + k)
      else acc + "[\"" + k + "\"]"
  }

  /** `generatePathString`: the empty string for the root, otherwise the
      left fold of `Step` over the path, starting from "". */
  function PathString(path: Path): string {
    if path == [] then "" else Step(PathString(path[..|path| - 1]), path[|path| - 1], |path| - 1)
  }

  /** The accessor text one key contributes at position `i`: `[n]` for an
      index, `key` or `.key` for an identifier, `["key"]` otherwise. The key
      is quoted as it is, without escaping. */
  function Segment(key: PathKey, i: nat): string {
    match key
    case Index(n) => "[" + NatToString(n) + "]"
    case Key(k) =>
      if IsIdentifier(k) then (if i == 0 then k else "." + k)
      else "[\"" + k + "\"]"
  }

  /** The segment of each key of `path`, at its own position. */
  function Segments(path: Path): seq<string> {
    seq(|path|, i requires 0 <= i < |path| => Segment(path[i], i))
  }

  /** The parts joined with nothing between them. */
  function Concat(parts: seq<string>): string {
    if parts == [] then "" else Concat(parts[..|parts| - 1]) + parts[|parts| - 1]
  }

  /** A step appends the key's segment to the accessor so far (which is
      empty at position 0). */
  lemma StepIsSegment(acc: string, key: PathKey, i: nat)
    requires i > 0 || acc == ""
    ensures Step(acc, key, i) == acc + Segment(key, i)
  {
    match key
    case Index(n) =>
      assert acc + "[" + NatToString(n) + "]" == acc + ("[" + NatToString(n) + "]");
    case Key(k) =>
      if IsIdentifier(k) && i == 0 {
        assert acc + k == k;
      } else if IsIdentifier(k) {
        assert acc + "." + k == acc + ("." + k);
      } else {
        assert acc + "[\"" + k + "\"]" == acc + ("[\"" + k + "\"]");
      }
  }

  /** The accessor of a child path is the parent's accessor followed by the
      child's segment: nothing already written is rewritten. */
  lemma PathStringAppend(path: Path, key: PathKey)
    ensures PathString(path + [key]) == PathString(path) + Segment(key, |path|)
  {
    var p := path + [key];
    assert p[..|p| - 1] == path && p[|p| - 1] == key;
    StepIsSegment(PathString(path), key, |path|);
  }

  /** The fold builds the accessor segment by segment: it is the
      concatenation of every key's segment at its position. */
  lemma {:induction false} PathStringIsSegments(path: Path)
    ensures PathString(path) == Concat(Segments(path))
  {
    if path != [] {
      var front := path[..|path| - 1];
      var last := path[|path| - 1];
      PathStringIsSegments(front);
      assert Segments(path)[..|path| - 1] == Segments(front);
      assert path == front + [last];
      PathStringAppend(front, last);
    }
  }

  /** The root path renders as nothing; an index renders as `[n]`; an
      identifier as itself first and as `.key` after; anything else as
      `["key"]`. */
  lemma PathStringCases(path: Path, n: nat, k: string)
    ensures PathString([]) == ""
    ensures PathString(path + [Index(n)]) == PathString(path) + "[" + NatToString(n) + "]"
    ensures IsIdentifier(k) && path == [] ==> PathString(path + [Key(k)]) == k
    ensures IsIdentifier(k) && path != [] ==> PathString(path + [Key(k)]) == PathString(path) + "." + k
    ensures !IsIdentifier(k) ==> PathString(path + [Key(k)]) == PathString(path) + "[\"" + k + "\"]"
  {
    PathStringAppend(path, Index(n));
    PathStringAppend(path, Key(k));
  }

  // ---------------------------------------------------------------------------
  // isNodeSelected
  // ---------------------------------------------------------------------------

  /** `isNodeSelected`: no node is selected without a context menu; otherwise
      the paths must have the same length and agree element by element. */
  function IsNodeSelected(menuPath: Option<Path>, path: Path): (b: bool)
    ensures b <==> menuPath == Some(path)
  {
    if menuPath.None? then false
    else if |path| != |menuPath.value| then false
    else
      var agree := forall i :: 0 <= i < |path| ==> path[i] == menuPath.value[i];
      assert agree ==> path == menuPath.value;
      agree
  }

  // ---------------------------------------------------------------------------
  // isDataEmpty and the render states
  // ---------------------------------------------------------------------------

  /** `isDataEmpty`: the falsy values (null, false, 0, ""), an empty array and
      an object without keys. */
  function IsDataEmpty(d: JsonValue): (b: bool)
    ensures b <==> d == Null || d == Bool(false) || d == Num(0) || d == Str("") || d == Arr([]) || d == Obj([])
  {
    var falsy := match d
      case Null => true
      case Bool(x) => !x
      case Num(n) => n == 0
      case Str(s) => s == ""
      case _ => false;
    if falsy then true
    else if d.Arr? then |d.items| == 0
    else if d.Obj? then |d.members| == 0
    else false
  }

  datatype TreeState = ErrorState | EmptyState | TreeState

  /** What the tree view shows: the error state for a non-empty error
      message, else the empty state for empty data, else the tree. */
  function RenderState(error: Option<string>, data: JsonValue): (r: TreeState)
    ensures r == ErrorState <==> error.Some? && error.value != ""
    ensures r == EmptyState <==> (error.None? || error.value == "") && IsDataEmpty(data)
    ensures r == TreeState <==> (error.None? || error.value == "") && !IsDataEmpty(data)
  {
    if error.Some? && error.value != "" then ErrorState
    else if IsDataEmpty(data) then EmptyState
    else TreeState
  }

  /** A recorded error hides the data whatever it is, empty or not. */
  lemma ErrorTakesPrecedence(message: string, a: JsonValue, b: JsonValue)
    requires message != ""
    ensures RenderState(Some(message), a) == RenderState(Some(message), b) == ErrorState
  {
  }
}
