// One open file of the editor and the updates App.tsx applies to it. Each
// handler computes a new record from the old one with a spread update (the
// function handed to `updateActiveFile`); the session applies it in place.
module Editor {
  import opened Results
  import opened Json
  import opened Text
  import opened UndoHistory
  import Transforms

  /** An open file. The `meta` block (byte size, timestamps) is not modelled. */
  datatype EditorFile = EditorFile(
    id: string,
    name: string,
    path: Option<string>,
    format: Format,
    json: JsonValue,
    text: string,
    isDirty: bool,
    error: Option<string>,
    history: ValidHistory)

  /** The text on screen is the snapshot the undo cursor points at. */
  predicate Synced(f: EditorFile) {
    Current(f.history) == f.text
  }

  /** The value, the text and the error message tell the same story: when the
      text parses, the value is its parse and no error is shown; when it does
      not, the parser's message is shown. */
  predicate Agrees(c: Codecs, f: EditorFile) {
    match c.parseContent(f.text, f.format)
    case Ok(v) => f.json == v && f.error == None
    case Err(m) => f.error == Some(m)
  }

  /** The codecs read back what they write for format `fmt`. */
  ghost predicate RoundTrips(c: Codecs, fmt: Format) {
    forall v :: c.stringifyContent(v, fmt).Ok? ==>
      c.parseContent(c.stringifyContent(v, fmt).value, fmt) == Ok(v)
  }

  /** `addToHistory(file, newText)`. */
  function AddToHistory(f: EditorFile, newText: string): EditorFile {
    f.(history := Push(f.history, newText))
  }

  /** The edit shared by value updates and tools: new value and text, marked
      dirty, and the text pushed onto the history. */
  function Edited(f: EditorFile, json: JsonValue, text: string): EditorFile {
    AddToHistory(f.(json := json, text := text, isDirty := true), text)
  }

  // ---------------------------------------------------------------------------
  // Loading a file (handleFileLoaded)
  // ---------------------------------------------------------------------------

  /** `Object.keys(v).length`; `None` where `Object.keys` throws (on null). A
      string has one key per character, an array one per element. */
  function KeyCount(v: JsonValue): (r: Option<nat>)
    ensures r.None? <==> v == Null
    ensures r == Some(0) <==> v.Bool? || v.Num? || v == Str("") || v == Arr([]) || v == Obj([])
  {
    match v
    case Null => None
    case Bool(_) => Some(0)
    case Num(_) => Some(0)
    case Str(s) => Some(|s|)
    case Arr(items) => Some(|items|)
    case Obj(ms) => Some(|ms|)
  }

  /** `handleFileLoaded`'s new record. When raw content is given and the loaded
      value has no keys, the content is parsed again (a failed parse keeps the
      loaded value); with no raw content the value is stringified. The load
      throws when the raw content is non-empty and the value is null, or when
      the stringify fails. */
  function LoadedFile(c: Codecs, loadedData: JsonValue, name: string, path: Option<string>,
                      rawContent: Option<string>, id: string): (r: Result<EditorFile>)
    ensures r.Err? <==> (rawContent.Some? && rawContent.value != "" && loadedData == Null) ||
                        (rawContent.None? && c.stringifyContent(loadedData, c.detectFormat(name)).Err?)
    ensures r.Ok? ==> var f := r.value;
      f.id == id && f.name == name && f.path == path && f.format == c.detectFormat(name) &&
      !f.isDirty && f.error == None && f.history == Fresh(f.text) && Synced(f)
    ensures r.Ok? && rawContent.Some? ==> r.value.text == rawContent.value
    ensures r.Ok? && rawContent.Some? && rawContent.value != "" && KeyCount(loadedData) == Some(0) ==>
      var reparsed := c.parseContent(rawContent.value, c.detectFormat(name));
      (reparsed.Ok? ==> r.value.json == reparsed.value) && (reparsed.Err? ==> r.value.json == loadedData)
    ensures r.Ok? && (rawContent.None? || rawContent.value == "" || KeyCount(loadedData) != Some(0)) ==>
      r.value.json == loadedData
    ensures r.Ok? && rawContent.None? ==> Ok(r.value.text) == c.stringifyContent(loadedData, r.value.format)
  {
    var format := c.detectFormat(name);
    var reparse := rawContent.Some? && rawContent.value != "";
    if reparse && KeyCount(loadedData).None? then Err("Cannot convert undefined or null to object")
    else
      var json :=
        if reparse && KeyCount(loadedData) == Some(0) then
          match c.parseContent(rawContent.value, format)
          case Ok(v) => v
          case Err(_) => loadedData
        else loadedData;
      var text := if rawContent.Some? then Ok(rawContent.value) else c.stringifyContent(json, format);
      match text
      case Err(m) => Err(m)
      case Ok(t) => Ok(EditorFile(id, name, path, format, json, t, false, None, Fresh(t)))
  }

  /** A new, empty document (`createNewFile`, raw content "") keeps the given
      value; a file opened from a path (empty value, raw content) holds the
      parse of its content whenever that parse succeeds. */
  lemma LoadedFileReparses(c: Codecs, name: string, path: Option<string>, content: string, id: string)
    requires content != ""
    ensures var r := LoadedFile(c, Obj([]), name, path, Some(content), id);
      r.Ok? && r.value.text == content &&
      (c.parseContent(content, c.detectFormat(name)).Ok? ==> r.value.json == c.parseContent(content, c.detectFormat(name)).value) &&
      (c.parseContent(content, c.detectFormat(name)).Err? ==> r.value.json == Obj([]))
  {
  }

  /** The two modes of the main panel. */
  datatype ViewMode = TreeMode | RawMode

  /** The mode a loaded file opens in: raw when its text is blank. */
  function InitialViewMode(text: string): ViewMode {
    if Trim(text) == "" then RawMode else TreeMode
  }

  lemma InitialViewModeBlank(text: string)
    ensures InitialViewMode(text) == RawMode <==> forall i :: 0 <= i < |text| ==> IsWhitespace(text[i])
  {
    TrimEmpty(text);
  }

  // ---------------------------------------------------------------------------
  // Editing (handleRawChange, handleUpdateValue)
  // ---------------------------------------------------------------------------

  /** `handleRawChange`: the text is always taken and pushed; on a successful
      parse the value is replaced and the error cleared, on a failed one the
      last good value stays and the message is recorded. */
  function RawEdited(c: Codecs, f: EditorFile, newText: string): (r: EditorFile)
    ensures r.id == f.id && r.name == f.name && r.format == f.format
    ensures r.text == newText && r.isDirty && r.history == Push(f.history, newText)
    ensures Synced(r) && Agrees(c, r)
    ensures c.parseContent(newText, f.format).Err? ==> r.json == f.json
  {
    match c.parseContent(newText, f.format)
    case Ok(v) => AddToHistory(f.(text := newText, json := v, isDirty := true, error := None), newText)
    case Err(m) => AddToHistory(f.(text := newText, isDirty := true, error := Some(m)), newText)
  }

  /** `handleUpdateValue`: replace the value at `path`, re-render the text and
      push it; nothing changes when either step throws. The error field is not
      touched. */
  function ValueUpdated(c: Codecs, f: EditorFile, path: Path, newValue: JsonValue): (r: Option<EditorFile>)
    ensures r.Some? <==> (c.updateValueAtPath(f.json, path, newValue).Ok? &&
      c.stringifyContent(c.updateValueAtPath(f.json, path, newValue).value, f.format).Ok?)
    ensures r.Some? ==> var g := r.value;
      g.json == c.updateValueAtPath(f.json, path, newValue).value &&
      Ok(g.text) == c.stringifyContent(g.json, f.format) &&
      g.isDirty && Synced(g) && g.error == f.error && g.id == f.id && g.format == f.format &&
      g.history == Push(f.history, g.text) && g.name == f.name && g.path == f.path
  {
    match c.updateValueAtPath(f.json, path, newValue)
    case Err(_) => None
    case Ok(j) =>
      match c.stringifyContent(j, f.format)
      case Err(_) => None
      case Ok(t) => Some(Edited(f, j, t))
  }

  // ---------------------------------------------------------------------------
  // Format, minify and the cleanup tools
  // ---------------------------------------------------------------------------

  /** `handleFormat`: parse the text and re-render it. The history is not
      touched. */
  function Formatted(c: Codecs, f: EditorFile): (r: Option<EditorFile>)
    ensures r.Some? <==> (c.parseContent(f.text, f.format).Ok? &&
      c.stringifyContent(c.parseContent(f.text, f.format).value, f.format).Ok?)
    ensures r.Some? ==> var g := r.value;
      g.json == c.parseContent(f.text, f.format).value && g.error == None && g.isDirty &&
      Ok(g.text) == c.stringifyContent(g.json, f.format) && g.history == f.history
    ensures r.Some? ==> r.value.id == f.id && r.value.name == f.name && r.value.format == f.format
    ensures r.Some? && RoundTrips(c, f.format) ==> Agrees(c, r.value)
  {
    match c.parseContent(f.text, f.format)
    case Err(_) => None
    case Ok(o) =>
      match c.stringifyContent(o, f.format)
      case Err(_) => None
      case Ok(t) => Some(f.(text := t, json := o, error := None, isDirty := true))
  }

  /** `handleMinify`: as `handleFormat` with the compact writer; YAML files
      are left alone. */
  function Minified(c: Codecs, f: EditorFile): (r: Option<EditorFile>)
    ensures f.format == Yaml ==> r == None
    ensures r.Some? <==> (f.format != Yaml && c.parseContent(f.text, f.format).Ok? &&
      c.minifyContent(c.parseContent(f.text, f.format).value, f.format).Ok?)
    ensures r.Some? ==> var g := r.value;
      g.json == c.parseContent(f.text, f.format).value && g.error == None && g.isDirty &&
      Ok(g.text) == c.minifyContent(g.json, f.format) && g.history == f.history
    ensures r.Some? ==> r.value.id == f.id && r.value.name == f.name && r.value.format == f.format
  {
    if f.format == Yaml then None
    else
      match c.parseContent(f.text, f.format)
      case Err(_) => None
      case Ok(o) =>
        match c.minifyContent(o, f.format)
        case Err(_) => None
        case Ok(t) => Some(f.(text := t, json := o, error := None, isDirty := true))
  }

  /** The four cleanup tools of the toolbar. */
  datatype Tool = SortKeysAsc | SortKeysDesc | RemoveNullsTool | TrimStringsTool

  /** The transform each tool applies to the value. */
  function ToolTransform(c: Codecs, tool: Tool, v: JsonValue): Result<JsonValue> {
    match tool
    case SortKeysAsc => c.sortJson(v, Asc)
    case SortKeysDesc => c.sortJson(v, Desc)
    case RemoveNullsTool => Ok(Transforms.RemoveNulls(v))
    case TrimStringsTool => Ok(Transforms.TrimStrings(v))
  }

  /** `applyJsonTool` as written: the value and text are replaced and pushed,
      but an error message recorded by an earlier raw edit stays. */
  function ToolAppliedAsWritten(c: Codecs, f: EditorFile, tool: Tool): (r: Option<EditorFile>)
    ensures r.Some? ==> r.value.error == f.error && Synced(r.value)
    ensures r.Some? <==> ToolApplied(c, f, tool).Some?
    ensures r.Some? ==> r.value == ToolApplied(c, f, tool).value.(error := f.error)
  {
    match ToolTransform(c, tool, f.json)
    case Err(_) => None
    case Ok(d) =>
      match c.stringifyContent(d, f.format)
      case Err(_) => None
      case Ok(t) => Some(Edited(f, d, t))
  }

  /** `applyJsonTool` with the error cleared, as every other handler that
      writes a freshly rendered text does. */
  function ToolApplied(c: Codecs, f: EditorFile, tool: Tool): (r: Option<EditorFile>)
    ensures r.Some? <==> (ToolTransform(c, tool, f.json).Ok? &&
      c.stringifyContent(ToolTransform(c, tool, f.json).value, f.format).Ok?)
    ensures r.Some? ==> var g := r.value;
      g.json == ToolTransform(c, tool, f.json).value && Ok(g.text) == c.stringifyContent(g.json, f.format) &&
      g.error == None && g.isDirty && Synced(g) && g.history == Push(f.history, g.text)
    ensures r.Some? ==> r.value.id == f.id && r.value.name == f.name && r.value.format == f.format
    ensures r.Some? && RoundTrips(c, f.format) ==> Agrees(c, r.value)
  {
    match ToolTransform(c, tool, f.json)
    case Err(_) => None
    case Ok(d) =>
      match c.stringifyContent(d, f.format)
      case Err(_) => None
      case Ok(t) => Some(Edited(f, d, t).(error := None))
  }

  /** Codecs for the counterexample below: "{}" parses to the empty object,
      everything else is a syntax error, and every value renders as "{}". */
  function ExampleCodecs(): Codecs {
    Codecs(
      _ => JsonFormat,
      (s, _) => if s == "{}" then Ok(Obj([])) else Err("Unexpected token"),
      (_, _) => Ok("{}"),
      (_, _) => Ok("{}"),
      (v, _) => Ok(v),
      (v, _, _) => Ok(v))
  }

  /** A clean, valid file holding the empty object. */
  function ExampleFile(): EditorFile {
    EditorFile("a", "a.json", None, JsonFormat, Obj([]), "{}", false, None, Fresh("{}"))
  }

  /** A raw edit to "{" records the syntax error and keeps the last value. */
  lemma ExampleBadEdit()
    ensures var f1 := RawEdited(ExampleCodecs(), ExampleFile(), "{");
      f1.json == Obj([]) && f1.format == JsonFormat && f1.error == Some("Unexpected token")
  {
    var c := ExampleCodecs();
    assert |"{"| != |"{}"|;
    assert c.parseContent("{", JsonFormat) == Err("Unexpected token");
  }

  /** On a file holding the empty object with a recorded error, removing
      nulls rewrites the text as "{}", which parses; as written the error
      stays, corrected it is cleared. */
  lemma ExampleRemoveNulls(f1: EditorFile)
    requires f1.json == Obj([]) && f1.format == JsonFormat && f1.error == Some("Unexpected token")
    ensures var c := ExampleCodecs();
      var written := ToolAppliedAsWritten(c, f1, RemoveNullsTool);
      var fixed := ToolApplied(c, f1, RemoveNullsTool);
      written.Some? && written.value.text == "{}" && c.parseContent(written.value.text, JsonFormat).Ok? &&
      written.value.error == Some("Unexpected token") && !Agrees(c, written.value) &&
      fixed.Some? && Agrees(c, fixed.value)
  {
    var c := ExampleCodecs();
    assert Transforms.RemoveNulls(Obj([])) == Obj([]);
    assert ToolTransform(c, RemoveNullsTool, f1.json) == Ok(Obj([]));
    assert c.stringifyContent(Obj([]), JsonFormat) == Ok("{}");
    assert c.parseContent("{}", JsonFormat) == Ok(Obj([]));
  }

  /** After a raw edit that does not parse, removing nulls rewrites the text as
      valid JSON, yet the stale syntax error stays on the file; the corrected
      tool leaves the file agreeing with its text. */
  lemma ToolKeepsStaleError()
    ensures var c := ExampleCodecs();
      var f1 := RawEdited(c, ExampleFile(), "{");
      var written := ToolAppliedAsWritten(c, f1, RemoveNullsTool);
      var fixed := ToolApplied(c, f1, RemoveNullsTool);
      f1.error == Some("Unexpected token") &&
      written.Some? && written.value.text == "{}" && c.parseContent(written.value.text, JsonFormat).Ok? &&
      written.value.error == Some("Unexpected token") && !Agrees(c, written.value) &&
      fixed.Some? && Agrees(c, fixed.value)
  {
    ExampleBadEdit();
    ExampleRemoveNulls(RawEdited(ExampleCodecs(), ExampleFile(), "{"));
  }

  // ---------------------------------------------------------------------------
  // Undo and redo (handleUndo, handleRedo)
  // ---------------------------------------------------------------------------

  /** The file showing snapshot `text` at cursor `i`: parsed when possible,
      otherwise the value is kept and the message recorded; marked dirty. */
  function ShowSnapshot(c: Codecs, f: EditorFile, i: nat): EditorFile
    requires i < |f.history.snapshots|
  {
    var text := f.history.snapshots[i];
    var h := History(f.history.snapshots, i);
    match c.parseContent(text, f.format)
    case Ok(v) => f.(text := text, json := v, error := None, history := h, isDirty := true)
    case Err(m) => f.(text := text, error := Some(m), history := h, isDirty := true)
  }

  /** `handleUndo`: step the cursor back and show that snapshot; nothing at
      the first snapshot. */
  function Undone(c: Codecs, f: EditorFile): (r: EditorFile)
    ensures !CanUndo(f.history) ==> r == f
    ensures CanUndo(f.history) ==>
      r.history == Undo(f.history) && r.text == Current(r.history) && r.isDirty && Agrees(c, r)
    ensures CanUndo(f.history) && c.parseContent(r.text, f.format).Err? ==> r.json == f.json
    ensures r.id == f.id && r.format == f.format && r.name == f.name && r.path == f.path
  {
    if f.history.currentIndex > 0 then ShowSnapshot(c, f, f.history.currentIndex - 1) else f
  }

  /** `handleRedo`: step the cursor forward and show that snapshot; nothing at
      the last snapshot. */
  function Redone(c: Codecs, f: EditorFile): (r: EditorFile)
    ensures !CanRedo(f.history) ==> r == f
    ensures CanRedo(f.history) ==>
      r.history == Redo(f.history) && r.text == Current(r.history) && r.isDirty && Agrees(c, r)
    ensures CanRedo(f.history) && c.parseContent(r.text, f.format).Err? ==> r.json == f.json
    ensures r.id == f.id && r.format == f.format && r.name == f.name && r.path == f.path
  {
    if f.history.currentIndex < |f.history.snapshots| - 1 then ShowSnapshot(c, f, f.history.currentIndex + 1) else f
  }

  /** Undo followed by redo restores the text, history and error of a file
      whose text is its current snapshot and agrees with its value; the value
      too whenever the text parses. */
  lemma UndoThenRedo(c: Codecs, f: EditorFile)
    requires Synced(f) && Agrees(c, f) && CanUndo(f.history)
    ensures var r := Redone(c, Undone(c, f));
      r.text == f.text && r.history == f.history && r.error == f.error && r.isDirty &&
      (c.parseContent(f.text, f.format).Ok? ==> r.json == f.json)
  {
    UndoRedoInverse(f.history);
  }

  /** Redo followed by undo, symmetrically. */
  lemma RedoThenUndo(c: Codecs, f: EditorFile)
    requires Synced(f) && Agrees(c, f) && CanRedo(f.history)
    ensures var r := Undone(c, Redone(c, f));
      r.text == f.text && r.history == f.history && r.error == f.error && r.isDirty &&
      (c.parseContent(f.text, f.format).Ok? ==> r.json == f.json)
  {
    UndoRedoInverse(f.history);
  }

  /** A raw edit followed by undo shows the text from before the edit. */
  lemma RawEditThenUndo(c: Codecs, f: EditorFile, newText: string)
    requires Synced(f)
    ensures var r := Undone(c, RawEdited(c, f, newText));
      r.text == f.text && Agrees(c, r) && Synced(r)
  {
    PushThenUndo(f.history, newText);
  }

  // ---------------------------------------------------------------------------
  // Conversion (performConversion)
  // ---------------------------------------------------------------------------

  /** The extension the conversion writes: yaml, xml, csv, otherwise json. */
  function ExtensionFor(target: Format): (ext: string)
    ensures ext == FormatName(target)
  {
    var ext := if target == Yaml then "yaml" else if target == Xml then "xml" else "json";
    if target == Csv then "csv" else ext
  }

  /** The renamed file: split the name on '.', replace the last piece with the
      target's extension when there is more than one piece, otherwise append
      `.<format>`. */
  function ConvertedName(name: string, target: Format): string {
    var parts := SplitOn(name, '.');
    if |parts| > 1 then JoinWith(parts[..|parts| - 1] + [ExtensionFor(target)], '.')
    else name + "." + FormatName(target)
  }

  lemma {:induction false} CountPositive(s: string, c: char)
    requires c in s
    ensures Count(s, c) >= 1
  {
    if s[0] != c {
      CountPositive(s[1..], c);
    }
  }

  /** The converted name is the name up to its last dot followed by the
      extension, or the whole name with a dot and the extension appended. */
  lemma ConvertedNameShape(name: string, target: Format)
    ensures '.' in name ==>
      ConvertedName(name, target) == name[..LastIndexOf(name, '.')] + "." + FormatName(target)
    ensures '.' !in name ==> ConvertedName(name, target) == name + "." + FormatName(target)
  {
    var parts := SplitOn(name, '.');
    if '.' in name {
      CountPositive(name, '.');
      var d := LastIndexOf(name, '.');
      SplitAtLast(name, '.');
      var front := SplitOn(name[..d], '.');
      assert parts[..|parts| - 1] == front;
      JoinAppend(front, ExtensionFor(target), '.');
      JoinSplit(name[..d], '.');
    } else {
      CountAbsent(name, '.');
    }
  }

  /** The outcome of `performConversion`. */
  datatype Conversion = Converted(file: EditorFile) | BlankCsv | ConversionFailed(msg: string)

  /** `performConversion` of a file to `target`: a failed stringify or a blank
      CSV result changes nothing; otherwise format, text and name change, the
      error is cleared and the history restarts at the new text. The value is
      kept. */
  function ConvertFile(c: Codecs, f: EditorFile, target: Format): (r: Conversion)
    ensures r.ConversionFailed? <==> c.stringifyContent(f.json, target).Err?
    ensures r.BlankCsv? <==> (target == Csv && c.stringifyContent(f.json, target).Ok? &&
      Trim(c.stringifyContent(f.json, target).value) == "")
    ensures r.Converted? ==> var g := r.file;
      Ok(g.text) == c.stringifyContent(f.json, target) && g.format == target && g.json == f.json &&
      g.name == ConvertedName(f.name, target) && g.isDirty && g.error == None &&
      g.history == Fresh(g.text) && Synced(g) && !CanUndo(g.history) && g.id == f.id
    ensures r.Converted? && RoundTrips(c, target) ==> Agrees(c, r.file)
  {
    match c.stringifyContent(f.json, target)
    case Err(m) => ConversionFailed(m)
    case Ok(t) =>
      if target == Csv && Trim(t) == "" then BlankCsv
      else Converted(f.(format := target, text := t, name := ConvertedName(f.name, target),
                        isDirty := true, error := None, history := Fresh(t)))
  }

  /** A converted file's name ends with a dot and the target's extension. */
  lemma ConvertedNameExtension(name: string, target: Format)
    ensures var n := ConvertedName(name, target); var ext := "." + FormatName(target);
      |n| >= |ext| && n[|n| - |ext|..] == ext
  {
    ConvertedNameShape(name, target);
  }

  // ---------------------------------------------------------------------------
  // Renaming (saveRename)
  // ---------------------------------------------------------------------------

  /** `saveRename`: a non-blank name is trimmed, stored, and the format is
      detected again from it; a blank one changes nothing. */
  function Renamed(c: Codecs, f: EditorFile, value: string): (r: Option<EditorFile>)
    ensures r.None? <==> forall i :: 0 <= i < |value| ==> IsWhitespace(value[i])
    ensures r.Some? ==> var g := r.value;
      g == f.(name := Trim(value), format := c.detectFormat(Trim(value))) &&
      g.name != "" && !IsWhitespace(g.name[0]) && !IsWhitespace(g.name[|g.name| - 1])
  {
    TrimEmpty(value);
    TrimEnds(value);
    var trimmed := Trim(value);
    if trimmed != "" then Some(f.(name := trimmed, format := c.detectFormat(trimmed))) else None
  }
}
