// The editor session of App.tsx: the open files (tabs), the active tab, the
// view and view mode, and the format chosen for a pending conversion. React's
// `setFiles`/`setActiveFileId` state updates become field assignments of a
// class; each handler is a method.
module Workspace {
  import opened Results
  import opened Json
  import opened UndoHistory
  import opened Editor
  import Seqs

  /** The page shown in the main area. */
  datatype View = Home | EditorView | HistoryView | CompareView

  // ---------------------------------------------------------------------------
  // The tab list
  // ---------------------------------------------------------------------------

  predicate DistinctIds(files: seq<EditorFile>) {
    forall i, j :: 0 <= i < j < |files| ==> files[i].id != files[j].id
  }

  predicate HasId(files: seq<EditorFile>, id: string) {
    exists i :: 0 <= i < |files| && files[i].id == id
  }

  /** `files.findIndex(f => f.id === id)`: the first position holding `id`, or -1. */
  function IndexOfId(files: seq<EditorFile>, id: string): (r: int)
    ensures -1 <= r < |files|
    ensures r == -1 <==> !HasId(files, id)
    ensures r >= 0 ==> files[r].id == id && forall i :: 0 <= i < r ==> files[i].id != id
  {
    if files == [] then -1
    else if files[0].id == id then 0
    else
      var k := IndexOfId(files[1..], id);
      if k == -1 then -1 else k + 1
  }

  /** `files.find(f => f.id === id)`. */
  function FindById(files: seq<EditorFile>, id: string): (r: Option<EditorFile>)
    ensures r.None? <==> !HasId(files, id)
    ensures r.Some? ==> r.value == files[IndexOfId(files, id)]
  {
    var k := IndexOfId(files, id);
    if k == -1 then None else Some(files[k])
  }

  /** The filter predicate of `performCloseFile`. */
  function IsOther(id: string): EditorFile -> bool {
    (f: EditorFile) => f.id != id
  }

  /** `files.filter(f => f.id !== id)`. */
  function Without(files: seq<EditorFile>, id: string): seq<EditorFile> {
    Seqs.Filter(files, IsOther(id))
  }

  /** Closing keeps exactly the files with another id, in their order. */
  lemma WithoutKeepsOthers(files: seq<EditorFile>, id: string)
    ensures forall f :: f in Without(files, id) <==> f in files && f.id != id
    ensures Seqs.IsSubsequence(Without(files, id), files)
  {
    Seqs.FilterIsSubsequence(files, IsOther(id));
  }

  /** Closing an id no file has changes nothing. */
  lemma WithoutAbsent(files: seq<EditorFile>, id: string)
    requires !HasId(files, id)
    ensures Without(files, id) == files
  {
    Seqs.FilterAll(files, IsOther(id));
  }

  /** When ids are distinct, closing removes exactly the file at the id's
      position. */
  lemma {:induction false} WithoutRemovesFile(files: seq<EditorFile>, id: string)
    requires DistinctIds(files) && HasId(files, id)
    ensures Without(files, id) == Seqs.RemoveAt(files, IndexOfId(files, id))
  {
    var rest := files[1..];
    WithoutCons(files, id);
    if files[0].id == id {
      forall i | 0 <= i < |rest| ensures rest[i].id != id {
        assert rest[i] == files[i + 1];
      }
      WithoutAbsent(rest, id);
      assert Seqs.RemoveAt(files, 0) == rest;
    } else {
      DistinctTail(files);
      var j :| 0 <= j < |files| && files[j].id == id;
      assert rest[j - 1].id == id;
      WithoutRemovesFile(rest, id);
      var k := IndexOfId(rest, id);
      assert IndexOfId(files, id) == k + 1;
      Seqs.RemoveAtCons(files, k);
    }
  }

  /** One step of the filter. */
  lemma WithoutCons(files: seq<EditorFile>, id: string)
    requires files != []
    ensures Without(files, id) == (if files[0].id == id then [] else [files[0]]) + Without(files[1..], id)
  {
  }

  lemma DistinctTail(files: seq<EditorFile>)
    requires DistinctIds(files) && files != []
    ensures DistinctIds(files[1..])
  {
    var rest := files[1..];
    forall i, j | 0 <= i < j < |rest| ensures rest[i].id != rest[j].id {
      assert rest[i] == files[i + 1] && rest[j] == files[j + 1];
    }
  }

  /** With distinct ids, closing removes one file when the id is open and
      none otherwise. */
  lemma WithoutSize(files: seq<EditorFile>, id: string)
    requires DistinctIds(files)
    ensures |Without(files, id)| == if HasId(files, id) then |files| - 1 else |files|
  {
    if HasId(files, id) {
      WithoutRemovesFile(files, id);
    } else {
      WithoutAbsent(files, id);
    }
  }

  /** The tab `performCloseFile` activates when the active file `id` is
      closed: the one left of it, or the new first tab; none when no tab is
      left. */
  function NextActive(files: seq<EditorFile>, id: string): Option<string>
    requires DistinctIds(files)
  {
    WithoutSize(files, id);
    var fileIndex := IndexOfId(files, id);
    var newFiles := Without(files, id);
    if |newFiles| > 0 then
      var nextIndex := if fileIndex > 0 then fileIndex - 1 else 0;
      Some(newFiles[nextIndex].id)
    else None
  }

  /** Closing the active tab activates its left neighbour, or its right
      neighbour when it was the first tab, or nothing when it was the last
      tab left. */
  lemma NextActiveNeighbour(files: seq<EditorFile>, id: string)
    requires DistinctIds(files) && HasId(files, id)
    ensures var k := IndexOfId(files, id);
      NextActive(files, id) ==
        if |files| == 1 then None else if k > 0 then Some(files[k - 1].id) else Some(files[1].id)
  {
    WithoutRemovesFile(files, id);
  }

  /** `prev.map(f => f.id === id ? g(f) : f)`. */
  function MapWhere(files: seq<EditorFile>, id: string, g: EditorFile -> EditorFile): seq<EditorFile> {
    seq(|files|, i requires 0 <= i < |files| => if files[i].id == id then g(files[i]) else files[i])
  }

  /** With distinct ids, updating the file with `id` changes that one
      position and nothing else. */
  lemma MapWhereSingle(files: seq<EditorFile>, id: string, g: EditorFile -> EditorFile)
    requires DistinctIds(files)
    ensures HasId(files, id) ==>
      MapWhere(files, id, g) == files[IndexOfId(files, id) := g(files[IndexOfId(files, id)])]
    ensures !HasId(files, id) ==> MapWhere(files, id, g) == files
  {
  }

  /** The tab order after dragging the tab at `from` onto the tab at `to`:
      `splice(from, 1)` then `splice(to, 0, removed)`. */
  function MoveTab(files: seq<EditorFile>, from: nat, to: nat): seq<EditorFile>
    requires from < |files| && to < |files|
  {
    Seqs.InsertAt(Seqs.RemoveAt(files, from), to, files[from])
  }

  /** Where the tab now at position `p` came from. */
  function MoveSource(from: nat, to: nat, p: nat): nat {
    if p == to then from
    else
      var q := if p < to then p else p - 1;
      if q < from then q else q + 1
  }

  /** Moving a tab is a permutation: the dragged tab lands at the target
      position, the others keep their relative order, and distinct ids stay
      distinct. */
  lemma MoveTabPermutes(files: seq<EditorFile>, from: nat, to: nat)
    requires from < |files| && to < |files|
    ensures var r := MoveTab(files, from, to);
      |r| == |files| && multiset(r) == multiset(files) && r[to] == files[from] &&
      Seqs.RemoveAt(r, to) == Seqs.RemoveAt(files, from) &&
      (DistinctIds(files) ==> DistinctIds(r))
  {
    var r := MoveTab(files, from, to);
    Seqs.RemoveInsertMultiset(files, from, to);
    assert Seqs.RemoveAt(r, to) == Seqs.RemoveAt(files, from);
    if DistinctIds(files) {
      forall i, j | 0 <= i < j < |r| ensures r[i].id != r[j].id {
        MoveTabAt(files, from, to, i);
        MoveTabAt(files, from, to, j);
      }
    }
  }

  /** The tab now at position `p` is the one that was at `MoveSource(from, to, p)`,
      and no two positions share a source. */
  lemma MoveTabAt(files: seq<EditorFile>, from: nat, to: nat, p: nat)
    requires from < |files| && to < |files| && p < |files|
    ensures MoveSource(from, to, p) < |files|
    ensures MoveTab(files, from, to)[p] == files[MoveSource(from, to, p)]
    ensures forall q :: 0 <= q < |files| && q != p ==> MoveSource(from, to, q) != MoveSource(from, to, p)
  {
  }

  /** Moving a tab keeps every id open and every id non-empty. */
  lemma MoveTabKeepsIds(files: seq<EditorFile>, from: nat, to: nat)
    requires from < |files| && to < |files|
    ensures var r := MoveTab(files, from, to);
      (forall id :: HasId(files, id) ==> HasId(r, id)) &&
      ((forall i :: 0 <= i < |files| ==> files[i].id != "") ==> forall i :: 0 <= i < |r| ==> r[i].id != "")
  {
    var r := MoveTab(files, from, to);
    MoveTabPermutes(files, from, to);
    forall id | HasId(files, id) ensures HasId(r, id) {
      var j :| 0 <= j < |files| && files[j].id == id;
      assert files[j] in multiset(r);
    }
    forall i | 0 <= i < |r| ensures r[i] in files {
      assert r[i] in multiset(files);
    }
  }

  /** Ids are distinct and non-empty; there is an active tab exactly when a
      file is open, and it names an open file. */
  ghost predicate TabsValid(files: seq<EditorFile>, activeFileId: Option<string>) {
    DistinctIds(files) &&
    (forall i :: 0 <= i < |files| ==> files[i].id != "") &&
    (activeFileId.None? <==> files == []) &&
    (activeFileId.Some? ==> HasId(files, activeFileId.value))
  }

  /** Reordering the tabs keeps them valid with the same active tab. */
  lemma MoveTabValid(files: seq<EditorFile>, activeFileId: Option<string>, from: nat, to: nat)
    requires from < |files| && to < |files| && TabsValid(files, activeFileId)
    ensures TabsValid(MoveTab(files, from, to), activeFileId)
  {
    MoveTabPermutes(files, from, to);
    MoveTabKeepsIds(files, from, to);
  }

  // ---------------------------------------------------------------------------
  // The session
  // ---------------------------------------------------------------------------

  class Session {
    var files: seq<EditorFile>
    var activeFileId: Option<string>
    var activeView: View
    var viewMode: ViewMode
    var pendingFormat: Option<Format>

    /** The open tabs are valid (`TabsValid`). */
    ghost predicate Valid()
      reads this`files, this`activeFileId
    {
      TabsValid(files, activeFileId)
    }

    /** Every session field except the tab list keeps its value. */
    twostate predicate OthersUnchanged()
      reads this
    {
      activeFileId == old(activeFileId) && activeView == old(activeView) &&
      viewMode == old(viewMode) && pendingFormat == old(pendingFormat)
    }

    /** The initial state: no file, the home page, tree mode. */
    constructor ()
      ensures Valid() && files == [] && activeFileId == None
      ensures activeView == Home && viewMode == TreeMode && pendingFormat == None
    {
      files := [];
      activeFileId := None;
      activeView := Home;
      viewMode := TreeMode;
      pendingFormat := None;
    }

    /** `activeFile`: the open file whose id is the active one. */
    function ActiveFile(): (r: Option<EditorFile>)
      reads this
      requires Valid()
      ensures r.Some? <==> activeFileId.Some?
      ensures r.Some? ==> r.value.id == activeFileId.value && r.value in files
    {
      if activeFileId.None? then None else FindById(files, activeFileId.value)
    }

    /** The position of the active file, or -1. */
    function ActiveIndex(): (k: int)
      reads this
      requires Valid()
      ensures -1 <= k < |files|
      ensures k == -1 <==> activeFileId.None?
      ensures k >= 0 ==> files[k].id == activeFileId.value
    {
      if activeFileId.None? then -1 else IndexOfId(files, activeFileId.value)
    }

    /** `handleFileLoaded`: append the new file, activate it and open the
        editor, in raw mode when its text is blank and tree mode otherwise.
        When building the record throws, nothing changes. The id stands for
        `crypto.randomUUID()`. */
    method FileLoaded(c: Codecs, loadedData: JsonValue, name: string, path: Option<string>,
                      rawContent: Option<string>, id: string) returns (loaded: bool)
      requires Valid() && id != "" && !HasId(files, id)
      modifies this
      ensures Valid()
      ensures var r := LoadedFile(c, loadedData, name, path, rawContent, id);
        loaded == r.Ok? &&
        (r.Ok? ==> files == old(files) + [r.value] && activeFileId == Some(id) &&
                   activeView == EditorView && viewMode == InitialViewMode(r.value.text) &&
                   pendingFormat == old(pendingFormat)) &&
        (r.Err? ==> unchanged(this))
    {
      var r := LoadedFile(c, loadedData, name, path, rawContent, id);
      if r.Err? {
        return false;
      }
      Open(r.value, InitialViewMode(r.value.text));
      return true;
    }

    /** The state changes of `handleFileLoaded` once the record is built:
        the file is appended and activated, and the editor opens in `mode`. */
    method Open(f: EditorFile, mode: ViewMode)
      requires Valid() && f.id != "" && !HasId(files, f.id)
      modifies this
      ensures Valid()
      ensures files == old(files) + [f] && activeFileId == Some(f.id)
      ensures activeView == EditorView && viewMode == mode
      ensures pendingFormat == old(pendingFormat)
    {
      AppendValid(files, activeFileId, f);
      files := files + [f];
      activeFileId := Some(f.id);
      activeView := EditorView;
      viewMode := mode;
    }

    /** `performCloseFile`: drop the file; when it was active, activate its
        neighbour (or nothing, and go home, when no file is left); go home
        whenever no file is left. */
    method PerformCloseFile(id: string)
      requires Valid()
      modifies this
      ensures Valid()
      ensures files == Without(old(files), id)
      ensures old(activeFileId) == Some(id) ==> activeFileId == NextActive(old(files), id)
      ensures old(activeFileId) != Some(id) ==> activeFileId == old(activeFileId)
      ensures files == [] ==> activeView == Home
      ensures files != [] ==> activeView == old(activeView)
      ensures viewMode == old(viewMode) && pendingFormat == old(pendingFormat)
    {
      CloseValid(files, activeFileId, id);
      var newFiles := Without(files, id);
      if activeFileId == Some(id) {
        activeFileId := NextActive(files, id);
      }
      if |newFiles| == 0 {
        activeView := Home;
      }
      files := newFiles;
    }

    /** `closeFile`: a dirty file asks for confirmation (and stays open), a
        clean one is closed, an unknown id is ignored. */
    method CloseFile(id: string) returns (askToSave: bool)
      requires Valid()
      modifies this
      ensures Valid()
      ensures var f := FindById(old(files), id);
        askToSave == (f.Some? && f.value.isDirty) &&
        (f.None? || f.value.isDirty ==> unchanged(this)) &&
        (f.Some? && !f.value.isDirty ==>
          files == Without(old(files), id) &&
          (old(activeFileId) == Some(id) ==> activeFileId == NextActive(old(files), id)) &&
          (old(activeFileId) != Some(id) ==> activeFileId == old(activeFileId)) &&
          (files == [] ==> activeView == Home) && (files != [] ==> activeView == old(activeView)) &&
          viewMode == old(viewMode) && pendingFormat == old(pendingFormat))
    {
      var f := FindById(files, id);
      if f.None? {
        return false;
      }
      if f.value.isDirty {
        return true;
      }
      PerformCloseFile(id);
      return false;
    }

    /** A click on a tab activates it. */
    method SelectTab(id: string)
      requires Valid() && HasId(files, id)
      modifies this
      ensures Valid() && activeFileId == Some(id)
      ensures files == old(files) && activeView == old(activeView) && viewMode == old(viewMode)
      ensures pendingFormat == old(pendingFormat)
    {
      activeFileId := Some(id);
    }

    /** `updateActiveFile`: replace the active file by `g` of it. */
    method UpdateActiveFile(g: EditorFile -> EditorFile)
      requires Valid() && forall f :: g(f).id == f.id
      modifies this
      ensures Valid()
      ensures var k := old(ActiveIndex());
        (k >= 0 ==> files == old(files)[k := g(old(files)[k])]) && (k < 0 ==> files == old(files))
      ensures OthersUnchanged()
    {
      if activeFileId.None? {
        return;
      }
      MapWhereSingle(files, activeFileId.value, g);
      ghost var k := IndexOfId(files, activeFileId.value);
      ReplaceValid(files, activeFileId, k, g(files[k]));
      files := MapWhere(files, activeFileId.value, g);
    }

    /** `handleRawChange`. */
    method RawChange(c: Codecs, newText: string)
      requires Valid()
      modifies this
      ensures Valid()
      ensures var k := old(ActiveIndex());
        (k >= 0 ==> files == old(files)[k := RawEdited(c, old(files)[k], newText)]) &&
        (k < 0 ==> files == old(files))
      ensures OthersUnchanged()
    {
      if ActiveFile().None? {
        return;
      }
      UpdateActiveFile(f => RawEdited(c, f, newText));
    }

    /** The new active file produced by a handler whose per-file step may
        fail, or the old one. */
    static function OrElse(r: Option<EditorFile>, f: EditorFile): EditorFile {
      if r.Some? then r.value else f
    }

    /** The per-file step of `handleUpdateValue`; it never changes an id. */
    static function ValueStep(c: Codecs, path: Path, newValue: JsonValue): (g: EditorFile -> EditorFile)
      ensures forall f :: g(f).id == f.id
    {
      f => OrElse(ValueUpdated(c, f, path, newValue), f)
    }

    /** The per-file step of `handleFormat`; it never changes an id. */
    static function FormatStep(c: Codecs): (g: EditorFile -> EditorFile)
      ensures forall f :: g(f).id == f.id
    {
      f => OrElse(Formatted(c, f), f)
    }

    /** The per-file step of `handleMinify`; it never changes an id. */
    static function MinifyStep(c: Codecs): (g: EditorFile -> EditorFile)
      ensures forall f :: g(f).id == f.id
    {
      f => OrElse(Minified(c, f), f)
    }

    /** The per-file step of `saveRename`; it never changes an id. */
    static function RenameStep(c: Codecs, value: string): (g: EditorFile -> EditorFile)
      ensures forall f :: g(f).id == f.id
    {
      f => OrElse(Renamed(c, f, value), f)
    }

    /** The per-file step of `applyJsonTool`; it never changes an id. */
    static function ToolStep(c: Codecs, tool: Tool): (g: EditorFile -> EditorFile)
      ensures forall f :: g(f).id == f.id
    {
      f => OrElse(ToolApplied(c, f, tool), f)
    }

    /** `handleUpdateValue`: nothing changes when the update or the stringify
        throws. */
    method UpdateValue(c: Codecs, path: Path, newValue: JsonValue)
      requires Valid()
      modifies this
      ensures Valid()
      ensures var k := old(ActiveIndex());
        (k >= 0 && ValueUpdated(c, old(files)[k], path, newValue).Some? ==>
           files == old(files)[k := ValueUpdated(c, old(files)[k], path, newValue).value]) &&
        (k < 0 || ValueUpdated(c, old(files)[k], path, newValue).None? ==> files == old(files))
      ensures OthersUnchanged()
    {
      var active := ActiveFile();
      if active.None? {
        return;
      }
      if ValueUpdated(c, active.value, path, newValue).None? {
        return;
      }
      UpdateActiveFile(ValueStep(c, path, newValue));
    }

    /** `handleFormat`: on a parse or stringify failure nothing changes. */
    method FormatText(c: Codecs)
      requires Valid()
      modifies this
      ensures Valid()
      ensures var k := old(ActiveIndex());
        (k >= 0 && Formatted(c, old(files)[k]).Some? ==>
           files == old(files)[k := Formatted(c, old(files)[k]).value]) &&
        (k < 0 || Formatted(c, old(files)[k]).None? ==> files == old(files))
      ensures OthersUnchanged()
    {
      var active := ActiveFile();
      if active.None? || Formatted(c, active.value).None? {
        return;
      }
      UpdateActiveFile(FormatStep(c));
    }

    /** `handleMinify`: YAML files and failures change nothing. */
    method Minify(c: Codecs)
      requires Valid()
      modifies this
      ensures Valid()
      ensures var k := old(ActiveIndex());
        (k >= 0 && Minified(c, old(files)[k]).Some? ==>
           files == old(files)[k := Minified(c, old(files)[k]).value]) &&
        (k < 0 || Minified(c, old(files)[k]).None? ==> files == old(files))
      ensures OthersUnchanged()
    {
      var active := ActiveFile();
      if active.None? || Minified(c, active.value).None? {
        return;
      }
      UpdateActiveFile(MinifyStep(c));
    }

    /** `applyJsonTool` (with the error cleared; see `Editor.ToolApplied`). */
    method ApplyTool(c: Codecs, tool: Tool)
      requires Valid()
      modifies this
      ensures Valid()
      ensures var k := old(ActiveIndex());
        (k >= 0 && ToolApplied(c, old(files)[k], tool).Some? ==>
           files == old(files)[k := ToolApplied(c, old(files)[k], tool).value]) &&
        (k < 0 || ToolApplied(c, old(files)[k], tool).None? ==> files == old(files))
      ensures OthersUnchanged()
    {
      var active := ActiveFile();
      if active.None? || ToolApplied(c, active.value, tool).None? {
        return;
      }
      UpdateActiveFile(ToolStep(c, tool));
    }

    /** `handleUndo`. */
    method Undo(c: Codecs)
      requires Valid()
      modifies this
      ensures Valid()
      ensures var k := old(ActiveIndex());
        (k >= 0 ==> files == old(files)[k := Undone(c, old(files)[k])]) && (k < 0 ==> files == old(files))
      ensures OthersUnchanged()
    {
      var active := ActiveFile();
      if active.None? || !CanUndo(active.value.history) {
        return;
      }
      UpdateActiveFile(f => Undone(c, f));
    }

    /** `handleRedo`. */
    method Redo(c: Codecs)
      requires Valid()
      modifies this
      ensures Valid()
      ensures var k := old(ActiveIndex());
        (k >= 0 ==> files == old(files)[k := Redone(c, old(files)[k])]) && (k < 0 ==> files == old(files))
      ensures OthersUnchanged()
    {
      var active := ActiveFile();
      if active.None? || !CanRedo(active.value.history) {
        return;
      }
      UpdateActiveFile(f => Redone(c, f));
    }

    /** `initiateConvert`: remember the target until it is confirmed. */
    method InitiateConvert(target: Format)
      modifies this
      ensures pendingFormat == Some(target)
      ensures files == old(files) && activeFileId == old(activeFileId)
      ensures activeView == old(activeView) && viewMode == old(viewMode)
    {
      pendingFormat := Some(target);
    }

    /** The converted file, or the file itself when the conversion did not
        happen. */
    static function ConvertedOr(r: Conversion, f: EditorFile): EditorFile {
      if r.Converted? then r.file else f
    }

    /** The per-file step of `performConversion`; it never changes an id. */
    static function ConvertStep(c: Codecs, target: Format): (g: EditorFile -> EditorFile)
      ensures forall f :: g(f).id == f.id
    {
      f => ConvertedOr(ConvertFile(c, f, target), f)
    }

    /** `performConversion`: with no active file or no pending target nothing
        happens; otherwise the pending target is cleared whatever the outcome,
        and a successful conversion replaces the file and switches to raw mode. */
    method PerformConversion(c: Codecs)
      requires Valid()
      modifies this
      ensures Valid()
      ensures var k := old(ActiveIndex());
        (k < 0 || old(pendingFormat).None? ==> unchanged(this)) &&
        (k >= 0 && old(pendingFormat).Some? ==>
          var r := ConvertFile(c, old(files)[k], old(pendingFormat).value);
          pendingFormat == None &&
          (r.Converted? ==> files == old(files)[k := r.file] && viewMode == RawMode) &&
          (!r.Converted? ==> files == old(files) && viewMode == old(viewMode)))
      ensures activeFileId == old(activeFileId) && activeView == old(activeView)
    {
      var k := ActiveIndex();
      if k < 0 || pendingFormat.None? {
        return;
      }
      var target := pendingFormat.value;
      var r := ConvertFile(c, files[k], target);
      if r.Converted? {
        UpdateActiveFile(ConvertStep(c, target));
        viewMode := RawMode;
      }
      pendingFormat := None;
    }

    /** `saveRename`: a blank name changes nothing. */
    method SaveRename(c: Codecs, value: string)
      requires Valid()
      modifies this
      ensures Valid()
      ensures var k := old(ActiveIndex());
        (k >= 0 && Renamed(c, old(files)[k], value).Some? ==>
           files == old(files)[k := Renamed(c, old(files)[k], value).value]) &&
        (k < 0 || Renamed(c, old(files)[k], value).None? ==> files == old(files))
      ensures OthersUnchanged()
    {
      var active := ActiveFile();
      if active.None? || Renamed(c, active.value, value).None? {
        return;
      }
      UpdateActiveFile(RenameStep(c, value));
    }

    /** `handleDrop`: move the dragged tab to the target tab's position; the
        same tab or an unknown id changes nothing. */
    method Drop(sourceId: string, targetId: string)
      requires Valid()
      modifies this
      ensures Valid()
      ensures var s := IndexOfId(old(files), sourceId); var t := IndexOfId(old(files), targetId);
        (sourceId != targetId && s >= 0 && t >= 0 ==> files == MoveTab(old(files), s, t)) &&
        (sourceId == targetId || s < 0 || t < 0 ==> files == old(files))
      ensures multiset(files) == multiset(old(files))
      ensures OthersUnchanged()
    {
      if sourceId == targetId {
        return;
      }
      var sourceIndex := IndexOfId(files, sourceId);
      var targetIndex := IndexOfId(files, targetId);
      if sourceIndex != -1 && targetIndex != -1 {
        MoveTabPermutes(files, sourceIndex, targetIndex);
        MoveTabValid(files, activeFileId, sourceIndex, targetIndex);
        files := MoveTab(files, sourceIndex, targetIndex);
      }
    }
  }

  /** Opening a file with a new, non-empty id keeps ids distinct and
      non-empty, and the new file can be found by its id. */
  lemma AppendFresh(files: seq<EditorFile>, f: EditorFile)
    requires DistinctIds(files) && !HasId(files, f.id)
    ensures DistinctIds(files + [f]) && HasId(files + [f], f.id)
    ensures forall i :: 0 <= i < |files| ==> (files + [f])[i] == files[i]
  {
    var n := files + [f];
    assert n[|files|] == f;
    forall i, j | 0 <= i < j < |n| ensures n[i].id != n[j].id {
      assert n[i] == files[i];
    }
  }

  /** Opening a file with a new, non-empty id, and making it active, keeps the
      tabs valid. */
  lemma AppendValid(files: seq<EditorFile>, activeFileId: Option<string>, f: EditorFile)
    requires TabsValid(files, activeFileId) && f.id != "" && !HasId(files, f.id)
    ensures TabsValid(files + [f], Some(f.id))
  {
    AppendFresh(files, f);
  }

  /** Replacing a file by one with the same id keeps the tabs valid. */
  lemma ReplaceValid(files: seq<EditorFile>, activeFileId: Option<string>, k: nat, f: EditorFile)
    requires TabsValid(files, activeFileId) && k < |files| && f.id == files[k].id
    ensures TabsValid(files[k := f], activeFileId)
  {
    var r := files[k := f];
    assert forall i :: 0 <= i < |r| ==> r[i].id == files[i].id;
    if activeFileId.Some? {
      var j :| 0 <= j < |files| && files[j].id == activeFileId.value;
      assert r[j].id == activeFileId.value;
    }
  }

  /** The active tab after `performCloseFile` of `id`. */
  function ActiveAfterClose(files: seq<EditorFile>, activeFileId: Option<string>, id: string): Option<string>
    requires DistinctIds(files)
  {
    if activeFileId == Some(id) then NextActive(files, id) else activeFileId
  }

  /** Closing a tab, and moving the active tab as `performCloseFile` does,
      keeps the tabs valid. */
  lemma CloseValid(files: seq<EditorFile>, activeFileId: Option<string>, id: string)
    requires TabsValid(files, activeFileId)
    ensures TabsValid(Without(files, id), ActiveAfterClose(files, activeFileId, id))
  {
    WithoutKeepsOthers(files, id);
    WithoutDistinctIds(files, id);
    WithoutSize(files, id);
    var r := Without(files, id);
    forall i | 0 <= i < |r| ensures r[i].id != "" {
      assert r[i] in files;
    }
    if activeFileId.Some? && activeFileId != Some(id) {
      var j :| 0 <= j < |files| && files[j].id == activeFileId.value;
      assert files[j] in r;
    }
    if activeFileId == Some(id) && |r| > 0 {
      var k := IndexOfId(files, id);
      var next := if k > 0 then k - 1 else 0;
      assert r[next] in r;
    }
  }

  /** Closing keeps the remaining ids distinct. */
  lemma WithoutDistinctIds(files: seq<EditorFile>, id: string)
    requires DistinctIds(files)
    ensures DistinctIds(Without(files, id))
  {
    if HasId(files, id) {
      WithoutRemovesFile(files, id);
      var k := IndexOfId(files, id);
      var r := Seqs.RemoveAt(files, k);
      forall i, j | 0 <= i < j < |r| ensures r[i].id != r[j].id {
        var i' := if i < k then i else i + 1;
        var j' := if j < k then j else j + 1;
        assert r[i] == files[i'] && r[j] == files[j'];
      }
    } else {
      WithoutAbsent(files, id);
    }
  }
}
