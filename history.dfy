// The per-file undo history of App.tsx: a list of text snapshots with a
// cursor. It is created by `handleFileLoaded` and `performConversion`,
// extended by `addToHistory` and walked by `handleUndo`/`handleRedo`.
module UndoHistory {

  /** The most snapshots a history keeps. */
  const MaxSnapshots: nat := 50

  datatype History = History(snapshots: seq<string>, currentIndex: nat)

  /** The cursor points at a snapshot and the list never exceeds its cap. */
  predicate Valid(h: History) {
    h.currentIndex < |h.snapshots| <= MaxSnapshots
  }

  /** The histories an open file can hold. */
  type ValidHistory = h: History | Valid(h) witness History([""], 0)

  /** The snapshot the cursor points at. */
  function Current(h: History): string
    requires Valid(h)
  {
    h.snapshots[h.currentIndex]
  }

  predicate CanUndo(h: History) {
    h.currentIndex > 0
  }

  predicate CanRedo(h: History) {
    h.currentIndex + 1 < |h.snapshots|
  }

  /** `{ snapshots: [text], currentIndex: 0 }`: one snapshot, nothing to undo
      or redo. */
  function Fresh(text: string): (h: History)
    ensures Valid(h) && Current(h) == text && |h.snapshots| == 1
    ensures !CanUndo(h) && !CanRedo(h)
  {
    History([text], 0)
  }

  /** The last `MaxSnapshots` elements of `s` (all of `s` when it is short). */
  function Window(s: seq<string>): (r: seq<string>)
    ensures |r| <= MaxSnapshots && |r| == if |s| <= MaxSnapshots then |s| else MaxSnapshots
    ensures r == s[|s| - |r|..]
  {
    if |s| <= MaxSnapshots then s else s[|s| - MaxSnapshots..]
  }

  /** `addToHistory`: keep the snapshots up to the cursor, append the new text,
      shift out the oldest snapshot when that makes 51, and point at the new
      text. Everything after the old cursor (the redo entries) is dropped. */
  function Push(h: History, newText: string): (r: History)
    requires Valid(h)
    ensures Valid(r) && Current(r) == newText && !CanRedo(r)
    ensures |r.snapshots| == if h.currentIndex + 2 <= MaxSnapshots then h.currentIndex + 2 else MaxSnapshots
    ensures r.snapshots[..|r.snapshots| - 1] == h.snapshots[h.currentIndex + 2 - |r.snapshots|..h.currentIndex + 1]
  {
    var past := h.snapshots[..h.currentIndex + 1];
    var next := past + [newText];
    var kept := if |next| > MaxSnapshots then next[1..] else next;
    History(kept, |kept| - 1)
  }

  /** `handleUndo`'s cursor move: back one snapshot, or nothing at the start. */
  function Undo(h: History): (r: History)
    requires Valid(h)
    ensures Valid(r) && r.snapshots == h.snapshots
    ensures CanUndo(h) ==> r.currentIndex == h.currentIndex - 1
    ensures !CanUndo(h) ==> r == h
  {
    if h.currentIndex > 0 then History(h.snapshots, h.currentIndex - 1) else h
  }

  /** `handleRedo`'s cursor move: forward one snapshot, or nothing at the end. */
  function Redo(h: History): (r: History)
    requires Valid(h)
    ensures Valid(r) && r.snapshots == h.snapshots
    ensures CanRedo(h) ==> r.currentIndex == h.currentIndex + 1
    ensures !CanRedo(h) ==> r == h
  {
    if h.currentIndex < |h.snapshots| - 1 then History(h.snapshots, h.currentIndex + 1) else h
  }

  /** Undo then redo, and redo then undo, return to the starting history. */
  lemma UndoRedoInverse(h: History)
    requires Valid(h)
    ensures CanUndo(h) ==> Redo(Undo(h)) == h
    ensures CanRedo(h) ==> Undo(Redo(h)) == h
  {
  }

  /** Undoing right after a push brings back the text that was current before
      it: the 50-snapshot cap never evicts the snapshot just before the new one. */
  lemma {:induction false} PushThenUndo(h: History, newText: string)
    requires Valid(h)
    ensures CanUndo(Push(h, newText))
    ensures Current(Undo(Push(h, newText))) == Current(h)
    ensures Undo(Push(h, newText)).snapshots[..Undo(Push(h, newText)).currentIndex + 1] ==
      h.snapshots[h.currentIndex + 2 - |Push(h, newText).snapshots|..h.currentIndex + 1]
  {
    var r := Push(h, newText);
    var n := |r.snapshots|;
    var before := h.snapshots[h.currentIndex + 2 - n..h.currentIndex + 1];
    assert r.snapshots[..n - 1] == before;
    assert r.snapshots[n - 2] == before[|before| - 1];
  }

  /** Pushing each text of `texts` in turn. */
  function PushAll(h: History, texts: seq<string>): (r: History)
    requires Valid(h)
    ensures Valid(r)
    decreases |texts|
  {
    if texts == [] then h else PushAll(Push(h, texts[0]), texts[1..])
  }

  lemma WindowOfWindow(x: seq<string>, y: seq<string>)
    ensures Window(Window(x) + y) == Window(x + y)
  {
    if |x| > MaxSnapshots {
      var w := Window(x);
      assert (w + y)[|w + y| - |Window(w + y)|..] == (x + y)[|x + y| - |Window(w + y)|..];
    }
  }

  lemma WindowStep(past: seq<string>, texts: seq<string>)
    requires texts != []
    ensures Window(Window(past + [texts[0]]) + texts[1..]) == Window(past + texts)
  {
    WindowOfWindow(past + [texts[0]], texts[1..]);
    assert past + [texts[0]] + texts[1..] == past + texts;
  }

  /** A push keeps the last 50 of the snapshots up to the cursor plus the new text. */
  lemma PushIsWindow(h: History, newText: string)
    requires Valid(h)
    ensures Push(h, newText).snapshots == Window(h.snapshots[..h.currentIndex + 1] + [newText])
  {
  }

  /** After a sequence of pushes the history holds the last 50 of: the
      snapshots up to the old cursor, then every pushed text; the cursor is on
      the last one. The oldest snapshots fall out first. */
  lemma {:induction false} PushAllWindow(h: History, texts: seq<string>)
    requires Valid(h) && texts != []
    ensures var w := Window(h.snapshots[..h.currentIndex + 1] + texts);
      PushAll(h, texts) == History(w, |w| - 1)
    decreases |texts|
  {
    var past := h.snapshots[..h.currentIndex + 1];
    var h1 := Push(h, texts[0]);
    PushIsWindow(h, texts[0]);
    assert h1 == History(Window(past + [texts[0]]), |h1.snapshots| - 1);
    assert PushAll(h, texts) == PushAll(h1, texts[1..]);
    if |texts| == 1 {
      assert texts == [texts[0]];
    } else {
      PushAllWindow(h1, texts[1..]);
      assert h1.snapshots[..h1.currentIndex + 1] == h1.snapshots;
      WindowStep(past, texts);
    }
  }
}
