// The recent-files and favourites lists kept by the Electron main process
// (electron/main.js): the list transformations of the `get-history`,
// `add-to-history`, `remove-history-items`, `clear-history`, `get-favorites`
// and `toggle-favorite` handlers, and the dialog filters of `save-file-as`.
// The JSON files the lists are persisted in are the fields of a `Store`.
module RecentFiles {
  import opened Json
  import Seqs

  /** The most entries the recent-files list keeps. */
  const MaxRecent: nat := 50

  /** One remembered file. `lastOpened` is a timestamp in milliseconds. */
  datatype HistoryItem = HistoryItem(name: string, path: string, format: string, lastOpened: int, size: nat)

  predicate HasPath(items: seq<HistoryItem>, path: string) {
    exists i :: 0 <= i < |items| && items[i].path == path
  }

  /** The filter predicate `h => h.path !== path`. */
  function OtherPath(path: string): HistoryItem -> bool {
    (h: HistoryItem) => h.path != path
  }

  /** `items.filter(h => h.path !== path)`. */
  function WithoutPath(items: seq<HistoryItem>, path: string): (r: seq<HistoryItem>)
    ensures !HasPath(r, path)
    ensures forall x :: x in r <==> x in items && x.path != path
    ensures Seqs.IsSubsequence(r, items)
  {
    var r := Seqs.Filter(items, OtherPath(path));
    Seqs.FilterIsSubsequence(items, OtherPath(path));
    assert !HasPath(r, path) by {
      forall i | 0 <= i < |r| ensures r[i].path != path {
        assert r[i] in r;
      }
    }
    r
  }

  /** The filter predicate `item => !paths.includes(item.path)`. */
  function NotListed(paths: seq<string>): HistoryItem -> bool {
    (h: HistoryItem) => h.path !in paths
  }

  /** `items.findIndex(f => f.path === path)`. */
  function IndexOfPath(items: seq<HistoryItem>, path: string): (r: int)
    ensures -1 <= r < |items|
    ensures r == -1 <==> !HasPath(items, path)
    ensures r >= 0 ==> items[r].path == path && forall i :: 0 <= i < r ==> items[i].path != path
  {
    if items == [] then -1
    else if items[0].path == path then 0
    else
      var k := IndexOfPath(items[1..], path);
      if k == -1 then -1 else k + 1
  }

  /** The favourites after `toggle-favorite`: the first entry with the item's
      path is removed, or the item is put in front when there is none. */
  function Toggled(favorites: seq<HistoryItem>, item: HistoryItem): (r: seq<HistoryItem>)
    ensures HasPath(favorites, item.path) ==>
      |r| == |favorites| - 1 && r == Seqs.RemoveAt(favorites, IndexOfPath(favorites, item.path))
    ensures !HasPath(favorites, item.path) ==> r == [item] + favorites
  {
    var index := IndexOfPath(favorites, item.path);
    if index != -1 then Seqs.RemoveAt(favorites, index) else [item] + favorites
  }

  /** Toggling an item twice on a list without its path gives the list back. */
  lemma ToggleTwice(favorites: seq<HistoryItem>, item: HistoryItem)
    requires !HasPath(favorites, item.path)
    ensures Toggled(Toggled(favorites, item), item) == favorites
  {
    var once := [item] + favorites;
    assert HasPath(once, item.path) by { assert once[0] == item; }
    assert IndexOfPath(once, item.path) == 0;
  }

  /** Toggling removes only the first match: later entries with the same path
      stay, and every other entry keeps its position relative to the rest. */
  lemma ToggleRemovesFirstOnly(favorites: seq<HistoryItem>, item: HistoryItem)
    requires HasPath(favorites, item.path)
    ensures var k := IndexOfPath(favorites, item.path); var r := Toggled(favorites, item);
      r[..k] == favorites[..k] && r[k..] == favorites[k + 1..] &&
      multiset(r) + multiset{favorites[k]} == multiset(favorites)
  {
    Seqs.RemoveAtParts(favorites, IndexOfPath(favorites, item.path));
  }

  // ---------------------------------------------------------------------------
  // get-history: most recent first
  // ---------------------------------------------------------------------------

  /** Ordered by non-increasing `lastOpened`. */
  predicate MostRecentFirst(items: seq<HistoryItem>) {
    forall i, j :: 0 <= i < j < |items| ==> items[i].lastOpened >= items[j].lastOpened
  }

  /** Insert `x` into a most-recent-first list, before every entry opened at
      the same time or earlier. */
  function InsertByRecency(x: HistoryItem, sorted: seq<HistoryItem>): (r: seq<HistoryItem>)
    requires MostRecentFirst(sorted)
    ensures MostRecentFirst(r) && multiset(r) == multiset(sorted) + multiset{x}
    ensures |r| == |sorted| + 1
  {
    if sorted == [] || x.lastOpened >= sorted[0].lastOpened then
      ConsSorted(x, sorted);
      [x] + sorted
    else
      var rest := InsertByRecency(x, sorted[1..]);
      assert sorted == [sorted[0]] + sorted[1..];
      BoundedByHead(x, sorted, rest);
      ConsSorted(sorted[0], rest);
      [sorted[0]] + rest
  }

  /** Every element of the insertion into the tail is no more recent than the head. */
  lemma BoundedByHead(x: HistoryItem, sorted: seq<HistoryItem>, rest: seq<HistoryItem>)
    requires MostRecentFirst(sorted) && sorted != [] && x.lastOpened < sorted[0].lastOpened
    requires multiset(rest) == multiset(sorted[1..]) + multiset{x}
    ensures forall j :: 0 <= j < |rest| ==> rest[j].lastOpened <= sorted[0].lastOpened
  {
    forall j | 0 <= j < |rest| ensures rest[j].lastOpened <= sorted[0].lastOpened {
      assert rest[j] in multiset(rest);
      if rest[j] != x {
        assert rest[j] in multiset(sorted[1..]);
        var k :| 0 <= k < |sorted[1..]| && sorted[1..][k] == rest[j];
        assert rest[j] == sorted[k + 1];
      }
    }
  }

  /** Putting an item no less recent than every element in front keeps the order. */
  lemma ConsSorted(h: HistoryItem, rest: seq<HistoryItem>)
    requires MostRecentFirst(rest)
    requires forall j :: 0 <= j < |rest| ==> rest[j].lastOpened <= h.lastOpened
    ensures MostRecentFirst([h] + rest)
  {
    var r := [h] + rest;
    forall i, j | 0 <= i < j < |r| ensures r[i].lastOpened >= r[j].lastOpened {
      assert r[j] == rest[j - 1];
      if i > 0 {
        assert r[i] == rest[i - 1];
      }
    }
  }

  /** The list `get-history` returns: the stored list sorted by `lastOpened`,
      most recent first. */
  function SortByRecency(items: seq<HistoryItem>): (r: seq<HistoryItem>)
    ensures MostRecentFirst(r) && multiset(r) == multiset(items) && |r| == |items|
  {
    if items == [] then []
    else
      assert items == [items[0]] + items[1..];
      InsertByRecency(items[0], SortByRecency(items[1..]))
  }

  // ---------------------------------------------------------------------------
  // save-file-as: dialog filters
  // ---------------------------------------------------------------------------

  datatype FileFilter = FileFilter(name: string, extensions: seq<string>)

  /** The catch-all filter appended after the format's own. */
  const AllFiles: FileFilter := FileFilter("All Files", ["*"])

  /** The filter for a format name: YAML, XML, CSV, and JSON for anything else. */
  function FilterFor(format: string): FileFilter {
    if format == "yaml" then FileFilter("YAML", ["yaml", "yml"])
    else if format == "xml" then FileFilter("XML", ["xml"])
    else if format == "csv" then FileFilter("CSV", ["csv"])
    else FileFilter("JSON", ["json"])
  }

  /** Every supported format is offered its own extension; unknown names fall
      back to JSON. */
  lemma FilterForFormats(f: Format, other: string)
    requires other != "yaml" && other != "xml" && other != "csv"
    ensures FormatName(f) in FilterFor(FormatName(f)).extensions
    ensures FilterFor(FormatName(f)).extensions[0] == FormatName(f)
    ensures FilterFor(other) == FilterFor("json") == FileFilter("JSON", ["json"])
    ensures FilterFor("yaml") == FileFilter("YAML", ["yaml", "yml"])
    ensures FilterFor("xml") == FileFilter("XML", ["xml"])
    ensures FilterFor("csv") == FileFilter("CSV", ["csv"])
  {
  }

  // ---------------------------------------------------------------------------
  // The persisted lists
  // ---------------------------------------------------------------------------

  class Store {
    var history: seq<HistoryItem>
    var favorites: seq<HistoryItem>

    constructor ()
      ensures history == [] && favorites == []
    {
      history := [];
      favorites := [];
    }

    /** `get-history`. */
    method GetHistory() returns (r: seq<HistoryItem>)
      ensures MostRecentFirst(r) && multiset(r) == multiset(history)
      ensures r == SortByRecency(history)
    {
      r := SortByRecency(history);
    }

    /** `add-to-history`: drop the entries with the item's path, put the item
        (with its size and the current time) in front, and keep the first 50.
        `size` and `now` stand for the file's size on disk and the clock. */
    method AddToHistory(item: HistoryItem, size: nat, now: int)
      modifies this
      ensures |history| <= MaxRecent && history != []
      ensures history[0] == item.(size := size, lastOpened := now)
      ensures forall i :: 1 <= i < |history| ==> history[i].path != item.path
      ensures var rest := WithoutPath(old(history), item.path);
        |history| == (if |rest| + 1 <= MaxRecent then |rest| + 1 else MaxRecent) &&
        history[1..] == rest[..|history| - 1]
      ensures favorites == old(favorites)
    {
      var rest := WithoutPath(history, item.path);
      var h := [item.(size := size, lastOpened := now)] + rest;
      if |h| > MaxRecent {
        h := h[..MaxRecent];
      }
      assert h[1..] == rest[..|h| - 1];
      forall i | 1 <= i < |h| ensures h[i].path != item.path {
        assert h[i] == rest[i - 1];
      }
      history := h;
    }

    /** `remove-history-items`: drop every entry whose path is listed. */
    method RemoveHistoryItems(paths: seq<string>) returns (r: seq<HistoryItem>)
      modifies this
      ensures r == history && favorites == old(favorites)
      ensures forall x :: x in r <==> x in old(history) && x.path !in paths
      ensures Seqs.IsSubsequence(r, old(history))
      ensures forall x :: multiset(r)[x] == if x.path !in paths then multiset(old(history))[x] else 0
    {
      r := Seqs.Filter(history, NotListed(paths));
      Seqs.FilterIsSubsequence(history, NotListed(paths));
      forall x {
        Seqs.FilterCount(history, NotListed(paths), x);
      }
      history := r;
    }

    /** `clear-history`. */
    method ClearHistory()
      modifies this
      ensures history == [] && favorites == old(favorites)
    {
      history := [];
    }

    /** `get-favorites`. */
    method GetFavorites() returns (r: seq<HistoryItem>)
      ensures r == favorites
    {
      r := favorites;
    }

    /** `toggle-favorite`: remove the first entry with the item's path, or put
        the item in front; the new list is returned. */
    method ToggleFavorite(item: HistoryItem) returns (r: seq<HistoryItem>)
      modifies this
      ensures favorites == Toggled(old(favorites), item) && r == favorites
      ensures history == old(history)
    {
      var index := IndexOfPath(favorites, item.path);
      if index != -1 {
        favorites := Seqs.RemoveAt(favorites, index);
      } else {
        favorites := [item] + favorites;
      }
      r := favorites;
    }
  }

  /** `save-file-as`: the format's filter, then "All Files". */
  method SaveFilters(format: string) returns (filters: seq<FileFilter>)
    ensures |filters| == 2 && filters[0] == FilterFor(format) && filters[1] == AllFiles
    ensures format in filters[0].extensions || filters[0].name == "JSON"
  {
    filters := [FilterFor(format)];
    filters := filters + [AllFiles];
  }
}
