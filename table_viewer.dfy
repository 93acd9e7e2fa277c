// The pure logic of the table view (components/TableViewer.tsx): which rows
// and headers are shown, the case-insensitive row filter and the per-cell
// highlight. JavaScript's `String(v)`, `Object.keys` and `Object.values` are
// modelled on the value type; the last two throw on null, which is `None` here.
module Table {
  import opened Results
  import opened Json
  import opened Text
  import Seqs

  /** `tableData`: the rows of an array, no rows for anything else. */
  function TableRows(data: JsonValue): (rows: seq<JsonValue>)
    ensures data.Arr? ==> rows == data.items
    ensures !data.Arr? ==> rows == []
  {
    if data.Arr? then data.items else []
  }

  /** The decimal names "0", "1", ... of the first `n` positions. */
  function IndexNames(n: nat): (r: seq<string>)
    ensures |r| == n && forall i :: 0 <= i < n ==> r[i] == NatToString(i)
  {
    seq(n, i requires 0 <= i < n => NatToString(i))
  }

  /** `Object.keys(v)`: a string's and an array's positions, an object's
      keys, nothing for a boolean or number; `None` (it throws) for null. */
  function ObjectKeys(v: JsonValue): (r: Option<seq<string>>)
    ensures r.None? <==> v == Null
    ensures v.Obj? ==> r == Some(Keys(v.members))
  {
    match v
    case Null => None
    case Bool(_) => Some([])
    case Num(_) => Some([])
    case Str(s) => Some(IndexNames(|s|))
    case Arr(items) => Some(IndexNames(|items|))
    case Obj(ms) => Some(Keys(ms))
  }

  /** `Object.values(v)`, in the order of `Object.keys(v)`. */
  function ObjectValues(v: JsonValue): (r: Option<seq<JsonValue>>)
    ensures r.None? <==> v == Null
    ensures r.Some? ==> |r.value| == |ObjectKeys(v).value|
    ensures v.Bool? || v.Num? ==> r == Some([])
    ensures v.Arr? ==> r == Some(v.items)
    ensures v.Obj? ==> forall i :: 0 <= i < |v.members| ==> r.value[i] == v.members[i].value
    ensures v.Str? ==> forall i :: 0 <= i < |v.s| ==> r.value[i] == Str([v.s[i]])
  {
    match v
    case Null => None
    case Bool(_) => Some([])
    case Num(_) => Some([])
    case Str(s) => Some(seq(|s|, i requires 0 <= i < |s| => Str([s[i]])))
    case Arr(items) => Some(items)
    case Obj(ms) => Some(seq(|ms|, i requires 0 <= i < |ms| => ms[i].value))
  }

  /** `headers`: the keys of the first row, none when there are no rows;
      `None` when the first row is null. */
  function Headers(rows: seq<JsonValue>): (r: Option<seq<string>>)
    ensures rows == [] ==> r == Some([])
    ensures rows != [] ==> r == ObjectKeys(rows[0])
    ensures rows != [] && rows[0].Obj? ==> r == Some(Keys(rows[0].members))
  {
    if |rows| == 0 then Some([]) else ObjectKeys(rows[0])
  }

  /** `String(v)`: null, booleans and numbers as written in JavaScript, a
      string as itself, an array as its elements joined with commas (null
      elements as empty strings), an object as "[object Object]". */
  function JsString(v: JsonValue): string {
    match v
    case Null => "null"
    case Bool(b) => if b then "true" else "false"
    case Num(n) => IntToString(n)
    case Str(s) => s
    case Arr(items) =>
      JoinWith(seq(|items|, i requires 0 <= i < |items| => if items[i] == Null then "" else JsString(items[i])), ',')
    case Obj(_) => "[object Object]"
  }

  /** `String(row[header])`, where a missing property reads as undefined. */
  function CellString(cell: Option<JsonValue>): string {
    if cell.None? then "undefined" else JsString(cell.value)
  }

  /** `String(val).toLowerCase().includes(lowerQuery)`. */
  predicate ValueMatches(v: JsonValue, lowerQuery: string) {
    Includes(Lower(JsString(v)), lowerQuery)
  }

  /** `values.some(val => ...)`. */
  function AnyMatches(values: seq<JsonValue>, lowerQuery: string): (b: bool)
    ensures b <==> exists i :: 0 <= i < |values| && ValueMatches(values[i], lowerQuery)
  {
    if values == [] then false
    else if ValueMatches(values[0], lowerQuery) then true
    else
      var b := AnyMatches(values[1..], lowerQuery);
      assert b ==> exists i :: 0 <= i < |values| && ValueMatches(values[i], lowerQuery) by {
        if b {
          var i :| 0 <= i < |values[1..]| && ValueMatches(values[1..][i], lowerQuery);
          assert values[i + 1] == values[1..][i];
        }
      }
      assert (exists i :: 0 <= i < |values| && ValueMatches(values[i], lowerQuery)) ==> b by {
        if exists i :: 0 <= i < |values| && ValueMatches(values[i], lowerQuery) {
          var i :| 0 <= i < |values| && ValueMatches(values[i], lowerQuery);
          assert i > 0;
          assert values[1..][i - 1] == values[i];
        }
      }
      b
  }

  /** The row filter: some value of the row contains the query. */
  predicate RowMatches(row: JsonValue, lowerQuery: string) {
    ObjectValues(row).Some? && AnyMatches(ObjectValues(row).value, lowerQuery)
  }

  function RowFilter(lowerQuery: string): JsonValue -> bool {
    (row: JsonValue) => RowMatches(row, lowerQuery)
  }

  /** `filteredData`: every row for an empty query; otherwise the rows some of
      whose values contain the query, ignoring case. `None` when a null row
      makes `Object.values` throw. */
  function FilteredRows(rows: seq<JsonValue>, query: string): (r: Option<seq<JsonValue>>)
    ensures query == "" ==> r == Some(rows)
    ensures query != "" ==> (r.None? <==> Null in rows)
  {
    if query == "" then Some(rows)
    else if Null in rows then None
    else Some(Seqs.Filter(rows, RowFilter(Lower(query))))
  }

  /** The shown rows are a subsequence of the rows, and a row is shown, as
      often as it occurs, exactly when one of its values matches. */
  lemma FilteredRowsSpec(rows: seq<JsonValue>, query: string)
    requires query != "" && Null !in rows
    ensures var r := FilteredRows(rows, query).value;
      Seqs.IsSubsequence(r, rows) &&
      (forall row :: row in r <==> row in rows && RowMatches(row, Lower(query))) &&
      (forall row :: multiset(r)[row] == if RowMatches(row, Lower(query)) then multiset(rows)[row] else 0)
  {
    Seqs.FilterIsSubsequence(rows, RowFilter(Lower(query)));
    forall row {
      Seqs.FilterCount(rows, RowFilter(Lower(query)), row);
    }
  }

  /** `isMatch` of a cell: the query is non-empty and the cell's string
      contains it, ignoring case. */
  function CellIsMatch(query: string, cell: Option<JsonValue>): (b: bool)
    ensures b <==> query != "" && exists i :: OccursAt(Lower(CellString(cell)), Lower(query), i)
  {
    query != "" && Includes(Lower(CellString(cell)), Lower(query))
  }

  /** The property an object row has under `key` (`row[key]`), undefined when
      there is none. */
  function Lookup(ms: seq<Member>, key: string): (r: Option<JsonValue>)
    ensures r.None? <==> key !in Keys(ms)
  {
    if ms == [] then None
    else if ms[0].key == key then Some(ms[0].value)
    else
      assert Keys(ms) == [ms[0].key] + Keys(ms[1..]);
      Lookup(ms[1..], key)
  }

  lemma {:induction false} LookupFinds(ms: seq<Member>, i: nat)
    requires DistinctKeys(ms) && i < |ms|
    ensures Lookup(ms, ms[i].key) == Some(ms[i].value)
  {
    if i > 0 {
      assert ms[1..][i - 1] == ms[i];
      LookupFinds(ms[1..], i - 1);
    }
  }

  /** For an object row with distinct keys under its own headers, the row
      passes the filter exactly when one of its cells is highlighted. */
  lemma RowMatchesIffSomeCell(ms: seq<Member>, query: string)
    requires DistinctKeys(ms) && query != ""
    ensures RowMatches(Obj(ms), Lower(query)) <==>
      exists i :: 0 <= i < |ms| && CellIsMatch(query, Lookup(ms, Keys(ms)[i]))
  {
    var values := ObjectValues(Obj(ms)).value;
    forall i | 0 <= i < |ms|
      ensures CellIsMatch(query, Lookup(ms, Keys(ms)[i])) <==> ValueMatches(values[i], Lower(query))
    {
      LookupFinds(ms, i);
    }
    if RowMatches(Obj(ms), Lower(query)) {
      var i :| 0 <= i < |values| && ValueMatches(values[i], Lower(query));
      assert CellIsMatch(query, Lookup(ms, Keys(ms)[i]));
    }
  }
}
