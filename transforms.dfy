// The data-cleanup tools of App.tsx:476-507: `recursiveRemoveNulls` and
// `recursiveTrimStrings`, pure recursive rewrites of a value.
module Transforms {
  import opened Json
  import opened Text
  import Seqs

  // ---------------------------------------------------------------------------
  // recursiveRemoveNulls
  // ---------------------------------------------------------------------------

  function NonNull(v: JsonValue): bool {
    v != Null
  }

  function HasValue(m: Member): bool {
    m.value != Null
  }

  /** `recursiveRemoveNulls`: an array is cleaned element-wise and then loses
      its null elements; an object keeps, in order, the entries whose value is
      not null, each cleaned; every other value is returned as it is. */
  function RemoveNulls(v: JsonValue): JsonValue {
    match v
    case Arr(items) =>
      Arr(Seqs.Filter(seq(|items|, i requires 0 <= i < |items| => RemoveNulls(items[i])), NonNull))
    case Obj(ms) =>
      var kept := Seqs.Filter(ms, HasValue);
      Obj(seq(|kept|, i requires 0 <= i < |kept| =>
        assert kept[i] in ms; Member(kept[i].key, RemoveNulls(kept[i].value))))
    case _ => v
  }

  /** No null inside the tree: no array element and no object value is null,
      at any depth (the root itself may be null). */
  predicate NoNulls(v: JsonValue) {
    match v
    case Arr(items) => forall i :: 0 <= i < |items| ==> items[i] != Null && NoNulls(items[i])
    case Obj(ms) => forall i :: 0 <= i < |ms| ==> ms[i].value != Null && NoNulls(ms[i].value)
    case _ => true
  }

  /** Cleaning yields null only from null. */
  lemma RemoveNullsNull(v: JsonValue)
    ensures RemoveNulls(v) == Null <==> v == Null
  {
  }

  /** After the cleanup no null is left anywhere inside the tree. */
  lemma {:induction false} RemoveNullsLeavesNoNulls(v: JsonValue)
    ensures NoNulls(RemoveNulls(v))
  {
    match v
    case Arr(items) =>
      var mapped := seq(|items|, i requires 0 <= i < |items| => RemoveNulls(items[i]));
      var r := Seqs.Filter(mapped, NonNull);
      forall i | 0 <= i < |items| ensures NoNulls(mapped[i]) {
        RemoveNullsLeavesNoNulls(items[i]);
      }
      forall j | 0 <= j < |r| ensures r[j] != Null && NoNulls(r[j]) {
        assert r[j] in mapped;
      }
    case Obj(ms) =>
      var kept := Seqs.Filter(ms, HasValue);
      forall j | 0 <= j < |kept| ensures RemoveNulls(kept[j].value) != Null && NoNulls(RemoveNulls(kept[j].value)) {
        assert kept[j] in ms;
        RemoveNullsLeavesNoNulls(kept[j].value);
      }
    case _ =>
  }

  /** A tree without nulls inside is left unchanged by the cleanup. */
  lemma {:induction false} RemoveNullsFixesNoNulls(v: JsonValue)
    requires NoNulls(v)
    ensures RemoveNulls(v) == v
  {
    match v
    case Arr(items) =>
      var mapped := seq(|items|, i requires 0 <= i < |items| => RemoveNulls(items[i]));
      forall i | 0 <= i < |items| ensures mapped[i] == items[i] {
        RemoveNullsFixesNoNulls(items[i]);
      }
      assert mapped == items;
      Seqs.FilterAll(items, NonNull);
    case Obj(ms) =>
      Seqs.FilterAll(ms, HasValue);
      forall j | 0 <= j < |ms| ensures Member(ms[j].key, RemoveNulls(ms[j].value)) == ms[j] {
        RemoveNullsFixesNoNulls(ms[j].value);
      }
    case _ =>
  }

  /** Removing nulls twice is the same as removing them once. */
  lemma RemoveNullsIdempotent(v: JsonValue)
    ensures RemoveNulls(RemoveNulls(v)) == RemoveNulls(v)
  {
    RemoveNullsLeavesNoNulls(v);
    RemoveNullsFixesNoNulls(RemoveNulls(v));
  }

  /** On an object, the surviving members are exactly those whose value was
      not null, in their original order, each occurrence kept, each with its
      value cleaned. */
  lemma RemoveNullsKeepsKeyOrder(ms: seq<Member>)
    ensures RemoveNulls(Obj(ms)).Obj?
    ensures var r := RemoveNulls(Obj(ms)).members; var kept := Seqs.Filter(ms, HasValue);
      |r| == |kept| && (forall i :: 0 <= i < |kept| ==> r[i] == Member(kept[i].key, RemoveNulls(kept[i].value))) &&
      Keys(r) == Keys(kept) &&
      Seqs.IsSubsequence(Seqs.Filter(ms, HasValue), ms) &&
      forall m :: multiset(Seqs.Filter(ms, HasValue))[m] == if m.value != Null then multiset(ms)[m] else 0
  {
    Seqs.FilterIsSubsequence(ms, HasValue);
    forall m { Seqs.FilterCount(ms, HasValue, m); }
  }

  /** On an array, the survivors are the cleaned non-null elements, in order. */
  lemma RemoveNullsKeepsItemOrder(items: seq<JsonValue>)
    ensures RemoveNulls(Arr(items)).Arr?
    ensures var mapped := seq(|items|, i requires 0 <= i < |items| => RemoveNulls(items[i]));
      Seqs.IsSubsequence(RemoveNulls(Arr(items)).items, mapped) &&
      |RemoveNulls(Arr(items)).items| == |items| - multiset(items)[Null]
  {
    var mapped := seq(|items|, i requires 0 <= i < |items| => RemoveNulls(items[i]));
    Seqs.FilterIsSubsequence(mapped, NonNull);
    NullCountPreserved(items, mapped);
    FilterDropsNulls(mapped);
  }

  lemma {:induction false} NullCountPreserved(items: seq<JsonValue>, mapped: seq<JsonValue>)
    requires |mapped| == |items| && forall i :: 0 <= i < |items| ==> mapped[i] == RemoveNulls(items[i])
    ensures multiset(mapped)[Null] == multiset(items)[Null]
  {
    if items != [] {
      RemoveNullsNull(items[0]);
      NullCountPreserved(items[1..], mapped[1..]);
      assert items == [items[0]] + items[1..];
      assert mapped == [mapped[0]] + mapped[1..];
    }
  }

  lemma {:induction false} FilterDropsNulls(s: seq<JsonValue>)
    ensures |Seqs.Filter(s, NonNull)| == |s| - multiset(s)[Null]
  {
    if s != [] {
      FilterDropsNulls(s[1..]);
      assert s == [s[0]] + s[1..];
    }
  }

  /** Removing nulls keeps every object's keys distinct. */
  lemma {:induction false} RemoveNullsWellFormed(v: JsonValue)
    requires WellFormed(v)
    ensures WellFormed(RemoveNulls(v))
  {
    match v
    case Arr(items) =>
      var mapped := seq(|items|, i requires 0 <= i < |items| => RemoveNulls(items[i]));
      var r := Seqs.Filter(mapped, NonNull);
      forall i | 0 <= i < |items| ensures WellFormed(mapped[i]) {
        RemoveNullsWellFormed(items[i]);
      }
      forall j | 0 <= j < |r| ensures WellFormed(r[j]) {
        assert r[j] in mapped;
      }
    case Obj(ms) =>
      var kept := Seqs.Filter(ms, HasValue);
      FilterKeepsDistinct(ms);
      forall j | 0 <= j < |kept| ensures WellFormed(RemoveNulls(kept[j].value)) {
        assert kept[j] in ms;
        RemoveNullsWellFormed(kept[j].value);
      }
    case _ =>
  }

  lemma {:induction false} FilterKeepsDistinct(ms: seq<Member>)
    requires DistinctKeys(ms)
    ensures DistinctKeys(Seqs.Filter(ms, HasValue))
  {
    if ms != [] {
      FilterKeepsDistinct(ms[1..]);
      var rest := Seqs.Filter(ms[1..], HasValue);
      forall j | 0 <= j < |rest| ensures rest[j].key != ms[0].key {
        assert rest[j] in ms[1..];
      }
    }
  }

  // ---------------------------------------------------------------------------
  // recursiveTrimStrings
  // ---------------------------------------------------------------------------

  /** `recursiveTrimStrings`: every string in the tree is trimmed. */
  function TrimStrings(v: JsonValue): JsonValue {
    match v
    case Str(s) => Str(Trim(s))
    case Arr(items) => Arr(seq(|items|, i requires 0 <= i < |items| => TrimStrings(items[i])))
    case Obj(ms) => Obj(seq(|ms|, i requires 0 <= i < |ms| => Member(ms[i].key, TrimStrings(ms[i].value))))
    case _ => v
  }

  /** `b` is `a` with every string leaf trimmed: the same kinds of node, the
      same array lengths, the same object keys in the same order, equal
      non-string leaves, and each string leaf of `b` the trim of `a`'s. */
  predicate TrimmedCopy(a: JsonValue, b: JsonValue) {
    match a
    case Str(s) => b == Str(Trim(s))
    case Arr(xs) =>
      b.Arr? && |b.items| == |xs| && forall i :: 0 <= i < |xs| ==> TrimmedCopy(xs[i], b.items[i])
    case Obj(ms) =>
      b.Obj? && Keys(b.members) == Keys(ms) &&
      forall i :: 0 <= i < |ms| ==> TrimmedCopy(ms[i].value, b.members[i].value)
    case _ => b == a
  }

  /** Trimming keeps the shape of the tree and every non-string leaf, and
      replaces each string leaf by its trim. */
  lemma {:induction false} TrimStringsIsTrimmedCopy(v: JsonValue)
    ensures TrimmedCopy(v, TrimStrings(v))
  {
    match v
    case Arr(items) =>
      forall i | 0 <= i < |items| ensures TrimmedCopy(items[i], TrimStrings(v).items[i]) {
        TrimStringsIsTrimmedCopy(items[i]);
      }
    case Obj(ms) =>
      forall i | 0 <= i < |ms| ensures TrimmedCopy(ms[i].value, TrimStrings(v).members[i].value) {
        TrimStringsIsTrimmedCopy(ms[i].value);
      }
    case _ =>
  }

  /** Every string of a trimmed tree is already trimmed. */
  predicate AllTrimmed(v: JsonValue) {
    match v
    case Str(s) => Trim(s) == s
    case Arr(items) => forall i :: 0 <= i < |items| ==> AllTrimmed(items[i])
    case Obj(ms) => forall i :: 0 <= i < |ms| ==> AllTrimmed(ms[i].value)
    case _ => true
  }

  lemma {:induction false} TrimStringsAllTrimmed(v: JsonValue)
    ensures AllTrimmed(TrimStrings(v))
  {
    match v
    case Str(s) => TrimIdempotent(s);
    case Arr(items) =>
      forall i | 0 <= i < |items| ensures AllTrimmed(TrimStrings(items[i])) {
        TrimStringsAllTrimmed(items[i]);
      }
    case Obj(ms) =>
      forall i | 0 <= i < |ms| ensures AllTrimmed(TrimStrings(ms[i].value)) {
        TrimStringsAllTrimmed(ms[i].value);
      }
    case _ =>
  }

  lemma {:induction false} TrimStringsFixesTrimmed(v: JsonValue)
    requires AllTrimmed(v)
    ensures TrimStrings(v) == v
  {
    match v
    case Arr(items) =>
      forall i | 0 <= i < |items| ensures TrimStrings(items[i]) == items[i] {
        TrimStringsFixesTrimmed(items[i]);
      }
      assert TrimStrings(v).items == items;
    case Obj(ms) =>
      forall i | 0 <= i < |ms| ensures Member(ms[i].key, TrimStrings(ms[i].value)) == ms[i] {
        TrimStringsFixesTrimmed(ms[i].value);
      }
      assert TrimStrings(v).members == ms;
    case _ =>
  }

  /** Trimming twice is the same as trimming once. */
  lemma TrimStringsIdempotent(v: JsonValue)
    ensures TrimStrings(TrimStrings(v)) == TrimStrings(v)
  {
    TrimStringsAllTrimmed(v);
    TrimStringsFixesTrimmed(TrimStrings(v));
  }
}
