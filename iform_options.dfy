/**
 * Option-list helpers of the iFormBuilder client: the key_value → label map
 * built from a list's options, and the re-ordering of a list that assigns
 * `sort_order` (case-insensitive sort, the `Other` option moved to the top).
 * The items are decoded option objects as the paging GET returns them.
 */
module IFormOptions {
  import opened Php

  // ---------------------------------------------------------------------------
  // getOptionsAsKeyValueArray

  /** The array key an item is filed under: its `key_value`, cast as an array key. */
  function OptionKey(item: Doc): string
  {
    ArrayKey(Get(item, "key_value"))
  }

  /** The value filed: the item's `label`. */
  function OptionLabel(item: Doc): Doc
  {
    Get(item, "label")
  }

  /** The assignments the foreach makes, in item order. */
  function OptionPairs(items: seq<Doc>): (pairs: seq<(string, Doc)>)
    ensures |pairs| == |items|
    ensures forall i :: 0 <= i < |items| ==> pairs[i] == (OptionKey(items[i]), OptionLabel(items[i]))
  {
    seq(|items|, i requires 0 <= i < |items| => (OptionKey(items[i]), OptionLabel(items[i])))
  }

  /** The foreach filling `$kvCache[$item->key_value] = $item->label`. */
  method KeyValueMap(items: seq<Doc>) returns (kv: map<string, Doc>)
    ensures kv == Assoc(OptionPairs(items))
  {
    kv := map[];
    for i := 0 to |items|
      invariant kv == Assoc(OptionPairs(items[..i]))
    {
      var pairs := OptionPairs(items[..i + 1]);
      assert pairs[..i] == OptionPairs(items[..i]);
      kv := kv[OptionKey(items[i]) := OptionLabel(items[i])];
    }
    assert items[..|items|] == items;
  }

  /**
   * The map holds a key exactly when some item has that key_value, and it maps
   * it to the label of the LAST such item: a later duplicate overwrites.
   */
  lemma KeyValueMapSpec(items: seq<Doc>, k: string)
    ensures k in Assoc(OptionPairs(items)) <==> exists i :: 0 <= i < |items| && OptionKey(items[i]) == k
    ensures forall i :: 0 <= i < |items| && OptionKey(items[i]) == k
                     && (forall j :: i < j < |items| ==> OptionKey(items[j]) != k)
              ==> Assoc(OptionPairs(items))[k] == OptionLabel(items[i])
  {
    var pairs := OptionPairs(items);
    AssocLastWins(pairs, k);
    if exists i :: 0 <= i < |pairs| && pairs[i].0 == k {
      var i :| 0 <= i < |pairs| && pairs[i].0 == k;
      assert OptionKey(items[i]) == k;
    }
    forall i | 0 <= i < |items| && OptionKey(items[i]) == k
                     && (forall j :: i < j < |items| ==> OptionKey(items[j]) != k)
      ensures Assoc(pairs)[k] == OptionLabel(items[i])
    {
      assert pairs[i].0 == k;
      assert forall j :: i < j < |pairs| ==> pairs[j].0 != k;
    }
  }

  // ---------------------------------------------------------------------------
  // Case-insensitive ordering

  /** Byte-wise string order: a prefix comes first, otherwise the first differing character decides. */
  predicate LexLe(a: string, b: string)
    decreases |a|
  {
    a == [] || (b != [] && (a[0] < b[0] || (a[0] == b[0] && LexLe(a[1..], b[1..]))))
  }

  lemma {:induction false} LexLeTotal(a: string, b: string)
    ensures LexLe(a, b) || LexLe(b, a)
    decreases |a|
  {
    if a != [] && b != [] && a[0] == b[0] {
      LexLeTotal(a[1..], b[1..]);
    }
  }

  lemma {:induction false} LexLeRefl(a: string)
    ensures LexLe(a, a)
    decreases |a|
  {
    if a != [] { LexLeRefl(a[1..]); }
  }

  lemma {:induction false} LexLeTrans(a: string, b: string, c: string)
    requires LexLe(a, b) && LexLe(b, c)
    ensures LexLe(a, c)
    decreases |a|
  {
    if a != [] && a[0] == b[0] && b[0] == c[0] {
      LexLeTrans(a[1..], b[1..], c[1..]);
    }
  }

  /** What sortBy compares: the lower-cased value of the chosen field. */
  function SortKey(item: Doc, field: string): string
  {
    Lower(AsString(Get(item, field)))
  }

  predicate KeyLe(x: Doc, y: Doc, field: string)
  {
    LexLe(SortKey(x, field), SortKey(y, field))
  }

  /** Each item's key is at most the next one's. */
  predicate Sorted(s: seq<Doc>, field: string)
    decreases |s|
  {
    |s| <= 1 || (KeyLe(s[0], s[1], field) && Sorted(s[1..], field))
  }

  /** Place `x` before the first item whose key is not below its own. */
  function Insert(x: Doc, s: seq<Doc>, field: string): seq<Doc>
    decreases |s|
  {
    if s == [] || KeyLe(x, s[0], field) then [x] + s
    else [s[0]] + Insert(x, s[1..], field)
  }

  /** sortBy on the lower-cased field: a stable sort, earlier items first among equal keys. */
  function SortBy(items: seq<Doc>, field: string): seq<Doc>
    decreases |items|
  {
    if items == [] then [] else Insert(items[0], SortBy(items[1..], field), field)
  }

  /** Inserting into a sorted list keeps it sorted, and the new first item is `x` or the old first. */
  lemma {:induction false} InsertSorted(x: Doc, s: seq<Doc>, field: string)
    requires Sorted(s, field)
    ensures Sorted(Insert(x, s, field), field)
    ensures Insert(x, s, field)[0] == x || (s != [] && Insert(x, s, field)[0] == s[0])
    decreases |s|
  {
    if s != [] && !KeyLe(x, s[0], field) {
      LexLeTotal(SortKey(x, field), SortKey(s[0], field));
      InsertSorted(x, s[1..], field);
    }
  }

  /** How many leading items have a key below `x`'s: where Insert places `x`. */
  function InsertPos(x: Doc, s: seq<Doc>, field: string): (k: nat)
    ensures k <= |s|
    decreases |s|
  {
    if s == [] || KeyLe(x, s[0], field) then 0 else 1 + InsertPos(x, s[1..], field)
  }

  /** Insert puts `x` between the items before its position and those after. */
  lemma {:induction false} InsertAt(x: Doc, s: seq<Doc>, field: string)
    ensures var k := InsertPos(x, s, field); Insert(x, s, field) == s[..k] + [x] + s[k..]
    decreases |s|
  {
    if s != [] && !KeyLe(x, s[0], field) {
      var k := InsertPos(x, s[1..], field);
      InsertAt(x, s[1..], field);
      assert s[..k + 1] == [s[0]] + s[1..][..k] && s[k + 1..] == s[1..][k..];
    }
  }

  /** Inserting adds `x` once and keeps every other item. */
  lemma InsertItems(x: Doc, s: seq<Doc>, field: string)
    ensures multiset(Insert(x, s, field)) == multiset(s) + multiset{x}
  {
    var k := InsertPos(x, s, field);
    InsertAt(x, s, field);
    assert s == s[..k] + s[k..];
  }

  /** sortBy returns the same items, each as often, ordered by the lower-cased key. */
  lemma {:induction false} SortBySpec(items: seq<Doc>, field: string)
    ensures Sorted(SortBy(items, field), field)
    ensures multiset(SortBy(items, field)) == multiset(items)
    decreases |items|
  {
    if items != [] {
      SortBySpec(items[1..], field);
      InsertSorted(items[0], SortBy(items[1..], field), field);
      InsertItems(items[0], SortBy(items[1..], field), field);
      assert items == [items[0]] + items[1..];
    }
  }

  /** In a sorted list the first key is at most every later one. */
  lemma {:induction false} SortedHead(s: seq<Doc>, field: string)
    requires Sorted(s, field) && s != []
    ensures forall j :: 0 <= j < |s| ==> KeyLe(s[0], s[j], field)
    decreases |s|
  {
    LexLeRefl(SortKey(s[0], field));
    if |s| > 1 {
      SortedHead(s[1..], field);
      forall j | 1 <= j < |s| ensures KeyLe(s[0], s[j], field) {
        assert s[j] == s[1..][j - 1];
        LexLeTrans(SortKey(s[0], field), SortKey(s[1], field), SortKey(s[j], field));
      }
    }
  }

  // ---------------------------------------------------------------------------
  // The `Other` option

  /**
   * firstWhere('label', 'Other') compares loosely: under PHP 8 a label equals
   * the non-numeric string `Other` when it is that string or the boolean
   * `true` (which equals every non-empty string); null, numbers, arrays and
   * objects never do.
   */
  predicate IsOther(item: Doc)
  {
    OptionLabel(item) == Str("Other") || OptionLabel(item) == Bool(true)
  }

  /** The reject test: the label, cast to a string, lower-cases to `other`. */
  predicate OtherLike(item: Doc)
  {
    Lower(AsString(OptionLabel(item))) == "other"
  }

  /**
   * An item firstWhere picks is removed by the reject exactly when its label
   * is the string `Other`: a `true` label casts to "1" and survives it.
   */
  lemma OtherIsOtherLike(item: Doc)
    requires IsOther(item)
    ensures OtherLike(item) <==> OptionLabel(item) == Str("Other")
  {
    assert Lower("Other") == "other";
    if OptionLabel(item) == Bool(true) {
      assert AsString(OptionLabel(item)) == "1";
      assert Lower("1")[0] != "other"[0];
    }
  }

  /** The index of the first item firstWhere matches, if any. */
  function FirstOther(s: seq<Doc>): (r: Option<nat>)
    ensures r.Some? ==> r.value < |s| && IsOther(s[r.value])
                        && forall j :: 0 <= j < r.value ==> !IsOther(s[j])
    ensures r.None? ==> forall j :: 0 <= j < |s| ==> !IsOther(s[j])
    decreases |s|
  {
    if s == [] then None
    else if IsOther(s[0]) then Some(0)
    else match FirstOther(s[1..])
      case None => None
      case Some(i) => Some(i + 1)
  }

  /** The items whose label is not other-like, in order. */
  function Reject(s: seq<Doc>): seq<Doc>
    decreases |s|
  {
    if s == [] then []
    else if OtherLike(s[0]) then Reject(s[1..])
    else [s[0]] + Reject(s[1..])
  }

  /** The reject keeps every item that is not other-like, drops the rest, and keeps the order. */
  lemma {:induction false} RejectMembers(s: seq<Doc>)
    ensures forall x :: x in Reject(s) <==> x in s && !OtherLike(x)
    decreases |s|
  {
    if s != [] {
      RejectMembers(s[1..]);
      assert s == [s[0]] + s[1..];
    }
  }

  /** Rejecting keeps each remaining item at most as often as it was. */
  lemma {:induction false} RejectItems(s: seq<Doc>)
    ensures multiset(Reject(s)) <= multiset(s)
    decreases |s|
  {
    if s != [] {
      RejectItems(s[1..]);
      assert s == [s[0]] + s[1..];
    }
  }

  /** Rejecting drops every copy of an other-like item and keeps every copy of any other item. */
  lemma {:induction false} RejectCount(s: seq<Doc>, x: Doc)
    ensures multiset(Reject(s))[x] == if OtherLike(x) then 0 else multiset(s)[x]
    decreases |s|
  {
    if s != [] {
      RejectCount(s[1..], x);
      assert s == [s[0]] + s[1..];
    }
  }

  /** Rejecting from a sorted list leaves it sorted. */
  lemma {:induction false} RejectSorted(s: seq<Doc>, field: string)
    requires Sorted(s, field)
    ensures Sorted(Reject(s), field)
    decreases |s|
  {
    if s != [] {
      RejectSorted(s[1..], field);
      if !OtherLike(s[0]) && Reject(s[1..]) != [] {
        var r := Reject(s[1..]);
        RejectMembers(s[1..]);
        assert r[0] in s[1..];
        var j :| 0 <= j < |s[1..]| && s[1..][j] == r[0];
        SortedHead(s, field);
        assert s[j + 1] == r[0];
      }
    }
  }

  /** With an item labelled `Other`: that first one, then every non-other-like item; otherwise unchanged. */
  function Arrange(s: seq<Doc>): seq<Doc>
  {
    match FirstOther(s)
    case None => s
    case Some(i) => [s[i]] + Reject(s)
  }

  /**
   * After sorting and arranging: without a firstWhere match the list is the
   * sorted list; with one, the first matching item leads, and the rest are
   * the items that are not other-like, in key order.
   */
  lemma ArrangeSpec(items: seq<Doc>, field: string)
    ensures var s := SortBy(items, field);
      && (FirstOther(s).None? ==> Arrange(s) == s && Sorted(Arrange(s), field))
      && (FirstOther(s).Some? ==>
            var r := Arrange(s);
            && r[0] == s[FirstOther(s).value] && IsOther(r[0])
            && (forall x :: x in r[1..] <==> x in items && !OtherLike(x))
            && Sorted(r[1..], field))
  {
    var s := SortBy(items, field);
    SortBySpec(items, field);
    RejectMembers(s);
    RejectSorted(s, field);
    forall x ensures x in items <==> x in s {
      assert x in items <==> x in multiset(items);
    }
    if FirstOther(s).Some? {
      assert Arrange(s)[1..] == Reject(s);
    }
  }

  /** Behind the matched item, each item that is not other-like goes out as often as it was fetched, and no other-like one does. */
  lemma ArrangeCounts(items: seq<Doc>, field: string, x: Doc)
    requires FirstOther(SortBy(items, field)).Some?
    ensures multiset(Arrange(SortBy(items, field))[1..])[x] == if OtherLike(x) then 0 else multiset(items)[x]
  {
    var s := SortBy(items, field);
    SortBySpec(items, field);
    assert Arrange(s)[1..] == Reject(s);
    RejectCount(s, x);
  }

  /**
   * How often the matched item goes out: once when its label is the string
   * `Other`; when it is `true` the reject keeps it, so the prepended copy
   * comes on top of every fetched copy and the item is sent at least twice.
   */
  lemma ArrangeLeader(s: seq<Doc>)
    requires FirstOther(s).Some?
    ensures var x := s[FirstOther(s).value];
      multiset(Arrange(s))[x] == if OptionLabel(x) == Str("Other") then 1 else multiset(s)[x] + 1
    ensures var x := s[FirstOther(s).value];
      OptionLabel(x) == Bool(true) ==> multiset(Arrange(s))[x] >= 2
  {
    var x := s[FirstOther(s).value];
    assert Arrange(s) == [x] + Reject(s);
    RejectCount(s, x);
    OtherIsOtherLike(x);
    assert x in multiset(s);
  }

  // ---------------------------------------------------------------------------
  // The payload

  /** One payload entry: the item's id and its position as sort_order. */
  function Entry(item: Doc, order: nat): Doc
  {
    Object([Member("id", Get(item, "id")), Member("sort_order", Num(order))])
  }

  /** The foreach that numbers the items from 0. */
  method Payload(items: seq<Doc>) returns (payload: seq<Doc>)
    ensures |payload| == |items|
    ensures forall i :: 0 <= i < |items| ==> Get(payload[i], "sort_order") == Num(i)
    ensures forall i :: 0 <= i < |items| ==> Get(payload[i], "id") == Get(items[i], "id")
    ensures forall i :: 0 <= i < |items| ==> payload[i] == Entry(items[i], i)
  {
    var i := 0;
    payload := [];
    for k := 0 to |items|
      invariant i == k == |payload|
      invariant forall j :: 0 <= j < k ==> payload[j] == Entry(items[j], j)
    {
      payload := payload + [Entry(items[k], i)];
      i := i + 1;
    }
    forall j | 0 <= j < |items| ensures Get(payload[j], "sort_order") == Num(j) {
      EntryFields(items[j], j);
    }
  }

  /** An entry reads back the id and the sort_order it was given. */
  lemma EntryFields(item: Doc, order: nat)
    ensures Get(Entry(item, order), "id") == Get(item, "id")
    ensures Get(Entry(item, order), "sort_order") == Num(order)
  {
    var ms := Entry(item, order).members;
    assert ms[0].key != "sort_order" by { assert ms[0].key[0] != "sort_order"[0]; }
    assert Lookup(ms[1..], "sort_order") == Num(order);
  }

  /** The payload sortOptionList sends for the given items: sorted, `Other` first, numbered from 0. */
  function SortPayload(items: seq<Doc>, field: string): seq<Doc>
  {
    var arranged := Arrange(SortBy(items, field));
    seq(|arranged|, i requires 0 <= i < |arranged| => Entry(arranged[i], i))
  }

  /**
   * The payload numbers its entries 0, 1, … in order, every id in it is the id
   * of a fetched item; the first item labelled `Other` in key order, when
   * there is one, is numbered 0; without one every item is sent.
   */
  lemma SortPayloadSpec(items: seq<Doc>, field: string)
    ensures var p := SortPayload(items, field);
      forall i :: 0 <= i < |p| ==> Get(p[i], "sort_order") == Num(i)
    ensures var p := SortPayload(items, field);
      forall i :: 0 <= i < |p| ==> exists j :: 0 <= j < |items| && Get(p[i], "id") == Get(items[j], "id")
    ensures var s, p := SortBy(items, field), SortPayload(items, field);
      && (FirstOther(s).None? ==> |p| == |items|)
      && (FirstOther(s).Some? ==> |p| >= 1 && Get(p[0], "id") == Get(s[FirstOther(s).value], "id"))
  {
    var s := SortBy(items, field);
    var arranged := Arrange(s);
    var p := SortPayload(items, field);
    SortBySpec(items, field);
    ArrangeSpec(items, field);
    forall i | 0 <= i < |p| ensures Get(p[i], "sort_order") == Num(i) && Get(p[i], "id") == Get(arranged[i], "id") {
      EntryFields(arranged[i], i);
    }
    forall x | x in s ensures x in items {
      assert x in multiset(s);
    }
    forall i | 0 <= i < |p| ensures exists j :: 0 <= j < |items| && Get(p[i], "id") == Get(items[j], "id") {
      var x := arranged[i];
      if FirstOther(s).Some? && i > 0 {
        assert x in arranged[1..] by { assert arranged[1..][i - 1] == x; }
      }
      assert x in items;
      var j :| 0 <= j < |items| && items[j] == x;
    }
    if FirstOther(s).None? {
      assert |multiset(s)| == |multiset(items)|;
    }
  }
}
