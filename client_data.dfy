// The browser-side data the Pinia stores keep: JSON scalars, records with an
// id, and the list operations the stores perform on them (findIndex and
// index assignment, filter by id, query-parameter pruning, shallow merge).

module ClientData {

  /**
   * A JSON/JavaScript scalar as the stores compare it with ===. Numbers are
   * integers here; NaN and fractions are not modelled.
   */
  datatype JsValue = Undefined | Null | Str(s: string) | Num(n: int) | Bool(b: bool)

  /** A record received from the API: its id and its other properties. */
  datatype Item = Item(id: JsValue, data: map<string, JsValue>)

  /** A plain object of scalar properties (filters, query parameters). */
  type Params = map<string, JsValue>

  /**
   * The values a store's pruning loop deletes: "" and null, and undefined too
   * when dropUndefined holds.
   */
  predicate Blank(v: JsValue, dropUndefined: bool) {
    v == Str("") || v == Null || (dropUndefined && v == Undefined)
  }

  /** The parameters that survive pruning. */
  function Pruned(params: Params, dropUndefined: bool): (r: Params)
    ensures r.Keys <= params.Keys
    ensures forall k :: k in params ==> (k in r <==> !Blank(params[k], dropUndefined))
    ensures forall k :: k in r ==> r[k] == params[k]
  {
    map k | k in params && !Blank(params[k], dropUndefined) :: params[k]
  }

  /** Pruning twice prunes nothing more. */
  lemma PrunedIdempotent(params: Params, dropUndefined: bool)
    ensures Pruned(Pruned(params, dropUndefined), dropUndefined) == Pruned(params, dropUndefined)
  {
  }

  /**
   * Object.keys(params).forEach(key => { if blank, delete params[key] }):
   * the loop visits every key of a snapshot once.
   */
  method PruneParams(params: Params, dropUndefined: bool) returns (query: Params)
    ensures query == Pruned(params, dropUndefined)
  {
    query := params;
    var keys := params.Keys;
    while keys != {}
      invariant keys <= params.Keys
      invariant query.Keys <= params.Keys
      invariant forall k :: k in params && k !in keys ==> (k in query <==> !Blank(params[k], dropUndefined))
      invariant forall k :: k in keys ==> k in query
      invariant forall k :: k in query ==> query[k] == params[k]
      decreases keys
    {
      var k :| k in keys;
      if Blank(query[k], dropUndefined) {
        query := query - {k};
      }
      keys := keys - {k};
    }
  }

  /** Array.prototype.findIndex with item.id === id: the first match, or -1. */
  function FindIndex(items: seq<Item>, id: JsValue): (i: int)
    ensures -1 <= i < |items|
    ensures i == -1 <==> forall j :: 0 <= j < |items| ==> items[j].id != id
    ensures i != -1 ==> items[i].id == id && forall j :: 0 <= j < i ==> items[j].id != id
  {
    if |items| == 0 then -1
    else if items[0].id == id then 0
    else
      var rest := FindIndex(items[1..], id);
      if rest == -1 then -1 else rest + 1
  }

  /** The list after `const i = findIndex(...); if (i !== -1) list[i] = x`. */
  function ReplacedFirst(items: seq<Item>, id: JsValue, x: Item): seq<Item> {
    var i := FindIndex(items, id);
    if i == -1 then items else items[i := x]
  }

  /**
   * Only the first entry with the id is replaced; every other entry and the
   * length stay; a missing id leaves the list as it was.
   */
  lemma ReplacedFirstEffect(items: seq<Item>, id: JsValue, x: Item)
    ensures var r := ReplacedFirst(items, id, x);
            |r| == |items| &&
            (forall j :: 0 <= j < |items| && j != FindIndex(items, id) ==> r[j] == items[j]) &&
            (FindIndex(items, id) == -1 ==> r == items) &&
            (FindIndex(items, id) != -1 ==> r[FindIndex(items, id)] == x)
  {
  }

  /** items.filter(item => item.id !== id). */
  function RemoveId(items: seq<Item>, id: JsValue): (r: seq<Item>)
    ensures |r| <= |items|
    ensures forall x :: x in r ==> x in items && x.id != id
  {
    if |items| == 0 then []
    else if items[0].id == id then RemoveId(items[1..], id)
    else [items[0]] + RemoveId(items[1..], id)
  }

  /** How many entries carry the id. */
  function CountId(items: seq<Item>, id: JsValue): nat {
    if |items| == 0 then 0
    else (if items[0].id == id then 1 else 0) + CountId(items[1..], id)
  }

  /** Filtering distributes over concatenation, so the kept entries keep their order. */
  lemma {:induction false} RemoveIdConcat(s: seq<Item>, t: seq<Item>, id: JsValue)
    ensures RemoveId(s + t, id) == RemoveId(s, id) + RemoveId(t, id)
  {
    if |s| > 0 {
      assert (s + t)[1..] == s[1..] + t;
      RemoveIdConcat(s[1..], t, id);
      assert [s[0]] + (RemoveId(s[1..], id) + RemoveId(t, id)) == [s[0]] + RemoveId(s[1..], id) + RemoveId(t, id);
    } else {
      assert s + t == t;
    }
  }

  /** The entries with the id in a concatenation are those of its two parts. */
  lemma {:induction false} CountIdConcat(s: seq<Item>, t: seq<Item>, id: JsValue)
    ensures CountId(s + t, id) == CountId(s, id) + CountId(t, id)
  {
    if |s| > 0 {
      assert (s + t)[1..] == s[1..] + t;
      CountIdConcat(s[1..], t, id);
    } else {
      assert s + t == t;
    }
  }

  /** Every entry without the id survives, and exactly the matching ones are gone. */
  lemma {:induction false} RemoveIdEffect(items: seq<Item>, id: JsValue)
    ensures forall x :: x in items && x.id != id ==> x in RemoveId(items, id)
    ensures |RemoveId(items, id)| == |items| - CountId(items, id)
    ensures CountId(items, id) == 0 ==> RemoveId(items, id) == items
  {
    if |items| > 0 {
      RemoveIdEffect(items[1..], id);
      forall x | x in items && x.id != id
        ensures x in RemoveId(items, id)
      {
        RemoveIdKeeps(items, id, x);
      }
    }
  }

  /** An entry without the id is in the filtered list. */
  lemma {:induction false} RemoveIdKeeps(items: seq<Item>, id: JsValue, x: Item)
    requires x in items && x.id != id
    ensures x in RemoveId(items, id)
  {
    if x != items[0] {
      assert x in items[1..];
      RemoveIdKeeps(items[1..], id, x);
    }
  }

  /** items.filter(item => !ids.includes(item.id)). */
  function RemoveIds(items: seq<Item>, ids: seq<JsValue>): (r: seq<Item>)
    ensures |r| <= |items|
    ensures forall x :: x in r ==> x in items && x.id !in ids
  {
    if |items| == 0 then []
    else if items[0].id in ids then RemoveIds(items[1..], ids)
    else [items[0]] + RemoveIds(items[1..], ids)
  }

  /** Removing the ids of a list keeps exactly the entries whose id is not listed. */
  lemma {:induction false} RemoveIdsEffect(items: seq<Item>, ids: seq<JsValue>)
    ensures forall x :: x in items && x.id !in ids ==> x in RemoveIds(items, ids)
    ensures RemoveIds(items, []) == items
  {
    if |items| > 0 {
      RemoveIdsEffect(items[1..], ids);
      forall x | x in items && x.id !in ids
        ensures x in RemoveIds(items, ids)
      {
        if x != items[0] {
          assert x in items[1..];
        }
      }
    }
  }

  /** Removing a one-element id list is removing that id. */
  lemma {:induction false} RemoveSingleId(items: seq<Item>, id: JsValue)
    ensures RemoveIds(items, [id]) == RemoveId(items, id)
  {
    if |items| > 0 {
      RemoveSingleId(items[1..], id);
    }
  }

  /** { ...base, ...incoming }: incoming keys overwrite, the other keys of base stay. */
  function Merge(base: Params, incoming: Params): (r: Params)
    ensures r.Keys == base.Keys + incoming.Keys
    ensures forall k :: k in incoming ==> r[k] == incoming[k]
    ensures forall k :: k in base && k !in incoming ==> r[k] == base[k]
  {
    base + incoming
  }

  /** Merging the same object twice is merging it once. */
  lemma MergeIdempotent(base: Params, incoming: Params)
    ensures Merge(Merge(base, incoming), incoming) == Merge(base, incoming)
  {
  }
}
