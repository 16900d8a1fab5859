// The client stores of the admin, category and tag screens. The three have
// the same state and the same list, counter and filter updates; they differ
// only in their default filter record. A server answer is an input: None
// (or succeeded false) stands for a failed request, which changes none of the
// state modelled here.

module CollectionStore {
  import opened Common
  import opened ClientData

  /** The admin screen's filter record. */
  function AdminFilterDefaults(): Params {
    map["search" := Str(""), "role" := Str(""), "status" := Str(""),
        "sort_by" := Str("created_at"), "sort_order" := Str("desc")]
  }

  /** The category and tag screens' filter record. */
  function TitledFilterDefaults(): Params {
    map["search" := Str(""), "status" := Str(""), "date_from" := Str(""), "date_to" := Str(""),
        "sort_by" := Str("created_at"), "sort_order" := Str("desc")]
  }

  class ListStore {
    var items: seq<Item>
    /** The record open in the editor, or null. */
    var current: Option<Item>
    var filters: Params
    /** pagination.total as last reported and then adjusted locally. */
    var total: int
    /** The filter record clearFilters restores. */
    const defaults: Params

    constructor (defaults: Params)
      ensures this.defaults == defaults && filters == defaults
      ensures items == [] && current == None && total == 0
    {
      this.defaults := defaults;
      filters := defaults;
      items := [];
      current := None;
      total := 0;
    }

    /**
     * The query a fetch sends: the extra params spread over the filters,
     * with "" and null values dropped (undefined is kept).
     */
    method FetchParams(params: Params) returns (query: Params)
      ensures query == Pruned(Merge(filters, params), false)
    {
      query := PruneParams(Merge(filters, params), false);
    }

    /** A successful create puts the new record first and counts it. */
    method Created(response: Option<Item>)
      modifies this
      ensures response.None? ==> items == old(items) && total == old(total)
      ensures response.Some? ==> items == [response.value] + old(items) && total == old(total) + 1
      ensures current == old(current) && filters == old(filters)
    {
      if response.Some? {
        items := [response.value] + items;
        total := total + 1;
      }
    }

    /**
     * A successful update replaces the first entry with the id, and the open
     * record when it has that id.
     */
    method Updated(id: JsValue, response: Option<Item>)
      modifies this
      ensures response.None? ==> items == old(items) && current == old(current)
      ensures response.Some? ==> items == ReplacedFirst(old(items), id, response.value)
      ensures response.Some? ==>
                current == if old(current).Some? && old(current).value.id == id then response else old(current)
      ensures total == old(total) && filters == old(filters)
    {
      if response.Some? {
        var index := FindIndex(items, id);
        if index != -1 {
          items := items[index := response.value];
        }
        if current.Some? && current.value.id == id {
          current := response;
        }
      }
    }

    /**
     * A successful delete drops every entry with the id, lowers total by one,
     * and closes the open record when it has that id.
     */
    method Deleted(id: JsValue, succeeded: bool)
      modifies this
      ensures !succeeded ==> items == old(items) && total == old(total) && current == old(current)
      ensures succeeded ==> items == RemoveId(old(items), id) && total == old(total) - 1
      ensures succeeded ==> current == if old(current).Some? && old(current).value.id == id then None else old(current)
      ensures filters == old(filters)
    {
      if succeeded {
        items := RemoveId(items, id);
        total := total - 1;
        if current.Some? && current.value.id == id {
          current := None;
        }
      }
    }

    /** filters[key] = value; no other key changes. */
    method SetFilter(key: string, value: JsValue)
      modifies this
      ensures filters == old(filters)[key := value]
      ensures forall k :: k in old(filters) && k != key ==> k in filters && filters[k] == old(filters)[k]
      ensures items == old(items) && current == old(current) && total == old(total)
    {
      filters := filters[key := value];
    }

    /** A shallow merge over the current filters. */
    method SetFilters(incoming: Params)
      modifies this
      ensures filters == Merge(old(filters), incoming)
      ensures items == old(items) && current == old(current) && total == old(total)
    {
      filters := Merge(filters, incoming);
    }

    /** Restores the default filter record, whatever was set before. */
    method ClearFilters()
      modifies this
      ensures filters == defaults
      ensures items == old(items) && current == old(current) && total == old(total)
    {
      filters := defaults;
    }

    method ClearCurrent()
      modifies this
      ensures current == None
      ensures items == old(items) && filters == old(filters) && total == old(total)
    {
      current := None;
    }
  }

  /**
   * The admin screen's store starts from its filter record, and clearFilters
   * brings that record back whatever filters were set in between.
   */
  method AdminStoreClearFilters(incoming: Params) returns (filters: Params)
    ensures filters == AdminFilterDefaults()
    ensures filters["role"] == Str("") && filters["sort_by"] == Str("created_at")
  {
    var store := new ListStore(AdminFilterDefaults());
    store.SetFilters(incoming);
    store.ClearFilters();
    filters := store.filters;
  }

  /** The same for the category and tag screens, with their own record. */
  method TitledStoreClearFilters(incoming: Params) returns (filters: Params)
    ensures filters == TitledFilterDefaults()
    ensures "role" !in filters && filters["date_from"] == Str("")
  {
    var store := new ListStore(TitledFilterDefaults());
    store.SetFilters(incoming);
    store.ClearFilters();
    filters := store.filters;
  }

  /**
   * Deleting a record that appears exactly once keeps total equal to the
   * list length when it was before; a record absent from the loaded page
   * still lowers total.
   */
  lemma DeleteKeepsCount(items: seq<Item>, total: int, id: JsValue)
    requires total == |items| && CountId(items, id) == 1
    ensures total - 1 == |RemoveId(items, id)|
  {
    RemoveIdEffect(items, id);
  }

  /** Creating a record and then deleting it gives back the list as it was. */
  lemma {:induction false} CreateThenDelete(items: seq<Item>, x: Item)
    requires CountId(items, x.id) == 0
    ensures RemoveId([x] + items, x.id) == items
  {
    RemoveIdConcat([x], items, x.id);
    RemoveIdEffect(items, x.id);
  }
}
