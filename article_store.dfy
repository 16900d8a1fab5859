// The article screen's client store: the loaded list, the article being
// edited, the filters and pagination, and how each API answer updates them.
// A server answer is an input: None stands for a failed request or an
// answer with success false, which changes none of the state modelled here.

module ArticleStore {
  import opened Common
  import opened ClientData

  /** The filter record the store starts with. */
  function DefaultFilters(): Params {
    map["search" := Str(""), "status" := Str(""), "category_id" := Str(""), "author_id" := Str(""),
        "date_from" := Str(""), "date_to" := Str(""),
        "sort_by" := Str("created_at"), "sort_order" := Str("desc")]
  }

  /** One page of the article listing as the API returns it. */
  datatype Page = Page(items: seq<Item>, currentPage: int, lastPage: int, perPage: int, total: int)

  /** The entries whose status property is the given string. */
  function WithStatus(items: seq<Item>, status: string): (r: seq<Item>)
    ensures |r| <= |items|
    ensures forall x :: x in r <==> x in items && "status" in x.data && x.data["status"] == Str(status)
  {
    if |items| == 0 then []
    else if "status" in items[0].data && items[0].data["status"] == Str(status) then
      [items[0]] + WithStatus(items[1..], status)
    else WithStatus(items[1..], status)
  }

  /** The published, draft and scheduled getters never share an entry. */
  lemma StatusGettersDisjoint(items: seq<Item>, x: Item)
    ensures !(x in WithStatus(items, "published") && x in WithStatus(items, "draft"))
    ensures !(x in WithStatus(items, "published") && x in WithStatus(items, "scheduled"))
    ensures !(x in WithStatus(items, "draft") && x in WithStatus(items, "scheduled"))
  {
  }

  /** Together the three getters hold no more entries than the list. */
  lemma {:induction false} StatusGettersBounded(items: seq<Item>)
    ensures |WithStatus(items, "published")| + |WithStatus(items, "draft")| + |WithStatus(items, "scheduled")| <= |items|
  {
    if |items| > 0 {
      StatusGettersBounded(items[1..]);
    }
  }

  class ArticleListStore {
    var articles: seq<Item>
    /** The article open in the editor, or null. */
    var article: Option<Item>
    var filters: Params
    var currentPage: int
    var lastPage: int
    var perPage: int
    var total: int

    constructor ()
      ensures articles == [] && article == None && filters == DefaultFilters()
      ensures currentPage == 1 && lastPage == 1 && perPage == 15 && total == 0
    {
      articles := [];
      article := None;
      filters := DefaultFilters();
      currentPage := 1;
      lastPage := 1;
      perPage := 15;
      total := 0;
    }

    function PublishedArticles(): seq<Item>
      reads this
    {
      WithStatus(articles, "published")
    }

    function DraftArticles(): seq<Item>
      reads this
    {
      WithStatus(articles, "draft")
    }

    function ScheduledArticles(): seq<Item>
      reads this
    {
      WithStatus(articles, "scheduled")
    }

    /**
     * The query fetchArticles sends: page and per_page, then the filters
     * spread over them, with "", null and undefined values dropped.
     */
    method FetchParams() returns (query: Params)
      ensures query == Pruned(Merge(map["page" := Num(currentPage), "per_page" := Num(perPage)], filters), true)
    {
      var params := Merge(map["page" := Num(currentPage), "per_page" := Num(perPage)], filters);
      query := PruneParams(params, true);
    }

    /** fetchArticles: a successful answer replaces the list and the pagination. */
    method FetchArticles(response: Option<Page>)
      modifies this
      ensures response.None? ==>
                articles == old(articles) && total == old(total) && currentPage == old(currentPage) &&
                lastPage == old(lastPage) && perPage == old(perPage)
      ensures response.Some? ==>
                articles == response.value.items && currentPage == response.value.currentPage &&
                lastPage == response.value.lastPage && perPage == response.value.perPage &&
                total == response.value.total
      ensures article == old(article) && filters == old(filters)
    {
      if response.Some? {
        articles := response.value.items;
        currentPage := response.value.currentPage;
        lastPage := response.value.lastPage;
        perPage := response.value.perPage;
        total := response.value.total;
      }
    }

    /** createArticle: the answer becomes the open article; the list is not touched. */
    method CreateArticle(response: Option<Item>)
      modifies this
      ensures article == if response.Some? then response else old(article)
      ensures articles == old(articles) && filters == old(filters) && total == old(total)
      ensures currentPage == old(currentPage) && lastPage == old(lastPage) && perPage == old(perPage)
    {
      if response.Some? {
        article := response;
      }
    }

    /**
     * updateArticle: the answer becomes the open article and replaces the
     * first list entry with the id, if there is one.
     */
    method UpdateArticle(id: JsValue, response: Option<Item>)
      modifies this
      ensures response.None? ==> articles == old(articles) && article == old(article)
      ensures response.Some? ==>
                article == response && articles == ReplacedFirst(old(articles), id, response.value)
      ensures filters == old(filters) && total == old(total)
      ensures currentPage == old(currentPage) && lastPage == old(lastPage) && perPage == old(perPage)
    {
      if response.Some? {
        article := response;
        var index := FindIndex(articles, id);
        if index != -1 {
          articles := articles[index := response.value];
        }
      }
    }

    /** deleteArticle: every entry with the id leaves the list, in order; total is not adjusted. */
    method DeleteArticle(id: JsValue, succeeded: bool)
      modifies this
      ensures articles == if succeeded then RemoveId(old(articles), id) else old(articles)
      ensures article == old(article) && filters == old(filters) && total == old(total)
      ensures currentPage == old(currentPage) && lastPage == old(lastPage) && perPage == old(perPage)
    {
      if succeeded {
        articles := RemoveId(articles, id);
      }
    }

    /** bulkDeleteArticles: exactly the entries whose id is listed leave the list. */
    method BulkDeleteArticles(ids: seq<JsValue>, succeeded: bool)
      modifies this
      ensures articles == if succeeded then RemoveIds(old(articles), ids) else old(articles)
      ensures article == old(article) && filters == old(filters) && total == old(total)
      ensures currentPage == old(currentPage) && lastPage == old(lastPage) && perPage == old(perPage)
    {
      if succeeded {
        articles := RemoveIds(articles, ids);
      }
    }

    /** setFilters: a shallow merge over the current filters. */
    method SetFilters(incoming: Params)
      modifies this
      ensures filters == Merge(old(filters), incoming)
      ensures articles == old(articles) && article == old(article) && currentPage == old(currentPage)
      ensures lastPage == old(lastPage) && perPage == old(perPage) && total == old(total)
    {
      filters := Merge(filters, incoming);
    }

    /** setPage: only the current page changes. */
    method SetPage(page: int)
      modifies this
      ensures currentPage == page
      ensures articles == old(articles) && article == old(article) && filters == old(filters)
      ensures lastPage == old(lastPage) && perPage == old(perPage) && total == old(total)
    {
      currentPage := page;
    }

    /**
     * publishArticle and scheduleArticle: the answer replaces the first list
     * entry with the id, and the open article when it has that id.
     */
    method ArticleTransitioned(id: JsValue, response: Option<Item>)
      modifies this
      ensures response.None? ==> articles == old(articles) && article == old(article)
      ensures response.Some? ==> articles == ReplacedFirst(old(articles), id, response.value)
      ensures response.Some? ==>
                article == if old(article).Some? && old(article).value.id == id then response else old(article)
      ensures filters == old(filters) && total == old(total)
      ensures currentPage == old(currentPage) && lastPage == old(lastPage) && perPage == old(perPage)
    {
      if response.Some? {
        var index := FindIndex(articles, id);
        if index != -1 {
          articles := articles[index := response.value];
        }
        if article.Some? && article.value.id == id {
          article := response;
        }
      }
    }
  }
}
