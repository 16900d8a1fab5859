// The article API's write operations over the articles table: request
// validation, the status and published_at rules of store/update, publish,
// schedule, soft delete and bulk delete. The table is a map from id to row;
// the unique index on slug covers soft-deleted rows too.

module ArticleController {
  import opened Common
  import opened ArticleModel
  import Decimal

  /**
   * The fields of a store or update request after the framework has parsed
   * them; an is_active sent empty arrives as null. otherErrors holds the
   * failed rules this model does not evaluate, keyed by field name: the
   * string rules of title and content, the date rule of scheduled_at (a text
   * that is no date, whose value here then means nothing), category and tag
   * existence, image type and size, and the meta field lengths.
   */
  datatype ArticleRequest = ArticleRequest(
    title: string,
    details: Details,
    status: string,
    scheduledAt: Input<int>,
    isActive: Input<int>,
    featuredImage: Option<string>,
    otherErrors: set<string>)

  const TitleMaxLength: nat := 255

  /** The fields whose rules the model evaluates itself. */
  const ModelledFields: set<string> := {"title", "content", "status", "scheduled_at", "is_active"}

  /** The validator's error keys for a store or update request. */
  function ValidationErrors(req: ArticleRequest, now: int): (errors: set<string>)
    ensures "title" in errors <==> "title" in req.otherErrors || req.title == "" || |req.title| > TitleMaxLength
    ensures "content" in errors <==> "content" in req.otherErrors || req.details.content == ""
    ensures "status" in errors <==> "status" in req.otherErrors || ParseStatus(req.status).None?
    ensures "scheduled_at" in errors <==>
              "scheduled_at" in req.otherErrors || (req.scheduledAt.Given? && req.scheduledAt.value <= now)
    ensures "is_active" in errors <==>
              "is_active" in req.otherErrors || (req.isActive.Given? && !(0 <= req.isActive.value <= 1))
    ensures errors - ModelledFields == req.otherErrors - ModelledFields
  {
    req.otherErrors
    + (if req.title == "" || |req.title| > TitleMaxLength then {"title"} else {})
    + (if req.details.content == "" then {"content"} else {})
    + (if ParseStatus(req.status).None? then {"status"} else {})
    + (if req.scheduledAt.Given? && req.scheduledAt.value <= now then {"scheduled_at"} else {})
    + (if req.isActive.Given? && !(0 <= req.isActive.value <= 1) then {"is_active"} else {})
  }

  /**
   * The two rejection steps store and update share: the validator, then the
   * explicit check that a scheduled status comes with a date.
   */
  function RequestCheck(req: ArticleRequest, now: int): (rejection: Option<set<string>>)
    ensures rejection.Some? ==> rejection.value != {}
    ensures rejection.None? ==> ValidationErrors(req, now) == {}
  {
    var errors := ValidationErrors(req, now);
    if errors != {} then Some(errors)
    else if req.status == "scheduled" && !req.scheduledAt.Given? then Some({"scheduled_at"})
    else None
  }

  /** An accepted request names a valid status, and any date it carries is strictly in the future. */
  lemma AcceptedRequest(req: ArticleRequest, now: int)
    requires RequestCheck(req, now).None?
    ensures ParseStatus(req.status).Some?
    ensures req.scheduledAt.Given? ==> req.scheduledAt.value > now
    ensures req.status == "scheduled" ==> req.scheduledAt.Given? && req.scheduledAt.value > now
  {
  }

  /**
   * A scheduled status without a date is refused; when every rule passed, the
   * refusal is the single error under scheduled_at.
   */
  lemma ScheduledNeedsDate(req: ArticleRequest, now: int)
    requires req.status == "scheduled" && !req.scheduledAt.Given?
    ensures RequestCheck(req, now).Some?
    ensures ValidationErrors(req, now) == {} ==> RequestCheck(req, now) == Some({"scheduled_at"})
  {
  }

  /** A status outside the enum is refused with an error under status. */
  lemma UnknownStatusRefused(req: ArticleRequest, now: int)
    requires req.status !in {"draft", "scheduled", "published"}
    ensures RequestCheck(req, now).Some? && "status" in RequestCheck(req, now).value
  {
  }

  /** The value a nullable date column takes when the key is missing, null or given. */
  function AssignDate(current: Option<int>, input: Input<int>): Option<int> {
    match input
    case Absent => current
    case Null => None
    case Given(t) => Some(t)
  }

  /**
   * The row store() fills before the creating hook; no slug is copied from
   * the request. A null is_active never becomes a row: the column is NOT NULL,
   * so the insert fails (Store answers 500 for it).
   */
  function NewArticle(req: ArticleRequest, id: int, now: int): (a: Article)
    requires ParseStatus(req.status).Some? && !req.isActive.Null?
    ensures a.slug == "" && a.deletedAt.None?
    ensures a.publishedAt.Some? <==> req.status == "published"
  {
    var status := ParseStatus(req.status).value;
    Article(
      id, req.title, "", req.details, status,
      AssignDate(None, req.scheduledAt),
      if req.status == "published" then Some(now) else None,
      req.featuredImage, 0, 0, if req.isActive.Given? then req.isActive.value else 1, None)
  }

  /** The row store() inserts. */
  function CreatedArticle(req: ArticleRequest, id: int, actor: int, now: int, slugOf: string -> string): Article
    requires ParseStatus(req.status).Some? && !req.isActive.Null?
  {
    CreatingHook(NewArticle(req, id, now), actor, slugOf)
  }

  /**
   * A created article takes its slug from its title, both audit stamps from
   * the actor, a publication time exactly when it is created published, and
   * is_active 1 unless the request says otherwise.
   */
  lemma CreatedArticleFields(req: ArticleRequest, id: int, actor: int, now: int, slugOf: string -> string)
    requires ParseStatus(req.status).Some? && !req.isActive.Null?
    ensures var a := CreatedArticle(req, id, actor, now, slugOf);
            a.slug == slugOf(req.title) && a.title == req.title &&
            a.createdBy == actor && a.updatedBy == actor &&
            StatusName(a.status) == req.status &&
            (a.publishedAt == if req.status == "published" then Some(now) else None) &&
            (req.isActive.Absent? ==> a.isActive == 1) &&
            a.deletedAt.None?
  {
  }

  /**
   * The attributes update() fills into the loaded row, before saving. As on
   * store, a null is_active makes the save fail instead.
   */
  function UpdateFill(row: Article, req: ArticleRequest, now: int): (a: Article)
    requires ParseStatus(req.status).Some? && !req.isActive.Null?
    ensures a.id == row.id && a.slug == row.slug && a.deletedAt == row.deletedAt
    ensures a.createdBy == row.createdBy && a.updatedBy == row.updatedBy
  {
    var status := ParseStatus(req.status).value;
    row.(title := req.title,
         details := req.details,
         status := status,
         scheduledAt := AssignDate(row.scheduledAt, req.scheduledAt),
         isActive := if req.isActive.Given? then req.isActive.value else row.isActive,
         featuredImage := if req.featuredImage.Some? then req.featuredImage else row.featuredImage,
         publishedAt := if status == Published && row.status != Published then Some(now) else row.publishedAt)
  }

  /** The row update() writes: the filled attributes, saved (and hooked when dirty). */
  function UpdatedArticle(row: Article, req: ArticleRequest, actor: int, now: int, slugOf: string -> string): Article
    requires ParseStatus(req.status).Some? && !req.isActive.Null?
  {
    SavedAttributes(row, UpdateFill(row, req, now), actor, now, slugOf)
  }

  /**
   * published_at after an update: restamped exactly when the article moves
   * into published from another status (even if it was published before), and
   * otherwise left as it was. The hook's own published_at branch adds nothing.
   */
  lemma UpdatePublishedAt(row: Article, req: ArticleRequest, actor: int, now: int, slugOf: string -> string)
    requires ParseStatus(req.status).Some? && !req.isActive.Null?
    ensures UpdatedArticle(row, req, actor, now, slugOf).publishedAt ==
            if req.status == "published" && row.status != Published then Some(now) else row.publishedAt
    ensures UpdatingHook(row, UpdateFill(row, req, now), actor, now, slugOf).publishedAt ==
            UpdateFill(row, req, now).publishedAt
  {
  }

  /**
   * The slug after an update: rederived from the new title exactly when the
   * title changed and the new status is not published.
   */
  lemma UpdateSlug(row: Article, req: ArticleRequest, actor: int, now: int, slugOf: string -> string)
    requires ParseStatus(req.status).Some? && !req.isActive.Null?
    ensures UpdatedArticle(row, req, actor, now, slugOf).slug ==
            if req.title != row.title && req.status != "published" then slugOf(req.title) else row.slug
  {
  }

  /**
   * updated_by is restamped whenever the update changes anything; an update
   * that changes nothing leaves the row, updated_by included, as it was.
   */
  lemma UpdateStamps(row: Article, req: ArticleRequest, actor: int, now: int, slugOf: string -> string)
    requires ParseStatus(req.status).Some? && !req.isActive.Null?
    ensures var a := UpdatedArticle(row, req, actor, now, slugOf);
            (UpdateFill(row, req, now) != row ==> a.updatedBy == actor) &&
            (UpdateFill(row, req, now) == row ==> a == row)
  {
  }

  /** Whether another row (live or soft-deleted) already holds the slug. */
  predicate SlugTaken(rows: map<int, Article>, slug: string, self: Option<int>) {
    exists id :: id in rows && Some(id) != self && rows[id].slug == slug
  }

  predicate SlugsUnique(rows: map<int, Article>) {
    forall i, j :: i in rows && j in rows && i != j ==> rows[i].slug != rows[j].slug
  }

  /** Route model binding finds only rows that are not soft-deleted. */
  predicate Live(rows: map<int, Article>, id: int) {
    id in rows && rows[id].deletedAt.None?
  }

  /** The bulk delete validator's error keys: ids must be a non-empty list of existing ids. */
  function BulkDeleteErrors(rows: map<int, Article>, ids: seq<int>): (errors: set<string>)
    ensures errors == {} <==> |ids| > 0 && forall k :: 0 <= k < |ids| ==> ids[k] in rows
  {
    if |ids| == 0 then {"ids"}
    else
      var bad := set k | 0 <= k < |ids| && ids[k] !in rows :: "ids." + Decimal.NatToString(k);
      assert forall k :: 0 <= k < |ids| && ids[k] !in rows ==> "ids." + Decimal.NatToString(k) in bad;
      bad
  }

  /** The rows after soft-deleting every live row whose id is listed. */
  function BulkDeleted(rows: map<int, Article>, ids: seq<int>, now: int): (r: map<int, Article>)
    ensures r.Keys == rows.Keys
    ensures forall id :: id in rows ==>
              r[id] == if id in ids && rows[id].deletedAt.None? then rows[id].(deletedAt := Some(now)) else rows[id]
  {
    map id | id in rows :: if id in ids && rows[id].deletedAt.None? then rows[id].(deletedAt := Some(now)) else rows[id]
  }

  /** After a bulk delete at now, no listed id is live and every unlisted row is untouched. */
  lemma BulkDeletedEffect(rows: map<int, Article>, ids: seq<int>, now: int)
    ensures forall id :: id in ids ==> !Live(BulkDeleted(rows, ids, now), id)
    ensures forall id :: id in rows && id !in ids ==> BulkDeleted(rows, ids, now)[id] == rows[id]
    ensures forall id :: id in rows && rows[id].deletedAt.Some? ==> BulkDeleted(rows, ids, now)[id] == rows[id]
  {
  }

  /** The articles table. */
  class ArticleTable {
    var rows: map<int, Article>
    /** The id the next insert receives. */
    var nextId: int

    /**
     * Each row is stored under its own id, below nextId; the slug index is
     * unique over all rows; a scheduled article has a date.
     */
    predicate Valid()
      reads this
    {
      (forall id :: id in rows ==> rows[id].id == id && id < nextId) &&
      SlugsUnique(rows) &&
      (forall id :: id in rows && rows[id].status == Scheduled ==> rows[id].scheduledAt.Some?)
    }

    constructor ()
      ensures Valid() && rows == map[]
    {
      rows := map[];
      nextId := 1;
    }

    method Store(req: ArticleRequest, actor: int, now: int, slugOf: string -> string) returns (resp: Response)
      requires Valid()
      modifies this
      ensures Valid()
      ensures RequestCheck(req, now).Some? ==>
                resp == Invalid(RequestCheck(req, now).value) && rows == old(rows) && nextId == old(nextId)
      ensures RequestCheck(req, now).None? && req.isActive.Null? ==>
                resp == Failed && rows == old(rows) && nextId == old(nextId)
      ensures RequestCheck(req, now).None? && !req.isActive.Null? ==>
                var a := CreatedArticle(req, old(nextId), actor, now, slugOf);
                if SlugTaken(old(rows), a.slug, None) then
                  resp == Failed && rows == old(rows) && nextId == old(nextId)
                else
                  resp == Ok(201) && rows == old(rows)[old(nextId) := a] && nextId == old(nextId) + 1
    {
      var rejection := RequestCheck(req, now);
      if rejection.Some? {
        return Invalid(rejection.value);
      }
      if req.isActive.Null? {
        return Failed;
      }
      var instance := new ArticleInstance(NewArticle(req, nextId, now));
      instance.Creating(actor, slugOf);
      var a := instance.attributes;
      if SlugTaken(rows, a.slug, None) {
        return Failed;
      }
      rows := rows[nextId := a];
      nextId := nextId + 1;
      resp := Ok(201);
    }

    method Update(id: int, req: ArticleRequest, actor: int, now: int, slugOf: string -> string) returns (resp: Response)
      requires Valid()
      modifies this
      ensures Valid() && nextId == old(nextId)
      ensures !Live(old(rows), id) ==> resp == NotFound && rows == old(rows)
      ensures Live(old(rows), id) && RequestCheck(req, now).Some? ==>
                resp == Invalid(RequestCheck(req, now).value) && rows == old(rows)
      ensures Live(old(rows), id) && RequestCheck(req, now).None? && req.isActive.Null? ==>
                resp == Failed && rows == old(rows)
      ensures Live(old(rows), id) && RequestCheck(req, now).None? && !req.isActive.Null? ==>
                var a := UpdatedArticle(old(rows)[id], req, actor, now, slugOf);
                if SlugTaken(old(rows), a.slug, Some(id)) then
                  resp == Failed && rows == old(rows)
                else
                  resp == Ok(200) && rows == old(rows)[id := a]
    {
      if !Live(rows, id) {
        return NotFound;
      }
      var rejection := RequestCheck(req, now);
      if rejection.Some? {
        return Invalid(rejection.value);
      }
      if req.isActive.Null? {
        return Failed;
      }
      var instance := new ArticleInstance(rows[id]);
      instance.Fill(UpdateFill(rows[id], req, now));
      instance.SaveExisting(actor, now, slugOf);
      var a := instance.attributes;
      if SlugTaken(rows, a.slug, Some(id)) {
        return Failed;
      }
      UpdateKeepsValid(rows, nextId, id, req, actor, now, slugOf);
      rows := rows[id := a];
      resp := Ok(200);
    }

    /** Soft delete: the row stays, with its slug still reserved, but is no longer live. */
    method Destroy(id: int, now: int) returns (resp: Response)
      requires Valid()
      modifies this
      ensures Valid() && nextId == old(nextId)
      ensures !Live(old(rows), id) ==> resp == NotFound && rows == old(rows)
      ensures Live(old(rows), id) ==>
                resp == Ok(200) && rows == old(rows)[id := old(rows)[id].(deletedAt := Some(now))]
    {
      if !Live(rows, id) {
        return NotFound;
      }
      rows := rows[id := rows[id].(deletedAt := Some(now))];
      resp := Ok(200);
    }

    /** All or nothing: one unknown id (or an empty list) rejects the request and deletes nothing. */
    method BulkDelete(ids: seq<int>, now: int) returns (resp: Response)
      requires Valid()
      modifies this
      ensures Valid() && nextId == old(nextId)
      ensures BulkDeleteErrors(old(rows), ids) != {} ==>
                resp == Invalid(BulkDeleteErrors(old(rows), ids)) && rows == old(rows)
      ensures BulkDeleteErrors(old(rows), ids) == {} ==>
                resp == Ok(200) && rows == BulkDeleted(old(rows), ids, now)
    {
      var errors := BulkDeleteErrors(rows, ids);
      if errors != {} {
        return Invalid(errors);
      }
      rows := BulkDeleted(rows, ids, now);
      resp := Ok(200);
    }

    /** Publish: status published and published_at now, overwriting any earlier value. */
    method Publish(id: int, actor: int, now: int, slugOf: string -> string) returns (resp: Response)
      requires Valid()
      modifies this
      ensures Valid() && nextId == old(nextId)
      ensures !Live(old(rows), id) ==> resp == NotFound && rows == old(rows)
      ensures Live(old(rows), id) ==>
                resp == Ok(200) &&
                rows == old(rows)[id := old(rows)[id].(status := Published, publishedAt := Some(now), updatedBy := actor)]
    {
      if !Live(rows, id) {
        return NotFound;
      }
      var instance := new ArticleInstance(rows[id]);
      instance.Fill(rows[id].(status := Published, publishedAt := Some(now), updatedBy := actor));
      instance.SaveExisting(actor, now, slugOf);
      SlugsUniqueUpdate(rows, id, instance.attributes);
      rows := rows[id := instance.attributes];
      resp := Ok(200);
    }

    /**
     * Schedule: a date the date rule accepts (dateParses) and strictly in the
     * future is required; status becomes scheduled and published_at is left
     * alone.
     */
    method Schedule(id: int, scheduledAt: Input<int>, dateParses: bool, actor: int, now: int, slugOf: string -> string)
      returns (resp: Response)
      requires Valid()
      modifies this
      ensures Valid() && nextId == old(nextId)
      ensures !Live(old(rows), id) ==> resp == NotFound && rows == old(rows)
      ensures Live(old(rows), id) && !(dateParses && scheduledAt.Given? && scheduledAt.value > now) ==>
                resp == Invalid({"scheduled_at"}) && rows == old(rows)
      ensures Live(old(rows), id) && dateParses && scheduledAt.Given? && scheduledAt.value > now ==>
                resp == Ok(200) &&
                rows == old(rows)[id := old(rows)[id].(status := Scheduled, scheduledAt := Some(scheduledAt.value), updatedBy := actor)]
    {
      if !Live(rows, id) {
        return NotFound;
      }
      if !(dateParses && scheduledAt.Given? && scheduledAt.value > now) {
        return Invalid({"scheduled_at"});
      }
      var instance := new ArticleInstance(rows[id]);
      instance.Fill(rows[id].(status := Scheduled, scheduledAt := Some(scheduledAt.value), updatedBy := actor));
      instance.SaveExisting(actor, now, slugOf);
      SlugsUniqueUpdate(rows, id, instance.attributes);
      rows := rows[id := instance.attributes];
      resp := Ok(200);
    }
  }

  /** Replacing a row by one with the same slug keeps the slugs unique. */
  lemma SlugsUniqueUpdate(rows: map<int, Article>, id: int, a: Article)
    requires SlugsUnique(rows) && id in rows && a.slug == rows[id].slug
    ensures SlugsUnique(rows[id := a])
  {
  }

  /** An update that passed the slug index keeps the table's invariant. */
  lemma UpdateKeepsValid(rows: map<int, Article>, nextId: int, id: int, req: ArticleRequest,
                         actor: int, now: int, slugOf: string -> string)
    requires id in rows && rows[id].id == id
    requires RequestCheck(req, now).None? && !req.isActive.Null?
    requires !SlugTaken(rows, UpdatedArticle(rows[id], req, actor, now, slugOf).slug, Some(id))
    ensures var a := UpdatedArticle(rows[id], req, actor, now, slugOf);
            a.id == id &&
            (SlugsUnique(rows) ==> SlugsUnique(rows[id := a])) &&
            (a.status == Scheduled ==> a.scheduledAt.Some?)
  {
    AcceptedRequest(req, now);
  }
}
