// The article record and what the ORM model does around saving it: the
// creating and updating hooks (slug derivation, audit stamps, first
// publication time), the slug helpers, the featured image URL accessor and
// the status query scopes. Str::slug is the parameter slugOf; instants are
// integer seconds.

module ArticleModel {
  import opened Common

  /** The status column: an enum of three values, draft by default. */
  datatype Status = Draft | Scheduled | Published

  function StatusName(s: Status): string {
    match s
    case Draft => "draft"
    case Scheduled => "scheduled"
    case Published => "published"
  }

  /** The validation rule in:draft,scheduled,published, as a parser. */
  function ParseStatus(s: string): (r: Option<Status>)
    ensures r.Some? ==> StatusName(r.value) == s
  {
    if s == "draft" then Some(Draft)
    else if s == "scheduled" then Some(Scheduled)
    else if s == "published" then Some(Published)
    else None
  }

  /** Every status is accepted under its own name, and only under it. */
  lemma ParseStatusName(s: Status, x: string)
    ensures ParseStatus(StatusName(s)) == Some(s)
    ensures ParseStatus(x) == Some(s) <==> x == StatusName(s)
  {
  }

  /**
   * Columns copied verbatim from the request (after the controller has
   * turned inline base64 images into stored URLs).
   */
  datatype Details = Details(
    excerpt: Option<string>,
    content: string,
    categoryId: int,
    metaTitle: Option<string>,
    metaDescription: Option<string>,
    metaKeywords: Option<string>)

  /** One row of the articles table; deletedAt is the soft-delete tombstone. */
  datatype Article = Article(
    id: int,
    title: string,
    slug: string,
    details: Details,
    status: Status,
    scheduledAt: Option<int>,
    publishedAt: Option<int>,
    featuredImage: Option<string>,
    createdBy: int,
    updatedBy: int,
    isActive: int,
    deletedAt: Option<int>)

  /** The creating hook: derive the slug when none is set, stamp both audit fields. */
  function CreatingHook(a: Article, actor: int, slugOf: string -> string): (r: Article)
    ensures r.createdBy == actor && r.updatedBy == actor
    ensures r.slug == if PhpEmpty(a.slug) then slugOf(a.title) else a.slug
    ensures r.(slug := a.slug, createdBy := a.createdBy, updatedBy := a.updatedBy) == a
  {
    a.(slug := if PhpEmpty(a.slug) then slugOf(a.title) else a.slug,
       createdBy := actor,
       updatedBy := actor)
  }

  /**
   * The updating hook, run on a dirty record: `original` is the row as
   * loaded, `a` the attributes after filling.
   */
  function UpdatingHook(original: Article, a: Article, actor: int, now: int, slugOf: string -> string): (r: Article)
    ensures r.updatedBy == actor
    ensures r.slug != a.slug ==> a.title != original.title && a.status != Published
    ensures a.title != original.title && a.status != Published ==> r.slug == slugOf(a.title)
    ensures a.publishedAt.Some? ==> r.publishedAt == a.publishedAt
    ensures r.publishedAt != a.publishedAt <==>
              a.status != original.status && a.status == Published && a.publishedAt.None?
    ensures r.publishedAt != a.publishedAt ==> r.publishedAt == Some(now)
    ensures r.(slug := a.slug, updatedBy := a.updatedBy, publishedAt := a.publishedAt) == a
  {
    var titleDirty := a.title != original.title;
    var statusDirty := a.status != original.status;
    a.(updatedBy := actor,
       slug := if titleDirty && a.status != Published then slugOf(a.title) else a.slug,
       publishedAt := if statusDirty && a.status == Published && a.publishedAt.None? then Some(now) else a.publishedAt)
  }

  /** A published article keeps its slug whatever its title becomes. */
  lemma PublishedKeepsSlug(original: Article, a: Article, actor: int, now: int, slugOf: string -> string)
    requires a.status == Published
    ensures UpdatingHook(original, a, actor, now, slugOf).slug == a.slug
  {
  }

  /** Running the hook again on its own output changes nothing but the stamp it already set. */
  lemma UpdatingHookStable(original: Article, a: Article, actor: int, now: int, slugOf: string -> string)
    requires a.title == original.title
    ensures UpdatingHook(original, UpdatingHook(original, a, actor, now, slugOf), actor, now, slugOf)
            == UpdatingHook(original, a, actor, now, slugOf)
  {
  }

  /**
   * The Eloquent model instance: the attributes being edited and the row as
   * it was loaded, from which dirtiness is judged.
   */
  class ArticleInstance {
    var attributes: Article
    var original: Article

    constructor (row: Article)
      ensures attributes == row && original == row
    {
      attributes := row;
      original := row;
    }

    predicate IsDirty()
      reads this
    {
      attributes != original
    }

    /** Mass assignment of new attribute values. */
    method Fill(values: Article)
      modifies this
      ensures attributes == values && original == old(original)
    {
      attributes := values;
    }

    method Creating(actor: int, slugOf: string -> string)
      modifies this
      ensures attributes == CreatingHook(old(attributes), actor, slugOf)
      ensures original == old(original)
    {
      if PhpEmpty(attributes.slug) {
        attributes := attributes.(slug := slugOf(attributes.title));
      }
      attributes := attributes.(createdBy := actor);
      attributes := attributes.(updatedBy := actor);
    }

    method Updating(actor: int, now: int, slugOf: string -> string)
      modifies this
      ensures attributes == UpdatingHook(original, old(attributes), actor, now, slugOf)
      ensures original == old(original)
    {
      attributes := attributes.(updatedBy := actor);
      if attributes.title != original.title && attributes.status != Published {
        attributes := attributes.(slug := slugOf(attributes.title));
      }
      if attributes.status != original.status && attributes.status == Published && attributes.publishedAt.None? {
        attributes := attributes.(publishedAt := Some(now));
      }
    }

    /**
     * save() on a loaded row: the updating hook runs only when some
     * attribute differs from the loaded row.
     */
    method SaveExisting(actor: int, now: int, slugOf: string -> string)
      modifies this
      ensures attributes == SavedAttributes(original, old(attributes), actor, now, slugOf)
      ensures original == old(original)
    {
      if IsDirty() {
        Updating(actor, now, slugOf);
      }
    }
  }

  /** What saving filled attributes `a` over the loaded row `original` writes. */
  function SavedAttributes(original: Article, a: Article, actor: int, now: int, slugOf: string -> string): (r: Article)
    ensures a == original ==> r == original
    ensures a != original ==> r.updatedBy == actor
  {
    if a == original then a else UpdatingHook(original, a, actor, now, slugOf)
  }

  /** generateUniqueSlug: Str::slug of the title, with no uniqueness probe. */
  function GenerateUniqueSlug(title: string, slugOf: string -> string): (slug: string)
    ensures slug == slugOf(title)
  {
    slugOf(title)
  }

  /** generateUniqueSlugExcluding: the same value; the excluded id is never read. */
  function GenerateUniqueSlugExcluding(title: string, excludeId: int, slugOf: string -> string): (slug: string)
    ensures slug == GenerateUniqueSlug(title, slugOf)
  {
    slugOf(title)
  }

  /** Two titles that Str::slug maps alike get the same "unique" slug, whatever ids are excluded. */
  lemma UniqueSlugIsNotUnique(t1: string, t2: string, id1: int, id2: int, slugOf: string -> string)
    requires slugOf(t1) == slugOf(t2)
    ensures GenerateUniqueSlugExcluding(t1, id1, slugOf) == GenerateUniqueSlugExcluding(t2, id2, slugOf)
    ensures GenerateUniqueSlug(t1, slugOf) == GenerateUniqueSlugExcluding(t2, id2, slugOf)
  {
  }

  /** The featured_image_url accessor: null without an image, else an absolute or /storage/ URL. */
  function FeaturedImageUrl(featuredImage: Option<string>): (url: Option<string>)
    ensures url.None? <==> !PhpTruthy(featuredImage)
    ensures url.Some? && StartsWith(featuredImage.value, "http") ==> url == featuredImage
    ensures url.Some? && !StartsWith(featuredImage.value, "http") ==>
              url.value == "/storage/" + featuredImage.value
  {
    if !PhpTruthy(featuredImage) then None
    else if StartsWith(featuredImage.value, "http") then featuredImage
    else Some("/storage/" + featuredImage.value)
  }

  /** Every URL the accessor yields is absolute or under /storage/, and ends with the stored path. */
  lemma FeaturedImageUrlShape(featuredImage: Option<string>)
    requires PhpTruthy(featuredImage)
    ensures var url := FeaturedImageUrl(featuredImage).value;
            (StartsWith(url, "http") || StartsWith(url, "/storage/")) &&
            url[|url| - |featuredImage.value|..] == featuredImage.value
  {
  }

  /** The published scope: published, active, and with no publication time in the future. */
  predicate InPublishedScope(a: Article, now: int) {
    a.status == Published && a.isActive == 1 && (a.publishedAt.None? || a.publishedAt.value <= now)
  }

  predicate InDraftScope(a: Article) {
    a.status == Draft
  }

  /** The scheduled scope: scheduled for a strictly later instant. */
  predicate InScheduledScope(a: Article, now: int) {
    a.status == Scheduled && a.scheduledAt.Some? && a.scheduledAt.value > now
  }

  /** No article is in two scopes at once. */
  lemma ScopesDisjoint(a: Article, now: int)
    ensures !(InPublishedScope(a, now) && InDraftScope(a))
    ensures !(InPublishedScope(a, now) && InScheduledScope(a, now))
    ensures !(InDraftScope(a) && InScheduledScope(a, now))
  {
  }

  /**
   * Nothing promotes a scheduled article once its time has come: from then on
   * it is in neither the scheduled nor the published scope.
   */
  lemma OverdueScheduledInNoScope(a: Article, now: int)
    requires a.status == Scheduled && a.scheduledAt.Some? && a.scheduledAt.value <= now
    ensures !InScheduledScope(a, now) && !InPublishedScope(a, now) && !InDraftScope(a)
  {
  }
}
