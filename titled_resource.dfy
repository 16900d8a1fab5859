// Categories and tags: two tables with the same shape (a unique title and an
// is_active flag) and the same store/update rules, written out once.

module TitledResource {
  import opened Common

  /** One category or tag. */
  datatype Entry = Entry(id: int, title: string, isActive: int)

  /**
   * A store or update request. is_active is Absent when the key is missing
   * and Null when it was sent empty. otherErrors holds the failed rules the
   * model does not evaluate, keyed by field name: title's string rule.
   */
  datatype TitledRequest = TitledRequest(title: string, isActive: Input<int>, otherErrors: set<string>)

  const MaxTitleLength: nat := 255

  /** Another entry than `self` already has the title. */
  predicate TitleTaken(entries: map<int, Entry>, title: string, self: Option<int>) {
    exists id :: id in entries && Some(id) != self && entries[id].title == title
  }

  /**
   * The validator's error keys: the title is required, at most 255
   * characters and unused by any other entry; is_active, when sent, is a
   * boolean (0 or 1), which null is not. Every other verdict passes through.
   */
  function ValidationErrors(entries: map<int, Entry>, req: TitledRequest, self: Option<int>): (errors: set<string>)
    ensures req.otherErrors <= errors <= req.otherErrors + {"title", "is_active"}
    ensures "title" in errors <==>
              "title" in req.otherErrors || req.title == "" || |req.title| > MaxTitleLength ||
              TitleTaken(entries, req.title, self)
    ensures "is_active" in errors <==>
              "is_active" in req.otherErrors || req.isActive.Null? ||
              (req.isActive.Given? && req.isActive.value != 0 && req.isActive.value != 1)
  {
    req.otherErrors
    + (if req.title == "" || |req.title| > MaxTitleLength || TitleTaken(entries, req.title, self) then {"title"} else {})
    + (if req.isActive.Null? || (req.isActive.Given? && req.isActive.value != 0 && req.isActive.value != 1)
       then {"is_active"} else {})
  }

  /** A null is_active never reaches a row: the boolean rule refuses it. */
  lemma NullActiveRefused(entries: map<int, Entry>, req: TitledRequest, self: Option<int>)
    requires ValidationErrors(entries, req, self) == {}
    ensures !req.isActive.Null?
  {
    assert "is_active" !in ValidationErrors(entries, req, self);
  }

  /**
   * The entry written by store or update: the title, and is_active defaulting
   * to 1 (true) on both. Only a request that passed validation is written, so
   * is_active is never null here.
   */
  function Written(id: int, req: TitledRequest): (e: Entry)
    requires !req.isActive.Null?
    ensures e.id == id && e.title == req.title
    ensures e.isActive == if req.isActive.Given? then req.isActive.value else 1
  {
    Entry(id, req.title, if req.isActive.Given? then req.isActive.value else 1)
  }

  /** Keeping its own title never trips the uniqueness rule on update. */
  lemma OwnTitleAllowed(entries: map<int, Entry>, id: int, req: TitledRequest)
    requires id in entries && entries[id].title == req.title
    requires forall i, j :: i in entries && j in entries && i != j ==> entries[i].title != entries[j].title
    ensures "title" in ValidationErrors(entries, req, Some(id)) <==>
              "title" in req.otherErrors || req.title == "" || |req.title| > MaxTitleLength
  {
  }

  /** A title held by some other entry is refused, on store and on update alike. */
  lemma OtherTitleRefused(entries: map<int, Entry>, other: int, self: Option<int>, req: TitledRequest)
    requires other in entries && Some(other) != self && entries[other].title == req.title
    ensures "title" in ValidationErrors(entries, req, self)
  {
  }

  /** The categories (or tags) table. */
  class TitledTable {
    var entries: map<int, Entry>
    var nextId: int

    /** Ids are keys below nextId and titles are unique. */
    predicate Valid()
      reads this
    {
      (forall id :: id in entries ==> entries[id].id == id && id < nextId) &&
      (forall i, j :: i in entries && j in entries && i != j ==> entries[i].title != entries[j].title)
    }

    constructor ()
      ensures Valid() && entries == map[]
    {
      entries := map[];
      nextId := 1;
    }

    method Store(req: TitledRequest) returns (resp: Response)
      requires Valid()
      modifies this
      ensures Valid()
      ensures ValidationErrors(old(entries), req, None) != {} ==>
                resp == Invalid(ValidationErrors(old(entries), req, None)) &&
                entries == old(entries) && nextId == old(nextId)
      ensures ValidationErrors(old(entries), req, None) == {} ==>
                resp == Ok(201) && nextId == old(nextId) + 1 &&
                entries == old(entries)[old(nextId) := Written(old(nextId), req)]
    {
      var errors := ValidationErrors(entries, req, None);
      if errors != {} {
        return Invalid(errors);
      }
      entries := entries[nextId := Written(nextId, req)];
      nextId := nextId + 1;
      resp := Ok(201);
    }

    /** Writes the title and is_active of an existing entry; nothing else changes. */
    method Update(id: int, req: TitledRequest) returns (resp: Response)
      requires Valid()
      modifies this
      ensures Valid() && nextId == old(nextId)
      ensures id !in old(entries) ==> resp == NotFound && entries == old(entries)
      ensures id in old(entries) && ValidationErrors(old(entries), req, Some(id)) != {} ==>
                resp == Invalid(ValidationErrors(old(entries), req, Some(id))) && entries == old(entries)
      ensures id in old(entries) && ValidationErrors(old(entries), req, Some(id)) == {} ==>
                resp == Ok(200) && entries == old(entries)[id := Written(id, req)]
    {
      if id !in entries {
        return NotFound;
      }
      var errors := ValidationErrors(entries, req, Some(id));
      if errors != {} {
        return Invalid(errors);
      }
      entries := entries[id := Written(id, req)];
      resp := Ok(200);
    }
  }
}
