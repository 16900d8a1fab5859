// The filters the admin, category and tag index actions build from their
// query parameters: the active/inactive status mapping and the role filter.

module ListingFilters {
  import opened Common

  /**
   * The is_active filter for a status parameter: none when the key is missing
   * or is the empty string, true for "active", false for anything else
   * (a null value included).
   */
  function ActiveFilter(status: Input<string>): (filter: Option<bool>)
    ensures filter.None? <==> status.Absent? || status == Given("")
    ensures filter == Some(true) <==> status == Given("active")
  {
    match status
    case Absent => None
    case Null => Some(false)
    case Given(s) => if s == "" then None else Some(s == "active")
  }

  /** Whether a row with the given is_active column passes the filter (1 is true, 0 false). */
  predicate PassesActiveFilter(isActive: int, filter: Option<bool>) {
    filter.None? || isActive == (if filter.value then 1 else 0)
  }

  /** The role filter applies only for a truthy value: not missing, null, "" or "0". */
  function RoleFilter(role: Input<string>): (filter: Option<string>)
    ensures filter.Some? <==> role.Given? && !PhpEmpty(role.value)
    ensures filter.Some? ==> filter.value == role.value
  {
    if role.Given? && !PhpEmpty(role.value) then Some(role.value) else None
  }

  /**
   * Every row passes exactly one of the "active" and "inactive" listings, and
   * every row passes the unfiltered one.
   */
  lemma ActiveListingsPartition(isActive: int, other: string)
    requires isActive == 0 || isActive == 1
    requires other != "active" && other != ""
    ensures PassesActiveFilter(isActive, ActiveFilter(Given("active"))) !=
            PassesActiveFilter(isActive, ActiveFilter(Given(other)))
    ensures PassesActiveFilter(isActive, ActiveFilter(Absent))
    ensures PassesActiveFilter(isActive, ActiveFilter(Given("")))
  {
  }
}
