/** The domain model: a bootcamp and the two listing choices. */
module Domain {
  import opened Wrappers

  /** java.time.LocalDate, carried as a value: the service only copies it. */
  datatype Date = Date(year: int, month: nat, day: nat)

  /**
   * Bootcamp: every field is a nullable Java reference, so every field is an Option.
   * capacityIds keeps the order in which the client sent them.
   */
  datatype Bootcamp = Bootcamp(
    id: Option<int>,
    name: Option<string>,
    description: Option<string>,
    launchDate: Option<Date>,
    duration: Option<int>,
    capacityIds: Option<seq<int>>)

  datatype SortBy = Name | CapacityCount

  datatype Order = Asc | Desc
}
