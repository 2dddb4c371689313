/**
 * BootcampMapper: the field copies between the request/response DTO and the domain bootcamp,
 * and the assembly of one list item from a bootcamp and its capacity items.
 */
module Mapper {
  import opened Wrappers
  import opened Domain
  import TechnologyAdapter

  /** The body of POST /bootcamps and the data of its answer. */
  datatype BootcampDTO = BootcampDTO(
    id: Option<int>,
    name: Option<string>,
    description: Option<string>,
    launchDate: Option<Date>,
    duration: Option<int>,
    capacityIds: Option<seq<int>>)

  /** dtoToDomain: a request never chooses the id, so it is dropped; the rest is copied. */
  function DtoToDomain(dto: BootcampDTO): (b: Bootcamp)
    ensures b.id.None?
    ensures b.name == dto.name && b.description == dto.description
    ensures b.launchDate == dto.launchDate && b.duration == dto.duration
    ensures b.capacityIds == dto.capacityIds
  {
    Bootcamp(None, dto.name, dto.description, dto.launchDate, dto.duration, dto.capacityIds)
  }

  /** toDto: all six fields copied. */
  function ToDto(b: Bootcamp): (dto: BootcampDTO)
    ensures dto.id == b.id && dto.name == b.name && dto.description == b.description
    ensures dto.launchDate == b.launchDate && dto.duration == b.duration
    ensures dto.capacityIds == b.capacityIds
  {
    BootcampDTO(b.id, b.name, b.description, b.launchDate, b.duration, b.capacityIds)
  }

  /** A DTO sent through the domain and back comes back unchanged but for its id. */
  lemma DtoRoundTrip(dto: BootcampDTO)
    ensures ToDto(DtoToDomain(dto)) == dto.(id := None)
  {
  }

  /** A bootcamp sent out and read back in comes back unchanged but for its id. */
  lemma DomainRoundTrip(b: Bootcamp)
    ensures DtoToDomain(ToDto(b)) == b.(id := None)
  {
  }

  /** toDto loses nothing: different bootcamps give different DTOs. */
  lemma ToDtoInjective(a: Bootcamp, b: Bootcamp)
    ensures ToDto(a) == ToDto(b) <==> a == b
  {
  }

  // ---------------------------------------------------------------- list items

  /** One capacity of a listed bootcamp, with the technologies it was read with. */
  datatype CapacityListItem = CapacityListItem(
    id: Option<int>,
    name: Option<string>,
    description: Option<string>,
    techCount: int,
    technologies: seq<TechnologyAdapter.TechnologyDTO>)

  /** One bootcamp of a listed page. */
  datatype BootcampListItem = BootcampListItem(
    id: Option<int>,
    name: Option<string>,
    description: Option<string>,
    launchDate: Option<Date>,
    duration: Option<int>,
    capacityCount: int,
    capacities: seq<CapacityListItem>)

  /** toListItemDTO(bootcamp, capacities): the bootcamp's own fields, and the capacities with their count; null counts as none. */
  function ToListItem(b: Bootcamp, capacities: Option<seq<CapacityListItem>>): (item: BootcampListItem)
    ensures item.id == b.id && item.name == b.name && item.description == b.description
    ensures item.launchDate == b.launchDate && item.duration == b.duration
    ensures capacities.Some? ==> item.capacities == capacities.value
    ensures capacities.None? ==> item.capacities == []
    ensures item.capacityCount == |item.capacities|
  {
    var list := capacities.GetOr([]);
    BootcampListItem(b.id, b.name, b.description, b.launchDate, b.duration, |list|, list)
  }

  /** toListItemDTO(bootcamp): the bootcamp with no capacities. */
  function ToListItemAlone(b: Bootcamp): (item: BootcampListItem)
    ensures item.id == b.id && item.name == b.name && item.description == b.description
    ensures item.launchDate == b.launchDate && item.duration == b.duration
    ensures item.capacityCount == 0 && item.capacities == []
  {
    ToListItem(b, Some([]))
  }

  /** A null capacity list and an empty one give the same item, that of the one-argument overload. */
  lemma NullCapacitiesAreNoCapacities(b: Bootcamp)
    ensures ToListItem(b, None) == ToListItem(b, Some([])) == ToListItemAlone(b)
  {
  }
}
