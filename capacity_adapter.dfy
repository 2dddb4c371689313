/**
 * CapacityWebClientAdapter: reads capacities from the capacity service, one GET /capacities/{id}
 * per distinct id, five at a time. The remote call is the parameter `lookup`: the `data` of the
 * answer for that id, or None when the call failed in any way (an error status, a body that does
 * not decode, a null `data`, for which `map(APIResponse::getData)` raises). A failed call is
 * dropped; it never fails the whole flux.
 */
module CapacityAdapter {
  import opened Wrappers
  import Fanout

  /**
   * A capacity as the capacity service sends it. `extra` stands for whatever further properties
   * its payload carries beyond the four the adapter keeps (the CapacityDTO class is not part of
   * this model), by name.
   */
  datatype CapacityDTO = CapacityDTO(
    id: Option<int>,
    name: Option<string>,
    description: Option<string>,
    technologyIds: Option<seq<int>>,
    extra: map<string, string>)

  /** `new CapacityDTO()`: every property null. */
  const EMPTY_CAPACITY := CapacityDTO(None, None, None, None, map[])

  /** toIdNameOnly: a fresh DTO holding the id, name, description and technology ids, nothing more. */
  function ToIdNameOnly(dto: Option<CapacityDTO>): (r: CapacityDTO)
    ensures dto.None? ==> r == EMPTY_CAPACITY
    ensures dto.Some? ==> r.id == dto.value.id && r.name == dto.value.name
                          && r.description == dto.value.description
                          && r.technologyIds == dto.value.technologyIds
    ensures r.extra == map[]
  {
    match dto
    case None => EMPTY_CAPACITY
    case Some(d) => CapacityDTO(d.id, d.name, d.description, d.technologyIds, map[])
  }

  /** The projection is idempotent, and it leaves a DTO alone exactly when there is nothing extra to drop. */
  lemma ProjectionIdempotent(dto: Option<CapacityDTO>)
    ensures ToIdNameOnly(Some(ToIdNameOnly(dto))) == ToIdNameOnly(dto)
    ensures dto.Some? ==> (ToIdNameOnly(dto) == dto.value <==> dto.value.extra == map[])
  {
  }

  /** One remote call followed by toIdNameOnly; a failed call stays failed. */
  function Projected(lookup: int -> Option<CapacityDTO>): int -> Option<CapacityDTO> {
    i => if lookup(i).Some? then Some(ToIdNameOnly(lookup(i))) else None
  }

  lemma ProjectedAt(lookup: int -> Option<CapacityDTO>, i: int)
    ensures Projected(lookup)(i) == if lookup(i).Some? then Some(ToIdNameOnly(lookup(i))) else None
  {
  }

  /** What Gather collects through Projected, stated on the unprojected answers. */
  lemma GatherProjected(req: seq<int>, lookup: int -> Option<CapacityDTO>)
    ensures forall c :: c in Fanout.Gather(req, Projected(lookup)) ==>
              exists i :: i in req && lookup(i).Some? && c == ToIdNameOnly(lookup(i))
    ensures forall i :: i in req && lookup(i).Some? ==>
              ToIdNameOnly(lookup(i)) in Fanout.Gather(req, Projected(lookup))
    ensures (forall i :: i in req ==> lookup(i).Some?) ==> |Fanout.Gather(req, Projected(lookup))| == |req|
  {
    var f := Projected(lookup);
    var r := Fanout.Gather(req, f);
    Fanout.GatherMembers(req, f);
    forall c | c in r ensures exists i :: i in req && lookup(i).Some? && c == ToIdNameOnly(lookup(i)) {
      var i :| i in req && f(i) == Some(c);
      ProjectedAt(lookup, i);
    }
    forall i | i in req && lookup(i).Some? ensures ToIdNameOnly(lookup(i)) in r {
      ProjectedAt(lookup, i);
    }
    if forall i :: i in req ==> lookup(i).Some? {
      forall i | i in req ensures f(i).Some? {
        ProjectedAt(lookup, i);
      }
    }
  }

  /** The requested ids whose answer, once projected, is c. */
  function AnsweredAs(ids: seq<int>, lookup: int -> Option<CapacityDTO>, c: CapacityDTO): set<int> {
    set i | i in ids && lookup(i).Some? && ToIdNameOnly(lookup(i)) == c
  }

  lemma AnsweredAsProjected(ids: seq<int>, lookup: int -> Option<CapacityDTO>)
    ensures forall c :: AnsweredAs(ids, lookup, c) == Fanout.Answering(ids, Projected(lookup), c)
  {
    forall c ensures AnsweredAs(ids, lookup, c) == Fanout.Answering(ids, Projected(lookup), c) {
      forall i | i in ids ensures i in AnsweredAs(ids, lookup, c) <==> i in Fanout.Answering(ids, Projected(lookup), c) {
        ProjectedAt(lookup, i);
      }
    }
  }

  /** The answers of fetchByIds in the order this model lists them (the flux promises none). */
  function Fetched(ids: Option<seq<int>>, lookup: int -> Option<CapacityDTO>): (r: seq<CapacityDTO>)
    ensures ids.None? || ids.value == [] ==> r == []
    ensures ids.Some? ==> |r| <= |Fanout.Requests(ids)| <= |ids.value|
    ensures ids.Some? ==> forall c :: c in r ==>
              exists i :: i in ids.value && lookup(i).Some? && c == ToIdNameOnly(lookup(i))
    ensures forall i :: ids.Some? && i in ids.value && lookup(i).Some? ==> ToIdNameOnly(lookup(i)) in r
    ensures forall c :: c in r ==> c.extra == map[]
    ensures ids.Some? && (forall i :: i in ids.value ==> lookup(i).Some?) ==> |r| == |Fanout.Requests(ids)|
    ensures forall c :: multiset(r)[c] == |AnsweredAs(Fanout.Requests(ids), lookup, c)|
  {
    GatherProjected(Fanout.Requests(ids), lookup);
    Fanout.GatherCount(Fanout.Requests(ids), Projected(lookup));
    AnsweredAsProjected(Fanout.Requests(ids), lookup);
    Fanout.Gather(Fanout.Requests(ids), Projected(lookup))
  }

  /** fetchByIds: the projected answers for the distinct ids that could be read, in no promised order. */
  function FetchByIds(ids: Option<seq<int>>, lookup: int -> Option<CapacityDTO>): (r: multiset<CapacityDTO>)
    ensures ids.None? || ids.value == [] ==> r == multiset{}
    ensures ids.Some? ==> |r| <= |Fanout.Requests(ids)|
    ensures ids.Some? ==> forall c :: c in r ==>
              exists i :: i in ids.value && lookup(i).Some? && c == ToIdNameOnly(lookup(i))
    ensures forall i :: ids.Some? && i in ids.value && lookup(i).Some? ==> ToIdNameOnly(lookup(i)) in r
    ensures forall c :: c in r ==> c.extra == map[]
    ensures forall c :: r[c] == |AnsweredAs(Fanout.Requests(ids), lookup, c)|
  {
    AnsweredAsProjected(Fanout.Requests(ids), lookup);
    Fanout.LenientFetch(ids, Projected(lookup))
  }

  /** fetchByIds is the multiset of Fetched. */
  lemma FetchByIdsIsFetched(ids: Option<seq<int>>, lookup: int -> Option<CapacityDTO>)
    ensures FetchByIds(ids, lookup) == multiset(Fetched(ids, lookup))
  {
  }

  /** The id lists that name the same capacities fetch the same answers, whatever their order and repetitions. */
  lemma FetchByIdsIgnoresOrderAndRepeats(a: seq<int>, b: seq<int>, lookup: int -> Option<CapacityDTO>)
    requires forall x :: x in a <==> x in b
    ensures FetchByIds(Some(a), lookup) == FetchByIds(Some(b), lookup)
  {
    Fanout.LenientFetchIgnoresOrderAndRepeats(a, b, Projected(lookup));
  }

  /**
   * findExistingIds: the distinct ids carried by the answers, or the error that ends the flux.
   * `timedOut` says whether the 5-second Flux.timeout fired before the flux completed.
   */
  function FindExistingIds(ids: Option<seq<int>>, lookup: int -> Option<CapacityDTO>, timedOut: bool)
    : (r: Result<set<int>, Fanout.GatewayFailure>)
    ensures ids.None? || ids.value == [] ==> r == Success({})
    ensures ids.Some? && ids.value != [] && timedOut ==> r == Failure(Fanout.Timeout)
    ensures r.Failure? && !timedOut ==> r.error == Fanout.NullId
    ensures ids.Some? && ids.value != [] && !timedOut ==>
              (r == Failure(Fanout.NullId) <==>
               exists i :: i in ids.value && lookup(i).Some? && lookup(i).value.id.None?)
    ensures r.Success? && ids.Some? ==> |r.value| <= |Fanout.Requests(ids)|
    ensures r.Success? && ids.Some? ==> forall x :: x in r.value ==>
              exists i :: i in ids.value && lookup(i).Some? && lookup(i).value.id == Some(x)
    ensures r.Success? && ids.Some? ==> forall i :: i in ids.value && lookup(i).Some? ==>
              lookup(i).value.id.Some? && lookup(i).value.id.value in r.value
  {
    ProjectedIds(lookup);
    Fanout.FindExistingIds(ids, Projected(lookup), IdOf, timedOut)
  }

  function IdOf(c: CapacityDTO): Option<int> {
    c.id
  }

  /** A projected answer arrives exactly when the raw one does, and carries the same id. */
  lemma ProjectedIds(lookup: int -> Option<CapacityDTO>)
    ensures forall i :: Projected(lookup)(i).Some? == lookup(i).Some?
    ensures forall i :: lookup(i).Some? ==> IdOf(Projected(lookup)(i).value) == lookup(i).value.id
  {
  }

  /** A service that answers each id with that capacity: the ids the service knows. */
  ghost predicate Honest(lookup: int -> Option<CapacityDTO>) {
    Fanout.Honest(lookup, IdOf)
  }

  /**
   * Against an honest service, findExistingIds finds exactly the requested ids the service
   * knows, so its count reaches the number of distinct requested ids exactly when every one exists.
   */
  lemma HonestFindExistingIds(ids: seq<int>, lookup: int -> Option<CapacityDTO>)
    requires Honest(lookup)
    requires ids != []
    ensures FindExistingIds(Some(ids), lookup, false) == Success(set i | i in ids && lookup(i).Some?)
  {
    ProjectedIds(lookup);
    Fanout.HonestFindExistingIds(ids, Projected(lookup), IdOf);
    assert (set i | i in ids && Projected(lookup)(i).Some?) == set i | i in ids && lookup(i).Some?;
  }
}
