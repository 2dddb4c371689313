/**
 * TechnologyWebClientAdapter: reads technologies from the technology service, one
 * GET /technologies/{id} per distinct id, five at a time. As for capacities, `lookup` is the
 * `data` of the answer for one id, None when that call failed in any way; failed calls are dropped.
 * Unlike the capacity adapter, the answers are passed on untouched.
 */
module TechnologyAdapter {
  import opened Wrappers
  import Fanout

  /** A technology as the technology service sends it (the TechnologyDTO class is not part of
      this model; the adapter reads only its id). */
  datatype TechnologyDTO = TechnologyDTO(id: Option<int>, name: Option<string>, description: Option<string>)

  /** The answers of fetchByIds in the order this model lists them (the flux promises none). */
  function Fetched(ids: Option<seq<int>>, lookup: int -> Option<TechnologyDTO>): (r: seq<TechnologyDTO>)
    ensures ids.None? || ids.value == [] ==> r == []
    ensures ids.Some? ==> |r| <= |Fanout.Requests(ids)| <= |ids.value|
    ensures ids.Some? ==> forall t :: t in r ==> exists i :: i in ids.value && lookup(i) == Some(t)
    ensures forall i :: ids.Some? && i in ids.value && lookup(i).Some? ==> lookup(i).value in r
    ensures forall t :: multiset(r)[t] == |Fanout.Answering(Fanout.Requests(ids), lookup, t)|
  {
    Fanout.GatherMembers(Fanout.Requests(ids), lookup);
    Fanout.GatherCount(Fanout.Requests(ids), lookup);
    Fanout.Gather(Fanout.Requests(ids), lookup)
  }

  /** fetchByIds: the answers for the distinct ids that could be read, in no promised order. */
  function FetchByIds(ids: Option<seq<int>>, lookup: int -> Option<TechnologyDTO>): (r: multiset<TechnologyDTO>)
    ensures r == multiset(Fetched(ids, lookup))
    ensures ids.None? || ids.value == [] ==> r == multiset{}
    ensures ids.Some? ==> |r| <= |Fanout.Requests(ids)|
    ensures ids.Some? ==> forall t :: t in r ==> exists i :: i in ids.value && lookup(i) == Some(t)
    ensures forall i :: ids.Some? && i in ids.value && lookup(i).Some? ==> lookup(i).value in r
    ensures forall t :: r[t] == |Fanout.Answering(Fanout.Requests(ids), lookup, t)|
  {
    Fanout.LenientFetch(ids, lookup)
  }

  /** The id lists that name the same technologies fetch the same answers, whatever their order and repetitions. */
  lemma FetchByIdsIgnoresOrderAndRepeats(a: seq<int>, b: seq<int>, lookup: int -> Option<TechnologyDTO>)
    requires forall x :: x in a <==> x in b
    ensures FetchByIds(Some(a), lookup) == FetchByIds(Some(b), lookup)
  {
    Fanout.LenientFetchIgnoresOrderAndRepeats(a, b, lookup);
  }

  /**
   * findExistingIds: the distinct ids carried by the answers, or the error that ends the flux.
   * `timedOut` says whether the 5-second Flux.timeout fired before the flux completed.
   */
  function FindExistingIds(ids: Option<seq<int>>, lookup: int -> Option<TechnologyDTO>, timedOut: bool)
    : (r: Result<set<int>, Fanout.GatewayFailure>)
    ensures ids.None? || ids.value == [] ==> r == Success({})
    ensures ids.Some? && ids.value != [] && timedOut ==> r == Failure(Fanout.Timeout)
    ensures r.Failure? && !timedOut ==> r.error == Fanout.NullId
    ensures ids.Some? && ids.value != [] && !timedOut ==>
              (r == Failure(Fanout.NullId) <==>
               exists i :: i in ids.value && lookup(i).Some? && lookup(i).value.id.None?)
    ensures r.Success? && ids.Some? ==> |r.value| <= |Fanout.Requests(ids)|
    ensures r.Success? && ids.Some? ==> forall x :: x in r.value ==>
              exists i :: i in ids.value && lookup(i).Some? && lookup(i).value.id == Some(x)
    ensures r.Success? && ids.Some? ==> forall i :: i in ids.value && lookup(i).Some? ==>
              lookup(i).value.id.Some? && lookup(i).value.id.value in r.value
  {
    Fanout.FindExistingIds(ids, lookup, IdOf, timedOut)
  }

  function IdOf(t: TechnologyDTO): Option<int> {
    t.id
  }

  /** A service that answers each id with that technology. */
  ghost predicate Honest(lookup: int -> Option<TechnologyDTO>) {
    Fanout.Honest(lookup, IdOf)
  }

  /** Against an honest service, findExistingIds finds exactly the requested ids the service knows. */
  lemma HonestFindExistingIds(ids: seq<int>, lookup: int -> Option<TechnologyDTO>)
    requires Honest(lookup)
    requires ids != []
    ensures FindExistingIds(Some(ids), lookup, false) == Success(set i | i in ids && lookup(i).Some?)
  {
    Fanout.HonestFindExistingIds(ids, lookup, IdOf);
  }
}
