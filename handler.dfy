/**
 * BootcampHandlerImpl: the HTTP surface. Query parameters become a page request and the two
 * listing choices; a listed page is decorated with each bootcamp's capacities and each
 * capacity's technologies; failures become 400, 404 or 500 answers. The remote services are
 * the lookups `capacities` and `technologies`, as in the adapters; `messageId` is the
 * X_MESSAGE_ID header, null when absent.
 */
module Handler {
  import opened Wrappers
  import opened JavaText
  import opened Domain
  import opened Pages
  import opened Repository
  import opened PersistenceAdapter
  import opened Mapper
  import Messages
  import Fanout
  import CapacityAdapter
  import TechnologyAdapter
  import UseCase

  // ---------------------------------------------------------------- query parameters

  /** parseInt(v, def): Integer.parseInt, or the default when it throws. */
  function ParseIntOr(v: string, default: Int32): (r: Int32)
    ensures ParseInt(v).Some? ==> r == ParseInt(v).value
    ensures ParseInt(v).None? ==> r == default
  {
    match ParseInt(v)
    case Some(n) => n
    case None => default
  }

  /** `page`: absent means "0"; unparseable means 0. */
  function PageParam(q: Option<string>): (r: Int32)
    ensures q.None? ==> r == 0
    ensures q.Some? && ParseInt(q.value).None? ==> r == 0
    ensures q.Some? && ParseInt(q.value).Some? ==> r == ParseInt(q.value).value
  {
    assert ParseInt("0") == Some(0) by { ParseIntOfToDecimal(0); }
    ParseIntOr(q.GetOr("0"), 0)
  }

  /** `size`: absent means "10"; unparseable means 10. */
  function SizeParam(q: Option<string>): (r: Int32)
    ensures q.None? ==> r == 10
    ensures q.Some? && ParseInt(q.value).None? ==> r == 10
    ensures q.Some? && ParseInt(q.value).Some? ==> r == ParseInt(q.value).value
  {
    assert ParseInt("10") == Some(10) by { ParseIntOfToDecimal(10); }
    ParseIntOr(q.GetOr("10"), 10)
  }

  /** A client that writes its page and size with Integer.toString is read exactly. */
  lemma ParametersReadBack(page: Int32, size: Int32)
    ensures PageParam(Some(ToDecimal(page))) == page
    ensures SizeParam(Some(ToDecimal(size))) == size
  {
    ParseIntOfToDecimal(page);
    ParseIntOfToDecimal(size);
  }

  /** `sortBy`: "capacitycount" in any case orders by capacity count; anything else, or nothing, by name. */
  function ParseSortBy(q: Option<string>): (r: SortBy)
    ensures r == CapacityCount <==> q.Some? && Lower(q.value) == "capacitycount"
  {
    if q.Some? && Lower(q.value) == "capacitycount" then CapacityCount else Name
  }

  /** `order`: "desc" in any case is descending; anything else, or nothing, ascending. */
  function ParseOrder(q: Option<string>): (r: Order)
    ensures r == Desc <==> q.Some? && Lower(q.value) == "desc"
  {
    if q.Some? && Lower(q.value) == "desc" then Desc else Asc
  }

  /** Only the letters' case is ignored: spellings that lower-case alike choose alike. */
  lemma ChoicesIgnoreCase(a: string, b: string)
    requires Lower(a) == Lower(b)
    ensures ParseSortBy(Some(a)) == ParseSortBy(Some(b))
    ensures ParseOrder(Some(a)) == ParseOrder(Some(b))
  {
  }

  /** "DESC" is read as descending. */
  lemma UpperCaseDescIsDescending()
    ensures ParseOrder(Some("DESC")) == Desc
  {
    assert Lower("DESC") == "desc" by {
      assert forall i :: 0 <= i < 4 ==> Lower("DESC")[i] == "desc"[i];
    }
  }

  // ---------------------------------------------------------------- answers

  /** One entry of an answer's `errors`. */
  datatype ErrorDTO = ErrorDTO(code: string, message: string, param: Option<string>)

  /** APIResponse: `code` is the HTTP status written out; `date` is a clock reading and is not modelled. */
  datatype ApiResponse = ApiResponse(
    code: string,
    message: string,
    identifier: Option<string>,
    data: Option<BootcampDTO>,
    errors: Option<seq<ErrorDTO>>)

  /** The body of a listed page. The handler assembles the items in no promised order. */
  datatype PageResponse = PageResponse(
    content: multiset<BootcampListItem>,
    page: Int32,
    size: Int32,
    totalElements: int,
    totalPages: Int32)

  datatype Body = Api(api: ApiResponse) | Listing(listing: PageResponse)

  datatype Reply = Reply(status: nat, body: Body)

  /**
   * How a handler call ends: with a reply; with an empty reactive result (no reply is built);
   * or with an exception raised while the handler builds its pipeline, before onErrorResume is
   * attached, which the web framework answers on its own.
   */
  datatype HandlerResult = Replied(reply: Reply) | NoReply | Escaped

  /** handleError: a BusinessException is a 400 naming its message; anything else is a 500. */
  function HandleError(f: UseCase.Failure, messageId: Option<string>): (r: Reply)
    ensures r.status == 400 <==> f.Business?
    ensures r.status == 400 || r.status == 500
    ensures r.body.Api? && r.body.api.identifier == messageId && r.body.api.data.None?
    ensures r.body.api.code == (if f.Business? then "400" else "500")
    ensures r.body.api.message == (if f.Business? then "Bad Request" else "Internal Server Error")
    ensures f.Business? ==>
              r.body.api.errors == Some([ErrorDTO(f.message.Code(), f.message.Message(), Some(f.message.Param()))])
    ensures !f.Business? ==> r.body.api.errors == Some([ErrorDTO("500", "Bootcamp error", None)])
  {
    match f
    case Business(tm) =>
      Reply(400, Api(ApiResponse("400", "Bad Request", messageId, None,
                                 Some([ErrorDTO(tm.Code(), tm.Message(), Some(tm.Param()))]))))
    case _ =>
      Reply(500, Api(ApiResponse("500", "Internal Server Error", messageId, None,
                                 Some([ErrorDTO("500", "Bootcamp error", None)]))))
  }

  /** Unknown capacity ids are answered with status 400, although the error they carry says "404". */
  lemma CapacityNotFoundIsBadRequest(messageId: Option<string>)
    ensures var r := HandleError(UseCase.Business(Messages.CapacityNotFound), messageId);
      r.status == 400 && r.body.api.errors.value[0].code == "404"
      && r.body.api.errors.value[0].param == Some("capacityIds")
  {
  }

  /** A gateway timeout or a refused write is an internal error, without detail. */
  lemma InfrastructureFailuresAreInternal(f: UseCase.Failure, messageId: Option<string>)
    requires f.Gateway? || f.Store?
    ensures HandleError(f, messageId).status == 500
    ensures HandleError(f, messageId).body.api.errors.value[0].param.None?
  {
  }

  /** notFound(message, field): a 404 whose one error names the field. */
  function NotFound(messageId: Option<string>, message: string, field: string): (r: Reply)
    ensures r.status == 404
    ensures r.body.Api? && r.body.api.code == "404" && r.body.api.message == "Not Found"
    ensures r.body.api.identifier == messageId
    ensures r.body.api.data.None? && r.body.api.errors == Some([ErrorDTO("404", message, Some(field))])
  {
    Reply(404, Api(ApiResponse("404", "Not Found", messageId, None, Some([ErrorDTO("404", message, Some(field))]))))
  }

  // ---------------------------------------------------------------- getById

  /** getById: the path variable is read with Long.valueOf, which throws before the pipeline exists. */
  function GetById(t: Tables, idParam: string, messageId: Option<string>): (r: HandlerResult)
    ensures r.Escaped? <==> ParseLong(idParam).None?
    ensures ParseLong(idParam).Some? && FindById(t, ParseLong(idParam).value).None? ==>
              r == Replied(NotFound(messageId, "Bootcamp not found", "id"))
    ensures ParseLong(idParam).Some? && FindById(t, ParseLong(idParam).value).Some? ==>
              r.Replied? && r.reply.status == 200 && r.reply.body.Api?
              && r.reply.body.api.code == "200" && r.reply.body.api.message == "OK"
              && r.reply.body.api.identifier == messageId && r.reply.body.api.errors.None?
              && r.reply.body.api.data == Some(ToDto(FindById(t, ParseLong(idParam).value).value))
  {
    match ParseLong(idParam)
    case None => Escaped
    case Some(id) =>
      match FindById(t, id)
      case None => Replied(NotFound(messageId, "Bootcamp not found", "id"))
      case Some(b) => Replied(Reply(200, Api(ApiResponse("200", "OK", messageId, Some(ToDto(b)), None))))
  }

  /** What a registration saved is what getById then serves under the new id, its capacity ids in some order. */
  lemma RegisteredBootcampIsServed(t: Tables, nextId: int, b: Bootcamp, messageId: Option<string>)
    requires StoreInvariant(t, nextId) && nextId <= LONG_MAX
    requires b.id.None? && b.name.Some? && b.description.Some?
    ensures var saved := SaveResult(t, nextId, b);
      var found := FindById(SaveTables(t, nextId, b), nextId);
      && saved.Success? && found.Some? && SameUpToLinkOrder(found.value, saved.value)
      && GetById(SaveTables(t, nextId, b), ToDecimal(nextId), messageId)
         == Replied(Reply(200, Api(ApiResponse("200", "OK", messageId, Some(ToDto(found.value)), None))))
  {
    InsertThenFindById(t, nextId, b);
    ParseLongOfToDecimal(nextId);
  }

  /** An id that no bootcamp has is answered 404 naming the field "id". */
  lemma UnknownIdIsNotFound(t: Tables, id: int, messageId: Option<string>)
    requires LONG_MIN <= id <= LONG_MAX
    requires forall k :: 0 <= k < |t.bootcamps| ==> t.bootcamps[k].id != id
    ensures var r := GetById(t, ToDecimal(id), messageId);
      r.Replied? && r.reply.status == 404 && r.reply.body.api.errors.value[0].param == Some("id")
  {
    ParseLongOfToDecimal(id);
  }

  // ---------------------------------------------------------------- create

  /** The 201 answer to a registration. */
  function Created(dto: BootcampDTO, messageId: Option<string>): (r: Reply)
    ensures r.status == 201 && r.body.Api? && r.body.api.code == "201" && r.body.api.message == "Created"
    ensures r.body.api.identifier == messageId
    ensures r.body.api.data == Some(dto) && r.body.api.errors.None?
  {
    Reply(201, Api(ApiResponse("201", "Created", messageId, Some(dto), None)))
  }

  /**
   * create: an empty body never reaches register, so nothing is answered and nothing stored;
   * otherwise register's outcome, as 201 with the saved bootcamp or as handleError's answer.
   */
  method Create(store: BootcampStore, body: Option<BootcampDTO>,
                capacities: int -> Option<CapacityAdapter.CapacityDTO>, timedOut: bool,
                messageId: Option<string>)
    returns (r: HandlerResult)
    requires store.Valid()
    modifies store
    ensures store.Valid()
    ensures body.None? ==> r == NoReply && store.Snapshot() == old(store.Snapshot()) && store.nextId == old(store.nextId)
    ensures body.Some? ==>
      var request := DtoToDomain(body.value);
      var checks := UseCase.PreSaveChecks(old(store.Snapshot()), Some(request), capacities, timedOut);
      && (checks.Fail? ==>
            && r == Replied(HandleError(checks.error, messageId))
            && store.Snapshot() == old(store.Snapshot()) && store.nextId == old(store.nextId))
      && (checks.Pass? ==>
            && store.Snapshot() == SaveTables(old(store.Snapshot()), old(store.nextId), request)
            && store.nextId == (if SaveResult(old(store.Snapshot()), old(store.nextId), request).Success?
                                then NextIdAfter(old(store.nextId), request) else old(store.nextId))
            && r == match SaveResult(old(store.Snapshot()), old(store.nextId), request)
                    case Success(saved) => Replied(Created(ToDto(saved), messageId))
                    case Failure(e) => Replied(HandleError(UseCase.Store(e), messageId)))
  {
    if body.None? {
      return NoReply;
    }
    var outcome := UseCase.Register(store, Some(DtoToDomain(body.value)), capacities, timedOut);
    match outcome
    case Success(saved) => r := Replied(Created(ToDto(saved), messageId));
    case Failure(f) => r := Replied(HandleError(f, messageId));
  }

  // ---------------------------------------------------------------- list

  /** A capacity with the technologies fetched for it; techCount is the number that arrived. */
  function CapacityItem(cap: CapacityAdapter.CapacityDTO,
                        technologies: int -> Option<TechnologyAdapter.TechnologyDTO>): (item: CapacityListItem)
    ensures item.id == cap.id && item.name == cap.name && item.description == cap.description
    ensures item.techCount == |item.technologies|
    ensures multiset(item.technologies) == TechnologyAdapter.FetchByIds(cap.technologyIds, technologies)
  {
    var techs := TechnologyAdapter.Fetched(cap.technologyIds, technologies);
    CapacityListItem(cap.id, cap.name, cap.description, |techs|, techs)
  }

  function CapacityItems(caps: seq<CapacityAdapter.CapacityDTO>,
                         technologies: int -> Option<TechnologyAdapter.TechnologyDTO>): (items: seq<CapacityListItem>)
    ensures |items| == |caps|
    ensures forall k :: 0 <= k < |caps| ==> items[k] == CapacityItem(caps[k], technologies)
  {
    seq(|caps|, k requires 0 <= k < |caps| => CapacityItem(caps[k], technologies))
  }

  /** One listed bootcamp: its capacities as fetched, each with its technologies, counted. */
  function ListItem(b: Bootcamp, capacities: int -> Option<CapacityAdapter.CapacityDTO>,
                    technologies: int -> Option<TechnologyAdapter.TechnologyDTO>): (item: BootcampListItem)
    ensures item.id == b.id && item.name == b.name && item.description == b.description
    ensures item.launchDate == b.launchDate && item.duration == b.duration
    ensures item.capacityCount == |item.capacities| == |CapacityAdapter.Fetched(b.capacityIds, capacities)|
    ensures forall k :: 0 <= k < |item.capacities| ==>
              item.capacities[k].techCount == |item.capacities[k].technologies|
    ensures forall k :: 0 <= k < |item.capacities| ==> exists c ::
              c in CapacityAdapter.Fetched(b.capacityIds, capacities)
              && item.capacities[k] == CapacityItem(c, technologies)
    ensures multiset(item.capacities)
            == multiset(CapacityItems(CapacityAdapter.Fetched(b.capacityIds, capacities), technologies))
  {
    var caps := CapacityAdapter.Fetched(b.capacityIds, capacities);
    assert forall k :: 0 <= k < |caps| ==> caps[k] in caps;
    ToListItem(b, Some(CapacityItems(caps, technologies)))
  }

  function ListItems(content: seq<Bootcamp>, capacities: int -> Option<CapacityAdapter.CapacityDTO>,
                     technologies: int -> Option<TechnologyAdapter.TechnologyDTO>): (items: seq<BootcampListItem>)
    ensures |items| == |content|
    ensures forall k :: 0 <= k < |content| ==> items[k] == ListItem(content[k], capacities, technologies)
  {
    seq(|content|, k requires 0 <= k < |content| => ListItem(content[k], capacities, technologies))
  }

  /** The page response: one item per bootcamp of the page, in no promised order, and the page's numbers. */
  function PageResponseOf(p: Page<Bootcamp>, capacities: int -> Option<CapacityAdapter.CapacityDTO>,
                          technologies: int -> Option<TechnologyAdapter.TechnologyDTO>): (r: PageResponse)
    ensures r.page == p.page && r.size == p.size
    ensures r.totalElements == p.totalElements && r.totalPages == p.totalPages
    ensures |r.content| == |p.content|
    ensures r.content == multiset(ListItems(p.content, capacities, technologies))
    ensures forall item :: item in r.content ==>
              exists k :: 0 <= k < |p.content| && item == ListItem(p.content[k], capacities, technologies)
    ensures forall k :: 0 <= k < |p.content| ==> ListItem(p.content[k], capacities, technologies) in r.content
  {
    var items := ListItems(p.content, capacities, technologies);
    assert forall k :: 0 <= k < |items| ==> items[k] in items;
    PageResponse(multiset(items), p.page, p.size, p.totalElements, p.totalPages)
  }

  /** The query parameters of GET /bootcamps, each null when absent. */
  datatype ListQuery = ListQuery(page: Option<string>, size: Option<string>,
                                 sortBy: Option<string>, order: Option<string>)

  /** The page request list builds; its constructor throws before the pipeline exists. */
  function RequestOf(q: ListQuery): (r: Result<PageRequest, PageRequestError>)
    ensures r.Success? <==> PageParam(q.page) >= 0 && 1 <= SizeParam(q.size) <= MAX_PAGE_SIZE
    ensures r.Success? ==> r.value == PageRequest(PageParam(q.page), SizeParam(q.size)) && InBounds(r.value)
    ensures PageParam(q.page) < 0 ==> r == Failure(PageNegative)
  {
    NewPageRequest(PageParam(q.page), SizeParam(q.size))
  }

  /**
   * list as written: an out-of-range page or size escapes; the page comes from findPage as
   * written, so a refused query is answered through handleError with 500, and an accepted one
   * with 200 and the page of bootcamps without their capacities.
   */
  function HandleList(t: Tables, q: ListQuery, messageId: Option<string>,
                      capacities: int -> Option<CapacityAdapter.CapacityDTO>,
                      technologies: int -> Option<TechnologyAdapter.TechnologyDTO>): (r: HandlerResult)
    ensures r.Escaped? <==> RequestOf(q).Failure?
    ensures !r.NoReply?
    ensures r.Replied? ==>
      var pr := RequestOf(q).value;
      var w := UseCase.ListPageAsWritten(t, pr, ParseSortBy(q.sortBy), ParseOrder(q.order));
      && (r.reply.status == 500 <==> WrapToInt(Offset(pr)) < 0)
      && (w.Failure? ==> r.reply == HandleError(UseCase.Store(QueryRejected), messageId))
      && (w.Success? ==>
            && r.reply.status == 200 && r.reply.body.Listing?
            && r.reply.body.listing == PageResponseOf(w.value, capacities, technologies))
    ensures r.Replied? && r.reply.body.Listing? ==>
      var pr := RequestOf(q).value;
      var listing := r.reply.body.listing;
      && listing.page == pr.page && listing.size == pr.size && listing.totalElements == CountAll(t)
      && listing.totalPages == TotalPages(CountAll(t), pr.size)
      && |listing.content| == |FindPageAsWritten(t, pr, ParseSortBy(q.sortBy), ParseOrder(q.order)).value|
  {
    match RequestOf(q)
    case Failure(_) => Escaped
    case Success(pr) =>
      match UseCase.ListPageAsWritten(t, pr, ParseSortBy(q.sortBy), ParseOrder(q.order))
      case Failure(e) => Replied(HandleError(UseCase.Store(e), messageId))
      case Success(p) => Replied(Reply(200, Listing(PageResponseOf(p, capacities, technologies))))
  }

  /**
   * list as intended: the same answers, over findPage with the offset computed as a long and the
   * capacity ids read back, so every accepted request is answered with 200.
   */
  function HandleListIntended(t: Tables, q: ListQuery, capacities: int -> Option<CapacityAdapter.CapacityDTO>,
                              technologies: int -> Option<TechnologyAdapter.TechnologyDTO>): (r: HandlerResult)
    ensures r.Escaped? <==> RequestOf(q).Failure?
    ensures !r.NoReply?
    ensures r.Replied? ==> r.reply.status == 200 && r.reply.body.Listing?
    ensures r.Replied? ==>
      var pr := RequestOf(q).value;
      var listing := r.reply.body.listing;
      && listing == PageResponseOf(UseCase.ListPage(t, pr, ParseSortBy(q.sortBy), ParseOrder(q.order)),
                                   capacities, technologies)
      && listing.page == pr.page && listing.size == pr.size && listing.totalElements == CountAll(t)
      && listing.totalPages == TotalPages(CountAll(t), pr.size)
      && |listing.content| == |FindPage(t, pr, ParseSortBy(q.sortBy), ParseOrder(q.order))|
  {
    match RequestOf(q)
    case Failure(_) => Escaped
    case Success(pr) =>
      var p := UseCase.ListPage(t, pr, ParseSortBy(q.sortBy), ParseOrder(q.order));
      Replied(Reply(200, Listing(PageResponseOf(p, capacities, technologies))))
  }

  /** With no parameters, the first ten bootcamps by name ascending are listed. */
  lemma DefaultListing(t: Tables, messageId: Option<string>,
                       capacities: int -> Option<CapacityAdapter.CapacityDTO>,
                       technologies: int -> Option<TechnologyAdapter.TechnologyDTO>)
    ensures var r := HandleList(t, ListQuery(None, None, None, None), messageId, capacities, technologies);
      && RequestOf(ListQuery(None, None, None, None)) == Success(PageRequest(0, 10))
      && r.Replied? && r.reply.status == 200
      && r.reply.body.listing.page == 0 && r.reply.body.listing.size == 10
      && |r.reply.body.listing.content| == |FindPageOrderBy(t, ByNameAsc, 0, 10)|
  {
  }

  /**
   * page=21474837&size=100 is a valid request, but its offset 2147483700 wraps to a negative int,
   * so list answers 500, where the intended listing answers 200 with an empty page.
   */
  lemma WrappedOffsetAnswersInternalError(t: Tables, sortBy: Option<string>, order: Option<string>,
                                          messageId: Option<string>,
                                          capacities: int -> Option<CapacityAdapter.CapacityDTO>,
                                          technologies: int -> Option<TechnologyAdapter.TechnologyDTO>)
    requires CountAll(t) <= 2147483700
    ensures var q := ListQuery(Some(ToDecimal(21474837)), Some(ToDecimal(100)), sortBy, order);
      && HandleList(t, q, messageId, capacities, technologies)
         == Replied(HandleError(UseCase.Store(QueryRejected), messageId))
      && HandleList(t, q, messageId, capacities, technologies).reply.status == 500
      && HandleListIntended(t, q, capacities, technologies).reply.status == 200
      && HandleListIntended(t, q, capacities, technologies).reply.body.listing.content == multiset{}
  {
    ParametersReadBack(21474837, 100);
    var q := ListQuery(Some(ToDecimal(21474837)), Some(ToDecimal(100)), sortBy, order);
    assert RequestOf(q) == Success(PageRequest(21474837, 100));
    OffsetCastRefusesPage(t, ParseSortBy(sortBy), ParseOrder(order));
  }

  // ---------------------------------------------------------------- what the counts show

  /**
   * As written, findPage reads the bootcamps without their capacity ids, so every bootcamp list
   * shows has capacityCount 0 and no capacities, whatever its link rows say.
   */
  lemma ListingAsWrittenShowsNoCapacities(t: Tables, q: ListQuery, messageId: Option<string>,
                                          capacities: int -> Option<CapacityAdapter.CapacityDTO>,
                                          technologies: int -> Option<TechnologyAdapter.TechnologyDTO>)
    ensures var r := HandleList(t, q, messageId, capacities, technologies);
      r.Replied? && r.reply.body.Listing? ==> forall item :: item in r.reply.body.listing.content ==>
        item.capacityCount == 0 && item.capacities == []
  {
    var r := HandleList(t, q, messageId, capacities, technologies);
    if r.Replied? && r.reply.body.Listing? {
      var w := FindPageAsWritten(t, RequestOf(q).value, ParseSortBy(q.sortBy), ParseOrder(q.order)).value;
      forall item | item in r.reply.body.listing.content ensures item.capacityCount == 0 && item.capacities == [] {
        var k :| 0 <= k < |w| && item == ListItem(w[k], capacities, technologies);
      }
    }
  }

  /**
   * With the capacity ids read back, a listed bootcamp counts the capacities it is linked to:
   * when the capacity service knows every linked capacity, the count is the number of distinct
   * linked ids; it is 0 exactly for a bootcamp without link rows.
   */
  lemma ListingCountsLinkedCapacities(t: Tables, pr: PageRequest, sortBy: SortBy, order: Order,
                                      capacities: int -> Option<CapacityAdapter.CapacityDTO>,
                                      technologies: int -> Option<TechnologyAdapter.TechnologyDTO>,
                                      k: int)
    requires InBounds(pr)
    requires forall l :: l in t.links ==> capacities(l.capacityId).Some?
    ensures var page := FindPage(t, pr, sortBy, order);
      0 <= k < |page| ==>
      var linked := CapacityIdsOf(t.links, page[k].id.value);
      && ListItem(page[k], capacities, technologies).capacityCount == |Fanout.Requests(Some(linked))|
      && (ListItem(page[k], capacities, technologies).capacityCount == 0 <==> CountLinks(t.links, page[k].id.value) == 0)
  {
    var page := FindPage(t, pr, sortBy, order);
    if 0 <= k < |page| {
      var b := page[k];
      var id := b.id.value;
      var linked := CapacityIdsOf(t.links, id);
      assert b.capacityIds == Some(linked);
      forall i | i in linked ensures capacities(i).Some? {
        assert LinkRow(id, i) in t.links;
      }
      if linked != [] {
        assert linked[0] in Fanout.Requests(Some(linked));
      }
    }
  }

  /**
   * A technology that cannot be read is left out of its capacity: of n distinct technology ids
   * with exactly one unreadable, the capacity shows n - 1 technologies.
   */
  lemma UnreadableTechnologyIsDropped(cap: CapacityAdapter.CapacityDTO,
                                      technologies: int -> Option<TechnologyAdapter.TechnologyDTO>, j: int)
    requires cap.technologyIds.Some? && Fanout.NoDuplicates(cap.technologyIds.value)
    requires j in cap.technologyIds.value && technologies(j).None?
    requires forall i :: i in cap.technologyIds.value && i != j ==> technologies(i).Some?
    ensures CapacityItem(cap, technologies).techCount == |cap.technologyIds.value| - 1
  {
    var ids := cap.technologyIds.value;
    var req := Fanout.Requests(Some(ids));
    assert req == Fanout.Distinct(ids);
    Fanout.DistinctLengthIffNoDuplicates(ids);
    Fanout.GatherDropsOneFailure(req, technologies, j);
  }
}
