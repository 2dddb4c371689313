/**
 * BootcampUseCase: registration (validate, check the capacities exist, check the name is free,
 * save) and the paged listing. The checks are functions of the request and of what the ports
 * answer; `Register` runs them in order against a BootcampStore and writes only after all pass.
 */
module UseCase {
  import opened Wrappers
  import opened JavaText
  import opened Messages
  import opened Domain
  import opened Pages
  import opened Repository
  import opened PersistenceAdapter
  import Fanout
  import CapacityAdapter

  /** The error a registration ends in. */
  datatype Failure =
    | Business(message: TechnicalMessage)        // a BusinessException
    | Gateway(gatewayFailure: Fanout.GatewayFailure)  // findExistingIds ended in an error
    | Store(storeFailure: StoreFailure)          // the database refused the write

  // ---------------------------------------------------------------- synchronous checks

  predicate NameValid(b: Bootcamp) {
    b.name.Some? && !IsBlank(b.name.value) && Utf16Length(b.name.value) <= BOOTCAMP_NAME_MAX_LENGTH
  }

  predicate DescriptionValid(b: Bootcamp) {
    b.description.Some? && !IsBlank(b.description.value)
    && Utf16Length(b.description.value) <= BOOTCAMP_DESCRIPTION_MAX_LENGTH
  }

  /** validateBasics: name present and not blank, name length, then the same for the description. */
  function ValidateBasics(b: Bootcamp): (r: Outcome<TechnicalMessage>)
    ensures r.Pass? <==> NameValid(b) && DescriptionValid(b)
    ensures b.name.None? || IsBlank(b.name.value) ==> r == Fail(BootcampNameRequired)
    ensures r.Fail? && r.error != BootcampNameRequired ==> b.name.Some? && !IsBlank(b.name.value)
  {
    if b.name.None? || IsBlank(b.name.value) then Fail(BootcampNameRequired)
    else if Utf16Length(b.name.value) > BOOTCAMP_NAME_MAX_LENGTH then Fail(BootcampNameTooLong)
    else if b.description.None? || IsBlank(b.description.value) then Fail(BootcampDescriptionRequired)
    else if Utf16Length(b.description.value) > BOOTCAMP_DESCRIPTION_MAX_LENGTH then Fail(BootcampDescriptionTooLong)
    else Pass
  }

  /** capacityIdsOrEmpty: a null list is an empty one. */
  function CapacityIdsOrEmpty(b: Bootcamp): (ids: seq<int>)
    ensures b.capacityIds.Some? ==> ids == b.capacityIds.value
    ensures b.capacityIds.None? ==> ids == []
  {
    b.capacityIds.GetOr([])
  }

  /** validateCapacityRules: at least 1, at most 4, and no id twice (counted through distinct()). */
  function ValidateCapacityRules(ids: seq<int>): (r: Outcome<TechnicalMessage>)
    ensures r.Pass? <==> MIN_CAPACITIES <= |ids| <= MAX_CAPACITIES && Fanout.NoDuplicates(ids)
    ensures |ids| < MIN_CAPACITIES ==> r == Fail(BootcampMinCapacities)
    ensures |ids| > MAX_CAPACITIES ==> r == Fail(BootcampMaxCapacities)
    ensures MIN_CAPACITIES <= |ids| <= MAX_CAPACITIES && !Fanout.NoDuplicates(ids) ==> r == Fail(InvalidParameters)
  {
    Fanout.DistinctLengthIffNoDuplicates(ids);
    if |ids| < MIN_CAPACITIES then Fail(BootcampMinCapacities)
    else if |ids| > MAX_CAPACITIES then Fail(BootcampMaxCapacities)
    else if |Fanout.Distinct(ids)| != |ids| then Fail(InvalidParameters)
    else Pass
  }

  /** The synchronous part of register: the null check, validateBasics, then the capacity rules. */
  function Validate(request: Option<Bootcamp>): (r: Outcome<TechnicalMessage>)
    ensures request.None? ==> r == Fail(InvalidRequest)
    ensures request.Some? && ValidateBasics(request.value).Fail? ==> r == ValidateBasics(request.value)
    ensures r.Pass? <==> request.Some? && NameValid(request.value) && DescriptionValid(request.value)
                         && MIN_CAPACITIES <= |CapacityIdsOrEmpty(request.value)| <= MAX_CAPACITIES
                         && Fanout.NoDuplicates(CapacityIdsOrEmpty(request.value))
  {
    match request
    case None => Fail(InvalidRequest)
    case Some(b) =>
      var basics := ValidateBasics(b);
      if basics.Fail? then basics else ValidateCapacityRules(CapacityIdsOrEmpty(b))
  }

  /**
   * Every rule the request breaks, in the order the rules are written, each judged on its own:
   * the reference against which "the first failure wins" is stated.
   */
  function Violations(request: Option<Bootcamp>): seq<TechnicalMessage> {
    match request
    case None => [InvalidRequest]
    case Some(b) =>
      var ids := CapacityIdsOrEmpty(b);
      (if b.name.None? || IsBlank(b.name.value) then [BootcampNameRequired]
       else if Utf16Length(b.name.value) > BOOTCAMP_NAME_MAX_LENGTH then [BootcampNameTooLong] else [])
      + (if b.description.None? || IsBlank(b.description.value) then [BootcampDescriptionRequired]
         else if Utf16Length(b.description.value) > BOOTCAMP_DESCRIPTION_MAX_LENGTH then [BootcampDescriptionTooLong]
         else [])
      + (if |ids| < MIN_CAPACITIES then [BootcampMinCapacities] else [])
      + (if |ids| > MAX_CAPACITIES then [BootcampMaxCapacities] else [])
      + (if Fanout.NoDuplicates(ids) then [] else [InvalidParameters])
  }

  /** The synchronous checks report the first rule the request breaks, and pass when it breaks none. */
  lemma ValidateReportsFirstViolation(request: Option<Bootcamp>)
    ensures Validate(request) == if Violations(request) == [] then Pass else Fail(Violations(request)[0])
  {
    if request.Some? {
      var ids := CapacityIdsOrEmpty(request.value);
      if |ids| < MIN_CAPACITIES {
        assert Fanout.NoDuplicates(ids);
      }
    }
  }

  /** The name is checked before the capacities: a blank name with no capacities is reported as a name error. */
  lemma NameCheckedBeforeCapacities(b: Bootcamp)
    requires b.name == Some("   ") && b.capacityIds.None?
    ensures Validate(Some(b)) == Fail(BootcampNameRequired)
  {
    assert IsBlank("   ");
  }

  // ---------------------------------------------------------------- asynchronous checks

  /** verifyAllCapacityIdsExist: the number of distinct ids found must equal the number submitted. */
  function CheckCapacitiesExist(ids: seq<int>, found: Result<set<int>, Fanout.GatewayFailure>): (r: Outcome<Failure>)
    ensures found.Failure? ==> r == Fail(Gateway(found.error))
    ensures found.Success? ==> (r.Pass? <==> |found.value| == |ids|)
    ensures r.Fail? && found.Success? ==> r == Fail(Business(CapacityNotFound))
  {
    match found
    case Failure(g) => Fail(Gateway(g))
    case Success(s) => if |s| == |ids| then Pass else Fail(Business(CapacityNotFound))
  }

  /** ensureNameIsUnique */
  function EnsureNameIsUnique(t: Tables, name: string): (r: Outcome<Failure>)
    ensures r.Pass? <==> !ExistsByName(t, name)
    ensures r.Fail? ==> r.error == Business(BootcampAlreadyExists)
  {
    if ExistsByName(t, name) then Fail(Business(BootcampAlreadyExists)) else Pass
  }

  /** Everything register checks before it saves, in its order; the first failure wins. */
  function PreSaveChecks(t: Tables, request: Option<Bootcamp>,
                         capacities: int -> Option<CapacityAdapter.CapacityDTO>, timedOut: bool): (r: Outcome<Failure>)
    ensures Validate(request).Fail? ==> r == Fail(Business(Validate(request).error))
    ensures r.Pass? ==> Validate(request).Pass? && request.value.name.Some?
                        && !ExistsByName(t, request.value.name.value)
    ensures Validate(request).Pass? ==>
              var ids := CapacityIdsOrEmpty(request.value);
              var found := CapacityAdapter.FindExistingIds(Some(ids), capacities, timedOut);
              && (found.Failure? ==> r == Fail(Gateway(found.error)))
              && (found.Success? && |found.value| != |ids| ==> r == Fail(Business(CapacityNotFound)))
              && (found.Success? && |found.value| == |ids| ==>
                    (r.Pass? <==> !ExistsByName(t, request.value.name.value))
                    && (r.Fail? ==> r == Fail(Business(BootcampAlreadyExists))))
  {
    match Validate(request)
    case Fail(m) => Fail(Business(m))
    case Pass =>
      var b := request.value;
      var ids := CapacityIdsOrEmpty(b);
      var exist := CheckCapacitiesExist(ids, CapacityAdapter.FindExistingIds(Some(ids), capacities, timedOut));
      if exist.Fail? then exist else EnsureNameIsUnique(t, b.name.value)
  }

  /** Among distinct ids, the known ones are as many as the ids exactly when every id is known. */
  lemma {:induction false} KnownIdsCount(ids: seq<int>, capacities: int -> Option<CapacityAdapter.CapacityDTO>)
    requires Fanout.NoDuplicates(ids)
    ensures |set i | i in ids && capacities(i).Some?| <= |ids|
    ensures |set i | i in ids && capacities(i).Some?| == |ids| <==> forall i :: i in ids ==> capacities(i).Some?
  {
    if ids != [] {
      var x, rest := ids[0], ids[1..];
      assert Fanout.NoDuplicates(rest) by {
        forall i, j | 0 <= i < j < |rest| ensures rest[i] != rest[j] {
          assert ids[i + 1] != ids[j + 1];
        }
      }
      assert x !in rest by {
        forall k | 0 <= k < |rest| ensures rest[k] != x {
          assert ids[k + 1] != ids[0];
        }
      }
      KnownIdsCount(rest, capacities);
      var s, s' := set i | i in ids && capacities(i).Some?, set i | i in rest && capacities(i).Some?;
      assert forall i :: i in ids <==> i == x || i in rest;
      if capacities(x).Some? {
        assert s == s' + {x};
      } else {
        assert s == s';
      }
    }
  }

  /**
   * Against an honest capacity service and without a timeout, the checks pass exactly when the
   * request is valid, every capacity id is known to the service and the name is free.
   */
  lemma PreSaveChecksAgainstHonestService(t: Tables, b: Bootcamp,
                                          capacities: int -> Option<CapacityAdapter.CapacityDTO>)
    requires CapacityAdapter.Honest(capacities)
    ensures PreSaveChecks(t, Some(b), capacities, false).Pass? <==>
              Validate(Some(b)).Pass?
              && (forall i :: i in CapacityIdsOrEmpty(b) ==> capacities(i).Some?)
              && !ExistsByName(t, b.name.value)
    ensures Validate(Some(b)).Pass? && (exists i :: i in CapacityIdsOrEmpty(b) && capacities(i).None?) ==>
              PreSaveChecks(t, Some(b), capacities, false) == Fail(Business(CapacityNotFound))
  {
    if Validate(Some(b)).Pass? {
      var ids := CapacityIdsOrEmpty(b);
      var found := CapacityAdapter.FindExistingIds(Some(ids), capacities, false);
      CapacityAdapter.HonestFindExistingIds(ids, capacities);
      KnownIdsCount(ids, capacities);
      var exist := CheckCapacitiesExist(ids, found);
      assert exist.Pass? <==> forall i :: i in ids ==> capacities(i).Some?;
    }
  }

  /** A timeout of the existence check, after valid input, fails the registration with a gateway error. */
  lemma TimeoutIsGatewayFailure(t: Tables, b: Bootcamp, capacities: int -> Option<CapacityAdapter.CapacityDTO>)
    requires Validate(Some(b)).Pass?
    ensures PreSaveChecks(t, Some(b), capacities, true) == Fail(Gateway(Fanout.Timeout))
  {
  }

  /**
   * The existence check compares counts, not ids: a service that answers the request for a
   * with some other capacity c lets [a, b] through although it never confirmed a.
   */
  lemma CountComparisonAcceptsForeignIds(a: int, b: int, c: int,
                                         capacities: int -> Option<CapacityAdapter.CapacityDTO>)
    requires a != b && c != a && c != b
    requires capacities(a).Some? && capacities(a).value.id == Some(c)
    requires capacities(b).Some? && capacities(b).value.id == Some(b)
    ensures c !in [a, b]
    ensures CheckCapacitiesExist([a, b], CapacityAdapter.FindExistingIds(Some([a, b]), capacities, false)) == Pass
  {
    var ids := [a, b];
    assert forall i :: i in ids <==> i == a || i == b;
    var found := AnsweredIds(ids, capacities);
    forall x | x in found ensures x == b || x == c {
      var i :| i in ids && capacities(i).value.id == Some(x);
    }
    assert b in found by { assert capacities(b).value.id == Some(b); }
    assert c in found by { assert capacities(a).value.id == Some(c); }
    PairHasTwoElements(found, b, c);
  }

  /** When every requested capacity is answered with an id, the check sees exactly those ids. */
  lemma AnsweredIds(ids: seq<int>, capacities: int -> Option<CapacityAdapter.CapacityDTO>)
    returns (found: set<int>)
    requires ids != []
    requires forall i :: i in ids ==> capacities(i).Some? && capacities(i).value.id.Some?
    ensures CapacityAdapter.FindExistingIds(Some(ids), capacities, false) == Success(found)
    ensures forall x :: x in found <==> exists i :: i in ids && capacities(i).value.id == Some(x)
  {
    var r := CapacityAdapter.FindExistingIds(Some(ids), capacities, false);
    found := r.value;
  }

  lemma PairHasTwoElements(s: set<int>, b: int, c: int)
    requires b != c && b in s && c in s
    requires forall x :: x in s ==> x == b || x == c
    ensures |s| == 2
  {
    forall x ensures x in s <==> x in {b, c} {
      if x in s {
        assert x == b || x == c;
      }
    }
    assert s == {b, c};
  }

  // ---------------------------------------------------------------- register

  /**
   * register: the checks in order, then save. When a check fails the store is untouched; when
   * all pass the result is whatever save returns.
   */
  method Register(store: BootcampStore, request: Option<Bootcamp>,
                  capacities: int -> Option<CapacityAdapter.CapacityDTO>, timedOut: bool)
    returns (r: Result<Bootcamp, Failure>)
    requires store.Valid()
    modifies store
    ensures store.Valid()
    ensures var checks := PreSaveChecks(old(store.Snapshot()), request, capacities, timedOut);
      checks.Fail? ==> r == Failure(checks.error)
                       && store.Snapshot() == old(store.Snapshot()) && store.nextId == old(store.nextId)
    ensures var checks := PreSaveChecks(old(store.Snapshot()), request, capacities, timedOut);
      checks.Pass? ==>
        && store.Snapshot() == SaveTables(old(store.Snapshot()), old(store.nextId), request.value)
        && store.nextId == (if r.Success? then NextIdAfter(old(store.nextId), request.value) else old(store.nextId))
        && r == match SaveResult(old(store.Snapshot()), old(store.nextId), request.value)
                case Success(saved) => Success(saved)
                case Failure(e) => Failure(Store(e))
  {
    var valid := Validate(request);
    if valid.Fail? {
      return Failure(Business(valid.error));
    }
    var b := request.value;
    var ids := CapacityIdsOrEmpty(b);
    var found := CapacityAdapter.FindExistingIds(Some(ids), capacities, timedOut);
    var exist := CheckCapacitiesExist(ids, found);
    if exist.Fail? {
      return Failure(exist.error);
    }
    var unique := EnsureNameIsUnique(store.Snapshot(), b.name.value);
    if unique.Fail? {
      return Failure(unique.error);
    }
    var saved := store.Save(b);
    match saved {
      case Success(v) => r := Success(v);
      case Failure(e) => r := Failure(Store(e));
    }
  }

  /** A request named "Java", described as "Web", with capacities 10 and 20. */
  const JAVA_REQUEST: Bootcamp :=
    Bootcamp(None, Some("Java"), Some("Web"), None, None, Some([10, 20]))

  lemma JavaRequestIsValid()
    ensures Validate(Some(JAVA_REQUEST)).Pass?
  {
    var name, description := "Java", "Web";
    assert !IsBlank(name) by { assert !IsJavaWhitespace(name[0]); }
    assert !IsBlank(description) by { assert !IsJavaWhitespace(description[0]); }
    assert Fanout.NoDuplicates([10, 20]);
  }

  /** Registering JAVA_REQUEST, both capacities known and the name free, saves it under a fresh id. */
  lemma RegisterScenario(t: Tables, nextId: int, capacities: int -> Option<CapacityAdapter.CapacityDTO>)
    requires StoreInvariant(t, nextId)
    requires CapacityAdapter.Honest(capacities) && capacities(10).Some? && capacities(20).Some?
    requires !ExistsByName(t, "Java")
    ensures PreSaveChecks(t, Some(JAVA_REQUEST), capacities, false).Pass?
    ensures SaveResult(t, nextId, JAVA_REQUEST) == Success(JAVA_REQUEST.(id := Some(nextId)))
    ensures FindById(SaveTables(t, nextId, JAVA_REQUEST), nextId).Some?
    ensures SameUpToLinkOrder(FindById(SaveTables(t, nextId, JAVA_REQUEST), nextId).value,
                              JAVA_REQUEST.(id := Some(nextId)))
  {
    JavaRequestPassesChecks(t, capacities);
    InsertThenFindById(t, nextId, JAVA_REQUEST);
  }

  lemma JavaRequestPassesChecks(t: Tables, capacities: int -> Option<CapacityAdapter.CapacityDTO>)
    requires CapacityAdapter.Honest(capacities) && capacities(10).Some? && capacities(20).Some?
    requires !ExistsByName(t, "Java")
    ensures PreSaveChecks(t, Some(JAVA_REQUEST), capacities, false).Pass?
  {
    JavaRequestIsValid();
    assert forall i :: i in CapacityIdsOrEmpty(JAVA_REQUEST) ==> capacities(i).Some? by {
      assert CapacityIdsOrEmpty(JAVA_REQUEST) == [10, 20];
    }
    PreSaveChecksAgainstHonestService(t, JAVA_REQUEST, capacities);
  }

  // ---------------------------------------------------------------- paged list

  /** list(pageRequest, sortBy, order): findPage's rows and countAll, put together by Page.of. */
  function ListPage(t: Tables, pr: PageRequest, sortBy: SortBy, order: Order): (p: Page<Bootcamp>)
    requires InBounds(pr)
    ensures p.content == FindPage(t, pr, sortBy, order)
    ensures p.page == pr.page && p.size == pr.size && p.totalElements == CountAll(t)
    ensures |p.content| <= pr.size
  {
    PageOf(FindPage(t, pr, sortBy, order), pr.page, pr.size, CountAll(t))
  }

  /** list over findPage as written: its refusal of a wrapped offset propagates. */
  function ListPageAsWritten(t: Tables, pr: PageRequest, sortBy: SortBy, order: Order)
    : (r: Result<Page<Bootcamp>, StoreFailure>)
    requires InBounds(pr)
    ensures r.Success? <==> FindPageAsWritten(t, pr, sortBy, order).Success?
    ensures r.Success? ==> r.value.content == FindPageAsWritten(t, pr, sortBy, order).value
    ensures r.Success? ==> r.value.page == pr.page && r.value.size == pr.size
                           && r.value.totalElements == CountAll(t)
    ensures r.Failure? ==> r.error == QueryRejected
  {
    match FindPageAsWritten(t, pr, sortBy, order)
    case Failure(e) => Failure(e)
    case Success(rows) => Success(PageOf(rows, pr.page, pr.size, CountAll(t)))
  }

  /**
   * totalPages does not depend on the page asked for, and a page at or beyond it is empty
   * while every page before it holds at least one row.
   */
  lemma PageBeyondLastIsEmpty(t: Tables, pr: PageRequest, other: PageRequest, sortBy: SortBy, order: Order)
    requires InBounds(pr) && InBounds(other) && other.size == pr.size
    requires CountAll(t) <= INT_MAX * pr.size
    ensures ListPage(t, pr, sortBy, order).totalPages == ListPage(t, other, sortBy, order).totalPages
    ensures pr.page >= ListPage(t, pr, sortBy, order).totalPages <==> ListPage(t, pr, sortBy, order).content == []
  {
    PagesCoverRows(CountAll(t), pr.size, pr.page);
    var p := ListPage(t, pr, sortBy, order);
    if pr.page < p.totalPages {
      assert Offset(pr) < CountAll(t);
      assert |FindPageOrderBy(t, KeyFor(sortBy, order), Offset(pr), Limit(pr))| >= 1;
    }
  }

  /** The contents of pages 0, 1, ..., n - 1 of size `size`, fetched one after the other. */
  function PagesUpTo(t: Tables, size: Int32, sortBy: SortBy, order: Order, n: nat): seq<Bootcamp>
    requires 1 <= size <= MAX_PAGE_SIZE && n <= INT_MAX + 1
  {
    if n == 0 then []
    else PagesUpTo(t, size, sortBy, order, n - 1) + ListPage(t, PageRequest(n - 1, size), sortBy, order).content
  }

  lemma MapReassembledAppend(t: Tables, a: seq<BootcampRow>, b: seq<BootcampRow>)
    ensures MapReassembled(t, a + b) == MapReassembled(t, a) + MapReassembled(t, b)
  {
  }

  /** The pages fetched one after the other are the pages of the order, read back. */
  lemma {:induction false} PagesUpToReadsFirstPages(t: Tables, size: Int32, sortBy: SortBy, order: Order, n: nat)
    requires 1 <= size <= MAX_PAGE_SIZE && n <= INT_MAX + 1
    ensures PagesUpTo(t, size, sortBy, order, n)
            == MapReassembled(t, FirstPages(RowsOf(Ordered(t, KeyFor(sortBy, order))), size, n))
  {
    if n > 0 {
      var rows, k := RowsOf(Ordered(t, KeyFor(sortBy, order))), n - 1;
      Arith.MulMonotone(0, k, size as nat);
      var offset: nat := k * size;
      var before, page := FirstPages(rows, size, k), Window(rows, offset, size);
      assert FirstPages(rows, size, n) == before + page;
      PagesUpToReadsFirstPages(t, size, sortBy, order, k);
      PagesUpToStep(t, size, sortBy, order, k);
      MapReassembledAppend(t, before, page);
    }
  }

  /** Fetching one more page appends the next window of the order, read back. */
  lemma PagesUpToStep(t: Tables, size: Int32, sortBy: SortBy, order: Order, k: nat)
    requires 1 <= size <= MAX_PAGE_SIZE && k <= INT_MAX
    ensures PagesUpTo(t, size, sortBy, order, k + 1)
            == PagesUpTo(t, size, sortBy, order, k) + MapReassembled(t, Window(RowsOf(Ordered(t, KeyFor(sortBy, order))), k * size, size))
  {
    ListedPageIsWindow(t, size, sortBy, order, k);
  }

  /** Page k lists the k-th window of size `size` of the order, read back. */
  lemma ListedPageIsWindow(t: Tables, size: Int32, sortBy: SortBy, order: Order, k: nat)
    requires 1 <= size <= MAX_PAGE_SIZE && k <= INT_MAX
    ensures ListPage(t, PageRequest(k, size), sortBy, order).content
            == MapReassembled(t, Window(RowsOf(Ordered(t, KeyFor(sortBy, order))), k * size, size))
  {
    var o := Ordered(t, KeyFor(sortBy, order));
    assert Offset(PageRequest(k, size)) == k * size;
    assert RowsOf(Window(o, k * size, size)) == Window(RowsOf(o), k * size, size);
  }

  /** Fetching pages 0, 1, ... up to totalPages lists every bootcamp of the order once, in order. */
  lemma AllPagesListEveryRowOnce(t: Tables, size: Int32, sortBy: SortBy, order: Order)
    requires 1 <= size <= MAX_PAGE_SIZE
    requires CountAll(t) <= INT_MAX * size
    ensures PagesUpTo(t, size, sortBy, order, TotalPages(CountAll(t), size))
            == MapReassembled(t, RowsOf(Ordered(t, KeyFor(sortBy, order))))
  {
    var n := TotalPages(CountAll(t), size);
    var s := RowsOf(Ordered(t, KeyFor(sortBy, order)));
    PagesUpToReadsFirstPages(t, size, sortBy, order, n);
    FirstPagesArePrefix(s, size, n);
    if n > 0 {
      PagesCoverRows(CountAll(t), size, n);
      assert n * size >= |s|;
    }
    assert s[..|s|] == s;
  }
}
