/**
 * BootcampPersistenceAdapter: the persistence port over the two tables. The queries are functions
 * of the tables; `save`, which writes rows one after the other, is a method of BootcampStore, the
 * in-memory database whose fields are the tables.
 */
module PersistenceAdapter {
  import opened Wrappers
  import opened JavaText
  import opened Domain
  import opened Pages
  import opened Repository
  import Sorting

  /** Why the database refuses a statement. */
  datatype StoreFailure =
    | UpdateFailed    // an UPDATE for a bootcamp id that no row has
    | QueryRejected   // a LIMIT with a negative offset

  // ---------------------------------------------------------------- findPage

  /** The dispatch of findPage: CAPACITY_COUNT picks a count query, every other sortBy a name query. */
  function KeyFor(sortBy: SortBy, order: Order): (key: SortKey)
    ensures key == ByCapacityCountAsc <==> sortBy == CapacityCount && order == Asc
    ensures key == ByCapacityCountDesc <==> sortBy == CapacityCount && order == Desc
    ensures key == ByNameAsc <==> sortBy == Name && order == Asc
    ensures key == ByNameDesc <==> sortBy == Name && order == Desc
  {
    match (sortBy, order)
    case (CapacityCount, Asc) => ByCapacityCountAsc
    case (CapacityCount, Desc) => ByCapacityCountDesc
    case (Name, Asc) => ByNameAsc
    case (Name, Desc) => ByNameDesc
  }

  /** The dispatch reaches each of the four queries from exactly one (sortBy, order) pair. */
  lemma KeyForIsOneToOne(s1: SortBy, o1: Order, s2: SortBy, o2: Order, key: SortKey)
    ensures KeyFor(s1, o1) == KeyFor(s2, o2) ==> s1 == s2 && o1 == o2
    ensures exists s: SortBy, o: Order :: KeyFor(s, o) == key
  {
    match key {
      case ByNameAsc => assert KeyFor(Name, Asc) == key;
      case ByNameDesc => assert KeyFor(Name, Desc) == key;
      case ByCapacityCountAsc => assert KeyFor(CapacityCount, Asc) == key;
      case ByCapacityCountDesc => assert KeyFor(CapacityCount, Desc) == key;
    }
  }

  /** BootcampEntityMapper.toModel: the five columns; capacityIds stays null. */
  function ToModel(row: BootcampRow): (b: Bootcamp)
    ensures b.id == Some(row.id) && b.name == Some(row.name) && b.description == Some(row.description)
    ensures b.launchDate == row.launchDate && b.duration == row.duration && b.capacityIds.None?
  {
    Bootcamp(Some(row.id), Some(row.name), Some(row.description), row.launchDate, row.duration, None)
  }

  /** A bootcamp row with its capacity ids read back from the link table, as findById and findAll build it. */
  function Reassembled(t: Tables, row: BootcampRow): (b: Bootcamp)
    ensures b.id == Some(row.id) && b.name == Some(row.name) && b.description == Some(row.description)
    ensures b.launchDate == row.launchDate && b.duration == row.duration
    ensures b.capacityIds == Some(CapacityIdsOf(t.links, row.id))
  {
    ToModel(row).(capacityIds := Some(CapacityIdsOf(t.links, row.id)))
  }

  function MapToModel(rows: seq<BootcampRow>): (r: seq<Bootcamp>)
    ensures |r| == |rows| && forall k :: 0 <= k < |rows| ==> r[k] == ToModel(rows[k])
  {
    seq(|rows|, k requires 0 <= k < |rows| => ToModel(rows[k]))
  }

  function MapReassembled(t: Tables, rows: seq<BootcampRow>): (r: seq<Bootcamp>)
    ensures |r| == |rows| && forall k :: 0 <= k < |rows| ==> r[k] == Reassembled(t, rows[k])
  {
    seq(|rows|, k requires 0 <= k < |rows| => Reassembled(t, rows[k]))
  }

  /**
   * findPage as written: the offset is the long page * size cast to int, which wraps once the
   * product passes Integer.MAX_VALUE, and the rows come back without their capacity ids.
   */
  function FindPageAsWritten(t: Tables, pr: PageRequest, sortBy: SortBy, order: Order)
    : (r: Result<seq<Bootcamp>, StoreFailure>)
    requires InBounds(pr)
    ensures r.Failure? <==> WrapToInt(Offset(pr)) < 0
    ensures r.Failure? ==> r.error == QueryRejected
    ensures r.Success? ==> |r.value| <= pr.size
    ensures r.Success? ==> var offset := WrapToInt(Offset(pr));
              |r.value| == if offset >= CountAll(t) then 0
                           else if offset + pr.size <= CountAll(t) then pr.size
                           else CountAll(t) - offset
    ensures r.Success? ==> forall k :: 0 <= k < |r.value| ==>
              WrapToInt(Offset(pr)) + k < CountAll(t)
              && r.value[k] == ToModel(Ordered(t, KeyFor(sortBy, order))[WrapToInt(Offset(pr)) + k].row)
    ensures r.Success? ==> forall k :: 0 <= k < |r.value| ==> r.value[k].capacityIds.None?
  {
    var offset := WrapToInt(Offset(pr));
    if offset < 0 then Failure(QueryRejected)
    else Success(MapToModel(FindPageOrderBy(t, KeyFor(sortBy, order), offset, Limit(pr))))
  }

  /**
   * findPage as intended: the rows at positions page * size onwards of the requested order, at
   * most size of them, each with its capacity ids as findById would return them.
   */
  function FindPage(t: Tables, pr: PageRequest, sortBy: SortBy, order: Order): (r: seq<Bootcamp>)
    requires InBounds(pr)
    ensures |r| <= pr.size
    ensures Offset(pr) >= CountAll(t) ==> r == []
    ensures |r| == if Offset(pr) >= CountAll(t) then 0
                   else if Offset(pr) + pr.size <= CountAll(t) then pr.size
                   else CountAll(t) - Offset(pr)
    ensures forall k :: 0 <= k < |r| ==>
              Offset(pr) + k < CountAll(t)
              && r[k] == Reassembled(t, Ordered(t, KeyFor(sortBy, order))[Offset(pr) + k].row)
  {
    MapReassembled(t, FindPageOrderBy(t, KeyFor(sortBy, order), Offset(pr), Limit(pr)))
  }

  /** Whenever the offset fits an int, the code as written returns the intended rows, capacity ids aside. */
  lemma FindPageAsWrittenBelowIntMax(t: Tables, pr: PageRequest, sortBy: SortBy, order: Order)
    requires InBounds(pr) && Offset(pr) <= INT_MAX
    ensures FindPageAsWritten(t, pr, sortBy, order).Success?
    ensures var w := FindPageAsWritten(t, pr, sortBy, order).value;
            var c := FindPage(t, pr, sortBy, order);
            |w| == |c| && forall k :: 0 <= k < |w| ==> w[k] == c[k].(capacityIds := None)
  {
  }

  /** page 21474837 with size 100: the offset 2147483700 wraps to a negative int and the query is refused. */
  lemma OffsetCastRefusesPage(t: Tables, sortBy: SortBy, order: Order)
    requires CountAll(t) <= 2147483700
    ensures FindPageAsWritten(t, PageRequest(21474837, 100), sortBy, order).Failure?
    ensures FindPage(t, PageRequest(21474837, 100), sortBy, order) == []
  {
    assert Offset(PageRequest(21474837, 100)) == 2147483700;
    assert WrapToInt(2147483700) == 2147483700 - 0x1_0000_0000;
  }

  /** page 42949673 with size 100: the offset 4294967300 wraps to 4, so rows of the first page come back. */
  lemma OffsetCastReturnsWrongRows(t: Tables, sortBy: SortBy, order: Order)
    requires 5 <= CountAll(t) <= 4294967300
    ensures var w := FindPageAsWritten(t, PageRequest(42949673, 100), sortBy, order);
            w.Success? && |w.value| >= 1
            && w.value[0] == ToModel(Ordered(t, KeyFor(sortBy, order))[4].row)
    ensures FindPage(t, PageRequest(42949673, 100), sortBy, order) == []
  {
    assert Offset(PageRequest(42949673, 100)) == 4294967300;
    assert WrapToInt(4294967300) == 4;
  }

  // ---------------------------------------------------------------- findById, findAll

  /** findById: the row with that id and its capacity ids, or nothing. */
  function FindById(t: Tables, id: int): (r: Option<Bootcamp>)
    ensures r.None? <==> forall k :: 0 <= k < |t.bootcamps| ==> t.bootcamps[k].id != id
    ensures r.Some? ==> exists k :: 0 <= k < |t.bootcamps| && t.bootcamps[k].id == id
                                    && r.value == Reassembled(t, t.bootcamps[k])
  {
    match FindRowById(t.bootcamps, id)
    case None => None
    case Some(row) => Some(Reassembled(t, row))
  }

  /** findAll: every row with its capacity ids, in no promised order. */
  function FindAll(t: Tables): (r: multiset<Bootcamp>)
    ensures |r| == CountAll(t)
    ensures forall b :: b in r ==> exists k :: 0 <= k < |t.bootcamps| && b == Reassembled(t, t.bootcamps[k])
    ensures forall k :: 0 <= k < |t.bootcamps| ==> Reassembled(t, t.bootcamps[k]) in r
  {
    var s := MapReassembled(t, t.bootcamps);
    assert forall k :: 0 <= k < |t.bootcamps| ==> s[k] in s;
    multiset(s)
  }

  // ---------------------------------------------------------------- link queries

  function CapacityIdsOfRows(rows: seq<LinkRow>): (r: seq<int>)
    ensures |r| == |rows| && forall k :: 0 <= k < |rows| ==> r[k] == rows[k].capacityId
  {
    seq(|rows|, k requires 0 <= k < |rows| => rows[k].capacityId)
  }

  function KeepBootcamp(rows: seq<LinkRow>, bootcampId: int): (r: seq<LinkRow>)
    ensures forall l :: l in r <==> l in rows && l.bootcampId == bootcampId
    ensures (forall k :: 0 <= k < |rows| ==> rows[k].bootcampId == bootcampId) ==> r == rows
    ensures |r| <= |rows|
  {
    if rows == [] then []
    else
      var rest := KeepBootcamp(rows[1..], bootcampId);
      assert rows == [rows[0]] + rows[1..];
      if rows[0].bootcampId == bootcampId then [rows[0]] + rest else rest
  }

  predicate Ascending(s: seq<int>) {
    forall i, j :: 0 <= i < j < |s| ==> s[i] <= s[j]
  }

  /**
   * findCapacityIdsByBootcampId: the capacity ids linked to one bootcamp, in ascending order,
   * one per link row.
   */
  function FindCapacityIdsByBootcampId(t: Tables, bootcampId: int): (r: seq<int>)
    ensures Ascending(r)
    ensures forall c :: c in r <==> LinkRow(bootcampId, c) in t.links
    ensures |r| == CountLinks(t.links, bootcampId)
    ensures forall c :: multiset(r)[c] == multiset(t.links)[LinkRow(bootcampId, c)]
  {
    var rows := FindCapacityIdsByBootcampIdsQuery(t, {bootcampId});
    OneBootcampQuery(t, bootcampId);
    CapacityIdsOfSortedRows(rows, bootcampId);
    assert forall k :: 0 <= k < |rows| ==> rows[k] in rows;
    CapacityIdsCount(rows, CapacityIdsOfRows(rows), bootcampId);
    CapacityIdsOfRows(KeepBootcamp(rows, bootcampId))
  }

  /** The link query for one bootcamp reads exactly that bootcamp's link rows, by capacity id. */
  lemma OneBootcampQuery(t: Tables, bootcampId: int)
    ensures var rows := FindCapacityIdsByBootcampIdsQuery(t, {bootcampId});
      && Sorting.SortedBy(rows, ByCapacityId())
      && (forall l :: l in rows <==> l in t.links && l.bootcampId == bootcampId)
      && |rows| == CountLinks(t.links, bootcampId)
      && forall c :: multiset(rows)[LinkRow(bootcampId, c)] == multiset(t.links)[LinkRow(bootcampId, c)]
  {
    var rows := FindCapacityIdsByBootcampIdsQuery(t, {bootcampId});
    LinkQuerySortedSelection(t, {bootcampId});
    LinksOfOneIsCapacityIdsOf(t.links, bootcampId);
    assert |rows| == |multiset(rows)| == |multiset(LinksOf(t.links, {bootcampId}))|;
  }

  lemma CapacityIdsOfSortedRows(rows: seq<LinkRow>, bootcampId: int)
    requires Sorting.SortedBy(rows, ByCapacityId())
    requires forall l :: l in rows ==> l.bootcampId == bootcampId
    ensures var r := CapacityIdsOfRows(KeepBootcamp(rows, bootcampId));
      && |r| == |rows|
      && Ascending(r)
      && forall c :: c in r <==> LinkRow(bootcampId, c) in rows
  {
    var kept := KeepBootcamp(rows, bootcampId);
    assert forall k :: 0 <= k < |rows| ==> rows[k] in rows;
    assert kept == rows;
    var r := CapacityIdsOfRows(kept);
    forall c ensures c in r <==> LinkRow(bootcampId, c) in rows {
      if c in r {
        var k :| 0 <= k < |r| && r[k] == c;
        assert rows[k] in rows;
        assert rows[k] == LinkRow(bootcampId, c);
      }
      if LinkRow(bootcampId, c) in rows {
        var k :| 0 <= k < |rows| && rows[k] == LinkRow(bootcampId, c);
        assert r[k] == c;
      }
    }
    forall i, j | 0 <= i < j < |r| ensures r[i] <= r[j] {
      assert ByCapacityId()(rows[i], rows[j]);
    }
  }

  /** Reading one bootcamp's link rows as capacity ids, position by position, keeps each id's multiplicity. */
  lemma {:induction false} CapacityIdsCount(rows: seq<LinkRow>, ids: seq<int>, bootcampId: int)
    requires |ids| == |rows|
    requires forall k :: 0 <= k < |rows| ==> ids[k] == rows[k].capacityId && rows[k].bootcampId == bootcampId
    ensures forall c :: multiset(ids)[c] == multiset(rows)[LinkRow(bootcampId, c)]
  {
    if rows != [] {
      CapacityIdsCount(rows[1..], ids[1..], bootcampId);
      assert rows == [rows[0]] + rows[1..];
      assert ids == [ids[0]] + ids[1..];
      CountsOfCons(rows[0], rows[1..], bootcampId, ids[1..]);
    }
  }

  lemma CountsOfCons(x: LinkRow, rest: seq<LinkRow>, bootcampId: int, tail: seq<int>)
    requires x.bootcampId == bootcampId
    requires forall c :: multiset(tail)[c] == multiset(rest)[LinkRow(bootcampId, c)]
    ensures forall c :: multiset([x.capacityId] + tail)[c] == multiset([x] + rest)[LinkRow(bootcampId, c)]
  {
    assert x == LinkRow(bootcampId, x.capacityId);
    forall c ensures multiset([x.capacityId] + tail)[c] == multiset([x] + rest)[LinkRow(bootcampId, c)] {
      assert multiset([x.capacityId] + tail) == multiset{x.capacityId} + multiset(tail);
      assert multiset([x] + rest) == multiset{x} + multiset(rest);
    }
  }

  lemma {:induction false} LinksOfOneIsCapacityIdsOf(links: seq<LinkRow>, bootcampId: int)
    ensures |LinksOf(links, {bootcampId})| == CountLinks(links, bootcampId)
  {
    if links != [] {
      LinksOfOneIsCapacityIdsOf(links[1..], bootcampId);
    }
  }

  /** One (bootcampId, capacityId) entry of findCapacityIdsByBootcampIds. */
  datatype Entry = Entry(bootcampId: int, capacityId: int)

  /**
   * findCapacityIdsByBootcampIds: nothing for a null or empty collection, otherwise one entry per
   * link row of the given bootcamps, ordered by capacity id.
   */
  function FindCapacityIdsByBootcampIds(t: Tables, bootcampIds: Option<seq<int>>): (r: seq<Entry>)
    ensures bootcampIds.None? || bootcampIds.value == [] ==> r == []
    ensures bootcampIds.Some? ==> forall e :: e in r <==>
              LinkRow(e.bootcampId, e.capacityId) in t.links && e.bootcampId in bootcampIds.value
    ensures forall i, j :: 0 <= i < j < |r| ==> r[i].capacityId <= r[j].capacityId
    ensures bootcampIds.Some? ==>
              multiset(r) == multiset(EntriesOf(LinksOf(t.links, set x | x in bootcampIds.value)))
  {
    if bootcampIds.None? then []
    else if bootcampIds.value == [] then
      LinksOfNone(t.links);
      []
    else
      var ids := set x | x in bootcampIds.value;
      var rows := FindCapacityIdsByBootcampIdsQuery(t, ids);
      LinkQuerySortedSelection(t, ids);
      EntriesOfSortedRows(rows);
      EntriesOfMultiset(rows, LinksOf(t.links, ids));
      EntriesOf(rows)
  }

  /** No bootcamp asked for, no link row selected. */
  lemma LinksOfNone(links: seq<LinkRow>)
    ensures LinksOf(links, {}) == []
  {
  }

  /** Each link row read back as an entry. */
  function EntriesOf(rows: seq<LinkRow>): (r: seq<Entry>)
    ensures |r| == |rows|
    ensures forall k :: 0 <= k < |rows| ==> r[k] == Entry(rows[k].bootcampId, rows[k].capacityId)
  {
    seq(|rows|, k requires 0 <= k < |rows| => Entry(rows[k].bootcampId, rows[k].capacityId))
  }

  lemma EntriesOfAppend(a: seq<LinkRow>, b: seq<LinkRow>)
    ensures EntriesOf(a + b) == EntriesOf(a) + EntriesOf(b)
  {
  }

  /** Reading rows back as entries keeps the multiset: the same rows in any order give the same entries. */
  lemma {:induction false} EntriesOfMultiset(a: seq<LinkRow>, b: seq<LinkRow>)
    requires multiset(a) == multiset(b)
    ensures multiset(EntriesOf(a)) == multiset(EntriesOf(b))
    decreases |a|
  {
    if a != [] {
      var x := a[0];
      assert x in multiset(b);
      var k :| 0 <= k < |b| && b[k] == x;
      var b1, b2 := b[..k], b[k + 1..];
      assert b == b1 + [x] + b2;
      assert a == [x] + a[1..];
      assert multiset(b) == multiset(b1) + multiset{x} + multiset(b2);
      assert multiset(a) == multiset{x} + multiset(a[1..]);
      assert multiset(b1 + b2) == multiset(b1) + multiset(b2);
      assert multiset(a[1..]) == multiset(a) - multiset{x};
      assert multiset(b1 + b2) == multiset(b) - multiset{x};
      EntriesOfMultiset(a[1..], b1 + b2);
      EntriesOfAppend([x], a[1..]);
      EntriesOfAppend(b1 + [x], b2);
      EntriesOfAppend(b1, [x]);
      EntriesOfAppend(b1, b2);
    }
  }

  lemma EntriesOfSortedRows(rows: seq<LinkRow>)
    requires Sorting.SortedBy(rows, ByCapacityId())
    ensures var r := EntriesOf(rows);
      && (forall e :: e in r <==> LinkRow(e.bootcampId, e.capacityId) in rows)
      && (forall i, j :: 0 <= i < j < |r| ==> r[i].capacityId <= r[j].capacityId)
  {
    var r := EntriesOf(rows);
    forall e ensures e in r <==> LinkRow(e.bootcampId, e.capacityId) in rows {
      if e in r {
        var k :| 0 <= k < |r| && r[k] == e;
        assert rows[k] == LinkRow(e.bootcampId, e.capacityId);
      }
      if LinkRow(e.bootcampId, e.capacityId) in rows {
        var k :| 0 <= k < |rows| && rows[k] == LinkRow(e.bootcampId, e.capacityId);
        assert r[k] == e;
      }
    }
    forall i, j | 0 <= i < j < |r| ensures r[i].capacityId <= r[j].capacityId {
      assert ByCapacityId()(rows[i], rows[j]);
    }
  }

  // ---------------------------------------------------------------- save

  /** What the database guarantees: positive ids below the next one to assign, no id twice, and
      every link row naming an id already assigned. */
  ghost predicate StoreInvariant(t: Tables, nextId: int) {
    && nextId >= 1
    && (forall k :: 0 <= k < |t.bootcamps| ==> 1 <= t.bootcamps[k].id < nextId)
    && (forall i, j :: 0 <= i < j < |t.bootcamps| ==> t.bootcamps[i].id != t.bootcamps[j].id)
    && (forall k :: 0 <= k < |t.links| ==> t.links[k].bootcampId < nextId)
  }

  /** BootcampEntityMapper.toEntity with the id the row ends up with. */
  function SavedRow(b: Bootcamp, id: int): BootcampRow
    requires b.name.Some? && b.description.Some?
  {
    BootcampRow(id, b.name.value, b.description.value, b.launchDate, b.duration)
  }

  /** One link row per capacity id, in list order, each naming the bootcamp. */
  function LinkRows(id: int, capacityIds: seq<int>): (r: seq<LinkRow>)
    ensures |r| == |capacityIds| && forall k :: 0 <= k < |r| ==> r[k] == LinkRow(id, capacityIds[k])
  {
    seq(|capacityIds|, k requires 0 <= k < |capacityIds| => LinkRow(id, capacityIds[k]))
  }

  /** UPDATE bootcamps SET ... WHERE id = row.id */
  function ReplaceRow(rows: seq<BootcampRow>, row: BootcampRow): (r: seq<BootcampRow>)
    ensures |r| == |rows|
    ensures forall k :: 0 <= k < |rows| ==> r[k] == if rows[k].id == row.id then row else rows[k]
  {
    seq(|rows|, k requires 0 <= k < |rows| => if rows[k].id == row.id then row else rows[k])
  }

  /** The id save writes under: a fresh one for a new bootcamp, the given one if a row has it, else none. */
  function SavedId(t: Tables, nextId: int, b: Bootcamp): Option<int> {
    if b.id.None? then Some(nextId)
    else if FindRowById(t.bootcamps, b.id.value).Some? then Some(b.id.value)
    else None
  }

  /** The tables after save(b). */
  function SaveTables(t: Tables, nextId: int, b: Bootcamp): (r: Tables)
    requires b.name.Some? && b.description.Some?
    ensures SavedId(t, nextId, b).None? ==> r == t
    ensures SavedId(t, nextId, b).Some? ==>
              r.links == t.links + LinkRows(SavedId(t, nextId, b).value, b.capacityIds.GetOr([]))
    ensures b.id.None? ==> r.bootcamps == t.bootcamps + [SavedRow(b, nextId)]
    ensures b.id.Some? ==> |r.bootcamps| == |t.bootcamps|
    ensures b.id.Some? ==> forall k :: 0 <= k < |t.bootcamps| ==>
              r.bootcamps[k] == if t.bootcamps[k].id == b.id.value then SavedRow(b, b.id.value) else t.bootcamps[k]
  {
    match SavedId(t, nextId, b)
    case None => t
    case Some(id) =>
      var rows := if b.id.None? then t.bootcamps + [SavedRow(b, id)] else ReplaceRow(t.bootcamps, SavedRow(b, id));
      Tables(rows, t.links + LinkRows(id, b.capacityIds.GetOr([])))
  }

  /** What save(b) emits: the saved columns, the id, and the submitted capacity ids (empty for null). */
  function SaveResult(t: Tables, nextId: int, b: Bootcamp): (r: Result<Bootcamp, StoreFailure>)
    ensures r.Failure? <==> b.id.Some? && FindRowById(t.bootcamps, b.id.value).None?
    ensures r.Failure? ==> r.error == UpdateFailed
    ensures r.Success? ==> r.value == b.(id := SavedId(t, nextId, b), capacityIds := Some(b.capacityIds.GetOr([])))
    ensures b.id.None? ==> r.Success? && r.value.id == Some(nextId)
  {
    match SavedId(t, nextId, b)
    case None => Failure(UpdateFailed)
    case Some(id) =>
      Success(Bootcamp(Some(id), b.name, b.description, b.launchDate, b.duration, Some(b.capacityIds.GetOr([]))))
  }

  function NextIdAfter(nextId: int, b: Bootcamp): int {
    if b.id.None? then nextId + 1 else nextId
  }

  /** Every save keeps the store's invariant, with the next id advanced past a fresh insert. */
  lemma SavePreservesInvariant(t: Tables, nextId: int, b: Bootcamp)
    requires StoreInvariant(t, nextId)
    requires b.name.Some? && b.description.Some?
    ensures StoreInvariant(SaveTables(t, nextId, b), NextIdAfter(nextId, b))
  {
    if b.id.None? {
      InsertKeepsInvariant(t, nextId, b);
    } else if SavedId(t, nextId, b).Some? {
      UpdateKeepsInvariant(t, nextId, b);
    }
  }

  lemma InsertKeepsInvariant(t: Tables, nextId: int, b: Bootcamp)
    requires StoreInvariant(t, nextId)
    requires b.id.None? && b.name.Some? && b.description.Some?
    ensures StoreInvariant(SaveTables(t, nextId, b), nextId + 1)
  {
    var t' := SaveTables(t, nextId, b);
    var n := |t.bootcamps|;
    assert t'.bootcamps == t.bootcamps + [SavedRow(b, nextId)];
    assert t'.links == t.links + LinkRows(nextId, b.capacityIds.GetOr([]));
    forall k | 0 <= k < |t'.bootcamps| ensures 1 <= t'.bootcamps[k].id < nextId + 1 {
      if k < n {
        assert t'.bootcamps[k] == t.bootcamps[k];
      }
    }
    forall i, j | 0 <= i < j < |t'.bootcamps| ensures t'.bootcamps[i].id != t'.bootcamps[j].id {
      assert t'.bootcamps[i] == t.bootcamps[i];
      if j < n {
        assert t'.bootcamps[j] == t.bootcamps[j];
      }
    }
    forall k | 0 <= k < |t'.links| ensures t'.links[k].bootcampId < nextId + 1 {
      if k < |t.links| {
        assert t'.links[k] == t.links[k];
      }
    }
  }

  lemma UpdateKeepsInvariant(t: Tables, nextId: int, b: Bootcamp)
    requires StoreInvariant(t, nextId)
    requires b.id.Some? && b.name.Some? && b.description.Some?
    requires SavedId(t, nextId, b).Some?
    ensures StoreInvariant(SaveTables(t, nextId, b), nextId)
  {
    var t' := SaveTables(t, nextId, b);
    var id := b.id.value;
    assert t'.bootcamps == ReplaceRow(t.bootcamps, SavedRow(b, id));
    assert t'.links == t.links + LinkRows(id, b.capacityIds.GetOr([]));
    assert forall k :: 0 <= k < |t.bootcamps| ==> t'.bootcamps[k].id == t.bootcamps[k].id;
    forall k | 0 <= k < |t'.links| ensures t'.links[k].bootcampId < nextId {
      if k < |t.links| {
        assert t'.links[k] == t.links[k];
      }
    }
  }

  /** One link row per capacity id: each id occurs among the rows as often as in the list. */
  lemma {:induction false} LinkRowsCount(id: int, cids: seq<int>)
    ensures forall c :: multiset(LinkRows(id, cids))[LinkRow(id, c)] == multiset(cids)[c]
  {
    if cids != [] {
      var rows, rest := LinkRows(id, cids), LinkRows(id, cids[1..]);
      assert rows == [LinkRow(id, cids[0])] + rest;
      assert cids == [cids[0]] + cids[1..];
      LinkRowsCount(id, cids[1..]);
      forall c ensures multiset(rows)[LinkRow(id, c)] == multiset(cids)[c] {
        assert multiset(rows) == multiset{LinkRow(id, cids[0])} + multiset(rest);
        assert multiset(cids) == multiset{cids[0]} + multiset(cids[1..]);
      }
    }
  }

  /** The capacity ids added for a fresh id are all the links that id has, each as often as it was given. */
  lemma CapacityIdsOfFresh(links: seq<LinkRow>, id: int, cids: seq<int>)
    requires forall k :: 0 <= k < |links| ==> links[k].bootcampId != id
    ensures multiset(CapacityIdsOf(links + LinkRows(id, cids), id)) == multiset(cids)
  {
    var all := links + LinkRows(id, cids);
    CapacityIdsOfCount(all, id);
    LinkRowsCount(id, cids);
    forall c ensures multiset(CapacityIdsOf(all, id))[c] == multiset(cids)[c] {
      FreshLinkCount(links, LinkRows(id, cids), LinkRow(id, c));
    }
  }

  /** Rows appended after rows that never name a bootcamp are all of its rows. */
  lemma FreshLinkCount(links: seq<LinkRow>, added: seq<LinkRow>, l: LinkRow)
    requires forall k :: 0 <= k < |links| ==> links[k].bootcampId != l.bootcampId
    ensures multiset(links + added)[l] == multiset(added)[l]
  {
    assert l !in links;
    assert multiset(links + added) == multiset(links) + multiset(added);
  }

  /**
   * Two bootcamps that agree on every field, their capacity ids compared as multisets: the link
   * rows are read back by a query without ORDER BY, after concurrent writes, in no promised order.
   */
  predicate SameUpToLinkOrder(a: Bootcamp, b: Bootcamp) {
    && a.(capacityIds := None) == b.(capacityIds := None)
    && a.capacityIds.Some? == b.capacityIds.Some?
    && (a.capacityIds.Some? ==> multiset(a.capacityIds.value) == multiset(b.capacityIds.value))
  }

  /**
   * Saving a new bootcamp and reading it back by the id save returned gives what save returned,
   * its capacity ids in some order; the table holds one more bootcamp, and its name is now taken.
   */
  lemma InsertThenFindById(t: Tables, nextId: int, b: Bootcamp)
    requires StoreInvariant(t, nextId)
    requires b.id.None? && b.name.Some? && b.description.Some?
    ensures SaveResult(t, nextId, b).Success?
    ensures FindById(SaveTables(t, nextId, b), nextId).Some?
    ensures SameUpToLinkOrder(FindById(SaveTables(t, nextId, b), nextId).value, SaveResult(t, nextId, b).value)
    ensures CountAll(SaveTables(t, nextId, b)) == CountAll(t) + 1
    ensures ExistsByName(SaveTables(t, nextId, b), b.name.value)
  {
    var t' := SaveTables(t, nextId, b);
    var row := SavedRow(b, nextId);
    assert t'.bootcamps[|t.bootcamps|] == row;
    assert forall k :: 0 <= k < |t.links| ==> t.links[k].bootcampId != nextId;
    CapacityIdsOfFresh(t.links, nextId, b.capacityIds.GetOr([]));
    var found := FindById(t', nextId);
    assert found.Some?;
    var k :| 0 <= k < |t'.bootcamps| && t'.bootcamps[k].id == nextId && found.value == Reassembled(t', t'.bootcamps[k]);
    assert k == |t.bootcamps|;
  }

  /** An update of an id no row has writes nothing and fails. */
  lemma UpdateOfMissingRowChangesNothing(t: Tables, nextId: int, b: Bootcamp)
    requires b.id.Some? && b.name.Some? && b.description.Some?
    requires forall k :: 0 <= k < |t.bootcamps| ==> t.bootcamps[k].id != b.id.value
    ensures SaveTables(t, nextId, b) == t
    ensures SaveResult(t, nextId, b) == Failure(UpdateFailed)
  {
  }

  /** The in-memory database: the two tables and the id the next inserted bootcamp gets. */
  class BootcampStore {
    var bootcamps: seq<BootcampRow>
    var links: seq<LinkRow>
    var nextId: int

    function Snapshot(): Tables
      reads this
    {
      Tables(bootcamps, links)
    }

    ghost predicate Valid()
      reads this
    {
      StoreInvariant(Snapshot(), nextId)
    }

    /** Empty tables; ids start at 1. */
    constructor()
      ensures Valid()
      ensures Snapshot() == Tables([], []) && nextId == 1
    {
      bootcamps := [];
      links := [];
      nextId := 1;
    }

    /**
     * save: insert (no id) or update (an id) the bootcamp row, then write one link row per
     * capacity id. A failed update writes nothing.
     */
    method Save(b: Bootcamp) returns (r: Result<Bootcamp, StoreFailure>)
      requires Valid()
      requires b.name.Some? && b.description.Some?
      modifies this
      ensures Valid()
      ensures Snapshot() == SaveTables(old(Snapshot()), old(nextId), b)
      ensures nextId == if r.Success? then NextIdAfter(old(nextId), b) else old(nextId)
      ensures r == SaveResult(old(Snapshot()), old(nextId), b)
    {
      SavePreservesInvariant(Snapshot(), nextId, b);
      var id: int;
      if b.id.None? {
        id := nextId;
        bootcamps := bootcamps + [SavedRow(b, id)];
        nextId := nextId + 1;
      } else {
        if FindRowById(bootcamps, b.id.value).None? {
          return Failure(UpdateFailed);
        }
        id := b.id.value;
        bootcamps := ReplaceRow(bootcamps, SavedRow(b, id));
      }
      var capacityIds := b.capacityIds.GetOr([]);
      ghost var rows, next := bootcamps, nextId;
      var k := 0;
      while k < |capacityIds|
        invariant 0 <= k <= |capacityIds|
        invariant bootcamps == rows && nextId == next
        invariant links == old(links) + LinkRows(id, capacityIds[..k])
      {
        assert LinkRows(id, capacityIds[..k + 1]) == LinkRows(id, capacityIds[..k]) + [LinkRow(id, capacityIds[k])];
        links := links + [LinkRow(id, capacityIds[k])];
        k := k + 1;
      }
      assert capacityIds[..k] == capacityIds;
      assert Snapshot() == SaveTables(old(Snapshot()), old(nextId), b);
      r := Success(Bootcamp(Some(id), b.name, b.description, b.launchDate, b.duration, Some(capacityIds)));
    }
  }
}
