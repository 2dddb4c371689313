/**
 * BootcampRepository and BootcampCapacityRepository over an in-memory database: the table
 * `bootcamps` and the link table `bootcamp_capacities`, each a sequence of rows in insertion
 * order. Every query is a function of the two tables.
 */
module Repository {
  import opened Wrappers
  import opened Domain
  import Sorting

  /** A row of `bootcamps`. The id is the primary key, assigned by the database. */
  datatype BootcampRow = BootcampRow(
    id: int,
    name: string,
    description: string,
    launchDate: Option<Date>,
    duration: Option<int>)

  /** A row of `bootcamp_capacities`: one bootcamp linked to one capacity id. */
  datatype LinkRow = LinkRow(bootcampId: int, capacityId: int)

  datatype Tables = Tables(bootcamps: seq<BootcampRow>, links: seq<LinkRow>)

  // ---------------------------------------------------------------- countAll, existsByName

  /** SELECT COUNT(*) FROM bootcamps: zero exactly when no name is taken. */
  function CountAll(t: Tables): (n: nat)
    ensures n == 0 <==> forall name :: !ExistsByName(t, name)
  {
    if t.bootcamps == [] then 0
    else assert ExistsByName(t, t.bootcamps[0].name); |t.bootcamps|
  }

  /** existsByName: some row carries exactly this name. */
  predicate ExistsByName(t: Tables, name: string) {
    exists k :: 0 <= k < |t.bootcamps| && t.bootcamps[k].name == name
  }

  // ---------------------------------------------------------------- the four page queries

  /** COUNT(bc.capacity_id) for one bootcamp: the link rows that name it. */
  function CountLinks(links: seq<LinkRow>, bootcampId: int): (n: nat)
    ensures n <= |links|
    ensures n == 0 <==> forall k :: 0 <= k < |links| ==> links[k].bootcampId != bootcampId
  {
    if links == [] then 0
    else (if links[0].bootcampId == bootcampId then 1 else 0) + CountLinks(links[1..], bootcampId)
  }

  /** A bootcamp row with the size of its group in the LEFT JOIN ... GROUP BY. */
  datatype Ranked = Ranked(row: BootcampRow, capacityCount: nat)

  /**
   * The LEFT JOIN of the bootcamps with their link rows, grouped per bootcamp: every bootcamp row
   * once, with its number of links (0 for a bootcamp without links).
   */
  function Joined(t: Tables): (r: seq<Ranked>)
    ensures |r| == |t.bootcamps|
    ensures forall k :: 0 <= k < |r| ==>
              r[k].row == t.bootcamps[k] && r[k].capacityCount == CountLinks(t.links, t.bootcamps[k].id)
  {
    seq(|t.bootcamps|, k requires 0 <= k < |t.bootcamps| =>
      Ranked(t.bootcamps[k], CountLinks(t.links, t.bootcamps[k].id)))
  }

  /** The four ORDER BY clauses. */
  datatype SortKey = ByNameAsc | ByNameDesc | ByCapacityCountAsc | ByCapacityCountDesc

  /** a may come before b under the ORDER BY of key; both count orders break ties by name ascending. */
  predicate Precedes(key: SortKey, a: Ranked, b: Ranked) {
    match key
    case ByNameAsc => Sorting.LexLeq(a.row.name, b.row.name)
    case ByNameDesc => Sorting.LexLeq(b.row.name, a.row.name)
    case ByCapacityCountAsc =>
      a.capacityCount < b.capacityCount
      || (a.capacityCount == b.capacityCount && Sorting.LexLeq(a.row.name, b.row.name))
    case ByCapacityCountDesc =>
      a.capacityCount > b.capacityCount
      || (a.capacityCount == b.capacityCount && Sorting.LexLeq(a.row.name, b.row.name))
  }

  function PrecedesBy(key: SortKey): (Ranked, Ranked) -> bool {
    (a: Ranked, b: Ranked) => Precedes(key, a, b)
  }

  /** Every ORDER BY here is a total preorder, so sorting by it is meaningful. */
  lemma PrecedesIsTotalPreorder(key: SortKey)
    ensures Sorting.TotalPreorder(PrecedesBy(key))
  {
    var leq := PrecedesBy(key);
    forall a: Ranked, b: Ranked ensures leq(a, b) || leq(b, a) {
      Sorting.LexTotal(a.row.name, b.row.name);
    }
    forall a: Ranked, b: Ranked, c: Ranked | leq(a, b) && leq(b, c) ensures leq(a, c) {
      match key {
        case ByNameAsc =>
          Sorting.LexTransitive(a.row.name, b.row.name, c.row.name);
        case ByNameDesc =>
          Sorting.LexTransitive(c.row.name, b.row.name, a.row.name);
        case ByCapacityCountAsc =>
          if a.capacityCount == b.capacityCount == c.capacityCount {
            Sorting.LexTransitive(a.row.name, b.row.name, c.row.name);
          }
        case ByCapacityCountDesc =>
          if a.capacityCount == b.capacityCount == c.capacityCount {
            Sorting.LexTransitive(a.row.name, b.row.name, c.row.name);
          }
      }
    }
  }

  /** The joined rows in the order of key (rows the ORDER BY ties are kept in one fixed order). */
  function Ordered(t: Tables, key: SortKey): (r: seq<Ranked>)
    ensures |r| == |t.bootcamps|
  {
    var j := Joined(t);
    var r := Sorting.Sort(j, PrecedesBy(key));
    assert |r| == |multiset(r)| == |multiset(j)| == |j|;
    r
  }

  function RowsOf(rs: seq<Ranked>): (r: seq<BootcampRow>)
    ensures |r| == |rs| && forall k :: 0 <= k < |rs| ==> r[k] == rs[k].row
  {
    seq(|rs|, k requires 0 <= k < |rs| => rs[k].row)
  }

  /** LIMIT offset, limit: skip offset rows, then keep at most limit rows. */
  function Window<T>(s: seq<T>, offset: nat, limit: nat): (r: seq<T>)
    ensures offset >= |s| ==> r == []
    ensures |r| <= limit
    ensures |r| == if offset >= |s| then 0 else if offset + limit <= |s| then limit else |s| - offset
    ensures forall k :: 0 <= k < |r| ==> r[k] == s[offset + k]
  {
    var from := if offset <= |s| then offset else |s|;
    var to := if offset + limit <= |s| then offset + limit else |s|;
    s[from..to]
  }

  /** findPageOrderBy*(offset, limit): the rows of key's order from position offset on, at most limit of them. */
  function FindPageOrderBy(t: Tables, key: SortKey, offset: nat, limit: nat): (r: seq<BootcampRow>)
    ensures |r| <= limit
    ensures offset >= CountAll(t) ==> r == []
    ensures |r| == if offset >= CountAll(t) then 0
                   else if offset + limit <= CountAll(t) then limit
                   else CountAll(t) - offset
    ensures forall k :: 0 <= k < |r| ==> offset + k < CountAll(t) && r[k] == Ordered(t, key)[offset + k].row
  {
    RowsOf(Window(Ordered(t, key), offset, limit))
  }

  /**
   * Each query's order: rows are sorted by key, the order lists every bootcamp row exactly once
   * (those without links too), and each carries its own link count.
   */
  lemma OrderedIsSortedJoin(t: Tables, key: SortKey)
    ensures Sorting.SortedBy(Ordered(t, key), PrecedesBy(key))
    ensures multiset(RowsOf(Ordered(t, key))) == multiset(t.bootcamps)
    ensures forall k :: 0 <= k < |Ordered(t, key)| ==>
              Ordered(t, key)[k].capacityCount == CountLinks(t.links, Ordered(t, key)[k].row.id)
  {
    var j := Joined(t);
    var o := Ordered(t, key);
    PrecedesIsTotalPreorder(key);
    Sorting.SortSorted(j, PrecedesBy(key));
    forall k | 0 <= k < |o| ensures o[k].capacityCount == CountLinks(t.links, o[k].row.id) {
      assert o[k] in multiset(j);
    }
    RowsOfMultiset(o, j);
    assert RowsOf(j) == t.bootcamps;
  }

  lemma RowsOfAppend(a: seq<Ranked>, b: seq<Ranked>)
    ensures RowsOf(a + b) == RowsOf(a) + RowsOf(b)
  {
  }

  lemma {:induction false} RowsOfMultiset(a: seq<Ranked>, b: seq<Ranked>)
    requires multiset(a) == multiset(b)
    ensures multiset(RowsOf(a)) == multiset(RowsOf(b))
    decreases |a|
  {
    if a != [] {
      var x := a[0];
      assert x in multiset(b);
      var k :| 0 <= k < |b| && b[k] == x;
      var b1, b2 := b[..k], b[k + 1..];
      assert b == b1 + [x] + b2;
      assert a == [x] + a[1..];
      assert multiset(b) == multiset(b1) + multiset{x} + multiset(b2);
      assert multiset(a) == multiset{x} + multiset(a[1..]);
      assert multiset(b1 + b2) == multiset(b1) + multiset(b2);
      assert multiset(a[1..]) == multiset(a) - multiset{x};
      assert multiset(b1 + b2) == multiset(b) - multiset{x};
      RowsOfMultiset(a[1..], b1 + b2);
      RowsOfAppend([x], a[1..]);
      RowsOfAppend(b1 + [x], b2);
      RowsOfAppend(b1, [x]);
      RowsOfAppend(b1, b2);
    }
  }

  /** The capacity-count-descending order: more links first; equal counts by name ascending. */
  lemma CapacityCountDescTieBreak(t: Tables, i: int, j: int)
    requires 0 <= i < j < CountAll(t)
    ensures var o := Ordered(t, ByCapacityCountDesc);
      && o[i].capacityCount >= o[j].capacityCount
      && (o[i].capacityCount == o[j].capacityCount ==> Sorting.LexLeq(o[i].row.name, o[j].row.name))
  {
    OrderedIsSortedJoin(t, ByCapacityCountDesc);
    var o := Ordered(t, ByCapacityCountDesc);
    assert PrecedesBy(ByCapacityCountDesc)(o[i], o[j]);
  }

  /** countAll and the page queries agree: the queries, taken together, range over countAll rows. */
  lemma CountAllIsOrderedLength(t: Tables, key: SortKey)
    ensures CountAll(t) == |Ordered(t, key)| == |RowsOf(Ordered(t, key))|
  {
  }

  // ---------------------------------------------------------------- pages tile the order

  /** The first n pages of size `size`, one after the other. */
  function FirstPages<T>(s: seq<T>, size: nat, n: nat): seq<T> {
    if n == 0 then [] else FirstPages(s, size, n - 1) + Window(s, (n - 1) * size, size)
  }

  /** Consecutive pages neither skip nor repeat a row: together they are a prefix of the order. */
  lemma {:induction false} FirstPagesArePrefix<T>(s: seq<T>, size: nat, n: nat)
    ensures FirstPages(s, size, n) == s[..if n * size <= |s| then n * size else |s|]
  {
    if n > 0 {
      FirstPagesArePrefix(s, size, n - 1);
      var a := if (n - 1) * size <= |s| then (n - 1) * size else |s|;
      var b := if n * size <= |s| then n * size else |s|;
      assert n * size == (n - 1) * size + size;
      assert s[..b] == s[..a] + s[a..b];
    }
  }

  // ---------------------------------------------------------------- link queries

  /** The link rows whose bootcamp is one of bootcampIds (WHERE bc.bootcamp_id IN (...)), in table order. */
  function LinksOf(links: seq<LinkRow>, bootcampIds: set<int>): (r: seq<LinkRow>)
    ensures |r| <= |links|
    ensures forall l :: l in r <==> l in links && l.bootcampId in bootcampIds
    ensures forall l :: l in links && l.bootcampId in bootcampIds ==> multiset(r)[l] == multiset(links)[l]
  {
    if links == [] then []
    else
      var rest := LinksOf(links[1..], bootcampIds);
      assert links == [links[0]] + links[1..];
      if links[0].bootcampId in bootcampIds then [links[0]] + rest else rest
  }

  predicate CapacityIdLeq(a: LinkRow, b: LinkRow) {
    a.capacityId <= b.capacityId
  }

  function ByCapacityId(): (LinkRow, LinkRow) -> bool {
    (a: LinkRow, b: LinkRow) => CapacityIdLeq(a, b)
  }

  /**
   * findCapacityIdsByBootcampIds: the link rows of the given bootcamps, ordered by capacity id
   * ascending (rows with equal capacity ids in one fixed order).
   */
  function FindCapacityIdsByBootcampIdsQuery(t: Tables, bootcampIds: set<int>): (r: seq<LinkRow>)
    ensures multiset(r) == multiset(LinksOf(t.links, bootcampIds))
  {
    Sorting.Sort(LinksOf(t.links, bootcampIds), ByCapacityId())
  }

  /** The link query returns exactly the wanted rows, each as often as it is stored, sorted by capacity id. */
  lemma LinkQuerySortedSelection(t: Tables, bootcampIds: set<int>)
    ensures Sorting.SortedBy(FindCapacityIdsByBootcampIdsQuery(t, bootcampIds), ByCapacityId())
    ensures forall l :: l in FindCapacityIdsByBootcampIdsQuery(t, bootcampIds) <==>
              l in t.links && l.bootcampId in bootcampIds
  {
    var leq := ByCapacityId();
    assert Sorting.TotalPreorder(leq) by {
      forall a: LinkRow, b: LinkRow ensures leq(a, b) || leq(b, a) {}
      forall a: LinkRow, b: LinkRow, c: LinkRow | leq(a, b) && leq(b, c) ensures leq(a, c) {}
    }
    Sorting.SortSorted(LinksOf(t.links, bootcampIds), leq);
    var r := FindCapacityIdsByBootcampIdsQuery(t, bootcampIds);
    forall l ensures l in r <==> l in t.links && l.bootcampId in bootcampIds {
      assert l in r <==> l in multiset(r);
      assert l in LinksOf(t.links, bootcampIds) <==> l in multiset(LinksOf(t.links, bootcampIds));
    }
  }

  /** findAllByBootcampId mapped to capacity ids: the capacity ids of one bootcamp's link rows, in table order. */
  function CapacityIdsOf(links: seq<LinkRow>, bootcampId: int): (r: seq<int>)
    ensures |r| == CountLinks(links, bootcampId)
    ensures forall c :: c in r <==> LinkRow(bootcampId, c) in links
  {
    if links == [] then []
    else
      var rest := CapacityIdsOf(links[1..], bootcampId);
      assert forall l :: l in links <==> l == links[0] || l in links[1..];
      if links[0].bootcampId == bootcampId then [links[0].capacityId] + rest else rest
  }
  /** Each capacity id occurs in CapacityIdsOf as often as its link row is stored for that bootcamp. */
  lemma {:induction false} CapacityIdsOfCount(links: seq<LinkRow>, bootcampId: int)
    ensures forall c :: multiset(CapacityIdsOf(links, bootcampId))[c] == multiset(links)[LinkRow(bootcampId, c)]
  {
    if links != [] {
      CapacityIdsOfCount(links[1..], bootcampId);
      assert links == [links[0]] + links[1..];
      var head := if links[0].bootcampId == bootcampId then [links[0].capacityId] else [];
      assert CapacityIdsOf(links, bootcampId) == head + CapacityIdsOf(links[1..], bootcampId);
    }
  }


  /** findById on bootcamps: the row with that primary key, if any (the first one, were there several). */
  function FindRowById(rows: seq<BootcampRow>, id: int): (r: Option<BootcampRow>)
    ensures r.Some? ==> r.value in rows && r.value.id == id
    ensures r.None? <==> forall k :: 0 <= k < |rows| ==> rows[k].id != id
  {
    if rows == [] then None
    else if rows[0].id == id then Some(rows[0])
    else
      var r := FindRowById(rows[1..], id);
      assert forall k :: 1 <= k < |rows| ==> rows[k] == rows[1..][k - 1];
      r
  }
}
