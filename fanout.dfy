/**
 * The lookup pattern both gateway adapters share: deduplicate the ids through a set, ask the
 * remote service once per distinct id, and keep only the answers that arrived. The remote call
 * is a function `lookup: id -> Option<answer>`, None standing for any failure of that one call
 * (an error status, a body that does not decode, a null payload).
 */
module Fanout {
  import opened Wrappers

  predicate NoDuplicates(s: seq<int>) {
    forall i, j :: 0 <= i < j < |s| ==> s[i] != s[j]
  }

  /**
   * The distinct elements of ids. The adapters go through a HashSet, whose iteration order is
   * not promised; this lists each id at its first occurrence, and every result built on it is
   * stated order-free (see LenientFetchIgnoresOrderAndRepeats).
   */
  function Distinct(ids: seq<int>): (r: seq<int>)
    ensures NoDuplicates(r)
    ensures forall x :: x in r <==> x in ids
    ensures |r| <= |ids|
  {
    if ids == [] then []
    else
      var d := Distinct(ids[..|ids| - 1]);
      var last := ids[|ids| - 1];
      assert ids == ids[..|ids| - 1] + [last];
      if last in d then d else d + [last]
  }

  /** Counting the distinct ids finds every id exactly when no id is repeated. */
  lemma {:induction false} DistinctLengthIffNoDuplicates(ids: seq<int>)
    ensures |Distinct(ids)| == |ids| <==> NoDuplicates(ids)
  {
    if ids != [] {
      var prefix, last := ids[..|ids| - 1], ids[|ids| - 1];
      assert ids == prefix + [last];
      DistinctLengthIffNoDuplicates(prefix);
      if NoDuplicates(ids) {
        assert NoDuplicates(prefix) by {
          forall i, j | 0 <= i < j < |prefix| ensures prefix[i] != prefix[j] {
            assert prefix[i] == ids[i] && prefix[j] == ids[j];
          }
        }
        assert last !in prefix by {
          forall k | 0 <= k < |prefix| ensures prefix[k] != last {
            assert ids[k] != ids[|ids| - 1];
          }
        }
      }
      if |Distinct(ids)| == |ids| {
        var d := Distinct(prefix);
        assert last !in d && |d| == |prefix|;
        forall i, j | 0 <= i < j < |ids| ensures ids[i] != ids[j] {
          if j < |ids| - 1 {
            assert ids[i] == prefix[i] && ids[j] == prefix[j];
          } else {
            assert ids[i] in prefix;
          }
        }
      }
    }
  }

  /** A sequence without repetitions holds each of its elements once. */
  lemma {:induction false} NoDuplicatesMultiset(s: seq<int>, x: int)
    requires NoDuplicates(s)
    ensures multiset(s)[x] == if x in s then 1 else 0
  {
    if s != [] {
      assert s == [s[0]] + s[1..];
      assert NoDuplicates(s[1..]) by {
        forall i, j | 0 <= i < j < |s[1..]| ensures s[1..][i] != s[1..][j] {
          assert s[i + 1] != s[j + 1];
        }
      }
      assert s[0] !in s[1..] by {
        forall k | 0 <= k < |s[1..]| ensures s[1..][k] != s[0] {
          assert s[k + 1] != s[0];
        }
      }
      NoDuplicatesMultiset(s[1..], x);
    }
  }

  /** The ids actually looked up: none for a null or empty list, else each distinct id once. */
  function Requests(ids: Option<seq<int>>): (r: seq<int>)
    ensures NoDuplicates(r)
    ensures ids.None? ==> r == []
    ensures ids.Some? ==> forall x :: x in r <==> x in ids.value
    ensures ids.Some? ==> |r| <= |ids.value|
  {
    if ids.None? || ids.value == [] then [] else Distinct(ids.value)
  }

  /** The ids among ids whose lookup answers x. */
  function Answering<T(==,!new)>(ids: seq<int>, lookup: int -> Option<T>, x: T): set<int> {
    set i | i in ids && lookup(i) == Some(x)
  }

  /** Taking the head off a sequence without repetitions leaves one without repetitions, and without the head. */
  lemma NoDuplicatesTail(ids: seq<int>)
    requires ids != [] && NoDuplicates(ids)
    ensures NoDuplicates(ids[1..]) && ids[0] !in ids[1..]
  {
    var tail := ids[1..];
    forall i, j | 0 <= i < j < |tail| ensures tail[i] != tail[j] {
      assert ids[i + 1] != ids[j + 1];
    }
    forall k | 0 <= k < |tail| ensures tail[k] != ids[0] {
      assert ids[k + 1] != ids[0];
    }
  }

  /** An id in front of the others adds itself to what answers x exactly when its own lookup does. */
  lemma AnsweringCons<T(!new)>(ids: seq<int>, lookup: int -> Option<T>)
    requires ids != [] && ids[0] !in ids[1..]
    ensures forall x :: |Answering(ids, lookup, x)| ==
              (if lookup(ids[0]) == Some(x) then 1 else 0) + |Answering(ids[1..], lookup, x)|
  {
    forall x ensures |Answering(ids, lookup, x)| ==
                       (if lookup(ids[0]) == Some(x) then 1 else 0) + |Answering(ids[1..], lookup, x)| {
      var all, rest := Answering(ids, lookup, x), Answering(ids[1..], lookup, x);
      assert forall i :: i in ids <==> i == ids[0] || i in ids[1..];
      if lookup(ids[0]) == Some(x) {
        assert all == rest + {ids[0]};
      } else {
        assert all == rest;
      }
    }
  }

  /** The answers to the lookups of ids, failed lookups left out (GatherMembers and GatherCount say which). */
  function Gather<T>(ids: seq<int>, lookup: int -> Option<T>): (r: seq<T>)
    ensures |r| <= |ids|
    ensures (forall i :: i in ids ==> lookup(i).Some?) ==> |r| == |ids|
  {
    if ids == [] then []
    else
      var rest := Gather(ids[1..], lookup);
      assert forall i :: i in ids ==> i == ids[0] || i in ids[1..];
      if lookup(ids[0]).Some? then [lookup(ids[0]).value] + rest else rest
  }

  /** Among distinct ids, Gather holds each answer once for every id that it answers. */
  lemma {:induction false} GatherCount<T(!new)>(ids: seq<int>, lookup: int -> Option<T>)
    requires NoDuplicates(ids)
    ensures forall x :: multiset(Gather(ids, lookup))[x] == |Answering(ids, lookup, x)|
  {
    if ids != [] {
      NoDuplicatesTail(ids);
      GatherCount(ids[1..], lookup);
      AnsweringCons(ids, lookup);
    }
  }

  /** Gather keeps every answer that arrived and nothing else. */
  lemma {:induction false} GatherMembers<T>(ids: seq<int>, lookup: int -> Option<T>)
    ensures forall t :: t in Gather(ids, lookup) ==> exists i :: i in ids && lookup(i) == Some(t)
    ensures forall i :: i in ids && lookup(i).Some? ==> lookup(i).value in Gather(ids, lookup)
  {
    if ids != [] {
      GatherMembers(ids[1..], lookup);
      assert forall i :: i in ids ==> i == ids[0] || i in ids[1..];
    }
  }

  /** With distinct ids, one failed lookup among answered ones costs exactly one answer. */
  lemma {:induction false} GatherDropsOneFailure<T>(ids: seq<int>, lookup: int -> Option<T>, j: int)
    requires NoDuplicates(ids) && j in ids && lookup(j).None?
    requires forall i :: i in ids && i != j ==> lookup(i).Some?
    ensures |Gather(ids, lookup)| == |ids| - 1
  {
    var tail := ids[1..];
    assert NoDuplicates(tail) by {
      forall a, b | 0 <= a < b < |tail| ensures tail[a] != tail[b] {
        assert ids[a + 1] != ids[b + 1];
      }
    }
    assert forall i :: i in tail ==> i in ids;
    if ids[0] == j {
      assert j !in tail by {
        forall k | 0 <= k < |tail| ensures tail[k] != j {
          assert ids[k + 1] != ids[0];
        }
      }
    } else {
      assert j in tail by {
        var k :| 0 <= k < |ids| && ids[k] == j;
        assert tail[k - 1] == j;
      }
      GatherDropsOneFailure(tail, lookup, j);
    }
  }

  lemma {:induction false} GatherAppend<T>(a: seq<int>, b: seq<int>, lookup: int -> Option<T>)
    ensures Gather(a + b, lookup) == Gather(a, lookup) + Gather(b, lookup)
  {
    if a == [] {
      assert a + b == b;
    } else {
      var ab := a + b;
      assert ab[0] == a[0] && ab[1..] == a[1..] + b;
      GatherAppend(a[1..], b, lookup);
      var head := if lookup(a[0]).Some? then [lookup(a[0]).value] else [];
      assert Gather(ab, lookup) == head + Gather(ab[1..], lookup);
      assert Gather(a, lookup) == head + Gather(a[1..], lookup);
    }
  }

  /** What Gather collects depends on which ids are asked, not on the order they are asked in. */
  lemma {:induction false} GatherIgnoresOrder<T>(xs: seq<int>, ys: seq<int>, lookup: int -> Option<T>)
    requires multiset(xs) == multiset(ys)
    ensures multiset(Gather(xs, lookup)) == multiset(Gather(ys, lookup))
    decreases |xs|
  {
    if xs != [] {
      var x := xs[0];
      assert x in multiset(ys);
      var k :| 0 <= k < |ys| && ys[k] == x;
      var ys' := ys[..k] + ys[k + 1..];
      assert ys == ys[..k] + [x] + ys[k + 1..];
      assert xs == [x] + xs[1..];
      assert multiset(ys) == multiset(ys[..k]) + multiset{x} + multiset(ys[k + 1..]);
      assert multiset(ys') == multiset(ys[..k]) + multiset(ys[k + 1..]);
      assert multiset(xs) == multiset{x} + multiset(xs[1..]);
      assert multiset(xs[1..]) == multiset(xs) - multiset{x};
      assert multiset(ys') == multiset(ys) - multiset{x};
      GatherIgnoresOrder(xs[1..], ys', lookup);
      GatherAppend(ys[..k] + [x], ys[k + 1..], lookup);
      GatherAppend(ys[..k], [x], lookup);
      GatherAppend(ys[..k], ys[k + 1..], lookup);
      GatherAppend([x], xs[1..], lookup);
    }
  }

  /** fetchByIds without the adapter-specific projection: the answers, in no promised order. */
  function LenientFetch<T(==,!new)>(ids: Option<seq<int>>, lookup: int -> Option<T>): (r: multiset<T>)
    ensures ids.None? || ids.value == [] ==> r == multiset{}
    ensures ids.Some? ==> |r| <= |Requests(ids)| <= |ids.value|
    ensures forall t :: t in r ==> exists i :: i in Requests(ids) && lookup(i) == Some(t)
    ensures forall i :: ids.Some? && i in ids.value && lookup(i).Some? ==> lookup(i).value in r
    ensures forall x :: r[x] == |Answering(Requests(ids), lookup, x)|
  {
    GatherMembers(Requests(ids), lookup);
    GatherCount(Requests(ids), lookup);
    multiset(Gather(Requests(ids), lookup))
  }

  /** Two id lists naming the same ids, in any order and with any repetitions, fetch the same answers. */
  lemma LenientFetchIgnoresOrderAndRepeats<T(!new)>(a: seq<int>, b: seq<int>, lookup: int -> Option<T>)
    requires forall x :: x in a <==> x in b
    ensures LenientFetch(Some(a), lookup) == LenientFetch(Some(b), lookup)
  {
    var ra, rb := Requests(Some(a)), Requests(Some(b));
    forall x ensures multiset(ra)[x] == multiset(rb)[x] {
      NoDuplicatesMultiset(ra, x);
      NoDuplicatesMultiset(rb, x);
    }
    assert multiset(ra) == multiset(rb);
    GatherIgnoresOrder(ra, rb, lookup);
  }

  // ---------------------------------------------------------------- findExistingIds

  /** Why a findExistingIds flux ends in an error instead of a list of ids. */
  datatype GatewayFailure =
    | Timeout   // no element within the 5-second window of Flux.timeout
    | NullId    // an answer without an id: map(getId) may not produce null

  /** The distinct ids carried by the answers; every answer is known to carry one. */
  function IdsOf<T>(answers: seq<T>, idOf: T -> Option<int>): (r: set<int>)
    requires forall k :: 0 <= k < |answers| ==> idOf(answers[k]).Some?
    ensures |r| <= |answers|
    ensures forall x :: x in r <==> exists k :: 0 <= k < |answers| && idOf(answers[k]) == Some(x)
  {
    if answers == [] then {}
    else
      var rest := IdsOf(answers[1..], idOf);
      assert forall k :: 0 < k < |answers| ==> answers[k] == answers[1..][k - 1];
      {idOf(answers[0]).value} + rest
  }

  /** `.map(getId).distinct()` over the answers that arrived: an answer without an id is an error. */
  function ExistingIds<T>(answers: seq<T>, idOf: T -> Option<int>): (r: Result<set<int>, GatewayFailure>)
    ensures r.Failure? <==> exists k :: 0 <= k < |answers| && idOf(answers[k]).None?
    ensures r.Failure? ==> r.error == NullId
    ensures r.Success? ==> |r.value| <= |answers|
    ensures r.Success? ==> forall x :: x in r.value <==>
              exists k :: 0 <= k < |answers| && idOf(answers[k]) == Some(x)
  {
    if exists k :: 0 <= k < |answers| && idOf(answers[k]).None? then Failure(NullId)
    else Success(IdsOf(answers, idOf))
  }

  /**
   * findExistingIds over one service: no ids for a null or empty list, the timeout's error, or
   * `.map(getId).distinct()` over the answers of the distinct ids; `idOf` reads an answer's id.
   * Both web-client adapters are this function, each with its own answers and getter.
   */
  function FindExistingIds<T>(ids: Option<seq<int>>, lookup: int -> Option<T>, idOf: T -> Option<int>, timedOut: bool)
    : (r: Result<set<int>, GatewayFailure>)
    ensures ids.None? || ids.value == [] ==> r == Success({})
    ensures ids.Some? && ids.value != [] && timedOut ==> r == Failure(Timeout)
    ensures r.Failure? && !timedOut ==> r.error == NullId
    ensures ids.Some? && ids.value != [] && !timedOut ==>
              (r == Failure(NullId) <==> exists i :: i in ids.value && lookup(i).Some? && idOf(lookup(i).value).None?)
    ensures r.Success? && ids.Some? ==> |r.value| <= |Requests(ids)|
    ensures r.Success? && ids.Some? ==> forall x :: x in r.value ==>
              exists i :: i in ids.value && lookup(i).Some? && idOf(lookup(i).value) == Some(x)
    ensures r.Success? && ids.Some? ==> forall i :: i in ids.value && lookup(i).Some? ==>
              idOf(lookup(i).value).Some? && idOf(lookup(i).value).value in r.value
  {
    if ids.None? || ids.value == [] then Success({})
    else if timedOut then Failure(Timeout)
    else
      NullIdOfGathered(Requests(ids), lookup, idOf);
      FoundIdsAreAnswered(Requests(ids), lookup, idOf);
      AnsweredIdsAreFound(Requests(ids), lookup, idOf);
      ExistingIds(Gather(Requests(ids), lookup), idOf)
  }

  /** The answers hold one without an id exactly when some requested id is answered so. */
  lemma NullIdOfGathered<T>(req: seq<int>, lookup: int -> Option<T>, idOf: T -> Option<int>)
    ensures ExistingIds(Gather(req, lookup), idOf).Failure? <==>
              exists i :: i in req && lookup(i).Some? && idOf(lookup(i).value).None?
  {
    var answers := Gather(req, lookup);
    GatherMembers(req, lookup);
    if ExistingIds(answers, idOf).Failure? {
      var k :| 0 <= k < |answers| && idOf(answers[k]).None?;
      assert answers[k] in answers;
    }
    if i :| i in req && lookup(i).Some? && idOf(lookup(i).value).None? {
      assert lookup(i).value in answers;
      var k :| 0 <= k < |answers| && answers[k] == lookup(i).value;
    }
  }

  /** Every id found is the id of some answer. */
  lemma FoundIdsAreAnswered<T>(req: seq<int>, lookup: int -> Option<T>, idOf: T -> Option<int>)
    ensures var r := ExistingIds(Gather(req, lookup), idOf);
      r.Success? ==> forall x :: x in r.value ==>
        exists i :: i in req && lookup(i).Some? && idOf(lookup(i).value) == Some(x)
  {
    var answers := Gather(req, lookup);
    var r := ExistingIds(answers, idOf);
    GatherMembers(req, lookup);
    if r.Success? {
      forall x | x in r.value
        ensures exists i :: i in req && lookup(i).Some? && idOf(lookup(i).value) == Some(x)
      {
        var k :| 0 <= k < |answers| && idOf(answers[k]) == Some(x);
        assert answers[k] in answers;
      }
    }
  }

  /** The id of every answer is found. */
  lemma AnsweredIdsAreFound<T>(req: seq<int>, lookup: int -> Option<T>, idOf: T -> Option<int>)
    ensures var r := ExistingIds(Gather(req, lookup), idOf);
      r.Success? ==> forall i :: i in req && lookup(i).Some? ==>
        idOf(lookup(i).value).Some? && idOf(lookup(i).value).value in r.value
  {
    var answers := Gather(req, lookup);
    var r := ExistingIds(answers, idOf);
    GatherMembers(req, lookup);
    if r.Success? {
      forall i | i in req && lookup(i).Some?
        ensures idOf(lookup(i).value).Some? && idOf(lookup(i).value).value in r.value
      {
        assert lookup(i).value in answers;
        var k :| 0 <= k < |answers| && answers[k] == lookup(i).value;
      }
    }
  }

  /** A service that answers each id with the entity of that id. */
  ghost predicate Honest<T>(lookup: int -> Option<T>, idOf: T -> Option<int>) {
    forall i :: lookup(i).Some? ==> idOf(lookup(i).value) == Some(i)
  }

  /** Against an honest service, findExistingIds finds exactly the requested ids the service knows. */
  lemma HonestFindExistingIds<T>(ids: seq<int>, lookup: int -> Option<T>, idOf: T -> Option<int>)
    requires Honest(lookup, idOf)
    requires ids != []
    ensures FindExistingIds(Some(ids), lookup, idOf, false) == Success(set i | i in ids && lookup(i).Some?)
  {
    var r := FindExistingIds(Some(ids), lookup, idOf, false);
    assert r.Success?;
    assert r.value == set i | i in ids && lookup(i).Some?;
  }
}
