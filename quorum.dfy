/** The quorum over irreversible-block reports (src/index.js): counting
    equal values, picking a most frequent one, grouping reported ids by
    block number and choosing the canonical block of a tick. */
module Quorum {
  import opened Wrappers
  import opened Checks

  /** The last irreversible block one node reported in this tick. */
  datatype Report = Report(num: int, id: string)

  /** `countBy(identity)`: how many times each value occurs. */
  function CountBy<T(==)>(s: seq<T>): (m: map<T, nat>)
    ensures m.Keys == set x | x in s
    ensures forall x | x in m :: m[x] == multiset(s)[x]
  {
    if s == [] then map[]
    else
      var init, x := s[..|s| - 1], s[|s| - 1];
      assert s == init + [x];
      var m := CountBy(init);
      m[x := if x in m then m[x] + 1 else 1]
  }

  /** `reduce(max, 0)`: the largest score among `keys`, or 0 for none. */
  function MaxScore<T>(keys: seq<T>, score: T -> nat): (r: nat)
    ensures forall k | k in keys :: score(k) <= r
    ensures keys == [] ==> r == 0
    ensures keys != [] ==> exists k | k in keys :: score(k) == r
  {
    if keys == [] then 0
    else
      var init, last := keys[..|keys| - 1], keys[|keys| - 1];
      assert keys == init + [last];
      var rest := MaxScore(init, score);
      if score(last) > rest then score(last) else rest
  }

  /** The head of `keys` sorted by descending score: some key of maximal
      score (which one among equals is not specified by the source). */
  function ArgMax<T>(keys: seq<T>, score: T -> int): (k: T)
    requires keys != []
    ensures k in keys
    ensures forall j | j in keys :: score(j) <= score(k)
  {
    if |keys| == 1 then keys[0]
    else
      var init, last := keys[..|keys| - 1], keys[|keys| - 1];
      assert keys == init + [last];
      var best := ArgMax(init, score);
      if score(last) > score(best) then last else best
  }

  /** `getMaxNumberOfTheSameValues`: the largest multiplicity in `s`. */
  function MaxSameCount<T(==)>(s: seq<T>): (r: nat)
    ensures forall x | x in s :: multiset(s)[x] <= r
    ensures s == [] <==> r == 0
    ensures s != [] ==> exists x | x in s :: multiset(s)[x] == r
  {
    var counts := CountBy(s);
    MaxScore(s, x => if x in counts then counts[x] else 0)
  }

  /** `getValueWhichHasMaxOccurencies`: a value of maximal multiplicity;
      on an empty list the source's `head(head([]))` throws. */
  function MostFrequent<T(==)>(s: seq<T>): (r: Option<T>)
    ensures r.None? <==> s == []
    ensures r.Some? ==> r.value in s && forall x | x in s :: multiset(s)[x] <= multiset(s)[r.value]
  {
    if s == [] then None
    else
      var counts := CountBy(s);
      Some(ArgMax(s, x => if x in counts then counts[x] else 0))
  }

  /** The two helpers agree: the most frequent value occurs exactly
      `getMaxNumberOfTheSameValues` times. */
  lemma MostFrequentHasMaxSameCount<T>(s: seq<T>)
    requires s != []
    ensures multiset(s)[MostFrequent(s).value] == MaxSameCount(s)
  {
    var v := MostFrequent(s).value;
    var x :| x in s && multiset(s)[x] == MaxSameCount(s);
    assert multiset(s)[x] <= multiset(s)[v];
  }

  /** How many times `x` occurs in `s`. */
  function Occurrences<T(==)>(s: seq<T>, x: T): nat {
    multiset(s)[x]
  }

  /** The ids reported with block number `n`, in report order. */
  function IdsOf(reports: seq<Report>, n: int): (ids: seq<string>)
    ensures |ids| <= |reports|
  {
    if reports == [] then []
    else
      var init, last := reports[..|reports| - 1], reports[|reports| - 1];
      IdsOf(init, n) + if last.num == n then [last.id] else []
  }

  /** An id occurs in the ids of `n` exactly as often as the pair was reported. */
  lemma {:induction false} IdsOfCounts(reports: seq<Report>, n: int, id: string)
    ensures Occurrences(IdsOf(reports, n), id) == Occurrences(reports, Report(n, id))
  {
    if reports != [] {
      var init, last := reports[..|reports| - 1], reports[|reports| - 1];
      assert reports == init + [last];
      IdsOfCounts(init, n, id);
      assert multiset(reports) == multiset(init) + multiset{last};
      var tail := if last.num == n then [last.id] else [];
      assert multiset(IdsOf(reports, n)) == multiset(IdsOf(init, n)) + multiset(tail);
    }
  }

  /** The reduce that builds `irreversibleBlocks`: every reported number
      mapped to the ids reported with it, in report order. */
  function GroupIds(reports: seq<Report>): (g: map<int, seq<string>>)
    ensures forall n :: n in g <==> IdsOf(reports, n) != []
    ensures forall n | n in g :: g[n] == IdsOf(reports, n)
  {
    if reports == [] then map[]
    else
      var init, last := reports[..|reports| - 1], reports[|reports| - 1];
      var g := GroupIds(init);
      var ids := if last.num in g then g[last.num] else [];
      g[last.num := ids + [last.id]]
  }

  /** A number has a group exactly when some node reported it. */
  lemma GroupedNumbers(reports: seq<Report>, x: Report)
    requires x in reports
    ensures x.num in GroupIds(reports) && x.id in IdsOf(reports, x.num)
  {
    IdsOfCounts(reports, x.num, x.id);
    assert Occurrences(reports, Report(x.num, x.id)) > 0;
  }

  /** The canonical irreversible block of a tick: the number whose ids have
      the largest same-id count, and a most frequent id for that number.
      `None` when no node passed the freshness and consistency checks. */
  function Canonical(reports: seq<Report>): (r: Option<Block>)
    ensures r.None? <==> reports == []
    ensures r.Some? ==> Report(r.value.num, r.value.id) in reports
    ensures r.Some? ==> forall x | x in reports ::
      MaxSameCount(IdsOf(reports, x.num)) <= MaxSameCount(IdsOf(reports, r.value.num))
    ensures r.Some? ==> forall id ::
      Occurrences(IdsOf(reports, r.value.num), id) <= Occurrences(IdsOf(reports, r.value.num), r.value.id)
  {
    if reports == [] then None
    else
      var g := GroupIds(reports);
      var top := ArgMax(reports, (x: Report) => if x.num in g then MaxSameCount(g[x.num]) else 0);
      GroupedNumbers(reports, top);
      var ids := g[top.num];
      var id := MostFrequent(ids).value;
      assert Report(top.num, id) in reports by {
        IdsOfCounts(reports, top.num, id);
        assert Occurrences(ids, id) > 0;
      }
      assert forall x | x in reports :: x.num in g by {
        forall x | x in reports ensures x.num in g { GroupedNumbers(reports, x); }
      }
      assert forall i :: Occurrences(ids, i) <= Occurrences(ids, id) by {
        forall i ensures Occurrences(ids, i) <= Occurrences(ids, id) {
          if i !in ids { assert multiset(ids)[i] == 0; }
        }
      }
      Some(Block(top.num, id))
  }

  /** The canonical block is a most reported (number, id) pair: no pair was
      reported by more nodes. */
  lemma CanonicalIsMostReported(reports: seq<Report>)
    requires reports != []
    ensures forall x | x in reports ::
      Occurrences(reports, x) <= Occurrences(reports, Report(Canonical(reports).value.num, Canonical(reports).value.id))
  {
    var c := Canonical(reports).value;
    var ids := IdsOf(reports, c.num);
    IdsOfCounts(reports, c.num, c.id);
    var y :| y in ids && multiset(ids)[y] == MaxSameCount(ids);
    forall x | x in reports
      ensures Occurrences(reports, x) <= Occurrences(reports, Report(c.num, c.id))
    {
      GroupedNumbers(reports, x);
      IdsOfCounts(reports, x.num, x.id);
      assert x == Report(x.num, x.id);
      assert multiset(IdsOf(reports, x.num))[x.id] <= MaxSameCount(IdsOf(reports, x.num));
    }
  }

  /** A pair reported strictly more often than every other pair is the
      canonical block. */
  lemma StrictMajorityIsCanonical(reports: seq<Report>, p: Report)
    requires p in reports
    requires forall x | x in reports && x != p :: Occurrences(reports, x) < Occurrences(reports, p)
    ensures Canonical(reports) == Some(Block(p.num, p.id))
  {
    CanonicalIsMostReported(reports);
    var c := Canonical(reports).value;
    assert Report(c.num, c.id) in reports;
  }

  /** Worked case: of (100,"A"), (100,"A"), (100,"B"), (99,"Z") the
      canonical block is (100,"A"). */
  lemma CanonicalExample()
    ensures Canonical([Report(100, "A"), Report(100, "A"), Report(100, "B"), Report(99, "Z")])
      == Some(Block(100, "A"))
  {
    var a, b, z := Report(100, "A"), Report(100, "B"), Report(99, "Z");
    var reports := [a, a, b, z];
    assert multiset(reports) == multiset{a, a, b, z};
    forall x | x in reports && x != a
      ensures Occurrences(reports, x) < Occurrences(reports, a)
    {
      assert x == b || x == z;
    }
    StrictMajorityIsCanonical(reports, a);
  }
}
