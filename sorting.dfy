/**
 * The sort step of Selective::getOids (lines 376-404): the configured policy
 * picks asort, arsort, ksort, krsort, the original-options narrowing or no
 * sorting at all.
 */
module Sorting {
  import opened OptionTree
  import opened OptionMap

  /** The policy names of the 'selective_display_sort' setting. */
  const Asc: string := "ASC"
  const Desc: string := "DESC"
  const KeyAsc: string := "KASC"
  const KeyDesc: string := "KDESC"
  const Orig: string := "ORIG"
  const NoSort: string := "NONE"

  /**
   * The comparison PHP's sort functions apply to keys and labels. It is left
   * abstract: PHP compares numeric strings as numbers and other strings
   * byte-wise.
   */
  type Comparison = (string, string) -> bool

  /** The laws sorting needs of a comparison: it is total and transitive. */
  ghost predicate TotalPreorder(leq: Comparison)
  {
    (forall a, b :: leq(a, b) || leq(b, a)) &&
    (forall a, b, c :: leq(a, b) && leq(b, c) ==> leq(a, c))
  }

  /** What a sort compares, and in which direction. */
  datatype Order = ByLabel | ByLabelReverse | ByKey | ByKeyReverse

  predicate Before(o: Order, leq: Comparison, p: Pair, q: Pair)
  {
    match o
    case ByLabel => leq(p.1, q.1)
    case ByLabelReverse => leq(q.1, p.1)
    case ByKey => leq(p.0, q.0)
    case ByKeyReverse => leq(q.0, p.0)
  }

  lemma BeforeTotal(o: Order, leq: Comparison, p: Pair, q: Pair)
    requires TotalPreorder(leq)
    ensures Before(o, leq, p, q) || Before(o, leq, q, p)
  {
    assert leq(p.0, q.0) || leq(q.0, p.0);
    assert leq(p.1, q.1) || leq(q.1, p.1);
  }

  lemma BeforeTransitive(o: Order, leq: Comparison, p: Pair, q: Pair, r: Pair)
    requires TotalPreorder(leq)
    requires Before(o, leq, p, q) && Before(o, leq, q, r)
    ensures Before(o, leq, p, r)
  {
    match o
    case ByLabel => assert leq(p.1, q.1) && leq(q.1, r.1);
    case ByLabelReverse => assert leq(r.1, q.1) && leq(q.1, p.1);
    case ByKey => assert leq(p.0, q.0) && leq(q.0, r.0);
    case ByKeyReverse => assert leq(r.0, q.0) && leq(q.0, p.0);
  }

  predicate SortedBy(o: Order, leq: Comparison, s: seq<Pair>)
  {
    forall i, j :: 0 <= i < j < |s| ==> Before(o, leq, s[i], s[j])
  }

  /** Inserts `p` before the first element it may precede. */
  function Insert(o: Order, leq: Comparison, p: Pair, s: seq<Pair>): (r: seq<Pair>)
    ensures |r| == |s| + 1
    ensures multiset(r) == multiset(s) + multiset{p}
  {
    if s == [] then [p]
    else if Before(o, leq, p, s[0]) then [p] + s
    else
      assert s == [s[0]] + s[1..];
      [s[0]] + Insert(o, leq, p, s[1..])
  }

  /** Insertion adds the one pair and no other. */
  lemma InsertMembers(o: Order, leq: Comparison, p: Pair, s: seq<Pair>)
    ensures forall x :: x in Insert(o, leq, p, s) <==> x == p || x in s
  {
    var r := Insert(o, leq, p, s);
    assert forall x :: x in r <==> x in multiset(r);
    assert forall x :: x in s <==> x in multiset(s);
  }

  /** Putting a pair with a new key in front of an array with distinct keys keeps them distinct. */
  lemma DistinctCons(x: Pair, t: seq<Pair>)
    requires DistinctKeys(t)
    requires forall y :: y in t ==> y.0 != x.0
    ensures DistinctKeys([x] + t)
  {
    var r := [x] + t;
    forall i, j | 0 <= i < j < |r| ensures r[i].0 != r[j].0 {
      assert r[j] == t[j - 1];
      if 0 < i {
        assert r[i] == t[i - 1];
      }
    }
  }

  /** The tail of an array with distinct keys has distinct keys, none of them the head's. */
  lemma DistinctTail(s: seq<Pair>)
    requires s != [] && DistinctKeys(s)
    ensures DistinctKeys(s[1..])
    ensures forall y :: y in s[1..] ==> y.0 != s[0].0
  {
    assert forall k :: 1 <= k < |s| ==> s[1..][k - 1] == s[k];
  }

  /** Inserting a pair whose key is new keeps the keys distinct. */
  lemma {:induction false} InsertDistinct(o: Order, leq: Comparison, p: Pair, s: seq<Pair>)
    requires DistinctKeys(s) && p.0 !in KeysOf(s)
    ensures DistinctKeys(Insert(o, leq, p, s))
  {
    assert forall y :: y in s ==> y.0 in KeysOf(s);
    if s != [] {
      if Before(o, leq, p, s[0]) {
        DistinctCons(p, s);
      } else {
        DistinctTail(s);
        assert forall y :: y in s[1..] ==> y in s;
        assert p.0 !in KeysOf(s[1..]);
        InsertDistinct(o, leq, p, s[1..]);
        InsertMembers(o, leq, p, s[1..]);
        assert s[0] in s;
        DistinctCons(s[0], Insert(o, leq, p, s[1..]));
      }
    }
  }

  lemma {:induction false} InsertSorted(o: Order, leq: Comparison, p: Pair, s: seq<Pair>)
    requires TotalPreorder(leq)
    requires SortedBy(o, leq, s)
    ensures SortedBy(o, leq, Insert(o, leq, p, s))
  {
    if s != [] {
      if Before(o, leq, p, s[0]) {
        forall j | 0 < j < |s| ensures Before(o, leq, p, s[j]) {
          BeforeTransitive(o, leq, p, s[0], s[j]);
        }
      } else {
        BeforeTotal(o, leq, p, s[0]);
        InsertSorted(o, leq, p, s[1..]);
        var r := Insert(o, leq, p, s);
        var tail := Insert(o, leq, p, s[1..]);
        assert r == [s[0]] + tail;
        InsertMembers(o, leq, p, s[1..]);
        forall j | 0 <= j < |tail| ensures Before(o, leq, s[0], tail[j]) {
          assert tail[j] in tail;
          if tail[j] != p {
            var k :| 0 <= k < |s[1..]| && s[1..][k] == tail[j];
            assert s[k + 1] == tail[j];
          }
        }
      }
    }
  }

  /** Insertion sort by `o`: a permutation of `s`. */
  function SortBy(o: Order, leq: Comparison, s: seq<Pair>): (r: seq<Pair>)
    ensures |r| == |s|
    ensures multiset(r) == multiset(s)
  {
    if s == [] then []
    else
      var rest := SortBy(o, leq, s[1..]);
      assert s == [s[0]] + s[1..];
      Insert(o, leq, s[0], rest)
  }

  /** Under a total, transitive comparison the permutation is sorted. */
  lemma {:induction false} SortBySorted(o: Order, leq: Comparison, s: seq<Pair>)
    requires TotalPreorder(leq)
    ensures SortedBy(o, leq, SortBy(o, leq, s))
  {
    if s != [] {
      SortBySorted(o, leq, s[1..]);
      InsertSorted(o, leq, s[0], SortBy(o, leq, s[1..]));
    }
  }

  /** Sorting keeps the pairs of the array and the distinctness of its keys. */
  lemma {:induction false} SortByKeepsPairs(o: Order, leq: Comparison, s: seq<Pair>)
    ensures forall x :: x in SortBy(o, leq, s) <==> x in s
    ensures DistinctKeys(s) ==> DistinctKeys(SortBy(o, leq, s))
  {
    var r := SortBy(o, leq, s);
    assert forall x :: x in r <==> x in multiset(r);
    assert forall x :: x in s <==> x in multiset(s);
    if s != [] && DistinctKeys(s) {
      var rest := SortBy(o, leq, s[1..]);
      DistinctTail(s);
      SortByKeepsPairs(o, leq, s[1..]);
      assert s[0].0 !in KeysOf(rest);
      InsertDistinct(o, leq, s[0], rest);
      assert r == Insert(o, leq, s[0], rest);
    }
  }

  /** The order a sorting policy other than ORIG and NONE sorts by. */
  function PolicyOrder(policy: string): Order
  {
    if policy == Desc then ByLabelReverse
    else if policy == KeyAsc then ByKey
    else if policy == KeyDesc then ByKeyReverse
    else ByLabel
  }

  /**
   * The policy switch of Selective::getOids: the named policies, and asort for
   * every other value.
   */
  function SortOptions(policy: string, leq: Comparison, oids: seq<Pair>, original: seq<Entry>): seq<Entry>
  {
    if policy == Asc then AsLeaves(SortBy(ByLabel, leq, oids))
    else if policy == Desc then AsLeaves(SortBy(ByLabelReverse, leq, oids))
    else if policy == KeyAsc then AsLeaves(SortBy(ByKey, leq, oids))
    else if policy == KeyDesc then AsLeaves(SortBy(ByKeyReverse, leq, oids))
    else if policy == Orig then FilterOriginal(original, KeysOf(oids))
    else if policy == NoSort then AsLeaves(oids)
    else AsLeaves(SortBy(ByLabel, leq, oids))
  }

  /** Outside ORIG a policy presents the array, sorted by its order unless it is NONE. */
  lemma SortOptionsDispatch(policy: string, leq: Comparison, oids: seq<Pair>, original: seq<Entry>)
    requires policy != Orig
    ensures SortOptions(policy, leq, oids, original) ==
      AsLeaves(if policy == NoSort then oids else SortBy(PolicyOrder(policy), leq, oids))
  {
    if policy == Asc {
    } else if policy == Desc {
    } else if policy == KeyAsc {
    } else if policy == KeyDesc {
    } else if policy == NoSort {
    } else {
    }
  }

  /**
   * Outside ORIG a policy yields the pairs as plain options, a permutation of
   * the array; NONE keeps its order.
   */
  lemma SortOptionsPermutes(policy: string, leq: Comparison, oids: seq<Pair>, original: seq<Entry>)
    requires policy != Orig
    ensures var r := SortOptions(policy, leq, oids, original);
      |r| == |oids| && (forall e :: e in r ==> e.Leaf?) && multiset(Leaves(r)) == multiset(oids)
    ensures policy == NoSort ==> Leaves(SortOptions(policy, leq, oids, original)) == oids
  {
    SortOptionsDispatch(policy, leq, oids, original);
    var s := if policy == NoSort then oids else SortBy(PolicyOrder(policy), leq, oids);
    assert multiset(s) == multiset(oids);
  }

  /**
   * The order each sorting policy establishes under a total, transitive
   * comparison: by label (ASC and unknown names), by label descending (DESC),
   * by key (KASC), by key descending (KDESC).
   */
  lemma SortOptionsOrder(policy: string, leq: Comparison, oids: seq<Pair>, original: seq<Entry>)
    requires TotalPreorder(leq)
    requires policy !in {Orig, NoSort}
    ensures policy == Desc ==> SortedBy(ByLabelReverse, leq, Leaves(SortOptions(policy, leq, oids, original)))
    ensures policy == KeyAsc ==> SortedBy(ByKey, leq, Leaves(SortOptions(policy, leq, oids, original)))
    ensures policy == KeyDesc ==> SortedBy(ByKeyReverse, leq, Leaves(SortOptions(policy, leq, oids, original)))
    ensures policy !in {Desc, KeyAsc, KeyDesc} ==> SortedBy(ByLabel, leq, Leaves(SortOptions(policy, leq, oids, original)))
  {
    var o := PolicyOrder(policy);
    SortBySorted(o, leq, oids);
    assert SortOptions(policy, leq, oids, original) == AsLeaves(SortBy(o, leq, oids));
  }

  /** ORIG yields the original list narrowed to the array's keys, without empty groups. */
  lemma SortOptionsOriginal(leq: Comparison, oids: seq<Pair>, original: seq<Entry>)
    ensures NoEmptyGroups(SortOptions(Orig, leq, oids, original))
    ensures Leaves(SortOptions(Orig, leq, oids, original)) == KeepKeys(Leaves(original), KeysOf(oids))
  {
    FilterOriginalLeaves(original, KeysOf(oids));
  }

  /** An unrecognised policy sorts exactly as ASC does. */
  lemma UnknownPolicyIsAsc(policy: string, leq: Comparison, oids: seq<Pair>, original: seq<Entry>)
    requires policy !in {Asc, Desc, KeyAsc, KeyDesc, Orig, NoSort}
    ensures SortOptions(policy, leq, oids, original) == SortOptions(Asc, leq, oids, original)
  {
  }

  /**
   * Sorting never changes the key => label pairs, only their order: the
   * sorted options still have distinct keys and hold the same pairs.
   */
  lemma SortKeepsPairs(policy: string, leq: Comparison, oids: seq<Pair>, original: seq<Entry>)
    requires policy != Orig
    requires DistinctKeys(oids)
    ensures DistinctKeys(Leaves(SortOptions(policy, leq, oids, original)))
    ensures forall p :: p in Leaves(SortOptions(policy, leq, oids, original)) <==> p in oids
  {
    var sorted := Leaves(SortOptions(policy, leq, oids, original));
    SortOptionsPermutes(policy, leq, oids, original);
    assert forall p :: p in sorted <==> p in multiset(oids);
    if policy != NoSort {
      SortByKeepsPairs(PolicyOrder(policy), leq, oids);
    }
  }
}
