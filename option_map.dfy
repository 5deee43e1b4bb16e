/**
 * The ordered key => label array that Selective::getOids fills from the rows
 * of the derivation pass (`$oids`), and the display-field choices of the
 * filter's settings form, which are built the same way.
 */
module OptionMap {
  import opened OptionTree

  /** One element of an ordered PHP array. */
  type Pair = (Key, Label)

  /** No key occurs twice: what a PHP array guarantees. */
  predicate DistinctKeys(m: seq<Pair>)
  {
    forall i, j :: 0 <= i < j < |m| ==> m[i].0 != m[j].0
  }

  function KeysOf(m: seq<Pair>): set<Key>
  {
    set p | p in m :: p.0
  }

  /** Position of the first element with key `k`, or -1. */
  function IndexOf(m: seq<Pair>, k: Key): (i: int)
    ensures -1 <= i < |m|
    ensures 0 <= i ==> m[i].0 == k && forall j :: 0 <= j < i ==> m[j].0 != k
    ensures i < 0 ==> forall j :: 0 <= j < |m| ==> m[j].0 != k
  {
    if m == [] then -1
    else if m[0].0 == k then 0
    else
      var j := IndexOf(m[1..], k);
      if j < 0 then -1 else j + 1
  }

  /**
   * `$m[$k] = $l`: an existing key keeps its position and takes the new label,
   * a new key is appended.
   */
  function Put(m: seq<Pair>, k: Key, l: Label): seq<Pair>
  {
    var i := IndexOf(m, k);
    if i < 0 then m + [(k, l)] else m[i := (k, l)]
  }

  /** Assigning to an existing key changes no key and no position; a new key is appended. */
  lemma PutShape(m: seq<Pair>, k: Key, l: Label)
    ensures k in KeysOf(m) ==>
      |Put(m, k, l)| == |m| && forall j :: 0 <= j < |m| ==> Put(m, k, l)[j].0 == m[j].0
    ensures k !in KeysOf(m) ==> Put(m, k, l) == m + [(k, l)]
  {
    if k !in KeysOf(m) {
      assert forall j :: 0 <= j < |m| ==> m[j].0 in KeysOf(m);
    }
  }

  /** Assignment adds its key to the key set, and no other key. */
  lemma PutKeys(m: seq<Pair>, k: Key, l: Label)
    ensures KeysOf(Put(m, k, l)) == KeysOf(m) + {k}
  {
    var r := Put(m, k, l);
    var i := IndexOf(m, k);
    if 0 <= i {
      assert r[i] == (k, l);
      assert m[i] in m;
      forall x | x in KeysOf(r) ensures x in KeysOf(m) + {k} {
        var p :| p in r && p.0 == x;
        var j :| 0 <= j < |r| && r[j] == p;
        if j != i {
          assert m[j] == p;
        }
      }
      forall x | x in KeysOf(m) ensures x in KeysOf(r) {
        var p :| p in m && p.0 == x;
        var j :| 0 <= j < |m| && m[j] == p;
        assert r[j].0 == x;
        assert r[j] in r;
      }
    } else {
      assert r == m + [(k, l)];
      assert r[|m|] == (k, l);
    }
  }

  /**
   * On an array with distinct keys, assignment keeps the keys distinct, and
   * its pairs are the new one and the old ones with another key.
   */
  lemma PutPairs(m: seq<Pair>, k: Key, l: Label)
    requires DistinctKeys(m)
    ensures DistinctKeys(Put(m, k, l))
    ensures forall p :: p in Put(m, k, l) <==> p == (k, l) || (p in m && p.0 != k)
  {
    var r := Put(m, k, l);
    var i := IndexOf(m, k);
    if i < 0 {
      assert forall p :: p in m ==> p.0 != k;
      assert r == m + [(k, l)];
    } else {
      assert r[i] == (k, l);
      forall p | p in r ensures p == (k, l) || (p in m && p.0 != k) {
        var j :| 0 <= j < |r| && r[j] == p;
        if j != i {
          assert m[j] == p;
        }
      }
      forall p | p in m && p.0 != k ensures p in r {
        var j :| 0 <= j < |m| && m[j] == p;
        assert r[j] == p;
      }
    }
  }

  /** A field value as the field handler returns it for one row. */
  datatype RawValue =
    | Null                        // no value
    | Scalar(value: Key)
    | Multi(values: seq<Key>)     // a multi-valued field

  /** One row of the derivation pass: the raw field value and the rendered label. */
  datatype Row = Row(raw: RawValue, rendered: Label)

  /**
   * The array key a raw value ends up under (Selective.php line 370 and the
   * assignment on line 373): an array is replaced by its first element,
   * `reset()` of an empty array yields FALSE, stored as key 0, and NULL is
   * stored as the key ''.
   */
  function KeyOf(v: RawValue): Key
  {
    match v
    case Null => ""
    case Scalar(k) => k
    case Multi(ks) => if ks == [] then "0" else ks[0]
  }

  /** The key => label assignments the rows make, in row order. */
  function Assignments(rows: seq<Row>): (ps: seq<Pair>)
    ensures |ps| == |rows|
    ensures forall i :: 0 <= i < |rows| ==> ps[i] == (KeyOf(rows[i].raw), rows[i].rendered)
  {
    if rows == [] then [] else [(KeyOf(rows[0].raw), rows[0].rendered)] + Assignments(rows[1..])
  }

  /** The array obtained by assigning `ps` one after the other to an empty array. */
  function Fold(ps: seq<Pair>): seq<Pair>
  {
    if ps == [] then [] else Put(Fold(ps[..|ps| - 1]), ps[|ps| - 1].0, ps[|ps| - 1].1)
  }

  /** `$oids` after the foreach over `rows` of Selective::getOids. */
  function Collected(rows: seq<Row>): seq<Pair>
  {
    Fold(Assignments(rows))
  }

  /** The fold over one more assignment is one more `Put`. */
  lemma FoldStep(ps: seq<Pair>, i: nat)
    requires i < |ps|
    ensures Fold(ps[..i + 1]) == Put(Fold(ps[..i]), ps[i].0, ps[i].1)
  {
    assert ps[..i + 1][..i] == ps[..i];
  }

  /**
   * The foreach of Selective::getOids (lines 367-374): one array assignment per
   * row, in row order.
   */
  method CollectOptions(rows: seq<Row>) returns (oids: seq<Pair>)
    ensures oids == Collected(rows)
    ensures DistinctKeys(oids)
    ensures KeysOf(oids) == KeysOf(Assignments(rows))
  {
    ghost var ps := Assignments(rows);
    oids := [];
    for i := 0 to |rows|
      invariant oids == Fold(ps[..i])
    {
      FoldStep(ps, i);
      oids := Put(oids, KeyOf(rows[i].raw), rows[i].rendered);
    }
    assert ps[..|rows|] == ps;
    FoldDistinct(ps);
    FoldKeys(ps);
  }

  lemma {:induction false} FoldDistinct(ps: seq<Pair>)
    ensures DistinctKeys(Fold(ps))
  {
    if ps != [] {
      var n := |ps| - 1;
      FoldDistinct(ps[..n]);
      PutPairs(Fold(ps[..n]), ps[n].0, ps[n].1);
    }
  }

  /** The array holds one element per distinct key assigned, and no other. */
  lemma {:induction false} FoldKeys(ps: seq<Pair>)
    ensures KeysOf(Fold(ps)) == KeysOf(ps)
  {
    if ps != [] {
      var n := |ps| - 1;
      FoldKeys(ps[..n]);
      PutKeys(Fold(ps[..n]), ps[n].0, ps[n].1);
      assert ps == ps[..n] + [ps[n]];
      assert KeysOf(ps) == KeysOf(ps[..n]) + {ps[n].0} by {
        forall k | k in KeysOf(ps) ensures k in KeysOf(ps[..n]) + {ps[n].0} {
          var p :| p in ps && p.0 == k;
        }
        forall k | k in KeysOf(ps[..n]) ensures k in KeysOf(ps) {
          var p :| p in ps[..n] && p.0 == k;
        }
      }
    }
  }

  /** Assignment `i` is the last one to its key. */
  ghost predicate IsLastForKey(ps: seq<Pair>, i: int)
  {
    0 <= i < |ps| && forall j :: i < j < |ps| ==> ps[j].0 != ps[i].0
  }

  /** The pair `p` is made by the last assignment to its key. */
  ghost predicate LastAssigned(ps: seq<Pair>, p: Pair)
  {
    exists i :: IsLastForKey(ps, i) && ps[i] == p
  }

  /** A last assignment before the final one stays last unless the final one reuses its key. */
  lemma LastAssignedOfPrefix(ps: seq<Pair>, p: Pair, i: int)
    requires ps != [] && 0 <= i < |ps| - 1
    requires IsLastForKey(ps, i) && ps[i] == p
    ensures LastAssigned(ps[..|ps| - 1], p) && p.0 != ps[|ps| - 1].0
  {
    var prefix := ps[..|ps| - 1];
    assert prefix[i] == ps[i];
    assert IsLastForKey(prefix, i);
  }

  lemma LastAssignedExtend(ps: seq<Pair>, p: Pair, i: int)
    requires ps != [] && 0 <= i < |ps| - 1
    requires IsLastForKey(ps[..|ps| - 1], i) && ps[..|ps| - 1][i] == p
    requires p.0 != ps[|ps| - 1].0
    ensures LastAssigned(ps, p)
  {
    assert ps[i] == p;
    assert IsLastForKey(ps, i);
  }

  lemma {:induction false} LastAssignedStep(ps: seq<Pair>, p: Pair)
    requires ps != []
    ensures var n := |ps| - 1;
      LastAssigned(ps, p) <==> p == ps[n] || (LastAssigned(ps[..n], p) && p.0 != ps[n].0)
  {
    var n := |ps| - 1;
    assert IsLastForKey(ps, n);
    if LastAssigned(ps, p) && p != ps[n] {
      var i :| IsLastForKey(ps, i) && ps[i] == p;
      LastAssignedOfPrefix(ps, p, i);
    }
    if LastAssigned(ps[..n], p) && p.0 != ps[n].0 {
      var i :| IsLastForKey(ps[..n], i) && ps[..n][i] == p;
      LastAssignedExtend(ps, p, i);
    }
  }

  /**
   * A key assigned several times keeps the label of its last assignment: a
   * pair is in the array exactly when it was the last assignment to its key.
   */
  lemma {:induction false} FoldLastWins(ps: seq<Pair>, p: Pair)
    ensures p in Fold(ps) <==> LastAssigned(ps, p)
  {
    if ps != [] {
      var n := |ps| - 1;
      FoldLastWins(ps[..n], p);
      FoldDistinct(ps[..n]);
      PutPairs(Fold(ps[..n]), ps[n].0, ps[n].1);
      LastAssignedStep(ps, p);
    }
  }

  /** Index of the first assignment to `k`; |ps| if there is none. */
  function FirstAssignment(ps: seq<Pair>, k: Key): (i: nat)
    ensures i <= |ps|
    ensures i < |ps| ==> ps[i].0 == k
    ensures forall j :: 0 <= j < i ==> ps[j].0 != k
  {
    if ps == [] then 0
    else if ps[0].0 == k then 0
    else 1 + FirstAssignment(ps[1..], k)
  }

  lemma {:induction false} FirstAssignmentPrefix(ps: seq<Pair>, n: nat, k: Key)
    requires n <= |ps|
    requires FirstAssignment(ps[..n], k) < n
    ensures FirstAssignment(ps, k) == FirstAssignment(ps[..n], k)
  {
    var b := FirstAssignment(ps[..n], k);
    assert ps[..n][b] == ps[b];
  }

  /** The keys of `c` appear in the order of their first assignment in `ps`, and each has one. */
  ghost predicate InFirstAssignmentOrder(ps: seq<Pair>, c: seq<Pair>)
  {
    (forall a, b :: 0 <= a < b < |c| ==> FirstAssignment(ps, c[a].0) < FirstAssignment(ps, c[b].0)) &&
    (forall a :: 0 <= a < |c| ==> FirstAssignment(ps, c[a].0) < |ps|)
  }

  /**
   * Without sorting the array lists its keys in the order in which they were
   * first assigned.
   */
  lemma {:induction false} FoldOrder(ps: seq<Pair>)
    ensures InFirstAssignmentOrder(ps, Fold(ps))
  {
    if ps != [] {
      var n := |ps| - 1;
      var prefix := ps[..n];
      var c := Fold(prefix);
      var kn := ps[n].0;
      FoldOrder(prefix);
      forall a | 0 <= a < |c| ensures FirstAssignment(ps, c[a].0) == FirstAssignment(prefix, c[a].0) {
        FirstAssignmentPrefix(ps, n, c[a].0);
      }
      PutShape(c, kn, ps[n].1);
      if kn in KeysOf(c) {
        FoldOrderOld(ps, c, Fold(ps));
      } else {
        assert FirstAssignment(ps, kn) == n by {
          FoldKeys(prefix);
          forall j | 0 <= j < n ensures ps[j].0 != kn {
            assert prefix[j] == ps[j];
            assert prefix[j] in prefix;
          }
        }
        FoldOrderNew(ps, c, Fold(ps));
      }
    }
  }

  lemma {:induction false} FoldOrderOld(ps: seq<Pair>, c: seq<Pair>, r: seq<Pair>)
    requires ps != [] && InFirstAssignmentOrder(ps[..|ps| - 1], c)
    requires forall a :: 0 <= a < |c| ==> FirstAssignment(ps, c[a].0) == FirstAssignment(ps[..|ps| - 1], c[a].0)
    requires |r| == |c| && forall a :: 0 <= a < |r| ==> r[a].0 == c[a].0
    ensures InFirstAssignmentOrder(ps, r)
  {
  }

  lemma {:induction false} FoldOrderNew(ps: seq<Pair>, c: seq<Pair>, r: seq<Pair>)
    requires ps != [] && InFirstAssignmentOrder(ps[..|ps| - 1], c)
    requires forall a :: 0 <= a < |c| ==> FirstAssignment(ps, c[a].0) == FirstAssignment(ps[..|ps| - 1], c[a].0)
    requires FirstAssignment(ps, ps[|ps| - 1].0) == |ps| - 1
    requires r == c + [ps[|ps| - 1]]
    ensures InFirstAssignmentOrder(ps, r)
  {
    var n := |ps| - 1;
    assert forall a :: 0 <= a < |c| ==> r[a] == c[a];
    assert r[|c|] == ps[n];
  }
}
