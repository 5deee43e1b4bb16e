/**
 * Option lists as the selective filter hands them to its select widget: an
 * ordered list of entries, each either a plain key => label option or a named
 * group of further options (the grouped form of an options list).
 * Holds the narrowing of the original filter's option list to the keys the
 * derivation pass found (Selective::filterOriginalOptions).
 */
module OptionTree {

  /** Array keys. PHP stores integer keys and their decimal strings as the same key,
      so every key is represented here by its string form. */
  type Key = string

  /** A rendered, already escaped option label; its content is opaque to the filter. */
  type Label = string

  datatype Entry =
    | Leaf(key: Key, text: Label)
    | Group(key: Key, children: seq<Entry>)

  /** The key => label options of a list, flattened in display order. */
  function Leaves(es: seq<Entry>): seq<(Key, Label)>
  {
    if es == [] then []
    else
      (match es[0]
       case Leaf(k, l) => [(k, l)]
       case Group(_, cs) => Leaves(cs))
      + Leaves(es[1..])
  }

  /** No group of the list, at any depth, is empty. */
  predicate NoEmptyGroups(es: seq<Entry>)
  {
    es == [] ||
    ((es[0].Group? ==> es[0].children != [] && NoEmptyGroups(es[0].children)) &&
     NoEmptyGroups(es[1..]))
  }

  /** The options whose key is in `allowed`, in their original order. */
  function KeepKeys(ps: seq<(Key, Label)>, allowed: set<Key>): (r: seq<(Key, Label)>)
    ensures forall p :: p in r <==> p in ps && p.0 in allowed
  {
    if ps == [] then []
    else (if ps[0].0 in allowed then [ps[0]] else []) + KeepKeys(ps[1..], allowed)
  }

  /**
   * `r` is `es` with some entries deleted and the children of the groups that
   * remain narrowed the same way: order and nesting are those of `es`, and
   * every group of `r` carries the key of the group it comes from.
   */
  predicate Embedded(r: seq<Entry>, es: seq<Entry>)
  {
    if r == [] then true
    else if es == [] then false
    else
      var headMatches :=
        match es[0]
        case Leaf(_, _) => r[0] == es[0]
        case Group(k, cs) => r[0].Group? && r[0].key == k && Embedded(r[0].children, cs);
      (headMatches && Embedded(r[1..], es[1..])) || Embedded(r, es[1..])
  }

  /**
   * Selective::filterOriginalOptions: keeps a plain option iff its key is in the
   * set, recurses into groups and keeps a group only when something in it is
   * left. The foreach over `$options` is the walk from head to tail.
   */
  function FilterOriginal(options: seq<Entry>, allowed: set<Key>): (r: seq<Entry>)
    ensures NoEmptyGroups(r)
    ensures |r| <= |options|
  {
    if options == [] then []
    else
      var rest := FilterOriginal(options[1..], allowed);
      match options[0]
      case Leaf(k, l) =>
        if k in allowed then
          assert ([Leaf(k, l)] + rest)[1..] == rest;
          [Leaf(k, l)] + rest
        else rest
      case Group(k, cs) =>
        var nested := FilterOriginal(cs, allowed);
        if nested == [] then rest
        else
          assert ([Group(k, nested)] + rest)[1..] == rest;
          [Group(k, nested)] + rest
  }

  /** The options listed directly by an entry or, for a group, inside it. */
  function OwnLeaves(e: Entry): seq<(Key, Label)>
  {
    match e
    case Leaf(k, l) => [(k, l)]
    case Group(_, cs) => Leaves(cs)
  }

  lemma {:induction false} LeavesUnfold(es: seq<Entry>)
    requires es != []
    ensures Leaves(es) == OwnLeaves(es[0]) + Leaves(es[1..])
  {
  }

  lemma {:induction false} LeavesAppend(a: seq<Entry>, b: seq<Entry>)
    ensures Leaves(a + b) == Leaves(a) + Leaves(b)
  {
    if a == [] {
      assert a + b == b;
    } else {
      assert (a + b)[0] == a[0];
      assert (a + b)[1..] == a[1..] + b;
      LeavesAppend(a[1..], b);
      LeavesUnfold(a);
      LeavesUnfold(a + b);
    }
  }

  lemma {:induction false} KeepKeysAppend(a: seq<(Key, Label)>, b: seq<(Key, Label)>, allowed: set<Key>)
    ensures KeepKeys(a + b, allowed) == KeepKeys(a, allowed) + KeepKeys(b, allowed)
  {
    if a == [] {
      assert a + b == b;
    } else {
      assert (a + b)[0] == a[0];
      assert (a + b)[1..] == a[1..] + b;
      KeepKeysAppend(a[1..], b, allowed);
    }
  }

  /** The options that survive are exactly the original ones whose key is in the
      set, in their original order. */
  lemma {:induction false} FilterOriginalLeaves(options: seq<Entry>, allowed: set<Key>)
    ensures Leaves(FilterOriginal(options, allowed)) == KeepKeys(Leaves(options), allowed)
  {
    if options != [] {
      var rest := FilterOriginal(options[1..], allowed);
      LeavesUnfold(options);
      KeepKeysAppend(OwnLeaves(options[0]), Leaves(options[1..]), allowed);
      FilterOriginalLeaves(options[1..], allowed);
      match options[0]
      case Leaf(k, l) =>
        assert KeepKeys([(k, l)], allowed) == (if k in allowed then [(k, l)] else []);
        if k in allowed {
          LeavesAppend([Leaf(k, l)], rest);
        }
      case Group(k, cs) =>
        FilterOriginalLeaves(cs, allowed);
        var nested := FilterOriginal(cs, allowed);
        if nested != [] {
          LeavesAppend([Group(k, nested)], rest);
          LeavesUnfold([Group(k, nested)]);
        }
    }
  }

  /** Order and nesting of the original list are preserved. */
  lemma {:induction false} FilterOriginalEmbedded(options: seq<Entry>, allowed: set<Key>)
    ensures Embedded(FilterOriginal(options, allowed), options)
  {
    var r := FilterOriginal(options, allowed);
    if options != [] && r != [] {
      var rest := FilterOriginal(options[1..], allowed);
      FilterOriginalEmbedded(options[1..], allowed);
      match options[0]
      case Leaf(k, l) =>
        if k in allowed {
          assert r[0] == options[0] && r[1..] == rest;
        }
      case Group(k, cs) =>
        var nested := FilterOriginal(cs, allowed);
        if nested != [] {
          FilterOriginalEmbedded(cs, allowed);
          assert r[0] == Group(k, nested) && r[1..] == rest;
        }
    }
  }

  /** Every option of the list, at any depth, has a key in `allowed`. */
  predicate KeysWithin(es: seq<Entry>, allowed: set<Key>)
  {
    forall p :: p in Leaves(es) ==> p.0 in allowed
  }

  lemma {:induction false} KeysWithinUnfold(es: seq<Entry>, allowed: set<Key>)
    requires es != [] && KeysWithin(es, allowed)
    ensures es[0].Group? ==> KeysWithin(es[0].children, allowed)
    ensures es[0].Leaf? ==> es[0].key in allowed
    ensures KeysWithin(es[1..], allowed)
  {
    LeavesUnfold(es);
    if es[0].Leaf? {
      assert (es[0].key, es[0].text) in Leaves(es);
    }
  }

  /** A list without empty groups whose options all have allowed keys is left as it is. */
  lemma {:induction false} FilterOriginalFixpoint(options: seq<Entry>, allowed: set<Key>)
    requires NoEmptyGroups(options)
    requires KeysWithin(options, allowed)
    ensures FilterOriginal(options, allowed) == options
  {
    if options != [] {
      KeysWithinUnfold(options, allowed);
      FilterOriginalFixpoint(options[1..], allowed);
      var rest := FilterOriginal(options[1..], allowed);
      if options[0].Group? {
        FilterOriginalFixpoint(options[0].children, allowed);
      }
      assert FilterOriginal(options, allowed) == [options[0]] + rest;
      assert options == [options[0]] + options[1..];
    }
  }

  /** Narrowing twice by the same set is narrowing once. */
  lemma {:induction false} FilterOriginalIdempotent(options: seq<Entry>, allowed: set<Key>)
    ensures FilterOriginal(FilterOriginal(options, allowed), allowed) == FilterOriginal(options, allowed)
  {
    FilterOriginalLeaves(options, allowed);
    FilterOriginalFixpoint(FilterOriginal(options, allowed), allowed);
  }

  /** One plain option per key => label pair, in order. */
  function AsLeaves(ps: seq<(Key, Label)>): (r: seq<Entry>)
    ensures |r| == |ps|
    ensures forall e :: e in r ==> e.Leaf?
    ensures Leaves(r) == ps
  {
    if ps == [] then [] else [Leaf(ps[0].0, ps[0].1)] + AsLeaves(ps[1..])
  }

  /**
   * `array_diff_key($options, [$key => NULL])`: the top-level entries whose key
   * differs from `key`, in order.
   */
  function WithoutKey(es: seq<Entry>, key: Key): (r: seq<Entry>)
    ensures forall e :: e in r <==> e in es && e.key != key
  {
    if es == [] then []
    else if es[0].key == key then WithoutKey(es[1..], key)
    else [es[0]] + WithoutKey(es[1..], key)
  }

  /** Removing a key keeps the remaining entries in their order. */
  lemma {:induction false} WithoutKeyEmbedded(es: seq<Entry>, key: Key)
    ensures Embedded(WithoutKey(es, key), es)
  {
    if es != [] {
      var rest := WithoutKey(es[1..], key);
      WithoutKeyEmbedded(es[1..], key);
      if es[0].key != key {
        var r := WithoutKey(es, key);
        assert r[0] == es[0] && r[1..] == rest;
        if es[0].Group? {
          EmbeddedReflexive(es[0].children);
        }
      }
    }
  }

  lemma {:induction false} EmbeddedReflexive(es: seq<Entry>)
    ensures Embedded(es, es)
  {
    if es != [] {
      EmbeddedReflexive(es[1..]);
      if es[0].Group? {
        EmbeddedReflexive(es[0].children);
      }
    }
  }
}
