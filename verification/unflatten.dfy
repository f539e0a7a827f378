/** `flatdict_to_dict`: a flat dict is turned back into a nested dict by
    walking its items in iteration order and storing each value at its key
    path, creating sub-dicts on the way with `setdefault`. The flat dict is
    given as that sequence of items; `ItemsToFlatdict` is the dict they make. */
module Unflatten {
  import opened Wrappers
  import opened NestedDict
  import opened Flatten

  /** The exceptions `flatdict_to_dict` can raise. */
  datatype Error =
    | /** `key_tuple[-1]` on the empty tuple (`IndexError`). */
      EmptyKeyTuple
    | /** `setdefault` or item assignment on a leaf value. */
      NotADict

  type Item<K, V> = (seq<K>, V)

  /** The flat dict whose items, in iteration order, are `items`. */
  function ItemsToFlatdict<K(==), V>(items: seq<Item<K, V>>): (f: FlatDict<K, V>)
    ensures f.Keys == set i | 0 <= i < |items| :: items[i].0
    decreases |items|
  {
    if items == [] then map[]
    else ItemsToFlatdict(items[..|items| - 1])[items[|items| - 1].0 := items[|items| - 1].1]
  }

  /** Each key tuple maps to the value of its last item: a later item with
      the same key tuple replaces the earlier value. */
  lemma {:induction false} ItemsToFlatdictValues<K, V>(items: seq<Item<K, V>>, i: nat)
    requires i < |items|
    requires forall j | i < j < |items| :: items[j].0 != items[i].0
    ensures ItemsToFlatdict(items)[items[i].0] == items[i].1
    decreases |items|
  {
    if i < |items| - 1 {
      var init := items[..|items| - 1];
      assert init[i] == items[i];
      ItemsToFlatdictValues(init, i);
    }
  }

  /** One pass of the outer loop: walk the path's leading keys with
      `setdefault`, then assign the value under the last key, replacing
      whatever was there. */
  function SetPath<K(==), V>(d: Dict<K, V>, path: seq<K>, v: V): (r: Result<Dict<K, V>, Error>)
    ensures r.Success? ==> path != [] && path[0] in r.value
    ensures r.Success? ==> forall k | k in d :: k in r.value
    ensures r.Success? ==> forall k | k in r.value :: k in d || k == path[0]
    decreases |path|
  {
    if path == [] then Failure(EmptyKeyTuple)
    else if |path| == 1 then Success(d[path[0] := Leaf(v)])
    else
      var child := if path[0] in d then d[path[0]] else Node(map[]);
      match child
      case Leaf(_) => Failure(NotADict)
      case Node(c) =>
        var c' :- SetPath(c, path[1..], v);
        Success(d[path[0] := Node(c')])
  }

  /** `flatdict_to_dict`: store the items one after the other into an
      initially empty dict; the first exception ends the walk. */
  function FlatdictToDict<K(==), V>(items: seq<Item<K, V>>): (r: Result<Dict<K, V>, Error>)
    ensures r.Success? ==> forall i | 0 <= i < |items| :: items[i].0 != []
    ensures r.Success? ==> forall i | 0 <= i < |items| :: items[i].0[0] in r.value
    decreases |items|
  {
    if items == [] then Success(map[])
    else
      var r :- FlatdictToDict(items[..|items| - 1]);
      SetPath(r, items[|items| - 1].0, items[|items| - 1].1)
  }

  /** The top-level keys of a successful rebuild are exactly the first keys
      of the item paths: a store adds its first key and removes none. */
  lemma {:induction false} FlatdictToDictKeys<K, V>(items: seq<Item<K, V>>)
    ensures FlatdictToDict(items).Success? ==>
      FlatdictToDict(items).value.Keys == set i | 0 <= i < |items| && items[i].0 != [] :: items[i].0[0]
    decreases |items|
  {
    if items != [] && FlatdictToDict(items).Success? {
      var init := items[..|items| - 1];
      FlatdictToDictKeys(init);
      var keys := set i | 0 <= i < |items| && items[i].0 != [] :: items[i].0[0];
      var initKeys := set i | 0 <= i < |init| && init[i].0 != [] :: init[i].0[0];
      assert keys == initKeys + {items[|items| - 1].0[0]} by {
        forall k | k in keys
          ensures k in initKeys + {items[|items| - 1].0[0]}
        {
          var i :| 0 <= i < |items| && items[i].0 != [] && items[i].0[0] == k;
          if i < |init| {
            assert init[i] == items[i];
          }
        }
        forall k | k in initKeys
          ensures k in keys
        {
          var i :| 0 <= i < |init| && init[i].0 != [] && init[i].0[0] == k;
          assert items[i] == init[i];
        }
      }
    }
  }

  /** Storing at a path fails exactly when the path is empty or one of its
      proper leading parts already holds a leaf; the empty path fails at
      `key_tuple[-1]`, the other case fails on the leaf. */
  lemma {:induction false} SetPathSucceeds<K, V>(d: Dict<K, V>, path: seq<K>, v: V)
    ensures SetPath(d, path, v).Success? <==>
      path != [] && forall i | 0 < i < |path| :: LeafAt(d, path[..i]).None?
    ensures path == [] ==> SetPath(d, path, v) == Failure(EmptyKeyTuple)
    ensures path != [] && SetPath(d, path, v).Failure? ==> SetPath(d, path, v).error == NotADict
    decreases |path|
  {
    if |path| > 1 {
      var k, rest := path[0], path[1..];
      LeafAtKey(d, k);
      assert path[..1] == [k];
      var child := if k in d then d[k] else Node(map[]);
      if child.Node? {
        var c := child.children;
        SetPathSucceeds(c, rest, v);
        forall j | 0 < j < |rest|
          ensures LeafAt(d, path[..j + 1]) == LeafAt(c, rest[..j])
        {
          assert path[..j + 1] == [k] + rest[..j];
          if k in d {
            LeafAtChild(d, k, rest[..j]);
          } else {
            assert LeafAt(c, rest[..j]) == None;
          }
        }
        if SetPath(d, path, v).Success? {
          forall i | 0 < i < |path|
            ensures LeafAt(d, path[..i]).None?
          {
            if i > 1 {
              assert LeafAt(d, path[..(i - 1) + 1]) == LeafAt(c, rest[..i - 1]);
            }
          }
        } else {
          var j :| 0 < j < |rest| && LeafAt(c, rest[..j]).Some?;
          assert LeafAt(d, path[..j + 1]).Some?;
        }
      }
    }
  }

  /** After storing `v` at `path`, the leaf at `path` is `v`, nothing lies
      below it, and every other leaf is as before. */
  lemma {:induction false} SetPathLeafAt<K, V>(d: Dict<K, V>, path: seq<K>, v: V, q: seq<K>)
    requires SetPath(d, path, v).Success?
    ensures LeafAt(SetPath(d, path, v).value, q) ==
      if q == path then Some(v) else if path < q then None else LeafAt(d, q)
    decreases |path|
  {
    var r := SetPath(d, path, v).value;
    var k := path[0];
    if q != [] {
      assert q == [q[0]] + q[1..];
      LeafAtKey(d, q[0]);
      LeafAtKey(r, q[0]);
      if q[0] != k {
        if q[0] in d && d[q[0]].Node? {
          LeafAtChild(d, q[0], q[1..]);
          LeafAtChild(r, q[0], q[1..]);
        } else if q[0] in d {
          assert Get(Node(d), q) == Get(d[q[0]], q[1..]) == Get(Node(r), q);
        }
        assert !(path < q);
      } else if |path| == 1 {
        if |q| > 1 {
          assert Get(Node(r), q) == Get(Leaf(v), q[1..]) == None;
          assert path < q;
        } else {
          assert q == [k] == path;
          assert r == d[k := Leaf(v)];
          assert LeafAt(r, [k]) == Some(v);
        }
      } else {
        SetPathSucceeds(d, path, v);
        assert path[..1] == [k];
        var c := if k in d then d[k].children else map[];
        var c' := r[k].children;
        assert SetPath(c, path[1..], v) == Success(c');
        if q[1..] != [] {
          LeafAtChild(r, k, q[1..]);
          SetPathLeafAt(c, path[1..], v, q[1..]);
          assert q == path <==> q[1..] == path[1..];
          assert path < q <==> path[1..] < q[1..];
          if k in d {
            LeafAtChild(d, k, q[1..]);
          } else {
            assert LeafAt(c, q[1..]) == None;
          }
        } else {
          assert q == path[..1];
        }
      }
    }
  }

  /** Storing a value keeps a dict free of empty sub-dicts. */
  lemma {:induction false} SetPathKeepsNoEmptySubdicts<K, V>(d: Dict<K, V>, path: seq<K>, v: V)
    requires NoEmptySubdicts(d) && SetPath(d, path, v).Success?
    ensures NoEmptySubdicts(SetPath(d, path, v).value)
    decreases |path|
  {
    if |path| > 1 {
      var c := if path[0] in d then d[path[0]].children else map[];
      SetPathKeepsNoEmptySubdicts(c, path[1..], v);
    }
  }

  /** A flat dict with prefix-free, non-empty paths is rebuilt into a dict
      without empty sub-dicts whose leaves are exactly its entries. */
  lemma {:induction false} FlatdictToDictLeaves<K, V>(items: seq<Item<K, V>>)
    requires [] !in ItemsToFlatdict(items)
    requires PrefixFree(ItemsToFlatdict(items))
    ensures FlatdictToDict(items).Success?
    ensures NoEmptySubdicts(FlatdictToDict(items).value)
    ensures forall p :: p in ItemsToFlatdict(items) <==> LeafAt(FlatdictToDict(items).value, p).Some?
    ensures forall p | p in ItemsToFlatdict(items) ::
      ItemsToFlatdict(items)[p] == LeafAt(FlatdictToDict(items).value, p).value
    decreases |items|
  {
    if items != [] {
      var init, last := items[..|items| - 1], items[|items| - 1];
      var f, g := ItemsToFlatdict(items), ItemsToFlatdict(init);
      var path, v := last.0, last.1;
      assert f == g[path := v];
      PrefixFreeSubset(f, g);
      FlatdictToDictLeaves(init);
      var r := FlatdictToDict(init).value;
      SetPathSucceeds(r, path, v);
      assert path in f;
      forall i | 0 < i < |path|
        ensures LeafAt(r, path[..i]).None?
      {
        assert path[..i] < path;
        assert path[..i] !in f;
      }
      SetPathKeepsNoEmptySubdicts(r, path, v);
      var r' := SetPath(r, path, v).value;
      forall q
        ensures q in f <==> LeafAt(r', q).Some?
        ensures q in f ==> f[q] == LeafAt(r', q).value
      {
        SetPathLeafAt(r, path, v, q);
        if path < q {
          assert q !in f;
        }
      }
    }
  }

  /** A flat dict with prefix-free, non-empty paths is rebuilt into a dict
      that flattens back to it: every value is placed at exactly its path. */
  lemma FlatdictToDictPlacesValues<K, V>(items: seq<Item<K, V>>)
    requires [] !in ItemsToFlatdict(items)
    requires PrefixFree(ItemsToFlatdict(items))
    ensures FlatdictToDict(items).Success?
    ensures NoEmptySubdicts(FlatdictToDict(items).value)
    ensures DictToFlatdict(FlatdictToDict(items).value) == ItemsToFlatdict(items)
  {
    FlatdictToDictLeaves(items);
    var r := FlatdictToDict(items).value;
    FlatEntriesAreLeaves(r);
    FlatOfSameLeaves(DictToFlatdict(r), r, ItemsToFlatdict(items), r);
  }

  /** Round trip: rebuilding the items of `dict_to_flatdict(d)`, in any order,
      gives `d` back with its empty sub-dicts removed. */
  lemma RoundTrip<K, V>(d: Dict<K, V>, items: seq<Item<K, V>>)
    requires ItemsToFlatdict(items) == DictToFlatdict(d)
    ensures FlatdictToDict(items) == Success(Prune(d))
  {
    FlatPathsPrefixFree(d);
    FlatdictToDictLeaves(items);
    FlatEntriesAreLeaves(d);
    var r := FlatdictToDict(items).value;
    forall q
      ensures LeafAt(r, q) == LeafAt(Prune(d), q)
    {
      PruneKeepsLeaves(d, q);
    }
    PruneHasNoEmptySubdicts(d);
    LeavesDetermineDict(r, Prune(d));
  }

  /** Round trip for a dict without empty sub-dicts: it comes back unchanged. */
  lemma RoundTripNoEmptySubdicts<K, V>(d: Dict<K, V>, items: seq<Item<K, V>>)
    requires NoEmptySubdicts(d)
    requires ItemsToFlatdict(items) == DictToFlatdict(d)
    ensures FlatdictToDict(items) == Success(d)
  {
    RoundTrip(d, items);
    PruneIdentity(d);
  }

  /** An empty key tuple anywhere in the flat dict makes the rebuild fail. */
  lemma {:induction false} EmptyKeyTupleFails<K, V>(items: seq<Item<K, V>>)
    requires [] in ItemsToFlatdict(items)
    ensures FlatdictToDict(items).Failure?
    decreases |items|
  {
    var init, last := items[..|items| - 1], items[|items| - 1];
    if last.0 != [] {
      assert ItemsToFlatdict(items) == ItemsToFlatdict(init)[last.0 := last.1];
      EmptyKeyTupleFails(init);
    }
  }

  /** A leaf followed by a path through it fails on the leaf. */
  lemma LeafThenLongerPathFails<K, V>(k: K, k2: K, v1: V, v2: V)
    ensures FlatdictToDict([([k], v1), ([k, k2], v2)]) == Failure(NotADict)
  {
    var items := [([k], v1), ([k, k2], v2)];
    assert items[..1] == [([k], v1)];
    assert items[..1][..0] == [];
    assert FlatdictToDict(items[..1]) == SetPath(map[], [k], v1) == Success(map[k := Leaf(v1)]);
  }

  /** A path followed by one of its leading parts is not an error: the later
      value silently replaces the sub-dict. */
  lemma LongerPathThenLeafOverwrites<K, V>(k: K, k2: K, v1: V, v2: V)
    ensures FlatdictToDict([([k, k2], v2), ([k], v1)]) == Success(map[k := Leaf(v1)])
  {
    var items := [([k, k2], v2), ([k], v1)];
    assert items[..1] == [([k, k2], v2)];
    assert items[..1][..0] == [];
    assert [k, k2][1..] == [k2];
    var inner: Dict<K, V> := map[];
    assert SetPath(inner, [k2], v2) == Success(map[k2 := Leaf(v2)]);
    assert FlatdictToDict(items[..1]) == SetPath(map[], [k, k2], v2);
    var mid := map[k := Node(map[k2 := Leaf(v2)])];
    assert FlatdictToDict(items[..1]) == Success(mid);
    assert FlatdictToDict(items) == SetPath(mid, [k], v1) == Success(mid[k := Leaf(v1)]);
    assert mid[k := Leaf(v1)] == map[k := Leaf(v1)];
  }
}
