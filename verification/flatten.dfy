/** `dict_to_flatdict`: a nested dict becomes a flat dict from key paths to
    leaf values. Paths produced for different keys start differently, so the
    per-key entries the source collects into one list never collide, and the
    flat dict is their union. */
module Flatten {
  import opened Wrappers
  import opened NestedDict

  /** The entries one item `(k, t)` of a dict at path `parent` contributes: a
      leaf becomes the single entry `parent + [k]`, a sub-dict is flattened
      under that path. */
  function FlattenItem<K(==), V>(parent: seq<K>, k: K, t: Tree<K, V>): (r: FlatDict<K, V>)
    ensures forall p | p in r :: parent + [k] <= p
    decreases t, 1
  {
    match t
    case Leaf(v) => map[parent + [k] := v]
    case Node(c) => Flatten(c, parent + [k])
  }

  /** `dict_to_flatdict(d, _parent=parent)`. Every produced path strictly
      extends `parent` and continues with a key of `d`. */
  function Flatten<K(==), V>(d: Dict<K, V>, parent: seq<K>): (r: FlatDict<K, V>)
    ensures forall p | p in r :: parent < p && p[|parent|] in d
    decreases Node(d), 0
  {
    var paths := set k, p | k in d && p in FlattenItem(parent, k, d[k]) :: p;
    map p | p in paths :: FlattenItem(parent, p[|parent|], d[p[|parent|]])[p]
  }

  /** `dict_to_flatdict(d)`: the default parent is the empty path. */
  function DictToFlatdict<K(==), V>(d: Dict<K, V>): (r: FlatDict<K, V>)
    ensures forall p | p in r :: p != []
  {
    Flatten(d, [])
  }

  /** The flat dict holds `parent + q` exactly when `q` leads to a leaf of `d`,
      and then maps it to that leaf's value. */
  lemma {:induction false} FlattenLeaves<K, V>(d: Dict<K, V>, parent: seq<K>, q: seq<K>)
    ensures parent + q in Flatten(d, parent) <==> LeafAt(d, q).Some?
    ensures parent + q in Flatten(d, parent) ==> Flatten(d, parent)[parent + q] == LeafAt(d, q).value
    decreases Node(d)
  {
    var f := Flatten(d, parent);
    if q == [] {
      assert parent + q == parent;
    } else {
      var k := q[0];
      assert q == [k] + q[1..];
      assert (parent + q)[|parent|] == k;
      LeafAtKey(d, k);
      if k in d {
        var item := FlattenItem(parent, k, d[k]);
        assert parent + q in f <==> parent + q in item;
        assert parent + q in f ==> f[parent + q] == item[parent + q];
        match d[k]
        case Leaf(v) =>
          if q[1..] == [] {
            assert q == [k];
            assert parent + q == parent + [k];
          } else {
            assert |parent + q| != |parent + [k]|;
            assert Get(Node(d), q) == Get(Leaf(v), q[1..]) == None;
          }
        case Node(c) =>
          LeafAtChild(d, k, q[1..]);
          assert parent + q == (parent + [k]) + q[1..];
          FlattenLeaves(c, parent + [k], q[1..]);
      }
    }
  }

  /** Every entry of `dict_to_flatdict(d)` is a non-empty path to a leaf of
      `d`, mapped to that leaf's value, and every leaf has its entry. */
  lemma FlatEntriesAreLeaves<K, V>(d: Dict<K, V>)
    ensures forall p :: p in DictToFlatdict(d) <==> LeafAt(d, p).Some?
    ensures forall p | p in DictToFlatdict(d) :: DictToFlatdict(d)[p] == LeafAt(d, p).value
  {
    var f := DictToFlatdict(d);
    forall p
      ensures p in f <==> LeafAt(d, p).Some?
    {
      assert [] + p == p;
      FlattenLeaves(d, [], p);
    }
    forall p | p in f
      ensures f[p] == LeafAt(d, p).value
    {
      assert [] + p == p;
      FlattenLeaves(d, [], p);
    }
  }

  /** Two dicts with the same leaves flatten to the same flat dict. */
  lemma SameLeavesSameFlatdict<K, V>(d1: Dict<K, V>, d2: Dict<K, V>)
    requires forall q :: LeafAt(d1, q) == LeafAt(d2, q)
    ensures DictToFlatdict(d1) == DictToFlatdict(d2)
  {
    FlatEntriesAreLeaves(d1);
    FlatEntriesAreLeaves(d2);
    FlatOfSameLeaves(DictToFlatdict(d1), d1, DictToFlatdict(d2), d2);
  }

  /** The `_parent` argument only prefixes the paths: the flat dict for
      `parent` is the one for the empty parent with `parent` put in front. */
  lemma ParentPrefixesPaths<K, V>(d: Dict<K, V>, parent: seq<K>)
    ensures forall q :: parent + q in Flatten(d, parent) <==> q in DictToFlatdict(d)
    ensures forall q | q in DictToFlatdict(d) :: Flatten(d, parent)[parent + q] == DictToFlatdict(d)[q]
  {
    var f, g := Flatten(d, parent), DictToFlatdict(d);
    FlatEntriesAreLeaves(d);
    forall q
      ensures parent + q in f <==> q in g
    {
      FlattenLeaves(d, parent, q);
    }
    forall q | q in g
      ensures parent + q in f && f[parent + q] == g[q]
    {
      FlattenLeaves(d, parent, q);
      assert LeafAt(d, q).Some?;
      assert parent + q in f;
      assert g[q] == LeafAt(d, q).value;
    }
  }

  /** A dict with no nested dicts maps each key `k` to the path `[k]`, with
      the value unchanged. */
  lemma FlatShallowDict<K, V>(d: Dict<K, V>)
    requires forall k | k in d :: d[k].Leaf?
    ensures DictToFlatdict(d) == OneKeyPaths(d)
  {
    FlatEntriesAreLeaves(d);
    ShallowLeaves(d);
    FlatOfSameLeaves(DictToFlatdict(d), d, OneKeyPaths(d), d);
  }

  /** A nested sub-dict under `k` is replaced by its own entries, each
      prefixed with `k`. */
  lemma SubdictEntriesPrefixed<K, V>(d: Dict<K, V>, k: K)
    requires k in d && d[k].Node?
    ensures forall q :: [k] + q in DictToFlatdict(d) <==> q in DictToFlatdict(d[k].children)
    ensures forall q | q in DictToFlatdict(d[k].children) ::
      DictToFlatdict(d)[[k] + q] == DictToFlatdict(d[k].children)[q]
  {
    FlatEntriesAreLeaves(d);
    FlatEntriesAreLeaves(d[k].children);
    FlatOfChild(DictToFlatdict(d), d, DictToFlatdict(d[k].children), k);
  }

  /** An empty sub-dict contributes no entry: removing it changes nothing. */
  lemma EmptySubdictVanishes<K, V>(d: Dict<K, V>, k: K)
    requires k in d && d[k] == Node(map[])
    ensures DictToFlatdict(d) == DictToFlatdict(d - {k})
  {
    forall q
      ensures LeafAt(d, q) == LeafAt(d - {k}, q)
    {
      if q != [] && q[0] == k {
        assert q == [k] + q[1..];
        LeafAtChild(d, k, q[1..]);
        assert Get(Node(d - {k}), q) == None;
        if q[1..] != [] {
          assert Get(d[k], q[1..]) == None;
        }
      } else if q != [] {
        assert Get(Node(d), q) == Get(Node(d - {k}), q);
      }
    }
    SameLeavesSameFlatdict(d, d - {k});
  }

  /** Empty sub-dicts, however deeply nested, disappear when flattened. */
  lemma PruneKeepsFlatdict<K, V>(d: Dict<K, V>)
    ensures DictToFlatdict(Prune(d)) == DictToFlatdict(d)
  {
    forall q
      ensures LeafAt(Prune(d), q) == LeafAt(d, q)
    {
      PruneKeepsLeaves(d, q);
    }
    SameLeavesSameFlatdict(Prune(d), d);
  }

  /** No produced path is a proper prefix of another. */
  lemma FlatPathsPrefixFree<K, V>(d: Dict<K, V>)
    ensures PrefixFree(DictToFlatdict(d))
  {
    FlatEntriesAreLeaves(d);
    FlatOfPrefixFree(DictToFlatdict(d), d);
  }
}
