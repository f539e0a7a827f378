/** Nested dictionaries, the shape `dict_to_flatdict` takes apart and
    `flatdict_to_dict` builds. A value stored in a dict is either another dict
    or a leaf value that is not a dict; leaves never hold dicts, because the
    flattener descends into every dict it meets. */
module NestedDict {
  import opened Wrappers

  datatype Tree<K(==), V> = Leaf(value: V) | Node(children: map<K, Tree<K, V>>)

  /** A (possibly nested) dict: keys to leaves or sub-dicts. */
  type Dict<K(==), V> = map<K, Tree<K, V>>

  /** A flat dict: key paths (the source's key tuples) to leaf values. */
  type FlatDict<K(==), V> = map<seq<K>, V>

  /** The value reached by following `path` from `t`, key by key; None when a
      step finds a leaf or a missing key. */
  function Get<K(==), V>(t: Tree<K, V>, path: seq<K>): (r: Option<Tree<K, V>>)
    decreases |path|
  {
    if path == [] then Some(t)
    else match t
      case Leaf(_) => None
      case Node(c) => if path[0] in c then Get(c[path[0]], path[1..]) else None
  }

  /** The leaf value stored at `path` in `d`, if that path ends at a leaf. */
  function LeafAt<K(==), V>(d: Dict<K, V>, path: seq<K>): (r: Option<V>)
  {
    match Get(Node(d), path)
    case Some(Leaf(v)) => Some(v)
    case _ => None
  }

  /** No dict below the top level is empty. The top-level dict itself may be. */
  predicate NoEmptySubdicts<K(==), V>(d: Dict<K, V>)
    decreases Node(d)
  {
    forall k | k in d :: d[k].Node? ==> d[k].children != map[] && NoEmptySubdicts(d[k].children)
  }

  /** `d` with every empty sub-dict removed, innermost first, so that a dict
      left empty by the removal is removed as well. */
  function Prune<K(==), V>(d: Dict<K, V>): (r: Dict<K, V>)
    decreases Node(d)
  {
    map k | k in d && (d[k].Leaf? || |Prune(d[k].children)| > 0) ::
      if d[k].Leaf? then d[k] else Node(Prune(d[k].children))
  }

  /** No path of `f` is a proper prefix of another. */
  predicate PrefixFree<K(==), V>(f: FlatDict<K, V>)
  {
    forall p, q | p in f && q in f :: !(p < q)
  }

  /** Dropping entries keeps a flat dict prefix-free. */
  lemma PrefixFreeSubset<K, V>(f: FlatDict<K, V>, g: FlatDict<K, V>)
    requires PrefixFree(f) && g.Keys <= f.Keys
    ensures PrefixFree(g)
  {
  }

  /** Two flat dicts that each hold exactly the leaves of a dict, each path
      to a leaf mapped to the leaf's value, are equal when the dicts have the
      same leaves. */
  lemma FlatOfSameLeaves<K, V>(f1: FlatDict<K, V>, d1: Dict<K, V>, f2: FlatDict<K, V>, d2: Dict<K, V>)
    requires forall p :: p in f1 <==> LeafAt(d1, p).Some?
    requires forall p | p in f1 :: f1[p] == LeafAt(d1, p).value
    requires forall p :: p in f2 <==> LeafAt(d2, p).Some?
    requires forall p | p in f2 :: f2[p] == LeafAt(d2, p).value
    requires forall q :: LeafAt(d1, q) == LeafAt(d2, q)
    ensures f1 == f2
  {
    assert forall p :: p in f1 <==> p in f2;
    assert forall p | p in f1 :: f1[p] == f2[p];
  }

  /** A flat dict holding exactly the leaves of a dict is prefix-free: a
      path ends at a leaf, and nothing lies below a leaf. */
  lemma FlatOfPrefixFree<K, V>(f: FlatDict<K, V>, d: Dict<K, V>)
    requires forall p :: p in f <==> LeafAt(d, p).Some?
    ensures PrefixFree(f)
  {
    forall p, q | p in f && q in f
      ensures !(p < q)
    {
      if p < q {
        var s := q[|p|..];
        assert q == p + s;
        GetAppend(Node(d), p, s);
      }
    }
  }

  /** Flat dicts holding exactly the leaves of `d` and of its sub-dict under
      `k` agree, up to the leading `k`. */
  lemma FlatOfChild<K, V>(f: FlatDict<K, V>, d: Dict<K, V>, g: FlatDict<K, V>, k: K)
    requires k in d && d[k].Node?
    requires forall p :: p in f <==> LeafAt(d, p).Some?
    requires forall p | p in f :: f[p] == LeafAt(d, p).value
    requires forall p :: p in g <==> LeafAt(d[k].children, p).Some?
    requires forall p | p in g :: g[p] == LeafAt(d[k].children, p).value
    ensures forall q :: [k] + q in f <==> q in g
    ensures forall q | q in g :: f[[k] + q] == g[q]
  {
    forall q
      ensures [k] + q in f <==> q in g
    {
      LeafAtChild(d, k, q);
    }
    forall q | q in g
      ensures f[[k] + q] == g[q]
    {
      LeafAtChild(d, k, q);
    }
  }

  /** Each key `k` of a dict without nested dicts as the path `[k]`, mapped
      to its value. */
  function OneKeyPaths<K(==), V>(d: Dict<K, V>): (r: FlatDict<K, V>)
    requires forall k | k in d :: d[k].Leaf?
  {
    map k | k in d :: [k] := d[k].value
  }

  /** In a dict with no nested dicts the leaves sit exactly at the one-key
      paths. */
  lemma ShallowLeaves<K, V>(d: Dict<K, V>)
    requires forall k | k in d :: d[k].Leaf?
    ensures forall p :: p in OneKeyPaths(d) <==> LeafAt(d, p).Some?
    ensures forall p | p in OneKeyPaths(d) :: OneKeyPaths(d)[p] == LeafAt(d, p).value
  {
    var expected := OneKeyPaths(d);
    forall p
      ensures p in expected <==> LeafAt(d, p).Some?
      ensures p in expected ==> expected[p] == LeafAt(d, p).value
    {
      if p != [] {
        var k := p[0];
        LeafAtKey(d, k);
        if |p| > 1 {
          assert p == [k] + p[1..];
          if k in d {
            assert Get(Node(d), p) == Get(d[k], p[1..]) == None;
          }
          assert p !in expected;
        } else {
          assert p == [k];
        }
      }
    }
  }

  /** Following `p + s` is following `p`, then `s` from where `p` ended. */
  lemma {:induction false} GetAppend<K, V>(t: Tree<K, V>, p: seq<K>, s: seq<K>)
    ensures Get(t, p + s) == (match Get(t, p) case None => None case Some(u) => Get(u, s))
    decreases |p|
  {
    if p != [] {
      assert (p + s)[0] == p[0];
      assert (p + s)[1..] == p[1..] + s;
      if t.Node? && p[0] in t.children {
        GetAppend(t.children[p[0]], p[1..], s);
      }
    } else {
      assert p + s == s;
    }
  }

  /** A path into the sub-dict under `k` is that path prefixed with `k`. */
  lemma LeafAtChild<K, V>(d: Dict<K, V>, k: K, q: seq<K>)
    requires k in d && d[k].Node?
    ensures LeafAt(d, [k] + q) == LeafAt(d[k].children, q)
  {
    assert ([k] + q)[0] == k && ([k] + q)[1..] == q;
  }

  /** The path `[k]` in `d` holds a leaf exactly when `d[k]` is one. */
  lemma LeafAtKey<K, V>(d: Dict<K, V>, k: K)
    ensures LeafAt(d, [k]) == if k in d && d[k].Leaf? then Some(d[k].value) else None
  {
    assert [k][0] == k && [k][1..] == [];
    if k in d {
      assert Get(Node(d), [k]) == Some(d[k]);
    } else {
      assert Get(Node(d), [k]) == None;
    }
  }

  /** Under every key of a dict without empty sub-dicts there is a leaf. */
  lemma {:induction false} SomeLeafBelow<K, V>(d: Dict<K, V>, k: K) returns (q: seq<K>)
    requires NoEmptySubdicts(d) && k in d
    ensures LeafAt(d, [k] + q).Some?
    decreases Node(d)
  {
    match d[k]
    case Leaf(_) =>
      q := [];
      LeafAtKey(d, k);
      assert [k] + q == [k];
    case Node(c) =>
      var k' :| k' in c;
      var q' := SomeLeafBelow(c, k');
      LeafAtChild(d, k, [k'] + q');
      q := [k'] + q';
  }

  /** A dict without empty sub-dicts is determined by its leaves: two such
      dicts that hold the same leaf at every path are equal. */
  lemma {:induction false} LeavesDetermineDict<K, V>(d1: Dict<K, V>, d2: Dict<K, V>)
    requires NoEmptySubdicts(d1) && NoEmptySubdicts(d2)
    requires forall q :: LeafAt(d1, q) == LeafAt(d2, q)
    ensures d1 == d2
    decreases Node(d1)
  {
    forall k | k in d1
      ensures k in d2
    {
      var q := SomeLeafBelow(d1, k);
      assert LeafAt(d2, [k] + q).Some?;
    }
    forall k | k in d2
      ensures k in d1
    {
      var q := SomeLeafBelow(d2, k);
      assert LeafAt(d1, [k] + q).Some?;
    }
    forall k | k in d1
      ensures d1[k] == d2[k]
    {
      LeafAtKey(d1, k);
      LeafAtKey(d2, k);
      if d1[k].Node? {
        assert d2[k].Node?;
        var c1, c2 := d1[k].children, d2[k].children;
        forall q
          ensures LeafAt(c1, q) == LeafAt(c2, q)
        {
          LeafAtChild(d1, k, q);
          LeafAtChild(d2, k, q);
        }
        LeavesDetermineDict(c1, c2);
      }
    }
  }

  /** Pruning keeps every leaf where it was and adds none. */
  lemma {:induction false} PruneKeepsLeaves<K, V>(d: Dict<K, V>, q: seq<K>)
    ensures LeafAt(Prune(d), q) == LeafAt(d, q)
    decreases Node(d)
  {
    if q != [] {
      var k := q[0];
      assert q == [k] + q[1..];
      LeafAtKey(d, k);
      LeafAtKey(Prune(d), k);
      if k in d && d[k].Node? {
        var c := d[k].children;
        LeafAtChild(d, k, q[1..]);
        PruneKeepsLeaves(c, q[1..]);
        if k in Prune(d) {
          LeafAtChild(Prune(d), k, q[1..]);
        } else if q[1..] != [] {
          var k' := q[1..][0];
          assert q[1..] == [k'] + q[1..][1..];
          LeafAtKey(Prune(c), k');
          assert k' !in Prune(c);
        }
      } else if k in d {
        assert Get(Node(d), q) == Get(d[k], q[1..]);
        assert Get(Node(Prune(d)), q) == Get(d[k], q[1..]);
      }
    }
  }

  /** Pruning leaves no empty sub-dict behind. */
  lemma {:induction false} PruneHasNoEmptySubdicts<K, V>(d: Dict<K, V>)
    ensures NoEmptySubdicts(Prune(d))
    decreases Node(d)
  {
    forall k | k in Prune(d) && Prune(d)[k].Node?
      ensures Prune(d)[k].children != map[] && NoEmptySubdicts(Prune(d)[k].children)
    {
      PruneHasNoEmptySubdicts(d[k].children);
    }
  }

  /** A dict without empty sub-dicts is left as it is by pruning. */
  lemma PruneIdentity<K, V>(d: Dict<K, V>)
    requires NoEmptySubdicts(d)
    ensures Prune(d) == d
  {
    PruneHasNoEmptySubdicts(d);
    forall q
      ensures LeafAt(Prune(d), q) == LeafAt(d, q)
    {
      PruneKeepsLeaves(d, q);
    }
    LeavesDetermineDict(Prune(d), d);
  }
}
