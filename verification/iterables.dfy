/** `ensure_iterable` and `extract_instances`. The `isinstance` test is a
    parameter: `isInstance(o, t)` says whether object `o` is an instance of
    type `t`. */
module Iterables {

  /** A value as `ensure_iterable` sees it: a `Sequence` (a list, a tuple, a
      string), a `Set`, or anything else. */
  datatype Obj<T> = SequenceObj(items: seq<T>) | SetObj(members: set<T>) | Single(value: T)

  /** The elements iterating over `o` yields, counted with multiplicity; a
      value that is neither a sequence nor a set stands for itself. */
  function Contents<T>(o: Obj<T>): (r: multiset<T>)
  {
    match o
    case SequenceObj(items) => multiset(items)
    case SetObj(members) => multiset(members)
    case Single(x) => multiset{x}
  }

  /** `ensure_iterable`: sequences and sets come back unchanged; any other
      value is wrapped in a one-element list. */
  function EnsureIterable<T>(obj: Obj<T>): (r: Obj<T>)
    ensures !r.Single?
    ensures Contents(r) == Contents(obj)
    ensures !obj.Single? ==> r == obj
    ensures obj.Single? ==> r == SequenceObj([obj.value])
  {
    if obj.SequenceObj? || obj.SetObj? then obj else SequenceObj([obj.value])
  }

  /** Applying `ensure_iterable` twice is applying it once. */
  lemma EnsureIterableIdempotent<T>(obj: Obj<T>)
    ensures EnsureIterable(EnsureIterable(obj)) == EnsureIterable(obj)
  {
  }

  /** What `extract_instances` returns: the list for a single type, or the
      table from type to instances for several. */
  datatype Extracted<O, Ty> = Instances(list: seq<O>) | ByType(table: map<Ty, seq<O>>)

  /** `ret[t]` of a `defaultdict(list)`: an absent type reads as `[]`. */
  function Lookup<O, Ty>(ret: map<Ty, seq<O>>, t: Ty): (r: seq<O>)
  {
    if t in ret then ret[t] else []
  }

  /** The inner loop for one object `o`: append it to `ret[t]` for every `t`
      in `types` it is an instance of, once per occurrence of `t`. */
  function AppendMatches<O, Ty>(ret: map<Ty, seq<O>>, o: O, types: seq<Ty>, isInstance: (O, Ty) -> bool): (r: map<Ty, seq<O>>)
    ensures forall t | t in ret :: t in r && ret[t] <= r[t]
    ensures forall t | t in r && t !in ret :: t in types && r[t] != []
    decreases |types|
  {
    if types == [] then ret
    else
      var before := AppendMatches(ret, o, types[..|types| - 1], isInstance);
      var t := types[|types| - 1];
      if isInstance(o, t) then before[t := Lookup(before, t) + [o]] else before
  }

  /** The `ret` table after the outer loop has seen `objects`. */
  function Collect<O, Ty>(objects: seq<O>, types: seq<Ty>, isInstance: (O, Ty) -> bool): (r: map<Ty, seq<O>>)
    ensures forall t | t in r :: t in types && r[t] != []
    decreases |objects|
  {
    if objects == [] then map[]
    else AppendMatches(Collect(objects[..|objects| - 1], types, isInstance), objects[|objects| - 1], types, isInstance)
  }

  /** `extract_instances(objects, types)`. `types` is a type or a tuple of
      types; a single type, and a tuple of one type, give the list of its
      instances. */
  function ExtractInstances<O, Ty>(objects: seq<O>, types: Obj<Ty>, isInstance: (O, Ty) -> bool): (r: Extracted<O, Ty>)
    requires !types.SetObj?
    ensures r.Instances? <==> |EnsureIterable(types).items| == 1
  {
    var ts := EnsureIterable(types).items;
    var ret := Collect(objects, ts, isInstance);
    if |ts| == 1 then Instances(Lookup(ret, ts[0])) else ByType(ret)
  }

  /** `o`, `m` times over. */
  function Repeat<O>(o: O, m: nat): (r: seq<O>)
  {
    if m == 0 then [] else Repeat(o, m - 1) + [o]
  }

  /** Reference: the instances of `t` among `objects`, in order, each one
      repeated `m` times. */
  function Matches<O, Ty>(objects: seq<O>, t: Ty, isInstance: (O, Ty) -> bool, m: nat): (r: seq<O>)
    decreases |objects|
  {
    if objects == [] then []
    else
      var o := objects[|objects| - 1];
      Matches(objects[..|objects| - 1], t, isInstance, m) + (if isInstance(o, t) then Repeat(o, m) else [])
  }

  /** One pass of the inner loop appends `o` to the list of every type it is
      an instance of, as often as that type occurs in `types`. */
  lemma {:induction false} AppendMatchesLookup<O, Ty>(ret: map<Ty, seq<O>>, o: O, types: seq<Ty>, isInstance: (O, Ty) -> bool, t: Ty)
    ensures Lookup(AppendMatches(ret, o, types, isInstance), t) ==
      Lookup(ret, t) + (if isInstance(o, t) then Repeat(o, multiset(types)[t]) else [])
    decreases |types|
  {
    if types != [] {
      var init, last := types[..|types| - 1], types[|types| - 1];
      var before := AppendMatches(ret, o, init, isInstance);
      AppendMatchesLookup(ret, o, init, isInstance, t);
      AppendMatchesStep(ret, o, types, isInstance, t);
      var n := multiset(init)[t];
      MultiplicityStep(types, t);
      if last == t && isInstance(o, t) {
        assert Repeat(o, n + 1) == Repeat(o, n) + [o];
      }
    }
  }

  /** The last type of `types` adds `o` to its own list and no other. */
  lemma AppendMatchesStep<O, Ty>(ret: map<Ty, seq<O>>, o: O, types: seq<Ty>, isInstance: (O, Ty) -> bool, t: Ty)
    requires types != []
    ensures Lookup(AppendMatches(ret, o, types, isInstance), t) ==
      Lookup(AppendMatches(ret, o, types[..|types| - 1], isInstance), t) +
      (if types[|types| - 1] == t && isInstance(o, t) then [o] else [])
  {
  }

  /** Dropping the last element of `types` lowers the count of that element
      by one and leaves the others alone. */
  lemma MultiplicityStep<Ty>(types: seq<Ty>, t: Ty)
    requires types != []
    ensures multiset(types)[t] ==
      multiset(types[..|types| - 1])[t] + (if types[|types| - 1] == t then 1 else 0)
  {
    assert types == types[..|types| - 1] + [types[|types| - 1]];
  }

  /** One pass of the inner loop adds exactly the types in `types` that `o`
      is an instance of. */
  lemma {:induction false} AppendMatchesKeys<O, Ty>(ret: map<Ty, seq<O>>, o: O, types: seq<Ty>, isInstance: (O, Ty) -> bool, t: Ty)
    ensures t in AppendMatches(ret, o, types, isInstance) <==> t in ret || (isInstance(o, t) && t in types)
    decreases |types|
  {
    if types != [] {
      var init := types[..|types| - 1];
      assert types == init + [types[|types| - 1]];
      AppendMatchesKeys(ret, o, init, isInstance, t);
    }
  }

  /** The `ret` table maps each type to its instances in input order, each
      repeated as often as the type occurs in `types`, and holds only types
      with at least one instance. */
  lemma {:induction false} CollectMatches<O, Ty>(objects: seq<O>, types: seq<Ty>, isInstance: (O, Ty) -> bool, t: Ty)
    ensures Lookup(Collect(objects, types, isInstance), t) == Matches(objects, t, isInstance, multiset(types)[t])
    ensures t in Collect(objects, types, isInstance) ==> Collect(objects, types, isInstance)[t] != []
    decreases |objects|
  {
    if objects != [] {
      var init, o := objects[..|objects| - 1], objects[|objects| - 1];
      CollectMatches(init, types, isInstance, t);
      AppendMatchesLookup(Collect(init, types, isInstance), o, types, isInstance, t);
      AppendMatchesKeys(Collect(init, types, isInstance), o, types, isInstance, t);
      if t in Collect(objects, types, isInstance) && t !in Collect(init, types, isInstance) {
        assert multiset(types)[t] > 0;
      }
    }
  }

  /** With a single type (or a tuple of one type), the result is the list of
      the objects that are instances of it, in input order. */
  lemma ExtractSingleType<O, Ty>(objects: seq<O>, types: Obj<Ty>, isInstance: (O, Ty) -> bool)
    requires types.Single? || (types.SequenceObj? && |types.items| == 1)
    ensures ExtractInstances(objects, types, isInstance) ==
      Instances(Matches(objects, EnsureIterable(types).items[0], isInstance, 1))
  {
    var ts := EnsureIterable(types).items;
    assert multiset(ts)[ts[0]] == 1 by {
      assert ts == [ts[0]];
    }
    CollectMatches(objects, ts, isInstance, ts[0]);
  }

  /** With several distinct types, each type maps to its instances in input
      order, and exactly the types with at least one instance are keys. */
  lemma ExtractSeveralTypes<O, Ty>(objects: seq<O>, types: seq<Ty>, isInstance: (O, Ty) -> bool, t: Ty)
    requires |types| != 1
    requires forall i, j | 0 <= i < j < |types| :: types[i] != types[j]
    ensures ExtractInstances(objects, SequenceObj(types), isInstance).ByType?
    ensures Lookup(ExtractInstances(objects, SequenceObj(types), isInstance).table, t) ==
      if t in types then Matches(objects, t, isInstance, 1) else []
    ensures t in ExtractInstances(objects, SequenceObj(types), isInstance).table <==>
      t in types && Matches(objects, t, isInstance, 1) != []
  {
    CollectMatches(objects, types, isInstance, t);
    MultiplicityOfDistinct(types, t);
    MatchesNone(objects, t, isInstance);
  }

  /** In a sequence without repeats every element occurs once. */
  lemma {:induction false} MultiplicityOfDistinct<Ty>(types: seq<Ty>, t: Ty)
    requires forall i, j | 0 <= i < j < |types| :: types[i] != types[j]
    ensures multiset(types)[t] == if t in types then 1 else 0
  {
    if types != [] {
      var init, last := types[..|types| - 1], types[|types| - 1];
      assert types == init + [last];
      assert multiset(types) == multiset(init) + multiset{last};
      MultiplicityOfDistinct(init, t);
      if t == last {
        assert t !in init;
      }
    }
  }

  /** With multiplicity zero nothing is matched. */
  lemma {:induction false} MatchesNone<O, Ty>(objects: seq<O>, t: Ty, isInstance: (O, Ty) -> bool)
    ensures Matches(objects, t, isInstance, 0) == []
    decreases |objects|
  {
    if objects != [] {
      MatchesNone(objects[..|objects| - 1], t, isInstance);
    }
  }

  /** With several types, an object lands under every type it is an
      instance of. */
  lemma ObjectUnderEveryType<O, Ty>(objects: seq<O>, types: seq<Ty>, isInstance: (O, Ty) -> bool, i: nat, t: Ty)
    requires |types| != 1 && t in types
    requires i < |objects| && isInstance(objects[i], t)
    ensures t in ExtractInstances(objects, SequenceObj(types), isInstance).table
    ensures objects[i] in ExtractInstances(objects, SequenceObj(types), isInstance).table[t]
  {
    CollectMatches(objects, types, isInstance, t);
    MatchesContains(objects, t, isInstance, multiset(types)[t], i);
  }

  /** An instance of `t` is among the matches of `t` for any positive
      multiplicity. */
  lemma {:induction false} MatchesContains<O, Ty>(objects: seq<O>, t: Ty, isInstance: (O, Ty) -> bool, m: nat, i: nat)
    requires m > 0 && i < |objects| && isInstance(objects[i], t)
    ensures objects[i] in Matches(objects, t, isInstance, m)
    decreases |objects|
  {
    if i < |objects| - 1 {
      MatchesContains(objects[..|objects| - 1], t, isInstance, m, i);
    } else {
      assert Repeat(objects[i], m) == Repeat(objects[i], m - 1) + [objects[i]];
    }
  }
}
