# Prefect collection utilities in Dafny

This project models the pure collection helpers of Prefect's
`src/prefect/utilities/collections.py` and proves properties about them:

- `dict_to_flatdict` turns a nested dict into a flat dict. Each key of the
  flat dict is the chain of keys (a tuple, here a `seq<K>`) leading to a
  non-dict value.
- `flatdict_to_dict` rebuilds the nesting from such a flat dict. It walks
  the flat dict's items in iteration order, creates sub-dicts with
  `setdefault`, and assigns the value under the last key.
- `ensure_iterable` returns sequences and sets unchanged and wraps any other
  value in a one-element list.
- `extract_instances` sorts objects by type. With one type it returns the
  list of that type's instances. With several it returns a table from type
  to instances.
- `batched_iterable` cuts an iterable into consecutive tuples of `size`
  elements; the last tuple may be shorter.

Modules:

- `Wrappers` (`wrappers.dfy`): `Option` and `Result`.
- `NestedDict` (`nested_dict.dfy`): a nested dict is a
  `map<K, Tree<K, V>>` with `Tree = Leaf(value) | Node(children)`. A flat
  dict is a `map<seq<K>, V>`. The module also holds `LeafAt` (the leaf at a
  path), `Prune` (drop empty sub-dicts) and `PrefixFree`.
- `Flatten` (`flatten.dfy`): `dict_to_flatdict`.
- `Unflatten` (`unflatten.dfy`): `flatdict_to_dict`.
  - The flat dict is given as its sequence of items, because the order of
    the items decides between an exception and a silent overwrite.
    `ItemsToFlatdict` is the dict those items make.
  - The exceptions the function can raise are a `Result` error.
    `EmptyKeyTuple` is the `IndexError` of `key_tuple[-1]`. `NotADict` is
    `setdefault` or item assignment on a non-dict value.
- `Iterables` (`iterables.dfy`): `ensure_iterable` and `extract_instances`.
  The `isinstance` test is a parameter `isInstance(o, t)`.
- `Batching` (`batching.dfy`): `batched_iterable`. The generator is a method
  that returns the sequence of all the batches it yields.

The round trip is proved in general, not only for dicts without empty
sub-dicts. Rebuilding the items of `dict_to_flatdict(d)`, in any order,
gives `d` back with its empty sub-dicts removed (`Prune(d)`). For a dict
without empty sub-dicts, that is `d` itself.

## Model

| member | source | states |
|---|---|---|
| Flatten.FlattenItem | src/prefect/utilities/collections.py:30-34 | every entry one item contributes has a path that starts with the parent path followed by the item's key |
| Flatten.Flatten | src/prefect/utilities/collections.py:27-35 | every produced path strictly extends the parent path, and its next key is a key of the dict being flattened |
| Flatten.DictToFlatdict | src/prefect/utilities/collections.py:27-35 | with the default empty parent, no produced key path is empty |
| Flatten.FlattenLeaves | src/prefect/utilities/collections.py:29-34 | `parent + q` is a key of the flat dict exactly when `q` leads to a non-dict value of `d`, and it maps to that value |
| Flatten.FlatEntriesAreLeaves | src/prefect/utilities/collections.py:27-34 | the keys of `dict_to_flatdict(d)` are exactly the paths to leaves of `d`, and each maps to its leaf's value |
| Flatten.SameLeavesSameFlatdict | src/prefect/utilities/collections.py:29-34 | two dicts with the same leaf at every path flatten to the same flat dict |
| Flatten.ParentPrefixesPaths | src/prefect/utilities/collections.py:27-30 | flattening under `_parent` gives the entries of the unparented flattening with `_parent` put in front, and nothing else |
| Flatten.FlatShallowDict | src/prefect/utilities/collections.py:29-34 | a dict without nested dicts flattens to `{(k,): v}` for each of its items `k: v` |
| Flatten.SubdictEntriesPrefixed | src/prefect/utilities/collections.py:31-32 | a nested sub-dict under `k` is replaced by its own flat entries, each prefixed with `k`, with the same values |
| Flatten.EmptySubdictVanishes | src/prefect/utilities/collections.py:31-32 | an empty sub-dict contributes no entry: removing it leaves the flat dict unchanged |
| Flatten.PruneKeepsFlatdict | src/prefect/utilities/collections.py:29-34 | removing every empty sub-dict, however deep, leaves the flat dict unchanged |
| Flatten.FlatPathsPrefixFree | src/prefect/utilities/collections.py:29-34 | no path produced by `dict_to_flatdict` is a proper prefix of another |
| NestedDict.LeavesDetermineDict | src/prefect/utilities/collections.py:29-34 | two dicts without empty sub-dicts that hold the same leaf at every path are equal, so a flat dict determines such a dict |
| NestedDict.PruneKeepsLeaves | src/prefect/utilities/collections.py:31-32 | dropping empty sub-dicts keeps every leaf where it was and adds none |
| NestedDict.PruneHasNoEmptySubdicts | src/prefect/utilities/collections.py:31-32 | after pruning no sub-dict is empty |
| NestedDict.PruneIdentity | src/prefect/utilities/collections.py:31-32 | a dict without empty sub-dicts is left unchanged by pruning |
| NestedDict.GetAppend | src/prefect/utilities/collections.py:54-59 | following the path `p + s` is following `p`, then `s` from the value `p` reached |
| Unflatten.ItemsToFlatdict | src/prefect/utilities/collections.py:52 | the flat dict's keys are exactly the key tuples among its items |
| Unflatten.ItemsToFlatdictValues | src/prefect/utilities/collections.py:52 | a key tuple maps to the value of its last item, so the flat dict the items enumerate holds each item's value unless a later item repeats its key |
| Unflatten.SetPath | src/prefect/utilities/collections.py:53-59 | a successful store has a non-empty path; it adds the path's first key to the top level, keeps every existing top-level key and adds no other |
| Unflatten.FlatdictToDict | src/prefect/utilities/collections.py:50-61 | a successful rebuild had only non-empty key tuples, and the first key of each is a top-level key of the result; its full meaning is in `Unflatten.FlatdictToDictKeys`, `Unflatten.SetPathSucceeds`, `Unflatten.FlatdictToDictLeaves` and `Unflatten.RoundTrip` |
| Unflatten.FlatdictToDictKeys | src/prefect/utilities/collections.py:52-59 | the top-level keys of a successful rebuild are exactly the first keys of the item paths |
| Unflatten.SetPathSucceeds | src/prefect/utilities/collections.py:53-59 | storing one item succeeds exactly when its key tuple is non-empty and no proper leading part of it already holds a non-dict value; an empty tuple raises at `key_tuple[-1]`, any other failure is a non-dict met on the way |
| Unflatten.SetPathLeafAt | src/prefect/utilities/collections.py:53-59 | after storing `v` at `path`, the leaf at `path` is `v`, nothing remains below `path`, and every other leaf is as before |
| Unflatten.SetPathKeepsNoEmptySubdicts | src/prefect/utilities/collections.py:54-59 | storing an item never leaves an empty sub-dict behind |
| Unflatten.FlatdictToDictLeaves | src/prefect/utilities/collections.py:50-61 | with non-empty, prefix-free key tuples the rebuild succeeds, has no empty sub-dicts, and its leaves are exactly the flat dict's entries |
| Unflatten.FlatdictToDictPlacesValues | src/prefect/utilities/collections.py:50-61 | with non-empty, prefix-free key tuples the rebuilt dict flattens back to the flat dict it was built from |
| Unflatten.RoundTrip | src/prefect/utilities/collections.py:10-61 | rebuilding the items of `dict_to_flatdict(d)`, in any order, succeeds and gives `d` with its empty sub-dicts removed |
| Unflatten.RoundTripNoEmptySubdicts | src/prefect/utilities/collections.py:41-45 | for a dict without empty sub-dicts the rebuild gives the dict back unchanged |
| Unflatten.EmptyKeyTupleFails | src/prefect/utilities/collections.py:52-59 | a flat dict holding the empty key tuple makes the rebuild raise |
| Unflatten.LeafThenLongerPathFails | src/prefect/utilities/collections.py:54-59 | `{(k,): v1, (k, k2): v2}` in that order raises: for the second item `setdefault(k)` on the result returns the value `v1`, and the item assignment `v1[k2] = v2` fails on that non-dict |
| Unflatten.LongerPathThenLeafOverwrites | src/prefect/utilities/collections.py:59 | `{(k, k2): v2, (k,): v1}` in that order raises nothing: `v1` silently replaces the sub-dict |
| Iterables.EnsureIterable | src/prefect/utilities/collections.py:67-71 | the result is always a sequence or a set and yields the same elements as the input; a sequence or a set is returned unchanged, and any other value comes back as the one-element list holding it |
| Iterables.EnsureIterableIdempotent | src/prefect/utilities/collections.py:67-71 | applying `ensure_iterable` twice is the same as applying it once |
| Iterables.ExtractInstances | src/prefect/utilities/collections.py:93-107 | the result is a plain list exactly when `types`, made iterable, holds one type; otherwise it is the type table |
| Iterables.AppendMatches | src/prefect/utilities/collections.py:100-102 | one pass of the inner loop only appends: every existing list keeps its contents as a prefix, and a newly added key is a type in `types` with a non-empty list |
| Iterables.Collect | src/prefect/utilities/collections.py:96-102 | after the outer loop every key of the table is one of `types` and holds a non-empty list |
| Iterables.AppendMatchesLookup | src/prefect/utilities/collections.py:100-102 | one pass of the inner loop appends `o` to a type's list once per occurrence of that type in `types` when `o` is an instance of it, and appends nothing otherwise |
| Iterables.AppendMatchesKeys | src/prefect/utilities/collections.py:100-102 | one pass of the inner loop adds to the table exactly the types in `types` that `o` is an instance of |
| Iterables.CollectMatches | src/prefect/utilities/collections.py:96-102 | after the loops each type's list is its instances in input order, each repeated as often as the type occurs in `types`; a type is in the table only when its list is non-empty |
| Iterables.ExtractSingleType | src/prefect/utilities/collections.py:93-105 | with a single type or a one-element tuple, the result is the list of the objects that are instances of it, in input order |
| Iterables.ExtractSeveralTypes | src/prefect/utilities/collections.py:93-107 | with several distinct types, each type maps to its instances in input order, and a type is a key exactly when it is among `types` and has an instance |
| Iterables.ObjectUnderEveryType | src/prefect/utilities/collections.py:98-107 | with several types an object lands under every type in `types` it is an instance of |
| Iterables.MatchesContains | src/prefect/utilities/collections.py:98-102 | an object that is an instance of `t` is among the matches of `t` |
| Iterables.MultiplicityOfDistinct | src/prefect/utilities/collections.py:100 | proof step for `Iterables.ExtractSeveralTypes`: in a tuple of types without repeats, which the loop at line 100 walks, each type occurs once, so each instance is appended once |
| Batching.BatchedIterable | src/prefect/utilities/collections.py:121-126 | joining the batches gives the input back; every batch is non-empty and at most `size` long; all but the last are exactly `size` long; there are ⌈n / size⌉ of them |
| Batching.BatchingUnique | src/prefect/utilities/collections.py:121-126 | only one sequence of batches has the properties `BatchedIterable` promises, so those properties fully describe its result |
| Batching.FirstBatch | src/prefect/utilities/collections.py:123 | the first batch is the first `size` elements, or the whole input when it is shorter |
| Batching.ConcatLength | src/prefect/utilities/collections.py:123-126 | `k` batches, all full except the last, hold more than `(k - 1) * size` and at most `k * size` elements |
| Batching.CeilDiv | src/prefect/utilities/collections.py:121-126 | proof step for `Batching.BatchedIterable`: a length in the range `Batching.ConcatLength` gives makes the batch count `k` the ceiling of `n / size` |

## Left out

- `listrepr` (`src/prefect/utilities/collections.py:74-75`): it only joins Python `repr` strings, which have no meaningful model here.
- Dict insertion order: dicts are Dafny maps. `flatdict_to_dict` is the one place where order matters, so it takes the items as a sequence.
- The `type(dct)` subclass preservation in `dict_to_flatdict` and `flatdict_to_dict`: every dict is a plain map.
- Unflatten.SetPath: a leaf value is assumed to support neither `setdefault` nor item assignment, so any step through a leaf fails with `NotADict`. A leaf that is a list or another mutable container would instead be written into, or raise a different exception.
- Self-containing and very deeply nested dicts: `dict_to_flatdict` calls itself once per nesting level (`src/prefect/utilities/collections.py:32`), so it raises `RecursionError` on a dict that contains itself or that is nested deeper than Python's recursion limit. A `Tree` is finite and the model has no recursion limit, so neither case can be expressed.
- Flat dicts whose values are themselves dicts, and dict keys that are not tuples: a leaf never holds a dict, and key paths are sequences.
- Iterables.EnsureIterable: only sequences (lists, tuples, strings), sets and single values are modelled. A dict, a generator or any other iterable that is neither a `Sequence` nor a `Set` is a single value, which is how the source treats it: wrapped in a list.
- Iterables.ExtractInstances: requires that `types` is not a set. The source annotates `types` as a type or a tuple of types, and `types[0]` fails on a set of one type.
- Iterables.ExtractInstances: returns the `defaultdict(list)` as a plain map. A type absent from it reads as the empty list through `Lookup`.
- Iterables.ExtractSeveralTypes: covers tuples of distinct types only. The general case, where a repeated type repeats its instances, is stated by `Iterables.CollectMatches`.
- The `object` default of `types` in `extract_instances`: the type test is a parameter, so there is no universal type to default to.
- Batching.BatchedIterable: requires `size >= 1`. With `size == 0` the source yields nothing, and with a negative size `islice` raises; neither is modelled.
- The laziness of `batched_iterable`: the method returns all batches at once, and infinite iterables are not modelled.
- `src/prefect/cli/cloud/webhook.py` is not part of this model: it consists of CLI commands that make HTTP requests and print tables.
- `src/prefect/core/flow.py` is not part of this model: it is a decorator built on Python reflection, argument validation and remote flow-run creation.
- `src/prefect/variables.py` is not part of this model: it is an asynchronous call to a remote client.
