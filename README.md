# ConfigurationUtil, modelled in Dafny

This project models the utility class `ConfigurationUtil` of the configuration module. The class works on trees of configuration nodes: inner nodes with named fields, leaves holding nullable values, and named lists whose elements are nullable inner nodes. A `null` element in a named list marks a deletion. The model covers:

- **the key codec**: `escape`, `unescape`, `split`, `join` and `appendKey`. A key path such as `["root", "a.b", "c"]` is written as the string `root.a\.b.c`.
- **`find`**: a visitor that walks a tree along a list of keys and either returns what it reaches or throws `KeyNotFoundException`. The exception carries the keys consumed so far.
- **`toPrefixMap` / `insert`**: a flat map from dotted keys to values becomes a nested "prefix map".
- **`fillFromPrefixMap`**: pours a prefix map into a tree through its two configuration sources. `LeafConfigurationSource` can only be unwrapped; `InnerConfigurationSource` hands every entry to `construct`. Module `FillRoundTrip` proves that every scalar poured in is found again by `find` and written back by `nodeToFlatMap`.
- **`nodeToFlatMap`**: turns a tree of updates into a flat map from dotted keys to values. It writes `null` tombstones for every leaf of the cached tree below an element that the updates delete. Its visitor, with `startVisit`, `endVisit` and `visitDeletedNamedListElement`, is modelled twice:
  - as a `Flattener` class whose methods update the visitor's fields in place;
  - as functions that thread the same state.

  Every method is proved to compute what its function computes. Each visit method leaves the current key, the current path and the tombstone flag as it found them when it succeeds; `startVisit` and `endVisit` are the two that change them.
- **`patch`**: applies a tree of changes to a copy of a root. It works through `PatchLeafConfigurationSource`, `PatchInnerConfigurationSource` and `PatchNamedListConfigurationSource`.

The node classes are generated from the configuration schema elsewhere and are not part of this model. Module `ConfigTree` states, as values, what the utility code relies on them for:

- fields are listed in schema order;
- `construct` puts a value, a fresh `new X()` node or a named list into a field;
- a named list keeps its names in insertion order and `get` looks one up;
- `getClass()` is compared as equal shapes.

The Java `assert`s that the utility code states become explicit faults in results (`InsertFault`, `FlatFault`, `Fault`), except two that constrain the caller's arguments, which become preconditions: `fillFromPrefixMap`'s `node instanceof InnerNode` (`requires node.tree.TInner?` on `Fill.FillFromPrefixMap`) and `patch`'s `root.getClass() == changes.getClass()` (`requires SameRootClass` on `Patch.Patch` and `Patch.PatchTree`). The exceptions the sources throw (`UnsupportedOperationException`, `NoSuchElementException`) become faults too. `find`'s `KeyNotFoundException` becomes an error value.

Module layout, one file each:

| file | module | contents |
|---|---|---|
| `wrappers.dfy` | `Wrappers` | `Option` and `Result` |
| `config_tree.dfy` | `ConfigTree` | the tree, `get`/`put` on named lists, classes and typing, the `ConfigNode` object |
| `path_codec.dfy` | `PathCodec` | escape, unescape, split (as written and as documented), join, appendKey |
| `lookup.dfy` | `Lookup` | `find` as a function and as the visitor method, and its algebra |
| `prefix_maps.dfy` | `PrefixMaps` | `insert`, the `toPrefixMap` loop, and what the prefix map holds |
| `fill.dfy` | `Fill` | `fillFromPrefixMap` and its two sources |
| `flatten.dfy` | `Flatten` | `nodeToFlatMap`: the functions, the `Flattener` class and the entry method |
| `flatten_properties.dfy` | `FlattenProperties` | key prefixes, the case without deletions, and the vocabulary for the next two modules |
| `flatten_soundness.dfy` | `FlattenSoundness` | every flat-map entry is a leaf of the updates or a tombstone for a deleted element's leaf |
| `flatten_completeness.dfy` | `FlattenCompleteness` | every such leaf and every such tombstone is in the flat map |
| `patch.dfy` | `Patch` | `patch` and its three sources, as functions and as methods |
| `fill_round_trip.dfy` | `FillRoundTrip` | `fillFromPrefixMap`, then `find` and `nodeToFlatMap`: the scalars come back |
| `patch_properties.dfy` | `PatchProperties` | patches of well-typed trees: no fault, types kept, field-by-field and name-by-name result |

## Model

| member | source | states |
|---|---|---|
| PathCodec.UnescapeEscape | modules/configuration/src/main/java/org/apache/ignite/configuration/internal/util/ConfigurationUtil.java:45-57 | `unescape(escape(s)) == s` for every string |
| PathCodec.EscapePlain | modules/configuration/src/main/java/org/apache/ignite/configuration/internal/util/ConfigurationUtil.java:45-47 | a key with no `.` and no `\` is its own escape |
| PathCodec.Split | modules/configuration/src/main/java/org/apache/ignite/configuration/internal/util/ConfigurationUtil.java:67-74 | the loop that unescapes the pieces in place yields the documented segments: unescaped pieces between unescaped dots |
| PathCodec.SplitJoin | modules/configuration/src/main/java/org/apache/ignite/configuration/internal/util/ConfigurationUtil.java:67-86 | `split(join(keys)) == keys` for every non-empty key list (documented split) |
| PathCodec.SplitAsWrittenJoin | modules/configuration/src/main/java/org/apache/ignite/configuration/internal/util/ConfigurationUtil.java:67-86 | with the lookbehind regex as written, `split(join(keys)) == keys` holds when no segment before the last ends in `\` |
| PathCodec.SplitAsWrittenCounterexample | modules/configuration/src/main/java/org/apache/ignite/configuration/internal/util/ConfigurationUtil.java:67-86 | with the regex as written, `join(["\\", "b"])` splits into one segment, not two |
| PathCodec.JoinSplitEmpty | modules/configuration/src/main/java/org/apache/ignite/configuration/internal/util/ConfigurationUtil.java:67-86 | `join([])` is `""`, but `""` splits into `[""]` |
| PathCodec.JoinSnoc | modules/configuration/src/main/java/org/apache/ignite/configuration/internal/util/ConfigurationUtil.java:84-86 | joining one more key appends `.` and the escaped key |
| PathCodec.AppendKey | modules/configuration/src/main/java/org/apache/ignite/configuration/internal/util/ConfigurationUtil.java:417-426 | the result is the prefix followed by the key, one longer, for an empty prefix too |
| PathCodec.JoinAppendKey | modules/configuration/src/main/java/org/apache/ignite/configuration/internal/util/ConfigurationUtil.java:417-426 | the joined form of an appended path extends the old one by `.` and the escaped key, and `split` reads the appended path back |
| Lookup.Walk | modules/configuration/src/main/java/org/apache/ignite/configuration/internal/util/ConfigurationUtil.java:96-137 | a failure names a prefix of the keys; a leaf or null failure stops before the last key; a "not found" failure includes the missing key |
| Lookup.Find | modules/configuration/src/main/java/org/apache/ignite/configuration/internal/util/ConfigurationUtil.java:96-137 | the visitor with counter `i` returns what `FindSpec` returns: a value, a node, a list or the exception |
| Lookup.FindConcat | modules/configuration/src/main/java/org/apache/ignite/configuration/internal/util/ConfigurationUtil.java:96-137 | finding `p + q` is finding `p`, then `q` from there; a failure on `p` is the failure on `p + q` |
| Lookup.FindSnoc | modules/configuration/src/main/java/org/apache/ignite/configuration/internal/util/ConfigurationUtil.java:103-135 | one more key after a leaf throws "is a leaf"; after a null node "is null"; after an absent field "not found" with that key; otherwise it steps into the child |
| Lookup.FindEmpty | modules/configuration/src/main/java/org/apache/ignite/configuration/internal/util/ConfigurationUtil.java:110-112 | with no keys, `find` returns the start node |
| Lookup.FindLeaf | modules/configuration/src/main/java/org/apache/ignite/configuration/internal/util/ConfigurationUtil.java:103-105 | a leaf field reached by the last key yields its value, null included |
| Lookup.FindAbsentElement | modules/configuration/src/main/java/org/apache/ignite/configuration/internal/util/ConfigurationUtil.java:125-131 | a name absent from a named list yields a null node, not an exception |
| Lookup.FindError | modules/configuration/src/main/java/org/apache/ignite/configuration/internal/util/ConfigurationUtil.java:103-123 | each kind of `KeyNotFoundException` is characterised by what `find` returns for the keys its message names |
| Lookup.PrefixWalk | modules/configuration/src/main/java/org/apache/ignite/configuration/internal/util/ConfigurationUtil.java:96-137 | the keys before the failure point are found |
| PrefixMaps.Insert | modules/configuration/src/main/java/org/apache/ignite/configuration/internal/util/ConfigurationUtil.java:168-194 | on success the map gains exactly the first key and keeps every other entry |
| PrefixMaps.InsertOk | modules/configuration/src/main/java/org/apache/ignite/configuration/internal/util/ConfigurationUtil.java:168-194 | `insert` succeeds iff the path is free and no segment before the last names a scalar; it fails on the duplicate-key assert iff the path is taken |
| PrefixMaps.InsertAt | modules/configuration/src/main/java/org/apache/ignite/configuration/internal/util/ConfigurationUtil.java:168-194 | after `insert`, the path leads to the inserted value |
| PrefixMaps.InsertFrame | modules/configuration/src/main/java/org/apache/ignite/configuration/internal/util/ConfigurationUtil.java:168-194 | every path that is not a prefix of the inserted one leads where it led before |
| PrefixMaps.InsertAlong | modules/configuration/src/main/java/org/apache/ignite/configuration/internal/util/ConfigurationUtil.java:180-191 | every proper prefix of the inserted path leads to a nested map |
| PrefixMaps.InsertNoCollision | modules/configuration/src/main/java/org/apache/ignite/configuration/internal/util/ConfigurationUtil.java:146-194 | when no key's segments extend another key's, each insertion of the loop succeeds |
| PrefixMaps.ToPrefixMap | modules/configuration/src/main/java/org/apache/ignite/configuration/internal/util/ConfigurationUtil.java:146-158 | keys are split with the documented split; on success every key's segments lead to its value and every scalar comes from a key; when no keys collide it succeeds and the result holds exactly the keys' own paths |
| Fill.FillFromPrefixMap | modules/configuration/src/main/java/org/apache/ignite/configuration/internal/util/ConfigurationUtil.java:205-274 | the root object is filled in place; no fault iff the map fits the tree; then the new tree is the old one filled with the map; a fault is an `UnsupportedOperationException` or an unknown field, as documented |
| Fill.FillInner | modules/configuration/src/main/java/org/apache/ignite/configuration/internal/util/ConfigurationUtil.java:234-272 | `InnerConfigurationSource.descend`: fails iff some entry does not fit; otherwise each entry is constructed into its field, and `construct` is called once per entry with the right source; a fault is an `UnsupportedOperationException` or an unknown field |
| Fill.ConstructInInner | modules/configuration/src/main/java/org/apache/ignite/configuration/internal/util/ConfigurationUtil.java:257-266 | `construct` on an inner node: fails iff the field is unknown (`NoSuchElement`) or the source does not fit the field: a value on a non-leaf field throws `descend`'s `UnsupportedOperationException`, a map on a leaf field `unwrap`'s; otherwise only that field changes, as filling prescribes |
| Fill.FillList | modules/configuration/src/main/java/org/apache/ignite/configuration/internal/util/ConfigurationUtil.java:234-272 | `descend` into a named list: each entry fills the element under its name |
| Fill.ConstructInList | modules/configuration/src/main/java/org/apache/ignite/configuration/internal/util/ConfigurationUtil.java:257-266 | `construct` on a named list: `null` deletes, a map fills the present or a new element, a value throws the leaf source's `UnsupportedOperationException("descend")` |
| Fill.FillsListStep | modules/configuration/src/main/java/org/apache/ignite/configuration/internal/util/ConfigurationUtil.java:253-267 | one more handled entry keeps the list-filling relation |
| FillRoundTrip.FillFind | modules/configuration/src/main/java/org/apache/ignite/configuration/internal/util/ConfigurationUtil.java:195-274 | once `fillFromPrefixMap` succeeds, `find` along the path of any non-null scalar of the prefix map returns that scalar |
| FillRoundTrip.FillFlatten | modules/configuration/src/main/java/org/apache/ignite/configuration/internal/util/ConfigurationUtil.java:284-408 | fill, then flatten: for plain names, every non-null scalar of the prefix map is in the flat map under its path joined behind the root key |
| Flatten.Flattener.StartVisit | modules/configuration/src/main/java/org/apache/ignite/configuration/internal/util/ConfigurationUtil.java:353-362 | the key grows by the (escaped) key and a dot; the path grows unless tombstones are being written; the old key length is returned |
| Flatten.Flattener.EndVisit | modules/configuration/src/main/java/org/apache/ignite/configuration/internal/util/ConfigurationUtil.java:370-375 | the key is cut back to the given length; the path loses its last key unless tombstones are being written |
| Flatten.Flattener.VisitLeafNode | modules/configuration/src/main/java/org/apache/ignite/configuration/internal/util/ConfigurationUtil.java:303-308 | a non-null leaf is put under the current key, as `null` in tombstone mode; a null leaf is skipped |
| Flatten.Flattener.VisitInnerNode | modules/configuration/src/main/java/org/apache/ignite/configuration/internal/util/ConfigurationUtil.java:311-322 | a null node is skipped; otherwise the children are visited between `startVisit` and `endVisit`; the result is `FlatInnerNode`'s, and the key, path and mode are restored |
| Flatten.Flattener.TraverseChildren | modules/configuration/src/main/java/org/apache/ignite/configuration/internal/util/ConfigurationUtil.java:311-322 | the loop over the fields computes `FlatChildren`; the first fault stops it |
| Flatten.Flattener.VisitNamedListNode | modules/configuration/src/main/java/org/apache/ignite/configuration/internal/util/ConfigurationUtil.java:325-342 | every name is visited with an escaped key; the result is `FlatListNode`'s, and the state is restored |
| Flatten.Flattener.VisitListEntry | modules/configuration/src/main/java/org/apache/ignite/configuration/internal/util/ConfigurationUtil.java:328-339 | one named element: a deleted one writes tombstones, a present one is traversed; the result is `FlatElement`'s |
| Flatten.Flattener.VisitDeletedNamedListElement | modules/configuration/src/main/java/org/apache/ignite/configuration/internal/util/ConfigurationUtil.java:381-406 | a nested deletion faults; otherwise `find` on the cached tree; if found, its leaves are written as `null` and the mode restored; a `KeyNotFoundException` or a null element writes nothing; a non-inner result faults |
| Flatten.NodeToFlatMap | modules/configuration/src/main/java/org/apache/ignite/configuration/internal/util/ConfigurationUtil.java:284-408 | the visitor run from the root key computes `FlatTree` |
| FlattenProperties.FlatTreeKeys | modules/configuration/src/main/java/org/apache/ignite/configuration/internal/util/ConfigurationUtil.java:284-408 | every key of the flat map starts with the root key and a dot |
| FlattenProperties.FlatTreeNoDeletions | modules/configuration/src/main/java/org/apache/ignite/configuration/internal/util/ConfigurationUtil.java:381-406 | updates without deleted elements never fault, and the map holds no `null` |
| FlattenSoundness.FlatTreeSound | modules/configuration/src/main/java/org/apache/ignite/configuration/internal/util/ConfigurationUtil.java:284-408 | every entry's key splits into the root key and a path. A value is the updates' leaf at that path. A `null` sits at a non-null leaf of the cached tree, below an element the updates delete. |
| FlattenCompleteness.FlatTreeComplete | modules/configuration/src/main/java/org/apache/ignite/configuration/internal/util/ConfigurationUtil.java:284-408 | every non-null leaf of the updates is in the map under its joined path with its value; every non-null cached leaf below a deleted element is in the map as `null` |
| Patch.Patch | modules/configuration/src/main/java/org/apache/ignite/configuration/internal/util/ConfigurationUtil.java:435-457 | the copy is a new object; the root is unchanged; the copy's tree is `PatchTree`'s result, or the fault |
| Patch.PatchTree | modules/configuration/src/main/java/org/apache/ignite/configuration/internal/util/ConfigurationUtil.java:435-457 | a patched inner root stays an inner node, a list root a list |
| Patch.PatchInner | modules/configuration/src/main/java/org/apache/ignite/configuration/internal/util/ConfigurationUtil.java:502-504 | a patch that succeeds had source and destination of one class |
| Patch.PatchInnerDescend | modules/configuration/src/main/java/org/apache/ignite/configuration/internal/util/ConfigurationUtil.java:502-526 | the visitor over the source's fields computes `PatchInner` |
| Patch.ConstructField | modules/configuration/src/main/java/org/apache/ignite/configuration/internal/util/ConfigurationUtil.java:460-526 | `construct` of one field with a patch source: a null source keeps the field; a leaf source over a leaf field replaces its value; a source of another kind than the field faults; an inner or list source over a field of its kind gives a field of that kind, an inner one non-null, of the field's type and of the source's class |
| Patch.PatchListDescend | modules/configuration/src/main/java/org/apache/ignite/configuration/internal/util/ConfigurationUtil.java:548-556 | the loop over the names computes `PatchList` |
| PatchProperties.PatchInnerTyped | modules/configuration/src/main/java/org/apache/ignite/configuration/internal/util/ConfigurationUtil.java:485-528 | patching two well-typed nodes of one class never faults; the result is well typed and of that class; each field holds `construct` of the destination's field with the source's |
| PatchProperties.ConstructSlotTyped | modules/configuration/src/main/java/org/apache/ignite/configuration/internal/util/ConfigurationUtil.java:460-528 | `construct` with a source of the field's own kind never faults and keeps the field's kind |
| PatchProperties.PatchListTyped | modules/configuration/src/main/java/org/apache/ignite/configuration/internal/util/ConfigurationUtil.java:531-557 | patching a list: the names are the destination's, then the source's new names in order; under each source name is its patched element or its deletion; other elements are kept |
| PatchProperties.PatchFields | modules/configuration/src/main/java/org/apache/ignite/configuration/internal/util/ConfigurationUtil.java:502-526 | null fields of the source leave the destination's field; a non-null leaf replaces it |
| PatchProperties.PatchNoChanges | modules/configuration/src/main/java/org/apache/ignite/configuration/internal/util/ConfigurationUtil.java:502-526 | a source all of whose fields are null patches to the destination itself |
| PatchProperties.PatchTreeTyped | modules/configuration/src/main/java/org/apache/ignite/configuration/internal/util/ConfigurationUtil.java:435-457 | `patch` of well-typed trees of one class never faults and keeps the root's class |

## Left out

- The regex engine: `replaceAll` and `split` are modelled by their effect on characters. `split` is modelled with a `-1` limit, so trailing empty segments are kept.
- Reflection: `getClass()`, `instanceof` and `Class.cast` are modelled as equality of shapes and as the kind of a field; field types beyond that shape are not modelled.
- The generated node classes (`construct`, `traverseChildren`, `traverseChild`, `copy`, `namedListKeys`, the element supplier) are taken as their assumed behaviour, stated in `ConfigTree`. A named-list field is never null in the model, and `construct(key, null)` on a named-list field clears the list.
- `HashMap` iteration order: loops over maps pick any unhandled entry, and results are stated as relations that hold for every order.
- Fill.FillFromPrefixMap: a fault leaves the node partly filled in the source; the model does not say what the partial state is.
- Flatten.Flattener.VisitInnerNode: after a fault (a failed Java assert) the model does not state the visitor's fields.
- Flatten.Flattener.TraverseChildren: after a fault the model does not state the visitor's fields.
- Flatten.Flattener.VisitNamedListNode: after a fault the model does not state the visitor's fields.
- Flatten.Flattener.VisitListEntry: after a fault the model does not state the visitor's fields.
- Flatten.Flattener.VisitDeletedNamedListElement: after a fault the model does not state the visitor's fields.
- PathCodec.Split: models the documented split of the finding below (pieces between dots not escaped by an unescaped backslash), not the lookbehind regex as written; `PathCodec.SplitAsWritten` models the regex. A key with `\\.` in it splits differently.
- PrefixMaps.ToPrefixMap: splits keys with the documented split (`PathCodec.Split`), so a raw key containing `\\.` is inserted along a different path than the regex as written gives: `\\.b` becomes the two segments `\` and `b`, not the single segment `\.b`.
- FlattenSoundness.FlatTreeSound: its read-back `Sound` splits keys with the documented split too. For the plain keys it is stated for, PathCodec.SplitAsWrittenJoin gives the regex as written the same segments.
- Object identity and aliasing between the copy of `patch` and the nodes it shares with the root are not modelled; trees are values.
- The `RandomAccess` asserts of `find` and `toPrefixMap` concern the Java list's class and have no counterpart here.
- FlattenSoundness.FlatTreeSound: stated only for a root key and field names that need no escaping, since `startVisit(key, false)` does not escape them. With a dot in a field name the flat key does not split back into the path.
- FlattenCompleteness.FlatTreeComplete: stated only for a root key and field names that need no escaping, for the same reason.
- Flatten.Flattener.VisitNamedListNode: the source calls `node.get(namedListKey)` for each of `namedListKeys()`; the model, and `Flatten.FlatElements`, use the element at hand, which is the same element because a list's names are distinct.
- Patch.PatchListDescend: the source calls `srcNode.get(key)` for each of `namedListKeys()`. The model uses the element at hand, which is the same element because a list's names are distinct.
- Patch.PatchTree: the contract states only the kind of the root; what the patched tree holds is stated by PatchProperties.PatchTreeTyped and the lemmas beside it, for well-typed trees.
- The `KeyNotFoundException` message text is built by `Lookup.Message` from the consumed keys; its wording is not stated by any lemma.

## Findings

| source | as written | input that shows it | evidently intended | confidence | as-written member | corrected member |
|---|---|---|---|---|---|---|
| modules/configuration/src/main/java/org/apache/ignite/configuration/internal/util/ConfigurationUtil.java:68 | `split` separates at every `.` not preceded by `\`, so a dot after an escaped backslash (`\\.`) is not a separator | `join(["\\", "b"])` is `\\.b`, which splits back into the single key `\.b` | split at dots not escaped by an unescaped backslash, so `split(join(keys)) == keys` as the documentation's `@see` pair suggests; `PathCodec.Split`, `PrefixMaps.ToPrefixMap` and the read-back in `FlattenSoundness.FlatTreeSound` use this corrected split | not executed | PathCodec.SplitAsWrittenCounterexample | PathCodec.SplitJoin |
