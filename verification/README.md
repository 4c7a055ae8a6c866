# mutabl.js store and list stores, modelled in Dafny

mutabl.js keeps application state in a tree of reactive values. A `Store` holds a
root value. `property(name)` hangs an `ObjectProperty` under a value that reads
field `name` of its parent's value. `lift(valueFrom)` hangs a derived value
under it. Observers are registered with `onChange`. An `update` changes a value
(optionally merging a partial object into it), writes a property's new value
back into its parent, then recomputes the values below it (`digest`) and calls
the observers of what changed (`flush`). The list stores (`fromArray`,
`fromBindable`, and the older versions of both in `lib/list/index.ts`) apply
list mutations (push, insert, remove, move, update) to a backing array and send
each mutation on to their subscribers.

The project models:

- `js.dfy`: JavaScript values, objects with identity in a heap, and arrays that
  are updated in place (`Js.JsArray`).
- `utils.dfy`: `swapItems`, `Array.prototype.splice` for one element,
  `findIndex`, and reading and writing an array slot past its end.
- `list_mutation.dfy`: the mutation union, its constructors and `isMutation`.
- `merge.dfy`: the partial merge of `update-partial.ts`, which is also inlined
  in `updateValue`. Its contract says which fields changed (`MergedFrom`),
  that each merged target other than the root was found beside its source at
  a key of an earlier pair (`Reached`), and that each target whose source was
  left as it was ends with every field of that source copied (`CopiedFrom`).
- `store.dfy`: the value graph of `lib/store.ts` as one class `Store.Graph`.
  Every value is a node in an arena. Each node has a parent link, ordered
  properties and ordered observers. Every `next` call is appended to a
  notification log.
- `list_item.dfy`: `ListItem` of `lib/list/list-item.ts`, which writes into a
  slot of its list.
- `from_array.dfy`, `from_bindable.dfy`, `legacy_list.dfy`: the list stores.
  What a list makes others see (mutations sent, writes of the bound value,
  flushes of the bound value's chain) is kept as a log.

A subscriber of `fromArray` is specified by `FromArray.Replay`, a mirror that
applies each mutation it is sent. The proved invariant is that the mirror of
the log always equals the array.

## Model

| member | source | states |
|---|---|---|
| Js.Get | lib/store.ts:107 | reading a field of a value that is not an object gives `undefined` |
| Js.SetField | update-partial.ts:35 | assigning `o[k] = v` changes that field only; every other field of every object keeps its value and no object appears or disappears |
| Js.GetInHeap | lib/store.ts:107 | a field read from a closed heap refers only to objects of that heap |
| Js.JsArray.constructor | lib/list/from-bindable.ts:12 | a new array holds exactly the given elements |
| Js.JsHeap.constructor | lib/list/list-item.ts:15 | a heap cell starts with exactly the given objects |
| Utils.At | lib/utils.ts:2 | `arr[i]` is the element inside the bounds and `undefined` (the hole) outside them |
| Utils.Holes | lib/utils.ts:3-4 | the padding an assignment past the end creates is all holes, of the right length |
| Utils.Put | lib/utils.ts:3-4 | `arr[i] = v`: a negative index leaves the elements unchanged, an index inside replaces one element, an index past the end grows the array to `i + 1` with holes between |
| Utils.Swap | lib/utils.ts:1-5 | the in-bounds exchange keeps the length |
| Utils.SwapItems | lib/utils.ts:1-5 | `swapItems(arr, from, to)` leaves in the array exactly what the three assignments compute, in place |
| Utils.SwapExchanges | lib/utils.ts:1-5 | for in-bounds positions the two elements trade places and all others stay |
| Utils.SwapInvolution | lib/utils.ts:1-5 | swapping the same two in-bounds positions twice restores the array |
| Utils.SwapTwiceRestores | lib/list/list-item.ts:20-24 | the in-bounds exchange is its own inverse |
| Utils.SwapSameIndex | lib/utils.ts:1-5 | swapping a position with itself changes nothing inside the array and only pads it past the end |
| Utils.SwapAllSameLength | lib/list/from-bindable.ts:87-88 | the two swaps of the `move` branch leave the wrapper list and the snapshot with equal lengths when they started equal |
| Utils.SpliceStart | lib/list/from-array.ts:35 | where `splice` starts: a negative start counts from the end and is clamped at 0, a start past the end is clamped at the length |
| Utils.InsertAt | lib/list/from-array.ts:33-36 | `splice(i, 0, v)`: one element longer, `v` at the clamped start, the elements before and after it kept in order |
| Utils.DeleteAt | lib/list/from-array.ts:41-48 | `splice(i, 1)`: at a start inside the array exactly that element goes and the rest keep their order; at the end nothing changes |
| Utils.InsertAtIndex | lib/list/from-array.ts:33-36 | the element at every position after an insert, in terms of the old array |
| Utils.DeleteAtIndex | lib/list/from-array.ts:41-48 | the element at every position after a delete, in terms of the old array |
| Utils.SwapAllAt | lib/utils.ts:1-5 | the element at every position after a swap, holes included |
| Utils.FindIndex | lib/list/from-array.ts:43 | `findIndex`: the first element the test accepts, or `-1` when it accepts none |
| ListMutation.UpdateItem | lib/list/list-mutation.ts:41-50 | builds the `update` mutation with the given index and callback |
| ListMutation.PushItem | lib/list/list-mutation.ts:52-57 | builds the `push` mutation with the given value |
| ListMutation.InsertItem | lib/list/list-mutation.ts:58-64 | builds the `insert` mutation with the given value and index |
| ListMutation.RemoveItem | lib/list/list-mutation.ts:65-72 | builds a `remove` mutation that has a `predicate` and no `index` |
| ListMutation.ResetItems | lib/list/list-mutation.ts:74-79 | builds the `reset` mutation with the given items |
| ListMutation.IsMutation | lib/list/list-mutation.ts:83-97 | an input passes exactly when it is a mutation object whose type is not `update` |
| ListMutation.FalsyIsNotMutation | lib/list/list-mutation.ts:86-88 | a falsy input never passes |
| ListMutation.ConstructorsPassTagTest | lib/list/list-mutation.ts:89-96 | what `pushItem`, `insertItem`, `removeItem` and `resetItems` build passes; what `updateItem` builds does not |
| Merge.KeyStep | update-partial.ts:19-37 | one key of the for-in never adds or removes an object |
| Merge.ForIn | update-partial.ts:18-39 | the for-in over a source's keys never adds or removes an object |
| Merge.VisitPreserves | update-partial.ts:13-16 | marking a target as merged into keeps the merge relation |
| Merge.WritePreserves | update-partial.ts:34-37 | writing one overwritable field of a visited target keeps the merge relation, keeps the heap closed and touches no other object |
| Merge.MergeKey | update-partial.ts:19-37 | the for-in body for one key keeps the loop's invariant. An equal value or a function in the target is skipped. Two objects are pushed as a pair. Anything else is copied into the target, and only the target changes. When the target and the source are the same object, every key is skipped and nothing changes |
| Merge.SkipKeeps | update-partial.ts:21-25 | skipping a key whose two values are identical, or whose target value is a function, keeps the for-in invariant |
| Merge.PushKeeps | update-partial.ts:26-32 | pushing the pair of two different objects a key holds keeps the for-in invariant, the new pair being found |
| Merge.MergeInto | update-partial.ts:18-39 | the for-in over one pair keeps the merge relation, changes only the target, and reports a change exactly when a field differs from the start. Afterwards every key of the source holds the source's value in the target, unless the target held a function there, or both values are objects, the target still holds its object and their pair is on the stack. Pairs already on the stack stay there, every pushed pair was found at a key of the target and its source, and no field written earlier is written again. When the target and the source are the same object, nothing changes and nothing is pushed |
| Merge.WriteKeeps | update-partial.ts:33-37 | copying the source's value into a field not written yet keeps the for-in invariant and records that field as the witness of a change |
| Merge.PushGrounded | update-partial.ts:26-32 | a pair pushed for two different objects at key `k` is the target's object and the source's object at `k` |
| Merge.WriteStays | update-partial.ts:33-37 | a write to a field not written yet leaves every field written before as it is, so pushed pairs stay found |
| Merge.GroundedLift | update-partial.ts:13-16 | a found pair stays found as written fields stay written and more targets are merged into |
| Merge.Visit | update-partial.ts:13-39 | one pair taken off the stack is merged into once and recorded as visited, with every key of its source copied as `MergeInto` states. No other object changes, and pushed pairs are found pairs. When the target and the source are the same object, nothing changes and nothing is pushed |
| Merge.VisitKeepsReached | update-partial.ts:13-16 | the popped pair was found, so every merged target, the new one included, is still found |
| Merge.UnwrittenBefore | update-partial.ts:13-39 | a source left as it was after a visit was left as it was before it |
| Merge.UnvisitedUnwritten | update-partial.ts:13-39 | an object the merge never took as a target keeps every field |
| Merge.PopKeepsCopied | update-partial.ts:13-16 | skipping a popped pair whose target was merged into already keeps every copied key copied |
| Merge.VisitKeepsCopied | update-partial.ts:13-39 | merging a popped pair keeps every earlier copied key copied and adds the keys of its source, when that source is left as it was |
| Merge.Turn | update-partial.ts:12-40 | one turn of the loop keeps the invariant and either visits a new target or shrinks the stack, so the loop ends |
| Merge.MergeObjects | update-partial.ts:9-41 | the merge with a working visited guard ends on every input. Only overwritable fields of visited targets change, only at keys their paired sources have, and a key is added only with a value other than `undefined`. The result is true exactly when the heap changed. Every merged target other than the root was found at a key where a merged target held it, paired with what that target's source held there. Every merged target whose source the merge left as it was ends with each of that source's fields copied. The exceptions are a field where the target held a function, and a field where both values are objects, the target keeps its object and that nested target was merged into. A pair of one object with itself is never found, since the key that holds it on both sides is skipped; so `updatePartial(x, x)` and an object the target and the source share are left as they were, and merging an object into itself returns false |
| Merge.PlainMergeCopies | update-partial.ts:33-37 | whatever satisfies the contract of `MergeObjects` for `{x: 2}` merged into `{x: 1}` merges only the root, sets `x` to 2 and changes the heap |
| Merge.NestedMergeCopies | update-partial.ts:26-37 | whatever satisfies the contract of `MergeObjects` for `{a: Y}` merged into `{a: X}`, `X = {k: 0}`, `Y = {k: 1}`, keeps `X` in the target, merges `Y` into it, and sets `X.k` to 1 |
| Merge.NestedSourcesUnmerged | update-partial.ts:26-32 | in that example no source object is merged into, so both are left as they were |
| Merge.NestedPairFound | update-partial.ts:26-32 | in that example `X` is paired with `Y`, the only object beside it |
| Merge.UnwrittenSame | update-partial.ts:33-37 | a merge that wrote no field leaves the heap exactly as it was: a key is added only with a value other than `undefined` |
| Merge.SharedMergeUnchanged | update-partial.ts:21-25 | whatever satisfies the contract of `MergeObjects` for `{a: O}` merged into `{a: O}`, both holding the same `O = {x: 1}`, merges only the root, leaves the heap as it was and reports no change |
| Merge.SharedUnmerged | update-partial.ts:21-32 | in that example neither the source nor the shared `O` is merged into, so both keep every field |
| Merge.UpdatePartial | update-partial.ts:1-42 | `updatePartial`: false and nothing changed when the target is falsy or not an object. A source that is `null`, a number, a boolean or a function has no fields, so it also changes nothing. For two objects, the merge above with its copy property and with every merged target found. `updatePartial(x, x)` returns false and changes nothing |
| Merge.ForInTwo | update-partial.ts:18 | a for-in over two keys runs the body for the first key, then the second |
| Merge.SelfStep | update-partial.ts:26-32 | on the cyclic example, key `self` pushes the same pair again |
| Merge.CopyStep | update-partial.ts:33-37 | on the cyclic example, key `x` copies the differing number |
| Merge.SameStep | update-partial.ts:21-25 | once copied, key `x` is skipped |
| Merge.FirstTurn | update-partial.ts:12-39 | as written, the first turn on the cyclic example leaves the same pair on the stack |
| Merge.LaterTurn | update-partial.ts:12-39 | as written, every later turn is a fixed point |
| Merge.CyclicMergeNeverEnds | update-partial.ts:12-16 | as written, the loop on two self-referencing objects that differ in one field never empties its stack |
| Store.IndexOf | lib/store.ts:79 | `indexOf`: the first position of the element, `-1` exactly when it is absent |
| Store.RemoveFirst | lib/store.ts:142-145 | removal of the first occurrence: one element shorter when present, the others kept in order; unchanged when absent |
| Store.RemoveFirstWithin | lib/store.ts:142-145 | removal adds no element |
| Store.RemoveFirstKeepsOthers | lib/store.ts:142-145 | removal takes away exactly one copy of the element and keeps every other element, counted with multiplicity |
| Store.UnsubscribeTwiceRemovesAnother | lib/store.ts:76-82 | as written, unsubscribing `a` twice from `[a, b]` also removes `b`; removal of the first occurrence leaves `[b]` |
| Store.AppendChildLinked | lib/store.ts:109-114 | appending a new property keeps every parent link consistent with the property lists |
| Store.AppendChildNamed | lib/store.ts:102-104 | a name looked up first and absent stays unique among the properties after appending |
| Store.UnlinkLinked | lib/store.ts:137-148 | removing a property from its parent's list keeps the links consistent |
| Store.UnlinkNames | lib/store.ts:137-148 | removing a property keeps names unique |
| Store.UnlinkKeeps | lib/store.ts:137-148 | removing a property keeps the graph's invariant |
| Store.DisposeKeeps | lib/store.ts:137-148 | `dispose` keeps the graph's invariant |
| Store.ObserverNotes | lib/store.ts:368-372 | one `next` call per observer of a dirty value |
| Store.ObserverNotesAt | lib/store.ts:368-372 | the observers of one value are called from the last to the first |
| Store.NotificationsAppend | lib/store.ts:359-375 | flushing `a + b` calls the observers of `b` first, then those of `a` |
| Store.ClosedSetHoldsReach | lib/store.ts:325-352 | a set closed under properties holds every value below its root |
| Store.ValueFrom | lib/store.ts:174-176 | the recomputed value of a node: a property reads its name from a truthy parent value and keeps a falsy one; a lifted node applies its function to the parent value and the previous value (`null` is handed on as absent); a root keeps its value |
| Store.DigestFrom | lib/store.ts:313-356 | `digest(root)` changes values only. Every node below the root takes the value recomputed from its parent's new value. The dirty list holds exactly the nodes whose value changed, once each, in the order the walk recomputes them: the popped node's properties from the last to the first, then the nodes below the first of them, and so on |
| Store.DigestChild | lib/store.ts:334-349 | one step of the inner loop: the property at `propIdx` is pushed and recomputed from the popped node's value. It is appended to the dirty list exactly when its value changed |
| Store.DigestChildren | lib/store.ts:331-351 | the inner loop pushes the popped node's properties from the last to the first. Its dirty list grows by exactly those whose value changed, in that order |
| Store.DigestPop | lib/store.ts:325-352 | one turn of the outer loop keeps the walk's invariant and finishes one more node. What was recomputed and what the stack still holds make up the whole walk order |
| Store.DigestOrder | lib/store.ts:325-352 | the walk order below a node lists only nodes of the graph with a larger id than that node |
| Store.PendingPushed | lib/store.ts:337-338 | pushing a node's properties from the last to the first puts the walks below them, the first property's first, ahead of what the stack held |
| Store.PopOrder | lib/store.ts:325-352 | popping a node and pushing its properties keeps the walk order |
| Store.ChangedInFrame | lib/store.ts:345-349 | which nodes of a walk changed depends only on the values of those nodes |
| Store.WalkReachesAll | lib/store.ts:325-352 | when the stack is empty, the walk has pushed exactly the nodes hanging below its root |
| Store.DigestKeeps | lib/store.ts:313-356 | a digest keeps the graph's invariant |
| Store.UpdateEffect | lib/store.ts:399-463 | what `updateValue` decides. It is a no-op exactly for `undefined`, the current value, or a function (or its result) equal to the current value. It is "touched" exactly for a function returning `undefined`. It merges exactly for `partial` with two distinct objects. Otherwise it replaces with a defined new value |
| Store.UpdateSettles | lib/store.ts:417 | after a replacement, updating with the same value again is a no-op, which is why the recursive call ends |
| Store.CallNeverMerges | lib/store.ts:417 | a function's result is handed on without `partial`, so it is never merged |
| Store.AppliedPlain | lib/store.ts:459-461 | an update that does not merge leaves the heap alone and sets exactly the node's value |
| Store.Ancestors | lib/store.ts:190-194 | the chain from a node up through its parents to a parentless node, each entry the parent of the one before |
| Store.AncestorChain | lib/store.ts:190-194 | the `while (parent)` loop collects exactly that chain |
| Store.AncestorsSame | lib/store.ts:190-194 | changing values does not change a chain of ancestors |
| Store.HeldInHeap | lib/store.ts:181-186 | the objects held by a node and its ancestors are in the heap |
| Store.OnlyAboveKeeps | lib/store.ts:181-186 | a write-back changes values only, and only at the node and above it |
| Store.WroteBackSame | lib/store.ts:181-186 | whether a write-back happened does not depend on the property's own old value |
| Store.RefreshedBy | lib/store.ts:188-195 | a digest followed by a flush of the dirty nodes and a tail is a refresh |
| Store.FlushFrom | lib/store.ts:359-375 | `flush(dirty)` calls, from the last entry to the first, every observer of that entry from the last to the first, with its value |
| Store.PropertyUpdatedBy | lib/store.ts:178-199 | the two ways a property update ends: no change and nothing written, or the new value set and written back |
| Store.PropertyUpdatedValuesOnly | lib/store.ts:178-199 | a property update changes values only |
| Store.UpdateValueIn | lib/store.ts:399-463 | `updateValue` does what `UpdateEffect` decides. A merge changes the heap as `MergeObjects` does, with its copy property and its found targets (so an object the old and the new value share is left as it was), and changes no node; a replacement sets the node's value; the result is true exactly when it reports a change. The graph's invariant is kept |
| Store.WriteBackIn | lib/store.ts:181-186 | writing a property's value back into the parent. An object parent gets the field set. A function parent keeps no fields in this model, so nothing is set. Another truthy parent throws a TypeError (class code is strict). A falsy parent is handed a fresh `{[name]: value}` through its own `update`, which throws for a lifted parent. Only the property and its ancestors change |
| Store.WriteBackFresh | lib/store.ts:184-186 | a falsy parent that is not a property: a root takes the fresh object, a lifted parent throws a TypeError |
| Store.WriteBackNamed | lib/store.ts:184-186 | a falsy parent that is itself a property takes the fresh object and writes it back in turn, without refresh |
| Store.UpdatePropertyIn | lib/store.ts:178-199 | `ObjectProperty.update`: false and nothing changed when `updateValue` reports no change. Otherwise the value is written back. With `autoRefresh` and a write-back that returned, the property is digested and the changed nodes are flushed, then the property and each ancestor |
| Store.RefreshFrom | lib/store.ts:304-311 | digest then flush; the dirty list is the changed nodes in walk order, and something was dirty exactly when a value below the node changed |
| Store.Graph.constructor | lib/store.ts:210-213 | an empty graph over a closed heap, with no notifications yet |
| Store.Graph.NewRoot | lib/store.ts:379-382 | `new Store(value)` and `new ListItem(value, index)`: a fresh parentless node with no properties and no observers; nothing else changes |
| Store.Graph.Peek | lib/store.ts:41-48 | `peek(project)`: `undefined` without calling `project` when the value is `undefined`, else the projection |
| Store.Graph.Get | lib/store.ts:90-99 | `get(name)` finds a property of that name exactly when one is listed, and none otherwise |
| Store.Graph.InitValue | lib/store.ts:106-107 | a new property starts with `parent[name]`, or `undefined` under a falsy parent |
| Store.Graph.Property | lib/store.ts:101-116 | `property(name)` returns the listed property when there is one and changes nothing. Otherwise it appends a fresh property of that name seeded from the parent's value |
| Store.Graph.Lift | lib/store.ts:125-135 | `lift(f)` appends a fresh lifted node that starts with `f(value)`, or `undefined` when the value is `undefined` |
| Store.Graph.LiftedStart | lib/store.ts:130 | the first value of a lifted node: `f(value)`, or `undefined` without calling `f` when the value is `undefined` |
| Store.Graph.NewChild | lib/store.ts:109-114 | a fresh child node appended to the properties; nothing else changes |
| Store.Graph.Dispose | lib/store.ts:137-148 | `dispose()` removes the node from its parent's properties, the first occurrence only, and changes nothing for a parentless node or one not listed |
| Store.Graph.OnChange | lib/store.ts:50-84 | `onChange`. A function is wrapped in a new `{ next }` wrapper that no node lists yet. An object without `next` gets the empty subscription and changes nothing. Otherwise a defined current value is delivered once unless `skipCurrent`, and the observer is appended |
| Store.Graph.Unsubscribe | lib/store.ts:76-82 | `unsubscribe()` with the absent case guarded: the first occurrence of the observer goes and the others keep their order |
| Store.Graph.Flush | lib/store.ts:359-375 | `flush(dirty)` appends exactly the calls `Notifications` lists |
| Store.Graph.Digest | lib/store.ts:313-356 | `digest(null)` is empty and changes nothing; `digest(root)` recomputes everything below the root and lists exactly what changed, in the walk order `DigestOrder` gives |
| Store.Graph.UpdateValue | lib/store.ts:399-463 | `updateValue` on a node of the graph, keeping its invariant. It has the effects `UpdateValueIn` states, the merge's copy property included |
| Store.Graph.DigestAndFlush | lib/store.ts:246-250 | a digest of the node followed by a flush of the dirty nodes and a tail |
| Store.Graph.UpdateRoot | lib/store.ts:237-253 | `Store.update` and `ListItem.update`: `updateValue` with the effects `UpdateValueIn` states (a merge copies each field of a source it left as it was, as `MergeObjects` states), then, on a change with `autoRefresh`, a digest and a flush of the dirty nodes followed by the node itself; otherwise no notification |
| Store.Graph.UpdateProperty | lib/store.ts:178-199 | `ObjectProperty.update` on the graph, as `UpdatePropertyIn` states |
| Store.Graph.Refresh | lib/store.ts:255-257 | `refresh()`: digest, flush the dirty nodes, true exactly when a value below the node changed |
| ListItems.OwnFields | lib/list/list-item.ts:15 | a value that is not an object has no own fields to copy |
| ListItems.Assign | lib/list/list-item.ts:15 | `Object.assign(target, source)` throws a TypeError exactly for an `undefined` or `null` target. An object target takes every field of the source and keeps its others. No other object changes |
| ListItems.AssignNothing | lib/list/list-item.ts:15 | a callback that returns `undefined` (having mutated its argument) makes `Object.assign` change nothing |
| ListItems.AssignIdempotent | lib/list/list-item.ts:15 | assigning the same source twice is assigning it once |
| ListItems.ListItem.constructor | lib/list/list-item.ts:5-8 | the item keeps its list, index and value and has a `null` parent |
| ListItems.ListItem.Update | lib/list/list-item.ts:12-17 | a plain value is stored in `list[index]`. A callback's result is `Object.assign`ed onto `list[index]`, which keeps its identity and the array. Updating a slot inside the array keeps its length |
| FromArray.ReplayAppend | lib/list/from-array.ts:26-29 | a mirror that receives one more mutation takes one more step |
| FromArray.RemoveIndex | lib/list/from-array.ts:42-43 | where a remove points: its `index`, else the first element the predicate accepts or `-1`; a number under `predicate` makes `findIndex` throw a TypeError |
| FromArray.OutcomeMirrored | lib/list/from-array.ts:32-56 | whatever `applyMutation` sends, a subscriber applying it reaches the new array |
| FromArray.PushAppends | lib/list/from-array.ts:37-40 | a push appends its value and sends itself |
| FromArray.InsertShifts | lib/list/from-array.ts:33-36 | an insert puts its value at the clamped index, shifts the rest up, and sends itself |
| FromArray.RemoveFirstAccepted | lib/list/from-array.ts:41-48 | a remove by predicate deletes the first accepted element, or nothing, and sends a remove with the index found, `-1` included |
| FromArray.MoveExchanges | lib/list/from-array.ts:49-55 | a move of two in-bounds positions exchanges them and sends itself; moving back restores the array |
| FromArray.Added | lib/list/from-array.ts:16-25 | `add(x)` applies `x` when it passes `isMutation` and otherwise pushes it, an `update` object included |
| FromArray.ArrayList.constructor | lib/list/from-array.ts:6-7 | the store wraps the caller's array itself and has sent nothing |
| FromArray.ArrayList.Length | lib/list/from-array.ts:13-15 | `length` is the length of what a subscriber mirrors |
| FromArray.ArrayList.Peek | lib/list/from-array.ts:10-12 | `peek(fn)` sees exactly what a subscriber mirrors |
| FromArray.ArrayList.ApplyMutation | lib/list/from-array.ts:32-56 | the array becomes what `Outcome` gives and exactly its mutations are sent; on a throw nothing changes. The mirror of the log stays equal to the array |
| FromArray.ArrayList.RemoveResolved | lib/list/from-array.ts:44-47 | delete at a non-negative index, then send a remove with that index |
| FromArray.ArrayList.Add | lib/list/from-array.ts:16-25 | `add(x)` is `applyMutation` of what `Added` picks; the mirror invariant is kept |
| FromBindable.FlushEvents | lib/list/from-bindable.ts:32-41 | `flushChanges` writes the snapshot to the bindable, then flushes its chain of ancestors followed by the bindable again |
| FromBindable.BindableNotifiedTwice | lib/list/from-bindable.ts:40 | that flush calls the bindable's own observers twice: once before and once after those of its ancestors |
| FromBindable.ChainThenFirst | lib/list/from-bindable.ts:40 | flushing a chain followed by its first entry calls that entry's observers at both ends |
| FromBindable.InsertSentAsPush | lib/list/from-bindable.ts:57-62 | an insert inside the list is sent as a push, so a subscriber applying it appends where the list inserted |
| FromBindable.DistinctInsert | lib/list/from-bindable.ts:60 | inserting a new wrapper keeps every wrapper listed once |
| FromBindable.DistinctDelete | lib/list/from-bindable.ts:77 | deleting keeps every wrapper listed once |
| FromBindable.DistinctSwap | lib/list/from-bindable.ts:87 | swapping keeps every wrapper listed once |
| FromBindable.FindItem | lib/list/from-bindable.ts:74 | `findIndex(li => li.value && mut.predicate(li.value))`: the first wrapper whose truthy value the predicate accepts, or `-1`. It throws a TypeError at the first hole reached, or at the first truthy value when `predicate` is a number |
| FromBindable.RemoveIndex | lib/list/from-bindable.ts:72-75 | where a remove points: `index` when the mutation has no `predicate`, else what `FindItem` finds |
| FromBindable.HoleFrom | lib/list/from-bindable.ts:79-81 | the first hole at or after a position, or the end of the list |
| FromBindable.Renumber | lib/list/from-bindable.ts:79-81 | the renumbering loop sets each wrapper's index to its position from the start up to the first hole. It throws a TypeError at that hole and leaves every other wrapper's index alone |
| FromBindable.BindableList.constructor | lib/list/from-bindable.ts:12-13 | the snapshot is the bindable's array, or a fresh empty one. There is one fresh wrapper per element, holding it and numbered by position. The log holds the flushes the wrappers' subscriptions deliver |
| FromBindable.BindableList.FlushChanges | lib/list/from-bindable.ts:32-41 | appends exactly the events of one `flushChanges` |
| FromBindable.BindableList.CreateItem | lib/list/from-bindable.ts:43-47 | a fresh wrapper over the shared snapshot; subscribing it flushes at once when its value is defined |
| FromBindable.BindableList.Length | lib/list/from-bindable.ts:20-22 | `length` is the number of wrappers, which equals the snapshot's length |
| FromBindable.BindableList.ApplyInsert | lib/list/from-bindable.ts:57-62 | both arrays get the new element at the clamped index and a push of the fresh wrapper is sent. Its index is the requested one, so an insert before an existing wrapper leaves the wrappers misnumbered |
| FromBindable.BindableList.ApplyPush | lib/list/from-bindable.ts:63-70 | both arrays get the element at the end, the new wrapper is numbered by its position, and numbering is kept |
| FromBindable.BindableList.ApplyRemove | lib/list/from-bindable.ts:71-84 | the index found is deleted from both arrays and the wrappers after it are renumbered up to the first hole. A flush and a remove with that index are sent. A throw while finding changes nothing; a throw while renumbering sends nothing |
| FromBindable.BindableList.RemoveFound | lib/list/from-bindable.ts:76-84 | the remove branch once the index is known, with the same end states |
| FromBindable.BindableList.DeleteItem | lib/list/from-bindable.ts:77-78 | the same position is deleted from both arrays; the wrappers before it keep their numbers |
| FromBindable.BindableList.ApplyMove | lib/list/from-bindable.ts:85-89 | both arrays swap the same two positions and the move is sent; a move of a wrapper leaves the wrappers misnumbered |
| FromBindable.BindableList.ApplyUpdate | lib/list/from-bindable.ts:90-99 | a hole throws a TypeError. Otherwise the wrapper's `update` assigns the callback's result onto the slot of its own index. A flush of the dirty nodes followed by the bindable is logged exactly when something was dirty. The arrays do not change, and neither does whether every wrapper holds its own position |
| FromBindable.BindableList.Add | lib/list/from-bindable.ts:22-24 | `add(m)` runs the branch for the mutation's type, with that branch's end state. An insert or a push adds to both arrays and sends a push of the new wrapper. A remove at a non-negative index found deletes it from both arrays and renumbers. Then a flush and the remove are logged. It throws when finding or renumbering throws. A move swaps both arrays and sends itself. An update leaves both arrays alone. A `reset` has no branch and changes nothing. The list and the snapshot keep equal lengths |
| LegacyList.AncestorsBelow | lib/list/index.ts:43-48 | every ancestor after the first is older than the node, so the bindable appears only at the head of its chain |
| LegacyList.FlushEvents | lib/list/index.ts:40-49 | the older `flushChanges` writes the snapshot, then flushes the chain with the bindable at its head only |
| LegacyList.BindableNotifiedOnce | lib/list/index.ts:48 | the older flush calls the bindable's observers once |
| LegacyList.RemoveIndex | lib/list/index.ts:131-134 | the older remove: a number under `predicate` is the index; a function finds the first accepted element or `-1`; a mutation with only `index` makes `findIndex` throw a TypeError |
| LegacyList.OutcomeMirrored | lib/list/index.ts:121-146 | whatever the older `applyMutation` sends, a subscriber applying it reaches the new array |
| LegacyList.AgreesExceptRemove | lib/list/index.ts:121-146 | the older and the newer `fromArray` agree on every mutation except a remove |
| LegacyList.RemoveByNumber | lib/list/index.ts:130-138 | a remove by number deletes at a non-negative number and sends a remove with that number under `predicate` |
| LegacyList.LegacyArrayList.constructor | lib/list/index.ts:98-100 | the store wraps the caller's array and has sent nothing |
| LegacyList.LegacyArrayList.Length | lib/list/index.ts:102-104 | `length` is the length of what a subscriber mirrors |
| LegacyList.LegacyArrayList.ApplyMutation | lib/list/index.ts:121-146 | the array becomes what the older `Outcome` gives and exactly its mutations are sent; the mirror invariant is kept |
| LegacyList.LegacyArrayList.RemoveResolved | lib/list/index.ts:135-138 | delete at a non-negative index, then send a remove with that index under `predicate` |
| LegacyList.LegacyArrayList.Add | lib/list/index.ts:105-114 | `add(x)` applies a mutation or pushes anything else, keeping the mirror invariant |
| LegacyList.LegacyItem.constructor | lib/list/index.ts:156-159 | the older item keeps its list, index and value and has an `undefined` parent |
| LegacyList.LegacyItem.Update | lib/list/index.ts:161-164 | `list[index] = newValue`; a TypeError when the item was built without a list |
| LegacyList.ItemRemoveIndex | lib/list/index.ts:80-83 | where the older `fromBindable` removes: a number under `predicate` is the index; a function finds the first accepted wrapper; a mutation with only `index` throws a TypeError |
| LegacyList.CreationEventsNext | lib/list/index.ts:24 | creating one more wrapper adds one older flush to the log when its value is defined, and nothing otherwise |
| LegacyList.LegacyBindableList.constructor | lib/list/index.ts:23-24 | the snapshot is the bindable's array or a fresh empty one. There is one fresh wrapper per element, numbered by position and built without a list. The log holds one older flush per defined element, which its subscription delivers at once (lib/list/index.ts:51-55) |
| LegacyList.LegacyBindableList.FlushChanges | lib/list/index.ts:40-49 | appends exactly the events of one older `flushChanges` |
| LegacyList.LegacyBindableList.CreateItem | lib/list/index.ts:51-55 | a fresh wrapper without a list; subscribing it flushes at once when its value is defined |
| LegacyList.LegacyBindableList.Length | lib/list/index.ts:28-30 | `length` equals the snapshot's length |
| LegacyList.LegacyBindableList.Add | lib/list/index.ts:64-95 | each mutation's end state: insert and push add to both arrays a new wrapper holding the element, with no array and with the requested index, and send a push of it. A remove deletes at the index found in both arrays, flushes, and sends the index under `predicate`. A move swaps both arrays. Reset and update do nothing |
| LegacyList.LegacyBindableList.RemoveResolved | lib/list/index.ts:83-87 | delete from both arrays at a non-negative index, flush, send the remove |
| LegacyList.AsListSource | lib/list/index.ts:12-18 | an array gets the older `fromArray` over that very array; anything else gets the older `fromBindable` over it |

## Left out

- RxJS: the `Subject`, `subscribe`, `startWith(resetItems(...))` and the pipe are not modelled; what is sent is kept as a log of mutations or events.
- Calling an observer's `next` is recorded as a notification in the order it happens; what the observer then does is not run.
- Functions the program is handed (lifted `valueFrom`, update callbacks, remove predicates, `peek` projections) are parameters whose results are given; their side effects are not modelled.
- Store.UpdateValueIn: a callback's result is taken to be a plain value (`Updater.Call` carries a `Plain`), so the recursive `updateValue` goes one level deep; a callback returning another function is not modelled.
- `asProxy`, `toString`, `next` of `Store`, the `Symbol.observable` method and `subscribe` of `Value` (which is `onChange(observer, false)`) are not modelled.
- `Value.observers` is modelled as always present; the observer list `unsubscribe` captured is the node's own list.
- Property names are strings; numeric property names and the `for-in` order over them are not modelled. `for-in` visits the source's own fields only (inherited enumerable fields are not modelled). The as-written `Merge.ForIn` takes the key order as a parameter; the corrected `Merge.MergeInto` takes each key in an order it does not fix, and its contract holds for every order.
- `Object.assign` from a string source (which copies its characters) is not modelled; a source that is not an object copies nothing.
- Merge.UpdatePartial: a truthy string source is treated as having no fields. In the program its for-in copies its index fields (`"0"`, `"1"`, ...) into the target and can return true. A function source's own fields are not modelled either.
- Merge.MergeObjects: the copy property says nothing about a pair whose source object the merge changed (a source that is also merged into as a target), since its fields may have changed before the pair is taken; and a nested target reached from two keys is merged with one of its sources only.
- Store.UpdateValueIn: a merge skips every target already merged into. This ends the cycles the program loops on (see Findings), and it also changes the result when two fields of the target share an object that is not cyclic. Target `{a: X, b: X}` with `X = {k: 0}` and source `{a: {k: 1}, b: {k: 2}}`: the program merges into `X` twice and ends with `X.k == 1`; the model merges into `X` once, with the pair popped first, and ends with `X.k == 2`.
- Store.Graph.UpdateValue: the same as `Store.UpdateValueIn`: a target shared by two fields is merged into once.
- Js.Get: a string's `length` and index fields, and a function's own fields, read as `undefined`. Only objects (`Ref`) have fields in the heap.
- Js.Get: inherited prototype properties are not modelled; they read as `undefined`. In the program `obj["constructor"]` and `obj["toString"]` are functions, as is `toFixed` on a number parent. So a property node named `toString` has a function as its value, and the merge skips such a key of the target (`typeof === "function"`). The same holds for `Store.ValueFrom`, `Store.Graph.InitValue`, `Merge.KeyStep` and `Merge.MergeKey`, which read fields through the same heap.
- Store.ValueFrom: a property under a string or a function value reads `undefined`, since those fields are not modelled.
- Store.Graph.InitValue: a property created under a string or a function value starts as `undefined`, for the same reason.
- Store.WriteBackIn: writing a property's value back into a function parent sets a field on the function in the program. The model keeps no fields on functions, so nothing is written and the field is lost to later reads.
- ListItems.Assign: `Object.assign` onto a function target sets its fields in the program; the model changes nothing. A function source's own fields are not copied. A string target returns the heap unchanged, while in the program a source field named after one of the string's indices (`Object.assign("ab", {0: "x"})`) throws a TypeError, since that index field is read-only.
- Store.Graph.constructor: a lifted `valueFrom` is a fixed function of its two arguments that returns only values already in the heap. A `valueFrom` that allocates a new object, or reads the heap, is not modelled.
- Numbers are integers; floating point, `NaN` and `-0` are not modelled.
- Array holes are read as `undefined`; a hole and a stored `undefined` are not told apart.
- A negative index assigned as an array property (`arr[-1] = v`) keeps no property; the model leaves the elements unchanged.
- FromBindable.BindableList.ApplyUpdate: `digest(listItem)` runs over the item's own properties in the graph that item belongs to; its dirty list is passed in as a parameter rather than computed.
- FromBindable.BindableList.constructor: a bindable value that is truthy but not an array is not modelled; the snapshot is an array or `undefined`.
- The bindable is an outside store: its `update(snapshot)` is logged as a write and is not run through `Store.Graph`.
- FromBindable.BindableList.Peek: its result is whatever `fn` returns, so it has no contract.
- The predicates of the older `fromBindable` see the wrapper; those of the newer one see the wrapper's value only.
- A wrapper's own observer list (the subscription `createItem` makes) is not kept; its effect at creation is logged.
- Strict-mode failures other than assigning a field of a primitive (class code) and `Object.assign` onto `undefined` or `null` are not modelled.

## Findings

| source | as written | input that shows it | evidently intended | confidence | as-written member | corrected member |
|---|---|---|---|---|---|---|
| update-partial.ts:12-16 | `if (!merged.add(targetValue)) continue;` (also inlined at lib/store.ts:431) tests the `Set` that `add` returns, which is always truthy, so an already merged target is never skipped | target `{self: <itself>, x: 1}`, source `{self: <itself>, x: 2}`: after `x` is copied, key `self` pushes the same pair again on every turn and the loop never ends. The fix also changes an acyclic input: with target `{a: X, b: X}`, `X = {k: 0}` and source `{a: {k: 1}, b: {k: 2}}`, the program merges into `X` twice and ends with `X.k == 1`, while the corrected merge takes `X` once and ends with `X.k == 2` | skip a target that was already merged into, so every target is merged into once and the loop ends | high, not executed | Merge.CyclicMergeNeverEnds | Merge.MergeObjects |
| lib/store.ts:79-80 | `observers.splice(observers.indexOf(observer), 1)` without the `idx >= 0` guard `dispose` has | observers `[a, b]`: unsubscribing `a` twice leaves `[]`, since the second `indexOf` is `-1` and `splice(-1, 1)` removes the last observer, `b` | remove the observer only when it is still listed | high, not executed | Store.UnsubscribeTwiceRemovesAnother | Store.Graph.Unsubscribe |
