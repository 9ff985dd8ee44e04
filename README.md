# MuVaViMo views, modelled in Dafny

MuVaViMo provides live, read-only list views over .NET `ObservableCollection`s
and over one another. Each view raises `CollectionChanged`
(Add/Remove/Replace/Move/Reset, with items and indices) and
`PropertyChanged("Count")` so that a subscriber can follow it. This project
models the five view classes:

- **WrappingObservableReadOnlyList** (`wrapping.dfy`) is the identity view. Reads
  and mutators go to the wrapped collection. Its subscribers receive the
  collection's own notifications.
- **TransformingObservableReadOnlyList** (`transforming_list.dfy`) and
  **TransformingObservableCollectionWrapper** (`transforming_wrapper.dfy`) are
  the mapping views. Each owns a shadow list with one transform result per
  source item. They update that list in place for each source event and
  publish the event again in terms of the mapped objects.
- **ConcatenatingObservableReadOnlyList** (`concatenating.dfy`) stores nothing
  of its own. It forwards the first operand's events as they are. It shifts the
  second operand's indices by the first operand's count at the time the event
  is handled.
- **DeferredWrappingObservableReadOnlyList** (`deferred.dfy`) is empty until a
  pending computation supplies its container. Until then its indexer throws
  "not initialized". When the container arrives, the view announces the whole
  content as one Add at index 0 and from then on forwards the container's
  events.

The supporting modules are:

- `change_events.dfy` holds one change event (`Change`). Its meaning on a list
  is `Apply`, and `Applies` says when it is well formed for that list. A
  `Notification` pairs an event with the flag saying whether a Count change is
  raised with it.
- `observable_collection.dfy` is the .NET `ObservableCollection<T>` these views
  sit on. It is a class over a `seq` whose mutators return the notification
  they raise, and each mutator is proved to raise an event that describes its
  own change. It belongs to the .NET runtime, not to the repository, so it has
  no rows below. The wrapping view's rows state what it does through it.
- `mapping.dfy` holds the shadow list's invariant (`Synced`). A mapped object
  is an `Instance`: the value plus the identity of the transform call that made
  it. It also holds the commutation lemma behind every mapping step.
- `results.dfy` holds the exception outcomes of indexers and `CopyTo`.

The central properties are these:

- A subscriber that applies a view's published events in order keeps an exact
  copy of the view's content. For the deferred view and the concatenation this
  is proved over the whole event history (`Deferred...OnContainerChanged`,
  `Concatenating.ReplayInLockstep`); the concatenation's history must not
  contain a Reset. For the wrapping and mapping views it is proved one event
  at a time: each member ensures that its event, applied to the old content,
  gives the new content.
- The mapping views' shadow stays the source mapped item by item, each object
  made by a distinct transform call (`TransformingList...OnSourceChanged`).
- Indexers accept exactly the valid range, and each says which exception it
  throws otherwise. The concatenation's failure at index == Count is a
  caveat, listed under Left out.

## Model

| member | source | states |
|---|---|---|
| Wrapping.WrappingObservableReadOnlyList.constructor | MuVaViMo/WrappingObservableReadOnlyList.cs:24-27 | the view wraps exactly the given collection |
| Wrapping.WrappingObservableReadOnlyList.Items | MuVaViMo/WrappingObservableReadOnlyList.cs:90-93 | the enumeration has one item per wrapped item, each the one the indexer returns at that position |
| Wrapping.WrappingObservableReadOnlyList.Count | MuVaViMo/WrappingObservableReadOnlyList.cs:56 | the count is the number of wrapped items |
| Wrapping.WrappingObservableReadOnlyList.At | MuVaViMo/WrappingObservableReadOnlyList.cs:104 | succeeds exactly for 0 <= index < Count, yielding the item at that index; otherwise out of range |
| Wrapping.WrappingObservableReadOnlyList.Contains | MuVaViMo/WrappingObservableReadOnlyList.cs:58-61 | true exactly when IndexOf finds the item |
| Wrapping.WrappingObservableReadOnlyList.IndexOf | MuVaViMo/WrappingObservableReadOnlyList.cs:68-71 | -1 exactly when the item is absent; otherwise the index of its first occurrence |
| Wrapping.WrappingObservableReadOnlyList.CopyTo | MuVaViMo/WrappingObservableReadOnlyList.cs:63-66 | succeeds exactly when index >= 0 and the array has room from index on. On success the array is its old prefix, then the items in order, then its old suffix. On failure the array is unchanged and the error tells a negative index apart from a short array |
| Wrapping.WrappingObservableReadOnlyList.Add | MuVaViMo/WrappingObservableReadOnlyList.cs:51-54 | the item is appended. Subscribers get Add at the last index with a Count change, and that event applied to the old content gives the new content |
| Wrapping.WrappingObservableReadOnlyList.Insert | MuVaViMo/WrappingObservableReadOnlyList.cs:73-76 | succeeds exactly for 0 <= index <= Count and inserts the item there. It raises Add at index with a Count change, matching the change. Out of range changes nothing |
| Wrapping.WrappingObservableReadOnlyList.RemoveAt | MuVaViMo/WrappingObservableReadOnlyList.cs:78-81 | succeeds exactly for 0 <= index < Count and removes that item. It raises Remove of that item with a Count change, matching the change. Out of range changes nothing |
| Wrapping.WrappingObservableReadOnlyList.Remove | MuVaViMo/WrappingObservableReadOnlyList.cs:83-86 | reports removal exactly when the item was present. It removes the first occurrence and raises Remove at that index; otherwise it changes nothing and raises nothing |
| Wrapping.WrappingObservableReadOnlyList.Move | MuVaViMo/WrappingObservableReadOnlyList.cs:35-38 | succeeds exactly for a valid old index. The count is kept, the moved item sits at the new index, and it raises Move without a Count change, matching the change |
| Wrapping.WrappingObservableReadOnlyList.Clear | MuVaViMo/WrappingObservableReadOnlyList.cs:46-49 | the view is empty afterwards and Reset is raised with a Count change |
| TransformingList.TransformingObservableReadOnlyList.constructor | MuVaViMo/TransformingObservableReadOnlyList.cs:14-32 | the shadow list holds the transform of every source item in order, each from its own transform call |
| TransformingList.TransformingObservableReadOnlyList.Items | MuVaViMo/TransformingObservableReadOnlyList.cs:89-92 | the enumeration is the stored shadow list itself: one object per source item, the transform of the item at the same index |
| TransformingList.TransformingObservableReadOnlyList.Count | MuVaViMo/TransformingObservableReadOnlyList.cs:103 | the count is the source's count |
| TransformingList.TransformingObservableReadOnlyList.At | MuVaViMo/TransformingObservableReadOnlyList.cs:121 | succeeds exactly for 0 <= index < Count, with the stored object at that index, which holds the transform of the source item there; otherwise out of range |
| TransformingList.TransformingObservableReadOnlyList.OnSourceChanged | MuVaViMo/TransformingObservableReadOnlyList.cs:36-84 | after any Add, or any single-item event of another kind, the shadow is still the source mapped item by item, with distinct identities. The published event describes the shadow's own change and carries the mapped values of the source event. Count is raised exactly for Add, Remove and Reset. The transform runs once per added item, once for Replace, and never otherwise |
| TransformingList.TransformingObservableReadOnlyList.InsertMapped | MuVaViMo/TransformingObservableReadOnlyList.cs:43-49 | one new object per added item is inserted at the source's index and published as Add; the invariant is kept. This is the corrected branch of the finding below |
| TransformingList.TransformingObservableReadOnlyList.RemoveMapped | MuVaViMo/TransformingObservableReadOnlyList.cs:50-57 | the stored object at the index is removed and that same object is published as Remove; the invariant is kept and nothing is transformed |
| TransformingList.TransformingObservableReadOnlyList.ReplaceMapped | MuVaViMo/TransformingObservableReadOnlyList.cs:58-66 | a new object, distinct from the stored one, replaces it at the index. Both are published as Replace without a Count change, and the invariant is kept |
| TransformingList.TransformingObservableReadOnlyList.MoveMapped | MuVaViMo/TransformingObservableReadOnlyList.cs:67-74 | the stored object itself, not a new transform result, moves to the new index and is published as Move; the invariant is kept |
| TransformingWrapper.TransformingObservableCollectionWrapper.constructor | MuVaViMo/TransformingObservableCollectionWrapper.cs:14-19 | the shadow list is the transform of every source item in order |
| TransformingWrapper.TransformingObservableCollectionWrapper.Count | MuVaViMo/TransformingObservableCollectionWrapper.cs:83 | the count is the source's count |
| TransformingWrapper.TransformingObservableCollectionWrapper.At | MuVaViMo/TransformingObservableCollectionWrapper.cs:101 | succeeds exactly for 0 <= index < Count, with the stored object at that index, which holds the transform of the source item there; otherwise out of range |
| TransformingWrapper.TransformingObservableCollectionWrapper.OnSourceChanged | MuVaViMo/TransformingObservableCollectionWrapper.cs:21-64 | for every single-item event (the only kind its ObservableCollection source raises), the list variant's handler guarantees. The shadow stays in sync and the published event describes the shadow's change. The Count signal and the transform calls are as in the source: one call for Add and for Replace, none otherwise. Add publishes one fresh object. Remove publishes the stored object. Replace installs a new object, distinct from the one it replaces, and publishes both. Move relocates the stored object itself. Reset empties the shadow |
| Mapping.MapCommutes | MuVaViMo/TransformingObservableReadOnlyList.cs:41-83 | for every well-formed event, applying the mapped event to the mapped list gives the mapped new list. This is why a mapping view's republished events are correct |
| Mapping.AddStep | MuVaViMo/TransformingObservableReadOnlyList.cs:43-49 | inserting one fresh object per added item keeps the shadow synced and distinct, with the identity bound advanced by the number of items |
| Mapping.RemoveStep | MuVaViMo/TransformingObservableReadOnlyList.cs:50-57 | removing the stored object at the source's index keeps the shadow synced and distinct |
| Mapping.ReplaceStep | MuVaViMo/TransformingObservableReadOnlyList.cs:58-66 | overwriting the index with a fresh object keeps the shadow synced and distinct; the published Replace carries the new and the old object |
| Mapping.MoveStep | MuVaViMo/TransformingObservableReadOnlyList.cs:67-74 | taking out the stored object and inserting it at the new index keeps the shadow synced and distinct, with the object at the new index |
| Mapping.Fresh | MuVaViMo/TransformingObservableReadOnlyList.cs:44 | the objects created for an Add have the added items' mapped values in order, pairwise distinct identities, and identities not handed out before |
| Mapping.AddAsWrittenLosesBulkItems | MuVaViMo/TransformingObservableReadOnlyList.cs:43-45 | a two-item Add into an empty source leaves the Add branch as written with one mapped item where the source has two |
| Mapping.CorrectedAddKeepsBulkItems | MuVaViMo/TransformingObservableReadOnlyList.cs:43-45 | the same two-item Add, handled by the corrected branch, leaves both items mapped in order, equal to the source mapped |
| ChangeEvents.MoveRelocates | MuVaViMo/TransformingObservableReadOnlyList.cs:68-70 | removing then inserting one item puts it at the new index, keeps every other item in its relative order, and keeps the multiset of items |
| Concatenating.Concatenation.Items | MuVaViMo/ConcatenatingObservableReadOnlyList.cs:141-144 | the enumeration is the first operand's items followed by the second's |
| Concatenating.Concatenation.Count | MuVaViMo/ConcatenatingObservableReadOnlyList.cs:162 | the count is the length of the enumeration, the sum of the operands' counts |
| Concatenating.Concatenation.At | MuVaViMo/ConcatenatingObservableReadOnlyList.cs:168-177 | succeeds exactly for 0 <= index < Count, with the enumeration's item at that index; otherwise out of range. At index == Count the failure is the second operand's own (see Left out) |
| Concatenating.OnFirstChanged | MuVaViMo/ConcatenatingObservableReadOnlyList.cs:79-100 | the first operand's event is forwarded unchanged. Count is raised for every Add, Remove and Reset, and for a Move or Replace exactly when its new and old item counts differ |
| Concatenating.Concatenation.OnSecondChanged | MuVaViMo/ConcatenatingObservableReadOnlyList.cs:102-128 | the second operand's event keeps its kind and items, with every index shifted by the first operand's count at handling time. Count is raised for every Add, Remove and Reset, for a Replace exactly when its item counts differ, and never for a Move |
| Concatenating.FirstForwarded | MuVaViMo/ConcatenatingObservableReadOnlyList.cs:79-100 | a first-operand event is forwarded unchanged, and it is well formed for the whole view and turns the old whole into the new whole |
| Concatenating.SecondShifted | MuVaViMo/ConcatenatingObservableReadOnlyList.cs:102-128 | a second-operand event, shifted by the first operand's count, is well formed for the whole view and turns the old whole into the new whole |
| Concatenating.SizeSignalExact | MuVaViMo/ConcatenatingObservableReadOnlyList.cs:79-128 | for both handlers and every Add or Remove carrying items, and every Move and Replace, the Count change is raised exactly when the event changes the operand's length (empty Add and Remove events: see Left out) |
| Concatenating.ResetForwarded | MuVaViMo/ConcatenatingObservableReadOnlyList.cs:93-95 | a Reset of either operand is forwarded as a Reset with a Count change |
| Concatenating.InsertIntoSecondScenario | MuVaViMo/ConcatenatingObservableReadOnlyList.cs:106-109 | inserting at 1 in the second operand while the first holds seven items publishes Add at 8 with a Count change |
| Concatenating.ReplayInLockstep | MuVaViMo/ConcatenatingObservableReadOnlyList.cs:79-128 | for any interleaving of non-Reset events from both operands, applying the published events in order to the initial whole gives the final whole |
| Deferred.DeferredWrappingObservableReadOnlyList.constructor | MuVaViMo/DeferredWrappingObservableReadOnlyList.cs:31-45 | a new view is Pending: no container, nothing raised, and its continuation has not run |
| Deferred.DeferredWrappingObservableReadOnlyList.Items | MuVaViMo/DeferredWrappingObservableReadOnlyList.cs:95-98 | the enumeration is empty while Pending and the container's items once Ready |
| Deferred.DeferredWrappingObservableReadOnlyList.Count | MuVaViMo/DeferredWrappingObservableReadOnlyList.cs:91 | the count is the enumeration's length, 0 while Pending |
| Deferred.DeferredWrappingObservableReadOnlyList.At | MuVaViMo/DeferredWrappingObservableReadOnlyList.cs:109-117 | while Pending it always fails with "not initialized". Once Ready it succeeds exactly for 0 <= index < Count with the container's item, and is out of range otherwise |
| Deferred.DeferredWrappingObservableReadOnlyList.Complete | MuVaViMo/DeferredWrappingObservableReadOnlyList.cs:33-44 | it runs only on a view whose continuation has not run yet, and leaves the view settled. On success it records the container and raises exactly one Add of its whole content at 0, without a Count change. Cancelled and faulted computations leave the view Pending for good: a settled view cannot be completed again, and no other member sets the container. In every case the raised events rebuild the content |
| Deferred.DeferredWrappingObservableReadOnlyList.OnContainerChanged | MuVaViMo/DeferredWrappingObservableReadOnlyList.cs:68-73 | a container notification is raised again unchanged, and the view's whole event history, applied to an empty list, still gives the container's content |

## Left out

- The static `Concatenate` factory methods of `ConcatenatingObservableReadOnlyList` (MuVaViMo/ConcatenatingObservableReadOnlyList.cs:181-238), the extension factories (`ReadOnlyObservableCollectionExtensions`, `ObservableCollectionExtensions`) and the read-only-collection adapter are not part of this model. They only construct the views above.
- The scheduler overloads of the constructors run the same handlers on an `IScheduler`. Scheduling, threads and the ordering of deferred handler runs are not modelled; each handler runs atomically when its event arrives.
- The Task plumbing (`ContinueWith`, `await`, `InitializedCollectionAsync`, `TaskExtensions`) becomes one `Complete` call carrying the computation's outcome. Waiting for initialization is not modelled.
- Events and subscriptions themselves (adding handlers, several subscribers, null handlers) are not modelled. A handler is a call that returns what it raises.
- `PropertyChanged` events other than "Count" that the wrapping and deferred views forward from the container are not modelled.
- The non-generic `GetEnumerator` overloads and enumerator invalidation are not modelled; an enumeration is the sequence it yields.
- The WPF demo is not part of this model.
- `IObservableReadOnlyList` is a covariant marker interface with no behaviour; the views are modelled as separate classes without it.
- The `default` branches of both concatenation handlers, which throw on an unknown action, cannot arise because `Change` has exactly the five actions.
- A mapping view over a concatenation is not claimed to stay in lockstep across a Reset of one operand: the forwarded Reset clears the whole shadow while the other operand keeps its items.
- TransformingList.TransformingObservableReadOnlyList.OnSourceChanged: requires Remove, Replace and Move events to carry one item each, which is what the source's comment assumes of an `ObservableCollection` source. Adds of any size are handled as the finding below corrects them.
- TransformingWrapper.TransformingObservableCollectionWrapper.OnSourceChanged: requires single-item events, Adds included. Its only source is an `ObservableCollection`, which raises nothing else. Its Add branch (MuVaViMo/TransformingObservableCollectionWrapper.cs:29) maps only `NewItems[0]`, like the list variant's, so it would share the finding below if it received a bulk Add.
- TransformingList.TransformingObservableReadOnlyList.OnSourceChanged: the handler's `default` branch, which throws on an unknown action, cannot arise because `Change` has exactly the five actions.
- TransformingList.TransformingObservableReadOnlyList.OnSourceChanged: the purity of `transform` is assumed. A transform with side effects, or one that throws, is not modelled.
- Concatenating.Concatenation.At: the operands are modelled as sequences, so the failure at index == Count is always out of range. In the source that index reaches the second operand's own indexer, so the failure is whatever that indexer throws. For a Pending deferred view as second operand, it is "not initialized".
- Concatenating.SizeSignalExact: excludes Add and Remove events with no items. For those, both handlers raise Count although the length does not change (`OnFirstChanged` and `OnSecondChanged` state that every Add and Remove raises it). A deferred operand whose container arrives empty raises such an Add.
- Concatenating.ReplayInLockstep: traces containing Reset are excluded. A forwarded Reset clears a subscriber's copy while the other operand keeps its items, so a replay does not rebuild the content across a Reset.
- Wrapping.WrappingObservableReadOnlyList.Move: requires a valid new index whenever the old index is valid. .NET throws only after removing the item in that case, and the state it leaves is not modelled.
- Wrapping.WrappingObservableReadOnlyList.Clear: does not state that the raised Reset rebuilds the content, because Reset carries no items.
- Deferred.DeferredWrappingObservableReadOnlyList.OnContainerChanged: requires that the notification describes the container's latest change, which the .NET collection guarantees for its own events.
- Deferred.DeferredWrappingObservableReadOnlyList.Complete: a container mutated between its arrival and the announcement is not modelled; the announcement carries the content as of `Complete`.

## Findings

| source | as written | input that shows it | evidently intended | confidence | as-written member | corrected member |
|---|---|---|---|---|---|---|
| MuVaViMo/TransformingObservableReadOnlyList.cs:43-45 | the Add branch maps only `NewItems[0]`, on the stated belief that every source event carries one item. An Add with no items makes it throw (`Mapping.AddAsWritten` yields None). A deferred view whose container arrives empty raises such an Add before it subscribes to its container, so the exception ends that subscription too; this is not modelled | a deferred view whose container holds two items announces them as one Add of two items at 0; a transforming view subscribed to it then holds one mapped item while its source holds two | every added item is mapped, as the test `DeferredLinkedToTransforming_AwaitInitialization_TransformingHasAllInitializedElements` (MuVaViMo.Tests/DeferredWrappingObservableReadOnlyListTests.cs:793-811) expects | not executed | Mapping.AddAsWrittenLosesBulkItems | Mapping.AddStep |
