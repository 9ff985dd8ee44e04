/**
 * The older mapping view, over an ObservableCollection only. Its fill loop
 * and its handler are line for line those of the read-only list variant, over
 * a shadow list of its own (_backingCollection); here that shadow and handler
 * are a list variant the wrapper owns, so the behaviour is stated once.
 */
module TransformingWrapper {
  import opened Results
  import opened ChangeEvents
  import opened Mapping
  import opened TransformingList

  class TransformingObservableCollectionWrapper<S, R> {
    /** The shadow list together with its handler. */
    const backing: TransformingObservableReadOnlyList<S, R>

    ghost predicate Valid()
      reads this, backing
    {
      backing.Valid()
    }

    /** Maps every current item of the source collection, in order, into a new shadow list. */
    constructor (items: seq<S>, transform: S -> R)
      ensures Valid() && fresh(backing)
      ensures backing.transform == transform && backing.source == items
      ensures Values(backing.shadow) == MapSeq(items, transform)
    {
      backing := new TransformingObservableReadOnlyList(items, transform);
    }

    function Count(): (n: nat)
      reads this, backing
      requires Valid()
      ensures n == |backing.source|
    {
      backing.Count()
    }

    /** The indexer: the mapped object at `index`, or an out-of-range failure. */
    function At(index: int): (r: Result<Instance<R>>)
      reads this, backing
      requires Valid()
      ensures r.Ok? <==> 0 <= index < |backing.source|
      ensures r.Ok? ==> r.value.value == backing.transform(backing.source[index])
      ensures r.Ok? ==> r.value == backing.shadow[index]
      ensures r.Err? ==> r.failure == ArgumentOutOfRange
    {
      backing.At(index)
    }

    /**
     * The CollectionChanged handler: the shadow follows the source event and
     * the published event describes the shadow's own change. The source is
     * always an ObservableCollection, so every event carries one item.
     */
    method OnSourceChanged(e: Change<S>) returns (out: Change<Instance<R>>, sizeChanged: bool)
      requires Valid() && SingleItem(e) && Applies(e, backing.source)
      modifies backing
      ensures Valid()
      ensures backing.source == Apply(e, old(backing.source))
      ensures Applies(out, old(backing.shadow)) && backing.shadow == Apply(out, old(backing.shadow))
      ensures ValuesOf(out) == MapChange(e, backing.transform)
      ensures sizeChanged <==> (e.Add? || e.Remove? || e.Reset?)
      ensures backing.nextId == old(backing.nextId) + (if e.Add? then |e.items| else if e.Replace? then 1 else 0)
      ensures e.Add? ==> out == Add(Fresh(e.items, backing.transform, old(backing.nextId)), e.index)
      ensures e.Remove? ==> out == Remove([old(backing.shadow)[e.index]], e.index)
      ensures e.Replace? ==>
        && out == Replace([backing.shadow[e.index]], [old(backing.shadow)[e.index]], e.index)
        && backing.shadow[e.index].id == old(backing.nextId)
        && backing.shadow[e.index] != old(backing.shadow)[e.index]
      ensures e.Move? ==>
        && out == Move([old(backing.shadow)[e.oldIndex]], e.newIndex, e.oldIndex)
        && backing.shadow[e.newIndex] == old(backing.shadow)[e.oldIndex]
      ensures e.Reset? ==> out == Reset && backing.shadow == []
    {
      out, sizeChanged := backing.OnSourceChanged(e);
    }
  }
}
