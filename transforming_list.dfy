/**
 * The mapping view over an ObservableCollection or another view: it owns a
 * shadow list holding one transform result per source item and updates it in
 * place for each source event before re-publishing the event in its own terms.
 */
module TransformingList {
  import opened Results
  import opened ChangeEvents
  import opened Mapping

  class TransformingObservableReadOnlyList<S, R> {
    /** The item-mapping function; each call yields a new object. */
    const transform: S -> R
    /** The shadow list (_backingList). */
    var shadow: seq<Instance<R>>
    /** The identity the next transform call gives its result. */
    var nextId: nat
    /** The source's content as of the last event handled. */
    ghost var source: seq<S>

    /**
     * The shadow is the source mapped item by item, and every mapped object
     * in it was created by a distinct transform call.
     */
    ghost predicate Valid()
      reads this
    {
      Synced(shadow, source, transform, nextId)
    }

    /** Maps every current source item, in order, into a new shadow list. */
    constructor (items: seq<S>, transform: S -> R)
      ensures Valid()
      ensures this.transform == transform && source == items
      ensures nextId == |items|
    {
      this.transform := transform;
      var built: seq<Instance<R>> := [];
      var i := 0;
      while i < |items|
        invariant 0 <= i <= |items|
        invariant |built| == i
        invariant forall j :: 0 <= j < i ==> built[j] == Instance(transform(items[j]), j)
      {
        built := built + [Instance(transform(items[i]), i)];
        i := i + 1;
      }
      shadow, nextId := built, i;
      source := items;
    }

    /** The enumeration: the shadow list in order. */
    function Items(): (r: seq<Instance<R>>)
      reads this
      requires Valid()
      ensures |r| == |source|
      ensures forall i :: 0 <= i < |r| ==> r[i].value == transform(source[i])
      ensures r == shadow
    {
      shadow
    }

    function Count(): (n: nat)
      reads this
      requires Valid()
      ensures n == |source|
    {
      |shadow|
    }

    /** The indexer: the mapped object at `index`, or an out-of-range failure. */
    function At(index: int): (r: Result<Instance<R>>)
      reads this
      requires Valid()
      ensures r.Ok? <==> 0 <= index < |source|
      ensures r.Ok? ==> r.value.value == transform(source[index])
      ensures r.Ok? ==> r.value == shadow[index]
      ensures r.Err? ==> r.failure == ArgumentOutOfRange
    {
      ItemAt(shadow, index)
    }

    /**
     * The CollectionChanged handler for one source event. It updates the shadow
     * and returns the event it publishes and whether it raises a Count change.
     */
    method OnSourceChanged(e: Change<S>) returns (out: Change<Instance<R>>, sizeChanged: bool)
      requires Valid() && BulkAddOrSingle(e) && Applies(e, source)
      modifies this
      ensures Valid()
      ensures source == Apply(e, old(source))
      // the published event describes the shadow's own change, in its own indices
      ensures Applies(out, old(shadow)) && shadow == Apply(out, old(shadow))
      ensures ValuesOf(out) == MapChange(e, transform)
      ensures sizeChanged <==> (e.Add? || e.Remove? || e.Reset?)
      // the transform runs once per added item, once for Replace and never otherwise
      ensures nextId == old(nextId) + (if e.Add? then |e.items| else if e.Replace? then 1 else 0)
      ensures e.Add? ==> out == Add(Fresh(e.items, transform, old(nextId)), e.index)
      ensures e.Remove? ==> out == Remove([old(shadow)[e.index]], e.index)
      ensures e.Replace? ==>
        && out == Replace([shadow[e.index]], [old(shadow)[e.index]], e.index)
        && shadow[e.index].id == old(nextId) && shadow[e.index] != old(shadow)[e.index]
      ensures e.Move? ==>
        && out == Move([old(shadow)[e.oldIndex]], e.newIndex, e.oldIndex)
        && shadow[e.newIndex] == old(shadow)[e.oldIndex]
      ensures e.Reset? ==> out == Reset && shadow == []
    {
      match e {
        case Add(items, index) =>
          out := InsertMapped(items, index);
          sizeChanged := true;
        case Remove(items, index) =>
          assert e == Remove([items[0]], index);
          out := RemoveMapped(items[0], index);
          sizeChanged := true;
        case Replace(newItems, oldItems, index) =>
          assert e == Replace([newItems[0]], [oldItems[0]], index);
          out := ReplaceMapped(newItems[0], oldItems[0], index);
          sizeChanged := false;
        case Move(items, newIndex, oldIndex) =>
          assert e == Move([items[0]], newIndex, oldIndex);
          out := MoveMapped(items[0], newIndex, oldIndex);
          sizeChanged := false;
        case Reset =>
          shadow := [];
          source := [];
          out, sizeChanged := Reset, true;
      }
    }

    /**
     * The Add branch: one transform call per added item, the results inserted
     * at the source's index and published together.
     */
    method InsertMapped(xs: seq<S>, index: nat) returns (out: Change<Instance<R>>)
      requires Valid() && index <= |source|
      modifies this
      ensures Valid() && source == Apply(Add(xs, index), old(source))
      ensures out == Add(Fresh(xs, transform, old(nextId)), index)
      ensures Applies(out, old(shadow)) && shadow == Apply(out, old(shadow))
      ensures ValuesOf(out) == MapChange(Add(xs, index), transform)
      ensures nextId == old(nextId) + |xs|
    {
      AddStep(shadow, source, transform, nextId, xs, index);
      var newItems := Fresh(xs, transform, nextId);
      shadow := Insert(shadow, index, newItems);
      nextId := nextId + |xs|;
      out := Add(newItems, index);
      source := Apply(Add(xs, index), source);
    }

    /** The Remove branch: the stored object at the index is taken out and published. */
    method RemoveMapped(x: S, index: nat) returns (out: Change<Instance<R>>)
      requires Valid() && Applies(Remove([x], index), source)
      modifies this
      ensures Valid() && source == Apply(Remove([x], index), old(source))
      ensures index < |old(shadow)| && out == Remove([old(shadow)[index]], index)
      ensures Applies(out, old(shadow)) && shadow == Apply(out, old(shadow))
      ensures ValuesOf(out) == MapChange(Remove([x], index), transform)
      ensures nextId == old(nextId)
    {
      RemoveStep(shadow, source, transform, nextId, x, index);
      var oldItem := shadow[index];
      shadow := Delete(shadow, index, 1);
      out := Remove([oldItem], index);
      source := Apply(Remove([x], index), source);
    }

    /**
     * The Replace branch: one transform call, its result stored over the old
     * object, and both published.
     */
    method ReplaceMapped(x: S, y: S, index: nat) returns (out: Change<Instance<R>>)
      requires Valid() && Applies(Replace([x], [y], index), source)
      modifies this
      ensures Valid() && source == Apply(Replace([x], [y], index), old(source))
      ensures index < |old(shadow)| && |shadow| == |old(shadow)|
      ensures out == Replace([shadow[index]], [old(shadow)[index]], index)
      ensures shadow[index] == Instance(transform(x), old(nextId))
      ensures shadow[index] != old(shadow)[index]
      ensures Applies(out, old(shadow)) && shadow == Apply(out, old(shadow))
      ensures ValuesOf(out) == MapChange(Replace([x], [y], index), transform)
      ensures nextId == old(nextId) + 1
    {
      ReplaceStep(shadow, source, transform, nextId, x, y, index);
      var replacingItem := Instance(transform(x), nextId);
      var replacedItem := shadow[index];
      assert replacedItem.id < nextId;
      shadow := shadow[index := replacingItem];
      nextId := nextId + 1;
      out := Replace([replacingItem], [replacedItem], index);
      source := Apply(Replace([x], [y], index), source);
    }

    /** The Move branch: the stored object is taken out and inserted at the new index. */
    method MoveMapped(x: S, newIndex: nat, oldIndex: nat) returns (out: Change<Instance<R>>)
      requires Valid() && Applies(Move([x], newIndex, oldIndex), source)
      modifies this
      ensures Valid() && source == Apply(Move([x], newIndex, oldIndex), old(source))
      ensures oldIndex < |old(shadow)| && newIndex < |shadow|
      ensures out == Move([old(shadow)[oldIndex]], newIndex, oldIndex)
      ensures shadow[newIndex] == old(shadow)[oldIndex]
      ensures Applies(out, old(shadow)) && shadow == Apply(out, old(shadow))
      ensures ValuesOf(out) == MapChange(Move([x], newIndex, oldIndex), transform)
      ensures nextId == old(nextId)
    {
      MoveStep(shadow, source, transform, nextId, x, newIndex, oldIndex);
      var movedItem := shadow[oldIndex];
      out := Move([movedItem], newIndex, oldIndex);
      shadow := Delete(shadow, oldIndex, 1);
      shadow := Insert(shadow, newIndex, [movedItem]);
      assert shadow == Apply(out, old(shadow));
      source := Apply(Move([x], newIndex, oldIndex), source);
    }
  }
}
