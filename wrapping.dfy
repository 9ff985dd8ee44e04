/**
 * The identity view: a read-only list interface over one ObservableCollection.
 * Reads and mutators are delegated to the wrapped collection, and its change
 * events reach the view's subscribers unchanged because they subscribe to the
 * collection itself, so each mutator's result is the collection's own
 * notification.
 */
module Wrapping {
  import opened Results
  import opened ChangeEvents
  import opened Observable

  class WrappingObservableReadOnlyList<T(==)> {
    const wrapped: ObservableCollection<T>

    constructor (wrapped: ObservableCollection<T>)
      ensures this.wrapped == wrapped
    {
      this.wrapped := wrapped;
    }

    /** The enumeration: the wrapped items in order, each where the indexer finds it. */
    function Items(): (r: seq<T>)
      reads wrapped
      ensures |r| == |wrapped.items|
      ensures forall i :: 0 <= i < |r| ==> wrapped.At(i) == Ok(r[i])
    {
      wrapped.items
    }

    function Count(): (n: nat)
      reads wrapped
      ensures n == |Items()|
    {
      |wrapped.items|
    }

    /** The indexer: the wrapped collection's item, or its out-of-range failure. */
    function At(index: int): (r: Result<T>)
      reads wrapped
      ensures r.Ok? <==> 0 <= index < Count()
      ensures r.Ok? ==> r.value == Items()[index]
      ensures r.Err? ==> r.failure == ArgumentOutOfRange
    {
      wrapped.At(index)
    }

    function Contains(x: T): (b: bool)
      reads wrapped
      ensures b <==> IndexOf(x) != -1
    {
      x in wrapped.items
    }

    function IndexOf(x: T): (r: int)
      reads wrapped
      ensures r == -1 <==> x !in Items()
      ensures 0 <= r ==> r < Count() && Items()[r] == x && forall j :: 0 <= j < r ==> Items()[j] != x
    {
      Observable.IndexOf(wrapped.items, x)
    }

    /**
     * Copies the items, in order, into `a` from `index` on; a negative index or
     * an array without room for every item is refused before anything is
     * written.
     */
    method CopyTo(a: array<T>, index: int) returns (r: Result<()>)
      modifies a
      ensures r.Ok? <==> 0 <= index && index + Count() <= a.Length
      ensures r.Err? ==> a[..] == old(a[..])
      ensures r.Err? ==> r.failure == (if index < 0 then ArgumentOutOfRange else DestinationTooShort)
      ensures r.Ok? ==> a[..] == old(a[..index]) + Items() + old(a[index + Count()..])
    {
      if index < 0 {
        return Err(ArgumentOutOfRange);
      }
      if index + |wrapped.items| > a.Length {
        return Err(DestinationTooShort);
      }
      var items := wrapped.items;
      var i := 0;
      while i < |items|
        invariant 0 <= i <= |items|
        invariant a[..index] == old(a[..index])
        invariant a[index..index + i] == items[..i]
        invariant a[index + |items|..] == old(a[index + |items|..])
      {
        a[index + i] := items[i];
        i := i + 1;
      }
      assert a[..] == a[..index] + a[index..index + |items|] + a[index + |items|..];
      r := Ok(());
    }

    method Add(item: T) returns (n: Notification<T>)
      modifies wrapped
      ensures Items() == old(Items()) + [item]
      ensures n == Notification(Change.Add([item], Count() - 1), true)
      ensures Applies(n.change, old(Items())) && Apply(n.change, old(Items())) == Items()
    {
      n := wrapped.Add(item);
    }

    method Insert(index: int, item: T) returns (r: Result<Notification<T>>)
      modifies wrapped
      ensures r.Ok? <==> 0 <= index <= |old(Items())|
      ensures r.Err? ==> r.failure == ArgumentOutOfRange && Items() == old(Items())
      ensures r.Ok? ==> Items() == old(Items())[..index] + [item] + old(Items())[index..]
      ensures r.Ok? ==> r.value == Notification(Change.Add([item], index), true)
      ensures r.Ok? ==> Applies(r.value.change, old(Items())) && Apply(r.value.change, old(Items())) == Items()
    {
      r := wrapped.Insert(index, item);
    }

    method RemoveAt(index: int) returns (r: Result<Notification<T>>)
      modifies wrapped
      ensures r.Ok? <==> 0 <= index < |old(Items())|
      ensures r.Err? ==> r.failure == ArgumentOutOfRange && Items() == old(Items())
      ensures r.Ok? ==> Items() == old(Items())[..index] + old(Items())[index + 1..]
      ensures r.Ok? ==> r.value == Notification(Change.Remove([old(Items())[index]], index), true)
      ensures r.Ok? ==> Applies(r.value.change, old(Items())) && Apply(r.value.change, old(Items())) == Items()
    {
      r := wrapped.RemoveAt(index);
    }

    method Remove(item: T) returns (removed: bool, n: Option<Notification<T>>)
      modifies wrapped
      ensures removed <==> item in old(Items())
      ensures removed <==> n.Some?
      ensures !removed ==> Items() == old(Items())
      ensures removed ==> var i := Observable.IndexOf(old(Items()), item);
        && old(Items())[i] == item && item !in old(Items())[..i]
        && Items() == old(Items())[..i] + old(Items())[i + 1..]
        && n.value == Notification(Change.Remove([item], i), true)
      ensures removed ==> Applies(n.value.change, old(Items())) && Apply(n.value.change, old(Items())) == Items()
    {
      removed, n := wrapped.Remove(item);
    }

    method Move(oldIndex: int, newIndex: int) returns (r: Result<Notification<T>>)
      requires 0 <= oldIndex < Count() ==> 0 <= newIndex < Count()
      modifies wrapped
      ensures r.Ok? <==> 0 <= oldIndex < |old(Items())|
      ensures r.Err? ==> r.failure == ArgumentOutOfRange && Items() == old(Items())
      ensures r.Ok? ==> r.value == Notification(Change.Move([old(Items())[oldIndex]], newIndex, oldIndex), false)
      ensures r.Ok? ==> Count() == |old(Items())| && Items()[newIndex] == old(Items())[oldIndex]
      ensures r.Ok? ==> Applies(r.value.change, old(Items())) && Apply(r.value.change, old(Items())) == Items()
    {
      r := wrapped.Move(oldIndex, newIndex);
    }

    method Clear() returns (n: Notification<T>)
      modifies wrapped
      ensures Items() == [] && n == Notification(Reset, true)
    {
      n := wrapped.Clear();
    }
  }
}
