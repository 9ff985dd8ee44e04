/**
 * The mutable container every view is built on (.NET's ObservableCollection):
 * each mutator changes the content and raises exactly one change event,
 * with a "Count" property change when the count changes.
 */
module Observable {
  import opened Results
  import opened ChangeEvents

  /** Position of the first occurrence of `x` in `s`, or -1 (List.IndexOf). */
  function IndexOf<T(==)>(s: seq<T>, x: T): (r: int)
    ensures -1 <= r < |s|
    ensures r == -1 <==> x !in s
    ensures 0 <= r ==> s[r] == x && x !in s[..r]
  {
    if s == [] then -1
    else if s[0] == x then 0
    else
      var k := IndexOf(s[1..], x);
      if k == -1 then -1 else k + 1
  }

  class ObservableCollection<T(==)> {
    var items: seq<T>

    constructor (initial: seq<T>)
      ensures items == initial
    {
      items := initial;
    }

    /** The indexer getter. */
    function At(index: int): (r: Result<T>)
      reads this
      ensures r.Ok? <==> 0 <= index < |items|
      ensures r.Ok? ==> r.value == items[index]
      ensures r.Err? ==> r.failure == ArgumentOutOfRange
    {
      ItemAt(items, index)
    }

    /** Appends `x`; raises Add at the last index. */
    method Add(x: T) returns (n: Notification<T>)
      modifies this
      ensures items == old(items) + [x]
      ensures n == Notification(Change.Add([x], |old(items)|), true)
      ensures Applies(n.change, old(items)) && Apply(n.change, old(items)) == items
    {
      n := Notification(Change.Add([x], |items|), true);
      items := items + [x];
    }

    /** Inserts `x` at `index`, shifting the rest right; raises Add at `index`. */
    method Insert(index: int, x: T) returns (r: Result<Notification<T>>)
      modifies this
      ensures r.Ok? <==> 0 <= index <= |old(items)|
      ensures r.Err? ==> r.failure == ArgumentOutOfRange && items == old(items)
      ensures r.Ok? ==> items == old(items)[..index] + [x] + old(items)[index..]
      ensures r.Ok? ==> r.value == Notification(Change.Add([x], index), true)
      ensures r.Ok? ==> Applies(r.value.change, old(items)) && Apply(r.value.change, old(items)) == items
    {
      if 0 <= index <= |items| {
        r := Ok(Notification(Change.Add([x], index), true));
        items := items[..index] + [x] + items[index..];
      } else {
        r := Err(ArgumentOutOfRange);
      }
    }

    /** Removes the item at `index`; raises Remove carrying it. */
    method RemoveAt(index: int) returns (r: Result<Notification<T>>)
      modifies this
      ensures r.Ok? <==> 0 <= index < |old(items)|
      ensures r.Err? ==> r.failure == ArgumentOutOfRange && items == old(items)
      ensures r.Ok? ==> items == old(items)[..index] + old(items)[index + 1..]
      ensures r.Ok? ==> r.value == Notification(Change.Remove([old(items)[index]], index), true)
      ensures r.Ok? ==> Applies(r.value.change, old(items)) && Apply(r.value.change, old(items)) == items
    {
      if 0 <= index < |items| {
        r := Ok(Notification(Change.Remove([items[index]], index), true));
        items := items[..index] + items[index + 1..];
      } else {
        r := Err(ArgumentOutOfRange);
      }
    }

    /** Removes the first occurrence of `x`, if any; raises Remove at its index. */
    method Remove(x: T) returns (removed: bool, n: Option<Notification<T>>)
      modifies this
      ensures removed <==> x in old(items)
      ensures removed <==> n.Some?
      ensures !removed ==> items == old(items)
      ensures removed ==> var i := IndexOf(old(items), x);
        && old(items)[i] == x && x !in old(items)[..i]
        && items == old(items)[..i] + old(items)[i + 1..]
        && n.value == Notification(Change.Remove([x], i), true)
      ensures removed ==> Applies(n.value.change, old(items)) && Apply(n.value.change, old(items)) == items
    {
      var i := IndexOf(items, x);
      if i < 0 {
        removed, n := false, None;
      } else {
        removed, n := true, Some(Notification(Change.Remove([x], i), true));
        items := items[..i] + items[i + 1..];
      }
    }

    /**
     * Relocates the item at `oldIndex` to `newIndex`; raises Move and no count
     * change.
     */
    method Move(oldIndex: int, newIndex: int) returns (r: Result<Notification<T>>)
      requires 0 <= oldIndex < |items| ==> 0 <= newIndex < |items|
      modifies this
      ensures r.Ok? <==> 0 <= oldIndex < |old(items)|
      ensures r.Err? ==> r.failure == ArgumentOutOfRange && items == old(items)
      ensures r.Ok? ==> r.value == Notification(Change.Move([old(items)[oldIndex]], newIndex, oldIndex), false)
      ensures r.Ok? ==> |items| == |old(items)| && items[newIndex] == old(items)[oldIndex]
      ensures r.Ok? ==> Applies(r.value.change, old(items)) && Apply(r.value.change, old(items)) == items
    {
      if 0 <= oldIndex < |items| {
        var moved := items[oldIndex];
        var rest := items[..oldIndex] + items[oldIndex + 1..];
        r := Ok(Notification(Change.Move([moved], newIndex, oldIndex), false));
        assert items[oldIndex..oldIndex + 1] == [moved];
        items := rest[..newIndex] + [moved] + rest[newIndex..];
      } else {
        r := Err(ArgumentOutOfRange);
      }
    }

    /** The indexer setter: replaces the item at `index`; raises Replace and no count change. */
    method SetItem(index: int, x: T) returns (r: Result<Notification<T>>)
      modifies this
      ensures r.Ok? <==> 0 <= index < |old(items)|
      ensures r.Err? ==> r.failure == ArgumentOutOfRange && items == old(items)
      ensures r.Ok? ==> items == old(items)[index := x]
      ensures r.Ok? ==> r.value == Notification(Change.Replace([x], [old(items)[index]], index), false)
      ensures r.Ok? ==> Applies(r.value.change, old(items)) && Apply(r.value.change, old(items)) == items
    {
      if 0 <= index < |items| {
        r := Ok(Notification(Change.Replace([x], [items[index]], index), false));
        assert items[index..index + 1] == [items[index]];
        items := items[index := x];
        assert items == old(items)[..index] + [x] + old(items)[index + 1..];
      } else {
        r := Err(ArgumentOutOfRange);
      }
    }

    /** Removes every item; raises Reset and a count change. */
    method Clear() returns (n: Notification<T>)
      modifies this
      ensures items == []
      ensures n == Notification(Reset, true)
      ensures Apply(n.change, old(items)) == items
    {
      items := [];
      n := Notification(Reset, true);
    }
  }
}
