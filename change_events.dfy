/**
 * The change notifications of an observable ordered container
 * (NotifyCollectionChangedEventArgs) and what each one does to the
 * container's content.
 */
module ChangeEvents {

  /**
   * One atomic change. Indices are positions in the coordinate space of the
   * container that raises the event.
   */
  datatype Change<T> =
    | Add(items: seq<T>, index: nat)                           // items inserted at index
    | Remove(items: seq<T>, index: nat)                        // items removed from index
    | Replace(newItems: seq<T>, oldItems: seq<T>, index: nat)  // oldItems at index exchanged for newItems
    | Move(items: seq<T>, newIndex: nat, oldIndex: nat)        // a run relocated from oldIndex to newIndex
    | Reset                                                    // content changed wholesale

  /** A change event together with whether a "Count" property change accompanies it. */
  datatype Notification<T> = Notification(change: Change<T>, countChanged: bool)

  /** The event's NewItems (empty where .NET leaves it null). */
  function NewItems<T>(e: Change<T>): seq<T>
  {
    match e
    case Add(items, _) => items
    case Replace(newItems, _, _) => newItems
    case Move(items, _, _) => items
    case _ => []
  }

  /** The event's OldItems (empty where .NET leaves it null). */
  function OldItems<T>(e: Change<T>): seq<T>
  {
    match e
    case Remove(items, _) => items
    case Replace(_, oldItems, _) => oldItems
    case Move(items, _, _) => items
    case _ => []
  }

  /** The events an ObservableCollection raises: exactly one item on each side it fills, none for Reset. */
  predicate SingleItem<T>(e: Change<T>)
  {
    match e
    case Add(items, _) => |items| == 1
    case Remove(items, _) => |items| == 1
    case Replace(newItems, oldItems, _) => |newItems| == 1 && |oldItems| == 1
    case Move(items, _, _) => |items| == 1
    case Reset => true
  }

  /**
   * The events a mapping view handles: a bulk Add (which a deferred view
   * raises when its container arrives) or a single-item event.
   */
  predicate BulkAddOrSingle<T>(e: Change<T>)
  {
    e.Add? || SingleItem(e)
  }

  /** Add and Remove events that carry at least one item (so that they change the count). */
  predicate Effective<T>(e: Change<T>)
  {
    (e.Add? || e.Remove?) ==> e.items != []
  }

  /**
   * `e` is a correct description of a change to content `s`: its indices are
   * in range and the items it says were removed, replaced or moved are there.
   */
  ghost predicate Applies<T>(e: Change<T>, s: seq<T>)
  {
    match e
    case Add(_, i) => i <= |s|
    case Remove(items, i) => i + |items| <= |s| && s[i..i + |items|] == items
    case Replace(_, oldItems, i) => i + |oldItems| <= |s| && s[i..i + |oldItems|] == oldItems
    case Move(items, n, o) =>
      && o + |items| <= |s| && s[o..o + |items|] == items
      && n + |items| <= |s|
    case Reset => true
  }

  /** `items` inserted into `s` at `i`. */
  function Insert<T>(s: seq<T>, i: nat, items: seq<T>): seq<T>
    requires i <= |s|
  {
    s[..i] + items + s[i..]
  }

  /** `s` without its `k` items starting at `i`. */
  function Delete<T>(s: seq<T>, i: nat, k: nat): seq<T>
    requires i + k <= |s|
  {
    s[..i] + s[i + k..]
  }

  /** Deleting one item and inserting another in its place is an update at that index. */
  lemma ReplaceOneIsUpdate<T>(s: seq<T>, k: nat, x: T)
    requires k < |s|
    ensures Insert(Delete(s, k, 1), k, [x]) == s[k := x]
  {
    var d := Delete(s, k, 1);
    assert d[..k] == s[..k] && d[k..] == s[k + 1..];
  }

  /**
   * The content after change `e` to content `s`: a Replace deletes the old
   * items and inserts the new ones in their place, a Move deletes the run and
   * inserts it at the new index, and a Reset is what Clear raises.
   */
  function Apply<T>(e: Change<T>, s: seq<T>): (r: seq<T>)
    requires Applies(e, s)
    ensures !e.Reset? ==> |r| + |OldItems(e)| == |s| + |NewItems(e)|
  {
    match e
    case Add(items, i) => Insert(s, i, items)
    case Remove(items, i) => Delete(s, i, |items|)
    case Replace(newItems, oldItems, i) => Insert(Delete(s, i, |oldItems|), i, newItems)
    case Move(items, n, o) => Insert(Delete(s, o, |items|), n, items)
    case Reset => []
  }

  /** Every event of `es`, in order, applies to the content left by the ones before it. */
  ghost predicate AppliesAll<T>(es: seq<Change<T>>, s: seq<T>)
    decreases |es|
  {
    es == [] || (Applies(es[0], s) && AppliesAll(es[1..], Apply(es[0], s)))
  }

  /** The content a subscriber reconstructs by applying `es` in order to `s`. */
  function ApplyAll<T>(es: seq<Change<T>>, s: seq<T>): seq<T>
    requires AppliesAll(es, s)
    decreases |es|
  {
    if es == [] then s else ApplyAll(es[1..], Apply(es[0], s))
  }

  /** The change events of a log of notifications. */
  function Changes<T>(ns: seq<Notification<T>>): (es: seq<Change<T>>)
    ensures |es| == |ns| && forall i :: 0 <= i < |ns| ==> es[i] == ns[i].change
  {
    if ns == [] then [] else [ns[0].change] + Changes(ns[1..])
  }

  /** Appending one event to a log extends the reconstruction by that event. */
  lemma {:induction false} ApplyAllSnoc<T>(es: seq<Change<T>>, e: Change<T>, s: seq<T>)
    requires AppliesAll(es, s) && Applies(e, ApplyAll(es, s))
    ensures AppliesAll(es + [e], s)
    ensures ApplyAll(es + [e], s) == Apply(e, ApplyAll(es, s))
    decreases |es|
  {
    if es == [] {
      assert es + [e] == [e];
      assert ([e])[1..] == [];
    } else {
      assert (es + [e])[0] == es[0];
      assert (es + [e])[1..] == es[1..] + [e];
      ApplyAllSnoc(es[1..], e, Apply(es[0], s));
    }
  }

  /**
   * A single-item Move puts the moved item at the new index and leaves every
   * other item in its relative order.
   */
  lemma MoveRelocates<T>(x: T, n: nat, o: nat, s: seq<T>)
    requires Applies(Move([x], n, o), s)
    ensures var t := Apply(Move([x], n, o), s);
      && |t| == |s| && t[n] == s[o] == x
      && t[..n] + t[n + 1..] == s[..o] + s[o + 1..]
      && multiset(t) == multiset(s)
  {
    var t := Apply(Move([x], n, o), s);
    var rest := s[..o] + s[o + 1..];
    assert s[o..o + 1] == [x];
    assert t == rest[..n] + [x] + rest[n..];
    assert t[..n] == rest[..n];
    assert t[n + 1..] == rest[n..];
    assert rest[..n] + rest[n..] == rest;
    assert s == s[..o] + [x] + s[o + 1..];
    calc {
      multiset(t);
      multiset(rest[..n]) + multiset([x]) + multiset(rest[n..]);
      multiset(rest) + multiset([x]);
      multiset(s[..o]) + multiset(s[o + 1..]) + multiset([x]);
      multiset(s);
    }
  }
}
