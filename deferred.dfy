/**
 * The deferred wrapping view: a read-only view over a container that a
 * pending computation supplies later. Until the container arrives the view is
 * empty and its indexer refuses every access; when it arrives the view
 * announces the whole content as one Add at index 0 and from then on forwards
 * the container's own notifications verbatim.
 */
module Deferred {
  import opened Results
  import opened ChangeEvents
  import opened Observable

  /** How the computation that supplies the container ended. */
  datatype TaskOutcome<T(==)> =
    | RanToCompletion(result: ObservableCollection<T>)
    | Canceled
    | Faulted

  class DeferredWrappingObservableReadOnlyList<T(==)> {
    /** The container; null while the view is Pending. */
    var wrapped: ObservableCollection?<T>
    /**
     * Whether the continuation registered on the supplying computation has
     * run (the `_initialization` task has finished). It runs once, so a view
     * that settled without a container stays Pending for good.
     */
    var settled: bool
    /** Every notification the view has raised, in order. */
    var published: seq<Notification<T>>
    /** The container's content as of the last notification the view raised. */
    ghost var seen: seq<T>

    /**
     * Nothing is raised while Pending. Once Ready, the first notification is
     * the announcement of the content (an Add at 0 with no count signal), and
     * a subscriber that applies every raised change, in order, to an empty
     * list reconstructs `seen`.
     */
    ghost predicate Valid()
      reads this
    {
      && (wrapped != null ==> settled)
      && (wrapped == null ==> published == [] && seen == [])
      && (wrapped != null ==>
            && published != []
            && published[0].change.Add? && published[0].change.index == 0
            && !published[0].countChanged
            && AppliesAll(Changes(published), [])
            && ApplyAll(Changes(published), []) == seen)
    }

    /** A view whose container has not arrived yet. */
    constructor ()
      ensures Valid() && wrapped == null && published == [] && !settled
    {
      wrapped := null;
      settled := false;
      published := [];
      seen := [];
    }

    /** The content: the container's while Ready, empty while Pending. */
    function Items(): (r: seq<T>)
      reads this, wrapped
      ensures wrapped == null ==> r == []
      ensures wrapped != null ==> r == wrapped.items
    {
      if wrapped == null then [] else wrapped.items
    }

    function Count(): (n: nat)
      reads this, wrapped
      ensures n == |Items()|
      ensures wrapped == null ==> n == 0
    {
      if wrapped == null then 0 else |wrapped.items|
    }

    /**
     * The indexer. While Pending it fails with its own error, distinct from
     * the out-of-range one. Its range guard rejects only `index > Count()`;
     * an index equal to the count reaches the container's indexer, which
     * rejects it.
     */
    function At(index: int): (r: Result<T>)
      reads this, wrapped
      ensures wrapped == null ==> r == Err(NotInitializedYet)
      ensures wrapped != null ==> (r.Ok? <==> 0 <= index < Count())
      ensures r.Ok? ==> r.value == Items()[index]
      ensures wrapped != null && r.Err? ==> r.failure == ArgumentOutOfRange
    {
      if wrapped == null then Err(NotInitializedYet)
      else if index < 0 || index > Count() then Err(ArgumentOutOfRange)
      else wrapped.At(index)
    }

    /**
     * The continuation that runs once the supplying computation ends. On
     * success it records the container, with whatever content it has by then,
     * and announces that content as one Add at 0, without a count signal. A
     * cancelled computation leaves the view Pending, and so does a faulted
     * one: its exception ends the continuation before the container is
     * recorded.
     */
    method Complete(outcome: TaskOutcome<T>)
      requires Valid() && !settled
      modifies this
      ensures Valid() && settled
      ensures outcome.RanToCompletion? ==>
        && wrapped == outcome.result
        && published == [Notification(Add(outcome.result.items, 0), false)]
        && seen == outcome.result.items
      ensures !outcome.RanToCompletion? ==>
        wrapped == null && published == [] && seen == []
      ensures ApplyAll(Changes(published), []) == Items()
    {
      settled := true;
      match outcome {
        case RanToCompletion(c) =>
          wrapped := c;
          var announce := Notification(Add(c.items, 0), false);
          published := [announce];
          seen := c.items;
          assert Changes(published) == [announce.change];
          assert Apply(announce.change, []) == c.items;
        case Canceled =>
        case Faulted =>
      }
    }

    /**
     * The subscription to the container, active once Ready: notification `n`
     * of the container's latest change is raised again as it is.
     */
    method OnContainerChanged(n: Notification<T>)
      requires Valid() && wrapped != null
      requires Applies(n.change, seen) && Apply(n.change, seen) == wrapped.items
      modifies this
      ensures Valid()
      ensures wrapped == old(wrapped) && settled == old(settled) && seen == wrapped.items
      ensures published == old(published) + [n]
      ensures ApplyAll(Changes(published), []) == Items()
    {
      var es := Changes(published);
      ApplyAllSnoc(es, n.change, []);
      published := published + [n];
      seen := wrapped.items;
      assert Changes(published) == es + [n.change];
    }
  }
}
