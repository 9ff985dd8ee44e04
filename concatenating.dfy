/**
 * The concatenation view: no storage of its own, only two operand views read
 * at access time. Events of the first operand are forwarded as they are;
 * events of the second are shifted by the first operand's count read when
 * the event is handled.
 */
module Concatenating {
  import opened Results
  import opened ChangeEvents

  /** The two operands' current contents. */
  datatype Concatenation<T> = Concatenation(first: seq<T>, second: seq<T>)
  {
    /** The enumeration: the first operand's items, then the second's. */
    function Items(): (r: seq<T>)
      ensures |r| == |first| + |second|
      ensures r[..|first|] == first && r[|first|..] == second
    {
      first + second
    }

    function Count(): (n: nat)
      ensures n == |Items()|
    {
      |first| + |second|
    }

    /**
     * The indexer. Its own guard rejects only `index > Count()`; an index equal
     * to the count falls through to the second operand, whose indexer rejects it.
     */
    function At(index: int): (r: Result<T>)
      ensures r.Ok? <==> 0 <= index < Count()
      ensures r.Ok? ==> r.value == Items()[index]
      ensures r.Err? ==> r.failure == ArgumentOutOfRange
    {
      if index < 0 || index > Count() then Err(ArgumentOutOfRange)
      else if index < |first| then Ok(first[index])
      else ItemAt(second, index - |first|)
    }

    /**
     * The handler for events of the second operand, run after it has changed:
     * the same event with every index moved past the first operand. Count is
     * raised for Add, Remove and Reset, for a Replace that changes the number
     * of items, and never for a Move.
     */
    function OnSecondChanged(e: Change<T>): (n: Notification<T>)
      ensures NewItems(n.change) == NewItems(e) && OldItems(n.change) == OldItems(e)
      ensures e.Add? ==> n.change == Add(e.items, e.index + |first|)
      ensures e.Remove? ==> n.change == Remove(e.items, e.index + |first|)
      ensures e.Replace? ==> n.change == Replace(e.newItems, e.oldItems, e.index + |first|)
      ensures e.Move? ==> n.change == Move(e.items, e.newIndex + |first|, e.oldIndex + |first|)
      ensures e.Reset? ==> n.change == Reset
      ensures n.countChanged <==> e.Add? || e.Remove? || e.Reset? || (e.Replace? && |e.newItems| != |e.oldItems|)
    {
      var offset := |first|;
      match e
      case Add(items, i) => Notification(Add(items, i + offset), true)
      case Remove(items, i) => Notification(Remove(items, i + offset), true)
      case Move(items, ni, oi) => Notification(Move(items, ni + offset, oi + offset), false)
      case Replace(newItems, oldItems, i) =>
        Notification(Replace(newItems, oldItems, i + offset), |newItems| != |oldItems|)
      case Reset => Notification(Reset, true)
    }
  }

  /**
   * The handler for events of the first operand: the event is forwarded as it
   * is. Count is raised for Add, Remove and Reset, and for a Move or Replace
   * only when its new and old item counts differ.
   */
  function OnFirstChanged<T>(e: Change<T>): (n: Notification<T>)
    ensures n.change == e
    ensures (e.Add? || e.Remove? || e.Reset?) ==> n.countChanged
    ensures (e.Move? || e.Replace?) ==> (n.countChanged <==> |NewItems(e)| != |OldItems(e)|)
  {
    match e
    case Add(_, _) => Notification(e, true)
    case Remove(_, _) => Notification(e, true)
    case Move(_, _, _) => Notification(e, |NewItems(e)| != |OldItems(e)|)
    case Replace(_, _, _) => Notification(e, |NewItems(e)| != |OldItems(e)|)
    case Reset => Notification(e, true)
  }

  /** Inserting inside the first part of a concatenation. */
  lemma InsertInFirst<T>(s1: seq<T>, s2: seq<T>, i: nat, items: seq<T>)
    requires i <= |s1|
    ensures Insert(s1 + s2, i, items) == Insert(s1, i, items) + s2
  {
    assert (s1 + s2)[..i] == s1[..i];
    assert (s1 + s2)[i..] == s1[i..] + s2;
  }

  /** Deleting inside the first part of a concatenation. */
  lemma DeleteInFirst<T>(s1: seq<T>, s2: seq<T>, i: nat, k: nat)
    requires i + k <= |s1|
    ensures (s1 + s2)[i..i + k] == s1[i..i + k]
    ensures Delete(s1 + s2, i, k) == Delete(s1, i, k) + s2
  {
    assert (s1 + s2)[..i] == s1[..i];
    assert (s1 + s2)[i + k..] == s1[i + k..] + s2;
  }

  /**
   * Inserting inside the second part `s2` of `s == s1 + s2`, at the index
   * shifted by the first part's length. The shifted index is a parameter of
   * its own so that the proof never builds an event around an arithmetic term.
   */
  lemma InsertInSecond<T>(s: seq<T>, s1: seq<T>, s2: seq<T>, i: nat, shifted: nat, items: seq<T>)
    requires s == s1 + s2 && shifted == i + |s1| && i <= |s2|
    ensures shifted <= |s|
    ensures Insert(s, shifted, items) == s1 + Insert(s2, i, items)
  {
    assert s[..shifted] == s1 + s2[..i];
    assert s[shifted..] == s2[i..];
  }

  /** Deleting inside the second part `s2` of `s == s1 + s2`, at the index shifted by the first part's length. */
  lemma DeleteInSecond<T>(s: seq<T>, s1: seq<T>, s2: seq<T>, i: nat, shifted: nat, k: nat)
    requires s == s1 + s2 && shifted == i + |s1| && i + k <= |s2|
    ensures shifted + k <= |s|
    ensures s[shifted..shifted + k] == s2[i..i + k]
    ensures Delete(s, shifted, k) == s1 + Delete(s2, i, k)
  {
    assert s[..shifted] == s1 + s2[..i];
    assert s[shifted + k..] == s2[i + k..];
  }

  /**
   * A first-operand event is forwarded unchanged, and it describes the
   * concatenation's change: applied to the old whole it gives the new whole.
   */
  lemma FirstForwarded<T>(e: Change<T>, s1: seq<T>, s2: seq<T>)
    requires Applies(e, s1) && !e.Reset?
    ensures OnFirstChanged(e).change == e
    ensures Applies(e, s1 + s2)
    ensures Apply(e, s1 + s2) == Apply(e, s1) + s2
  {
    match e
    case Add(items, i) =>
      InsertInFirst(s1, s2, i, items);
    case Remove(items, i) =>
      DeleteInFirst(s1, s2, i, |items|);
    case Replace(newItems, oldItems, i) =>
      DeleteInFirst(s1, s2, i, |oldItems|);
      InsertInFirst(Delete(s1, i, |oldItems|), s2, i, newItems);
    case Move(items, n, o) =>
      DeleteInFirst(s1, s2, o, |items|);
      InsertInFirst(Delete(s1, o, |items|), s2, n, items);
  }

  /**
   * A second-operand event, handled once that operand has changed, is shifted
   * by the first operand's count; applied to the old whole it gives the new
   * whole.
   */
  lemma SecondShifted<T>(e: Change<T>, s1: seq<T>, s2: seq<T>)
    requires Applies(e, s2) && !e.Reset?
    ensures var n := Concatenation(s1, Apply(e, s2)).OnSecondChanged(e);
      && Applies(n.change, s1 + s2)
      && Apply(n.change, s1 + s2) == s1 + Apply(e, s2)
  {
    var out := Concatenation(s1, Apply(e, s2)).OnSecondChanged(e).change;
    match e
    case Add(items, i) =>
      assert out == Add(items, out.index);
      AddInSecond(s1 + s2, s1, s2, items, i, out.index);
    case Remove(items, i) =>
      assert out == Remove(items, out.index);
      RemoveInSecond(s1 + s2, s1, s2, items, i, out.index);
    case Replace(newItems, oldItems, i) =>
      assert out == Replace(newItems, oldItems, out.index);
      ReplaceInSecond(s1 + s2, s1, s2, newItems, oldItems, i, out.index);
    case Move(items, n, o) =>
      assert out == Move(items, out.newIndex, out.oldIndex);
      MoveInSecond(s1 + s2, s1, s2, items, n, o, out.newIndex, out.oldIndex);
  }

  lemma AddInSecond<T>(s: seq<T>, s1: seq<T>, s2: seq<T>, items: seq<T>, i: nat, shifted: nat)
    requires s == s1 + s2 && shifted == i + |s1| && i <= |s2|
    ensures Applies(Add(items, shifted), s)
    ensures Apply(Add(items, shifted), s) == s1 + Apply(Add(items, i), s2)
  {
    InsertInSecond(s, s1, s2, i, shifted, items);
  }

  lemma RemoveInSecond<T>(s: seq<T>, s1: seq<T>, s2: seq<T>, items: seq<T>, i: nat, shifted: nat)
    requires s == s1 + s2 && shifted == i + |s1| && Applies(Remove(items, i), s2)
    ensures Applies(Remove(items, shifted), s)
    ensures Apply(Remove(items, shifted), s) == s1 + Apply(Remove(items, i), s2)
  {
    DeleteInSecond(s, s1, s2, i, shifted, |items|);
  }

  lemma ReplaceInSecond<T>(s: seq<T>, s1: seq<T>, s2: seq<T>, newItems: seq<T>, oldItems: seq<T>, i: nat, shifted: nat)
    requires s == s1 + s2 && shifted == i + |s1| && Applies(Replace(newItems, oldItems, i), s2)
    ensures Applies(Replace(newItems, oldItems, shifted), s)
    ensures Apply(Replace(newItems, oldItems, shifted), s) == s1 + Apply(Replace(newItems, oldItems, i), s2)
  {
    var d := Delete(s2, i, |oldItems|);
    DeleteInSecond(s, s1, s2, i, shifted, |oldItems|);
    InsertInSecond(s1 + d, s1, d, i, shifted, newItems);
  }

  lemma MoveInSecond<T>(s: seq<T>, s1: seq<T>, s2: seq<T>, items: seq<T>, n: nat, o: nat, shiftedN: nat, shiftedO: nat)
    requires s == s1 + s2 && shiftedN == n + |s1| && shiftedO == o + |s1|
    requires Applies(Move(items, n, o), s2)
    ensures Applies(Move(items, shiftedN, shiftedO), s)
    ensures Apply(Move(items, shiftedN, shiftedO), s) == s1 + Apply(Move(items, n, o), s2)
  {
    var d := Delete(s2, o, |items|);
    DeleteInSecond(s, s1, s2, o, shiftedO, |items|);
    InsertInSecond(s1 + d, s1, d, n, shiftedN, items);
  }

  /**
   * The size-changed signal of either handler is raised exactly when the
   * event changes the count (for Add and Remove events that carry items).
   */
  lemma SizeSignalExact<T>(e: Change<T>, s1: seq<T>, s2: seq<T>)
    requires Effective(e) && !e.Reset?
    ensures Applies(e, s1) ==>
      (OnFirstChanged(e).countChanged <==> |Apply(e, s1)| != |s1|)
    ensures Applies(e, s2) ==>
      (Concatenation(s1, Apply(e, s2)).OnSecondChanged(e).countChanged <==> |Apply(e, s2)| != |s2|)
  {
  }

  /** A Reset of either operand is forwarded as a Reset of the whole view, with a size change. */
  lemma ResetForwarded<T>(c: Concatenation<T>)
    ensures OnFirstChanged<T>(Reset) == Notification(Reset, true)
    ensures c.OnSecondChanged(Reset) == Notification(Reset, true)
  {
  }

  /**
   * Insert into the second operand at 1 while the first holds seven items: the
   * view publishes Add at 8.
   */
  lemma InsertIntoSecondScenario<T>(first: seq<T>, second: seq<T>, x: T)
    requires |first| == 7 && |second| == 5
    ensures var after := second[..1] + [x] + second[1..];
      Concatenation(first, after).OnSecondChanged(Add([x], 1)) == Notification(Add([x], 8), true)
  {
  }

  /** Which operand raised an event. */
  datatype Side = First | Second

  datatype Step<T> = Step(side: Side, change: Change<T>)

  /** The operand contents after one step. */
  function After<T>(c: Concatenation<T>, step: Step<T>): Concatenation<T>
    requires step.side == First ==> Applies(step.change, c.first)
    requires step.side == Second ==> Applies(step.change, c.second)
  {
    match step.side
    case First => Concatenation(Apply(step.change, c.first), c.second)
    case Second => Concatenation(c.first, Apply(step.change, c.second))
  }

  /** Each step is a correct, non-Reset event of its operand's content at that point. */
  ghost predicate Replayable<T>(c: Concatenation<T>, trace: seq<Step<T>>)
    decreases |trace|
  {
    trace == [] ||
    (&& !trace[0].change.Reset?
     && (trace[0].side == First ==> Applies(trace[0].change, c.first))
     && (trace[0].side == Second ==> Applies(trace[0].change, c.second))
     && Replayable(After(c, trace[0]), trace[1..]))
  }

  /** The operand contents after the whole trace. */
  function Final<T>(c: Concatenation<T>, trace: seq<Step<T>>): Concatenation<T>
    requires Replayable(c, trace)
    decreases |trace|
  {
    if trace == [] then c else Final(After(c, trace[0]), trace[1..])
  }

  /** The events the view publishes for the trace, each translated when it is handled. */
  function Published<T>(c: Concatenation<T>, trace: seq<Step<T>>): seq<Change<T>>
    requires Replayable(c, trace)
    decreases |trace|
  {
    if trace == [] then []
    else
      var next := After(c, trace[0]);
      var out := match trace[0].side
        case First => OnFirstChanged(trace[0].change).change
        case Second => next.OnSecondChanged(trace[0].change).change;
      [out] + Published(next, trace[1..])
  }

  /**
   * However the two operands' events interleave, a subscriber that applies the
   * view's published events in order to the view's initial content arrives at
   * the view's content after the last event.
   */
  lemma {:induction false} ReplayInLockstep<T>(c: Concatenation<T>, trace: seq<Step<T>>)
    requires Replayable(c, trace)
    ensures AppliesAll(Published(c, trace), c.Items())
    ensures ApplyAll(Published(c, trace), c.Items()) == Final(c, trace).Items()
    decreases |trace|
  {
    if trace != [] {
      var step, next := trace[0], After(c, trace[0]);
      var es := Published(c, trace);
      match step.side {
        case First => FirstForwarded(step.change, c.first, c.second);
        case Second => SecondShifted(step.change, c.first, c.second);
      }
      assert Applies(es[0], c.Items()) && Apply(es[0], c.Items()) == next.Items();
      ReplayInLockstep(next, trace[1..]);
      assert es[1..] == Published(next, trace[1..]);
    }
  }
}
