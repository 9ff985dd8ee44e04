/**
 * What the two transforming views share: mapped instances with an identity,
 * item-by-item mapping of content and of change events, and the fact that
 * mapping commutes with applying an event.
 */
module Mapping {
  import opened Results
  import opened ChangeEvents

  /**
   * One object produced by a call of the transform: its value and an identity
   * that no other call produces.
   */
  datatype Instance<R> = Instance(value: R, id: nat)

  function Value<R>(x: Instance<R>): R
  {
    x.value
  }

  /** `s` mapped item by item, in order. */
  function MapSeq<S, R>(s: seq<S>, f: S -> R): (r: seq<R>)
    ensures |r| == |s|
    ensures forall i :: 0 <= i < |s| ==> r[i] == f(s[i])
  {
    seq(|s|, i requires 0 <= i < |s| => f(s[i]))
  }

  /** The values of a sequence of instances, identities dropped. */
  function Values<R>(xs: seq<Instance<R>>): seq<R>
  {
    MapSeq(xs, Value)
  }

  /** The same event with every item mapped: same kind, same indices. */
  function MapChange<S, R>(e: Change<S>, f: S -> R): Change<R>
  {
    match e
    case Add(items, i) => Add(MapSeq(items, f), i)
    case Remove(items, i) => Remove(MapSeq(items, f), i)
    case Replace(newItems, oldItems, i) => Replace(MapSeq(newItems, f), MapSeq(oldItems, f), i)
    case Move(items, n, o) => Move(MapSeq(items, f), n, o)
    case Reset => Reset
  }

  /** An event about instances with identities dropped. */
  function ValuesOf<R>(e: Change<Instance<R>>): Change<R>
  {
    MapChange(e, Value)
  }

  /** No two instances share an identity. */
  ghost predicate DistinctIds<R>(xs: seq<Instance<R>>)
  {
    forall i, j :: 0 <= i < j < |xs| ==> xs[i].id != xs[j].id
  }

  /** Every identity in `xs` was handed out before `bound`. */
  ghost predicate IdsBelow<R>(xs: seq<Instance<R>>, bound: nat)
  {
    forall i :: 0 <= i < |xs| ==> xs[i].id < bound
  }

  /** Mapping distributes over a splice of three pieces. */
  lemma MapSplice<S, R>(a: seq<S>, b: seq<S>, c: seq<S>, f: S -> R)
    ensures MapSeq(a + b + c, f) == MapSeq(a, f) + MapSeq(b, f) + MapSeq(c, f)
  {
    var l, r := MapSeq(a + b + c, f), MapSeq(a, f) + MapSeq(b, f) + MapSeq(c, f);
    forall j | 0 <= j < |l| ensures l[j] == r[j] {
      if j < |a| {
      } else if j < |a| + |b| {
        assert (a + b + c)[j] == b[j - |a|];
      } else {
        assert (a + b + c)[j] == c[j - |a| - |b|];
      }
    }
  }

  /** Mapping commutes with taking a slice. */
  lemma MapSlice<S, R>(s: seq<S>, f: S -> R, i: nat, j: nat)
    requires i <= j <= |s|
    ensures MapSeq(s[i..j], f) == MapSeq(s, f)[i..j]
    ensures MapSeq(s[..i], f) == MapSeq(s, f)[..i]
    ensures MapSeq(s[j..], f) == MapSeq(s, f)[j..]
  {
  }

  /** Mapping commutes with inserting a run. */
  lemma MapInsert<S, R>(s: seq<S>, i: nat, items: seq<S>, f: S -> R)
    requires i <= |s|
    ensures MapSeq(Insert(s, i, items), f) == Insert(MapSeq(s, f), i, MapSeq(items, f))
  {
    MapSlice(s, f, i, i);
    MapSplice(s[..i], items, s[i..], f);
  }

  /** Mapping commutes with deleting a run. */
  lemma MapDelete<S, R>(s: seq<S>, i: nat, k: nat, f: S -> R)
    requires i + k <= |s|
    ensures MapSeq(s, f)[i..i + k] == MapSeq(s[i..i + k], f)
    ensures MapSeq(Delete(s, i, k), f) == Delete(MapSeq(s, f), i, k)
  {
    MapSlice(s, f, i, i + k);
    MapSplice(s[..i], [], s[i + k..], f);
    assert s[..i] + [] + s[i + k..] == Delete(s, i, k);
  }

  /**
   * Mapping commutes with every event: applying the mapped event to the mapped
   * content gives the mapped new content. This is what keeps a shadow sequence
   * in lockstep with its source, for events with any number of items.
   */
  lemma MapCommutes<S, R>(e: Change<S>, s: seq<S>, f: S -> R)
    requires Applies(e, s)
    ensures Applies(MapChange(e, f), MapSeq(s, f))
    ensures Apply(MapChange(e, f), MapSeq(s, f)) == MapSeq(Apply(e, s), f)
  {
    match e
    case Add(items, i) =>
      MapInsert(s, i, items, f);
    case Remove(items, i) =>
      MapDelete(s, i, |items|, f);
    case Replace(newItems, oldItems, i) =>
      MapDelete(s, i, |oldItems|, f);
      MapInsert(Delete(s, i, |oldItems|), i, newItems, f);
    case Move(items, n, o) =>
      MapDelete(s, o, |items|, f);
      MapInsert(Delete(s, o, |items|), n, items, f);
    case Reset =>
  }

  /** Inserting an instance whose identity is new keeps identities distinct. */
  lemma InsertKeepsDistinct<R>(xs: seq<Instance<R>>, k: nat, x: Instance<R>)
    requires k <= |xs| && DistinctIds(xs)
    requires forall j :: 0 <= j < |xs| ==> xs[j].id != x.id
    ensures DistinctIds(xs[..k] + [x] + xs[k..])
  {
    var ys := xs[..k] + [x] + xs[k..];
    forall i, j | 0 <= i < j < |ys| ensures ys[i].id != ys[j].id {
      if i < k && j > k { assert ys[j] == xs[j - 1]; }
      else if i > k { assert ys[i] == xs[i - 1] && ys[j] == xs[j - 1]; }
    }
  }

  /** Removing one instance keeps identities distinct. */
  lemma RemoveKeepsDistinct<R>(xs: seq<Instance<R>>, k: nat)
    requires k < |xs| && DistinctIds(xs)
    ensures DistinctIds(xs[..k] + xs[k + 1..])
    ensures var ys := xs[..k] + xs[k + 1..]; forall j :: 0 <= j < |ys| ==> ys[j].id != xs[k].id
  {
    var ys := xs[..k] + xs[k + 1..];
    forall i, j | 0 <= i < j < |ys| ensures ys[i].id != ys[j].id {
      if j >= k { assert ys[j] == xs[j + 1]; }
      if i >= k { assert ys[i] == xs[i + 1]; }
    }
    forall j | 0 <= j < |ys| ensures ys[j].id != xs[k].id {
      if j >= k { assert ys[j] == xs[j + 1]; }
    }
  }

  /** Storing an object with a fresh identity over one entry keeps identities distinct and bounded. */
  lemma FreshUpdateKeepsDistinct<R>(xs: seq<Instance<R>>, k: nat, x: Instance<R>, bound: nat)
    requires DistinctIds(xs) && IdsBelow(xs, bound) && k < |xs| && x.id == bound
    ensures DistinctIds(xs[k := x]) && IdsBelow(xs[k := x], bound + 1)
  {
  }

  /**
   * A shadow list is in sync with a source: it is the source mapped item by
   * item, and every object in it came from a distinct transform call made
   * before the counter reached `bound`.
   */
  ghost predicate Synced<S, R>(shadow: seq<Instance<R>>, source: seq<S>, f: S -> R, bound: nat)
  {
    && Values(shadow) == MapSeq(source, f)
    && DistinctIds(shadow)
    && IdsBelow(shadow, bound)
  }

  /**
   * The objects the corrected Add branch creates for `xs`: one transform call
   * per item, in order, the calls numbered from `bound` on.
   */
  function Fresh<S, R>(xs: seq<S>, f: S -> R, bound: nat): (r: seq<Instance<R>>)
    ensures Values(r) == MapSeq(xs, f)
    ensures DistinctIds(r)
    ensures forall i :: 0 <= i < |r| ==> bound <= r[i].id < bound + |xs|
  {
    seq(|xs|, i requires 0 <= i < |xs| => Instance(f(xs[i]), bound + i))
  }

  /**
   * Inserting objects whose identities all lie in [bound, bound + |ys|) into a
   * list whose identities lie below `bound` keeps identities distinct.
   */
  lemma InsertFreshKeepsDistinct<R>(xs: seq<Instance<R>>, k: nat, ys: seq<Instance<R>>, bound: nat)
    requires k <= |xs| && DistinctIds(xs) && IdsBelow(xs, bound) && DistinctIds(ys)
    requires forall i :: 0 <= i < |ys| ==> bound <= ys[i].id < bound + |ys|
    ensures DistinctIds(Insert(xs, k, ys)) && IdsBelow(Insert(xs, k, ys), bound + |ys|)
  {
    var zs := Insert(xs, k, ys);
    forall i, j | 0 <= i < j < |zs| ensures zs[i].id != zs[j].id {
      if j < k {
        assert zs[i] == xs[i] && zs[j] == xs[j];
      } else if j < k + |ys| {
        assert zs[j] == ys[j - k];
        if i >= k { assert zs[i] == ys[i - k]; }
        else { assert zs[i] == xs[i]; }
      } else {
        assert zs[j] == xs[j - |ys|];
        if i >= k + |ys| { assert zs[i] == xs[i - |ys|]; }
        else if i >= k { assert zs[i] == ys[i - k]; }
        else { assert zs[i] == xs[i]; }
      }
    }
    forall i | 0 <= i < |zs| ensures zs[i].id < bound + |ys| {
      if i < k { assert zs[i] == xs[i]; }
      else if i < k + |ys| { assert zs[i] == ys[i - k]; }
      else { assert zs[i] == xs[i - |ys|]; }
    }
  }

  /**
   * Source Add of `xs` at `k`: inserting one new object per added item at `k`
   * keeps the shadow in sync, and the published Add carries those objects.
   */
  lemma AddStep<S, R>(shadow: seq<Instance<R>>, source: seq<S>, f: S -> R, bound: nat, xs: seq<S>, k: nat)
    requires Synced(shadow, source, f, bound) && k <= |source|
    ensures var out := Add(Fresh(xs, f, bound), k);
      && Applies(out, shadow)
      && ValuesOf(out) == MapChange(Add(xs, k), f)
      && Synced(Apply(out, shadow), Apply(Add(xs, k), source), f, bound + |xs|)
  {
    var e, ys := Add(xs, k), Fresh(xs, f, bound);
    var out := Add(ys, k);
    MapCommutes(e, source, f);
    MapCommutes(out, shadow, Value);
    InsertFreshKeepsDistinct(shadow, k, ys, bound);
  }

  /**
   * Source Remove at `k`: removing the stored object at `k` keeps the shadow
   * in sync, and the published Remove carries that stored object.
   */
  lemma RemoveStep<S, R>(shadow: seq<Instance<R>>, source: seq<S>, f: S -> R, bound: nat, x: S, k: nat)
    requires Synced(shadow, source, f, bound) && Applies(Remove([x], k), source)
    ensures k < |shadow|
    ensures var out := Remove([shadow[k]], k);
      && Applies(out, shadow)
      && ValuesOf(out) == MapChange(Remove([x], k), f)
      && Synced(Apply(out, shadow), Apply(Remove([x], k), source), f, bound)
  {
    var e, out := Remove([x], k), Remove([shadow[k]], k);
    assert source[k] == x by { assert source[k..k + 1][0] == source[k]; }
    assert Values(shadow)[k] == f(x);
    assert shadow[k..k + 1] == [shadow[k]];
    MapCommutes(e, source, f);
    MapCommutes(out, shadow, Value);
    RemoveKeepsDistinct(shadow, k);
  }

  /**
   * Source Replace at `k` by `x`: storing a new object for `x` at `k` keeps
   * the shadow in sync, and the published Replace carries the new object and
   * the stored one it replaced.
   */
  lemma ReplaceStep<S, R>(shadow: seq<Instance<R>>, source: seq<S>, f: S -> R, bound: nat, x: S, y: S, k: nat)
    requires Synced(shadow, source, f, bound) && Applies(Replace([x], [y], k), source)
    ensures k < |shadow|
    ensures var out := Replace([Instance(f(x), bound)], [shadow[k]], k);
      && Applies(out, shadow)
      && ValuesOf(out) == MapChange(Replace([x], [y], k), f)
      && Apply(out, shadow) == shadow[k := Instance(f(x), bound)]
      && Synced(Apply(out, shadow), Apply(Replace([x], [y], k), source), f, bound + 1)
  {
    var inst := Instance(f(x), bound);
    var e, out := Replace([x], [y], k), Replace([inst], [shadow[k]], k);
    assert source[k] == y by { assert source[k..k + 1][0] == source[k]; }
    assert Values(shadow)[k] == f(y);
    assert shadow[k..k + 1] == [shadow[k]];
    MapCommutes(e, source, f);
    MapCommutes(out, shadow, Value);
    ReplaceOneIsUpdate(shadow, k, inst);
    FreshUpdateKeepsDistinct(shadow, k, inst, bound);
  }

  /**
   * Source Move of one item from `o` to `n`: relocating the stored object
   * keeps the shadow in sync without creating any object.
   */
  lemma MoveStep<S, R>(shadow: seq<Instance<R>>, source: seq<S>, f: S -> R, bound: nat, x: S, n: nat, o: nat)
    requires Synced(shadow, source, f, bound) && Applies(Move([x], n, o), source)
    ensures o < |shadow| && n < |shadow|
    ensures var out := Move([shadow[o]], n, o);
      && Applies(out, shadow)
      && ValuesOf(out) == MapChange(Move([x], n, o), f)
      && Apply(out, shadow)[n] == shadow[o]
      && Synced(Apply(out, shadow), Apply(Move([x], n, o), source), f, bound)
  {
    var e, out := Move([x], n, o), Move([shadow[o]], n, o);
    var rest := shadow[..o] + shadow[o + 1..];
    assert shadow[o..o + 1] == [shadow[o]];
    assert Applies(out, shadow);
    var t := Apply(out, shadow);
    assert ValuesOf(out) == MapChange(e, f) by {
      assert source[o] == x by { assert source[o..o + 1][0] == source[o]; }
      assert Values(shadow)[o] == f(x);
    }
    assert Values(t) == MapSeq(Apply(e, source), f) by {
      MapCommutes(e, source, f);
      MapCommutes(out, shadow, Value);
    }
    assert DistinctIds(t) by {
      RemoveKeepsDistinct(shadow, o);
      InsertKeepsDistinct(rest, n, shadow[o]);
      assert t == rest[..n] + [shadow[o]] + rest[n..];
    }
    assert IdsBelow(t, bound) && t[n] == shadow[o] by {
      MoveRelocates(shadow[o], n, o, shadow);
      forall i | 0 <= i < |t| ensures t[i].id < bound {
        assert t[i] in multiset(shadow);
      }
    }
  }

  /**
   * The Add branch of the transforming views' handler as written: it maps only
   * NewItems[0] (and throws when there is none).
   */
  function AddAsWritten<S, R>(shadow: seq<R>, e: Change<S>, f: S -> R): Option<seq<R>>
    requires e.Add? && e.index <= |shadow|
  {
    if e.items == [] then None
    else Some(shadow[..e.index] + [f(e.items[0])] + shadow[e.index..])
  }

  /**
   * The bulk Add a deferred view raises when a two-item container arrives,
   * handled by a transforming view subscribed to it while it was empty, leaves
   * that view with one item where its source has two.
   */
  lemma AddAsWrittenLosesBulkItems<S, R>(a: S, b: S, f: S -> R)
    ensures var bulk := Change.Add([a, b], 0);
      && AddAsWritten([], bulk, f) == Some([f(a)])
      && |MapSeq(Apply(bulk, []), f)| == 2
  {
    var bulk := Change.Add([a, b], 0);
    var empty: seq<R> := [];
    assert empty[..0] + [f(a)] + empty[0..] == [f(a)];
    assert Apply(bulk, []) == [a, b];
  }

  /**
   * The same bulk Add handled by the corrected Add branch (`AddStep`) leaves
   * the transforming view with both items mapped, in order.
   */
  lemma CorrectedAddKeepsBulkItems<S, R>(a: S, b: S, f: S -> R)
    ensures var bulk := Change.Add([a, b], 0);
      && Values(Apply(Add(Fresh([a, b], f, 0), 0), [])) == [f(a), f(b)]
      && Values(Apply(Add(Fresh([a, b], f, 0), 0), [])) == MapSeq(Apply(bulk, []), f)
  {
    var bulk := Change.Add([a, b], 0);
    var none: seq<Instance<R>> := [];
    AddStep(none, [], f, 0, [a, b], 0);
    assert Apply(bulk, []) == [a, b];
  }
}
