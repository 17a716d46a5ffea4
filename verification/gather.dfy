/** Collecting results with early exit: `shortcircuit`, the sequential path of `get`,
    `_map_sequential`, and `map` when it runs locally. */
module Gather {
  import opened Wrappers
  import opened Errors
  import opened Seqs
  import opened Sizing

  /** The `shortcircuit_value` argument: either the default `_NoShortCircuit()`,
      whose `__eq__` is false for everything, or an ordinary value. */
  datatype Sentinel<V> = NoShortCircuit | Stop(value: V)

  /** `result == shortcircuit_value`. */
  predicate Matches<V(==)>(x: V, s: Sentinel<V>): (m: bool)
    ensures s.NoShortCircuit? ==> !m
    ensures s.Stop? ==> (m <==> x == s.value)
  {
    s.Stop? && x == s.value
  }

  /** Whether some item equals the sentinel. */
  predicate AnyMatch<V(==)>(items: seq<V>, s: Sentinel<V>) {
    exists i :: 0 <= i < |items| && Matches(items[i], s)
  }

  /** What `shortcircuit` yields: the items up to and including the first one
      equal to the sentinel, and nothing after it. */
  function Prefix<V(==)>(items: seq<V>, s: Sentinel<V>): (r: seq<V>)
    ensures |r| <= |items| && r == items[..|r|]
    ensures forall i :: 0 <= i < |r| - 1 ==> !Matches(r[i], s)
    ensures |r| < |items| ==> |r| >= 1 && Matches(r[|r| - 1], s)
  {
    if |items| == 0 then []
    else if Matches(items[0], s) then [items[0]]
    else
      var rest := Prefix(items[1..], s);
      assert ([items[0]] + rest)[1..] == rest;
      [items[0]] + rest
  }

  /** The three facts above pin the prefix down: any sequence that has them is it. */
  lemma PrefixUnique<V>(items: seq<V>, s: Sentinel<V>, r: seq<V>)
    requires |r| <= |items| && r == items[..|r|]
    requires forall i :: 0 <= i < |r| - 1 ==> !Matches(r[i], s)
    requires |r| < |items| ==> |r| >= 1 && Matches(r[|r| - 1], s)
    ensures r == Prefix(items, s)
  {
  }

  /** Nothing is cut when nothing matches; in particular `_NoShortCircuit` never
      cuts. */
  lemma PrefixWhole<V>(items: seq<V>, s: Sentinel<V>)
    ensures !AnyMatch(items, s) ==> Prefix(items, s) == items
  {
    var r := Prefix(items, s);
    if |r| < |items| {
      assert Matches(items[|r| - 1], s);
    }
  }

  /** The output stops no later than the first item equal to the sentinel. */
  lemma PrefixStopsAt<V>(items: seq<V>, s: Sentinel<V>, k: nat)
    requires k < |items| && Matches(items[k], s)
    ensures |Prefix(items, s)| <= k + 1
  {
  }

  /** The output ends in a match exactly when some input item matches. */
  lemma PrefixEndsInMatch<V>(items: seq<V>, s: Sentinel<V>)
    ensures (|Prefix(items, s)| > 0 && Matches(Prefix(items, s)[|Prefix(items, s)| - 1], s))
            <==> AnyMatch(items, s)
  {
    var r := Prefix(items, s);
    if AnyMatch(items, s) {
      var i :| 0 <= i < |items| && Matches(items[i], s);
      PrefixStopsAt(items, s, i);
      if |r| == |items| {
        assert r[i] == items[i];
      }
    }
    if |r| > 0 && Matches(r[|r| - 1], s) {
      assert items[|r| - 1] == r[|r| - 1];
    }
  }

  /** The outcome of one `shortcircuit` run: what it yielded, and the argument the
      callback was called with, if it was called. */
  datatype Cut<V> = Cut(yielded: seq<V>, callbackArgs: Option<seq<V>>)

  /** What an iterable still holds once `taken` items were drawn from it: a list
      is unchanged, a generator holds only what it has not produced yet. */
  function Remaining<V>(xs: ArgList<V>, taken: nat): (rest: seq<V>)
    requires taken <= |xs.items|
    ensures xs.sized ==> rest == xs.items
    ensures !xs.sized ==> |rest| == |xs.items| - taken && xs.items == xs.items[..taken] + rest
  {
    if xs.sized then xs.items else xs.items[taken..]
  }

  /** `shortcircuit(items, value, callback, callback_args)`. The callback, when
      there is one, runs once, on the first match, with `callback_args` or by
      default `items` itself, which for a generator is what it has left. */
  function ShortCircuit<V(==)>(items: ArgList<V>, s: Sentinel<V>, hasCallback: bool,
                               callbackArgs: Option<seq<V>>): (c: Cut<V>)
    ensures c.yielded == Prefix(items.items, s)
    ensures c.callbackArgs.Some? <==> hasCallback && AnyMatch(items.items, s)
    ensures c.callbackArgs.Some? && callbackArgs.Some? ==> c.callbackArgs == callbackArgs
    ensures c.callbackArgs.Some? && callbackArgs.None? && items.sized ==> c.callbackArgs.value == items.items
    ensures c.callbackArgs.Some? && callbackArgs.None? && !items.sized ==>
              c.yielded + c.callbackArgs.value == items.items
  {
    var p := Prefix(items.items, s);
    PrefixEndsInMatch(items.items, s);
    var hit := |p| > 0 && Matches(p[|p| - 1], s);
    Cut(p, if hit && hasCallback then Some(callbackArgs.GetOr(Remaining(items, |p|))) else None)
  }

  /** `get(object_refs, parallel=False, ...)`: the callback argument defaults to
      `object_refs` itself, then `shortcircuit` is drained into a list. */
  function Get<V(==)>(refs: ArgList<V>, s: Sentinel<V>, hasCallback: bool,
                      callbackArgs: Option<seq<V>>): (c: Cut<V>)
    ensures c.yielded == Prefix(refs.items, s)
    ensures !AnyMatch(refs.items, s) ==> c.yielded == refs.items
    ensures AnyMatch(refs.items, s) ==> |c.yielded| >= 1 && Matches(c.yielded[|c.yielded| - 1], s)
    ensures c.callbackArgs.Some? <==> hasCallback && AnyMatch(refs.items, s)
    ensures c.callbackArgs.Some? && callbackArgs.Some? ==> c.callbackArgs == callbackArgs
    ensures c.callbackArgs.Some? && callbackArgs.None? ==>
              c.callbackArgs.value == Remaining(refs, |c.yielded|)
  {
    PrefixEndsInMatch(refs.items, s);
    PrefixWhole(refs.items, s);
    var p := Prefix(refs.items, s);
    ShortCircuit(refs, s, hasCallback, Some(callbackArgs.GetOr(Remaining(refs, |p|))))
  }

  /** `_map_sequential(func, *arglists)`: `func` applied to every tuple of
      `zip(*arglists)`, in order. */
  function MapSequential<T, R>(f: seq<T> -> R, lists: seq<seq<T>>): (rs: seq<R>)
    ensures |rs| == MinLen(lists)
    ensures forall i :: 0 <= i < |rs| ==> rs[i] == f(Zip(lists)[i])
  {
    Apply(f, Zip(lists))
  }

  /** The `shortcircuit_callback` argument: none, the default `cancel_all`, or
      another callable, known by how many items it draws from an iterator it is
      handed. */
  datatype Callback = NoCallback | CancelAll | Drawing(count: nat)

  /** How many items the callback draws from a generator. `cancel_all` iterates
      over its argument calling `ray.cancel`, which raises `TypeError` on the
      first item that is not an object reference; `cancel_all` catches that and
      returns, having drawn one item. */
  function Draws(cb: Callback): (n: nat)
    ensures cb.NoCallback? ==> n == 0
    ensures cb.CancelAll? ==> n == 1
  {
    match cb
    case NoCallback => 0
    case CancelAll => 1
    case Drawing(n) => n
  }

  /** One local `map` run: what `get` saw, and how many times `func` was called. */
  datatype LocalRun<V> = LocalRun(cut: Cut<V>, calls: nat)

  /** `map(func, *arglists, parallel=False, ...)`: refused without inputs;
      otherwise the lazy sequential map, drained through `get`, whose callback
      receives the generator with whatever it has not produced yet. Every item
      drawn from the generator is one `func` call. Progress bars and `total`
      affect only the display. */
  function MapLocal<T, V(==)>(f: seq<T> -> V, lists: seq<ArgList<T>>, s: Sentinel<V>,
                              cb: Callback): (r: Result<LocalRun<V>, Error>)
    ensures r.Failure? <==> |lists| == 0
    ensures r.Failure? ==> r.error == NoArguments
    ensures r.Success? ==> r.value.cut.yielded == Prefix(MapSequential(f, Items(lists)), s)
    ensures r.Success? && s.NoShortCircuit? ==> r.value.cut.yielded == MapSequential(f, Items(lists))
    ensures r.Success? ==> (r.value.cut.callbackArgs.Some? <==> cb != NoCallback && AnyMatch(MapSequential(f, Items(lists)), s))
    ensures r.Success? && r.value.cut.callbackArgs.Some? ==>
              r.value.cut.yielded + r.value.cut.callbackArgs.value == MapSequential(f, Items(lists))
    ensures r.Success? ==> |r.value.cut.yielded| <= r.value.calls <= MinLen(Items(lists))
    ensures r.Success? && r.value.cut.callbackArgs.None? ==> r.value.calls == |r.value.cut.yielded|
    ensures r.Success? && r.value.cut.callbackArgs.Some? ==>
              r.value.calls == Min(|r.value.cut.yielded| + Draws(cb), MinLen(Items(lists)))
  {
    if |lists| == 0 then Failure(NoArguments)
    else
      var results := MapSequential(f, Items(lists));
      PrefixWhole(results, s);
      var c := Get(ArgList(results, false), s, cb != NoCallback, None);
      var drawn := if c.callbackArgs.Some? then Min(Draws(cb), |results| - |c.yielded|) else 0;
      Success(LocalRun(c, |c.yielded| + drawn))
  }

  /** The sequential map is lazy: when the result for tuple `k` equals the sentinel,
      `func` has been called on at most the first `k + 1` tuples, and on as many
      more as the callback draws. */
  lemma MapLocalStopsEarly<T, V>(f: seq<T> -> V, lists: seq<ArgList<T>>, s: Sentinel<V>, cb: Callback, k: nat)
    requires |lists| >= 1 && k < MinLen(Items(lists))
    requires Matches(f(Zip(Items(lists))[k]), s)
    ensures MapLocal(f, lists, s, cb).Success?
    ensures |MapLocal(f, lists, s, cb).value.cut.yielded| <= k + 1
    ensures MapLocal(f, lists, s, cb).value.calls <= k + 1 + Draws(cb)
  {
    PrefixStopsAt(MapSequential(f, Items(lists)), s, k);
  }

  /** The default `cancel_all` really does draw one more item: on a first match at
      tuple `k` that is not the last, `func` runs on exactly `k + 2` tuples, and
      the callback is handed the results after `k`. */
  lemma {:induction false} CancelAllDrawsOne<T, V>(f: seq<T> -> V, lists: seq<ArgList<T>>, s: Sentinel<V>, k: nat)
    requires |lists| >= 1 && k + 1 < MinLen(Items(lists))
    requires Matches(f(Zip(Items(lists))[k]), s)
    requires forall i :: 0 <= i < k ==> !Matches(f(Zip(Items(lists))[i]), s)
    ensures MapLocal(f, lists, s, CancelAll).Success?
    ensures MapLocal(f, lists, s, CancelAll).value.calls == k + 2
    ensures MapLocal(f, lists, s, CancelAll).value.cut.callbackArgs
            == Some(MapSequential(f, Items(lists))[k + 1..])
  {
    var results := MapSequential(f, Items(lists));
    var p := Prefix(results, s);
    PrefixStopsAt(results, s, k);
    assert |p| == k + 1;
    assert AnyMatch(results, s);
  }
}
