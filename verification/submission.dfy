/** The submission loop with backpressure: `backpressure`, whose loop
    `_map_reduce_tree` repeats inline. The distributed runtime is reduced to a
    `wait` function with the one guarantee the loop relies on. */
module Submission {
  import opened Wrappers
  import opened Errors
  import opened Seqs

  /** A task handle; the task submitted `i`-th gets handle `i`. */
  type Handle = nat

  /** What `ray.wait(refs, num_returns=k)` promises when `k <= len(refs)`: at least
      `k` of the given handles are finished. (Asking for more than it is given is an
      error, modelled in the loop itself.) */
  ghost predicate WaitContract(wait: (seq<Handle>, nat) -> set<Handle>) {
    forall hs: seq<Handle>, k: nat {:trigger wait(hs, k)} :: k <= |hs| ==>
      |wait(hs, k)| >= k && forall h :: h in wait(hs, k) ==> h in hs
  }

  /** A subset is no larger than its superset. */
  lemma {:induction false} SubsetCard<X>(a: set<X>, b: set<X>)
    requires a <= b
    ensures |a| <= |b|
    decreases a
  {
    if a != {} {
      var x :| x in a;
      SubsetCard(a - {x}, b - {x});
    }
  }

  /** The handles of the first `n` submissions, in order: `result_refs` after
      `n` appends. */
  function Ids(n: nat): (refs: seq<Handle>)
    ensures |refs| == n && forall h :: 0 <= h < n ==> refs[h] == h
  {
    seq(n, h requires 0 <= h < n => h)
  }

  /** One more submission appends the next handle. */
  lemma IdsSnoc(n: nat)
    ensures Ids(n) + [n] == Ids(n + 1)
  {
    assert forall h :: 0 <= h <= n ==> (Ids(n) + [n])[h] == h;
  }

  /** What the wait before submission `i` returns: once more than `limit` tasks
      have been submitted, `ray.wait` on all `i` handles for `i - limit` of them;
      nothing otherwise (and nothing when there are no handles yet). */
  function Done(wait: (seq<Handle>, nat) -> set<Handle>, limit: int, i: nat): set<Handle> {
    if 0 < i && i > limit then wait(Ids(i), i - limit) else {}
  }

  /** `log[i]` is the set of handles known to be finished just before submission
      `i`: everything the waits up to and including that one returned. */
  predicate KnownLog(log: seq<set<Handle>>, wait: (seq<Handle>, nat) -> set<Handle>, limit: int) {
    (|log| > 0 ==> log[0] == {}) &&
    forall i {:trigger Done(wait, limit, i)} :: 0 < i < |log| ==> log[i] == log[i - 1] + Done(wait, limit, i)
  }

  /** Recording what is known before one more submission keeps the log. */
  lemma KnownLogSnoc(log: seq<set<Handle>>, wait: (seq<Handle>, nat) -> set<Handle>, limit: int,
                     ready: set<Handle>)
    requires KnownLog(log, wait, limit)
    requires ready == (if |log| == 0 then {} else log[|log| - 1]) + Done(wait, limit, |log|)
    ensures KnownLog(log + [ready], wait, limit)
  {
    var log' := log + [ready];
    forall i | 0 < i < |log'|
      ensures log'[i] == log'[i - 1] + Done(wait, limit, i)
    {
      if i < |log| {
        assert log'[i] == log[i] && log'[i - 1] == log[i - 1];
      }
    }
  }

  /** Under the guarantee of `ray.wait`, before submission `i` at least
      `i - limit` of the earlier handles are known to be finished, so right after
      it at most `limit + 1` tasks are unfinished. */
  lemma {:induction false} KnownBound(log: seq<set<Handle>>, wait: (seq<Handle>, nat) -> set<Handle>,
                                      limit: int, i: nat)
    requires WaitContract(wait) && limit >= 0
    requires KnownLog(log, wait, limit) && i < |log|
    ensures forall h :: h in log[i] ==> h < i
    ensures |log[i]| >= i - limit
  {
    if i > 0 {
      KnownBound(log, wait, limit, i - 1);
      var done := Done(wait, limit, i);
      assert log[i] == log[i - 1] + done;
      if i > limit {
        assert |done| >= i - limit && forall h :: h in done ==> h in Ids(i);
        SubsetCard(done, log[i]);
      } else {
        SubsetCard(log[i - 1], log[i]);
      }
    }
  }

  /** One call of `ray.wait`: how many handles it was given and `num_returns`. */
  datatype Wait = Wait(given: nat, numReturns: int)

  /** `backpressure(func, *arglists, inflight_limit=limit)`: submit one task per
      tuple of `zip(*arglists)`, first waiting, whenever more than `limit` tasks
      have been submitted, until all but `limit` of them are finished. Returns the
      handles (or the error `ray.wait` raises when asked for more handles than it
      is given), the tuples submitted in order, the waits that returned, and, for
      every submission, the handles known to be finished just before it.

      `ray.wait` returns at once when given no handles, before it looks at
      `num_returns`. So a negative `limit` lets the first task through and fails
      at the second, which asks for `1 - limit >= 2` of one handle. */
  method Backpressure<T>(lists: seq<seq<T>>, limit: int, wait: (seq<Handle>, nat) -> set<Handle>)
    returns (r: Result<seq<Handle>, Error>, submitted: seq<seq<T>>, waits: seq<Wait>,
             readyBefore: seq<set<Handle>>)
    requires WaitContract(wait)
    ensures r.Failure? <==> limit < 0 && MinLen(lists) >= 2
    ensures r.Failure? ==> r.error == WaitTooMany && submitted == Zip(lists)[..1] && waits == [Wait(0, -limit)]
    ensures r.Success? ==> submitted == Zip(lists) && r.value == Ids(MinLen(lists))
    ensures limit >= 0 ==> |waits| == Max(MinLen(lists) - 1 - limit, 0)
    ensures limit >= 0 ==> forall j :: 0 <= j < |waits| ==> waits[j] == Wait(limit + 1 + j, j + 1)
    ensures limit < 0 ==> waits == if MinLen(lists) == 0 then [] else [Wait(0, -limit)]
    ensures forall w :: w in waits ==> (1 <= w.numReturns <= w.given) || (w.given == 0 && limit < 0)
    ensures r.Success? ==> |readyBefore| == MinLen(lists)
    ensures r.Success? ==> KnownLog(readyBefore, wait, limit)
    ensures r.Success? ==> forall i :: 0 <= i < |readyBefore| ==>
              i + 1 - |readyBefore[i]| <= Max(limit, 0) + 1 && forall h :: h in readyBefore[i] ==> h < i
  {
    r, submitted, waits, readyBefore := SubmitAll(Zip(lists), limit, wait);
  }

  /** The test at the top of each round of `backpressure`: once more than `limit`
      tasks have been submitted, wait until all but `limit` of them are finished.
      Fails as `ray.wait` does when that asks for more handles than there are. */
  method Throttle(refs: seq<Handle>, limit: int, wait: (seq<Handle>, nat) -> set<Handle>,
                  ready: set<Handle>, waits: seq<Wait>)
    returns (ok: bool, ready': set<Handle>, waits': seq<Wait>)
    requires refs == Ids(|refs|)
    ensures ok <==> limit >= 0 || |refs| == 0
    ensures ok ==> ready' == ready + Done(wait, limit, |refs|)
    ensures !ok ==> waits' == waits
    ensures ok ==> waits' == waits + if |refs| > limit then [Wait(|refs|, |refs| - limit)] else []
  {
    ok, ready', waits' := true, ready, waits;
    if |refs| > limit {
      var k := |refs| - limit;
      if |refs| == 0 {
        // `ray.wait([])` returns at once whatever `num_returns` is.
        waits' := waits + [Wait(0, k)];
      } else if k > |refs| {
        ok := false;
      } else {
        var done := wait(refs, k);
        ready' := ready + done;
        waits' := waits + [Wait(|refs|, k)];
      }
    }
  }

  /** The loop of `backpressure` over the argument tuples, already zipped. */
  method SubmitAll<A>(z: seq<A>, limit: int, wait: (seq<Handle>, nat) -> set<Handle>)
    returns (r: Result<seq<Handle>, Error>, submitted: seq<A>, waits: seq<Wait>,
             readyBefore: seq<set<Handle>>)
    requires WaitContract(wait)
    ensures r.Failure? <==> limit < 0 && |z| >= 2
    ensures r.Failure? ==> r.error == WaitTooMany && submitted == z[..1] && waits == [Wait(0, -limit)]
    ensures r.Success? ==> submitted == z && r.value == Ids(|z|)
    ensures limit >= 0 ==> |waits| == Max(|z| - 1 - limit, 0)
    ensures limit >= 0 ==> forall j :: 0 <= j < |waits| ==> waits[j] == Wait(limit + 1 + j, j + 1)
    ensures limit < 0 ==> waits == if |z| == 0 then [] else [Wait(0, -limit)]
    ensures forall w :: w in waits ==> (1 <= w.numReturns <= w.given) || (w.given == 0 && limit < 0)
    ensures r.Success? ==> |readyBefore| == |z|
    ensures r.Success? ==> KnownLog(readyBefore, wait, limit)
    ensures r.Success? ==> forall i :: 0 <= i < |readyBefore| ==>
              i + 1 - |readyBefore[i]| <= Max(limit, 0) + 1 && forall h :: h in readyBefore[i] ==> h < i
  {
    var refs: seq<Handle> := [];
    var ready: set<Handle> := {};
    var i := 0;
    submitted, waits, readyBefore := [], [], [];
    while i < |z|
      invariant 0 <= i <= |z|
      invariant refs == Ids(i)
      invariant submitted == z[..i]
      invariant i > 1 ==> limit >= 0
      invariant limit >= 0 ==> |waits| == Max(i - 1 - limit, 0)
      invariant limit >= 0 ==> forall j :: 0 <= j < |waits| ==> waits[j] == Wait(limit + 1 + j, j + 1)
      invariant limit < 0 ==> waits == if i == 0 then [] else [Wait(0, -limit)]
      invariant |readyBefore| == i
      invariant ready == if i == 0 then {} else readyBefore[i - 1]
      invariant KnownLog(readyBefore, wait, limit)
    {
      var ok;
      ok, ready, waits := Throttle(refs, limit, wait, ready, waits);
      if !ok {
        r := Failure(WaitTooMany);
        return;
      }
      assert z[..i + 1] == z[..i] + [z[i]];
      IdsSnoc(i);
      KnownLogSnoc(readyBefore, wait, limit, ready);
      readyBefore := readyBefore + [ready];
      refs := refs + [i];
      submitted := submitted + [z[i]];
      i := i + 1;
    }
    r := Success(refs);
    forall j | 0 <= j < |readyBefore|
      ensures j + 1 - |readyBefore[j]| <= Max(limit, 0) + 1 && forall h :: h in readyBefore[j] ==> h < j
    {
      if limit >= 0 {
        KnownBound(readyBefore, wait, limit, j);
      } else {
        assert j == 0 && readyBefore[0] == {};
      }
    }
  }
}
