/** The sequential path of the `MapReduce` engine: `run_sequential`, which is what
    `run(parallel=False)` does. `empty_result`, `compute` and `process_result` are
    the subclass's hooks and become parameters; `process_result` sees the current
    `done` flag and returns the new one with the new result. */
module Engine {

  /** The engine's state between items: the accumulated result and `self.done`. */
  datatype State<A> = State(result: A, done: bool)

  /** One pass of the loop body: `compute` the item, then `process_result` it. */
  function Step<T, C, A>(compute: T -> C, process: (C, A, bool) -> (A, bool), s: State<A>, x: T): State<A> {
    var (a, d) := process(compute(x), s.result, s.done);
    State(a, d)
  }

  /** The state after processing every item of `xs` in order, as if nothing ever
      stopped the loop. */
  function FoldAll<T, C, A>(compute: T -> C, process: (C, A, bool) -> (A, bool), init: State<A>,
                            xs: seq<T>): State<A>
    decreases |xs|
  {
    if |xs| == 0 then init
    else Step(compute, process, FoldAll(compute, process, init, xs[..|xs| - 1]), xs[|xs| - 1])
  }

  /** `MapReduce.run_sequential`: fold `process_result` over `compute(obj)` from
      `empty_result`, stopping right after the first item that leaves `done` set.
      Returns the result and the number of `progress.update(1)` calls, which is
      also the number of `compute` calls. */
  method RunSequential<T, C, A>(items: seq<T>, empty: A, done0: bool, compute: T -> C,
                                process: (C, A, bool) -> (A, bool))
    returns (result: A, updates: nat)
    ensures updates <= |items| && (|items| > 0 ==> updates >= 1)
    ensures result == FoldAll(compute, process, State(empty, done0), items[..updates]).result
    ensures forall k :: 1 <= k < updates ==> !FoldAll(compute, process, State(empty, done0), items[..k]).done
    ensures updates < |items| ==> FoldAll(compute, process, State(empty, done0), items[..updates]).done
  {
    var init := State(empty, done0);
    var s := init;
    var i := 0;
    while i < |items|
      invariant 0 <= i <= |items|
      invariant s == FoldAll(compute, process, init, items[..i])
      invariant forall k :: 1 <= k <= i ==> !FoldAll(compute, process, init, items[..k]).done
    {
      s := Step(compute, process, s, items[i]);
      assert items[..i + 1][..i] == items[..i];
      i := i + 1;
      if s.done {
        break;
      }
    }
    result, updates := s.result, i;
  }
}
