# PyPhi parallel map-reduce engine, modelled in Dafny

This project models the engine in `pyphi/compute/parallel.py` that spreads
`map_func` over the tuples of several argument lists. The engine can combine
the results with a `reduce_func` and can stop early on a sentinel value. The
model covers:

- the sizing arithmetic: worker count, clamping of sizes, known lengths, tree
  size and tree depth;
- short-circuit collection (`shortcircuit`, `get`, `_NoShortCircuit`);
- the sequential map (`_map_sequential`, `map` with `parallel=False`);
- the backpressure submission loop;
- the recursive branch-or-leaf procedure `_map_reduce_tree`, with the entry
  points `map`, `map_reduce` and `_map_reduce_sequential`;
- `MapReduce.run_sequential`.

Each remote task `_remote_map_reduce_tree.remote(...)` is replaced by a direct
recursive call. A node's children are collected in submission order.

Modules, one concern each:

- `Wrappers`, `Errors`: `Option`, `Result`, and one error constructor per
  exception the code raises.
- `Seqs`: Python's `zip(*xss)`, `more_itertools.chunked`, and the aligned
  chunking `zip(*(chunked(xs, size) for xs in xss))` with the proof that it
  loses, repeats and reorders no tuple.
- `Sizing`: `get_num_processes`, `_enforce_positive_integer`, `_try_len`,
  `_try_lens`, `tree_size`, `get_depth`.
- `Gather`: `_NoShortCircuit`, `shortcircuit`, `get`, `_map_sequential`, and
  `map` when it runs locally.
- `Submission`: `backpressure`. The runtime is reduced to a `wait` function that
  only promises at least `num_returns` finished handles.
- `Tree`: `_map_reduce_tree` (`Decide`, `Node`, `Children`, `MapReduceTree`),
  `flatten`, `map`, `map_reduce`, `_map_reduce_sequential`.
- `Engine`: `MapReduce.run_sequential`.

Python's dynamic values become `Tree.Value`, which is either an `Atom` (what
`map_func` returned) or a `List`. This lets the single sentinel be compared, as
in the code, with leaf values and with whatever a child returned. A generator
argument is an `ArgList` whose `sized` flag is false. The depth
`float('inf')` is `Depth.Unbounded`. `cpu_count`, `NUMBER_OF_CORES`, `wait`,
`map_func`, `reduce_func`, `compute` and `process_result` are parameters.

The termination of `_map_reduce_tree` is proved, not assumed. Its measure is
lexicographic:

1. the longest input;
2. a flag that drops once every input is a list within the threshold;
3. the clamped chunksize, which a child receives divided by
   `branch_factor ** (level + 1)`.

Two facts about Ray are taken as given:

- **`ray.wait`:** it guarantees at least `num_returns` finished handles. It
  returns at once when given no handles, and raises when asked for more
  handles than it is given.
- **`ray.cancel`:** it raises `TypeError` on anything that is not an object
  reference. So the default callback `cancel_all`, handed the generator of a
  local `map`, draws one more item from it and stops.

Two consequences:

- **Negative `inflight_limit`:** the first task goes through, and the loop
  raises in the wait before the second.
- **Backpressure bound:** the loop waits only once more than `inflight_limit`
  tasks have been submitted, whether or not they have finished. Before
  submission `i > inflight_limit` it waits for `i - inflight_limit` of the `i`
  handles, so right after a submission up to `inflight_limit + 1` tasks are
  unfinished. The Ray pattern linked at line 489 limits pending
  tasks the same way.

## Model

| member | source | states |
|---|---|---|
| Sizing.GetNumProcesses | pyphi/compute/parallel.py:31-54 | Refuses exactly `NUMBER_OF_CORES == 0` and a negative setting with `cpu_count + N + 1 <= 0`, with the matching error. Otherwise, given `cpu_count >= 1`, the count is in `[1, cpu_count]`: the setting itself, `cpu_count` for a larger setting, `cpu_count + N + 1` for a negative one |
| Sizing.EnforcePositiveInteger | pyphi/compute/parallel.py:590-591 | The result lies in `[1, sys.maxsize]`, equals its input inside that range and is the nearer bound outside it |
| Sizing.EnforceIdempotent | pyphi/compute/parallel.py:630-633 | Clamping an already clamped threshold or chunksize, as a child does with what its parent passes, changes nothing |
| Sizing.TryLen | pyphi/compute/parallel.py:439-443 | Known exactly for inputs that have a length, and then equal to it |
| Sizing.TryLens | pyphi/compute/parallel.py:446-450 | `None` iff no input has a length; otherwise the length of some sized input that is at most every known length |
| Sizing.TryLensAllSized | pyphi/compute/parallel.py:446-450 | When every input is a list, the known minimum is the shortest length, i.e. the number of tuples `zip` makes |
| Sizing.TreeSize | pyphi/compute/parallel.py:560-564 | A branch factor below one gives the depth itself; a branch factor of one gives one node per level (none for a depth of zero or less); any branch factor of at least one gives at least that many |
| Sizing.LevelSum | pyphi/compute/parallel.py:564 | `sum(b ** l for l in range(depth))` is zero for an empty range and at least one per level, exactly one when `b == 1` |
| Sizing.TreeSizeStep | pyphi/compute/parallel.py:560-564 | For `b >= 1`, `tree_size(b, 0) = 0` and one more level adds `b ** depth` nodes |
| Sizing.TreeSizeAtLeastDepth | pyphi/compute/parallel.py:560-564 | For every branch factor, including the degenerate `b < 1`, a tree has at least as many nodes as levels |
| Sizing.TreeSizeMonotone | pyphi/compute/parallel.py:560-564 | `tree_size` does not decrease with depth |
| Sizing.TreeSizeClosedForm | pyphi/compute/parallel.py:560-564 | For `b >= 2`, `(b - 1) * tree_size(b, d) == b ** d - 1` |
| Sizing.GetDepth | pyphi/compute/parallel.py:567-574 | Unbounded exactly when `max_size` is `None`; otherwise a depth `d >= 1` with `tree_size(b, d + 1) >= max_size` and `tree_size(b, k) < max_size` for every `2 <= k <= d`: every tree of 2 to `d` levels stays below `max_size`. The tree built with this bound branches while `level < d` (line 648), so it has `d + 1` levels and reaches `max_size`; the docstring's "not exceed" (line 568) is not what the code does |
| Sizing.GetDepthExceedsExample | pyphi/compute/parallel.py:567-574 | `get_depth(5, 2) == 2`, and a tree of the 3 levels built with that bound has `tree_size(2, 3) == 7 > 5` nodes |
| Sizing.Below | pyphi/compute/parallel.py:648 | `__level__ < max_depth`, where an unbounded depth (`float('inf')`) admits every level |
| Sizing.DepthFrom | pyphi/compute/parallel.py:571-574 | The `while` loop ends for every integer `max_size` and branch factor, at the first depth whose next level reaches `max_size` |
| Sizing.GetDepthLeast | pyphi/compute/parallel.py:567-574 | Any depth satisfying the exit test, with every earlier depth failing it, is the one `get_depth` returns |
| Gather.Matches | pyphi/compute/parallel.py:385-392 | `_NoShortCircuit` equals nothing; any other sentinel matches exactly the values equal to it |
| Gather.Prefix | pyphi/compute/parallel.py:402-409 | The output is a prefix of the input with no sentinel match except possibly its last item, and it is shorter than the input only when it ends on a match |
| Gather.PrefixUnique | pyphi/compute/parallel.py:402-409 | Those three facts determine the output: any sequence with them equals it |
| Gather.PrefixWhole | pyphi/compute/parallel.py:385-392 | With no matching item, in particular with `_NoShortCircuit`, the whole input is yielded |
| Gather.PrefixStopsAt | pyphi/compute/parallel.py:402-404 | If item `k` equals the sentinel, at most `k + 1` items are yielded |
| Gather.PrefixEndsInMatch | pyphi/compute/parallel.py:402-409 | The output ends on a match exactly when some input item matches |
| Gather.Remaining | pyphi/compute/parallel.py:402-408 | What the object `items` holds when the callback receives it: a list is unchanged, a generator holds what follows the items it already produced |
| Gather.ShortCircuit | pyphi/compute/parallel.py:395-409 | Yields the prefix. The callback is called, once, exactly when a callback is given and some item matches. Its argument is `shortcircuit_callback_args`, or by default `items` itself: the whole list, or the rest of a generator, which with the prefix makes up all its items |
| Gather.Get | pyphi/compute/parallel.py:453-485 | The sequential `get` yields exactly `Prefix` of its input: everything when nothing matches, else up to the first match. It calls the callback exactly on a match, by default with `object_refs` as it then stands |
| Gather.MapSequential | pyphi/compute/parallel.py:499-501 | One result per tuple of `zip(*arglists)`, as many as the shortest input, the `i`-th being `func` of the `i`-th tuple |
| Gather.Draws | pyphi/compute/parallel.py:420-437 | How many items a callback draws from the generator it is handed: none without a callback, exactly one for `cancel_all`, whose first `ray.cancel` raises `TypeError` on a plain result and is caught |
| Gather.MapLocal | pyphi/compute/parallel.py:508-557 | `map(..., parallel=False)` raises `ValueError` exactly when given no lists. Otherwise it returns the short-circuited sequential map, which is the full map without a sentinel. The callback runs exactly on a match, and receives the generator's unproduced results. `func` runs once per yielded result, plus once per item the callback draws, up to the number of tuples |
| Gather.MapLocalStopsEarly | pyphi/compute/parallel.py:499-501 | If tuple `k`'s result matches, at most `k + 1` results are yielded and `func` runs on at most `k + 1` tuples plus those the callback draws |
| Gather.CancelAllDrawsOne | pyphi/compute/parallel.py:420-437 | With the default `cancel_all`, a first match at tuple `k` that is not the last makes `func` run on exactly `k + 2` tuples, and the callback receives the results from `k + 1` on |
| Submission.Backpressure | pyphi/compute/parallel.py:488-496 | One task per tuple of `zip(*arglists)`, submitted in order, the `i`-th getting handle `i`. With `inflight_limit >= 0` the waits are exactly one before each submission `i > inflight_limit`, on all `i` handles, for `num_returns = i - inflight_limit`; every wait asks for between 1 and all of its handles unless it is the wait on no handles that a negative limit makes. `readyBefore[i]` is the union of what the waits up to submission `i` returned (`KnownLog`), and holds only earlier handles, all but at most `max(inflight_limit, 0)` of them, so at most `max(inflight_limit, 0) + 1` tasks are unfinished right after submission `i`. It fails exactly when `inflight_limit < 0` and there are at least two tuples, after submitting the first |
| Submission.SubmitAll | pyphi/compute/parallel.py:663-668 | The same loop as it appears inline in `_map_reduce_tree`, over already-zipped tuples, with the same guarantees |
| Submission.Throttle | pyphi/compute/parallel.py:491-493 | The test at the top of one round: when more than `inflight_limit` handles exist it waits for `len(refs) - inflight_limit` of them and adds what returned to the known-finished set; it fails, as `ray.wait` does, exactly when that count exceeds a non-empty handle list, that is when `inflight_limit < 0` |
| Submission.KnownBound | pyphi/compute/parallel.py:488-496 | Under the guarantee of `ray.wait`, the handles known finished before submission `i` are all earlier ones and number at least `i - inflight_limit` |
| Seqs.Zip | pyphi/compute/parallel.py:659 | `zip(*xss)`: as many tuples as the shortest input, tuple `i` holding item `i` of every input |
| Seqs.Chunked | pyphi/compute/parallel.py:659 | `chunked(xs, size)`: non-empty pieces of at most `size` items, all but the last exactly `size`, that concatenate back to `xs` |
| Seqs.AlignedChunks | pyphi/compute/parallel.py:659 | Each child receives one piece of every input, each piece non-empty and no longer than the chunk size or its input |
| Seqs.AlignedChunksPreserveZip | pyphi/compute/parallel.py:659 | The children's tuples, concatenated in child order, are exactly the tuples of `zip(*arglists)` |
| Seqs.AlignedChunksCount | pyphi/compute/parallel.py:659-663 | There are no more children than tuples, and a lone child holds every tuple |
| Tree.ClampChunksize | pyphi/compute/parallel.py:632-633 | A chunksize that is `None` stays `None`; any other is clamped into `[1, sys.maxsize]` |
| Tree.Decide | pyphi/compute/parallel.py:643-657 | Branches iff `parallel`, `level < max_depth`, `sequential_threshold < n` and `branch_factor > 1`. With a chunksize, the width is `max(chunksize, threshold)` and the child gets at most the chunksize. Without one, the width is at least 1 and strictly below `n` |
| Tree.HalfWidth | pyphi/compute/parallel.py:654-657 | `max(1, n // b + n % 2)` lies in `[1, n)` for `n >= 2` and `b >= 2` |
| Tree.ChildChunksize | pyphi/compute/parallel.py:650-652 | `chunksize // b ** (level + 1)` lies in `[0, chunksize]` and, once clamped, is smaller than any chunksize of at least two |
| Tree.Plan | pyphi/compute/parallel.py:624-657 | From a node's own arguments: it branches iff `parallel`, `level < max_depth`, `branch_factor > 1` and the clamped threshold is below the known length (a generator counting as infinite). The width is `max` of the clamped chunksize and threshold, or below the known length without a chunksize |
| Tree.ChildSmaller | pyphi/compute/parallel.py:629-659 | Every child is strictly smaller than its parent in the lexicographic measure, so the recursion terminates even with an unbounded depth |
| Tree.Flatten | pyphi/compute/parallel.py:504-505 | The items of the child lists concatenated in order, as one list |
| Tree.FlattenAppend | pyphi/compute/parallel.py:504-505 | Flattening distributes over concatenation |
| Tree.FlattenMapped | pyphi/compute/parallel.py:690-699 | Flattening children that returned the mapped values of their tuples gives the mapped values of all their tuples, in order |
| Tree.Node | pyphi/compute/parallel.py:594-722 | With no `reduce_func`, every node returns a list; what the list holds is stated by `Tree.NodeIsFlatMap` |
| Tree.Children | pyphi/compute/parallel.py:659-688 | One result per aligned chunk, each a list when there is no `reduce_func`. The order (child `k` for chunk `k`) is fixed by the definition, not by this contract; `Tree.NodeIsFlatMap` relies on it to show the flattened results come in zip order |
| Tree.NodeIsFlatMap | pyphi/compute/parallel.py:647-718 | With no `reduce_func` and a sentinel that never cuts (`_NoShortCircuit`, or a plain value that `func` returns for no tuple, which then also equals no child's list), a node at any level returns `[func(*t) for t in zip(*arglists)]`, whatever the branch factor, chunksize, threshold and depth |
| Tree.RootDepth | pyphi/compute/parallel.py:635-636 | The given `max_depth`; without one, unbounded exactly when `max_size` is `None`, else at least one with the next level reaching `max_size` |
| Tree.WaitFails | pyphi/compute/parallel.py:663-668 | A submission loop in the tree, at this node or below it, raises only with `parallel`, a negative `inflight_limit` and at least two tuples at this node |
| Tree.RootFails | pyphi/compute/parallel.py:663-668 | The same, for the call from outside |
| Tree.MapReduceTree | pyphi/compute/parallel.py:621-645 | Raises `ValueError` for no lists, and under `parallel` without a chunksize when no input has a length, exactly in those cases. Otherwise it fails exactly when a submission loop raises, which needs `parallel`, a negative limit and two tuples. Without `parallel` it is always a single leaf |
| Tree.MapReduceTreeIsFlatMap | pyphi/compute/parallel.py:594-722 | With no `reduce_func`, a sentinel that never cuts (as for `Tree.NodeIsFlatMap`) and no failing submission, the tree's result is the flat map |
| Tree.Map | pyphi/compute/parallel.py:508-557 | Raises `ValueError` exactly for no lists. Under `parallel` it is `_map_reduce_tree` with no reduce; otherwise the short-circuited local map as a list |
| Tree.MapParallelAgrees | pyphi/compute/parallel.py:529-557 | With a sentinel that never cuts, `map` returns the same list in parallel and locally. A sentinel that matches does not give this: see `Tree.MapParallelKeepsLaterLeaves` |
| Tree.MapParallelKeepsLaterLeaves | pyphi/compute/parallel.py:690-699 | Under `parallel`, a matching sentinel stops only the leaf it occurs in: the branch compares it with its children's lists, so the other leaves still run and are collected. With `map`'s defaults, `map(lambda x: x, [1, 2], shortcircuit_value=1)` gives `[1, 2]`, and the same call with `parallel=False` gives `[1]`, although the docstring (line 527) says `map` returns early on that value |
| Tree.MapReduceSequentialAsWritten | pyphi/compute/parallel.py:577-587 | As written: no lists raise `ValueError`; no `reduce_func` raises `TypeError`; otherwise `reduce_func` of the short-circuited map |
| Tree.MapReduceSequential | pyphi/compute/parallel.py:577-587 | Corrected: no `reduce_func` returns the short-circuited map itself, as the tree's leaf does |
| Tree.MapReduceAsWritten | pyphi/compute/parallel.py:729-740 | As written: dispatches on `parallel` to the tree or to `_map_reduce_sequential` as written, so with no `reduce_func` and `parallel=False` it raises `TypeError` |
| Tree.MapReduce | pyphi/compute/parallel.py:729-740 | Corrected: the same dispatch over the corrected sequential path; raises `ValueError` exactly for no lists |
| Tree.MapReducePathsAgree | pyphi/compute/parallel.py:729-740 | With the corrected sequential path, both paths of `map_reduce` return the same list when there is no `reduce_func` and the sentinel never cuts |
| Tree.MapReduceAsWrittenDisagrees | pyphi/compute/parallel.py:577-587 | As written, for every non-empty input with no `reduce_func` and a sentinel that never cuts, whose submission loops do not raise, `map_reduce` returns the mapped list in parallel and raises `TypeError` sequentially |
| Engine.RunSequential | pyphi/compute/parallel.py:297-317 | Returns the fold of `process_result` over `compute(obj)` from `empty_result`, over the items up to and including the first one that leaves `done` set, or over all items. The number of progress updates is the length of that prefix: at least one for a non-empty input |

## Left out

- `MapReduce.run_parallel`, `start_parallel`, `worker`, `initialize_tasks`, `maybe_put_task`, `finish_parallel`, and `run(parallel=True)`: process queues, poison pills and events are concurrency plumbing. `run(parallel=False)` is `Engine.RunSequential`.
- `LogThread`, `configure_worker_logging`, `ExceptionWrapper`: logging I/O and cross-process exception transport.
- `init`, `as_completed`, `cancel_all`, and `ray.get` / `ray.cancel`: distributed runtime calls. `ray.wait` keeps only the behaviour listed above. `cancel_all` keeps only how many items it draws from a generator.
- Completion order: `get(parallel=True)` collects results as they finish. The model collects them in submission order.
- Callback effects: a callback other than `cancel_all` is known only by how many items it draws. In the tree, only the values are computed; cancellations are ignored.
- Progress bars (`tqdm`, `progress`, `desc`, `total`): display only.
- Floats: `max_size` and `max_depth` are integers or `None`. `float('inf')` passed explicitly, and the `int(i)` truncation of a float in `_enforce_positive_integer`, are not modelled.
- Exceptions raised by `map_func`, `reduce_func`, `compute` or `process_result`: these are total functions here.
- `reduce_kwargs` and extra `**kwargs`: they are taken to be already bound into `map_func` and `reduce_func`.
- Default argument values (`chunksize=1` for `map`, `None` for `_map_reduce_tree`): `Options` always carries explicit values.
- Generators are finite sequences without a length, produced one item per `func` call in `Gather.MapLocal`. A generator handed to `_map_reduce_tree` is only chunked; its one-shot consumption there is not modelled.
- `sys.maxsize` is the 64-bit value.
- Tree.Node: computes a node's value as if no submission loop below it raises. `Tree.MapReduceTree` decides failure separately through `Tree.RootFails`. This is exact: a loop raises at a node's second child, so a failure below the root can only sit at the end of a chain of single children, and it reaches the root first. The contents of a node's list under a sentinel that matches are stated only for a leaf, through `Tree.MapReduceTree` without `parallel`, and by the example `Tree.MapParallelKeepsLaterLeaves`: with no `reduce_func`, a branch never stops on a plain sentinel, because it compares it with its children's lists.

## Findings

| source | as written | input that shows it | evidently intended | confidence | as-written member | corrected member |
|---|---|---|---|---|---|---|
| pyphi/compute/parallel.py:577-587 | `_map_reduce_sequential` calls `reduce_func(...)` unconditionally, so `map_reduce(f, None, xs, parallel=False)` calls `None` and raises `TypeError` | `map_reduce(f, None, [1], parallel=False)`, where `parallel=True` returns `[f(1)]` | no `reduce_func` returns the mapped list, as the tree does at a leaf (717-718) and a branch (690-691) | medium; not executed | Tree.MapReduceAsWritten (through Tree.MapReduceSequentialAsWritten; disagreement proved in Tree.MapReduceAsWrittenDisagrees) | Tree.MapReduce (through Tree.MapReduceSequential; agreement proved in Tree.MapReducePathsAgree) |
