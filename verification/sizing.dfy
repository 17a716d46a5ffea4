/** The integer arithmetic that decides how much work the engine creates: the
    worker count, clamping of user-supplied sizes, known input lengths, and the
    size and depth of the task tree. */
module Sizing {
  import opened Wrappers
  import opened Errors
  import Seqs

  /** `sys.maxsize` on a 64-bit interpreter. */
  const SysMaxSize: int := 0x7FFF_FFFF_FFFF_FFFF

  /** `get_num_processes`: the configured `NUMBER_OF_CORES` against the machine's
      `cpu_count`. Zero is refused; a request above the machine is capped; a
      negative request counts back from the machine size (-1 is "all cores"), and
      is refused when it leaves no core. */
  function GetNumProcesses(cores: int, cpuCount: nat): (r: Result<nat, Error>)
    ensures r.Failure? <==> cores == 0 || (cores < 0 && cpuCount + cores + 1 <= 0)
    ensures r.Failure? && cores == 0 ==> r.error == CoresZero
    ensures r.Failure? && cores != 0 ==> r.error == CoresTooNegative(cpuCount + cores + 1, cpuCount)
    ensures r.Success? && cpuCount >= 1 ==> 1 <= r.value <= cpuCount
    ensures r.Success? && 0 < cores <= cpuCount ==> r.value == cores
    ensures r.Success? && cores > cpuCount ==> r.value == cpuCount
    ensures r.Success? && cores < 0 ==> r.value == cpuCount + cores + 1
  {
    if cores == 0 then Failure(CoresZero)
    else if cores > cpuCount then Success(cpuCount)
    else if cores < 0 then
      var num := cpuCount + cores + 1;
      if num <= 0 then Failure(CoresTooNegative(num, cpuCount)) else Success(num)
    else Success(cores)
  }

  /** `_enforce_positive_integer`: clamp into `[1, sys.maxsize]`. */
  function EnforcePositiveInteger(i: int): (r: int)
    ensures 1 <= r <= SysMaxSize
    ensures 1 <= i <= SysMaxSize ==> r == i
    ensures i < 1 ==> r == 1
    ensures i > SysMaxSize ==> r == SysMaxSize
  {
    Seqs.Min(Seqs.Max(i, 1), SysMaxSize)
  }

  /** Clamping twice is clamping once, so a child that clamps what its parent
      already clamped sees the same value. */
  lemma EnforceIdempotent(i: int)
    ensures EnforcePositiveInteger(EnforcePositiveInteger(i)) == EnforcePositiveInteger(i)
  {
  }

  /** One positional input: its items, and whether Python's `len` works on it
      (a list does; a generator does not). */
  datatype ArgList<T> = ArgList(items: seq<T>, sized: bool)

  /** The items of every input, whether or not it has a length. */
  function Items<T>(lists: seq<ArgList<T>>): (xss: seq<seq<T>>)
    ensures |xss| == |lists|
    ensures forall j {:trigger xss[j]} :: 0 <= j < |lists| ==> xss[j] == lists[j].items
  {
    seq(|lists|, j requires 0 <= j < |lists| => lists[j].items)
  }

  /** Python lists built from `xss`, as the chunks handed to a child task are. */
  function Sized<T>(xss: seq<seq<T>>): (lists: seq<ArgList<T>>)
    ensures |lists| == |xss|
    ensures forall j {:trigger lists[j]} :: 0 <= j < |xss| ==> lists[j] == ArgList(xss[j], true)
    ensures Items(lists) == xss
  {
    var lists := seq(|xss|, j requires 0 <= j < |xss| => ArgList(xss[j], true));
    assert forall j :: 0 <= j < |xss| ==> Items(lists)[j] == xss[j];
    lists
  }

  /** `_try_len`. */
  function TryLen<T>(a: ArgList<T>): (r: Option<nat>)
    ensures r.Some? <==> a.sized
    ensures r.Some? ==> r.value == |a.items|
  {
    if a.sized then Some(|a.items|) else None
  }

  /** `_try_lens`: the least known length, or nothing when no input has one. */
  function TryLens<T>(lists: seq<ArgList<T>>): (r: Option<nat>)
    ensures r.None? <==> forall j :: 0 <= j < |lists| ==> !lists[j].sized
    ensures r.Some? ==> exists j :: 0 <= j < |lists| && lists[j].sized && r.value == |lists[j].items|
    ensures r.Some? ==> forall j :: 0 <= j < |lists| && lists[j].sized ==> r.value <= |lists[j].items|
  {
    if |lists| == 0 then None
    else
      var rest := TryLens(lists[1..]);
      assert forall j :: 1 <= j < |lists| ==> lists[j] == lists[1..][j - 1];
      match (TryLen(lists[0]), rest)
      case (None, _) => rest
      case (Some(a), None) => Some(a)
      case (Some(a), Some(b)) => Some(Seqs.Min(a, b))
  }

  /** When every input has a length, the known minimum is the true shortest length,
      so it is the number of tuples `zip` produces. */
  lemma TryLensAllSized<T>(lists: seq<ArgList<T>>, xss: seq<seq<T>>)
    requires |lists| >= 1 && |xss| == |lists|
    requires forall j :: 0 <= j < |lists| ==> lists[j].sized && lists[j].items == xss[j]
    ensures TryLens(lists) == Some(Seqs.MinLen(xss))
  {
    var r := TryLens(lists);
    var j :| 0 <= j < |lists| && lists[j].sized && r.value == |lists[j].items|;
    Seqs.MinLenIs(xss, r.value, j);
  }

  function Pow(b: int, e: nat): int {
    if e == 0 then 1 else b * Pow(b, e - 1)
  }

  lemma {:induction false} PowPositive(b: int, e: nat)
    requires b >= 1
    ensures Pow(b, e) >= 1
  {
    if e > 0 {
      PowPositive(b, e - 1);
    }
  }

  lemma {:induction false} PowOne(e: nat)
    ensures Pow(1, e) == 1
  {
    if e > 0 {
      PowOne(e - 1);
    }
  }

  lemma {:induction false} PowAtLeastBase(b: int, e: nat)
    requires b >= 2 && e >= 1
    ensures Pow(b, e) >= b
  {
    if e > 1 {
      PowAtLeastBase(b, e - 1);
    }
  }

  /** `tree_size`: the number of nodes of a complete tree with `depth` levels; a
      branch factor below one makes it the depth itself. */
  function TreeSize(b: int, depth: int): (size: int)
    ensures b < 1 ==> size == depth
    ensures b == 1 ==> size == Seqs.Max(depth, 0)
    ensures b >= 1 ==> size >= Seqs.Max(depth, 0)
  {
    if b < 1 then depth else LevelSum(b, depth)
  }

  /** `sum(b ** l for l in range(depth))`; an empty range for `depth <= 0`. Each
      level holds at least one node, and exactly one when `b` is one. */
  function LevelSum(b: int, depth: int): (sum: int)
    requires b >= 1
    ensures depth <= 0 ==> sum == 0
    ensures sum >= Seqs.Max(depth, 0)
    ensures b == 1 ==> sum == Seqs.Max(depth, 0)
    decreases depth
  {
    if depth <= 0 then 0
    else
      PowPositive(b, depth - 1);
      PowOne(depth - 1);
      LevelSum(b, depth - 1) + Pow(b, depth - 1)
  }

  /** The shape of the sum: nothing for no levels, and each further level adds
      `b ** depth` nodes. */
  lemma TreeSizeStep(b: int, depth: nat)
    requires b >= 1
    ensures TreeSize(b, 0) == 0
    ensures TreeSize(b, depth + 1) == TreeSize(b, depth) + Pow(b, depth)
  {
  }

  /** A tree is never smaller than its depth, whatever the branch factor. */
  lemma {:induction false} TreeSizeAtLeastDepth(b: int, depth: int)
    ensures TreeSize(b, depth) >= depth
    decreases depth
  {
    if b >= 1 && depth > 0 {
      TreeSizeAtLeastDepth(b, depth - 1);
      PowPositive(b, depth - 1);
    }
  }

  /** Deeper trees are at least as large. */
  lemma {:induction false} TreeSizeMonotone(b: int, d1: int, d2: int)
    requires d1 <= d2
    ensures TreeSize(b, d1) <= TreeSize(b, d2)
    decreases d2 - d1
  {
    if d1 < d2 && b >= 1 {
      TreeSizeMonotone(b, d1, d2 - 1);
      if d2 > 0 {
        PowPositive(b, d2 - 1);
      }
    }
  }

  /** The geometric closed form of the node count: `(b - 1) * tree_size(b, d) ==
      b ** d - 1` for a branching tree. */
  lemma {:induction false} TreeSizeClosedForm(b: int, depth: nat)
    requires b >= 2
    ensures (b - 1) * TreeSize(b, depth) == Pow(b, depth) - 1
  {
    if depth > 0 {
      TreeSizeClosedForm(b, depth - 1);
      TreeSizeStep(b, depth - 1);
      GeometricStep(b, TreeSize(b, depth - 1), Pow(b, depth - 1));
    }
  }

  /** One level of the closed form, as plain arithmetic. */
  lemma GeometricStep(b: int, t: int, p: int)
    requires (b - 1) * t == p - 1
    ensures (b - 1) * (t + p) == b * p - 1
  {
    assert (b - 1) * (t + p) == (b - 1) * t + (b - 1) * p;
  }

  /** A bound on recursion depth: `float('inf')` is `Unbounded`. */
  datatype Depth = Finite(d: int) | Unbounded

  /** `level < max_depth` with an infinite `max_depth` allowed. */
  predicate Below(level: int, maxDepth: Depth): (b: bool)
    ensures maxDepth.Unbounded? ==> b
    ensures maxDepth.Finite? ==> (b <==> level < maxDepth.d)
  {
    maxDepth.Unbounded? || level < maxDepth.d
  }

  /** `get_depth`: no bound for a missing `max_size`; otherwise the least depth
      from one upwards at which the tree one level deeper reaches `max_size`. */
  function GetDepth(maxSize: Option<int>, b: int): (r: Depth)
    ensures maxSize.None? <==> r.Unbounded?
    ensures r.Finite? ==> r.d >= 1 && TreeSize(b, r.d + 1) >= maxSize.value
    ensures r.Finite? ==> forall k :: 2 <= k <= r.d ==> TreeSize(b, k) < maxSize.value
  {
    match maxSize
    case None => Unbounded
    case Some(m) => Finite(DepthFrom(m, b, 1))
  }

  /** The `while` loop of `get_depth`, entered at `depth`. */
  function DepthFrom(m: int, b: int, depth: int): (r: int)
    requires depth >= 1
    requires forall k :: 2 <= k <= depth ==> TreeSize(b, k) < m
    ensures r >= depth && TreeSize(b, r + 1) >= m
    ensures forall k :: 2 <= k <= r ==> TreeSize(b, k) < m
    decreases m - depth
  {
    if TreeSize(b, depth + 1) < m then
      TreeSizeAtLeastDepth(b, depth + 1);
      DepthFrom(m, b, depth + 1)
    else depth
  }

  /** Any depth that satisfies the loop's exit test and none before it is the one
      `get_depth` returns. */
  lemma GetDepthLeast(m: int, b: int, d: int)
    requires d >= 1 && TreeSize(b, d + 1) >= m
    requires forall k :: 2 <= k <= d ==> TreeSize(b, k) < m
    ensures GetDepth(Some(m), b) == Finite(d)
  {
  }

  /** `get_depth` does not keep the tree within `max_size`: for `max_size == 5` and
      `branch_factor == 2` it returns 2, and the tree that branches while
      `level < 2` has 3 levels, 7 nodes. */
  lemma GetDepthExceedsExample()
    ensures GetDepth(Some(5), 2) == Finite(2)
    ensures TreeSize(2, 3) == 7
  {
    assert LevelSum(2, 2) == 3;
    assert LevelSum(2, 3) == 7;
    GetDepthLeast(5, 2, 2);
  }
}
