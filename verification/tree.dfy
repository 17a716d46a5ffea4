/** `_map_reduce_tree` and the entry points built on it (`map`, `map_reduce`,
    `_map_reduce_sequential`). Every remote task becomes a direct recursive call;
    the results of a node's children are collected in submission order. */
module Tree {
  import opened Wrappers
  import opened Errors
  import opened Seqs
  import opened Sizing
  import opened Gather

  /** A Python value flowing through the tree: something `map_func` returned, or a
      list (what a leaf or `flatten` returns when there is no `reduce_func`). */
  datatype Value<R> = Atom(r: R) | List(items: seq<Value<R>>)

  /** The keyword arguments of `_map_reduce_tree` that shape the computation.
      `maxSize`, `maxDepth` and `chunksize` use `None` as the source does. */
  datatype Options<R> = Options(
    chunksize: Option<int>,
    sequentialThreshold: int,
    maxSize: Option<int>,
    maxDepth: Option<int>,
    branchFactor: int,
    sentinel: Sentinel<Value<R>>,
    inflightLimit: int,
    parallel: bool)

  /** What a node does: compute locally, or split into children of `width` items
      per input, handing them `childChunksize`. */
  datatype Step = Leaf | Branch(width: nat, childChunksize: Option<int>)

  /** `EnforcePositiveInteger` on a chunksize that may be `None`. */
  function ClampChunksize(cs: Option<int>): (r: Option<int>)
    ensures r.Some? <==> cs.Some?
    ensures r.Some? ==> 1 <= r.value <= SysMaxSize
    ensures r.Some? ==> r.value == EnforcePositiveInteger(cs.value)
  {
    match cs
    case None => None
    case Some(c) => Some(EnforcePositiveInteger(c))
  }

  /** The branch test and the chunk-size choice of a node at `level`, given the
      clamped threshold `st` and chunksize `cs`, and the known input length `n`
      (`None` standing for the infinite length of a generator). Without
      `parallel` the depth bound is zero, so the node is a leaf. */
  function Decide(parallel: bool, level: nat, maxDepth: Depth, n: Option<nat>, st: int,
                  cs: Option<int>, bf: int): (s: Step)
    requires st >= 1 && (cs.Some? ==> cs.value >= 1)
    requires parallel && n.None? ==> cs.Some?
    ensures s.Branch? <==> parallel && Below(level, maxDepth) && (n.None? || st < n.value) && bf > 1
    ensures s.Branch? ==> s.width >= 1 && (s.childChunksize.Some? <==> cs.Some?)
    ensures s.Branch? && cs.Some? ==> s.width == Max(cs.value, st)
    ensures s.Branch? && cs.Some? ==> 0 <= s.childChunksize.value <= cs.value
    ensures s.Branch? && cs.None? ==> s.width < n.value
  {
    var depth := if parallel then maxDepth else Finite(0);
    if Below(level, depth) && (n.None? || st < n.value) && bf > 1 then
      if cs.Some? then
        Branch(Max(cs.value, st), Some(ChildChunksize(cs.value, bf, level)))
      else
        Branch(HalfWidth(n.value, bf), None)
    else Leaf
  }

  /** `max(1, (n // branch_factor) + n % 2)`: the chunk size when none is given.
      Rounding odd sizes up keeps it strictly below `n`, so the children are
      strictly smaller than their parent. */
  function HalfWidth(n: nat, bf: int): (w: nat)
    requires n >= 2 && bf >= 2
    ensures 1 <= w < n
  {
    HalfWidthBelow(n, bf);
    Max(1, n / bf + n % 2)
  }

  lemma HalfWidthBelow(n: nat, bf: int)
    requires n >= 2 && bf >= 2
    ensures n / bf + n % 2 < n
  {
    var q := n / bf;
    assert q * bf <= n;
    assert q * 2 <= q * bf;
    if n == 2 {
      assert q <= 1;
    }
  }

  /** `chunksize // (branch_factor ** (level + 1))`: what a branching node hands
      its children. It can reach zero; the child clamps it back to one. */
  function ChildChunksize(c: int, bf: int, level: nat): (r: int)
    requires c >= 1 && bf >= 2
    ensures 0 <= r <= c
    ensures c >= 2 ==> EnforcePositiveInteger(r) < c
  {
    ChildChunksizeShrinks(c, bf, level);
    c / Pow(bf, level + 1)
  }

  /** Dividing a chunksize of at least two by a power of a branch factor of at least
      two makes it strictly smaller, even after clamping back up to one. */
  lemma ChildChunksizeShrinks(c: int, bf: int, level: nat)
    requires c >= 1 && bf >= 2
    ensures Pow(bf, level + 1) >= 2 && 0 <= c / Pow(bf, level + 1) <= c
    ensures c >= 2 ==> EnforcePositiveInteger(c / Pow(bf, level + 1)) < c
  {
    PowAtLeastBase(bf, level + 1);
    QuotientAtMostHalf(c, Pow(bf, level + 1));
  }

  /** Dividing by at least two at least halves a positive number. */
  lemma QuotientAtMostHalf(c: int, p: int)
    requires c >= 1 && p >= 2
    ensures 0 <= c / p && c / p * 2 <= c
  {
    var q, m := c / p, c % p;
    assert c == q * p + m && 0 <= m;
    assert q * p - q * 2 == q * (p - 2);
    assert q * (p - 2) >= 0;
  }

  /** Whether the measure's middle component can still drop: zero once every input
      is a list no longer than the threshold, which a node only reaches as a leaf. */
  function Flag<T>(lists: seq<ArgList<T>>, st: int): nat {
    if (forall j :: 0 <= j < |lists| ==> lists[j].sized) && MaxLen(Items(lists)) <= EnforcePositiveInteger(st)
    then 0 else 1
  }

  /** The last component of the measure: the clamped chunksize, zero without one. */
  function ChunkMeasure(cs: Option<int>): nat {
    match cs
    case None => 0
    case Some(c) => EnforcePositiveInteger(c)
  }

  /** What `func` produces for every tuple, as values. */
  function Mapped<T, R>(f: seq<T> -> R, tuples: seq<seq<T>>): (vs: seq<Value<R>>)
    ensures |vs| == |tuples|
    ensures forall i :: 0 <= i < |vs| ==> vs[i] == Atom(f(tuples[i]))
  {
    seq(|tuples|, i requires 0 <= i < |tuples| => Atom(f(tuples[i])))
  }

  lemma MappedAppend<T, R>(f: seq<T> -> R, a: seq<seq<T>>, b: seq<seq<T>>)
    ensures Mapped(f, a + b) == Mapped(f, a) + Mapped(f, b)
  {
    assert forall i :: 0 <= i < |a + b| ==> Mapped(f, a + b)[i] == (Mapped(f, a) + Mapped(f, b))[i];
  }

  /** The items of every list in `vs`. */
  function ListItems<R>(vs: seq<Value<R>>): (xss: seq<seq<Value<R>>>)
    requires forall i :: 0 <= i < |vs| ==> vs[i].List?
    ensures |xss| == |vs|
    ensures forall i {:trigger xss[i]} :: 0 <= i < |vs| ==> xss[i] == vs[i].items
  {
    seq(|vs|, i requires 0 <= i < |vs| => vs[i].items)
  }

  /** `flatten`: one level of nesting removed, the items of the first list first. */
  function Flatten<R>(vs: seq<Value<R>>): (v: Value<R>)
    requires forall i :: 0 <= i < |vs| ==> vs[i].List?
    ensures v.List? && v.items == Concat(ListItems(vs))
  {
    List(Concat(ListItems(vs)))
  }

  /** Flattening distributes over concatenation: flattening two batches of child
      results and joining them is flattening them together. */
  lemma FlattenAppend<R>(a: seq<Value<R>>, b: seq<Value<R>>)
    requires forall i :: 0 <= i < |a| ==> a[i].List?
    requires forall i :: 0 <= i < |b| ==> b[i].List?
    ensures Flatten(a + b).items == Flatten(a).items + Flatten(b).items
  {
    assert ListItems(a + b) == ListItems(a) + ListItems(b);
    ConcatAppend(ListItems(a), ListItems(b));
  }

  /** Children that each return the mapped values of their tuples flatten to the
      mapped values of all their tuples, in child order. */
  lemma {:induction false} FlattenMapped<T, R>(f: seq<T> -> R, kids: seq<seq<seq<T>>>, vals: seq<Value<R>>)
    requires |vals| == |kids|
    requires forall k :: 0 <= k < |kids| ==> vals[k] == List(Mapped(f, Zip(kids[k])))
    ensures Flatten(vals) == List(Mapped(f, ZipsOf(kids)))
    decreases |kids|
  {
    if |kids| > 0 {
      FlattenMapped(f, kids[1..], vals[1..]);
      assert ListItems(vals) == [vals[0].items] + ListItems(vals[1..]);
      MappedAppend(f, Zip(kids[0]), ZipsOf(kids[1..]));
    } else {
      assert ListItems(vals) == [];
    }
  }

  /** A node's decision from its own arguments: the length is taken from the inputs
      and the threshold and chunksize are clamped first. */
  function Plan<T>(lists: seq<ArgList<T>>, cs: Option<int>, st: int, bf: int, level: nat,
                   parallel: bool, maxDepth: Depth): (step: Step)
    requires parallel ==> TryLens(lists).Some? || cs.Some?
    ensures step.Branch? <==>
              parallel && Below(level, maxDepth) && bf > 1
              && (TryLens(lists).None? || EnforcePositiveInteger(st) < TryLens(lists).value)
    ensures step.Branch? && cs.Some? ==>
              step.width == Max(EnforcePositiveInteger(cs.value), EnforcePositiveInteger(st))
    ensures step.Branch? && cs.None? ==> 1 <= step.width < TryLens(lists).value
  {
    Decide(parallel, level, maxDepth, TryLens(lists), EnforcePositiveInteger(st), ClampChunksize(cs), bf)
  }

  /** Lists handed to a child have a length, so only their longest length decides
      the flag. */
  lemma FlagOfSized<T>(xss: seq<seq<T>>, st: int)
    ensures Flag(Sized(xss), st) == if MaxLen(xss) <= EnforcePositiveInteger(st) then 0 else 1
  {
  }

  /** A zero flag means every length is known and within the threshold. */
  lemma FlagZero<T>(lists: seq<ArgList<T>>, st: int)
    requires |lists| >= 1 && Flag(lists, st) == 0
    ensures TryLens(lists).Some? && TryLens(lists).value <= EnforcePositiveInteger(st)
  {
    var n := TryLens(lists);
    assert lists[0].sized;
    var j :| 0 <= j < |lists| && lists[j].sized && n.value == |lists[j].items|;
    assert Items(lists)[j] == lists[j].items;
  }

  /** A known length is the length of some input, so no more than the longest. */
  lemma KnownAtMostLongest<T>(lists: seq<ArgList<T>>)
    ensures TryLens(lists).Some? ==> TryLens(lists).value <= MaxLen(Items(lists))
  {
    var n := TryLens(lists);
    if n.Some? {
      var j :| 0 <= j < |lists| && lists[j].sized && n.value == |lists[j].items|;
      assert Items(lists)[j] == lists[j].items;
    }
  }

  /** The termination argument: every child is smaller than its parent in the
      lexicographic order on (longest input, `Flag`, clamped chunksize). Without a
      chunksize the width is below the known length. With one, either the inputs
      get shorter, or they already fit in one chunk: then a parent holding a
      generator hands its child lists within the threshold, and otherwise the
      chunksize is above the threshold and is divided by at least two. */
  lemma ChildSmaller<T>(lists: seq<ArgList<T>>, cs: Option<int>, st: int, bf: int, level: nat,
                        parallel: bool, maxDepth: Depth, k: nat)
    requires |lists| >= 1
    requires parallel ==> TryLens(lists).Some? || cs.Some?
    requires Plan(lists, cs, st, bf, level, parallel, maxDepth).Branch?
    requires k < |AlignedChunks(Items(lists), Plan(lists, cs, st, bf, level, parallel, maxDepth).width)|
    ensures var step := Plan(lists, cs, st, bf, level, parallel, maxDepth);
            var kid := Sized(AlignedChunks(Items(lists), step.width)[k]);
            var st1 := EnforcePositiveInteger(st);
            MaxLen(Items(kid)) < MaxLen(Items(lists))
            || (MaxLen(Items(kid)) == MaxLen(Items(lists))
                && (Flag(kid, st1) < Flag(lists, st)
                    || (Flag(kid, st1) == Flag(lists, st) && ChunkMeasure(step.childChunksize) < ChunkMeasure(cs))))
  {
    var step := Plan(lists, cs, st, bf, level, parallel, maxDepth);
    var xss := Items(lists);
    var kids := AlignedChunks(xss, step.width);
    var st1 := EnforcePositiveInteger(st);
    AlignedChunksShorter(xss, step.width, k);
    FlagOfSized(kids[k], st1);
    KnownAtMostLongest(lists);
    if Flag(lists, st) == 0 {
      FlagZero(lists, st);
    }
  }

  /** `_map_reduce_tree` below the root: decide, then either map locally (a leaf) or
      run one child per aligned chunk and reduce what `get` collects from them.
      A missing `reduce_func` means the raw list at a leaf and `flatten` at a
      branch. The sentinel is compared with leaf values and with child results. */
  function Node<T, R(==)>(f: seq<T> -> R, reduce: Option<seq<Value<R>> -> Value<R>>,
                          lists: seq<ArgList<T>>, cs: Option<int>, st: int, maxDepth: Depth,
                          bf: int, s: Sentinel<Value<R>>, parallel: bool, level: nat): (v: Value<R>)
    requires |lists| >= 1
    requires parallel ==> TryLens(lists).Some? || cs.Some?
    ensures reduce.None? ==> v.List?
    decreases MaxLen(Items(lists)), Flag(lists, st), ChunkMeasure(cs), 1
  {
    match Plan(lists, cs, st, bf, level, parallel, maxDepth)
    case Leaf =>
      var results := Prefix(Mapped(f, Zip(Items(lists))), s);
      if reduce.None? then List(results) else reduce.value(results)
    case Branch(_, _) =>
      var got := Prefix(Children(f, reduce, lists, cs, st, maxDepth, bf, s, parallel, level), s);
      if reduce.None? then Flatten(got) else reduce.value(got)
  }

  /** The results of a branching node's children, in submission order: child `k`
      gets the `k`-th chunk of every input, as lists, the clamped threshold, the
      divided chunksize, the same depth bound, and the next level. */
  function Children<T, R(==)>(f: seq<T> -> R, reduce: Option<seq<Value<R>> -> Value<R>>,
                              lists: seq<ArgList<T>>, cs: Option<int>, st: int, maxDepth: Depth,
                              bf: int, s: Sentinel<Value<R>>, parallel: bool, level: nat): (vals: seq<Value<R>>)
    requires |lists| >= 1
    requires parallel ==> TryLens(lists).Some? || cs.Some?
    requires Plan(lists, cs, st, bf, level, parallel, maxDepth).Branch?
    ensures |vals| == |AlignedChunks(Items(lists), Plan(lists, cs, st, bf, level, parallel, maxDepth).width)|
    ensures reduce.None? ==> forall k :: 0 <= k < |vals| ==> vals[k].List?
    decreases MaxLen(Items(lists)), Flag(lists, st), ChunkMeasure(cs), 0
  {
    var step := Plan(lists, cs, st, bf, level, parallel, maxDepth);
    var kids := AlignedChunks(Items(lists), step.width);
    seq(|kids|, k requires 0 <= k < |kids| =>
      ChildSmaller(lists, cs, st, bf, level, parallel, maxDepth, k);
      Node(f, reduce, Sized(kids[k]), step.childChunksize, EnforcePositiveInteger(st), maxDepth, bf, s,
           true, level + 1))
  }

  /** The sentinel can cut nowhere in a tree without `reduce_func`: it is
      `_NoShortCircuit`, or a plain value that `func` returns for none of the
      tuples. Child results are lists then, and a list never equals it. */
  ghost predicate NeverHit<T, R>(f: seq<T> -> R, tuples: seq<seq<T>>, s: Sentinel<Value<R>>) {
    s.NoShortCircuit? || (s.value.Atom? && forall t :: t in tuples ==> f(t) != s.value.r)
  }

  /** Such a sentinel matches none of the mapped values. */
  lemma NeverHitNoMatch<T, R>(f: seq<T> -> R, tuples: seq<seq<T>>, s: Sentinel<Value<R>>)
    requires NeverHit(f, tuples, s)
    ensures !AnyMatch(Mapped(f, tuples), s)
  {
    var vs := Mapped(f, tuples);
    forall i | 0 <= i < |vs|
      ensures !Matches(vs[i], s)
    {
      assert tuples[i] in tuples;
    }
  }

  /** A child sees a subset of its parent's tuples, so a sentinel that never cuts
      at the parent never cuts at the child. */
  lemma ChildNeverHit<T, R>(f: seq<T> -> R, xss: seq<seq<T>>, width: nat, s: Sentinel<Value<R>>, k: nat)
    requires |xss| >= 1 && width >= 1 && k < |AlignedChunks(xss, width)|
    requires NeverHit(f, Zip(xss), s)
    ensures NeverHit(f, Zip(AlignedChunks(xss, width)[k]), s)
  {
    var kids := AlignedChunks(xss, width);
    AlignedChunksPreserveZip(xss, width);
    forall t | t in Zip(kids[k])
      ensures t in Zip(xss)
    {
      ZipsOfMember(kids, k, t);
    }
  }

  /** Such a sentinel is `_NoShortCircuit` or a plain value, so it matches no list. */
  lemma ListsNeverMatch<R>(vals: seq<Value<R>>, s: Sentinel<Value<R>>)
    requires s.NoShortCircuit? || s.value.Atom?
    requires forall k :: 0 <= k < |vals| ==> vals[k].List?
    ensures !AnyMatch(vals, s)
  {
  }

  /** With no `reduce_func` and a sentinel that never cuts, a node at any level
      returns exactly `[func(*t) for t in zip(*arglists)]`: chunking, branching
      and flattening lose, repeat and reorder nothing, whatever the branch factor
      and chunk size. */
  lemma {:induction false} NodeIsFlatMap<T, R>(f: seq<T> -> R, lists: seq<ArgList<T>>, cs: Option<int>,
                                              st: int, maxDepth: Depth, bf: int, s: Sentinel<Value<R>>,
                                              parallel: bool, level: nat)
    requires |lists| >= 1
    requires parallel ==> TryLens(lists).Some? || cs.Some?
    requires NeverHit(f, Zip(Items(lists)), s)
    ensures Node(f, None, lists, cs, st, maxDepth, bf, s, parallel, level)
            == List(Mapped(f, Zip(Items(lists))))
    decreases MaxLen(Items(lists)), Flag(lists, st), ChunkMeasure(cs)
  {
    var step := Plan(lists, cs, st, bf, level, parallel, maxDepth);
    if step.Leaf? {
      NeverHitNoMatch(f, Zip(Items(lists)), s);
      PrefixWhole(Mapped(f, Zip(Items(lists))), s);
    } else {
      var vals := Children(f, None, lists, cs, st, maxDepth, bf, s, parallel, level);
      var kids := AlignedChunks(Items(lists), step.width);
      forall k | 0 <= k < |kids|
        ensures vals[k] == List(Mapped(f, Zip(kids[k])))
      {
        ChildNeverHit(f, Items(lists), step.width, s, k);
        ChildSmaller(lists, cs, st, bf, level, parallel, maxDepth, k);
        NodeIsFlatMap(f, Sized(kids[k]), step.childChunksize, EnforcePositiveInteger(st), maxDepth, bf,
                      s, true, level + 1);
      }
      ListsNeverMatch(vals, s);
      PrefixWhole(vals, s);
      FlattenMapped(f, kids, vals);
      AlignedChunksPreserveZip(Items(lists), step.width);
    }
  }

  /** The depth bound of the root: the given `max_depth`, or `get_depth(max_size,
      branch_factor)`. Children receive it unchanged. */
  function RootDepth<R>(o: Options<R>): (d: Depth)
    ensures o.maxDepth.Some? ==> d == Finite(o.maxDepth.value)
    ensures o.maxDepth.None? ==> (d.Unbounded? <==> o.maxSize.None?)
    ensures o.maxDepth.None? && d.Finite? ==> d.d >= 1 && TreeSize(o.branchFactor, d.d + 1) >= o.maxSize.value
  {
    if o.maxDepth.Some? then Finite(o.maxDepth.value) else GetDepth(o.maxSize, o.branchFactor)
  }

  /** Whether the submission loop of this node, or of a node below it, raises.
      With a negative `inflight_limit` the loop lets the first child through and
      raises at the second (see `Submission.SubmitAll`). A node with a single
      child therefore fails exactly when that child does, and the error reaches
      it first whatever the sentinel, since there is no other child to collect. */
  function WaitFails<T>(lists: seq<ArgList<T>>, cs: Option<int>, st: int, maxDepth: Depth, bf: int,
                        parallel: bool, level: nat, limit: int): (fails: bool)
    requires |lists| >= 1
    requires parallel ==> TryLens(lists).Some? || cs.Some?
    ensures fails ==> limit < 0 && parallel && MinLen(Items(lists)) >= 2
    decreases MaxLen(Items(lists)), Flag(lists, st), ChunkMeasure(cs)
  {
    var step := Plan(lists, cs, st, bf, level, parallel, maxDepth);
    if limit >= 0 || step.Leaf? then false
    else
      var kids := AlignedChunks(Items(lists), step.width);
      AlignedChunksCount(Items(lists), step.width);
      |kids| >= 2
      || (|kids| == 1
          && (ChildSmaller(lists, cs, st, bf, level, parallel, maxDepth, 0);
              WaitFails(Sized(kids[0]), step.childChunksize, EnforcePositiveInteger(st), maxDepth, bf,
                        true, level + 1, limit)))
  }

  /** Whether a call from outside raises in some submission loop. */
  function RootFails<T, R>(lists: seq<ArgList<T>>, o: Options<R>): (fails: bool)
    requires |lists| >= 1
    requires o.parallel ==> TryLens(lists).Some? || o.chunksize.Some?
    ensures fails ==> o.inflightLimit < 0 && o.parallel && MinLen(Items(lists)) >= 2
  {
    WaitFails(lists, o.chunksize, o.sequentialThreshold, RootDepth(o), o.branchFactor, o.parallel, 0,
              o.inflightLimit)
  }

  /** `_map_reduce_tree(map_func, reduce_func, *arglists, ...)` called from outside.
      It refuses no inputs, and generators under `parallel` without a chunksize;
      with a negative `inflight_limit` a submission loop may raise; nothing else
      fails. */
  function MapReduceTree<T, R(==)>(f: seq<T> -> R, reduce: Option<seq<Value<R>> -> Value<R>>,
                                   lists: seq<ArgList<T>>, o: Options<R>): (r: Result<Value<R>, Error>)
    ensures r == Failure(NoArguments) <==> |lists| == 0
    ensures r == Failure(ChunksizeRequired)
            <==> |lists| > 0 && o.parallel && TryLens(lists).None? && o.chunksize.None?
    ensures r == Failure(WaitTooMany)
            <==> |lists| > 0 && !(o.parallel && TryLens(lists).None? && o.chunksize.None?) && RootFails(lists, o)
    ensures r == Failure(WaitTooMany) ==> o.parallel && o.inflightLimit < 0 && MinLen(Items(lists)) >= 2
    ensures r.Failure? ==> r.error in {NoArguments, ChunksizeRequired, WaitTooMany}
    ensures r.Success? && !o.parallel ==>
              var results := Prefix(Mapped(f, Zip(Items(lists))), o.sentinel);
              r.value == if reduce.None? then List(results) else reduce.value(results)
  {
    if |lists| == 0 then Failure(NoArguments)
    else if o.parallel && TryLens(lists).None? && o.chunksize.None? then Failure(ChunksizeRequired)
    else if RootFails(lists, o) then Failure(WaitTooMany)
    else
      Success(Node(f, reduce, lists, o.chunksize, o.sequentialThreshold, RootDepth(o), o.branchFactor,
                   o.sentinel, o.parallel, 0))
  }

  /** When neither `ValueError` nor a submission loop stops it, the call from
      outside is the root node. */
  lemma MapReduceTreeIsRoot<T, R>(f: seq<T> -> R, reduce: Option<seq<Value<R>> -> Value<R>>,
                                  lists: seq<ArgList<T>>, o: Options<R>)
    requires |lists| >= 1
    requires o.parallel ==> TryLens(lists).Some? || o.chunksize.Some?
    requires !RootFails(lists, o)
    ensures MapReduceTree(f, reduce, lists, o)
            == Success(Node(f, reduce, lists, o.chunksize, o.sequentialThreshold, RootDepth(o), o.branchFactor,
                            o.sentinel, o.parallel, 0))
  {
  }

  /** With no `reduce_func`, a sentinel that never cuts and a usable
      configuration, the whole tree computes the flat map. */
  lemma MapReduceTreeIsFlatMap<T, R>(f: seq<T> -> R, lists: seq<ArgList<T>>, o: Options<R>)
    requires |lists| >= 1 && NeverHit(f, Zip(Items(lists)), o.sentinel)
    requires o.parallel ==> TryLens(lists).Some? || o.chunksize.Some?
    requires !RootFails(lists, o)
    ensures MapReduceTree(f, None, lists, o) == Success(List(Mapped(f, Zip(Items(lists)))))
  {
    MapReduceTreeIsRoot(f, None, lists, o);
    NodeIsFlatMap(f, lists, o.chunksize, o.sequentialThreshold, RootDepth(o), o.branchFactor, o.sentinel,
                  o.parallel, 0);
  }

  /** `func` lifted to produce values. */
  function Lift<T, R>(f: seq<T> -> R): seq<T> -> Value<R> {
    x => Atom(f(x))
  }

  lemma MappedIsLifted<T, R>(f: seq<T> -> R, xss: seq<seq<T>>)
    ensures MapSequential(Lift(f), xss) == Mapped(f, Zip(xss))
  {
    var a, b := MapSequential(Lift(f), xss), Mapped(f, Zip(xss));
    assert forall i :: 0 <= i < |a| ==> a[i] == b[i];
  }

  /** `map(func, *arglists, ...)`: refused without inputs; under `parallel` it is
      `_map_reduce_tree` with no `reduce_func`; otherwise the local lazy map,
      short-circuited and drained into a list. */
  function Map<T, R(==)>(f: seq<T> -> R, lists: seq<ArgList<T>>, o: Options<R>, cb: Callback)
    : (r: Result<Value<R>, Error>)
    ensures r == Failure(NoArguments) <==> |lists| == 0
    ensures !o.parallel && |lists| > 0 ==> r == Success(List(Prefix(Mapped(f, Zip(Items(lists))), o.sentinel)))
    ensures o.parallel ==> r == MapReduceTree(f, None, lists, o)
  {
    if |lists| == 0 then Failure(NoArguments)
    else if o.parallel then MapReduceTree(f, None, lists, o)
    else
      MappedIsLifted(f, Items(lists));
      Success(List(MapLocal(Lift(f), lists, o.sentinel, cb).value.cut.yielded))
  }

  /** With a sentinel that never cuts, `map` gives the same list in parallel and
      locally. */
  lemma MapParallelAgrees<T, R>(f: seq<T> -> R, lists: seq<ArgList<T>>, o: Options<R>, cb: Callback)
    requires |lists| >= 1 && NeverHit(f, Zip(Items(lists)), o.sentinel)
    requires TryLens(lists).Some? || o.chunksize.Some?
    requires !RootFails(lists, o.(parallel := true))
    ensures Map(f, lists, o.(parallel := true), cb) == Map(f, lists, o.(parallel := false), cb)
  {
    MapReduceTreeIsFlatMap(f, lists, o.(parallel := true));
    NeverHitNoMatch(f, Zip(Items(lists)), o.sentinel);
    PrefixWhole(Mapped(f, Zip(Items(lists))), o.sentinel);
  }

  /** The example below: `func` picks the first item of its tuple. */
  function First(t: seq<int>): int {
    if |t| > 0 then t[0] else 0
  }

  /** `zip` of a single list makes one-item tuples. */
  lemma ZipOfOnes()
    ensures Zip([[1, 2]]) == [[1], [2]]
  {
    MinLenIs([[1, 2]], 2, 0);
    ZipExt([[1, 2]], [[1], [2]]);
  }

  /** Chunks of one item split `[1, 2]` into two children. */
  lemma AlignedChunksOfOnes()
    ensures AlignedChunks([[1, 2]], 1) == [[[1]], [[2]]]
  {
    var none: seq<int> := [];
    assert Chunked(none, 1) == [];
    assert [2][..1] == [2] && [2][1..] == none;
    assert Chunked([2], 1) == [[2]];
    assert [1, 2][..1] == [1] && [1, 2][1..] == [2];
    assert Chunked([1, 2], 1) == [[1], [2]];
    var cs := ChunkEach([[1, 2]], 1);
    assert cs == [[[1], [2]]];
    MinLenIs(cs, 2, 0);
    ZipExt(cs, [[[1]], [[2]]]);
  }

  /** A child holding the single item `x` is a leaf, and it stops at its own item
      when that item is the sentinel. */
  lemma LeafOfOne(x: int)
    ensures Node(First, None, Sized([[x]]), Some(0), 1, Unbounded, 2, Stop(Atom(1)), true, 1) == List([Atom(x)])
  {
    var one := Sized([[x]]);
    assert Items(one) == [[x]];
    MinLenIs([[x]], 1, 0);
    ZipExt([[x]], [[x]]);
    assert Mapped(First, [[x]]) == [Atom(x)];
  }

  /** The root over `[1, 2]` with a chunksize of one branches into one-item
      chunks and hands its children a chunksize of `1 // 2 == 0`. */
  lemma PlanOfOnes()
    ensures Plan([ArgList([1, 2], true)], Some(1), 1, 2, 0, true, Unbounded) == Branch(1, Some(0))
  {
    assert TryLens([ArgList([1, 2], true)]) == Some(2);
  }

  /** Those children are the two leaves, collected in order. */
  lemma ChildrenOfOnes()
    ensures Plan([ArgList([1, 2], true)], Some(1), 1, 2, 0, true, Unbounded).Branch?
            && Children(First, None, [ArgList([1, 2], true)], Some(1), 1, Unbounded, 2, Stop(Atom(1)), true, 0)
            == [List([Atom(1)]), List([Atom(2)])]
  {
    var lists := [ArgList([1, 2], true)];
    PlanOfOnes();
    var vals := Children(First, None, lists, Some(1), 1, Unbounded, 2, Stop(Atom(1)), true, 0);
    var kids := AlignedChunks(Items(lists), 1);
    assert kids == [[[1]], [[2]]] by {
      assert Items(lists) == [[1, 2]];
      AlignedChunksOfOnes();
    }
    assert |vals| == 2;
    assert vals[0] == List([Atom(1)]) by {
      LeafOfOne(1);
    }
    assert vals[1] == List([Atom(2)]) by {
      LeafOfOne(2);
    }
  }

  /** The root flattens them: the sentinel is compared with the leaves' lists and
      matches neither. */
  lemma RootOfOnes()
    ensures Node(First, None, [ArgList([1, 2], true)], Some(1), 1, Unbounded, 2, Stop(Atom(1)), true, 0)
            == List([Atom(1), Atom(2)])
  {
    var s: Sentinel<Value<int>> := Stop(Atom(1));
    PlanOfOnes();
    ChildrenOfOnes();
    var vals := [List([Atom(1)]), List([Atom(2)])];
    ListsNeverMatch(vals, s);
    PrefixWhole(vals, s);
    FlattenOfOnes();
  }

  lemma FlattenOfOnes()
    ensures Flatten([List([Atom(1)]), List([Atom(2)])]) == List([Atom(1), Atom(2)])
  {
    assert ListItems([List([Atom(1)]), List([Atom(2)])]) == [[Atom(1)], [Atom(2)]];
    assert Concat([[Atom(1)], [Atom(2)]]) == [Atom(1), Atom(2)];
  }

  /** A sentinel that matches does not stop `map` across leaves under `parallel`:
      each leaf cuts its own results, but a branch compares the sentinel with its
      children's lists, which never equal a plain value, so every other leaf
      still runs and is collected. Locally the same call stops at the match. */
  lemma MapParallelKeepsLaterLeaves()
    ensures var o := Options(Some(1), 1, None, None, 2, Stop(Atom(1)), 1000, true);
            Map(First, [ArgList([1, 2], true)], o, CancelAll) == Success(List([Atom(1), Atom(2)]))
            && Map(First, [ArgList([1, 2], true)], o.(parallel := false), CancelAll) == Success(List([Atom(1)]))
  {
    var o := Options(Some(1), 1, None, None, 2, Stop(Atom(1)), 1000, true);
    var lists := [ArgList([1, 2], true)];
    assert Map(First, lists, o, CancelAll) == Success(List([Atom(1), Atom(2)])) by {
      assert !RootFails(lists, o);
      MapReduceTreeIsRoot(First, None, lists, o);
      RootOfOnes();
    }
    assert Map(First, lists, o.(parallel := false), CancelAll) == Success(List([Atom(1)])) by {
      assert Items(lists) == [[1, 2]];
      ZipOfOnes();
      assert Mapped(First, [[1], [2]]) == [Atom(1), Atom(2)];
      assert Prefix([Atom(1), Atom(2)], o.sentinel) == [Atom(1)];
    }
  }

  /** `_map_reduce_sequential` as written: `reduce_func(map(...))`. With no
      `reduce_func` it calls `None`, which raises `TypeError`. */
  function MapReduceSequentialAsWritten<T, R(==)>(f: seq<T> -> R, reduce: Option<seq<Value<R>> -> Value<R>>,
                                                  lists: seq<ArgList<T>>, o: Options<R>, cb: Callback)
    : (r: Result<Value<R>, Error>)
    ensures |lists| == 0 ==> r == Failure(NoArguments)
    ensures |lists| > 0 && reduce.None? ==> r == Failure(ReduceNotCallable)
    ensures |lists| > 0 && reduce.Some? ==>
              r == Success(reduce.value(Prefix(Mapped(f, Zip(Items(lists))), o.sentinel)))
  {
    var m := Map(f, lists, o.(parallel := false), cb);
    if m.Failure? then m
    else if reduce.None? then Failure(ReduceNotCallable)
    else Success(reduce.value(m.value.items))
  }

  /** The sequential path with the default the tree applies: no `reduce_func`
      means the mapped list itself. */
  function MapReduceSequential<T, R(==)>(f: seq<T> -> R, reduce: Option<seq<Value<R>> -> Value<R>>,
                                         lists: seq<ArgList<T>>, o: Options<R>, cb: Callback)
    : (r: Result<Value<R>, Error>)
    ensures r == Failure(NoArguments) <==> |lists| == 0
    ensures |lists| > 0 ==>
              var results := Prefix(Mapped(f, Zip(Items(lists))), o.sentinel);
              r == Success(if reduce.None? then List(results) else reduce.value(results))
  {
    var m := Map(f, lists, o.(parallel := false), cb);
    if m.Failure? || reduce.None? then m
    else Success(reduce.value(m.value.items))
  }

  /** `map_reduce(*args, parallel=..., **kwargs)` as written: the tree when
      parallel, `_map_reduce_sequential` as written otherwise, so with no
      `reduce_func` the sequential path raises. */
  function MapReduceAsWritten<T, R(==)>(f: seq<T> -> R, reduce: Option<seq<Value<R>> -> Value<R>>,
                                        lists: seq<ArgList<T>>, o: Options<R>, cb: Callback)
    : (r: Result<Value<R>, Error>)
    ensures r == Failure(NoArguments) <==> |lists| == 0
    ensures o.parallel ==> r == MapReduceTree(f, reduce, lists, o)
    ensures !o.parallel ==> r == MapReduceSequentialAsWritten(f, reduce, lists, o, cb)
    ensures !o.parallel && |lists| > 0 && reduce.None? ==> r == Failure(ReduceNotCallable)
  {
    if o.parallel then MapReduceTree(f, reduce, lists, o)
    else MapReduceSequentialAsWritten(f, reduce, lists, o, cb)
  }

  /** `map_reduce` corrected: the same dispatch over the corrected sequential
      path, which returns the mapped list when there is no `reduce_func`. */
  function MapReduce<T, R(==)>(f: seq<T> -> R, reduce: Option<seq<Value<R>> -> Value<R>>,
                               lists: seq<ArgList<T>>, o: Options<R>, cb: Callback)
    : (r: Result<Value<R>, Error>)
    ensures r == Failure(NoArguments) <==> |lists| == 0
    ensures o.parallel ==> r == MapReduceTree(f, reduce, lists, o)
    ensures !o.parallel ==> r == MapReduceSequential(f, reduce, lists, o, cb)
  {
    if o.parallel then MapReduceTree(f, reduce, lists, o)
    else MapReduceSequential(f, reduce, lists, o, cb)
  }

  /** The two paths of `map_reduce` agree when there is no `reduce_func`: under
      `parallel` the tree flattens, and the corrected sequential path returns the
      mapped list. */
  lemma MapReducePathsAgree<T, R>(f: seq<T> -> R, lists: seq<ArgList<T>>, o: Options<R>, cb: Callback)
    requires |lists| >= 1 && NeverHit(f, Zip(Items(lists)), o.sentinel)
    requires TryLens(lists).Some? || o.chunksize.Some?
    requires !RootFails(lists, o.(parallel := true))
    ensures MapReduce(f, None, lists, o.(parallel := true), cb)
            == MapReduce(f, None, lists, o.(parallel := false), cb)
  {
    MapReduceTreeIsFlatMap(f, lists, o.(parallel := true));
    NeverHitNoMatch(f, Zip(Items(lists)), o.sentinel);
    PrefixWhole(Mapped(f, Zip(Items(lists))), o.sentinel);
  }

  /** As written, the two paths of `map_reduce` disagree on every non-empty input
      when there is no `reduce_func`: the tree returns the mapped list, the
      sequential path raises. */
  lemma MapReduceAsWrittenDisagrees<T, R>(f: seq<T> -> R, lists: seq<ArgList<T>>, o: Options<R>, cb: Callback)
    requires |lists| >= 1 && NeverHit(f, Zip(Items(lists)), o.sentinel)
    requires TryLens(lists).Some? || o.chunksize.Some?
    requires !RootFails(lists, o.(parallel := true))
    ensures MapReduceAsWritten(f, None, lists, o.(parallel := true), cb) == Success(List(Mapped(f, Zip(Items(lists)))))
    ensures MapReduceAsWritten(f, None, lists, o.(parallel := false), cb) == Failure(ReduceNotCallable)
  {
    MapReduceTreeIsFlatMap(f, lists, o.(parallel := true));
  }
}
