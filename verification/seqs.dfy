/** Sequence helpers standing in for Python's `zip`, `more_itertools.chunked` and
    one-level flattening, with the facts about them the engine's proofs rely on. */
module Seqs {

  function Min(a: int, b: int): int { if a <= b then a else b }

  function Max(a: int, b: int): int { if a >= b then a else b }

  /** Length of the shortest of `xss`; zero when there is none, since `zip()` of no
      iterables yields nothing. */
  function MinLen<X>(xss: seq<seq<X>>): (m: nat)
    ensures forall j :: 0 <= j < |xss| ==> m <= |xss[j]|
    ensures |xss| > 0 ==> exists j :: 0 <= j < |xss| && m == |xss[j]|
    ensures |xss| == 0 ==> m == 0
  {
    if |xss| == 0 then 0
    else if |xss| == 1 then |xss[0]|
    else
      var rest := MinLen(xss[1..]);
      assert forall j :: 1 <= j < |xss| ==> xss[j] == xss[1..][j - 1];
      Min(|xss[0]|, rest)
  }

  /** Length of the longest of `xss`; zero when there is none. */
  function MaxLen<X>(xss: seq<seq<X>>): (m: nat)
    ensures forall j :: 0 <= j < |xss| ==> |xss[j]| <= m
    ensures |xss| > 0 ==> exists j :: 0 <= j < |xss| && m == |xss[j]|
  {
    if |xss| == 0 then 0
    else if |xss| == 1 then |xss[0]|
    else
      var rest := MaxLen(xss[1..]);
      assert forall j :: 1 <= j < |xss| ==> xss[j] == xss[1..][j - 1];
      Max(|xss[0]|, rest)
  }

  /** An upper bound of every length bounds the longest. */
  lemma MaxLenAtMost<X>(xss: seq<seq<X>>, b: int)
    requires forall j :: 0 <= j < |xss| ==> |xss[j]| <= b
    requires |xss| > 0
    ensures MaxLen(xss) <= b
  {
  }

  /** A value that is a lower bound of the lengths and is attained is the minimum. */
  lemma MinLenIs<X>(xss: seq<seq<X>>, m: nat, at: nat)
    requires forall j :: 0 <= j < |xss| ==> m <= |xss[j]|
    requires at < |xss| && |xss[at]| == m
    ensures MinLen(xss) == m
  {
  }

  /** Python's `zip(*xss)`: the i-th tuple holds the i-th item of every input, and
      there are as many tuples as the shortest input has items. */
  function Zip<X>(xss: seq<seq<X>>): (r: seq<seq<X>>)
    ensures |r| == MinLen(xss)
    ensures forall i :: 0 <= i < |r| ==> |r[i]| == |xss|
    ensures forall i, j {:trigger r[i][j]} :: 0 <= i < |r| && 0 <= j < |xss| ==> r[i][j] == xss[j][i]
  {
    seq(MinLen(xss), i requires 0 <= i < MinLen(xss) =>
      seq(|xss|, j requires 0 <= j < |xss| => xss[j][i]))
  }

  /** Apply `f` to every element, in order. */
  function Apply<X, Y>(f: X -> Y, xs: seq<X>): (ys: seq<Y>)
    ensures |ys| == |xs|
    ensures forall i :: 0 <= i < |xs| ==> ys[i] == f(xs[i])
  {
    seq(|xs|, i requires 0 <= i < |xs| => f(xs[i]))
  }

  /** One-level flattening of a sequence of sequences. */
  function Concat<X>(xss: seq<seq<X>>): seq<X> {
    if |xss| == 0 then [] else xss[0] + Concat(xss[1..])
  }

  /** Flattening distributes over appending. */
  lemma {:induction false} ConcatAppend<X>(a: seq<seq<X>>, b: seq<seq<X>>)
    ensures Concat(a + b) == Concat(a) + Concat(b)
    decreases |a|
  {
    if |a| == 0 {
      assert a + b == b;
    } else {
      assert (a + b)[0] == a[0];
      assert (a + b)[1..] == a[1..] + b;
      ConcatAppend(a[1..], b);
    }
  }

  /** `more_itertools.chunked(xs, size)`: consecutive pieces of `size` items, the last
      one possibly shorter, none empty. */
  function Chunked<X>(xs: seq<X>, size: nat): (chunks: seq<seq<X>>)
    requires size >= 1
    ensures Concat(chunks) == xs
    ensures forall k :: 0 <= k < |chunks| ==> 1 <= |chunks[k]| <= Min(size, |xs|)
    ensures forall k :: 0 <= k < |chunks| - 1 ==> |chunks[k]| == size
    ensures |xs| > 0 <==> |chunks| > 0
    decreases |xs|
  {
    if |xs| == 0 then []
    else
      var k := Min(size, |xs|);
      var rest := Chunked(xs[k..], size);
      assert ([xs[..k]] + rest)[1..] == rest;
      assert xs[..k] + xs[k..] == xs;
      [xs[..k]] + rest
  }

  /** The first `size` items of every list (or the whole list when shorter). */
  function Heads<X>(xss: seq<seq<X>>, size: nat): (hs: seq<seq<X>>)
    ensures |hs| == |xss|
    ensures forall j {:trigger hs[j]} :: 0 <= j < |xss| ==> hs[j] == xss[j][..Min(size, |xss[j]|)]
  {
    seq(|xss|, j requires 0 <= j < |xss| => xss[j][..Min(size, |xss[j]|)])
  }

  /** What remains of every list after its first `size` items. */
  function Tails<X>(xss: seq<seq<X>>, size: nat): (ts: seq<seq<X>>)
    ensures |ts| == |xss|
    ensures forall j {:trigger ts[j]} :: 0 <= j < |xss| ==> ts[j] == xss[j][Min(size, |xss[j]|)..]
  {
    seq(|xss|, j requires 0 <= j < |xss| => xss[j][Min(size, |xss[j]|)..])
  }

  /** `chunked(xs, size)` for every input list. */
  function ChunkEach<X>(xss: seq<seq<X>>, size: nat): (cs: seq<seq<seq<X>>>)
    requires size >= 1
    ensures |cs| == |xss|
    ensures forall j {:trigger cs[j]} :: 0 <= j < |xss| ==> cs[j] == Chunked(xss[j], size)
  {
    seq(|xss|, j requires 0 <= j < |xss| => Chunked(xss[j], size))
  }

  /** `zip(*(chunked(xs, size) for xs in xss))`: the k-th child receives the k-th chunk
      of every input. */
  function AlignedChunks<X>(xss: seq<seq<X>>, size: nat): (kids: seq<seq<seq<X>>>)
    requires size >= 1
    ensures forall k :: 0 <= k < |kids| ==> |kids[k]| == |xss|
    ensures forall k, j :: 0 <= k < |kids| && 0 <= j < |xss| ==>
              1 <= |kids[k][j]| <= Min(size, |xss[j]|)
  {
    var cs := ChunkEach(xss, size);
    var z := Zip(cs);
    assert forall k, j :: 0 <= k < |z| && 0 <= j < |xss| ==> 1 <= |z[k][j]| <= Min(size, |xss[j]|) by {
      forall k, j | 0 <= k < |z| && 0 <= j < |xss|
        ensures 1 <= |z[k][j]| <= Min(size, |xss[j]|)
      {
        var chunks := Chunked(xss[j], size);
        assert cs[j] == chunks && z[k][j] == chunks[k];
      }
    }
    z
  }

  /** No child's piece of an input is longer than the chunk size or than the input. */
  lemma AlignedChunksShorter<X>(xss: seq<seq<X>>, size: nat, k: nat)
    requires |xss| >= 1 && size >= 1 && k < |AlignedChunks(xss, size)|
    ensures MaxLen(AlignedChunks(xss, size)[k]) <= size
    ensures MaxLen(AlignedChunks(xss, size)[k]) <= MaxLen(xss)
  {
    var kid := AlignedChunks(xss, size)[k];
    MaxLenAtMost(kid, size);
    MaxLenAtMost(kid, MaxLen(xss));
  }

  /** The tuples of every child, concatenated in child order. */
  function ZipsOf<X>(kids: seq<seq<seq<X>>>): seq<seq<X>> {
    if |kids| == 0 then [] else Zip(kids[0]) + ZipsOf(kids[1..])
  }

  /** Every tuple of one child is among the tuples of all the children. */
  lemma {:induction false} ZipsOfMember<X>(kids: seq<seq<seq<X>>>, k: nat, t: seq<X>)
    requires k < |kids| && t in Zip(kids[k])
    ensures t in ZipsOf(kids)
    decreases k
  {
    if k > 0 {
      assert kids[1..][k - 1] == kids[k];
      ZipsOfMember(kids[1..], k - 1, t);
    }
  }

  /** A sequence of tuples that agrees with `zip(*xss)` position by position is it. */
  lemma ZipExt<X>(xss: seq<seq<X>>, r: seq<seq<X>>)
    requires |r| == MinLen(xss)
    requires forall i :: 0 <= i < |r| ==> |r[i]| == |xss|
    requires forall i, j :: 0 <= i < |r| && 0 <= j < |xss| ==> r[i][j] == xss[j][i]
    ensures r == Zip(xss)
  {
    var z := Zip(xss);
    forall i | 0 <= i < |r|
      ensures r[i] == z[i]
    {
      assert forall j :: 0 <= j < |xss| ==> r[i][j] == z[i][j];
    }
  }

  lemma MinLenHeads<X>(xss: seq<seq<X>>, size: nat)
    requires |xss| >= 1
    ensures MinLen(Heads(xss, size)) == Min(size, MinLen(xss))
  {
    var hs := Heads(xss, size);
    var j0 :| 0 <= j0 < |xss| && |xss[j0]| == MinLen(xss);
    assert forall j :: 0 <= j < |xss| ==> |hs[j]| == Min(size, |xss[j]|);
    MinLenIs(hs, Min(size, MinLen(xss)), j0);
  }

  lemma MinLenTails<X>(xss: seq<seq<X>>, size: nat)
    requires |xss| >= 1
    ensures MinLen(Tails(xss, size)) == MinLen(xss) - Min(size, MinLen(xss))
  {
    var ts := Tails(xss, size);
    var j0 :| 0 <= j0 < |xss| && |xss[j0]| == MinLen(xss);
    assert forall j :: 0 <= j < |xss| ==> |ts[j]| == |xss[j]| - Min(size, |xss[j]|);
    MinLenIs(ts, MinLen(xss) - Min(size, MinLen(xss)), j0);
  }

  /** Lists that agree with `xss` on their first `c` items, and whose shortest has
      `c` items, zip to the first `c` tuples of `zip(*xss)`. */
  lemma ZipPrefixes<X>(xss: seq<seq<X>>, hs: seq<seq<X>>, c: nat)
    requires |hs| == |xss| >= 1 && c <= MinLen(xss) && MinLen(hs) == c
    requires forall j, i {:trigger hs[j][i]} :: 0 <= j < |hs| && 0 <= i < c ==> hs[j][i] == xss[j][i]
    ensures Zip(hs) == Zip(xss)[..c]
  {
    var r := Zip(xss)[..c];
    forall i, j | 0 <= i < |r| && 0 <= j < |hs|
      ensures r[i][j] == hs[j][i]
    {
    }
    ZipExt(hs, r);
  }

  /** Every list of `ts` is the matching list of `xss` without its first `c` items. */
  ghost predicate ShiftedBy<X>(xss: seq<seq<X>>, ts: seq<seq<X>>, c: nat) {
    |ts| == |xss|
    && forall j, i {:trigger ts[j][i]} :: 0 <= j < |ts| && 0 <= i < |ts[j]| ==>
         c + i < |xss[j]| && ts[j][i] == xss[j][c + i]
  }

  /** Lists that are `xss` with their first `c` items dropped zip to `zip(*xss)` with
      its first `c` tuples dropped. */
  lemma ZipSuffixes<X>(xss: seq<seq<X>>, ts: seq<seq<X>>, c: nat)
    requires |xss| >= 1 && c <= MinLen(xss) && MinLen(ts) == MinLen(xss) - c
    requires ShiftedBy(xss, ts, c)
    ensures Zip(ts) == Zip(xss)[c..]
  {
    var z := Zip(xss);
    var r := z[c..];
    forall i, j | 0 <= i < |r| && 0 <= j < |ts|
      ensures r[i][j] == ts[j][i]
    {
      assert r[i] == z[c + i];
    }
    ZipExt(ts, r);
  }

  lemma ZipHeads<X>(xss: seq<seq<X>>, size: nat)
    requires |xss| >= 1
    ensures Zip(Heads(xss, size)) == Zip(xss)[..Min(size, MinLen(xss))]
  {
    var hs := Heads(xss, size);
    var c := Min(size, MinLen(xss));
    MinLenHeads(xss, size);
    forall j, i | 0 <= j < |hs| && 0 <= i < c
      ensures hs[j][i] == xss[j][i]
    {
    }
    ZipPrefixes(xss, hs, c);
  }

  /** Below the shortest length every input loses exactly `size` items. */
  lemma TailsDropExactly<X>(xss: seq<seq<X>>, size: nat)
    requires size <= MinLen(xss)
    ensures ShiftedBy(xss, Tails(xss, size), size)
  {
    var ts := Tails(xss, size);
    forall j | 0 <= j < |xss|
      ensures ts[j] == xss[j][size..]
    {
      assert MinLen(xss) <= |xss[j]|;
    }
  }

  lemma ZipTails<X>(xss: seq<seq<X>>, size: nat)
    requires |xss| >= 1
    ensures Zip(Tails(xss, size)) == Zip(xss)[Min(size, MinLen(xss))..]
  {
    if size < MinLen(xss) {
      ZipTailsBelow(xss, size);
    } else {
      ZipTailsPast(xss, size);
    }
  }

  /** Dropping fewer items than the shortest input has drops that many tuples. */
  lemma ZipTailsBelow<X>(xss: seq<seq<X>>, size: nat)
    requires |xss| >= 1 && size < MinLen(xss)
    ensures Zip(Tails(xss, size)) == Zip(xss)[size..]
  {
    MinLenTails(xss, size);
    TailsDropExactly(xss, size);
    ZipSuffixes(xss, Tails(xss, size), size);
  }

  /** Dropping at least as many items as the shortest input has leaves no tuple. */
  lemma ZipTailsPast<X>(xss: seq<seq<X>>, size: nat)
    requires |xss| >= 1 && size >= MinLen(xss)
    ensures Zip(Tails(xss, size)) == [] == Zip(xss)[MinLen(xss)..]
  {
    MinLenTails(xss, size);
    assert |Zip(Tails(xss, size))| == 0;
  }

  lemma SplitAt<Y>(s: seq<Y>, c: nat)
    requires c <= |s|
    ensures s == s[..c] + s[c..]
  {
  }

  /** Cutting every list at the same place splits `zip` at that place. */
  lemma ZipSplit<X>(xss: seq<seq<X>>, size: nat)
    requires |xss| >= 1 && size >= 1
    ensures Zip(xss) == Zip(Heads(xss, size)) + Zip(Tails(xss, size))
    ensures MinLen(xss) > 0 ==> MinLen(Tails(xss, size)) < MinLen(xss)
  {
    ZipHeads(xss, size);
    ZipTails(xss, size);
    MinLenTails(xss, size);
    SplitAt(Zip(xss), Min(size, MinLen(xss)));
  }

  /** The first chunk of a non-empty list, followed by the chunks of the rest. */
  lemma ChunkedStep<X>(xs: seq<X>, size: nat)
    requires |xs| > 0 && size >= 1
    ensures Chunked(xs, size) == [xs[..Min(size, |xs|)]] + Chunked(xs[Min(size, |xs|)..], size)
  {
  }

  /** Chunking every list, and chunking what remains of every list after the first
      chunk, relate position by position. */
  lemma ChunkEachStep<X>(xss: seq<seq<X>>, size: nat, j: nat)
    requires size >= 1 && j < |xss| && |xss[j]| > 0
    ensures ChunkEach(xss, size)[j] == [Heads(xss, size)[j]] + ChunkEach(Tails(xss, size), size)[j]
  {
    ChunkedStep(xss[j], size);
  }

  /** Lists that are each one item longer than their partners have a minimum one
      greater. */
  lemma MinLenSucc<X>(a: seq<seq<X>>, b: seq<seq<X>>)
    requires |a| == |b| >= 1
    requires forall j :: 0 <= j < |a| ==> |a[j]| == |b[j]| + 1
    ensures MinLen(a) == MinLen(b) + 1
  {
    var j0 :| 0 <= j0 < |b| && |b[j0]| == MinLen(b);
    MinLenIs(a, MinLen(b) + 1, j0);
  }

  /** Putting one item in front of every list puts their tuple in front of the zip. */
  lemma ZipCons<X>(h: seq<X>, a: seq<seq<X>>, b: seq<seq<X>>)
    requires |h| == |a| == |b| >= 1
    requires forall j :: 0 <= j < |a| ==> a[j] == [h[j]] + b[j]
    ensures Zip(a) == [h] + Zip(b)
  {
    MinLenSucc(a, b);
    var r := [h] + Zip(b);
    forall i, j | 0 <= i < |r| && 0 <= j < |a|
      ensures r[i][j] == a[j][i]
    {
      if i > 0 {
        assert r[i] == Zip(b)[i - 1];
      }
    }
    ZipExt(a, r);
  }

  /** When every list is non-empty, the first child gets the heads and the remaining
      children are those of the tails. */
  lemma AlignedChunksUnfold<X>(xss: seq<seq<X>>, size: nat)
    requires |xss| >= 1 && size >= 1 && MinLen(xss) > 0
    ensures AlignedChunks(xss, size) == [Heads(xss, size)] + AlignedChunks(Tails(xss, size), size)
  {
    var hs := Heads(xss, size);
    var a, b := ChunkEach(xss, size), ChunkEach(Tails(xss, size), size);
    forall j | 0 <= j < |a|
      ensures a[j] == [hs[j]] + b[j]
    {
      ChunkEachStep(xss, size, j);
    }
    ZipCons(hs, a, b);
  }

  /** Aligned chunking loses, duplicates and reorders no tuple: the children's tuples,
      concatenated in child order, are exactly the tuples of `zip(*xss)`. */
  lemma {:induction false} AlignedChunksPreserveZip<X>(xss: seq<seq<X>>, size: nat)
    requires |xss| >= 1 && size >= 1
    ensures ZipsOf(AlignedChunks(xss, size)) == Zip(xss)
    decreases MinLen(xss)
  {
    if MinLen(xss) == 0 {
      var j0 :| 0 <= j0 < |xss| && |xss[j0]| == 0;
      var a := seq(|xss|, j requires 0 <= j < |xss| => Chunked(xss[j], size));
      MinLenIs(a, 0, j0);
    } else {
      AlignedChunksUnfold(xss, size);
      ZipSplit(xss, size);
      AlignedChunksPreserveZip(Tails(xss, size), size);
      var kids := AlignedChunks(xss, size);
      assert kids[1..] == AlignedChunks(Tails(xss, size), size);
    }
  }

  /** Children that each hold at least one tuple hold at least one tuple apiece
      between them. */
  lemma {:induction false} ZipsOfAtLeast<X>(kids: seq<seq<seq<X>>>)
    requires forall k :: 0 <= k < |kids| ==> |kids[k]| >= 1
    requires forall k, j :: 0 <= k < |kids| && 0 <= j < |kids[k]| ==> |kids[k][j]| >= 1
    ensures |ZipsOf(kids)| >= |kids|
  {
    if |kids| > 0 {
      var j0 :| 0 <= j0 < |kids[0]| && MinLen(kids[0]) == |kids[0][j0]|;
      ZipsOfAtLeast(kids[1..]);
    }
  }

  /** There are no more children than tuples, and a lone child holds every tuple. */
  lemma AlignedChunksCount<X>(xss: seq<seq<X>>, size: nat)
    requires |xss| >= 1 && size >= 1
    ensures |AlignedChunks(xss, size)| <= MinLen(xss)
    ensures |AlignedChunks(xss, size)| == 1 ==> MinLen(AlignedChunks(xss, size)[0]) == MinLen(xss)
  {
    var kids := AlignedChunks(xss, size);
    AlignedChunksPreserveZip(xss, size);
    ZipsOfAtLeast(kids);
    if |kids| == 1 {
      assert ZipsOf(kids) == Zip(kids[0]) + ZipsOf(kids[1..]);
    }
  }
}
