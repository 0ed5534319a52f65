/**
 * `merge` (download.go:180-193): reassembling the downloaded pieces, kept in
 * a map from start offset to body, by walking the offsets 0, C, 2C, ...
 * (C = SizePerRoutine) until the first offset after 0 that has no entry.
 */
module Merge {
  import opened Download

  /** The body stored at k, or nothing when k is absent (Go's nil slice for a missing key). */
  function Get(m: map<int, seq<byte>>, k: int): seq<byte>
  {
    if k in m then m[k] else []
  }

  /** The keys of m at or above lo. */
  ghost function KeysFrom(m: map<int, seq<byte>>, lo: int): set<int>
  {
    set k | k in m && lo <= k
  }

  /** The first index g >= j whose offset has no entry; every index in [j, g) has one. */
  function FirstGapFrom(m: map<int, seq<byte>>, j: int): (g: int)
    ensures j <= g
    ensures Offset(g) !in m
    ensures forall i :: j <= i < g ==> Offset(i) in m
    decreases KeysFrom(m, Offset(j))
  {
    if Offset(j) in m then
      assert Offset(j) in KeysFrom(m, Offset(j)) - KeysFrom(m, Offset(j + 1));
      FirstGapFrom(m, j + 1)
    else
      j
  }

  /** (k+1) in the walk's terms: the first index after 0 whose offset is missing. */
  function FirstGap(m: map<int, seq<byte>>): (g: int)
    ensures 1 <= g && Offset(g) !in m
    ensures forall i :: 1 <= i < g ==> Offset(i) in m
  {
    FirstGapFrom(m, 1)
  }

  /** Get(m, 0) + Get(m, C) + ... + Get(m, (n-1)C). */
  function Flatten(m: map<int, seq<byte>>, n: nat): seq<byte>
  {
    if n == 0 then [] else Flatten(m, n - 1) + Get(m, Offset(n - 1))
  }

  /** What merge returns: m[0] ++ m[C] ++ ... ++ m[kC], with (k+1)C the first missing offset after 0. */
  function Merged(m: map<int, seq<byte>>): seq<byte>
  {
    Flatten(m, FirstGap(m))
  }

  lemma FirstGapUnique(m: map<int, seq<byte>>, g: int)
    requires 1 <= g && Offset(g) !in m
    requires forall i :: 1 <= i < g ==> Offset(i) in m
    ensures FirstGap(m) == g
  {
  }

  /**
   * The loop of download.go:181-191. The result is Merged(m) whatever
   * non-negative `length` is: that argument only sizes the slice's initial
   * capacity, and `make` panics on a negative capacity.
   */
  method Merge(m: map<int, seq<byte>>, length: int) returns (b: seq<byte>)
    requires length >= 0
    ensures b == Merged(m)
  {
    b := [];
    var s := 0;
    b := b + Get(m, s);
    ghost var j := 1;
    while true
      invariant 1 <= j && s == Offset(j - 1)
      invariant b == Flatten(m, j)
      invariant forall i :: 1 <= i < j ==> Offset(i) in m
      decreases KeysFrom(m, s + SizePerRoutine)
    {
      s := s + SizePerRoutine;
      if s !in m {
        break;
      }
      assert s in KeysFrom(m, s) - KeysFrom(m, s + SizePerRoutine);
      b := b + m[s];
      j := j + 1;
    }
    FirstGapUnique(m, j);
  }

  lemma {:induction false} FlattenAgree(m1: map<int, seq<byte>>, m2: map<int, seq<byte>>, n: nat)
    requires forall i :: 0 <= i < n ==> Get(m1, Offset(i)) == Get(m2, Offset(i))
    ensures Flatten(m1, n) == Flatten(m2, n)
  {
    if n > 0 {
      FlattenAgree(m1, m2, n - 1);
    }
  }

  lemma {:induction false} FlattenPrefix(m: map<int, seq<byte>>, a: nat, b: nat)
    requires a <= b
    ensures Flatten(m, a) <= Flatten(m, b)
  {
    if a < b {
      FlattenPrefix(m, a, b - 1);
    }
  }

  /**
   * Merged depends only on the run the walk visits: two maps with the same
   * entries at offsets 0 .. (k)C and the same presence at C .. (k+1)C merge
   * to the same bytes. Everything else in the map is never read.
   */
  lemma MergeReadsOnlyTheRun(m1: map<int, seq<byte>>, m2: map<int, seq<byte>>)
    requires forall i :: 1 <= i <= FirstGap(m1) ==> (Offset(i) in m1 <==> Offset(i) in m2)
    requires forall i :: 0 <= i < FirstGap(m1) ==> Get(m1, Offset(i)) == Get(m2, Offset(i))
    ensures FirstGap(m1) == FirstGap(m2)
    ensures Merged(m1) == Merged(m2)
  {
    var g := FirstGap(m1);
    assert Offset(g) !in m2;
    FirstGapUnique(m2, g);
    FlattenAgree(m1, m2, g);
  }

  /**
   * Adding, replacing or removing an entry at a key that is negative, not a
   * multiple of C, or past the first gap does not change Merged.
   */
  lemma MergeIgnoresKey(m: map<int, seq<byte>>, k: int, v: seq<byte>)
    requires k < 0 || k % SizePerRoutine != 0 || k > Offset(FirstGap(m))
    ensures Merged(m[k := v]) == Merged(m)
    ensures Merged(m - {k}) == Merged(m)
  {
    var g := FirstGap(m);
    forall i | 0 <= i <= g
      ensures Offset(i) != k
    {
      assert Offset(i) % SizePerRoutine == 0;
    }
    MergeReadsOnlyTheRun(m, m[k := v]);
    MergeReadsOnlyTheRun(m, m - {k});
  }

  /**
   * A missing key 0 does not stop the walk: it contributes nothing, exactly
   * as an empty body would, and the walk goes on at C.
   */
  lemma MergeWithoutZero(m: map<int, seq<byte>>)
    requires 0 !in m
    ensures Merged(m) == Merged(m[0 := []])
    ensures Offset(1) in m ==> m[Offset(1)] <= Merged(m)
  {
    var g := FirstGap(m);
    MergeReadsOnlyTheRun(m, m[0 := []]);
    if Offset(1) in m {
      assert 2 <= g;
      FlattenPrefix(m, 2, g);
      assert Flatten(m, 1) == Get(m, Offset(0)) == [];
      assert Flatten(m, 2) == m[Offset(1)];
    }
  }

  /** Number of pieces a body of len bytes splits into: ceil(len / C). */
  function ChunkCount(len: nat): nat
  {
    (len + SizePerRoutine - 1) / SizePerRoutine
  }

  /**
   * The pieces of a body: at each offset iC below |content|, the bytes from
   * iC up to (i+1)C or the end. These are the bodies a range server returns
   * for the requests `Send(ctx, s, s+sizePerRoutine)` of download.go:73 whose
   * offset lies inside the body; the downloader also requests offsets at or
   * past the end (see MergeDownloaded).
   */
  function Chunked(content: seq<byte>): map<int, seq<byte>>
  {
    map k | 0 <= k < |content| && k % SizePerRoutine == 0 :: content[k..Min(k + SizePerRoutine, |content|)]
  }

  lemma {:induction false} FlattenChunked(content: seq<byte>, n: nat)
    requires n <= ChunkCount(|content|)
    ensures Flatten(Chunked(content), n) == content[..Min(Offset(n), |content|)]
  {
    if n > 0 {
      FlattenChunked(content, n - 1);
      var k := Offset(n - 1);
      assert k % SizePerRoutine == 0 && k < |content|;
      assert Get(Chunked(content), k) == content[k..Min(k + SizePerRoutine, |content|)];
      assert content[..Min(Offset(n), |content|)] == content[..k] + content[k..Min(k + SizePerRoutine, |content|)];
    }
  }

  /** Merging the pieces of a body gives the body back: merge inverts the chunked download. */
  lemma MergeChunkedRoundTrip(content: seq<byte>)
    ensures Merged(Chunked(content)) == content
  {
    var m, n := Chunked(content), ChunkCount(|content|);
    if |content| == 0 {
      assert m == map[];
      FirstGapUnique(m, 1);
      assert Flatten(m, 1) == Get(m, Offset(0)) == [];
    } else {
      forall i | 1 <= i < n
        ensures Offset(i) in m
      {
        assert Offset(i) % SizePerRoutine == 0;
      }
      FirstGapUnique(m, n);
      FlattenChunked(content, n);
    }
  }

  /** Get(m, lo C) + ... + Get(m, (hi-1) C): the pieces the walk takes from index lo up to hi. */
  function Between(m: map<int, seq<byte>>, lo: int, hi: int): seq<byte>
    decreases hi - lo
  {
    if hi <= lo then [] else Between(m, lo, hi - 1) + Get(m, Offset(hi - 1))
  }

  lemma {:induction false} FlattenSplit(m: map<int, seq<byte>>, lo: nat, hi: nat)
    requires lo <= hi
    ensures Flatten(m, hi) == Flatten(m, lo) + Between(m, lo, hi)
  {
    if lo < hi {
      FlattenSplit(m, lo, hi - 1);
    }
  }

  /**
   * What merge yields for a map whose entries below |content| are the pieces
   * of content: the content, followed by the bodies stored at the offsets
   * ChunkCount(|content|) C, ... that the walk still finds, all at or past
   * the end of the content. The result is the content alone when the
   * content is non-empty and the first offset past the end has no entry.
   */
  lemma MergeDownloaded(content: seq<byte>, m: map<int, seq<byte>>)
    requires forall k :: 0 <= k < |content| && k % SizePerRoutine == 0 ==>
      k in m && m[k] == content[k..Min(k + SizePerRoutine, |content|)]
    ensures ChunkCount(|content|) <= FirstGap(m)
    ensures |content| <= Offset(ChunkCount(|content|))
    ensures Merged(m) == content + Between(m, ChunkCount(|content|), FirstGap(m))
    ensures |content| > 0 && Offset(ChunkCount(|content|)) !in m ==> Merged(m) == content
  {
    var n, c := ChunkCount(|content|), Chunked(content);
    forall i | 0 <= i < n
      ensures Offset(i) in m && Get(m, Offset(i)) == Get(c, Offset(i))
    {
      assert Offset(i) % SizePerRoutine == 0;
    }
    var g := FirstGap(m);
    FlattenAgree(m, c, n);
    FlattenChunked(content, n);
    assert content[..Min(Offset(n), |content|)] == content;
    FlattenSplit(m, n, g);
    if |content| > 0 && Offset(n) !in m {
      FirstGapUnique(m, n);
    }
  }

  /**
   * When the keys are exactly the offsets 0, C, ..., (n-1)C, the walk takes
   * every one of them in ascending order.
   */
  lemma MergeContiguous(m: map<int, seq<byte>>, n: int)
    requires 1 <= n
    requires forall i :: 0 <= i < n ==> Offset(i) in m
    requires Offset(n) !in m
    ensures Merged(m) == Flatten(m, n)
  {
    FirstGapUnique(m, n);
  }
}
