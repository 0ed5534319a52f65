/**
 * The dispatch/collect bookkeeping of `main` (download.go:54-60, 90-117, 126)
 * with the channels taken out: a cursor `currentMax`, the WaitGroup counter of
 * workers still running, and the `data` map the received pieces go into.
 * A worker sends back the offset it was given (download.go:71, 79); which
 * outstanding offset arrives next is arbitrary.
 */
module Coordinator {
  import opened Wrappers
  import opened Download
  import Merge

  /** `data[p.start] = p.body` for each arrival in turn (download.go:102): a later arrival at the same start overwrites. */
  function StoreAll(m: map<int, seq<byte>>, arrivals: seq<PartialData>): (r: map<int, seq<byte>>)
    ensures m.Keys <= r.Keys
    ensures forall i :: 0 <= i < |arrivals| ==> arrivals[i].start in r
  {
    if arrivals == [] then m
    else
      var last := arrivals[|arrivals| - 1];
      StoreAll(m, arrivals[..|arrivals| - 1])[last.start := last.body]
  }

  predicate DistinctStarts(arrivals: seq<PartialData>)
  {
    forall i, j :: 0 <= i < j < |arrivals| ==> arrivals[i].start != arrivals[j].start
  }

  /** The last arrival at a start is the one stored there. */
  lemma {:induction false} StoreAllLastWins(m: map<int, seq<byte>>, arrivals: seq<PartialData>, i: int)
    requires 0 <= i < |arrivals|
    requires forall j :: i < j < |arrivals| ==> arrivals[j].start != arrivals[i].start
    ensures arrivals[i].start in StoreAll(m, arrivals)
    ensures StoreAll(m, arrivals)[arrivals[i].start] == arrivals[i].body
  {
    if i < |arrivals| - 1 {
      StoreAllLastWins(m, arrivals[..|arrivals| - 1], i);
    }
  }

  /** A key no arrival names keeps its entry, or its absence. */
  lemma {:induction false} StoreAllUntouched(m: map<int, seq<byte>>, arrivals: seq<PartialData>, k: int)
    requires forall j :: 0 <= j < |arrivals| ==> arrivals[j].start != k
    ensures k in StoreAll(m, arrivals) <==> k in m
    ensures k in m ==> StoreAll(m, arrivals)[k] == m[k]
  {
    if arrivals != [] {
      StoreAllUntouched(m, arrivals[..|arrivals| - 1], k);
    }
  }

  /**
   * With no start arriving twice, the stored map depends only on which
   * pieces arrived, not on their order.
   */
  lemma ArrivalOrderIrrelevant(m: map<int, seq<byte>>, a1: seq<PartialData>, a2: seq<PartialData>)
    requires DistinctStarts(a1) && DistinctStarts(a2)
    requires forall p :: p in a1 <==> p in a2
    ensures StoreAll(m, a1) == StoreAll(m, a2)
  {
    var s1, s2 := StoreAll(m, a1), StoreAll(m, a2);
    forall k
      ensures (k in s1 <==> k in s2) && (k in s1 ==> s1[k] == s2[k])
    {
      if i :| 0 <= i < |a1| && a1[i].start == k {
        assert a1[i] in a2;
        var j :| 0 <= j < |a2| && a2[j] == a1[i];
        StoreAllLastWins(m, a1, i);
        StoreAllLastWins(m, a2, j);
      } else {
        forall j | 0 <= j < |a2|
          ensures a2[j].start != k
        {
          assert a2[j] in a1;
        }
        StoreAllUntouched(m, a1, k);
        StoreAllUntouched(m, a2, k);
      }
    }
  }

  /** The offsets 0, C, ..., (n-1)C as a set. */
  ghost function OffsetsBelow(n: int): set<int>
    decreases n
  {
    if n <= 0 then {} else OffsetsBelow(n - 1) + {Offset(n - 1)}
  }

  lemma {:induction false} OffsetsBelowBounds(n: int, x: int)
    requires x in OffsetsBelow(n)
    ensures 0 <= x < Offset(n)
  {
    if x != Offset(n - 1) {
      OffsetsBelowBounds(n - 1, x);
    }
  }

  lemma {:induction false} OffsetsBelowHas(n: int, i: int)
    requires 0 <= i < n
    ensures Offset(i) in OffsetsBelow(n)
  {
    if i < n - 1 {
      OffsetsBelowHas(n - 1, i);
    }
  }

  lemma {:induction false} OffsetsBelowSize(n: nat)
    ensures |OffsetsBelow(n)| == n
  {
    if n > 0 {
      OffsetsBelowSize(n - 1);
      if Offset(n - 1) in OffsetsBelow(n - 1) {
        OffsetsBelowBounds(n - 1, Offset(n - 1));
      }
    }
  }

  /** Every multiple of C below cl is among the first n offsets once n > floor(cl / C). */
  lemma OffsetsBelowHasMultiples(n: int, cl: int)
    requires n >= cl / SizePerRoutine + 1
    ensures forall k :: 0 <= k < cl && k % SizePerRoutine == 0 ==> k in OffsetsBelow(n)
  {
    forall k | 0 <= k < cl && k % SizePerRoutine == 0
      ensures k in OffsetsBelow(n)
    {
      var i := k / SizePerRoutine;
      assert k == Offset(i) && 0 <= i < n;
      OffsetsBelowHas(n, i);
    }
  }

  /** When the first n offsets are the keys and n > floor(|content| / C), every piece of the body is present. */
  lemma PiecesCoverBody(content: seq<byte>, m: map<int, seq<byte>>, n: int)
    requires m.Keys == OffsetsBelow(n) && n >= |content| / SizePerRoutine + 1
    requires forall k :: k in m && 0 <= k < |content| ==> m[k] == content[k..Min(k + SizePerRoutine, |content|)]
    ensures forall k :: 0 <= k < |content| && k % SizePerRoutine == 0 ==>
      k in m && m[k] == content[k..Min(k + SizePerRoutine, |content|)]
  {
    OffsetsBelowHasMultiples(n, |content|);
  }

  /**
   * The pieces of a cl-byte body fill fewer offsets than are handed out
   * exactly when cl <= (N-1)C or C divides cl.
   */
  lemma ChunksBeforeDispatchEnd(cl: nat)
    ensures Merge.ChunkCount(cl) <= Max(NumRoutines, cl / SizePerRoutine + 1)
    ensures Merge.ChunkCount(cl) < Max(NumRoutines, cl / SizePerRoutine + 1) <==>
      cl <= Offset(NumRoutines - 1) || cl % SizePerRoutine == 0
  {
  }

  /** A set inside another of the same size is that set. */
  lemma SubsetSameSize(a: set<int>, b: set<int>)
    requires a <= b && |a| == |b|
    ensures a == b
  {
    var rest := b - a;
    assert b == a + rest && a !! rest;
    assert |rest| == 0;
  }

  /** Offsets 0, C, 2C, ... as many distinct keys as there are of them are all of them. */
  lemma AllHandedOut(keys: set<int>, handed: seq<int>)
    requires forall i :: 0 <= i < |handed| ==> handed[i] == Offset(i)
    requires forall k :: k in keys ==> k in handed
    requires |keys| == |handed|
    ensures keys == OffsetsBelow(|handed|)
  {
    var n := |handed|;
    forall k | k in keys
      ensures k in OffsetsBelow(n)
    {
      var i :| 0 <= i < n && handed[i] == k;
      OffsetsBelowHas(n, i);
    }
    OffsetsBelowSize(n);
    SubsetSameSize(keys, OffsetsBelow(n));
  }

  /** The coordinator's state during one download of a body of `cl` bytes. */
  class Collector {
    /** Content-Length as `Head` returned it. */
    const cl: int
    /** The last offset handed to a worker. */
    var currentMax: int
    /** The WaitGroup counter: workers not yet told to stop. */
    var active: nat
    /** Received bodies by start offset. */
    var data: map<int, seq<byte>>
    /** Every offset sent on the work channel, in order. */
    ghost var handedOut: seq<int>
    /** Every piece received, in order. */
    ghost var arrived: seq<PartialData>

    /** The continuation test of download.go:103 fails: no offset is left to hand out. */
    predicate Exhausted()
      reads this
      ensures Exhausted() <==> (cl - currentMax) / SizePerRoutine <= 0
    {
      currentMax + SizePerRoutine > cl
    }

    ghost predicate Valid()
      reads this
    {
      && NumRoutines <= |handedOut|
      && (forall i :: 0 <= i < |handedOut| ==> handedOut[i] == Offset(i))
      && currentMax == handedOut[|handedOut| - 1]
      && (forall i :: NumRoutines <= i < |handedOut| ==> handedOut[i] <= cl)
      && active <= NumRoutines
      && (active < NumRoutines ==> Exhausted())
      && data == StoreAll(map[], arrived)
      && (forall k :: k in data ==> k in handedOut)
      && |data| + active == |handedOut|
    }

    /** Offsets still to be handed out after the current one. */
    ghost function Remaining(): nat
      reads this
    {
      if Exhausted() then 0 else (cl - currentMax) / SizePerRoutine
    }

    /** Receipts still to come before the counter reaches zero. */
    ghost function Pending(): (p: nat)
      reads this
      requires Valid()
      ensures p == 0 <==> active == 0
    {
      active + Remaining()
    }

    /**
     * `wg.Add(numRoutines)` followed by the seeding loop of download.go:91-95:
     * offsets 0, C, ..., (N-1)C are handed out whatever cl is.
     */
    constructor (cl: int)
      ensures Valid()
      ensures this.cl == cl && active == NumRoutines && data == map[] && arrived == []
      ensures |handedOut| == NumRoutines && forall i :: 0 <= i < NumRoutines ==> handedOut[i] == Offset(i)
      ensures currentMax == Offset(NumRoutines - 1)
    {
      this.cl := cl;
      active := NumRoutines;
      data := map[];
      arrived := [];
      var cursor := 0;
      ghost var sent: seq<int> := [];
      for i := 0 to NumRoutines
        invariant |sent| == i
        invariant forall k :: 0 <= k < i ==> sent[k] == Offset(k)
        invariant cursor == if i == 0 then 0 else Offset(i - 1)
      {
        cursor := SizePerRoutine * i;
        sent := sent + [cursor];
      }
      currentMax := cursor;
      handedOut := sent;
    }

    /**
     * One receipt on the data channel (download.go:101-111): store the body,
     * then either advance the cursor by C and hand the new offset out
     * (returned as Some), or retire the worker with `wg.Done()` (None).
     */
    method Collect(start: int, body: seq<byte>) returns (next: Option<int>)
      // active > 0 follows from the rest under Valid(); it is kept to say that a worker is still running
      requires Valid() && active > 0 && start in handedOut && start !in data
      modifies this
      ensures Valid()
      ensures data == old(data)[start := body]
      ensures arrived == old(arrived) + [PartialData(start, body)]
      ensures old(currentMax) + SizePerRoutine <= cl ==>
        && currentMax == old(currentMax) + SizePerRoutine
        && next == Some(currentMax)
        && handedOut == old(handedOut) + [currentMax]
        && active == old(active)
      ensures old(currentMax) + SizePerRoutine > cl ==>
        && currentMax == old(currentMax)
        && next == None
        && handedOut == old(handedOut)
        && active == old(active) - 1
      ensures currentMax >= old(currentMax)
      ensures Pending() == old(Pending()) - 1
    {
      data := data[start := body];
      arrived := arrived + [PartialData(start, body)];
      assert arrived[..|arrived| - 1] == old(arrived);
      assert data == StoreAll(map[], arrived);
      if currentMax + SizePerRoutine > cl {
        active := active - 1;
        next := None;
      } else {
        currentMax := currentMax + SizePerRoutine;
        handedOut := handedOut + [currentMax];
        next := Some(currentMax);
      }
    }

    /**
     * Once nothing is left to hand out, the number of offsets handed out is
     * max(N, floor(cl / C) + 1), and when cl >= (N-1)C the last one is the
     * largest multiple of C not above cl (cl itself when C divides cl).
     */
    lemma DispatchCount()
      requires Valid() && Exhausted()
      ensures |handedOut| == Max(NumRoutines, cl / SizePerRoutine + 1)
      ensures cl >= Offset(NumRoutines - 1) ==> currentMax == cl - cl % SizePerRoutine
    {
      var n := |handedOut|;
      assert currentMax == Offset(n - 1);
      if n > NumRoutines {
        assert handedOut[n - 1] <= cl;
      }
    }

    /** Handed-out offsets are strictly increasing multiples of C; after seeding, none exceeds cl. */
    lemma HandedOutOrdered()
      requires Valid()
      ensures forall i, j :: 0 <= i < j < |handedOut| ==> handedOut[i] < handedOut[j]
      ensures forall i :: 0 <= i < |handedOut| ==> handedOut[i] % SizePerRoutine == 0
      ensures forall i :: NumRoutines <= i < |handedOut| ==> 0 <= handedOut[i] <= cl
    {
    }

    /**
     * When the counter is zero every handed-out piece has come back and no
     * other, so merging takes all max(N, floor(cl/C) + 1) of them in offset
     * order and stops at the first offset not handed out.
     */
    lemma CompleteDownload()
      requires Valid() && active == 0
      ensures data.Keys == OffsetsBelow(|handedOut|)
      ensures Merge.FirstGap(data) == Max(NumRoutines, cl / SizePerRoutine + 1)
      ensures Merge.Merged(data) == Merge.Flatten(data, Max(NumRoutines, cl / SizePerRoutine + 1))
    {
      DispatchCount();
      var n := |handedOut|;
      assert |data.Keys| == n;
      AllHandedOut(data.Keys, handedOut);
      forall i | 0 <= i < n
        ensures Offset(i) in data
      {
        OffsetsBelowHas(n, i);
      }
      if Offset(n) in data {
        OffsetsBelowBounds(n, Offset(n));
      }
      Merge.MergeContiguous(data, n);
      Merge.FirstGapUnique(data, n);
    }

    /**
     * The finished download against the body it came from: when the pieces
     * received below cl are the pieces of a body of cl bytes, the merge is
     * that body followed by the bodies received for the offsets handed out
     * at or past its end. There are such offsets exactly when cl <= (N-1)C
     * or C divides cl.
     */
    lemma DownloadedContent(content: seq<byte>)
      requires Valid() && active == 0 && cl == |content|
      requires forall k :: k in data && 0 <= k < cl ==> data[k] == content[k..Min(k + SizePerRoutine, cl)]
      ensures Merge.Merged(data) ==
        content + Merge.Between(data, Merge.ChunkCount(cl), Max(NumRoutines, cl / SizePerRoutine + 1))
      ensures Merge.ChunkCount(cl) < Max(NumRoutines, cl / SizePerRoutine + 1) <==>
        cl <= Offset(NumRoutines - 1) || cl % SizePerRoutine == 0
    {
      CompleteDownload();
      DispatchCount();
      PiecesCoverBody(content, data, |handedOut|);
      ChunksBeforeDispatchEnd(cl);
      Merge.MergeDownloaded(content, data);
    }

    /** `merge(data, currentMax+sizePerRoutine)` once the counter has reached zero (download.go:126). */
    method Finish() returns (full: seq<byte>)
      requires Valid() && active == 0
      ensures full == Merge.Merged(data)
      ensures full == Merge.Flatten(data, Max(NumRoutines, cl / SizePerRoutine + 1))
    {
      full := Merge.Merge(data, currentMax + SizePerRoutine);
      CompleteDownload();
    }
  }
}
