/**
 * Packing of slave contributions into datagrams, as `ecx_config_map_group`
 * does while it allocates logical addresses: a contribution that would make the
 * current segment too long opens the next one.
 */
module Segments {
  import opened Sequences

  const EC_MAXECATFRAME := 1518
  const EC_MAXLRWDATA := EC_MAXECATFRAME - 14 - 2 - 10 - 2 - 4
  const EC_FIRSTDCDATAGRAM := 20
  const EC_MAXIOSEGMENTS := 64

  /** Longest segment that leaves room for the clock datagram. */
  const MAXSEGMENT := EC_MAXLRWDATA - EC_FIRSTDCDATAGRAM

  /** Closed segments, bytes in the current one, and bytes that found no segment slot. */
  datatype Packing = Packing(closed: seq<nat>, size: nat, lost: nat) {
    function All(): seq<nat> {
      closed + [size]
    }
  }

  const EMPTY_PACKING := Packing([], 0, 0)

  function Add(p: Packing, diff: nat): Packing {
    if p.size + diff > MAXSEGMENT then
      if |p.closed| < EC_MAXIOSEGMENTS - 1 then Packing(p.closed + [p.size], diff, p.lost)
      else p.(lost := p.lost + diff)
    else p.(size := p.size + diff)
  }

  function Pack(diffs: seq<nat>): Packing {
    if diffs == [] then EMPTY_PACKING else Add(Pack(diffs[..|diffs| - 1]), diffs[|diffs| - 1])
  }

  /** Every byte is in a segment or counted as lost. */
  lemma AddConserves(p: Packing, diff: nat)
    ensures Sum(Add(p, diff).All()) + Add(p, diff).lost == Sum(p.All()) + p.lost + diff
    ensures |p.closed| < EC_MAXIOSEGMENTS ==> |Add(p, diff).closed| < EC_MAXIOSEGMENTS
  {
    var q := Add(p, diff);
    SumAppend(p.closed, p.size);
    SumAppend(q.closed, q.size);
  }

  lemma {:induction false} PackConserves(diffs: seq<nat>)
    ensures Sum(Pack(diffs).All()) + Pack(diffs).lost == Sum(diffs)
    ensures |Pack(diffs).closed| < EC_MAXIOSEGMENTS
  {
    if diffs != [] {
      PackConserves(diffs[..|diffs| - 1]);
      AddConserves(Pack(diffs[..|diffs| - 1]), diffs[|diffs| - 1]);
    } else {
      SumAppend([], 0);
    }
  }

  /** Bytes `lo` to `hi` of the image lie in one segment. */
  ghost predicate Within(segs: seq<nat>, lo: nat, hi: nat) {
    exists k :: 0 <= k < |segs| && Sum(segs[..k]) <= lo && hi <= Sum(segs[..k + 1])
  }

  /** A stretch that lies in one segment keeps doing so. */
  lemma WithinStays(p: Packing, diff: nat, lo: nat, hi: nat)
    requires Within(p.All(), lo, hi)
    ensures Within(Add(p, diff).All(), lo, hi)
  {
    var s, t := p.All(), Add(p, diff).All();
    var k :| 0 <= k < |s| && Sum(s[..k]) <= lo && hi <= Sum(s[..k + 1]);
    assert s[..k] == t[..k];
    SumPrefix(s, k);
    SumPrefix(t, k);
  }

  /** A new contribution lies in one segment, unless it is lost. */
  lemma WithinNew(p: Packing, diff: nat)
    requires Add(p, diff).lost == p.lost
    ensures Within(Add(p, diff).All(), Sum(p.All()), Sum(p.All()) + diff)
  {
    var q := Add(p, diff);
    var t := q.All();
    SumAppend(p.closed, p.size);
    SumAppend(q.closed, q.size);
    if p.size + diff > MAXSEGMENT && |p.closed| < EC_MAXIOSEGMENTS - 1 {
      assert t[..|q.closed|] == p.All() && t[..|q.closed| + 1] == t;
    } else {
      assert t[..|q.closed|] == p.closed && t[..|q.closed| + 1] == t;
    }
  }

  /**
   * A closed segment of the contributions `from` to `to`: the next one would have made it longer than 1466
   * bytes, and it is no longer than that itself unless by its only contribution.
   */
  ghost predicate IsClosed(diffs: seq<nat>, size: nat, from: nat, to: nat) {
    && from <= to < |diffs| && size == Sum(diffs[from..to])
    && size + diffs[to] > 1466 && (size <= 1466 || to == from + 1)
  }

  /**
   * Segment `k` begins with contribution `cuts[k]`.  What is lost would belong to the last segment, when all
   * 64 are in use.
   */
  ghost predicate Greedy(diffs: seq<nat>, p: Packing, cuts: seq<nat>) {
    && |cuts| == |p.closed| + 1 && cuts[0] == 0 && cuts[|p.closed|] <= |diffs|
    && (forall k {:trigger p.closed[k]} :: 0 <= k < |p.closed| ==>
          IsClosed(diffs, p.closed[k], cuts[k], cuts[k + 1]))
    && p.size + p.lost == Sum(diffs[cuts[|p.closed|]..])
    && (p.size <= 1466 || (cuts[|p.closed|] < |diffs| && p.size == diffs[cuts[|p.closed|]]))
    && (|p.closed| < 63 ==> p.lost == 0 && (p.size <= 1466 || |diffs| == cuts[|p.closed|] + 1))
  }

  lemma ClosedStays(diffs: seq<nat>, d: nat, size: nat, from: nat, to: nat)
    requires IsClosed(diffs, size, from, to)
    ensures IsClosed(diffs + [d], size, from, to)
  {
    assert (diffs + [d])[from..to] == diffs[from..to];
  }

  /** What a contribution adds to the last segment, or closes it with. */
  lemma LastSegment(diffs: seq<nat>, d: nat, from: nat)
    requires from <= |diffs|
    ensures Sum((diffs + [d])[from..]) == Sum(diffs[from..]) + d
    ensures (diffs + [d])[from..|diffs|] == diffs[from..] && Sum((diffs + [d])[|diffs|..]) == d
  {
    assert (diffs + [d])[from..] == diffs[from..] + [d];
    SumAppend(diffs[from..], d);
    assert (diffs + [d])[|diffs|..] == [] + [d];
    SumAppend([], d);
  }

  /** One contribution more. */
  lemma GreedyStep(diffs: seq<nat>, d: nat, p: Packing, cuts: seq<nat>) returns (next: seq<nat>)
    requires Greedy(diffs, p, cuts) && |p.closed| < EC_MAXIOSEGMENTS
    ensures Greedy(diffs + [d], Add(p, d), next)
  {
    var n, all := |p.closed|, diffs + [d];
    next := cuts;
    LastSegment(diffs, d, cuts[n]);
    forall k | 0 <= k < n ensures IsClosed(all, p.closed[k], cuts[k], cuts[k + 1]) {
      ClosedStays(diffs, d, p.closed[k], cuts[k], cuts[k + 1]);
    }
    hide Sum;
    if p.size + d > MAXSEGMENT && n < EC_MAXIOSEGMENTS - 1 {
      next := cuts + [|diffs|];
      assert IsClosed(all, p.size, cuts[n], |diffs|);
    }
  }

  lemma GreedyBegins()
    ensures Greedy([], EMPTY_PACKING, [0])
  {}

  /** The contributions are packed in order, and none opens a segment that would have fitted in the one before. */
  lemma {:induction false} PackIsGreedy(diffs: seq<nat>)
    ensures exists cuts :: Greedy(diffs, Pack(diffs), cuts)
  {
    hide Greedy, Add;
    if diffs == [] {
      GreedyBegins();
      assert Greedy(diffs, Pack(diffs), [0]);
    } else {
      var before, d := diffs[..|diffs| - 1], diffs[|diffs| - 1];
      PackIsGreedy(before);
      PackConserves(before);
      var cuts :| Greedy(before, Pack(before), cuts);
      var next := GreedyStep(before, d, Pack(before), cuts);
      assert diffs == before + [d];
      assert Greedy(diffs, Pack(diffs), next);
    }
  }

  /** The packing with unlimited segment slots. */
  function AddFree(p: Packing, diff: nat): Packing {
    if p.size + diff > MAXSEGMENT then Packing(p.closed + [p.size], diff, 0) else p.(size := p.size + diff)
  }

  function PackFree(diffs: seq<nat>): Packing {
    if diffs == [] then EMPTY_PACKING else AddFree(PackFree(diffs[..|diffs| - 1]), diffs[|diffs| - 1])
  }

  ghost predicate Bounded(s: seq<nat>, b: nat) {
    forall k :: 0 <= k < |s| ==> s[k] <= b
  }

  /** Every contribution fits a segment. */
  ghost predicate AllFit(diffs: seq<nat>) {
    Bounded(diffs, MAXSEGMENT)
  }

  /** Unlimited packing never gives up a segment. */
  lemma FreeGrows(diffs: seq<nat>)
    requires diffs != []
    ensures |PackFree(diffs[..|diffs| - 1]).All()| <= |PackFree(diffs).All()|
  {}

  /**
   * The limit makes no difference exactly when 64 segments are enough.  If the contributions
   * each fit a segment, nothing is lost in just that case; else only empty ones may be dropped
   * without a loss.
   */
  lemma {:induction false} NothingLost(diffs: seq<nat>)
    ensures Pack(diffs) == PackFree(diffs) <==> |PackFree(diffs).All()| <= EC_MAXIOSEGMENTS
    ensures Pack(diffs) == PackFree(diffs) ==> Pack(diffs).lost == 0
    ensures AllFit(diffs) ==> (Pack(diffs).lost == 0 <==> Pack(diffs) == PackFree(diffs))
                              && Bounded(Pack(diffs).All(), MAXSEGMENT)
  {
    PackConserves(diffs);
    if diffs != [] {
      var before := diffs[..|diffs| - 1];
      NothingLost(before);
      PackConserves(before);
      FreeGrows(diffs);
    }
  }

  /** Some segment is at least as long as any contribution. */
  lemma {:induction false} SomeAsLong(diffs: seq<nat>, k: nat) returns (j: nat)
    requires k < |diffs|
    ensures j < |PackFree(diffs).All()| && PackFree(diffs).All()[j] >= diffs[k]
  {
    var n := |diffs| - 1;
    var p := PackFree(diffs[..n]);
    if k == n {
      j := |PackFree(diffs).All()| - 1;
    } else {
      j := SomeAsLong(diffs[..n], k);
      assert j < |p.closed| ==> PackFree(diffs).All()[j] == p.All()[j];
      assert j == |p.closed| ==> PackFree(diffs).All()[j] >= p.size;
    }
  }

  /**
   * No segment is longer than `b`, which is at least the length of a segment that leaves room
   * for the clock datagram, exactly when no contribution is.
   */
  lemma {:induction false} BoundedWhenAllAre(diffs: seq<nat>, b: nat)
    requires b >= MAXSEGMENT
    ensures Bounded(PackFree(diffs).All(), b) <==> Bounded(diffs, b)
  {
    if Bounded(diffs, b) {
      if diffs != [] { BoundedWhenAllAre(diffs[..|diffs| - 1], b); }
    } else {
      var k :| 0 <= k < |diffs| && diffs[k] > b;
      var j := SomeAsLong(diffs, k);
      assert PackFree(diffs).All()[j] > b;
    }
  }

  /** The first segment is never too long: a contribution that is opens the next one. */
  lemma {:induction false} FirstIsShort(diffs: seq<nat>)
    ensures PackFree(diffs).All()[0] <= MAXSEGMENT
  {
    if diffs != [] { FirstIsShort(diffs[..|diffs| - 1]); }
  }

  /** The segment in which the first contributions end gets no more, or stays short. */
  lemma {:induction false} BoundaryIsShort(odiffs: seq<nat>, diffs: seq<nat>)
    requires odiffs <= diffs
    ensures var p, all := PackFree(odiffs), PackFree(diffs).All();
            && |p.closed| < |all| && p.size <= all[|p.closed|]
            && (all[|p.closed|] == p.size || all[|p.closed|] <= MAXSEGMENT)
    decreases |diffs|
  {
    if odiffs != diffs { BoundaryIsShort(odiffs, diffs[..|diffs| - 1]); }
  }

  /** Where 64 segments are enough for all, they are for the first ones. */
  lemma {:induction false} FreePrefix(odiffs: seq<nat>, diffs: seq<nat>)
    requires odiffs <= diffs && Pack(diffs) == PackFree(diffs)
    ensures Pack(odiffs) == PackFree(odiffs)
    decreases |diffs|
  {
    if odiffs != diffs {
      var before := diffs[..|diffs| - 1];
      NothingLost(diffs);
      FreeGrows(diffs);
      NothingLost(before);
      FreePrefix(odiffs, before);
    }
  }

  /** Full contributions: one segment each. */
  lemma {:induction false} FullSegments(n: nat)
    requires n < EC_MAXIOSEGMENTS
    ensures Pack(Repeat(MAXSEGMENT, n + 1)) == Packing(Repeat(MAXSEGMENT, n), MAXSEGMENT, 0)
  {
    var before, d := Repeat(MAXSEGMENT, n), Repeat(MAXSEGMENT, n + 1);
    assert d == before + [MAXSEGMENT] && d[..n] == before;
    if n == 0 {
      assert Pack(before) == EMPTY_PACKING;
    } else {
      FullSegments(n - 1);
      assert Pack(before) == Packing(Repeat(MAXSEGMENT, n - 1), MAXSEGMENT, 0);
    }
  }

  /** There is no segment for the 65th: its bytes are lost. */
  lemma NoSixtyFifth()
    ensures Pack(Repeat(MAXSEGMENT, EC_MAXIOSEGMENTS + 1)).lost == MAXSEGMENT
  {
    FullSegments(EC_MAXIOSEGMENTS - 1);
    assert Repeat(MAXSEGMENT, EC_MAXIOSEGMENTS + 1)[..EC_MAXIOSEGMENTS] == Repeat(MAXSEGMENT, EC_MAXIOSEGMENTS);
  }

  /**
   * The step as the code takes it.  Before the very end the array holds the
   * closed segments; when the slots are used up, the last slot is overwritten
   * again and again and the contribution is dropped.
   */
  method AddToSegments(IOsegment: array<nat>, current: nat, size: nat, diff: nat, ghost p: Packing)
    returns (currentsegment: nat, segmentsize: nat)
    requires IOsegment.Length == EC_MAXIOSEGMENTS && current < EC_MAXIOSEGMENTS
    requires p.closed == IOsegment[..current] && p.size == size
    modifies IOsegment
    ensures currentsegment < EC_MAXIOSEGMENTS
    ensures Add(p, diff).closed == IOsegment[..currentsegment] && Add(p, diff).size == segmentsize
  {
    currentsegment, segmentsize := current, size;
    if segmentsize + diff > MAXSEGMENT {
      IOsegment[currentsegment] := segmentsize;
      if currentsegment < EC_MAXIOSEGMENTS - 1 {
        currentsegment := currentsegment + 1;
        segmentsize := diff;
      }
    } else {
      segmentsize := segmentsize + diff;
    }
  }
}
