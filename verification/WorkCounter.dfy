/**
 * The work counter of a cycle compared with the number that is computed while
 * mapping: twice the output FMMUs plus the input FMMUs.
 */
module WorkCounter {
  import opened Common
  import opened Sequences
  import opened Mapping
  import opened Segments
  import opened ProcessImage
  import opened ProcessData
  import opened LogicalNetwork

  /** In how many of the stretches the slave takes part. */
  function Touches(sl: SlaveIO, dir: Direction, lens: seq<nat>): nat {
    if lens == [] then 0
    else
      var front := lens[..|lens| - 1];
      Touches(sl, dir, front) + if Touched(sl, dir, Sum(front), Sum(lens)) then 1 else 0
  }

  function AllTouches(S: seq<SlaveIO>, n: nat, dir: Direction, lens: seq<nat>): nat
    requires n <= |S|
  {
    if n <= 1 then 0 else AllTouches(S, n - 1, dir, lens) + Touches(S[n - 1], dir, lens)
  }

  /** One stretch more, slave by slave. */
  lemma {:induction false} AllTouchesStep(S: seq<SlaveIO>, n: nat, dir: Direction, lens: seq<nat>)
    requires n <= |S| && lens != []
    ensures var front := lens[..|lens| - 1];
            AllTouches(S, n, dir, lens) == AllTouches(S, n, dir, front) + Hits(S, n, dir, Sum(front), Sum(lens))
  {
    if n > 1 { AllTouchesStep(S, n - 1, dir, lens); }
  }

  lemma {:induction false} NoTouches(S: seq<SlaveIO>, n: nat, dir: Direction)
    requires n <= |S|
    ensures AllTouches(S, n, dir, []) == 0
  {
    if n > 1 { NoTouches(S, n - 1, dir); }
  }

  /** The work counters of the stretches, counted slave by slave. */
  lemma {:induction false} TotalBySlave(net: Slaves, segs: seq<nat>)
    requires |net.S| > 0
    ensures Total(net, LRW, segs, 0)
            == AllTouches(net.S, |net.S|, Input, segs) + 2 * AllTouches(net.S, |net.S|, Output, segs)
  {
    if segs == [] {
      NoTouches(net.S, |net.S|, Input);
      NoTouches(net.S, |net.S|, Output);
    } else {
      TotalBySlave(net, segs[..|segs| - 1]);
      AllTouchesStep(net.S, |net.S|, Input, segs);
      AllTouchesStep(net.S, |net.S|, Output, segs);
    }
  }

  /** The FMMU maps something, within segment `k`. */
  ghost predicate Inside(f: Fmmu, segs: seq<nat>, k: nat) {
    k < |segs| && f.LogLength > 0 && 8 * Sum(segs[..k]) <= First(f) < End(f) <= 8 * Sum(segs[..k + 1])
  }

  /** A slave with one FMMU that maps something within one segment, or with none. */
  ghost predicate OneFmmu(sl: SlaveIO, dir: Direction, segs: seq<nat>) {
    || sl.Fmmus(dir) == []
    || (|sl.Fmmus(dir)| == 1 && exists k :: Inside(sl.Fmmus(dir)[0], segs, k))
  }

  /** All slaves are of this kind, and their registers are told apart by their types. */
  ghost predicate OneFmmuEach(net: Slaves, segs: seq<nat>) {
    && (forall j :: 1 <= j < |net.S| ==> Typed(net.S[j]))
    && (forall j, dir :: 1 <= j < |net.S| ==> OneFmmu(net.S[j], dir, segs))
  }

  lemma SumGrows(s: seq<nat>, i: nat, j: nat)
    requires i <= j <= |s|
    ensures Sum(s[..i]) <= Sum(s[..j])
  {
    SumConcat(s[..i], s[i..j]);
    assert s[..i] + s[i..j] == s[..j];
  }

  /** Such a slave takes part in one stretch, from the one that holds its FMMU on. */
  lemma {:induction false} TouchesOnce(sl: SlaveIO, dir: Direction, segs: seq<nat>, k: nat, n: nat)
    requires Typed(sl) && |sl.Fmmus(dir)| == 1 && Inside(sl.Fmmus(dir)[0], segs, k) && n <= |segs|
    ensures Touches(sl, dir, segs[..n]) == if n > k then 1 else 0
  {
    if n > 0 {
      TouchesOnce(sl, dir, segs, k, n - 1);
      assert segs[..n][..n - 1] == segs[..n - 1];
      var f := sl.Fmmus(dir)[0];
      if n - 1 < k { SumGrows(segs, n, k); }
      if n - 1 > k { SumGrows(segs, k + 1, n - 1); }
      TypesTell(sl, dir, Sum(segs[..n - 1]), Sum(segs[..n]), 0);
      assert Touched(sl, dir, Sum(segs[..n - 1]), Sum(segs[..n])) == Meets(f, Sum(segs[..n - 1]), Sum(segs[..n]));
    }
  }

  lemma {:induction false} NeverTouched(sl: SlaveIO, dir: Direction, lens: seq<nat>)
    requires Typed(sl) && sl.Fmmus(dir) == []
    ensures Touches(sl, dir, lens) == 0
  {
    if lens != [] {
      NeverTouched(sl, dir, lens[..|lens| - 1]);
      TypesTell(sl, dir, Sum(lens[..|lens| - 1]), Sum(lens), 0);
    }
  }

  lemma OneWorks(fs: seq<Fmmu>, dir: Direction)
    requires |fs| == 1 && fs[0].LogLength > 0
    ensures Working(fs, dir) == 1
  {
    assert fs[..0] == [];
  }

  /** The slaves' FMMUs, counted as they take part and as they were counted while mapping. */
  lemma {:induction false} TouchesAreWorking(S: seq<SlaveIO>, n: nat, dir: Direction, segs: seq<nat>)
    requires n <= |S| && forall j :: 1 <= j < |S| ==> Typed(S[j]) && OneFmmu(S[j], dir, segs)
    ensures AllTouches(S, n, dir, segs) == GroupWkc(S, dir, n)
  {
    if n > 1 {
      TouchesAreWorking(S, n - 1, dir, segs);
      var sl := S[n - 1];
      if sl.Fmmus(dir) == [] {
        NeverTouched(sl, dir, segs);
      } else {
        var k :| Inside(sl.Fmmus(dir)[0], segs, k);
        TouchesOnce(sl, dir, segs, k, |segs|);
        assert segs[..|segs|] == segs;
        OneWorks(sl.Fmmus(dir), dir);
      }
    }
  }

  /**
   * The expected work counter: when every slave has at most one FMMU in a direction, within one
   * segment, a cycle returns twice the output FMMUs plus the input FMMUs.
   */
  lemma ExpectedWkc(net: Slaves, segs: seq<nat>)
    requires |net.S| > 0 && OneFmmuEach(net, segs)
    ensures Total(net, LRW, segs, 0) == 2 * GroupWkc(net.S, Output, |net.S|) + GroupWkc(net.S, Input, |net.S|)
  {
    TotalBySlave(net, segs);
    TouchesAreWorking(net.S, |net.S|, Input, segs);
    TouchesAreWorking(net.S, |net.S|, Output, segs);
  }

  lemma OwnStretch(sl: SlaveIO, dir: Direction, from: nat, to: nat)
    requires SlaveMapped(sl, dir, from, to) && ByteSize(sl.Bits(dir)) > 0 && |sl.Fmmus(dir)| == 1
    ensures from <= First(sl.Fmmus(dir)[0]) && End(sl.Fmmus(dir)[0]) == to && to % 8 == 0
  {
    BetweenMarks(sl, dir, from, to, 0);
  }

  /** A byte oriented slave whose bytes are not split and that has one FMMU is of this kind. */
  lemma UnsplitIsInside(S: seq<SlaveIO>, dir: Direction, marks: seq<nat>, n: nat, segs: seq<nat>, j: nat)
    requires Mapped(S, dir, marks, n) && Unsplit(S, dir, marks, n, segs) && 1 <= j < n
    requires ByteSize(S[j].Bits(dir)) > 0 && |S[j].Fmmus(dir)| == 1
    requires var f := S[j].Fmmus(dir)[0]; f.LogLength > 0 && First(f) < End(f)
    ensures OneFmmu(S[j], dir, segs)
  {
    var f := S[j].Fmmus(dir)[0];
    assert SlaveMapped(S[j], dir, marks[j - 1], marks[j]);
    assert Within(segs, marks[j - 1] / 8, marks[j] / 8);
    var k :| 0 <= k < |segs| && Sum(segs[..k]) <= marks[j - 1] / 8 && marks[j] / 8 <= Sum(segs[..k + 1]);
    OwnStretch(S[j], dir, marks[j - 1], marks[j]);
    assert Inside(f, segs, k);
  }
}
