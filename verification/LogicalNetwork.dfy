/**
 * What the slaves do to a cyclic datagram passing through: every slave that has
 * an FMMU in the addressed stretch puts its inputs into it, takes its outputs
 * from it, and counts in the work counter: one for a read, one for a write, and
 * in the combined command one for reading plus two for writing.
 */
module LogicalNetwork {
  import opened Common
  import opened Sequences
  import opened Mapping
  import opened ProcessImage
  import opened ProcessData

  /** FMMU `f` maps a bit of the bytes `lo` to `hi`. */
  predicate Meets(f: Fmmu, lo: nat, hi: nat) {
    First(f) < End(f) && lo < hi && First(f) < 8 * hi && 8 * lo < End(f)
  }

  /** The FMMU of type 1 puts memory into a datagram that is read, that of type 2 takes from one that is written. */
  predicate Serves(f: Fmmu, dir: Direction) {
    f.FMMUtype == if dir == Input then 1 else 2
  }

  /** The slave, going by its registers, takes part in a datagram for the bytes `lo` to `hi`. */
  predicate Touched(sl: SlaveIO, dir: Direction, lo: nat, hi: nat) {
    exists k :: 0 <= k < |sl.Registers()| && Serves(sl.Registers()[k], dir) && Meets(sl.Registers()[k], lo, hi)
  }

  /** The slave puts an input at logical bit `b`. */
  predicate Provides(sl: SlaveIO, b: nat) {
    exists k :: 0 <= k < |sl.Registers()| && Serves(sl.Registers()[k], Input)
                && First(sl.Registers()[k]) <= b < End(sl.Registers()[k])
  }

  /** By their types those registers of a slave that map anything are told apart as its outputs and its inputs. */
  ghost predicate Typed(sl: SlaveIO) {
    forall dir, k :: 0 <= k < |sl.Fmmus(dir)| ==>
      var f := sl.Fmmus(dir)[k];
      (First(f) < End(f) ==> Serves(f, dir)) && forall d :: Serves(f, d) ==> d == dir
  }

  /** That is so of every slave that has been mapped. */
  lemma MappedIsTyped(sl: SlaveIO, o1: nat, o2: nat, i1: nat, i2: nat)
    requires SlaveMapped(sl, Output, o1, o2) && SlaveMapped(sl, Input, i1, i2)
    ensures Typed(sl)
  {}

  lemma RegisterIs(sl: SlaveIO, k: nat)
    requires Typed(sl) && k < |sl.Registers()|
    ensures var f, n := sl.Registers()[k], |sl.outFMMU|;
            if k < n then f == sl.outFMMU[k] && !Serves(f, Input) && (First(f) < End(f) ==> Serves(f, Output))
            else f == sl.inFMMU[k - n] && !Serves(f, Output) && (First(f) < End(f) ==> Serves(f, Input))
  {
    assert k < |sl.outFMMU| ==> sl.outFMMU[k] == sl.Fmmus(Output)[k];
    assert k >= |sl.outFMMU| ==> sl.inFMMU[k - |sl.outFMMU|] == sl.Fmmus(Input)[k - |sl.outFMMU|];
  }

  lemma TouchedTells(sl: SlaveIO, dir: Direction, lo: nat, hi: nat)
    requires Typed(sl)
    ensures Touched(sl, dir, lo, hi) <==> exists k :: 0 <= k < |sl.Fmmus(dir)| && Meets(sl.Fmmus(dir)[k], lo, hi)
  {
    hide Typed, Serves, First, End;
    var rs, n, fs := sl.Registers(), |sl.outFMMU|, sl.Fmmus(dir);
    if k :| 0 <= k < |rs| && Serves(rs[k], dir) && Meets(rs[k], lo, hi) {
      RegisterIs(sl, k);
      assert Meets(fs[if k < n then k else k - n], lo, hi);
    }
    if k :| 0 <= k < |fs| && Meets(fs[k], lo, hi) {
      RegisterIs(sl, if dir == Output then k else n + k);
    }
  }

  lemma ProvidesTells(sl: SlaveIO, b: nat)
    requires Typed(sl)
    ensures Provides(sl, b) <==> exists k :: 0 <= k < |sl.inFMMU| && First(sl.inFMMU[k]) <= b < End(sl.inFMMU[k])
  {
    hide Typed, Serves, First, End;
    var rs, n := sl.Registers(), |sl.outFMMU|;
    if k :| 0 <= k < |rs| && Serves(rs[k], Input) && First(rs[k]) <= b < End(rs[k]) {
      RegisterIs(sl, k);
      assert rs[k] == sl.inFMMU[k - n];
    }
    if k :| 0 <= k < |sl.inFMMU| && First(sl.inFMMU[k]) <= b < End(sl.inFMMU[k]) {
      RegisterIs(sl, n + k);
    }
  }

  /** So what the registers do is what the FMMUs of one direction do. */
  lemma TypesTell(sl: SlaveIO, dir: Direction, lo: nat, hi: nat, b: nat)
    requires Typed(sl)
    ensures Touched(sl, dir, lo, hi) <==> exists k :: 0 <= k < |sl.Fmmus(dir)| && Meets(sl.Fmmus(dir)[k], lo, hi)
    ensures Provides(sl, b) <==> exists k :: 0 <= k < |sl.inFMMU| && First(sl.inFMMU[k]) <= b < End(sl.inFMMU[k])
  {
    hide Typed, Touched, Provides, Meets, First, End;
    TouchedTells(sl, dir, lo, hi);
    ProvidesTells(sl, b);
  }

  /** Slaves below `n` that take part. */
  function Hits(S: seq<SlaveIO>, n: nat, dir: Direction, lo: nat, hi: nat): nat
    requires n <= |S|
  {
    if n <= 1 then 0 else Hits(S, n - 1, dir, lo, hi) + if Touched(S[n - 1], dir, lo, hi) then 1 else 0
  }

  /** Data of a returning datagram: inputs are put in where they are mapped, all else comes back as sent. */
  function Filled(inputs: nat -> Option<bool>, LogAdr: nat, sent: seq<bool>): (back: seq<bool>)
    ensures |back| == |sent|
    ensures forall i :: 0 <= i < |sent| ==> back[i] == inputs(8 * LogAdr + i).GetOr(sent[i])
  {
    seq(|sent|, i requires 0 <= i < |sent| => inputs(8 * LogAdr + i).GetOr(sent[i]))
  }

  /** The slaves of a group with their inputs and outputs in disjoint parts of the image. */
  datatype Slaves = Slaves(S: seq<SlaveIO>, Obytes: nat, field: nat -> bool) {
    /** Every FMMU that takes outputs ends before those begin that put inputs. */
    ghost predicate Separated() {
      && |S| > 0
      && forall j, k :: 1 <= j < |S| && 0 <= k < |S[j].Registers()| ==>
           var f := S[j].Registers()[k];
           (Serves(f, Output) ==> End(f) <= 8 * Obytes) && (Serves(f, Input) ==> 8 * Obytes <= First(f))
    }

    /** Logical bit `b` is mapped to an input of some slave, whose value is `field(b)`. */
    predicate IsInput(b: nat) {
      exists j :: 1 <= j < |S| && Provides(S[j], b)
    }

    function Count(cmd: Command, lo: nat, hi: nat): nat
      requires |S| > 0
    {
      match cmd
      case LRD => Hits(S, |S|, Input, lo, hi)
      case LWR => Hits(S, |S|, Output, lo, hi)
      case LRW => Hits(S, |S|, Input, lo, hi) + 2 * Hits(S, |S|, Output, lo, hi)
    }

    /** The inputs as the logical address space shows them. */
    function Values(): nat -> Option<bool> {
      (b: nat) => if IsInput(b) then Some(field(b)) else None
    }

    /** How a frame comes back; `clock` is what the clock datagram collects. */
    function Answer(f: Frame, clock: Clock): Reply
      requires |S| > 0
    {
      Reply(f.cmd, if f.cmd == LWR then f.payload else Filled(Values(), f.LogAdr, f.payload),
            Count(f.cmd, f.LogAdr, f.LogAdr + f.length), if f.dc then Some(clock) else None)
    }
  }

  /** Reply `r` is what becomes of frame `f`. */
  ghost predicate IsAnswer(inputs: nat -> Option<bool>, f: Frame, r: Option<Reply>) {
    && r.Some? && r.value.cmd == f.cmd
    && r.value.payload == if f.cmd == LWR then f.payload else Filled(inputs, f.LogAdr, f.payload)
  }

  /** Slaves that share no bit with a stretch do not count for it. */
  lemma {:induction false} NoHits(S: seq<SlaveIO>, n: nat, dir: Direction, lo: nat, hi: nat)
    requires n <= |S|
    requires forall j :: 1 <= j < n ==> !Touched(S[j], dir, lo, hi)
    ensures Hits(S, n, dir, lo, hi) == 0
  {
    if n > 1 { NoHits(S, n - 1, dir, lo, hi); }
  }

  lemma {:induction false} SameHits(S: seq<SlaveIO>, n: nat, dir: Direction, lo: nat, hi: nat, lo': nat, hi': nat)
    requires n <= |S|
    requires forall j :: 1 <= j < n ==> Touched(S[j], dir, lo, hi) == Touched(S[j], dir, lo', hi')
    ensures Hits(S, n, dir, lo, hi) == Hits(S, n, dir, lo', hi')
  {
    if n > 1 { SameHits(S, n - 1, dir, lo, hi, lo', hi'); }
  }

  /** Reads only count for the input part of a stretch. */
  lemma ReadsCountInputs(net: Slaves, lo: nat, hi: nat)
    requires net.Separated() && lo <= net.Obytes
    ensures hi <= net.Obytes ==> Hits(net.S, |net.S|, Input, lo, hi) == 0
    ensures net.Obytes <= hi ==> Hits(net.S, |net.S|, Input, lo, hi) == Hits(net.S, |net.S|, Input, net.Obytes, hi)
  {
    forall j | 1 <= j < |net.S|
      ensures hi <= net.Obytes ==> !Touched(net.S[j], Input, lo, hi)
      ensures net.Obytes <= hi ==> Touched(net.S[j], Input, lo, hi) == Touched(net.S[j], Input, net.Obytes, hi)
    {
      var fs := net.S[j].Registers();
      forall k | 0 <= k < |fs| && Serves(fs[k], Input)
        ensures hi <= net.Obytes ==> !Meets(fs[k], lo, hi)
        ensures net.Obytes <= hi ==> Meets(fs[k], lo, hi) == Meets(fs[k], net.Obytes, hi)
      {
        assert 8 * net.Obytes <= First(net.S[j].Registers()[k]);
      }
    }
    if hi <= net.Obytes {
      NoHits(net.S, |net.S|, Input, lo, hi);
    } else {
      SameHits(net.S, |net.S|, Input, lo, hi, net.Obytes, hi);
    }
    if hi == net.Obytes {
      forall j | 1 <= j < |net.S| ensures !Touched(net.S[j], Input, net.Obytes, hi) {}
      NoHits(net.S, |net.S|, Input, net.Obytes, hi);
    }
  }

  /** Writes only count for the output part of a stretch. */
  lemma WritesCountOutputs(net: Slaves, lo: nat, hi: nat)
    requires net.Separated() && net.Obytes <= hi
    ensures net.Obytes <= lo ==> Hits(net.S, |net.S|, Output, lo, hi) == 0
    ensures lo <= net.Obytes ==> Hits(net.S, |net.S|, Output, lo, hi) == Hits(net.S, |net.S|, Output, lo, net.Obytes)
  {
    forall j | 1 <= j < |net.S|
      ensures net.Obytes <= lo ==> !Touched(net.S[j], Output, lo, hi)
      ensures lo <= net.Obytes ==> Touched(net.S[j], Output, lo, hi) == Touched(net.S[j], Output, lo, net.Obytes)
    {
      var fs := net.S[j].Registers();
      forall k | 0 <= k < |fs| && Serves(fs[k], Output)
        ensures net.Obytes <= lo ==> !Meets(fs[k], lo, hi)
        ensures lo <= net.Obytes ==> Meets(fs[k], lo, hi) == Meets(fs[k], lo, net.Obytes)
      {
        assert End(net.S[j].Registers()[k]) <= 8 * net.Obytes;
      }
    }
    if net.Obytes <= lo {
      NoHits(net.S, |net.S|, Output, lo, hi);
    } else {
      SameHits(net.S, |net.S|, Output, lo, hi, lo, net.Obytes);
    }
    if net.Obytes == lo {
      NoHits(net.S, |net.S|, Output, lo, net.Obytes);
    }
  }

  /** Work counters of stretches of the given lengths, one after the other from byte `from` on. */
  function Total(net: Slaves, cmd: Command, lens: seq<nat>, from: nat): nat
    requires |net.S| > 0
  {
    if lens == [] then 0
    else
      var front := lens[..|lens| - 1];
      Total(net, cmd, front, from) + net.Count(cmd, from + Sum(front), from + Sum(lens))
  }

  lemma {:induction false} TotalConcat(net: Slaves, cmd: Command, a: seq<nat>, b: seq<nat>, from: nat)
    requires |net.S| > 0
    ensures Total(net, cmd, a + b, from) == Total(net, cmd, a, from) + Total(net, cmd, b, from + Sum(a))
  {
    if b == [] {
      assert a + b == a;
    } else {
      var b' := b[..|b| - 1];
      assert (a + b)[..|a + b| - 1] == a + b';
      TotalConcat(net, cmd, a, b', from);
      SumConcat(a, b');
      SumConcat(a, b);
    }
  }

  /** A combined datagram counts like a read and twice a write. */
  lemma {:induction false} CombinedTotal(net: Slaves, lens: seq<nat>, from: nat)
    requires |net.S| > 0
    ensures Total(net, LRW, lens, from) == Total(net, LRD, lens, from) + 2 * Total(net, LWR, lens, from)
  {
    if lens != [] { CombinedTotal(net, lens[..|lens| - 1], from); }
  }

  /** Stretches among the outputs count no reads. */
  lemma {:induction false} NoReadsBelow(net: Slaves, lens: seq<nat>, from: nat)
    requires net.Separated() && from + Sum(lens) <= net.Obytes
    ensures Total(net, LRD, lens, from) == 0
  {
    if lens != [] {
      var front := lens[..|lens| - 1];
      NoReadsBelow(net, front, from);
      ReadsCountInputs(net, from + Sum(front), from + Sum(lens));
    }
  }

  /** Stretches among the inputs count no writes. */
  lemma {:induction false} NoWritesAbove(net: Slaves, lens: seq<nat>, from: nat)
    requires net.Separated() && net.Obytes <= from
    ensures Total(net, LWR, lens, from) == 0
  {
    if lens != [] {
      var front := lens[..|lens| - 1];
      NoWritesAbove(net, front, from);
      WritesCountOutputs(net, from + Sum(front), from + Sum(lens));
    }
  }

  /** A stretch without bytes counts nobody. */
  lemma EmptyCounts(net: Slaves, cmd: Command, at: nat)
    requires |net.S| > 0
    ensures net.Count(cmd, at, at) == 0
  {
    NoHits(net.S, |net.S|, Input, at, at);
    NoHits(net.S, |net.S|, Output, at, at);
  }

  lemma {:induction false} EmptyTotal(net: Slaves, cmd: Command, lens: seq<nat>, from: nat)
    requires |net.S| > 0 && Sum(lens) == 0
    ensures Total(net, cmd, lens, from) == 0
  {
    if lens != [] {
      EmptyTotal(net, cmd, lens[..|lens| - 1], from);
      EmptyCounts(net, cmd, from);
    }
  }

  /** Leaving out empty stretches at the end does not change the count. */
  lemma PrefixTotal(net: Slaves, cmd: Command, full: seq<nat>, k: nat, from: nat)
    requires |net.S| > 0 && k <= |full| && Sum(full[..k]) == Sum(full)
    ensures Total(net, cmd, full[..k], from) == Total(net, cmd, full, from)
  {
    assert full[..k] + full[k..] == full;
    SumConcat(full[..k], full[k..]);
    TotalConcat(net, cmd, full[..k], full[k..], from);
    EmptyTotal(net, cmd, full[k..], from + Sum(full[..k]));
  }

  lemma TotalSingle(net: Slaves, cmd: Command, n: nat, from: nat)
    requires |net.S| > 0
    ensures Total(net, cmd, [n], from) == net.Count(cmd, from, from + n)
  {
    assert [n][..0] == [];
    SumCons(n, []);
    assert [n] + [] == [n];
  }

  /** The three parts of a segment list around the segment in which the outputs end. */
  lemma TotalAround(net: Slaves, cmd: Command, segs: seq<nat>, i: nat)
    requires |net.S| > 0 && i < |segs|
    ensures var a := Sum(segs[..i]);
            Total(net, cmd, segs, 0) == Total(net, cmd, segs[..i], 0) + net.Count(cmd, a, a + segs[i])
                                        + Total(net, cmd, segs[i + 1..], a + segs[i])
  {
    assert segs == segs[..i] + ([segs[i]] + segs[i + 1..]);
    TotalConcat(net, cmd, segs[..i], [segs[i]] + segs[i + 1..], 0);
    TotalConcat(net, cmd, [segs[i]], segs[i + 1..], Sum(segs[..i]));
    TotalSingle(net, cmd, segs[i], Sum(segs[..i]));
    SumCons(segs[i], []);
    assert [segs[i]] + [] == [segs[i]];
  }

  lemma ReadTotal(net: Slaves, segs: seq<nat>, i: nat, off: nat, Ibytes: nat)
    requires net.Separated() && Segmented(segs, i, off, net.Obytes, Ibytes)
    ensures Total(net, LRD, segs, 0) == Total(net, LRD, ReadLengths(segs, i, off), net.Obytes)
  {
    var a, n := Sum(segs[..i]), segs[i] - off;
    TotalAround(net, LRD, segs, i);
    NoReadsBelow(net, segs[..i], 0);
    ReadsCountInputs(net, a, a + segs[i]);
    TotalConcat(net, LRD, [n], segs[i + 1..], net.Obytes);
    TotalSingle(net, LRD, n, net.Obytes);
    SumCons(n, []);
    assert [n] + [] == [n];
  }

  lemma WriteTotal(net: Slaves, segs: seq<nat>, i: nat, off: nat, Ibytes: nat)
    requires net.Separated() && Segmented(segs, i, off, net.Obytes, Ibytes)
    ensures Total(net, LWR, segs, 0) == Total(net, LWR, WriteLengths(segs, i, off), 0)
  {
    var a := Sum(segs[..i]);
    TotalAround(net, LWR, segs, i);
    NoWritesAbove(net, segs[i + 1..], a + segs[i]);
    WritesCountOutputs(net, a, a + segs[i]);
    TotalConcat(net, LWR, segs[..i], [off], 0);
    TotalSingle(net, LWR, off, a);
  }

  /** Reads of the inputs and writes of the outputs count, together, exactly what the combined datagrams count. */
  lemma HalvesCountAlike(net: Slaves, segs: seq<nat>, i: nat, off: nat, Ibytes: nat)
    requires net.Separated() && Segmented(segs, i, off, net.Obytes, Ibytes)
    ensures Total(net, LRD, ReadLengths(segs, i, off), net.Obytes) + 2 * Total(net, LWR, WriteLengths(segs, i, off), 0)
            == Total(net, LRW, segs, 0)
  {
    ReadTotal(net, segs, i, off, Ibytes);
    WriteTotal(net, segs, i, off, Ibytes);
    CombinedTotal(net, segs, 0);
  }
}
