/**
 * The process image of a group of slaves (`ecx_config_map_group`): all outputs,
 * then all inputs, in slave order, cut into segments for the cyclic datagrams.
 */
module ProcessImage {
  import opened Sequences
  import opened Mapping
  import opened Segments

  /** The process data part of a slave record. */
  datatype SlaveIO = SlaveIO(
    Obits: nat, Ibits: nat, SM: seq<SyncManager>,
    outFMMU: seq<Fmmu>, inFMMU: seq<Fmmu>, blockLRW: bool)
  {
    function Bits(dir: Direction): nat {
      if dir == Output then Obits else Ibits
    }

    function Fmmus(dir: Direction): seq<Fmmu> {
      if dir == Output then outFMMU else inFMMU
    }

    /** What the slave has in its registers. */
    function Registers(): seq<Fmmu> {
      outFMMU + inFMMU
    }
  }

  /** Slave `j` has its FMMUs of direction `dir` between the cursor marks before and after it. */
  ghost predicate SlaveMapped(sl: SlaveIO, dir: Direction, from: nat, to: nat) {
    && |sl.SM| == EC_MAXSM && from <= to && OfType(sl.Fmmus(dir), dir)
    && if sl.Bits(dir) == 0 then from == to && sl.Fmmus(dir) == []
       else
         && Placed(sl.Fmmus(dir), sl.Bits(dir), sl.SM, dir, from, to)
         && Programmed(sl.Fmmus(dir), sl.Bits(dir), sl.SM, dir)
  }

  /** The slaves below `n` are mapped; `marks[j]` is the cursor behind slave `j`. */
  ghost predicate Mapped(S: seq<SlaveIO>, dir: Direction, marks: seq<nat>, n: nat) {
    && 1 <= n <= |S| && |marks| == n
    && forall j :: 1 <= j < n ==> SlaveMapped(S[j], dir, marks[j - 1], marks[j])
  }

  /** The bytes any one slave adds to the image in one direction are not split between segments. */
  ghost predicate Unsplit(S: seq<SlaveIO>, dir: Direction, marks: seq<nat>, n: nat, segs: seq<nat>) {
    && 1 <= n <= |S| && |marks| == n
    && forall j :: 1 <= j < n && S[j].Bits(dir) > 0 ==> Within(segs, marks[j - 1] / 8, marks[j] / 8)
  }

  /** Before mapping: the record as cleared at start-up. */
  ghost predicate Unmapped(S: seq<SlaveIO>, dir: Direction) {
    forall j :: 0 <= j < |S| ==> |S[j].SM| == EC_MAXSM && S[j].Fmmus(dir) == []
  }

  /** Nothing but the FMMUs of one direction differs. */
  ghost predicate OnlyFmmus(S: seq<SlaveIO>, S0: seq<SlaveIO>, dir: Direction) {
    && |S| == |S0|
    && forall j :: 0 <= j < |S| ==>
         S[j] == if dir == Output then S0[j].(outFMMU := S[j].outFMMU) else S0[j].(inFMMU := S[j].inFMMU)
  }

  /** Creates the FMMUs of one slave. */
  method MapSlave(slavelist: array<SlaveIO>, slave: nat, dir: Direction, addr: nat, pos: nat)
    returns (LogAddr: nat, BitPos: nat, wkc: nat)
    requires slave < slavelist.Length && slavelist[slave].Bits(dir) > 0 && |slavelist[slave].SM| == EC_MAXSM && pos <= 7
    modifies slavelist
    ensures BitPos <= 7 && LogAddr >= addr
    ensures OnlyFmmus(slavelist[..], old(slavelist[..]), dir)
    ensures forall j :: 0 <= j < slavelist.Length && j != slave ==> slavelist[j] == old(slavelist[j])
    ensures SlaveMapped(slavelist[slave], dir, Position(addr, pos), Position(LogAddr, BitPos))
    ensures wkc == Working(slavelist[slave].Fmmus(dir), dir)
  {
    var sl := slavelist[slave];
    var fs;
    fs, LogAddr, BitPos, wkc := CreateMappings(sl.SM, sl.Bits(dir), dir, addr, pos);
    if dir == Output {
      slavelist[slave] := sl.(outFMMU := fs);
    } else {
      slavelist[slave] := sl.(inFMMU := fs);
    }
  }

  /** Packing progress: what the code keeps of the contributions so far. */
  ghost predicate Packed(IOsegment: seq<nat>, current: nat, size: nat, diffs: seq<nat>, LogAddr: nat) {
    && |IOsegment| == EC_MAXIOSEGMENTS && current < EC_MAXIOSEGMENTS
    && Pack(diffs).closed == IOsegment[..current] && Pack(diffs).size == size
    && Sum(diffs) == LogAddr
  }

  /** A contribution of `diff` bytes is packed. */
  method Contribute(IOsegment: array<nat>, current: nat, size: nat, diff: nat, ghost diffs: seq<nat>,
                    ghost LogAddr: nat)
    returns (currentsegment: nat, segmentsize: nat)
    requires Packed(IOsegment[..], current, size, diffs, LogAddr)
    modifies IOsegment
    ensures Packed(IOsegment[..], currentsegment, segmentsize, diffs + [diff], LogAddr + diff)
  {
    currentsegment, segmentsize := AddToSegments(IOsegment, current, size, diff, Pack(diffs));
    assert (diffs + [diff])[..|diffs|] == diffs;
    SumAppend(diffs, diff);
  }

  lemma PackStep(diffs: seq<nat>, diff: nat)
    ensures Pack(diffs + [diff]) == Add(Pack(diffs), diff)
    ensures Pack(diffs + [diff]).lost == 0 ==> Pack(diffs).lost == 0
  {
    assert (diffs + [diff])[..|diffs|] == diffs;
  }

  /** Padding up to a whole byte splits nobody. */
  lemma UnsplitStays(S: seq<SlaveIO>, dir: Direction, marks: seq<nat>, n: nat, diffs: seq<nat>, diff: nat)
    requires Unsplit(S, dir, marks, n, Pack(diffs).All())
    ensures Unsplit(S, dir, marks, n, Pack(diffs + [diff]).All())
  {
    PackStep(diffs, diff);
    forall j | 1 <= j < n && S[j].Bits(dir) > 0 ensures Within(Pack(diffs + [diff]).All(), marks[j - 1] / 8,
      marks[j] / 8) {
      WithinStays(Pack(diffs), diff, marks[j - 1] / 8, marks[j] / 8);
    }
  }

  lemma UnsplitAppend(S: seq<SlaveIO>, dir: Direction, marks: seq<nat>, n: nat, mark: nat, segs: seq<nat>)
    requires n < |S| && Unsplit(S, dir, marks, n, segs) && Within(segs, marks[n - 1] / 8, mark / 8)
    ensures Unsplit(S, dir, marks + [mark], n + 1, segs)
  {
    var m := marks + [mark];
    forall j | 1 <= j < n + 1 && S[j].Bits(dir) > 0 ensures Within(segs, m[j - 1] / 8, m[j] / 8) {
      if j < n {
        assert Within(segs, marks[j - 1] / 8, marks[j] / 8);
      }
    }
  }

  /** One more slave with a contribution of its own. */
  lemma UnsplitStep(S: seq<SlaveIO>, dir: Direction, marks: seq<nat>, n: nat, mark: nat, diffs: seq<nat>, diff: nat)
    requires 1 <= n < |S| && Unsplit(S, dir, marks, n, Pack(diffs).All())
    requires Sum(diffs) == marks[n - 1] / 8 && marks[n - 1] / 8 + diff == mark / 8
    requires Pack(diffs + [diff]).lost == 0
    ensures Unsplit(S, dir, marks + [mark], n + 1, Pack(diffs + [diff]).All())
  {
    PackStep(diffs, diff);
    PackConserves(diffs);
    UnsplitStays(S, dir, marks, n, diffs, diff);
    WithinNew(Pack(diffs), diff);
    UnsplitAppend(S, dir, marks, n, mark, Pack(diffs + [diff]).All());
  }

  lemma MappedStep(S: seq<SlaveIO>, S0: seq<SlaveIO>, dir: Direction, marks: seq<nat>, n: nat, mark: nat)
    requires Mapped(S0, dir, marks, n) && |S| == |S0| && n < |S|
    requires forall j :: 0 <= j < |S| && j != n ==> S[j] == S0[j]
    requires SlaveMapped(S[n], dir, marks[n - 1], mark)
    ensures Mapped(S, dir, marks + [mark], n + 1)
  {
    var m := marks + [mark];
    forall j | 1 <= j < n + 1 ensures SlaveMapped(S[j], dir, m[j - 1], m[j]) {
      if j < n { assert SlaveMapped(S0[j], dir, marks[j - 1], marks[j]); }
    }
  }

  lemma UnsplitSame(S: seq<SlaveIO>, S0: seq<SlaveIO>, dir: Direction, marks: seq<nat>, n: nat, segs: seq<nat>)
    requires Unsplit(S0, dir, marks, n, segs) && OnlyFmmus(S, S0, dir)
    ensures Unsplit(S, dir, marks, n, segs)
  {}

  /** State of the loop over the slaves in one direction. */
  ghost predicate Progress(S: seq<SlaveIO>, S0: seq<SlaveIO>, dir: Direction, marks: seq<nat>, n: nat,
                           io: seq<nat>, current: nat, size: nat, diffs: seq<nat>, LogAddr: nat, BitPos: nat)
  {
    && OnlyFmmus(S, S0, dir) && Mapped(S, dir, marks, n) && BitPos <= 7
    && (forall j :: n <= j < |S| ==> S[j] == S0[j])
    && marks[n - 1] == Position(LogAddr, BitPos)
    && Packed(io, current, size, diffs, LogAddr)
    && (Pack(diffs).lost == 0 ==> Unsplit(S, dir, marks, n, Pack(diffs).All()))
  }

  lemma ProgressStep(S: seq<SlaveIO>, S1: seq<SlaveIO>, S0: seq<SlaveIO>, dir: Direction, marks: seq<nat>, n: nat,
                     io1: seq<nat>, current1: nat, size1: nat, diffs: seq<nat>, LogAddr: nat, BitPos: nat,
                     io: seq<nat>, current: nat, size: nat, next: nat, pos: nat)
    requires Progress(S1, S0, dir, marks, n, io1, current1, size1, diffs, LogAddr, BitPos) && n < |S1|
    requires OnlyFmmus(S, S1, dir) && forall j :: 0 <= j < |S| && j != n ==> S[j] == S1[j]
    requires pos <= 7 && next >= LogAddr && SlaveMapped(S[n], dir, Position(LogAddr, BitPos), Position(next, pos))
    requires Packed(io, current, size, diffs + [next - LogAddr], next)
    ensures Progress(S, S0, dir, marks + [Position(next, pos)], n + 1, io, current, size, diffs + [next - LogAddr],
            next, pos)
  {
    hide SlaveMapped, Unsplit;
    MappedStep(S, S1, dir, marks, n, Position(next, pos));
    PackStep(diffs, next - LogAddr);
    if Pack(diffs + [next - LogAddr]).lost == 0 {
      UnsplitSame(S, S1, dir, marks, n, Pack(diffs).All());
      UnsplitStep(S, dir, marks, n, Position(next, pos), diffs, next - LogAddr);
    }
  }

  /** Nothing is mapped before the first slave. */
  lemma ProgressStarts(S: seq<SlaveIO>, dir: Direction, io: seq<nat>, current: nat, size: nat, diffs: seq<nat>,
                       LogAddr: nat)
    requires |S| > 0 && Packed(io, current, size, diffs, LogAddr)
    ensures Progress(S, S, dir, [8 * LogAddr], 1, io, current, size, diffs, LogAddr, 0)
  {}

  /** A slave without bits in this direction takes nothing. */
  lemma ProgressSkip(S: seq<SlaveIO>, S0: seq<SlaveIO>, dir: Direction, marks: seq<nat>, n: nat,
                     io: seq<nat>, current: nat, size: nat, diffs: seq<nat>, LogAddr: nat, BitPos: nat)
    requires Progress(S, S0, dir, marks, n, io, current, size, diffs, LogAddr, BitPos) && n < |S|
    requires S[n].Bits(dir) == 0 && S[n].Fmmus(dir) == [] && |S[n].SM| == EC_MAXSM
    ensures Progress(S, S0, dir, marks + [marks[n - 1]], n + 1, io, current, size, diffs, LogAddr, BitPos)
  {
    MappedStep(S, S, dir, marks, n, marks[n - 1]);
    if Pack(diffs).lost == 0 {
      var m := marks + [marks[n - 1]];
      forall j | 1 <= j < n + 1 && S[j].Bits(dir) > 0 ensures Within(Pack(diffs).All(), m[j - 1] / 8, m[j] / 8) {
        assert j < n;
      }
    }
  }

  /** No slave needs a whole segment in this direction. */
  ghost predicate SmallSlaves(S: seq<SlaveIO>, dir: Direction) {
    forall j :: 0 <= j < |S| ==> ByteSize(S[j].Bits(dir)) < MAXSEGMENT
  }

  lemma ContributionFits(sl: SlaveIO, dir: Direction, addr: nat, pos: nat, next: nat, pos': nat)
    requires SlaveMapped(sl, dir, Position(addr, pos), Position(next, pos')) && sl.Bits(dir) > 0
    requires pos <= 7 && pos' <= 7 && ByteSize(sl.Bits(dir)) < MAXSEGMENT
    ensures next - addr <= MAXSEGMENT
  {}

  /** One slave with bits in this direction: FMMUs, then its contribution to the segments. */
  method PlaceSlave(slavelist: array<SlaveIO>, slave: nat, dir: Direction, IOsegment: array<nat>,
                    addr: nat, bit: nat, current: nat, size: nat, ghost S0: seq<SlaveIO>, ghost diffs: seq<nat>,
                      ghost marks: seq<nat>)
    returns (LogAddr: nat, BitPos: nat, currentsegment: nat, segmentsize: nat, wkc: nat)
    requires slave < slavelist.Length && slavelist[slave].Bits(dir) > 0 && |slavelist[slave].SM| == EC_MAXSM
    requires Progress(slavelist[..], S0, dir, marks, slave, IOsegment[..], current, size, diffs, addr, bit)
    modifies slavelist, IOsegment
    ensures forall j :: 0 <= j < slavelist.Length && j != slave ==> slavelist[j] == old(slavelist[j])
    ensures LogAddr >= addr && wkc == Working(slavelist[slave].Fmmus(dir), dir)
    ensures Progress(slavelist[..], S0, dir, marks + [Position(LogAddr, BitPos)], slave + 1,
                     IOsegment[..], currentsegment, segmentsize, diffs + [LogAddr - addr], LogAddr, BitPos)
    ensures ByteSize(old(slavelist[slave].Bits(dir))) < MAXSEGMENT ==> LogAddr - addr <= MAXSEGMENT
  {
    ghost var S1, io1 := slavelist[..], IOsegment[..];
    LogAddr, BitPos, wkc := MapSlave(slavelist, slave, dir, addr, bit);
    currentsegment, segmentsize := Contribute(IOsegment, current, size, LogAddr - addr, diffs, addr);
    ProgressStep(slavelist[..], S1, S0, dir, marks, slave, io1, current, size, diffs, addr, bit,
                 IOsegment[..], currentsegment, segmentsize, LogAddr, BitPos);
    if ByteSize(S1[slave].Bits(dir)) < MAXSEGMENT {
      ContributionFits(slavelist[slave], dir, addr, bit, LogAddr, BitPos);
    }
  }

  /** Fills up a begun byte behind the last slave. */
  method PadToByte(IOsegment: array<nat>, addr: nat, bit: nat, current: nat, size: nat,
                   ghost S: seq<SlaveIO>, ghost S0: seq<SlaveIO>, ghost dir: Direction, ghost diffs0: seq<nat>,
                     ghost marks: seq<nat>, ghost n: nat)
    returns (LogAddr: nat, currentsegment: nat, segmentsize: nat, ghost diffs: seq<nat>)
    requires Progress(S, S0, dir, marks, n, IOsegment[..], current, size, diffs0, addr, bit)
    modifies IOsegment
    ensures Packed(IOsegment[..], currentsegment, segmentsize, diffs, LogAddr)
    ensures LogAddr >= addr && (diffs == diffs0 || diffs == diffs0 + [1])
    ensures marks[n - 1] <= 8 * LogAddr < marks[n - 1] + 8
    ensures Pack(diffs).lost == 0 ==> Unsplit(S, dir, marks, n, Pack(diffs).All())
  {
    LogAddr, currentsegment, segmentsize, diffs := addr, current, size, diffs0;
    if bit > 0 {
      LogAddr := LogAddr + 1;
      currentsegment, segmentsize := Contribute(IOsegment, currentsegment, segmentsize, 1, diffs, addr);
      PackStep(diffs, 1);
      if Pack(diffs).lost == 0 {
        UnsplitStays(S, dir, marks, n, diffs, 1);
      }
      diffs := diffs + [1];
    }
  }

  /** Working FMMUs of the slaves below `n`. */
  function GroupWkc(S: seq<SlaveIO>, dir: Direction, n: nat): nat
    requires n <= |S|
  {
    if n <= 1 then 0 else GroupWkc(S, dir, n - 1) + Working(S[n - 1].Fmmus(dir), dir)
  }

  lemma {:induction false} GroupWkcSame(S: seq<SlaveIO>, S0: seq<SlaveIO>, dir: Direction, n: nat)
    requires n <= |S| == |S0| && forall j :: 0 <= j < n ==> S[j] == S0[j]
    ensures GroupWkc(S, dir, n) == GroupWkc(S0, dir, n)
  {
    if n > 1 { GroupWkcSame(S, S0, dir, n - 1); }
  }

  /** The loop over the slaves in one direction, and the padding to a whole byte after it. */
  method MapDirection(slavelist: array<SlaveIO>, slavecount: nat, dir: Direction, IOsegment: array<nat>,
                      addr: nat, current: nat, size: nat, ghost diffs0: seq<nat>)
    returns (LogAddr: nat, currentsegment: nat, segmentsize: nat, wkc: nat, ghost diffs: seq<nat>,
            ghost marks: seq<nat>)
    requires slavecount < slavelist.Length && Unmapped(slavelist[..], dir)
    requires Packed(IOsegment[..], current, size, diffs0, addr)
    modifies slavelist, IOsegment
    ensures OnlyFmmus(slavelist[..], old(slavelist[..]), dir)
    ensures Packed(IOsegment[..], currentsegment, segmentsize, diffs, LogAddr) && diffs0 <= diffs && LogAddr >= addr
    ensures Mapped(slavelist[..], dir, marks, slavecount + 1) && marks[0] == 8 * addr
    ensures marks[slavecount] <= 8 * LogAddr < marks[slavecount] + 8
    ensures Pack(diffs).lost == 0 ==> Unsplit(slavelist[..], dir, marks, slavecount + 1, Pack(diffs).All())
    ensures AllFit(diffs0) && SmallSlaves(old(slavelist[..]), dir) ==> AllFit(diffs)
    ensures wkc == GroupWkc(slavelist[..], dir, slavecount + 1)
  {
    hide SlaveMapped, Pack, Unsplit, Packed, OnlyFmmus;
    ghost var S0 := slavelist[..];
    ghost var S := S0;
    LogAddr, currentsegment, segmentsize, wkc, diffs := addr, current, size, 0, diffs0;
    var BitPos: nat := 0;
    marks := [8 * addr];
    ProgressStarts(S, dir, IOsegment[..], current, size, diffs0, addr);
    var slave := 1;
    while slave <= slavecount
      invariant 1 <= slave <= slavecount + 1 && S == slavelist[..]
      invariant Progress(S, S0, dir, marks, slave, IOsegment[..], currentsegment, segmentsize, diffs, LogAddr, BitPos)
      invariant diffs0 <= diffs && marks[0] == 8 * addr && LogAddr >= addr
      invariant AllFit(diffs0) && SmallSlaves(S0, dir) ==> AllFit(diffs)
      invariant wkc == GroupWkc(S, dir, slave)
    {
      if slavelist[slave].Bits(dir) > 0 {
        ghost var addr1 := LogAddr;
        var working;
        LogAddr, BitPos, currentsegment, segmentsize, working :=
          PlaceSlave(slavelist, slave, dir, IOsegment, LogAddr, BitPos, currentsegment, segmentsize, S0, diffs, marks);
        GroupWkcSame(slavelist[..], S, dir, slave);
        wkc := wkc + working;
        marks, diffs, S := marks + [Position(LogAddr, BitPos)], diffs + [LogAddr - addr1], slavelist[..];
      } else {
        ProgressSkip(S, S0, dir, marks, slave, IOsegment[..], currentsegment, segmentsize, diffs, LogAddr, BitPos);
        marks := marks + [marks[slave - 1]];
      }
      slave := slave + 1;
    }
    LogAddr, currentsegment, segmentsize, diffs :=
      PadToByte(IOsegment, LogAddr, BitPos, currentsegment, segmentsize, S, S0, dir, diffs, marks, slave);
  }

  /** The FMMUs of one slave follow each other within its stretch. */
  lemma {:induction false} TileOrder(fs: seq<Fmmu>, a: int, b: int, i: nat)
    requires Tile(fs, a, b) && i < |fs|
    ensures a <= First(fs[i]) <= End(fs[i]) <= b
    ensures forall j :: i < j < |fs| ==> End(fs[i]) <= First(fs[j])
  {
    var last := fs[|fs| - 1];
    if i < |fs| - 1 {
      TileOrder(fs[..|fs| - 1], a, First(last), i);
      assert forall j :: i < j < |fs| - 1 ==> fs[..|fs| - 1][j] == fs[j];
    } else if fs[..i] != [] {
      TileOrder(fs[..i], a, First(last), 0);
    }
  }

  /** A slave's FMMUs stay between the cursor marks around it. */
  lemma BetweenMarks(sl: SlaveIO, dir: Direction, from: nat, to: nat, k: nat)
    requires SlaveMapped(sl, dir, from, to) && k < |sl.Fmmus(dir)|
    ensures from <= First(sl.Fmmus(dir)[k]) <= End(sl.Fmmus(dir)[k]) <= to
  {
    TileOrder(sl.Fmmus(dir), if ByteSize(sl.Bits(dir)) == 0 then from else Aligned(from), to, k);
  }

  lemma {:induction false} MarksGrow(S: seq<SlaveIO>, dir: Direction, marks: seq<nat>, n: nat, i: nat, j: nat)
    requires Mapped(S, dir, marks, n) && i <= j < n
    ensures marks[i] <= marks[j]
  {
    if i < j {
      MarksGrow(S, dir, marks, n, i, j - 1);
      assert SlaveMapped(S[j], dir, marks[j - 1], marks[j]);
    }
  }

  /** So do those of one slave among each other. */
  lemma OwnOrder(sl: SlaveIO, dir: Direction, from: nat, to: nat, a: nat, b: nat)
    requires SlaveMapped(sl, dir, from, to) && a < b < |sl.Fmmus(dir)|
    ensures End(sl.Fmmus(dir)[a]) <= First(sl.Fmmus(dir)[b])
  {
    TileOrder(sl.Fmmus(dir), if ByteSize(sl.Bits(dir)) == 0 then from else Aligned(from), to, a);
  }

  /** And those of an earlier slave come first. */
  lemma SlaveOrder(S: seq<SlaveIO>, dir: Direction, marks: seq<nat>, n: nat, i: nat, j: nat, a: nat, b: nat)
    requires Mapped(S, dir, marks, n) && 1 <= i < j < n && a < |S[i].Fmmus(dir)| && b < |S[j].Fmmus(dir)|
    ensures End(S[i].Fmmus(dir)[a]) <= First(S[j].Fmmus(dir)[b])
  {
    hide SlaveMapped, First, End;
    BetweenMarks(S[i], dir, marks[i - 1], marks[i], a);
    BetweenMarks(S[j], dir, marks[j - 1], marks[j], b);
    MarksGrow(S, dir, marks, n, i, j - 1);
  }

  /** Logical bits are handed out in slave order: any two FMMUs of one direction are disjoint. */
  lemma FmmusAreDisjoint(S: seq<SlaveIO>, dir: Direction, marks: seq<nat>, n: nat, i: nat, j: nat, a: nat, b: nat)
    requires Mapped(S, dir, marks, n) && 1 <= i <= j < n
    requires a < |S[i].Fmmus(dir)| && b < |S[j].Fmmus(dir)| && (i < j || a < b)
    ensures End(S[i].Fmmus(dir)[a]) <= First(S[j].Fmmus(dir)[b])
  {
    hide SlaveMapped, First, End;
    if i < j {
      SlaveOrder(S, dir, marks, n, i, j, a, b);
    } else {
      OwnOrder(S[i], dir, marks[i - 1], marks[i], a, b);
    }
  }

  /** Every output bit comes before every input bit, and both stay inside the image. */
  lemma OutputsBeforeInputs(S: seq<SlaveIO>, omarks: seq<nat>, imarks: seq<nat>, n: nat, Obytes: nat, size: nat, i: nat,
                            j: nat, a: nat, b: nat)
    requires Mapped(S, Output, omarks, n) && omarks[n - 1] <= 8 * Obytes
    requires Mapped(S, Input, imarks, n) && imarks[0] == 8 * Obytes && imarks[n - 1] <= 8 * size
    requires 1 <= i < n && a < |S[i].outFMMU| && 1 <= j < n && b < |S[j].inFMMU|
    ensures End(S[i].outFMMU[a]) <= 8 * Obytes <= First(S[j].inFMMU[b]) <= End(S[j].inFMMU[b]) <= 8 * size
  {
    assert SlaveMapped(S[i], Output, omarks[i - 1], omarks[i]);
    assert SlaveMapped(S[j], Input, imarks[j - 1], imarks[j]);
    BetweenMarks(S[i], Output, omarks[i - 1], omarks[i], a);
    BetweenMarks(S[j], Input, imarks[j - 1], imarks[j], b);
    MarksGrow(S, Output, omarks, n, i, n - 1);
    MarksGrow(S, Input, imarks, n, 0, j - 1);
    MarksGrow(S, Input, imarks, n, j, n - 1);
  }

  /** Ethernet header, datagram header and work counter around `length` bytes of data. */
  function FrameBytes(length: nat): nat {
    14 + 12 + length + 2
  }

  /** Later contributions leave the segments closed so far alone and at most lengthen the current one. */
  lemma {:induction false} PackGrows(odiffs: seq<nat>, diffs: seq<nat>)
    requires odiffs <= diffs
    ensures var p, q := Pack(odiffs), Pack(diffs); var k := |p.closed|;
            && k < |q.All()| && q.All()[..k] == p.closed && q.All()[k] >= p.size
            && p.lost <= q.lost
    decreases |diffs|
  {
    if odiffs != diffs {
      PackGrows(odiffs, diffs[..|diffs| - 1]);
    }
  }

  /**
   * The segment list of a group: all segments make up the whole image, and the
   * outputs end `Ioffset` bytes into segment `Isegment`.
   */
  ghost predicate Segmented(segs: seq<nat>, Isegment: nat, Ioffset: nat, Obytes: nat, Ibytes: nat) {
    && Isegment < |segs| <= EC_MAXIOSEGMENTS && Ioffset <= segs[Isegment]
    && Sum(segs) == Obytes + Ibytes
    && Sum(segs[..Isegment]) + Ioffset == Obytes
  }

  lemma SegmentsAdd(odiffs: seq<nat>, diffs: seq<nat>, Obytes: nat, Ibytes: nat)
    requires odiffs <= diffs && Sum(odiffs) == Obytes && Sum(diffs) == Obytes + Ibytes
    requires Pack(diffs).lost == 0
    ensures Segmented(Pack(diffs).All(), |Pack(odiffs).closed|, Pack(odiffs).size, Obytes, Ibytes)
  {
    PackGrows(odiffs, diffs);
    PackConserves(odiffs);
    PackConserves(diffs);
    SumAppend(Pack(odiffs).closed, Pack(odiffs).size);
  }

  /** The slaves below `n` that block the combined read and write command. */
  ghost function Blockers(S: seq<SlaveIO>, n: nat): set<nat>
    requires n <= |S|
  {
    set i: nat | 1 <= i < n && S[i].blockLRW
  }

  lemma BlockersStep(S: seq<SlaveIO>, n: nat)
    requires 1 <= n < |S|
    ensures |Blockers(S, n + 1)| == |Blockers(S, n)| + if S[n].blockLRW then 1 else 0
  {
    assert Blockers(S, n + 1) == if S[n].blockLRW then Blockers(S, n) + {n} else Blockers(S, n);
  }

  /** Mapping one direction leaves what the slaves have in the other. */
  lemma OtherDirection(S: seq<SlaveIO>, S0: seq<SlaveIO>, dir: Direction, other: Direction)
    requires OnlyFmmus(S, S0, dir) && other != dir
    ensures forall j :: 0 <= j < |S| ==> S[j].Fmmus(other) == S0[j].Fmmus(other)
    ensures Unmapped(S0, other) ==> Unmapped(S, other)
    ensures SmallSlaves(S0, other) ==> SmallSlaves(S, other)
  {}

  lemma MappedStays(S: seq<SlaveIO>, S0: seq<SlaveIO>, marks: seq<nat>, n: nat)
    requires OnlyFmmus(S, S0, Input) && Mapped(S0, Output, marks, n)
    ensures Mapped(S, Output, marks, n)
  {
    forall j | 1 <= j < n ensures SlaveMapped(S[j], Output, marks[j - 1], marks[j]) {
      assert SlaveMapped(S0[j], Output, marks[j - 1], marks[j]);
    }
  }

  lemma {:induction false} WkcStays(S: seq<SlaveIO>, S0: seq<SlaveIO>, n: nat)
    requires OnlyFmmus(S, S0, Input) && n <= |S|
    ensures GroupWkc(S, Output, n) == GroupWkc(S0, Output, n)
  {
    if n > 1 { WkcStays(S, S0, n - 1); }
  }

  lemma BlockersStay(S: seq<SlaveIO>, S0: seq<SlaveIO>, dir: Direction, n: nat)
    requires OnlyFmmus(S, S0, dir) && n <= |S|
    ensures Blockers(S, n) == Blockers(S0, n)
  {}

  /** The output bytes of a slave stay in one segment while the inputs are packed. */
  lemma {:induction false} UnsplitGrows(S: seq<SlaveIO>, dir: Direction, marks: seq<nat>, n: nat, odiffs: seq<nat>,
                                        diffs: seq<nat>)
    requires odiffs <= diffs && Unsplit(S, dir, marks, n, Pack(odiffs).All())
    ensures Unsplit(S, dir, marks, n, Pack(diffs).All())
    decreases |diffs|
  {
    if odiffs != diffs {
      var before := diffs[..|diffs| - 1];
      UnsplitGrows(S, dir, marks, n, odiffs, before);
      UnsplitStays(S, dir, marks, n, before, diffs[|diffs| - 1]);
      assert before + [diffs[|diffs| - 1]] == diffs;
    }
  }

  lemma UnsplitOther(S: seq<SlaveIO>, S0: seq<SlaveIO>, marks: seq<nat>, n: nat, segs: seq<nat>)
    requires Unsplit(S0, Output, marks, n, segs) && OnlyFmmus(S, S0, Input)
    ensures Unsplit(S, Output, marks, n, segs)
  {}

  /** The slaves after both directions: `S1` is what the output loop left, `S` what the input loop made of it. */
  lemma BothMapped(S: seq<SlaveIO>, S1: seq<SlaveIO>, S0: seq<SlaveIO>, n: nat, omarks: seq<nat>, odiffs: seq<nat>,
                   diffs: seq<nat>)
    requires OnlyFmmus(S1, S0, Output) && OnlyFmmus(S, S1, Input) && n <= |S|
    requires Mapped(S1, Output, omarks, n) && odiffs <= diffs
    requires Pack(odiffs).lost == 0 ==> Unsplit(S1, Output, omarks, n, Pack(odiffs).All())
    ensures Mapped(S, Output, omarks, n)
    ensures Pack(diffs).lost == 0 ==> Unsplit(S, Output, omarks, n, Pack(diffs).All())
    ensures GroupWkc(S, Output, n) == GroupWkc(S1, Output, n)
    ensures Blockers(S, n) == Blockers(S0, n)
  {
    hide Mapped, Unsplit, GroupWkc, Blockers, Pack;
    MappedStays(S, S1, omarks, n);
    WkcStays(S, S1, n);
    BlockersStay(S, S1, Input, n);
    BlockersStay(S1, S0, Output, n);
    PackGrows(odiffs, diffs);
    if Pack(diffs).lost == 0 {
      UnsplitGrows(S1, Output, omarks, n, odiffs, diffs);
      UnsplitOther(S, S1, omarks, n, Pack(diffs).All());
    }
  }

  class Group {
    var Obytes: nat
    var Ibytes: nat
    var nsegments: nat
    var Isegment: nat
    var Ioffset: nat
    var outputsWKC: nat
    var inputsWKC: nat
    var blockLRW: nat
    const IOsegment: array<nat>

    constructor ()
      ensures fresh(IOsegment) && IOsegment.Length == EC_MAXIOSEGMENTS
    {
      IOsegment := new nat[EC_MAXIOSEGMENTS](_ => 0);
    }

    /** The segment list in use. */
    ghost function Segments(): seq<nat>
      requires nsegments <= IOsegment.Length
      reads this, IOsegment
    {
      IOsegment[..nsegments]
    }

    /** The output half, and where it ends in the segment list. */
    method MapOutputs(slavelist: array<SlaveIO>, slavecount: nat)
      returns (currentsegment: nat, segmentsize: nat, ghost odiffs: seq<nat>, ghost omarks: seq<nat>)
      requires IOsegment.Length == EC_MAXIOSEGMENTS
      requires slavecount < slavelist.Length && Unmapped(slavelist[..], Output)
      modifies this, IOsegment, slavelist
      ensures OnlyFmmus(slavelist[..], old(slavelist[..]), Output)
      ensures Packed(IOsegment[..], currentsegment, segmentsize, odiffs, Obytes)
      ensures Mapped(slavelist[..], Output, omarks, slavecount + 1) && omarks[0] == 0
      ensures omarks[slavecount] <= 8 * Obytes < omarks[slavecount] + 8
      ensures Pack(odiffs).lost == 0 ==> Unsplit(slavelist[..], Output, omarks, slavecount + 1, Pack(odiffs).All())
      ensures SmallSlaves(old(slavelist[..]), Output) ==> AllFit(odiffs)
      ensures Isegment == currentsegment && Ioffset == segmentsize && nsegments == currentsegment + 1
      ensures outputsWKC == GroupWkc(slavelist[..], Output, slavecount + 1)
      ensures blockLRW == old(blockLRW)
    {
      var LogAddr, wkc;
      LogAddr, currentsegment, segmentsize, wkc, odiffs, omarks :=
        MapDirection(slavelist, slavecount, Output, IOsegment, 0, 0, 0, []);
      outputsWKC := wkc;
      Obytes := LogAddr;
      nsegments := currentsegment + 1;
      Isegment := currentsegment;
      Ioffset := segmentsize;
    }

    /** The input half, up to closing the last segment. */
    method MapInputs(slavelist: array<SlaveIO>, slavecount: nat, current: nat, size: nat, ghost odiffs: seq<nat>)
      returns (LogAddr: nat, ghost diffs: seq<nat>, ghost imarks: seq<nat>)
      requires slavecount < slavelist.Length && Unmapped(slavelist[..], Input)
      requires Packed(IOsegment[..], current, size, odiffs, Obytes)
      modifies this`nsegments, this`Ibytes, this`inputsWKC, IOsegment, slavelist
      ensures OnlyFmmus(slavelist[..], old(slavelist[..]), Input)
      ensures LogAddr == Obytes + Ibytes == Sum(diffs) && odiffs <= diffs
      ensures nsegments <= EC_MAXIOSEGMENTS == IOsegment.Length && Segments() == Pack(diffs).All()
      ensures Mapped(slavelist[..], Input, imarks, slavecount + 1) && imarks[0] == 8 * Obytes
      ensures imarks[slavecount] <= 8 * LogAddr < imarks[slavecount] + 8
      ensures Pack(diffs).lost == 0 ==> Unsplit(slavelist[..], Input, imarks, slavecount + 1, Pack(diffs).All())
      ensures AllFit(odiffs) && SmallSlaves(old(slavelist[..]), Input) ==> AllFit(diffs)
      ensures inputsWKC == GroupWkc(slavelist[..], Input, slavecount + 1)
    {
      var currentsegment, segmentsize, wkc;
      LogAddr, currentsegment, segmentsize, wkc, diffs, imarks :=
        MapDirection(slavelist, slavecount, Input, IOsegment, Obytes, current, size, odiffs);
      inputsWKC := wkc;
      IOsegment[currentsegment] := segmentsize;
      nsegments := currentsegment + 1;
      Ibytes := LogAddr - Obytes;
    }

    /** The input loop also counts the slaves that block the combined command. */
    method CountBlocked(slavelist: array<SlaveIO>, slavecount: nat)
      requires slavecount < slavelist.Length
      modifies this`blockLRW
      ensures blockLRW == old(blockLRW) + |Blockers(slavelist[..], slavecount + 1)|
    {
      assert Blockers(slavelist[..], 1) == {};
      var slave := 1;
      while slave <= slavecount
        invariant 1 <= slave <= slavecount + 1
        invariant blockLRW == old(blockLRW) + |Blockers(slavelist[..], slave)|
      {
        BlockersStep(slavelist[..], slave);
        if slavelist[slave].blockLRW {
          blockLRW := blockLRW + 1;
        }
        slave := slave + 1;
      }
    }

    /**
     * Maps the outputs and then the inputs of all slaves.  `omarks` and `imarks`
     * are the cursor behind each slave, `odiffs` and `diffs` the contributions
     * of the outputs and of everything.
     */
    method Map(slavelist: array<SlaveIO>, slavecount: nat)
      returns (size: nat, ghost omarks: seq<nat>, ghost imarks: seq<nat>, ghost odiffs: seq<nat>, ghost diffs: seq<nat>)
      requires IOsegment.Length == EC_MAXIOSEGMENTS
      requires 0 < slavecount < slavelist.Length
      requires Unmapped(slavelist[..], Output) && Unmapped(slavelist[..], Input)
      modifies this, IOsegment, slavelist
      ensures size == Obytes + Ibytes
      ensures Mapped(slavelist[..], Output, omarks, slavecount + 1) && omarks[0] == 0
      ensures omarks[slavecount] <= 8 * Obytes < omarks[slavecount] + 8
      ensures Mapped(slavelist[..], Input, imarks, slavecount + 1) && imarks[0] == 8 * Obytes
      ensures imarks[slavecount] <= 8 * size < imarks[slavecount] + 8
      ensures nsegments <= EC_MAXIOSEGMENTS && Segments() == Pack(diffs).All()
      ensures Sum(Segments()) + Pack(diffs).lost == size
      ensures Pack(diffs).lost == 0 ==>
                && Segmented(Segments(), Isegment, Ioffset, Obytes, Ibytes)
                && Unsplit(slavelist[..], Output, omarks, slavecount + 1, Segments())
                && Unsplit(slavelist[..], Input, imarks, slavecount + 1, Segments())
      ensures odiffs <= diffs && Sum(odiffs) == Obytes && Sum(diffs) == size
      ensures Isegment == |Pack(odiffs).closed| && Ioffset == Pack(odiffs).size
      ensures SmallSlaves(old(slavelist[..]), Output) && SmallSlaves(old(slavelist[..]), Input) ==> AllFit(diffs)
      ensures outputsWKC == GroupWkc(slavelist[..], Output, slavecount + 1)
      ensures inputsWKC == GroupWkc(slavelist[..], Input, slavecount + 1)
      ensures blockLRW == old(blockLRW) + |Blockers(old(slavelist[..]), slavecount + 1)|
    {
      hide Mapped, Unsplit, GroupWkc, Blockers, OnlyFmmus, Segmented, Pack, Sum;
      ghost var S0 := slavelist[..];
      nsegments, outputsWKC, inputsWKC := 0, 0, 0;
      var currentsegment, segmentsize;
      currentsegment, segmentsize, odiffs, omarks := MapOutputs(slavelist, slavecount);
      ghost var S1 := slavelist[..];
      OtherDirection(S1, S0, Output, Input);
      size, diffs, imarks := MapInputs(slavelist, slavecount, currentsegment, segmentsize, odiffs);
      ghost var S := slavelist[..];
      BothMapped(S, S1, S0, slavecount + 1, omarks, odiffs, diffs);
      CountBlocked(slavelist, slavecount);
      assert S == slavelist[..];
      PackConserves(diffs);
      if Pack(diffs).lost == 0 {
        SegmentsAdd(odiffs, diffs, Obytes, Ibytes);
      }
    }
  }
}
