/**
 * The places of the FMMUs of a slave: those of its outputs come first, then those of its
 * inputs, in a table of four.  Neither the search for a free place nor the writing looks at the
 * end of the table.
 */
module FmmuTable {
  import opened Sequences
  import opened Mapping
  import opened ProcessImage
  import opened FmmuMemory

  const EC_MAXFMMU := 4

  /** Number of FMMUs that the sync managers of a slave call for in a direction. */
  function Needed(SM: seq<SyncManager>, bits: nat, dir: Direction): nat
    requires |SM| == EC_MAXSM
  {
    if bits == 0 then 0
    else if ByteSize(bits) == 0 then 1
    else |Rest(SM, SMtypeOf(dir), bits, 0, 0, ByteSize(bits))|
  }

  /** A mapped slave has as many FMMUs as its sync managers call for. */
  lemma NeededFor(sl: SlaveIO, dir: Direction, from: nat, to: nat)
    requires SlaveMapped(sl, dir, from, to)
    ensures |sl.Fmmus(dir)| == Needed(sl.SM, sl.Bits(dir), dir)
    ensures sl.Bits(dir) > 0 <==> sl.Fmmus(dir) != []
  {
    if ByteSize(sl.Bits(dir)) > 0 {
      RestStep(sl.SM, SMtypeOf(dir), sl.Bits(dir), 0, 0, ByteSize(sl.Bits(dir)));
    }
  }

  /** The first free place from `from` on, or the end of the table. */
  function FirstFree(table: seq<Fmmu>, from: nat): (c: nat)
    requires from <= |table|
    ensures from <= c <= |table|
    decreases |table| - from
  {
    if from < |table| && table[from].LogStart != 0 then FirstFree(table, from + 1) else from
  }

  /** The FMMU registers of one slave; those from `FMMUunused` on have not been given away. */
  class Table {
    const FMMU: array<Fmmu>
    var FMMUunused: nat

    ghost predicate Valid()
      reads this
    {
      FMMU.Length == EC_MAXFMMU && FMMUunused <= EC_MAXFMMU
    }

    /** As cleared at start-up. */
    constructor ()
      ensures Valid() && fresh(FMMU) && FMMUunused == 0
      ensures FMMU[..] == Repeat(Fmmu(0, 0, 0, 0, 0, 0), EC_MAXFMMU)
    {
      FMMU := new Fmmu[EC_MAXFMMU](_ => Fmmu(0, 0, 0, 0, 0, 0));
      FMMUunused := 0;
    }

    /** Writes FMMUs from place `FMMUc0` on; `inside` tells whether they end within the table. */
    method Write(fs: seq<Fmmu>, FMMUc0: nat) returns (inside: bool)
      requires Valid() && FMMUc0 <= EC_MAXFMMU
      modifies this, FMMU
      ensures inside <==> FMMUc0 + |fs| <= EC_MAXFMMU
      ensures inside ==> Valid() && FMMUunused == FMMUc0 + |fs|
      ensures inside ==> FMMU[..] == old(FMMU[..FMMUc0]) + fs + old(FMMU[..])[FMMUc0 + |fs|..]
    {
      var FMMUc, k := FMMUc0, 0;
      while k < |fs|
        invariant k <= |fs| && FMMUc == FMMUc0 + k <= EC_MAXFMMU
        invariant FMMU[..FMMUc] == old(FMMU[..FMMUc0]) + fs[..k] && FMMU[FMMUc..] == old(FMMU[..])[FMMUc..]
      {
        if FMMUc == EC_MAXFMMU { return false; }
        FMMU[FMMUc] := fs[k];
        FMMUc, k := FMMUc + 1, k + 1;
      }
      FMMUunused := FMMUc;
      assert fs[..k] == fs && FMMU[..] == FMMU[..FMMUc] + FMMU[FMMUc..];
      inside := true;
    }

    /** The inputs of a slave that has outputs look for a free place first. */
    method WriteInputs(fs: seq<Fmmu>, Obits: nat) returns (inside: bool)
      requires Valid() && fs != []
      modifies this, FMMU
      ensures var c := if Obits > 0 then FirstFree(old(FMMU[..]), old(FMMUunused)) else old(FMMUunused);
              && (inside <==> c + |fs| <= EC_MAXFMMU)
              && (inside ==> Valid() && FMMUunused == c + |fs|
                             && FMMU[..] == old(FMMU[..])[..c] + fs + old(FMMU[..])[c + |fs|..])
    {
      var FMMUc := FMMUunused;
      if Obits > 0 {
        while FMMUc < EC_MAXFMMU && FMMU[FMMUc].LogStart != 0
          invariant FMMUc <= EC_MAXFMMU && FirstFree(FMMU[..], FMMUc) == FirstFree(FMMU[..], FMMUunused)
        {
          FMMUc := FMMUc + 1;
        }
        // The search reads the place behind the table here.
        if FMMUc == EC_MAXFMMU { return false; }
      }
      inside := Write(fs, FMMUc);
    }

    /**
     * The FMMUs of a mapped slave, in a cleared table.  They end within it exactly when its sync
     * managers call for no more than four.
     */
    method WriteBoth(sl: SlaveIO, ghost o1: nat, ghost o2: nat, ghost i1: nat, ghost i2: nat) returns (inside: bool)
      requires Valid() && FMMUunused == 0 && FMMU[..] == Repeat(Fmmu(0, 0, 0, 0, 0, 0), EC_MAXFMMU)
      requires SlaveMapped(sl, Output, o1, o2) && SlaveMapped(sl, Input, i1, i2)
      modifies this, FMMU
      ensures inside <==> Needed(sl.SM, sl.Obits, Output) + Needed(sl.SM, sl.Ibits, Input) <= EC_MAXFMMU
      ensures inside ==> Valid() && FMMU[..FMMUunused] == sl.Registers()
    {
      hide SlaveMapped, Needed;
      NeededFor(sl, Output, o1, o2);
      NeededFor(sl, Input, i1, i2);
      inside := true;
      if sl.Obits > 0 {
        inside := Write(sl.outFMMU, FMMUunused);
        assert inside ==> FirstFree(FMMU[..], FMMUunused) == FMMUunused && FMMU[..FMMUunused] == sl.outFMMU;
      }
      assert inside ==> FMMU[..FMMUunused] == sl.outFMMU;
      if inside && sl.Ibits > 0 {
        inside := WriteInputs(sl.inFMMU, sl.Obits);
      }
    }
  }

  /** Sync managers that adjoin each other with at most one gap call for two FMMUs at most. */
  lemma OneGapNeedsTwo(SM: seq<SyncManager>, bits: nat, dir: Direction)
    requires Usable(SM, SMtypeOf(dir)) && 8 * Provided(SM, SMtypeOf(dir), LAST) >= bits
    requires OneGap(SM, SMtypeOf(dir), bits)
    ensures Needed(SM, bits, dir) <= 2
  {
    hide RunsAt, Runs, NextBreak, Skip, Provided, Orderly, At;
    var ty := SMtypeOf(dir);
    if ByteSize(bits) > 0 {
      AtFirst(SM, ty, bits);
      var c := Skip(SM, ty, 0);
      var n := SM[c].SMlength;
      RunsFrom(SM, ty, bits, 0, 0);
      BreakIs(SM, ty, bits, c, n);
      BreakRuns(SM, ty, bits, SM[c].StartAddr, c, n);
      BreakOrder(SM, ty, bits, c, n, 1);
      var w := NextBreak(SM, ty, bits, c, n);
      if w.at < LAST {
        var m := w.upto + SM[w.at].SMlength;
        BreakOrder(SM, ty, bits, w.at, m, 0);
        BreakRuns(SM, ty, bits, SM[w.at].StartAddr, w.at, m);
      }
    }
  }

  /** So a slave whose memory is mapped right in both directions has places enough. */
  lemma FourAreEnough(sl: SlaveIO)
    requires Usable(sl.SM, SMtypeOf(Output)) && 8 * Provided(sl.SM, SMtypeOf(Output), LAST) >= sl.Obits
    requires Usable(sl.SM, SMtypeOf(Input)) && 8 * Provided(sl.SM, SMtypeOf(Input), LAST) >= sl.Ibits
    requires OneGap(sl.SM, SMtypeOf(Output), sl.Obits) && OneGap(sl.SM, SMtypeOf(Input), sl.Ibits)
    ensures Needed(sl.SM, sl.Obits, Output) + Needed(sl.SM, sl.Ibits, Input) <= EC_MAXFMMU
  {
    hide OneGap, Usable, Provided, Needed;
    OneGapNeedsTwo(sl.SM, sl.Obits, Output);
    OneGapNeedsTwo(sl.SM, sl.Ibits, Input);
  }

  /** Three sync managers for outputs and four for inputs, of one byte each, all apart. */
  function Scattered(): (SM: seq<SyncManager>)
    ensures |SM| == EC_MAXSM
  {
    [SyncManager(0x1000, 1, 3), SyncManager(0x1100, 1, 3), SyncManager(0x1200, 1, 3), SyncManager(0x1300, 1, 4),
     SyncManager(0x1400, 1, 4), SyncManager(0x1500, 1, 4), SyncManager(0x1600, 1, 4), SyncManager(0, 0, 0)]
  }

  lemma ScatteredOutputs()
    ensures Rest(Scattered(), 3, 24, 0, 0, 3) == [Stretch(0x1000, 1), Stretch(0x1100, 2)]
  {
    hide Clip, Runs, Rest;
    var SM := Scattered();
    assert NextRun(SM, 3, 24, 0, 0) == Run(0x1000, 1, 1) && NextRun(SM, 3, 24, 1, 1) == Run(0x1100, 2, 2);
    RestStep(SM, 3, 24, 0, 0, 3);
    RestStep(SM, 3, 24, 1, 1, 2);
    NoRest(SM, 3, 24, 2, 2, 0);
  }

  lemma ScatteredInputs()
    ensures Rest(Scattered(), 4, 32, 0, 0, 4) == [Stretch(0x1300, 1), Stretch(0x1400, 2), Stretch(0x1500, 1)]
  {
    hide Clip, Runs, Rest;
    var SM := Scattered();
    assert Skip(SM, 4, 0) == 3 by { assert Skip(SM, 4, 2) == 3; }
    assert NextRun(SM, 4, 32, 0, 0) == Run(0x1300, 4, 1) && NextRun(SM, 4, 32, 4, 1) == Run(0x1400, 5, 2);
    assert NextRun(SM, 4, 32, 5, 2) == Run(0x1500, 6, 3);
    RestStep(SM, 4, 32, 0, 0, 4);
    RestStep(SM, 4, 32, 4, 1, 3);
    RestStep(SM, 4, 32, 5, 2, 1);
    NoRest(SM, 4, 32, 6, 3, 0);
  }

  /** They call for five FMMUs: the count runs on from run to run, so each is longer than the one before. */
  lemma FiveAreTooMany()
    ensures Needed(Scattered(), 24, Output) == 2 && Needed(Scattered(), 32, Input) == 3
    ensures Needed(Scattered(), 24, Output) + Needed(Scattered(), 32, Input) > EC_MAXFMMU
  {
    hide Rest, Scattered;
    ScatteredOutputs();
    ScatteredInputs();
  }
}
