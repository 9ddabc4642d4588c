/**
 * Which memory of a slave its FMMUs map, and when that is the memory of its
 * sync managers: the search joins every sync manager that does not start above
 * the end of the one before, and the byte count runs on from run to run.
 */
module FmmuMemory {
  import opened Common
  import opened Mapping
  import opened ProcessImage

  function Range(a: nat, n: nat): (s: seq<nat>)
    ensures |s| == n && forall i :: 0 <= i < n ==> s[i] == a + i
  {
    seq(n, i => a + i)
  }

  /** The addresses in stretches of memory, one after the other. */
  function Addresses(ss: seq<Stretch>): seq<nat> {
    if ss == [] then [] else Range(ss[0].start, ss[0].length) + Addresses(ss[1..])
  }

  /** The addresses of the sync managers of a type with an index below `k`. */
  function Memory(SM: seq<SyncManager>, ty: nat, k: nat): (m: seq<nat>)
    requires k <= |SM|
    ensures |m| == Provided(SM, ty, k)
  {
    if k == 0 then []
    else Memory(SM, ty, k - 1) + if SM[k - 1].SMtype == ty then Range(SM[k - 1].StartAddr, SM[k - 1].SMlength) else []
  }

  function EndOf(sm: SyncManager): nat {
    sm.StartAddr + sm.SMlength
  }

  /** Sync managers of process data have memory, at 16 bit addresses. */
  ghost predicate Usable(SM: seq<SyncManager>, ty: nat) {
    && |SM| == EC_MAXSM
    && forall s :: 0 <= s < LAST && SM[s].SMtype == ty ==> SM[s].SMlength > 0 && SM[s].StartAddr < 0x1_0000
  }

  /**
   * As long as bits are wanted, every sync manager behind `c` starts where the one before it
   * ends, but for at most `gaps` of them, which start above that.
   */
  predicate Orderly(SM: seq<SyncManager>, ty: nat, bits: nat, c: nat, ByteCount: nat, gaps: nat)
    requires |SM| == EC_MAXSM && c < LAST
    decreases |SM| - c
  {
    8 * ByteCount >= bits
    || var d := Skip(SM, ty, c + 1);
       d == LAST
       || if SM[d].StartAddr == EndOf(SM[c]) then Orderly(SM, ty, bits, d, ByteCount + SM[d].SMlength, gaps)
          else
            && SM[d].StartAddr > Short(EndOf(SM[c])) && gaps > 0
            && Orderly(SM, ty, bits, d, ByteCount + SM[d].SMlength, gaps - 1)
  }

  /** The sync managers wanted adjoin each other, with at most one gap. */
  predicate OneGap(SM: seq<SyncManager>, ty: nat, bits: nat)
    requires |SM| == EC_MAXSM
  {
    var c := Skip(SM, ty, 0);
    c == LAST || Orderly(SM, ty, bits, c, SM[c].SMlength, 1)
  }

  /**
   * The first sync manager behind `c` that does not start where the one before ends (`LAST` if
   * none), and the bytes before it.
   */
  datatype Break = Break(at: nat, upto: nat)

  function NextBreak(SM: seq<SyncManager>, ty: nat, bits: nat, c: nat, ByteCount: nat): Break
    requires |SM| == EC_MAXSM && c < LAST
    decreases |SM| - c
  {
    if 8 * ByteCount >= bits then Break(LAST, ByteCount)
    else
      var d := Skip(SM, ty, c + 1);
      if d == LAST then Break(LAST, ByteCount)
      else if SM[d].StartAddr == EndOf(SM[c]) then NextBreak(SM, ty, bits, d, ByteCount + SM[d].SMlength)
      else Break(d, ByteCount)
  }

  /** The runs from one that has come to sync manager `c`. */
  function RunsAt(SM: seq<SyncManager>, ty: nat, bits: nat, phys: nat, c: nat, ByteCount: nat): (rs: seq<Run>)
    requires |SM| == EC_MAXSM && c < LAST
    ensures |rs| > 0 && rs[0].phys == phys
  {
    var r := Extend(SM, ty, bits, phys, c, ByteCount, Short(EndOf(SM[c])));
    if 8 * r.upto >= bits then [r] else [r] + Runs(SM, ty, bits, r.next, r.upto)
  }

  lemma RunsFrom(SM: seq<SyncManager>, ty: nat, bits: nat, from: nat, counted: nat)
    requires |SM| == EC_MAXSM && from < LAST && Skip(SM, ty, from) < LAST
    ensures var c := Skip(SM, ty, from);
            Runs(SM, ty, bits, from, counted) == RunsAt(SM, ty, bits, SM[c].StartAddr, c, counted + SM[c].SMlength)
  {}

  /** The search has come to sync manager `c`, which is of the type, and has counted all so far. */
  ghost predicate At(SM: seq<SyncManager>, ty: nat, bits: nat, c: nat, ByteCount: nat) {
    && Usable(SM, ty) && 8 * Provided(SM, ty, LAST) >= bits
    && c < LAST && SM[c].SMtype == ty && ByteCount == Provided(SM, ty, c + 1)
  }

  lemma {:induction false} SkipFinds(SM: seq<SyncManager>, ty: nat, from: nat)
    requires |SM| == EC_MAXSM && from <= LAST
    ensures Skip(SM, ty, from) < LAST ==> SM[Skip(SM, ty, from)].SMtype == ty
    decreases |SM| - from
  {
    if from < LAST && SM[from].SMtype != ty { SkipFinds(SM, ty, from + 1); }
  }

  /** While bytes are wanted there is a next sync manager. */
  lemma AtNext(SM: seq<SyncManager>, ty: nat, bits: nat, c: nat, ByteCount: nat)
    requires At(SM, ty, bits, c, ByteCount) && 8 * ByteCount < bits
    ensures var d := Skip(SM, ty, c + 1); d < LAST && At(SM, ty, bits, d, ByteCount + SM[d].SMlength)
  {
    SkipFinds(SM, ty, c + 1);
    SkipProvides(SM, ty, c + 1);
  }

  lemma AtFirst(SM: seq<SyncManager>, ty: nat, bits: nat)
    requires Usable(SM, ty) && 8 * Provided(SM, ty, LAST) >= bits > 0
    ensures var c := Skip(SM, ty, 0); c < LAST && At(SM, ty, bits, c, SM[c].SMlength)
  {
    SkipFinds(SM, ty, 0);
    SkipProvides(SM, ty, 0);
  }

  /** Where the memory before the break ends. */
  function BreakEnd(SM: seq<SyncManager>, c: nat, ByteCount: nat, w: Break): nat
    requires c < |SM| && ByteCount <= w.upto
  {
    EndOf(SM[c]) + (w.upto - ByteCount)
  }

  lemma {:induction false} ProvidedGrows(SM: seq<SyncManager>, ty: nat, j: nat, k: nat)
    requires j <= k <= |SM|
    ensures Provided(SM, ty, j) <= Provided(SM, ty, k)
  {
    if j < k { ProvidedGrows(SM, ty, j, k - 1); }
  }

  /** The first break behind `c`. */
  lemma {:induction false} BreakIs(SM: seq<SyncManager>, ty: nat, bits: nat, c: nat, ByteCount: nat)
    requires At(SM, ty, bits, c, ByteCount)
    ensures var w := NextBreak(SM, ty, bits, c, ByteCount);
            && ByteCount <= w.upto <= Provided(SM, ty, LAST)
            && if w.at >= LAST then w.at == LAST && 8 * w.upto >= bits
               else
                 && 8 * w.upto < bits && At(SM, ty, bits, w.at, w.upto + SM[w.at].SMlength)
                 && SM[w.at].StartAddr != BreakEnd(SM, c, ByteCount, w)
    decreases |SM| - c
  {
    if 8 * ByteCount < bits {
      AtNext(SM, ty, bits, c, ByteCount);
      var d := Skip(SM, ty, c + 1);
      if SM[d].StartAddr == EndOf(SM[c]) {
        BreakIs(SM, ty, bits, d, ByteCount + SM[d].SMlength);
      }
    }
    ProvidedGrows(SM, ty, c + 1, LAST);
  }

  lemma {:induction false} SkipSame(SM: seq<SyncManager>, ty: nat, from: nat)
    requires |SM| == EC_MAXSM && from <= LAST
    ensures Skip(SM, ty, Skip(SM, ty, from)) == Skip(SM, ty, from)
    decreases |SM| - from
  {
    if from < LAST && SM[from].SMtype != ty { SkipSame(SM, ty, from + 1); }
  }

  lemma {:induction false} ExtendCounts(SM: seq<SyncManager>, ty: nat, bits: nat, phys: nat, c: nat, ByteCount: nat,
                                        EndAddr: nat)
    requires |SM| == EC_MAXSM && c <= LAST
    ensures Extend(SM, ty, bits, phys, c, ByteCount, EndAddr).upto >= ByteCount
    decreases |SM| - c
  {
    if 8 * ByteCount < bits && c < LAST {
      var d := Skip(SM, ty, c + 1);
      if SM[d].StartAddr <= EndAddr {
        ExtendCounts(SM, ty, bits, phys, d, ByteCount + SM[d].SMlength, Short(EndOf(SM[d])));
      }
    }
  }

  /** The next sync manager is joined, or starts a new run. */
  lemma RunsStep(SM: seq<SyncManager>, ty: nat, bits: nat, phys: nat, c: nat, ByteCount: nat)
    requires At(SM, ty, bits, c, ByteCount) && 8 * ByteCount < bits
    ensures var d, rs := Skip(SM, ty, c + 1), RunsAt(SM, ty, bits, phys, c, ByteCount);
            && d < LAST
            && if SM[d].StartAddr > Short(EndOf(SM[c]))
               then rs == [Run(phys, d, ByteCount)]
                 + RunsAt(SM, ty, bits, SM[d].StartAddr, d, ByteCount + SM[d].SMlength)
               else rs == RunsAt(SM, ty, bits, phys, d, ByteCount + SM[d].SMlength)
                    && rs[0].upto >= ByteCount + SM[d].SMlength
  {
    hide Short, Skip, Provided;
    AtNext(SM, ty, bits, c, ByteCount);
    ExtendUnfold(SM, ty, bits, phys, c, ByteCount, Short(EndOf(SM[c])));
    var d := Skip(SM, ty, c + 1);
    if SM[d].StartAddr > Short(EndOf(SM[c])) {
      SkipSame(SM, ty, c + 1);
      RunsFrom(SM, ty, bits, d, ByteCount);
    } else {
      ExtendCounts(SM, ty, bits, phys, d, ByteCount + SM[d].SMlength, Short(EndOf(SM[d])));
    }
  }

  lemma RunsEnd(SM: seq<SyncManager>, ty: nat, bits: nat, phys: nat, c: nat, ByteCount: nat)
    requires |SM| == EC_MAXSM && c < LAST && 8 * ByteCount >= bits
    ensures RunsAt(SM, ty, bits, phys, c, ByteCount) == [Run(phys, c, ByteCount)]
  {}

  /** An adjoining sync manager does not start above the end. */
  lemma AdjoiningIsJoined(SM: seq<SyncManager>, ty: nat, bits: nat, c: nat, ByteCount: nat, d: nat, more: nat)
    requires At(SM, ty, bits, c, ByteCount) && At(SM, ty, bits, d, more) && SM[d].StartAddr == EndOf(SM[c])
    ensures SM[d].StartAddr == Short(EndOf(SM[c])) && SM[d].SMlength > 0
  {}

  /**
   * The runs up to the first break: there is none, a gap, at which a new run starts,
   * or a sync manager that is joined although it is not next.
   */
  lemma {:induction false} BreakRuns(SM: seq<SyncManager>, ty: nat, bits: nat, phys: nat, c: nat, ByteCount: nat)
    requires At(SM, ty, bits, c, ByteCount)
    ensures var w, rs := NextBreak(SM, ty, bits, c, ByteCount), RunsAt(SM, ty, bits, phys, c, ByteCount);
            && ByteCount <= w.upto && w.at <= LAST
            && (w.at == LAST ==> |rs| == 1 && rs[0].upto == w.upto)
            && (w.at < LAST ==>
                  if SM[w.at].StartAddr > Short(BreakEnd(SM, c, ByteCount, w))
                  then rs == [Run(phys, w.at, w.upto)]
                             + RunsAt(SM, ty, bits, SM[w.at].StartAddr, w.at, w.upto + SM[w.at].SMlength)
                  else rs[0].upto > w.upto)
    decreases |SM| - c
  {
    hide RunsAt, Skip, Provided, Short;
    BreakIs(SM, ty, bits, c, ByteCount);
    if 8 * ByteCount < bits {
      AtNext(SM, ty, bits, c, ByteCount);
      RunsStep(SM, ty, bits, phys, c, ByteCount);
      var d := Skip(SM, ty, c + 1);
      if SM[d].StartAddr == EndOf(SM[c]) {
        AdjoiningIsJoined(SM, ty, bits, c, ByteCount, d, ByteCount + SM[d].SMlength);
        BreakRuns(SM, ty, bits, phys, d, ByteCount + SM[d].SMlength);
      }
    } else {
      RunsEnd(SM, ty, bits, phys, c, ByteCount);
    }
  }

  /** Order in terms of the first break. */
  lemma {:induction false} BreakOrder(SM: seq<SyncManager>, ty: nat, bits: nat, c: nat, ByteCount: nat, gaps: nat)
    requires At(SM, ty, bits, c, ByteCount)
    ensures var w := NextBreak(SM, ty, bits, c, ByteCount);
            && ByteCount <= w.upto && w.at <= LAST
            && (Orderly(SM, ty, bits, c, ByteCount, gaps) <==>
                  w.at == LAST
                  || (SM[w.at].StartAddr > Short(BreakEnd(SM, c, ByteCount, w)) && gaps > 0
                      && Orderly(SM, ty, bits, w.at, w.upto + SM[w.at].SMlength, gaps - 1)))
    decreases |SM| - c
  {
    hide Skip, Provided, Short;
    BreakIs(SM, ty, bits, c, ByteCount);
    if 8 * ByteCount < bits {
      AtNext(SM, ty, bits, c, ByteCount);
      var d := Skip(SM, ty, c + 1);
      if SM[d].StartAddr == EndOf(SM[c]) {
        BreakOrder(SM, ty, bits, d, ByteCount + SM[d].SMlength, gaps);
      }
    }
  }

  /** The memory of one sync manager within that of all. */
  lemma {:induction false} MemoryOf(SM: seq<SyncManager>, ty: nat, c: nat, k: nat)
    requires c < k <= |SM| && SM[c].SMtype == ty
    ensures Provided(SM, ty, c + 1) == Provided(SM, ty, c) + SM[c].SMlength <= Provided(SM, ty, k)
    ensures forall i {:trigger Memory(SM, ty, k)[i]} :: Provided(SM, ty, c) <= i < Provided(SM, ty, c + 1) ==>
              Memory(SM, ty, k)[i] == SM[c].StartAddr + (i - Provided(SM, ty, c))
  {
    ProvidedGrows(SM, ty, c + 1, k);
    if c + 1 < k {
      MemoryOf(SM, ty, c, k - 1);
    }
  }

  /** From sync manager `c` to the first break the memory is in one piece, and there it goes on elsewhere. */
  lemma {:induction false} BreakMemory(SM: seq<SyncManager>, ty: nat, bits: nat, c: nat, ByteCount: nat, M: seq<nat>)
    requires At(SM, ty, bits, c, ByteCount) && M == Memory(SM, ty, LAST)
    ensures var w := NextBreak(SM, ty, bits, c, ByteCount);
            && SM[c].SMlength <= ByteCount <= w.upto <= |M| && w.at <= LAST
            && (forall i :: ByteCount - SM[c].SMlength <= i < w.upto ==>
                  M[i] == SM[c].StartAddr + (i - (ByteCount - SM[c].SMlength)))
            && (w.at < LAST ==> w.upto < |M| && M[w.upto] == SM[w.at].StartAddr)
    decreases |SM| - c
  {
    hide Skip, Provided, Memory;
    BreakIs(SM, ty, bits, c, ByteCount);
    MemoryOf(SM, ty, c, LAST);
    if 8 * ByteCount < bits {
      AtNext(SM, ty, bits, c, ByteCount);
      var d := Skip(SM, ty, c + 1);
      MemoryOf(SM, ty, d, LAST);
      if SM[d].StartAddr == EndOf(SM[c]) {
        BreakMemory(SM, ty, bits, d, ByteCount + SM[d].SMlength, M);
      }
    }
  }

  lemma ClipFirst(rs: seq<Run>, left: nat)
    requires rs != [] && left > 0
    ensures var n := if rs[0].upto > left then left else rs[0].upto;
            Addresses(Clip(rs, left)) == Range(rs[0].phys, n) + Addresses(Clip(rs[1..], left - n))
  {
    var n := if rs[0].upto > left then left else rs[0].upto;
    var ss := Clip(rs, left);
    assert ss == [Stretch(rs[0].phys, n)] + Clip(rs[1..], left - n);
    assert ss[1..] == Clip(rs[1..], left - n);
  }

  /** A run without a break maps the memory it is for. */
  lemma UnbrokenRun(SM: seq<SyncManager>, ty: nat, bits: nat, c: nat, ByteCount: nat, bytes: nat)
    requires At(SM, ty, bits, c, ByteCount) && NextBreak(SM, ty, bits, c, ByteCount).at == LAST
    requires ByteCount - SM[c].SMlength < bytes <= Provided(SM, ty, LAST) && bits <= 8 * bytes < bits + 8
    ensures var from := ByteCount - SM[c].SMlength;
            Addresses(Clip(RunsAt(SM, ty, bits, SM[c].StartAddr, c, ByteCount), bytes - from))
            == Memory(SM, ty, LAST)[from..bytes]
  {
    var from, w := ByteCount - SM[c].SMlength, NextBreak(SM, ty, bits, c, ByteCount);
    var M, rs := Memory(SM, ty, LAST), RunsAt(SM, ty, bits, SM[c].StartAddr, c, ByteCount);
    BreakIs(SM, ty, bits, c, ByteCount);
    BreakRuns(SM, ty, bits, SM[c].StartAddr, c, ByteCount);
    BreakMemory(SM, ty, bits, c, ByteCount, M);
    ClipFirst(rs, bytes - from);
    assert Addresses(Clip(rs[1..], 0)) == [];
    assert Range(SM[c].StartAddr, bytes - from) == M[from..bytes];
  }

  /** A run that is taken too long maps other memory from its break on. */
  lemma BrokenRun(SM: seq<SyncManager>, ty: nat, bits: nat, c: nat, ByteCount: nat, bytes: nat)
    requires At(SM, ty, bits, c, ByteCount) && NextBreak(SM, ty, bits, c, ByteCount).at < LAST
    requires ByteCount - SM[c].SMlength < bytes <= Provided(SM, ty, LAST) && bits <= 8 * bytes < bits + 8
    requires ByteCount > SM[c].SMlength
             || RunsAt(SM, ty, bits, SM[c].StartAddr, c, ByteCount)[0].upto > NextBreak(SM, ty, bits, c, ByteCount).upto
    ensures var from := ByteCount - SM[c].SMlength;
            Addresses(Clip(RunsAt(SM, ty, bits, SM[c].StartAddr, c, ByteCount), bytes - from))
            != Memory(SM, ty, LAST)[from..bytes]
  {
    hide RunsAt, NextBreak, Skip, Provided, Short, Clip, Addresses;
    var from, w := ByteCount - SM[c].SMlength, NextBreak(SM, ty, bits, c, ByteCount);
    var M, rs := Memory(SM, ty, LAST), RunsAt(SM, ty, bits, SM[c].StartAddr, c, ByteCount);
    BreakIs(SM, ty, bits, c, ByteCount);
    BreakRuns(SM, ty, bits, SM[c].StartAddr, c, ByteCount);
    BreakMemory(SM, ty, bits, c, ByteCount, M);
    ClipFirst(rs, bytes - from);
    var i := w.upto - from;
    assert M[from..bytes][i] == M[w.upto];
    assert Addresses(Clip(rs, bytes - from))[i] == SM[c].StartAddr + i;
  }

  lemma SamePrefix(a: seq<nat>, b: seq<nat>, c: seq<nat>)
    ensures a + b == a + c <==> b == c
  {
    assert (a + b)[|a|..] == b && (a + c)[|a|..] == c;
  }

  /** A first run that ends in a gap maps its memory, and the rest is up to the second. */
  lemma RunToGap(SM: seq<SyncManager>, ty: nat, bits: nat, c: nat, bytes: nat)
    requires c < |SM| && At(SM, ty, bits, c, SM[c].SMlength)
    requires bytes <= Provided(SM, ty, LAST) && bits <= 8 * bytes < bits + 8
    requires var w := NextBreak(SM, ty, bits, c, SM[c].SMlength);
             w.at < LAST && w.upto >= SM[c].SMlength && SM[w.at].StartAddr > Short(BreakEnd(SM, c, SM[c].SMlength, w))
    ensures var w := NextBreak(SM, ty, bits, c, SM[c].SMlength);
            var rs := RunsAt(SM, ty, bits, SM[w.at].StartAddr, w.at, w.upto + SM[w.at].SMlength);
            && 0 < w.upto < bytes
            && (Addresses(Clip(RunsAt(SM, ty, bits, SM[c].StartAddr, c, SM[c].SMlength), bytes))
                == Memory(SM, ty, LAST)[..bytes] <==>
                Addresses(Clip(rs, bytes - w.upto)) == Memory(SM, ty, LAST)[w.upto..bytes])
  {
    hide RunsAt, NextBreak, Skip, Provided, Short, Clip, Addresses;
    var w := NextBreak(SM, ty, bits, c, SM[c].SMlength);
    var M, rs := Memory(SM, ty, LAST), RunsAt(SM, ty, bits, SM[c].StartAddr, c, SM[c].SMlength);
    BreakIs(SM, ty, bits, c, SM[c].SMlength);
    BreakRuns(SM, ty, bits, SM[c].StartAddr, c, SM[c].SMlength);
    BreakMemory(SM, ty, bits, c, SM[c].SMlength, M);
    ClipFirst(rs, bytes);
    assert Range(SM[c].StartAddr, w.upto) == M[..w.upto];
    SamePrefix(M[..w.upto], Addresses(Clip(rs[1..], bytes - w.upto)), M[w.upto..bytes]);
    assert M[..w.upto] + M[w.upto..bytes] == M[..bytes];
  }

  /**
   * The FMMUs of a byte oriented slave map the memory of its sync managers, in their order,
   * exactly when these adjoin each other with at most one gap.  One that starts below the end
   * of the one before is joined as if it started there, and from a second gap on the FMMU of
   * the second run is too long, because the byte count is not restarted for it.
   */
  lemma RunsMapMemory(SM: seq<SyncManager>, ty: nat, bits: nat)
    requires Usable(SM, ty) && 0 < ByteSize(bits) <= Provided(SM, ty, LAST)
    ensures Addresses(Rest(SM, ty, bits, 0, 0, ByteSize(bits))) == Memory(SM, ty, LAST)[..ByteSize(bits)]
            <==> OneGap(SM, ty, bits)
  {
    hide RunsAt, Runs, NextBreak, Skip, Provided, Short, Clip, Addresses, Orderly, Memory, At;
    var bytes, c := ByteSize(bits), Skip(SM, ty, 0);
    AtFirst(SM, ty, bits);
    var n := SM[c].SMlength;
    RunsFrom(SM, ty, bits, 0, 0);
    BreakIs(SM, ty, bits, c, n);
    BreakRuns(SM, ty, bits, SM[c].StartAddr, c, n);
    BreakOrder(SM, ty, bits, c, n, 1);
    var w := NextBreak(SM, ty, bits, c, n);
    if w.at == LAST {
      UnbrokenRun(SM, ty, bits, c, n, bytes);
    } else if SM[w.at].StartAddr > Short(BreakEnd(SM, c, n, w)) {
      RunToGap(SM, ty, bits, c, bytes);
      BreakOrder(SM, ty, bits, w.at, w.upto + SM[w.at].SMlength, 0);
      if NextBreak(SM, ty, bits, w.at, w.upto + SM[w.at].SMlength).at == LAST {
        UnbrokenRun(SM, ty, bits, w.at, w.upto + SM[w.at].SMlength, bytes);
      } else {
        BrokenRun(SM, ty, bits, w.at, w.upto + SM[w.at].SMlength, bytes);
      }
    } else {
      BrokenRun(SM, ty, bits, c, n, bytes);
    }
  }

  /** The same of a slave of a mapped group; the FMMU of a bit oriented slave points at the first byte. */
  lemma FmmusMapMemory(sl: SlaveIO, dir: Direction, from: nat, to: nat)
    requires SlaveMapped(sl, dir, from, to) && sl.Bits(dir) > 0 && Usable(sl.SM, SMtypeOf(dir))
    requires 8 * Provided(sl.SM, SMtypeOf(dir), LAST) >= sl.Bits(dir)
    ensures var ty, bytes, fs := if dir == Output then 3 else 4, ByteSize(sl.Bits(dir)), sl.Fmmus(dir);
            var M := Memory(sl.SM, ty, LAST);
            if bytes == 0 then |fs| == 1 && fs[0].PhysStart == M[0]
            else Addresses(Stretches(fs)) == M[..bytes] <==> OneGap(sl.SM, ty, sl.Bits(dir))
  {
    var ty := SMtypeOf(dir);
    if ByteSize(sl.Bits(dir)) == 0 {
      AtFirst(sl.SM, ty, sl.Bits(dir));
      MemoryOf(sl.SM, ty, Skip(sl.SM, ty, 0), LAST);
    } else {
      RunsMapMemory(sl.SM, ty, sl.Bits(dir));
    }
  }

  /** Sync managers for mailboxes, then `a`, `b` and `c`. */
  function Table(a: SyncManager, b: SyncManager, c: SyncManager): (SM: seq<SyncManager>)
    ensures |SM| == EC_MAXSM
  {
    var none := SyncManager(0, 0, 0);
    [none, none, a, b, c, none, none, none]
  }

  /** Two sync managers, the second one lower: one FMMU of four bytes, which never reaches the second. */
  lemma LowerIsJoined()
    ensures var SM := Table(SyncManager(0x1000, 2, 3), SyncManager(0x0F00, 2, 3), SyncManager(0, 0, 0));
            && Rest(SM, 3, 32, 0, 0, 4) == [Stretch(0x1000, 4)]
            && Memory(SM, 3, LAST) == [0x1000, 0x1001, 0x0F00, 0x0F01]
  {
    hide Clip, Runs;
    var SM := Table(SyncManager(0x1000, 2, 3), SyncManager(0x0F00, 2, 3), SyncManager(0, 0, 0));
    assert Skip(SM, 3, 0) == 2 && Skip(SM, 3, 3) == 3;
    assert NextRun(SM, 3, 32, 0, 0) == Run(0x1000, 3, 4);
    RestStep(SM, 3, 32, 0, 0, 4);
    NoRest(SM, 3, 32, 3, 4, 0);
    assert Memory(SM, 3, 2) == [];
    assert Memory(SM, 3, 3) == Range(0x1000, 2);
    assert Memory(SM, 3, 5) == Memory(SM, 3, 4) == Range(0x1000, 2) + Range(0x0F00, 2);
  }

  lemma TableMemory(a: SyncManager, b: SyncManager, c: SyncManager)
    requires a.SMtype == b.SMtype == c.SMtype == 3
    ensures Memory(Table(a, b, c), 3, LAST)
            == Range(a.StartAddr, a.SMlength) + Range(b.StartAddr, b.SMlength) + Range(c.StartAddr, c.SMlength)
  {
    var SM := Table(a, b, c);
    assert Memory(SM, 3, 2) == [];
    assert Memory(SM, 3, 3) == Range(a.StartAddr, a.SMlength);
    assert Memory(SM, 3, 5) == Memory(SM, 3, 4) + Range(c.StartAddr, c.SMlength);
  }

  /** Three sync managers apart: the second FMMU is twice as long as it should be, and there is no third. */
  lemma ThirdIsLost()
    ensures var SM := Table(SyncManager(0x1000, 2, 3), SyncManager(0x1100, 2, 3), SyncManager(0x1200, 2, 3));
            && Rest(SM, 3, 48, 0, 0, 6) == [Stretch(0x1000, 2), Stretch(0x1100, 4)]
            && Memory(SM, 3, LAST) == [0x1000, 0x1001, 0x1100, 0x1101, 0x1200, 0x1201]
  {
    hide Clip, Runs, Memory;
    var SM := Table(SyncManager(0x1000, 2, 3), SyncManager(0x1100, 2, 3), SyncManager(0x1200, 2, 3));
    assert Skip(SM, 3, 0) == 2 && Skip(SM, 3, 3) == 3 && Skip(SM, 3, 4) == 4;
    assert NextRun(SM, 3, 48, 0, 0) == Run(0x1000, 3, 2) && NextRun(SM, 3, 48, 3, 2) == Run(0x1100, 4, 4);
    RestStep(SM, 3, 48, 0, 0, 6);
    RestStep(SM, 3, 48, 3, 2, 4);
    NoRest(SM, 3, 48, 4, 4, 0);
    TableMemory(SyncManager(0x1000, 2, 3), SyncManager(0x1100, 2, 3), SyncManager(0x1200, 2, 3));
  }
}
