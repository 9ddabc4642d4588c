/**
 * Logical address allocation for one slave and one direction
 * (`ecx_config_create_output_mappings` and `ecx_config_create_input_mappings`).
 * A cursor of a byte address and a bit position hands out the logical address
 * space; each FMMU of a slave maps a stretch of it to the memory of one or
 * more adjoining sync managers.
 */
module Mapping {
  import opened Common
  import opened Sequences

  const EC_MAXSM := 8

  /** Index of the last sync manager, at which every search stops. */
  const LAST := EC_MAXSM - 1

  datatype SyncManager = SyncManager(StartAddr: nat, SMlength: nat, SMtype: nat)

  datatype Fmmu = Fmmu(
    LogStart: nat, LogLength: nat, LogStartbit: nat, LogEndbit: nat,
    PhysStart: nat, FMMUtype: nat)

  datatype Direction = Output | Input

  /** Sync manager type of process data in a direction. */
  function SMtypeOf(dir: Direction): nat {
    if dir == Output then 3 else 4
  }

  function FMMUtypeOf(dir: Direction): nat {
    if dir == Output then 2 else 1
  }

  /** Bytes that the bits take. */
  function BytesFor(bits: nat): nat {
    (bits + 7) / 8
  }

  /** Whole bytes of a byte oriented slave; slaves below 8 bits are bit oriented and get 0 here. */
  function ByteSize(bits: nat): (b: nat)
    ensures b == 0 <==> bits <= 7
    ensures b > 0 ==> bits <= 8 * b < bits + 8
  {
    if bits > 7 then BytesFor(bits) else 0
  }

  lemma ByteOrBit(bits: nat)
    requires bits > 0
    ensures BytesFor(bits) == if ByteSize(bits) == 0 then 1 else ByteSize(bits)
  {}

  /** Cursor as a bit number. */
  function Position(LogAddr: nat, BitPos: nat): nat {
    8 * LogAddr + BitPos
  }

  /** First bit number beyond or at `pos` that starts a byte. */
  function Aligned(pos: nat): (a: nat)
    ensures a % 8 == 0 && pos <= a < pos + 8
  {
    8 * ((pos + 7) / 8)
  }

  /** The logical bits of an FMMU run from `First` up to, not including, `End`. */
  function First(f: Fmmu): int {
    8 * f.LogStart + f.LogStartbit
  }

  function End(f: Fmmu): int {
    8 * (f.LogStart + f.LogLength - 1) + f.LogEndbit + 1
  }

  /** The FMMUs adjoin each other and together make up the bits from `a` to `b`. */
  predicate Tile(fs: seq<Fmmu>, a: int, b: int) {
    if fs == [] then a == b
    else Tile(fs[..|fs| - 1], a, First(fs[|fs| - 1])) && First(fs[|fs| - 1]) <= End(fs[|fs| - 1]) == b
  }

  /** Total length of the sync managers of one type with an index below `k`. */
  function Provided(SM: seq<SyncManager>, ty: nat, k: nat): nat
    requires k <= |SM|
  {
    if k == 0 then 0 else Provided(SM, ty, k - 1) + if SM[k - 1].SMtype == ty then SM[k - 1].SMlength else 0
  }

  /** Next sync manager of the wanted type from `from` on; the last one is taken whatever its type. */
  function Skip(SM: seq<SyncManager>, ty: nat, from: nat): (SMc: nat)
    requires |SM| == EC_MAXSM && from <= LAST
    ensures from <= SMc <= LAST
    decreases |SM| - from
  {
    if from < LAST && SM[from].SMtype != ty then Skip(SM, ty, from + 1) else from
  }

  /**
   * A stretch of adjoining sync managers: where it starts, the sync manager to go on from, and the
   * bytes counted up to its end.
   */
  datatype Run = Run(phys: nat, next: nat, upto: nat)

  /** Goes on collecting after sync manager `SMc`, whose memory ends at `EndAddr`. */
  function Extend(SM: seq<SyncManager>, ty: nat, bits: nat, phys: nat, SMc: nat, ByteCount: nat, EndAddr: nat): (r: Run)
    requires |SM| == EC_MAXSM && SMc <= LAST
    ensures SMc <= r.next <= LAST && (8 * r.upto >= bits || r.next > SMc || SMc == LAST) && r.phys == phys
    decreases |SM| - SMc
  {
    if 8 * ByteCount < bits && SMc < LAST then
      var c := Skip(SM, ty, SMc + 1);
      if SM[c].StartAddr > EndAddr then Run(phys, c, ByteCount)
      else Extend(SM, ty, bits, phys, c, ByteCount + SM[c].SMlength, Short(SM[c].StartAddr + SM[c].SMlength))
    else Run(phys, SMc, ByteCount)
  }

  /** The run that starts at the next sync manager of the type from `from` on, with `counted` bytes before it. */
  function NextRun(SM: seq<SyncManager>, ty: nat, bits: nat, from: nat, counted: nat): (r: Run)
    requires |SM| == EC_MAXSM && from < LAST
    ensures from <= r.next <= LAST && (8 * r.upto >= bits || r.next > from)
  {
    var c := Skip(SM, ty, from);
    Extend(SM, ty, bits, SM[c].StartAddr, c, counted + SM[c].SMlength, Short(SM[c].StartAddr + SM[c].SMlength))
  }

  /** All runs, until enough bits are counted or the sync managers are used up. */
  function Runs(SM: seq<SyncManager>, ty: nat, bits: nat, from: nat, counted: nat): (rs: seq<Run>)
    requires |SM| == EC_MAXSM && from <= LAST
    decreases |SM| - from
  {
    if from == LAST then []
    else
      var r := NextRun(SM, ty, bits, from, counted);
      if 8 * r.upto >= bits then [r] else [r] + Runs(SM, ty, bits, r.next, r.upto)
  }

  lemma ExtendUnfold(SM: seq<SyncManager>, ty: nat, bits: nat, phys: nat, SMc: nat, ByteCount: nat, EndAddr: nat)
    requires |SM| == EC_MAXSM && SMc < LAST && 8 * ByteCount < bits
    ensures var c := Skip(SM, ty, SMc + 1);
            && (SM[c].StartAddr > EndAddr ==>
                  Extend(SM, ty, bits, phys, SMc, ByteCount, EndAddr) == Run(phys, c, ByteCount))
            && (SM[c].StartAddr <= EndAddr ==>
                  Extend(SM, ty, bits, phys, SMc, ByteCount, EndAddr)
                  == Extend(SM, ty, bits, phys, c, ByteCount + SM[c].SMlength, Short(SM[c].StartAddr + SM[c].SMlength)))
  {}

  method SkipTo(SM: seq<SyncManager>, ty: nat, from: nat) returns (SMc: nat)
    requires |SM| == EC_MAXSM && from <= LAST
    ensures SMc == Skip(SM, ty, from)
  {
    SMc := from;
    while SMc < LAST && SM[SMc].SMtype != ty
      invariant from <= SMc <= LAST && Skip(SM, ty, SMc) == Skip(SM, ty, from)
    {
      SMc := SMc + 1;
    }
  }

  /** Loop over the sync managers of one FMMU. */
  method CollectRun(SM: seq<SyncManager>, ty: nat, from: nat, counted: nat, bits: nat)
    returns (PhysStart: nat, SMc: nat, ByteCount: nat)
    requires |SM| == EC_MAXSM && from < LAST
    ensures Run(PhysStart, SMc, ByteCount) == NextRun(SM, ty, bits, from, counted)
  {
    hide Short, Skip;
    ghost var r := NextRun(SM, ty, bits, from, counted);
    SMc := SkipTo(SM, ty, from);
    PhysStart := SM[SMc].StartAddr;
    var SMlength := SM[SMc].SMlength;
    ByteCount := counted + SMlength;
    var BitCount := 8 * ByteCount;
    var EndAddr := Short(SM[SMc].StartAddr + SMlength);
    while BitCount < bits && SMc < LAST
      invariant from <= SMc <= LAST && BitCount == 8 * ByteCount
      invariant Extend(SM, ty, bits, PhysStart, SMc, ByteCount, EndAddr) == r
      decreases LAST - SMc
    {
      ghost var c := Skip(SM, ty, SMc + 1);
      ExtendUnfold(SM, ty, bits, PhysStart, SMc, ByteCount, EndAddr);
      SMc := SMc + 1;
      SMc := SkipTo(SM, ty, SMc);
      assert SMc == c;
      if SM[SMc].StartAddr > EndAddr {
        return;
      }
      SMlength := SM[SMc].SMlength;
      ByteCount := ByteCount + SMlength;
      BitCount := BitCount + SMlength * 8;
      EndAddr := Short(SM[SMc].StartAddr + SMlength);
    }
  }

  /** A stretch of slave memory. */
  datatype Stretch = Stretch(start: nat, length: nat)

  function TotalLength(ss: seq<Stretch>): nat {
    if ss == [] then 0 else TotalLength(ss[..|ss| - 1]) + ss[|ss| - 1].length
  }

  lemma LengthAppend(ss: seq<Stretch>, t: Stretch)
    ensures TotalLength(ss + [t]) == TotalLength(ss) + t.length
  {
    assert (ss + [t])[..|ss|] == ss;
  }

  lemma {:induction false} LengthCons(t: Stretch, ss: seq<Stretch>)
    ensures TotalLength([t] + ss) == t.length + TotalLength(ss)
  {
    if ss == [] {
      LengthAppend([], t);
      assert [t] + ss == [] + [t];
    } else {
      var n := |ss| - 1;
      LengthCons(t, ss[..n]);
      LengthAppend([t] + ss[..n], ss[n]);
      assert [t] + ss == [t] + ss[..n] + [ss[n]];
    }
  }

  /** The memory that the FMMUs of a byte oriented slave map: each takes the count so far from the start of its run. */
  function Clip(rs: seq<Run>, left: nat): (ss: seq<Stretch>)
    ensures |ss| <= |rs|
  {
    if rs == [] || left == 0 then []
    else
      var n := if rs[0].upto > left then left else rs[0].upto;
      [Stretch(rs[0].phys, n)] + Clip(rs[1..], left - n)
  }

  /** No more than the wanted bytes are handed out, and all of them if the last run counts up to there. */
  lemma {:induction false} ClipTotal(rs: seq<Run>, left: nat)
    ensures TotalLength(Clip(rs, left)) <= left
    ensures |rs| > 0 && rs[|rs| - 1].upto >= left ==> TotalLength(Clip(rs, left)) == left
  {
    if rs != [] && left > 0 {
      var n := if rs[0].upto > left then left else rs[0].upto;
      ClipTotal(rs[1..], left - n);
      LengthCons(Stretch(rs[0].phys, n), Clip(rs[1..], left - n));
    }
  }

  lemma {:induction false} SkipProvides(SM: seq<SyncManager>, ty: nat, from: nat)
    requires |SM| == EC_MAXSM && from <= LAST
    ensures Provided(SM, ty, Skip(SM, ty, from)) == Provided(SM, ty, from)
    decreases |SM| - from
  {
    if from < LAST && SM[from].SMtype != ty { SkipProvides(SM, ty, from + 1); }
  }

  /** Nothing of the type is left out: a run counts every sync manager below the one to go on from. */
  lemma {:induction false} ExtendProvides(SM: seq<SyncManager>, ty: nat, bits: nat, phys: nat, SMc: nat, ByteCount: nat,
                                          EndAddr: nat)
    requires |SM| == EC_MAXSM && SMc <= LAST
    requires ByteCount >= Provided(SM, ty, if SMc < LAST then SMc + 1 else SMc)
    ensures var r := Extend(SM, ty, bits, phys, SMc, ByteCount, EndAddr);
            8 * r.upto >= bits || r.upto >= Provided(SM, ty, r.next)
    decreases |SM| - SMc
  {
    if 8 * ByteCount < bits && SMc < LAST {
      SkipProvides(SM, ty, SMc + 1);
      var c := Skip(SM, ty, SMc + 1);
      if SM[c].StartAddr <= EndAddr {
        ExtendProvides(SM, ty, bits, phys, c, ByteCount + SM[c].SMlength, Short(SM[c].StartAddr + SM[c].SMlength));
      }
    }
  }

  lemma RunProvides(SM: seq<SyncManager>, ty: nat, bits: nat, from: nat, counted: nat)
    requires |SM| == EC_MAXSM && from < LAST && counted >= Provided(SM, ty, from)
    ensures var r := NextRun(SM, ty, bits, from, counted); 8 * r.upto >= bits || r.upto >= Provided(SM, ty, r.next)
  {
    SkipProvides(SM, ty, from);
    var c := Skip(SM, ty, from);
    ExtendProvides(SM, ty, bits, SM[c].StartAddr, c, counted + SM[c].SMlength, Short(SM[c].StartAddr + SM[c].SMlength));
  }

  /** The runs reach the wanted count if the sync managers below the last one provide it. */
  lemma {:induction false} RunsReach(SM: seq<SyncManager>, ty: nat, bits: nat, from: nat, counted: nat)
    requires |SM| == EC_MAXSM && from < LAST && counted >= Provided(SM, ty, from)
    requires 8 * Provided(SM, ty, 7) >= bits
    ensures var rs := Runs(SM, ty, bits, from, counted); |rs| > 0 && 8 * rs[|rs| - 1].upto >= bits
    decreases |SM| - from
  {
    var r := NextRun(SM, ty, bits, from, counted);
    RunProvides(SM, ty, bits, from, counted);
    if 8 * r.upto < bits {
      RunsReach(SM, ty, bits, r.next, r.upto);
    }
  }

  lemma TileAppend(fs: seq<Fmmu>, f: Fmmu, a: int, b: int)
    requires Tile(fs, a, First(f)) && First(f) <= End(f) == b
    ensures Tile(fs + [f], a, b)
  {
    assert (fs + [f])[..|fs|] == fs;
  }

  /** The FMMU is of the type for its direction; one for inputs that maps nothing is left without a type. */
  predicate HasType(f: Fmmu, dir: Direction) {
    if dir == Input && f.LogLength == 0 then f.FMMUtype == 0 && First(f) == End(f) else f.FMMUtype == FMMUtypeOf(dir)
  }

  /** The FMMU of a bit oriented slave and the cursor behind it. */
  method BitMapping(bits: nat, addr: nat, pos: nat, PhysStart: nat, dir: Direction)
    returns (f: Fmmu, LogAddr: nat, BitPos: nat)
    requires 1 <= bits <= 7 && pos <= 7
    ensures First(f) == Position(addr, pos) && End(f) == Position(addr, pos) + bits == Position(LogAddr, BitPos)
    ensures 1 <= f.LogLength <= 2 && f.LogStartbit <= 7 && f.LogEndbit <= 7 && BitPos <= 7
    ensures f.PhysStart == PhysStart && HasType(f, dir)
  {
    LogAddr, BitPos := addr, pos;
    var LogStart, LogStartbit := LogAddr, BitPos;
    BitPos := BitPos + (bits - 1);
    if BitPos > 7 {
      LogAddr := LogAddr + 1;
      BitPos := BitPos - 8;
    }
    var FMMUsize := LogAddr - LogStart + 1;
    f := Fmmu(LogStart, FMMUsize, LogStartbit, BitPos, PhysStart, FMMUtypeOf(dir));
    BitPos := BitPos + 1;
    if BitPos > 7 {
      LogAddr := LogAddr + 1;
      BitPos := BitPos - 8;
    }
  }

  /** The next FMMU of a byte oriented slave that has been given `FMMUdone` of its `bytes`. */
  method ByteMapping(bytes: nat, FMMUdone: nat, ByteCount: nat, addr: nat, pos: nat, PhysStart: nat, dir: Direction)
    returns (f: Fmmu, LogAddr: nat)
    requires FMMUdone <= bytes && pos <= 7
    ensures f == Fmmu(Aligned(Position(addr, pos)) / 8,
            if ByteCount > bytes - FMMUdone then bytes - FMMUdone else ByteCount,
                      0, 7, PhysStart, f.FMMUtype)
    ensures First(f) == Aligned(Position(addr, pos)) && First(f) <= End(f) == Position(LogAddr, 0) && HasType(f, dir)
  {
    var BitPos := pos;
    LogAddr := addr;
    if BitPos != 0 {
      LogAddr := LogAddr + 1;
      BitPos := 0;
    }
    var LogStart, LogStartbit := LogAddr, BitPos;
    BitPos := 7;
    var FMMUsize := ByteCount;
    if FMMUsize + FMMUdone > bytes {
      FMMUsize := bytes - FMMUdone;
    }
    LogAddr := LogAddr + FMMUsize;
    f := Fmmu(LogStart, FMMUsize, LogStartbit, BitPos, PhysStart, FMMUtypeOf(dir));
    if dir == Input && FMMUsize == 0 {
      f := f.(FMMUtype := 0);
    }
  }

  /** The FMMUs of a length above zero. */
  ghost function NonEmpty(fs: seq<Fmmu>): set<nat> {
    set k: nat | k < |fs| && fs[k].LogLength > 0
  }

  /** FMMUs that count as working: for inputs, one of length zero does not. */
  function Working(fs: seq<Fmmu>, dir: Direction): (w: nat)
    ensures w == if dir == Output then |fs| else |NonEmpty(fs)|
  {
    if fs == [] then 0
    else
      var last := |fs| - 1;
      assert NonEmpty(fs) == if fs[last].LogLength > 0 then NonEmpty(fs[..last]) + {last} else NonEmpty(fs[..last]);
      Working(fs[..last], dir) + if dir == Output || fs[last].LogLength > 0 then 1 else 0
  }

  /** The memory that FMMUs map. */
  function Stretches(fs: seq<Fmmu>): (ss: seq<Stretch>)
    ensures |ss| == |fs|
  {
    seq(|fs|, k requires 0 <= k < |fs| => Stretch(fs[k].PhysStart, fs[k].LogLength))
  }

  /** The memory still to be mapped after the sync managers below `SMc`. */
  function Rest(SM: seq<SyncManager>, ty: nat, bits: nat, SMc: nat, ByteCount: nat, left: nat): seq<Stretch>
    requires |SM| == EC_MAXSM && SMc <= LAST
  {
    Clip(Runs(SM, ty, bits, SMc, ByteCount), left)
  }

  /**
   * Where the FMMUs of a slave point: the one of a bit oriented slave at the first
   * sync manager, those of a byte oriented one at the runs of sync managers.
   */
  ghost predicate Programmed(fs: seq<Fmmu>, bits: nat, SM: seq<SyncManager>, dir: Direction)
    requires |SM| == EC_MAXSM
  {
    var ty := SMtypeOf(dir);
    if ByteSize(bits) == 0 then |fs| == 1 && fs[0].PhysStart == SM[Skip(SM, ty, 0)].StartAddr
    else Stretches(fs) == Rest(SM, ty, bits, 0, 0, ByteSize(bits))
  }

  /** What one slave is given in one direction, between two cursor positions. */
  ghost predicate Placed(fs: seq<Fmmu>, bits: nat, SM: seq<SyncManager>, dir: Direction, from: nat, to: nat)
    requires |SM| == EC_MAXSM
  {
    if ByteSize(bits) == 0 then
      |fs| == 1 && Tile(fs, from, to) && to == from + bits
    else
      && Aligned(from) <= to && to % 8 == 0 && Tile(fs, Aligned(from), to)
      && to <= Aligned(from) + 8 * ByteSize(bits)
      && (Provided(SM, SMtypeOf(dir), 7) >= ByteSize(bits) ==> to == Aligned(from) + 8 * ByteSize(bits))
  }

  /** A bit oriented slave: nothing placed yet, or its one FMMU. */
  ghost predicate BitState(fs: seq<Fmmu>, from: nat, now: nat, bits: nat, done: nat) {
    if done == 0 then fs == [] && now == from else |fs| == 1 && Tile(fs, from, now) && now == from + bits
  }

  /** A byte oriented slave: the FMMUs so far, and the memory still to be mapped. */
  ghost predicate ByteState(fs: seq<Fmmu>, from: nat, now: nat, done: nat, bytes: nat, lens: seq<Stretch>,
                            rest: seq<Stretch>) {
    && done == TotalLength(Stretches(fs)) <= bytes
    && Stretches(fs) + rest == lens
    && Aligned(now) == Aligned(from) + 8 * done
    && (if fs == [] then now == from else now % 8 == 0 && Tile(fs, Aligned(from), now))
  }

  lemma StretchStep(fs: seq<Fmmu>, f: Fmmu, lens: seq<Stretch>, rest: seq<Stretch>)
    requires Stretches(fs) + ([Stretch(f.PhysStart, f.LogLength)] + rest) == lens
    ensures Stretches(fs + [f]) + rest == lens
    ensures TotalLength(Stretches(fs + [f])) == TotalLength(Stretches(fs)) + f.LogLength
  {
    var t := Stretch(f.PhysStart, f.LogLength);
    assert Stretches(fs + [f]) == Stretches(fs) + [t];
    LengthAppend(Stretches(fs), t);
  }

  lemma ByteStep(fs: seq<Fmmu>, f: Fmmu, from: nat, now: nat, next: nat, done: nat, bytes: nat,
                 lens: seq<Stretch>, rest: seq<Stretch>)
    requires ByteState(fs, from, now, done, bytes, lens, [Stretch(f.PhysStart, f.LogLength)] + rest)
    requires done + f.LogLength <= bytes
    requires First(f) == Aligned(now) && First(f) <= End(f) == next && next == Aligned(now) + 8 * f.LogLength
    ensures ByteState(fs + [f], from, next, done + f.LogLength, bytes, lens, rest)
  {
    hide First, End, Stretches, TotalLength;
    StretchStep(fs, f, lens, rest);
    assert fs == [] ==> Tile(fs, Aligned(from), First(f));
    TileAppend(fs, f, Aligned(from), next);
  }

  /** The next stretch, and the ones after it once the run is collected. */
  lemma RestStep(SM: seq<SyncManager>, ty: nat, bits: nat, SMc: nat, ByteCount: nat, left: nat)
    requires |SM| == EC_MAXSM && SMc < LAST && left > 0 && 8 * left < bits + 8
    ensures var r := NextRun(SM, ty, bits, SMc, ByteCount);
            var n := if r.upto > left then left else r.upto;
            Rest(SM, ty, bits, SMc, ByteCount, left)
              == [Stretch(r.phys, n)] + Rest(SM, ty, bits, r.next, r.upto, left - n)
  {
    var r := NextRun(SM, ty, bits, SMc, ByteCount);
    var rs := Runs(SM, ty, bits, SMc, ByteCount);
    assert rs[0] == r;
    if 8 * r.upto >= bits {
      assert rs[1..] == [];
    } else {
      assert rs[1..] == Runs(SM, ty, bits, r.next, r.upto);
    }
  }

  lemma RestTotal(SM: seq<SyncManager>, ty: nat, bits: nat, bytes: nat)
    requires |SM| == EC_MAXSM && bits <= 8 * bytes < bits + 8
    ensures TotalLength(Rest(SM, ty, bits, 0, 0, bytes)) <= bytes
    ensures Provided(SM, ty, LAST) >= bytes ==> TotalLength(Rest(SM, ty, bits, 0, 0, bytes)) == bytes
  {
    ClipTotal(Runs(SM, ty, bits, 0, 0), bytes);
    if Provided(SM, ty, LAST) >= bytes {
      RunsReach(SM, ty, bits, 0, 0);
    }
  }

  lemma NoRest(SM: seq<SyncManager>, ty: nat, bits: nat, SMc: nat, ByteCount: nat, left: nat)
    requires |SM| == EC_MAXSM && SMc <= LAST && (SMc == LAST || left == 0)
    ensures Rest(SM, ty, bits, SMc, ByteCount, left) == []
  {}

  lemma ByteDone(fs: seq<Fmmu>, from: nat, now: nat, done: nat, bytes: nat, lens: seq<Stretch>)
    requires ByteState(fs, from, now, done, bytes, lens, []) && fs != []
    ensures Tile(fs, Aligned(from), now) && now % 8 == 0 && now == Aligned(from) + 8 * TotalLength(lens)
            && Stretches(fs) == lens
  {
    assert Stretches(fs) + [] == Stretches(fs);
  }

  /** Start of the loop: nothing is placed. */
  lemma NothingPlaced(from: nat, bits: nat, lens: seq<Stretch>)
    ensures BitState([], from, from, bits, 0) && ByteState([], from, from, 0, ByteSize(bits), lens, lens)
  {
    assert Stretches([]) == [];
    assert [] + lens == lens;
  }

  /** The loop state: what is placed up to the cursor, and how it goes on. */
  ghost predicate Placing(SM: seq<SyncManager>, bits: nat, dir: Direction, from: nat, fs: seq<Fmmu>, now: nat, SMc: nat,
                          ByteCount: nat, done: nat)
    requires |SM| == EC_MAXSM
  {
    && SMc <= LAST
    && var bytes, ty := ByteSize(bits), SMtypeOf(dir);
       if bytes == 0 then
         && BitState(fs, from, now, bits, done) && (done == 0 ==> SMc == 0)
         && (done > 0 ==> Programmed(fs, bits, SM, dir))
       else
         && done <= bytes && (done > 0 || SMc > 0 ==> fs != [])
         && ByteState(fs, from, now, done, bytes, Rest(SM, ty, bits, 0, 0, bytes),
           Rest(SM, ty, bits, SMc, ByteCount, bytes - done))
  }

  /** The one FMMU of a bit oriented slave. */
  lemma BitPlaced(SM: seq<SyncManager>, bits: nat, dir: Direction, from: nat, fs: seq<Fmmu>, now: nat,
                  SMc: nat, ByteCount: nat, done: nat, f: Fmmu, next: nat)
    requires |SM| == EC_MAXSM && bits > 0 && ByteSize(bits) == 0 && SMc < LAST && done == 0
    requires Placing(SM, bits, dir, from, fs, now, SMc, ByteCount, done)
    requires var r := NextRun(SM, SMtypeOf(dir), bits, SMc, ByteCount); f.PhysStart == r.phys
    requires First(f) == now && First(f) <= End(f) == next == now + bits && f.LogLength > 0
    ensures var r := NextRun(SM, SMtypeOf(dir), bits, SMc, ByteCount);
            Placing(SM, bits, dir, from, fs + [f], next, r.next, r.upto, done + f.LogLength)
  {
    assert Tile([], from, First(f));
    TileAppend([], f, from, next);
    assert fs + [f] == [f] && [] + [f] == [f];
  }

  /** The next FMMU of a byte oriented slave. */
  lemma BytePlaced(SM: seq<SyncManager>, bits: nat, dir: Direction, from: nat, fs: seq<Fmmu>, now: nat,
                   SMc: nat, ByteCount: nat, done: nat, f: Fmmu, next: nat)
    requires |SM| == EC_MAXSM && ByteSize(bits) > 0 && SMc < LAST && done < ByteSize(bits)
    requires Placing(SM, bits, dir, from, fs, now, SMc, ByteCount, done)
    requires var r := NextRun(SM, SMtypeOf(dir), bits, SMc, ByteCount);
             f.PhysStart == r.phys
             && f.LogLength == if r.upto > ByteSize(bits) - done then ByteSize(bits) - done else r.upto
    requires First(f) == Aligned(now) && First(f) <= End(f) == next && f.LogStartbit == 0 && f.LogEndbit == 7
    ensures var r := NextRun(SM, SMtypeOf(dir), bits, SMc, ByteCount);
            && Placing(SM, bits, dir, from, fs + [f], next, r.next, r.upto, done + f.LogLength)
            && (done + f.LogLength == ByteSize(bits) || r.next > SMc)
  {
    hide Clip, Runs, NextRun, Tile, Programmed;
    var bytes, ty := ByteSize(bits), SMtypeOf(dir);
    var r := NextRun(SM, ty, bits, SMc, ByteCount);
    RestStep(SM, ty, bits, SMc, ByteCount, bytes - done);
    ByteStep(fs, f, from, now, next, done, bytes, Rest(SM, ty, bits, 0, 0, bytes),
             Rest(SM, ty, bits, r.next, r.upto, bytes - done - f.LogLength));
  }

  /** All of them. */
  ghost predicate OfType(fs: seq<Fmmu>, dir: Direction) {
    forall k :: 0 <= k < |fs| ==> HasType(fs[k], dir)
  }

  /** One FMMU: its sync managers, its place, the cursor behind it. */
  method PlaceFmmu(SM: seq<SyncManager>, bits: nat, dir: Direction, SMc0: nat, ByteCount0: nat, FMMUdone: nat,
                   addr: nat, pos: nat, ghost fs: seq<Fmmu>, ghost from: nat)
    returns (f: Fmmu, SMc: nat, ByteCount: nat, LogAddr: nat, BitPos: nat)
    requires |SM| == EC_MAXSM && bits > 0 && pos <= 7
    requires SMc0 < LAST && FMMUdone < BytesFor(bits)
    requires Placing(SM, bits, dir, from, fs, Position(addr, pos), SMc0, ByteCount0, FMMUdone)
    ensures BitPos <= 7
    ensures Placing(SM, bits, dir, from, fs + [f], Position(LogAddr, BitPos), SMc, ByteCount, FMMUdone + f.LogLength)
    ensures FMMUdone + f.LogLength >= BytesFor(bits) || SMc > SMc0
    ensures HasType(f, dir)
  {
    hide Placing, Position, SMtypeOf, FMMUtypeOf, NextRun, First, End, Aligned, Short, Skip, BytesFor, ByteSize,
      HasType;
    ByteOrBit(bits);
    var bytes := ByteSize(bits);
    var PhysStart;
    PhysStart, SMc, ByteCount := CollectRun(SM, SMtypeOf(dir), SMc0, ByteCount0, bits);
    if bytes == 0 {
      f, LogAddr, BitPos := BitMapping(bits, addr, pos, PhysStart, dir);
      BitPlaced(SM, bits, dir, from, fs, Position(addr, pos), SMc0, ByteCount0, FMMUdone, f, Position(LogAddr, BitPos));
    } else {
      f, LogAddr := ByteMapping(bytes, FMMUdone, ByteCount, addr, pos, PhysStart, dir);
      BitPos := 0;
      BytePlaced(SM, bits, dir, from, fs, Position(addr, pos), SMc0, ByteCount0, FMMUdone, f,
                 Position(LogAddr, BitPos));
    }
  }

  lemma AllPlaced(SM: seq<SyncManager>, bits: nat, dir: Direction, from: nat, fs: seq<Fmmu>, now: nat, SMc: nat,
                  ByteCount: nat, done: nat)
    requires |SM| == EC_MAXSM && bits > 0
    requires Placing(SM, bits, dir, from, fs, now, SMc, ByteCount, done) && (SMc == LAST || done >= BytesFor(bits))
    ensures Placed(fs, bits, SM, dir, from, now)
    ensures Programmed(fs, bits, SM, dir)
  {
    var bytes, ty := ByteSize(bits), SMtypeOf(dir);
    if bytes > 0 {
      NoRest(SM, ty, bits, SMc, ByteCount, bytes - done);
      ByteDone(fs, from, now, done, bytes, Rest(SM, ty, bits, 0, 0, bytes));
      RestTotal(SM, ty, bits, bytes);
    }
  }

  /** All FMMUs of a slave with `bits` > 0 bits in a direction. */
  method CreateMappings(SM: seq<SyncManager>, bits: nat, dir: Direction, addr: nat, pos: nat)
    returns (fs: seq<Fmmu>, LogAddr: nat, BitPos: nat, wkc: nat)
    requires |SM| == EC_MAXSM && bits > 0 && pos <= 7
    ensures BitPos <= 7
    ensures Placed(fs, bits, SM, dir, Position(addr, pos), Position(LogAddr, BitPos))
    ensures Programmed(fs, bits, SM, dir) && OfType(fs, dir)
    ensures wkc == Working(fs, dir)
  {
    hide Programmed, Rest, Tile, Provided, Aligned;
    fs, LogAddr, BitPos, wkc := [], addr, pos, 0;
    var SMc: nat, ByteCount: nat, FMMUdone: nat := 0, 0, 0;
    ghost var from := Position(addr, pos);
    NothingPlaced(from, bits, Rest(SM, SMtypeOf(dir), bits, 0, 0, ByteSize(bits)));
    while SMc < LAST && FMMUdone < BytesFor(bits)
      invariant BitPos <= 7 && wkc == Working(fs, dir) && OfType(fs, dir)
      invariant Placing(SM, bits, dir, from, fs, Position(LogAddr, BitPos), SMc, ByteCount, FMMUdone)
      decreases if FMMUdone < BytesFor(bits) then 1 else 0, LAST - SMc
    {
      var f;
      f, SMc, ByteCount, LogAddr, BitPos := PlaceFmmu(SM, bits, dir, SMc, ByteCount, FMMUdone, LogAddr, BitPos, fs,
        from);
      FMMUdone := FMMUdone + f.LogLength;
      if dir == Output || f.LogLength > 0 {
        wkc := wkc + 1;
      }
      assert (fs + [f])[..|fs|] == fs;
      fs := fs + [f];
    }
    AllPlaced(SM, bits, dir, from, fs, Position(LogAddr, BitPos), SMc, ByteCount, FMMUdone);
  }
}
