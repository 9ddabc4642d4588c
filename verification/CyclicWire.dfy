/**
 * A cycle on the wire: the cyclic frames as bytes, what each slave does to them
 * on their way, and the reply that is read from the buffer they come back to.
 * The slaves in a row answer as the logical network says.
 */
module CyclicWire {
  import opened Common
  import opened Sequences
  import opened Mapping
  import opened Segments
  import opened ProcessImage
  import opened ProcessData
  import opened LogicalNetwork
  import opened CyclicFrames
  import opened CyclicExchange
  import opened Redundancy
  import opened RedundantRing
  import opened RedundantWaiters
  import opened NicDriver
  import Frames

  /** Where the clock data are in a frame, behind the data of the first datagram. */
  const DCTO: nat := Frames.EC_ELENGTHSIZE + Frames.EC_HEADERSIZE + 10

  function PlaceValue(k: nat): (w: nat)
    requires k < 8
    ensures w > 0
  {
    [1, 2, 4, 8, 16, 32, 64, 128][k]
  }

  /** Bit `k` of a byte. */
  predicate BitOf(b: byte, k: nat)
    requires k < 8
  {
    b / PlaceValue(k) % 2 == 1
  }

  lemma Halves(b: nat, h: nat)
    requires h == b / 2
    ensures b / 4 == h / 2 && b / 8 == h / 4 && b / 16 == h / 8 && b / 32 == h / 16
    ensures b / 64 == h / 32 && b / 128 == h / 64
  {}

  /** The lowest bit is the first one. */
  lemma LowestFirst(b: byte, k: nat)
    requires k < 8
    ensures BitOf(b, k) <==> if k == 0 then b % 2 == 1 else BitOf(b / 2, k - 1)
  {
    Halves(b, b / 2);
  }

  function Bits(bs: seq<byte>): (r: seq<bool>)
    ensures |r| == 8 * |bs|
  {
    seq(8 * |bs|, i requires 0 <= i < 8 * |bs| => BitOf(bs[i / 8], i % 8))
  }

  /** The first datagram of `x` is that of frame `f`, with whatever data and work counter. */
  predicate IsOf(x: seq<byte>, f: Frame) {
    && |x| >= Frames.EC_HEADERSIZE + f.length + Frames.EC_WKCSIZE && x[2] == Code(f.cmd)
    && Frames.WordAt(x, 4) + 0x1_0000 * Frames.WordAt(x, 6) == f.LogAdr && Frames.WordAt(x, 8) % 0x800 == f.length
  }

  /** Data and work counter of a first datagram of `n` bytes. */
  function DataBits(x: seq<byte>, n: nat): (r: seq<bool>)
    requires |x| >= Frames.EC_HEADERSIZE + n
    ensures |r| == 8 * n
  {
    Bits(x[Frames.EC_HEADERSIZE..Frames.EC_HEADERSIZE + n])
  }

  function Counter(x: seq<byte>, n: nat): word
    requires |x| >= Frames.EC_HEADERSIZE + n + Frames.EC_WKCSIZE
  {
    Frames.WordAt(x, Frames.EC_HEADERSIZE + n)
  }

  /** What the slave adds to the work counter of a command for the bytes `lo` to `hi`. */
  function Adds(sl: SlaveIO, cmd: Command, lo: nat, hi: nat): nat {
    var ins := if Touched(sl, Input, lo, hi) then 1 else 0;
    var outs := if Touched(sl, Output, lo, hi) then 1 else 0;
    match cmd
    case LRD => ins
    case LWR => outs
    case LRW => ins + 2 * outs
  }

  /** Bit `i` of the data of frame `f` behind a slave: its input if it has one there and is read, else as it came. */
  predicate BitBehind(provided: bool, field: nat -> bool, f: Frame, i: nat, came: bool) {
    if f.cmd != LWR && provided then field(8 * f.LogAdr + i) else came
  }

  /**
   * The slave with record `sl` on the wire: into a logical datagram it puts its inputs, adds to
   * the work counter, and leaves the rest of it alone.
   */
  ghost predicate Handles(act: Slave, sl: SlaveIO, field: nat -> bool) {
    forall x, f {:trigger act(x), IsOf(x, f)} :: IsOf(x, f) ==>
      var y := act(x);
      && |y| == |x| && IsOf(y, f)
      && (forall i :: 0 <= i < 8 * f.length ==>
            DataBits(y, f.length)[i]
            == BitBehind(Provides(sl, 8 * f.LogAdr + i), field, f, i, DataBits(x, f.length)[i]))
      && Counter(y, f.length) == Short(Counter(x, f.length) + Adds(sl, f.cmd, f.LogAdr, f.LogAdr + f.length))
  }

  /** Some slave below `n` has an input there. */
  predicate ProvidedBelow(S: seq<SlaveIO>, n: nat, b: nat)
    requires n <= |S|
  {
    exists j :: 1 <= j < n && Provides(S[j], b)
  }

  /** What the slaves below `n` add to the work counter. */
  function AddedBelow(S: seq<SlaveIO>, n: nat, cmd: Command, lo: nat, hi: nat): nat
    requires n <= |S|
  {
    match cmd
    case LRD => Hits(S, n, Input, lo, hi)
    case LWR => Hits(S, n, Output, lo, hi)
    case LRW => Hits(S, n, Input, lo, hi) + 2 * Hits(S, n, Output, lo, hi)
  }

  lemma AddsOne(S: seq<SlaveIO>, n: nat, cmd: Command, lo: nat, hi: nat)
    requires 1 <= n < |S|
    ensures AddedBelow(S, n + 1, cmd, lo, hi) == AddedBelow(S, n, cmd, lo, hi) + Adds(S[n], cmd, lo, hi)
  {}

  lemma ProvidedOne(S: seq<SlaveIO>, n: nat, b: nat)
    requires 1 <= n < |S|
    ensures ProvidedBelow(S, n + 1, b) <==> ProvidedBelow(S, n, b) || Provides(S[n], b)
  {}

  /** The frame `y` is `x` behind the slaves below `n`. */
  ghost predicate Behind(S: seq<SlaveIO>, n: nat, field: nat -> bool, f: Frame, x: seq<byte>, y: seq<byte>)
    requires n <= |S|
  {
    && IsOf(x, f) && IsOf(y, f) && |y| == |x|
    && (forall i :: 0 <= i < 8 * f.length ==>
          DataBits(y, f.length)[i]
          == BitBehind(ProvidedBelow(S, n, 8 * f.LogAdr + i), field, f, i, DataBits(x, f.length)[i]))
    && Counter(y, f.length) == Short(Counter(x, f.length) + AddedBelow(S, n, f.cmd, f.LogAdr, f.LogAdr + f.length))
  }

  lemma OneMore(S: seq<SlaveIO>, n: nat, field: nat -> bool, f: Frame, x: seq<byte>, y: seq<byte>, act: Slave)
    requires 1 <= n < |S| && Behind(S, n, field, f, x, y) && Handles(act, S[n], field)
    ensures Behind(S, n + 1, field, f, x, act(y))
  {
    hide Adds, AddedBelow, ProvidedBelow, Provides, DataBits, Counter, Short;
    var z, lo, hi := act(y), f.LogAdr, f.LogAdr + f.length;
    AddsOne(S, n, f.cmd, lo, hi);
    ShortAdd(Counter(x, f.length) + AddedBelow(S, n, f.cmd, lo, hi), Adds(S[n], f.cmd, lo, hi));
    forall i | 0 <= i < 8 * f.length
      ensures DataBits(z, f.length)[i]
              == BitBehind(ProvidedBelow(S, n + 1, 8 * f.LogAdr + i), field, f, i, DataBits(x, f.length)[i])
    {
      ProvidedOne(S, n, 8 * f.LogAdr + i);
    }
  }

  /** The slaves in a row. */
  lemma {:induction false} ThroughBehind(slaves: seq<Slave>, S: seq<SlaveIO>, field: nat -> bool, f: Frame,
                                         x: seq<byte>, n: nat)
    requires |S| == |slaves| + 1 && n <= |slaves| && IsOf(x, f)
    requires forall i :: 0 <= i < |slaves| ==> Handles(slaves[i], S[i + 1], field)
    ensures Behind(S, n + 1, field, f, x, Through(slaves[..n], x))
  {
    hide Handles;
    if n > 0 {
      ThroughBehind(slaves, S, field, f, x, n - 1);
      assert slaves[..n][..n - 1] == slaves[..n - 1];
      OneMore(S, n, field, f, x, Through(slaves[..n - 1], x), slaves[n - 1]);
    }
  }

  lemma {:induction false} HitsBound(S: seq<SlaveIO>, n: nat, dir: Direction, lo: nat, hi: nat)
    requires n <= |S|
    ensures Hits(S, n, dir, lo, hi) <= n
  {
    if n > 1 { HitsBound(S, n - 1, dir, lo, hi); }
  }

  /** The process data of frame `f` as bytes; a read carries none. */
  ghost predicate Packs(bytes: seq<byte>, f: Frame) {
    && |bytes| == f.length && |f.payload| == 8 * f.length
    && if f.cmd == LRD then f.payload == Repeat(false, 8 * f.length) else f.payload == Bits(bytes)
  }

  lemma ZeroBit(k: nat)
    requires k < 8
    ensures !BitOf(0, k)
  {
    var w := PlaceValue(k);
    assert 0 / w == 0;
  }

  lemma ZeroBits(bs: seq<byte>)
    requires forall i :: 0 <= i < |bs| ==> bs[i] == 0
    ensures Bits(bs) == Repeat(false, 8 * |bs|)
  {
    hide BitOf;
    forall i | 0 <= i < 8 * |bs| ensures !Bits(bs)[i] { ZeroBit(i % 8); }
  }

  /** The first datagram as built. */
  lemma FirstIsAt(sent: seq<byte>, f: Frame, bytes: seq<byte>, idx: byte, configadr: word, time: seq<byte>)
    requires f.LogAdr < 0x1_0000_0000 && Frames.Holds(sent, Datagrams(f, bytes, idx, configadr, time), false)
    ensures var d := Frames.Datagram(Code(f.cmd), idx, f.LogAdr % 0x1_0000, f.LogAdr / 0x1_0000, bytes);
            Frames.At(sent, Frames.EC_ELENGTHSIZE, d, f.dc)
  {
    Frames.RowFirst(sent, Datagrams(f, bytes, idx, configadr, time), false);
  }

  /** So it is that of the frame, with its data and a work counter of zero. */
  lemma SentIsOf(sent: seq<byte>, f: Frame, bytes: seq<byte>, idx: byte, configadr: word, time: seq<byte>)
    requires f.LogAdr < 0x1_0000_0000 && Frames.Holds(sent, Datagrams(f, bytes, idx, configadr, time), false)
    requires Packs(bytes, f)
    ensures IsOf(sent, f) && sent[3] == idx && DataBits(sent, f.length) == f.payload && Counter(sent, f.length) == 0
  {
    hide Frames.Holds;
    FirstIsAt(sent, f, bytes, idx, configadr, time);
    Frames.LengthField(f.length, f.dc);
    var d := Frames.Datagram(Code(f.cmd), idx, f.LogAdr % 0x1_0000, f.LogAdr / 0x1_0000, bytes);
    var data := sent[Frames.EC_HEADERSIZE..Frames.EC_HEADERSIZE + f.length];
    assert data == Frames.OnWire(d).data;
    if f.cmd == LRD { ZeroBits(data); }
  }

  /** Size of a frame, and where the last work counter is. */
  lemma SentSize(sent: seq<byte>, f: Frame, bytes: seq<byte>, idx: byte, configadr: word, time: seq<byte>)
    requires f.LogAdr < 0x1_0000_0000 && Frames.Holds(sent, Datagrams(f, bytes, idx, configadr, time), false)
    requires |bytes| == f.length && |time| == 8
    ensures |sent| == Frames.EC_HEADERSIZE + f.length + Frames.EC_WKCSIZE + (if f.dc then EC_FIRSTDCDATAGRAM else 0)
    ensures Proper(sent) && Frames.WkcPosition(sent) == |sent| - Frames.EC_WKCSIZE
  {
    var ds := Datagrams(f, bytes, idx, configadr, time);
    Frames.WkcIsLast(sent, ds, false);
    var d := [ds[0]];
    assert Frames.Behind(d) == Frames.EC_ELENGTHSIZE + Frames.Span(ds[0]) by { assert d[..0] == []; }
    if f.dc {
      assert ds[..1] == d;
    } else {
      assert ds == d;
    }
  }

  lemma AddedIsCount(net: Slaves, cmd: Command, lo: nat, hi: nat)
    requires |net.S| > 0
    ensures AddedBelow(net.S, |net.S|, cmd, lo, hi) == net.Count(cmd, lo, hi) <= 3 * |net.S|
  {
    HitsBound(net.S, |net.S|, Input, lo, hi);
    HitsBound(net.S, |net.S|, Output, lo, hi);
  }

  lemma ProvidedIsInput(net: Slaves)
    ensures forall b: nat :: ProvidedBelow(net.S, |net.S|, b) <==> net.IsInput(b)
  {}

  lemma BitsAnswered(net: Slaves, f: Frame, clock: Clock, x: seq<byte>, y: seq<byte>)
    requires |net.S| > 0 && Behind(net.S, |net.S|, net.field, f, x, y) && DataBits(x, f.length) == f.payload
    ensures DataBits(y, f.length) == net.Answer(f, clock).payload
  {
    hide DataBits, Counter, ProvidedBelow, Hits;
    ProvidedIsInput(net);
    var sent, back, r := DataBits(x, f.length), DataBits(y, f.length), net.Answer(f, clock).payload;
    forall i | 0 <= i < 8 * f.length ensures back[i] == r[i] {
      var b := 8 * f.LogAdr + i;
      assert back[i] == BitBehind(ProvidedBelow(net.S, |net.S|, b), net.field, f, i, sent[i]);
    }
  }

  /** Behind all slaves the frame answers as the logical network does. */
  lemma BackIsAnswer(net: Slaves, slaves: seq<Slave>, f: Frame, sent: seq<byte>, clock: Clock)
    requires |net.S| == |slaves| + 1 && 3 * |net.S| < 0x1_0000 && IsOf(sent, f)
    requires forall i :: 0 <= i < |slaves| ==> Handles(slaves[i], net.S[i + 1], net.field)
    requires DataBits(sent, f.length) == f.payload && Counter(sent, f.length) == 0
    ensures var y, r := Through(slaves, sent), net.Answer(f, clock);
            && |y| == |sent| && IsOf(y, f)
            && Counter(y, f.length) == r.wkc
            && DataBits(y, f.length) == r.payload
  {
    hide Handles, DataBits, Counter, Hits, AddedBelow, ProvidedBelow;
    var y := Through(slaves, sent);
    ThroughBehind(slaves, net.S, net.field, f, sent, |slaves|);
    assert slaves[..|slaves|] == slaves;
    AddedIsCount(net, f.cmd, f.LogAdr, f.LogAdr + f.length);
    BitsAnswered(net, f, clock, sent, y);
  }

  function CommandOf(b: byte): Option<Command> {
    if b == Code(LRD) then Some(LRD)
    else if b == Code(LRW) then Some(LRW)
    else if b == Code(LWR) then Some(LWR)
    else None
  }

  /** A little endian number. */
  function Little(bs: seq<byte>): nat {
    if bs == [] then 0 else bs[0] + 0x100 * Little(bs[1..])
  }

  /** The time as 64 bit number with a sign. */
  function TimeOf(bs: seq<byte>): int
    requires |bs| == 8
  {
    var n := Little(bs);
    if n < 0x8000_0000_0000_0000 then n else n - 0x1_0000_0000_0000_0000
  }

  /** A number in `k` bytes, little endian; negative ones as two's complement. */
  function Encoded(n: int, k: nat): (bs: seq<byte>)
    ensures |bs| == k && (k > 0 ==> bs[0] == n % 0x100)
    decreases k
  {
    if k == 0 then [] else [n % 0x100] + Encoded(n / 0x100, k - 1)
  }

  function Power(k: nat): (p: nat)
    ensures p > 0
  {
    if k == 0 then 1 else 0x100 * Power(k - 1)
  }

  lemma LowByte(b: byte, rest: nat)
    ensures (b + 0x100 * rest) % 0x100 == b && (b + 0x100 * rest) / 0x100 == rest
  {}

  lemma {:induction false} LittleOf(bs: seq<byte>)
    ensures Little(bs) < Power(|bs|) && Encoded(Little(bs), |bs|) == bs
  {
    if bs != [] {
      LittleOf(bs[1..]);
      LowByte(bs[0], Little(bs[1..]));
    }
  }

  lemma {:induction false} Wraps(n: int, k: nat)
    ensures Encoded(n - Power(k), k) == Encoded(n, k)
    decreases k
  {
    if k > 0 {
      var m := n - Power(k);
      assert m % 0x100 == n % 0x100 && m / 0x100 == n / 0x100 - Power(k - 1);
      Wraps(n / 0x100, k - 1);
    }
  }

  lemma {:induction false} EncodedBack(n: nat, k: nat)
    requires n < Power(k)
    ensures Little(Encoded(n, k)) == n
  {
    if k > 0 { EncodedBack(n / 0x100, k - 1); }
  }

  lemma PowerOfEight()
    ensures Power(8) == 0x1_0000_0000_0000_0000
  {
    assert Power(2) == 0x1_0000 && Power(4) == 0x1_0000_0000;
  }

  /** A time is read as the number it was written as. */
  lemma TimeIsNumber(n: int)
    requires -0x8000_0000_0000_0000 <= n < 0x8000_0000_0000_0000
    ensures TimeOf(Encoded(n, 8)) == n
  {
    PowerOfEight();
    if n >= 0 {
      EncodedBack(n, 8);
    } else {
      Wraps(n + Power(8), 8);
      EncodedBack(n + Power(8), 8);
    }
  }

  /** And eight bytes are always such a number. */
  lemma TimeIsWritten(bs: seq<byte>)
    requires |bs| == 8
    ensures -0x8000_0000_0000_0000 <= TimeOf(bs) < 0x8000_0000_0000_0000 && Encoded(TimeOf(bs), 8) == bs
  {
    PowerOfEight();
    LittleOf(bs);
    Wraps(Little(bs), 8);
  }

  /** Where the second datagram is in a frame with the clock datagram. */
  function ClockAt(f: Frame): nat {
    Frames.EC_ELENGTHSIZE + Frames.EC_HEADERSIZE + f.length
  }

  /** What the clock datagram of `y` tells: its work counter, and a time of 64 bits with a sign. */
  ghost predicate Tells(y: seq<byte>, f: Frame, clock: Clock) {
    var p := ClockAt(f);
    && |y| == p + EC_FIRSTDCDATAGRAM && clock.wkc == Frames.WordAt(y, p + 18)
    && -0x8000_0000_0000_0000 <= clock.time < 0x8000_0000_0000_0000 && y[p + 10..p + 18] == Encoded(clock.time, 8)
  }

  /** That is one clock only. */
  lemma TellsOne(y: seq<byte>, f: Frame, a: Clock, b: Clock)
    requires Tells(y, f, a) && Tells(y, f, b)
    ensures a == b
  {
    TimeIsNumber(a.time);
    TimeIsNumber(b.time);
  }

  /** The clock datagram is there when the frame is built. */
  lemma ClockIsAt(sent: seq<byte>, f: Frame, bytes: seq<byte>, idx: byte, configadr: word, time: seq<byte>)
    requires f.LogAdr < 0x1_0000_0000 && Frames.Holds(sent, Datagrams(f, bytes, idx, configadr, time), false)
    requires f.dc && |bytes| == f.length && |time| == 8
    ensures |sent| == ClockAt(f) + EC_FIRSTDCDATAGRAM
    ensures var d := Frames.Datagram(EC_CMD_FRMW, idx, configadr, ECT_REG_DCSYSTIME, time);
            Frames.At(sent, ClockAt(f), d, false) && sent[ClockAt(f) + 10..ClockAt(f) + 18] == time
  {
    var ds := Datagrams(f, bytes, idx, configadr, time);
    var d := [ds[0]];
    assert ds[..1] == d && d[..0] == [];
    assert Frames.Behind(d) == ClockAt(f);
    assert Frames.At(sent, ClockAt(f), ds[1], false);
    assert Frames.OnWire(ds[1]).data == time;
    assert forall i :: 0 <= i < 8 ==> time[i] == sent[ClockAt(f) + 10 + i];
  }

  /**
   * What receiving finds in a buffer.  Of the frame with the clock datagram it reads the work counter
   * behind `n` bytes of data and the time at `DCtO`; for others it takes the one that the driver found.
   */
  function ReplyOf(buf: seq<byte>, wkc2: int, n: nat, first: bool, DCtO: nat): Option<Reply>
    requires |buf| >= Frames.EC_HEADERSIZE + n + Frames.EC_WKCSIZE && (first ==> DCtO + 8 <= |buf|)
  {
    if wkc2 <= EC_NOFRAME then None
    else
      match CommandOf(buf[2])
      case None => None
      case Some(cmd) =>
        Some(Reply(cmd, DataBits(buf, n), if first then Counter(buf, n) else wkc2,
                   if first then Some(Clock(wkc2, TimeOf(buf[DCtO..DCtO + 8]))) else None))
  }

  /** The frame in a buffer that is longer. */
  lemma InBuffer(buf: seq<byte>, y: seq<byte>, f: Frame)
    requires |y| <= |buf| && buf[..|y|] == y && IsOf(y, f)
    ensures buf[2] == y[2] && DataBits(buf, f.length) == DataBits(y, f.length)
    ensures Counter(buf, f.length) == Counter(y, f.length)
  {
    SliceOfSlice(buf, 0, |y|, Frames.EC_HEADERSIZE, Frames.EC_HEADERSIZE + f.length);
    assert buf[0..|y|] == y;
    assert forall i :: 0 <= i < |y| ==> buf[i] == buf[..|y|][i];
  }

  lemma CommandRead(f: Frame, y: seq<byte>)
    requires IsOf(y, f)
    ensures CommandOf(y[2]) == Some(f.cmd)
  {}

  /**
   * When the frame with the clock datagram is lost, the next one back is read in its place, with its
   * length `n`.  What is taken for the data are those of the frame exactly when it is as long; then
   * the work counter is right as well, but the time is read from behind the frame.
   */
  lemma LostClockFrame(f: Frame, y: seq<byte>, buf: seq<byte>, wkc2: nat, n: nat)
    requires IsOf(y, f) && |y| == Frames.EC_HEADERSIZE + f.length + Frames.EC_WKCSIZE <= |buf| && buf[..|y|] == y
    requires DCTO + n + 8 <= |buf|
    ensures var r := ReplyOf(buf, wkc2, n, true, DCTO + n);
            && r.Some? && r.value.cmd == f.cmd
            && (r.value.payload == DataBits(y, f.length) <==> n == f.length)
            && (n == f.length ==> r.value.wkc == Counter(y, f.length) && DCTO + n >= |y|)
  {
    hide DataBits, Counter, CommandOf;
    InBuffer(buf, y, f);
    CommandRead(f, y);
  }

  /** What is read at `DCtO` is what the clock datagram tells. */
  lemma ClockRead(f: Frame, y: seq<byte>, buf: seq<byte>)
    requires |y| == ClockAt(f) + EC_FIRSTDCDATAGRAM <= |buf| && buf[..|y|] == y && IsOf(y, f)
    requires Proper(y) && Frames.WkcPosition(y) == |y| - Frames.EC_WKCSIZE
    ensures var r := ReplyOf(buf, Wkc(y), f.length, true, DCTO + f.length);
            r.Some? && r.value.clock.Some? && Tells(y, f, r.value.clock.value)
  {
    hide DataBits, Counter, CommandOf, Encoded, TimeOf;
    InBuffer(buf, y, f);
    CommandRead(f, y);
    var p := DCTO + f.length;
    SliceOfSlice(buf, 0, |y|, p, p + 8);
    assert buf[0..|y|] == y;
    TimeIsWritten(buf[p..p + 8]);
  }

  /** From the buffer the frame has come back to, the reply is read that the network gives. */
  lemma ReplyIsAnswer(net: Slaves, slaves: seq<Slave>, f: Frame, sent: seq<byte>, bytes: seq<byte>, idx: byte,
                      configadr: word, time: seq<byte>, buf: seq<byte>)
    requires f.LogAdr < 0x1_0000_0000 && Frames.Holds(sent, Datagrams(f, bytes, idx, configadr, time), false)
    requires Packs(bytes, f) && |time| == 8
    requires |net.S| == |slaves| + 1 && 3 * |net.S| < 0x1_0000
    requires forall i :: 0 <= i < |slaves| ==> Handles(slaves[i], net.S[i + 1], net.field) && Keeps(slaves[i])
    requires var y := Through(slaves, sent); |y| <= |buf| && buf[..|y|] == y
    ensures var y := Through(slaves, sent);
            && Proper(y) && |y| == |sent| && Frames.EC_HEADERSIZE + f.length + Frames.EC_WKCSIZE <= |y|
            && (f.dc ==> DCTO + f.length + 8 <= |y|)
            && var r := ReplyOf(buf, Wkc(y), f.length, f.dc, DCTO + f.length);
               && IsAnswer(net.Values(), f, r)
               && r.value.wkc == net.Count(f.cmd, f.LogAdr, f.LogAdr + f.length)
               && (r.value.clock.Some? <==> f.dc) && (f.dc ==> Tells(y, f, r.value.clock.value))
  {
    hide Handles, Keeps, Bits, Frames.Holds, DataBits, Frames.WordAt, CommandOf;
    var y := Through(slaves, sent);
    SentIsOf(sent, f, bytes, idx, configadr, time);
    SentSize(sent, f, bytes, idx, configadr, time);
    ThroughKeeps(slaves, sent);
    BackIsAnswer(net, slaves, f, sent, Clock(0, 0));
    InBuffer(buf, y, f);
    CommandRead(f, y);
    if f.dc { ClockRead(f, y, buf); }
  }

  /** The slaves of the ring are those of the network, in order. */
  ghost predicate RingOf(ring: Ring, net: Slaves) {
    && |net.S| == |ring.slaves| + 1 && 3 * |net.S| < 0x1_0000
    && forall i :: 0 <= i < |ring.slaves| ==> Handles(ring.slaves[i], net.S[i + 1], net.field) && Keeps(ring.slaves[i])
  }

  /** As `BuildFrame` does it. */
  ghost predicate IsBuilt(sent: seq<byte>, f: Frame, bytes: seq<byte>, idx: byte, configadr: word, time: seq<byte>) {
    && f.LogAdr < 0x1_0000_0000 && Packs(bytes, f)
    && Frames.Holds(sent, Datagrams(f, bytes, idx, configadr, time), false)
  }

  /** The frames as they have been built in the transmit buffers `waits`, with nothing on its way to these. */
  ghost predicate Built(p: Ports, len: seq<nat>, waits: seq<nat>, frames: seq<Frame>, bytes: seq<seq<byte>>,
                        configadr: word, time: seq<byte>, sent: nat -> seq<byte>)
    requires PortsSized(p, len)
  {
    && |waits| == |frames| == |bytes| && |time| == 8
    && (forall i, j :: 0 <= i < j < |waits| ==> waits[i] != waits[j])
    && forall k :: 0 <= k < |waits| ==>
         && waits[k] < EC_MAXBUF && FitLen(len[waits[k]]) && FrameOf(p, len, waits[k]) == sent(waits[k])
         && FirstFor(p.pri.incoming, waits[k]) == None && FirstFor(p.sec.incoming, waits[k]) == None
         && IsBuilt(sent(waits[k]), frames[k], bytes[k], waits[k], configadr, time)
  }

  lemma BuiltIsIdle(p: Ports, len: seq<nat>, waits: seq<nat>, frames: seq<Frame>, bytes: seq<seq<byte>>,
                    configadr: word, time: seq<byte>, sent: nat -> seq<byte>)
    requires PortsSized(p, len) && Built(p, len, waits, frames, bytes, configadr, time, sent)
    ensures AllIdle(p, len, waits, sent)
  {
    hide Frames.Holds, PortsSized, FrameOf, Bits, Proper, FirstFor, FitLen;
    forall k | 0 <= k < |waits| ensures Idle(p, len, waits[k]) {
      SentIsOf(sent(waits[k]), frames[k], bytes[k], waits[k], configadr, time);
      SentSize(sent(waits[k]), frames[k], bytes[k], waits[k], configadr, time);
    }
  }

  /** The reply that is read from receive buffer `idx`. */
  function BufferReply(p: Ports, len: seq<nat>, idx: nat, wkc: int, f: Frame): Option<Reply>
    requires PortsSized(p, len) && idx < EC_MAXBUF && FitsFrame(f)
  {
    assert Ready(p.pri.stat[idx], p.pri.buf[idx], len[idx]);
    ReplyOf(p.pri.buf[idx], wkc, f.length, f.dc, DCTO + f.length)
  }

  /** The reply is the one the network gives to the frame, which has come back as `y`. */
  ghost predicate Returned(net: Slaves, f: Frame, y: seq<byte>, r: Option<Reply>)
    requires |net.S| > 0
  {
    && IsAnswer(net.Values(), f, r)
    && r.value.wkc == net.Count(f.cmd, f.LogAdr, f.LogAdr + f.length)
    && (r.value.clock.Some? <==> f.dc) && (f.dc ==> Tells(y, f, r.value.clock.value))
  }

  lemma OneReturned(p: Ports, len: seq<nat>, idx: nat, wkc: int, net: Slaves, ring: Ring, f: Frame, sent: seq<byte>,
                    bytes: seq<byte>, configadr: word, time: seq<byte>)
    requires PortsSized(p, len) && idx < EC_MAXBUF && FitsFrame(f) && RingOf(ring, net) && |time| == 8
    requires IsBuilt(sent, f, bytes, idx, configadr, time)
    requires var y := Through(ring.slaves, sent);
             Done(p, len, idx, y) && |y| >= 2 && Frames.WkcPosition(y) + 1 < |y| && wkc == Wkc(y)
    ensures Returned(net, f, Through(ring.slaves, sent), BufferReply(p, len, idx, wkc, f))
  {
    hide Handles, Keeps, Frames.Holds, IsAnswer, ReplyOf, Packs, Only, FitsFrame;
    ReplyIsAnswer(net, ring.slaves, f, sent, bytes, idx, configadr, time, p.pri.buf[idx]);
  }

  /** The replies that are read from the buffers, one after the other. */
  function Replies(p: Ports, len: seq<nat>, waits: seq<nat>, wkcs: seq<int>, frames: seq<Frame>):
    (rs: seq<Option<Reply>>)
    requires PortsSized(p, len) && |waits| == |wkcs| == |frames|
    requires forall k :: 0 <= k < |waits| ==> waits[k] < EC_MAXBUF && FitsFrame(frames[k])
    ensures |rs| == |waits|
  {
    seq(|waits|, k requires 0 <= k < |waits| => BufferReply(p, len, waits[k], wkcs[k], frames[k]))
  }

  /** The frames as they have come back. */
  function Backs(ring: Ring, waits: seq<nat>, sent: nat -> seq<byte>): (ys: seq<seq<byte>>)
    ensures |ys| == |waits|
  {
    seq(|waits|, k requires 0 <= k < |waits| => Through(ring.slaves, sent(waits[k])))
  }

  /** Every reply is that of the network; the one with the clock tells what the clock datagram does. */
  ghost predicate AllReturned(net: Slaves, frames: seq<Frame>, ys: seq<seq<byte>>, rs: seq<Option<Reply>>)
    requires |net.S| > 0
  {
    |rs| == |ys| == |frames| && forall k :: 0 <= k < |rs| ==> Returned(net, frames[k], ys[k], rs[k])
  }

  lemma ReturnedIsAnswered(net: Slaves, frames: seq<Frame>, ys: seq<seq<byte>>, rs: seq<Option<Reply>>)
    requires |net.S| > 0 && AllReturned(net, frames, ys, rs)
    ensures Answered(net.Values(), frames, rs) && WellCounted(net, frames, rs)
    ensures forall k :: 0 <= k < |rs| ==> rs[k].value.clock.Some? == frames[k].dc
  {}

  /** What has been delivered to the buffers gives the replies of the network. */
  lemma DoneIsReturned(p: Ports, len: seq<nat>, waits: seq<nat>, wkcs: seq<int>, net: Slaves, ring: Ring,
                       frames: seq<Frame>, bytes: seq<seq<byte>>, configadr: word, time: seq<byte>,
                       sent: nat -> seq<byte>)
    requires PortsSized(p, len) && |waits| == |wkcs| == |frames| == |bytes| && |time| == 8 && RingOf(ring, net)
    requires forall k :: 0 <= k < |waits| ==>
               && waits[k] < EC_MAXBUF && FitsFrame(frames[k])
               && IsBuilt(sent(waits[k]), frames[k], bytes[k], waits[k], configadr, time)
    requires AllDone(p, len, waits, wkcs, ring, sent)
    ensures AllReturned(net, frames, Backs(ring, waits, sent), Replies(p, len, waits, wkcs, frames))
  {
    hide FitsFrame, PortsSized, IsBuilt, Done, Returned, BufferReply, Handles, Keeps;
    var rs, ys := Replies(p, len, waits, wkcs, frames), Backs(ring, waits, sent);
    forall k | 0 <= k < |rs| ensures Returned(net, frames[k], ys[k], rs[k]) {
      OneReturned(p, len, waits[k], wkcs[k], net, ring, frames[k], sent(waits[k]), bytes[k], configadr, time);
    }
  }

  /** The first frame is the one with the clock, and the first one back. */
  lemma ClockReturned(net: Slaves, frames: seq<Frame>, ys: seq<seq<byte>>, rs: seq<Option<Reply>>)
    requires |net.S| > 0 && AllReturned(net, frames, ys, rs) && frames != [] && frames[0].dc
    ensures FirstBack(rs) == 0 && rs[0].Some? && rs[0].value.clock.Some?
    ensures Tells(ys[0], frames[0], rs[0].value.clock.value)
  {
    assert Returned(net, frames[0], ys[0], rs[0]);
  }

  lemma FirstHasClock(c: Cyclic, frames: seq<Frame>, DCl0: nat)
    requires c.SentSoFar(frames, c.hasdc, false, [], DCl0) && frames != []
    ensures frames[0].dc == c.hasdc
  {}

  /** What receiving has before it then. */
  lemma ReturnedIsReady(c: Cyclic, inputs: nat, DCl0: nat, net: Slaves, frames: seq<Frame>, ys: seq<seq<byte>>,
                        rs: seq<Option<Reply>>)
    requires c.Valid() && net.Separated() && net.Obytes == c.group.Obytes
    requires 1 <= |frames| <= Common.EC_MAXBUF && c.SentSoFar(frames, c.hasdc, false, [], DCl0)
    requires AreSent(c, frames, inputs) && AllCarry(frames, c.iomap[..]) && AllReturned(net, frames, ys, rs)
    ensures ReadyWith(c, net, rs)
    ensures c.hasdc ==>
              FirstBack(rs) == 0 && rs[0].value.clock.Some? && Tells(ys[0], frames[0], rs[0].value.clock.value)
  {
    hide AllReturned, Cyclic.IsCombined, Cyclic.IsSplit, Cyclic.SentSoFar, AllCarry, Answered, WellCounted, ReadyWith,
      Tells, Cyclic.Valid;
    ReturnedIsAnswered(net, frames, ys, rs);
    ReadyAfterAnswers(c, net, frames, inputs, rs, DCl0);
    FirstHasClock(c, frames, DCl0);
    if c.hasdc { ClockReturned(net, frames, ys, rs); }
  }

  lemma WiredIsSound(cables: Cables, ring: Ring)
    requires Wired(cables, ring)
    ensures SoundCables(cables) && ring.Valid()
  {}

  /**
   * The frames of a cycle over the wire.  They go out of their buffers, pass the slaves of a ring
   * with at most one cable cut, and come back in any order; the replies read from the buffers are
   * then those of the logical network, each with its own work counter, and the clock is the one told by
   * the clock datagram as it has come back.
   */
  lemma WireReturns(p: Ports, len: seq<nat>, waits: seq<nat>, cables: Cables, ring: Ring, txbuf2: seq<byte>, q: Ports,
                    polls: nat, polls2: nat, net: Slaves, frames: seq<Frame>, bytes: seq<seq<byte>>, configadr: word,
                    time: seq<byte>, sent: nat -> seq<byte>)
    requires PortsSized(p, len) && Built(p, len, waits, frames, bytes, configadr, time, sent)
    requires forall k :: 0 <= k < |frames| ==> FitsFrame(frames[k])
    requires Wired(cables, ring) && Proper(txbuf2) && RingOf(ring, net)
    requires PortsSized(q, len) && Shuffled(SendAllRed(p, len, waits, cables, txbuf2), q)
    requires polls >= |q.pri.incoming| + |waits| && polls >= |q.sec.incoming| + |waits|
    requires polls2 >= |q.sec.incoming| + |waits|
    ensures var (r, wkcs) := WaitAllRed(q, len, waits, cables, polls, polls2);
            AllReturned(net, frames, Backs(ring, waits, sent), Replies(r, len, waits, wkcs, frames))
  {
    hide Shuffled, WaitAllRed, SendAllRed, FitsFrame, PortsSized, IsBuilt, AllDone, FirstFor, FrameOf, Handles, Keeps,
      Replies, AllReturned, Backs, Wired, SoundCables;
    WiredIsSound(cables, ring);
    BuiltIsIdle(p, len, waits, frames, bytes, configadr, time, sent);
    BreakAndOrderAreMasked(p, len, waits, cables, ring, txbuf2, q, polls, polls2, sent);
    var (r, wkcs) := WaitAllRed(q, len, waits, cables, polls, polls2);
    DoneIsReturned(r, len, waits, wkcs, net, ring, frames, bytes, configadr, time, sent);
  }

  /**
   * A cycle in bytes.  The frames that `Send` has produced from the image go over the wire; what
   * receiving then works into the image, and the work counter, are those of the cycle over the
   * logical network.
   */
  lemma CycleOnWire(c: Cyclic, inputs: nat, DCl0: nat, p: Ports, len: seq<nat>, waits: seq<nat>, cables: Cables,
                    ring: Ring, txbuf2: seq<byte>, q: Ports, polls: nat, polls2: nat, net: Slaves, frames: seq<Frame>,
                    bytes: seq<seq<byte>>, configadr: word, time: seq<byte>, sent: nat -> seq<byte>)
    requires c.Valid() && net.Separated() && net.Obytes == c.group.Obytes
    requires 1 <= |frames| <= Common.EC_MAXBUF && c.SentSoFar(frames, c.hasdc, false, [], DCl0)
    requires AreSent(c, frames, inputs) && AllCarry(frames, c.iomap[..])
    requires PortsSized(p, len) && Built(p, len, waits, frames, bytes, configadr, time, sent)
    requires forall k :: 0 <= k < |frames| ==> FitsFrame(frames[k])
    requires Wired(cables, ring) && Proper(txbuf2) && RingOf(ring, net)
    requires PortsSized(q, len) && Shuffled(SendAllRed(p, len, waits, cables, txbuf2), q)
    requires polls >= |q.pri.incoming| + |waits| && polls >= |q.sec.incoming| + |waits|
    requires polls2 >= |q.sec.incoming| + |waits|
    ensures var (r, wkcs) := WaitAllRed(q, len, waits, cables, polls, polls2);
            var rs := Replies(r, len, waits, wkcs, frames);
            && ReadyWith(c, net, rs)
            && (c.hasdc ==> FirstBack(rs) == 0 && rs[0].value.clock.Some?
                            && Tells(Through(ring.slaves, sent(waits[0])), frames[0], rs[0].value.clock.value))
  {
    hide Shuffled, WaitAllRed, SendAllRed, FitsFrame, PortsSized, Wired, SoundCables, RingOf, Replies, Proper, FirstFor,
      FrameOf, IsBuilt, AreSent, Cyclic.SentSoFar, AllCarry, AllReturned, ReadyWith, Tells;
    WiredIsSound(cables, ring);
    WireReturns(p, len, waits, cables, ring, txbuf2, q, polls, polls2, net, frames, bytes, configadr, time, sent);
    var (r, wkcs) := WaitAllRed(q, len, waits, cables, polls, polls2);
    ReturnedIsReady(c, inputs, DCl0, net, frames, Backs(ring, waits, sent), Replies(r, len, waits, wkcs, frames));
  }
}
