/**
 * The cyclic frames on the wire: they fit the frame buffer, with the clock
 * datagram in the first one, are built there, and carry every output bit once.
 */
module CyclicFrames {
  import opened Common
  import opened Sequences
  import opened Mapping
  import opened Segments
  import opened ProcessImage
  import opened ProcessData
  import Frames

  type byte = Frames.byte
  type word = Frames.word

  const EC_CMD_LWR: byte := 0x0b
  const EC_CMD_LRW: byte := 0x0c
  const EC_CMD_FRMW: byte := 0x0e
  const ECT_REG_DCSYSTIME: word := 0x0910

  function Code(cmd: Command): (code: byte)
    ensures code == if cmd == LRD then 0x0a else if cmd == LWR then 0x0b else 0x0c
  {
    match cmd
    case LRD => Frames.EC_CMD_LRD
    case LWR => EC_CMD_LWR
    case LRW => EC_CMD_LRW
  }

  /** The frame, with the clock datagram if it has one, fits the frame buffer. */
  predicate FitsFrame(f: Frame) {
    FrameBytes(f.length) + (if f.dc then EC_FIRSTDCDATAGRAM else 0) <= EC_MAXECATFRAME
  }

  /** The frames that a transmission sends, `inputs` of them reads when the modes are split. */
  ghost predicate AreSent(c: Cyclic, frames: seq<Frame>, inputs: nat)
    requires c.Valid()
    reads c, c.group, c.group.IOsegment, c.iomap
  {
    && (c.group.blockLRW == 0 ==> c.IsCombined(frames))
    && (c.group.blockLRW > 0 ==> inputs <= |frames| && c.IsSplit(frames[..inputs], frames[inputs..]))
  }

  /** The most bytes that fit a frame without the clock datagram. */
  const LONGEST: nat := EC_MAXECATFRAME - FrameBytes(0)

  ghost predicate AllFitFrames(frames: seq<Frame>) {
    forall k :: 0 <= k < |frames| ==> FitsFrame(frames[k])
  }

  /** Frames for stretches of which the first leaves room for the clock datagram. */
  lemma FramesOf(frames: seq<Frame>, full: seq<nat>, first: bool)
    requires (Exhaust(frames, full) || (frames == [] && Sum(full) == 0)) && OnlyFirstHasDc(frames, first)
    requires full != [] && full[0] <= MAXSEGMENT
    ensures AllFitFrames(frames) <==> Bounded(full, LONGEST)
  {
    assert full[..0] == [];
    NothingBehind(full, |frames|);
    if Bounded(full, LONGEST) {
      forall k | 0 <= k < |frames| ensures FitsFrame(frames[k]) { assert frames[k].length == full[k]; }
    } else {
      var k :| 0 <= k < |full| && full[k] > LONGEST;
      assert frames[k].length == full[k] && !FitsFrame(frames[k]);
    }
  }

  /** Two parts of a sequence of frames. */
  lemma BothParts(frames: seq<Frame>, inputs: nat, first: bool)
    requires inputs <= |frames| && OnlyFirstHasDc(frames, first)
    ensures AllFitFrames(frames) <==> AllFitFrames(frames[..inputs]) && AllFitFrames(frames[inputs..])
    ensures OnlyFirstHasDc(frames[..inputs], first) && OnlyFirstHasDc(frames[inputs..], first && inputs == 0)
  {
    var ins, outs := frames[..inputs], frames[inputs..];
    if AllFitFrames(frames) {
      assert forall k :: 0 <= k < |outs| ==> outs[k] == frames[inputs + k];
    }
    if AllFitFrames(ins) && AllFitFrames(outs) {
      forall k | 0 <= k < |frames| ensures FitsFrame(frames[k]) {
        assert frames[k] == if k < inputs then ins[k] else outs[k - inputs];
      }
    }
  }

  /** The halves of segments of which the divided one is short, or all outputs. */
  lemma HalvesBounded(segs: seq<nat>, i: nat, off: nat, b: nat)
    requires i < |segs| && off <= segs[i] && (segs[i] == off || segs[i] <= b)
    ensures Bounded(segs, b) <==> Bounded(ReadLengths(segs, i, off), b) && Bounded(WriteLengths(segs, i, off), b)
  {
    HalvesByStretch(segs, i, off);
    var rl, wl := ReadLengths(segs, i, off), WriteLengths(segs, i, off);
    if Bounded(rl, b) && Bounded(wl, b) {
      forall k | 0 <= k < |segs| ensures segs[k] <= b {
        if k < i {
          assert segs[k] == wl[k];
        } else if k > i {
          assert segs[k] == rl[k - i];
        } else {
          assert wl[i] == off;
        }
      }
    }
  }

  /** How the segments of a group come about. */
  ghost predicate PackedGroup(g: Group, odiffs: seq<nat>, diffs: seq<nat>)
    requires g.IOsegment.Length == EC_MAXIOSEGMENTS && g.nsegments <= EC_MAXIOSEGMENTS
    reads g, g.IOsegment
  {
    && g.Segments() == Pack(diffs).All() && odiffs <= diffs
    && g.Isegment == |Pack(odiffs).closed| && g.Ioffset == Pack(odiffs).size
  }

  /** What is known of the segments: the first one is short, and so is the divided one unless it is all outputs. */
  lemma SegmentLengths(odiffs: seq<nat>, diffs: seq<nat>)
    requires odiffs <= diffs && Pack(diffs) == PackFree(diffs)
    ensures var segs, p := Pack(diffs).All(), Pack(odiffs); var i := |p.closed|;
            && i < |segs| && p.size <= segs[i] && (segs[i] == p.size || segs[i] <= MAXSEGMENT)
            && segs[0] <= MAXSEGMENT
            && (Bounded(segs, LONGEST) <==> Bounded(diffs, LONGEST))
  {
    FreePrefix(odiffs, diffs);
    FirstIsShort(diffs);
    BoundaryIsShort(odiffs, diffs);
    BoundedWhenAllAre(diffs, LONGEST);
  }

  /** The first stretch of either half leaves room for the clock datagram. */
  lemma FirstHalves(segs: seq<nat>, i: nat, off: nat)
    requires i < |segs| && off <= segs[i] && (segs[i] == off || segs[i] <= MAXSEGMENT) && segs[0] <= MAXSEGMENT
    ensures ReadLengths(segs, i, off)[0] <= MAXSEGMENT && WriteLengths(segs, i, off)[0] <= MAXSEGMENT
  {}

  /** Reads and writes. */
  lemma SplitFits(frames: seq<Frame>, inputs: nat, first: bool, segs: seq<nat>, i: nat, off: nat)
    requires inputs <= |frames| && OnlyFirstHasDc(frames, first)
    requires i < |segs| && off <= segs[i] && (segs[i] == off || segs[i] <= MAXSEGMENT) && segs[0] <= MAXSEGMENT
    requires var ins, rl := frames[..inputs], ReadLengths(segs, i, off);
             Exhaust(ins, rl) || (ins == [] && Sum(rl) == 0)
    requires var outs, wl := frames[inputs..], WriteLengths(segs, i, off);
             Exhaust(outs, wl) || (outs == [] && Sum(wl) == 0)
    ensures AllFitFrames(frames) <==> Bounded(segs, LONGEST)
  {
    hide Exhaust, Sum, OnlyFirstHasDc, Bounded, AllFitFrames, ReadLengths, WriteLengths;
    BothParts(frames, inputs, first);
    FirstHalves(segs, i, off);
    HalvesByStretch(segs, i, off);
    FramesOf(frames[..inputs], ReadLengths(segs, i, off), first);
    FramesOf(frames[inputs..], WriteLengths(segs, i, off), first && inputs == 0);
    HalvesBounded(segs, i, off, LONGEST);
  }

  /**
   * In either mode, with or without the clock datagram in the first frame, every frame sent fits
   * the frame buffer exactly when every contribution would fit a frame of its own.
   */
  lemma EveryFrameFits(c: Cyclic, frames: seq<Frame>, inputs: nat, first: bool, odiffs: seq<nat>, diffs: seq<nat>)
    requires c.Valid() && PackedGroup(c.group, odiffs, diffs) && Pack(diffs) == PackFree(diffs)
    requires AreSent(c, frames, inputs) && OnlyFirstHasDc(frames, first)
    ensures (forall k :: 0 <= k < |frames| ==> FitsFrame(frames[k]))
            <==> (forall k :: 0 <= k < |diffs| ==> diffs[k] <= 1490)
  {
    hide Cover, Sum, Pack, PackFree, ReadLengths, WriteLengths, FitsFrame, Exhaust, OnlyFirstHasDc;
    var g := c.group;
    var segs, i, off := g.Segments(), g.Isegment, g.Ioffset;
    SegmentLengths(odiffs, diffs);
    if g.blockLRW == 0 {
      FramesOf(frames, segs, first);
    } else {
      HalvesAdd(segs, i, off, g.Obytes, g.Ibytes);
      SplitFits(frames, inputs, first, segs, i, off);
    }
  }

  /** The datagrams of a frame: the process data and perhaps the clock. */
  ghost function Datagrams(f: Frame, bytes: seq<byte>, idx: byte, configadr: word,
                           time: seq<byte>): (ds: seq<Frames.Datagram>)
    requires f.LogAdr < 0x1_0000_0000
    ensures |ds| == (if f.dc then 2 else 1) && ds[0].data == bytes
    ensures ds[0].ADP as nat + 0x1_0000 * ds[0].ADO as nat == f.LogAdr
    ensures f.dc ==> ds[1].cmd == 0x0e && ds[1].ADP == configadr && ds[1].ADO == 0x0910 && ds[1].data == time
  {
    [Frames.Datagram(Code(f.cmd), idx, f.LogAdr % 0x1_0000, f.LogAdr / 0x1_0000, bytes)]
    + if f.dc then [Frames.Datagram(EC_CMD_FRMW, idx, configadr, ECT_REG_DCSYSTIME, time)] else []
  }

  lemma SetupLength(f: seq<byte>, d: Frames.Datagram)
    requires Frames.Holds(f, [d], false)
    ensures |f| == Frames.Behind([d]) == Frames.EC_ELENGTHSIZE + Frames.EC_HEADERSIZE + |d.data|
  {
    assert [d][..0] == [];
  }

  /** Builds a frame that fits; `DCtO` is where the time will be in the frame that comes back. */
  method BuildFrame(f: Frame, bytes: seq<byte>, idx: byte, configadr: word, time: seq<byte>)
    returns (buffer: Frames.FrameBuffer, DCtO: nat)
    requires FitsFrame(f) && |bytes| == f.length && f.LogAdr < 0x1_0000_0000 && |time| == 8
    ensures fresh(buffer) && buffer.Valid() && Frames.Holds(buffer.Sent(), Datagrams(f, bytes, idx, configadr, time),
            false)
    ensures buffer.txbuflength == FrameBytes(f.length) + if f.dc then EC_FIRSTDCDATAGRAM else 0
    ensures f.dc ==> DCtO == f.length + 24
  {
    buffer := new Frames.FrameBuffer();
    DCtO := 0;
    var w1, w2 := f.LogAdr % 0x1_0000, f.LogAdr / 0x1_0000;
    buffer.Setup(Code(f.cmd), idx, w1, w2, bytes);
    ghost var d := Frames.Datagram(Code(f.cmd), idx, w1, w2, bytes);
    SetupLength(buffer.Sent(), d);
    if f.dc {
      DCtO := buffer.Add(EC_CMD_FRMW, idx, false, configadr, ECT_REG_DCSYSTIME, time, [d], false);
    }
  }

  /** A frame that takes the outputs along writes bit `b`. */
  predicate Writes(f: Frame, b: nat) {
    f.cmd != LRD && 8 * f.LogAdr <= b < 8 * (f.LogAdr + f.length)
  }

  /** Frame `k` and no other writes bit `b`, with the value it has in the image. */
  ghost predicate WritesOnce(frames: seq<Frame>, b: nat, k: nat, image: seq<bool>) {
    && k < |frames| && Writes(frames[k], b) && b < |image|
    && b - 8 * frames[k].LogAdr < |frames[k].payload| && frames[k].payload[b - 8 * frames[k].LogAdr] == image[b]
    && forall j :: 0 <= j < |frames| && j != k ==> !Writes(frames[j], b)
  }

  /** One frame more, which does not write the bit. */
  lemma WritesBefore(frames: seq<Frame>, f: Frame, b: nat, k: nat, image: seq<bool>)
    requires WritesOnce(frames, b, k, image) && !Writes(f, b)
    ensures WritesOnce(frames + [f], b, k, image)
  {}

  /** Or the one that does. */
  lemma WritesLast(frames: seq<Frame>, f: Frame, b: nat, image: seq<bool>)
    requires Writes(f, b) && Carries(f, image) && forall j :: 0 <= j < |frames| ==> !Writes(frames[j], b)
    ensures WritesOnce(frames + [f], b, |frames|, image)
  {
    assert f.payload == Bytes(image, f.LogAdr, f.LogAdr + f.length);
  }

  /** Frames that cover a stretch in order write each of its bits once. */
  lemma {:induction false} CoverWritesOnce(frames: seq<Frame>, cmd: Command, from: nat, to: nat, b: nat,
                                           image: seq<bool>)
    returns (k: nat)
    requires Cover(frames, cmd, from, to) && cmd != LRD && AllCarry(frames, image) && 8 * from <= b < 8 * to
    ensures WritesOnce(frames, b, k, image)
  {
    hide WritesOnce;
    var n := |frames| - 1;
    var front, f := frames[..n], frames[n];
    CoverBounds(front, cmd, from, f.LogAdr);
    assert front + [f] == frames && Carries(f, image);
    if b < 8 * f.LogAdr {
      k := CoverWritesOnce(front, cmd, from, f.LogAdr, b, image);
      WritesBefore(front, f, b, k, image);
    } else {
      k := n;
      WritesLast(front, f, b, image);
    }
  }

  /** Frames of which none writes the bit, in front. */
  lemma WritesBehind(ins: seq<Frame>, outs: seq<Frame>, b: nat, j: nat, image: seq<bool>)
    requires WritesOnce(outs, b, j, image) && forall i :: 0 <= i < |ins| ==> ins[i].cmd == LRD
    ensures WritesOnce(ins + outs, b, |ins| + j, image)
  {}

  /** Reads and then writes. */
  lemma SplitWritesOnce(ins: seq<Frame>, outs: seq<Frame>, Obytes: nat, size: nat, b: nat, image: seq<bool>)
    returns (k: nat)
    requires Cover(ins, LRD, Obytes, size) && Cover(outs, LWR, 0, Obytes) && AllCarry(outs, image) && b < 8 * Obytes
    ensures WritesOnce(ins + outs, b, k, image)
  {
    hide Cover, WritesOnce;
    var j := CoverWritesOnce(outs, LWR, 0, Obytes, b, image);
    CoverBounds(ins, LRD, Obytes, size);
    WritesBehind(ins, outs, b, j, image);
    k := |ins| + j;
  }

  /** In either mode every output bit goes to the slaves in exactly one frame, with its value in the image. */
  lemma OutputsGoOutOnce(c: Cyclic, frames: seq<Frame>, inputs: nat, b: nat) returns (k: nat)
    requires c.Valid() && AreSent(c, frames, inputs) && AllCarry(frames, c.iomap[..]) && b < 8 * c.group.Obytes
    ensures WritesOnce(frames, b, k, c.iomap[..])
  {
    hide Cover, WritesOnce, Exhaust;
    var g, image := c.group, c.iomap[..];
    if g.blockLRW == 0 {
      k := CoverWritesOnce(frames, LRW, 0, g.Obytes + g.Ibytes, b, image);
    } else {
      k := SplitWritesOnce(frames[..inputs], frames[inputs..], g.Obytes, g.Obytes + g.Ibytes, b, image);
      assert frames[..inputs] + frames[inputs..] == frames;
    }
  }

  /** And in the split mode nothing else is written; the combined frames write back the inputs as well. */
  lemma NothingElseGoesOut(c: Cyclic, frames: seq<Frame>, inputs: nat, b: nat, k: nat)
    requires c.Valid() && AreSent(c, frames, inputs) && c.group.blockLRW > 0 && k < |frames|
    ensures Writes(frames[k], b) ==> b < 8 * c.group.Obytes
  {
    hide Cover, Sum, Exhaust;
    var g := c.group;
    if k < inputs {
      CoverBounds(frames[..inputs], LRD, g.Obytes, g.Obytes + g.Ibytes);
      assert frames[k] == frames[..inputs][k];
    } else {
      CoverBounds(frames[inputs..], LWR, 0, g.Obytes);
      assert frames[k] == frames[inputs..][k - inputs];
    }
  }
}
