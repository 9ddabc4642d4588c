/**
 * One cycle of process data over a network that returns every frame: sending,
 * the slaves, receiving.  The split mode (read and write datagrams) is compared
 * with the combined mode.
 */
module CyclicExchange {
  import opened Common
  import opened Sequences
  import opened Mapping
  import opened Segments
  import opened ProcessImage
  import opened ProcessData
  import opened LogicalNetwork
  import opened WorkCounter

  /** The stack entries of the frames. */
  ghost predicate Stacked(frames: seq<Frame>, es: seq<Entry>) {
    && |es| == |frames|
    && forall k :: 0 <= k < |es| ==> es[k] == Entry(frames[k].LogAdr, frames[k].length)
  }

  /** Up to 16 frames, every one of them is on the stack. */
  lemma {:induction false} AllPushed(frames: seq<Frame>)
    requires |frames| <= EC_MAXBUF
    ensures Stacked(frames, Pushed([], frames))
  {
    if frames != [] { AllPushed(frames[..|frames| - 1]); }
  }

  /** Every frame comes back. */
  ghost predicate Answered(inputs: nat -> Option<bool>, frames: seq<Frame>, rs: seq<Option<Reply>>) {
    && |rs| == |frames|
    && forall k :: 0 <= k < |rs| ==> IsAnswer(inputs, frames[k], rs[k])
  }

  lemma AnswersFit(inputs: nat -> Option<bool>, frames: seq<Frame>, es: seq<Entry>, rs: seq<Option<Reply>>,
                   image: seq<bool>)
    requires Stacked(frames, es) && Answered(inputs, frames, rs) && AllCarry(frames, image)
    ensures AllFits(es, rs, |image|)
  {
    forall k | 0 <= k < |es| ensures Fits(es[k], rs[k], |image|) {
      assert Carries(frames[k], image) && IsAnswer(inputs, frames[k], rs[k]);
    }
  }

  /** Bit `b` of the image after a frame of the command for its byte has come back. */
  function BitAfter(inputs: nat -> Option<bool>, cmd: Command, b: nat, sent: bool, had: bool): bool {
    if cmd == LWR then had else inputs(b).GetOr(cmd == LRW && sent)
  }

  /** The image `now` was `before`, and frames for the bytes `from` to `to` of `image` came back. */
  ghost predicate WorkedIn(inputs: nat -> Option<bool>, cmd: Command, from: nat, to: nat, image: seq<bool>,
                           before: seq<bool>, now: seq<bool>) {
    && |now| == |before| == |image|
    && forall b :: 0 <= b < |now| ==>
         now[b] == if 8 * from <= b < 8 * to then BitAfter(inputs, cmd, b, image[b], before[b]) else before[b]
  }

  lemma OneWorkedIn(inputs: nat -> Option<bool>, f: Frame, r: Option<Reply>, image: seq<bool>, before: seq<bool>)
    requires Carries(f, image) && IsAnswer(inputs, f, r) && |before| == |image|
    ensures WorkedIn(inputs, f.cmd, f.LogAdr, f.LogAdr + f.length, image, before,
            WorkIn(before, Entry(f.LogAdr, f.length), r))
  {
    var now := WorkIn(before, Entry(f.LogAdr, f.length), r);
    forall b | 0 <= b < |now| && 8 * f.LogAdr <= b < 8 * (f.LogAdr + f.length)
      ensures now[b] == BitAfter(inputs, f.cmd, b, image[b], before[b])
    {
      var i := b - 8 * f.LogAdr;
      if f.cmd != LWR {
        assert now[b] == r.value.payload[i];
        assert f.payload[i] == (f.cmd == LRW && image[b]);
      }
    }
  }

  lemma WorkedInTrans(inputs: nat -> Option<bool>, cmd: Command, a: nat, b: nat, c: nat, image: seq<bool>,
                      s0: seq<bool>, s1: seq<bool>, s2: seq<bool>)
    requires a <= b <= c && WorkedIn(inputs, cmd, a, b, image, s0, s1) && WorkedIn(inputs, cmd, b, c, image, s1, s2)
    ensures WorkedIn(inputs, cmd, a, c, image, s0, s2)
  {}

  /** Frames of one command that cover a stretch work in exactly that stretch. */
  lemma {:induction false} CoverWorksIn(inputs: nat -> Option<bool>, frames: seq<Frame>, es: seq<Entry>,
                                        rs: seq<Option<Reply>>,
                                        cmd: Command, from: nat, to: nat, image: seq<bool>, before: seq<bool>)
    requires Stacked(frames, es) && Answered(inputs, frames, rs)
    requires Cover(frames, cmd, from, to) && AllCarry(frames, image) && |before| == |image|
    ensures AllFits(es, rs, |before|)
    ensures WorkedIn(inputs, cmd, from, to, image, before, After(before, es, rs))
  {
    AnswersFit(inputs, frames, es, rs, image);
    if frames != [] {
      var n := |frames| - 1;
      var f := frames[n];
      CoverWorksIn(inputs, frames[..n], es[..n], rs[..n], cmd, from, f.LogAdr, image, before);
      CoverBounds(frames[..n], cmd, from, f.LogAdr);
      AfterUnfold(before, es, rs);
      var mid := After(before, es[..n], rs[..n]);
      assert Carries(f, image) && IsAnswer(inputs, f, rs[n]);
      OneWorkedIn(inputs, f, rs[n], image, mid);
      WorkedInTrans(inputs, cmd, from, f.LogAdr, to, image, before, mid, WorkIn(mid, es[n], rs[n]));
    }
  }

  lemma {:induction false} AfterConcat(image: seq<bool>, es: seq<Entry>, rs: seq<Option<Reply>>, k: nat)
    requires AllFits(es, rs, |image|) && k <= |es|
    ensures AllFits(es[..k], rs[..k], |image|) && AllFits(es[k..], rs[k..], |image|)
    ensures After(image, es, rs) == After(After(image, es[..k], rs[..k]), es[k..], rs[k..])
    decreases |es|
  {
    if k == |es| {
      assert es[..k] == es && rs[..k] == rs;
    } else {
      var n := |es| - 1;
      AfterUnfold(image, es, rs);
      AfterConcat(image, es[..n], rs[..n], k);
      assert es[..n][..k] == es[..k] && rs[..n][..k] == rs[..k];
      assert es[..n][k..] == es[k..][..n - k] && rs[..n][k..] == rs[k..][..n - k];
      AfterUnfold(After(image, es[..k], rs[..k]), es[k..], rs[k..]);
    }
  }

  lemma {:induction false} CountedConcat(r1: seq<Option<Reply>>, r2: seq<Option<Reply>>)
    ensures Counted(r1 + r2) == Counted(r1) + Counted(r2)
  {
    if r2 == [] {
      assert r1 + r2 == r1;
    } else {
      assert (r1 + r2)[..|r1 + r2| - 1] == r1 + r2[..|r2| - 1];
      CountedConcat(r1, r2[..|r2| - 1]);
    }
  }

  /** Every frame comes back with the count of its stretch. */
  ghost predicate WellCounted(net: Slaves, frames: seq<Frame>, rs: seq<Option<Reply>>)
    requires |net.S| > 0
  {
    && |rs| == |frames|
    && forall k :: 0 <= k < |rs| ==>
         && rs[k].Some? && rs[k].value.cmd == frames[k].cmd
         && rs[k].value.wkc == net.Count(frames[k].cmd, frames[k].LogAdr, frames[k].LogAdr + frames[k].length)
  }

  /** The work counters of covering frames add up to those of their stretches. */
  lemma {:induction false} CoverCounts(net: Slaves, frames: seq<Frame>, rs: seq<Option<Reply>>, cmd: Command, from: nat,
                                       to: nat, full: seq<nat>)
    requires |net.S| > 0 && WellCounted(net, frames, rs)
    requires Cover(frames, cmd, from, to) && HaveLengths(frames, full)
    ensures to == from + Sum(full[..|frames|])
    ensures Counted(rs) == (if cmd == LWR then 2 else 1) * Total(net, cmd, full[..|frames|], from)
  {
    if frames != [] {
      var n := |frames| - 1;
      CoverCounts(net, frames[..n], rs[..n], cmd, from, frames[n].LogAdr, full);
      assert full[..n + 1][..n] == full[..n];
      SumPrefix(full, n);
    }
  }

  lemma HalfCounts(net: Slaves, frames: seq<Frame>, rs: seq<Option<Reply>>, cmd: Command, from: nat, to: nat,
                   full: seq<nat>)
    requires |net.S| > 0 && WellCounted(net, frames, rs)
    requires Cover(frames, cmd, from, to) && (Exhaust(frames, full) || (frames == [] && Sum(full) == 0))
    ensures Counted(rs) == (if cmd == LWR then 2 else 1) * Total(net, cmd, full, from)
  {
    CoverCounts(net, frames, rs, cmd, from, to, full);
    assert full[..0] == [];
    PrefixTotal(net, cmd, full, |frames|, from);
  }

  /** Of the replies `all` some may be lost. */
  ghost predicate SomeLost(rs: seq<Option<Reply>>, all: seq<Option<Reply>>) {
    && |rs| == |all|
    && forall k :: 0 <= k < |all| ==> all[k].Some? && (rs[k] == all[k] || rs[k] == None)
  }

  /** The work counter shows a loss: it is that of all frames exactly when those lost have been worked on by nobody. */
  lemma {:induction false} LossShows(rs: seq<Option<Reply>>, all: seq<Option<Reply>>)
    requires SomeLost(rs, all)
    ensures Counted(rs) <= Counted(all)
    ensures Counted(rs) == Counted(all) <==> forall k :: 0 <= k < |rs| && rs[k] == None ==> all[k].value.Weight() == 0
  {
    if rs != [] {
      var n := |rs| - 1;
      LossShows(rs[..n], all[..n]);
    }
  }

  /** What one cycle leaves in the image. */
  ghost predicate ImageDone(inputs: nat -> Option<bool>, Obytes: nat, blocked: bool, size: nat, image: seq<bool>,
                            now: seq<bool>) {
    if blocked then WorkedIn(inputs, LRD, Obytes, size, image, image, now)
    else WorkedIn(inputs, LRW, 0, size, image, image, now)
  }

  lemma AnsweredParts(inputs: nat -> Option<bool>, frames: seq<Frame>, es: seq<Entry>, rs: seq<Option<Reply>>,
                      image: seq<bool>, k: nat)
    requires Stacked(frames, es) && Answered(inputs, frames, rs) && AllCarry(frames, image) && k <= |frames|
    ensures Stacked(frames[..k], es[..k]) && Answered(inputs, frames[..k], rs[..k]) && AllCarry(frames[..k], image)
    ensures Stacked(frames[k..], es[k..]) && Answered(inputs, frames[k..], rs[k..]) && AllCarry(frames[k..], image)
  {}

  /** In the split mode the reads work in the inputs, and the writes leave the image alone. */
  lemma SplitImage(inputs: nat -> Option<bool>, frames: seq<Frame>, es: seq<Entry>, rs: seq<Option<Reply>>, k: nat,
                   Obytes: nat, size: nat, image: seq<bool>)
    requires k <= |frames| && Cover(frames[..k], LRD, Obytes, size) && Cover(frames[k..], LWR, 0, Obytes)
    requires Stacked(frames, es) && Answered(inputs, frames, rs) && AllCarry(frames, image)
    ensures AllFits(es, rs, |image|) && WorkedIn(inputs, LRD, Obytes, size, image, image, After(image, es, rs))
  {
    AnswersFit(inputs, frames, es, rs, image);
    AnsweredParts(inputs, frames, es, rs, image, k);
    CoverWorksIn(inputs, frames[..k], es[..k], rs[..k], LRD, Obytes, size, image, image);
    AfterConcat(image, es, rs, k);
    CoverWorksIn(inputs, frames[k..], es[k..], rs[k..], LWR, 0, Obytes, image, After(image, es[..k], rs[..k]));
  }

  /** Reads and writes that exhaust their stretches count them both. */
  lemma BothHalves(net: Slaves, readFrames: seq<Frame>, writeFrames: seq<Frame>, r1: seq<Option<Reply>>,
                   r2: seq<Option<Reply>>,
                   size: nat, readLengths: seq<nat>, writeLengths: seq<nat>)
    requires |net.S| > 0 && WellCounted(net, readFrames, r1) && WellCounted(net, writeFrames, r2)
    requires Cover(readFrames, LRD, net.Obytes, size) && Cover(writeFrames, LWR, 0, net.Obytes)
    requires Exhaust(readFrames, readLengths) || (readFrames == [] && Sum(readLengths) == 0)
    requires Exhaust(writeFrames, writeLengths) || (writeFrames == [] && Sum(writeLengths) == 0)
    ensures Counted(r1 + r2) == Total(net, LRD, readLengths, net.Obytes) + 2 * Total(net, LWR, writeLengths, 0)
  {
    HalfCounts(net, readFrames, r1, LRD, net.Obytes, size, readLengths);
    HalfCounts(net, writeFrames, r2, LWR, 0, net.Obytes, writeLengths);
    CountedConcat(r1, r2);
  }

  /** In the split mode the work counters add up to what the combined datagrams would report. */
  lemma SplitCounts(net: Slaves, readFrames: seq<Frame>, writeFrames: seq<Frame>, r1: seq<Option<Reply>>,
                    r2: seq<Option<Reply>>,
                    segs: seq<nat>, i: nat, off: nat, Ibytes: nat)
    requires net.Separated() && Segmented(segs, i, off, net.Obytes, Ibytes)
    requires WellCounted(net, readFrames, r1) && WellCounted(net, writeFrames, r2)
    requires Cover(readFrames, LRD, net.Obytes, net.Obytes + Ibytes) && Cover(writeFrames, LWR, 0, net.Obytes)
    requires if Ibytes > 0 then Exhaust(readFrames, ReadLengths(segs, i, off)) else readFrames == []
    requires if net.Obytes > 0 then Exhaust(writeFrames, WriteLengths(segs, i, off)) else writeFrames == []
    ensures Counted(r1 + r2) == Total(net, LRW, segs, 0)
  {
    HalvesAdd(segs, i, off, net.Obytes, Ibytes);
    var readLengths, writeLengths := ReadLengths(segs, i, off), WriteLengths(segs, i, off);
    BothHalves(net, readFrames, writeFrames, r1, r2, net.Obytes + Ibytes, readLengths, writeLengths);
    HalvesCountAlike(net, segs, i, off, Ibytes);
  }

  lemma CountedParts(net: Slaves, frames: seq<Frame>, rs: seq<Option<Reply>>, k: nat)
    requires |net.S| > 0 && WellCounted(net, frames, rs) && k <= |frames|
    ensures WellCounted(net, frames[..k], rs[..k]) && WellCounted(net, frames[k..], rs[k..])
    ensures rs[..k] + rs[k..] == rs
  {}

  lemma OutputsAreNoInputs(net: Slaves, b: nat)
    requires net.Separated() && b < 8 * net.Obytes
    ensures !net.IsInput(b)
  {}

  lemma SameImage(v: nat -> Option<bool>, Obytes: nat, size: nat, image: seq<bool>, combined: seq<bool>,
                  split: seq<bool>)
    requires Obytes <= size && |image| == 8 * size
    requires ImageDone(v, Obytes, false, size, image, combined) && ImageDone(v, Obytes, true, size, image, split)
    requires forall b :: 0 <= b < 8 * Obytes ==> v(b) == None
    ensures forall b {:trigger v(b)} :: 0 <= b < 8 * size && v(b).Some? ==> combined[b] == split[b] == v(b).value
    ensures forall b :: 0 <= b < 8 * Obytes ==> combined[b] == split[b] == image[b]
    ensures combined == split <==> forall b {:trigger v(b)} :: 8 * Obytes <= b < 8 * size && v(b) == None ==> !image[b]
  {
    if combined == split {
      forall b | 8 * Obytes <= b < 8 * size && v(b) == None ensures !image[b] {
        assert combined[b] == image[b] && !split[b];
      }
    }
  }

  /**
   * The two modes compared.  They leave the same value in every bit some slave
   * provides and never touch the outputs.  The whole images agree exactly when
   * no unmapped bit among the inputs was set before: the read command brings
   * those back as zero.  (Both report the same work counter: see `Cycle`.)
   */
  lemma SplitRefinesCombined(net: Slaves, size: nat, image: seq<bool>, combined: seq<bool>, split: seq<bool>)
    requires net.Separated() && net.Obytes <= size && |image| == 8 * size
    requires ImageDone(net.Values(), net.Obytes, false, size, image, combined)
    requires ImageDone(net.Values(), net.Obytes, true, size, image, split)
    ensures forall b :: 0 <= b < 8 * size && net.IsInput(b) ==> combined[b] == split[b] == net.field(b)
    ensures forall b :: 0 <= b < 8 * net.Obytes ==> combined[b] == split[b] == image[b]
    ensures combined == split <==> forall b :: 8 * net.Obytes <= b < 8 * size && !net.IsInput(b) ==> !image[b]
  {
    var v := net.Values();
    forall b | 0 <= b < 8 * net.Obytes ensures v(b) == None {
      OutputsAreNoInputs(net, b);
    }
    forall b | 0 <= b < 8 * size ensures v(b) == if net.IsInput(b) then Some(net.field(b)) else None {}
    SameImage(v, net.Obytes, size, image, combined, split);
  }

  /** A slave with three input bits in sync manager 3, as the mapping of a group with no other slave leaves it. */
  function ThreeBits(): SlaveIO {
    var none := SyncManager(0, 0, 0);
    SlaveIO(0, 3, [none, none, none, SyncManager(0x1000, 1, 4), none, none, none, none], [],
            [Fmmu(0, 1, 0, 2, 0x1000, 1)], true)
  }

  /** Its one FMMU serves the inputs, from logical bit 0 to 3. */
  predicate FirstThree(f: Fmmu) {
    f.LogStart == 0 && f.LogLength == 1 && f.LogStartbit == 0 && f.LogEndbit == 2 && f.FMMUtype == 1
  }

  lemma FirstThreeIs(f: Fmmu)
    requires FirstThree(f)
    ensures Serves(f, Input) && !Serves(f, Output) && First(f) == 0 && End(f) == 3 && Tile([f], 0, 3)
  {
    assert [f][..0] == [];
  }

  /** It is mapped in both directions: no outputs, and three bits of input. */
  lemma ThreeBitsMapped(S: seq<SlaveIO>)
    requires |S| == 2 && S[1] == ThreeBits()
    ensures Mapped(S, Output, [0, 0], 2) && Mapped(S, Input, [0, 3], 2)
  {
    hide Rest, Stretches, Provided, First, End, Tile;
    var sl := ThreeBits();
    FirstThreeIs(sl.inFMMU[0]);
    assert Skip(sl.SM, SMtypeOf(Input), 2) == 3;
    assert SlaveMapped(sl, Output, 0, 0) && SlaveMapped(sl, Input, 0, 3);
  }

  lemma OneRegister(net: Slaves)
    requires |net.S| == 2 && |net.S[1].Registers()| == 1 && FirstThree(net.S[1].Registers()[0]) && net.Obytes == 0
    ensures net.Separated() && forall b: nat :: net.IsInput(b) <==> b < 3
  {
    FirstThreeIs(net.S[1].Registers()[0]);
    hide First, End, Serves, FirstThree;
    forall b: nat ensures net.IsInput(b) <==> b < 3 {
      assert Provides(net.S[1], b) <==> b < 3;
    }
  }

  lemma ThreeBitsAreInputs(net: Slaves)
    requires |net.S| == 2 && net.S[1] == ThreeBits() && net.Obytes == 0
    ensures net.Separated() && forall b: nat :: net.IsInput(b) <==> b < 3
  {
    assert net.S[1].Registers()[0] == net.S[1].inFMMU[0];
    OneRegister(net);
  }

  /**
   * A group of one slave with three input bits, and an image in which the other five bits of its one
   * byte are set: the combined mode leaves these, the split mode clears them.
   */
  lemma UnmappedBitsAreCleared(net: Slaves, image: seq<bool>, combined: seq<bool>, split: seq<bool>)
    requires |net.S| == 2 && net.S[1] == ThreeBits() && net.Obytes == 0
    requires |image| == 8 && image[3..] == Repeat(true, 5)
    requires |combined| == |split| == 8 && combined[3..] == Repeat(true, 5) && split[3..] == Repeat(false, 5)
    requires forall b :: 0 <= b < 3 ==> combined[b] == split[b] == net.field(b)
    ensures Mapped(net.S, Output, [0, 0], 2) && Mapped(net.S, Input, [0, 3], 2) && net.Separated()
    ensures ImageDone(net.Values(), 0, false, 1, image, combined) && ImageDone(net.Values(), 0, true, 1, image, split)
    ensures combined != split
  {
    hide ThreeBits, Mapped, Slaves.Separated, Slaves.IsInput;
    ThreeBitsMapped(net.S);
    ThreeBitsAreInputs(net);
    forall b | 3 <= b < 8 ensures image[b] && combined[b] && !split[b] {
      assert image[b] == image[3..][b - 3] && combined[b] == combined[3..][b - 3] && split[b] == split[3..][b - 3];
    }
    assert WorkedIn(net.Values(), LRW, 0, 1, image, image, combined);
    assert WorkedIn(net.Values(), LRD, 0, 1, image, image, split);
    assert combined[3] && !split[3];
  }

  /** All frames come back. */
  method Return(net: Slaves, frames: seq<Frame>, clock: Clock) returns (rs: seq<Option<Reply>>)
    requires |net.S| > 0
    ensures Answered(net.Values(), frames, rs) && WellCounted(net, frames, rs)
    ensures forall k :: 0 <= k < |rs| ==> rs[k].value.clock.Some? == frames[k].dc
  {
    rs := seq(|frames|, k requires 0 <= k < |frames| => Some(net.Answer(frames[k], clock)));
  }

  /** A cycle takes one frame for every segment, and one more when the modes divide a segment. */
  ghost function FrameCount(g: Group): nat
    reads g
  {
    g.nsegments + if g.blockLRW > 0 && g.Obytes > 0 && g.Ibytes > 0 then 1 else 0
  }

  /** After sending, stack, clock position and replies belong together. */
  lemma ReadyToReceive(c: Cyclic, frames: seq<Frame>, rs: seq<Option<Reply>>, DCl0: nat)
    requires 1 <= |frames| <= EC_MAXBUF && c.SentSoFar(frames, c.hasdc, false, [], DCl0)
    requires |rs| == |frames| && forall k :: 0 <= k < |rs| ==> rs[k].Some? && rs[k].value.clock.Some? == frames[k].dc
    ensures Stacked(frames, c.idxstack) && ClockFirst(rs, c.hasdc)
    ensures c.idxstack != [] && (c.hasdc ==> c.DCl == c.idxstack[0].length)
  {
    AllPushed(frames);
  }

  lemma CombinedOutcome(c: Cyclic, net: Slaves, frames: seq<Frame>, rs: seq<Option<Reply>>)
    requires c.Valid() && net.Separated()
    requires Stacked(frames, c.idxstack) && AllCarry(frames, c.iomap[..])
    requires Answered(net.Values(), frames, rs) && WellCounted(net, frames, rs)
    requires c.IsCombined(frames)
    ensures AllFits(c.idxstack, rs, |c.iomap[..]|)
    ensures Counted(rs) == Total(net, LRW, c.group.Segments(), 0)
    ensures WorkedIn(net.Values(), LRW, 0, c.group.Obytes + c.group.Ibytes, c.iomap[..], c.iomap[..],
            After(c.iomap[..], c.idxstack, rs))
  {
    var g, image, v := c.group, c.iomap[..], net.Values();
    var segs, size := g.Segments(), g.Obytes + g.Ibytes;
    CoverWorksIn(v, frames, c.idxstack, rs, LRW, 0, size, image, image);
    HalfCounts(net, frames, rs, LRW, 0, size, segs);
  }

  lemma SplitOutcome(c: Cyclic, net: Slaves, frames: seq<Frame>, k: nat, rs: seq<Option<Reply>>)
    requires c.Valid() && net.Separated() && net.Obytes == c.group.Obytes
    requires Stacked(frames, c.idxstack) && AllCarry(frames, c.iomap[..])
    requires Answered(net.Values(), frames, rs) && WellCounted(net, frames, rs)
    requires k <= |frames| && c.IsSplit(frames[..k], frames[k..])
    ensures AllFits(c.idxstack, rs, |c.iomap[..]|)
    ensures Counted(rs) == Total(net, LRW, c.group.Segments(), 0)
    ensures WorkedIn(net.Values(), LRD, c.group.Obytes, c.group.Obytes + c.group.Ibytes,
                     c.iomap[..], c.iomap[..], After(c.iomap[..], c.idxstack, rs))
  {
    var g, image, v := c.group, c.iomap[..], net.Values();
    SplitImage(v, frames, c.idxstack, rs, k, g.Obytes, g.Obytes + g.Ibytes, image);
    CountedParts(net, frames, rs, k);
    SplitCounts(net, frames[..k], frames[k..], rs[..k], rs[k..], g.Segments(), g.Isegment, g.Ioffset, g.Ibytes);
  }

  /** What receiving the replies will do, in either mode. */
  lemma CycleOutcome(c: Cyclic, net: Slaves, frames: seq<Frame>, k: nat, rs: seq<Option<Reply>>)
    requires c.Valid() && net.Separated() && net.Obytes == c.group.Obytes
    requires Stacked(frames, c.idxstack) && AllCarry(frames, c.iomap[..])
    requires Answered(net.Values(), frames, rs) && WellCounted(net, frames, rs)
    requires c.group.blockLRW == 0 ==> c.IsCombined(frames)
    requires c.group.blockLRW > 0 ==> k <= |frames| && c.IsSplit(frames[..k], frames[k..])
    ensures AllFits(c.idxstack, rs, |c.iomap[..]|)
    ensures Counted(rs) == Total(net, LRW, c.group.Segments(), 0)
    ensures ImageDone(net.Values(), c.group.Obytes, c.group.blockLRW > 0, c.group.Obytes + c.group.Ibytes,
                      c.iomap[..], After(c.iomap[..], c.idxstack, rs))
  {
    if c.group.blockLRW > 0 {
      SplitOutcome(c, net, frames, k, rs);
    } else {
      CombinedOutcome(c, net, frames, rs);
    }
  }

  /** No more frames than `FrameCount` says are sent. */
  lemma FewFrames(c: Cyclic, frames: seq<Frame>, inputs: nat)
    requires c.Valid() && c.group.Obytes + c.group.Ibytes > 0
    requires c.group.blockLRW == 0 ==> c.IsCombined(frames)
    requires c.group.blockLRW > 0 ==> inputs <= |frames| && c.IsSplit(frames[..inputs], frames[inputs..])
    ensures 1 <= |frames| <= FrameCount(c.group)
  {
    HalvesByStretch(c.group.Segments(), c.group.Isegment, c.group.Ioffset);
  }

  /** What receiving has before it when the replies are those of the network. */
  ghost predicate ReadyWith(c: Cyclic, net: Slaves, rs: seq<Option<Reply>>)
    requires c.Valid() && |net.S| > 0
    reads c, c.group, c.group.IOsegment, c.iomap
  {
    && AllFits(c.idxstack, rs, |c.iomap[..]|) && ClockFirst(rs, c.hasdc)
    && c.idxstack != [] && (c.hasdc ==> c.DCl == c.idxstack[0].length)
    && rs[0].Some? && Counted(rs) == Total(net, LRW, c.group.Segments(), 0)
    && ImageDone(net.Values(), c.group.Obytes, c.group.blockLRW > 0, c.group.Obytes + c.group.Ibytes,
                 c.iomap[..], After(c.iomap[..], c.idxstack, rs))
  }

  lemma ReadyAfterAnswers(c: Cyclic, net: Slaves, frames: seq<Frame>, inputs: nat, rs: seq<Option<Reply>>, DCl0: nat)
    requires c.Valid() && net.Separated() && net.Obytes == c.group.Obytes
    requires 1 <= |frames| <= EC_MAXBUF && c.SentSoFar(frames, c.hasdc, false, [], DCl0)
             && AllCarry(frames, c.iomap[..])
    requires c.group.blockLRW == 0 ==> c.IsCombined(frames)
    requires c.group.blockLRW > 0 ==> inputs <= |frames| && c.IsSplit(frames[..inputs], frames[inputs..])
    requires Answered(net.Values(), frames, rs) && WellCounted(net, frames, rs)
    requires forall k :: 0 <= k < |rs| ==> rs[k].value.clock.Some? == frames[k].dc
    ensures ReadyWith(c, net, rs)
  {
    ReadyToReceive(c, frames, rs, DCl0);
    CycleOutcome(c, net, frames, inputs, rs);
  }

  /** First half of a cycle: the frames go out, and come back as `rs`. */
  method SendAndReturn(c: Cyclic, net: Slaves, clock: Clock) returns (rs: seq<Option<Reply>>)
    requires c.Valid() && c.idxstack == []
    requires net.Separated() && net.Obytes == c.group.Obytes
    requires FrameCount(c.group) <= EC_MAXBUF && c.group.Obytes + c.group.Ibytes > 0
    modifies c`idxstack, c`DCl
    ensures ReadyWith(c, net, rs)
  {
    var _, frames, inputs := c.Send();
    FewFrames(c, frames, inputs);
    rs := Return(net, frames, clock);
    ReadyAfterAnswers(c, net, frames, inputs, rs, old(c.DCl));
  }

  /**
   * One cycle in which the network returns every frame.  Whichever mode is
   * used, the work counter is that of the combined datagrams, and the number
   * expected from the mapping when every slave has at most one FMMU in each
   * direction, within one segment.
   */
  method Cycle(c: Cyclic, net: Slaves, clock: Clock) returns (wkc: int)
    requires c.Valid() && c.idxstack == []
    requires net.Separated() && net.Obytes == c.group.Obytes
    requires FrameCount(c.group) <= EC_MAXBUF && c.group.Obytes + c.group.Ibytes > 0
    modifies c, c.iomap
    ensures c.idxstack == []
    ensures wkc == Total(net, LRW, c.group.Segments(), 0)
    ensures OneFmmuEach(net, c.group.Segments()) ==>
              wkc == 2 * GroupWkc(net.S, Output, |net.S|) + GroupWkc(net.S, Input, |net.S|)
    ensures ImageDone(net.Values(), c.group.Obytes, c.group.blockLRW > 0, c.group.Obytes + c.group.Ibytes,
                      old(c.iomap[..]), c.iomap[..])
  {
    hide OneFmmuEach, Total, GroupWkc;
    var rs := SendAndReturn(c, net, clock);
    wkc := c.Receive(rs);
    if OneFmmuEach(net, c.group.Segments()) { ExpectedWkc(net, c.group.Segments()); }
  }

  /** A group as it is mapped is separated: what the exchange asks of the slaves is what mapping them gives. */
  lemma MappedIsSeparated(S: seq<SlaveIO>, omarks: seq<nat>, imarks: seq<nat>, Obytes: nat, size: nat,
                          field: nat -> bool)
    requires |S| > 0 && Mapped(S, Output, omarks, |S|) && omarks[|S| - 1] <= 8 * Obytes
    requires Mapped(S, Input, imarks, |S|) && imarks[0] == 8 * Obytes && imarks[|S| - 1] <= 8 * size
    ensures Slaves(S, Obytes, field).Separated() && forall j :: 1 <= j < |S| ==> Typed(S[j])
  {
    var n := |S|;
    forall j | 1 <= j < n ensures Typed(S[j]) {
      assert SlaveMapped(S[j], Output, omarks[j - 1], omarks[j]) && SlaveMapped(S[j], Input, imarks[j - 1], imarks[j]);
      MappedIsTyped(S[j], omarks[j - 1], omarks[j], imarks[j - 1], imarks[j]);
    }
    forall j, k | 1 <= j < n && 0 <= k < |S[j].outFMMU| ensures End(S[j].outFMMU[k]) <= 8 * Obytes {
      assert SlaveMapped(S[j], Output, omarks[j - 1], omarks[j]);
      BetweenMarks(S[j], Output, omarks[j - 1], omarks[j], k);
      MarksGrow(S, Output, omarks, n, j, n - 1);
    }
    forall j, k | 1 <= j < n && 0 <= k < |S[j].inFMMU| ensures 8 * Obytes <= First(S[j].inFMMU[k]) {
      assert SlaveMapped(S[j], Input, imarks[j - 1], imarks[j]);
      BetweenMarks(S[j], Input, imarks[j - 1], imarks[j], k);
      MarksGrow(S, Input, imarks, n, 0, j - 1);
    }
    forall j, k | 1 <= j < n && 0 <= k < |S[j].Registers()|
      ensures Serves(S[j].Registers()[k], Output) ==> End(S[j].Registers()[k]) <= 8 * Obytes
      ensures Serves(S[j].Registers()[k], Input) ==> 8 * Obytes <= First(S[j].Registers()[k])
    {
      RegisterIs(S[j], k);
    }
  }
}
