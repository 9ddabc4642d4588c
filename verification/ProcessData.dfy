/**
 * Cyclic exchange of the process image: `ecx_main_send_processdata` cuts it into
 * logical read, write or combined datagrams, and `ecx_receive_processdata_group`
 * puts the answers back.  The image is an array of bits; logical addresses start
 * at 0, so byte `a` of the image is logical byte `a`.
 */
module ProcessData {
  import opened Common
  import opened Sequences
  import opened Mapping
  import opened Segments
  import opened ProcessImage

  datatype Command = LRD | LWR | LRW

  /** A cyclic frame; `dc` tells whether the clock datagram rides along behind the process data. */
  datatype Frame = Frame(cmd: Command, LogAdr: nat, length: nat, payload: seq<bool>, dc: bool)

  /** An entry of the index stack: where the data of a frame belongs. */
  datatype Entry = Entry(data: nat, length: nat)

  /** Bytes `a` to `b` of an image. */
  function Bytes(image: seq<bool>, a: nat, b: nat): (bits: seq<bool>)
    requires a <= b && 8 * b <= |image|
    ensures |bits| == 8 * (b - a)
  {
    image[8 * a..8 * b]
  }

  /** Data of a new datagram: nothing to write in a read command, so it is zeroed. */
  function DatagramData(cmd: Command, image: seq<bool>, a: nat, b: nat): (bits: seq<bool>)
    requires a <= b && 8 * b <= |image|
    ensures |bits| == 8 * (b - a)
  {
    if cmd == LRD then Repeat(false, 8 * (b - a)) else Bytes(image, a, b)
  }

  /** Frames of one command for the bytes `from` to `to` of the image, in order, without gap or overlap. */
  ghost predicate Cover(frames: seq<Frame>, cmd: Command, from: nat, to: nat) {
    if frames == [] then from == to
    else
      var f := frames[|frames| - 1];
      && Cover(frames[..|frames| - 1], cmd, from, f.LogAdr)
      && f.cmd == cmd && f.LogAdr + f.length == to
  }

  /** Covering frames stay within the stretch. */
  lemma {:induction false} CoverBounds(frames: seq<Frame>, cmd: Command, from: nat, to: nat)
    requires Cover(frames, cmd, from, to)
    ensures from <= to && forall k :: 0 <= k < |frames| ==>
              from <= frames[k].LogAdr && frames[k].LogAdr + frames[k].length <= to
    ensures forall k :: 0 <= k < |frames| ==> frames[k].cmd == cmd
  {
    if frames != [] {
      var n := |frames| - 1;
      CoverBounds(frames[..n], cmd, from, frames[n].LogAdr);
      assert forall k :: 0 <= k < n ==> frames[k] == frames[..n][k];
    }
  }

  /** The frame carries its stretch of the image, or room for it. */
  ghost predicate Carries(f: Frame, image: seq<bool>) {
    && 8 * (f.LogAdr + f.length) <= |image|
    && f.payload == DatagramData(f.cmd, image, f.LogAdr, f.LogAdr + f.length)
  }

  ghost predicate AllCarry(frames: seq<Frame>, image: seq<bool>) {
    forall k :: 0 <= k < |frames| ==> Carries(frames[k], image)
  }

  /** The frames have the first lengths of `full`. */
  ghost predicate HaveLengths(frames: seq<Frame>, full: seq<nat>) {
    && |frames| <= |full|
    && forall k :: 0 <= k < |frames| ==> frames[k].length == full[k]
  }

  /** The frames have the lengths of `full`, except perhaps for empty stretches at the end. */
  ghost predicate Exhaust(frames: seq<Frame>, full: seq<nat>) {
    HaveLengths(frames, full) && Sum(full[..|frames|]) == Sum(full)
  }

  /** The lengths of the read datagrams: the input part of segment `Isegment`, then the segments after it. */
  function ReadLengths(segs: seq<nat>, Isegment: nat, Ioffset: nat): seq<nat>
    requires Isegment < |segs| && Ioffset <= segs[Isegment]
  {
    [segs[Isegment] - Ioffset] + segs[Isegment + 1..]
  }

  /** The lengths of the write datagrams: the segments before `Isegment`, then its output part. */
  function WriteLengths(segs: seq<nat>, Isegment: nat, Ioffset: nat): seq<nat>
    requires Isegment < |segs|
  {
    segs[..Isegment] + [Ioffset]
  }

  lemma CoverAppend(frames: seq<Frame>, f: Frame, cmd: Command, from: nat)
    requires Cover(frames, cmd, from, f.LogAdr) && f.cmd == cmd
    ensures Cover(frames + [f], cmd, from, f.LogAdr + f.length)
  {
    assert (frames + [f])[..|frames|] == frames;
  }

  /** Lengths of the two halves add up to the outputs and the inputs. */
  lemma HalvesAdd(segs: seq<nat>, Isegment: nat, Ioffset: nat, Obytes: nat, Ibytes: nat)
    requires Segmented(segs, Isegment, Ioffset, Obytes, Ibytes)
    ensures Sum(ReadLengths(segs, Isegment, Ioffset)) == Ibytes
    ensures Sum(WriteLengths(segs, Isegment, Ioffset)) == Obytes
  {
    SumAppend(segs[..Isegment], Ioffset);
    SumCons(segs[Isegment] - Ioffset, segs[Isegment + 1..]);
    SumConcat(segs[..Isegment + 1], segs[Isegment + 1..]);
    assert segs[..Isegment + 1] + segs[Isegment + 1..] == segs;
    SumPrefix(segs, Isegment);
  }

  /** The two halves, stretch by stretch. */
  lemma HalvesByStretch(segs: seq<nat>, Isegment: nat, Ioffset: nat)
    requires Isegment < |segs| && Ioffset <= segs[Isegment]
    ensures var rl := ReadLengths(segs, Isegment, Ioffset);
            |rl| == |segs| - Isegment
            && forall k {:trigger rl[k]} :: 0 <= k < |rl| ==>
              rl[k] == segs[Isegment + k] - if k == 0 then Ioffset else 0
    ensures var wl := WriteLengths(segs, Isegment, Ioffset);
            |wl| == Isegment + 1 && wl[Isegment] == Ioffset
            && forall k {:trigger wl[k]} :: 0 <= k < Isegment ==> wl[k] == segs[k]
  {}

  lemma CarryConcat(a: seq<Frame>, b: seq<Frame>, image: seq<bool>)
    requires AllCarry(a, image) && AllCarry(b, image)
    ensures AllCarry(a + b, image)
  {}

  /** The index stack after the frames were sent. */
  function Pushed(stack: seq<Entry>, frames: seq<Frame>): seq<Entry> {
    if frames == [] then stack
    else
      var before := Pushed(stack, frames[..|frames| - 1]);
      var f := frames[|frames| - 1];
      if |before| < EC_MAXBUF then before + [Entry(f.LogAdr, f.length)] else before
  }

  lemma {:induction false} PushedConcat(stack: seq<Entry>, a: seq<Frame>, b: seq<Frame>)
    ensures Pushed(stack, a + b) == Pushed(Pushed(stack, a), b)
  {
    if b == [] {
      assert a + b == a;
    } else {
      assert (a + b)[..|a + b| - 1] == a + b[..|b| - 1];
      PushedConcat(stack, a, b[..|b| - 1]);
    }
  }

  /** Only the first frame carries the clock datagram, if any does. */
  ghost predicate OnlyFirstHasDc(frames: seq<Frame>, first: bool) {
    forall k :: 0 <= k < |frames| ==> frames[k].dc == (first && k == 0)
  }

  ghost predicate LeftBehind(stack: seq<Entry>, DCl: nat, frames: seq<Frame>, first0: bool, first: bool,
                             stack0: seq<Entry>, DCl0: nat) {
    && stack == Pushed(stack0, frames) && OnlyFirstHasDc(frames, first0)
    && first == (first0 && frames == [])
    && DCl == if first0 && frames != [] then frames[0].length else DCl0
  }

  lemma NothingSent(stack0: seq<Entry>, DCl0: nat, first: bool)
    ensures LeftBehind(stack0, DCl0, [], first, first, stack0, DCl0)
  {}

  lemma LeaveOneMore(stack: seq<Entry>, DCl: nat, frames: seq<Frame>, first0: bool, first: bool, stack0: seq<Entry>,
                     DCl0: nat, f: Frame)
    requires LeftBehind(stack, DCl, frames, first0, first, stack0, DCl0) && f.dc == first
    ensures var next := if |stack| < EC_MAXBUF then stack + [Entry(f.LogAdr, f.length)] else stack;
            LeftBehind(next, if first then f.length else DCl, frames + [f], first0, false, stack0, DCl0)
  {
    assert (frames + [f])[..|frames|] == frames;
  }

  lemma LeaveBoth(stack0: seq<Entry>, DCl0: nat, stack1: seq<Entry>, DCl1: nat, stack: seq<Entry>, DCl: nat,
                  inputs: seq<Frame>, outputs: seq<Frame>, first0: bool)
    requires LeftBehind(stack1, DCl1, inputs, first0, first0 && inputs == [], stack0, DCl0)
    requires var first := first0 && inputs == []; LeftBehind(stack, DCl, outputs, first, first
             && outputs == [], stack1, DCl1)
    ensures LeftBehind(stack, DCl, inputs + outputs, first0, first0 && inputs + outputs == [], stack0, DCl0)
  {
    PushedConcat(stack0, inputs, outputs);
  }

  /** State of a send loop that works off the lengths `full` from byte `from` on; `length` bytes are left. */
  ghost predicate Sending(frames: seq<Frame>, cmd: Command, from: nat, full: seq<nat>, LogAdr: nat, length: nat,
                          image: seq<bool>) {
    && Cover(frames, cmd, from, LogAdr) && AllCarry(frames, image)
    && HaveLengths(frames, full)
    && LogAdr + length == from + Sum(full) && LogAdr == from + Sum(full[..|frames|])
    && 8 * (from + Sum(full)) <= |image|
  }

  /** The same as a value, so that a loop can carry it along unopened. */
  type Stage = (seq<Frame>, nat, nat) -> bool

  ghost predicate Stages(P: Stage, cmd: Command, from: nat, full: seq<nat>, image: seq<bool>) {
    forall frames, LogAdr, length {:trigger Sending(frames, cmd, from, full, LogAdr, length, image)} ::
      P(frames, LogAdr, length) == Sending(frames, cmd, from, full, LogAdr, length, image)
  }

  lemma SumPrefixBound(s: seq<nat>, k: nat)
    requires k <= |s|
    ensures Sum(s[..k]) <= Sum(s)
  {
    SumConcat(s[..k], s[k..]);
    assert s[..k] + s[k..] == s;
  }

  lemma CarryAppend(frames: seq<Frame>, f: Frame, image: seq<bool>)
    requires AllCarry(frames, image) && Carries(f, image)
    ensures AllCarry(frames + [f], image)
  {}

  lemma SendStep(frames: seq<Frame>, f: Frame, cmd: Command, from: nat, full: seq<nat>, LogAdr: nat, length: nat,
                 image: seq<bool>)
    requires Sending(frames, cmd, from, full, LogAdr, length, image) && |frames| < |full|
    requires full[|frames|] <= length
    requires f.cmd == cmd && f.LogAdr == LogAdr && f.length == full[|frames|] && Carries(f, image)
    ensures Sending(frames + [f], cmd, from, full, LogAdr + f.length, length - f.length, image)
  {
    CoverAppend(frames, f, cmd, from);
    SumPrefix(full, |frames|);
    CarryAppend(frames, f, image);
  }

  /** The next stretch is never longer than what is left. */
  lemma NextFits(frames: seq<Frame>, cmd: Command, from: nat, full: seq<nat>, LogAdr: nat, length: nat,
                 image: seq<bool>)
    requires Sending(frames, cmd, from, full, LogAdr, length, image) && |frames| < |full|
    ensures full[|frames|] <= length
  {
    hide Cover, AllCarry, Carries, HaveLengths, Sum;
    SumPrefix(full, |frames|);
    SumPrefixBound(full, |frames| + 1);
  }

  lemma SendStart(cmd: Command, from: nat, full: seq<nat>, image: seq<bool>)
    requires 8 * (from + Sum(full)) <= |image|
    ensures Sending([], cmd, from, full, from, Sum(full), image)
  {
  }

  /** At the end of a send loop everything is sent. */
  lemma SendEnd(frames: seq<Frame>, cmd: Command, from: nat, full: seq<nat>, LogAdr: nat, length: nat, image: seq<bool>)
    requires Sending(frames, cmd, from, full, LogAdr, length, image) && (length == 0 || |frames| == |full|)
    ensures length == 0 && Cover(frames, cmd, from, from + Sum(full)) && AllCarry(frames, image)
            && Exhaust(frames, full)
  {
    if |frames| == |full| {
      assert full[..|frames|] == full;
    }
  }

  /** When only the last stretch is left, it is exactly what is left. */
  lemma LastWrite(frames: seq<Frame>, full: seq<nat>, LogAdr: nat, length: nat, image: seq<bool>)
    requires Sending(frames, LWR, 0, full, LogAdr, length, image) && |frames| < |full|
    ensures |frames| == |full| - 1 ==> length == full[|frames|]
  {
    SumPrefix(full, |frames|);
    assert full[..|full|] == full;
  }

  /** As long as something is left, the output part of the segment list is not used up. */
  lemma WritesGoOn(frames: seq<Frame>, full: seq<nat>, LogAdr: nat, length: nat, image: seq<bool>)
    requires Sending(frames, LWR, 0, full, LogAdr, length, image) && length > 0
    ensures |frames| < |full|
  {
    assert full[..|full|] == full;
  }

  /** The clock datagram of the first frame as it came back. */
  datatype Clock = Clock(wkc: nat, time: int)

  /** A frame that came back. */
  datatype Reply = Reply(cmd: Command, payload: seq<bool>, wkc: nat, clock: Option<Clock>) {
    /** The work counter the driver reports, which is that of the last datagram in the frame. */
    function LastWkc(): nat {
      if clock.Some? then clock.value.wkc else wkc
    }

    /** Outputs count twice, as they do in the combined command. */
    function Weight(): nat {
      if cmd == LWR then wkc * 2 else wkc
    }
  }

  /** `image` with `bits` written over it from `pos` on. */
  function Overlay(image: seq<bool>, pos: nat, bits: seq<bool>): (r: seq<bool>)
    requires pos + |bits| <= |image|
    ensures |r| == |image|
    ensures forall i :: 0 <= i < |r| ==> r[i] == if pos <= i < pos + |bits| then bits[i - pos] else image[i]
  {
    image[..pos] + bits + image[pos + |bits|..]
  }

  /** A reply has the size of the data its frame was sent for, which lies in the image. */
  ghost predicate Fits(e: Entry, r: Option<Reply>, size: nat) {
    && 8 * (e.data + e.length) <= size
    && (r.Some? ==> |r.value.payload| == 8 * e.length)
  }

  ghost predicate AllFits(stack: seq<Entry>, replies: seq<Option<Reply>>, size: nat) {
    && |stack| == |replies|
    && forall k :: 0 <= k < |stack| ==> Fits(stack[k], replies[k], size)
  }

  /** The image with one reply worked in; only read data is. */
  function WorkIn(image: seq<bool>, e: Entry, r: Option<Reply>): (now: seq<bool>)
    requires r.Some? && r.value.cmd != LWR ==> 8 * e.data + |r.value.payload| <= |image|
    ensures |now| == |image|
  {
    if r.None? || r.value.cmd == LWR then image else Overlay(image, 8 * e.data, r.value.payload)
  }

  /** The image when the replies have been worked in; lost frames leave no trace. */
  ghost function After(image: seq<bool>, stack: seq<Entry>, replies: seq<Option<Reply>>): (r: seq<bool>)
    requires AllFits(stack, replies, |image|)
    ensures |r| == |image|
  {
    if stack == [] then image
    else
      var n := |stack| - 1;
      assert Fits(stack[n], replies[n], |image|);
      WorkIn(After(image, stack[..n], replies[..n]), stack[n], replies[n])
  }

  /** Sum of the work counters that came back. */
  function Counted(replies: seq<Option<Reply>>): nat {
    if replies == [] then 0
    else
      var r := replies[|replies| - 1];
      Counted(replies[..|replies| - 1]) + if r.Some? then r.value.Weight() else 0
  }

  /** The first reply that has come back, or the number of frames. */
  function FirstBack(replies: seq<Option<Reply>>): (k: nat)
    ensures k <= |replies| && forall i :: 0 <= i < k ==> replies[i].None?
    ensures k < |replies| ==> replies[k].Some?
  {
    if replies == [] then 0
    else
      var k := FirstBack(replies[..|replies| - 1]);
      if k < |replies| - 1 || replies[k].Some? then k else k + 1
  }

  /** The first frame that comes back, and no other, is read as the one with the clock datagram. */
  ghost predicate ClockFirst(replies: seq<Option<Reply>>, hasdc: bool) {
    forall k :: 0 <= k < |replies| && replies[k].Some? ==>
      replies[k].value.clock.Some? == (hasdc && k == FirstBack(replies))
  }

  lemma AfterUnfold(image: seq<bool>, stack: seq<Entry>, replies: seq<Option<Reply>>)
    requires AllFits(stack, replies, |image|) && |stack| > 0
    ensures var n := |stack| - 1;
            && AllFits(stack[..n], replies[..n], |image|) && Fits(stack[n], replies[n], |image|)
            && After(image, stack, replies) == WorkIn(After(image, stack[..n], replies[..n]), stack[n], replies[n])
  {}

  lemma AfterStep(image: seq<bool>, stack: seq<Entry>, replies: seq<Option<Reply>>, n: nat)
    requires AllFits(stack, replies, |image|) && n < |stack|
    ensures AllFits(stack[..n], replies[..n], |image|) && AllFits(stack[..n + 1], replies[..n + 1], |image|)
    ensures Fits(stack[n], replies[n], |image|)
    ensures After(image, stack[..n + 1], replies[..n + 1])
            == WorkIn(After(image, stack[..n], replies[..n]), stack[n], replies[n])
  {
    AfterUnfold(image, stack[..n + 1], replies[..n + 1]);
    assert stack[..n + 1][..n] == stack[..n] && replies[..n + 1][..n] == replies[..n];
  }

  lemma CountedStep(replies: seq<Option<Reply>>, n: nat)
    requires n < |replies|
    ensures Counted(replies[..n + 1])
            == Counted(replies[..n]) + if replies[n].Some? then replies[n].value.Weight() else 0
  {
    assert replies[..n + 1][..n] == replies[..n];
  }

  class Cyclic {
    const group: Group
    /** The process image, as bits. */
    const iomap: array<bool>
    var hasdc: bool
    var DCl: nat
    var idxstack: seq<Entry>
    var DCtime: int

    constructor (group: Group, iomap: array<bool>, hasdc: bool)
      ensures this.group == group && this.iomap == iomap && this.hasdc == hasdc && idxstack == []
    {
      this.group, this.iomap, this.hasdc := group, iomap, hasdc;
      idxstack := [];
      DCl := 0;
      DCtime := 0;
    }

    /** The group is mapped without loss and the image has room for it. */
    ghost predicate Valid()
      reads this, group, group.IOsegment, iomap
    {
      && group.IOsegment.Length == EC_MAXIOSEGMENTS && group.nsegments <= EC_MAXIOSEGMENTS
      && iomap.Length == 8 * (group.Obytes + group.Ibytes)
      && group.nsegments == |group.Segments()|
      && Segmented(group.Segments(), group.Isegment, group.Ioffset, group.Obytes, group.Ibytes)
    }

    /** Pushes the place of a frame's data; the stack holds 16 entries. */
    method PushIndex(data: nat, length: nat)
      modifies this`idxstack
      ensures idxstack == if |old(idxstack)| < 16 then old(idxstack) + [Entry(data, length)] else old(idxstack)
    {
      if |idxstack| < EC_MAXBUF {
        idxstack := idxstack + [Entry(data, length)];
      }
    }

    /** Builds and sends one frame with `sublength` bytes of the image from `data` on. */
    method SendFrame(cmd: Command, LogAdr: nat, data: nat, sublength: nat, first: bool) returns (f: Frame)
      requires 8 * (data + sublength) <= iomap.Length
      modifies this`idxstack, this`DCl
      ensures f == Frame(cmd, LogAdr, sublength, DatagramData(cmd, iomap[..], data, data + sublength), first)
      ensures LogAdr == data ==> Carries(f, iomap[..])
      ensures DCl == if first then sublength else old(DCl)
      ensures idxstack == if |old(idxstack)| < EC_MAXBUF then old(idxstack) + [Entry(data,
              sublength)] else old(idxstack)
    {
      f := Frame(cmd, LogAdr, sublength, DatagramData(cmd, iomap[..], data, data + sublength), false);
      if first {
        DCl := sublength;
        f := f.(dc := true);
      }
      PushIndex(data, sublength);
    }

    /** What the frames sent so far left behind, when `first0` tells whether the first one has the clock datagram. */
    ghost predicate SentSoFar(frames: seq<Frame>, first0: bool, first: bool, stack0: seq<Entry>, DCl0: nat)
      reads this
    {
      LeftBehind(idxstack, DCl, frames, first0, first, stack0, DCl0)
    }

    /** One round of a send loop. */
    method SendNext(cmd: Command, LogAdr: nat, data: nat, sublength: nat, first: bool,
                    ghost frames: seq<Frame>, ghost from: nat, ghost full: seq<nat>, ghost length: nat,
                      ghost image: seq<bool>,
                    ghost first0: bool, ghost stack0: seq<Entry>, ghost DCl0: nat)
      returns (f: Frame)
      requires image == iomap[..] && data == LogAdr
      requires Sending(frames, cmd, from, full, LogAdr, length, image) && SentSoFar(frames, first0, first, stack0, DCl0)
      requires |frames| < |full| && sublength == full[|frames|] <= length
      modifies this`idxstack, this`DCl
      ensures Sending(frames + [f], cmd, from, full, LogAdr + sublength, length - sublength, image)
      ensures SentSoFar(frames + [f], first0, false, stack0, DCl0)
    {
      f := SendFrame(cmd, LogAdr, data, sublength, first);
      SendStep(frames, f, cmd, from, full, LogAdr, length, image);
      LeaveOneMore(old(idxstack), old(DCl), frames, first0, first, stack0, DCl0, f);
    }

    /** The lengths of the input part of the segment list. */
    ghost predicate InputLengths(full: seq<nat>)
      reads this, group, group.IOsegment
    {
      && group.nsegments <= group.IOsegment.Length && |full| == group.nsegments - group.Isegment
      && forall k {:trigger full[k]} :: 0 <= k < |full| ==>
           full[k] == group.IOsegment[group.Isegment + k] - if k == 0 then group.Ioffset else 0
    }

    /** One round of the loop over the input part of the segment list. */
    method SendRead(currentsegment: nat, LogAdr: nat, data: nat, first: bool, ghost frames: seq<Frame>,
                    ghost full: seq<nat>,
                    ghost length: nat, ghost image: seq<bool>, ghost first0: bool, ghost stack0: seq<Entry>,
                      ghost DCl0: nat, ghost P: Stage)
      returns (f: Frame, sublength: nat)
      requires InputLengths(full) && image == iomap[..] && data == LogAdr && |frames| < |full|
               && currentsegment == group.Isegment + |frames|
      requires Stages(P, LRD, group.Obytes, full, image) && P(frames, LogAdr, length)
               && SentSoFar(frames, first0, first, stack0, DCl0)
      modifies this`idxstack, this`DCl
      ensures sublength == full[|frames|] <= length && P(frames + [f], LogAdr + sublength, length - sublength)
      ensures SentSoFar(frames + [f], first0, false, stack0, DCl0)
    {
      assert Sending(frames, LRD, group.Obytes, full, LogAdr, length, image);
      NextFits(frames, LRD, group.Obytes, full, LogAdr, length, image);
      assert full[|frames|] == group.IOsegment[group.Isegment + |frames|] - if |frames| == 0 then group.Ioffset else 0;
      if currentsegment == group.Isegment {
        sublength := group.IOsegment[currentsegment] - group.Ioffset;
      } else {
        sublength := group.IOsegment[currentsegment];
      }
      f := SendNext(LRD, LogAdr, data, sublength, first, frames, group.Obytes, full, length, image, first0, stack0,
        DCl0);
      assert Sending(frames + [f], LRD, group.Obytes, full, LogAdr + sublength, length - sublength, image);
    }

    /** The loop over the input part of the segment list. */
    method ReadLoop(first0: bool, ghost full: seq<nat>, ghost image: seq<bool>, ghost P: Stage)
      returns (frames: seq<Frame>, ghost LogAdr: nat, ghost length: nat)
      requires InputLengths(full) && |full| > 0 && image == iomap[..]
      requires Stages(P, LRD, group.Obytes, full, image) && P([], group.Obytes, group.Ibytes)
      modifies this`idxstack, this`DCl
      ensures P(frames, LogAdr, length) && frames != [] && (length == 0 || |frames| == |full|)
      ensures SentSoFar(frames, first0, false, old(idxstack), old(DCl))
    {
      var first := first0;
      ghost var stack0, DCl0 := idxstack, DCl;
      var currentsegment: nat := group.Isegment;
      var data: nat, left: nat, adr: nat := group.Obytes, group.Ibytes, group.Obytes;
      frames := [];
      var go := true;
      while go
        invariant P(frames, adr, left) && data == adr && currentsegment == group.Isegment + |frames|
        invariant SentSoFar(frames, first0, first, stack0, DCl0)
        invariant go ==> |frames| < |full|
        invariant !go ==> frames != [] && (left == 0 || |frames| == |full|)
        decreases |full| - |frames|, go
      {
        var f, sublength := SendRead(currentsegment, adr, data, first, frames, full, left, image, first0, stack0, DCl0,
          P);
        currentsegment := currentsegment + 1;
        first := false;
        frames := frames + [f];
        left := left - sublength;
        adr := adr + sublength;
        data := data + sublength;
        go := left != 0 && currentsegment < group.nsegments;
      }
      LogAdr, length := adr, left;
    }

    /** The read datagrams. */
    method SendReads(first0: bool, ghost full: seq<nat>) returns (frames: seq<Frame>)
      requires InputLengths(full)
      requires |full| > 0 && Sum(full) == group.Ibytes && 8 * (group.Obytes + group.Ibytes) <= iomap.Length
      modifies this`idxstack, this`DCl
      ensures Cover(frames, LRD, group.Obytes, group.Obytes + group.Ibytes) && AllCarry(frames, iomap[..])
              && Exhaust(frames, full)
      ensures frames != [] && SentSoFar(frames, first0, false, old(idxstack), old(DCl))
    {
      ghost var image, from := iomap[..], group.Obytes;
      SendStart(LRD, from, full, image);
      ghost var P: Stage := (fs: seq<Frame>, a: nat, n: nat) => Sending(fs, LRD, from, full, a, n, image);
      ghost var LogAdr, length;
      frames, LogAdr, length := ReadLoop(first0, full, image, P);
      SendEnd(frames, LRD, group.Obytes, full, LogAdr, length, image);
    }

    /** The write datagrams: the loop over the segment list, clipped to the outputs. */
    method SendWrites(first0: bool, ghost full: seq<nat>) returns (frames: seq<Frame>)
      requires |full| <= group.nsegments <= group.IOsegment.Length
      requires forall k :: 0 <= k < |full| - 1 ==> full[k] == group.IOsegment[k]
      requires |full| > 0 && full[|full| - 1] <= group.IOsegment[|full| - 1]
      requires |full| > 0 && Sum(full) == group.Obytes && 8 * (group.Obytes) <= iomap.Length
      modifies this`idxstack, this`DCl
      ensures Cover(frames, LWR, 0, group.Obytes) && AllCarry(frames, iomap[..]) && Exhaust(frames, full)
      ensures frames != [] && SentSoFar(frames, first0, false, old(idxstack), old(DCl))
    {
      hide Sum, Cover, Sending, LeftBehind, Exhaust, AllCarry;
      var first := first0;
      ghost var image, stack0, DCl0 := iomap[..], idxstack, DCl;
      SendStart(LWR, 0, full, image);
      NothingSent(stack0, DCl0, first0);
      var currentsegment := 0;
      var data: nat, length: nat, LogAdr: nat := 0, group.Obytes, 0;
      frames := [];
      var go := true;
      while go
        invariant Sending(frames, LWR, 0, full, LogAdr, length, image) && data == LogAdr
        invariant currentsegment == |frames| && (frames != [] ==> !first)
        invariant SentSoFar(frames, first0, first, stack0, DCl0)
        invariant go ==> |frames| < |full|
        invariant !go ==> frames != [] && (length == 0 || |frames| == |full|)
        decreases |full| - |frames|, go
      {
        NextFits(frames, LWR, 0, full, LogAdr, length, image);
        LastWrite(frames, full, LogAdr, length, image);
        var sublength := group.IOsegment[currentsegment];
        currentsegment := currentsegment + 1;
        if length - sublength < 0 {
          sublength := length;
        }
        assert sublength == full[|frames|];
        var f := SendNext(LWR, LogAdr, data, sublength, first, frames, 0, full, length, image, first0, stack0, DCl0);
        first := false;
        frames := frames + [f];
        length := length - sublength;
        LogAdr := LogAdr + sublength;
        data := data + sublength;
        go := length != 0 && currentsegment < group.nsegments;
        if go {
          WritesGoOn(frames, full, LogAdr, length, image);
        }
      }
      SendEnd(frames, LWR, 0, full, LogAdr, length, image);
    }

    /** The combined datagrams: the loop over the whole segment list. */
    method SendCombined(first0: bool, ghost full: seq<nat>) returns (frames: seq<Frame>)
      requires group.nsegments <= group.IOsegment.Length && |full| == group.nsegments
      requires forall k :: 0 <= k < |full| ==> full[k] == group.IOsegment[k]
      requires |full| > 0 && Sum(full) == group.Obytes + group.Ibytes
               && 8 * (group.Obytes + group.Ibytes) <= iomap.Length
      modifies this`idxstack, this`DCl
      ensures Cover(frames, LRW, 0, group.Obytes + group.Ibytes) && AllCarry(frames, iomap[..]) && Exhaust(frames, full)
      ensures frames != [] && SentSoFar(frames, first0, false, old(idxstack), old(DCl))
    {
      hide Sum, Cover, Sending, LeftBehind, Exhaust, AllCarry;
      var first := first0;
      ghost var image, stack0, DCl0 := iomap[..], idxstack, DCl;
      SendStart(LRW, 0, full, image);
      NothingSent(stack0, DCl0, first0);
      var currentsegment := 0;
      var data: nat, length: nat, LogAdr: nat := 0, group.Obytes + group.Ibytes, 0;
      frames := [];
      var go := true;
      while go
        invariant Sending(frames, LRW, 0, full, LogAdr, length, image) && data == LogAdr
        invariant currentsegment == |frames| && (frames != [] ==> !first)
        invariant SentSoFar(frames, first0, first, stack0, DCl0)
        invariant go ==> |frames| < |full|
        invariant !go ==> frames != [] && (length == 0 || |frames| == |full|)
        decreases |full| - |frames|, go
      {
        NextFits(frames, LRW, 0, full, LogAdr, length, image);
        var sublength := group.IOsegment[currentsegment];
        currentsegment := currentsegment + 1;
        var f := SendNext(LRW, LogAdr, data, sublength, first, frames, 0, full, length, image, first0, stack0, DCl0);
        first := false;
        frames := frames + [f];
        length := length - sublength;
        LogAdr := LogAdr + sublength;
        data := data + sublength;
        go := length != 0 && currentsegment < group.nsegments;
      }
      SendEnd(frames, LRW, 0, full, LogAdr, length, image);
    }

    ghost predicate IsSplit(inputs: seq<Frame>, outputs: seq<Frame>)
      requires Valid()
      reads this, group, group.IOsegment, iomap
    {
      var segs := group.Segments();
      && Cover(inputs, LRD, group.Obytes, group.Obytes + group.Ibytes)
      && Cover(outputs, LWR, 0, group.Obytes)
      && (if group.Ibytes > 0 then Exhaust(inputs, ReadLengths(segs, group.Isegment, group.Ioffset)) else inputs == [])
      && (if group.Obytes > 0 then Exhaust(outputs, WriteLengths(segs, group.Isegment, group.Ioffset))
        else outputs == [])
    }

    /** Reads for the inputs, if there are any, and then writes for the outputs, if there are any. */
    method SendSplit(first0: bool) returns (inputs: seq<Frame>, outputs: seq<Frame>)
      requires Valid()
      modifies this`idxstack, this`DCl
      ensures IsSplit(inputs, outputs) && AllCarry(inputs + outputs, iomap[..])
      ensures SentSoFar(inputs + outputs, first0, first0 && inputs + outputs == [], old(idxstack), old(DCl))
    {
      hide Sum, Carries;
      var first := first0;
      inputs, outputs := [], [];
      ghost var segs := group.Segments();
      HalvesAdd(segs, group.Isegment, group.Ioffset, group.Obytes, group.Ibytes);
      HalvesByStretch(segs, group.Isegment, group.Ioffset);
      ghost var image, stack0, DCl0 := iomap[..], idxstack, DCl;
      if group.Ibytes > 0 {
        inputs := SendReads(first, ReadLengths(segs, group.Isegment, group.Ioffset));
        first := false;
      }
      ghost var stack1, DCl1 := idxstack, DCl;
      if group.Obytes > 0 {
        outputs := SendWrites(first, WriteLengths(segs, group.Isegment, group.Ioffset));
        first := false;
      }
      LeaveBoth(stack0, DCl0, stack1, DCl1, idxstack, DCl, inputs, outputs, first0);
      CarryConcat(inputs, outputs, image);
    }

    ghost predicate IsCombined(frames: seq<Frame>)
      requires Valid()
      reads this, group, group.IOsegment, iomap
    {
      && Cover(frames, LRW, 0, group.Obytes + group.Ibytes)
      && Exhaust(frames, group.Segments())
    }

    /**
     * One transmission: combined datagrams, or reads and then writes if a slave
     * blocks the combined command.  The first `reads` frames are the reads.
     */
    method Send() returns (wkc: nat, frames: seq<Frame>, ghost inputs: nat)
      requires Valid()
      modifies this`idxstack, this`DCl
      ensures wkc == if group.Obytes + group.Ibytes > 0 then 1 else 0
      ensures SentSoFar(frames, hasdc, hasdc && frames == [], old(idxstack), old(DCl)) && AllCarry(frames, iomap[..])
      ensures wkc == 0 ==> frames == []
      ensures wkc == 1 && group.blockLRW == 0 ==> IsCombined(frames)
      ensures wkc == 1 && group.blockLRW > 0 ==> inputs <= |frames| && IsSplit(frames[..inputs], frames[inputs..])
    {
      wkc, frames, inputs := 0, [], 0;
      var first := hasdc;
      var length := group.Obytes + group.Ibytes;
      if length > 0 {
        wkc := 1;
        if group.blockLRW > 0 {
          var ins, outs := SendSplit(first);
          frames, inputs := ins + outs, |ins|;
          assert frames[..inputs] == ins && frames[inputs..] == outs;
        } else {
          frames := SendCombined(first, group.Segments());
        }
      }
    }

    /** Copies received data into the image. */
    method CopyBack(pos: nat, bits: seq<bool>)
      requires pos + |bits| <= iomap.Length
      modifies iomap
      ensures iomap[..] == Overlay(old(iomap[..]), pos, bits)
    {
      forall i | 0 <= i < |bits| {
        iomap[pos + i] := bits[i];
      }
    }

    /** Takes the reply to the frame of stack entry `e`; `wkc0` is the count so far. */
    method TakeReply(e: Entry, r: Reply, first: bool, wkc0: nat) returns (wkc: nat)
      requires Fits(e, Some(r), iomap.Length) && (first <==> r.clock.Some?)
      requires first ==> DCl == e.length && wkc0 == 0
      modifies iomap, this`DCtime
      ensures wkc == wkc0 + r.Weight()
      ensures iomap[..] == WorkIn(old(iomap[..]), e, Some(r))
      ensures DCtime == if first then r.clock.value.time else old(DCtime)
    {
      var wkc2 := r.LastWkc();
      wkc := wkc0;
      if r.cmd == LRD || r.cmd == LRW {
        if first {
          CopyBack(8 * e.data, r.payload[..8 * DCl]);
          wkc := r.wkc;
          DCtime := r.clock.value.time;
        } else {
          CopyBack(8 * e.data, r.payload[..8 * e.length]);
          wkc := wkc + wkc2;
        }
        assert r.payload[..8 * e.length] == r.payload;
      } else if first {
        wkc := r.wkc * 2;
        DCtime := r.clock.value.time;
      } else {
        wkc := wkc + wkc2 * 2;
      }
    }

    /**
     * Second part of the exchange: the replies, in the order the frames were sent, whichever of them
     * have come back.  The first of these is taken for the one with the clock datagram, and must be as
     * long as that was.
     */
    method Receive(replies: seq<Option<Reply>>) returns (result: int)
      requires AllFits(idxstack, replies, iomap.Length) && ClockFirst(replies, hasdc)
      requires hasdc && FirstBack(replies) < |replies| ==> DCl == idxstack[FirstBack(replies)].length
      modifies iomap, this`idxstack, this`DCtime
      ensures idxstack == []
      ensures iomap[..] == After(old(iomap[..]), old(idxstack), replies)
      ensures result == if FirstBack(replies) == |replies| then -1 else Counted(replies)
      ensures var k := FirstBack(replies);
              DCtime == if hasdc && k < |replies| then replies[k].value.clock.value.time else old(DCtime)
    {
      var wkc: nat, valid_wkc, first := 0, false, hasdc;
      ghost var image, k := iomap[..], FirstBack(replies);
      var pos := 0;
      while pos < |idxstack|
        invariant 0 <= pos <= |idxstack|
        invariant idxstack == old(idxstack) && AllFits(idxstack[..pos], replies[..pos], |image|)
        invariant iomap[..] == After(image, idxstack[..pos], replies[..pos])
        invariant wkc == Counted(replies[..pos])
        invariant valid_wkc <==> k < pos
        invariant first == (hasdc && pos <= k) && (pos <= k ==> wkc == 0)
        invariant DCtime == if hasdc && k < pos then replies[k].value.clock.value.time else old(DCtime)
      {
        AfterStep(image, idxstack, replies, pos);
        CountedStep(replies, pos);
        if replies[pos].Some? {
          wkc := TakeReply(idxstack[pos], replies[pos].value, first, wkc);
          first := false;
          valid_wkc := true;
        }
        pos := pos + 1;
      }
      assert idxstack[..pos] == idxstack && replies[..pos] == replies;
      idxstack := [];
      result := if valid_wkc then wkc else EC_NOFRAME;
    }
  }
}
