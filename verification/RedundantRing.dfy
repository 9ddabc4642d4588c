/**
 * A line of slaves between the two ports, closed to a ring by the master, with
 * at most one cable cut.  A frame is processed on its way from the primary port
 * to the secondary one, not on the way back; at a cut it turns round.
 */
module RedundantRing {
  import opened Common
  import opened Frames
  import opened NicDriver
  import opened Redundancy

  type Slave = seq<byte> -> seq<byte>

  /** A slave changes neither the size of a frame nor its length field and index. */
  ghost predicate Keeps(f: Slave) {
    forall x {:trigger f(x)} :: |x| >= 4 ==> |f(x)| == |x| && f(x)[0] == x[0] && f(x)[1] == x[1] && f(x)[3] == x[3]
  }

  /** The frame after all slaves, in order. */
  function Through(slaves: seq<Slave>, frame: seq<byte>): seq<byte> {
    if slaves == [] then frame else slaves[|slaves| - 1](Through(slaves[..|slaves| - 1], frame))
  }

  /** `cut == Some(k)`: the cable behind the first `k` slaves is broken. */
  datatype Ring = Ring(slaves: seq<Slave>, cut: Option<nat>) {
    ghost predicate Valid() {
      && slaves != [] && (cut.Some? ==> cut.value <= |slaves|)
      && forall i :: 0 <= i < |slaves| ==> Keeps(slaves[i])
    }

    /** What reaches the primary port. */
    function ToPrimary(secondary: bool, frame: seq<byte>): Option<seq<byte>>
      requires cut.Some? ==> cut.value <= |slaves|
    {
      match cut
      case None => if secondary then Some(frame) else None
      case Some(k) => if secondary || k == 0 then None else Some(Through(slaves[..k], frame))
    }

    /** What reaches the secondary port. */
    function ToSecondary(secondary: bool, frame: seq<byte>): Option<seq<byte>>
      requires cut.Some? ==> cut.value <= |slaves|
    {
      match cut
      case None => if secondary then None else Some(Through(slaves, frame))
      case Some(k) => if !secondary || k == |slaves| then None else Some(Through(slaves[k..], frame))
    }
  }

  /** The packet brings exactly that frame, or there is neither. */
  ghost predicate Brings(p: Option<Packet>, frame: Option<seq<byte>>, sa1: word) {
    && p.Some? == frame.Some?
    && (p.Some? ==>
          && p.value.ecat && p.value.sa1 == sa1 && Sound(p.value)
          && |frame.value| <= TEMPSIZE && p.value.body[..|frame.value|] == frame.value)
  }

  /** The length field of the frame lies inside it. */
  predicate Proper(frame: seq<byte>) {
    14 <= |frame| <= TEMPSIZE && WkcPosition(frame) + EC_WKCSIZE <= |frame|
  }

  ghost predicate Wired(cables: Cables, ring: Ring) {
    && ring.Valid() && SoundCables(cables)
    && forall secondary, sa1, frame {:trigger cables(secondary, sa1, frame)} :: Proper(frame) ==>
         && Brings(cables(secondary, sa1, frame).primary, ring.ToPrimary(secondary, frame), sa1)
         && Brings(cables(secondary, sa1, frame).secondary, ring.ToSecondary(secondary, frame), sa1)
  }

  /** Without redundancy: the slaves hang on the primary port, and the frame comes back there. */
  ghost predicate Strung(cables: Cables, slaves: seq<Slave>) {
    && SoundCables(cables) && (forall i :: 0 <= i < |slaves| ==> Keeps(slaves[i]))
    && forall sa1, frame {:trigger cables(false, sa1, frame)} :: Proper(frame) ==>
         Brings(cables(false, sa1, frame).primary, Some(Through(slaves, frame)), sa1)
  }

  lemma {:induction false} ThroughKeeps(slaves: seq<Slave>, frame: seq<byte>)
    requires (forall i :: 0 <= i < |slaves| ==> Keeps(slaves[i])) && |frame| >= 4
    ensures var y := Through(slaves, frame);
            |y| == |frame| && y[0] == frame[0] && y[1] == frame[1] && y[3] == frame[3]
  {
    if slaves != [] {
      ThroughKeeps(slaves[..|slaves| - 1], frame);
      assert Keeps(slaves[|slaves| - 1]);
    }
  }

  /** The slaves before the cut and then those behind it: all of them. */
  lemma {:induction false} ThroughParts(slaves: seq<Slave>, k: nat, frame: seq<byte>)
    requires k <= |slaves|
    ensures Through(slaves[k..], Through(slaves[..k], frame)) == Through(slaves, frame)
  {
    if k == |slaves| {
      assert slaves[..k] == slaves;
    } else {
      var n := |slaves| - 1;
      ThroughParts(slaves[..n], k, frame);
      assert slaves[k..][..|slaves[k..]| - 1] == slaves[..n][k..];
      assert slaves[..n][..k] == slaves[..k];
    }
  }

  /** Two ports wait independently. */
  lemma EachWaits(pri: Rx, sec: Rx, len: seq<nat>, idx: nat, polls: nat)
    requires Sized(pri, len) && Sized(sec, len) && idx < EC_MAXBUF && FitLen(len[idx])
    ensures var w := WaitBoth(pri, sec, len, idx, EC_NOFRAME, EC_NOFRAME, polls);
            (w.pri, w.wkc) == Wait(pri, len, idx, polls) && (w.sec, w.wkc2) == Wait(sec, len, idx, polls)
  {
    BothWait(pri, sec, len, idx, EC_NOFRAME, EC_NOFRAME, polls);
  }

  /** The primary receive buffer holds the frame, and its work counter is reported. */
  ghost predicate Delivered(a: Answer, len: seq<nat>, idx: nat, frame: seq<byte>)
    requires PortsSized(a.ports, len) && idx < EC_MAXBUF && FitLen(len[idx])
  {
    && a.ports.pri.buf[idx][..len[idx] - ETH_HEADERSIZE] == frame
    && |frame| >= 2 && WkcPosition(frame) + 1 < |frame| && a.wkc == Wkc(frame)
  }

  /** A frame that came in, and its work counter. */
  lemma GotFrame(v: Rx, len: seq<nat>, idx: nat, p: Packet, frame: seq<byte>)
    requires Sized(v, len) && idx < EC_MAXBUF && Got(v, len, idx, p)
    requires Proper(frame) && |frame| == len[idx] - ETH_HEADERSIZE && p.body[..|frame|] == frame
    ensures v.buf[idx][..|frame|] == frame && WkcPosition(v.buf[idx]) == WkcPosition(frame)
            && Wkc(v.buf[idx]) == Wkc(frame)
  {
    var l, b := WkcPosition(frame), v.buf[idx];
    assert b[..|frame|][0] == b[0] && b[..|frame|][1] == b[1] && b[..|frame|][l] == b[l]
           && b[..|frame|][l + 1] == b[l + 1];
  }

  /** The one packet for `idx` comes last. */
  lemma HearsLast(v: Rx, len: seq<nat>, idx: nat, before: seq<Option<Packet>>, p: Packet, polls: nat)
    requires Sized(v, len) && idx < EC_MAXBUF && FitLen(len[idx]) && v.stat[idx] == TX
    requires FirstFor(before, idx) == None && v.incoming == before + [Some(p)] && IsFor(p, idx) && polls >= |before|
    ensures var (u, r) := Wait(v, len, idx, polls);
            r > EC_NOFRAME && Got(u, len, idx, p) && r == Wkc(u.buf[idx]) && u.incoming == []
  {
    QuietPrefix(before, [Some(p)], idx);
    WaitSucceeds(v, len, idx, polls);
  }

  /** From the secondary port a frame goes through the slaves behind the cut. */
  lemma BehindCut(cables: Cables, ring: Ring, frame: seq<byte>, idx: nat, sa1: word)
    requires Wired(cables, ring) && ring.cut.Some? && ring.cut.value < |ring.slaves|
    requires Proper(frame) && frame[3] == idx
    ensures var out := Through(ring.slaves[ring.cut.value..], frame);
            var p := cables(true, sa1, frame).secondary;
            && p.Some? && IsFor(p.value, idx) && p.value.sa1 == sa1 && cables(true, sa1, frame).primary == None
            && |out| == |frame| && Proper(out) && out[3] == idx && p.value.body[..|out|] == out
  {
    var out := Through(ring.slaves[ring.cut.value..], frame);
    ThroughKeeps(ring.slaves[ring.cut.value..], frame);
    var a := cables(true, sa1, frame);
    assert Brings(a.secondary, ring.ToSecondary(true, frame), sa1);
    assert a.secondary.value.body[..|out|][3] == a.secondary.value.body[3];
  }

  /** Sending once more from the secondary port, with nothing else to come there for that index. */
  lemma ResendDelivers(p: Ports, len: seq<nat>, idx: nat, cables: Cables, ring: Ring, wkc: int, polls2: nat,
                       frame: seq<byte>)
    requires PortsSized(p, len) && idx < EC_MAXBUF && FitLen(len[idx]) && p.pri.stat[idx] != RCVD
    requires Wired(cables, ring) && ring.cut.Some? && ring.cut.value < |ring.slaves|
    requires FirstFor(p.sec.incoming, idx) == None && polls2 >= |p.sec.incoming|
    requires frame == FrameOf(p, len, idx) && Proper(frame) && frame[3] == idx
    ensures Delivered(Resend(p, len, idx, cables, wkc, polls2, true), len, idx,
            Through(ring.slaves[ring.cut.value..], frame))
  {
    var out := Through(ring.slaves[ring.cut.value..], frame);
    BehindCut(cables, ring, frame, idx, RX_PRIM);
    var q := Sent(p, len, idx, cables, true, RX_PRIM, frame);
    var x := cables(true, RX_PRIM, frame).secondary.value;
    HearsLast(q.sec, len, idx, p.sec.incoming, x, polls2);
    GotFrame(Wait(q.sec, len, idx, polls2).0, len, idx, x, out);
  }

  /** The two waits, then the decision. */
  lemma WaitThenDecide(p: Ports, len: seq<nat>, idx: nat, cables: Cables, polls: nat, polls2: nat)
    requires PortsSized(p, len) && idx < EC_MAXBUF && FitLen(len[idx]) && SoundCables(cables)
    ensures var (v, r) := Wait(p.pri, len, idx, polls);
            var (s, r2) := Wait(p.sec, len, idx, polls);
            WaitRed(p, len, idx, cables, polls, polls2, true)
              == Decide(Ports(v, s, p.tx), len, idx, cables, r, r2, polls2, true)
  {
    EachWaits(p.pri, p.sec, len, idx, polls);
  }

  lemma ReplacedFrame(p: Ports, len: seq<nat>, idx: nat, part: seq<byte>)
    requires PortsSized(p, len) && idx < EC_MAXBUF && FitLen(len[idx])
    requires |part| == len[idx] - ETH_HEADERSIZE && p.pri.buf[idx][..|part|] == part
    ensures FrameOf(Onward(p, len, idx), len, idx) == part
  {}

  /** Nothing for `idx` is on its way, and the frame in its transmit buffer is complete. */
  ghost predicate Idle(p: Ports, len: seq<nat>, idx: nat)
  {
    && PortsSized(p, len) && idx < EC_MAXBUF && FitLen(len[idx])
    && FirstFor(p.pri.incoming, idx) == None && FirstFor(p.sec.incoming, idx) == None
    && Proper(FrameOf(p, len, idx)) && FrameOf(p, len, idx)[3] == idx
  }

  /** A packet that brings a frame with the right index. */
  lemma BringsIndex(p: Option<Packet>, frame: seq<byte>, sa1: word, idx: nat)
    requires Brings(p, Some(frame), sa1) && |frame| >= 4 && frame[3] == idx
    ensures IsFor(p.value, idx) && p.value.sa1 == sa1
  {
    assert p.value.body[..|frame|][3] == p.value.body[3];
  }

  /** What the slaves `fs` make of a proper frame is one. */
  lemma ThroughProper(fs: seq<Slave>, frame: seq<byte>, idx: nat)
    requires (forall i :: 0 <= i < |fs| ==> Keeps(fs[i])) && Proper(frame) && frame[3] == idx
    ensures var y := Through(fs, frame);
            |y| == |frame| && Proper(y) && y[3] == idx
  {
    ThroughKeeps(fs, frame);
  }

  /** The packet brings a proper frame with the right index. */
  ghost predicate Comes(p: Option<Packet>, frame: seq<byte>, idx: nat, sa1: word) {
    && p.Some? && IsFor(p.value, idx) && p.value.sa1 == sa1
    && Proper(frame) && frame[3] == idx && p.value.body[..|frame|] == frame
  }

  /** Before the cut. */
  lemma PartComes(ring: Ring, frame: seq<byte>, idx: nat, p: Option<Packet>)
    requires ring.Valid() && ring.cut.Some? && 0 < ring.cut.value && Proper(frame) && frame[3] == idx
    requires Brings(p, ring.ToPrimary(false, frame), RX_PRIM)
    ensures var part := Through(ring.slaves[..ring.cut.value], frame);
            |part| == |frame| && Comes(p, part, idx, RX_PRIM)
  {
    var part := Through(ring.slaves[..ring.cut.value], frame);
    ThroughProper(ring.slaves[..ring.cut.value], frame, idx);
    BringsIndex(p, part, RX_PRIM, idx);
  }

  /** Behind the cut. */
  lemma RestComes(ring: Ring, dummy: seq<byte>, idx: nat, p: Option<Packet>)
    requires ring.Valid() && ring.cut.Some? && ring.cut.value < |ring.slaves| && Proper(dummy) && dummy[3] == idx
    requires Brings(p, ring.ToSecondary(true, dummy), RX_SEC)
    ensures Comes(p, Through(ring.slaves[ring.cut.value..], dummy), idx, RX_SEC)
  {
    var rest := Through(ring.slaves[ring.cut.value..], dummy);
    ThroughProper(ring.slaves[ring.cut.value..], dummy, idx);
    BringsIndex(p, rest, RX_SEC, idx);
  }

  /** Without redundancy the frame comes back as all slaves in order have processed it, with its work counter. */
  lemma LineDelivers(p: Ports, len: seq<nat>, idx: nat, cables: Cables, slaves: seq<Slave>, polls: nat)
    requires PortsSized(p, len) && idx < EC_MAXBUF && FitLen(len[idx]) && Strung(cables, slaves)
    requires Proper(FrameOf(p, len, idx)) && FrameOf(p, len, idx)[3] == idx
    requires FirstFor(p.pri.incoming, idx) == None && polls >= |p.pri.incoming|
    ensures var frame := FrameOf(p, len, idx);
            Delivered(WaitAlone(Sent(p, len, idx, cables, false, RX_PRIM, frame), len, idx, polls), len, idx,
                      Through(slaves, frame))
  {
    var frame := FrameOf(p, len, idx);
    var a, full := cables(false, RX_PRIM, frame), Through(slaves, frame);
    var q := Sent(p, len, idx, cables, false, RX_PRIM, frame);
    ThroughProper(slaves, frame, idx);
    BringsIndex(a.primary, full, RX_PRIM, idx);
    QuietPrefix(p.pri.incoming, [a.primary], idx);
    WaitSucceeds(q.pri, len, idx, polls);
    GotFrame(Wait(q.pri, len, idx, polls).0, len, idx, a.primary.value, full);
  }
}
