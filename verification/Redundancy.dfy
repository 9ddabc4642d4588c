/**
 * The two ports of a redundant setup (`ecx_outframe_red`, `ecx_waitinframe_red`).
 * With every frame from the primary port a dummy frame goes out from the
 * secondary one; the source addresses found on what comes back tell which way
 * the frames went, and decide whether the frame must be sent once more.
 */
module Redundancy {
  import opened Common
  import opened Frames
  import opened NicDriver

  /** Second words of the two source addresses. */
  const RX_PRIM: word := 0x0101
  const RX_SEC: word := 0x0404

  /** What arrives at the two ports when a frame is sent from one of them. */
  datatype Arrivals = Arrivals(primary: Option<Packet>, secondary: Option<Packet>)

  /** The cables: port (secondary or not), source address and frame to arrivals. */
  type Cables = (bool, word, seq<byte>) -> Arrivals

  predicate SoundArrivals(a: Arrivals) {
    (a.primary.Some? ==> Sound(a.primary.value)) && (a.secondary.Some? ==> Sound(a.secondary.value))
  }

  /** Both ports, and the transmit buffers behind their Ethernet headers. */
  datatype Ports = Ports(pri: Rx, sec: Rx, tx: seq<seq<byte>>)

  ghost predicate PortsSized(p: Ports, len: seq<nat>) {
    && Sized(p.pri, len) && Sized(p.sec, len) && |p.tx| == EC_MAXBUF
    && forall i :: 0 <= i < EC_MAXBUF ==> |p.tx[i]| == TEMPSIZE
  }

  /** The bytes sent for buffer `idx`, behind the Ethernet header. */
  function FrameOf(p: Ports, len: seq<nat>, idx: nat): (f: seq<byte>)
    requires PortsSized(p, len) && idx < EC_MAXBUF && FitLen(len[idx])
    ensures |f| == len[idx] - ETH_HEADERSIZE
  {
    p.tx[idx][..len[idx] - ETH_HEADERSIZE]
  }

  /** The arrivals are read after all that came before. */
  function Heard(v: Rx, len: seq<nat>, a: Option<Packet>): (u: Rx)
    requires Sized(v, len) && (a.Some? ==> Sound(a.value))
    ensures Sized(u, len)
  {
    v.(incoming := v.incoming + [a])
  }

  function Marked(v: Rx, len: seq<nat>, idx: nat): (u: Rx)
    requires Sized(v, len) && idx < EC_MAXBUF && FitLen(len[idx])
    ensures Sized(u, len)
  {
    v.(stat := v.stat[idx := TX])
  }

  ghost predicate SoundCables(cables: Cables) {
    forall secondary, sa1, frame :: SoundArrivals(cables(secondary, sa1, frame))
  }

  /** Sending from one of the ports. */
  function Sent(p: Ports, len: seq<nat>, idx: nat, cables: Cables, secondary: bool, sa1: word,
                frame: seq<byte>): (q: Ports)
    requires PortsSized(p, len) && idx < EC_MAXBUF && FitLen(len[idx]) && SoundCables(cables)
    ensures PortsSized(q, len)
  {
    var a := cables(secondary, sa1, frame);
    var pri := if secondary then p.pri else Marked(p.pri, len, idx);
    var sec := if secondary then Marked(p.sec, len, idx) else p.sec;
    Ports(Heard(pri, len, a.primary), Heard(sec, len, a.secondary), p.tx)
  }

  /** Sending when the socket does not take the frame. */
  function NotSent(p: Ports, idx: nat, secondary: bool): Ports
    requires idx < |p.pri.stat| && idx < |p.sec.stat|
  {
    if secondary then p.(sec := p.sec.(stat := p.sec.stat[idx := EMPTY]))
    else p.(pri := p.pri.(stat := p.pri.stat[idx := EMPTY]))
  }

  /** Sending, whether the socket takes the frame or not. */
  function SentIf(p: Ports, len: seq<nat>, idx: nat, cables: Cables, secondary: bool, sa1: word, frame: seq<byte>,
                  taken: bool): (q: Ports)
    requires PortsSized(p, len) && idx < EC_MAXBUF && FitLen(len[idx]) && SoundCables(cables)
    ensures PortsSized(q, len)
  {
    if taken then Sent(p, len, idx, cables, secondary, sa1, frame) else NotSent(p, idx, secondary)
  }

  /** The dummy frame, with the index written into it. */
  function Dummy(txbuf2: seq<byte>, idx: nat): seq<byte>
    requires |txbuf2| >= 4 && idx < EC_MAXBUF
  {
    txbuf2[3 := idx]
  }

  /** `ecx_outframe_red` when both sockets accept what is sent. */
  function SentRed(p: Ports, len: seq<nat>, idx: nat, cables: Cables, txbuf2: seq<byte>): (q: Ports)
    requires PortsSized(p, len) && idx < EC_MAXBUF && FitLen(len[idx]) && |txbuf2| >= 4
    requires SoundCables(cables)
    ensures PortsSized(q, len)
  {
    var s := Sent(p, len, idx, cables, false, RX_PRIM, FrameOf(p, len, idx));
    Sent(s, len, idx, cables, true, RX_SEC, Dummy(txbuf2, idx))
  }

  /** One turn of the waiting loop for one port: read only if nothing is in yet. */
  function Turn(v: Rx, len: seq<nat>, idx: nat, wkc: int): (res: (Rx, int))
    requires Sized(v, len) && idx < EC_MAXBUF && FitLen(len[idx])
    ensures Sized(res.0, len)
  {
    if wkc <= EC_NOFRAME then Poll(v, len, idx) else (v, wkc)
  }

  datatype Waited = Waited(pri: Rx, sec: Rx, wkc: int, wkc2: int)

  /** The waiting loop over both ports. */
  function WaitBoth(pri: Rx, sec: Rx, len: seq<nat>, idx: nat, wkc: int, wkc2: int, polls: nat): (w: Waited)
    requires Sized(pri, len) && Sized(sec, len) && idx < EC_MAXBUF && FitLen(len[idx])
    ensures Sized(w.pri, len) && Sized(w.sec, len)
    ensures wkc <= EC_NOFRAME || pri.stat[idx] != RCVD ==> w.pri.stat[idx] != RCVD
    decreases polls
  {
    var (v, r) := Turn(pri, len, idx, wkc);
    var (s, r2) := Turn(sec, len, idx, wkc2);
    if (r <= EC_NOFRAME || r2 <= EC_NOFRAME) && polls > 0 then WaitBoth(v, s, len, idx, r, r2, polls - 1)
    else Waited(v, s, r, r2)
  }

  /** Each port waits on its own: as long as it takes for both, or until the timer expires. */
  lemma {:induction false} BothWait(pri: Rx, sec: Rx, len: seq<nat>, idx: nat, wkc: int, wkc2: int, polls: nat)
    requires Sized(pri, len) && Sized(sec, len) && idx < EC_MAXBUF && FitLen(len[idx])
    ensures var w := WaitBoth(pri, sec, len, idx, wkc, wkc2, polls);
            && (wkc <= EC_NOFRAME && w.wkc > EC_NOFRAME ==> (w.pri, w.wkc) == Wait(pri, len, idx, polls))
            && (wkc > EC_NOFRAME ==> w.pri == pri && w.wkc == wkc)
            && (wkc2 <= EC_NOFRAME && w.wkc2 > EC_NOFRAME ==> (w.sec, w.wkc2) == Wait(sec, len, idx, polls))
            && (wkc2 > EC_NOFRAME ==> w.sec == sec && w.wkc2 == wkc2)
            && (w.wkc <= EC_NOFRAME || w.wkc2 <= EC_NOFRAME ==>
                  && (w.wkc <= EC_NOFRAME ==> (w.pri, w.wkc) == Wait(pri, len, idx, polls))
                  && (w.wkc2 <= EC_NOFRAME ==> (w.sec, w.wkc2) == Wait(sec, len, idx, polls)))
    decreases polls
  {
    var (v, r) := Turn(pri, len, idx, wkc);
    var (s, r2) := Turn(sec, len, idx, wkc2);
    if (r <= EC_NOFRAME || r2 <= EC_NOFRAME) && polls > 0 {
      BothWait(v, s, len, idx, r, r2, polls - 1);
    }
  }

  /** The bytes of a frame of buffer `idx` copied over those of another buffer. */
  function Over(buf: seq<byte>, from: seq<byte>, n: nat): (r: seq<byte>)
    requires FitLen(n) && n - ETH_HEADERSIZE <= |buf| && n - ETH_HEADERSIZE <= |from|
    ensures |r| == |buf| && r[..n - ETH_HEADERSIZE] == from[..n - ETH_HEADERSIZE]
  {
    from[..n - ETH_HEADERSIZE] + buf[n - ETH_HEADERSIZE..]
  }

  /** The secondary receive buffer copied to the primary one. */
  function Taken(v: Rx, s: Rx, len: seq<nat>, idx: nat): (u: Rx)
    requires Sized(v, len) && Sized(s, len) && idx < EC_MAXBUF && FitLen(len[idx]) && v.stat[idx] != RCVD
    ensures Sized(u, len)
  {
    v.(buf := v.buf[idx := Over(v.buf[idx], s.buf[idx], len[idx])])
  }

  datatype Answer = Answer(ports: Ports, wkc: int)

  /** Source address of the frame that came in, zero if none did. */
  function Source(v: Rx, idx: nat, wkc: int): word
    requires idx < |v.sa|
  {
    if wkc > EC_NOFRAME then v.sa[idx] else 0
  }

  /**
   * Sending what is in transmit buffer `idx` once more, now from the secondary port (`taken`: the
   * socket accepts it).
   */
  function Resend(p: Ports, len: seq<nat>, idx: nat, cables: Cables, wkc: int, polls2: nat, taken: bool): (a: Answer)
    requires PortsSized(p, len) && idx < EC_MAXBUF && FitLen(len[idx]) && SoundCables(cables) && p.pri.stat[idx] != RCVD
    ensures PortsSized(a.ports, len)
  {
    var q := SentIf(p, len, idx, cables, true, RX_PRIM, FrameOf(p, len, idx), taken);
    var (s, r) := Wait(q.sec, len, idx, polls2);
    if r > EC_NOFRAME then Answer(Ports(Taken(q.pri, s, len, idx), s, q.tx), r) else Answer(Ports(q.pri, s, q.tx), wkc)
  }

  /** Transmit buffer `idx` gets the frame as it came back to the primary port. */
  function Onward(p: Ports, len: seq<nat>, idx: nat): (q: Ports)
    requires PortsSized(p, len) && idx < EC_MAXBUF && FitLen(len[idx])
    ensures PortsSized(q, len)
  {
    p.(tx := p.tx[idx := Over(p.tx[idx], p.pri.buf[idx], len[idx])])
  }

  /** What is done when both ports have been waited for. */
  function Decide(p: Ports, len: seq<nat>, idx: nat, cables: Cables, wkc: int, wkc2: int, polls2: nat,
                  taken: bool): (a: Answer)
    requires PortsSized(p, len) && idx < EC_MAXBUF && FitLen(len[idx]) && SoundCables(cables) && p.pri.stat[idx] != RCVD
    ensures PortsSized(a.ports, len)
  {
    var primrx, secrx := Source(p.pri, idx, wkc), Source(p.sec, idx, wkc2);
    if primrx == RX_SEC && secrx == RX_PRIM then Answer(p.(pri := Taken(p.pri, p.sec, len, idx)), wkc2)
    else if primrx == 0 && secrx == RX_SEC then Resend(p, len, idx, cables, wkc, polls2, taken)
    else if primrx == RX_PRIM && secrx == RX_SEC then
      Resend(Onward(p, len, idx), len, idx, cables, wkc, polls2, taken)
    else Answer(p, wkc)
  }

  /** When nothing has come to the secondary port, the primary one decides and nothing is sent once more. */
  lemma PrimaryDecides(p: Ports, len: seq<nat>, idx: nat, cables: Cables, wkc: int, wkc2: int, polls2: nat, taken: bool)
    requires PortsSized(p, len) && idx < EC_MAXBUF && FitLen(len[idx]) && SoundCables(cables) && p.pri.stat[idx] != RCVD
    requires wkc2 <= -1
    ensures Decide(p, len, idx, cables, wkc, wkc2, polls2, taken) == Answer(p, wkc)
  {}

  /**
   * Sending once more counts exactly when a packet for `idx` comes to the secondary port in time: else result
   * and receive buffers of the primary port stay.
   */
  lemma ResendCounts(p: Ports, len: seq<nat>, idx: nat, cables: Cables, wkc: int, polls2: nat)
    requires PortsSized(p, len) && idx < EC_MAXBUF && FitLen(len[idx]) && SoundCables(cables) && p.pri.stat[idx] != RCVD
    ensures var incoming := p.sec.incoming + [cables(true, RX_PRIM, FrameOf(p, len, idx)).secondary];
            var (k, a, n) := (ArrivesAt(incoming, idx), Resend(p, len, idx, cables, wkc, polls2, true), len[idx] - 14);
            if k < |incoming| && k <= polls2
            then
              && a.wkc >= 0 && FirstFor(incoming, idx).Some?
              && Got(a.ports.sec, len, idx, FirstFor(incoming, idx).value)
              && a.ports.pri.buf[idx][..n] == a.ports.sec.buf[idx][..n]
            else a.wkc == wkc && a.ports.pri.buf == p.pri.buf
  {
    var q := Sent(p, len, idx, cables, true, RX_PRIM, FrameOf(p, len, idx));
    hide Wait, Poll, Wkc, Got;
    WaitSucceeds(q.sec, len, idx, polls2);
  }

  /** `ecx_waitinframe_red` in redundant mode. */
  function WaitRed(p: Ports, len: seq<nat>, idx: nat, cables: Cables, polls: nat, polls2: nat, taken: bool): (a: Answer)
    requires PortsSized(p, len) && idx < EC_MAXBUF && FitLen(len[idx]) && SoundCables(cables)
    ensures PortsSized(a.ports, len)
  {
    var w := WaitBoth(p.pri, p.sec, len, idx, EC_NOFRAME, EC_NOFRAME, polls);
    Decide(Ports(w.pri, w.sec, p.tx), len, idx, cables, w.wkc, w.wkc2, polls2, taken)
  }

  /** Waiting without redundancy. */
  function WaitAlone(p: Ports, len: seq<nat>, idx: nat, polls: nat): (a: Answer)
    requires PortsSized(p, len) && idx < EC_MAXBUF && FitLen(len[idx])
    ensures PortsSized(a.ports, len)
  {
    var (v, r) := Wait(p.pri, len, idx, polls);
    Answer(p.(pri := v), r)
  }

  /** In both stacks only the status of `idx` is changed, and frames under way for others may have come in. */
  ghost predicate KeptBoth(p: Ports, q: Ports, idx: nat) {
    Kept(p.pri.stat, q.pri.stat, idx) && Kept(p.sec.stat, q.sec.stat, idx)
  }

  lemma KeptBothTrans(p: Ports, q: Ports, r: Ports, idx: nat)
    requires KeptBoth(p, q, idx) && KeptBoth(q, r, idx)
    ensures KeptBoth(p, r, idx)
  {
    KeptTrans(p.pri.stat, q.pri.stat, r.pri.stat, idx);
    KeptTrans(p.sec.stat, q.sec.stat, r.sec.stat, idx);
  }

  lemma WaitAloneKeeps(p: Ports, len: seq<nat>, idx: nat, polls: nat)
    requires PortsSized(p, len) && idx < EC_MAXBUF && FitLen(len[idx])
    ensures KeptBoth(p, WaitAlone(p, len, idx, polls).ports, idx)
  {
    WaitKeepsStatus(p.pri, len, idx, polls);
  }

  /** Sending, with or without the dummy frame, changes no other status. */
  lemma SentKeeps(p: Ports, len: seq<nat>, idx: nat, cables: Cables, taken: bool, taken2: bool, txbuf2: seq<byte>)
    requires PortsSized(p, len) && idx < EC_MAXBUF && FitLen(len[idx]) && SoundCables(cables) && |txbuf2| >= 4
    ensures var q := SentIf(p, len, idx, cables, false, RX_PRIM, FrameOf(p, len, idx), taken);
            && KeptBoth(p, q, idx) && q.sec.stat == p.sec.stat
            && KeptBoth(p, SentIf(q, len, idx, cables, true, RX_SEC, Dummy(txbuf2, idx), taken2), idx)
  {}

  lemma ResendKeeps(p: Ports, len: seq<nat>, idx: nat, cables: Cables, wkc: int, polls2: nat, taken: bool)
    requires PortsSized(p, len) && idx < EC_MAXBUF && FitLen(len[idx]) && SoundCables(cables) && p.pri.stat[idx] != RCVD
    ensures KeptBoth(p, Resend(p, len, idx, cables, wkc, polls2, taken).ports, idx)
  {
    var q := SentIf(p, len, idx, cables, true, RX_PRIM, FrameOf(p, len, idx), taken);
    WaitKeepsStatus(q.sec, len, idx, polls2);
  }

  lemma DecideKeeps(p: Ports, len: seq<nat>, idx: nat, cables: Cables, wkc: int, wkc2: int, polls2: nat, taken: bool)
    requires PortsSized(p, len) && idx < EC_MAXBUF && FitLen(len[idx]) && SoundCables(cables) && p.pri.stat[idx] != RCVD
    ensures KeptBoth(p, Decide(p, len, idx, cables, wkc, wkc2, polls2, taken).ports, idx)
  {
    ResendKeeps(p, len, idx, cables, wkc, polls2, taken);
    ResendKeeps(Onward(p, len, idx), len, idx, cables, wkc, polls2, taken);
  }

  lemma WaitRedKeeps(p: Ports, len: seq<nat>, idx: nat, cables: Cables, polls: nat, polls2: nat, taken: bool)
    requires PortsSized(p, len) && idx < EC_MAXBUF && FitLen(len[idx]) && SoundCables(cables)
    ensures KeptBoth(p, WaitRed(p, len, idx, cables, polls, polls2, taken).ports, idx)
  {
    BothWait(p.pri, p.sec, len, idx, EC_NOFRAME, EC_NOFRAME, polls);
    WaitKeepsStatus(p.pri, len, idx, polls);
    WaitKeepsStatus(p.sec, len, idx, polls);
    var w := WaitBoth(p.pri, p.sec, len, idx, EC_NOFRAME, EC_NOFRAME, polls);
    var q := Ports(w.pri, w.sec, p.tx);
    DecideKeeps(q, len, idx, cables, w.wkc, w.wkc2, polls2, taken);
    KeptBothTrans(p, q, Decide(q, len, idx, cables, w.wkc, w.wkc2, polls2, taken).ports, idx);
  }
}
