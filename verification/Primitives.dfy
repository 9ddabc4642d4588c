/**
 * The blocking primitives (`ecx_BRD`, `ecx_APRD`, `ecx_FPRD` and the others of
 * their shape): get an index, build the frame, send and wait, give the index
 * back.
 */
module Primitives {
  import opened Common
  import opened Frames
  import opened NicDriver
  import opened Redundancy
  import opened NicPort
  import opened RedundantRing
  import opened RedundantWaiters

  lemma HoldsLength(f: seq<byte>, d: Datagram)
    requires Holds(f, [d], false)
    ensures |f| == EC_ELENGTHSIZE + Span(d) && |d.data| < 0x800
    ensures Proper(f) && WkcPosition(f) == |f| - EC_WKCSIZE && f[3] == d.index
  {
    assert [d][..0] == [];
    WkcIsLast(f, [d], false);
  }

  /** The frame of one datagram goes into transmit buffer `idx`. */
  method SetupFrame(port: Port, idx: nat, com: byte, ADP: word, ADO: word, data: seq<byte>)
    returns (ghost sent: seq<byte>)
    requires port.Valid() && idx < EC_MAXBUF
    requires ETH_HEADERSIZE + EC_HEADERSIZE + EC_WKCSIZE + |data| <= EC_BUFSIZE
    modifies port.txbuf, port.txbuflength
    ensures port.Valid() && FitLen(port.txbuflength[idx])
    ensures port.View().pri == old(port.View().pri) && port.View().sec == old(port.View().sec)
    ensures FrameOf(port.View(), port.txbuflength[..], idx) == sent
    ensures Holds(sent, [Datagram(com, idx, ADP, ADO, data)], false)
  {
    hide Holds;
    var buffer := new FrameBuffer();
    buffer.Setup(com, idx, ADP, ADO, data);
    sent := buffer.Sent();
    HoldsLength(sent, Datagram(com, idx, ADP, ADO, data));
    port.txbuf[idx] := buffer.frame[ETH_HEADERSIZE..];
    port.txbuflength[idx] := buffer.txbuflength;
  }

  /** Nothing is on its way to a socket for any index, and there is time to read all that comes, and `more`. */
  ghost predicate Quiet(incoming: seq<Option<Packet>>, polls: nat, more: nat) {
    polls >= |incoming| + more && forall idx :: 0 <= idx < EC_MAXBUF ==> FirstFor(incoming, idx) == None
  }

  /** Some buffer is free. */
  ghost predicate SomeFree(stat: seq<BufStat>) {
    exists j :: 0 <= j < |stat| && stat[j] == EMPTY
  }

  /** Every buffer is as it was, except that frames under way may have come in. */
  ghost predicate Conserved(before: seq<BufStat>, now: seq<BufStat>) {
    && |now| == |before|
    && forall j :: 0 <= j < |now| ==> now[j] == before[j] || (before[j] == TX && now[j] == RCVD)
  }

  /**
   * The slaves are connected: in redundant mode in a ring with at most one cable broken,
   * else in a line; nothing is on its way, and there is time for all reads to come.
   */
  ghost predicate Connected(redundant: bool, cables: Cables, dummy: seq<byte>, p: Ports, ring: Ring, polls: nat) {
    if redundant then
      Wired(cables, ring) && Proper(dummy) && Quiet(p.pri.incoming, polls, 2) && Quiet(p.sec.incoming, polls, 2)
    else
      Strung(cables, ring.slaves) && Quiet(p.pri.incoming, polls, 0)
  }

  /** That is a matter of the sockets alone. */
  lemma ConnectedStays(redundant: bool, cables: Cables, dummy: seq<byte>, p: Ports, q: Ports, ring: Ring, polls: nat)
    requires p.pri.incoming == q.pri.incoming && p.sec.incoming == q.sec.incoming
    ensures Connected(redundant, cables, dummy, p, ring, polls) == Connected(redundant, cables, dummy, q, ring, polls)
  {}

  /** The first try succeeds when the slaves are connected. */
  lemma FirstTryDelivers(port: Port, idx: nat, polls: nat, polls2: nat, ring: Ring, sent: seq<byte>, d: Datagram)
    requires port.Valid() && idx < EC_MAXBUF && FitLen(port.txbuflength[idx])
    requires Connected(port.redundant, port.cables, port.txbuf2, port.View(), ring, polls)
    requires FrameOf(port.View(), port.txbuflength[..], idx) == sent && Holds(sent, [d], false) && d.index == idx
    ensures Delivered(Try(port.View(), port.txbuflength[..], idx, port.cables, port.txbuf2, port.redundant, polls,
            polls2),
                      port.txbuflength[..], idx, Through(ring.slaves, sent))
  {
    hide Wired, Strung, Sent, WaitRed, Wait, SentRed, Holds;
    HoldsLength(sent, d);
    if port.redundant {
      BreakIsMasked(port.View(), port.txbuflength[..], idx, port.cables, ring, port.txbuf2, polls, polls2);
    } else {
      LineDelivers(port.View(), port.txbuflength[..], idx, port.cables, ring.slaves, polls);
    }
  }

  /** Data of the first datagram in a receive buffer. */
  lemma DataOf(buf: seq<byte>, frame: seq<byte>, n: nat)
    requires |frame| <= |buf| && buf[..|frame|] == frame && EC_HEADERSIZE + n <= |frame|
    ensures buf[EC_HEADERSIZE..EC_HEADERSIZE + n] == frame[EC_HEADERSIZE..EC_HEADERSIZE + n]
  {
    assert buf[..|frame|][EC_HEADERSIZE..EC_HEADERSIZE + n] == buf[EC_HEADERSIZE..EC_HEADERSIZE + n];
  }

  /** Work counter and data are those of the frame behind the last slave. */
  ghost predicate MatchesRing(ring: Ring, sent: seq<byte>, wkc: int, back: seq<byte>) {
    var full := Through(ring.slaves, sent);
    && |full| == |sent| == EC_HEADERSIZE + |back| + EC_WKCSIZE
    && WkcPosition(full) + 1 < |full| && wkc == Wkc(full)
    && (wkc > 0 ==> back == full[EC_HEADERSIZE..EC_HEADERSIZE + |back|])
  }

  /** What has been delivered is what the ring makes of the frame. */
  lemma DeliveredMatches(buf: seq<byte>, wkc: int, ring: Ring, sent: seq<byte>, d: Datagram, back: seq<byte>)
    requires (forall i :: 0 <= i < |ring.slaves| ==> Keeps(ring.slaves[i])) && Holds(sent, [d], false)
    requires |sent| <= |buf| && buf[..|sent|] == Through(ring.slaves, sent)
    requires var full := Through(ring.slaves, sent); |full| >= 2 && WkcPosition(full) + 1 < |full| && wkc == Wkc(full)
    requires |buf| >= EC_HEADERSIZE + |d.data|
    requires back == if wkc > 0 then buf[EC_HEADERSIZE..EC_HEADERSIZE + |d.data|] else d.data
    ensures MatchesRing(ring, sent, wkc, back)
  {
    hide Holds, Keeps, Through, Wkc;
    var full := Through(ring.slaves, sent);
    HoldsLength(sent, d);
    ThroughKeeps(ring.slaves, sent);
    DataOf(buf, full, |d.data|);
  }

  lemma DeliveredWkc(a: Answer, len: seq<nat>, idx: nat, frame: seq<byte>)
    requires PortsSized(a.ports, len) && idx < EC_MAXBUF && FitLen(len[idx]) && Delivered(a, len, idx, frame)
    ensures a.wkc > EC_NOFRAME && |a.ports.pri.buf[idx]| == EC_BUFSIZE
            && a.ports.pri.buf[idx][..len[idx] - ETH_HEADERSIZE] == frame
    ensures |frame| >= 2 && WkcPosition(frame) + 1 < |frame| && a.wkc == Wkc(frame)
  {}

  lemma SlavesKeep(port: Port, ring: Ring)
    requires if port.redundant then Wired(port.cables, ring) else Strung(port.cables, ring.slaves)
    ensures forall i :: 0 <= i < |ring.slaves| ==> Keeps(ring.slaves[i])
  {}

  /** Sends frame `sent` from buffer `idx`, and collects what comes back. */
  method Confirm(port: Port, idx: nat, d: Datagram, tries: nat, polls: nat, polls2: nat, up: bool,
                 ghost ring: Ring, ghost sent: seq<byte>) returns (wkc: int, back: seq<byte>)
    requires port.Valid() && idx < EC_MAXBUF && FitLen(port.txbuflength[idx])
    requires FrameOf(port.View(), port.txbuflength[..], idx) == sent && Holds(sent, [d], false) && d.index == idx
    modifies port`txbuf2, port.stack`incoming, port.redstack`incoming,
             port.stack.rxbufstat, port.stack.rxbuf, port.stack.rxsa,
             port.redstack.rxbufstat, port.redstack.rxbuf, port.redstack.rxsa, port.txbuf
    ensures port.Valid() && KeptBoth(old(port.View()), port.View(), idx) && |back| == |d.data|
    ensures !port.redundant ==> port.redstack.rxbufstat[..] == old(port.redstack.rxbufstat[..])
    ensures up && old(Connected(port.redundant, port.cables, port.txbuf2, port.View(), ring, polls)) ==>
              MatchesRing(ring, sent, wkc, back)
  {
    hide KeptBoth, Wired, Strung, Delivered, MatchesRing, Holds, Try, Quiet;
    HoldsLength(sent, d);
    ghost var connected := Connected(port.redundant, port.cables, port.txbuf2, port.View(), ring, polls);
    ghost var p, len, dummy := port.View(), port.txbuflength[..], port.txbuf2;
    if connected { FirstTryDelivers(port, idx, polls, polls2, ring, sent, d); }
    ghost var rounds;
    wkc, rounds := port.SrConfirm(idx, tries, polls, polls2, up);
    back := d.data;
    if wkc > 0 {
      back := port.stack.rxbuf[idx][EC_HEADERSIZE..EC_HEADERSIZE + |d.data|];
    }
    if connected && up {
      ghost var first := Try(p, len, idx, port.cables, dummy, port.redundant, polls, polls2);
      DeliveredWkc(first, len, idx, Through(ring.slaves, sent));
      assert rounds[0] == first && rounds == [first];
      SlavesKeep(port, ring);
      DeliveredMatches(port.stack.rxbuf[idx], wkc, ring, sent, d, back);
    }
  }

  /** A buffer that is free at the primary port is free at the secondary one. */
  ghost predicate InStep(p: Ports) {
    |p.pri.stat| == |p.sec.stat| && forall j :: 0 <= j < |p.pri.stat| && p.pri.stat[j] == EMPTY ==>
      p.sec.stat[j] == EMPTY
  }

  /** The index taken and given back again: both stacks are as they were. */
  lemma GivenBack(p: Ports, q: Ports, r: Ports, s: Ports, redundant: bool, idx: nat)
    requires |p.pri.stat| == |p.sec.stat| == |q.pri.stat| == |q.sec.stat| == |r.pri.stat| == |r.sec.stat| == EC_MAXBUF
    requires idx < EC_MAXBUF && q.pri.stat == p.pri.stat[idx := ALLOC] && s == WithStat(r, redundant, idx, EMPTY)
    requires q.sec.stat == if redundant then p.sec.stat[idx := ALLOC] else p.sec.stat
    requires KeptBoth(q, r, idx) && (!redundant ==> r.sec.stat == q.sec.stat)
    ensures p.pri.stat[idx] == EMPTY ==> Conserved(p.pri.stat, s.pri.stat)
    ensures !redundant || p.sec.stat[idx] == EMPTY ==> Conserved(p.sec.stat, s.sec.stat)
  {}

  lemma FreeIsFree(p: Ports, idx: nat)
    requires InStep(p) && idx < |p.pri.stat| && p.pri.stat[idx] == EMPTY
    ensures p.sec.stat[idx] == EMPTY
  {}

  /** What is conserved stays in step. */
  lemma StaysInStep(p: Ports, s: Ports)
    requires InStep(p) && Conserved(p.pri.stat, s.pri.stat) && Conserved(p.sec.stat, s.sec.stat)
    ensures InStep(s)
  {}

  /**
   * A primitive that reads.  Its index is given back whether or not an answer
   * comes: as long as some buffer was free, every buffer of either stack is
   * afterwards as it was before, or holds the frame it was waiting for.  With the
   * sockets up it returns what the slaves in order make of the datagram, over a
   * line, and in redundant mode over a ring with at most one cable broken.
   */
  method Read(port: Port, com: byte, ADP: word, ADO: word, data: seq<byte>, tries: nat, polls: nat, polls2: nat,
              up: bool,
              ghost ring: Ring) returns (wkc: int, back: seq<byte>, ghost idx: byte, ghost sent: seq<byte>)
    requires port.Valid() && ETH_HEADERSIZE + EC_HEADERSIZE + EC_WKCSIZE + |data| <= EC_BUFSIZE
    modifies port`lastidx, port`txbuf2, port.stack`incoming, port.redstack`incoming,
             port.stack.rxbufstat, port.stack.rxbuf, port.stack.rxsa,
             port.redstack.rxbufstat, port.redstack.rxbuf, port.redstack.rxsa, port.txbuf, port.txbuflength
    ensures port.Valid() && |back| == |data|
    ensures old(SomeFree(port.stack.rxbufstat[..]) && InStep(port.View())) ==>
              && Conserved(old(port.stack.rxbufstat[..]), port.stack.rxbufstat[..])
              && Conserved(old(port.redstack.rxbufstat[..]), port.redstack.rxbufstat[..])
              && InStep(port.View())
    ensures Holds(sent, [Datagram(com, idx, ADP, ADO, data)], false)
    ensures up && old(Connected(port.redundant, port.cables, port.txbuf2, port.View(), ring, polls)) ==>
              MatchesRing(ring, sent, wkc, back)
  {
    hide KeptBoth, Conserved, InStep, Wired, Strung, MatchesRing, Holds, PortsSized;
    ghost var p := port.View();
    var i := port.GetIndex();
    idx := i;
    sent := SetupFrame(port, i, com, ADP, ADO, data);
    ghost var q := port.View();
    ConnectedStays(port.redundant, port.cables, port.txbuf2, p, q, ring, polls);
    wkc, back := Confirm(port, i, Datagram(com, i, ADP, ADO, data), tries, polls, polls2, up, ring, sent);
    ghost var r := port.View();
    port.SetBufStat(i, EMPTY);
    GivenBack(p, q, r, port.View(), port.redundant, i);
    if p.pri.stat[i] == EMPTY && InStep(p) {
      FreeIsFree(p, i);
      StaysInStep(p, port.View());
    }
  }
}
