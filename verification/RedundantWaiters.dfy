/**
 * Several frames under way over a ring with at most one cable cut.  What comes
 * in at the two ports, in whatever order, reaches the waiters one by one, and
 * each of them gets its own frame as all slaves have processed it.
 */
module RedundantWaiters {
  import opened Common
  import opened Frames
  import opened NicDriver
  import opened Redundancy
  import opened RedundantRing

  predicate Meant(x: Option<Packet>, idx: nat) {
    x.Some? && IsFor(x.value, idx)
  }

  /** Of the packets to come, `e` is the only one for `idx`, or there is none. */
  predicate Only(incoming: seq<Option<Packet>>, idx: nat, e: Option<Packet>) {
    if incoming == [] then e == None
    else if Meant(incoming[0], idx) then e == incoming[0] && Only(incoming[1..], idx, None)
    else Only(incoming[1..], idx, e)
  }

  lemma {:induction false} OnlyIsFirst(incoming: seq<Option<Packet>>, idx: nat, e: Option<Packet>)
    requires Only(incoming, idx, e)
    ensures FirstFor(incoming, idx) == e && (e == None || Meant(e, idx))
  {
    if incoming != [] {
      if Meant(incoming[0], idx) {
        OnlyIsFirst(incoming[1..], idx, None);
      } else {
        OnlyIsFirst(incoming[1..], idx, e);
      }
    }
  }

  lemma {:induction false} NoneIsOnly(incoming: seq<Option<Packet>>, idx: nat)
    requires FirstFor(incoming, idx) == None
    ensures Only(incoming, idx, None)
  {
    if incoming != [] { NoneIsOnly(incoming[1..], idx); }
  }

  /** One more packet to come. */
  lemma {:induction false} OnlyAppend(incoming: seq<Option<Packet>>, idx: nat, e: Option<Packet>, x: Option<Packet>)
    requires Only(incoming, idx, e) && (Meant(x, idx) ==> e == None)
    ensures Only(incoming + [x], idx, if Meant(x, idx) then x else e)
  {
    if incoming == [] {
      assert (incoming + [x])[1..] == [];
    } else {
      assert (incoming + [x])[1..] == incoming[1..] + [x];
      OnlyAppend(incoming[1..], idx, if Meant(incoming[0], idx) then None else e, x);
    }
  }

  /** In terms of how often each packet is to come, so in whatever order. */
  lemma {:induction false} OnlyCounts(incoming: seq<Option<Packet>>, idx: nat, e: Option<Packet>)
    requires e == None || Meant(e, idx)
    ensures Only(incoming, idx, e) <==>
            forall x: Option<Packet> :: Meant(x, idx) ==> multiset(incoming)[x] == if x == e then 1 else 0
  {
    if incoming != [] {
      var rest := incoming[1..];
      assert incoming == [incoming[0]] + rest;
      if Meant(incoming[0], idx) {
        OnlyCounts(rest, idx, None);
        if e == incoming[0] {
          assert forall x: Option<Packet> :: Meant(x, idx) ==>
              multiset(incoming)[x] == multiset(rest)[x] + if x == e then 1 else 0;
        } else {
          assert multiset(incoming)[incoming[0]] > 0;
        }
      } else {
        OnlyCounts(rest, idx, e);
        assert forall x: Option<Packet> :: Meant(x, idx) ==> multiset(incoming)[x] == multiset(rest)[x];
      }
    }
  }

  lemma Reordered(a: seq<Option<Packet>>, b: seq<Option<Packet>>, idx: nat, e: Option<Packet>)
    requires Only(a, idx, e) && multiset(a) == multiset(b)
    ensures Only(b, idx, e)
  {
    OnlyIsFirst(a, idx, e);
    OnlyCounts(a, idx, e);
    OnlyCounts(b, idx, e);
  }

  /** One port: `e` is to come for `idx` or has been stored for it, or nothing will come. */
  ghost predicate Due(v: Rx, len: seq<nat>, idx: nat, e: Option<Packet>)
    requires Sized(v, len) && idx < EC_MAXBUF
  {
    || (v.stat[idx] == TX && Only(v.incoming, idx, e))
    || (v.stat[idx] == RCVD && e.Some? && Holding(v.buf[idx], e.value, len[idx]) && v.sa[idx] == e.value.sa1
        && Only(v.incoming, idx, None))
  }

  /** The buffer holds the frame, and nothing to come is for `idx`. */
  ghost predicate Settled(v: Rx, len: seq<nat>, idx: nat, frame: seq<byte>)
    requires Sized(v, len) && idx < EC_MAXBUF
  {
    && |frame| <= EC_BUFSIZE && v.buf[idx][..|frame|] == frame
    && v.stat[idx] != RCVD && Only(v.incoming, idx, None)
  }

  /** One read, for the frame itself. */
  lemma PollDue(v: Rx, len: seq<nat>, idx: nat, e: Option<Packet>)
    requires Sized(v, len) && idx < EC_MAXBUF && FitLen(len[idx]) && Due(v, len, idx, e)
    ensures var (u, r) := Poll(v, len, idx);
            if r > EC_NOFRAME
            then e.Some? && Got(u, len, idx, e.value) && r == Wkc(u.buf[idx]) && Only(u.incoming, idx, None)
            else
              && Due(u, len, idx, e) && u.stat[idx] == TX
              && (e.Some? ==> |u.incoming| < |v.incoming|)
  {
    assert v.incoming != [] && v.incoming[0].Some? ==> Sound(v.incoming[0].value);
  }

  /** And for another one. */
  lemma PollOthers(v: Rx, len: seq<nat>, idx: nat, j: nat, e: Option<Packet>, frame: seq<byte>)
    requires Sized(v, len) && idx < EC_MAXBUF && FitLen(len[idx]) && j < EC_MAXBUF && j != idx && FitLen(len[j])
    ensures Due(v, len, j, e) ==> Due(Poll(v, len, idx).0, len, j, e)
    ensures Settled(v, len, j, frame) ==> Settled(Poll(v, len, idx).0, len, j, frame)
  {
    assert v.incoming != [] && v.incoming[0].Some? ==> Sound(v.incoming[0].value);
  }

  lemma {:induction false} WaitDue(v: Rx, len: seq<nat>, idx: nat, polls: nat, e: Option<Packet>)
    requires Sized(v, len) && idx < EC_MAXBUF && FitLen(len[idx]) && Due(v, len, idx, e)
    requires e.Some? ==> polls >= |v.incoming|
    ensures var (u, r) := Wait(v, len, idx, polls);
            && Only(u.incoming, idx, None) && u.stat[idx] != RCVD
            && if e.Some? then r > EC_NOFRAME && Got(u, len, idx, e.value) && r == Wkc(u.buf[idx])
               else r <= EC_NOFRAME
    decreases polls
  {
    hide Poll, Got, Ready, Wkc;
    PollDue(v, len, idx, e);
    var (u, r) := Poll(v, len, idx);
    if r <= EC_NOFRAME && polls > 0 { WaitDue(u, len, idx, polls - 1, e); }
  }

  lemma {:induction false} WaitOthers(v: Rx, len: seq<nat>, idx: nat, polls: nat, j: nat, e: Option<Packet>,
                                      frame: seq<byte>)
    requires Sized(v, len) && idx < EC_MAXBUF && FitLen(len[idx]) && j < EC_MAXBUF && j != idx && FitLen(len[j])
    ensures Due(v, len, j, e) ==> Due(Wait(v, len, idx, polls).0, len, j, e)
    ensures Settled(v, len, j, frame) ==> Settled(Wait(v, len, idx, polls).0, len, j, frame)
    decreases polls
  {
    hide Poll, Due, Settled, Ready;
    PollOthers(v, len, idx, j, e, frame);
    var (u, r) := Poll(v, len, idx);
    if r <= EC_NOFRAME && polls > 0 { WaitOthers(u, len, idx, polls - 1, j, e, frame); }
  }

  /** What the two ports wait for when a frame and its dummy are under way. */
  ghost predicate Expects(ring: Ring, idx: nat, frame: seq<byte>, a: Arrivals)
    requires ring.Valid()
  {
    match ring.cut
    case None =>
      && Meant(a.primary, idx) && a.primary.value.sa1 == RX_SEC
      && Comes(a.secondary, Through(ring.slaves, frame), idx, RX_PRIM)
    case Some(k) =>
      && (if k == 0 then a.primary == None else Comes(a.primary, Through(ring.slaves[..k], frame), idx, RX_PRIM))
      && (if k == |ring.slaves| then a.secondary == None
          else Meant(a.secondary, idx) && a.secondary.value.sa1 == RX_SEC)
  }

  /** A frame under way. */
  ghost predicate Out(p: Ports, len: seq<nat>, idx: nat, ring: Ring, a: Arrivals, frame: seq<byte>)
    requires PortsSized(p, len) && ring.Valid()
  {
    && idx < EC_MAXBUF && FitLen(len[idx]) && FrameOf(p, len, idx) == frame && Proper(frame) && frame[3] == idx
    && Expects(ring, idx, frame, a) && Due(p.pri, len, idx, a.primary) && Due(p.sec, len, idx, a.secondary)
  }

  /** A frame that has been delivered. */
  ghost predicate Done(p: Ports, len: seq<nat>, idx: nat, frame: seq<byte>)
    requires PortsSized(p, len)
  {
    idx < EC_MAXBUF && FitLen(len[idx]) && Settled(p.pri, len, idx, frame)
  }

  /** From `p` to `q` nothing is lost of frame `j`. */
  ghost predicate Untouched(p: Ports, q: Ports, len: seq<nat>, j: nat, ring: Ring, a: Arrivals, frame: seq<byte>)
    requires PortsSized(p, len) && PortsSized(q, len) && ring.Valid()
  {
    && (Out(p, len, j, ring, a, frame) ==> Out(q, len, j, ring, a, frame))
    && (Done(p, len, j, frame) ==> Done(q, len, j, frame))
  }

  /** Waiting at both ports. */
  lemma BothOthers(p: Ports, len: seq<nat>, idx: nat, polls: nat, j: nat, ring: Ring, a: Arrivals, frame: seq<byte>)
    requires PortsSized(p, len) && ring.Valid() && idx < EC_MAXBUF && FitLen(len[idx]) && j != idx
    ensures var (v, r) := Wait(p.pri, len, idx, polls);
            var (s, r2) := Wait(p.sec, len, idx, polls);
            Untouched(p, Ports(v, s, p.tx), len, j, ring, a, frame)
  {
    hide Due, Settled, Expects, Ready;
    if j < EC_MAXBUF && FitLen(len[j]) {
      WaitOthers(p.pri, len, idx, polls, j, a.primary, frame);
      WaitOthers(p.sec, len, idx, polls, j, a.secondary, frame);
    }
  }

  /** Sending once more behind the cut is of no concern to the others. */
  lemma SentOthers(p: Ports, len: seq<nat>, idx: nat, cables: Cables, j: nat, ring: Ring, a: Arrivals,
                   frame: seq<byte>, x: seq<byte>)
    requires PortsSized(p, len) && Wired(cables, ring) && idx < EC_MAXBUF && FitLen(len[idx]) && j != idx
    requires ring.cut.Some? && ring.cut.value < |ring.slaves| && Proper(x) && x[3] == idx
    ensures Untouched(p, Sent(p, len, idx, cables, true, RX_PRIM, x), len, j, ring, a, frame)
  {
    BehindCut(cables, ring, x, idx, RX_PRIM);
    var b := cables(true, RX_PRIM, x);
    if Out(p, len, j, ring, a, frame) {
      var e1 := if p.pri.stat[j] == TX then a.primary else None;
      var e2 := if p.sec.stat[j] == TX then a.secondary else None;
      OnlyAppend(p.pri.incoming, j, e1, b.primary);
      OnlyAppend(p.sec.incoming, j, e2, b.secondary);
    }
    if Done(p, len, j, frame) {
      OnlyAppend(p.pri.incoming, j, None, b.primary);
    }
  }

  lemma ResendOthers(p: Ports, len: seq<nat>, idx: nat, cables: Cables, wkc: int, polls2: nat, j: nat, ring: Ring,
                     a: Arrivals, frame: seq<byte>)
    requires PortsSized(p, len) && Wired(cables, ring) && idx < EC_MAXBUF && FitLen(len[idx]) && j != idx
    requires ring.cut.Some? && ring.cut.value < |ring.slaves| && p.pri.stat[idx] != RCVD
    requires var x := FrameOf(p, len, idx); Proper(x) && x[3] == idx
    ensures Untouched(p, Resend(p, len, idx, cables, wkc, polls2, true).ports, len, j, ring, a, frame)
  {
    var x := FrameOf(p, len, idx);
    SentOthers(p, len, idx, cables, j, ring, a, frame, x);
    var q := Sent(p, len, idx, cables, true, RX_PRIM, x);
    if j < EC_MAXBUF && FitLen(len[j]) {
      WaitOthers(q.sec, len, idx, polls2, j, a.secondary, frame);
    }
  }

  /** What a port has come to when it has been waited for. */
  ghost predicate Came(v: Rx, len: seq<nat>, idx: nat, wkc: int, e: Option<Packet>)
    requires Sized(v, len) && idx < EC_MAXBUF
  {
    && Only(v.incoming, idx, None) && v.stat[idx] != RCVD
    && if e.Some? then wkc > EC_NOFRAME && Got(v, len, idx, e.value) && wkc == Wkc(v.buf[idx]) else wkc <= EC_NOFRAME
  }

  /** The frame came in full at the secondary port. */
  lemma DecideUncut(p: Ports, len: seq<nat>, idx: nat, cables: Cables, wkc: int, wkc2: int, polls2: nat, a: Arrivals,
                    full: seq<byte>)
    requires PortsSized(p, len) && SoundCables(cables) && idx < EC_MAXBUF && FitLen(len[idx])
    requires Came(p.pri, len, idx, wkc, a.primary) && Came(p.sec, len, idx, wkc2, a.secondary)
    requires Meant(a.primary, idx) && a.primary.value.sa1 == RX_SEC && Comes(a.secondary, full, idx, RX_PRIM)
    requires |full| == len[idx] - ETH_HEADERSIZE
    ensures var ans := Decide(p, len, idx, cables, wkc, wkc2, polls2, true);
            Delivered(ans, len, idx, full) && Done(ans.ports, len, idx, full)
  {
    GotFrame(p.sec, len, idx, a.secondary.value, full);
  }

  /** Or at the primary port. */
  lemma DecideAtEnd(p: Ports, len: seq<nat>, idx: nat, cables: Cables, wkc: int, wkc2: int, polls2: nat, a: Arrivals,
                    full: seq<byte>)
    requires PortsSized(p, len) && SoundCables(cables) && idx < EC_MAXBUF && FitLen(len[idx])
    requires Came(p.pri, len, idx, wkc, a.primary) && Came(p.sec, len, idx, wkc2, None)
    requires Comes(a.primary, full, idx, RX_PRIM) && |full| == len[idx] - ETH_HEADERSIZE
    ensures var ans := Decide(p, len, idx, cables, wkc, wkc2, polls2, true);
            Delivered(ans, len, idx, full) && Done(ans.ports, len, idx, full)
  {
    GotFrame(p.pri, len, idx, a.primary.value, full);
  }

  /** Sent once more, it is delivered, and nothing is left to come. */
  lemma ResendSettles(p: Ports, len: seq<nat>, idx: nat, cables: Cables, ring: Ring, wkc: int, polls2: nat,
                      frame: seq<byte>)
    requires PortsSized(p, len) && idx < EC_MAXBUF && FitLen(len[idx]) && p.pri.stat[idx] != RCVD
    requires Wired(cables, ring) && ring.cut.Some? && ring.cut.value < |ring.slaves|
    requires Only(p.pri.incoming, idx, None) && Only(p.sec.incoming, idx, None) && polls2 >= |p.sec.incoming|
    requires frame == FrameOf(p, len, idx) && Proper(frame) && frame[3] == idx
    ensures var ans := Resend(p, len, idx, cables, wkc, polls2, true);
            var out := Through(ring.slaves[ring.cut.value..], frame);
            Delivered(ans, len, idx, out) && Done(ans.ports, len, idx, out)
  {
    OnlyIsFirst(p.sec.incoming, idx, None);
    ResendDelivers(p, len, idx, cables, ring, wkc, polls2, frame);
    BehindCut(cables, ring, frame, idx, RX_PRIM);
    OnlyAppend(p.pri.incoming, idx, None, cables(true, RX_PRIM, frame).primary);
  }

  /** Only the dummy came. */
  lemma DecideAtStart(p: Ports, len: seq<nat>, idx: nat, cables: Cables, ring: Ring, wkc: int, wkc2: int, polls2: nat,
                      a: Arrivals, frame: seq<byte>)
    requires PortsSized(p, len) && Wired(cables, ring) && ring.cut == Some(0) && idx < EC_MAXBUF && FitLen(len[idx])
    requires Came(p.pri, len, idx, wkc, None) && Came(p.sec, len, idx, wkc2, a.secondary)
    requires Meant(a.secondary, idx) && a.secondary.value.sa1 == RX_SEC && polls2 >= |p.sec.incoming|
    requires frame == FrameOf(p, len, idx) && Proper(frame) && frame[3] == idx
    ensures var ans, full := Decide(p, len, idx, cables, wkc, wkc2, polls2, true), Through(ring.slaves, frame);
            Delivered(ans, len, idx, full) && Done(ans.ports, len, idx, full)
  {
    hide Resend, Only;
    ResendSettles(p, len, idx, cables, ring, wkc, polls2, frame);
    assert ring.slaves[0..] == ring.slaves;
  }

  /** Both came back where they were sent. */
  lemma DecideBetween(p: Ports, len: seq<nat>, idx: nat, cables: Cables, ring: Ring, wkc: int, wkc2: int, polls2: nat,
                      a: Arrivals, frame: seq<byte>)
    requires PortsSized(p, len) && Wired(cables, ring) && idx < EC_MAXBUF && FitLen(len[idx])
    requires ring.cut.Some? && 0 < ring.cut.value < |ring.slaves| && |frame| == len[idx] - ETH_HEADERSIZE
    requires Came(p.pri, len, idx, wkc, a.primary) && Came(p.sec, len, idx, wkc2, a.secondary)
    requires Comes(a.primary, Through(ring.slaves[..ring.cut.value], frame), idx, RX_PRIM)
    requires |Through(ring.slaves[..ring.cut.value], frame)| == |frame|
    requires Meant(a.secondary, idx) && a.secondary.value.sa1 == RX_SEC && polls2 >= |p.sec.incoming|
    ensures var ans, full := Decide(p, len, idx, cables, wkc, wkc2, polls2, true), Through(ring.slaves, frame);
            Delivered(ans, len, idx, full) && Done(ans.ports, len, idx, full)
  {
    hide Resend, Only;
    var part := Through(ring.slaves[..ring.cut.value], frame);
    GotFrame(p.pri, len, idx, a.primary.value, part);
    ReplacedFrame(p, len, idx, part);
    ResendSettles(Onward(p, len, idx), len, idx, cables, ring, wkc, polls2, part);
    ThroughParts(ring.slaves, ring.cut.value, frame);
  }

  /** In each case the waiter gets the frame of all slaves. */
  lemma DecideDelivers(p: Ports, len: seq<nat>, idx: nat, cables: Cables, ring: Ring, wkc: int, wkc2: int, polls2: nat,
                       a: Arrivals, frame: seq<byte>)
    requires PortsSized(p, len) && Wired(cables, ring) && idx < EC_MAXBUF && FitLen(len[idx])
    requires Expects(ring, idx, frame, a)
    requires ring.cut.Some? && ring.cut.value < |ring.slaves| ==> polls2 >= |p.sec.incoming|
    requires Came(p.pri, len, idx, wkc, a.primary) && Came(p.sec, len, idx, wkc2, a.secondary)
    requires frame == FrameOf(p, len, idx) && Proper(frame) && frame[3] == idx
    ensures var ans, full := Decide(p, len, idx, cables, wkc, wkc2, polls2, true), Through(ring.slaves, frame);
            Delivered(ans, len, idx, full) && Done(ans.ports, len, idx, full)
  {
    hide Decide, Delivered, Done, Came, Got, IsFor, Proper;
    ThroughKeeps(ring.slaves, frame);
    match ring.cut
    case None =>
      DecideUncut(p, len, idx, cables, wkc, wkc2, polls2, a, Through(ring.slaves, frame));
    case Some(k) =>
      assert forall i :: 0 <= i < k ==> ring.slaves[..k][i] == ring.slaves[i];
      ThroughKeeps(ring.slaves[..k], frame);
      if k == |ring.slaves| {
        assert ring.slaves[..k] == ring.slaves;
        DecideAtEnd(p, len, idx, cables, wkc, wkc2, polls2, a, Through(ring.slaves, frame));
      } else if k == 0 {
        DecideAtStart(p, len, idx, cables, ring, wkc, wkc2, polls2, a, frame);
      } else {
        DecideBetween(p, len, idx, cables, ring, wkc, wkc2, polls2, a, frame);
      }
  }

  /** And the others are not touched. */
  lemma DecideOthers(p: Ports, len: seq<nat>, idx: nat, cables: Cables, ring: Ring, wkc: int, wkc2: int, polls2: nat,
                     a: Arrivals, frame: seq<byte>, j: nat, aj: Arrivals, fj: seq<byte>)
    requires PortsSized(p, len) && Wired(cables, ring) && idx < EC_MAXBUF && FitLen(len[idx]) && j != idx
    requires Expects(ring, idx, frame, a)
    requires Came(p.pri, len, idx, wkc, a.primary) && Came(p.sec, len, idx, wkc2, a.secondary)
    requires frame == FrameOf(p, len, idx) && Proper(frame) && frame[3] == idx
    ensures Untouched(p, Decide(p, len, idx, cables, wkc, wkc2, polls2, true).ports, len, j, ring, aj, fj)
  {
    hide Resend, Only;
    if ring.cut.Some? && ring.cut.value < |ring.slaves| {
      if ring.cut.value == 0 {
        ResendOthers(p, len, idx, cables, wkc, polls2, j, ring, aj, fj);
      } else {
        var part := Through(ring.slaves[..ring.cut.value], frame);
        ThroughKeeps(ring.slaves[..ring.cut.value], frame);
        GotFrame(p.pri, len, idx, a.primary.value, part);
        ReplacedFrame(p, len, idx, part);
        ResendOthers(Onward(p, len, idx), len, idx, cables, wkc, polls2, j, ring, aj, fj);
      }
    }
  }

  lemma ResendReads(p: Ports, len: seq<nat>, idx: nat, cables: Cables, wkc: int, polls2: nat)
    requires PortsSized(p, len) && SoundCables(cables) && idx < EC_MAXBUF && FitLen(len[idx]) && p.pri.stat[idx] != RCVD
    ensures var q := Resend(p, len, idx, cables, wkc, polls2, true).ports;
            |q.pri.incoming| == |p.pri.incoming| + 1 && |q.sec.incoming| <= |p.sec.incoming| + 1
  {
    WaitReads(Sent(p, len, idx, cables, true, RX_PRIM, FrameOf(p, len, idx)).sec, len, idx, polls2);
  }

  /** Waiting adds at most what sending once more brings. */
  lemma LittleMore(p: Ports, len: seq<nat>, idx: nat, cables: Cables, polls: nat, polls2: nat)
    requires PortsSized(p, len) && SoundCables(cables) && idx < EC_MAXBUF && FitLen(len[idx])
    ensures var q := WaitRed(p, len, idx, cables, polls, polls2, true).ports;
            |q.pri.incoming| <= |p.pri.incoming| + 1 && |q.sec.incoming| <= |p.sec.incoming| + 1
  {
    hide Resend, Ready, AllSound;
    WaitThenDecide(p, len, idx, cables, polls, polls2);
    WaitReads(p.pri, len, idx, polls);
    WaitReads(p.sec, len, idx, polls);
    var (v, r) := Wait(p.pri, len, idx, polls);
    var (s, r2) := Wait(p.sec, len, idx, polls);
    var w := Ports(v, s, p.tx);
    ResendReads(w, len, idx, cables, r, polls2);
    ResendReads(Onward(w, len, idx), len, idx, cables, r, polls2);
  }

  /**
   * One waiter: it gets its frame, and the others lose nothing.  Where the frame is sent once more,
   * what is still to come at the secondary port then must leave time for it.
   */
  lemma OneWaits(p: Ports, len: seq<nat>, idx: nat, cables: Cables, ring: Ring, polls: nat, polls2: nat, a: Arrivals,
                 frame: seq<byte>)
    requires PortsSized(p, len) && Wired(cables, ring) && Out(p, len, idx, ring, a, frame)
    requires polls >= |p.pri.incoming| && polls >= |p.sec.incoming|
    requires ring.cut.Some? && ring.cut.value < |ring.slaves| ==> polls2 >= |Wait(p.sec, len, idx, polls).0.incoming|
    ensures var ans, full := WaitRed(p, len, idx, cables, polls, polls2, true), Through(ring.slaves, frame);
            Delivered(ans, len, idx, full) && Done(ans.ports, len, idx, full)
  {
    hide Due, Only, Expects, Delivered, Done, Decide, Got, Wkc, Ready;
    WaitDue(p.pri, len, idx, polls, a.primary);
    WaitDue(p.sec, len, idx, polls, a.secondary);
    WaitThenDecide(p, len, idx, cables, polls, polls2);
    var (v, r) := Wait(p.pri, len, idx, polls);
    var (s, r2) := Wait(p.sec, len, idx, polls);
    DecideDelivers(Ports(v, s, p.tx), len, idx, cables, ring, r, r2, polls2, a, frame);
  }

  lemma OthersWait(p: Ports, len: seq<nat>, idx: nat, cables: Cables, ring: Ring, polls: nat, polls2: nat, a: Arrivals,
                   frame: seq<byte>, j: nat, aj: Arrivals, fj: seq<byte>)
    requires PortsSized(p, len) && Wired(cables, ring) && Out(p, len, idx, ring, a, frame) && j != idx
    requires polls >= |p.pri.incoming| && polls >= |p.sec.incoming|
    ensures Untouched(p, WaitRed(p, len, idx, cables, polls, polls2, true).ports, len, j, ring, aj, fj)
  {
    hide Due, Only, Expects, Done, Decide, Got, Wkc, Ready;
    WaitDue(p.pri, len, idx, polls, a.primary);
    WaitDue(p.sec, len, idx, polls, a.secondary);
    WaitThenDecide(p, len, idx, cables, polls, polls2);
    BothOthers(p, len, idx, polls, j, ring, aj, fj);
    var (v, r) := Wait(p.pri, len, idx, polls);
    var (s, r2) := Wait(p.sec, len, idx, polls);
    DecideOthers(Ports(v, s, p.tx), len, idx, cables, ring, r, r2, polls2, a, frame, j, aj, fj);
  }

  /** The waiters, one after the other: final buffers, and the work counters returned. */
  function WaitAllRed(p: Ports, len: seq<nat>, waits: seq<nat>, cables: Cables, polls: nat, polls2: nat):
    (res: (Ports, seq<int>))
    requires PortsSized(p, len) && SoundCables(cables)
    requires forall i :: 0 <= i < |waits| ==> waits[i] < EC_MAXBUF && FitLen(len[waits[i]])
    ensures PortsSized(res.0, len) && |res.1| == |waits|
  {
    if waits == [] then (p, [])
    else
      var (q, wkcs) := WaitAllRed(p, len, waits[..|waits| - 1], cables, polls, polls2);
      var ans := WaitRed(q, len, waits[|waits| - 1], cables, polls, polls2, true);
      (ans.ports, wkcs + [ans.wkc])
  }

  /** Frames under way with different indices; `a` tells what each of them waits for. */
  ghost predicate AllOut(p: Ports, len: seq<nat>, waits: seq<nat>, ring: Ring, a: nat -> Arrivals,
                         frames: nat -> seq<byte>)
    requires PortsSized(p, len) && ring.Valid()
  {
    && (forall i, j :: 0 <= i < j < |waits| ==> waits[i] != waits[j])
    && forall i :: 0 <= i < |waits| ==> Out(p, len, waits[i], ring, a(waits[i]), frames(waits[i]))
  }

  /** The frames of `waits` have been delivered, with their work counters. */
  ghost predicate AllDone(p: Ports, len: seq<nat>, waits: seq<nat>, wkcs: seq<int>, ring: Ring,
                          frames: nat -> seq<byte>)
    requires PortsSized(p, len) && |wkcs| == |waits|
  {
    forall i :: 0 <= i < |waits| ==>
      var full := Through(ring.slaves, frames(waits[i]));
      && Done(p, len, waits[i], full)
      && |full| >= 2 && WkcPosition(full) + 1 < |full| && wkcs[i] == Wkc(full)
  }

  lemma LastWaits(p: Ports, len: seq<nat>, front: seq<nat>, last: nat, wkcs: seq<int>, cables: Cables, ring: Ring,
                  polls: nat, polls2: nat, a: nat -> Arrivals, frames: nat -> seq<byte>)
    requires PortsSized(p, len) && Wired(cables, ring) && Out(p, len, last, ring, a(last), frames(last))
    requires last < EC_MAXBUF && FitLen(len[last])
    requires last !in front && |wkcs| == |front| && AllDone(p, len, front, wkcs, ring, frames)
    requires polls >= |p.pri.incoming| && polls >= |p.sec.incoming| && polls2 >= |p.sec.incoming|
    ensures var ans := WaitRed(p, len, last, cables, polls, polls2, true);
            AllDone(ans.ports, len, front + [last], wkcs + [ans.wkc], ring, frames)
  {
    hide Out, Done, WaitRed, Wkc;
    var ans, waits := WaitRed(p, len, last, cables, polls, polls2, true), front + [last];
    WaitReads(p.sec, len, last, polls);
    OneWaits(p, len, last, cables, ring, polls, polls2, a(last), frames(last));
    forall i | 0 <= i < |front| ensures Done(ans.ports, len, front[i], Through(ring.slaves, frames(front[i]))) {
      OthersWait(p, len, last, cables, ring, polls, polls2, a(last), frames(last), front[i], a(front[i]),
                 Through(ring.slaves, frames(front[i])));
    }
  }

  /** Each waiter gets its own frame, as all slaves have processed it, and its work counter. */
  lemma {:induction false} EachGetsItsOwn(p: Ports, len: seq<nat>, waits: seq<nat>, cables: Cables, ring: Ring,
                                          polls: nat, polls2: nat, a: nat -> Arrivals, frames: nat -> seq<byte>)
    requires PortsSized(p, len) && Wired(cables, ring) && AllOut(p, len, waits, ring, a, frames)
    requires polls >= |p.pri.incoming| + |waits| && polls >= |p.sec.incoming| + |waits|
    requires polls2 >= |p.sec.incoming| + |waits|
    ensures var (q, wkcs) := WaitAllRed(p, len, waits, cables, polls, polls2);
            && AllDone(q, len, waits, wkcs, ring, frames)
            && |q.pri.incoming| <= |p.pri.incoming| + |waits| && |q.sec.incoming| <= |p.sec.incoming| + |waits|
    ensures forall j, aj, fj :: j !in waits ==>
              Untouched(p, WaitAllRed(p, len, waits, cables, polls, polls2).0, len, j, ring, aj, fj)
  {
    hide WaitRed, Wkc, Expects, Due, Settled, Delivered, FrameOf, Ready, AllSound, Proper;
    if waits != [] {
      var n := |waits| - 1;
      var front, last := waits[..n], waits[n];
      EachGetsItsOwn(p, len, front, cables, ring, polls, polls2, a, frames);
      var (q, wkcs) := WaitAllRed(p, len, front, cables, polls, polls2);
      assert Untouched(p, q, len, last, ring, a(last), frames(last));
      LastWaits(q, len, front, last, wkcs, cables, ring, polls, polls2, a, frames);
      LittleMore(q, len, last, cables, polls, polls2);
      assert front + [last] == waits;
      forall j, aj, fj | j !in waits
        ensures Untouched(p, WaitAllRed(p, len, waits, cables, polls, polls2).0, len, j, ring, aj, fj)
      {
        OthersWait(q, len, last, cables, ring, polls, polls2, a(last), frames(last), j, aj, fj);
        assert Untouched(p, q, len, j, ring, aj, fj);
      }
    }
  }

  /** What the ports wait for when a frame and its dummy have been sent. */
  function Awaited(cables: Cables, idx: nat, txbuf2: seq<byte>, frame: seq<byte>): Arrivals
    requires idx < EC_MAXBUF && |txbuf2| >= 4
  {
    var a0, a1 := cables(false, RX_PRIM, frame), cables(true, RX_SEC, Dummy(txbuf2, idx));
    Arrivals(if a0.primary.Some? then a0.primary else a1.primary,
             if a0.secondary.Some? then a0.secondary else a1.secondary)
  }

  /** The four arrivals are those awaited and two times nothing. */
  lemma AwaitedExpects(cables: Cables, ring: Ring, idx: nat, txbuf2: seq<byte>, frame: seq<byte>)
    requires Wired(cables, ring) && idx < EC_MAXBUF && Proper(txbuf2) && Proper(frame) && frame[3] == idx
    ensures Expects(ring, idx, frame, Awaited(cables, idx, txbuf2, frame))
    ensures var a0, a1 := cables(false, RX_PRIM, frame), cables(true, RX_SEC, Dummy(txbuf2, idx));
            && (a0.primary == None || a1.primary == None) && (a0.secondary == None || a1.secondary == None)
  {
    var dummy := Dummy(txbuf2, idx);
    var a0, a1 := cables(false, RX_PRIM, frame), cables(true, RX_SEC, dummy);
    assert Brings(a0.primary, ring.ToPrimary(false, frame), RX_PRIM);
    assert Brings(a1.secondary, ring.ToSecondary(true, dummy), RX_SEC);
    match ring.cut
    case None =>
      ThroughProper(ring.slaves, frame, idx);
      BringsIndex(a0.secondary, Through(ring.slaves, frame), RX_PRIM, idx);
      BringsIndex(a1.primary, dummy, RX_SEC, idx);
    case Some(k) =>
      if k > 0 { PartComes(ring, frame, idx, a0.primary); }
      if k < |ring.slaves| { RestComes(ring, dummy, idx, a1.secondary); }
  }

  /** Two more reads, of which at most one brings a packet for `idx`. */
  lemma OnlyAppendTwo(incoming: seq<Option<Packet>>, idx: nat, e: Option<Packet>, x: Option<Packet>, y: Option<Packet>)
    requires Only(incoming, idx, e) && (x == None || y == None)
    requires Meant(x, idx) || Meant(y, idx) ==> e == None
    ensures Only(incoming + [x] + [y], idx, if Meant(x, idx) then x else if Meant(y, idx) then y else e)
  {
    OnlyAppend(incoming, idx, e, x);
    OnlyAppend(incoming + [x], idx, if Meant(x, idx) then x else e, y);
  }

  /** What arrives is for the index of the frame. */
  lemma AwaitedMeant(cables: Cables, ring: Ring, idx: nat, txbuf2: seq<byte>, frame: seq<byte>)
    requires Wired(cables, ring) && idx < EC_MAXBUF && Proper(txbuf2) && Proper(frame) && frame[3] == idx
    ensures var a0, a1 := cables(false, RX_PRIM, frame), cables(true, RX_SEC, Dummy(txbuf2, idx));
            forall x :: x in [a0.primary, a1.primary, a0.secondary, a1.secondary] && x.Some? ==> Meant(x, idx)
  {
    var dummy := Dummy(txbuf2, idx);
    var a0, a1 := cables(false, RX_PRIM, frame), cables(true, RX_SEC, dummy);
    assert Brings(a0.primary, ring.ToPrimary(false, frame), RX_PRIM);
    assert Brings(a1.secondary, ring.ToSecondary(true, dummy), RX_SEC);
    AwaitedExpects(cables, ring, idx, txbuf2, frame);
  }

  /** A frame that is sent is under way. */
  lemma SentIsOut(p: Ports, len: seq<nat>, idx: nat, cables: Cables, ring: Ring, txbuf2: seq<byte>)
    requires Idle(p, len, idx) && Wired(cables, ring) && Proper(txbuf2)
    ensures var frame := FrameOf(p, len, idx);
            Out(SentRed(p, len, idx, cables, txbuf2), len, idx, ring, Awaited(cables, idx, txbuf2, frame), frame)
  {
    hide Expects;
    var frame := FrameOf(p, len, idx);
    var a0, a1 := cables(false, RX_PRIM, frame), cables(true, RX_SEC, Dummy(txbuf2, idx));
    AwaitedExpects(cables, ring, idx, txbuf2, frame);
    AwaitedMeant(cables, ring, idx, txbuf2, frame);
    NoneIsOnly(p.pri.incoming, idx);
    NoneIsOnly(p.sec.incoming, idx);
    OnlyAppendTwo(p.pri.incoming, idx, None, a0.primary, a1.primary);
    OnlyAppendTwo(p.sec.incoming, idx, None, a0.secondary, a1.secondary);
  }

  /** What the sending does to the ports. */
  lemma SentRedIs(p: Ports, len: seq<nat>, idx: nat, cables: Cables, txbuf2: seq<byte>)
    requires PortsSized(p, len) && idx < EC_MAXBUF && FitLen(len[idx]) && SoundCables(cables) && |txbuf2| >= 4
    ensures var a0, a1 := cables(false, RX_PRIM, FrameOf(p, len, idx)), cables(true, RX_SEC, Dummy(txbuf2, idx));
            SentRed(p, len, idx, cables, txbuf2)
            == Ports(p.pri.(stat := p.pri.stat[idx := TX], incoming := p.pri.incoming + [a0.primary] + [a1.primary]),
                     p.sec.(stat := p.sec.stat[idx := TX],
                            incoming := p.sec.incoming + [a0.secondary] + [a1.secondary]), p.tx)
  {}

  /** A dummy that comes back to the secondary port is the last to come there. */
  lemma DummyIsLast(p: Ports, len: seq<nat>, idx: nat, cables: Cables, ring: Ring, txbuf2: seq<byte>, polls: nat)
    requires Idle(p, len, idx) && Wired(cables, ring) && Proper(txbuf2) && polls >= |p.sec.incoming| + 2
    requires ring.cut.Some? && ring.cut.value < |ring.slaves|
    ensures Wait(SentRed(p, len, idx, cables, txbuf2).sec, len, idx, polls).0.incoming == []
  {
    var frame, dummy := FrameOf(p, len, idx), Dummy(txbuf2, idx);
    var a0, a1 := cables(false, RX_PRIM, frame), cables(true, RX_SEC, dummy);
    assert Brings(a1.secondary, ring.ToSecondary(true, dummy), RX_SEC);
    RestComes(ring, dummy, idx, a1.secondary);
    AwaitedExpects(cables, ring, idx, txbuf2, frame);
    SentRedIs(p, len, idx, cables, txbuf2);
    QuietPrefix(p.sec.incoming, [a0.secondary], idx);
    HearsLast(SentRed(p, len, idx, cables, txbuf2).sec, len, idx, p.sec.incoming + [a0.secondary], a1.secondary.value,
              polls);
  }

  /**
   * A single break is invisible.  With the ring intact, and with any one cable
   * broken, the primary receive buffer ends with the frame as all slaves in
   * order have processed it, and its work counter is returned.
   */
  lemma BreakIsMasked(p: Ports, len: seq<nat>, idx: nat, cables: Cables, ring: Ring, txbuf2: seq<byte>, polls: nat,
                      polls2: nat)
    requires Idle(p, len, idx) && Wired(cables, ring) && Proper(txbuf2)
    requires polls >= |p.pri.incoming| + 2 && polls >= |p.sec.incoming| + 2
    ensures Delivered(WaitRed(SentRed(p, len, idx, cables, txbuf2), len, idx, cables, polls, polls2, true), len, idx,
                      Through(ring.slaves, FrameOf(p, len, idx)))
  {
    hide Out, SentRed, Delivered, Done;
    var frame := FrameOf(p, len, idx);
    SentIsOut(p, len, idx, cables, ring, txbuf2);
    SentRedIs(p, len, idx, cables, txbuf2);
    if ring.cut.Some? && ring.cut.value < |ring.slaves| {
      DummyIsLast(p, len, idx, cables, ring, txbuf2, polls);
    }
    OneWaits(SentRed(p, len, idx, cables, txbuf2), len, idx, cables, ring, polls, polls2,
             Awaited(cables, idx, txbuf2, frame), frame);
  }

  lemma MeantOnce(idx: nat, j: nat)
    requires j != idx
    ensures forall x: Option<Packet> :: Meant(x, idx) ==> !Meant(x, j)
  {}

  /** Frames under way stay so when another one is sent. */
  lemma StaysOut(p: Ports, len: seq<nat>, idx: nat, cables: Cables, ring: Ring, txbuf2: seq<byte>, j: nat,
                 a: Arrivals, frame: seq<byte>)
    requires Idle(p, len, idx) && Wired(cables, ring) && Proper(txbuf2) && j != idx
    requires Out(p, len, j, ring, a, frame)
    ensures Out(SentRed(p, len, idx, cables, txbuf2), len, j, ring, a, frame)
  {
    hide Expects, SentRed, Holding, IsFor, Only, Keeps;
    var x := FrameOf(p, len, idx);
    var a0, a1 := cables(false, RX_PRIM, x), cables(true, RX_SEC, Dummy(txbuf2, idx));
    AwaitedExpects(cables, ring, idx, txbuf2, x);
    AwaitedMeant(cables, ring, idx, txbuf2, x);
    MeantOnce(idx, j);
    SentRedIs(p, len, idx, cables, txbuf2);
    OnlyAppendTwo(p.pri.incoming, j, if p.pri.stat[j] == TX then a.primary else None, a0.primary, a1.primary);
    OnlyAppendTwo(p.sec.incoming, j, if p.sec.stat[j] == TX then a.secondary else None, a0.secondary, a1.secondary);
  }

  /** And so do idle ones. */
  lemma StaysIdle(p: Ports, len: seq<nat>, idx: nat, cables: Cables, ring: Ring, txbuf2: seq<byte>, j: nat)
    requires Idle(p, len, idx) && Wired(cables, ring) && Proper(txbuf2) && j != idx && Idle(p, len, j)
    ensures var q := SentRed(p, len, idx, cables, txbuf2); Idle(q, len, j) && FrameOf(q, len, j) == FrameOf(p, len, j)
  {
    hide Expects, SentRed, IsFor, Only, Keeps, FirstFor;
    var x := FrameOf(p, len, idx);
    var a0, a1 := cables(false, RX_PRIM, x), cables(true, RX_SEC, Dummy(txbuf2, idx));
    AwaitedExpects(cables, ring, idx, txbuf2, x);
    AwaitedMeant(cables, ring, idx, txbuf2, x);
    MeantOnce(idx, j);
    SentRedIs(p, len, idx, cables, txbuf2);
    NoneIsOnly(p.pri.incoming, j);
    NoneIsOnly(p.sec.incoming, j);
    OnlyAppendTwo(p.pri.incoming, j, None, a0.primary, a1.primary);
    OnlyAppendTwo(p.sec.incoming, j, None, a0.secondary, a1.secondary);
    OnlyIsFirst(p.pri.incoming + [a0.primary] + [a1.primary], j, None);
    OnlyIsFirst(p.sec.incoming + [a0.secondary] + [a1.secondary], j, None);
  }

  /** Sending several frames, each with its dummy. */
  function SendAllRed(p: Ports, len: seq<nat>, waits: seq<nat>, cables: Cables, txbuf2: seq<byte>): (q: Ports)
    requires PortsSized(p, len) && SoundCables(cables) && |txbuf2| >= 4
    requires forall i :: 0 <= i < |waits| ==> waits[i] < EC_MAXBUF && FitLen(len[waits[i]])
    ensures PortsSized(q, len)
  {
    if waits == [] then p
    else SentRed(SendAllRed(p, len, waits[..|waits| - 1], cables, txbuf2), len, waits[|waits| - 1], cables, txbuf2)
  }

  function AllAwaited(cables: Cables, txbuf2: seq<byte>, frames: nat -> seq<byte>): nat -> Arrivals
    requires |txbuf2| >= 4
  {
    (idx: nat) => if idx < EC_MAXBUF then Awaited(cables, idx, txbuf2, frames(idx)) else Arrivals(None, None)
  }

  /** Frames ready to be sent, with different indices. */
  ghost predicate AllIdle(p: Ports, len: seq<nat>, waits: seq<nat>, frames: nat -> seq<byte>) {
    && (forall i, j :: 0 <= i < j < |waits| ==> waits[i] != waits[j])
    && forall i :: 0 <= i < |waits| ==> Idle(p, len, waits[i]) && FrameOf(p, len, waits[i]) == frames(waits[i])
  }

  lemma {:induction false} SendAllOut(p: Ports, len: seq<nat>, waits: seq<nat>, cables: Cables, ring: Ring,
                                      txbuf2: seq<byte>, frames: nat -> seq<byte>)
    requires PortsSized(p, len) && Wired(cables, ring) && Proper(txbuf2) && AllIdle(p, len, waits, frames)
    ensures var q := SendAllRed(p, len, waits, cables, txbuf2);
            && AllOut(q, len, waits, ring, AllAwaited(cables, txbuf2, frames), frames)
            && forall j :: j !in waits && Idle(p, len, j) ==>
                 Idle(q, len, j) && FrameOf(q, len, j) == FrameOf(p, len, j)
  {
    hide Out, SentRed, FrameOf, Awaited, FirstFor;
    if waits != [] {
      var n := |waits| - 1;
      var front, last := waits[..n], waits[n];
      SendAllOut(p, len, front, cables, ring, txbuf2, frames);
      var q := SendAllRed(p, len, front, cables, txbuf2);
      var a := AllAwaited(cables, txbuf2, frames);
      SentIsOut(q, len, last, cables, ring, txbuf2);
      forall i | 0 <= i < n ensures Out(SentRed(q, len, last, cables, txbuf2), len, waits[i], ring, a(waits[i]),
        frames(waits[i])) {
        assert front[i] == waits[i];
        StaysOut(q, len, last, cables, ring, txbuf2, waits[i], a(waits[i]), frames(waits[i]));
      }
      forall j | j !in waits && Idle(p, len, j)
        ensures var r := SentRed(q, len, last, cables, txbuf2);
                Idle(r, len, j) && FrameOf(r, len, j) == FrameOf(p, len, j)
      {
        StaysIdle(q, len, last, cables, ring, txbuf2, j);
      }
    }
  }

  /** The same ports, but what is to come is in another order. */
  ghost predicate Shuffled(p: Ports, q: Ports) {
    && q == Ports(p.pri.(incoming := q.pri.incoming), p.sec.(incoming := q.sec.incoming), p.tx)
    && multiset(p.pri.incoming) == multiset(q.pri.incoming) && multiset(p.sec.incoming) == multiset(q.sec.incoming)
  }

  lemma ShuffledOut(p: Ports, q: Ports, len: seq<nat>, idx: nat, ring: Ring, a: Arrivals, frame: seq<byte>)
    requires PortsSized(p, len) && PortsSized(q, len) && ring.Valid() && Shuffled(p, q)
    requires Out(p, len, idx, ring, a, frame)
    ensures Out(q, len, idx, ring, a, frame)
  {
    hide Expects, Only, Holding, Ready, AllSound;
    Reordered(p.pri.incoming, q.pri.incoming, idx, if p.pri.stat[idx] == TX then a.primary else None);
    Reordered(p.sec.incoming, q.sec.incoming, idx, if p.sec.stat[idx] == TX then a.secondary else None);
  }

  /**
   * Neither the order in which frames come back nor a single break is visible.  Frames with
   * different indices are sent, one after the other, over a ring with at most one cable cut;
   * what they bring arrives at the two ports in any order, among whatever else.  Then each waiter
   * gets its own frame as all slaves have processed it, with its work counter, and still has
   * it when all have been served.
   */
  lemma BreakAndOrderAreMasked(p: Ports, len: seq<nat>, waits: seq<nat>, cables: Cables, ring: Ring,
                               txbuf2: seq<byte>, q: Ports, polls: nat, polls2: nat, frames: nat -> seq<byte>)
    requires PortsSized(p, len) && Wired(cables, ring) && Proper(txbuf2) && AllIdle(p, len, waits, frames)
    requires PortsSized(q, len) && Shuffled(SendAllRed(p, len, waits, cables, txbuf2), q)
    requires polls >= |q.pri.incoming| + |waits| && polls >= |q.sec.incoming| + |waits|
    requires polls2 >= |q.sec.incoming| + |waits|
    ensures var (r, wkcs) := WaitAllRed(q, len, waits, cables, polls, polls2);
            AllDone(r, len, waits, wkcs, ring, frames)
  {
    hide Out, Done, Shuffled;
    SendAllOut(p, len, waits, cables, ring, txbuf2, frames);
    var s, a := SendAllRed(p, len, waits, cables, txbuf2), AllAwaited(cables, txbuf2, frames);
    forall i | 0 <= i < |waits| ensures Out(q, len, waits[i], ring, a(waits[i]), frames(waits[i])) {
      ShuffledOut(s, q, len, waits[i], ring, a(waits[i]), frames(waits[i]));
    }
    EachGetsItsOwn(q, len, waits, cables, ring, polls, polls2, a, frames);
  }
}
