/**
 * The frame driver (`ecx_getindex`, `ecx_setbufstat`, `ecx_outframe`,
 * `ecx_inframe`, `ecx_waitinframe`): 16 receive buffers, each with a status, and
 * frames that come back in any order.  A read of the socket never blocks; the
 * sequence `incoming` lists what the reads to come will find, `None` for a read
 * that finds nothing.
 */
module NicDriver {
  import opened Common
  import opened Frames

  datatype BufStat = EMPTY | ALLOC | TX | RCVD | COMPLETE

  const TEMPSIZE: nat := EC_BUFSIZE - ETH_HEADERSIZE

  /**
   * What a read leaves in the temporary buffer: whether it is an EtherCAT frame,
   * the second word of the source address, and the buffer behind the Ethernet
   * header.
   */
  datatype Packet = Packet(ecat: bool, sa1: word, body: seq<byte>)

  /** The length field of the packet stays inside the buffer. */
  predicate Sound(p: Packet) {
    |p.body| == TEMPSIZE && WkcPosition(p.body) + 1 < TEMPSIZE
  }

  /** The index byte of the first datagram. */
  function IndexOf(p: Packet): byte
    requires Sound(p)
  {
    p.body[3]
  }

  /** The packet carries an EtherCAT frame with index `idx`. */
  predicate IsFor(p: Packet, idx: nat) {
    Sound(p) && p.ecat && IndexOf(p) == idx
  }

  /** The work counter the driver finds in a frame. */
  function Wkc(f: seq<byte>): nat
    requires |f| >= 2 && WkcPosition(f) + 1 < |f|
  {
    WordAt(f, WkcPosition(f))
  }

  /** Status, contents and source address of the receive buffers, and what is still to come. */
  datatype Rx = Rx(stat: seq<BufStat>, buf: seq<seq<byte>>, sa: seq<word>, incoming: seq<Option<Packet>>)

  predicate FitLen(n: nat) { ETH_HEADERSIZE + EC_HEADERSIZE + EC_WKCSIZE <= n <= EC_BUFSIZE }

  ghost predicate Ready(stat: BufStat, buf: seq<byte>, n: nat) {
    && |buf| == EC_BUFSIZE
    && (stat == TX ==> FitLen(n))
    && (stat == RCVD ==> WkcPosition(buf) + 1 < EC_BUFSIZE)
  }

  ghost predicate AllSound(incoming: seq<Option<Packet>>) {
    forall i :: 0 <= i < |incoming| && incoming[i].Some? ==> Sound(incoming[i].value)
  }

  ghost predicate Sized(v: Rx, len: seq<nat>) {
    && |v.stat| == |v.buf| == |v.sa| == |len| == EC_MAXBUF
    && (forall i :: 0 <= i < EC_MAXBUF ==> Ready(v.stat[i], v.buf[i], len[i]))
    && AllSound(v.incoming)
  }

  /** Buffer `old` with the first bytes of a frame of `n` bytes, Ethernet header included, copied into it. */
  function Copied(buf: seq<byte>, p: Packet, n: nat): (r: seq<byte>)
    requires |buf| == EC_BUFSIZE && Sound(p) && FitLen(n)
    ensures |r| == EC_BUFSIZE && r[..n - ETH_HEADERSIZE] == p.body[..n - ETH_HEADERSIZE]
    ensures WkcPosition(r) == WkcPosition(p.body)
  {
    p.body[..n - ETH_HEADERSIZE] + buf[n - ETH_HEADERSIZE..]
  }

  function Stored(v: Rx, len: seq<nat>, idx: nat, p: Packet, s: BufStat): (u: Rx)
    requires Sized(v, len) && idx < EC_MAXBUF && Sound(p) && FitLen(len[idx])
    ensures Sized(u, len)
  {
    Rx(v.stat[idx := s], v.buf[idx := Copied(v.buf[idx], p, len[idx])], v.sa[idx := p.sa1], v.incoming)
  }

  /** What one call of `ecx_inframe` does to the buffers, and its result. */
  function Poll(v: Rx, len: seq<nat>, idx: nat): (res: (Rx, int))
    requires Sized(v, len) && idx < EC_MAXBUF && FitLen(len[idx])
    ensures Sized(res.0, len) && res.0.stat[idx] != RCVD
  {
    if v.stat[idx] == RCVD then (v.(stat := v.stat[idx := COMPLETE]), Wkc(v.buf[idx]))
    else if v.incoming == [] then (v, EC_NOFRAME)
    else
      var w := v.(incoming := v.incoming[1..]);
      match v.incoming[0]
      case None => (w, EC_NOFRAME)
      case Some(p) =>
        if !p.ecat then (w, EC_OTHERFRAME)
        else if IndexOf(p) == idx then
          var u := Stored(w, len, idx, p, COMPLETE);
          (u, Wkc(u.buf[idx]))
        else if IndexOf(p) < EC_MAXBUF && v.stat[IndexOf(p)] == TX then
          (Stored(w, len, IndexOf(p), p, RCVD), EC_OTHERFRAME)
        else (w, EC_OTHERFRAME)
  }

  /** The result of a read: the work counter, -2 when something else has come, -1 when nothing has. */
  lemma PollResult(v: Rx, len: seq<nat>, idx: nat)
    requires Sized(v, len) && idx < EC_MAXBUF && FitLen(len[idx]) && v.stat[idx] != RCVD
    ensures Poll(v, len, idx).1 == if v.incoming == [] || v.incoming[0].None? then -1
                                   else if !IsFor(v.incoming[0].value, idx) then -2
                                   else Wkc(Poll(v, len, idx).0.buf[idx])
  {}

  /** The loop of `ecx_waitinframe_red` without redundancy: at least one read, `polls` more until the timer expires. */
  function Wait(v: Rx, len: seq<nat>, idx: nat, polls: nat): (res: (Rx, int))
    requires Sized(v, len) && idx < EC_MAXBUF && FitLen(len[idx])
    ensures Sized(res.0, len) && res.0.stat[idx] != RCVD
    decreases polls
  {
    var (u, r) := Poll(v, len, idx);
    if r > EC_NOFRAME || polls == 0 then (u, r) else Wait(u, len, idx, polls - 1)
  }

  /** First packet for `idx` among those to come. */
  function FirstFor(incoming: seq<Option<Packet>>, idx: nat): Option<Packet> {
    if incoming == [] then None
    else if incoming[0].Some? && IsFor(incoming[0].value, idx) then incoming[0]
    else FirstFor(incoming[1..], idx)
  }

  /** The buffer holds the frame the packet brought. */
  ghost predicate Holding(buf: seq<byte>, p: Packet, n: nat) {
    && FitLen(n) && |buf| == EC_BUFSIZE && Sound(p)
    && buf[..n - ETH_HEADERSIZE] == p.body[..n - ETH_HEADERSIZE]
  }

  /** The packet `p` is the reply to come for `idx`, or is stored for it. */
  ghost predicate Awaits(v: Rx, len: seq<nat>, idx: nat, p: Packet)
    requires Sized(v, len) && idx < EC_MAXBUF
  {
    || (v.stat[idx] == TX && FirstFor(v.incoming, idx) == Some(p))
    || (v.stat[idx] == RCVD && Holding(v.buf[idx], p, len[idx]) && v.sa[idx] == p.sa1)
  }

  /** The reply `p` has been picked up, with work counter `wkc`. */
  ghost predicate Got(v: Rx, len: seq<nat>, idx: nat, p: Packet)
    requires Sized(v, len) && idx < EC_MAXBUF
  {
    v.stat[idx] == COMPLETE && Holding(v.buf[idx], p, len[idx]) && v.sa[idx] == p.sa1
  }

  /** The work counter of the frame lies among the bytes copied. */
  ghost predicate Intact(p: Packet, n: nat) {
    Sound(p) && FitLen(n) && WkcPosition(p.body) + EC_WKCSIZE <= n - ETH_HEADERSIZE
  }

  lemma SameWkc(buf: seq<byte>, p: Packet, n: nat)
    requires Holding(buf, p, n) && Intact(p, n)
    ensures WkcPosition(buf) == WkcPosition(p.body) && Wkc(buf) == Wkc(p.body)
  {
    var m := n - ETH_HEADERSIZE;
    var l := WkcPosition(p.body);
    assert buf[0] == buf[..m][0] && buf[1] == buf[..m][1] && p.body[0] == p.body[..m][0] && p.body[1] == p.body[..m][1];
    assert buf[l] == buf[..m][l] && buf[l + 1] == buf[..m][l + 1] && p.body[l] == p.body[..m][l]
           && p.body[l + 1] == p.body[..m][l + 1];
  }

  /** One read: either the reply is picked up, with its own work counter, or it is still to come. */
  lemma PollGives(v: Rx, len: seq<nat>, idx: nat, p: Packet)
    requires Sized(v, len) && idx < EC_MAXBUF && Intact(p, len[idx]) && Awaits(v, len, idx, p)
    ensures var (u, r) := Poll(v, len, idx);
            if r > EC_NOFRAME then Got(u, len, idx, p) && r == Wkc(p.body)
            else Awaits(u, len, idx, p) && |u.incoming| < |v.incoming|
  {
    var (u, r) := Poll(v, len, idx);
    if r > EC_NOFRAME { SameWkc(u.buf[idx], p, len[idx]); }
  }

  /** A read for one frame does not lose the reply to another one. */
  lemma PollKeeps(v: Rx, len: seq<nat>, idx: nat, j: nat, p: Packet)
    requires Sized(v, len) && idx < EC_MAXBUF && FitLen(len[idx]) && j < EC_MAXBUF && j != idx
    ensures Awaits(v, len, j, p) ==> Awaits(Poll(v, len, idx).0, len, j, p)
    ensures Got(v, len, j, p) ==> Got(Poll(v, len, idx).0, len, j, p)
  {}

  lemma {:induction false} WaitGives(v: Rx, len: seq<nat>, idx: nat, polls: nat, p: Packet)
    requires Sized(v, len) && idx < EC_MAXBUF && Intact(p, len[idx]) && Awaits(v, len, idx, p)
    requires polls >= |v.incoming|
    ensures var (u, r) := Wait(v, len, idx, polls);
            Got(u, len, idx, p) && r == Wkc(p.body) && |u.incoming| <= |v.incoming|
    decreases polls
  {
    PollGives(v, len, idx, p);
    var (u, r) := Poll(v, len, idx);
    if r <= EC_NOFRAME { WaitGives(u, len, idx, polls - 1, p); }
  }

  lemma {:induction false} WaitKeeps(v: Rx, len: seq<nat>, idx: nat, polls: nat, j: nat, p: Packet)
    requires Sized(v, len) && idx < EC_MAXBUF && FitLen(len[idx]) && j < EC_MAXBUF && j != idx
    ensures Awaits(v, len, j, p) ==> Awaits(Wait(v, len, idx, polls).0, len, j, p)
    ensures Got(v, len, j, p) ==> Got(Wait(v, len, idx, polls).0, len, j, p)
    decreases polls
  {
    PollKeeps(v, len, idx, j, p);
    var (u, r) := Poll(v, len, idx);
    if r <= EC_NOFRAME && polls > 0 { WaitKeeps(u, len, idx, polls - 1, j, p); }
  }

  /** Waiting for several frames, one after the other: final buffers, and the work counters returned. */
  function WaitAll(v: Rx, len: seq<nat>, waits: seq<nat>, polls: nat): (res: (Rx, seq<int>))
    requires Sized(v, len) && forall i :: 0 <= i < |waits| ==> waits[i] < EC_MAXBUF && FitLen(len[waits[i]])
    ensures Sized(res.0, len) && |res.1| == |waits|
  {
    if waits == [] then (v, [])
    else
      var (u, wkcs) := WaitAll(v, len, waits[..|waits| - 1], polls);
      var (w, r) := Wait(u, len, waits[|waits| - 1], polls);
      (w, wkcs + [r])
  }

  /** The frames waited for: different ones, each with a reply to come. */
  ghost predicate Outstanding(v: Rx, len: seq<nat>, waits: seq<nat>, reply: nat -> Packet)
    requires Sized(v, len)
  {
    && (forall i :: 0 <= i < |waits| ==> waits[i] < EC_MAXBUF)
    && (forall i, j :: 0 <= i < j < |waits| ==> waits[i] != waits[j])
    && (forall i :: 0 <= i < |waits| ==>
          Intact(reply(waits[i]), len[waits[i]]) && Awaits(v, len, waits[i], reply(waits[i])))
  }

  /** Waiting leaves less to read. */
  lemma {:induction false} WaitReads(v: Rx, len: seq<nat>, idx: nat, polls: nat)
    requires Sized(v, len) && idx < EC_MAXBUF && FitLen(len[idx])
    ensures |Wait(v, len, idx, polls).0.incoming| <= |v.incoming|
    decreases polls
  {
    var (u, r) := Poll(v, len, idx);
    if r <= EC_NOFRAME && polls > 0 { WaitReads(u, len, idx, polls - 1); }
  }

  lemma {:induction false} WaitAllKeeps(v: Rx, len: seq<nat>, waits: seq<nat>, polls: nat, j: nat, p: Packet)
    requires Sized(v, len) && j < EC_MAXBUF
    requires forall i :: 0 <= i < |waits| ==> waits[i] < EC_MAXBUF && FitLen(len[waits[i]]) && waits[i] != j
    requires Awaits(v, len, j, p)
    ensures Awaits(WaitAll(v, len, waits, polls).0, len, j, p)
    ensures |WaitAll(v, len, waits, polls).0.incoming| <= |v.incoming|
  {
    if waits != [] {
      var front, last := waits[..|waits| - 1], waits[|waits| - 1];
      WaitAllKeeps(v, len, front, polls, j, p);
      WaitKeeps(WaitAll(v, len, front, polls).0, len, last, polls, j, p);
      WaitReads(WaitAll(v, len, front, polls).0, len, last, polls);
    }
  }

  /** The frames of `waits` have been picked up. */
  ghost predicate AllGot(v: Rx, len: seq<nat>, waits: seq<nat>, reply: nat -> Packet)
    requires Sized(v, len)
  {
    forall i :: 0 <= i < |waits| ==> waits[i] < EC_MAXBUF && Got(v, len, waits[i], reply(waits[i]))
  }

  lemma WaitKeepsAll(v: Rx, len: seq<nat>, idx: nat, polls: nat, waits: seq<nat>, reply: nat -> Packet)
    requires Sized(v, len) && idx < EC_MAXBUF && FitLen(len[idx])
    requires AllGot(v, len, waits, reply) && idx !in waits
    ensures AllGot(Wait(v, len, idx, polls).0, len, waits, reply)
  {
    forall i | 0 <= i < |waits| ensures Got(Wait(v, len, idx, polls).0, len, waits[i], reply(waits[i])) {
      WaitKeeps(v, len, idx, polls, waits[i], reply(waits[i]));
    }
  }

  /** The work counters of `waits` are those of the replies. */
  ghost predicate OwnCounters(wkcs: seq<int>, waits: seq<nat>, reply: nat -> Packet) {
    && |wkcs| == |waits|
    && forall i :: 0 <= i < |waits| ==> Sound(reply(waits[i])) && wkcs[i] == Wkc(reply(waits[i]).body)
  }

  lemma ServeLast(u: Rx, len: seq<nat>, front: seq<nat>, last: nat, wkcs: seq<int>, polls: nat, reply: nat -> Packet)
    requires Sized(u, len) && AllGot(u, len, front, reply) && OwnCounters(wkcs, front, reply)
    requires last < EC_MAXBUF && last !in front && polls >= |u.incoming|
    requires Intact(reply(last), len[last]) && Awaits(u, len, last, reply(last))
    ensures var (w, r) := Wait(u, len, last, polls);
            AllGot(w, len, front + [last], reply) && OwnCounters(wkcs + [r], front + [last], reply)
  {
    WaitGives(u, len, last, polls, reply(last));
    WaitKeepsAll(u, len, last, polls, front, reply);
  }

  /**
   * Reordering is invisible.  Whatever the order in which the replies arrive,
   * mixed with whatever else, each waiter gets its own frame and work counter,
   * and still has its frame when all have been served.
   */
  lemma {:induction false} ReorderingIsInvisible(v: Rx, len: seq<nat>, waits: seq<nat>, polls: nat,
                                                 reply: nat -> Packet)
    requires Sized(v, len) && Outstanding(v, len, waits, reply) && polls >= |v.incoming|
    ensures var (u, wkcs) := WaitAll(v, len, waits, polls);
            AllGot(u, len, waits, reply) && OwnCounters(wkcs, waits, reply)
  {
    hide Wait, Poll, Ready, Got, Awaits, Sound;
    if waits != [] {
      var n := |waits| - 1;
      var front, last := waits[..n], waits[n];
      ReorderingIsInvisible(v, len, front, polls, reply);
      WaitAllKeeps(v, len, front, polls, last, reply(last));
      var (u, wkcs) := WaitAll(v, len, front, polls);
      ServeLast(u, len, front, last, wkcs, polls, reply);
      assert front + [last] == waits;
    }
  }

  /** Replies that are on their way, in any order, are outstanding when nothing else carries their index. */
  lemma {:induction false} OnTheWay(incoming: seq<Option<Packet>>, idx: nat, p: Packet)
    requires Some(p) in incoming && IsFor(p, idx)
    requires forall i :: 0 <= i < |incoming| && incoming[i].Some? && IsFor(incoming[i].value, idx) ==>
               incoming[i].value == p
    ensures FirstFor(incoming, idx) == Some(p)
  {
    if incoming[0].None? || !IsFor(incoming[0].value, idx) {
      OnTheWay(incoming[1..], idx, p);
    }
  }

  /** Number of reads until the first packet for `idx`. */
  function ArrivesAt(incoming: seq<Option<Packet>>, idx: nat): (k: nat)
    ensures k <= |incoming|
  {
    if incoming == [] then 0
    else if incoming[0].Some? && IsFor(incoming[0].value, idx) then 0
    else 1 + ArrivesAt(incoming[1..], idx)
  }

  /** One read succeeds exactly when the packet is the next to come, and leaves the rest as it is. */
  lemma PollSucceeds(v: Rx, len: seq<nat>, idx: nat)
    requires Sized(v, len) && idx < EC_MAXBUF && FitLen(len[idx]) && v.stat[idx] != RCVD
    ensures var (u, r) := Poll(v, len, idx);
            && u.stat[idx] != RCVD && u.incoming == (if v.incoming == [] then [] else v.incoming[1..])
            && (r > EC_NOFRAME <==> v.incoming != [] && ArrivesAt(v.incoming, idx) == 0)
            && (r > EC_NOFRAME ==>
                  && FirstFor(v.incoming, idx).Some?
                  && Got(u, len, idx, FirstFor(v.incoming, idx).value) && r == Wkc(u.buf[idx]))
            && (r <= EC_NOFRAME && v.incoming != [] ==>
                  && FirstFor(v.incoming, idx) == FirstFor(u.incoming, idx)
                  && ArrivesAt(v.incoming, idx) == 1 + ArrivesAt(u.incoming, idx))
  {
    assert v.incoming != [] && v.incoming[0].Some? ==> Sound(v.incoming[0].value);
  }

  /** Waiting succeeds exactly when the packet comes in time, and then gives that packet. */
  lemma {:induction false} WaitSucceeds(v: Rx, len: seq<nat>, idx: nat, polls: nat)
    requires Sized(v, len) && idx < EC_MAXBUF && FitLen(len[idx]) && v.stat[idx] != RCVD
    ensures var (u, r) := Wait(v, len, idx, polls);
            && (r > EC_NOFRAME <==> ArrivesAt(v.incoming, idx) < |v.incoming| && ArrivesAt(v.incoming, idx) <= polls)
            && (r > EC_NOFRAME ==>
                  && FirstFor(v.incoming, idx).Some?
                  && Got(u, len, idx, FirstFor(v.incoming, idx).value) && r == Wkc(u.buf[idx])
                  && u.incoming == v.incoming[ArrivesAt(v.incoming, idx) + 1..])
    decreases polls
  {
    hide Poll, Got, Ready, FirstFor, Wkc;
    var (u, r) := Poll(v, len, idx);
    PollSucceeds(v, len, idx);
    if r <= EC_NOFRAME && polls > 0 {
      WaitSucceeds(u, len, idx, polls - 1);
    }
  }

  /** Waiting in vain leaves what it has not read, and has read nothing for `idx`. */
  lemma {:induction false} WaitInVain(v: Rx, len: seq<nat>, idx: nat, polls: nat)
    requires Sized(v, len) && idx < EC_MAXBUF && FitLen(len[idx]) && v.stat[idx] != RCVD
    requires Wait(v, len, idx, polls).1 <= EC_NOFRAME
    ensures var d := if polls + 1 < |v.incoming| then polls + 1 else |v.incoming|;
            Wait(v, len, idx, polls).0.incoming == v.incoming[d..] && FirstFor(v.incoming[..d], idx) == None
    decreases polls
  {
    hide Poll, Got, Ready, Wkc;
    PollSucceeds(v, len, idx);
    var (u, r) := Poll(v, len, idx);
    if v.incoming != [] {
      assert v.incoming[..1][1..] == [];
      if polls > 0 {
        WaitInVain(u, len, idx, polls - 1);
        var d := if polls + 1 < |v.incoming| then polls + 1 else |v.incoming|;
        assert v.incoming[..d][1..] == v.incoming[1..][..d - 1];
        assert v.incoming[1..][d - 1..] == v.incoming[d..];
      }
    } else if polls > 0 {
      WaitInVain(u, len, idx, polls - 1);
    }
  }

  /** Nothing for `idx` in the first part: the second part decides. */
  lemma {:induction false} QuietPrefix(a: seq<Option<Packet>>, b: seq<Option<Packet>>, idx: nat)
    requires FirstFor(a, idx) == None
    ensures FirstFor(a + b, idx) == FirstFor(b, idx) && ArrivesAt(a + b, idx) == |a| + ArrivesAt(b, idx)
  {
    if a == [] {
      assert a + b == b;
    } else {
      assert (a + b)[1..] == a[1..] + b;
      QuietPrefix(a[1..], b, idx);
    }
  }

  /** A packet for `idx` in the first part is the first one. */
  lemma {:induction false} FirstPart(a: seq<Option<Packet>>, b: seq<Option<Packet>>, idx: nat)
    requires ArrivesAt(a, idx) < |a|
    ensures ArrivesAt(a + b, idx) == ArrivesAt(a, idx)
  {
    assert (a + b)[1..] == a[1..] + b;
    if !(a[0].Some? && IsFor(a[0].value, idx)) { FirstPart(a[1..], b, idx); }
  }

  /** Buffers other than `idx` keep their status, except that a frame under way may have come in. */
  ghost predicate Kept(before: seq<BufStat>, now: seq<BufStat>, idx: nat) {
    && |now| == |before|
    && forall j :: 0 <= j < |now| && j != idx ==> now[j] == before[j] || (before[j] == TX && now[j] == RCVD)
  }

  lemma KeptTrans(a: seq<BufStat>, b: seq<BufStat>, c: seq<BufStat>, idx: nat)
    requires Kept(a, b, idx) && Kept(b, c, idx)
    ensures Kept(a, c, idx)
  {}

  lemma {:induction false} WaitKeepsStatus(v: Rx, len: seq<nat>, idx: nat, polls: nat)
    requires Sized(v, len) && idx < EC_MAXBUF && FitLen(len[idx])
    ensures Kept(v.stat, Wait(v, len, idx, polls).0.stat, idx)
    decreases polls
  {
    var (u, r) := Poll(v, len, idx);
    if r <= EC_NOFRAME && polls > 0 { WaitKeepsStatus(u, len, idx, polls - 1); }
  }
}
