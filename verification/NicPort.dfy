/**
 * The frame driver in place: the arrays of the two receive stacks, the transmit
 * buffers, and the methods that work on them.
 */
module NicPort {
  import opened Common
  import opened Sequences
  import opened Frames
  import opened NicDriver
  import opened Redundancy

  /** Receive side of one socket. */
  class Stack {
    const rxbufstat: array<BufStat>
    const rxbuf: array<seq<byte>>
    const rxsa: array<word>
    var incoming: seq<Option<Packet>>

    ghost predicate Valid()
      reads this
    {
      rxbufstat.Length == EC_MAXBUF && rxbuf.Length == EC_MAXBUF && rxsa.Length == EC_MAXBUF
    }

    ghost function View(): Rx
      reads this, rxbufstat, rxbuf, rxsa
    {
      Rx(rxbufstat[..], rxbuf[..], rxsa[..], incoming)
    }

    /** Every buffer free. */
    constructor (incoming: seq<Option<Packet>>)
      ensures Valid() && fresh(rxbufstat) && fresh(rxbuf) && fresh(rxsa) && this.incoming == incoming
      ensures forall i :: 0 <= i < EC_MAXBUF ==> rxbufstat[i] == EMPTY && |rxbuf[i]| == EC_BUFSIZE
    {
      rxbufstat := new BufStat[EC_MAXBUF](_ => EMPTY);
      rxbuf := new seq<byte>[EC_MAXBUF](_ => Repeat<byte>(0, EC_BUFSIZE));
      rxsa := new word[EC_MAXBUF](_ => 0);
      this.incoming := incoming;
    }

    /** A read that does not block. */
    method RecvPkt() returns (p: Option<Packet>)
      modifies this`incoming
      ensures p == (if old(incoming) == [] then None else old(incoming)[0])
      ensures incoming == if old(incoming) == [] then [] else old(incoming)[1..]
    {
      p := None;
      if incoming != [] {
        p := incoming[0];
        incoming := incoming[1..];
      }
    }

    /** The packet goes to buffer `idx`. */
    method Store(idx: nat, p: Packet, len: seq<nat>, s: BufStat)
      requires Valid() && Sized(View(), len) && idx < EC_MAXBUF && Sound(p) && FitLen(len[idx])
      modifies rxbufstat, rxbuf, rxsa
      ensures View() == Stored(old(View()), len, idx, p, s)
    {
      rxbuf[idx] := Copied(rxbuf[idx], p, len[idx]);
      rxbufstat[idx] := s;
      rxsa[idx] := p.sa1;
    }

    /** Looks for the frame `idx`: in its buffer, or in what the next read brings. */
    method InFrame(idx: nat, len: seq<nat>) returns (rval: int)
      requires Valid() && Sized(View(), len) && idx < EC_MAXBUF && FitLen(len[idx])
      modifies this`incoming, rxbufstat, rxbuf, rxsa
      ensures Sized(View(), len) && (View(), rval) == Poll(old(View()), len, idx)
    {
      rval := EC_NOFRAME;
      if rxbufstat[idx] == RCVD {
        rval := Wkc(rxbuf[idx]);
        rxbufstat[idx] := COMPLETE;
      } else {
        var r := RecvPkt();
        if r.Some? {
          rval := EC_OTHERFRAME;
          var p := r.value;
          if p.ecat {
            var idxf := IndexOf(p);
            if idxf == idx {
              Store(idx, p, len, COMPLETE);
              rval := Wkc(rxbuf[idx]);
            } else if idxf < EC_MAXBUF && rxbufstat[idxf] == TX {
              Store(idxf, p, len, RCVD);
            }
          }
        }
      }
    }

    /** One turn of a waiting loop: reads only if nothing is in yet. */
    method TakeTurn(idx: nat, len: seq<nat>, wkc: int) returns (r: int)
      requires Valid() && Sized(View(), len) && idx < EC_MAXBUF && FitLen(len[idx])
      modifies this`incoming, rxbufstat, rxbuf, rxsa
      ensures Sized(View(), len) && (View(), r) == Turn(old(View()), len, idx, wkc)
    {
      r := wkc;
      if r <= EC_NOFRAME { r := InFrame(idx, len); }
    }

    /** Waits for frame `idx`: one read, and `polls` more until the timer expires. */
    method WaitFrame(idx: nat, len: seq<nat>, polls: nat) returns (wkc: int)
      requires Valid() && Sized(View(), len) && idx < EC_MAXBUF && FitLen(len[idx])
      modifies this`incoming, rxbufstat, rxbuf, rxsa
      ensures Sized(View(), len) && (View(), wkc) == Wait(old(View()), len, idx, polls)
    {
      ghost var v := View();
      var left := polls;
      wkc := InFrame(idx, len);
      while wkc <= EC_NOFRAME && left > 0
        invariant Sized(View(), len)
        invariant Wait(v, len, idx, polls) ==
                  if wkc > EC_NOFRAME || left == 0 then (View(), wkc) else Wait(View(), len, idx, left - 1)
        decreases left
      {
        left := left - 1;
        wkc := InFrame(idx, len);
      }
    }
  }

  /** The waiting loop of the redundant mode, over both stacks. */
  method WaitForBoth(pri: Stack, sec: Stack, idx: nat, len: seq<nat>, polls: nat) returns (wkc: int, wkc2: int)
    requires pri.Valid() && sec.Valid() && pri != sec
    requires pri.rxbufstat != sec.rxbufstat && pri.rxbuf != sec.rxbuf && pri.rxsa != sec.rxsa
    requires Sized(pri.View(), len) && Sized(sec.View(), len) && idx < EC_MAXBUF && FitLen(len[idx])
    modifies pri`incoming, pri.rxbufstat, pri.rxbuf, pri.rxsa, sec`incoming, sec.rxbufstat, sec.rxbuf, sec.rxsa
    ensures Sized(pri.View(), len) && Sized(sec.View(), len)
    ensures Waited(pri.View(), sec.View(), wkc, wkc2)
            == WaitBoth(old(pri.View()), old(sec.View()), len, idx, EC_NOFRAME, EC_NOFRAME, polls)
  {
    ghost var v, s := pri.View(), sec.View();
    var left := polls;
    wkc := pri.TakeTurn(idx, len, EC_NOFRAME);
    wkc2 := sec.TakeTurn(idx, len, EC_NOFRAME);
    while (wkc <= EC_NOFRAME || wkc2 <= EC_NOFRAME) && left > 0
      invariant Sized(pri.View(), len) && Sized(sec.View(), len)
      invariant WaitBoth(v, s, len, idx, EC_NOFRAME, EC_NOFRAME, polls) ==
                if (wkc <= EC_NOFRAME || wkc2 <= EC_NOFRAME) && left > 0
                then WaitBoth(pri.View(), sec.View(), len, idx, wkc, wkc2, left - 1)
                else Waited(pri.View(), sec.View(), wkc, wkc2)
      decreases left
    {
      left := left - 1;
      wkc := pri.TakeTurn(idx, len, wkc);
      wkc2 := sec.TakeTurn(idx, len, wkc2);
    }
  }

  /** The `k`-th index behind `last`, going round. */
  function Following(last: nat, k: nat): (i: nat)
    ensures i < EC_MAXBUF
  {
    (last + k) % EC_MAXBUF
  }

  lemma FollowingNext(last: nat, k: nat)
    ensures Following(last, k + 1) == if Following(last, k) + 1 >= EC_MAXBUF then 0 else Following(last, k) + 1
    ensures last < EC_MAXBUF ==> Following(last, 0) == last
  {}

  /** None of the `n - 1` buffers behind `last` is free. */
  predicate FirstFree(stat: seq<BufStat>, last: nat, n: nat)
    requires |stat| == EC_MAXBUF
  {
    forall k {:trigger Following(last, k)} :: 1 <= k < n ==> stat[Following(last, k)] != EMPTY
  }

  lemma AllBusy(stat: seq<BufStat>, last: nat)
    requires |stat| == EC_MAXBUF && last < EC_MAXBUF && FirstFree(stat, last, EC_MAXBUF + 1)
    ensures forall j :: 0 <= j < EC_MAXBUF ==> stat[j] != EMPTY
  {
    forall j | 0 <= j < EC_MAXBUF ensures stat[j] != EMPTY {
      var k := if j > last then j - last else j - last + EC_MAXBUF;
      assert Following(last, k) == j;
    }
  }

  /** The ports with one status changed; without redundancy the secondary stack is left alone. */
  function WithStat(p: Ports, redundant: bool, idx: nat, s: BufStat): Ports
    requires idx < |p.pri.stat| && idx < |p.sec.stat|
  {
    var sec := if redundant then p.sec.(stat := p.sec.stat[idx := s]) else p.sec;
    p.(pri := p.pri.(stat := p.pri.stat[idx := s]), sec := sec)
  }

  /** One round of sending and waiting, when the sockets take what is sent. */
  function Try(p: Ports, len: seq<nat>, idx: nat, cables: Cables, dummy: seq<byte>, redundant: bool, polls: nat,
               polls2: nat): (a: Answer)
    requires PortsSized(p, len) && SoundCables(cables) && idx < EC_MAXBUF && FitLen(len[idx]) && |dummy| >= 4
    ensures PortsSized(a.ports, len)
  {
    if redundant then WaitRed(SentRed(p, len, idx, cables, dummy), len, idx, cables, polls, polls2, true)
    else WaitAlone(Sent(p, len, idx, cables, false, RX_PRIM, FrameOf(p, len, idx)), len, idx, polls)
  }

  /** Round after round until an answer comes, `more` times at most after the first. */
  function Tries(p: Ports, len: seq<nat>, idx: nat, cables: Cables, dummy: seq<byte>, redundant: bool, polls: nat,
                 polls2: nat, more: nat): (a: Answer)
    requires PortsSized(p, len) && SoundCables(cables) && idx < EC_MAXBUF && FitLen(len[idx]) && |dummy| >= 4
    ensures PortsSized(a.ports, len)
    decreases more
  {
    var a := Try(p, len, idx, cables, dummy, redundant, polls, polls2);
    if a.wkc > EC_NOFRAME || more == 0 then a
    else Tries(a.ports, len, idx, cables, dummy, redundant, polls, polls2, more - 1)
  }

  /**
   * The rounds of a run: each starts from what the one before has left, none but the last has brought
   * an answer, and the last one has or is the last one allowed.
   */
  ghost predicate AreRounds(rounds: seq<Answer>, p: Ports, len: seq<nat>, idx: nat, cables: Cables, dummy: seq<byte>,
                            redundant: bool, polls: nat, polls2: nat, more: nat)
    requires PortsSized(p, len) && SoundCables(cables) && idx < EC_MAXBUF && FitLen(len[idx]) && |dummy| >= 4
  {
    && 1 <= |rounds| <= more + 1
    && (forall i :: 0 <= i < |rounds| ==> PortsSized(rounds[i].ports, len))
    && rounds[0] == Try(p, len, idx, cables, dummy, redundant, polls, polls2)
    && (forall i :: 1 <= i < |rounds| ==>
          rounds[i] == Try(rounds[i - 1].ports, len, idx, cables, dummy, redundant, polls, polls2))
    && (forall i :: 0 <= i < |rounds| - 1 ==> rounds[i].wkc <= EC_NOFRAME)
    && (rounds[|rounds| - 1].wkc > EC_NOFRAME || |rounds| == more + 1)
  }

  /** Trying is such a run, and its outcome that of the last round. */
  lemma {:induction false} TriesAreRounds(p: Ports, len: seq<nat>, idx: nat, cables: Cables, dummy: seq<byte>,
                                          redundant: bool, polls: nat, polls2: nat, more: nat)
    returns (rounds: seq<Answer>)
    requires PortsSized(p, len) && SoundCables(cables) && idx < EC_MAXBUF && FitLen(len[idx]) && |dummy| >= 4
    ensures AreRounds(rounds, p, len, idx, cables, dummy, redundant, polls, polls2, more)
    ensures Tries(p, len, idx, cables, dummy, redundant, polls, polls2, more) == rounds[|rounds| - 1]
    decreases more
  {
    hide Try, PortsSized, SoundCables, FitLen;
    var a := Try(p, len, idx, cables, dummy, redundant, polls, polls2);
    if a.wkc > EC_NOFRAME || more == 0 {
      rounds := [a];
    } else {
      var rest := TriesAreRounds(a.ports, len, idx, cables, dummy, redundant, polls, polls2, more - 1);
      rounds := [a] + rest;
      assert forall i :: 1 <= i < |rounds| ==> rounds[i] == rest[i - 1];
      forall i | 1 <= i < |rounds|
        ensures rounds[i] == Try(rounds[i - 1].ports, len, idx, cables, dummy, redundant, polls, polls2)
      {
        assert i > 1 ==> rounds[i - 1] == rest[i - 2];
      }
    }
  }

  /** Reads in `more` rounds after the first. */
  function Reads(polls: nat, more: nat): nat {
    (more + 1) * (polls + 1)
  }

  lemma ReadsStep(polls: nat, more: nat)
    ensures Reads(polls, 0) == polls + 1 <= Reads(polls, more)
    ensures more > 0 ==> Reads(polls, more) == polls + 1 + Reads(polls, more - 1)
  {
    assert (more + 1) * (polls + 1) == more * (polls + 1) + (polls + 1);
  }

  /**
   * When `x` comes in for every round, behind what was to come before, the first packet for `idx` is
   * among the reads of `more` rounds after the first.
   */
  predicate InTime(incoming: seq<Option<Packet>>, x: Option<Packet>, idx: nat, polls: nat, more: nat) {
    var all := incoming + Repeat(x, more + 1);
    ArrivesAt(all, idx) < |all| && ArrivesAt(all, idx) < Reads(polls, more)
  }

  lemma RepeatFirst<T>(x: T, n: nat)
    ensures Repeat(x, n + 1) == [x] + Repeat(x, n)
  {}

  lemma {:induction false} NeverComes(x: Option<Packet>, idx: nat, n: nat)
    requires !(x.Some? && IsFor(x.value, idx))
    ensures ArrivesAt(Repeat(x, n), idx) == n
  {
    if n > 0 {
      RepeatFirst(x, n - 1);
      assert ([x] + Repeat(x, n - 1))[1..] == Repeat(x, n - 1);
      NeverComes(x, idx, n - 1);
    }
  }

  /** A round that succeeds. */
  lemma InTimeNow(incoming: seq<Option<Packet>>, x: Option<Packet>, idx: nat, polls: nat, more: nat)
    requires var v := incoming + [x]; ArrivesAt(v, idx) < |v| && ArrivesAt(v, idx) <= polls
    ensures InTime(incoming, x, idx, polls, more)
  {
    hide Reads;
    var v := incoming + [x];
    RepeatFirst(x, more);
    assert incoming + Repeat(x, more + 1) == v + Repeat(x, more);
    FirstPart(v, Repeat(x, more), idx);
    ReadsStep(polls, more);
  }

  lemma {:induction false} LastNotMeant(v: seq<Option<Packet>>, idx: nat)
    requires v != [] && FirstFor(v, idx) == None
    ensures var x := v[|v| - 1]; !(x.Some? && IsFor(x.value, idx))
  {
    if |v| > 1 { LastNotMeant(v[1..], idx); }
  }

  /** One that does not: what it has left and the rounds to come decide. */
  lemma InTimeLater(incoming: seq<Option<Packet>>, x: Option<Packet>, idx: nat, polls: nat, more: nat)
    requires more > 0
    requires var v := incoming + [x];
             var d := if polls + 1 < |v| then polls + 1 else |v|;
             FirstFor(v[..d], idx) == None
    ensures var v := incoming + [x];
            var d := if polls + 1 < |v| then polls + 1 else |v|;
            InTime(incoming, x, idx, polls, more) <==> InTime(v[d..], x, idx, polls, more - 1)
  {
    hide Reads, ArrivesAt, FirstFor, IsFor;
    var v := incoming + [x];
    var d := if polls + 1 < |v| then polls + 1 else |v|;
    var rest := v[d..] + Repeat(x, more);
    RepeatFirst(x, more);
    assert incoming + Repeat(x, more + 1) == v[..d] + rest;
    QuietPrefix(v[..d], rest, idx);
    ReadsStep(polls, more);
    if d < polls + 1 {
      assert v[..d] == v && v[d..] == [] && rest == Repeat(x, more);
      LastNotMeant(v, idx);
      NeverComes(x, idx, more);
    }
  }

  lemma InTimeAtOnce(incoming: seq<Option<Packet>>, x: Option<Packet>, idx: nat, polls: nat)
    ensures var v := incoming + [x];
            InTime(incoming, x, idx, polls, 0) <==> ArrivesAt(v, idx) < |v| && ArrivesAt(v, idx) <= polls
  {
    RepeatFirst(x, 0);
    ReadsStep(polls, 0);
    assert Repeat(x, 1) == [x];
  }

  /**
   * Without redundancy trying succeeds exactly when the first packet for `idx`, counting those that the
   * rounds bring, arrives within the reads of all rounds.
   */
  lemma {:induction false} TriesInTime(p: Ports, len: seq<nat>, idx: nat, cables: Cables, dummy: seq<byte>, polls: nat,
                                       polls2: nat, more: nat)
    requires PortsSized(p, len) && SoundCables(cables) && idx < EC_MAXBUF && FitLen(len[idx]) && |dummy| >= 4
    ensures Tries(p, len, idx, cables, dummy, false, polls, polls2, more).wkc > EC_NOFRAME
            <==> InTime(p.pri.incoming, cables(false, RX_PRIM, FrameOf(p, len, idx)).primary, idx, polls, more)
    decreases more
  {
    hide InTime, Wait, SoundCables, Ready;
    var x := cables(false, RX_PRIM, FrameOf(p, len, idx)).primary;
    var q := Sent(p, len, idx, cables, false, RX_PRIM, FrameOf(p, len, idx));
    var v := p.pri.incoming + [x];
    var a := Try(p, len, idx, cables, dummy, false, polls, polls2);
    WaitSucceeds(q.pri, len, idx, polls);
    if a.wkc > EC_NOFRAME {
      InTimeNow(p.pri.incoming, x, idx, polls, more);
    } else {
      WaitInVain(q.pri, len, idx, polls);
      if more == 0 {
        InTimeAtOnce(p.pri.incoming, x, idx, polls);
      } else {
        InTimeLater(p.pri.incoming, x, idx, polls, more);
        TriesInTime(a.ports, len, idx, cables, dummy, polls, polls2, more - 1);
      }
    }
  }

  /** The index in the dummy frame is written anew each time. */
  lemma SameDummy(p: Ports, len: seq<nat>, idx: nat, cables: Cables, dummy: seq<byte>, redundant: bool, polls: nat,
                  polls2: nat)
    requires PortsSized(p, len) && SoundCables(cables) && idx < EC_MAXBUF && FitLen(len[idx]) && |dummy| >= 4
    ensures Try(p, len, idx, cables, Dummy(dummy, idx), redundant, polls, polls2)
            == Try(p, len, idx, cables, dummy, redundant, polls, polls2)
  {
    assert Dummy(Dummy(dummy, idx), idx) == Dummy(dummy, idx);
  }

  class Port {
    const stack: Stack
    const redstack: Stack
    const redundant: bool
    const cables: Cables
    const txbuf: array<seq<byte>>
    const txbuflength: array<nat>
    var txbuf2: seq<byte>
    var lastidx: nat

    constructor (redundant: bool, cables: Cables, incoming: seq<Option<Packet>>, incoming2: seq<Option<Packet>>,
                 dummy: seq<byte>)
      requires SoundCables(cables) && AllSound(incoming) && AllSound(incoming2) && |dummy| >= 4
      ensures Valid() && fresh(stack) && fresh(redstack) && fresh(txbuf) && fresh(txbuflength)
              && this.redundant == redundant && this.cables == cables
      ensures forall i :: 0 <= i < EC_MAXBUF ==> stack.rxbufstat[i] == EMPTY
    {
      var s := new Stack(incoming);
      var r := new Stack(incoming2);
      var t := new seq<byte>[EC_MAXBUF](_ => Repeat<byte>(0, TEMPSIZE));
      var l := new nat[EC_MAXBUF](_ => 0);
      stack, redstack, txbuf, txbuflength := s, r, t, l;
      this.redundant, this.cables, txbuf2, lastidx := redundant, cables, dummy, 0;
      new;
      assert stack.View().incoming == incoming && redstack.View().incoming == incoming2;
    }

    /** The parts are apart from each other. */
    ghost predicate Apart()
      reads this, stack, redstack
    {
      && stack.Valid() && redstack.Valid() && stack != redstack
      && stack.rxbufstat != redstack.rxbufstat && stack.rxbuf != redstack.rxbuf && stack.rxsa != redstack.rxsa
      && txbuf.Length == EC_MAXBUF && txbuflength.Length == EC_MAXBUF
      && txbuf != stack.rxbuf && txbuf != redstack.rxbuf
    }

    ghost function View(): Ports
      reads this, stack, redstack, stack.rxbufstat, stack.rxbuf, stack.rxsa,
            redstack.rxbufstat, redstack.rxbuf, redstack.rxsa, txbuf
    {
      Ports(stack.View(), redstack.View(), txbuf[..])
    }

    ghost predicate Valid()
      reads this, stack, redstack, stack.rxbufstat, stack.rxbuf, stack.rxsa,
            redstack.rxbufstat, redstack.rxbuf, redstack.rxsa, txbuf, txbuflength
    {
      && Apart() && PortsSized(View(), txbuflength[..]) && SoundCables(cables)
      && |txbuf2| >= 4 && lastidx < EC_MAXBUF
    }

    /**
     * A buffer index.  As long as some buffer is free, a free one is handed out:
     * the first one behind the last index, going round.
     */
    method FindIndex() returns (idx: nat)
      requires Valid()
      ensures idx < EC_MAXBUF
      ensures (exists j :: 0 <= j < EC_MAXBUF && stack.rxbufstat[j] == EMPTY) ==> stack.rxbufstat[idx] == EMPTY
      ensures exists n ::
                1 <= n <= EC_MAXBUF + 1 && FirstFree(stack.rxbufstat[..], lastidx, n) && idx == Following(lastidx, n)
    {
      hide Following;
      FollowingNext(lastidx, 0);
      idx := lastidx + 1;
      if idx >= EC_MAXBUF { idx := 0; }
      var cnt := 0;
      while stack.rxbufstat[idx] != EMPTY && cnt < EC_MAXBUF
        invariant cnt <= EC_MAXBUF && idx == Following(lastidx, cnt + 1)
        invariant FirstFree(stack.rxbufstat[..], lastidx, cnt + 1)
      {
        FollowingNext(lastidx, cnt + 1);
        idx := idx + 1;
        cnt := cnt + 1;
        if idx >= EC_MAXBUF { idx := 0; }
      }
      if cnt == EC_MAXBUF { AllBusy(stack.rxbufstat[..], lastidx); }
    }

    method SetBufStat(idx: nat, bufstat: BufStat)
      requires Valid() && idx < EC_MAXBUF && (bufstat == EMPTY || bufstat == ALLOC)
      modifies stack.rxbufstat, redstack.rxbufstat
      ensures Valid() && View() == WithStat(old(View()), redundant, idx, bufstat)
    {
      stack.rxbufstat[idx] := bufstat;
      if redundant {
        redstack.rxbufstat[idx] := bufstat;
      }
    }

    /** The index handed out is taken in both stacks. */
    method GetIndex() returns (idx: nat)
      requires Valid()
      modifies `lastidx, stack.rxbufstat, redstack.rxbufstat
      ensures idx < EC_MAXBUF && lastidx == idx && Valid()
      ensures old(exists j :: 0 <= j < EC_MAXBUF && stack.rxbufstat[j] == EMPTY) ==>
                old(stack.rxbufstat[..])[idx] == EMPTY
      ensures View() == WithStat(old(View()), redundant, idx, ALLOC)
    {
      idx := FindIndex();
      SetBufStat(idx, ALLOC);
      lastidx := idx;
    }

    /** A frame goes out from one of the sockets; the cables decide what arrives where. */
    method Send(secondary: bool, sa1: word, frame: seq<byte>)
      requires Valid()
      modifies stack`incoming, redstack`incoming
      ensures Valid()
      ensures var a := cables(secondary, sa1, frame);
              View() == old(View()).(pri := Heard(old(View()).pri, txbuflength[..], a.primary),
                                     sec := Heard(old(View()).sec, txbuflength[..], a.secondary))
    {
      var a := cables(secondary, sa1, frame);
      assert SoundArrivals(a);
      stack.incoming := stack.incoming + [a.primary];
      redstack.incoming := redstack.incoming + [a.secondary];
    }

    /** Status in one stack alone. */
    method SetStatOf(idx: nat, secondary: bool, s: BufStat)
      requires Valid() && idx < EC_MAXBUF && (s == EMPTY || (s == TX && FitLen(txbuflength[idx])))
      modifies stack.rxbufstat, redstack.rxbufstat
      ensures Valid()
      ensures var p := old(View());
              View() == if secondary then p.(sec := p.sec.(stat := p.sec.stat[idx := s]))
                        else p.(pri := p.pri.(stat := p.pri.stat[idx := s]))
    {
      if secondary {
        redstack.rxbufstat[idx] := s;
      } else {
        stack.rxbufstat[idx] := s;
      }
    }

    /** Sends transmit buffer `idx`; `taken` is whether the socket accepts it. */
    method OutFrame(idx: nat, secondary: bool, taken: bool)
      requires Valid() && idx < EC_MAXBUF && FitLen(txbuflength[idx])
      modifies stack`incoming, redstack`incoming, stack.rxbufstat, redstack.rxbufstat
      ensures Valid()
      ensures var p, len := old(View()), txbuflength[..];
              View() == SentIf(p, len, idx, cables, secondary, 0x0101, FrameOf(p, len, idx), taken)
    {
      SetStatOf(idx, secondary, TX);
      if taken {
        Send(secondary, RX_PRIM, txbuf[idx][..txbuflength[idx] - ETH_HEADERSIZE]);
      } else {
        SetStatOf(idx, secondary, EMPTY);
      }
    }

    /** Sends from the primary socket, and in redundant mode the dummy frame from the secondary one. */
    method OutFrameRed(idx: nat, taken: bool, taken2: bool)
      requires Valid() && idx < EC_MAXBUF && FitLen(txbuflength[idx])
      modifies `txbuf2, stack`incoming, redstack`incoming, stack.rxbufstat, redstack.rxbufstat
      ensures Valid()
      ensures var p, len := old(View()), txbuflength[..];
              var q := SentIf(p, len, idx, cables, false, 0x0101, FrameOf(p, len, idx), taken);
              && (!redundant ==> View() == q)
              && (redundant ==> View() == SentIf(q, len, idx, cables, true, 0x0404, Dummy(old(txbuf2), idx), taken2))
      ensures txbuf2 == if redundant then old(txbuf2)[3 := idx] else old(txbuf2)
    {
      OutFrame(idx, false, taken);
      if redundant {
        txbuf2 := txbuf2[3 := idx];
        SetStatOf(idx, true, TX);
        if taken2 {
          Send(true, RX_SEC, txbuf2);
        } else {
          SetStatOf(idx, true, EMPTY);
        }
      }
    }

    /** The secondary receive buffer is copied to the primary one. */
    method TakeSecondary(idx: nat)
      requires Valid() && idx < EC_MAXBUF && FitLen(txbuflength[idx]) && stack.rxbufstat[idx] != RCVD
      modifies stack.rxbuf
      ensures Valid()
      ensures View() == old(View()).(pri := Taken(old(View()).pri, old(View()).sec, txbuflength[..], idx))
    {
      stack.rxbuf[idx] := Over(stack.rxbuf[idx], redstack.rxbuf[idx], txbuflength[idx]);
    }

    /** Sends the transmit buffer once more from the secondary socket, and waits there. */
    method SendAgain(idx: nat, wkc: int, polls2: nat, taken: bool) returns (r: int)
      requires Valid() && idx < EC_MAXBUF && FitLen(txbuflength[idx]) && stack.rxbufstat[idx] != RCVD
      modifies stack`incoming, redstack`incoming, stack.rxbufstat, stack.rxbuf, redstack.rxbufstat, redstack.rxbuf,
               redstack.rxsa
      ensures Valid()
      ensures Answer(View(), r) == Resend(old(View()), txbuflength[..], idx, cables, wkc, polls2, taken)
    {
      OutFrame(idx, true, taken);
      r := wkc;
      var wkc2 := redstack.WaitFrame(idx, txbuflength[..], polls2);
      if wkc2 > EC_NOFRAME {
        TakeSecondary(idx);
        r := wkc2;
      }
    }

    /** The decision of the redundant mode, when both sockets have been waited for. */
    method Route(idx: nat, wkc: int, wkc2: int, polls2: nat, taken: bool) returns (r: int)
      requires Valid() && idx < EC_MAXBUF && FitLen(txbuflength[idx]) && stack.rxbufstat[idx] != RCVD
      modifies stack`incoming, redstack`incoming, stack.rxbufstat, stack.rxbuf, redstack.rxbufstat, redstack.rxbuf,
               redstack.rxsa, txbuf
      ensures Valid()
      ensures Answer(View(), r) == Decide(old(View()), txbuflength[..], idx, cables, wkc, wkc2, polls2, taken)
    {
      r := wkc;
      var primrx: word := 0;
      if wkc > EC_NOFRAME { primrx := stack.rxsa[idx]; }
      var secrx: word := 0;
      if wkc2 > EC_NOFRAME { secrx := redstack.rxsa[idx]; }
      if primrx == RX_SEC && secrx == RX_PRIM {
        TakeSecondary(idx);
        r := wkc2;
      }
      if (primrx == 0 && secrx == RX_SEC) || (primrx == RX_PRIM && secrx == RX_SEC) {
        if primrx == RX_PRIM && secrx == RX_SEC {
          txbuf[idx] := Over(txbuf[idx], stack.rxbuf[idx], txbuflength[idx]);
        }
        r := SendAgain(idx, r, polls2, taken);
      }
    }

    /** Waits for frame `idx`, in redundant mode at both sockets. */
    method WaitInFrameRed(idx: nat, polls: nat, polls2: nat, taken: bool) returns (wkc: int)
      requires Valid() && idx < EC_MAXBUF && FitLen(txbuflength[idx])
      modifies stack`incoming, redstack`incoming, stack.rxbufstat, stack.rxbuf, stack.rxsa,
               redstack.rxbufstat, redstack.rxbuf, redstack.rxsa, txbuf
      ensures Valid()
      ensures !redundant ==> (stack.View(), wkc) == Wait(old(stack.View()), txbuflength[..], idx, polls)
                             && redstack.View() == old(redstack.View()) && txbuf[..] == old(txbuf[..])
      ensures redundant ==> Answer(View(), wkc) == WaitRed(old(View()), txbuflength[..], idx, cables, polls, polls2,
              taken)
    {
      if redundant {
        var wkc2;
        wkc, wkc2 := WaitForBoth(stack, redstack, idx, txbuflength[..], polls);
        wkc := Route(idx, wkc, wkc2, polls2, taken);
      } else {
        wkc := stack.WaitFrame(idx, txbuflength[..], polls);
      }
    }

    /** Waits for frame `idx`; if it does not come, the buffer is free again. */
    method WaitInFrame(idx: nat, polls: nat, polls2: nat, taken: bool) returns (wkc: int)
      requires Valid() && idx < EC_MAXBUF && FitLen(txbuflength[idx])
      modifies stack`incoming, redstack`incoming, stack.rxbufstat, stack.rxbuf, stack.rxsa,
               redstack.rxbufstat, redstack.rxbuf, redstack.rxsa, txbuf
      ensures Valid() && KeptBoth(old(View()), View(), idx)
      ensures wkc <= EC_NOFRAME ==> stack.rxbufstat[idx] == EMPTY && (redundant ==> redstack.rxbufstat[idx] == EMPTY)
      ensures !redundant && wkc > EC_NOFRAME ==>
                (stack.View(), wkc) == Wait(old(stack.View()), txbuflength[..], idx, polls)
      ensures redundant && wkc > EC_NOFRAME ==>
                Answer(View(), wkc) == WaitRed(old(View()), txbuflength[..], idx, cables, polls, polls2, taken)
    {
      ghost var p, len := View(), txbuflength[..];
      wkc := WaitInFrameRed(idx, polls, polls2, taken);
      if redundant {
        WaitRedKeeps(p, len, idx, cables, polls, polls2, taken);
      } else {
        WaitKeepsStatus(p.pri, len, idx, polls);
      }
      if wkc <= EC_NOFRAME {
        SetBufStat(idx, EMPTY);
      }
    }

    /** One round of `ecx_srconfirm`; with `up` the sockets take what is sent. */
    method TryOnce(idx: nat, polls: nat, polls2: nat, up: bool) returns (wkc: int)
      requires Valid() && idx < EC_MAXBUF && FitLen(txbuflength[idx])
      modifies `txbuf2, stack`incoming, redstack`incoming, stack.rxbufstat, stack.rxbuf, stack.rxsa,
               redstack.rxbufstat, redstack.rxbuf, redstack.rxsa, txbuf
      ensures Valid() && KeptBoth(old(View()), View(), idx)
      ensures !redundant ==> redstack.rxbufstat[..] == old(redstack.rxbufstat[..])
      ensures up ==>
                Answer(View(), wkc)
                == Try(old(View()), txbuflength[..], idx, cables, old(txbuf2), redundant, polls, polls2)
      ensures txbuf2 == if redundant then Dummy(old(txbuf2), idx) else old(txbuf2)
    {
      hide KeptBoth, WaitRed, Wait, Sent, NotSent;
      var taken, taken2, taken3 := true, true, true;
      if !up { taken, taken2, taken3 := *, *, *; }
      ghost var p, len := View(), txbuflength[..];
      OutFrameRed(idx, taken, taken2);
      ghost var q := View();
      SentKeeps(p, len, idx, cables, taken, taken2, old(txbuf2));
      wkc := WaitInFrameRed(idx, polls, polls2, taken3);
      if redundant {
        WaitRedKeeps(q, len, idx, cables, polls, polls2, taken3);
      } else {
        WaitAloneKeeps(q, len, idx, polls);
      }
      KeptBothTrans(p, q, View(), idx);
    }

    /** Sends and waits, again and again until an answer comes or the time is over. */
    method TryOn(idx: nat, tries: nat, polls: nat, polls2: nat, up: bool) returns (wkc: int)
      requires Valid() && idx < EC_MAXBUF && FitLen(txbuflength[idx])
      modifies `txbuf2, stack`incoming, redstack`incoming, stack.rxbufstat, stack.rxbuf, stack.rxsa,
               redstack.rxbufstat, redstack.rxbuf, redstack.rxsa, txbuf
      ensures Valid() && KeptBoth(old(View()), View(), idx)
      ensures !redundant ==> redstack.rxbufstat[..] == old(redstack.rxbufstat[..])
      ensures up ==>
                Answer(View(), wkc)
                == Tries(old(View()), txbuflength[..], idx, cables, old(txbuf2), redundant, polls, polls2, tries)
    {
      hide Try, KeptBoth;
      ghost var p, len, dummy := View(), txbuflength[..], txbuf2;
      var left := tries;
      wkc := TryOnce(idx, polls, polls2, up);
      while wkc <= EC_NOFRAME && left > 0
        invariant Valid() && KeptBoth(p, View(), idx)
        invariant !redundant ==> redstack.rxbufstat[..] == p.sec.stat
        invariant txbuf2 == if redundant then Dummy(dummy, idx) else dummy
        invariant up ==>
                    Tries(p, len, idx, cables, dummy, redundant, polls, polls2, tries)
                    == if wkc > EC_NOFRAME || left == 0 then Answer(View(), wkc)
                       else Tries(View(), len, idx, cables, dummy, redundant, polls, polls2, left - 1)
        decreases left
      {
        ghost var q := View();
        SameDummy(q, len, idx, cables, dummy, redundant, polls, polls2);
        left := left - 1;
        wkc := TryOnce(idx, polls, polls2, up);
        KeptBothTrans(p, q, View(), idx);
      }
    }

    /**
     * The same; when no answer comes the buffer is free again.  Without redundancy an answer is got exactly
     * when the first packet for the index, counting those that the rounds bring, comes in time.
     */
    method SrConfirm(idx: nat, tries: nat, polls: nat, polls2: nat, up: bool)
      returns (wkc: int, ghost rounds: seq<Answer>)
      requires Valid() && idx < EC_MAXBUF && FitLen(txbuflength[idx])
      modifies `txbuf2, stack`incoming, redstack`incoming, stack.rxbufstat, stack.rxbuf, stack.rxsa,
               redstack.rxbufstat, redstack.rxbuf, redstack.rxsa, txbuf
      ensures Valid() && KeptBoth(old(View()), View(), idx)
      ensures wkc <= EC_NOFRAME ==> stack.rxbufstat[idx] == EMPTY && (redundant ==> redstack.rxbufstat[idx] == EMPTY)
      ensures !redundant ==> redstack.rxbufstat[..] == old(redstack.rxbufstat[..])
      ensures up ==>
                && AreRounds(rounds, old(View()), txbuflength[..], idx, cables, old(txbuf2), redundant, polls, polls2,
                             tries)
                && var a := rounds[|rounds| - 1];
                   && wkc == a.wkc
                   && View() == if wkc > EC_NOFRAME then a.ports else WithStat(a.ports, redundant, idx, EMPTY)
      ensures up && !redundant ==>
                var x := cables(false, RX_PRIM, FrameOf(old(View()), txbuflength[..], idx)).primary;
                wkc > EC_NOFRAME <==> InTime(old(stack.incoming), x, idx, polls, tries)
    {
      hide Tries, Try, AreRounds, InTime;
      rounds := TriesAreRounds(View(), txbuflength[..], idx, cables, txbuf2, redundant, polls, polls2, tries);
      if !redundant { TriesInTime(View(), txbuflength[..], idx, cables, txbuf2, polls, polls2, tries); }
      wkc := TryOn(idx, tries, polls, polls2, up);
      if wkc <= EC_NOFRAME {
        SetBufStat(idx, EMPTY);
      }
    }
  }
}
