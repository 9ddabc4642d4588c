/**
 * One channel of an RS485 terminal (`RS485EcTransmit`, `RS485EcReceive`,
 * `RS485EcProcessStateMachine`): blocks of up to 22 bytes go each way through
 * the process data, handed over with toggle bits.
 */
module Rs485Channel {
  import opened Sequences
  import opened Frames

  const CONTROL: nat := 0
  const LENGTH: nat := 1
  const DATA: nat := 2
  const MAX_DATA_LENGTH: nat := 22
  const IMAGE: nat := DATA + MAX_DATA_LENGTH
  const MAX_NUMBER_OF_TRIES: nat := 20

  datatype State = INACTIVE | INIT | RUN

  datatype Code = NO_ERROR | NOT_ENABLED | TX_NOT_READY | RX_NO_SIGNAL | COM_LOCKED

  /** Bits 0 (transmit), 1 (receive) and 2 (init) of a control or status byte. */
  predicate Bit0(b: byte) { b % 2 == 1 }

  predicate Bit1(b: byte) { b / 2 % 2 == 1 }

  predicate Bit2(b: byte) { b / 4 % 2 == 1 }

  /** Exclusive or with 0x01. */
  function Flip0(b: byte): (c: byte)
    ensures Bit0(c) == !Bit0(b) && Bit1(c) == Bit1(b) && Bit2(c) == Bit2(b)
  {
    if b % 2 == 1 then b - 1 else b + 1
  }

  /** Exclusive or with 0x02. */
  function Flip1(b: byte): (c: byte)
    ensures Bit0(c) == Bit0(b) && Bit1(c) == !Bit1(b) && Bit2(c) == Bit2(b)
  {
    assert b / 2 == 2 * (b / 4) + b / 2 % 2;
    if b / 2 % 2 == 1 then b - 2 else b + 2
  }

  /** As much of the data as fits, unmodified. */
  ghost predicate IsBlockOf(block: seq<byte>, data: seq<byte>) {
    block <= data && |block| == if |data| < 22 then |data| else 22
  }

  /** Block for block. */
  ghost predicate AreBlocksOf(blocks: seq<seq<byte>>, given: seq<seq<byte>>) {
    |blocks| == |given| && forall i :: 0 <= i < |blocks| ==> IsBlockOf(blocks[i], given[i])
  }

  lemma BlocksFrom(blocks: seq<seq<byte>>, given: seq<seq<byte>>, k: nat)
    requires AreBlocksOf(blocks, given) && k <= |blocks|
    ensures AreBlocksOf(blocks[k..], given[k..])
  {}

  /** The first 22 bytes. */
  function First(data: seq<byte>): (block: seq<byte>)
    ensures IsBlockOf(block, data)
  {
    if |data| > MAX_DATA_LENGTH then data[..MAX_DATA_LENGTH] else data
  }

  /** The block in a process image. */
  function Block(image: seq<byte>): seq<byte>
    requires |image| == IMAGE
  {
    image[DATA..DATA + if image[LENGTH] > MAX_DATA_LENGTH then MAX_DATA_LENGTH else image[LENGTH]]
  }

  /** The start of a channel: requested and actual state, step, tries, and what the control byte is set to. */
  datatype Machine = Machine(ReqState: State, State: State, Istate: nat, Tries: nat)

  /** First half of a turn: asking the terminal to initialise. */
  function AskInit(m: Machine, accepted: bool): Machine {
    if m.ReqState != INIT || m.State != INACTIVE then m
    else if m.Istate == 0 then m.(Istate := 1, Tries := 0)
    else if m.Istate == 1 then
      var t := m.Tries + 1;
      m.(Tries := t, Istate := if t > MAX_NUMBER_OF_TRIES then 2 else if accepted then 3 else 1)
    else if m.Istate == 2 then Machine(INACTIVE, INACTIVE, 0, m.Tries)
    else if m.Istate == 3 then Machine(RUN, INIT, 0, 0)
    else m
  }

  /** Second half: taking the request back. */
  function ClearInit(m: Machine, accepted: bool): Machine {
    if m.ReqState != RUN || m.State != INIT then m
    else if m.Istate == 0 then m.(Istate := 1, Tries := 0)
    else if m.Istate == 1 then
      var t := m.Tries + 1;
      m.(Tries := t, Istate := if t > MAX_NUMBER_OF_TRIES then 2 else if !accepted then 3 else 1)
    else if m.Istate == 2 then Machine(INIT, INIT, 0, m.Tries)
    else if m.Istate == 3 then Machine(RUN, RUN, 0, 0)
    else m
  }

  /** What the first half writes for the terminal. */
  function AskOutput(m: Machine, out: seq<byte>): (r: seq<byte>)
    requires |out| == IMAGE
    ensures |r| == IMAGE
  {
    if m.ReqState != INIT || m.State != INACTIVE then out
    else if m.Istate == 0 then seq(IMAGE, i => if i == CONTROL then 0x04 else 0)
    else if m.Istate == 2 then out[CONTROL := 0x00]
    else out
  }

  /** What the second half writes. */
  function ClearOutput(m: Machine, out: seq<byte>): (r: seq<byte>)
    requires |out| == IMAGE
    ensures |r| == IMAGE
  {
    if m.ReqState == RUN && m.State == INIT && m.Istate == 0 then out[CONTROL := 0x00][LENGTH := 0] else out
  }

  function Turn(m: Machine, accepted: bool): Machine {
    ClearInit(AskInit(m, accepted), accepted)
  }

  /** The machine after turns that find the terminal's answers. */
  function Run(m: Machine, answers: seq<bool>): Machine {
    if answers == [] then m else Turn(Run(m, answers[..|answers| - 1]), answers[|answers| - 1])
  }

  const RUNNING := Machine(RUN, RUN, 0, 0)
  const REQUESTED := Machine(INIT, INACTIVE, 0, 0)

  /** Given up because the terminal did not accept. */
  const IDLE := Machine(INACTIVE, INACTIVE, 0, MAX_NUMBER_OF_TRIES + 1)

  /** Stuck because the terminal did not take its answer back. */
  const STUCK := Machine(INIT, INIT, 0, MAX_NUMBER_OF_TRIES + 1)

  /** A channel that runs, has given up, or is stuck, stays so whatever the terminal answers. */
  predicate Final(m: Machine) {
    m == RUNNING || (m.ReqState == m.State && m.State != RUN && m.Istate == 0)
  }

  lemma {:induction false} StaysFinal(m: Machine, answers: seq<bool>)
    requires Final(m)
    ensures Run(m, answers) == m
  {
    if answers != [] { StaysFinal(m, answers[..|answers| - 1]); }
  }

  lemma RunAppend(m: Machine, answers: seq<bool>, a: bool)
    ensures Run(m, answers + [a]) == Turn(Run(m, answers), a)
  {
    assert (answers + [a])[..|answers|] == answers;
  }

  lemma {:induction false} RunConcat(m: Machine, a: seq<bool>, b: seq<bool>)
    ensures Run(m, a + b) == Run(Run(m, a), b)
  {
    if b == [] {
      assert a + b == a;
    } else {
      assert (a + b)[..|a + b| - 1] == a + b[..|b| - 1];
      RunConcat(m, a, b[..|b| - 1]);
    }
  }

  /** The first turn, then the others. */
  lemma RunFirst(m: Machine, answers: seq<bool>)
    requires answers != []
    ensures Run(m, answers) == Run(Turn(m, answers[0]), answers[1..])
  {
    assert [answers[0]] + answers[1..] == answers;
    RunConcat(m, [answers[0]], answers[1..]);
    RunAppend(m, [], answers[0]);
    assert [] + [answers[0]] == [answers[0]];
  }

  /** Waiting for the terminal to take the request (`asked`) or to take its answer back. */
  function Waiting(asked: bool, tries: nat): Machine {
    if asked then Machine(INIT, INACTIVE, 1, tries) else Machine(RUN, INIT, 1, tries)
  }

  /** The answer waited for has come. */
  function Heard(asked: bool, tries: nat): Machine {
    Waiting(asked, tries).(Istate := 3)
  }

  /** After `n` turns in vain, or, once the tries are used up, any turns. */
  function Waited(asked: bool, n: nat): Machine {
    if n <= MAX_NUMBER_OF_TRIES then Waiting(asked, n)
    else if n == MAX_NUMBER_OF_TRIES + 1 then Waiting(asked, n).(Istate := 2)
    else if asked then IDLE
    else STUCK
  }

  /** The start-up has not come to the end of its first half. */
  predicate Asks(m: Machine) {
    m.ReqState == INIT && m.State == INACTIVE && m.Istate <= 3
  }

  /** The request has been withdrawn: from here on nothing more is written, whether or not the start-up succeeds. */
  predicate Cleared(m: Machine) {
    || m == RUNNING
    || (m.ReqState == INIT && m.State == INIT)
    || (m.ReqState == RUN && m.State == INIT && 1 <= m.Istate <= 3)
  }

  lemma StaysCleared(m: Machine, a: bool, out: seq<byte>)
    requires Cleared(m) && |out| == IMAGE
    ensures Cleared(Turn(m, a)) && ClearOutput(AskInit(m, a), AskOutput(m, out)) == out
  {}

  /** The turns of the first half: the request, waiting, and then giving up or withdrawing the request. */
  lemma AskingTurn(m: Machine, a: bool, out: seq<byte>)
    requires Asks(m) && |out| == IMAGE
    ensures var n, o := Turn(m, a), ClearOutput(AskInit(m, a), AskOutput(m, out));
            match m.Istate
            case 0 => n == Waiting(true, 0) && o[0] == 0x04 && forall i :: 1 <= i < |o| ==> o[i] == 0
            case 1 => Asks(n) && n.Istate >= 1 && o == out && (n.Istate == 3 ==> a)
            case 2 => n == Machine(INACTIVE, INACTIVE, 0, m.Tries) && o == out[0 := 0]
            case _ => n == Waiting(false, 0) && Cleared(n) && o == out[0 := 0][1 := 0]
  {}

  /** The position of the first `v` from `from` on, or the number of answers. */
  function Position(answers: seq<bool>, from: nat, v: bool): (p: nat)
    ensures p <= |answers| && (from <= |answers| ==> from <= p && forall i :: from <= i < p ==> answers[i] != v)
    ensures p < |answers| ==> from <= p && answers[p] == v
    decreases |answers| - from
  {
    if from >= |answers| then |answers| else if answers[from] == v then from else Position(answers, from + 1, v)
  }

  lemma WaitsOn(asked: bool, n: nat, a: bool)
    requires a == asked ==> n >= MAX_NUMBER_OF_TRIES
    ensures Turn(Waited(asked, n), a) == Waited(asked, n + 1)
  {}

  /** Waiting in vain. */
  lemma {:induction false} Waits(asked: bool, answers: seq<bool>)
    requires forall i :: 0 <= i < |answers| && i < MAX_NUMBER_OF_TRIES ==> answers[i] != asked
    ensures Run(Waiting(asked, 0), answers) == Waited(asked, |answers|)
  {
    if answers != [] {
      var n := |answers| - 1;
      Waits(asked, answers[..n]);
      WaitsOn(asked, n, answers[n]);
    }
  }

  /** The answer comes in time, and the turn after that goes on. */
  lemma Hears(asked: bool, n: nat, a: bool)
    requires n < MAX_NUMBER_OF_TRIES
    ensures Turn(Waited(asked, n), asked) == Heard(asked, n + 1)
    ensures Turn(Heard(asked, n + 1), a) == if asked then Waiting(false, 0) else RUNNING
  {}

  lemma RunNone(m: Machine)
    ensures Run(m, []) == m
  {}

  /** The wait for one answer, by its position. */
  lemma WaitsFor(asked: bool, answers: seq<bool>)
    ensures var p := Position(answers, 0, asked);
            if p == |answers| || p >= MAX_NUMBER_OF_TRIES then Run(Waiting(asked, 0), answers)
              == Waited(asked, |answers|)
            else Run(Waiting(asked, 0), answers) == Run(Heard(asked, p + 1), answers[p + 1..])
  {
    hide Run, Position, Turn;
    var p := Position(answers, 0, asked);
    if p == |answers| || p >= MAX_NUMBER_OF_TRIES {
      Waits(asked, answers);
    } else {
      Waits(asked, answers[..p]);
      RunConcat(Waiting(asked, 0), answers[..p], answers[p..]);
      assert answers[..p] + answers[p..] == answers;
      RunFirst(Waited(asked, p), answers[p..]);
      Hears(asked, p, asked);
      assert answers[p..][1..] == answers[p + 1..];
    }
  }

  /** What the wait for the terminal to take its answer back comes to. */
  lemma Clearing(answers: seq<bool>)
    ensures var q, m := Position(answers, 0, false), Run(Waiting(false, 0), answers);
            && (m == RUNNING <==> q < MAX_NUMBER_OF_TRIES && q + 1 < |answers|)
            && (m == STUCK <==> q >= MAX_NUMBER_OF_TRIES && |answers| >= MAX_NUMBER_OF_TRIES + 2)
            && m != IDLE
  {
    hide Run, Position, Turn;
    var q := Position(answers, 0, false);
    WaitsFor(false, answers);
    if q < |answers| && q < MAX_NUMBER_OF_TRIES {
      var rest := answers[q + 1..];
      RunNone(Heard(false, q + 1));
      if rest != [] {
        RunFirst(Heard(false, q + 1), rest);
        Hears(false, q, rest[0]);
        StaysFinal(RUNNING, rest[1..]);
      }
    }
  }

  /** What the start-up comes to after the request. */
  lemma Asking(answers: seq<bool>)
    ensures var p, m := Position(answers, 0, true), Run(Waiting(true, 0), answers);
            && (m == IDLE <==> p >= MAX_NUMBER_OF_TRIES && |answers| >= MAX_NUMBER_OF_TRIES + 2)
            && if p < MAX_NUMBER_OF_TRIES && p + 1 < |answers| then m == Run(Waiting(false, 0), answers[p + 2..])
               else m != RUNNING && m != STUCK
  {
    hide Run, Position, Turn;
    var p := Position(answers, 0, true);
    WaitsFor(true, answers);
    if p < |answers| && p < MAX_NUMBER_OF_TRIES {
      var rest := answers[p + 1..];
      RunNone(Heard(true, p + 1));
      if rest != [] {
        RunFirst(Heard(true, p + 1), rest);
        Hears(true, p, rest[0]);
        assert rest[1..] == answers[p + 2..];
        Clearing(answers[p + 2..]);
      }
    }
  }

  lemma {:induction false} PositionShift(answers: seq<bool>, k: nat, from: nat, v: bool)
    requires k <= |answers|
    ensures Position(answers[k..], from, v) + k == Position(answers, k + from, v)
    decreases |answers| - from
  {
    if k + from < |answers| && answers[k + from] != v {
      PositionShift(answers, k, from + 1, v);
    }
  }

  /**
   * The start-up, for every course of answers.  The first turn asks; let the terminal accept
   * at turn `p`, the first one after that with an answer, and take its answer back at turn
   * `q`, the first one without it from `p + 2` on: turn `p + 1` clears the request.  The
   * channel runs from turn `q + 1` on exactly when both come within 20 tries.  If the
   * terminal does not accept in time the channel is given up, and if it does not take its
   * answer back in time it is stuck, each two turns after the last try.
   */
  lemma StartUp(answers: seq<bool>)
    ensures var p := Position(answers, 1, true);
            var q := Position(answers, p + 2, false);
            var m := Run(REQUESTED, answers);
            && (m == RUNNING <==> p <= 20 && q <= p + 21 && q + 1 < |answers|)
            && (m == IDLE <==> p > 20 && |answers| > 22)
            && (m == STUCK <==> p <= 20 && q > p + 21 && |answers| > p + 23)
  {
    hide Run, Position;
    RunNone(REQUESTED);
    if answers != [] {
      var rest := answers[1..];
      RunFirst(REQUESTED, answers);
      Asking(rest);
      PositionShift(answers, 1, 0, true);
      var p := Position(rest, 0, true);
      if p < MAX_NUMBER_OF_TRIES && p + 1 < |rest| {
        assert rest[p + 2..] == answers[p + 3..];
        Clearing(rest[p + 2..]);
        PositionShift(answers, p + 3, 0, false);
      }
    }
  }

  /** A terminal that does not take its answer back in time leaves the channel stuck, whatever it does later. */
  lemma StuckForever(answers: seq<bool>, later: seq<bool>)
    requires Run(REQUESTED, answers) == STUCK
    ensures Run(REQUESTED, answers + later) == STUCK
  {
    RunConcat(REQUESTED, answers, later);
    StaysFinal(STUCK, later);
  }

  /** Once running, always running. */
  lemma StaysRunning(answers: seq<bool>, later: seq<bool>)
    requires Run(REQUESTED, answers) == RUNNING
    ensures Run(REQUESTED, answers + later) == RUNNING
  {
    RunConcat(REQUESTED, answers, later);
    StaysFinal(RUNNING, later);
  }
}
