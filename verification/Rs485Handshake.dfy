/**
 * The handshake of an RS485 channel with its terminal, from the request to
 * initialise on, in every interleaving of calls, process data exchanges and
 * terminal steps.
 */
module Rs485Handshake {
  import opened Frames
  import opened Rs485Channel

  /**
   * From the master to the terminal: `out` is what the master has written,
   * `outT` what the terminal last got of it, `inT` what the terminal has written
   * and `inp` what the master last got of that.  A block is on its way exactly
   * while the toggle bits differ.
   */
  ghost predicate Sending(out: seq<byte>, outT: seq<byte>, inT: seq<byte>, inp: seq<byte>, ready: bool,
                          sent: seq<seq<byte>>, delivered: seq<seq<byte>>)
    requires |out| == |outT| == |inT| == |inp| == IMAGE
  {
    var o, t, a, i := Bit0(out[CONTROL]), Bit0(outT[CONTROL]), Bit0(inT[CONTROL]), Bit0(inp[CONTROL]);
    && (ready ==> o == t && t == a && a == i)
    && (|| (o == t && t == a && delivered == sent)
        || (o == t && t != a && a == i && sent == delivered + [Block(outT)] && Block(outT) == Block(out))
        || (o != t && t == a && a == i && sent == delivered + [Block(out)]))
  }

  /** From the terminal to the master. */
  ghost predicate Receiving(out: seq<byte>, outT: seq<byte>, inT: seq<byte>, inp: seq<byte>, signal: bool,
                            placed: seq<seq<byte>>, read: seq<seq<byte>>)
    requires |out| == |outT| == |inT| == |inp| == IMAGE
  {
    var k, v, r, m := Bit1(out[CONTROL]), Bit1(outT[CONTROL]), Bit1(inT[CONTROL]), Bit1(inp[CONTROL]);
    && (signal ==> m != k)
    && (|| (r == m && m == k && read == placed)
        || (r == m && m != k && k == v && placed == read + [Block(inp)] && Block(inp) == Block(inT))
        || (r != m && m == k && k == v && placed == read + [Block(inT)]))
  }

  /** The master gets the terminal's data. */
  lemma ComingIn(out: seq<byte>, outT: seq<byte>, inT: seq<byte>, inp: seq<byte>, ready: bool, signal: bool,
                 sent: seq<seq<byte>>, delivered: seq<seq<byte>>, placed: seq<seq<byte>>, read: seq<seq<byte>>)
    requires |out| == |outT| == |inT| == |inp| == IMAGE
    requires Sending(out, outT, inT, inp, ready, sent, delivered)
    requires Receiving(out, outT, inT, inp, signal, placed, read)
    ensures Sending(out, outT, inT, inT, ready, sent, delivered) && Receiving(out, outT, inT, inT, signal, placed, read)
  {}

  /** At most one block is under way in each direction, everything before it has arrived, in order. */
  lemma ExactlyOnce(out: seq<byte>, outT: seq<byte>, inT: seq<byte>, inp: seq<byte>, ready: bool, signal: bool,
                    sent: seq<seq<byte>>, delivered: seq<seq<byte>>, placed: seq<seq<byte>>, read: seq<seq<byte>>)
    requires |out| == |outT| == |inT| == |inp| == IMAGE
    requires Sending(out, outT, inT, inp, ready, sent, delivered)
    requires Receiving(out, outT, inT, inp, signal, placed, read)
    ensures delivered <= sent && |sent| <= |delivered| + 1
    ensures read <= placed && |placed| <= |read| + 1
    ensures ready ==> delivered == sent
  {}

  /** The output as the terminal regards it: a request to initialise hides the toggle bits. */
  function Seen(outT: seq<byte>): (s: seq<byte>)
    requires |outT| == IMAGE
    ensures |s| == IMAGE && Block(s) == Block(outT)
  {
    if Bit2(outT[CONTROL]) then outT[CONTROL := 0] else outT
  }

  /**
   * The master's side of the channel; `sent` and `read` list the blocks handed over, `given` what the
   * caller gave for those sent.
   */
  class Channel {
    const InputData: array<byte>
    const OutputData: array<byte>
    var TxReady: bool
    var RxSignal: bool
    var ComLock: bool
    var Enable: bool
    var machine: Machine
    ghost var given: seq<seq<byte>>
    ghost var sent: seq<seq<byte>>
    ghost var read: seq<seq<byte>>

    ghost predicate Shaped()
      reads this
    {
      && InputData.Length == IMAGE && OutputData.Length == IMAGE && InputData != OutputData
      && AreBlocksOf(sent, given)
    }

    /** Hands a block over, when the one before has been taken. */
    method Transmit(data: seq<byte>) returns (code: Code, BytesWritten: nat)
      requires Shaped()
      modifies `TxReady, `ComLock, `given, `sent, OutputData
      ensures code == (if !Enable then NOT_ENABLED else if !old(TxReady) then TX_NOT_READY
                       else if old(ComLock) then COM_LOCKED else NO_ERROR)
      ensures ComLock == old(ComLock) && Shaped()
      ensures code != NO_ERROR ==>
                BytesWritten == 0 && given == old(given) && sent == old(sent) && TxReady == old(TxReady)
                  && OutputData[..] == old(OutputData[..])
      ensures code == NO_ERROR ==>
                && BytesWritten == (if |data| < 22 then |data| else 22) && OutputData[1] == BytesWritten
                && (forall i :: 0 <= i < BytesWritten ==> OutputData[2 + i] == data[i])
                && given == old(given) + [data] && sent == old(sent) + [First(data)] && !TxReady
                && Block(OutputData[..]) == First(data) && OutputData[CONTROL] == Flip0(old(OutputData[CONTROL]))
                && var control := old(OutputData[0]);
                   OutputData[0] == if control % 2 == 0 then control + 1 else control - 1
    {
      BytesWritten := 0;
      if !Enable { return NOT_ENABLED, 0; }
      if !TxReady { return TX_NOT_READY, 0; }
      if ComLock { return COM_LOCKED, 0; }
      ComLock := true;
      var n := |data|;
      if n > MAX_DATA_LENGTH { n := MAX_DATA_LENGTH; }
      forall i | 0 <= i < n { OutputData[i + DATA] := data[i]; }
      OutputData[CONTROL] := Flip0(OutputData[CONTROL]);
      OutputData[LENGTH] := n;
      TxReady := false;
      ComLock := false;
      given, sent := given + [data], sent + [First(data)];
      assert Block(OutputData[..]) == First(data);
      return NO_ERROR, n;
    }

    /** Takes a block that has been signalled. */
    method Receive() returns (code: Code, data: seq<byte>)
      requires Shaped()
      modifies `RxSignal, `ComLock, `read, OutputData
      ensures code == (if !Enable then NOT_ENABLED else if !old(RxSignal) then RX_NO_SIGNAL
                       else if old(ComLock) then COM_LOCKED else NO_ERROR)
      ensures ComLock == old(ComLock)
      ensures code != NO_ERROR ==>
                data == [] && read == old(read) && RxSignal == old(RxSignal) && OutputData[..] == old(OutputData[..])
      ensures code == NO_ERROR ==>
                && data == Block(InputData[..]) && read == old(read) + [data] && !RxSignal
                && data == InputData[2..2 + if InputData[1] < 22 then InputData[1] else 22]
                && OutputData[CONTROL] == Flip1(old(OutputData[CONTROL]))
                && (var control := old(OutputData[0]);
                    OutputData[0] == if control / 2 % 2 == 0 then control + 2 else control - 2)
                && forall i :: 1 <= i < IMAGE ==> OutputData[i] == old(OutputData[i])
    {
      if !Enable { return NOT_ENABLED, []; }
      if !RxSignal { return RX_NO_SIGNAL, []; }
      if ComLock { return COM_LOCKED, []; }
      ComLock := true;
      var n: nat := InputData[LENGTH];
      if n > MAX_DATA_LENGTH { n := MAX_DATA_LENGTH; }
      data := InputData[DATA..DATA + n];
      OutputData[CONTROL] := Flip1(OutputData[CONTROL]);
      RxSignal := false;
      ComLock := false;
      read := read + [data];
      return NO_ERROR, data;
    }

    /** First half of a turn of the start-up. */
    method AskHalf(accepted: bool)
      requires Shaped()
      modifies `machine, OutputData
      ensures machine == AskInit(old(machine), accepted)
      ensures OutputData[..] == AskOutput(old(machine), old(OutputData[..]))
    {
      if machine.ReqState == INIT && machine.State == INACTIVE {
        if machine.Istate == 0 {
          forall j | DATA <= j < IMAGE { OutputData[j] := 0; }
          OutputData[CONTROL] := 0x04;
          OutputData[LENGTH] := 0;
          assert OutputData[..] == seq(IMAGE, i => if i == CONTROL then 0x04 else 0);
        } else if machine.Istate == 2 {
          OutputData[CONTROL] := 0x00;
        }
        machine := AskInit(machine, accepted);
      }
    }

    /** Second half. */
    method ClearHalf(accepted: bool)
      requires Shaped()
      modifies `machine, OutputData
      ensures machine == ClearInit(old(machine), accepted)
      ensures OutputData[..] == ClearOutput(old(machine), old(OutputData[..]))
    {
      if machine.ReqState == RUN && machine.State == INIT {
        if machine.Istate == 0 {
          OutputData[CONTROL] := 0x00;
          OutputData[LENGTH] := 0;
        }
        machine := ClearInit(machine, accepted);
      }
    }

    /** Looks at the toggle bits, and takes the start-up one turn further. */
    method ProcessStateMachine()
      requires Shaped()
      modifies `TxReady, `RxSignal, `machine, OutputData
      ensures !Enable || ComLock ==>
                && TxReady == old(TxReady) && RxSignal == old(RxSignal) && machine == old(machine)
                && OutputData[..] == old(OutputData[..])
      ensures Enable && !ComLock ==>
                && TxReady == (Bit0(InputData[CONTROL]) == Bit0(old(OutputData[CONTROL])))
                && RxSignal == (Bit1(InputData[CONTROL]) != Bit1(old(OutputData[CONTROL])))
                && machine == Turn(old(machine), Bit2(InputData[CONTROL]))
                && OutputData[..] == ClearOutput(AskInit(old(machine), Bit2(InputData[CONTROL])),
                                                 AskOutput(old(machine), old(OutputData[..])))
                && TxReady == (InputData[0] % 2 == old(OutputData[0]) % 2)
                && RxSignal == (InputData[0] / 2 % 2 != old(OutputData[0]) / 2 % 2)
                && machine == Turn(old(machine), InputData[0] / 4 % 2 == 1)
    {
      if Enable && !ComLock {
        TxReady := Bit0(InputData[CONTROL]) == Bit0(OutputData[CONTROL]);
        RxSignal := Bit1(InputData[CONTROL]) != Bit1(OutputData[CONTROL]);
        var accepted := Bit2(InputData[CONTROL]);
        AskHalf(accepted);
        ClearHalf(accepted);
      }
    }
  }

  /**
   * The terminal: what it got from the master, what it offers, and the blocks it has taken
   * and offered.  While it initialises it neither takes nor offers anything.
   */
  class Terminal {
    var outputs: seq<byte>
    var inputs: seq<byte>
    ghost var delivered: seq<seq<byte>>
    ghost var placed: seq<seq<byte>>

    ghost predicate Shaped()
      reads this
    {
      |outputs| == IMAGE && |inputs| == IMAGE
    }

    /** It is asked to initialise, or has not finished. */
    predicate Initialising()
      requires Shaped()
      reads this
    {
      Bit2(outputs[CONTROL]) || Bit2(inputs[CONTROL])
    }

    /** Takes the request to initialise, with all toggle bits in their first position, or its withdrawal. */
    method Initialise()
      requires Shaped()
      modifies `inputs
      ensures Shaped()
      ensures inputs == if Bit2(outputs[CONTROL]) == Bit2(old(inputs)[CONTROL]) then old(inputs)
                        else old(inputs)[CONTROL := if Bit2(outputs[CONTROL]) then 0x04 else 0x00]
    {
      if Bit2(outputs[CONTROL]) != Bit2(inputs[CONTROL]) {
        inputs := inputs[CONTROL := if Bit2(outputs[CONTROL]) then 0x04 else 0x00];
      }
    }

    /** Takes a block when the transmit toggle has changed, and acknowledges it. */
    method Accept()
      requires Shaped()
      modifies `inputs, `delivered
      ensures Shaped()
      ensures old(Initialising()) || Bit0(outputs[CONTROL]) == old(Bit0(inputs[CONTROL])) ==>
                inputs == old(inputs) && delivered == old(delivered)
      ensures !old(Initialising()) && Bit0(outputs[CONTROL]) != old(Bit0(inputs[CONTROL])) ==>
                && inputs == old(inputs)[CONTROL := Flip0(old(inputs)[CONTROL])]
                && delivered == old(delivered) + [Block(outputs)]
    {
      if !Initialising() && Bit0(outputs[CONTROL]) != Bit0(inputs[CONTROL]) {
        delivered := delivered + [Block(outputs)];
        inputs := inputs[CONTROL := Flip0(inputs[CONTROL])];
      }
    }

    /** Offers a block, when the one before has been acknowledged. */
    method Place(block: seq<byte>)
      requires Shaped() && |block| <= MAX_DATA_LENGTH
      modifies `inputs, `placed
      ensures Shaped()
      ensures old(Initialising()) || Bit1(outputs[CONTROL]) != old(Bit1(inputs[CONTROL])) ==>
                inputs == old(inputs) && placed == old(placed)
      ensures !old(Initialising()) && Bit1(outputs[CONTROL]) == old(Bit1(inputs[CONTROL])) ==>
                && inputs[CONTROL] == Flip1(old(inputs)[CONTROL]) && Block(inputs) == block
                && placed == old(placed) + [block]
    {
      if !Initialising() && Bit1(outputs[CONTROL]) == Bit1(inputs[CONTROL]) {
        inputs := [Flip1(inputs[CONTROL]), |block|] + block + inputs[DATA + |block|..];
        placed := placed + [block];
      }
    }
  }

  /**
   * A channel that has been asked to start, and its terminal.  Every step keeps `Safe`.  The
   * numbers tell how many blocks had been handed over when the request was written (`asked`),
   * taken when it reached the terminal (`reached`), and handed over, taken, offered and read
   * when it was withdrawn.
   */
  class Link {
    const c: Channel
    const t: Terminal
    ghost var asked: nat
    ghost var reached: nat
    ghost var stale: seq<byte>
    ghost var sent0: nat
    ghost var delivered0: nat
    ghost var placed0: nat
    ghost var read0: nat

    /** The control byte goes to the terminal with the request, which takes nothing from then on. */
    ghost predicate Starting()
      requires c.Shaped() && t.Shaped()
      reads this, c, c.InputData, c.OutputData, t
    {
      var out, outT, inT, inp := c.OutputData[CONTROL], t.outputs[CONTROL], t.inputs[CONTROL], c.InputData[CONTROL];
      && Asks(c.machine)
      && (Bit2(out) <==> c.machine.Istate >= 1)
      && (Bit2(outT) ==> Bit2(out))
      && (Bit2(inT) ==> Bit2(outT) && inT == 0x04)
      && (Bit2(inp) ==> Bit2(inT) && inp == 0x04)
      && (c.machine.Istate == 3 ==> Bit2(inp))
      && (Bit2(out) ==> asked <= |c.sent|)
      && (Bit2(out) && !Bit2(outT) ==> t.outputs == stale)
      && (Bit2(outT) ==> reached == |t.delivered|)
    }

    /** The blocks since the request was withdrawn. */
    ghost predicate Counted()
      reads this, c, t
    {
      sent0 <= |c.sent| && delivered0 <= |t.delivered| && placed0 <= |t.placed| && read0 <= |c.read|
    }

    /** The handshake, with the given signal in place of that of the channel. */
    ghost predicate Linked(signal: bool)
      requires c.Shaped() && t.Shaped()
      reads this, c, c.InputData, c.OutputData, t
    {
      && Cleared(c.machine) && Counted()
      && !Bit2(c.OutputData[CONTROL])
      && (Bit2(t.outputs[CONTROL]) ==> Bit2(t.inputs[CONTROL]))
      && (Bit2(t.inputs[CONTROL]) ==> !Bit0(t.inputs[CONTROL]) && !Bit1(t.inputs[CONTROL]))
      && Sending(c.OutputData[..], Seen(t.outputs), t.inputs, c.InputData[..], c.TxReady,
                 c.sent[sent0..], t.delivered[delivered0..])
      && Receiving(c.OutputData[..], Seen(t.outputs), t.inputs, c.InputData[..], signal,
                   t.placed[placed0..], c.read[read0..])
    }

    ghost predicate Safe()
      reads this, c, c.InputData, c.OutputData, t
    {
      c.Shaped() && t.Shaped() && (Starting() || Linked(c.RxSignal))
    }

    /** A channel that is to start, and a terminal that does not initialise. */
    constructor (c: Channel, t: Terminal)
      requires c.Shaped() && t.Shaped() && c.machine == REQUESTED && !t.Initialising()
      requires !Bit2(c.OutputData[CONTROL]) && !Bit2(c.InputData[CONTROL])
      ensures this.c == c && this.t == t && Safe() && Starting()
    {
      this.c, this.t := c, t;
    }

    method Transmit(data: seq<byte>) returns (code: Code, n: nat)
      requires Safe()
      modifies c`TxReady, c`ComLock, c`given, c`sent, c.OutputData
      ensures Safe() && c.sent == (if code == NO_ERROR then old(c.sent) + [First(data)] else old(c.sent))
      ensures c.given == (if code == NO_ERROR then old(c.given) + [data] else old(c.given))
      ensures code == NO_ERROR ==> n == (if |data| < 22 then |data| else 22) && IsBlockOf(c.sent[|c.sent| - 1], data)
    {
      code, n := c.Transmit(data);
      if code == NO_ERROR && old(Linked(c.RxSignal)) {
        assert c.sent[sent0..] == old(c.sent[sent0..]) + [First(data)];
      }
    }

    method Receive() returns (code: Code, data: seq<byte>)
      requires Safe()
      modifies c`RxSignal, c`ComLock, c`read, c.OutputData
      ensures Safe() && c.read == (if code == NO_ERROR then old(c.read) + [data] else old(c.read))
      ensures code == (if !c.Enable then NOT_ENABLED else if !old(c.RxSignal) then RX_NO_SIGNAL
                       else if old(c.ComLock) then COM_LOCKED else NO_ERROR)
      ensures c.ComLock == old(c.ComLock) && (code == NO_ERROR ==> !c.RxSignal)
      ensures c.OutputData[CONTROL]
              == if code == NO_ERROR then Flip1(old(c.OutputData[CONTROL])) else old(c.OutputData[CONTROL])
    {
      code, data := c.Receive();
      if code == NO_ERROR {
        assert Block(c.OutputData[..]) == old(Block(c.OutputData[..]));
        if old(Linked(c.RxSignal)) {
          assert c.read[read0..] == old(c.read[read0..]) + [data];
        }
      }
    }

    /** The turns after the request has been withdrawn: nothing more is written. */
    method ProcessStateMachine()
      requires c.Shaped() && t.Shaped() && Linked(false)
      modifies c`TxReady, c`RxSignal, c`machine, c.OutputData
      ensures Linked(false) && c.OutputData[..] == old(c.OutputData[..])
      ensures old(Linked(c.RxSignal)) || (c.Enable && !c.ComLock) ==> Safe()
      ensures c.Enable && !c.ComLock ==> c.TxReady == (Bit0(c.InputData[CONTROL]) == Bit0(c.OutputData[CONTROL]))
    {
      StaysCleared(c.machine, Bit2(c.InputData[CONTROL]), c.OutputData[..]);
      c.ProcessStateMachine();
    }

    /**
     * A turn of the first half of the start-up.  The one that withdraws the request makes the
     * channel safe exactly when the receive bit is in its first position then: else a signal,
     * which is looked up before the control byte is cleared, is left over.  Blocks handed over
     * between the request and this turn are lost: until the request reached the terminal, that
     * worked on an older image, then it took nothing, and later it takes the blocks from
     * `sent0` on.
     */
    method StartTurn()
      requires c.Shaped() && t.Shaped() && Starting()
      modifies this, c`TxReady, c`RxSignal, c`machine, c.OutputData
      ensures c.Enable && !c.ComLock ==>
                && c.TxReady == (Bit0(c.InputData[CONTROL]) == old(Bit0(c.OutputData[CONTROL])))
                && c.RxSignal == (Bit1(c.InputData[CONTROL]) != old(Bit1(c.OutputData[CONTROL])))
                && c.machine == Turn(old(c.machine), Bit2(c.InputData[CONTROL]))
                && c.OutputData[..] == ClearOutput(AskInit(old(c.machine), Bit2(c.InputData[CONTROL])),
                                                   AskOutput(old(c.machine), old(c.OutputData[..])))
      ensures !(c.Enable && !c.ComLock) || old(c.machine).Istate < 2 ==> Starting() && Safe()
      ensures c.Enable && !c.ComLock && old(c.machine).Istate == 0 ==>
                c.machine == Waiting(true, 0) && asked == |c.sent| && stale == t.outputs
      ensures c.Enable && !c.ComLock && old(c.machine).Istate == 2 ==> c.machine.ReqState == c.machine.State == INACTIVE
      ensures c.Enable && !c.ComLock && old(c.machine).Istate == 3 ==>
                && c.machine == Waiting(false, 0) && Linked(false)
                && asked == old(asked) <= sent0 == |c.sent| && delivered0 == |t.delivered| == old(reached)
                && placed0 == |t.placed| && read0 == |c.read|
                && (Safe() <==> !old(Bit1(c.OutputData[CONTROL])))
    {
      AskingTurn(c.machine, Bit2(c.InputData[CONTROL]), c.OutputData[..]);
      ghost var m := c.machine;
      c.ProcessStateMachine();
      if c.Enable && !c.ComLock {
        if m.Istate == 0 {
          asked, stale := |c.sent|, t.outputs;
        } else if m.Istate == 3 {
          sent0, delivered0, placed0, read0 := |c.sent|, |t.delivered|, |t.placed|, |c.read|;
          assert c.OutputData[..][CONTROL] == 0;
        }
      }
    }

    /** What a signal that is left over leads to: a block is read that has not been offered. */
    method LeftOverSignal() returns (data: seq<byte>)
      requires c.Shaped() && t.Shaped() && Linked(false) && c.RxSignal && c.Enable && !c.ComLock
      requires t.placed[placed0..] == c.read[read0..]
      modifies c`RxSignal, c`ComLock, c`read, c.OutputData
      ensures c.read == old(c.read) + [data]
      ensures Counted() && |c.read[read0..]| > |t.placed[placed0..]|
    {
      var _, d := c.Receive();
      data := d;
    }

    /** Process data from the master reaches the terminal. */
    method ExchangeOut()
      requires Safe()
      modifies this`reached, t`outputs
      ensures Safe() && t.outputs == c.OutputData[..]
    {
      if !Bit2(t.outputs[CONTROL]) { reached := |t.delivered|; }
      t.outputs := c.OutputData[..];
    }

    /** Process data from the terminal reaches the master. */
    method ExchangeIn()
      requires Safe()
      modifies c.InputData
      ensures Safe() && c.InputData[..] == t.inputs
    {
      ghost var out, was := c.OutputData[..], c.InputData[..];
      if Linked(c.RxSignal) {
        ComingIn(out, Seen(t.outputs), t.inputs, was, c.TxReady, c.RxSignal, c.sent[sent0..], t.delivered[delivered0..],
                 t.placed[placed0..], c.read[read0..]);
      }
      forall i | 0 <= i < IMAGE { c.InputData[i] := t.inputs[i]; }
      assert c.InputData[..] == t.inputs && c.OutputData[..] == out;
    }

    /** The terminal begins or ends to initialise, when it is asked to. */
    method Initialise()
      requires Safe()
      modifies t`inputs
      ensures Safe() && Bit2(t.inputs[CONTROL]) == Bit2(t.outputs[CONTROL])
    {
      t.Initialise();
    }

    /** The request reaches the terminal, and its answer the master. */
    method TakeRequest()
      requires Safe() && Starting() && Bit2(c.OutputData[CONTROL])
      modifies this`reached, t`outputs, t`inputs, c.InputData
      ensures Safe() && Starting() && c.InputData[CONTROL] == 0x04
      ensures c.OutputData[..] == old(c.OutputData[..])
    {
      hide Sending, Receiving, Seen, Block;
      ExchangeOut();
      Initialise();
      ExchangeIn();
    }

    /** A block that is signalled while the request is written, and read while the terminal takes the request. */
    method ReadWhileAsking() returns (taken: seq<byte>)
      requires Safe() && c.machine == REQUESTED && c.Enable && !c.ComLock
      requires Bit1(c.InputData[CONTROL]) && !Bit1(c.OutputData[CONTROL])
      modifies this, c, c.InputData, c.OutputData, t`inputs, t`outputs
      ensures Safe() && Starting() && c.machine == Waiting(true, 0) && c.Enable && !c.ComLock
      ensures c.InputData[CONTROL] == 0x04 && Bit1(c.OutputData[CONTROL])
      ensures c.read == old(c.read) + [taken]
    {
      hide Sending, Receiving, Seen, Block;
      StartTurn();
      var _, d := Receive();
      taken := d;
      TakeRequest();
    }

    /**
     * How that comes about: the receive bit that was flipped by such a reading is still set in the
     * control byte when the request is withdrawn.
     */
    method ReadTwice() returns (taken: seq<byte>, data: seq<byte>)
      requires Safe() && c.machine == REQUESTED && c.Enable && !c.ComLock
      requires Bit1(c.InputData[CONTROL]) && !Bit1(c.OutputData[CONTROL])
      modifies this, c, c.InputData, c.OutputData, t`inputs, t`outputs
      ensures c.read == old(c.read) + [taken] + [data] && t.placed == old(t.placed)
      ensures Counted() && c.read[read0..] == [data] && t.placed[placed0..] == []
    {
      hide Sending, Receiving, Seen, Block;
      taken := ReadWhileAsking();
      StartTurn();
      StartTurn();
      data := LeftOverSignal();
    }

    /** `RS485EcEnable` and `RS485EcDisable`. */
    method SetEnable(on: bool)
      requires Safe()
      modifies c`Enable
      ensures Safe() && c.Enable == on
    {
      c.Enable := on;
    }

    method Accept()
      requires Safe()
      modifies t`inputs, t`delivered
      ensures Safe() && old(t.delivered) <= t.delivered
      ensures old(t.Initialising()) ==> t.delivered == old(t.delivered)
      ensures !old(t.Initialising()) ==> Bit0(t.inputs[CONTROL]) == Bit0(t.outputs[CONTROL]) && !t.Initialising()
    {
      t.Accept();
      if t.delivered != old(t.delivered) && old(Linked(c.RxSignal)) {
        assert t.delivered[delivered0..] == old(t.delivered[delivered0..]) + [Block(t.outputs)];
      }
    }

    method Place(block: seq<byte>)
      requires Safe() && |block| <= MAX_DATA_LENGTH
      modifies t`inputs, t`placed
      ensures Safe() && old(t.placed) <= t.placed
    {
      t.Place(block);
      if t.placed != old(t.placed) && old(Linked(c.RxSignal)) {
        assert t.placed[placed0..] == old(t.placed[placed0..]) + [block];
      }
    }

    /** A full cycle takes a block all the way, and the channel is ready for the next one. */
    method Cycle()
      requires Safe() && Cleared(c.machine) && c.Enable && !c.ComLock
      modifies this`reached, t`outputs, t`inputs, t`delivered, c.InputData, c`TxReady, c`RxSignal, c`machine,
               c.OutputData
      ensures Safe() && Counted() && t.delivered[delivered0..] == c.sent[sent0..] && c.sent == old(c.sent) && c.TxReady
      ensures sent0 <= |c.given| && AreBlocksOf(t.delivered[delivered0..], c.given[sent0..])
    {
      ExchangeOut();
      Initialise();
      Accept();
      ExchangeIn();
      ProcessStateMachine();
      BlocksFrom(c.sent, c.given, sent0);
    }
  }
}
