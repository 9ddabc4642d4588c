/**
 * SDO upload from a slave (`ecx_SDOread`): the answers are put together in the
 * caller's buffer.  The code checks the announced size only, and as a signed
 * number, so a copy may leave the buffer; the model stops there and says so.
 */
module SdoUpload {
  import opened Common
  import opened Sequences
  import opened Frames
  import opened SdoTransfer

  const ECT_SDO_UP_REQ := Command(2, false, 0, false)
  const ECT_SDO_UP_REQ_CA := Command(2, true, 0, false)
  const ECT_SDO_SEG_UP_REQ := Command(3, false, 0, false)

  /** The answer carries a segment. */
  predicate BringsSegment(r: Option<Message>) {
    r.Some? && Whole(r.value) && IsResponse(r.value) && IsSegment(r.value)
  }

  /** Number of bytes taken from a segment. */
  function SegmentSize(m: Message): nat {
    var n := Remaining(m.length, 3);
    if IsLast(m) && n == 7 then 7 - m.command.middle % 8 else n
  }

  /** The bytes taken from an answer, if any, are inside the mailbox. */
  predicate Sound(r: Option<Message>) {
    BringsSegment(r) ==> SegmentSize(r.value) <= BODYSIZE
  }

  /** What one answer brings. */
  function Brought(r: Option<Message>): seq<byte> {
    if BringsSegment(r) && Sound(r) then r.value.body[..SegmentSize(r.value)] else []
  }

  /** The data that `n` answers bring; an answer that does not come, or is none, brings nothing. */
  function Data(replies: nat -> Option<Message>, from: nat, n: nat): seq<byte> {
    if n == 0 then []
    else
      Data(replies, from, n - 1) + Brought(replies(from + n - 1))
  }

  /** More answers are expected after this one. */
  predicate GoesOn(r: Option<Message>) {
    r.None? || (BringsSegment(r) && !IsLast(r.value))
  }

  /** The transfer goes on for `n` answers, and is over with the next one. */
  ghost predicate Ends(replies: nat -> Option<Message>, from: nat, n: nat) {
    (forall i :: from <= i < from + n ==> GoesOn(replies(i))) && !GoesOn(replies(from + n))
  }

  /** The first `n` answers stay inside the mailbox and, behind `hp0` bytes, inside a buffer of size `room`. */
  ghost predicate SegmentsInside(replies: nat -> Option<Message>, from: nat, n: nat, hp0: nat, room: nat) {
    (forall i :: from <= i < from + n ==> Sound(replies(i))) && hp0 + |Data(replies, from, n)| <= room
  }

  lemma {:induction false} DataGrows(replies: nat -> Option<Message>, from: nat, n: nat, k: nat)
    requires k <= n
    ensures |Data(replies, from, k)| <= |Data(replies, from, n)|
    decreases n - k
  {
    if k < n { DataGrows(replies, from, n, k + 1); }
  }

  lemma DataStep(replies: nat -> Option<Message>, from: nat, k: nat)
    ensures Data(replies, from, k + 1) == Data(replies, from, k) + Brought(replies(from + k))
  {}

  /** One answer more, or the one that leaves the mailbox or the buffer. */
  lemma InsideStep(replies: nat -> Option<Message>, from: nat, n: nat, k: nat, hp0: nat, room: nat)
    requires k < n && SegmentsInside(replies, from, k, hp0, room)
    ensures var r := replies(from + k);
            if Sound(r) && hp0 + |Data(replies, from, k)|
              + |Brought(r)| <= room then SegmentsInside(replies, from, k + 1, hp0, room)
            else !SegmentsInside(replies, from, n, hp0, room)
  {
    DataStep(replies, from, k);
    DataGrows(replies, from, n, k + 1);
    var r := replies(from + k);
    if Sound(r) && hp0 + |Data(replies, from, k)| + |Brought(r)| <= room {
      forall i | from <= i < from + (k + 1) ensures Sound(replies(i)) {
        assert i < from + k || i == from + k;
      }
    }
  }

  /** Copies `data` into the caller's buffer. */
  method Copy(p: array<byte>, at: nat, data: seq<byte>)
    requires at + |data| <= p.Length
    modifies p
    ensures p[..at + |data|] == old(p[..at]) + data
  {
    forall i | 0 <= i < |data| { p[at + i] := data[i]; }
  }

  /**
   * Takes what one answer brings, if it stays inside: the position behind it, whether
   * more is expected, and whether the answer was in order.
   */
  method Take(p: array<byte>, hp: nat, r: Option<Message>) returns (inside: bool, next: nat, notLast: bool, wkc: int)
    requires hp <= p.Length
    modifies p
    ensures inside <==> Sound(r) && hp + |Brought(r)| <= p.Length
    ensures inside ==> next == hp + |Brought(r)| && p[..next] == old(p[..hp]) + Brought(r)
    ensures notLast <==> GoesOn(r)
    ensures wkc > 0 <==> BringsSegment(r)
  {
    inside, next, notLast, wkc := true, hp, true, 0;
    if r.Some? {
      if BringsSegment(r) {
        wkc := 1;
        var n := SegmentSize(r.value);
        if IsLast(r.value) { notLast := false; }
        inside := n <= BODYSIZE && hp + n <= p.Length;
        if inside {
          Copy(p, hp, r.value.body[..n]);
          next := hp + n;
        }
      } else {
        notLast := false;
      }
    }
  }

  /** The request for the next segment. */
  function SegmentRequest(toggle: bool): Command {
    ECT_SDO_SEG_UP_REQ.(flag := toggle)
  }

  /** A message of the smallest length with this command byte. */
  predicate HasCode(m: Message, code: byte) {
    m.length == 10 && m.command.Valid() && m.command.Code() == code
  }

  /** Requests for segments, with alternating toggle bit. */
  ghost predicate Requests(ms: seq<Message>) {
    forall i :: 0 <= i < |ms| ==> HasCode(ms[i], if i % 2 == 1 then 0x70 else 0x60)
  }

  method Ask(c: SdoClient, out: array<byte>, command: Command) returns (ghost m: Message)
    requires out.Length == BODYSIZE && c.mbx_cnt <= 7
    modifies c`mbx_cnt, c`sent
    ensures c.mbx_cnt <= 7 && c.sent == old(c.sent) + [m] && AreRequests([m], old(c.mbx_cnt), c.mbx_cnt)
    ensures WellFormed(m) && m.length == 10 && m.command == command && m.body == out[..]
  {
    m := c.Send(out, 0x0a, command);
  }

  lemma RequestsAppend(ms: seq<Message>, m: Message)
    requires Requests(ms) && HasCode(m, if |ms| % 2 == 1 then 0x70 else 0x60)
    ensures Requests(ms + [m])
  {}

  /** Asks for one segment and takes what comes. */
  method ReadNext(c: SdoClient, out: array<byte>, p: array<byte>, hp: nat, toggle: bool)
    returns (inside: bool, next: nat, notLast: bool, wkc: int, ghost m: Message)
    requires out.Length == BODYSIZE && c.mbx_cnt <= 7 && hp <= p.Length
    modifies p, c`mbx_cnt, c`sent, c`received
    ensures c.mbx_cnt <= 7 && c.received == old(c.received) + 1 && AreRequests([m], old(c.mbx_cnt), c.mbx_cnt)
    ensures c.sent == old(c.sent) + [m] && HasCode(m, if toggle then 0x70 else 0x60)
    ensures var r := c.replies(old(c.received));
            && (inside <==> Sound(r) && hp + |Brought(r)| <= p.Length)
            && (inside ==> next == hp + |Brought(r)| && p[..next] == old(p[..hp]) + Brought(r))
            && (notLast <==> GoesOn(r)) && (wkc > 0 <==> BringsSegment(r))
  {
    m := Ask(c, out, SegmentRequest(toggle));
    var r := c.Receive();
    inside, next, notLast, wkc := Take(p, hp, r);
  }

  /** The buffer holds what was there before and what `k` answers bring. */
  ghost predicate Collected(replies: nat -> Option<Message>, from: nat, k: nat, before: seq<byte>, got: seq<byte>,
                            room: nat) {
    SegmentsInside(replies, from, k, |before|, room) && got == before + Data(replies, from, k)
  }

  lemma CollectStep(replies: nat -> Option<Message>, from: nat, n: nat, k: nat, before: seq<byte>, got: seq<byte>,
                    now: seq<byte>, room: nat)
    requires Collected(replies, from, k, before, got, room) && k <= n
    ensures var r := replies(from + k);
            if Sound(r) && |got| + |Brought(r)| <= room
            then now == got + Brought(r) ==> Collected(replies, from, k + 1, before, now, room)
            else !SegmentsInside(replies, from, n + 1, |before|, room)
  {
    InsideStep(replies, from, n + 1, k, |before|, room);
    DataStep(replies, from, k);
  }

  lemma CollectedIs(replies: nat -> Option<Message>, from: nat, k: nat, before: seq<byte>, got: seq<byte>, room: nat)
    requires Collected(replies, from, k, before, got, room)
    ensures SegmentsInside(replies, from, k, |before|, room) && got == before + Data(replies, from, k)
  {}

  lemma NothingYet(replies: nat -> Option<Message>, from: nat, before: seq<byte>, room: nat, cnt: nat)
    requires |before| <= room
    ensures Collected(replies, from, 0, before, before, room) && Requests([]) && AreRequests([], cnt, cnt)
  {}

  /** The same as one of the answers up to the one that ends the transfer. */
  method ReadStep(c: SdoClient, out: array<byte>, p: array<byte>, hp: nat, toggle: bool,
                  ghost before: seq<byte>, ghost from: nat, ghost k: nat, ghost n: nat)
    returns (inside: bool, next: nat, notLast: bool, wkc: int, ghost m: Message)
    requires out.Length == BODYSIZE && out != p && c.mbx_cnt <= 7
    requires k <= n && c.received == from + k
    requires hp <= p.Length && Collected(c.replies, from, k, before, p[..hp], p.Length)
    modifies p, c`mbx_cnt, c`sent, c`received
    ensures c.mbx_cnt <= 7 && c.received == from + k + 1 && AreRequests([m], old(c.mbx_cnt), c.mbx_cnt)
    ensures c.sent == old(c.sent) + [m] && HasCode(m, if toggle then 0x70 else 0x60)
    ensures inside ==> next <= p.Length && Collected(c.replies, from, k + 1, before, p[..next], p.Length)
    ensures !inside ==> !SegmentsInside(c.replies, from, n + 1, |before|, p.Length)
    ensures (notLast <==> GoesOn(c.replies(from + k))) && (wkc > 0 <==> BringsSegment(c.replies(from + k)))
  {
    ghost var got := p[..hp];
    inside, next, notLast, wkc, m := ReadNext(c, out, p, hp, toggle);
    CollectStep(c.replies, from, n, k, before, got, if inside then p[..next] else [], p.Length);
  }

  /** Collects the segments behind the first `hp0` bytes. */
  method ReadSegments(c: SdoClient, out: array<byte>, p: array<byte>, hp0: nat, ghost n: nat)
    returns (inside: bool, wkc: int, psize: nat, ghost ms: seq<Message>)
    requires out.Length == BODYSIZE && out != p && c.mbx_cnt <= 7 && hp0 <= p.Length
    requires Ends(c.replies, c.received, n)
    modifies p, c`mbx_cnt, c`sent, c`received
    ensures c.mbx_cnt <= 7 && c.sent == old(c.sent) + ms && Requests(ms) && AreRequests(ms, old(c.mbx_cnt), c.mbx_cnt)
    ensures inside <==> SegmentsInside(c.replies, old(c.received), n + 1, hp0, p.Length)
    ensures inside ==> psize <= p.Length && p[..psize] == old(p[..hp0]) + Data(c.replies, old(c.received), n + 1)
    ensures inside ==> (wkc > 0 <==> BringsSegment(c.replies(old(c.received) + n)))
  {
    hide Requests, AreRequests, Collected, SegmentsInside, HasCode, Brought, BringsSegment;
    ghost var from: nat, before: seq<byte> := c.received, p[..hp0];
    ghost var k: nat := 0;
    var hp: nat := hp0;
    var notLast, toggle := true, false;
    inside, wkc, ms := true, 0, [];
    NothingYet(c.replies, from, before, p.Length, c.mbx_cnt);
    while notLast && inside
      invariant c.mbx_cnt <= 7 && c.sent == old(c.sent) + ms && Requests(ms) && toggle == (|ms| % 2 == 1)
      invariant AreRequests(ms, old(c.mbx_cnt), c.mbx_cnt)
      invariant k <= n + 1 && c.received == from + k && (k <= n <==> notLast)
      invariant hp <= p.Length && (inside ==> Collected(c.replies, from, k, before, p[..hp], p.Length))
      invariant !inside ==> !SegmentsInside(c.replies, from, n + 1, hp0, p.Length)
      invariant k == n + 1 ==> (wkc > 0 <==> BringsSegment(c.replies(from + n)))
      decreases n + 1 - k
    {
      ghost var m;
      ghost var cnt := c.mbx_cnt;
      var next;
      inside, next, notLast, wkc, m := ReadStep(c, out, p, hp, toggle, before, from, k, n);
      RequestsAppend(ms, m);
      RequestsJoin(ms, [m], old(c.mbx_cnt), cnt, c.mbx_cnt);
      ms := ms + [m];
      toggle := !toggle;
      k := k + 1;
      if inside { hp := next; }
    }
    if inside { CollectedIs(c.replies, from, k, before, p[..hp], p.Length); }
    psize := hp;
  }

  /** The first answer belongs to the object. */
  predicate Answers(r: Option<Message>, index: word) {
    r.Some? && Whole(r.value) && IsResponse(r.value) && IndexOf(r.value) == index
  }

  /** The size of the object a slave announces, which the code takes for a signed number. */
  function Announced(m: Message): int
    requires Whole(m)
  {
    if TotalSize(m) < 0x8000_0000 then TotalSize(m) else TotalSize(m) - 0x1_0000_0000
  }

  /** Number of bytes copied from the first answer. */
  function FirstSize(m: Message): int
    requires Whole(m)
  {
    if IsExpedited(m) then |ExpeditedData(m)|
    else if Remaining(m.length, 10) < Announced(m) then Remaining(m.length, 10) else Announced(m)
  }

  /** The announced size is not above that of the buffer. */
  predicate Taken(m: Message, room: nat)
    requires Whole(m)
  {
    (if IsExpedited(m) then FirstSize(m) else Announced(m)) <= room
  }

  /** More is to come in segments. */
  predicate InSegments(m: Message, room: nat)
    requires Whole(m)
  {
    !IsExpedited(m) && Taken(m, room) && Remaining(m.length, 10) < Announced(m)
  }

  /** The bytes copied are there to be copied: not fewer than none, and inside the mailbox. */
  predicate Copyable(m: Message)
    requires Whole(m)
  {
    0 <= FirstSize(m) <= BODYSIZE - 7
  }

  /** What the first answer brings. */
  function FirstData(m: Message): seq<byte>
    requires Whole(m) && Copyable(m)
  {
    if IsExpedited(m) then ExpeditedData(m) else m.body[7..7 + FirstSize(m)]
  }

  /** The first answer brings the object, or its first part. */
  method TakeFirst(p: array<byte>, m: Message) returns (inside: bool, ok: bool, psize: nat)
    requires Whole(m)
    modifies p
    ensures ok <==> Taken(m, p.Length)
    ensures inside <==> (Taken(m, p.Length) ==> Copyable(m))
    ensures psize <= p.Length && (!ok ==> psize == p.Length && p[..] == old(p[..]))
    ensures ok && inside ==> p[..psize] == FirstData(m)
  {
    inside, ok, psize := true, false, p.Length;
    if IsExpedited(m) {
      var bytesize := 4 - m.command.middle / 2 % 4;
      if p.Length >= bytesize {
        ok := true;
        Copy(p, 0, m.body[3..3 + bytesize]);
        psize := bytesize;
      }
    } else {
      var SDOlen := Announced(m);
      if SDOlen <= p.Length {
        ok := true;
        var Framedatasize: int := Remaining(m.length, 10);
        var n := if Framedatasize < SDOlen then Framedatasize else SDOlen;
        inside := 0 <= n <= BODYSIZE - 7;
        if inside {
          Copy(p, 0, m.body[7..7 + n]);
          psize := n;
        }
      }
    }
  }

  /** The object is in the buffer when the upload has succeeded. */
  ghost predicate Outcome(replies: nat -> Option<Message>, from: nat, index: word, n: nat, room: nat, got: seq<byte>,
                          ok: bool) {
    if !Answers(replies(from), index) || !Taken(replies(from).value, room) then !ok
    else
      var m := replies(from).value;
      && Copyable(m)
      && if InSegments(m, room)
         then got == FirstData(m) + Data(replies, from + 1, n + 1) && (ok <==> BringsSegment(replies(from + 1 + n)))
         else got == FirstData(m) && ok
  }

  /** Every copy stays inside the mailbox it is from and the buffer it is for. */
  ghost predicate Inside(replies: nat -> Option<Message>, from: nat, index: word, n: nat, room: nat) {
    Answers(replies(from), index) && Taken(replies(from).value, room) ==>
      var m := replies(from).value;
      && Copyable(m)
      && (InSegments(m, room) ==> SegmentsInside(replies, from + 1, n + 1, FirstSize(m), room))
  }

  /** If the object comes in segments, the answers come to an end. */
  ghost predicate EndsIfBegun(replies: nat -> Option<Message>, from: nat, index: word, n: nat, room: nat) {
    Answers(replies(from), index) && InSegments(replies(from).value, room) ==> Ends(replies, from + 1, n)
  }

  /** The request for an object. */
  ghost predicate Asks(m: Message, index: word, subindex: byte, CA: bool) {
    && WellFormed(m) && HasCode(m, if CA then 0x50 else 0x40)
    && IndexOf(m) == index && SubIndexOf(m) == Addressed(subindex, CA)
  }

  method AskFor(c: SdoClient, out: array<byte>, index: word, subindex: byte, CA: bool) returns (ghost m: Message)
    requires out.Length == BODYSIZE && c.mbx_cnt <= 7
    modifies out, c`mbx_cnt, c`sent
    ensures c.mbx_cnt <= 7 && c.sent == old(c.sent) + [m] && Asks(m, index, subindex, CA)
    ensures AreRequests([m], old(c.mbx_cnt), c.mbx_cnt)
  {
    FillInit(out, index, Addressed(subindex, CA), 0, []);
    m := Ask(c, out, if CA then ECT_SDO_UP_REQ_CA else ECT_SDO_UP_REQ);
  }

  /** Takes the answer to the request, and the segments if there are any. */
  method TakeAnswers(c: SdoClient, out: array<byte>, p: array<byte>, m: Message, ghost n: nat)
    returns (inside: bool, wkc: int, psize: nat, ghost ms: seq<Message>)
    requires out.Length == BODYSIZE && out != p && c.mbx_cnt <= 7 && Whole(m)
    requires InSegments(m, p.Length) ==> Ends(c.replies, c.received, n)
    modifies p, c`mbx_cnt, c`sent, c`received
    ensures c.mbx_cnt <= 7 && c.sent == old(c.sent) + ms && Requests(ms) && AreRequests(ms, old(c.mbx_cnt), c.mbx_cnt)
    ensures !Taken(m, p.Length) ==> inside && wkc <= 0 && psize == p.Length && p[..] == old(p[..])
    ensures Taken(m, p.Length) ==>
              (inside <==> && Copyable(m)
                           && (InSegments(m, p.Length) ==>
                                 SegmentsInside(c.replies, old(c.received), n + 1, FirstSize(m), p.Length)))
    ensures Taken(m, p.Length) && inside && !InSegments(m, p.Length) ==>
              psize <= p.Length && p[..psize] == FirstData(m) && wkc > 0
    ensures inside && InSegments(m, p.Length) ==>
              && psize <= p.Length && p[..psize] == FirstData(m) + Data(c.replies, old(c.received), n + 1)
              && (wkc > 0 <==> BringsSegment(c.replies(old(c.received) + n)))
  {
    var ok;
    inside, ok, psize := TakeFirst(p, m);
    wkc, ms := if ok then 1 else 0, [];
    NoRequests(c.mbx_cnt);
    if ok && inside && InSegments(m, p.Length) {
      inside, wkc, psize, ms := ReadSegments(c, out, p, psize, n);
    }
  }

  /**
   * Upload of an object into the buffer `p`.  `inside` tells whether every copy stayed
   * inside its buffers; if not, the model stops where the first one would leave them.
   */
  method Read(c: SdoClient, index: word, subindex: byte, CA: bool, p: array<byte>, ghost n: nat)
    returns (inside: bool, wkc: int, psize: nat, ghost request: Message, ghost ms: seq<Message>)
    requires c.mbx_cnt <= 7 && EndsIfBegun(c.replies, c.received, index, n, p.Length)
    modifies p, c`mbx_cnt, c`sent, c`received
    ensures c.mbx_cnt <= 7 && c.sent == old(c.sent) + ([request] + ms) && Requests(ms)
    ensures AreRequests([request] + ms, old(c.mbx_cnt), c.mbx_cnt)
    ensures Asks(request, index, subindex, CA)
    ensures inside <==> Inside(c.replies, old(c.received), index, n, p.Length)
    ensures inside ==> psize <= p.Length && Outcome(c.replies, old(c.received), index, n, p.Length, p[..psize], wkc > 0)
    ensures var r := c.replies(old(c.received));
            !(Answers(r, index) && Taken(r.value, p.Length)) ==> psize == p.Length && p[..] == old(p[..])
  {
    hide AreRequests, HasCode, SegmentsInside, Asks, Ends, BringsSegment, FirstData, Data;
    var out := new byte[BODYSIZE](_ => 0);
    request := AskFor(c, out, index, subindex, CA);
    ghost var cnt := c.mbx_cnt;
    inside, wkc, psize, ms := true, 0, p.Length, [];
    NoRequests(cnt);
    var r := c.Receive();
    if Answers(r, index) {
      inside, wkc, psize, ms := TakeAnswers(c, out, p, r.value, n);
    }
    RequestsJoin([request], ms, old(c.mbx_cnt), cnt, c.mbx_cnt);
  }

  /**
   * When the length fields stay inside the mailbox, what can go wrong is a size that
   * the code takes for a negative number, and segments that bring more than announced.
   */
  lemma InsideExactly(replies: nat -> Option<Message>, from: nat, index: word, n: nat, room: nat)
    requires Answers(replies(from), index) && WellFormed(replies(from).value) && !IsExpedited(replies(from).value)
    requires forall i :: from < i <= from + 1 + n && BringsSegment(replies(i)) ==> WellFormed(replies(i).value)
    ensures var m := replies(from).value;
            Inside(replies, from, index, n, room) <==>
              if TotalSize(m) >= 0x8000_0000 then false
              else if TotalSize(m) > room then true
              else TotalSize(m) <= m.length - 10 || |InitData(m)| + |Data(replies, from + 1, n + 1)| <= room
  {
    var m := replies(from).value;
    forall i | from + 1 <= i < from + 1 + (n + 1) ensures Sound(replies(i)) {
      assert from < i <= from + 1 + n;
    }
    assert !IsExpedited(m) && (TotalSize(m) < 0x8000_0000 ==> 0 <= FirstSize(m) <= m.length - 10);
  }

  /** An answer with the given index and size, which brings no data yet. */
  function Announcement(index: word, total: nat): (m: Message)
    requires total < 0x1_0000_0000
    ensures Answers(Some(m), index) && WellFormed(m) && !IsExpedited(m) && TotalSize(m) == total && InitData(m) == []
  {
    var body := [Lo(index), Hi(index), 0] + LongBytes(total) + Repeat<byte>(0, BODYSIZE - 7);
    assert body[3..7] == LongBytes(total);
    Message(10, ECT_MBXT_COE, 1, ECT_COES_SDORES, Command(2, false, 0, true), body)
  }

  /** An announced size of 2^31 is taken as fitting every buffer, and nothing of that size can be copied. */
  lemma HugeSizeIsTaken(index: word, n: nat, room: nat)
    ensures var m := Announcement(index, 0x8000_0000);
            Taken(m, room) && FirstSize(m) == -0x8000_0000 && !Inside(_ => Some(m), 0, index, n, room)
  {}

  /** A last segment with so many bytes. */
  function FullSegment(n: nat): (m: Message)
    requires 7 < n <= BODYSIZE
    ensures BringsSegment(Some(m)) && WellFormed(m) && IsLast(m) && Brought(Some(m)) == Repeat<byte>(0, n)
  {
    var body := Repeat<byte>(0, n) + Repeat<byte>(0, BODYSIZE - n);
    assert body[..n] == Repeat<byte>(0, n);
    Message(n + 3, ECT_MBXT_COE, 1, ECT_COES_SDORES, Command(0, false, 0, true), body)
  }

  /** A slave that announces as much as fits and then sends one byte more. */
  function TooMuch(index: word, room: nat): nat -> Option<Message>
    requires 7 <= room < BODYSIZE
  {
    i => if i == 0 then Some(Announcement(index, room)) else Some(FullSegment(room + 1))
  }

  /** The code takes it all, and overruns the buffer. */
  lemma LongSegmentOverruns(index: word, room: nat)
    requires 7 <= room < BODYSIZE
    ensures EndsIfBegun(TooMuch(index, room), 0, index, 0, room) && !Inside(TooMuch(index, room), 0, index, 0, room)
  {
    var replies := TooMuch(index, room);
    assert replies(0) == Some(Announcement(index, room)) && replies(0 + 1) == Some(FullSegment(room + 1));
    DataStep(replies, 1, 0);
    assert replies(1 + 0) == Some(FullSegment(room + 1));
  }

  /** The answer a slave makes of a message in the format of a download. */
  function AsReply(m: Message): Message {
    m.(service := ECT_COES_SDORES)
  }

  /** The slave answers with these messages, one after the other. */
  ghost predicate AnswersWith(replies: nat -> Option<Message>, from: nat, ms: seq<Message>) {
    forall i {:trigger ms[i]} :: 0 <= i < |ms| ==> replies(from + i) == Some(AsReply(ms[i]))
  }

  /** A segment in the format of a download is taken for what it is. */
  lemma SegmentBrought(m: Message)
    requires WellFormed(m) && IsSegment(m)
    ensures var r := Some(AsReply(m));
            BringsSegment(r) && Sound(r) && Brought(r) == SegmentData(m) && IsLast(r.value) == IsLast(m)
  {}

  lemma JoinedStep(ms: seq<Message>, n: nat)
    requires n < |ms| && AllWellFormed(ms)
    ensures Joined(ms[..n + 1]) == Joined(ms[..n]) + SegmentData(ms[n])
  {
    assert ms[..n + 1] == ms[..n] + [ms[n]];
    JoinedAppend(ms[..n], ms[n]);
  }

  lemma OneJoined(replies: nat -> Option<Message>, from: nat, ms: seq<Message>, n: nat)
    requires n < |ms| && AllWellFormed(ms) && IsSegment(ms[n])
    requires AnswersWith(replies, from, ms)
    ensures Data(replies, from, n) == Joined(ms[..n]) ==> Data(replies, from, n + 1) == Joined(ms[..n + 1])
  {
    assert replies(from + n) == Some(AsReply(ms[n]));
    SegmentBrought(ms[n]);
    DataStep(replies, from, n);
    JoinedStep(ms, n);
  }

  lemma {:induction false} DataIsJoined(replies: nat -> Option<Message>, from: nat, ms: seq<Message>, n: nat)
    requires n <= |ms| && AllWellFormed(ms) && forall i :: 0 <= i < |ms| ==> IsSegment(ms[i])
    requires AnswersWith(replies, from, ms)
    ensures Data(replies, from, n) == Joined(ms[..n])
  {
    if n > 0 {
      DataIsJoined(replies, from, ms, n - 1);
      OneJoined(replies, from, ms, n - 1);
    }
  }

  lemma AllSegments(ms: seq<Message>)
    requires InSequence(ms)
    ensures forall i :: 0 <= i < |ms| ==> IsSegment(ms[i])
  {
    if ms != [] {
      var front := ms[..|ms| - 1];
      GoingAlternates(front, Toggled(ms[|ms| - 1]));
      forall i | 0 <= i < |front| ensures IsSegment(ms[i]) { assert front[i] == ms[i]; }
    }
  }

  lemma SegmentsEnd(replies: nat -> Option<Message>, from: nat, ms: seq<Message>)
    requires ms != [] && AllWellFormed(ms) && InSequence(ms) && AnswersWith(replies, from, ms)
    ensures Ends(replies, from, |ms| - 1) && BringsSegment(replies(from + |ms| - 1))
  {
    var front := ms[..|ms| - 1];
    GoingAlternates(front, Toggled(ms[|ms| - 1]));
    forall i | from <= i < from + (|ms| - 1) ensures GoesOn(replies(i)) {
      assert front[i - from] == ms[i - from];
      assert replies(from + (i - from)) == Some(AsReply(ms[i - from]));
    }
    assert replies(from + (|ms| - 1)) == Some(AsReply(ms[|ms| - 1]));
    assert IsSegment(ms[|ms| - 1]) && IsLast(ms[|ms| - 1]);
  }

  lemma AnswersRest(replies: nat -> Option<Message>, from: nat, ms: seq<Message>)
    requires ms != [] && AnswersWith(replies, from, ms)
    ensures replies(from) == Some(AsReply(ms[0])) && AnswersWith(replies, from + 1, ms[1..])
  {
    assert replies(from + 0) == Some(AsReply(ms[0]));
    forall i | 0 <= i < |ms[1..]| ensures replies(from + 1 + i) == Some(AsReply(ms[1..][i])) {
      assert replies(from + (1 + i)) == Some(AsReply(ms[1 + i]));
    }
  }

  /** All segments together. */
  lemma RestGives(replies: nat -> Option<Message>, from: nat, rest: seq<Message>)
    requires rest != [] && AllWellFormed(rest) && InSequence(rest) && AnswersWith(replies, from, rest)
    ensures Ends(replies, from, |rest| - 1) && BringsSegment(replies(from + |rest| - 1))
    ensures Data(replies, from, |rest|) == Joined(rest) && forall i :: from <= i < from + |rest| ==> Sound(replies(i))
  {
    SegmentsEnd(replies, from, rest);
    AllSegments(rest);
    DataIsJoined(replies, from, rest, |rest|);
    assert rest[..|rest|] == rest;
    forall i | from <= i < from + |rest| ensures Sound(replies(i)) {
      assert replies(from + (i - from)) == Some(AsReply(rest[i - from]));
      SegmentBrought(rest[i - from]);
    }
  }

  /** The first message of a download, as an answer. */
  lemma FirstGives(m: Message, index: word, room: nat)
    requires WellFormed(m) && IndexOf(m) == index
    requires (if IsExpedited(m) then |ExpeditedData(m)| else TotalSize(m)) <= room < 0x8000_0000
    ensures var r := AsReply(m);
            && Answers(Some(r), index) && Taken(r, room) && Copyable(r)
            && (InSegments(r, room) <==> !IsExpedited(m) && |InitData(m)| < TotalSize(m))
            && (if IsExpedited(m) then FirstData(r) == ExpeditedData(m)
                else if InSegments(r, room) then FirstData(r) == InitData(m)
                else FirstData(r) == InitData(m)[..TotalSize(m)])
  {}

  /** A download in parts, as answers. */
  lemma UploadParts(replies: nat -> Option<Message>, from: nat, ms: seq<Message>, index: word, obj: seq<byte>,
                    room: nat)
    requires |ms| > 1 && AllWellFormed(ms) && IndexOf(ms[0]) == index && !IsExpedited(ms[0])
    requires Download(ms) == Some(obj) && |obj| <= room < 0x8000_0000 && AnswersWith(replies, from, ms)
    ensures var n := |ms| - 2;
            && EndsIfBegun(replies, from, index, n, room) && Inside(replies, from, index, n, room)
            && forall got, ok :: Outcome(replies, from, index, n, room, got, ok) ==> ok && got == obj
  {
    hide AnswersWith, Joined, Data, InSequence, Ends, Answers, Taken, InSegments, FirstData, BringsSegment, Sound;
    AnswersRest(replies, from, ms);
    FirstGives(ms[0], index, room);
    RestGives(replies, from + 1, ms[1..]);
  }

  /**
   * Round trip: a slave that answers in the format in which an object is
   * downloaded gives the object back, byte for byte, with its size.  The size of
   * the buffer is a signed 32 bit number.
   */
  lemma UploadGivesObject(replies: nat -> Option<Message>, from: nat, ms: seq<Message>, index: word, obj: seq<byte>,
                          room: nat)
    requires ms != [] && AllWellFormed(ms) && IndexOf(ms[0]) == index
    requires Download(ms) == Some(obj) && |obj| <= room < 0x8000_0000 && AnswersWith(replies, from, ms)
    ensures var n := if |ms| > 1 then |ms| - 2 else 0;
            && EndsIfBegun(replies, from, index, n, room) && Inside(replies, from, index, n, room)
            && forall got, ok :: Outcome(replies, from, index, n, room, got, ok) ==> ok && got == obj
  {
    if |ms| > 1 && !IsExpedited(ms[0]) {
      UploadParts(replies, from, ms, index, obj, room);
    } else {
      AnswersRest(replies, from, ms);
      FirstGives(ms[0], index, room);
    }
  }
}
