/**
 * File transfer over the mailbox (`ecx_FOEwrite`, `ecx_FOEread`, section 5.8 of
 * ETG.1000.6): the file goes in packets numbered from one, all full but the
 * last, which is strictly shorter and may be empty.
 */
module FoeTransfer {
  import opened Common
  import opened Sequences
  import opened Frames
  import opened SdoTransfer

  /** Size of a mailbox behind mailbox header, operation code and packet number. */
  const DATASIZE: nat := EC_MAXMBX + 1 - 12

  const ECT_MBXT_FOE := 0x04

  const EC_ERR_TYPE_PACKET_ERROR := 3
  const EC_ERR_TYPE_FOE_ERROR := 5
  const EC_ERR_TYPE_FOE_BUF2SMALL := 6
  const EC_ERR_TYPE_FOE_PACKETNUMBER := 7
  const EC_ERR_TYPE_FOE_FILE_NOTFOUND := 10

  datatype Operation = READ | WRITE | DATA | ACK | ERROR | BUSY | Other

  /** A message; `number` is the packet number, the password or the error code. */
  datatype FoeMessage = FoeMessage(length: word, mbxtype: nat, count: nat, opcode: Operation, number: nat,
    data: seq<byte>)

  /** A FoE message whose length field stays inside the mailbox. */
  predicate IsFoe(m: FoeMessage) {
    m.mbxtype == ECT_MBXT_FOE && |m.data| == DATASIZE && 6 <= m.length <= DATASIZE + 6
  }

  function Content(m: FoeMessage): seq<byte>
    requires IsFoe(m)
  {
    m.data[..m.length - 6]
  }

  /** A file in packets of at most `max` bytes. */
  function Split(file: seq<byte>, max: nat): (parts: seq<seq<byte>>)
    requires max > 0
    ensures parts != []
    decreases |file|
  {
    if |file| < max then [file] else [file[..max]] + Split(file[max..], max)
  }

  function Concat(parts: seq<seq<byte>>): seq<byte> {
    if parts == [] then [] else Concat(parts[..|parts| - 1]) + parts[|parts| - 1]
  }

  lemma {:induction false} ConcatCons(part: seq<byte>, parts: seq<seq<byte>>)
    ensures Concat([part] + parts) == part + Concat(parts)
  {
    if parts == [] {
      assert [part] + parts == [part] && [part][..0] == [];
    } else {
      var n := |parts| - 1;
      assert ([part] + parts)[..n + 1] == [part] + parts[..n];
      ConcatCons(part, parts[..n]);
    }
  }

  /** The packets make up the file; all are full but the last, which is shorter. */
  lemma {:induction false} SplitIsWhole(file: seq<byte>, max: nat)
    requires max > 0
    ensures var parts := Split(file, max);
            && Concat(parts) == file
            && (forall i :: 0 <= i < |parts| - 1 ==> |parts[i]| == max)
            && |parts[|parts| - 1]| < max
    decreases |file|
  {
    if |file| < max {
      assert [file][..0] == [];
      assert [] + file == file;
    } else {
      hide Concat;
      var rest := Split(file[max..], max);
      SplitIsWhole(file[max..], max);
      ConcatCons(file[..max], rest);
      assert Split(file, max) == [file[..max]] + rest;
      assert file[..max] + file[max..] == file;
    }
  }

  lemma MulLess(m: nat, a: nat, b: nat)
    ensures a < b ==> m * a + m <= m * b
  {
    if a < b { assert m * b == m * (a + 1) + m * (b - a - 1); }
  }

  lemma Quotient(n: nat, m: nat, q: nat, r: nat)
    requires m > 0 && n == m * q + r && r < m
    ensures n / m == q
  {
    var d := n / m;
    assert n == m * d + n % m;
    MulLess(m, q, d);
    MulLess(m, d, q);
  }

  lemma OneMore(n: nat, m: nat)
    requires n >= m > 0
    ensures n / m == (n - m) / m + 1
  {
    var q := (n - m) / m;
    assert n == m * (q + 1) + (n - m) % m;
    Quotient(n, m, q + 1, (n - m) % m);
  }

  lemma Less(n: nat, m: nat)
    requires n < m
    ensures n / m == 0
  {
    Quotient(n, m, 0, n);
  }

  /** How many packets there are. */
  lemma {:induction false} SplitCount(file: seq<byte>, max: nat)
    requires max > 0
    ensures |Split(file, max)| == |file| / max + 1
    decreases |file|
  {
    if |file| >= max {
      SplitCount(file[max..], max);
      OneMore(|file|, max);
    } else {
      Less(|file|, max);
    }
  }

  /**
   * What is left to send when the file has been sent up to `hp`; `final`: a full last packet still
   * wants an empty one behind it.
   */
  function Left(file: seq<byte>, hp: nat, final: bool, max: nat): seq<seq<byte>>
    requires hp <= |file| && max > 0
  {
    if hp < |file| || final then Split(file[hp..], max) else []
  }

  /** Size of the next packet. */
  function Step(rest: nat, max: nat): (t: nat)
    ensures t <= rest && t <= max
  {
    if rest > max then max else rest
  }

  lemma NextPart(file: seq<byte>, hp: nat, final: bool, max: nat)
    requires hp <= |file| && max > 0 && (hp < |file| || final)
    ensures var t := Step(|file| - hp, max);
            Left(file, hp, final, max) == [file[hp..hp + t]] + Left(file, hp + t, hp + t == |file| && t == max, max)
  {
    var t := Step(|file| - hp, max);
    assert file[hp..][t..] == file[hp + t..];
    assert file[hp..][..t] == file[hp..hp + t];
    if t < max {
      assert file[hp..hp + t] == file[hp..];
      assert Split(file[hp..], max) == [file[hp..]] + [];
    }
  }

  /** The messages are data packets, numbered from one, with these contents. */
  ghost predicate SentParts(ms: seq<FoeMessage>, parts: seq<seq<byte>>) {
    && |ms| == |parts|
    && forall i :: 0 <= i < |ms| ==>
         IsFoe(ms[i]) && ms[i].opcode == DATA && ms[i].number == i + 1 && Content(ms[i]) == parts[i]
  }

  /** The length field counts the six bytes of header and the content, which stands in front. */
  lemma ContentIs(m: FoeMessage)
    requires IsFoe(m)
    ensures m.mbxtype == 0x04 && |m.data| == 1475 && Content(m) <= m.data && m.length == 6 + |Content(m)|
  {}

  /** Mailbox counters, one after the other, behind the counter `cnt`; `now` is the last one. */
  ghost predicate Counted(ms: seq<FoeMessage>, cnt: nat, now: nat) {
    && (forall i :: 0 <= i < |ms| ==> ms[i].count == CountAt(cnt, i))
    && now == if ms == [] then cnt else ms[|ms| - 1].count
  }

  lemma NoneCounted(cnt: nat)
    ensures Counted([], cnt, cnt)
  {}

  lemma CountedNext(ms: seq<FoeMessage>, m: FoeMessage, cnt: nat, now: nat)
    requires now <= 7 && Counted(ms, cnt, now) && m.count == NextCount(now)
    ensures Counted(ms + [m], cnt, m.count)
  {
    if ms != [] { CountOn(cnt, |ms| - 1, 0); }
  }

  lemma CountedJoin(m: FoeMessage, ms: seq<FoeMessage>, cnt: nat, now: nat)
    requires cnt <= 7 && m.count == NextCount(cnt) && Counted(ms, m.count, now)
    ensures Counted([m] + ms, cnt, now)
  {
    hide CountAt;
    var all := [m] + ms;
    forall i | 1 <= i < |all| ensures all[i] == ms[i - 1] && all[i].count == CountAt(cnt, i) {
      CountOn(cnt, 0, i - 1);
    }
  }

  /** The packets sent are those of the file up to `hp`. */
  ghost predicate Progress(ms: seq<FoeMessage>, done: seq<seq<byte>>, file: seq<byte>, hp: nat, final: bool, max: nat) {
    && hp <= |file| && max > 0 && SentParts(ms, done)
    && (file == [] ==> done == [] && !final)
    && (file != [] ==> done + Left(file, hp, final, max) == Split(file, max))
  }

  lemma SentPartsAppend(ms: seq<FoeMessage>, parts: seq<seq<byte>>, m: FoeMessage, part: seq<byte>)
    requires SentParts(ms, parts) && IsFoe(m) && m.opcode == DATA && m.number == |ms| + 1 && Content(m) == part
    ensures SentParts(ms + [m], parts + [part])
  {}

  lemma MoveOne(done: seq<seq<byte>>, part: seq<byte>, rest: seq<seq<byte>>)
    ensures done + ([part] + rest) == (done + [part]) + rest
  {}

  /** Sending the next packet moves it from what is left to what is done. */
  lemma LeftStep(done: seq<seq<byte>>, file: seq<byte>, hp: nat, final: bool, max: nat, t: nat)
    requires hp <= |file| && max > 0 && (hp < |file| || final) && t == Step(|file| - hp, max)
    ensures done + Left(file, hp, final, max)
            == (done + [file[hp..hp + t]]) + Left(file, hp + t, hp + t == |file| && t == max, max)
  {
    hide Left, Split, Step;
    NextPart(file, hp, final, max);
    MoveOne(done, file[hp..hp + t], Left(file, hp + t, hp + t == |file| && t == max, max));
  }

  lemma NextProgress(ms: seq<FoeMessage>, done: seq<seq<byte>>, file: seq<byte>, hp: nat, final: bool, max: nat,
                     m: FoeMessage, t: nat)
    requires Progress(ms, done, file, hp, final, max) && (hp < |file| || final) && t == Step(|file| - hp, max)
    requires IsFoe(m) && m.opcode == DATA && m.number == |ms| + 1 && Content(m) == file[hp..hp + t]
    ensures Progress(ms + [m], done + [file[hp..hp + t]], file, hp + t, hp + t == |file| && t == max, max)
  {
    hide Split, Left, Content, IsFoe, SentParts;
    SentPartsAppend(ms, done, m, file[hp..hp + t]);
    LeftStep(done, file, hp, final, max, t);
  }

  /** Before the first packet, and what the packets sent come to. */
  lemma ProgressBegins(file: seq<byte>, max: nat)
    requires max > 0
    ensures Progress([], [], file, 0, false, max)
  {}

  lemma ProgressComes(ms: seq<FoeMessage>, done: seq<seq<byte>>, file: seq<byte>, hp: nat, final: bool, max: nat)
    requires Progress(ms, done, file, hp, final, max)
    ensures hp <= |file| && SentParts(ms, done)
    ensures if file == [] then done == [] else done <= Split(file, max)
    ensures file != [] && hp == |file| && !final ==> done == Split(file, max)
  {}

  predicate IsAck(r: Option<FoeMessage>, number: nat) {
    r.Some? && r.value.mbxtype == ECT_MBXT_FOE && r.value.opcode == ACK && r.value.number == number
  }

  predicate IsBusy(r: Option<FoeMessage>) {
    r.Some? && r.value.mbxtype == ECT_MBXT_FOE && r.value.opcode == BUSY
  }

  /** The result of writing when the last packet was this one, and `r` came in answer. */
  ghost predicate WriteResult(r: Option<FoeMessage>, number: nat, wkc: int) {
    if r.None? then wkc == 0
    else if r.value.mbxtype != 0x04 then wkc == -3
    else
      match r.value.opcode
      case ACK => wkc == if r.value.number == number then 1 else -7
      case BUSY => wkc == 1
      case ERROR => wkc == if r.value.number == 0x8001 then -10 else -5
      case _ => wkc == -3
  }

  /** The request and the first packets, `n` messages in all, are acknowledged. */
  ghost predicate Acked(replies: nat -> Option<FoeMessage>, from: nat, n: nat) {
    forall i :: from <= i < from + n ==> IsAck(replies(i), i - from)
  }

  /** Every packet is acknowledged. */
  ghost predicate AllAcked(replies: nat -> Option<FoeMessage>, from: nat) {
    forall n :: Acked(replies, from, n)
  }

  /** The first `k` packets are acknowledged by their numbers. */
  ghost predicate Acks(acks: seq<FoeMessage>, k: nat) {
    && |acks| == k
    && forall i :: 0 <= i < k ==>
         IsFoe(acks[i]) && acks[i].opcode == ACK && acks[i].number == i + 1 && Content(acks[i]) == []
  }

  predicate IsData(r: Option<FoeMessage>, number: nat) {
    && r.Some? && r.value.mbxtype == ECT_MBXT_FOE && |r.value.data| == DATASIZE
    && r.value.opcode == DATA && r.value.number == number
  }

  /** Number of bytes a packet claims to carry, in 16 bits. */
  function Claimed(r: Option<FoeMessage>): nat {
    if r.Some? then Remaining(r.value.length, 6) else 0
  }

  /** What a packet carries, as far as the mailbox goes. */
  function Carried(r: Option<FoeMessage>): seq<byte> {
    if r.Some? && Claimed(r) <= |r.value.data| then r.value.data[..Claimed(r)] else []
  }

  /** What the first `k` answers carry. */
  function Received(replies: nat -> Option<FoeMessage>, from: nat, k: nat): seq<byte> {
    if k == 0 then []
    else Received(replies, from, k - 1) + Carried(replies(from + k - 1))
  }

  /**
   * The first `k` answers are data packets in order that stay inside the mailbox, and the first
   * `full` of them are full.
   */
  ghost predicate InOrder(replies: nat -> Option<FoeMessage>, from: nat, k: nat, full: nat, max: nat) {
    && (forall i :: from <= i < from + k ==> IsData(replies(i), i - from + 1) && Claimed(replies(i)) <= DATASIZE)
    && (forall i :: from <= i < from + full ==> Claimed(replies(i)) == max)
  }

  /** The answer is the packet of that number, and its size is not above the room left. */
  predicate IsTaken(r: Option<FoeMessage>, number: nat, room: int) {
    IsData(r, number) && Claimed(r) <= room
  }

  /** The result of reading when `r` came instead of a packet that is taken. */
  ghost predicate ReadResult(r: Option<FoeMessage>, wkc: int) {
    if r.None? then wkc == 0
    else if r.value.mbxtype != 0x04 || |r.value.data| != DATASIZE then wkc == -3
    else
      match r.value.opcode
      case DATA => wkc == -6
      case ERROR => wkc == -5
      case _ => wkc == -3
  }

  /** What reading a file comes to: `k` packets taken, `got` in the buffer. */
  ghost predicate ReadOutcome(replies: nat -> Option<FoeMessage>, from: nat, max: nat, room: nat, k: nat,
                              got: seq<byte>, ok: bool) {
    && got == Received(replies, from, k) && |got| <= room
    && if ok then k >= 1 && InOrder(replies, from, k, k - 1, max) && Claimed(replies(from + k - 1)) != max
       else InOrder(replies, from, k, k, max) && !IsTaken(replies(from + k), k + 1, room - |got|)
  }

  /** After `k` packets one is taken that claims more bytes than the mailbox has. */
  ghost predicate Overread(replies: nat -> Option<FoeMessage>, from: nat, max: nat, room: nat, k: nat) {
    && InOrder(replies, from, k, k, max) && Claimed(replies(from + k)) > DATASIZE
    && IsTaken(replies(from + k), k + 1, room - |Received(replies, from, k)|)
  }

  /** No packet that is taken claims more bytes than the mailbox has. */
  ghost predicate NeverOverreads(replies: nat -> Option<FoeMessage>, from: nat, max: nat, room: nat) {
    forall j: nat :: !Overread(replies, from, max, room, j)
  }

  /** The length field counts the six bytes in front of the data, and no more data than the mailbox has. */
  predicate SoundLength(r: Option<FoeMessage>) {
    r.Some? ==> 6 <= r.value.length <= DATASIZE + 6
  }

  /** The packets that claim too much are those whose length field is too small or too large. */
  lemma ClaimedIsSound(r: Option<FoeMessage>)
    ensures Claimed(r) <= DATASIZE <==> SoundLength(r)
  {}

  lemma {:induction false} ReceivedGrows(replies: nat -> Option<FoeMessage>, from: nat, k: nat, j: nat)
    requires k <= j
    ensures |Received(replies, from, k)| <= |Received(replies, from, j)|
    decreases j
  {
    if k < j { ReceivedGrows(replies, from, k, j - 1); }
  }

  /** A packet that was refused is not taken later on. */
  lemma RefusedIsLast(replies: nat -> Option<FoeMessage>, from: nat, max: nat, room: nat, k: nat, j: nat)
    requires k < j && InOrder(replies, from, j, j, max) && |Received(replies, from, j)| <= room
    ensures IsTaken(replies(from + k), k + 1, room - |Received(replies, from, k)|)
  {
    ReceivedGrows(replies, from, k + 1, j);
    assert |Carried(replies(from + (k + 1) - 1))| == Claimed(replies(from + k));
  }

  /** Reading either comes to an end inside the mailbox or takes a packet that claims too much, never both. */
  lemma OutcomeExcludesOverread(replies: nat -> Option<FoeMessage>, from: nat, max: nat, room: nat, k: nat,
                                got: seq<byte>, ok: bool)
    requires ReadOutcome(replies, from, max, room, k, got, ok)
    ensures NeverOverreads(replies, from, max, room)
  {
    hide Carried, Received;
    forall j: nat ensures !Overread(replies, from, max, room, j) {
      if Overread(replies, from, max, room, j) {
        if k < j { RefusedIsLast(replies, from, max, room, k, j); }
        assert false;
      }
    }
  }

  /** As long as packets are taken and full, reading goes on: `got` is what they bring. */
  ghost predicate ReadSoFar(replies: nat -> Option<FoeMessage>, from: nat, max: nat, room: nat, k: nat,
                            got: seq<byte>) {
    InOrder(replies, from, k, k, max) && got == Received(replies, from, k) && |got| <= room
  }

  /** One packet more. */
  lemma ReadStep(replies: nat -> Option<FoeMessage>, from: nat, max: nat, room: nat, k: nat, got: seq<byte>)
    requires ReadSoFar(replies, from, max, room, k, got)
    ensures var r := replies(from + k);
            if !IsTaken(r, k + 1, room - |got|) then ReadOutcome(replies, from, max, room, k, got, false)
            else if Claimed(r) > DATASIZE then Overread(replies, from, max, room, k)
            else
              && |Carried(r)| == Claimed(r)
              && if Claimed(r) == max then ReadSoFar(replies, from, max, room, k + 1, got + Carried(r))
                 else ReadOutcome(replies, from, max, room, k + 1, got + Carried(r), true)
  {
    assert replies(from + (k + 1) - 1) == replies(from + k);
  }

  /** Nothing goes wrong when the length fields stay inside the mailbox. */
  lemma NoOverread(replies: nat -> Option<FoeMessage>, from: nat, max: nat, room: nat)
    requires forall i: nat :: i >= from ==> SoundLength(replies(i))
    ensures NeverOverreads(replies, from, max, room)
  {}

  /** A data packet whose length field is too small. */
  function ShortPacket(): (m: FoeMessage)
    ensures IsData(Some(m), 1) && m.length == 5
  {
    FoeMessage(5, ECT_MBXT_FOE, 1, DATA, 1, Repeat<byte>(0, DATASIZE))
  }

  /** It is taken into a large buffer, although it claims more than the mailbox has. */
  lemma ShortPacketOverreads(max: nat, room: nat)
    requires room >= 0xffff
    ensures Overread(_ => Some(ShortPacket()), 0, max, room, 0)
  {}

  class FoeClient {
    const mbx_l: nat
    const replies: nat -> Option<FoeMessage>
    var received: nat
    var mbx_cnt: nat
    var sent: seq<FoeMessage>

    constructor (mbx_l: nat, replies: nat -> Option<FoeMessage>)
      ensures this.mbx_l == mbx_l && this.replies == replies && received == 0 && mbx_cnt == 0 && sent == []
    {
      this.mbx_l, this.replies, received, mbx_cnt, sent := mbx_l, replies, 0, 0, [];
    }

    /** Sends a message with `content` as its data. */
    method Send(out: array<byte>, opcode: Operation, number: nat, content: seq<byte>) returns (ghost m: FoeMessage)
      requires out.Length == DATASIZE && |content| <= DATASIZE && mbx_cnt <= 7
      modifies out, `mbx_cnt, `sent
      ensures mbx_cnt == m.count == NextCount(old(mbx_cnt)) && sent == old(sent) + [m]
      ensures IsFoe(m) && m.opcode == opcode && m.number == number && Content(m) == content
    {
      Fill(out, 0, content);
      mbx_cnt := NextCount(mbx_cnt);
      m := FoeMessage(6 + |content|, ECT_MBXT_FOE, mbx_cnt, opcode, number, out[..]);
      sent := sent + [FoeMessage(6 + |content|, ECT_MBXT_FOE, mbx_cnt, opcode, number, out[..])];
    }

    method Receive() returns (r: Option<FoeMessage>)
      modifies `received
      ensures r == replies(old(received)) && received == old(received) + 1
    {
      r := replies(received);
      received := received + 1;
    }

    /** The next data packet: `t` bytes of the file from `hp` on. */
    method SendPart(out: array<byte>, file: seq<byte>, hp: nat, maxdata: nat, number: nat)
      returns (t: nat, ghost m: FoeMessage)
      requires out.Length == DATASIZE && hp <= |file| && 0 < maxdata <= DATASIZE && mbx_cnt <= 7
      modifies out, `mbx_cnt, `sent
      ensures t == Step(|file| - hp, maxdata) && sent == old(sent) + [m]
      ensures mbx_cnt == m.count == NextCount(old(mbx_cnt))
      ensures IsFoe(m) && m.opcode == DATA && m.number == number && Content(m) == file[hp..hp + t]
    {
      t := |file| - hp;
      if t > maxdata { t := maxdata; }
      m := Send(out, DATA, number, file[hp..hp + t]);
    }

    /** Whether the answer lets the transfer go on, and the result if it does not. */
    method Judge(r: Option<FoeMessage>, sendpacket: nat) returns (go: bool, wkc: int)
      ensures go <==> IsAck(r, sendpacket)
      ensures WriteResult(r, sendpacket, wkc)
    {
      go, wkc := false, 0;
      if r.Some? {
        wkc := 1;
        if r.value.mbxtype == ECT_MBXT_FOE {
          if r.value.opcode == ACK {
            go := r.value.number == sendpacket;
            if !go { wkc := -EC_ERR_TYPE_FOE_PACKETNUMBER; }
          } else if r.value.opcode == BUSY {
            // The last packet is put back, but the loop ends here: it is never sent again.
          } else if r.value.opcode == ERROR {
            wkc := if r.value.number == 0x8001 then -EC_ERR_TYPE_FOE_FILE_NOTFOUND else -EC_ERR_TYPE_FOE_ERROR;
          } else {
            wkc := -EC_ERR_TYPE_PACKET_ERROR;
          }
        } else {
          wkc := -EC_ERR_TYPE_PACKET_ERROR;
        }
      }
    }

    /** The data packets, each sent when the one before has been acknowledged; `last` is the last answer. */
    method WriteData(out: array<byte>, file: seq<byte>, maxdata: nat)
      returns (wkc: int, ghost ms: seq<FoeMessage>, ghost done: seq<seq<byte>>, ghost last: Option<FoeMessage>)
      requires out.Length == DATASIZE && 0 < maxdata <= DATASIZE && mbx_cnt <= 7
      modifies out, `mbx_cnt, `sent, `received
      ensures mbx_cnt <= 7 && sent == old(sent) + ms && SentParts(ms, done) && Counted(ms, old(mbx_cnt), mbx_cnt)
      ensures received == old(received) + |ms| + 1 && last == replies(old(received) + |ms|)
      ensures if file == [] then done == [] else done <= Split(file, maxdata)
      ensures Acked(replies, old(received), |ms|)
      ensures WriteResult(last, |ms|, wkc)
      ensures IsAck(last, |ms|) && file != [] ==> done == Split(file, maxdata)
    {
      hide Progress, SentParts, Split, Content, IsFoe, Counted, WriteResult;
      ProgressBegins(file, maxdata);
      NoneCounted(mbx_cnt);
      var hp: nat, sendpacket: nat := 0, 0;
      var worktodo, dofinalzero := true, false;
      wkc, ms, done, last := 0, [], [], None;
      while worktodo
        invariant mbx_cnt <= 7 && sent == old(sent) + ms && sendpacket == |ms| && hp <= |file|
        invariant Progress(ms, done, file, hp, dofinalzero, maxdata) && Acked(replies, old(received), |ms|)
        invariant received == old(received) + |ms| + if worktodo then 0 else 1
        invariant !worktodo ==> last == replies(old(received) + |ms|) && WriteResult(last, |ms|, wkc)
        invariant Counted(ms, old(mbx_cnt), mbx_cnt)
        invariant !worktodo && IsAck(last, |ms|) ==> hp == |file| && !dofinalzero
        decreases worktodo, |file| - hp, dofinalzero
      {
        var r := Receive();
        last := r;
        var go;
        go, wkc := Judge(r, sendpacket);
        worktodo := false;
        if go && (hp < |file| || dofinalzero) {
          worktodo := true;
          sendpacket := sendpacket + 1;
          ghost var m;
          ghost var cnt := mbx_cnt;
          var t;
          t, m := SendPart(out, file, hp, maxdata, sendpacket);
          NextProgress(ms, done, file, hp, dofinalzero, maxdata, m, t);
          CountedNext(ms, m, old(mbx_cnt), cnt);
          ms := ms + [m];
          done := done + [file[hp..hp + t]];
          hp := hp + t;
          dofinalzero := hp == |file| && t == maxdata;
        }
      }
      ProgressComes(ms, done, file, hp, dofinalzero, maxdata);
    }

    /**
     * Sends a file.  Unless the last answer was BUSY, success means that all
     * packets of the file have gone out, exactly when the file is not empty: of
     * an empty file nothing is sent.  After BUSY the transfer ends with whatever
     * has been sent, and still reports success.
     */
    method Write(filename: seq<byte>, password: nat, file: seq<byte>)
      returns (wkc: int, ghost request: FoeMessage, ghost ms: seq<FoeMessage>, ghost done: seq<seq<byte>>,
              ghost last: Option<FoeMessage>)
      requires 12 < mbx_l <= EC_MAXMBX && mbx_cnt <= 7
      modifies `mbx_cnt, `sent, `received
      ensures sent == old(sent) + ([request] + ms) && SentParts(ms, done)
      ensures Counted([request] + ms, old(mbx_cnt), mbx_cnt)
      ensures IsFoe(request) && request.opcode == WRITE && request.number == password
      ensures Content(request) == filename[..Step(|filename|, mbx_l - 12)]
      ensures last == replies(old(received) + |ms|)
      ensures Acked(replies, old(received), |ms|)
      ensures if file == [] then done == [] else done <= Split(file, mbx_l - 12)
      ensures WriteResult(last, |ms|, wkc) && (wkc > 0 <==> IsAck(last, |ms|) || IsBusy(last))
      ensures wkc > 0 && !IsBusy(last) ==> (done == Split(file, mbx_l - 12) <==> file != [])
      ensures AllAcked(replies, old(received)) ==> wkc > 0 && !IsBusy(last)
      ensures IsBusy(replies(old(received))) ==> wkc > 0 && ms == []
    {
      var out := new byte[DATASIZE](_ => 0);
      var maxdata := mbx_l - 12;
      var fnsize := |filename|;
      if fnsize > maxdata { fnsize := maxdata; }
      request := Send(out, WRITE, password, filename[..fnsize]);
      wkc, ms, done, last := WriteData(out, file, maxdata);
      CountedJoin(request, ms, old(mbx_cnt), mbx_cnt);
      assert AllAcked(replies, old(received)) ==> Acked(replies, old(received), |ms| + 1);
    }

    /** Takes a data packet into the buffer and acknowledges it. */
    method TakeData(out: array<byte>, p: array<byte>, dataread: nat, r: Option<FoeMessage>)
      returns (ghost ack: FoeMessage)
      requires out.Length == DATASIZE && out != p && mbx_cnt <= 7 && r.Some? && |r.value.data| == DATASIZE
      requires Claimed(r) <= DATASIZE && dataread + Claimed(r) <= p.Length
      modifies out, p, `mbx_cnt, `sent
      ensures mbx_cnt == ack.count == NextCount(old(mbx_cnt)) && sent == old(sent) + [ack]
      ensures IsFoe(ack) && ack.opcode == ACK && ack.number == r.value.number && Content(ack) == []
      ensures p[..dataread + Claimed(r)] == old(p[..dataread]) + Carried(r)
    {
      forall i | 0 <= i < Claimed(r) { p[dataread + i] := r.value.data[i]; }
      assert p[..dataread + Claimed(r)] == old(p[..dataread]) + Carried(r);
      ack := Send(out, ACK, r.value.number, []);
    }

    lemma AcksAppend(acks: seq<FoeMessage>, k: nat, m: FoeMessage)
      requires Acks(acks, k) && IsFoe(m) && m.opcode == ACK && m.number == k + 1 && Content(m) == []
      ensures Acks(acks + [m], k + 1)
    {}

    lemma ReadStart(replies: nat -> Option<FoeMessage>, from: nat, max: nat, room: nat, got: seq<byte>)
      requires got == []
      ensures ReadSoFar(replies, from, max, room, 0, got) && Acks([], 0)
    {}

    /** Whether the answer is the data packet expected, and fits. */
    method JudgeData(r: Option<FoeMessage>, number: nat, room: nat) returns (wkc: int)
      ensures if IsTaken(r, number, room) then wkc == 1 else ReadResult(r, wkc)
    {
      wkc := 0;
      if r.Some? {
        if r.value.mbxtype == ECT_MBXT_FOE && |r.value.data| == DATASIZE {
          if r.value.opcode == DATA {
            var segmentdata := Remaining(r.value.length, 6);
            wkc := if r.value.number == number && segmentdata <= room then 1 else -EC_ERR_TYPE_FOE_BUF2SMALL;
          } else {
            wkc := if r.value.opcode == ERROR then -EC_ERR_TYPE_FOE_ERROR else -EC_ERR_TYPE_PACKET_ERROR;
          }
        } else {
          wkc := -EC_ERR_TYPE_PACKET_ERROR;
        }
      }
    }

    /**
     * Takes data packets, acknowledging each, until one is not full.  `psize` is written after each
     * answer, so it keeps the size of the buffer when there is none.
     */
    method ReadData(out: array<byte>, p: array<byte>, maxdata: nat)
      returns (inside: bool, wkc: int, psize: nat, ghost k: nat, ghost acks: seq<FoeMessage>)
      requires out.Length == DATASIZE && out != p && 0 < maxdata <= DATASIZE && mbx_cnt <= 7
      modifies out, p, `mbx_cnt, `sent, `received
      ensures mbx_cnt <= 7 && psize <= p.Length
      ensures sent == old(sent) + acks && Acks(acks, k) && Counted(acks, old(mbx_cnt), mbx_cnt)
      ensures wkc > 0 || ReadResult(replies(old(received) + k), wkc)
      ensures inside <==> NeverOverreads(replies, old(received), maxdata, p.Length)
      ensures !inside ==> Overread(replies, old(received), maxdata, p.Length, k)
      ensures if replies(old(received)) == None then
                psize == p.Length && p[..] == old(p[..]) && wkc <= 0 && k == 0
              else
                inside ==> ReadOutcome(replies, old(received), maxdata, p.Length, k, p[..psize], wkc > 0)
    {
      hide ReadSoFar, ReadOutcome, Overread, Acks, Carried, Counted, ReadResult;
      ghost var from := received;
      NoneCounted(mbx_cnt);
      var prevpacket: nat, dataread: nat := 0, 0;
      var worktodo := true;
      inside, wkc, psize, k, acks := true, 0, p.Length, 0, [];
      ReadStart(replies, from, maxdata, p.Length, p[..0]);
      while worktodo
        invariant mbx_cnt <= 7 && sent == old(sent) + acks && Acks(acks, k) && dataread <= p.Length
        invariant Counted(acks, old(mbx_cnt), mbx_cnt)
        invariant worktodo || wkc > 0 || ReadResult(replies(from + k), wkc)
        invariant worktodo ==> inside && received == from + k && prevpacket == k
                               && ReadSoFar(replies, from, maxdata, p.Length, k, p[..dataread])
        invariant !worktodo && inside ==> ReadOutcome(replies, from, maxdata, p.Length, k, p[..dataread], wkc > 0)
        invariant !inside ==> !worktodo && Overread(replies, from, maxdata, p.Length, k)
        invariant received >= from && (!worktodo ==> received > from)
        invariant psize == if replies(from) == None || received == from then p.Length else dataread
        invariant replies(from) == None ==> p[..] == old(p[..]) && wkc <= 0 && k == 0
        decreases worktodo, p.Length - dataread
      {
        worktodo := false;
        var r := Receive();
        prevpacket := prevpacket + 1;
        ReadStep(replies, from, maxdata, p.Length, k, p[..dataread]);
        wkc := JudgeData(r, prevpacket, p.Length - dataread);
        if wkc > 0 {
          if Claimed(r) > DATASIZE {
            inside := false;
          } else {
            ghost var cnt := mbx_cnt;
            ghost var ack := TakeData(out, p, dataread, r);
            AcksAppend(acks, k, ack);
            CountedNext(acks, ack, old(mbx_cnt), cnt);
            acks := acks + [ack];
            dataread := dataread + Claimed(r);
            k := k + 1;
            worktodo := Claimed(r) == maxdata;
          }
        }
        if r.Some? { psize := dataread; }
      }
      if inside { OutcomeExcludesOverread(replies, from, maxdata, p.Length, k, p[..dataread], wkc > 0); }
    }

    /**
     * Reads a file into `p`; `k` is the number of packets taken.  `inside` tells whether
     * only bytes of the mailbox were copied; if not, the model stops there.  When no answer comes,
     * the size stays that of the buffer.
     */
    method Read(filename: seq<byte>, password: nat, p: array<byte>)
      returns (inside: bool, wkc: int, psize: nat, ghost k: nat, ghost request: FoeMessage, ghost acks: seq<FoeMessage>)
      requires 12 < mbx_l <= EC_MAXMBX && mbx_cnt <= 7
      modifies p, `mbx_cnt, `sent, `received
      ensures mbx_cnt <= 7 && psize <= p.Length
      ensures sent == old(sent) + ([request] + acks) && Acks(acks, k)
      ensures Counted([request] + acks, old(mbx_cnt), mbx_cnt)
      ensures wkc > 0 || ReadResult(replies(old(received) + k), wkc)
      ensures IsFoe(request) && request.opcode == READ && request.number == password
      ensures Content(request) == filename[..Step(|filename|, mbx_l - 12)]
      ensures inside <==> NeverOverreads(replies, old(received), mbx_l - 12, p.Length)
      ensures !inside ==> Overread(replies, old(received), mbx_l - 12, p.Length, k)
      ensures if replies(old(received)) == None then
                psize == p.Length && p[..] == old(p[..]) && wkc <= 0 && k == 0
              else
                inside ==> ReadOutcome(replies, old(received), mbx_l - 12, p.Length, k, p[..psize], wkc > 0)
    {
      hide ReadOutcome, Overread, NeverOverreads, Acks, Counted, ReadResult;
      var out := new byte[DATASIZE](_ => 0);
      var maxdata := mbx_l - 12;
      var fnsize := |filename|;
      if fnsize > maxdata { fnsize := maxdata; }
      request := Send(out, READ, password, filename[..fnsize]);
      inside, wkc, psize, k, acks := ReadData(out, p, maxdata);
      CountedJoin(request, acks, old(mbx_cnt), mbx_cnt);
    }
  }

  /** The slave sends the packets of a file. */
  ghost predicate Serves(replies: nat -> Option<FoeMessage>, from: nat, parts: seq<seq<byte>>) {
    forall i {:trigger parts[i]} :: 0 <= i < |parts| ==>
      IsData(replies(from + i), i + 1) && Claimed(replies(from + i)) == |parts[i]|
        && Carried(replies(from + i)) == parts[i]
  }

  lemma {:induction false} ReceivedIsConcat(replies: nat -> Option<FoeMessage>, from: nat, parts: seq<seq<byte>>,
                                            k: nat)
    requires Serves(replies, from, parts) && k <= |parts|
    ensures Received(replies, from, k) == Concat(parts[..k])
  {
    hide Carried, IsData, Claimed;
    if k > 0 {
      ReceivedIsConcat(replies, from, parts, k - 1);
      assert parts[..k][..k - 1] == parts[..k - 1];
      assert Carried(replies(from + (k - 1))) == parts[k - 1];
    }
  }

  lemma {:induction false} ConcatGrows(parts: seq<seq<byte>>, k: nat)
    requires k <= |parts|
    ensures |Concat(parts[..k])| <= |Concat(parts)|
    decreases |parts|
  {
    if k < |parts| {
      ConcatGrows(parts[..|parts| - 1], k);
      assert parts[..|parts| - 1][..k] == parts[..k];
    } else {
      assert parts[..k] == parts;
    }
  }

  /** Packets are taken up to the first one that is not full, and that is the last one of the file. */
  lemma NotPast(replies: nat -> Option<FoeMessage>, from: nat, parts: seq<seq<byte>>, max: nat, room: nat, k: nat,
                got: seq<byte>, ok: bool)
    requires Serves(replies, from, parts) && ReadOutcome(replies, from, max, room, k, got, ok)
    requires parts != [] && |parts[|parts| - 1]| < max && forall i :: 0 <= i < |parts| - 1 ==> |parts[i]| == max
    ensures k <= |parts| && (ok <==> k == |parts|)
  {
    var n := |parts| - 1;
    assert Claimed(replies(from + n)) < max by { assert Carried(replies(from + n)) == parts[n]; }
    if 1 <= k <= n {
      assert Claimed(replies(from + (k - 1))) == max by { assert Carried(replies(from + (k - 1))) == parts[k - 1]; }
    }
  }

  /** A further packet of the file would have been taken. */
  lemma NextFits(replies: nat -> Option<FoeMessage>, from: nat, parts: seq<seq<byte>>, room: nat, k: nat)
    requires Serves(replies, from, parts) && k < |parts| && |Concat(parts)| <= room
    ensures IsTaken(replies(from + k), k + 1, room - |Received(replies, from, k)|)
  {
    ReceivedIsConcat(replies, from, parts, k + 1);
    ConcatGrows(parts, k + 1);
    assert parts[k] == Carried(replies(from + k));
  }

  /**
   * Round trip: reading what a slave sends of a file, into a buffer it fits in, gives the file, and
   * takes just its packets.
   */
  lemma ReadGivesFile(replies: nat -> Option<FoeMessage>, from: nat, file: seq<byte>, max: nat, room: nat, k: nat,
                      got: seq<byte>, ok: bool)
    requires max > 0 && Serves(replies, from, Split(file, max)) && |file| <= room
    requires ReadOutcome(replies, from, max, room, k, got, ok)
    ensures ok && got == file && k == |Split(file, max)|
  {
    hide Split, Serves, Concat, IsData, Carried;
    var parts := Split(file, max);
    SplitIsWhole(file, max);
    NotPast(replies, from, parts, max, room, k, got, ok);
    if k < |parts| { NextFits(replies, from, parts, room, k); }
    ReceivedIsConcat(replies, from, parts, |parts|);
    assert parts[..|parts|] == parts;
  }
}
