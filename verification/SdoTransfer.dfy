/**
 * SDO download to a slave over the mailbox (`ecx_SDOwrite`, section 7.2.4.3 of
 * CiA 301 in the form of section 5.6.2 of ETG.1000.6): expedited, normal and
 * segmented, and how a slave puts the messages together again.
 */
module SdoTransfer {
  import opened Common
  import opened Sequences
  import opened Frames

  const EC_MAXMBX: nat := 1486

  /** Size of a mailbox behind mailbox header, CoE header and command byte. */
  const BODYSIZE: nat := EC_MAXMBX + 1 - 9

  const ECT_MBXT_COE := 0x03
  const ECT_COES_SDOREQ := 0x02
  const ECT_COES_SDORES := 0x03

  /**
   * The command byte: service in the upper three bits, then one bit (toggle bit
   * of a segment, complete access at the start of a transfer), three bits and
   * one bit.
   */
  datatype Command = Command(specifier: nat, flag: bool, middle: nat, low: bool) {
    predicate Valid() { specifier < 8 && middle < 8 }

    function Code(): byte
      requires Valid()
    {
      0x20 * specifier + (if flag then 0x10 else 0) + 2 * middle + if low then 1 else 0
    }
  }

  const ECT_SDO_DOWN_INIT := Command(1, false, 0, true)
  const ECT_SDO_DOWN_EXP := Command(1, false, 1, true)
  const ECT_SDO_DOWN_INIT_CA := Command(1, true, 0, true)

  /** The commands as the protocol numbers them, and no two commands share a number. */
  lemma CommandCodes(a: Command, b: Command)
    requires a.Valid() && b.Valid()
    ensures ECT_SDO_DOWN_INIT.Code() == 0x21 && ECT_SDO_DOWN_EXP.Code() == 0x23 && ECT_SDO_DOWN_INIT_CA.Code() == 0x31
    ensures a.Code() == b.Code() <==> a == b
  {}

  /**
   * A message: its length field, which counts what is behind the mailbox header,
   * type and counter, CoE service, command, and the body from the index on.
   */
  datatype Message = Message(length: word, mbxtype: nat, count: nat, service: nat, command: Command, body: seq<byte>)

  /** A mailbox as it is received: as long as the buffer for it, whatever its length field says. */
  predicate Whole(m: Message) {
    |m.body| == BODYSIZE
  }

  /** A CoE message; its length field covers the command and stays inside the mailbox. */
  predicate WellFormed(m: Message) {
    m.mbxtype == ECT_MBXT_COE && Whole(m) && 10 <= m.length <= BODYSIZE + 3
  }

  /** What is left of the length field behind a header of so many bytes, in 16 bits. */
  function Remaining(length: word, header: nat): nat
    requires header <= 10
  {
    if length >= header then length - header else length + 0x1_0000 - header
  }

  predicate AllWellFormed(ms: seq<Message>) {
    forall i {:trigger ms[i]} :: 0 <= i < |ms| ==> WellFormed(ms[i])
  }

  /** The 32 bit number in four bytes. */
  function Long(b: seq<byte>): nat
    requires |b| == 4
  {
    var b0: nat, b1: nat, b2: nat, b3: nat := b[0], b[1], b[2], b[3];
    b0 + 0x100 * (b1 + 0x100 * (b2 + 0x100 * b3))
  }

  function LongBytes(n: nat): (b: seq<byte>)
    requires n < 0x1_0000_0000
    ensures |b| == 4 && Long(b) == n
  {
    var n1 := n / 0x100;
    var n2 := n1 / 0x100;
    [n % 0x100, n1 % 0x100, n2 % 0x100, n2 / 0x100]
  }

  function IndexOf(m: Message): word
    requires Whole(m)
  {
    WordAt(m.body, 0)
  }

  function SubIndexOf(m: Message): byte
    requires Whole(m)
  {
    m.body[2]
  }

  predicate IsExpedited(m: Message) {
    m.command.middle % 2 == 1
  }

  /** Up to four bytes, as the command tells. */
  function ExpeditedData(m: Message): seq<byte>
    requires Whole(m)
  {
    m.body[3..7 - m.command.middle / 2 % 4]
  }

  /** Size of the whole object. */
  function TotalSize(m: Message): nat
    requires Whole(m)
  {
    Long(m.body[3..7])
  }

  /** The part of the object that comes with the first message. */
  function InitData(m: Message): seq<byte>
    requires WellFormed(m)
  {
    m.body[7..m.length - 3]
  }

  predicate IsLast(m: Message) {
    m.command.low
  }

  predicate IsSegment(m: Message) {
    m.command.specifier == 0
  }

  predicate Toggled(m: Message) {
    m.command.flag
  }

  /** Data of a segment; a last segment of the smallest size tells how many octets are unused. */
  function SegmentData(m: Message): seq<byte>
    requires WellFormed(m)
  {
    if IsLast(m) && m.length == 10 then m.body[..7 - m.command.middle % 8] else m.body[..m.length - 3]
  }

  function Joined(ms: seq<Message>): seq<byte>
    requires AllWellFormed(ms)
  {
    if ms == [] then [] else Joined(ms[..|ms| - 1]) + SegmentData(ms[|ms| - 1])
  }

  /** Segments with an alternating toggle bit, none of them the last; `toggle` is that of the next one. */
  predicate Going(ms: seq<Message>, toggle: bool) {
    if ms == [] then !toggle
    else
      var m := ms[|ms| - 1];
      Going(ms[..|ms| - 1], !toggle) && IsSegment(m) && !IsLast(m) && Toggled(m) == !toggle
  }

  /** The toggle bit alternates, starting with zero, and the last segment, and no other, says so. */
  predicate InSequence(ms: seq<Message>) {
    ms == []
    || (var m := ms[|ms| - 1]; Going(ms[..|ms| - 1], Toggled(m)) && IsSegment(m) && IsLast(m))
  }

  lemma {:induction false} GoingAlternates(ms: seq<Message>, toggle: bool)
    requires Going(ms, toggle)
    ensures toggle == (|ms| % 2 == 1)
    ensures forall i :: 0 <= i < |ms| ==> IsSegment(ms[i]) && !IsLast(ms[i]) && Toggled(ms[i]) == (i % 2 == 1)
  {
    if ms != [] { GoingAlternates(ms[..|ms| - 1], !toggle); }
  }

  /** What a slave makes of the messages of a download. */
  function Download(ms: seq<Message>): Option<seq<byte>>
    requires AllWellFormed(ms)
  {
    if ms == [] then None
    else if IsExpedited(ms[0]) then
      if |ms| == 1 then Some(ExpeditedData(ms[0])) else None
    else
      var data := InitData(ms[0]) + Joined(ms[1..]);
      if InSequence(ms[1..]) && |data| == TotalSize(ms[0]) then Some(data) else None
  }

  /** Copies `data` into a mailbox body from position `at` on. */
  method Fill(out: array<byte>, at: nat, data: seq<byte>)
    requires at + |data| <= out.Length
    modifies out
    ensures out[at..at + |data|] == data && forall i :: 0 <= i < |data| ==> out[at + i] == data[i]
    ensures forall i :: 0 <= i < out.Length && !(at <= i < at + |data|) ==> out[i] == old(out[i])
  {
    forall i | 0 <= i < |data| { out[at + i] := data[i]; }
  }

  /** Index, sub-index, size of the object, and its first part. */
  method FillInit(out: array<byte>, index: word, subindex: byte, size: nat, data: seq<byte>)
    requires out.Length == BODYSIZE && size < 0x1_0000_0000 && 7 + |data| <= BODYSIZE
    modifies out
    ensures WordAt(out[..], 0) == index && out[2] == subindex
    ensures out[..][3..7] == LongBytes(size) && out[..][7..7 + |data|] == data
  {
    var start, total := [Lo(index), Hi(index), subindex], LongBytes(size);
    Fill(out, 0, start);
    assert out[0] == start[0] && out[1] == start[1] && out[2] == start[2];
    Fill(out, 3, total);
    assert out[3] == total[0] && out[4] == total[1] && out[5] == total[2] && out[6] == total[3];
    Fill(out, 7, data);
    assert out[..][3..7] == total;
  }

  /** The commands of the messages: how many of four or seven octets are not used. */
  function ExpeditedCommand(n: nat): (c: Command)
    requires n <= 4
    ensures c.Valid()
  {
    ECT_SDO_DOWN_EXP.(middle := 1 + 2 * ((4 - n) % 4))
  }

  function SegmentCommand(last: bool, unused: nat, toggle: bool): (c: Command)
    requires unused <= 7
    ensures c.Valid()
  {
    Command(0, toggle, unused, last)
  }

  /** The counter of message number `i` behind one with the counter `cnt`: 1 to 7, going round. */
  function CountAt(cnt: nat, i: nat): nat {
    (cnt + i) % 7 + 1
  }

  /** The next mailbox counter. */
  function NextCount(cnt: nat): (c: nat)
    requires cnt <= 7
    ensures 1 <= c <= 7 && c == CountAt(cnt, 0)
  {
    if cnt + 1 > 7 then 1 else cnt + 1
  }

  /** SDO requests in CoE mailboxes, one counter after the other, behind the counter `cnt`; `now` is the last one. */
  ghost predicate AreRequests(ms: seq<Message>, cnt: nat, now: nat) {
    && (forall i :: 0 <= i < |ms| ==> ms[i].mbxtype == 0x03 && ms[i].service == 0x02 && ms[i].count == CountAt(cnt, i))
    && now == if ms == [] then cnt else ms[|ms| - 1].count
  }

  lemma OneRequest(m: Message, cnt: nat)
    requires cnt <= 7 && m.mbxtype == ECT_MBXT_COE && m.service == ECT_COES_SDOREQ && m.count == NextCount(cnt)
    ensures AreRequests([m], cnt, m.count)
  {}

  lemma CountOn(cnt: nat, i: nat, j: nat)
    ensures CountAt(CountAt(cnt, i), j) == CountAt(cnt, i + 1 + j)
  {}

  /**
   * The messages fit a mailbox of `l` bytes, six of which are its header, and all but the last one fill it;
   * `more`: that one as well.
   */
  ghost predicate Filled(ms: seq<Message>, l: nat, more: bool) {
    forall i :: 0 <= i < |ms| ==> ms[i].length + 6 <= l && (i < |ms| - 1 || more ==> ms[i].length + 6 == l)
  }

  lemma FilledJoin(a: seq<Message>, b: seq<Message>, l: nat, more: bool)
    requires Filled(a, l, b != [] || more) && Filled(b, l, more)
    ensures Filled(a + b, l, more)
  {}

  lemma NoRequests(cnt: nat)
    ensures AreRequests([], cnt, cnt)
  {}

  lemma RequestsJoin(a: seq<Message>, b: seq<Message>, cnt: nat, mid: nat, now: nat)
    requires AreRequests(a, cnt, mid) && AreRequests(b, mid, now)
    ensures AreRequests(a + b, cnt, now)
  {
    hide CountAt;
    var ms := a + b;
    forall i | |a| <= i < |ms| ensures ms[i] == b[i - |a|] && ms[i].count == CountAt(cnt, i) {
      if a != [] { CountOn(cnt, |a| - 1, i - |a|); }
    }
  }

  function Request(length: word, cnt: nat, command: Command, body: seq<byte>): Message {
    Message(length, ECT_MBXT_COE, cnt, ECT_COES_SDOREQ, command, body)
  }

  /** An SDO response. */
  predicate IsResponse(m: Message) {
    m.mbxtype == ECT_MBXT_COE && m.service == ECT_COES_SDORES
  }

  /** A segment is accepted. */
  predicate AcceptsSegment(r: Option<Message>) {
    r.Some? && IsResponse(r.value) && r.value.command.specifier == 1
  }

  /** The bits of the command byte. */
  lemma CommandBits(c: Command)
    requires c.Valid()
    ensures c.specifier == c.Code() / 0x20 && c.middle == c.Code() / 2 % 8
    ensures c.middle % 2 == c.Code() / 2 % 2 && c.middle / 2 == c.Code() / 4 % 4
    ensures (c.flag <==> c.Code() / 0x10 % 2 == 1) && (c.low <==> c.Code() % 2 == 1)
  {
    var code: nat, high := c.Code(), 2 * c.specifier + if c.flag then 1 else 0;
    assert code / 2 == 8 * high + c.middle;
    assert code / 4 == 4 * high + c.middle / 2;
  }

  /** What a message is, by its command byte. */
  lemma ReadFromCommand(m: Message)
    requires m.command.Valid() && Whole(m)
    ensures var c: nat := m.command.Code();
            && (IsSegment(m) <==> c / 0x20 == 0) && (Toggled(m) <==> c / 0x10 % 2 == 1) && (IsLast(m) <==> c % 2 == 1)
            && (IsExpedited(m) <==> c / 2 % 2 == 1) && |ExpeditedData(m)| == 4 - c / 4 % 4
            && (AcceptsSegment(Some(m)) <==> m.mbxtype == 0x03 && m.service == 0x03 && c / 0x20 == 1)
            && (WellFormed(m) ==> |SegmentData(m)| == if c % 2 == 1 && m.length == 10 then 7 - c / 2 % 8
                                  else m.length - 3)
  {
    hide Command.Code;
    CommandBits(m.command);
  }

  /** The place of the bytes behind the command byte. */
  lemma ReadFromBytes(m: Message)
    requires Whole(m)
    ensures BODYSIZE == 1478
    ensures IndexOf(m) == m.body[0] as nat + 0x100 * m.body[1] as nat && SubIndexOf(m) == m.body[2]
    ensures TotalSize(m) == m.body[3] as nat + 0x100 * m.body[4] as nat + 0x1_0000 * m.body[5] as nat
                            + 0x100_0000 * m.body[6] as nat
    ensures ExpeditedData(m) <= m.body[3..]
    ensures WellFormed(m) ==> SegmentData(m) <= m.body && InitData(m) <= m.body[7..] && |InitData(m)| == m.length - 10
  {}

  /** None of `n` segments is refused, and the last one is accepted. */
  ghost predicate AcceptsAll(replies: nat -> Option<Message>, from: nat, n: nat) {
    && (forall i :: from <= i < from + n ==> replies(i).None? || AcceptsSegment(replies(i)))
    && (n > 0 ==> AcceptsSegment(replies(from + n - 1)))
  }

  lemma JoinedAppend(ms: seq<Message>, m: Message)
    requires AllWellFormed(ms) && WellFormed(m)
    ensures Joined(ms + [m]) == Joined(ms) + SegmentData(m)
  {
    assert (ms + [m])[..|ms|] == ms;
  }

  /** What a segment message carries, and how it is flagged. */
  ghost predicate Carries(m: Message, data: seq<byte>, toggle: bool, last: bool) {
    WellFormed(m) && IsSegment(m) && SegmentData(m) == data && Toggled(m) == toggle && IsLast(m) == last
  }

  /** The first message is accepted. */
  predicate AcceptsInit(r: Option<Message>, index: word, subindex: byte) {
    r.Some? && Whole(r.value) && IsResponse(r.value) && IndexOf(r.value) == index && SubIndexOf(r.value) == subindex
  }

  /** First message of a download of `p` in parts. */
  ghost predicate Begins(m: Message, index: word, subindex: byte, CA: bool, p: seq<byte>, k: nat) {
    && WellFormed(m) && k <= |p| < 0x8000_0000 && !IsExpedited(m) && m.command.flag == CA
    && IndexOf(m) == index && SubIndexOf(m) == subindex && TotalSize(m) == |p| && InitData(m) == p[..k]
  }

  /** The sub-index that is addressed: complete access begins at 0 or 1. */
  function Addressed(subindex: byte, CA: bool): (a: byte)
    ensures if CA then a <= 1 && (subindex <= 1 ==> a == subindex) && (subindex > 0 ==> a > 0) else a == subindex
  {
    if CA && subindex > 1 then 1 else subindex
  }

  lemma DownloadParts(m: Message, ms: seq<Message>)
    requires WellFormed(m) && AllWellFormed(ms) && InSequence(ms) && !IsExpedited(m)
    ensures var data := InitData(m) + Joined(ms);
            Download([m] + ms) == if |data| == TotalSize(m) then Some(data) else None
  {
    assert ([m] + ms)[1..] == ms;
  }

  /** The parts make up the object exactly when its size fits in 16 bits. */
  lemma PartsDownload(m: Message, ms: seq<Message>, index: word, subindex: byte, CA: bool, p: seq<byte>, k: nat)
    requires Begins(m, index, subindex, CA, p, k) && k <= Short(|p|)
    requires AllWellFormed(ms) && InSequence(ms)
    requires Joined(ms) == p[k..k + Short(|p| - k)]
    ensures Download([m] + ms) == Some(p) <==> |p| < 0x1_0000
  {
    ShortSplit(|p|, k);
    SliceJoin(p, 0, k, Short(|p|));
    assert p[0..k] == p[..k];
    DownloadParts(m, ms);
    assert p[..|p|] == p;
  }

  /** The first message of a download that carries no data itself. */
  function EmptyStart(size: nat): (m: Message)
    requires size < 0x1_0000_0000
    ensures WellFormed(m) && !IsExpedited(m) && IndexOf(m) == 0 && SubIndexOf(m) == 0 && !m.command.flag
    ensures TotalSize(m) == size && InitData(m) == []
  {
    var body := [0, 0, 0] + LongBytes(size) + Repeat<byte>(0, BODYSIZE - 7);
    assert body[3..7] == LongBytes(size);
    Request(0x0a, 1, ECT_SDO_DOWN_INIT, body)
  }

  /**
   * Of 65536 bytes none is left when the size is cut to 16 bits: one message without data, and the
   * slave gets no object.
   */
  lemma LargeObjectIsCut(p: seq<byte>)
    requires |p| == 0x1_0000
    ensures Short(|p|) == 0 && Begins(EmptyStart(|p|), 0, 0, false, p, 0) && Download([EmptyStart(|p|)]) == None
  {
    DownloadParts(EmptyStart(|p|), []);
    assert [EmptyStart(|p|)] + [] == [EmptyStart(|p|)];
  }

  /** Of no bytes the expedited message makes four. */
  lemma EmptyObjectIsFour()
    ensures var m := Request(0x0a, 1, ExpeditedCommand(0), Repeat<byte>(0, BODYSIZE));
            WellFormed(m) && IsExpedited(m) && Download([m]) == Some([0, 0, 0, 0])
  {
    assert Repeat<byte>(0, BODYSIZE)[3..7] == [0, 0, 0, 0];
  }

  /** The segments sent carry `p` from `hp0` to `hp`, or with the last one all that 16 bits of size can tell. */
  ghost predicate SoFar(ms: seq<Message>, toggle: bool, notLast: bool, p: seq<byte>, hp0: nat, hp: nat) {
    && hp0 <= hp <= |p| && AllWellFormed(ms)
    && if notLast then Going(ms, toggle) && Joined(ms) == p[hp0..hp] && hp + Short(|p| - hp) == hp0 + Short(|p| - hp0)
       else InSequence(ms) && ms != [] && Joined(ms) == p[hp0..hp0 + Short(|p| - hp0)]
  }

  lemma GoingNext(ms: seq<Message>, m: Message, toggle: bool, last: bool)
    requires Going(ms, toggle) && IsSegment(m) && Toggled(m) == toggle && IsLast(m) == last
    ensures if last then InSequence(ms + [m]) else Going(ms + [m], !toggle)
  {
    assert (ms + [m])[..|ms|] == ms;
  }

  lemma JoinNext(ms: seq<Message>, m: Message, p: seq<byte>, a: nat, b: nat, c: nat)
    requires AllWellFormed(ms) && WellFormed(m) && a <= b <= c <= |p|
    requires Joined(ms) == p[a..b] && SegmentData(m) == p[b..c]
    ensures Joined(ms + [m]) == p[a..c]
  {
    JoinedAppend(ms, m);
    SliceJoin(p, a, b, c);
  }

  lemma NothingSoFar(p: seq<byte>, hp0: nat)
    requires hp0 <= |p|
    ensures SoFar([], false, true, p, hp0, hp0)
  {}

  /** One more segment that is not the last. */
  lemma NextSegment(ms: seq<Message>, m: Message, toggle: bool, p: seq<byte>, hp0: nat, hp: nat, n: nat)
    requires SoFar(ms, toggle, true, p, hp0, hp) && n <= Short(|p| - hp)
    requires Carries(m, p[hp..hp + n], toggle, false)
    ensures SoFar(ms + [m], !toggle, true, p, hp0, hp + n)
  {
    hide Going, Joined, SegmentData, InSequence;
    GoingNext(ms, m, toggle, false);
    JoinNext(ms, m, p, hp0, hp, hp + n);
    ShortSplit(|p| - hp, n);
  }

  /** The last segment. */
  lemma LastSegment(ms: seq<Message>, m: Message, toggle: bool, p: seq<byte>, hp0: nat, hp: nat, n: nat)
    requires SoFar(ms, toggle, true, p, hp0, hp) && n == Short(|p| - hp)
    requires Carries(m, p[hp..hp + n], toggle, true)
    ensures SoFar(ms + [m], !toggle, false, p, hp0, hp + n)
  {
    hide Going, Joined, SegmentData, InSequence;
    GoingNext(ms, m, toggle, true);
    JoinNext(ms, m, p, hp0, hp, hp + n);
  }

  /** The messages of a master to one slave, and the answers it will find, `None` where none comes in time. */
  class SdoClient {
    const mbx_l: nat
    const replies: nat -> Option<Message>
    var received: nat
    var mbx_cnt: nat
    var sent: seq<Message>

    constructor (mbx_l: nat, replies: nat -> Option<Message>)
      ensures this.mbx_l == mbx_l && this.replies == replies && received == 0 && mbx_cnt == 0 && sent == []
    {
      this.mbx_l, this.replies, received, mbx_cnt, sent := mbx_l, replies, 0, 0, [];
    }

    method Send(out: array<byte>, length: word, command: Command) returns (ghost m: Message)
      requires mbx_cnt <= 7
      modifies `mbx_cnt, `sent
      ensures mbx_cnt <= 7 && sent == old(sent) + [m] && AreRequests([m], old(mbx_cnt), mbx_cnt)
      ensures m.mbxtype == ECT_MBXT_COE && m.length == length && m.command == command && m.body == out[..]
    {
      mbx_cnt := NextCount(mbx_cnt);
      sent := sent + [Request(length, mbx_cnt, command, out[..])];
      m := Request(length, mbx_cnt, command, out[..]);
      OneRequest(m, old(mbx_cnt));
    }

    method Receive() returns (r: Option<Message>)
      modifies `received
      ensures r == replies(old(received)) && received == old(received) + 1
    {
      r := replies(received);
      received := received + 1;
    }

    /** Sends the next segment of `p` from `hp` on: `n` bytes, and whether more follow. */
    method SendSegment(out: array<byte>, p: seq<byte>, hp: nat, maxdata: nat, toggle: bool)
      returns (n: nat, notLast: bool, ghost m: Message)
      requires out.Length == BODYSIZE && hp <= |p| && 7 <= maxdata <= BODYSIZE && mbx_cnt <= 7
      modifies out, `mbx_cnt, `sent
      ensures mbx_cnt <= 7 && sent == old(sent) + [m] && AreRequests([m], old(mbx_cnt), mbx_cnt)
      ensures var size := Short(|p| - hp);
              notLast == (size > maxdata) && n == (if notLast then maxdata else size)
      ensures Carries(m, p[hp..hp + n], toggle, !notLast) && Filled([m], maxdata + 9, notLast)
    {
      n := Short(|p| - hp);
      notLast := false;
      var unused := 0;
      var length := n + 3;
      if n > maxdata {
        n := maxdata;
        notLast := true;
      }
      if !notLast && n < 7 {
        length := 0x0a;
        unused := 7 - n;
      } else {
        length := n + 3;
      }
      var command := SegmentCommand(!notLast, unused, toggle);
      Fill(out, 0, p[hp..hp + n]);
      m := Send(out, length, command);
    }

    /** The segments of `p` from `hp` on. */
    method WriteSegments(out: array<byte>, p: seq<byte>, hp0: nat, maxdata: nat)
      returns (wkc: int, ghost ms: seq<Message>)
      requires out.Length == BODYSIZE && hp0 <= |p| && 7 <= maxdata <= BODYSIZE && mbx_cnt <= 7
      modifies out, `mbx_cnt, `sent, `received
      ensures sent == old(sent) + ms && mbx_cnt <= 7 && AreRequests(ms, old(mbx_cnt), mbx_cnt)
      ensures AllWellFormed(ms)
      ensures wkc > 0 ==> InSequence(ms) && ms != [] && Joined(ms) == p[hp0..hp0 + Short(|p| - hp0)]
      ensures wkc > 0 <==> AcceptsAll(replies, old(received), |ms|)
      ensures Filled(ms, maxdata + 9, false)
    {
      hide InSequence, Joined, Short, WellFormed, AreRequests;
      var hp := hp0;
      var toggle, notLast := false, true;
      wkc, ms := 0, [];
      NothingSoFar(p, hp0);
      NoRequests(mbx_cnt);
      while notLast
        invariant hp0 <= hp <= |p| && mbx_cnt <= 7 && received == old(received) + |ms|
        invariant sent == old(sent) + ms && AllWellFormed(ms) && AreRequests(ms, old(mbx_cnt), mbx_cnt)
        invariant notLast || wkc > 0 ==> SoFar(ms, toggle, notLast, p, hp0, hp)
        invariant Filled(ms, maxdata + 9, notLast)
        invariant notLast ==>
                    forall i :: old(received) <= i < received ==> replies(i).None? || AcceptsSegment(replies(i))
        invariant !notLast ==> ms != [] && (wkc > 0 <==> AcceptsAll(replies, old(received), |ms|))
        decreases notLast, |p| - hp
      {
        ghost var m;
        ghost var cnt := mbx_cnt;
        var n;
        n, notLast, m := SendSegment(out, p, hp, maxdata, toggle);
        if notLast {
          NextSegment(ms, m, toggle, p, hp0, hp, n);
        } else {
          LastSegment(ms, m, toggle, p, hp0, hp, n);
        }
        RequestsJoin(ms, [m], old(mbx_cnt), cnt, mbx_cnt);
        FilledJoin(ms, [m], maxdata + 9, notLast);
        ms := ms + [m];
        hp := hp + n;
        var r := Receive();
        wkc := if r.Some? then 1 else 0;
        if r.Some? && !AcceptsSegment(r) {
          wkc := 0;
          notLast := false;
        }
        toggle := !toggle;
      }
    }

    /** The object in one message. */
    method WriteExpedited(out: array<byte>, index: word, subindex: byte, p: seq<byte>)
      returns (wkc: int, ghost m: Message)
      requires out.Length == BODYSIZE && mbx_cnt <= 7 && |p| <= 4 && 16 <= mbx_l
      modifies out, `mbx_cnt, `sent, `received
      ensures Filled([m], mbx_l, false)
      ensures sent == old(sent) + [m] && mbx_cnt <= 7 && AreRequests([m], old(mbx_cnt), mbx_cnt) && WellFormed(m)
      ensures IsExpedited(m) && IndexOf(m) == index && SubIndexOf(m) == subindex && !m.command.flag
      ensures m.length == 10 && ExpeditedData(m) == if |p| > 0 then p else old(out[3..7])
      ensures AcceptsInit(replies(old(received)), index, subindex) <==> wkc > 0
    {
      Fill(out, 0, [Lo(index), Hi(index), subindex]);
      assert out[3..7] == old(out[3..7]);
      Fill(out, 3, p);
      assert |p| == 0 ==> out[3..7] == old(out[3..7]);
      m := Send(out, 0x0a, ExpeditedCommand(|p|));
      var r := Receive();
      wkc := if AcceptsInit(r, index, subindex) then 1 else 0;
    }

    /** The first message of a download in parts: `k` bytes, and whether segments follow. */
    method SendInit(out: array<byte>, index: word, subindex: byte, CA: bool, p: seq<byte>)
      returns (k: nat, notLast: bool, ghost m: Message)
      requires out.Length == BODYSIZE && mbx_cnt <= 7 && 16 <= mbx_l <= EC_MAXMBX && |p| < 0x8000_0000
      modifies out, `mbx_cnt, `sent
      ensures sent == old(sent) + [m] && mbx_cnt <= 7 && AreRequests([m], old(mbx_cnt), mbx_cnt)
      ensures notLast == (Short(|p|) > mbx_l - 0x10) && k == if notLast then mbx_l - 0x10 else Short(|p|)
      ensures Filled([m], mbx_l, notLast)
      ensures Begins(m, index, Addressed(subindex, CA), CA, p, k)
    {
      k := Short(|p|);
      notLast := false;
      if k > mbx_l - 0x10 {
        k := mbx_l - 0x10;
        notLast := true;
      }
      var command := if CA then ECT_SDO_DOWN_INIT_CA else ECT_SDO_DOWN_INIT;
      FillInit(out, index, Addressed(subindex, CA), |p|, p[..k]);
      m := Send(out, 0x0a + k, command);
    }

    /** The segments behind the first `k` bytes, when the first message is accepted and did not carry all. */
    method SendRest(out: array<byte>, p: seq<byte>, k: nat, notLast: bool, accepted: bool)
      returns (wkc: int, ghost rest: seq<Message>)
      requires out.Length == BODYSIZE && 16 <= mbx_l <= EC_MAXMBX && mbx_cnt <= 7 && k <= Short(|p|)
      requires !notLast ==> k == Short(|p|)
      modifies out, `mbx_cnt, `sent, `received
      ensures sent == old(sent) + rest && mbx_cnt <= 7 && AllWellFormed(rest)
      ensures AreRequests(rest, old(mbx_cnt), mbx_cnt)
      ensures wkc > 0 ==> InSequence(rest) && Joined(rest) == p[k..k + Short(|p| - k)]
      ensures wkc > 0 <==> accepted && AcceptsAll(replies, old(received), |rest|)
      ensures Filled(rest, mbx_l, false) && (rest != [] ==> notLast)
    {
      rest := [];
      wkc := if accepted then 1 else 0;
      ShortSplit(|p|, k);
      if accepted && notLast {
        wkc, rest := WriteSegments(out, p, k, mbx_l - 0x10 + 7);
      }
    }

    /** The first message, and the segments when it is accepted. */
    method SendParts(out: array<byte>, index: word, subindex: byte, CA: bool, p: seq<byte>)
      returns (wkc: int, ghost m: Message, ghost rest: seq<Message>, ghost k: nat)
      requires out.Length == BODYSIZE && 16 <= mbx_l <= EC_MAXMBX && mbx_cnt <= 7 && |p| < 0x8000_0000
      modifies out, `mbx_cnt, `sent, `received
      ensures sent == old(sent) + ([m] + rest) && mbx_cnt <= 7 && AllWellFormed(rest)
      ensures AreRequests([m] + rest, old(mbx_cnt), mbx_cnt) && Filled([m] + rest, mbx_l, false)
      ensures Begins(m, index, Addressed(subindex, CA), CA, p, k) && k <= Short(|p|)
      ensures wkc > 0 ==> InSequence(rest) && Joined(rest) == p[k..k + Short(|p| - k)]
      ensures wkc > 0 <==> && AcceptsInit(replies(old(received)), index, Addressed(subindex, CA))
                           && AcceptsAll(replies, old(received) + 1, |rest|)
    {
      var notLast, n;
      n, notLast, m := SendInit(out, index, subindex, CA, p);
      ghost var cnt := mbx_cnt;
      k := n;
      var r := Receive();
      wkc, rest := SendRest(out, p, n, notLast, AcceptsInit(r, index, Addressed(subindex, CA)));
      RequestsJoin([m], rest, old(mbx_cnt), cnt, mbx_cnt);
      FilledJoin([m], rest, mbx_l, false);
    }

    /** The object in parts. */
    method WriteParts(out: array<byte>, index: word, subindex: byte, CA: bool, p: seq<byte>)
      returns (wkc: int, ghost m: Message, ghost rest: seq<Message>)
      requires out.Length == BODYSIZE && 16 <= mbx_l <= EC_MAXMBX && mbx_cnt <= 7 && |p| < 0x8000_0000
      modifies out, `mbx_cnt, `sent, `received
      ensures sent == old(sent) + ([m] + rest) && mbx_cnt <= 7 && WellFormed(m) && AllWellFormed(rest)
      ensures AreRequests([m] + rest, old(mbx_cnt), mbx_cnt) && Filled([m] + rest, mbx_l, false)
      ensures IndexOf(m) == index && SubIndexOf(m) == Addressed(subindex, CA) && m.command.flag == CA
      ensures wkc > 0 ==> (Download([m] + rest) == Some(p) <==> |p| < 0x1_0000)
      ensures wkc > 0 <==> && AcceptsInit(replies(old(received)), index, Addressed(subindex, CA))
                           && AcceptsAll(replies, old(received) + 1, |rest|)
    {
      ghost var k;
      wkc, m, rest, k := SendParts(out, index, subindex, CA, p);
      if wkc > 0 {
        PartsDownload(m, rest, index, Addressed(subindex, CA), CA, p, k);
      }
    }

    /**
     * Download of an object.  When it reports success, what the slave puts
     * together from the messages is the object, exactly when its size fits in 16
     * bits and it is not empty or complete access is used.
     */
    method Write(index: word, subindex: byte, CA: bool, p: seq<byte>) returns (wkc: int, ghost ms: seq<Message>)
      requires 16 <= mbx_l <= EC_MAXMBX && mbx_cnt <= 7 && |p| < 0x8000_0000
      modifies `mbx_cnt, `sent, `received
      ensures sent == old(sent) + ms && ms != [] && AllWellFormed(ms) && AreRequests(ms, old(mbx_cnt), mbx_cnt)
      ensures Filled(ms, mbx_l, false)
      ensures IndexOf(ms[0]) == index && SubIndexOf(ms[0]) == Addressed(subindex, CA) && ms[0].command.flag == CA
      ensures wkc > 0 ==> (Download(ms) == Some(p) <==> |p| < 0x1_0000 && (CA || |p| >= 1))
      ensures |p| <= 4 && !CA ==> ms[0].length == 10 && Download(ms) == Some(if |p| > 0 then p else [0, 0, 0, 0])
      ensures wkc > 0 <==> && AcceptsInit(replies(old(received)), index, Addressed(subindex, CA))
                           && AcceptsAll(replies, old(received) + 1, |ms| - 1)
    {
      hide AreRequests, Filled, AcceptsInit, AcceptsSegment, InSequence, Joined, Addressed;
      var out := new byte[BODYSIZE](_ => 0);
      ghost var m, rest;
      rest := [];
      if |p| <= 4 && !CA {
        assert out[3..7] == [0, 0, 0, 0];
        wkc, m := WriteExpedited(out, index, subindex, p);
        assert sent == old(sent) + ([m] + rest) && [m] + rest == [m];
        assert Download([m]) == Some(ExpeditedData(m));
      } else {
        wkc, m, rest := WriteParts(out, index, subindex, CA, p);
      }
      ms := [m] + rest;
    }
  }
}
