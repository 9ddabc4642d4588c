/**
 * Building EtherCAT frames in place (`ecx_setupdatagram`, `ecx_adddatagram`) and
 * reading them back.  A frame buffer starts with the Ethernet header; behind it
 * come the EtherCAT length word and the datagrams, each with a 10 byte header,
 * data and a work counter.  Words are little endian.
 */
module Frames {
  import opened Sequences

  type byte = x: nat | x < 0x100
  type word = x: nat | x < 0x1_0000

  const EC_BUFSIZE := 1518
  const ETH_HEADERSIZE := 14
  const EC_HEADERSIZE := 12
  const EC_ELENGTHSIZE := 2
  const EC_WKCSIZE := 2
  const EC_ECATTYPE := 0x1000
  const EC_DATAGRAMFOLLOWS := 0x8000

  const EC_CMD_NOP: byte := 0x00
  const EC_CMD_APRD: byte := 0x01
  const EC_CMD_FPRD: byte := 0x04
  const EC_CMD_BRD: byte := 0x07
  const EC_CMD_LRD: byte := 0x0a

  function Lo(w: word): byte { w % 0x100 }

  function Hi(w: word): byte { w / 0x100 }

  /** The word at position `p`. */
  function WordAt(f: seq<byte>, p: nat): word
    requires p + 1 < |f|
  {
    var lo: nat, hi: nat := f[p], f[p + 1];
    lo + 0x100 * hi
  }

  /** `w | 0x8000`. */
  function WithFollows(w: word): word {
    if w < EC_DATAGRAMFOLLOWS then w + EC_DATAGRAMFOLLOWS else w
  }

  datatype Datagram = Datagram(cmd: byte, index: byte, ADP: word, ADO: word, data: seq<byte>)

  predicate IsRead(cmd: byte) {
    cmd == EC_CMD_NOP || cmd == EC_CMD_APRD || cmd == EC_CMD_FPRD || cmd == EC_CMD_BRD || cmd == EC_CMD_LRD
  }

  /** Bytes a datagram takes in the frame, work counter included. */
  function Span(d: Datagram): nat {
    EC_HEADERSIZE + |d.data|
  }

  /** Position behind the datagrams `ds`, counted from the EtherCAT length word. */
  function Behind(ds: seq<Datagram>): nat {
    if ds == [] then EC_ELENGTHSIZE else Behind(ds[..|ds| - 1]) + Span(ds[|ds| - 1])
  }

  /** The datagram as it is sent: a command that only reads carries zeroes. */
  function OnWire(d: Datagram): Datagram {
    if IsRead(d.cmd) then d.(data := Repeat<byte>(0, |d.data|)) else d
  }

  /** The frame holds datagram `d` at position `p`, work counter zero. */
  ghost predicate At(f: seq<byte>, p: nat, d: Datagram, more: bool) {
    && |d.data| < 0x800 && p + Span(d) <= |f|
    && f[p] == d.cmd && f[p + 1] == d.index
    && WordAt(f, p + 2) == d.ADP && WordAt(f, p + 4) == d.ADO
    && WordAt(f, p + 6) == |d.data| + (if more then EC_DATAGRAMFOLLOWS else 0)
    && (forall i :: 0 <= i < |d.data| ==> OnWire(d).data[i] == f[p + 10 + i])
    && WordAt(f, p + 10 + |d.data|) == 0
  }

  /** All datagrams in a row, each but the last with the follows bit, the last one with it if `more`. */
  ghost predicate Row(f: seq<byte>, ds: seq<Datagram>, more: bool) {
    ds == []
    || (Row(f, ds[..|ds| - 1], true) && At(f, Behind(ds[..|ds| - 1]), ds[|ds| - 1], more))
  }

  /** A well-formed frame behind its Ethernet header: length word, datagrams, nothing else. */
  ghost predicate Holds(f: seq<byte>, ds: seq<Datagram>, more: bool) {
    && ds != [] && |f| == Behind(ds) && |f| <= EC_BUFSIZE - ETH_HEADERSIZE
    && WordAt(f, 0) == EC_ECATTYPE + |f| - EC_ELENGTHSIZE
    && Row(f, ds, more)
  }

  /** The low byte of a word comes first. */
  lemma LowFirst(f: seq<byte>, p: nat)
    requires p + 1 < |f|
    ensures f[p] == WordAt(f, p) % 0x100 && f[p + 1] == WordAt(f, p) / 0x100
  {}

  /** A datagram byte by byte; no operation, and reads by position, address, broadcast and logically, carry zeroes. */
  lemma DatagramBytes(f: seq<byte>, p: nat, d: Datagram, more: bool)
    requires At(f, p, d, more)
    ensures f[p] == d.cmd && f[p + 1] == d.index
    ensures f[p + 2] == d.ADP % 0x100 && f[p + 3] == d.ADP / 0x100
    ensures f[p + 4] == d.ADO % 0x100 && f[p + 5] == d.ADO / 0x100
    ensures f[p + 6] == |d.data| % 0x100 && f[p + 7] == |d.data| / 0x100 + if more then 0x80 else 0
    ensures forall i :: 0 <= i < |d.data| ==>
              f[p + 10 + i] == if d.cmd in [0x00, 0x01, 0x04, 0x07, 0x0a] then 0 else d.data[i]
    ensures f[p + 10 + |d.data|] == 0 && f[p + 11 + |d.data|] == 0
  {
    LowFirst(f, p + 2);
    LowFirst(f, p + 4);
    LowFirst(f, p + 6);
    LowFirst(f, p + 10 + |d.data|);
    hide WordAt;
    forall i | 0 <= i < |d.data|
      ensures f[p + 10 + i] == if d.cmd in [0x00, 0x01, 0x04, 0x07, 0x0a] then 0 else d.data[i]
    {
      assert OnWire(d).data[i] == f[p + 10 + i];
    }
  }

  /** The frame starts with what is behind the length word, in eleven bits, and the protocol type 1. */
  lemma FrameBytes(f: seq<byte>, ds: seq<Datagram>, more: bool)
    requires Holds(f, ds, more)
    ensures f[0] == (|f| - 2) % 0x100 && f[1] == 0x10 + (|f| - 2) / 0x100 && |f| <= 1504
  {
    LowFirst(f, 0);
    hide WordAt, Row, Behind;
    var n := |f| - 2;
    assert n == 0x100 * (n / 0x100) + n % 0x100;
    assert WordAt(f, 0) == 0x100 * (0x10 + n / 0x100) + n % 0x100;
  }

  /** Reading a frame by nothing but its length fields and follows bits. */
  function Parse(f: seq<byte>, p: nat): seq<Datagram>
    decreases |f| - p
  {
    if p + EC_HEADERSIZE > |f| then []
    else
      var w := WordAt(f, p + 6);
      var length := w % 0x800;
      if p + EC_HEADERSIZE + length > |f| then []
      else
        var d := Datagram(f[p], f[p + 1], WordAt(f, p + 2), WordAt(f, p + 4), f[p + 10..p + 10 + length]);
        if w >= EC_DATAGRAMFOLLOWS then [d] + Parse(f, p + EC_HEADERSIZE + length) else [d]
  }

  function OnWireAll(ds: seq<Datagram>): (ws: seq<Datagram>)
    ensures |ws| == |ds|
  {
    if ds == [] then [] else OnWireAll(ds[..|ds| - 1]) + [OnWire(ds[|ds| - 1])]
  }

  lemma LengthField(n: nat, more: bool)
    requires n < 0x800
    ensures (n + if more then EC_DATAGRAMFOLLOWS else 0) % 0x800 == n
  {}

  lemma ParseOne(f: seq<byte>, p: nat, d: Datagram, more: bool)
    requires At(f, p, d, more)
    ensures Parse(f, p) == if more then [OnWire(d)] + Parse(f, p + Span(d)) else [OnWire(d)]
  {
    LengthField(|d.data|, more);
    assert f[p + 10..p + 10 + |d.data|] == OnWire(d).data;
  }

  lemma {:induction false} BehindGrows(ds: seq<Datagram>)
    ensures Behind(ds) >= EC_ELENGTHSIZE
  {
    if ds != [] { BehindGrows(ds[..|ds| - 1]); }
  }

  /** What is parsed from each position, as a value. */
  type Reading = nat -> seq<Datagram>

  ghost predicate Reads(P: Reading, f: seq<byte>) {
    forall p {:trigger Parse(f, p)} :: P(p) == Parse(f, p)
  }

  lemma ReadOne(f: seq<byte>, P: Reading, p: nat, d: Datagram, more: bool)
    requires At(f, p, d, more) && Reads(P, f)
    ensures P(p) == if more then [OnWire(d)] + P(p + Span(d)) else [OnWire(d)]
  {
    ParseOne(f, p, d, more);
    assert P(p) == Parse(f, p) && P(p + Span(d)) == Parse(f, p + Span(d));
  }

  lemma Regroup(a: seq<Datagram>, d: Datagram, rest: seq<Datagram>)
    ensures a + ([d] + rest) == (a + [d]) + rest
  {}

  /** Reading from the first datagram on gives the datagrams of the row and then `rest`. */
  lemma {:induction false} ReadRow(f: seq<byte>, P: Reading, ds: seq<Datagram>, more: bool, rest: seq<Datagram>)
    requires Row(f, ds, more) && Reads(P, f)
    requires if more then rest == P(Behind(ds)) else rest == [] && ds != []
    ensures P(EC_ELENGTHSIZE) == OnWireAll(ds) + rest
    decreases |ds|
  {
    hide At, Reads;
    if ds != [] {
      var front, d := ds[..|ds| - 1], ds[|ds| - 1];
      ReadOne(f, P, Behind(front), d, more);
      var rest' := [OnWire(d)] + rest;
      assert P(Behind(front)) == rest' by {
        if !more { assert rest' == [OnWire(d)]; }
      }
      ReadRow(f, P, front, true, rest');
      Regroup(OnWireAll(front), OnWire(d), rest);
    }
  }

  /** A finished frame reads back as exactly the datagrams put in. */
  lemma ParseBuilt(f: seq<byte>, ds: seq<Datagram>)
    requires Holds(f, ds, false)
    ensures Parse(f, EC_ELENGTHSIZE) == OnWireAll(ds)
  {
    ReadRow(f, (p: nat) => Parse(f, p), ds, false, []);
    assert OnWireAll(ds) + [] == OnWireAll(ds);
  }

  /** Where the frame driver reads the work counter of a received frame. */
  function WkcPosition(f: seq<byte>): nat
    requires |f| >= 2
  {
    var lo: nat, hi: nat := f[0], f[1];
    lo + 0x100 * (hi % 0x10)
  }

  lemma TwelveBits(lo: nat, hi: nat, n: nat)
    requires lo < 0x100 && n < EC_ECATTYPE && lo + 0x100 * hi == EC_ECATTYPE + n
    ensures lo + 0x100 * (hi % 0x10) == n
  {
    assert 0x10 <= hi < 0x20;
    assert hi % 0x10 == hi - 0x10;
  }

  /** That is the work counter of the last datagram. */
  lemma WkcIsLast(f: seq<byte>, ds: seq<Datagram>, more: bool)
    requires Holds(f, ds, more)
    ensures WkcPosition(f) == |f| - EC_WKCSIZE == Behind(ds) - EC_WKCSIZE
  {
    TwelveBits(f[0], f[1], |f| - EC_ELENGTHSIZE);
  }

  /** A datagram written at position `p` behind `start` is at position `p` of the frame from `start` on. */
  lemma AtFromBytes(bytes: seq<byte>, start: nat, end: nat, p: nat, d: Datagram, more: bool)
    requires start <= end <= |bytes| && p + Span(d) <= end - start && |d.data| < 0x800
    requires var q := start + p;
             && bytes[q] == d.cmd && bytes[q + 1] == d.index
             && WordAt(bytes, q + 2) == d.ADP && WordAt(bytes, q + 4) == d.ADO
             && WordAt(bytes, q + 6) == |d.data| + (if more then EC_DATAGRAMFOLLOWS else 0)
             && bytes[q + 10..q + 10 + |d.data|] == OnWire(d).data
             && bytes[q + 10 + |d.data|] == 0 && bytes[q + 11 + |d.data|] == 0
    ensures At(bytes[start..end], p, d, more)
  {
    var data := bytes[start + p + 10..start + p + 10 + |d.data|];
    forall i | 0 <= i < |d.data| ensures OnWire(d).data[i] == bytes[start..end][p + 10 + i] {
      assert data[i] == bytes[start + p + 10 + i];
    }
  }

  lemma HoldsOne(f: seq<byte>, d: Datagram)
    requires At(f, EC_ELENGTHSIZE, d, false) && |f| == EC_ELENGTHSIZE + Span(d) <= EC_BUFSIZE - ETH_HEADERSIZE
    requires WordAt(f, 0) == EC_ECATTYPE + Span(d)
    ensures Holds(f, [d], false)
  {
    assert [d][..0] == [];
  }

  lemma SingleHolds(bytes: seq<byte>, end: nat, d: Datagram)
    requires end == ETH_HEADERSIZE + EC_ELENGTHSIZE + Span(d) <= |bytes| == EC_BUFSIZE
    requires WordAt(bytes, 14) == EC_ECATTYPE + Span(d)
    requires bytes[16] == d.cmd && bytes[17] == d.index
    requires WordAt(bytes, 18) == d.ADP && WordAt(bytes, 20) == d.ADO
    requires WordAt(bytes, 22) == |d.data| && bytes[26..26 + |d.data|] == OnWire(d).data
    requires bytes[26 + |d.data|] == 0 && bytes[27 + |d.data|] == 0
    ensures Holds(bytes[ETH_HEADERSIZE..end], [d], false)
  {
    AtFromBytes(bytes, ETH_HEADERSIZE, end, EC_ELENGTHSIZE, d, false);
    HoldsOne(bytes[ETH_HEADERSIZE..end], d);
  }

  /** From position `p` to `q` the frames agree. */
  ghost predicate Agree(f: seq<byte>, g: seq<byte>, p: nat, q: nat) {
    q <= |f| && q <= |g| && forall i :: p <= i < q ==> f[i] == g[i]
  }

  lemma AtSame(f: seq<byte>, g: seq<byte>, p: nat, d: Datagram, more: bool)
    requires At(g, p, d, more) && Agree(f, g, p, p + Span(d))
    ensures At(f, p, d, more)
  {
  }

  lemma {:induction false} RowSame(f: seq<byte>, g: seq<byte>, ds: seq<Datagram>, more: bool)
    requires Row(g, ds, more) && Agree(f, g, EC_ELENGTHSIZE, Behind(ds))
    ensures Row(f, ds, more)
  {
    if ds != [] {
      var front := ds[..|ds| - 1];
      BehindGrows(front);
      RowSame(f, g, front, true);
      AtSame(f, g, Behind(front), ds[|ds| - 1], more);
    }
  }

  lemma {:induction false} RowFirst(f: seq<byte>, ds: seq<Datagram>, more: bool)
    requires Row(f, ds, more) && ds != []
    ensures At(f, EC_ELENGTHSIZE, ds[0], more || |ds| > 1)
  {
    if |ds| > 1 {
      RowFirst(f, ds[..|ds| - 1], true);
    } else {
      assert ds[..0] == [];
    }
  }

  /** Only the length field of the first datagram differs: there the follows bit is set. */
  ghost predicate FirstMarked(f: seq<byte>, g: seq<byte>) {
    && 10 <= |g| <= |f|
    && Agree(f, g, 2, 8) && Agree(f, g, 10, |g|)
    && WordAt(f, 8) == WithFollows(WordAt(g, 8))
  }

  lemma SameWord(a: byte, b: byte, c: byte, d: byte)
    requires a as nat + 0x100 * b as nat == c as nat + 0x100 * d as nat
    ensures a == c && b == d
  {}

  lemma MarkedAt(f: seq<byte>, g: seq<byte>, d: Datagram)
    requires FirstMarked(f, g) && At(g, EC_ELENGTHSIZE, d, false)
    ensures At(f, EC_ELENGTHSIZE, d, true)
  {
  }

  /** With the first datagram marked, everything in the frame is followed by more. */
  lemma RowMarked(f: seq<byte>, g: seq<byte>, ds: seq<Datagram>, more: bool)
    requires FirstMarked(f, g) && Row(g, ds, more) && ds != [] && Behind(ds) == |g|
    requires more || |ds| == 1
    ensures Row(f, ds, true)
  {
    RowFirst(g, ds, more);
    if more {
      assert WordAt(f, 8) == WordAt(g, 8);
      SameWord(f[8], f[9], g[8], g[9]);
      RowSame(f, g, ds, true);
    } else {
      assert ds[..0] == [] && ds == [ds[0]];
      MarkedAt(f, g, ds[0]);
    }
  }

  lemma RowAppend(f: seq<byte>, ds: seq<Datagram>, d: Datagram, more: bool)
    requires Row(f, ds, true) && At(f, Behind(ds), d, more)
    ensures Row(f, ds + [d], more) && Behind(ds + [d]) == Behind(ds) + Span(d)
  {
    assert (ds + [d])[..|ds|] == ds;
  }

  /** Buffer `B` is buffer `B0` with datagram `d` written at `prev` and the two header fields at the start adjusted. */
  ghost predicate Written(B: seq<byte>, B0: seq<byte>, prev: nat, d: Datagram, more: bool) {
    && 24 <= prev && prev + Span(d) <= |B| == |B0| == EC_BUFSIZE
    && WordAt(B, 14) == WordAt(B0, 14) + Span(d)
    && WordAt(B, 22) == WithFollows(WordAt(B0, 22))
    && (forall i :: 0 <= i < prev && i != 14 && i != 15 && i != 22 && i != 23 ==> B[i] == B0[i])
    && B[prev] == d.cmd && B[prev + 1] == d.index
    && WordAt(B, prev + 2) == d.ADP && WordAt(B, prev + 4) == d.ADO
    && WordAt(B, prev + 6) == |d.data| + (if more then EC_DATAGRAMFOLLOWS else 0)
    && B[prev + 10..prev + 10 + |d.data|] == OnWire(d).data
    && B[prev + 10 + |d.data|] == 0 && B[prev + 11 + |d.data|] == 0
  }

  /** Frame `f` is frame `g` with datagram `d` behind it. */
  ghost predicate Appended(f: seq<byte>, g: seq<byte>, d: Datagram, more: bool) {
    && FirstMarked(f, g) && |f| == |g| + Span(d)
    && WordAt(f, 0) == WordAt(g, 0) + Span(d)
    && At(f, |g|, d, more)
  }

  lemma WrittenIsAt(B: seq<byte>, B0: seq<byte>, prev: nat, d: Datagram, more: bool)
    requires Written(B, B0, prev, d, more)
    ensures At(B[ETH_HEADERSIZE..prev + Span(d)], prev - ETH_HEADERSIZE, d, more)
  {
    AtFromBytes(B, ETH_HEADERSIZE, prev + Span(d), prev - ETH_HEADERSIZE, d, more);
  }

  lemma SlicesMarked(B: seq<byte>, B0: seq<byte>, prev: nat, end: nat)
    requires 24 <= prev <= end <= |B| == |B0|
    requires forall i :: 0 <= i < prev && i != 14 && i != 15 && i != 22 && i != 23 ==> B[i] == B0[i]
    requires WordAt(B, 22) == WithFollows(WordAt(B0, 22))
    ensures FirstMarked(B[ETH_HEADERSIZE..end], B0[ETH_HEADERSIZE..prev])
  {}

  lemma WrittenIsAppended(B: seq<byte>, B0: seq<byte>, prev: nat, d: Datagram, more: bool)
    requires Written(B, B0, prev, d, more)
    ensures Appended(B[ETH_HEADERSIZE..prev + Span(d)], B0[ETH_HEADERSIZE..prev], d, more)
  {
    SlicesMarked(B, B0, prev, prev + Span(d));
    WrittenIsAt(B, B0, prev, d, more);
  }

  lemma HoldsAppend(f: seq<byte>, g: seq<byte>, ds: seq<Datagram>, d: Datagram, before: bool, more: bool)
    requires Appended(f, g, d, more) && Holds(g, ds, before) && (before || |ds| == 1)
    requires |f| <= EC_BUFSIZE - ETH_HEADERSIZE
    ensures Holds(f, ds + [d], more) && f[|g| + 10..|g| + 10 + |d.data|] == OnWire(d).data
  {
    RowMarked(f, g, ds, before);
    RowAppend(f, ds, d, more);
    assert f[|g| + 10..|g| + 10 + |d.data|] == OnWire(d).data;
  }

  lemma HoldsBounds(g: seq<byte>, ds: seq<Datagram>, more: bool)
    requires Holds(g, ds, more)
    ensures |g| >= 14 && WordAt(g, 0) == EC_ECATTYPE + |g| - EC_ELENGTHSIZE
  {
    RowFirst(g, ds, more);
  }

  class FrameBuffer {
    const frame: array<byte>
    var txbuflength: nat

    constructor ()
      ensures fresh(frame) && frame.Length == EC_BUFSIZE
    {
      frame := new byte[EC_BUFSIZE](_ => 0);
      txbuflength := 0;
    }

    ghost predicate Valid()
      reads this
    {
      frame.Length == EC_BUFSIZE && ETH_HEADERSIZE <= txbuflength <= EC_BUFSIZE
    }

    /** What is sent behind the Ethernet header. */
    ghost function Sent(): seq<byte>
      requires Valid()
      reads this, frame
    {
      frame[..][ETH_HEADERSIZE..txbuflength]
    }

    method PutWord(p: nat, w: word)
      requires p + 1 < frame.Length
      modifies frame
      ensures WordAt(frame[..], p) == w
      ensures forall i :: 0 <= i < frame.Length && i != p && i != p + 1 ==> frame[i] == old(frame[i])
    {
      frame[p] := Lo(w);
      frame[p + 1] := Hi(w);
    }

    /** Header of a datagram whose command byte is at `p`; the interrupt field is left as it is. */
    method PutHeader(p: nat, cmd: byte, index: byte, ADP: word, ADO: word, dlength: word)
      requires p + 10 <= frame.Length
      modifies frame
      ensures frame[p] == cmd && frame[p + 1] == index
      ensures WordAt(frame[..], p + 2) == ADP && WordAt(frame[..], p + 4) == ADO
      ensures WordAt(frame[..], p + 6) == dlength
      ensures forall i :: 0 <= i < frame.Length && !(p <= i < p + 8) ==> frame[i] == old(frame[i])
    {
      frame[p] := cmd;
      frame[p + 1] := index;
      PutWord(p + 2, ADP);
      PutWord(p + 4, ADO);
      PutWord(p + 6, dlength);
    }

    /** Data of a datagram, and a zero work counter behind it. */
    method PutData(p: nat, cmd: byte, data: seq<byte>)
      requires p + |data| + 2 <= frame.Length
      modifies frame
      ensures frame[p..p + |data|] == if IsRead(cmd) then Repeat<byte>(0, |data|) else data
      ensures frame[p + |data|] == 0 && frame[p + |data| + 1] == 0
      ensures forall i :: 0 <= i < frame.Length && !(p <= i < p + |data| + 2) ==> frame[i] == old(frame[i])
    {
      if IsRead(cmd) {
        forall i | 0 <= i < |data| { frame[p + i] := 0; }
      } else {
        forall i | 0 <= i < |data| { frame[p + i] := data[i]; }
      }
      frame[p + |data|] := 0;
      frame[p + |data| + 1] := 0;
    }

    /** A new frame with one datagram. */
    method Setup(com: byte, idx: byte, ADP: word, ADO: word, data: seq<byte>)
      requires frame.Length == EC_BUFSIZE
      requires ETH_HEADERSIZE + EC_HEADERSIZE + EC_WKCSIZE + |data| <= EC_BUFSIZE
      modifies this, frame
      ensures Valid() && Holds(Sent(), [Datagram(com, idx, ADP, ADO, data)], false)
      ensures forall i :: 0 <= i < ETH_HEADERSIZE ==> frame[i] == old(frame[i])
    {
      PutWord(ETH_HEADERSIZE, EC_ECATTYPE + EC_HEADERSIZE + |data|);
      PutHeader(ETH_HEADERSIZE + EC_ELENGTHSIZE, com, idx, ADP, ADO, |data|);
      PutData(ETH_HEADERSIZE + EC_HEADERSIZE, com, data);
      txbuflength := ETH_HEADERSIZE + EC_HEADERSIZE + EC_WKCSIZE + |data|;
      SingleHolds(frame[..], txbuflength, Datagram(com, idx, ADP, ADO, data));
    }

    /** Marks the first datagram, and enlarges the frame by `n` bytes. */
    method Enlarge(n: nat)
      requires Valid() && txbuflength >= 24 && WordAt(frame[..], 14) + n < 0x1_0000
      modifies frame
      ensures WordAt(frame[..], 14) == WordAt(old(frame[..]), 14) + n
      ensures WordAt(frame[..], 22) == WithFollows(WordAt(old(frame[..]), 22))
      ensures forall i :: 0 <= i < frame.Length && i != 14 && i != 15 && i != 22 && i != 23 ==>
                frame[i] == old(frame[i])
    {
      PutWord(14, WordAt(frame[..], 14) + n);
      PutWord(22, WithFollows(WordAt(frame[..], 22)));
    }

    /** The writes for one more datagram. */
    method AppendBytes(com: byte, idx: byte, more: bool, ADP: word, ADO: word, data: seq<byte>) returns (offset: nat)
      requires Valid() && txbuflength >= 24 && WordAt(frame[..], 14) + EC_HEADERSIZE + |data| < 0x1_0000
      requires txbuflength + EC_HEADERSIZE + |data| <= EC_BUFSIZE
      modifies this, frame
      ensures Valid() && txbuflength == old(txbuflength) + EC_HEADERSIZE + |data|
      ensures Written(frame[..], old(frame[..]), old(txbuflength), Datagram(com, idx, ADP, ADO, data), more)
      ensures offset == old(txbuflength) - 4
    {
      var prevlength := txbuflength;
      Enlarge(EC_HEADERSIZE + |data|);
      PutHeader(prevlength, com, idx, ADP, ADO, |data| + if more then EC_DATAGRAMFOLLOWS else 0);
      PutData(prevlength + EC_HEADERSIZE - EC_ELENGTHSIZE, com, data);
      txbuflength := prevlength + EC_HEADERSIZE - EC_ELENGTHSIZE + EC_WKCSIZE + |data|;
      offset := prevlength + EC_HEADERSIZE - EC_ELENGTHSIZE - ETH_HEADERSIZE;
    }

    /** One more datagram behind the last one, as seen from the start of the EtherCAT frame. */
    method Append(com: byte, idx: byte, more: bool, ADP: word, ADO: word, data: seq<byte>) returns (offset: nat)
      requires Valid() && txbuflength >= 24 && WordAt(frame[..], 14) + EC_HEADERSIZE + |data| < 0x1_0000
      requires txbuflength + EC_HEADERSIZE + |data| <= EC_BUFSIZE
      modifies this, frame
      ensures Valid() && txbuflength == old(txbuflength) + EC_HEADERSIZE + |data|
      ensures Appended(Sent(), old(Sent()), Datagram(com, idx, ADP, ADO, data), more)
      ensures offset == old(|Sent()|) + 10
    {
      ghost var B0 := frame[..];
      offset := AppendBytes(com, idx, more, ADP, ADO, data);
      WrittenIsAppended(frame[..], B0, old(txbuflength), Datagram(com, idx, ADP, ADO, data), more);
    }

    /**
     * One more datagram.  Datagrams added before this one must have been added
     * with `more`.  The result is where its data will be in the received frame.
     */
    method Add(com: byte, idx: byte, more: bool, ADP: word, ADO: word, data: seq<byte>, ghost ds: seq<Datagram>,
               ghost before: bool)
      returns (offset: nat)
      requires Valid() && Holds(Sent(), ds, before) && (before || |ds| == 1)
      requires txbuflength + EC_HEADERSIZE + |data| <= EC_BUFSIZE
      modifies this, frame
      ensures Valid() && Holds(Sent(), ds + [Datagram(com, idx, ADP, ADO, data)], more)
      ensures offset == Behind(ds) + 10
      ensures Sent()[offset..offset + |data|] == OnWire(Datagram(com, idx, ADP, ADO, data)).data
    {
      ghost var g := Sent();
      HoldsBounds(g, ds, before);
      offset := Append(com, idx, more, ADP, ADO, data);
      HoldsAppend(Sent(), g, ds, Datagram(com, idx, ADP, ADO, data), before, more);
    }
  }
}
