/**
 * Reading the states of all slaves (`ecx_readstate`): one broadcast read when
 * that tells the states of all, else the slaves one by one in blocks of 64.
 */
module SlaveState {
  import opened Frames
  import opened StatusFrame

  const EC_STATE_INIT: bv16 := 0x01
  const EC_STATE_PRE_OP: bv16 := 0x02
  const EC_STATE_BOOT: bv16 := 0x03
  const EC_STATE_SAFE_OP: bv16 := 0x04
  const EC_STATE_OPERATIONAL: bv16 := 0x08
  const EC_STATE_ERROR: bv16 := 0x10

  /** Status and status code registers of a slave. */
  datatype AlStatus = AlStatus(alstatus: bv16, alstatuscode: bv16)

  /** What is taken for the status of a slave when the frame that asks for it gets no answer. */
  const UNKNOWN := AlStatus(0, 0)

  /** A slave as the master knows it. */
  datatype Entry = Entry(configadr: word, state: bv16, ALstatuscode: bv16)

  predicate IsState(b: bv16) {
    b == EC_STATE_INIT || b == EC_STATE_PRE_OP || b == EC_STATE_BOOT || b == EC_STATE_SAFE_OP || b
      == EC_STATE_OPERATIONAL
  }

  /** A state of the protocol, with or without the error flag. */
  predicate Legal(s: bv16) {
    IsState(s) || (s & EC_STATE_ERROR == EC_STATE_ERROR && IsState(s & 0x0f) && s & 0xffe0 == 0)
  }

  /** What the first `n` slaves make of a broadcast read: each adds its bits. */
  function OrOf(ss: seq<bv16>, n: nat): bv16
    requires n <= |ss|
  {
    if n == 0 then 0 else OrOf(ss, n - 1) | ss[n - 1]
  }

  function OrAll(ss: seq<bv16>): bv16 {
    OrOf(ss, |ss|)
  }

  /** The lowest state of the first `n` slaves. */
  function LowestOf(ss: seq<bv16>, n: nat): bv16
    requires n <= |ss|
  {
    if n == 0 then 0xff
    else
      var low := LowestOf(ss, n - 1);
      if ss[n - 1] & 0x0f < low then ss[n - 1] & 0x0f else low
  }

  function Lowest(ss: seq<bv16>): bv16 {
    LowestOf(ss, |ss|)
  }

  /** The broadcast answer is taken to tell the state of every slave. */
  predicate Taken(wkc: int, slavecount: nat, rval: bv16) {
    wkc >= slavecount && rval & EC_STATE_ERROR == 0 && IsState(rval & 0x0f)
  }

  /** The states by their codes. */
  lemma LegalStates(s: bv16)
    ensures Legal(s) <==> s in {0x01, 0x02, 0x03, 0x04, 0x08, 0x11, 0x12, 0x13, 0x14, 0x18}
    ensures Taken(1, 1, s) <==> s & 0x10 == 0 && s & 0x0f in {0x01, 0x02, 0x03, 0x04, 0x08}
  {}

  /** The bits of `s` are all set in `x`. */
  predicate Within(s: bv16, x: bv16) {
    x & s == s
  }

  lemma WithinOr(a: bv16, b: bv16, s: bv16)
    requires Within(s, a)
    ensures Within(s, a | b)
  {}

  lemma WithinSelf(a: bv16, b: bv16)
    ensures Within(a, b | a)
  {}

  /** Every status is among the bits of the broadcast answer. */
  lemma {:induction false} InOr(ss: seq<bv16>, n: nat, i: nat)
    requires i < n <= |ss|
    ensures Within(ss[i], OrOf(ss, n))
  {
    if i == n - 1 {
      WithinSelf(ss[i], OrOf(ss, n - 1));
    } else {
      InOr(ss, n - 1, i);
      WithinOr(OrOf(ss, n - 1), ss[n - 1], ss[i]);
    }
  }

  lemma SingleBit(s: bv16, x: bv16)
    requires Legal(s) && Within(s, x) && x & EC_STATE_ERROR == 0 && IsState(x & 0x0f)
    ensures x & 0x0f != EC_STATE_BOOT ==> s == x & 0x0f
    ensures x & 0x0f == EC_STATE_BOOT ==> s == EC_STATE_INIT || s == EC_STATE_PRE_OP || s == EC_STATE_BOOT
  {}

  /** All slaves in the same state: that is the lowest one. */
  lemma {:induction false} LowestOfSame(ss: seq<bv16>, n: nat, s: bv16)
    requires 0 < n <= |ss| && IsState(s) && forall i :: 0 <= i < |ss| ==> ss[i] == s
    ensures LowestOf(ss, n) == s
  {
    if n > 1 { LowestOfSame(ss, n - 1, s); }
  }

  /** The lowest state is not above any state. */
  lemma {:induction false} LowestBelow(ss: seq<bv16>, n: nat, i: nat)
    requires i < n <= |ss|
    ensures LowestOf(ss, n) <= ss[i] & 0x0f
  {
    if i < n - 1 { LowestBelow(ss, n - 1, i); }
  }

  /** The lowest state is that of some slave. */
  lemma {:induction false} LowestIsThere(ss: seq<bv16>, n: nat)
    requires 0 < n <= |ss|
    ensures exists i :: 0 <= i < n && LowestOf(ss, n) == ss[i] & 0x0f
  {
    if n == 1 || ss[n - 1] & 0x0f < LowestOf(ss, n - 1) {
      assert LowestOf(ss, n) == ss[n - 1] & 0x0f;
    } else {
      LowestIsThere(ss, n - 1);
    }
  }

  ghost predicate AllLegal(ss: seq<bv16>) {
    forall i :: 0 <= i < |ss| ==> Legal(ss[i])
  }

  /** The broadcast answer does not look like BOOT, or all slaves are in BOOT. */
  ghost predicate Telling(ss: seq<bv16>) {
    OrAll(ss) & 0x0f != EC_STATE_BOOT || forall i :: 0 <= i < |ss| ==> ss[i] == EC_STATE_BOOT
  }

  /**
   * When the broadcast answer is taken, it gives the states and the lowest
   * state that reading every slave gives, exactly when it does not look like
   * BOOT or all slaves are in BOOT: the bits of INIT and PRE_OP together are
   * those of BOOT.
   */
  lemma BroadcastTells(ss: seq<bv16>, wkc: int)
    requires ss != [] && AllLegal(ss) && Taken(wkc, |ss|, OrAll(ss))
    ensures Telling(ss) <==> forall i :: 0 <= i < |ss| ==> ss[i] == OrAll(ss) & 0x0f
    ensures Telling(ss) <==> Lowest(ss) == OrAll(ss) & 0x0f
  {
    var b := OrAll(ss) & 0x0f;
    forall i | 0 <= i < |ss|
      ensures b != EC_STATE_BOOT ==> ss[i] == b
      ensures b == EC_STATE_BOOT && ss[i] != EC_STATE_BOOT ==> ss[i] & 0x0f < EC_STATE_BOOT
    {
      InOr(ss, |ss|, i);
      SingleBit(ss[i], OrAll(ss));
    }
    if forall i :: 0 <= i < |ss| ==> ss[i] == b {
      LowestOfSame(ss, |ss|, b);
    } else {
      var i :| 0 <= i < |ss| && ss[i] != b;
      LowestBelow(ss, |ss|, i);
    }
  }

  /** One slave in INIT and one in PRE_OP are taken for two in BOOT. */
  lemma MistakenForBoot()
    ensures var ss := [EC_STATE_INIT, EC_STATE_PRE_OP];
            ss == [0x01, 0x02] && Taken(2, 2, OrAll(ss)) && OrAll(ss) & 0x0f == EC_STATE_BOOT == 0x03
            && Lowest(ss) == EC_STATE_INIT
  {
    var ss := [EC_STATE_INIT, EC_STATE_PRE_OP];
    assert OrOf(ss, 0) == 0 && OrOf(ss, 1) == 0x01 && OrOf(ss, 2) == 0x03;
    assert LowestOf(ss, 0) == 0xff && LowestOf(ss, 1) == 0x01 && LowestOf(ss, 2) == 0x01;
  }

  /** The statuses read of the first `n` slaves. */
  function Statuses(got: nat -> AlStatus, n: nat): (ss: seq<bv16>)
    ensures |ss| == n && forall i :: 0 <= i < n ==> ss[i] == got(i + 1).alstatus
  {
    if n == 0 then [] else Statuses(got, n - 1) + [got(n).alstatus]
  }

  /** The bits of both. */
  function Either(a: bv16, b: bv16): bv16 {
    a | b
  }

  /** The status codes of the first `n` slaves together. */
  function CodesRead(got: nat -> AlStatus, n: nat): bv16 {
    if n == 0 then 0 else Either(CodesRead(got, n - 1), got(n).alstatuscode)
  }

  /** `x` has the bits of the status codes of the first `n` slaves. */
  ghost predicate HasCodes(got: nat -> AlStatus, n: nat, x: bv16) {
    forall i :: 1 <= i <= n ==> Within(got(i).alstatuscode, x)
  }

  lemma EitherWithin(a: bv16, b: bv16, x: bv16)
    ensures Within(a, x) && Within(b, x) ==> Within(Either(a, b), x)
  {}

  lemma FirstWithin(a: bv16, b: bv16, x: bv16)
    ensures Within(Either(a, b), x) ==> Within(a, x)
  {}

  lemma SecondWithin(a: bv16, b: bv16, x: bv16)
    ensures Within(Either(a, b), x) ==> Within(b, x)
  {}

  /** The collected codes have the bits of every slave's code, and no others: they are within all that have them. */
  lemma {:induction false} CodesCollect(got: nat -> AlStatus, n: nat, x: bv16)
    ensures HasCodes(got, n, x) <==> Within(CodesRead(got, n), x)
  {
    if n > 0 {
      CodesCollect(got, n - 1, x);
      var a, b := CodesRead(got, n - 1), got(n).alstatuscode;
      hide Within, Either;
      EitherWithin(a, b, x);
      FirstWithin(a, b, x);
      SecondWithin(a, b, x);
    }
  }

  /** The lowest state of the first `n` slaves. */
  function LowestRead(got: nat -> AlStatus, n: nat): bv16 {
    Lowest(Statuses(got, n))
  }

  lemma {:induction false} LowestSame(a: seq<bv16>, b: seq<bv16>, n: nat)
    requires n <= |a| && n <= |b| && forall i :: 0 <= i < n ==> a[i] == b[i]
    ensures LowestOf(a, n) == LowestOf(b, n)
  {
    if n > 0 { LowestSame(a, b, n - 1); }
  }

  lemma LowestNext(got: nat -> AlStatus, n: nat)
    requires n >= 1
    ensures var s := got(n).alstatus & 0x0f;
            LowestRead(got, n) == if s < LowestRead(got, n - 1) then s else LowestRead(got, n - 1)
  {
    LowestSame(Statuses(got, n), Statuses(got, n - 1), n - 1);
  }

  /** The addresses of `n` slaves from `first` on. */
  function Addresses(list: seq<Entry>, first: nat, n: nat): (cs: seq<word>)
    requires first + n <= |list|
    ensures |cs| == n && forall i :: 0 <= i < n ==> cs[i] == list[first + i].configadr
  {
    if n == 0 then [] else Addresses(list, first, n - 1) + [list[first + n - 1].configadr]
  }

  lemma {:induction false} AddressesJoin(list: seq<Entry>, first: nat, n: nat, m: nat)
    requires first + n + m <= |list|
    ensures Addresses(list, first, n + m) == Addresses(list, first, n) + Addresses(list, first + n, m)
  {
    if m > 0 { AddressesJoin(list, first, n, m - 1); }
  }

  function Joined(blocks: seq<seq<word>>): seq<word> {
    if blocks == [] then [] else Joined(blocks[..|blocks| - 1]) + blocks[|blocks| - 1]
  }

  /** The blocks, of 1 to 64 slaves each, ask every one of the first `n` slaves once, in order. */
  ghost predicate InBlocks(bs: seq<seq<word>>, list: seq<Entry>, n: nat) {
    && n < |list| && Joined(bs) == Addresses(list, 1, n)
    && forall i :: 0 <= i < |bs| ==> 1 <= |bs[i]| <= 64
  }

  lemma NextBlock(bs: seq<seq<word>>, list: seq<Entry>, fslave: nat, lslave: nat, slca: seq<word>)
    requires 1 <= fslave <= lslave < |list| && lslave - fslave < MAX_FPRD_MULTI && InBlocks(bs, list, fslave - 1)
    requires slca == Addresses(list, fslave, lslave + 1 - fslave)
    ensures InBlocks(bs + [slca], list, lslave)
  {
    assert (bs + [slca])[..|bs|] == bs;
    AddressesJoin(list, 1, fslave - 1, lslave + 1 - fslave);
  }

  /** The slaves up to `k` hold what has been read of them, those behind are as before. */
  ghost predicate ReadUpTo(now: seq<Entry>, before: seq<Entry>, got: nat -> AlStatus, k: nat) {
    && |now| == |before| && k < |before|
    && (forall i :: 1 <= i <= k ==> now[i] == Entry(before[i].configadr, got(i).alstatus, got(i).alstatuscode))
    && (forall i :: k < i < |before| ==> now[i] == before[i])
  }

  lemma NothingRead(now: seq<Entry>, before: seq<Entry>, got: nat -> AlStatus)
    requires |now| == |before| >= 1 && forall i :: 1 <= i < |now| ==> now[i] == before[i]
    ensures ReadUpTo(now, before, got, 0) && LowestRead(got, 0) == 0xff && CodesRead(got, 0) == 0
    ensures InBlocks([], before, 0)
  {}

  /** Every slave has the same state, and no status code. */
  ghost predicate AllIn(now: seq<Entry>, before: seq<Entry>, state: bv16) {
    && |now| == |before|
    && forall i :: 1 <= i < |now| ==> now[i] == Entry(before[i].configadr, state, 0)
  }

  /** The states in the list, and the lowest one, are those read. */
  ghost predicate AsRead(now: seq<Entry>, lowest: bv16, got: nat -> AlStatus) {
    && |now| >= 1 && lowest == LowestRead(got, |now| - 1)
    && forall i :: 1 <= i < |now| ==> now[i].state == got(i).alstatus
  }

  /** The broadcast answer put in place of reading the slaves one by one. */
  lemma FastIsSlow(now: seq<Entry>, before: seq<Entry>, got: nat -> AlStatus, wkc: int)
    requires |now| >= 2 && AllLegal(Statuses(got, |now| - 1))
    requires var r := OrAll(Statuses(got, |now| - 1)); Taken(wkc, |now| - 1, r) && AllIn(now, before, r & 0x0f)
    ensures AsRead(now, OrAll(Statuses(got, |now| - 1)) & 0x0f, got) <==> Telling(Statuses(got, |now| - 1))
  {
    var ss := Statuses(got, |now| - 1);
    BroadcastTells(ss, wkc);
    if forall i :: 0 <= i < |ss| ==> ss[i] == OrAll(ss) & 0x0f {
      forall i | 1 <= i < |now| ensures now[i].state == got(i).alstatus {
        assert ss[i - 1] == got(i).alstatus;
      }
    }
  }

  lemma SlowIsAsRead(now: seq<Entry>, before: seq<Entry>, got: nat -> AlStatus)
    requires |now| >= 2 && ReadUpTo(now, before, got, |now| - 1)
    ensures AsRead(now, LowestRead(got, |now| - 1), got)
  {}

  /** Entry 0 does not matter for what is asked. */
  lemma SameAddresses(a: seq<Entry>, b: seq<Entry>, bs: seq<seq<word>>, n: nat)
    requires |a| == |b| && n < |a| && forall i :: 1 <= i < |a| ==> a[i] == b[i]
    ensures InBlocks(bs, a, n) ==> InBlocks(bs, b, n)
  {
    assert Addresses(a, 1, n) == Addresses(b, 1, n);
  }

  /**
   * Slave list, entry 0 for all slaves together; the status registers of the slaves by their
   * addresses, and which of the frames that ask for them get an answer.
   */
  class Master {
    const slavelist: array<Entry>
    const status: word -> AlStatus
    const answered: nat -> bool
    var blocks: seq<seq<word>>

    constructor (slavelist: array<Entry>, status: word -> AlStatus, answered: nat -> bool)
      ensures this.slavelist == slavelist && this.status == status && this.answered == answered && blocks == []
    {
      this.slavelist, this.status, this.answered, blocks := slavelist, status, answered, [];
    }

    /** What is read of slave `i` when reading starts with frame number `first`. */
    function Heard(first: nat, i: nat, configadr: word): AlStatus
      requires i >= 1
    {
      if answered(first + (i - 1) / MAX_FPRD_MULTI) then status(configadr) else UNKNOWN
    }

    /** `got` tells what is read of each slave. */
    ghost predicate Hears(got: nat -> AlStatus, list: seq<Entry>, first: nat) {
      forall i :: 1 <= i < |list| ==> got(i) == Heard(first, i, list[i].configadr)
    }

    /** One frame that reads up to 64 slaves; without an answer the statuses stay zero. */
    method FprdMulti(configlst: seq<word>) returns (sl: seq<AlStatus>)
      requires 1 <= |configlst| <= MAX_FPRD_MULTI
      modifies `blocks
      ensures blocks == old(blocks) + [configlst] && |sl| == |configlst|
      ensures forall k :: 0 <= k < |sl| ==>
                sl[k] == if answered(|old(blocks)|) then status(configlst[k]) else AlStatus(0, 0)
    {
      var wkc := answered(|blocks|);
      blocks := blocks + [configlst];
      sl := [];
      for k := 0 to |configlst|
        invariant |sl| == k && forall i :: 0 <= i < k ==> sl[i] == if wkc then status(configlst[i]) else UNKNOWN
      {
        sl := sl + [if wkc then status(configlst[k]) else UNKNOWN];
      }
    }

    /** Stores what has been read of one slave. */
    method StoreOne(slave: nat, st: AlStatus, ghost before: seq<Entry>, ghost got: nat -> AlStatus)
      requires 1 <= slave < slavelist.Length && ReadUpTo(slavelist[..], before, got, slave - 1) && st == got(slave)
      modifies slavelist
      ensures ReadUpTo(slavelist[..], before, got, slave)
      ensures slavelist[0] == old(slavelist[0]).(ALstatuscode := Either(old(slavelist[0].ALstatuscode),
              st.alstatuscode))
    {
      assert slavelist[slave] == slavelist[..][slave] == before[slave];
      slavelist[slave] := slavelist[slave].(state := st.alstatus, ALstatuscode := st.alstatuscode);
      slavelist[0] := slavelist[0].(ALstatuscode := Either(slavelist[0].ALstatuscode, slavelist[slave].ALstatuscode));
    }

    /** Stores what a block has brought, and keeps track of the lowest state. */
    method StoreBlock(fslave: nat, lslave: nat, sl: seq<AlStatus>, low: bv16,
                      ghost before: seq<Entry>, ghost got: nat -> AlStatus) returns (lowest: bv16)
      requires 1 <= fslave <= lslave < slavelist.Length && |sl| == lslave + 1 - fslave
      requires ReadUpTo(slavelist[..], before, got, fslave - 1)
      requires forall k :: 0 <= k < |sl| ==> sl[k] == got(fslave + k)
      requires low == LowestRead(got, fslave - 1)
      requires slavelist[0].ALstatuscode == CodesRead(got, fslave - 1)
      modifies slavelist
      ensures ReadUpTo(slavelist[..], before, got, lslave)
      ensures lowest == LowestRead(got, lslave)
      ensures slavelist[0] == old(slavelist[0]).(ALstatuscode := CodesRead(got, lslave))
    {
      hide ReadUpTo, LowestRead;
      lowest := low;
      for slave := fslave to lslave + 1
        invariant ReadUpTo(slavelist[..], before, got, slave - 1)
        invariant lowest == LowestRead(got, slave - 1)
        invariant slavelist[0] == old(slavelist[0]).(ALstatuscode := CodesRead(got, slave - 1))
      {
        var st := sl[slave - fslave];
        if st.alstatus & 0x0f < lowest { lowest := st.alstatus & 0x0f; }
        LowestNext(got, slave);
        StoreOne(slave, st, before, got);
      }
    }

    /** The addresses of the slaves of a block. */
    method AddressesOf(fslave: nat, lslave: nat, ghost before: seq<Entry>, ghost got: nat -> AlStatus)
      returns (slca: seq<word>)
      requires 1 <= fslave <= lslave < slavelist.Length && ReadUpTo(slavelist[..], before, got, fslave - 1)
      ensures slca == Addresses(before, fslave, lslave + 1 - fslave)
    {
      slca := [];
      for slave := fslave to lslave + 1
        invariant slca == Addresses(before, fslave, slave - fslave)
      {
        assert slavelist[slave] == slavelist[..][slave] == before[slave];
        slca := slca + [slavelist[slave].configadr];
      }
    }

    /** The statuses of a block of slaves, by one frame. */
    method AskBlock(fslave: nat, lslave: nat, ghost before: seq<Entry>, ghost got: nat -> AlStatus, ghost first: nat)
      returns (sl: seq<AlStatus>, ghost slca: seq<word>)
      requires 1 <= fslave <= lslave < slavelist.Length && lslave - fslave < MAX_FPRD_MULTI
      requires ReadUpTo(slavelist[..], before, got, fslave - 1) && Hears(got, before, first)
      requires |blocks| >= first && fslave == MAX_FPRD_MULTI * (|blocks| - first) + 1
      modifies `blocks
      ensures slca == Addresses(before, fslave, lslave + 1 - fslave) && blocks == old(blocks) + [slca]
      ensures |sl| == lslave + 1 - fslave && forall k :: 0 <= k < |sl| ==> sl[k] == got(fslave + k)
    {
      var cs := AddressesOf(fslave, lslave, before, got);
      slca := cs;
      sl := FprdMulti(cs);
      forall k | 0 <= k < |sl| ensures sl[k] == got(fslave + k) {
        assert got(fslave + k) == Heard(first, fslave + k, before[fslave + k].configadr);
        assert (fslave + k - 1) / MAX_FPRD_MULTI == |old(blocks)| - first;
      }
    }

    /** Reads all slaves, in blocks of at most 64. */
    method ReadAll(ghost got: nat -> AlStatus) returns (lowest: bv16, ghost bs: seq<seq<word>>)
      requires slavelist.Length >= 2 && Hears(got, slavelist[..], |blocks|)
      modifies slavelist, `blocks
      ensures ReadUpTo(slavelist[..], old(slavelist[..]), got, slavelist.Length - 1)
      ensures lowest == LowestRead(got, slavelist.Length - 1)
      ensures slavelist[0] == old(slavelist[0]).(ALstatuscode := CodesRead(got, slavelist.Length - 1))
      ensures blocks == old(blocks) + bs && InBlocks(bs, old(slavelist[..]), slavelist.Length - 1)
    {
      hide ReadUpTo, LowestRead, CodesRead, InBlocks, Hears;
      ghost var before, first := slavelist[..], |blocks|;
      bs := [];
      slavelist[0] := slavelist[0].(ALstatuscode := 0);
      lowest := 0xff;
      NothingRead(slavelist[..], before, got);
      var slavecount := slavelist.Length - 1;
      var fslave, lslave := 1, 0;
      while lslave < slavecount
        invariant fslave == lslave + 1 && 0 <= lslave <= slavecount
        invariant ReadUpTo(slavelist[..], before, got, lslave)
        invariant lowest == LowestRead(got, lslave)
        invariant slavelist[0] == old(slavelist[0]).(ALstatuscode := CodesRead(got, lslave))
        invariant blocks == old(blocks) + bs && InBlocks(bs, before, lslave)
        invariant lslave < slavecount ==> lslave == MAX_FPRD_MULTI * |bs|
      {
        lslave := slavecount;
        if lslave - fslave >= MAX_FPRD_MULTI { lslave := fslave + MAX_FPRD_MULTI - 1; }
        var sl;
        ghost var slca;
        sl, slca := AskBlock(fslave, lslave, before, got, first);
        NextBlock(bs, before, fslave, lslave, slca);
        bs := bs + [slca];
        lowest := StoreBlock(fslave, lslave, sl, lowest, before, got);
        fslave := lslave + 1;
      }
    }

    /** Gives every slave the state of the broadcast answer. */
    method StoreSame(state: bv16)
      requires slavelist.Length >= 1
      modifies slavelist
      ensures slavelist[0] == old(slavelist[0]) && AllIn(slavelist[..], old(slavelist[..]), state)
    {
      for slave := 1 to slavelist.Length
        invariant slavelist[0] == old(slavelist[0])
        invariant forall i :: 1 <= i < slave ==> slavelist[i] == Entry(old(slavelist[i]).configadr, state, 0)
        invariant forall i :: slave <= i < slavelist.Length ==> slavelist[i] == old(slavelist[i])
      {
        slavelist[slave] := slavelist[slave].(ALstatuscode := 0x0000, state := state);
      }
    }

    /**
     * Reads the states of all slaves; `wkc` and `rval` are the answer to the
     * broadcast read.  The result is the lowest state.  With the answer that the
     * slaves give, states and result are those of reading every slave exactly
     * when the slaves are read or the answer tells their states.
     */
    method ReadState(wkc: int, rval: bv16, ghost got: nat -> AlStatus) returns (lowest: bv16, ghost bs: seq<seq<word>>)
      requires slavelist.Length >= 2 && Hears(got, slavelist[..], |blocks|)
      modifies slavelist, `blocks
      ensures Taken(wkc, slavelist.Length - 1, rval) ==>
                && lowest == rval & 0x0f && blocks == old(blocks) && bs == []
                && slavelist[0] == old(slavelist[0]).(state := rval & 0x0f, ALstatuscode := 0)
                && AllIn(slavelist[..], old(slavelist[..]), rval & 0x0f)
      ensures !Taken(wkc, slavelist.Length - 1, rval) ==>
                && lowest == LowestRead(got, slavelist.Length - 1)
                && slavelist[0] == Entry(old(slavelist[0]).configadr, lowest, CodesRead(got, slavelist.Length - 1))
                && ReadUpTo(slavelist[..], old(slavelist[..]), got, slavelist.Length - 1)
                && blocks == old(blocks) + bs && InBlocks(bs, old(slavelist[..]), slavelist.Length - 1)
      ensures var ss := Statuses(got, slavelist.Length - 1);
              AllLegal(ss) && rval == OrAll(ss) ==>
                (AsRead(slavelist[..], lowest, got) <==> Taken(wkc, slavelist.Length - 1, rval) ==> Telling(ss))
    {
      hide LowestRead, CodesRead, InBlocks, AllLegal, Telling, AsRead, OrAll, Statuses;
      ghost var list0 := slavelist[..];
      var allslavespresent := wkc >= slavelist.Length - 1;
      var bitwisestate := rval & 0x0f;
      var noerrorflag := rval & EC_STATE_ERROR == 0;
      if noerrorflag { slavelist[0] := slavelist[0].(ALstatuscode := 0); }
      var allslavessamestate := IsState(bitwisestate);
      if allslavessamestate { slavelist[0] := slavelist[0].(state := bitwisestate); }
      if noerrorflag && allslavessamestate && allslavespresent {
        StoreSame(bitwisestate);
        lowest, bs := bitwisestate, [];
        if AllLegal(Statuses(got, slavelist.Length - 1)) && rval == OrAll(Statuses(got, slavelist.Length - 1)) {
          FastIsSlow(slavelist[..], list0, got, wkc);
        }
      } else {
        ghost var list1 := slavelist[..];
        lowest, bs := ReadAll(got);
        SameAddresses(list1, list0, bs, slavelist.Length - 1);
        slavelist[0] := slavelist[0].(state := lowest);
        SlowIsAsRead(slavelist[..], list0, got);
      }
    }
  }
}
