/**
 * The frame that reads the application layer status of up to 64 slaves at once
 * (`ecx_FPRD_multi`).
 */
module StatusFrame {
  import opened Sequences
  import opened Frames

  const ECT_REG_ALSTAT: word := 0x0130

  /** A read of the six status bytes of one slave. */
  function StatusRead(idx: byte, configadr: word): (d: Datagram)
    ensures d.cmd == 0x04 && d.index == idx && d.ADP == configadr && d.ADO == 0x0130 && |d.data| == 6
  {
    Datagram(EC_CMD_FPRD, idx, configadr, ECT_REG_ALSTAT, Repeat<byte>(0, 6))
  }

  function StatusReads(idx: byte, configlst: seq<word>): (ds: seq<Datagram>)
    ensures |ds| == |configlst|
    ensures forall k :: 0 <= k < |ds| ==> ds[k] == StatusRead(idx, configlst[k])
    ensures Behind(ds) == EC_ELENGTHSIZE + 18 * |ds|
  {
    if configlst == [] then []
    else
      var front := StatusReads(idx, configlst[..|configlst| - 1]);
      var ds := front + [StatusRead(idx, configlst[|configlst| - 1])];
      assert ds[..|front|] == front;
      ds
  }

  lemma StatusReadsAppend(idx: byte, configlst: seq<word>, k: nat)
    requires k < |configlst|
    ensures StatusReads(idx, configlst[..k + 1]) == StatusReads(idx, configlst[..k]) + [StatusRead(idx, configlst[k])]
  {
    assert configlst[..k + 1][..k] == configlst[..k];
  }

  const MAX_FPRD_MULTI := 64

  /** The frame under construction reads the status of the first `k` slaves. */
  ghost predicate ReadsFirst(f: seq<byte>, idx: byte, configlst: seq<word>, k: nat, more: bool) {
    1 <= k <= |configlst| && Holds(f, StatusReads(idx, configlst[..k]), more)
  }

  /** The same as a value, so that the loop can carry it along unopened. */
  type Progress = (seq<byte>, nat, bool) -> bool

  ghost predicate Means(P: Progress, idx: byte, configlst: seq<word>) {
    forall f, k, more {:trigger ReadsFirst(f, idx, configlst, k, more)} ::
      P(f, k, more) == ReadsFirst(f, idx, configlst, k, more)
  }

  lemma FirstRead(idx: byte, configlst: seq<word>)
    requires 1 <= |configlst|
    ensures StatusReads(idx, configlst[..1]) == [StatusRead(idx, configlst[0])]
  {
    StatusReadsAppend(idx, configlst, 0);
    assert configlst[..0] == [];
  }

  /** First datagram of the frame. */
  method SetupFirst(buf: FrameBuffer, idx: byte, configlst: seq<word>, ghost P: Progress)
    requires buf.frame.Length == EC_BUFSIZE && 1 <= |configlst| && Means(P, idx, configlst)
    modifies buf, buf.frame
    ensures buf.Valid() && P(buf.Sent(), 1, false)
  {
    buf.Setup(EC_CMD_FPRD, idx, configlst[0], ECT_REG_ALSTAT, Repeat<byte>(0, 6));
    FirstRead(idx, configlst);
    assert ReadsFirst(buf.Sent(), idx, configlst, 1, false);
  }

  /** One more datagram. */
  method AddNext(buf: FrameBuffer, idx: byte, configlst: seq<word>, k: nat, more: bool, ghost P: Progress)
    returns (offset: nat)
    requires buf.Valid() && 1 <= k < |configlst| <= MAX_FPRD_MULTI
    requires P(buf.Sent(), k, k > 1) && Means(P, idx, configlst)
    modifies buf, buf.frame
    ensures buf.Valid() && P(buf.Sent(), k + 1, more)
    ensures offset == 12 + 18 * k
  {
    assert ReadsFirst(buf.Sent(), idx, configlst, k, k > 1);
    offset := buf.Add(EC_CMD_FPRD, idx, more, configlst[k], ECT_REG_ALSTAT, Repeat<byte>(0, 6),
                      StatusReads(idx, configlst[..k]), k > 1);
    StatusReadsAppend(idx, configlst, k);
    assert ReadsFirst(buf.Sent(), idx, configlst, k + 1, more);
  }

  /** All datagrams; `sldatapos[k]` is where the answer of the `k`-th slave will be. */
  method AddAll(buf: FrameBuffer, idx: byte, configlst: seq<word>, ghost P: Progress) returns (sldatapos: seq<nat>)
    requires buf.frame.Length == EC_BUFSIZE && 1 <= |configlst| <= MAX_FPRD_MULTI && Means(P, idx, configlst)
    modifies buf, buf.frame
    ensures buf.Valid() && P(buf.Sent(), |configlst|, false)
    ensures |sldatapos| == |configlst| && forall k :: 0 <= k < |configlst| ==> sldatapos[k] == 12 + 18 * k
  {
    var n := |configlst|;
    var slcnt: nat := 0;
    SetupFirst(buf, idx, configlst, P);
    sldatapos := [EC_HEADERSIZE];
    slcnt := slcnt + 1;
    while slcnt < n - 1
      invariant 1 <= slcnt <= n && (n > 1 ==> slcnt < n)
      invariant buf.Valid() && P(buf.Sent(), slcnt, slcnt > 1)
      invariant |sldatapos| == slcnt && forall k :: 0 <= k < slcnt ==> sldatapos[k] == 12 + 18 * k
    {
      var offset := AddNext(buf, idx, configlst, slcnt, true, P);
      sldatapos := sldatapos + [offset];
      slcnt := slcnt + 1;
    }
    if slcnt < n {
      var offset := AddNext(buf, idx, configlst, slcnt, false, P);
      sldatapos := sldatapos + [offset];
      slcnt := slcnt + 1;
    }
  }

  /**
   * Frame that reads the status of up to 64 slaves at once.  The datagrams are
   * those reads in order, and `sldatapos[k]` is where the answer of the `k`-th
   * slave will be.
   */
  method FprdMulti(buf: FrameBuffer, idx: byte, configlst: seq<word>) returns (sldatapos: seq<nat>)
    requires buf.frame.Length == EC_BUFSIZE && 1 <= |configlst| <= 64
    modifies buf, buf.frame
    ensures buf.Valid() && ReadsFirst(buf.Sent(), idx, configlst, |configlst|, false)
    ensures |sldatapos| == |configlst| && forall k :: 0 <= k < |configlst| ==> sldatapos[k] == 12 + 18 * k
  {
    ghost var P: Progress := (f: seq<byte>, k: nat, more: bool) => ReadsFirst(f, idx, configlst, k, more);
    sldatapos := AddAll(buf, idx, configlst, P);
  }
}
