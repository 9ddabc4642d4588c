/**
 * Topology detection of `ecx_config_init`: the master reads the link status of
 * every slave in frame order and finds the parent of each by scanning back
 * over the slaves seen before, counting end points, splits and crossings.
 */
module Topology {
  import opened Sequences
  import opened Network
  import opened SlaveList

  /** Links of a slave: the one towards the master and one for each slave behind it. */
  function LinkCount(t: Tree): nat {
    1 + t.Links()
  }

  function ActivePorts(t: Tree): set<nat> {
    {0}
    + (if t.port1.Link? then {1} else {})
    + (if t.port2.Link? then {2} else {})
    + (if t.port3.Link? then {3} else {})
  }

  /** What a link count adds to the counter `topoc`. */
  function Step(topology: nat): int {
    if topology == 1 then -1 else if topology == 3 then 1 else if topology == 4 then 2 else 0
  }

  /** The backward scan, from slave `slavec` on, with the counter at `topoc`. */
  function Scan(tp: seq<nat>, slavec: nat, topoc: int): (parent: nat)
    requires 1 <= slavec < |tp|
    ensures 1 <= parent <= slavec
  {
    var c := topoc + Step(tp[slavec]);
    if (c >= 0 && tp[slavec] > 1) || slavec == 1 then slavec else Scan(tp, slavec - 1, c)
  }

  function Weight(tp: seq<nat>, lo: nat, hi: nat): int
    requires lo <= hi <= |tp|
    decreases hi - lo
  {
    if lo == hi then 0 else Step(tp[lo]) + Weight(tp, lo + 1, hi)
  }

  lemma {:induction false} WeightSplit(tp: seq<nat>, lo: nat, mid: nat, hi: nat)
    requires lo <= mid <= hi <= |tp|
    ensures Weight(tp, lo, hi) == Weight(tp, lo, mid) + Weight(tp, mid, hi)
    decreases mid - lo
  {
    if lo < mid { WeightSplit(tp, lo + 1, mid, hi); }
  }

  /** `tp` holds the link counts of the listed slaves, which start at number `at`. */
  ghost predicate Counts(tp: seq<nat>, at: nat, L: seq<Slot>) {
    && at + |L| <= |tp|
    && forall k :: 0 <= k < |L| ==> tp[at + k] == LinkCount(L[k].node)
  }

  lemma CountsSlice(tp: seq<nat>, at: nat, L: seq<Slot>, i: nat, j: nat)
    requires Counts(tp, at, L) && i <= j <= |L|
    ensures Counts(tp, at + i, L[i..j])
  {
    forall k | 0 <= k < j - i ensures tp[at + i + k] == LinkCount(L[i..j][k].node) {
      assert tp[at + (i + k)] == LinkCount(L[i + k].node);
    }
  }

  lemma CountsPart(tp: seq<nat>, at: nat, L: seq<Slot>, n: nat, i: nat, j: nat)
    requires n <= |L| && Counts(tp, at, L[..n]) && i <= j <= n
    ensures Counts(tp, at + i, L[i..j])
  {
    CountsSlice(tp, at, L[..n], i, j);
    assert L[..n][i..j] == L[i..j];
  }

  /** Seen from its end, a complete subtree never lifts the counter, and as a whole takes off exactly one. */
  ghost predicate Sinks(tp: seq<nat>, lo: nat, hi: nat) {
    && lo <= hi <= |tp|
    && forall k :: lo <= k < hi ==> Weight(tp, k, hi) < 0
  }

  lemma SinksConcat(tp: seq<nat>, lo: nat, mid: nat, hi: nat)
    requires Sinks(tp, lo, mid) && Sinks(tp, mid, hi)
    ensures Sinks(tp, lo, hi)
    ensures Weight(tp, lo, hi) == Weight(tp, lo, mid) + Weight(tp, mid, hi)
  {
    WeightSplit(tp, lo, mid, hi);
    forall k | lo <= k < hi ensures Weight(tp, k, hi) < 0 {
      if k < mid {
        WeightSplit(tp, k, mid, hi);
        if mid < hi { assert Weight(tp, mid, hi) < 0; }
      }
    }
  }

  lemma {:induction false} BranchSinks(tp: seq<nat>, br: Branch, at: nat, parent: nat, port: nat, leave: int)
    requires Counts(tp, at, BranchLayout(br, at, parent, port, leave))
    ensures Sinks(tp, at, at + BranchSize(br))
    ensures Weight(tp, at, at + BranchSize(br)) == if br.Link? then -1 else 0
    decreases br
  {
    if br.Link? {
      SubtreeSinks(tp, br.sub, at, parent, port, leave + br.delay);
    }
  }

  /** What is plugged into port `q` sinks by one, when the first `n` slaves of `t` are counted in `tp`. */
  lemma {:induction false} PortSinks(tp: seq<nat>, t: Tree, at: nat, parent: nat, port: nat, arrival: int, n: nat,
                                     q: nat)
    requires OutPort(q) && n <= Size(t)
    requires Counts(tp, at, Layout(t, at, parent, port, arrival)[..n])
    requires Child(t, at, q) + BranchSize(t.Port(q)) <= at + n
    ensures var c := Child(t, at, q);
            && Sinks(tp, c, c + BranchSize(t.Port(q)))
            && Weight(tp, c, c + BranchSize(t.Port(q))) == if t.Port(q).Link? then -1 else 0
    decreases t, 0
  {
    var c := Child(t, at, q);
    LayoutPart(t, at, parent, port, arrival, q);
    CountsPart(tp, at, Layout(t, at, parent, port, arrival), n, c - at, c - at + BranchSize(t.Port(q)));
    BranchSinks(tp, t.Port(q), c, at, q, arrival + Before(t, q));
  }

  lemma CountsHead(tp: seq<nat>, t: Tree, p: nat, parent: nat, port: nat, arrival: int, n: nat)
    requires 0 < n <= Size(t) && Counts(tp, p, Layout(t, p, parent, port, arrival)[..n])
    ensures p + n <= |tp| && tp[p] == LinkCount(t)
  {
    assert tp[p + 0] == LinkCount(Layout(t, p, parent, port, arrival)[..n][0].node);
  }

  lemma {:induction false} SubtreeSinks(tp: seq<nat>, t: Tree, at: nat, parent: nat, port: nat, arrival: int)
    requires Counts(tp, at, Layout(t, at, parent, port, arrival))
    ensures Sinks(tp, at, at + Size(t)) && Weight(tp, at, at + Size(t)) == -1
    decreases t
  {
    var L := Layout(t, at, parent, port, arrival);
    assert L[..Size(t)] == L;
    PortSinks(tp, t, at, parent, port, arrival, Size(t), 3);
    PortSinks(tp, t, at, parent, port, arrival, Size(t), 1);
    PortSinks(tp, t, at, parent, port, arrival, Size(t), 2);
    SinksConcat(tp, Child(t, at, 3), Child(t, at, 1), Child(t, at, 2));
    SinksConcat(tp, Child(t, at, 3), Child(t, at, 2), at + Size(t));
    CountsHead(tp, t, at, parent, port, arrival, Size(t));
  }

  /** The scan walks over complete subtrees without stopping. */
  lemma {:induction false} ScanSkips(tp: seq<nat>, lo: nat, hi: nat, topoc: int)
    requires 2 <= lo <= hi <= |tp|
    requires Sinks(tp, lo, hi) && topoc <= 0
    ensures hi > lo ==> Scan(tp, hi - 1, topoc) == Scan(tp, lo - 1, topoc + Weight(tp, lo, hi))
    ensures hi == lo ==> Weight(tp, lo, hi) == 0
    decreases hi - lo
  {
    if lo < hi {
      assert Weight(tp, lo, hi) < 0;
      ScanSkips(tp, lo + 1, hi, topoc);
    }
  }

  /**
   * With `k` complete subtrees between a slave with more than `k` children and the scan's start, it
   * stops at that slave.
   */
  lemma ScanStops(tp: seq<nat>, p: nat, c: nat, k: nat)
    requires 1 <= p < c <= |tp| && Sinks(tp, p + 1, c) && Weight(tp, p + 1, c) == 0 - k
    requires 2 + k <= tp[p] <= 4
    ensures Scan(tp, c - 1, 0) == p
  {
    ScanSkips(tp, p + 1, c, 0);
  }

  /** From the slave before the child on port `q`, the scan comes back to the parent `p` and stops there. */
  lemma ScanStopsAtParent(tp: seq<nat>, t: Tree, p: nat, parent: nat, port: nat, arrival: int, q: nat)
    requires p >= 1 && OutPort(q) && t.Port(q).Link?
    requires Child(t, p, q) <= p + Size(t)
    requires Counts(tp, p, Layout(t, p, parent, port, arrival)[..Child(t, p, q) - p])
    ensures Scan(tp, Child(t, p, q) - 1, 0) == p
  {
    var n := Child(t, p, q) - p;
    var c3, c1, c2 := Child(t, p, 3), Child(t, p, 1), Child(t, p, 2);
    CountsHead(tp, t, p, parent, port, arrival, n);
    var k3 := if t.port3.Link? then 1 else 0;
    var k1 := if t.port1.Link? then 1 else 0;
    if q == 3 {
      ScanStops(tp, p, c3, 0);
    } else {
      PortSinks(tp, t, p, parent, port, arrival, n, 3);
      if q == 1 {
        ScanStops(tp, p, c1, k3);
      } else {
        PortSinks(tp, t, p, parent, port, arrival, n, 1);
        SinksConcat(tp, c3, c1, c2);
        ScanStops(tp, p, c2, k3 + k1);
      }
    }
  }

  lemma ChildFits(t: Tree, at: nat, q: nat)
    requires OutPort(q)
    ensures Child(t, at, q) <= at + Size(t)
  {}

  /** The slaves from the parent of slave `s` up to `s` are the first ones of the parent's subtree. */
  lemma ParentPart(L: seq<Slot>, s: nat)
    requires Hangs(L, 1, s) && Complete(L, 1, L[s - 1].parent)
    ensures var p := L[s - 1].parent;
            var (here, q) := (L[p - 1], L[s - 1].port);
            && 1 <= p < s && OutPort(q) && here.node.Port(q).Link? && Child(here.node, p, q) == s <= p + Size(here.node)
            && L[p - 1..s - 1] == Layout(here.node, p, here.parent, here.port, here.arrival)[..s - p]
  {
    var p := L[s - 1].parent;
    var here := L[p - 1];
    ChildFits(here.node, p, L[s - 1].port);
    SliceOfSlice(L, p - 1, p - 1 + Size(here.node), 0, s - p);
  }

  lemma ScanFindsAt(tp: seq<nat>, P: seq<Slot>, here: Slot, p: nat, q: nat, s: nat)
    requires 1 <= p < s && OutPort(q) && here.node.Port(q).Link? && Child(here.node, p, q) == s <= p + Size(here.node)
    requires P == Layout(here.node, p, here.parent, here.port, here.arrival)[..s - p] && Counts(tp, p, P)
    ensures Scan(tp, s - 1, 0) == p
  {
    ScanStopsAtParent(tp, here.node, p, here.parent, here.port, here.arrival, q);
  }

  lemma ScanFindsIn(L: seq<Slot>, tp: seq<nat>, s: nat)
    requires Hangs(L, 1, s) && Complete(L, 1, L[s - 1].parent)
    requires s <= |tp| && Counts(tp, 1, L[..s - 1])
    ensures Scan(tp, s - 1, 0) == L[s - 1].parent
  {
    var p := L[s - 1].parent;
    ParentPart(L, s);
    CountsPart(tp, 1, L, s - 1, p - 1, s - 1);
    ScanFindsAt(tp, L[p - 1..s - 1], L[p - 1], p, L[s - 1].port, s);
  }

  /**
   * The scan of slave `s` ends at the slave it hangs off in the tree.  Only the
   * link counts of the slaves before `s` are known at that moment.
   */
  lemma ScanFindsParent(t: Tree, tp: seq<nat>, s: nat)
    requires 2 <= s <= Size(t) && s <= |tp|
    requires Counts(tp, 1, Segment(t)[..s - 1])
    ensures Scan(tp, s - 1, 0) == Segment(t)[s - 1].parent
  {
    SlaveIsLocal(t, 1, 0, 0, 0, s);
    SlaveIsLocal(t, 1, 0, 0, 0, Segment(t)[s - 1].parent);
    ScanFindsIn(Segment(t), tp, s);
  }

  /** Port `q` is open and communicating, according to a DL status register. */
  predicate LinkUp(dlstat: bv16, q: nat) {
    match q
    case 0 => dlstat & 0x0300 == 0x0200
    case 1 => dlstat & 0x0c00 == 0x0800
    case 2 => dlstat & 0x3000 == 0x2000
    case 3 => dlstat & 0xc000 == 0x8000
    case _ => false
  }

  /** The register of a slave of the tree: the port it is entered at and the plugged ones. */
  ghost predicate Reports(dlstat: bv16, t: Tree) {
    LinkUp(dlstat, 0) && forall q :: OutPort(q) ==> (LinkUp(dlstat, q) <==> t.Port(q).Link?)
  }

  /**
   * Link count and port bitmap out of a DL status register, which has two bits for each port from
   * bit 8 on: loop closed, and communication established.
   */
  method DecodeLinks(topology: bv16) returns (h: nat, b: set<nat>)
    ensures forall q :: q in b <==> LinkUp(topology, q)
    ensures (0 in b <==> (topology >> 8) & 3 == 2) && (1 in b <==> (topology >> 10) & 3 == 2)
    ensures (2 in b <==> (topology >> 12) & 3 == 2) && (3 in b <==> (topology >> 14) & 3 == 2)
    ensures h == (if 0 in b then 1 else 0) + (if 1 in b then 1 else 0)
                 + (if 2 in b then 1 else 0) + (if 3 in b then 1 else 0)
  {
    h, b := 0, {};
    if topology & 0x0300 == 0x0200 {
      h, b := h + 1, b + {0};
    }
    if topology & 0x0c00 == 0x0800 {
      h, b := h + 1, b + {1};
    }
    if topology & 0x3000 == 0x2000 {
      h, b := h + 1, b + {2};
    }
    if topology & 0xc000 == 0x8000 {
      h, b := h + 1, b + {3};
    }
  }

  /** The link counts of the first `n` entries of the slave list. */
  function Seen(slavelist: array<Slave>, n: nat): (tp: seq<nat>)
    requires n <= slavelist.Length
    reads slavelist
    ensures |tp| == n && forall i :: 0 <= i < n ==> tp[i] == slavelist[i].topology
  {
    seq(n, i requires 0 <= i < n reads slavelist => slavelist[i].topology)
  }

  /** Parent search for one slave; slaves before it already have their link counts. */
  method FindParent(slavelist: array<Slave>, slave: nat) returns (parent: nat)
    requires 1 <= slave < slavelist.Length
    ensures parent < slave && (parent == 0 <==> slave == 1)
    ensures slave > 1 ==> parent == Scan(Seen(slavelist, slave), slave - 1, 0)
  {
    parent := 0;
    if slave > 1 {
      ghost var tp := Seen(slavelist, slave);
      var topoc, slavec := 0, slave - 1;
      while slavec > 0
        invariant 0 <= slavec < slave
        invariant slavec > 0 ==> parent == 0 && Scan(tp, slave - 1, 0) == Scan(tp, slavec, topoc)
        invariant slavec == 0 ==> parent == Scan(tp, slave - 1, 0)
      {
        var topology := slavelist[slavec].topology;
        if topology == 1 {
          topoc := topoc - 1;
        }
        if topology == 3 {
          topoc := topoc + 1;
        }
        if topology == 4 {
          topoc := topoc + 2;
        }
        if (topoc >= 0 && topology > 1) || slavec == 1 {
          parent := slavec;
          slavec := 1;
        }
        slavec := slavec - 1;
      }
    }
  }

  /** Slave record `sl` describes its slave of the tree. */
  ghost predicate Detected(sl: Slave, slot: Slot) {
    && sl.topology == LinkCount(slot.node)
    && sl.activeports == ActivePorts(slot.node)
    && sl.parent == slot.parent
  }

  /** Apart from what topology detection sets, the record is the old one. */
  ghost predicate KeepsRest(sl: Slave, was: Slave) {
    sl == was.(topology := sl.topology, activeports := sl.activeports, parent := sl.parent)
  }

  lemma ReportIsDecoded(dlstat: bv16, t: Tree, h: nat, b: set<nat>)
    requires Reports(dlstat, t)
    requires forall q :: q in b <==> LinkUp(dlstat, q)
    requires h == (if 0 in b then 1 else 0) + (if 1 in b then 1 else 0)
                  + (if 2 in b then 1 else 0) + (if 3 in b then 1 else 0)
    ensures h == LinkCount(t) && b == ActivePorts(t)
  {
    assert OutPort(1) && OutPort(2) && OutPort(3);
  }

  /** One round of the enumeration loop: link status and parent of slave `slave`. */
  method ConfigSlave(slavelist: array<Slave>, slave: nat, dlstat: bv16, ghost net: Tree)
    requires 1 <= slave <= Size(net) && slave < slavelist.Length
    requires Reports(dlstat, Segment(net)[slave - 1].node)
    requires Counts(Seen(slavelist, slave), 1, Segment(net)[..slave - 1])
    modifies slavelist
    ensures Detected(slavelist[slave], Segment(net)[slave - 1]) && slavelist[slave].parent < slave
    ensures KeepsRest(slavelist[slave], old(slavelist[slave]))
    ensures forall i :: 0 <= i < slavelist.Length && i != slave ==> slavelist[i] == old(slavelist[i])
  {
    ghost var slot := Segment(net)[slave - 1];
    var h, b := DecodeLinks(dlstat);
    ReportIsDecoded(dlstat, slot.node, h, b);
    slavelist[slave] := slavelist[slave].(topology := h, activeports := b);
    assert Seen(slavelist, slave) == old(Seen(slavelist, slave));
    var parent := FindParent(slavelist, slave);
    if slave > 1 {
      ScanFindsParent(net, Seen(slavelist, slave), slave);
    } else {
      assert slot == Segment(net)[0];
    }
    slavelist[slave] := slavelist[slave].(parent := parent);
  }

  /**
   * The enumeration loop: for every segment, reading the link status of its
   * slaves in frame order yields the tree's own parent for every slave.
   */
  method ConfigInit(slavelist: array<Slave>, dlstat: seq<bv16>, slavecount: nat, ghost net: Tree)
    requires slavecount == Size(net) && slavelist.Length > slavecount && |dlstat| > slavecount
    requires forall i :: 1 <= i <= slavecount ==> Reports(dlstat[i], Segment(net)[i - 1].node)
    modifies slavelist
    ensures forall i :: 1 <= i <= slavecount ==>
              Detected(slavelist[i], Segment(net)[i - 1]) && slavelist[i].parent < i
                && KeepsRest(slavelist[i], old(slavelist[i]))
    ensures forall i :: i == 0 || slavecount < i < slavelist.Length ==> slavelist[i] == old(slavelist[i])
  {
    var slave := 1;
    while slave <= slavecount
      invariant 1 <= slave <= slavecount + 1
      invariant forall i :: 1 <= i < slave ==>
              Detected(slavelist[i], Segment(net)[i - 1]) && slavelist[i].parent < i
                && KeepsRest(slavelist[i], old(slavelist[i]))
      invariant forall i :: i == 0 || slave <= i < slavelist.Length ==> slavelist[i] == old(slavelist[i])
    {
      ghost var L := Segment(net)[..slave - 1];
      forall k | 0 <= k < |L| ensures Seen(slavelist, slave)[1 + k] == LinkCount(L[k].node) {
        assert Detected(slavelist[1 + k], Segment(net)[1 + k - 1]);
      }
      ConfigSlave(slavelist, slave, dlstat[slave], net);
      slave := slave + 1;
    }
  }
}
