/**
 * Propagation delay measurement of `ecx_configdc`.  Every slave latches, on its
 * own unsynchronised clock, when the latching frame comes in at each of its
 * ports; from these times and the parent links alone the master computes how
 * long the frame is under way to each slave.
 */
module DistributedClocks {
  import opened Network
  import opened SlaveList
  import opened Topology

  /** The port receive time registers of one slave. */
  datatype Latch = Latch(A: int, B: int, C: int, D: int)

  /** Time from arrival of a frame at a slave to its coming in at port `q`. */
  function ReturnTime(t: Tree, q: nat): nat {
    if OutPort(q) then Before(t, q) + BranchTrip(t.Port(q)) else 0
  }

  function Reading(r: Latch, q: nat): int {
    if q == 0 then r.A else if q == 1 then r.B else if q == 2 then r.C else r.D
  }

  /** Registers of a slave after the latching frame has passed; an unplugged port may read anything. */
  ghost predicate Latched(r: Latch, slot: Slot) {
    forall q :: q in ActivePorts(slot.node) ==>
      Reading(r, q) == slot.arrival + slot.node.clock + ReturnTime(slot.node, q)
  }

  function PortTime(sl: Slave, port: nat): int {
    match port
    case 0 => sl.DCrtA
    case 1 => sl.DCrtB
    case 2 => sl.DCrtC
    case 3 => sl.DCrtD
    case _ => 0
  }

  function PrevPort(aport: set<nat>, port: nat): nat {
    match port
    case 0 => if 2 in aport then 2 else if 1 in aport then 1 else if 3 in aport then 3 else port
    case 1 => if 3 in aport then 3 else if 0 in aport then 0 else if 2 in aport then 2 else port
    case 2 => if 1 in aport then 1 else if 3 in aport then 3 else if 0 in aport then 0 else port
    case 3 => if 0 in aport then 0 else if 2 in aport then 2 else if 1 in aport then 1 else port
    case _ => port
  }

  /** The port before `q` in the order 0 - 3 - 1 - 2 in which a frame passes them, going round. */
  function Back(q: nat): nat {
    match q
    case 0 => 2
    case 3 => 0
    case 1 => 3
    case _ => 1
  }

  /** Going back from `q`, the first active port within `steps` steps. */
  function FirstActiveBefore(aport: set<nat>, q: nat, steps: nat): nat
    decreases steps
  {
    if steps == 0 || Back(q) in aport then Back(q) else FirstActiveBefore(aport, Back(q), steps - 1)
  }

  lemma PrevPortIsCyclicPredecessor(aport: set<nat>, q: nat)
    requires q <= 3
    ensures PrevPort(aport, q) == FirstActiveBefore(aport, q, 3)
  {
    var q1, q2 := Back(q), Back(Back(q));
    assert FirstActiveBefore(aport, q, 3) == if q1 in aport then q1 else FirstActiveBefore(aport, q1, 2);
    assert FirstActiveBefore(aport, q1, 2) == if q2 in aport then q2 else FirstActiveBefore(aport, q2, 1);
  }

  /** The frame comes in at the previous active port exactly when it leaves again through port `q`. */
  lemma PrevPortTime(t: Tree, q: nat)
    requires OutPort(q)
    ensures PrevPort(ActivePorts(t), q) in ActivePorts(t)
    ensures ReturnTime(t, PrevPort(ActivePorts(t), q)) == Before(t, q)
  {}

  /** Before the entry port comes the last plugged port, where the frame comes in for the last time. */
  lemma PrevEntryTime(t: Tree)
    requires LinkCount(t) > 1
    ensures PrevPort(ActivePorts(t), 0) in ActivePorts(t)
    ensures ReturnTime(t, PrevPort(ActivePorts(t), 0)) == RoundTrip(t)
  {}

  /** Position of the first lowest one among one to four timestamps. */
  method Lowest(tlist: seq<int>) returns (k: nat)
    requires 1 <= |tlist| <= 4
    ensures k < |tlist| && forall j :: 0 <= j < |tlist| ==> tlist[k] < tlist[j] || (tlist[k] == tlist[j] && k <= j)
  {
    var nlist := |tlist|;
    k := 0;
    if nlist > 1 && tlist[1] < tlist[k] {
      k := 1;
    }
    if nlist > 2 && tlist[2] < tlist[k] {
      k := 2;
    }
    if nlist > 3 && tlist[3] < tlist[k] {
      k := 3;
    }
  }

  /** The active ports in the order 0, 3, 1, 2. */
  method PortList(aport: set<nat>) returns (plist: seq<nat>)
    requires {} < aport <= {0, 1, 2, 3}
    ensures 1 <= |plist| <= 4
    ensures forall q :: q in aport <==> q in plist
    ensures 0 in aport ==> plist[0] == 0
  {
    plist := [];
    if 0 in aport {
      plist := plist + [0];
    }
    if 3 in aport {
      plist := plist + [3];
    }
    if 1 in aport {
      plist := plist + [1];
    }
    if 2 in aport {
      plist := plist + [2];
    }
    assert exists q :: q in aport;
  }

  /** The active port with the lowest timestamp, port 0 if none is lower. */
  method EntryPort(sl: Slave) returns (entryport: nat)
    requires {} < sl.activeports <= {0, 1, 2, 3}
    ensures entryport in sl.activeports
    ensures forall q :: q in sl.activeports ==> PortTime(sl, entryport) <= PortTime(sl, q)
    ensures 0 in sl.activeports && PortTime(sl, entryport) == sl.DCrtA ==> entryport == 0
  {
    var plist := PortList(sl.activeports);
    var tlist := seq(|plist|, k requires 0 <= k < |plist| => PortTime(sl, plist[k]));
    var k := Lowest(tlist);
    entryport := plist[k];
    forall q | q in sl.activeports ensures PortTime(sl, entryport) <= PortTime(sl, q) {
      var j :| 0 <= j < |plist| && plist[j] == q;
      assert tlist[k] <= tlist[j];
    }
    if 0 in sl.activeports && PortTime(sl, entryport) == sl.DCrtA {
      assert tlist[0] == tlist[k];
    }
  }

  /** First port of `b` in the order 3, 1, 2, 0; port 0 when there is none. */
  function FirstOpen(b: set<nat>): nat {
    if 3 in b then 3 else if 1 in b then 1 else if 2 in b then 2 else 0
  }

  /** Takes the first unconsumed port of a parent. */
  method ParentPort(slavelist: array<Slave>, parent: nat) returns (parentport: nat)
    requires parent < slavelist.Length
    modifies slavelist
    ensures parentport == FirstOpen(old(slavelist[parent].consumedports))
    ensures slavelist[parent]
            == old(slavelist[parent]).(consumedports := old(slavelist[parent].consumedports) - {parentport})
    ensures forall j :: 0 <= j < slavelist.Length && j != parent ==> slavelist[j] == old(slavelist[j])
  {
    parentport := 0;
    var b := slavelist[parent].consumedports;
    if 3 in b {
      parentport := 3;
      b := b - {3};
    } else if 1 in b {
      parentport := 1;
      b := b - {1};
    } else if 2 in b {
      parentport := 2;
      b := b - {2};
    } else if 0 in b {
      parentport := 0;
      b := b - {0};
    }
    slavelist[parent] := slavelist[parent].(consumedports := b);
  }

  /** Division by two as in C, towards zero. */
  function Half(x: int): (h: int)
    ensures if x >= 0 then 0 <= x - 2 * h <= 1 else -1 <= x - 2 * h <= 0
  {
    if x >= 0 then x / 2 else -((-x) / 2)
  }

  /** Record `sl` holds the port times of slave `t`, which the frame entered at its local time `zero`. */
  ghost predicate Measured(sl: Slave, t: Tree, zero: int) {
    && sl.topology == LinkCount(t) && sl.activeports == ActivePorts(t) && sl.entryport == 0
    && forall q :: q in ActivePorts(t) ==> PortTime(sl, q) == zero + ReturnTime(t, q)
  }

  /** The time a slave and everything behind it take: from coming in to coming in for the last time. */
  lemma RoundTripFromTimes(sl: Slave, t: Tree, zero: int)
    requires Measured(sl, t, zero)
    ensures RoundTrip(t) == if sl.topology > 1 then PortTime(sl, PrevPort(sl.activeports, 0)) - PortTime(sl, 0) else 0
  {
    if sl.topology > 1 {
      PrevEntryTime(t);
    }
  }

  /** The delay by the code's formula, for any times: cable and what is between the ports of the parent. */
  function DelayOf(me: Slave, par: Slave, first: bool): int {
    var prev := PrevPort(par.activeports, me.parentport);
    var dt3 := PortTime(par, me.parentport) - PortTime(par, prev);
    var own := if me.topology > 1 then PortTime(me, PrevPort(me.activeports, me.entryport)) - PortTime(me, me.entryport)
               else 0;
    var dt2 := if first then 0 else PortTime(par, prev) - PortTime(par, par.entryport);
    Half(dt3 - if own > dt3 then -own else own) + (if dt2 < 0 then -dt2 else dt2) + par.pdelay
  }

  /**
   * Delay of slave `me`, which hangs on `parentport` of `par`; `first` if it is
   * numbered right after its parent.  The clocks of the two slaves may differ
   * by any amount.
   */
  method PropagationDelay(me: Slave, par: Slave, first: bool, ghost t: Tree, ghost zeroPar: int, ghost zeroMe: int)
    returns (pdelay: int)
    ensures var q := me.parentport;
            OutPort(q) && t.Port(q).Link? && Measured(par, t, zeroPar) && Measured(me, t.Port(q).sub, zeroMe)
            && (first ==> Before(t, q) == 0)
            ==> pdelay == par.pdelay + Before(t, q) + t.Port(q).delay
    ensures pdelay == DelayOf(me, par, first)
  {
    ghost var q := me.parentport;
    ghost var known := OutPort(q) && t.Port(q).Link? && Measured(par, t, zeroPar)
      && Measured(me, t.Port(q).sub, zeroMe);
    var dt1, dt2 := 0, 0;
    var dt3 := PortTime(par, me.parentport) - PortTime(par, PrevPort(par.activeports, me.parentport));
    if known {
      PrevPortTime(t, q);
      assert dt3 == BranchTrip(t.Port(q));
    }
    if me.topology > 1 {
      dt1 := PortTime(me, PrevPort(me.activeports, me.entryport)) - PortTime(me, me.entryport);
    }
    if known {
      RoundTripFromTimes(me, t.Port(q).sub, zeroMe);
      assert dt1 == RoundTrip(t.Port(q).sub);
    }
    if dt1 > dt3 {
      dt1 := -dt1;
    }
    if !first {
      dt2 := PortTime(par, PrevPort(par.activeports, me.parentport)) - PortTime(par, par.entryport);
    }
    if dt2 < 0 {
      dt2 := -dt2;
    }
    assert known ==> dt3 - dt1 == 2 * t.Port(q).delay;
    pdelay := Half(dt3 - dt1) + dt2 + par.pdelay;
  }

  /** Ports of slave `j` that are still unconsumed when slaves `i` and up remain: those leading to one of them. */
  ghost predicate Remaining(sl: Slave, t: Tree, j: nat, i: nat) {
    forall q :: q in sl.consumedports <==> OutPort(q) && t.Port(q).Link? && Child(t, j, q) >= i
  }

  /** Slave `j` has been handled, with slaves `i` and up still to come. */
  ghost predicate Done(sl: Slave, slot: Slot, j: nat, i: nat) {
    && Measured(sl, slot.node, slot.arrival + slot.node.clock)
    && sl.pdelay == slot.arrival
    && Remaining(sl, slot.node, j, i)
  }

  /** Slave records as found by topology detection; every record but the first is checked for its parent's number. */
  ghost predicate AllDetected(S: seq<Slave>, net: Tree) {
    && |S| > Size(net)
    && forall j :: 1 <= j <= Size(net) ==> Detected(S[j], Segment(net)[j - 1])
  }

  ghost predicate AllDc(S: seq<Slave>, n: nat) {
    && |S| > n
    && forall j :: 1 <= j <= n ==> S[j].hasdc
  }

  /** Slaves below `i` are handled. */
  ghost predicate DoneBelow(S: seq<Slave>, net: Tree, i: nat) {
    && |S| > Size(net) && 1 <= i <= Size(net) + 1
    && forall j :: 1 <= j < i ==> Done(S[j], Segment(net)[j - 1], j, i)
  }

  /** The numbers of the slaves behind earlier ports are smaller. */
  lemma ChildOrder(t: Tree, at: nat)
    ensures at < Child(t, at, 3) <= Child(t, at, 1) <= Child(t, at, 2)
    ensures t.port3.Link? ==> Child(t, at, 3) < Child(t, at, 1)
    ensures t.port1.Link? ==> Child(t, at, 1) < Child(t, at, 2)
  {}

  /** The first unconsumed port of the parent is the port slave `i` hangs on. */
  lemma FirstOpenIsPort(sl: Slave, t: Tree, p: nat, i: nat, q: nat)
    requires Remaining(sl, t, p, i) && OutPort(q) && t.Port(q).Link? && Child(t, p, q) == i
    ensures FirstOpen(sl.consumedports) == q
    ensures Remaining(sl.(consumedports := sl.consumedports - {q}), t, p, i + 1)
  {
    ChildOrder(t, p);
  }

  /** A slave that is not the parent of slave `i` stays handled when `i` is. */
  lemma StillDone(L: seq<Slot>, sl: Slave, j: nat, i: nat)
    requires 1 <= j < i <= |L| && Complete(L, 1, j) && L[i - 1].parent != j
    requires Done(sl, L[j - 1], j, i)
    ensures Done(sl, L[j - 1], j, i + 1)
  {
    var t := L[j - 1].node;
    forall q | OutPort(q) && t.Port(q).Link? ensures Child(t, j, q) != i {
      ChildSlot(L, 1, j, q);
    }
  }

  /** Slave `i` itself, once measured: all its plugged ports lead to later slaves. */
  lemma FreshRemaining(sl: Slave, t: Tree, i: nat)
    requires sl.consumedports == ActivePorts(t) - {0}
    ensures Remaining(sl, t, i, i + 1)
  {
    ChildOrder(t, i);
  }

  /** Slave `i`, described by `slot`, is plugged into slave `p`, described by `up`. */
  ghost predicate PluggedInto(slot: Slot, i: nat, up: Slot, p: nat) {
    && slot.parent == p && OutPort(slot.port) && up.node.Port(slot.port).Link?
    && Child(up.node, p, slot.port) == i
    && up.node.Port(slot.port).sub == slot.node
    && slot.arrival == up.arrival + Before(up.node, slot.port) + up.node.Port(slot.port).delay
    && (i - p <= 1 ==> Before(up.node, slot.port) == 0)
  }

  lemma FirstChild(t: Tree, at: nat, q: nat)
    requires OutPort(q) && Child(t, at, q) <= at + 1
    ensures Before(t, q) == 0
  {}

  lemma ParentPlug(L: seq<Slot>, i: nat)
    requires Hangs(L, 1, i) && Complete(L, 1, L[i - 1].parent)
    ensures PluggedInto(L[i - 1], i, L[L[i - 1].parent - 1], L[i - 1].parent)
  {
    var p := L[i - 1].parent;
    ChildSlot(L, 1, p, L[i - 1].port);
    if i - p <= 1 { FirstChild(L[p - 1].node, p, L[i - 1].port); }
  }

  lemma Root(net: Tree)
    ensures Segment(net)[0] == Slot(0, 0, 0, net)
  {}

  /** Takes over the latched times of slave `i`, finds its entry port and consumes it. */
  method LatchTimes(slavelist: array<Slave>, i: nat, r: Latch, ghost slot: Slot)
    requires i < slavelist.Length && {} < slavelist[i].activeports <= {0, 1, 2, 3}
    modifies slavelist
    ensures forall j :: 0 <= j < slavelist.Length && j != i ==> slavelist[j] == old(slavelist[j])
    ensures slavelist[i].entryport in slavelist[i].activeports
    ensures slavelist[i] == old(slavelist[i]).(
              DCrtA := r.A, DCrtB := r.B, DCrtC := r.C, DCrtD := r.D, entryport := slavelist[i].entryport,
              consumedports := old(slavelist[i].activeports) - {slavelist[i].entryport})
    ensures Latched(r, slot) && old(slavelist[i].topology) == LinkCount(slot.node)
            && old(slavelist[i].activeports) == ActivePorts(slot.node)
            ==> Measured(slavelist[i], slot.node, slot.arrival + slot.node.clock)
  {
    slavelist[i] := slavelist[i].(consumedports := slavelist[i].activeports);
    slavelist[i] := slavelist[i].(DCrtA := r.A, DCrtB := r.B, DCrtC := r.C, DCrtD := r.D);
    var entryport := EntryPort(slavelist[i]);
    slavelist[i] := slavelist[i].(entryport := entryport);
    slavelist[i] := slavelist[i].(consumedports := slavelist[i].consumedports - {entryport});
    ghost var sl := slavelist[i];
    if Latched(r, slot) && sl.activeports == ActivePorts(slot.node) {
      forall q | q in sl.activeports
        ensures PortTime(sl, q) == slot.arrival + slot.node.clock + ReturnTime(slot.node, q)
      {
        assert PortTime(sl, q) == Reading(r, q);
      }
      assert 0 in sl.activeports && ReturnTime(slot.node, 0) == 0;
    }
  }

  /** The slaves from `i` up to `child`, each the parent of the one before, and none but `i` with clocks. */
  ghost predicate Climbs(S: seq<Slave>, path: seq<nat>, i: nat, child: nat) {
    && path != [] && path[0] == i && path[|path| - 1] == child
    && (forall k :: 0 <= k < |path| ==> path[k] < |S|)
    && forall k :: 1 <= k < |path| ==> path[k] == S[path[k - 1]].parent && path[k] > 0 && !S[path[k]].hasdc
  }

  /** Climbs to the nearest ancestor with distributed clocks. */
  method DcParent(slavelist: array<Slave>, i: nat, slavecount: nat)
    returns (child: nat, parent: nat, ghost path: seq<nat>)
    requires 1 <= i <= slavecount < slavelist.Length
    requires forall j :: 1 <= j <= slavecount ==> slavelist[j].parent < j
    ensures 1 <= child <= i && parent == slavelist[child].parent < i
    ensures parent == 0 || slavelist[parent].hasdc
    ensures Climbs(slavelist[..], path, i, child)
    ensures slavelist[slavelist[i].parent].hasdc || slavelist[i].parent == 0 ==> child == i
  {
    parent := i;
    child := parent;
    parent := slavelist[parent].parent;
    path := [i];
    while !(parent == 0 || slavelist[parent].hasdc)
      invariant 1 <= child <= i && parent == slavelist[child].parent < i
      invariant Climbs(slavelist[..], path, i, child)
      invariant slavelist[slavelist[i].parent].hasdc || slavelist[i].parent == 0 ==> child == i
      decreases parent
    {
      child := parent;
      parent := slavelist[parent].parent;
      path := path + [child];
    }
  }

  lemma SameTimes(sl: Slave, was: Slave, t: Tree, zero: int)
    requires sl == was.(consumedports := sl.consumedports, parentport := sl.parentport)
    ensures Measured(was, t, zero) ==> Measured(sl, t, zero)
  {
    hide ActivePorts, LinkCount, ReturnTime;
  }

  lemma OwnDelayIsFree(me: Slave, pdelay: int, par: Slave, first: bool)
    ensures DelayOf(me.(pdelay := pdelay), par, first) == DelayOf(me, par, first)
  {}

  /** The parent of another slave has more than one link. */
  lemma ParentHasLinks(par: Slave, t: Tree, zero: int, q: nat)
    requires Measured(par, t, zero) && OutPort(q) && t.Port(q).Link?
    ensures par.topology > 1
  {}

  /** Finds the port of the parent and sets the propagation delay of slave `i`. */
  method DelayFromParent(slavelist: array<Slave>, i: nat, child: nat, parent: nat, ghost up: Slot, ghost slot: Slot)
    requires 1 <= parent < i < slavelist.Length && parent < child
    modifies slavelist
    ensures forall j :: 0 <= j < slavelist.Length && j != i && j != parent ==> slavelist[j] == old(slavelist[j])
    ensures slavelist[parent] == old(slavelist[parent]).(consumedports := slavelist[parent].consumedports)
    ensures slavelist[i] == old(slavelist[i]).(parentport := slavelist[i].parentport, pdelay := slavelist[i].pdelay)
    ensures slavelist[i].parentport == if old(slavelist[parent].topology) == 1 then old(slavelist[parent].entryport)
                                       else FirstOpen(old(slavelist[parent].consumedports))
    ensures slavelist[i].pdelay == DelayOf(slavelist[i], slavelist[parent], child - parent <= 1)
    ensures child == i && Done(old(slavelist[parent]), up, parent, i) && PluggedInto(slot, i, up, parent)
            && Measured(old(slavelist[i]), slot.node, slot.arrival + slot.node.clock)
            ==> && slavelist[i].pdelay == slot.arrival
                && slavelist[i].parentport == slot.port
                && Done(slavelist[parent], up, parent, i + 1)
  {
    hide DelayOf, PrevPort, PortTime, FirstOpen, Measured, Remaining;
    ghost var par, me := slavelist[parent], slavelist[i];
    var parentport := ParentPort(slavelist, parent);
    if slavelist[parent].topology == 1 {
      parentport := slavelist[parent].entryport;
    }
    slavelist[i] := slavelist[i].(parentport := parentport);
    if Remaining(par, up.node, parent, i) && PluggedInto(slot, i, up, parent) {
      FirstOpenIsPort(par, up.node, parent, i, slot.port);
    }
    if Measured(par, up.node, up.arrival + up.node.clock) && PluggedInto(slot, i, up, parent) {
      ParentHasLinks(par, up.node, up.arrival + up.node.clock, slot.port);
    }
    SameTimes(slavelist[parent], par, up.node, up.arrival + up.node.clock);
    SameTimes(slavelist[i], me, slot.node, slot.arrival + slot.node.clock);
    var pdelay := PropagationDelay(slavelist[i], slavelist[parent], !(child - parent > 1),
                                   up.node, up.arrival + up.node.clock, slot.arrival + slot.node.clock);
    OwnDelayIsFree(slavelist[i], pdelay, slavelist[parent], child - parent <= 1);
    slavelist[i] := slavelist[i].(pdelay := pdelay);
  }

  /** The last slave below `i` with distributed clocks, 0 if there is none. */
  function LastDc(S: seq<Slave>, i: nat): (d: nat)
    requires i <= |S|
    ensures d == 0 || d < i
  {
    if i <= 1 then 0 else if S[i - 1].hasdc then i - 1 else LastDc(S, i - 1)
  }

  /** The slaves below `i` with distributed clocks are chained up in order, starting from the master record. */
  ghost predicate Chained(S: seq<Slave>, i: nat) {
    && 1 <= i <= |S|
    && (S[0].hasdc <==> LastDc(S, i) > 0)
    && forall j :: 1 <= j < i && S[j].hasdc ==> S[j].DCprevious == LastDc(S, j) && S[LastDc(S, j)].DCnext == j
  }

  /** What the measurement never changes. */
  ghost predicate SameSetup(S: seq<Slave>, S0: seq<Slave>) {
    && |S| == |S0|
    && forall j :: 1 <= j < |S| ==>
         && S[j].topology == S0[j].topology && S[j].activeports == S0[j].activeports
         && S[j].parent == S0[j].parent && S[j].hasdc == S0[j].hasdc
  }

  lemma {:induction false} LastDcSame(S: seq<Slave>, S0: seq<Slave>, i: nat)
    requires SameSetup(S, S0) && i <= |S|
    ensures LastDc(S, i) == LastDc(S0, i)
  {
    if i > 1 { LastDcSame(S, S0, i - 1); }
  }

  lemma {:induction false} LastDcBelow(S: seq<Slave>, j: nat, i: nat)
    requires 1 <= j < i <= |S| && S[j].hasdc
    ensures j <= LastDc(S, i)
  {
    if i - 1 > j { LastDcBelow(S, j, i - 1); }
  }

  /** What measuring one slave leaves alone. */
  ghost predicate ChainKept(S: seq<Slave>, S0: seq<Slave>) {
    && |S| == |S0|
    && (|S| > 0 ==> S[0] == S0[0])
    && forall j :: 0 <= j < |S| ==>
         S[j].DCnext == S0[j].DCnext && S[j].DCprevious == S0[j].DCprevious && S[j].hasdc == S0[j].hasdc
  }

  ghost predicate ParentsBelow(S: seq<Slave>, n: nat) {
    && |S| > n
    && forall j :: 1 <= j <= n ==> S[j].parent < j && {} < S[j].activeports <= {0, 1, 2, 3}
  }

  lemma ChainStays(S: seq<Slave>, S0: seq<Slave>, i: nat)
    requires ChainKept(S, S0) && SameSetup(S, S0) && Chained(S0, i)
    ensures Chained(S, i)
  {
    LastDcSame(S, S0, i);
    forall j | 1 <= j < i && S[j].hasdc ensures S[j].DCprevious == LastDc(S, j) && S[LastDc(S, j)].DCnext == j {
      LastDcSame(S, S0, j);
    }
  }

  /** Slave `i` linked behind the last one before it. */
  lemma ChainExtends(S: seq<Slave>, S0: seq<Slave>, i: nat, prev: nat)
    requires SameSetup(S, S0) && 1 <= i < |S| && Chained(S0, i) && prev == LastDc(S0, i)
    requires S[0].hasdc && S[i].hasdc && S[i].DCprevious == prev && S[prev].DCnext == i
    requires forall j :: 1 <= j < i ==> S[j].DCprevious == S0[j].DCprevious
    requires forall j :: 0 <= j < i && j != prev ==> S[j].DCnext == S0[j].DCnext
    ensures Chained(S, i + 1) && LastDc(S, i + 1) == i
  {
    forall j | 1 <= j <= i && S[j].hasdc ensures S[j].DCprevious == LastDc(S, j) && S[LastDc(S, j)].DCnext == j {
      LastDcSame(S, S0, j);
      if j < i { LastDcBelow(S0, j, i); }
    }
  }

  /** Hooks slave `i` into the list of slaves with distributed clocks. */
  method ChainSlave(slavelist: array<Slave>, i: nat, prevDCslave: nat)
    requires 1 <= i < slavelist.Length && slavelist[i].hasdc
    requires Chained(slavelist[..], i) && prevDCslave == LastDc(slavelist[..], i)
    modifies slavelist
    ensures Chained(slavelist[..], i + 1) && LastDc(slavelist[..], i + 1) == i
    ensures SameSetup(slavelist[..], old(slavelist[..]))
    ensures forall j :: 0 <= j < slavelist.Length ==>
              slavelist[j] == old(slavelist[j]).(hasdc := slavelist[j].hasdc, DCnext := slavelist[j].DCnext,
                DCprevious := slavelist[j].DCprevious)
  {
    if !slavelist[0].hasdc {
      slavelist[0] := slavelist[0].(hasdc := true);
      slavelist[0] := slavelist[0].(DCnext := i);
      slavelist[i] := slavelist[i].(DCprevious := 0);
    } else {
      slavelist[prevDCslave] := slavelist[prevDCslave].(DCnext := i);
      slavelist[i] := slavelist[i].(DCprevious := prevDCslave);
    }
    ChainExtends(slavelist[..], old(slavelist[..]), i, prevDCslave);
  }

  /** Everything the delay theorem is about, when slaves below `i` are handled. */
  ghost predicate Underway(S: seq<Slave>, net: Tree, i: nat) {
    && AllDetected(S, net) && AllDc(S, Size(net)) && DoneBelow(S, net, i)
    && (i == 1 ==> S[1].pdelay == 0)
  }

  /** Slave `i` is handled: it and its parent changed, everybody else stays as it was. */
  lemma OneMoreDone(S: seq<Slave>, S0: seq<Slave>, net: Tree, i: nat)
    requires 1 <= i <= Size(net) && Underway(S0, net, i) && SameSetup(S, S0)
    requires Done(S[i], Segment(net)[i - 1], i, i + 1)
    requires var p := Segment(net)[i - 1].parent; 1 <= p < i ==> Done(S[p], Segment(net)[p - 1], p, i + 1)
    requires forall j :: 1 <= j < i && j != Segment(net)[i - 1].parent ==> S[j] == S0[j]
    ensures Underway(S, net, i + 1)
  {
    var L := Segment(net);
    forall j | 1 <= j < i + 1 ensures Done(S[j], L[j - 1], j, i + 1) {
      if j < i && j != L[i - 1].parent {
        assert Done(S0[j], L[j - 1], j, i);
        SlaveIsLocal(net, 1, 0, 0, 0, j);
        StillDone(L, S0[j], j, i);
      }
    }
    forall j | 1 <= j <= Size(net) ensures Detected(S[j], L[j - 1]) && S[j].hasdc {
      assert Detected(S0[j], L[j - 1]) && S0[j].hasdc;
    }
  }

  /** Slave `i` has been measured: records `S1` after its times were taken over. */
  ghost predicate TimesTaken(S1: seq<Slave>, S0: seq<Slave>, net: Tree, i: nat) {
    && 1 <= i <= Size(net) && Underway(S0, net, i) && |S1| == |S0|
    && (forall j :: 0 <= j < |S0| && j != i ==> S1[j] == S0[j])
    && var slot := Segment(net)[i - 1];
       && Measured(S1[i], slot.node, slot.arrival + slot.node.clock)
       && S1[i].consumedports == ActivePorts(slot.node) - {0}
       && S1[i].pdelay == S0[i].pdelay
  }

  /** What `DelayFromParent` promises, in terms of the record before and after. */
  ghost predicate DelayIsSet(S: seq<Slave>, S1: seq<Slave>, i: nat, parent: nat, up: Slot, slot: Slot) {
    && 1 <= parent < i < |S| == |S1|
    && (forall j :: 0 <= j < |S| && j != i && j != parent ==> S[j] == S1[j])
    && S[i] == S1[i].(parentport := S[i].parentport, pdelay := S[i].pdelay)
    && (Done(S1[parent], up, parent, i) && PluggedInto(slot, i, up, parent)
        && Measured(S1[i], slot.node, slot.arrival + slot.node.clock)
        ==> S[i].pdelay == slot.arrival && Done(S[parent], up, parent, i + 1))
  }

  lemma SegmentPlug(net: Tree, i: nat, p: nat)
    requires 1 <= p < i <= Size(net) && p == Segment(net)[i - 1].parent
    ensures PluggedInto(Segment(net)[i - 1], i, Segment(net)[p - 1], p)
  {
    SlaveIsLocal(net, 1, 0, 0, 0, i);
    SlaveIsLocal(net, 1, 0, 0, 0, p);
    ParentPlug(Segment(net), i);
  }

  lemma DelayIsExact(S: seq<Slave>, S1: seq<Slave>, S0: seq<Slave>, net: Tree, i: nat, p: nat)
    requires TimesTaken(S1, S0, net, i) && p == Segment(net)[i - 1].parent && 1 <= p < i
    requires DelayIsSet(S, S1, i, p, Segment(net)[p - 1], Segment(net)[i - 1])
    ensures S[i].pdelay == Segment(net)[i - 1].arrival
    ensures Done(S[p], Segment(net)[p - 1], p, i + 1)
  {
    SegmentPlug(net, i, p);
    assert Done(S0[p], Segment(net)[p - 1], p, i);
  }

  lemma ChildIsDone(sl: Slave, sl1: Slave, slot: Slot, i: nat)
    requires Measured(sl1, slot.node, slot.arrival + slot.node.clock)
    requires sl1.consumedports == ActivePorts(slot.node) - {0}
    requires sl == sl1.(parentport := sl.parentport, pdelay := slot.arrival)
    ensures Done(sl, slot, i, i + 1)
  {
    FreshRemaining(sl, slot.node, i);
  }

  lemma FirstIsRoot(net: Tree, i: nat)
    requires 1 <= i <= Size(net)
    ensures Segment(net)[i - 1].parent == 0 <==> i == 1
    ensures i == 1 ==> Segment(net)[i - 1].arrival == 0
  {
    Root(net);
    if i > 1 { SlaveIsLocal(net, 1, 0, 0, 0, i); }
  }

  lemma SlaveIsDone(S: seq<Slave>, S1: seq<Slave>, S0: seq<Slave>, net: Tree, i: nat)
    requires TimesTaken(S1, S0, net, i) && SameSetup(S, S0)
    requires var L := Segment(net); var p := L[i - 1].parent;
             if p == 0 then S == S1 else p < i && DelayIsSet(S, S1, i, p, L[p - 1], L[i - 1])
    ensures Underway(S, net, i + 1)
  {
    var p := Segment(net)[i - 1].parent;
    FirstIsRoot(net, i);
    if p > 0 {
      DelayIsExact(S, S1, S0, net, i, p);
    }
    ChildIsDone(S[i], S1[i], Segment(net)[i - 1], i);
    OneMoreDone(S, S0, net, i);
  }

  lemma ParentIsKnown(S: seq<Slave>, net: Tree, i: nat)
    requires 1 <= i <= Size(net) && |S| > Size(net) && AllDc(S, Size(net))
    requires S[i].parent == Segment(net)[i - 1].parent
    ensures S[i].parent < i && (S[i].parent == 0 || S[S[i].parent].hasdc)
  {
    FirstIsRoot(net, i);
    if i > 1 { SlaveIsLocal(net, 1, 0, 0, 0, i); }
  }

  /** Second half of the branch for a slave with distributed clocks, after its times were taken over. */
  method MeasureDelay(slavelist: array<Slave>, i: nat, slavecount: nat, ghost net: Tree)
    requires 1 <= i <= slavecount < slavelist.Length && slavecount == Size(net)
    requires ParentsBelow(slavelist[..], slavecount)
    modifies slavelist
    ensures SameSetup(slavelist[..], old(slavelist[..])) && ChainKept(slavelist[..], old(slavelist[..]))
    ensures AllDc(old(slavelist[..]), slavecount) && old(slavelist[i].parent) == Segment(net)[i - 1].parent ==>
              var p := Segment(net)[i - 1].parent;
              if p == 0 then slavelist[..] == old(slavelist[..])
              else p < i && DelayIsSet(slavelist[..], old(slavelist[..]), i, p, Segment(net)[p - 1],
                Segment(net)[i - 1])
  {
    hide Climbs, DelayOf, FirstOpen, Done, PluggedInto, Measured;
    ghost var S1 := slavelist[..];
    if AllDc(S1, slavecount) && S1[i].parent == Segment(net)[i - 1].parent {
      ParentIsKnown(S1, net, i);
    }
    var child, parent;
    ghost var path;
    child, parent, path := DcParent(slavelist, i, slavecount);
    if parent > 0 {
      DelayFromParent(slavelist, i, child, parent, Segment(net)[parent - 1], Segment(net)[i - 1]);
    }
  }

  /** The branch for a slave with distributed clocks. */
  method MeasureSlave(slavelist: array<Slave>, i: nat, slavecount: nat, r: Latch, ghost net: Tree)
    requires 1 <= i <= slavecount < slavelist.Length && slavecount == Size(net)
    requires ParentsBelow(slavelist[..], slavecount)
    modifies slavelist
    ensures SameSetup(slavelist[..], old(slavelist[..])) && ChainKept(slavelist[..], old(slavelist[..]))
    ensures old(Underway(slavelist[..], net, i)) && Latched(r, Segment(net)[i - 1]) ==>
              Underway(slavelist[..], net, i + 1)
  {
    ghost var S0 := slavelist[..];
    LatchTimes(slavelist, i, r, Segment(net)[i - 1]);
    ghost var S1 := slavelist[..];
    MeasureDelay(slavelist, i, slavecount, net);
    if Underway(S0, net, i) && Latched(r, Segment(net)[i - 1]) {
      assert Detected(S0[i], Segment(net)[i - 1]);
      SlaveIsDone(slavelist[..], S1, S0, net, i);
    }
  }

  /** Slave `i` has no clock: `S0` before and `S` after, with the parent held for a branch without clocks. */
  ghost predicate Skipped(S: seq<Slave>, S0: seq<Slave>, i: nat, held: nat, parenthold: nat) {
    && i < |S| == |S0| && S[i].parent < |S|
    && S[i].DCrtA == S[i].DCrtB == S[i].DCrtC == S[i].DCrtD == 0
    && var hold := if S[i].parent > 0 && S[S[i].parent].topology > 2 then S[i].parent else held;
       var taken := hold > 0 && S[i].topology == 1;
       && parenthold == (if taken then 0 else hold)
       && forall j :: 0 <= j < |S| ==>
            S[j].consumedports
            == S0[j].consumedports - if taken && j == hold then {FirstOpen(S0[j].consumedports)} else {}
  }

  /** The branch for a slave without distributed clocks: no times, and a branch without any clock takes up a port. */
  method SkipSlave(slavelist: array<Slave>, i: nat, held: nat) returns (parenthold: nat)
    requires 1 <= i < slavelist.Length && held < i && slavelist[i].parent < i
    modifies slavelist
    ensures SameSetup(slavelist[..], old(slavelist[..])) && ChainKept(slavelist[..], old(slavelist[..]))
    ensures parenthold < i && Skipped(slavelist[..], old(slavelist[..]), i, held, parenthold)
  {
    parenthold := held;
    slavelist[i] := slavelist[i].(DCrtA := 0);
    slavelist[i] := slavelist[i].(DCrtB := 0);
    slavelist[i] := slavelist[i].(DCrtC := 0);
    slavelist[i] := slavelist[i].(DCrtD := 0);
    var parent := slavelist[i].parent;
    if parent > 0 && slavelist[parent].topology > 2 {
      parenthold := parent;
    }
    if parenthold > 0 && slavelist[i].topology == 1 {
      var _ := ParentPort(slavelist, parenthold);
      parenthold := 0;
    }
  }

  lemma UnderwayKeeps(S: seq<Slave>, S0: seq<Slave>, net: Tree, i: nat)
    requires Underway(S0, net, i) && SameSetup(S, S0)
    requires forall j :: 1 <= j < |S| && j != i ==>
               S[j] == S0[j].(DCnext := S[j].DCnext, DCprevious := S[j].DCprevious)
    requires i < |S| ==> S[i] == S0[i].(consumedports := S[i].consumedports, DCnext := S[i].DCnext,
             DCprevious := S[i].DCprevious)
    ensures Underway(S, net, i)
  {
    forall j | 1 <= j < i ensures Done(S[j], Segment(net)[j - 1], j, i) {
      assert Done(S0[j], Segment(net)[j - 1], j, i);
    }
    forall j | 1 <= j <= Size(net) ensures Detected(S[j], Segment(net)[j - 1]) && S[j].hasdc {
      assert Detected(S0[j], Segment(net)[j - 1]) && S0[j].hasdc;
    }
  }

  lemma SetupChain(S: seq<Slave>, S1: seq<Slave>, S0: seq<Slave>)
    requires SameSetup(S, S1) && SameSetup(S1, S0)
    ensures SameSetup(S, S0)
  {}

  lemma ParentsStayBelow(S: seq<Slave>, S0: seq<Slave>, n: nat)
    requires SameSetup(S, S0) && ParentsBelow(S0, n)
    ensures ParentsBelow(S, n)
  {}

  /** A slave with distributed clocks is chained up and measured. */
  method ClockSlave(slavelist: array<Slave>, i: nat, slavecount: nat, prev: nat, r: Latch, ghost net: Tree)
    requires 1 <= i <= slavecount < slavelist.Length && slavecount == Size(net) && slavelist[i].hasdc
    requires ParentsBelow(slavelist[..], slavecount)
    requires Chained(slavelist[..], i) && prev == LastDc(slavelist[..], i)
    modifies slavelist
    ensures SameSetup(slavelist[..], old(slavelist[..]))
    ensures Chained(slavelist[..], i + 1) && LastDc(slavelist[..], i + 1) == i
    ensures old(Underway(slavelist[..], net, i)) && Latched(r, Segment(net)[i - 1]) ==>
              Underway(slavelist[..], net, i + 1)
  {
    hide Underway, LastDc, Latched, Segment, Chained, ChainKept;
    ghost var S0 := slavelist[..];
    ChainSlave(slavelist, i, prev);
    ghost var S1 := slavelist[..];
    ParentsStayBelow(S1, S0, slavecount);
    if Underway(S0, net, i) {
      UnderwayKeeps(S1, S0, net, i);
    }
    MeasureSlave(slavelist, i, slavecount, r, net);
    ChainStays(slavelist[..], S1, i + 1);
    LastDcSame(slavelist[..], S1, i + 1);
    SetupChain(slavelist[..], S1, S0);
  }

  /** One round of the loop over the slaves. */
  method ConfigDcSlave(slavelist: array<Slave>, i: nat, slavecount: nat, prev: nat, held: nat, r: Latch,
                       ghost net: Tree)
    returns (prevDCslave: nat, parenthold: nat)
    requires 1 <= i <= slavecount < slavelist.Length && slavecount == Size(net)
    requires ParentsBelow(slavelist[..], slavecount) && held < i
    requires Chained(slavelist[..], i) && prev == LastDc(slavelist[..], i)
    modifies slavelist
    ensures SameSetup(slavelist[..], old(slavelist[..])) && parenthold < i
    ensures Chained(slavelist[..], i + 1) && prevDCslave == LastDc(slavelist[..], i + 1)
    ensures old(Underway(slavelist[..], net, i)) && Latched(r, Segment(net)[i - 1]) ==>
              Underway(slavelist[..], net, i + 1)
    ensures if old(slavelist[i].hasdc) then parenthold == 0
            else var S0 := old(slavelist[..]);
                 Skipped(slavelist[..], S0[i := S0[i].(consumedports := S0[i].activeports)], i, held, parenthold)
  {
    hide Latched, Skipped;
    prevDCslave, parenthold := prev, held;
    ghost var S0 := slavelist[..];
    slavelist[i] := slavelist[i].(consumedports := slavelist[i].activeports);
    ghost var S1 := slavelist[..];
    ParentsStayBelow(S1, S0, slavecount);
    ChainStays(S1, S0, i);
    LastDcSame(S1, S0, i);
    if Underway(S0, net, i) {
      UnderwayKeeps(S1, S0, net, i);
    }
    if slavelist[i].hasdc {
      parenthold := 0;
      ClockSlave(slavelist, i, slavecount, prevDCslave, r, net);
      prevDCslave := i;
    } else {
      parenthold := SkipSlave(slavelist, i, parenthold);
      ChainStays(slavelist[..], S1, i);
      LastDcSame(slavelist[..], S1, i);
    }
    SetupChain(slavelist[..], S1, S0);
  }

  ghost predicate AllLatched(latches: seq<Latch>, net: Tree) {
    && |latches| > Size(net)
    && forall i :: 1 <= i <= Size(net) ==> Latched(latches[i], Segment(net)[i - 1])
  }

  lemma NothingChained(S: seq<Slave>)
    requires S != [] && !S[0].hasdc
    ensures Chained(S, 1) && LastDc(S, 1) == 0 && SameSetup(S, S)
  {}

  /** The loop over the slaves, in frame order. */
  method ConfigDcSlaves(slavelist: array<Slave>, slavecount: nat, latches: seq<Latch>, ghost net: Tree)
    requires slavecount == Size(net) && slavelist.Length > slavecount && |latches| > slavecount
    requires ParentsBelow(slavelist[..], slavecount) && !slavelist[0].hasdc
    modifies slavelist
    ensures SameSetup(slavelist[..], old(slavelist[..]))
    ensures Chained(slavelist[..], slavecount + 1)
    ensures old(Underway(slavelist[..], net, 1)) && AllLatched(latches, net) ==>
              Underway(slavelist[..], net, slavecount + 1)
  {
    hide Underway, Latched, Segment, ParentsBelow, Chained, LastDc, SameSetup;
    var parenthold: nat, prevDCslave: nat := 0, 0;
    ghost var S0 := slavelist[..];
    NothingChained(S0);
    ghost var S := S0;
    ghost var physical := Underway(S0, net, 1) && AllLatched(latches, net);
    var i := 1;
    while i <= slavecount
      invariant 1 <= i <= slavecount + 1
      invariant S == slavelist[..] && SameSetup(S, S0)
      invariant Chained(S, i) && prevDCslave == LastDc(S, i)
      invariant parenthold < i
      invariant physical ==> Underway(S, net, i)
    {
      ParentsStayBelow(S, S0, slavecount);
      prevDCslave, parenthold := ConfigDcSlave(slavelist, i, slavecount, prevDCslave, parenthold, latches[i], net);
      assert physical ==> Underway(slavelist[..], net, i + 1);
      SetupChain(slavelist[..], S, S0);
      S := slavelist[..];
      i := i + 1;
    }
  }

  lemma StartUnderway(S: seq<Slave>, S0: seq<Slave>, net: Tree)
    requires |S| == |S0| > Size(net) && forall j :: 1 <= j < |S| ==> S[j] == S0[j]
    ensures ParentsBelow(S0, Size(net)) ==> ParentsBelow(S, Size(net))
    ensures SameSetup(S, S0)
    ensures AllDetected(S0, net) && AllDc(S0, Size(net)) && S0[1].pdelay == 0 ==> Underway(S, net, 1)
  {
    if AllDetected(S0, net) {
      forall j | 1 <= j <= Size(net) ensures Detected(S[j], Segment(net)[j - 1]) {
        assert Detected(S0[j], Segment(net)[j - 1]);
      }
    }
  }

  /** The propagation delays are the true arrival times. */
  ghost predicate Exact(S: seq<Slave>, net: Tree) {
    && |S| > Size(net)
    && forall i :: 1 <= i <= Size(net) ==> S[i].pdelay == Segment(net)[i - 1].arrival
  }

  lemma AllExact(S: seq<Slave>, net: Tree)
    requires Underway(S, net, Size(net) + 1)
    ensures Exact(S, net)
  {
    forall j | 1 <= j <= Size(net) ensures S[j].pdelay == Segment(net)[j - 1].arrival {
      assert Done(S[j], Segment(net)[j - 1], j, Size(net) + 1);
    }
  }

  /**
   * The whole measurement.  `latches[i]` is what the port receive time registers
   * of slave `i` read after the broadcast that latches them.
   *
   * If every slave of the segment has distributed clocks and the records come
   * from topology detection, every propagation delay is the true arrival time
   * of the frame, counted from its arrival at the first slave.  The list of
   * slaves with clocks is correct for any mixture of slaves.
   */
  method ConfigDc(slavelist: array<Slave>, slavecount: nat, latches: seq<Latch>, ghost net: Tree) returns (found: bool)
    requires slavecount == Size(net) && slavelist.Length > slavecount && |latches| > slavecount
    requires ParentsBelow(slavelist[..], slavecount)
    modifies slavelist
    ensures SameSetup(slavelist[..], old(slavelist[..]))
    ensures Chained(slavelist[..], slavecount + 1)
    ensures found == slavelist[0].hasdc
    ensures AllDetected(old(slavelist[..]), net) && AllDc(old(slavelist[..]), slavecount)
            && old(slavelist[1].pdelay) == 0
            && AllLatched(latches, net)
            ==> Exact(slavelist[..], net)
  {
    hide Underway, AllDetected, AllDc, AllLatched, Exact, ParentsBelow;
    ghost var S0 := slavelist[..];
    slavelist[0] := slavelist[0].(hasdc := false);
    StartUnderway(slavelist[..], S0, net);
    ghost var S1 := slavelist[..];
    ConfigDcSlaves(slavelist, slavecount, latches, net);
    found := slavelist[0].hasdc;
    SetupChain(slavelist[..], S1, S0);
    if Underway(S1, net, 1) && AllLatched(latches, net) {
      AllExact(slavelist[..], net);
    }
  }

  lemma DetectedIsSetUp(S: seq<Slave>, net: Tree)
    requires AllDetected(S, net)
    ensures ParentsBelow(S, Size(net))
  {
    forall j | 1 <= j <= Size(net) ensures S[j].parent < j && {} < S[j].activeports <= {0, 1, 2, 3} {
      assert Detected(S[j], Segment(net)[j - 1]);
      FirstIsRoot(net, j);
      assert 0 in S[j].activeports;
      if j > 1 { SlaveIsLocal(net, 1, 0, 0, 0, j); }
    }
  }

  /**
   * Start-up: enumeration, then delay measurement.  For every tree of slaves
   * with distributed clocks, the registers alone give every slave the parent it
   * is plugged into and the time a frame takes to reach it.
   */
  method StartUp(slavelist: array<Slave>, slavecount: nat, dlstat: seq<bv16>, latches: seq<Latch>, ghost net: Tree)
    requires slavecount == Size(net) && slavelist.Length > slavecount && |dlstat| > slavecount
    requires forall i :: 1 <= i <= slavecount ==> Reports(dlstat[i], Segment(net)[i - 1].node)
    requires AllLatched(latches, net)
    requires AllDc(slavelist[..], slavecount) && slavelist[1].pdelay == 0
    modifies slavelist
    ensures AllDetected(slavelist[..], net) && Exact(slavelist[..], net)
  {
    ConfigInit(slavelist, dlstat, slavecount, net);
    ghost var S := slavelist[..];
    assert forall i :: 1 <= i <= slavecount ==> KeepsRest(S[i], old(slavelist[i]));
    DetectedIsSetUp(S, net);
    var _ := ConfigDc(slavelist, slavecount, latches, net);
    forall j | 1 <= j <= slavecount ensures Detected(slavelist[..][j], Segment(net)[j - 1]) {
      assert Detected(S[j], Segment(net)[j - 1]);
    }
  }
}
