/**
 * The physical EtherCAT segment: a tree of slaves entered at port 0, with
 * further slaves hanging off any subset of ports 3, 1 and 2.  A frame visits a
 * slave, then everything behind port 3, then port 1, then port 2, and goes back
 * through port 0; slaves are therefore numbered in preorder, from 1 upwards.
 */
module Network {
  import opened Sequences

  /** A slave; `clock` is the unknown offset of its local clock. */
  datatype Tree = Slave(clock: int, port3: Branch, port1: Branch, port2: Branch) {
    function Port(q: nat): Branch {
      if q == 3 then port3 else if q == 1 then port1 else if q == 2 then port2 else Open
    }

    function Links(): nat {
      (if port3.Link? then 1 else 0) + (if port1.Link? then 1 else 0) + (if port2.Link? then 1 else 0)
    }
  }

  /** Whatever is plugged into an outgoing port; `delay` is the one-way delay of the link. */
  datatype Branch = Open | Link(delay: nat, sub: Tree)

  function BranchSize(br: Branch): nat {
    match br
    case Open => 0
    case Link(_, sub) => Size(sub)
  }

  function Size(t: Tree): (n: nat)
    ensures n >= 1
  {
    1 + BranchSize(t.port3) + BranchSize(t.port1) + BranchSize(t.port2)
  }

  /** Time between a frame leaving through a port and coming back to it. */
  function BranchTrip(br: Branch): nat {
    match br
    case Open => 0
    case Link(delay, sub) => 2 * delay + RoundTrip(sub)
  }

  /** Time between a frame entering a slave and leaving it again through port 0. */
  function RoundTrip(t: Tree): nat {
    BranchTrip(t.port3) + BranchTrip(t.port1) + BranchTrip(t.port2)
  }

  /** Number of the slave on port `q` of slave number `at`. */
  function Child(t: Tree, at: nat, q: nat): nat {
    at + 1
    + (if q == 3 then 0 else BranchSize(t.port3))
    + (if q == 2 then BranchSize(t.port1) else 0)
  }

  /** Time from arrival at a slave until the frame leaves through port `q`. */
  function Before(t: Tree, q: nat): nat {
    (if q == 3 then 0 else BranchTrip(t.port3)) + (if q == 2 then BranchTrip(t.port1) else 0)
  }

  /** One slave of the numbered segment: where it hangs, and when the frame truly arrives. */
  datatype Slot = Slot(parent: nat, port: nat, arrival: int, node: Tree)

  function BranchLayout(br: Branch, at: nat, parent: nat, port: nat, leave: int): (L: seq<Slot>)
    ensures |L| == BranchSize(br)
  {
    match br
    case Open => []
    case Link(delay, sub) => Layout(sub, at, parent, port, leave + delay)
  }

  /** The slaves of `t` in frame order, the root being number `at` on port `port` of `parent`. */
  function Layout(t: Tree, at: nat, parent: nat, port: nat, arrival: int): (L: seq<Slot>)
    ensures |L| == Size(t)
  {
    [Slot(parent, port, arrival, t)]
    + BranchLayout(t.port3, Child(t, at, 3), at, 3, arrival + Before(t, 3))
    + BranchLayout(t.port1, Child(t, at, 1), at, 1, arrival + Before(t, 1))
    + BranchLayout(t.port2, Child(t, at, 2), at, 2, arrival + Before(t, 2))
  }

  /** The whole segment: the first slave is number 1 and the master is its parent, number 0. */
  function Segment(t: Tree): seq<Slot> {
    Layout(t, 1, 0, 0, 0)
  }

  /** The part of a layout behind port `q`. */
  function Behind(t: Tree, at: nat, q: nat, arrival: int): (L: seq<Slot>)
    ensures |L| == BranchSize(t.Port(q))
  {
    BranchLayout(t.Port(q), Child(t, at, q), at, q, arrival + Before(t, q))
  }

  lemma Slices(h: Slot, A: seq<Slot>, B: seq<Slot>, C: seq<Slot>)
    ensures var L := [h] + A + B + C;
            && L[1..1 + |A|] == A
            && L[1 + |A|..1 + |A| + |B|] == B
            && L[1 + |A| + |B|..1 + |A| + |B| + |C|] == C
  {}

  predicate OutPort(q: nat) {
    q == 3 || q == 1 || q == 2
  }

  /** The slice of a layout that starts at the child on port `q`. */
  lemma LayoutPart(t: Tree, at: nat, parent: nat, port: nat, arrival: int, q: nat)
    requires OutPort(q)
    ensures Child(t, at, q) + BranchSize(t.Port(q)) <= at + Size(t)
    ensures var c := Child(t, at, q);
            Layout(t, at, parent, port, arrival)[c - at..c - at + BranchSize(t.Port(q))] == Behind(t, at, q, arrival)
  {
    Slices(Slot(parent, port, arrival, t), Behind(t, at, 3, arrival), Behind(t, at, 1, arrival),
      Behind(t, at, 2, arrival));
  }

  /** The slaves from number `s` on start with the complete subtree of slave `s`. */
  ghost predicate Complete(L: seq<Slot>, at: nat, s: nat) {
    && at <= s < at + |L|
    && var here := L[s - at];
       && s + Size(here.node) <= at + |L|
       && L[s - at..s - at + Size(here.node)] == Layout(here.node, s, here.parent, here.port, here.arrival)
  }

  /** The recorded parent of slave `s` comes before it and has it on the recorded port. */
  ghost predicate Hangs(L: seq<Slot>, at: nat, s: nat) {
    && at < s < at + |L|
    && var here := L[s - at];
       && at <= here.parent < s && OutPort(here.port)
       && var up := L[here.parent - at].node;
          && up.Port(here.port).Link?
          && Child(up, here.parent, here.port) == s
  }

  /** What holds within the slice `M` of `L` holds in `L`. */
  lemma Embed(L: seq<Slot>, at: nat, M: seq<Slot>, m: nat, s: nat)
    requires at <= m <= s && m - at + |M| <= |L| && M == L[m - at..m - at + |M|]
    ensures Complete(M, m, s) ==> Complete(L, at, s)
    ensures Hangs(M, m, s) ==> Hangs(L, at, s)
  {
    if Complete(M, m, s) {
      var n := Size(M[s - m].node);
      assert L[m - at..m - at + |M|][s - m] == L[m - at + (s - m)];
      SliceOfSlice(L, m - at, m - at + |M|, s - m, s - m + n);
      assert L[s - at] == M[s - m];
    }
    if Hangs(M, m, s) {
      assert L[m - at..m - at + |M|][s - m] == L[m - at + (s - m)];
      assert L[M[s - m].parent - at] == M[M[s - m].parent - m];
    }
  }

  /** The slave plugged into port `q` hangs there. */
  lemma ChildHangs(t: Tree, at: nat, parent: nat, port: nat, arrival: int, q: nat)
    requires OutPort(q) && BranchSize(t.Port(q)) > 0
    ensures Hangs(Layout(t, at, parent, port, arrival), at, Child(t, at, q))
  {
    var L, M, c, br := Layout(t, at, parent, port, arrival), Behind(t, at, q, arrival), Child(t, at, q), t.Port(q);
    LayoutPart(t, at, parent, port, arrival, q);
    assert M == Layout(br.sub, c, at, q, arrival + Before(t, q) + br.delay);
    assert M[0] == L[c - at] && L[0].node == t;
  }

  lemma {:induction false} PortIsLocal(t: Tree, at: nat, parent: nat, port: nat, arrival: int, q: nat, s: nat)
    requires OutPort(q) && Child(t, at, q) <= s < Child(t, at, q) + BranchSize(t.Port(q))
    ensures Complete(Layout(t, at, parent, port, arrival), at, s)
    ensures Hangs(Layout(t, at, parent, port, arrival), at, s)
    decreases t, 0
  {
    hide Complete, Hangs;
    var L := Layout(t, at, parent, port, arrival);
    var c, br := Child(t, at, q), t.Port(q);
    var M := Behind(t, at, q, arrival);
    LayoutPart(t, at, parent, port, arrival, q);
    assert M == Layout(br.sub, c, at, q, arrival + Before(t, q) + br.delay);
    SlaveIsLocal(br.sub, c, at, q, arrival + Before(t, q) + br.delay, s);
    Embed(L, at, M, c, s);
    if s == c { ChildHangs(t, at, parent, port, arrival, q); }
  }

  /** Every slave of a layout stands in front of its own subtree and hangs off its recorded parent. */
  lemma {:induction false} SlaveIsLocal(t: Tree, at: nat, parent: nat, port: nat, arrival: int, s: nat)
    requires at <= s < at + Size(t)
    ensures Complete(Layout(t, at, parent, port, arrival), at, s)
    ensures s > at ==> Hangs(Layout(t, at, parent, port, arrival), at, s)
    decreases t, 1
  {
    if s == at {
      var L := Layout(t, at, parent, port, arrival);
      assert L[0..|L|] == L;
    } else {
      var q := if s < Child(t, at, 1) then 3 else if s < Child(t, at, 2) then 1 else 2;
      PortIsLocal(t, at, parent, port, arrival, q, s);
    }
  }

  /** A plugged port of slave `s` leads to slave `Child`, which records that port and its arrival time. */
  lemma ChildSlot(L: seq<Slot>, at: nat, s: nat, q: nat)
    requires Complete(L, at, s) && OutPort(q)
    requires L[s - at].node.Port(q).Link?
    ensures var here := L[s - at];
            var c := Child(here.node, s, q);
            && s < c < s + Size(here.node) <= at + |L|
            && L[c - at] == Slot(s, q, here.arrival + Before(here.node, q) + here.node.Port(q).delay,
              here.node.Port(q).sub)
  {
    var here := L[s - at];
    var t := here.node;
    var M := Layout(t, s, here.parent, here.port, here.arrival);
    var c := Child(t, s, q);
    assert L[c - at] == M[c - s];
    var X := BranchLayout(t.Port(q), c, s, q, here.arrival + Before(t, q));
    assert X == Layout(t.Port(q).sub, c, s, q, here.arrival + Before(t, q) + t.Port(q).delay);
    assert X[0] == Slot(s, q, here.arrival + Before(t, q) + t.Port(q).delay, t.Port(q).sub);
    assert M[c - s] == X[0];
  }
}
