/**
 * The ring of errors (`ecx_pusherror`, `ecx_poperror`): 65 places, at most 64
 * unread errors; one more drops the oldest.
 */
module ErrorRing {
  const EC_MAXELIST: nat := 64

  datatype Error = Error(Slave: nat, Index: nat, SubIdx: nat, Etype: nat, Code: int, Signal: bool)

  /** The unread errors after one more. */
  function Pushed(q: seq<Error>, e: Error): seq<Error> {
    (if |q| >= EC_MAXELIST then q[|q| - EC_MAXELIST + 1..] else q) + [e.(Signal := true)]
  }

  /** The cells from `tail` to before `head`, going round. */
  ghost function Cells(L: seq<Error>, head: nat, tail: nat): seq<Error>
    requires |L| == EC_MAXELIST + 1 && head <= EC_MAXELIST && tail <= EC_MAXELIST
  {
    if tail <= head then L[tail..head] else L[tail..] + L[..head]
  }

  lemma PushedCells(L: seq<Error>, M: seq<Error>, head: nat, tail: nat, head': nat, tail': nat, e: Error)
    requires |L| == EC_MAXELIST + 1 && head <= EC_MAXELIST && tail <= EC_MAXELIST
    requires M == L[head := e.(Signal := true)] && head' == (if head == EC_MAXELIST then 0 else head + 1)
    requires tail' == if head' != tail then tail else if tail == EC_MAXELIST then 0 else tail + 1
    ensures Cells(M, head', tail') == Pushed(Cells(L, head, tail), e)
  {}

  lemma PoppedCells(L: seq<Error>, M: seq<Error>, head: nat, tail: nat, tail': nat)
    requires |L| == |M| == EC_MAXELIST + 1 && head <= EC_MAXELIST && tail <= EC_MAXELIST && head != tail
    requires M == L[tail := M[tail]] && tail' == if tail == EC_MAXELIST then 0 else tail + 1
    ensures Cells(L, head, tail)[0] == L[tail] && Cells(M, head, tail') == Cells(L, head, tail)[1..]
  {}

  class Ring {
    const list: array<Error>
    var head: nat
    var tail: nat
    var ecaterror: bool

    ghost predicate Valid()
      reads this
    {
      list.Length == EC_MAXELIST + 1 && head <= EC_MAXELIST && tail <= EC_MAXELIST
    }

    /** The unread errors, oldest first. */
    ghost function Unread(): (q: seq<Error>)
      requires Valid()
      reads this, list
      ensures |q| <= EC_MAXELIST
    {
      if tail <= head then list[tail..head] else list[tail..] + list[..head]
    }

    constructor ()
      ensures Valid() && fresh(list) && Unread() == [] && !ecaterror
    {
      list := new Error[EC_MAXELIST + 1](_ => Error(0, 0, 0, 0, 0, false));
      head, tail, ecaterror := 0, 0, false;
    }

    method Push(e: Error)
      requires Valid()
      modifies this, list
      ensures Valid() && Unread() == Pushed(old(Unread()), e) && ecaterror
    {
      ghost var L := list[..];
      list[head] := e;
      list[head] := list[head].(Signal := true);
      ghost var M := list[..];
      assert M == L[head := e.(Signal := true)];
      head := head + 1;
      if head > EC_MAXELIST { head := 0; }
      if head == tail { tail := tail + 1; }
      if tail > EC_MAXELIST { tail := 0; }
      ecaterror := true;
      PushedCells(L, M, old(head), old(tail), head, tail, e);
    }

    method Pop() returns (notEmpty: bool, e: Error)
      requires Valid()
      modifies this, list
      ensures Valid() && notEmpty == (old(Unread()) != [])
      ensures notEmpty ==> e == old(Unread())[0] && Unread() == old(Unread())[1..] && ecaterror == old(ecaterror)
      ensures !notEmpty ==> Unread() == [] && !ecaterror
      ensures !list[old(tail)].Signal
    {
      notEmpty := head != tail;
      e := list[tail];
      ghost var L := list[..];
      list[tail] := list[tail].(Signal := false);
      ghost var M := list[..];
      assert M == L[tail := M[tail]];
      if notEmpty {
        tail := tail + 1;
        if tail > EC_MAXELIST { tail := 0; }
        PoppedCells(L, M, head, old(tail), tail);
      } else {
        ecaterror := false;
      }
    }
  }

  datatype Call = PushCall(e: Error) | PopCall

  /** All errors ever pushed. */
  function All(calls: seq<Call>): seq<Error> {
    if calls == [] then []
    else
      var c := calls[|calls| - 1];
      All(calls[..|calls| - 1]) + if c.PushCall? then [c.e.(Signal := true)] else []
  }

  /** The unread errors after the calls. */
  function Queue(calls: seq<Call>): seq<Error> {
    if calls == [] then []
    else
      var q := Queue(calls[..|calls| - 1]);
      match calls[|calls| - 1]
      case PushCall(e) => Pushed(q, e)
      case PopCall => if q == [] then q else q[1..]
  }

  /** The errors popped, by their places in the list of all errors. */
  function Popped(calls: seq<Call>): seq<nat> {
    if calls == [] then []
    else
      var front := calls[..|calls| - 1];
      var (before, n, q) := (Popped(front), |All(front)|, Queue(front));
      if calls[|calls| - 1].PopCall? && 0 < |q| <= n then before + [n - |q|] else before
  }

  /** The unread errors are always the most recent ones, in order, at most 64. */
  lemma {:induction false} QueueIsLatest(calls: seq<Call>)
    ensures |Queue(calls)| <= 64 && |Queue(calls)| <= |All(calls)|
    ensures Queue(calls) == All(calls)[|All(calls)| - |Queue(calls)|..]
  {
    if calls != [] { QueueIsLatest(calls[..|calls| - 1]); }
  }

  /** Errors come out in the order they went in, none twice, and only such as are no longer unread. */
  lemma {:induction false} PoppedInOrder(calls: seq<Call>)
    ensures forall i, j :: 0 <= i < j < |Popped(calls)| ==> Popped(calls)[i] < Popped(calls)[j]
    ensures forall i :: 0 <= i < |Popped(calls)| ==> Popped(calls)[i] < |All(calls)| - |Queue(calls)|
  {
    if calls != [] {
      PoppedInOrder(calls[..|calls| - 1]);
      QueueIsLatest(calls[..|calls| - 1]);
    }
  }

  /** Nothing is lost before 64 errors are unread: up to then every error is either popped or unread. */
  lemma {:induction false} NothingDropped(calls: seq<Call>)
    requires forall k :: 0 <= k < |calls| && calls[k].PushCall? ==> |Queue(calls[..k])| < 64
    ensures |Popped(calls)| + |Queue(calls)| == |All(calls)|
  {
    if calls != [] {
      var front := calls[..|calls| - 1];
      forall k | 0 <= k < |front| && front[k].PushCall? ensures |Queue(front[..k])| < 64 {
        assert front[..k] == calls[..k];
      }
      NothingDropped(front);
      QueueIsLatest(front);
      assert calls[|calls| - 1].PushCall? ==> |Queue(calls[..|calls| - 1])| < 64;
    }
  }
}
