/**
  The SSTF (Shortest Seek Time First) elevator: a FIFO list of pending block
  requests and the sector the disk head was last sent to. Each dispatch picks
  the queued request nearest to the head, ties going to the earliest queued.
 */
module Sstf {
  import opened Wrappers

  /** A block request as the scheduler sees it: which request it is, and its start sector. */
  datatype Request = Request(id: nat, sector: nat)

  /** The seek distance from the head to a request's start sector. */
  function Distance(rq: Request, head: nat): (d: nat)
    ensures d == 0 <==> rq.sector == head
    ensures rq.sector <= head ==> d + rq.sector == head
    ensures head <= rq.sector ==> d + head == rq.sector
  {
    if rq.sector >= head then rq.sector - head else head - rq.sector
  }

  /** `q[k]` is at least as near the head as every queued request, and strictly
      nearer than every request queued before it. */
  predicate IsNearest(q: seq<Request>, head: nat, k: nat) {
    && k < |q|
    && (forall j | 0 <= j < |q| :: Distance(q[k], head) <= Distance(q[j], head))
    && (forall j | 0 <= j < k :: Distance(q[k], head) < Distance(q[j], head))
  }

  /** At most one position of a queue is the nearest in the sense above. */
  lemma NearestUnique(q: seq<Request>, head: nat, k1: nat, k2: nat)
    requires IsNearest(q, head, k1) && IsNearest(q, head, k2)
    ensures k1 == k2
  {
    assert Distance(q[k1], head) <= Distance(q[k2], head);
    assert Distance(q[k2], head) <= Distance(q[k1], head);
  }

  /** The position a front-to-back scan keeping the first strict minimum ends on. */
  function Nearest(q: seq<Request>, head: nat): (k: nat)
    requires q != []
    ensures IsNearest(q, head, k)
  {
    if |q| == 1 then 0
    else
      var k := Nearest(q[..|q| - 1], head);
      if Distance(q[|q| - 1], head) < Distance(q[k], head) then |q| - 1 else k
  }

  /** The queue with its `k`-th entry unlinked; the rest keep their order. */
  function RemoveAt(q: seq<Request>, k: nat): (r: seq<Request>)
    requires k < |q|
    ensures |r| == |q| - 1
    ensures forall i | 0 <= i < k :: r[i] == q[i]
    ensures forall i | k <= i < |r| :: r[i] == q[i + 1]
    ensures multiset(r) + multiset{q[k]} == multiset(q)
  {
    assert q == q[..k] + [q[k]] + q[k + 1..];
    q[..k] + q[k + 1..]
  }

  /** No request is on the queue twice. */
  predicate DistinctIds(q: seq<Request>) {
    forall i, j | 0 <= i < j < |q| :: q[i].id != q[j].id
  }

  /** Position of `rq` in `q`, if it is queued. */
  function PositionOf(q: seq<Request>, rq: Request): (r: Option<nat>)
    ensures r.None? <==> rq !in q
    ensures r.Some? ==> r.value < |q| && q[r.value] == rq
  {
    if q == [] then None
    else if q[0] == rq then Some(0)
    else match PositionOf(q[1..], rq)
      case None => None
      case Some(k) => Some(k + 1)
  }

  /** Scan the queue for the request nearest the head; `None` stands for the
      NULL returned on an empty queue. A distance is kept only once a
      candidate exists, which is what the `-1` sentinel encodes. */
  method FindNextRequest(queue: seq<Request>, head: nat) returns (next: Option<nat>)
    ensures next.None? <==> queue == []
    ensures next.Some? ==> IsNearest(queue, head, next.value)
  {
    next := None;
    var minDistance: nat := 0;
    var i := 0;
    while i < |queue|
      invariant 0 <= i <= |queue|
      invariant next.None? <==> i == 0
      invariant next.Some? ==> IsNearest(queue[..i], head, next.value)
      invariant next.Some? ==> minDistance == Distance(queue[next.value], head)
    {
      var distance := Distance(queue[i], head);
      if next.None? || distance < minDistance {
        minDistance := distance;
        next := Some(i);
      }
      i := i + 1;
    }
    assert queue[..i] == queue;
  }

  /** The per-queue state of the elevator: the pending requests in arrival
      order and the head position. `dispatched` records what was handed to the
      dispatch list, in order. */
  class Scheduler {
    var queue: seq<Request>
    var head: nat
    ghost var dispatched: seq<Request>

    ghost predicate Valid()
      reads this
    {
      DistinctIds(queue)
    }

    /** Queue set-up: an empty list and the head at sector 0. */
    constructor ()
      ensures Valid()
      ensures queue == [] && head == 0 && dispatched == []
    {
      queue := [];
      head := 0;
      dispatched := [];
    }

    /** Dispatch the nearest request, moving the head to it; 1 if one was
        dispatched, 0 on an empty queue. */
    method Dispatch() returns (r: int)
      requires Valid()
      modifies this
      ensures Valid()
      ensures old(queue) == [] ==>
        r == 0 && queue == old(queue) && head == old(head) && dispatched == old(dispatched)
      ensures old(queue) != [] ==>
        var k := Nearest(old(queue), old(head));
        && r == 1
        && queue == RemoveAt(old(queue), k)
        && head == old(queue)[k].sector
        && dispatched == old(dispatched) + [old(queue)[k]]
    {
      var next := FindNextRequest(queue, head);
      if next.Some? {
        var k := next.value;
        NearestUnique(queue, head, k, Nearest(queue, head));
        var rq := queue[k];
        queue := RemoveAt(queue, k);
        dispatched := dispatched + [rq];
        head := rq.sector;
        return 1;
      }
      return 0;
    }

    /** Append a request at the tail of the queue. */
    method AddRequest(rq: Request)
      requires Valid()
      requires forall i | 0 <= i < |queue| :: queue[i].id != rq.id
      modifies this
      ensures Valid()
      ensures queue == old(queue) + [rq]
      ensures head == old(head) && dispatched == old(dispatched)
    {
      queue := queue + [rq];
    }

    /** `next` has been merged into `rq`: unlink `next`; `rq` stays queued.
        Unlinking a request that is on no list changes nothing. */
    method MergedRequests(rq: Request, next: Request)
      requires Valid()
      modifies this
      ensures Valid()
      ensures next !in old(queue) ==> queue == old(queue)
      ensures next in old(queue) ==>
        exists k | 0 <= k < |old(queue)| :: old(queue)[k] == next && queue == RemoveAt(old(queue), k)
      ensures forall x :: x in queue <==> x in old(queue) && x != next
      ensures head == old(head) && dispatched == old(dispatched)
    {
      var pos := PositionOf(queue, next);
      if pos.Some? {
        var k := pos.value;
        ghost var q := queue;
        queue := RemoveAt(queue, k);
        forall x ensures x in queue <==> x in q && x != next {
          if x in queue {
            var i :| 0 <= i < |queue| && queue[i] == x;
            if i < k {
              assert q[i] == x && q[i].id != q[k].id;
            } else {
              assert q[i + 1] == x && q[i + 1].id != q[k].id;
            }
          }
          if x in q && x != next {
            var i :| 0 <= i < |q| && q[i] == x;
            assert i != k;
            if i < k { assert queue[i] == x; } else { assert queue[i - 1] == x; }
          }
        }
      }
    }

    /** Queue teardown. `BUG_ON` halts the kernel unless the list is empty,
        so an empty list is what every caller must guarantee; freeing the
        per-queue data leaves nothing for the model to change. */
    method ExitQueue()
      requires queue == []
      ensures unchanged(this)
    {
    }
  }

  /** The order in which SSTF dispatches everything on `q`, starting at `head`. */
  ghost function SstfOrder(q: seq<Request>, head: nat): seq<Request>
    decreases |q|
  {
    if q == [] then []
    else
      var k := Nearest(q, head);
      [q[k]] + SstfOrder(RemoveAt(q, k), q[k].sector)
  }

  /** The SSTF order dispatches every queued request exactly once. */
  lemma {:induction false} SstfOrderPermutes(q: seq<Request>, head: nat)
    ensures |SstfOrder(q, head)| == |q|
    ensures multiset(SstfOrder(q, head)) == multiset(q)
    decreases |q|
  {
    if q != [] {
      var k := Nearest(q, head);
      SstfOrderPermutes(RemoveAt(q, k), q[k].sector);
    }
  }

  /** One dispatch moves the first request of the SSTF order from the queue
      to the dispatched requests. */
  lemma DrainStep(d: seq<Request>, q: seq<Request>, head: nat)
    requires q != []
    ensures var k := Nearest(q, head);
            d + SstfOrder(q, head) == (d + [q[k]]) + SstfOrder(RemoveAt(q, k), q[k].sector)
  {
    var k := Nearest(q, head);
    SstfOrderFirst(q, head);
    AppendFirst(d, q[k], SstfOrder(RemoveAt(q, k), q[k].sector));
  }

  /** The SSTF order starts with the nearest request. */
  lemma SstfOrderFirst(q: seq<Request>, head: nat)
    requires q != []
    ensures var k := Nearest(q, head);
            SstfOrder(q, head) == [q[k]] + SstfOrder(RemoveAt(q, k), q[k].sector)
  {
  }

  lemma AppendFirst(d: seq<Request>, x: Request, rest: seq<Request>)
    ensures d + ([x] + rest) == (d + [x]) + rest
  {
  }

  /** Dispatch until the scheduler reports an empty queue: exactly one
      successful dispatch per queued request, in SSTF order. */
  method Drain(s: Scheduler) returns (calls: nat)
    requires s.Valid()
    modifies s
    ensures s.Valid() && s.queue == []
    ensures calls == |old(s.queue)|
    ensures s.dispatched == old(s.dispatched) + SstfOrder(old(s.queue), old(s.head))
  {
    ghost var goal := old(s.dispatched) + SstfOrder(old(s.queue), old(s.head));
    calls := 0;
    while true
      invariant s.Valid()
      invariant calls + |s.queue| == |old(s.queue)|
      invariant goal == s.dispatched + SstfOrder(s.queue, s.head)
      decreases |s.queue|
    {
      ghost var q, h, d := s.queue, s.head, s.dispatched;
      var r := s.Dispatch();
      if r == 0 {
        assert q == [] && s.dispatched + SstfOrder(q, h) == s.dispatched;
        return;
      }
      DrainStep(d, q, h);
      calls := calls + 1;
    }
  }

  /** Switching the elevator off: the block layer dispatches everything still
      queued, then tears the queue down, so the `BUG_ON` in `ExitQueue` never
      fires on this path. */
  method Teardown(s: Scheduler) returns (calls: nat)
    requires s.Valid()
    modifies s
    ensures s.queue == []
    ensures calls == |old(s.queue)|
    ensures s.dispatched == old(s.dispatched) + SstfOrder(old(s.queue), old(s.head))
  {
    calls := Drain(s);
    s.ExitQueue();
  }
}
