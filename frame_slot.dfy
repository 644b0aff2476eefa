/**
 * The single-slot hand-off between the capture loop and the processing
 * worker: a queue that is only pushed when empty, so it holds at most one
 * frame, and a frame offered while the slot is full is dropped.
 */
module FrameHandOff {
  import opened Wrappers

  /** The slot after offering `img`: stored when empty, otherwise left as it was. */
  function Offer<T>(q: seq<T>, img: T): seq<T> {
    if q == [] then [img] else q
  }

  /** The frame taken from the slot, if any, and what remains. */
  datatype Taken<T> = Taken(frame: Option<T>, rest: seq<T>)

  function Take<T>(q: seq<T>): Taken<T> {
    if q == [] then Taken(None, []) else Taken(Some(q[0]), q[1..])
  }

  class FrameSlot<T> {
    var queue: seq<T>

    ghost predicate Valid()
      reads this
    {
      |queue| <= 1
    }

    constructor ()
      ensures Valid() && queue == []
    {
      queue := [];
    }

    /** The capture side: keeps `img` only if no frame is waiting (drop newest). */
    method AddImage(img: T)
      requires Valid()
      modifies this
      ensures Valid()
      ensures queue == Offer(old(queue), img)
      ensures old(queue) == [] ==> queue == [img]
      ensures old(queue) != [] ==> queue == old(queue)
    {
      if queue == [] {
        queue := queue + [img];
      }
    }

    /** The worker side: removes and returns the waiting frame, or returns nothing. */
    method NextImageAvailable() returns (next: Option<T>)
      requires Valid()
      modifies this
      ensures Valid() && queue == []
      ensures Taken(next, queue) == Take(old(queue))
      ensures next == if old(queue) == [] then None else Some(old(queue)[0])
    {
      next := None;
      if queue != [] {
        next := Some(queue[0]);
        queue := queue[1..];
      }
    }
  }

  /** One locked operation on the slot: the capture side offering a frame, or the worker polling. */
  datatype SlotOp<T> = Add(img: T) | Poll

  /** The slot after a series of operations, and the frames the worker received, in order. */
  datatype Replayed<T> = Replayed(queue: seq<T>, delivered: seq<T>)

  function Replay<T>(q: seq<T>, ops: seq<SlotOp<T>>): (r: Replayed<T>)
    ensures |q| <= 1 ==> |r.queue| <= 1
    decreases |ops|
  {
    if ops == [] then Replayed(q, [])
    else
      match ops[0]
      case Add(img) => Replay(Offer(q, img), ops[1..])
      case Poll =>
        var t := Take(q);
        var r := Replay(t.rest, ops[1..]);
        Replayed(r.queue, (if t.frame.Some? then [t.frame.value] else []) + r.delivered)
  }

  /** The frames the capture side offered, in order. */
  function Offered<T>(ops: seq<SlotOp<T>>): seq<T>
    decreases |ops|
  {
    if ops == [] then []
    else (if ops[0].Add? then [ops[0].img] else []) + Offered(ops[1..])
  }

  /** `a` is `b` with some elements left out and the rest kept in order. */
  predicate IsSubsequence<T(==)>(a: seq<T>, b: seq<T>)
    decreases |b|
  {
    if a == [] then true
    else if b == [] then false
    else (a[0] == b[0] && IsSubsequence(a[1..], b[1..])) || IsSubsequence(a, b[1..])
  }

  lemma SubsequenceOfLonger<T>(a: seq<T>, f: T, y: seq<T>)
    requires IsSubsequence(a, y)
    ensures IsSubsequence(a, [f] + y)
  {
    if a != [] {
      assert ([f] + y)[1..] == y;
    }
  }

  /**
   * Frames may be skipped but are never reordered or invented: what the
   * worker receives is a subsequence of what was waiting plus what was offered.
   */
  lemma {:induction false} DeliveredInCaptureOrder<T>(q: seq<T>, ops: seq<SlotOp<T>>)
    requires |q| <= 1
    ensures IsSubsequence(Replay(q, ops).delivered, q + Offered(ops))
    decreases |ops|
  {
    if ops != [] {
      var rest := ops[1..];
      match ops[0]
      case Add(img) =>
        DeliveredInCaptureOrder(Offer(q, img), rest);
        var d := Replay(q, ops).delivered;
        assert Offered(ops) == [img] + Offered(rest);
        if q == [] {
          assert q + Offered(ops) == [img] + Offered(rest);
        } else {
          // the offered frame is dropped: it sits between the waiting frame and the later ones
          var y := Offered(rest);
          assert IsSubsequence(d, q + y);
          assert q + Offered(ops) == [q[0]] + ([img] + y);
          assert (q + y)[1..] == y;
          if d != [] && d[0] == q[0] && IsSubsequence(d[1..], y) {
            SubsequenceOfLonger(d[1..], img, y);
            assert ([q[0]] + ([img] + y))[1..] == [img] + y;
          } else if d != [] {
            SubsequenceOfLonger(d, img, y);
            assert ([q[0]] + ([img] + y))[1..] == [img] + y;
          }
        }
      case Poll =>
        DeliveredInCaptureOrder(Take(q).rest, rest);
        assert Offered(ops) == Offered(rest);
        if q != [] {
          var d := Replay(q, ops).delivered;
          assert Take(q).rest == [];
          assert [] + Offered(rest) == Offered(rest);
          assert d == [q[0]] + Replay([], rest).delivered;
          assert d[1..] == Replay([], rest).delivered;
          assert (q + Offered(ops))[1..] == Offered(rest);
        } else {
          assert Replay(q, ops).delivered == Replay([], rest).delivered;
          assert q + Offered(ops) == Offered(rest);
        }
    }
  }
}
