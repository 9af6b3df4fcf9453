/**
 * The frame queue shared by the video callback and the OCR worker
 * (streamlit_app.py:46, 66-68, 143-151): a bounded FIFO created with room for
 * one frame, into which `recv` drops the oldest frame when the queue is full
 * before putting the newest, so the worker only ever sees the latest frame.
 */
module FrameMailbox {
  import opened Opt

  /** The last `min(capacity, |s|)` elements of `s`. */
  function Newest<T>(s: seq<T>, capacity: nat): (r: seq<T>)
    ensures |r| <= capacity && |r| <= |s|
    ensures |s| > 0 && capacity > 0 ==> r != [] && r[|r| - 1] == s[|s| - 1]
  {
    if |s| <= capacity then s else s[|s| - capacity..]
  }

  /** One `recv` on a queue holding `q`: drop the head if full, then put `x`
      if there is room. */
  function Offer<T>(q: seq<T>, capacity: nat, x: T): (r: seq<T>)
    requires 1 <= capacity && |q| <= capacity
    ensures r == Newest(q + [x], capacity)
  {
    var kept := if |q| >= capacity then q[1..] else q;
    if |kept| < capacity then kept + [x] else kept
  }

  /** The queue after `recv` has been called with each of `frames` in turn. */
  function OfferAll<T>(q: seq<T>, capacity: nat, frames: seq<T>): seq<T>
    requires 1 <= capacity && |q| <= capacity
    decreases |frames|
  {
    if frames == [] then q else OfferAll(Offer(q, capacity, frames[0]), capacity, frames[1..])
  }

  /** However many frames arrive without the worker taking one, the queue holds
      the newest `capacity` of them, in arrival order. */
  lemma {:induction false} OfferAllKeepsNewest<T>(q: seq<T>, capacity: nat, frames: seq<T>)
    requires 1 <= capacity && |q| <= capacity
    ensures OfferAll(q, capacity, frames) == Newest(q + frames, capacity)
    decreases |frames|
  {
    if frames == [] {
      assert q + frames == q;
    } else {
      var f0, rest := frames[0], frames[1..];
      var q' := Offer(q, capacity, f0);
      calc {
        OfferAll(q, capacity, frames);
        OfferAll(q', capacity, rest);
        { OfferAllKeepsNewest(q', capacity, rest); }
        Newest(Newest(q + [f0], capacity) + rest, capacity);
        { NewestAppend(q + [f0], capacity, rest); }
        Newest(q + [f0] + rest, capacity);
        { AppendFirst(q, frames); }
        Newest(q + frames, capacity);
      }
    }
  }

  lemma {:induction false} AppendFirst<T>(q: seq<T>, frames: seq<T>)
    requires frames != []
    ensures q + [frames[0]] + frames[1..] == q + frames
  {
    assert frames == [frames[0]] + frames[1..];
  }

  /** Keeping the newest elements before appending more changes nothing. */
  lemma {:induction false} NewestAppend<T>(s: seq<T>, capacity: nat, more: seq<T>)
    ensures Newest(Newest(s, capacity) + more, capacity) == Newest(s + more, capacity)
  {
    var a := Newest(s, capacity) + more;
    var b := s + more;
    if |a| > capacity {
      assert a[|a| - capacity..] == b[|b| - capacity..];
    }
  }

  /** With the program's capacity of one, the queue after any non-empty run of
      `recv` calls holds exactly the newest frame. */
  lemma {:induction false} SingleSlotHoldsLatest<T>(q: seq<T>, frames: seq<T>)
    requires |q| <= 1 && frames != []
    ensures OfferAll(q, 1, frames) == [frames[|frames| - 1]]
  {
    OfferAllKeepsNewest(q, 1, frames);
    var s := q + frames;
    assert s[|s| - 1] == frames[|frames| - 1];
    assert Newest(s, 1) == s[|s| - 1..];
  }

  /** `queue.Queue(maxsize=capacity)` holding `items`, oldest first. */
  class LatestQueue<T> {
    var items: seq<T>
    const capacity: nat

    ghost predicate Valid()
      reads this
    {
      1 <= capacity && |items| <= capacity
    }

    constructor (capacity: nat)
      requires 1 <= capacity
      ensures Valid() && this.capacity == capacity && items == []
    {
      this.capacity := capacity;
      items := [];
    }

    /** `frame_q.full()`. */
    predicate Full()
      requires Valid()
      reads this
      ensures Full() ==> items != []
    {
      |items| >= capacity
    }

    /** The queue part of `VideoProcessor.recv`. */
    method Recv(frame: T)
      requires Valid()
      modifies this
      ensures Valid()
      ensures items == Offer(old(items), capacity, frame)
      ensures capacity == 1 ==> items == [frame]
    {
      if Full() {
        items := items[1..];          // get_nowait
      }
      if |items| < capacity {
        items := items + [frame];     // put_nowait
      }
    }

    /** The worker's `frame_q.get`; `None` is the timeout on an empty queue. */
    method Take() returns (frame: Option<T>)
      requires Valid()
      modifies this
      ensures Valid()
      ensures old(items) == [] ==> frame == None && items == []
      ensures old(items) != [] ==> frame == Some(old(items)[0]) && items == old(items)[1..]
    {
      if items == [] {
        frame := None;
      } else {
        frame := Some(items[0]);
        items := items[1..];
      }
    }
  }
}
