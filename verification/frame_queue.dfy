/** The frame rings of src/kernel_tasks/network_handler_task.c: 1024 slots of which one is always left
    free, so that equal indices mean an empty queue. */
module FrameQueue {
  import opened Bitmap

  const QUEUE_SIZE: nat := 1024

  /** A queued frame: the heap block that holds it and its bytes. */
  datatype Frame = Frame(addr: nat, bytes: seq<byte>)

  class FrameRing {
    const slots: array<Frame>
    var push: nat
    var read: nat

    ghost predicate Valid()
      reads this, slots
    {
      slots.Length == QUEUE_SIZE && push < QUEUE_SIZE && read < QUEUE_SIZE
    }

    /** The queued frames, oldest first. */
    ghost function Contents(): (q: seq<Frame>)
      reads this, slots
      requires Valid()
      ensures |q| < QUEUE_SIZE
    {
      if read <= push then slots[read..push] else slots[read..] + slots[..push]
    }

    constructor ()
      ensures Valid() && Contents() == [] && fresh(slots)
    {
      slots := new Frame[QUEUE_SIZE](_ => Frame(0, []));
      push, read := 0, 0;
    }

    method IsFull() returns (full: bool)
      requires Valid()
      ensures full <==> |Contents()| == QUEUE_SIZE - 1
    {
      var queuePos := (push + 1) % QUEUE_SIZE;
      full := queuePos == read;
    }

    method IsEmpty() returns (empty: bool)
      requires Valid()
      ensures empty <==> Contents() == []
    {
      empty := read == push;
    }

    /** The storing half of the two enqueue functions. */
    method Push(frame: Frame)
      requires Valid() && |Contents()| < QUEUE_SIZE - 1
      modifies this`push, slots
      ensures Valid() && Contents() == old(Contents()) + [frame]
    {
      ghost var q, was := Contents(), push;
      slots[push] := frame;
      push := (push + 1) % QUEUE_SIZE;
      if push == 0 {
        assert slots[read..] + slots[..push] == slots[read..was] + [frame];
      } else {
        assert slots[..push] == slots[..was] + [frame];
        assert read <= was ==> slots[read..push] == slots[read..was] + [frame];
      }
      assert Contents() == q + [frame];
    }

    method Front() returns (frame: Frame)
      requires Valid() && Contents() != []
      ensures frame == Contents()[0]
    {
      frame := slots[read];
    }

    method Advance()
      requires Valid() && Contents() != []
      modifies this`read
      ensures Valid() && Contents() == old(Contents())[1..]
    {
      ghost var q := Contents();
      read := (read + 1) % QUEUE_SIZE;
      assert read <= push ==> Contents() == slots[read..push];
      assert Contents() == q[1..];
    }
  }
}
