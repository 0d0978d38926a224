/** The FIFO object: its fields, and the sections of enqueue and dequeue that run under its mutex. */
module Fifo {
  import opened Ring
  import opened Words

  class Fifo {
    const numEnts: nat
    const lowWaterMark: nat
    var producer: nat
    var consumer: nat
    var queueFull: bool
    const queue: array<Message>

    /** The fields as a value; Valid and Contents are those of the ring. */
    ghost function View(): Ring
      reads this, queue
    {
      Ring(numEnts, lowWaterMark, producer, consumer, queueFull, queue[..])
    }

    constructor (numEnts: nat, lowWaterMark: nat)
      requires 0 < numEnts <= TWO31 && lowWaterMark > 0
      ensures View().Valid() && View().Contents() == [] && this.numEnts == numEnts
      ensures this.lowWaterMark == lowWaterMark && fresh(queue)
    {
      this.numEnts, this.lowWaterMark := numEnts, lowWaterMark;
      producer, consumer, queueFull := 0, 0, false;
      queue := new Message[numEnts];
    }

    /** Without waiting: false if the FIFO is full. `wasEmpty` and `nowFull` decide which notifications follow. */
    method TryEnqueue(m: Message) returns (ok: bool, wasEmpty: bool, nowFull: bool)
      requires View().Valid()
      modifies this`producer, this`queueFull, queue
      ensures View().Valid() && View() == (if ok then old(View()).Put(m) else old(View()))
      ensures ok <==> |old(View()).Contents()| < numEnts
      ensures View().Contents() == old(View()).Contents() + (if ok then [m] else [])
      ensures wasEmpty <==> ok && old(View()).Contents() == []
      ensures nowFull <==> ok && |View().Contents()| == numEnts
    {
      hide Ring.Contents, Ring.Occupancy;
      ghost var r := View();
      StatusIsExact(r);
      if consumer == producer && queueFull {
        return false, false, false;
      }
      PutAppends(r, m);
      ok, wasEmpty := true, producer == consumer;
      queue[producer] := m;
      producer := (producer + 1) % numEnts;
      nowFull := consumer == producer;
      if nowFull {
        queueFull := true;
      }
      assert View() == r.Put(m);
      StatusIsExact(View());
    }

    /** Without waiting: false if the FIFO is empty. `unblocked` says that occupancy fell below the low-water mark of
        a FIFO that had been full, `nonReadable` that it became empty. */
    method TryDequeue() returns (ok: bool, m: Message, nonReadable: bool, unblocked: bool)
      requires View().Valid()
      modifies this`consumer, this`queueFull
      ensures View().Valid() && View() == (if ok then old(View()).Take() else old(View()))
      ensures ok <==> old(View()).Contents() != []
      ensures old(View()).Contents() == (if ok then [m] else []) + View().Contents()
      ensures nonReadable <==> ok && View().Contents() == []
      ensures unblocked <==> ok && old(queueFull) && |View().Contents()| < lowWaterMark
    {
      hide Ring.Contents, Ring.Occupancy;
      ghost var r := View();
      StatusIsExact(r);
      if consumer == producer && !queueFull {
        return false, 0, false, false;
      }
      TakeRemovesFirst(r);
      ok, m := true, queue[consumer];
      consumer := (consumer + 1) % numEnts;
      nonReadable := producer == consumer;
      unblocked := false;
      var numEnqueued := Distance(producer, consumer, numEnts);
      if queueFull {
        if numEnqueued < lowWaterMark {
          queueFull := false;
          unblocked := true;
        }
      }
      assert View() == r.Take();
      StatusIsExact(View());
      NotFullAfterTake(r);
    }

    /** xdp2_fifo_num_in_queue. */
    method NumInQueue() returns (n: nat)
      requires View().Valid()
      ensures n == |View().Contents()|
    {
      StatusIsExact(View());
      n := if producer == consumer && queueFull then numEnts else Distance(producer, consumer, numEnts);
    }
  }

  lemma NotFullAfterTake(r: Ring)
    requires r.Valid() && !r.IsEmpty()
    ensures r.Take().Valid() && !r.Take().IsFull()
  {
    hide Ring.Contents, Ring.Occupancy, Ring.Take;
    TakeRemovesFirst(r);
    TakeKeepsSize(r);
    StatusIsExact(r.Take());
  }
}
