/** The ring of a FIFO: what the sections under the FIFO mutex do, and the bounded queue they implement. */
module Ring {
  import opened Words

  type Message = nat

  /** (producer - consumer + num_ents) % num_ents. */
  function Distance(producer: nat, consumer: nat, numEnts: nat): (r: nat)
    requires numEnts > 0
    ensures r < numEnts
  {
    U32(U32(producer - consumer) + numEnts) % numEnts
  }

  /** How many entries lie between two ring positions. */
  function TrueDistance(producer: nat, consumer: nat, numEnts: nat): int {
    if producer >= consumer then producer - consumer else producer - consumer + numEnts
  }

  datatype Ring = Ring(numEnts: nat, lowWaterMark: nat, producer: nat, consumer: nat, queueFull: bool,
                       queue: seq<Message>) {
    /** The fields are in range. */
    predicate Shaped() {
      0 < numEnts <= TWO31 && |queue| == numEnts && producer < numEnts && consumer < numEnts
    }

    function NumInQueue(): nat
      requires numEnts > 0
    {
      if producer == consumer && queueFull then numEnts else Distance(producer, consumer, numEnts)
    }

    function Avail(): nat
      requires numEnts > 0
    {
      U32(numEnts - NumInQueue())
    }

    predicate IsEmpty() {
      consumer == producer && !queueFull
    }

    predicate IsFull() {
      consumer == producer && queueFull
    }

    /** The section of enqueue under the mutex, once the ring is not full. */
    function Put(m: Message): Ring
      requires Shaped()
    {
      var p := (producer + 1) % numEnts;
      this.(producer := p, queue := queue[producer := m], queueFull := queueFull || consumer == p)
    }

    /** The section of dequeue under the mutex, once the ring is not empty: the message is Head(). */
    function Take(): Ring
      requires Shaped()
    {
      var c := (consumer + 1) % numEnts;
      this.(consumer := c, queueFull := queueFull && !(Distance(producer, c, numEnts) < lowWaterMark))
    }

    function Head(): Message
      requires Shaped()
    {
      queue[consumer]
    }

    /** How many messages are in the ring. */
    function Occupancy(): nat
      requires Shaped()
    {
      if producer == consumer then (if queueFull then numEnts else 0) else TrueDistance(producer, consumer, numEnts)
    }

    function Index(i: nat): nat
      requires Shaped() && i <= numEnts
    {
      if consumer + i < numEnts then consumer + i else consumer + i - numEnts
    }

    /** The messages in the ring, oldest first. */
    function Contents(): (s: seq<Message>)
      requires Shaped()
      ensures |s| == Occupancy() && |s| <= numEnts
    {
      seq(Occupancy(), (i: nat) requires i < Occupancy() => queue[Index(i)])
    }

    /** `queue_full` stays set from the moment the ring fills up until occupancy falls below the low-water mark. */
    predicate Valid() {
      && Shaped()
      && lowWaterMark > 0
      && (queueFull ==> Occupancy() >= Threshold())
    }

    function Threshold(): nat {
      if lowWaterMark <= numEnts then lowWaterMark else numEnts
    }
  }

  function New(numEnts: nat, lowWaterMark: nat, queue: seq<Message>): Ring {
    Ring(numEnts, lowWaterMark, 0, 0, false, queue)
  }

  /** The 32-bit distance is the true one at every pair of ring positions exactly for rings of at most 2^31 entries. */
  lemma DistanceExact(numEnts: nat)
    requires 0 < numEnts < TWO32
    ensures (forall p: nat, c: nat :: p < numEnts && c < numEnts ==>
               Distance(p, c, numEnts) == TrueDistance(p, c, numEnts))
            <==> numEnts <= TWO31
  {
    if numEnts <= TWO31 {
      forall p: nat, c: nat | p < numEnts && c < numEnts
        ensures Distance(p, c, numEnts) == TrueDistance(p, c, numEnts)
      {
        DistanceIs(p, c, numEnts);
      }
    } else {
      DistanceWraps(numEnts);
    }
  }

  lemma DistanceWraps(numEnts: nat)
    requires TWO31 < numEnts < TWO32
    ensures Distance(numEnts - 1, 0, numEnts) != TrueDistance(numEnts - 1, 0, numEnts)
  {
    SmallU32(numEnts - 1);
    var x := 2 * numEnts - 1 - TWO32;
    assert U32(numEnts - 1 + numEnts) == x;
    QuotientUnique(x, 0, x, numEnts);
  }

  lemma DistanceIs(p: nat, c: nat, numEnts: nat)
    requires 0 < numEnts <= TWO31 && p < numEnts && c < numEnts
    ensures Distance(p, c, numEnts) == TrueDistance(p, c, numEnts)
  {
    hide U32;
    DistanceNoWrap(p, c, numEnts);
    if p >= c {
      QuotientUnique(p - c + numEnts, 1, p - c, numEnts);
    } else {
      QuotientUnique(p - c + numEnts, 0, p - c + numEnts, numEnts);
    }
  }

  lemma DistanceNoWrap(p: nat, c: nat, numEnts: nat)
    requires 0 < numEnts <= TWO31 && p < numEnts && c < numEnts
    ensures U32(U32(p - c) + numEnts) == p - c + numEnts
  {
  }

  lemma NextIndex(x: nat, n: nat)
    requires x < n
    ensures (x + 1) % n == if x + 1 < n then x + 1 else 0
  {
  }

  /** The status functions are exact. */
  lemma StatusIsExact(r: Ring)
    requires r.Valid()
    ensures r.NumInQueue() == |r.Contents()|
    ensures r.Avail() == r.numEnts - |r.Contents()|
    ensures r.IsEmpty() <==> r.Contents() == []
    ensures r.IsFull() <==> |r.Contents()| == r.numEnts
    ensures r.producer == r.consumer <==> r.IsEmpty() || r.IsFull()
  {
    hide Ring.Contents, Distance;
    DistanceIs(r.producer, r.consumer, r.numEnts);
    SmallU32(r.numEnts - r.NumInQueue());
  }

  lemma SmallU32(x: nat)
    requires x < TWO32
    ensures U32(x) == x
  {
  }

  /** Enqueueing appends. */
  lemma PutAppends(r: Ring, m: Message)
    requires r.Valid() && !r.IsFull()
    ensures r.Put(m).Valid()
    ensures r.Put(m).Contents() == r.Contents() + [m]
    ensures r.Put(m).queueFull <==> r.queueFull || |r.Contents()| + 1 == r.numEnts
  {
    NextIndex(r.producer, r.numEnts);
    var s := r.Put(m);
    assert s.Occupancy() == r.Occupancy() + 1;
    forall i: nat | i < s.Occupancy() ensures s.Contents()[i] == (r.Contents() + [m])[i] {
      assert s.Contents()[i] == s.queue[s.Index(i)];
    }
  }

  /** Dequeueing removes the oldest message, and `queue_full` falls exactly below the low-water mark. */
  lemma TakeRemovesFirst(r: Ring)
    requires r.Valid() && !r.IsEmpty()
    ensures r.Take().Valid()
    ensures r.Contents() == [r.Head()] + r.Take().Contents()
    ensures r.Take().queueFull <==> r.queueFull && |r.Take().Contents()| >= r.lowWaterMark
  {
    NextIndex(r.consumer, r.numEnts);
    var s := r.Take();
    DistanceIs(r.producer, s.consumer, r.numEnts);
    assert s.Occupancy() == r.Occupancy() - 1;
    forall i: nat | i < r.Occupancy() ensures r.Contents()[i] == ([r.Head()] + s.Contents())[i] {
      assert i > 0 ==> s.Contents()[i - 1] == s.queue[s.Index(i - 1)];
    }
  }

  /** Calls that do not wait, and what they return. */
  datatype Request = In(m: Message) | Out

  datatype Result = Accepted | Full | Got(m: Message) | Empty

  function ExecOne(r: Ring, call: Request): (p: (Ring, Result))
    requires r.Shaped()
    ensures p.0.Shaped()
  {
    match call
    case In(m) => if r.IsFull() then (r, Full) else (r.Put(m), Accepted)
    case Out => if r.IsEmpty() then (r, Empty) else (r.Take(), Got(r.Head()))
  }

  /** A run of calls on the ring. */
  function Exec(r: Ring, calls: seq<Request>): (Ring, seq<Result>)
    requires r.Shaped()
    decreases |calls|
  {
    if calls == [] then (r, [])
    else
      var one := ExecOne(r, calls[0]);
      var rest := Exec(one.0, calls[1..]);
      (rest.0, [one.1] + rest.1)
  }

  function SpecOne(q: seq<Message>, n: nat, call: Request): (seq<Message>, Result) {
    match call
    case In(m) => if |q| == n then (q, Full) else (q + [m], Accepted)
    case Out => if q == [] then (q, Empty) else (q[1..], Got(q[0]))
  }

  /** The same run on a queue of at most `n` messages. */
  function Spec(q: seq<Message>, n: nat, calls: seq<Request>): (seq<Message>, seq<Result>)
    decreases |calls|
  {
    if calls == [] then (q, [])
    else
      var one := SpecOne(q, n, calls[0]);
      var rest := Spec(one.0, n, calls[1..]);
      (rest.0, [one.1] + rest.1)
  }

  lemma OneRefines(r: Ring, call: Request)
    requires r.Valid()
    ensures var (s, one) := ExecOne(r, call);
      && s.Valid() && s.numEnts == r.numEnts
      && (s.Contents(), one) == SpecOne(r.Contents(), r.numEnts, call)
  {
    hide Ring.Contents, Ring.Put, Ring.Take, Ring.IsFull, Ring.IsEmpty, Ring.Head, Ring.Occupancy;
    StatusIsExact(r);
    match call
    case In(m) =>
      if !r.IsFull() {
        PutAppends(r, m);
        PutKeepsSize(r, m);
      }
    case Out =>
      if !r.IsEmpty() {
        TakeRemovesFirst(r);
        TakeKeepsSize(r);
        assert r.Contents()[0] == r.Head() && r.Contents()[1..] == r.Take().Contents();
      }
  }

  /** Every run on the ring is a run of the bounded queue: same results, same contents. */
  lemma {:induction false} RingIsBoundedQueue(r: Ring, calls: seq<Request>)
    requires r.Valid()
    ensures var (s, res) := Exec(r, calls);
      s.Valid() && s.numEnts == r.numEnts && (s.Contents(), res) == Spec(r.Contents(), r.numEnts, calls)
    decreases |calls|
  {
    hide Ring.Contents, Ring.Occupancy, ExecOne, SpecOne;
    if calls != [] {
      OneRefines(r, calls[0]);
      RingIsBoundedQueue(ExecOne(r, calls[0]).0, calls[1..]);
    }
  }

  lemma PutKeepsSize(r: Ring, m: Message)
    requires r.Shaped()
    ensures r.Put(m).numEnts == r.numEnts && r.Put(m).lowWaterMark == r.lowWaterMark
  {
  }

  lemma TakeKeepsSize(r: Ring)
    requires r.Shaped()
    ensures r.Take().numEnts == r.numEnts && r.Take().lowWaterMark == r.lowWaterMark
  {
  }

  /** The messages that a run got into the ring, and those it got out. */
  function Sent(calls: seq<Request>, res: seq<Result>): seq<Message>
    requires |calls| == |res|
  {
    if calls == [] then []
    else SentOne(calls[0], res[0]) + Sent(calls[1..], res[1..])
  }

  function SentOne(call: Request, res: Result): seq<Message> {
    if call.In? && res.Accepted? then [call.m] else []
  }

  function Received(res: seq<Result>): seq<Message> {
    if res == [] then [] else ReceivedOne(res[0]) + Received(res[1..])
  }

  function ReceivedOne(res: Result): seq<Message> {
    if res.Got? then [res.m] else []
  }

  lemma {:induction false} SpecLength(q: seq<Message>, n: nat, calls: seq<Request>)
    ensures |Spec(q, n, calls).1| == |calls|
    decreases |calls|
  {
    if calls != [] { SpecLength(SpecOne(q, n, calls[0]).0, n, calls[1..]); }
  }

  lemma {:induction false} SpecConserves(q: seq<Message>, n: nat, calls: seq<Request>)
    ensures var (q', res) := Spec(q, n, calls);
      |res| == |calls| && q + Sent(calls, res) == Received(res) + q'
    decreases |calls|
  {
    hide SpecOne, SentOne, ReceivedOne;
    SpecLength(q, n, calls);
    if calls != [] {
      var (t, one) := SpecOne(q, n, calls[0]);
      SpecOneConserves(q, n, calls[0]);
      SpecConserves(t, n, calls[1..]);
      var (q', rest) := Spec(t, n, calls[1..]);
      assert ([one] + rest)[1..] == rest;
      Chain(q, SentOne(calls[0], one), Sent(calls[1..], rest), ReceivedOne(one), t, Received(rest), q');
    }
  }

  lemma SpecOneConserves(q: seq<Message>, n: nat, call: Request)
    ensures var (t, one) := SpecOne(q, n, call); q + SentOne(call, one) == ReceivedOne(one) + t
  {
  }

  lemma Chain(q: seq<Message>, sent: seq<Message>, moreSent: seq<Message>, got: seq<Message>, t: seq<Message>,
              moreGot: seq<Message>, last: seq<Message>)
    requires q + sent == got + t && t + moreSent == moreGot + last
    ensures q + (sent + moreSent) == (got + moreGot) + last
  {
    calc {
      q + (sent + moreSent);
      (q + sent) + moreSent;
      got + (t + moreSent);
      (got + moreGot) + last;
    }
  }

  /** Nothing is lost, repeated or reordered: over every run of a new FIFO, what was sent is what was received and
      then what is still in the ring. In particular the messages received are a prefix of those sent. */
  lemma RingConserves(numEnts: nat, lowWaterMark: nat, queue: seq<Message>, calls: seq<Request>)
    requires 0 < numEnts <= TWO31 && lowWaterMark > 0 && |queue| == numEnts
    ensures var (s, res) := Exec(New(numEnts, lowWaterMark, queue), calls);
      && |res| == |calls|
      && s.Valid()
      && Sent(calls, res) == Received(res) + s.Contents()
  {
    var r := New(numEnts, lowWaterMark, queue);
    RingIsBoundedQueue(r, calls);
    SpecConserves(r.Contents(), numEnts, calls);
    var (s, res) := Exec(r, calls);
    assert r.Contents() + Sent(calls, res) == Sent(calls, res);
  }

  /** `n` times the same call. */
  function Times(call: Request, n: nat): (r: seq<Request>)
    ensures |r| == n
  {
    seq(n, _ => call)
  }

  lemma OneMore(call: Request, n: nat)
    requires n > 0
    ensures Times(call, n) == Times(call, n - 1) + [call]
  {
  }

  lemma {:induction false} ExecAppend(r: Ring, a: seq<Request>, b: seq<Request>)
    requires r.Shaped()
    ensures Exec(r, a).0.Shaped()
    ensures Exec(r, a + b).0 == Exec(Exec(r, a).0, b).0
    ensures Exec(r, a + b).1 == Exec(r, a).1 + Exec(Exec(r, a).0, b).1
    decreases |a|
  {
    hide ExecOne, Ring.Shaped;
    if a == [] {
      assert a + b == b;
    } else {
      ExecAppend(ExecOne(r, a[0]).0, a[1..], b);
      assert (a + b)[1..] == a[1..] + b;
    }
  }

  lemma {:induction false} SpecAppend(q: seq<Message>, n: nat, a: seq<Request>, b: seq<Request>)
    ensures Spec(q, n, a + b).0 == Spec(Spec(q, n, a).0, n, b).0
    ensures Spec(q, n, a + b).1 == Spec(q, n, a).1 + Spec(Spec(q, n, a).0, n, b).1
    decreases |a|
  {
    hide SpecOne;
    if a == [] {
      assert a + b == b;
    } else {
      SpecAppend(SpecOne(q, n, a[0]).0, n, a[1..], b);
      assert (a + b)[1..] == a[1..] + b;
    }
  }

  /** `k` messages into a new ring. */
  lemma {:induction false} Fill(r: Ring, m: Message, k: nat)
    requires r.Shaped() && r.producer == r.consumer == 0 && !r.queueFull && k <= r.numEnts
    ensures var s := Exec(r, Times(In(m), k)).0;
      && s.Shaped() && s.numEnts == r.numEnts && s.lowWaterMark == r.lowWaterMark && s.consumer == 0
      && s.producer == (if k == r.numEnts then 0 else k) && s.queueFull == (k == r.numEnts)
    ensures |Spec([], r.numEnts, Times(In(m), k)).0| == k
    decreases k
  {
    if k > 0 {
      Fill(r, m, k - 1);
      OneMore(In(m), k);
      ExecAppend(r, Times(In(m), k - 1), [In(m)]);
      SpecAppend([], r.numEnts, Times(In(m), k - 1), [In(m)]);
      NextIndex(k - 1, r.numEnts);
    }
  }

  /** With a low-water mark of 0 a ring that was full is never seen to be anything but full when it is empty again. */
  lemma {:induction false} Drain(r: Ring, q: seq<Message>, k: nat)
    requires r.Shaped() && r.producer == r.consumer == 0 && r.queueFull && r.lowWaterMark == 0
    requires k <= r.numEnts == |q|
    ensures var s := Exec(r, Times(Out, k)).0;
      && s.Shaped() && s.numEnts == r.numEnts && s.lowWaterMark == 0 && s.producer == 0 && s.queueFull
      && s.consumer == (if k == r.numEnts then 0 else k)
    ensures |Spec(q, r.numEnts, Times(Out, k)).0| == |q| - k
    decreases k
  {
    if k > 0 {
      Drain(r, q, k - 1);
      OneMore(Out, k);
      ExecAppend(r, Times(Out, k - 1), [Out]);
      SpecAppend(q, r.numEnts, Times(Out, k - 1), [Out]);
      NextIndex(k - 1, r.numEnts);
    }
  }

  /** The ring gives the results of the bounded queue on every run exactly when the low-water mark is positive. */
  lemma MarkMustBePositive(numEnts: nat, lowWaterMark: nat, queue: seq<Message>)
    requires 0 < numEnts <= TWO31 && |queue| == numEnts
    ensures (forall calls ::
               Exec(New(numEnts, lowWaterMark, queue), calls).1 == Spec([], numEnts, calls).1)
            <==> lowWaterMark > 0
  {
    var r := New(numEnts, lowWaterMark, queue);
    if lowWaterMark > 0 {
      forall calls ensures Exec(r, calls).1 == Spec([], numEnts, calls).1 {
        RingIsBoundedQueue(r, calls);
      }
    } else {
      ghost var calls := RepeatedDelivery(numEnts, queue);
    }
  }

  /** After `numEnts` messages in and out again, one more dequeue still delivers. */
  lemma RepeatedDelivery(numEnts: nat, queue: seq<Message>) returns (calls: seq<Request>)
    requires 0 < numEnts <= TWO31 && |queue| == numEnts
    ensures Exec(New(numEnts, 0, queue), calls).1 != Spec([], numEnts, calls).1
  {
    hide ExecOne, SpecOne;
    var r := New(numEnts, 0, queue);
    var ins, outs := Times(In(0), numEnts), Times(Out, numEnts);
    Fill(r, 0, numEnts);
    var full, q := Exec(r, ins).0, Spec([], numEnts, ins).0;
    Drain(full, q, numEnts);
    ExecAppend(r, ins, outs);
    SpecAppend([], numEnts, ins, outs);
    calls := ins + outs + [Out];
    ExecAppend(r, ins + outs, [Out]);
    SpecAppend([], numEnts, ins + outs, [Out]);
    LastResult(Exec(r, ins + outs).0, Spec([], numEnts, ins + outs).0, numEnts);
    SpecLength([], numEnts, ins + outs);
    assert Spec([], numEnts, calls).1[2 * numEnts].Empty?;
    assert |Exec(r, ins + outs).1| == 2 * numEnts ==> Exec(r, calls).1[2 * numEnts].Got?;
  }

  lemma LastResult(s: Ring, q: seq<Message>, n: nat)
    requires s.Shaped() && s.producer == s.consumer && s.queueFull && q == []
    ensures |Exec(s, [Out]).1| == 1 && Exec(s, [Out]).1[0].Got?
    ensures Spec(q, n, [Out]).1 == [Empty]
  {
    assert Exec(s, [Out]).1 == [ExecOne(s, Out).1] + Exec(ExecOne(s, Out).0, []).1;
  }
}
