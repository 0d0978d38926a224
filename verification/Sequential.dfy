/** Calls that do not overlap: after each of them the ready bits tell the state of the FIFO exactly. */
module Sequential {
  import opened Ring
  import opened Protocol
  import opened Invariants
  import opened Progress

  /** A call runs to its end without being interrupted. */
  function Complete(cfg: Config, sh: Shared, pc: Pc): (r: Shared)
    requires sh.ring.Shaped()
    ensures r.ring.Shaped()
    decreases Rank(pc)
  {
    if pc.Idle? || Asleep(pc) then sh
    else
      ActRank(cfg, sh, pc, false);
      var (sh', pc') := Act(cfg, sh, pc, false);
      Complete(cfg, sh', pc')
  }

  function Call(cfg: Config, sh: Shared, call: Call): (r: Shared)
    requires sh.ring.Shaped()
    ensures r.ring.Shaped()
  {
    var (sh', pc) := Begin(cfg, sh, call);
    Complete(cfg, sh', pc)
  }

  // The call takes one step, in the function it is in.

  lemma EnqueueGo(cfg: Config, sh: Shared, pc: Pc)
    requires sh.ring.Shaped() && InEnqueue(pc)
    ensures var (sh', pc') := EnqueueStep(cfg, sh, pc); Complete(cfg, sh, pc) == Complete(cfg, sh', pc')
  {
    hide EnqueueStep, WritableStep, ReadableStep, DequeueStep, PollingStep, Rank, Ring.Shaped;
  }

  lemma WritableGo(cfg: Config, sh: Shared, pc: Pc)
    requires sh.ring.Shaped() && InMakeWritable(pc)
    ensures var (sh', pc') := WritableStep(cfg, sh, pc); Complete(cfg, sh, pc) == Complete(cfg, sh', pc')
  {
    hide EnqueueStep, WritableStep, ReadableStep, DequeueStep, PollingStep, Rank, Ring.Shaped;
  }

  lemma ReadableGo(cfg: Config, sh: Shared, pc: Pc)
    requires sh.ring.Shaped() && InMakeReadable(pc)
    ensures var (sh', pc') := ReadableStep(cfg, sh, pc); Complete(cfg, sh, pc) == Complete(cfg, sh', pc')
  {
    hide EnqueueStep, WritableStep, ReadableStep, DequeueStep, PollingStep, Rank, Ring.Shaped;
  }

  lemma DequeueGo(cfg: Config, sh: Shared, pc: Pc)
    requires sh.ring.Shaped() && InDequeue(pc)
    ensures var (sh', pc') := DequeueStep(cfg, sh, pc); Complete(cfg, sh, pc) == Complete(cfg, sh', pc')
  {
    hide EnqueueStep, WritableStep, ReadableStep, DequeueStep, PollingStep, Rank, Ring.Shaped;
  }

  lemma CheckGo(cfg: Config, sh: Shared, pc: Pc)
    requires sh.ring.Shaped() && (pc.ReadCheck? || pc.WriteCheck?)
    ensures var (sh', pc') := PollingStep(cfg, sh, pc, false); Complete(cfg, sh, pc) == Complete(cfg, sh', pc')
  {
    hide EnqueueStep, WritableStep, ReadableStep, DequeueStep, PollingStep, Rank, Ring.Shaped;
  }

  function MarkReadable(cfg: Config, sh: Shared): Shared {
    if cfg.readBound && sh.readMask then sh.(readReady := true) else sh
  }

  function MarkWritable(cfg: Config, sh: Shared): Shared {
    if cfg.writeBound && sh.writeMask then sh.(writeReady := true) else sh
  }

  lemma MakeReadable(cfg: Config, sh: Shared, k: Next)
    requires sh.ring.Shaped()
    ensures Complete(cfg, sh, MrSignal(k)) == Complete(cfg, MarkReadable(cfg, sh), Continue(k))
  {
    hide Complete, Continue, Ring.Shaped, Act;
    ReadableGo(cfg, sh, MrSignal(k));
    ReadableGo(cfg, sh, MrBind(k));
    ReadableGo(cfg, sh, MrSet(k));
    ReadableGo(cfg, sh.(readReady := true), MrGroup(k));
  }

  lemma MakeWritable(cfg: Config, sh: Shared, k: Next)
    requires sh.ring.Shaped()
    ensures Complete(cfg, sh, MwSignal(k)) == Complete(cfg, MarkWritable(cfg, sh), Continue(k))
  {
    hide Complete, Continue, Ring.Shaped, Act;
    WritableGo(cfg, sh, MwSignal(k));
    WritableGo(cfg, sh, MwBind(k));
    WritableGo(cfg, sh, MwSet(k));
    WritableGo(cfg, sh.(writeReady := true), MwGroup(k));
  }

  lemma MakeNonReadable(cfg: Config, sh: Shared, k: Next)
    requires sh.ring.Shaped() && sh.ring.IsEmpty()
    ensures Complete(cfg, sh, NrBind(k)) == Complete(cfg, if cfg.readBound then sh.(readReady := false) else sh, Continue(k))
  {
    hide Complete, Continue, Ring.Shaped, Act, TryTake, Ring.IsEmpty;
    DequeueGo(cfg, sh, NrBind(k));
    DequeueGo(cfg, sh, NrClear(k));
    DequeueGo(cfg, sh, NrRecheck(k));
    DequeueGo(cfg, sh.(readReady := false), NrRecheck(k));
  }

  lemma MarkNonWritable(cfg: Config, sh: Shared, k: Next)
    requires sh.ring.Shaped()
    ensures var sh1 := if cfg.writeBound then sh.(writeReady := false) else sh;
      Complete(cfg, sh, NwBind(k)) == Complete(cfg, sh1, EnqRecheck(k))
  {
    hide Complete, Continue, Ring.Shaped, Ring.NumInQueue, TryPut, Act;
    EnqueueGo(cfg, sh, NwBind(k));
    EnqueueGo(cfg, sh, NwClear(k));
  }

  lemma Recheck(cfg: Config, sh: Shared, k: Next)
    requires sh.ring.Shaped()
    ensures sh.ring.numEnts > 0
    ensures Complete(cfg, sh, EnqRecheck(k))
      == Complete(cfg, if sh.ring.NumInQueue() < sh.ring.lowWaterMark then MarkWritable(cfg, sh) else sh, Continue(k))
  {
    hide Complete, Continue, Ring.NumInQueue, TryPut, Act, MarkWritable;
    EnqueueGo(cfg, sh, EnqRecheck(k));
    MakeWritable(cfg, sh, k);
  }

  lemma MakeNonWritable(cfg: Config, sh: Shared, k: Next)
    requires sh.ring.Shaped()
    ensures var sh1 := if cfg.writeBound then sh.(writeReady := false) else sh;
      Complete(cfg, sh, NwBind(k))
      == Complete(cfg, if sh.ring.NumInQueue() < sh.ring.lowWaterMark then MarkWritable(cfg, sh1) else sh1, Continue(k))
  {
    hide *;
    MarkNonWritable(cfg, sh, k);
    Recheck(cfg, if cfg.writeBound then sh.(writeReady := false) else sh, k);
  }

  lemma Ends(cfg: Config, sh: Shared)
    requires sh.ring.Shaped()
    ensures Complete(cfg, sh, Continue(Done)) == Complete(cfg, sh, Idle) == sh
    ensures Complete(cfg, sh, Continue(ThenSignal)) == sh
    ensures Continue(ThenReadable) == MrSignal(Done) && Continue(ThenNonReadable) == NrBind(ThenSignal)
  {
    hide Ring.Shaped;
    DequeueGo(cfg, sh, FinalSignal);
  }

  /** The ready bits are exact. A FIFO marked readable has a message, and one that has a message and is masked in is
      marked readable. A FIFO marked writable is not full, and one that is not blocked and is masked in is marked
      writable; the former needs a low-water mark within the ring. */
  predicate Exact(cfg: Config, sh: Shared) {
    && (cfg.readBound ==>
          && (sh.readReady ==> !sh.ring.IsEmpty())
          && (sh.readMask && !sh.ring.IsEmpty() ==> sh.readReady))
    && (cfg.writeBound ==>
          && (cfg.lowWaterMark <= cfg.numEnts && sh.writeReady ==> !sh.ring.IsFull())
          && (sh.writeMask && !sh.ring.queueFull ==> sh.writeReady))
  }

  /** What an enqueue that took the ring to the state in `sh'` does to the bits. */
  function Announced(cfg: Config, sh': Shared, wasEmpty: bool): Shared
    requires sh'.ring.numEnts > 0
  {
    var sh1 := if cfg.writeBound then sh'.(writeReady := false) else sh';
    var sh2 := if !sh'.ring.IsFull() then sh' else if sh'.ring.NumInQueue() < sh'.ring.lowWaterMark
      then MarkWritable(cfg, sh1) else sh1;
    if wasEmpty then MarkReadable(cfg, sh2) else sh2
  }

  lemma AnnounceIs(cfg: Config, sh': Shared, wasEmpty: bool)
    requires sh'.ring.Shaped()
    ensures var k := if wasEmpty then ThenReadable else Done;
      && sh'.ring.numEnts > 0
      && Complete(cfg, sh', if sh'.ring.IsFull() then NwBind(k) else Continue(k)) == Announced(cfg, sh', wasEmpty)
  {
    assert sh'.ring.numEnts > 0;
    hide Complete, Continue, Ring.Shaped, Ring.NumInQueue, Ring.IsFull;
    var sh2 := Announced(cfg, sh', false);
    if sh'.ring.IsFull() {
      MakeNonWritable(cfg, sh', if wasEmpty then ThenReadable else Done);
    }
    Ends(cfg, sh2);
    if wasEmpty {
      MakeReadable(cfg, sh2, Done);
      Ends(cfg, MarkReadable(cfg, sh2));
    }
  }

  lemma EnqueueIs(cfg: Config, sh: Shared, m: Message)
    requires Sound(cfg, sh)
    ensures sh.ring.Shaped() && TryPut(sh, m, false).0.ring.numEnts > 0
    ensures Call(cfg, sh, Enqueue(m, false))
            == if sh.ring.IsFull() then sh else Announced(cfg, TryPut(sh, m, false).0, sh.ring.IsEmpty())
  {
    PutFacts(cfg, sh, m);
    hide TryPut, Complete, Announced, Sound, Ring.Valid, Ring.Shaped, Ring.NumInQueue, Ring.IsEmpty, Ring.IsFull;
    SoundIsValid(cfg, sh);
    AnnounceIs(cfg, TryPut(sh, m, false).0, sh.ring.IsEmpty());
    Ends(cfg, sh);
  }

  lemma EnqueueExact(cfg: Config, sh: Shared, m: Message)
    requires Sound(cfg, sh) && Exact(cfg, sh)
    ensures var r := Call(cfg, sh, Enqueue(m, false)); Sound(cfg, r) && Exact(cfg, r)
  {
    PutSound(cfg, sh, m, false);
    PutFacts(cfg, sh, m);
    EnqueueIs(cfg, sh, m);
    hide TryPut, Call, Sound, Ring.Valid, Ring.Shaped, Ring.NumInQueue, Ring.IsEmpty, Ring.IsFull;
    var sh' := TryPut(sh, m, false).0;
    SoundIsValid(cfg, sh');
    SoundSame(cfg, sh', Announced(cfg, sh', sh.ring.IsEmpty()));
  }

  /** A low-water mark above the number of entries is met by a full ring: the enqueue that fills a masked-in FIFO marks it
      non-writable if and only if the mark is not above the number of entries. */
  lemma FullIsNonWritable(cfg: Config, sh: Shared, m: Message)
    requires Sound(cfg, sh) && cfg.writeBound && sh.writeMask && |sh.ring.Contents()| + 1 == cfg.numEnts
    ensures var r := Call(cfg, sh, Enqueue(m, false));
      r.ring.IsFull() && (!r.writeReady <==> cfg.lowWaterMark <= cfg.numEnts)
  {
    PutSound(cfg, sh, m, false);
    PutFacts(cfg, sh, m);
    EnqueueIs(cfg, sh, m);
    PutFills(cfg, sh, m);
    hide TryPut, Call, Sound, Ring.Valid, Ring.Shaped, Ring.NumInQueue, Ring.IsEmpty, Ring.IsFull;
    SoundIsValid(cfg, TryPut(sh, m, false).0);
  }

  lemma PutFills(cfg: Config, sh: Shared, m: Message)
    requires Sound(cfg, sh) && |sh.ring.Contents()| + 1 == cfg.numEnts
    ensures !sh.ring.IsFull() && TryPut(sh, m, false).0.ring.IsFull()
  {
    hide Ring.Contents, Ring.Put, Ring.Occupancy, Ring.NumInQueue;
    StatusIsExact(sh.ring);
    PutAppends(sh.ring, m);
    PutKeepsSize(sh.ring, m);
    StatusIsExact(sh.ring.Put(m));
  }

  lemma PutFacts(cfg: Config, sh: Shared, m: Message)
    requires Sound(cfg, sh)
    ensures var (sh', pc) := TryPut(sh, m, false);
      && sh'.readReady == sh.readReady && sh'.readMask == sh.readMask
      && sh'.writeReady == sh.writeReady && sh'.writeMask == sh.writeMask
      && (sh.ring.IsFull() ==> sh' == sh && pc == Idle)
      && (!sh.ring.IsFull() ==>
            && !sh'.ring.IsEmpty()
            && (sh.ring.queueFull ==> sh'.ring.queueFull)
            && (sh'.ring.IsFull() ==> sh'.ring.queueFull && sh'.ring.NumInQueue() == cfg.numEnts)
            && (!sh'.ring.IsFull() ==> sh'.ring.queueFull == sh.ring.queueFull)
            && var k := if sh.ring.IsEmpty() then ThenReadable else Done;
            && pc == (if sh'.ring.IsFull() then NwBind(k) else Continue(k)))
  {
    hide Ring.Contents, Ring.Put, Ring.Occupancy, Ring.NumInQueue, Continue;
    StatusIsExact(sh.ring);
    if !sh.ring.IsFull() {
      PutAppends(sh.ring, m);
      PutKeepsSize(sh.ring, m);
      StatusIsExact(sh.ring.Put(m));
    }
  }

  lemma TakeFacts(cfg: Config, sh: Shared)
    requires Sound(cfg, sh)
    ensures var (sh', pc) := TryTake(sh, false);
      && sh'.readReady == sh.readReady && sh'.readMask == sh.readMask
      && sh'.writeReady == sh.writeReady && sh'.writeMask == sh.writeMask
      && (sh.ring.IsEmpty() ==> sh' == sh && pc == NrBind(Done))
      && (!sh.ring.IsEmpty() ==>
            && !sh'.ring.IsFull()
            && (sh'.ring.queueFull ==> sh.ring.queueFull)
            && pc == (if sh.ring.queueFull && !sh'.ring.queueFull
                      then MwSignal(if sh'.ring.IsEmpty() then ThenNonReadable else ThenSignal)
                      else if sh'.ring.IsEmpty() then NrBind(Done) else Idle))
  {
    hide Ring.Contents, Ring.Take, Ring.Occupancy, Ring.NumInQueue;
    StatusIsExact(sh.ring);
    if !sh.ring.IsEmpty() {
      TakeRemovesFirst(sh.ring);
      TakeKeepsSize(sh.ring);
      StatusIsExact(sh.ring.Take());
    }
  }

  /** What a dequeue that took the ring to the state in `sh'` does to the bits. */
  function Withdrawn(cfg: Config, sh': Shared, unblocked: bool): Shared {
    var sh1 := if unblocked then MarkWritable(cfg, sh') else sh';
    if sh'.ring.IsEmpty() && cfg.readBound then sh1.(readReady := false) else sh1
  }

  lemma DequeueIs(cfg: Config, sh: Shared)
    requires Sound(cfg, sh)
    ensures sh.ring.Shaped()
    ensures var sh' := TryTake(sh, false).0;
      Call(cfg, sh, Dequeue(false)) == Withdrawn(cfg, sh', sh.ring.queueFull && !sh'.ring.queueFull)
  {
    var (sh', pc) := TryTake(sh, false);
    TakeSound(cfg, sh, false);
    TakeFacts(cfg, sh);
    hide TryTake, Complete, Continue, Sound, Ring.Valid, Ring.Shaped, Ring.IsEmpty, Ring.IsFull;
    SoundIsValid(cfg, sh);
    SoundIsValid(cfg, sh');
    var unblocked := sh.ring.queueFull && !sh'.ring.queueFull;
    var sh1 := if unblocked then MarkWritable(cfg, sh') else sh';
    if unblocked {
      MakeWritable(cfg, sh', if sh'.ring.IsEmpty() then ThenNonReadable else ThenSignal);
    }
    Ends(cfg, sh1);
    if sh'.ring.IsEmpty() {
      MakeNonReadable(cfg, sh1, if unblocked then ThenSignal else Done);
    }
    Ends(cfg, Withdrawn(cfg, sh', unblocked));
  }

  lemma DequeueExact(cfg: Config, sh: Shared)
    requires Sound(cfg, sh) && Exact(cfg, sh)
    ensures var r := Call(cfg, sh, Dequeue(false)); Sound(cfg, r) && Exact(cfg, r)
  {
    TakeSound(cfg, sh, false);
    TakeFacts(cfg, sh);
    DequeueIs(cfg, sh);
    hide TryTake, Call, Sound, Ring.Valid, Ring.Shaped, Ring.IsEmpty, Ring.IsFull;
    var sh' := TryTake(sh, false).0;
    SoundSame(cfg, sh', Withdrawn(cfg, sh', sh.ring.queueFull && !sh'.ring.queueFull));
  }

  lemma EnableReadExact(cfg: Config, sh: Shared)
    requires Sound(cfg, sh) && Exact(cfg, sh)
    ensures var r := Call(cfg, sh, EnableRead); Sound(cfg, r) && Exact(cfg, r)
  {
    StatusStep(sh);
    hide Complete, Sound, Ring.Valid, Ring.Shaped, Ring.NumInQueue, Ring.IsEmpty, Ring.IsFull, WindowOk, Continue;
    SoundIsValid(cfg, sh);
    var on := sh.(readMask := true);
    CheckGo(cfg, on, ReadCheck);
    MakeReadable(cfg, on, Done);
    Ends(cfg, sh);
    Ends(cfg, on);
    Ends(cfg, MarkReadable(cfg, on));
    SoundSame(cfg, sh, Call(cfg, sh, EnableRead));
  }

  lemma EnableWriteExact(cfg: Config, sh: Shared)
    requires Sound(cfg, sh) && Exact(cfg, sh)
    ensures var r := Call(cfg, sh, EnableWrite); Sound(cfg, r) && Exact(cfg, r)
  {
    StatusIsExact(sh.ring);
    hide Complete, Sound, Ring.Valid, Ring.Shaped, Ring.Contents, Ring.Avail, Ring.IsEmpty, Ring.IsFull, Continue;
    SoundIsValid(cfg, sh);
    BlockedIfFull(sh.ring);
    var on := sh.(writeMask := true);
    CheckGo(cfg, on, WriteCheck);
    MakeWritable(cfg, on, Done);
    Ends(cfg, sh);
    Ends(cfg, on);
    Ends(cfg, MarkWritable(cfg, on));
    SoundSame(cfg, sh, Call(cfg, sh, EnableWrite));
  }

  lemma BlockedIfFull(r: Ring)
    ensures r.IsFull() ==> r.queueFull
  {
  }

  lemma OtherExact(cfg: Config, sh: Shared, call: Call)
    requires Sound(cfg, sh) && Exact(cfg, sh) && (call.DisableRead? || call.DisableWrite? || call.Poll?)
    ensures var r := Call(cfg, sh, call); Sound(cfg, r) && Exact(cfg, r)
  {
    hide Sound, Ring.Valid, Ring.Shaped, Ring.Contents, Ring.IsEmpty, Ring.IsFull, TryPut, TryTake, Act;
    SoundIsValid(cfg, sh);
    SoundSame(cfg, sh, Call(cfg, sh, call));
  }

  /** The state after calls made one after the other. */
  function Calls(cfg: Config, calls: seq<Call>): (r: Shared)
    requires cfg.Valid()
    ensures r.ring.Shaped()
  {
    if calls == [] then Init(cfg).sh else Call(cfg, Calls(cfg, calls[..|calls| - 1]), calls[|calls| - 1])
  }

  /** After any sequence of calls, none of them waiting for the FIFO and none overlapping another, the ready bits are
      exact. */
  lemma {:induction false} SequentialExact(cfg: Config, calls: seq<Call>)
    requires cfg.Valid() && forall i :: 0 <= i < |calls| && (calls[i].Enqueue? || calls[i].Dequeue?) ==> !calls[i].wait
    ensures Sound(cfg, Calls(cfg, calls)) && Exact(cfg, Calls(cfg, calls))
    decreases |calls|
  {
    hide Call, Sound, Exact;
    if calls == [] {
      FreshExact(cfg);
    } else {
      var call := calls[|calls| - 1];
      SequentialExact(cfg, calls[..|calls| - 1]);
      var sh := Calls(cfg, calls[..|calls| - 1]);
      match call
      case Enqueue(m, wait) => EnqueueExact(cfg, sh, m);
      case Dequeue(wait) => DequeueExact(cfg, sh);
      case EnableRead => EnableReadExact(cfg, sh);
      case EnableWrite => EnableWriteExact(cfg, sh);
      case _ => OtherExact(cfg, sh, call);
    }
  }

  lemma FreshExact(cfg: Config)
    requires cfg.Valid()
    ensures Sound(cfg, Init(cfg).sh) && Exact(cfg, Init(cfg).sh)
  {
  }
}
