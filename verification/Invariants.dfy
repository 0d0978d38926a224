/** What every step of the protocol keeps. */
module Invariants {
  import opened Ring
  import opened Protocol

  /** The ring is sound and no message has been lost, repeated or reordered. */
  predicate Sound(cfg: Config, sh: Shared) {
    && sh.ring.Valid() && sh.ring.numEnts == cfg.numEnts && sh.ring.lowWaterMark == cfg.lowWaterMark
    && sh.sent == sh.received + sh.ring.Contents()
  }

  lemma PutSound(cfg: Config, sh: Shared, m: Message, wait: bool)
    requires Sound(cfg, sh)
    ensures Sound(cfg, TryPut(sh, m, wait).0)
  {
    hide Ring.Put, Ring.Contents, Ring.Occupancy;
    if !sh.ring.IsFull() {
      PutAppends(sh.ring, m);
      PutKeepsSize(sh.ring, m);
    }
  }

  lemma TakeSound(cfg: Config, sh: Shared, wait: bool)
    requires Sound(cfg, sh)
    ensures Sound(cfg, TryTake(sh, wait).0)
  {
    hide Ring.Take, Ring.Contents, Ring.Occupancy, Ring.Head;
    if !sh.ring.IsEmpty() {
      TakeRemovesFirst(sh.ring);
      TakeKeepsSize(sh.ring);
    }
  }

  /** Everybody but the thread that moves stays where it is, except that sleepers may be woken. */
  lemma Others(cfg: Config, s: State, e: Event)
    requires s.sh.ring.Shaped() && Enabled(cfg, s, e)
    ensures var s' := Do(cfg, s, e);
      && s'.sh == Local(cfg, s.sh, s.threads[e.t], e).0
      && s'.threads[e.t] == Local(cfg, s.sh, s.threads[e.t], e).1
      && forall i :: 0 <= i < |s.threads| && i != e.t ==>
           s'.threads[i] == s.threads[i] || (Asleep(s.threads[i]) && s'.threads[i] == Awake(s.threads[i]))
  {
    hide Local, Enabled;
    EnabledThread(cfg, s, e);
  }

  lemma EnabledThread(cfg: Config, s: State, e: Event)
    requires Enabled(cfg, s, e)
    ensures e.t < |s.threads|
  {
  }

  predicate HasNext(pc: Pc, k: Next) {
    match pc
    case NwBind(j) => j == k
    case NwClear(j) => j == k
    case EnqRecheck(j) => j == k
    case MwSignal(j) => j == k
    case MwBind(j) => j == k
    case MwSet(j) => j == k
    case MwGroup(j) => j == k
    case _ => false
  }

  /** An enqueue that filled the ring and has yet to check whether it still is above the low-water mark. */
  predicate InWindow(pc: Pc) {
    pc.NwBind? || pc.NwClear? || pc.EnqRecheck?
  }

  predicate WindowOk(sh: Shared)
    requires sh.ring.numEnts > 0
  {
    !sh.ring.queueFull ==> sh.ring.NumInQueue() < sh.ring.lowWaterMark
  }

  /** What the sections that use the ring do to the conditions that the protocol is about. */
  lemma PutStep(sh: Shared, m: Message, wait: bool)
    requires sh.ring.Valid()
    ensures var (sh', pc') := TryPut(sh, m, wait);
      && sh'.readReady == sh.readReady && sh'.readMask == sh.readMask
      && sh'.writeReady == sh.writeReady && sh'.writeMask == sh.writeMask
      && (sh.ring.queueFull ==> sh'.ring.queueFull)
      && (pc'.EnqSleep? ==> sh' == sh && sh.ring.queueFull)
      && (sh' == sh || (!sh'.ring.IsEmpty() && (sh.ring.IsEmpty() ==> pc'.MrSignal? || HasNext(pc', ThenReadable))))
      && (pc'.NwBind? || pc'.MrSignal? || pc'.Idle? || pc' == EnqSleep(m))
      && (pc'.NwBind? ==> sh'.ring.queueFull)
      && sh'.ring.numEnts > 0
  {
    hide Ring.Contents, Ring.Put, Ring.Occupancy, Ring.NumInQueue, Ring.Avail;
    StatusIsExact(sh.ring);
    if !sh.ring.IsFull() {
      PutAppends(sh.ring, m);
      PutKeepsSize(sh.ring, m);
      StatusIsExact(sh.ring.Put(m));
    }
  }

  lemma TakeStep(sh: Shared, wait: bool)
    requires sh.ring.Valid()
    ensures var (sh', pc') := TryTake(sh, wait);
      && sh'.readReady == sh.readReady && sh'.readMask == sh.readMask
      && sh'.writeReady == sh.writeReady && sh'.writeMask == sh.writeMask
      && (pc' == DeqSleep ==> sh' == sh && sh.ring.IsEmpty())
      && (sh' == sh || !sh.ring.IsEmpty())
      && (sh.ring.queueFull && !sh'.ring.queueFull ==> pc'.MwSignal?)
      && (pc'.MwSignal? || pc'.NrBind? || pc'.Idle? || pc'.DeqSleep?) && !HasNext(pc', ThenReadable)
      && sh'.ring.numEnts > 0 && (WindowOk(sh) ==> WindowOk(sh'))
  {
    hide Ring.Contents, Ring.Take, Ring.Occupancy, Ring.NumInQueue, Ring.Avail;
    if !sh.ring.IsEmpty() {
      StatusIsExact(sh.ring);
      TakeRemovesFirst(sh.ring);
      TakeKeepsSize(sh.ring);
      StatusIsExact(sh.ring.Take());
    }
  }

  lemma ValidShaped(r: Ring)
    requires r.Valid()
    ensures r.Shaped() && r.numEnts > 0
  {
  }

  lemma SoundIsValid(cfg: Config, sh: Shared)
    requires Sound(cfg, sh)
    ensures sh.ring.Valid() && sh.ring.Shaped() && sh.ring.numEnts == cfg.numEnts > 0
    ensures sh.ring.lowWaterMark == cfg.lowWaterMark
  {
  }

  lemma StatusStep(sh: Shared)
    requires sh.ring.Valid()
    ensures sh.ring.NumInQueue() != 0 <==> !sh.ring.IsEmpty()
    ensures sh.ring.Avail() == 0 ==> sh.ring.queueFull
    ensures sh.ring.lowWaterMark >= sh.ring.numEnts ==> WindowOk(sh)
  {
    hide Ring.Contents, Ring.NumInQueue, Ring.Avail;
    StatusIsExact(sh.ring);
  }

  /** The thread is in a state in which it can take this step. */
  predicate Fits(pc: Pc, e: Event) {
    match e
    case Start(_, _) => pc.Idle?
    case Go(_, _, _) => !pc.Idle? && !Asleep(pc)
    case Spurious(_) => Asleep(pc)
  }

  // Readability

  /** The FIFO has a message, is bound and masked in, and its ready bit is clear. */
  predicate Unreadable(cfg: Config, sh: Shared) {
    cfg.readBound && sh.readMask && !sh.ring.IsEmpty() && !sh.readReady
  }

  /** A thread that will set the bit, or will look at the ring again. */
  predicate WillRead(pc: Pc) {
    pc.MrSignal? || pc.MrBind? || pc.MrSet? || pc.NrRecheck? || pc.ReadCheck? || HasNext(pc, ThenReadable)
  }

  // Writability

  /** The FIFO takes messages, is bound and masked in, and its ready bit is clear. */
  predicate Unwritable(cfg: Config, sh: Shared) {
    cfg.writeBound && sh.writeMask && !sh.ring.queueFull && !sh.writeReady
  }

  predicate WillWrite(pc: Pc) {
    pc.MwSignal? || pc.MwBind? || pc.MwSet? || pc.EnqRecheck? || pc.WriteCheck?
  }

  // Threads that sleep

  /** A thread on its way to signal the consumers. */
  predicate WillWakeConsumer(pc: Pc) {
    pc.MrSignal? || HasNext(pc, ThenReadable)
  }

  /** The FIFO would be reported to a poller of its read group, if its ready bit were right. */
  predicate ReadWork(cfg: Config, sh: Shared) {
    cfg.readBound && sh.readMask && !sh.ring.IsEmpty()
  }

  predicate WriteWork(cfg: Config, sh: Shared) {
    cfg.writeBound && sh.writeMask && !sh.ring.queueFull
  }

  /** A poller of the group would find this FIFO. */
  predicate Reported(cfg: Config, sh: Shared, group: nat) {
    || (cfg.readBound && group == cfg.readGroup && sh.readReady && sh.readMask)
    || (cfg.writeBound && group == cfg.writeGroup && sh.writeReady && sh.writeMask)
  }

  /** The read side of a step from (sh, pc) to (sh', pc'): if the FIFO needs attention afterwards, the thread itself
      is going to see to it, or it needed attention before and the thread was not going to see to it. */
  predicate ReadSide(cfg: Config, sh: Shared, pc: Pc, sh': Shared, pc': Pc) {
    && (Unreadable(cfg, sh') ==> WillRead(pc') || (Unreadable(cfg, sh) && !WillRead(pc)))
    && (ReadWork(cfg, sh') ==> WillRead(pc') || pc'.MrGroup? || pc.MrGroup? || (ReadWork(cfg, sh) && !WillRead(pc)))
  }

  /** Falling asleep, and waking those who sleep. */
  predicate SleepSide(cfg: Config, sh: Shared, pc: Pc, sh': Shared, pc': Pc) {
    && (pc'.EnqSleep? ==> sh'.ring.queueFull)
    && (!sh'.ring.queueFull ==> !sh.ring.queueFull || pc'.MwSignal?)
    && (pc'.DeqSleep? ==> sh'.ring.IsEmpty())
    && (!sh'.ring.IsEmpty() ==> !sh.ring.IsEmpty() || WillWakeConsumer(pc'))
    && (WillWakeConsumer(pc) ==> WillWakeConsumer(pc') || pc.MrSignal?)
    && (pc'.PollSleep? ==> sh' == sh && !Reported(cfg, sh, pc'.group) && !WillRead(pc) && !WillWrite(pc))
  }

  /** The write side. Only an enqueue can spoil the window condition. */
  predicate WriteSide(cfg: Config, sh: Shared, pc: Pc, sh': Shared, pc': Pc)
    requires sh.ring.numEnts > 0 && sh'.ring.numEnts > 0
  {
    && (Unwritable(cfg, sh') ==> WillWrite(pc') || (Unwritable(cfg, sh) && !WillWrite(pc)))
    && (WriteWork(cfg, sh') ==> WillWrite(pc') || pc'.MwGroup? || pc.MwGroup? || (WriteWork(cfg, sh) && !WillWrite(pc)))
    && (InWindow(pc') ==> WindowOk(sh'))
  }

  /** Where a call goes on is never in the middle of something, and only the enqueue into an empty FIFO goes on to make
      it readable. */
  lemma ContinueFacts()
    ensures forall k {:trigger Continue(k)} :: var pc := Continue(k);
      && !WillWrite(pc) && !InWindow(pc) && !pc.MrGroup? && !pc.MwGroup? && !HasNext(pc, ThenReadable) && !Asleep(pc)
      && !pc.EnqWoken? && !pc.DeqWoken? && !pc.PollWoken?
      && (WillRead(pc) <==> k == ThenReadable) && (pc.MrSignal? <==> k == ThenReadable)
  {
  }

  /** Waiting and the window belong to the threads that may make the call. */
  predicate InRole(cfg: Config, t: nat, pc: Pc) {
    && (pc.EnqSleep? || pc.EnqWoken? || InWindow(pc) ==> t in cfg.producers)
    && (pc.DeqSleep? || pc.DeqWoken? ==> t in cfg.consumers)
    && (pc.PollSleep? || pc.PollWoken? ==> t in cfg.pollers)
  }

  /** What a step of thread `t` from (sh, pc) to (sh', pc') keeps. */
  predicate StepOk(cfg: Config, t: nat, sh: Shared, pc: Pc, sh': Shared, pc': Pc)
    requires sh.ring.numEnts > 0 && sh'.ring.numEnts > 0
  {
    && ReadSide(cfg, sh, pc, sh', pc')
    && SleepSide(cfg, sh, pc, sh', pc')
    && ((InWindow(pc) ==> WindowOk(sh)) ==> WriteSide(cfg, sh, pc, sh', pc'))
    && (InRole(cfg, t, pc) ==> InRole(cfg, t, pc'))
    && (InRole(cfg, t, pc) && WindowOk(sh) && !WindowOk(sh') ==> t in cfg.producers)
    && (InRole(cfg, t, pc) && sh.ring.queueFull && !sh'.ring.queueFull ==> t in cfg.consumers)
    && (InRole(cfg, t, pc) && sh.ring.IsEmpty() && !sh'.ring.IsEmpty() ==> t in cfg.producers)
    && (InWindow(pc') && !InWindow(pc) ==> sh'.ring.queueFull)
    && (Sound(cfg, sh) ==> Sound(cfg, sh'))
  }

  lemma PutOk(cfg: Config, t: nat, sh: Shared, pc: Pc, m: Message, wait: bool)
    requires sh.ring.Valid() && (pc.EnqWoken? || (pc.Idle? && t in cfg.producers))
    ensures var (sh', pc') := TryPut(sh, m, wait);
      sh'.ring.numEnts > 0 && StepOk(cfg, t, sh, pc, sh', pc')
  {
    hide TryPut, Ring.NumInQueue, Ring.IsEmpty, Ring.Valid, Ring.Shaped, Sound;
    ValidShaped(sh.ring);
    PutStep(sh, m, wait);
    if Sound(cfg, sh) { PutSound(cfg, sh, m, wait); }
  }

  lemma TakeOk(cfg: Config, t: nat, sh: Shared, pc: Pc, wait: bool)
    requires sh.ring.Valid() && (pc.DeqWoken? || (pc.Idle? && t in cfg.consumers))
    ensures var (sh', pc') := TryTake(sh, wait);
      sh'.ring.numEnts > 0 && StepOk(cfg, t, sh, pc, sh', pc')
  {
    hide TryTake, Ring.NumInQueue, Ring.IsEmpty, Ring.Valid, Ring.Shaped, Sound;
    ValidShaped(sh.ring);
    TakeStep(sh, wait);
    if Sound(cfg, sh) { TakeSound(cfg, sh, wait); }
  }

  lemma SoundSame(cfg: Config, sh: Shared, sh': Shared)
    requires sh'.ring == sh.ring && sh'.sent == sh.sent && sh'.received == sh.received
    ensures Sound(cfg, sh) <==> Sound(cfg, sh')
  {
  }

  lemma EnqueueOk(cfg: Config, t: nat, sh: Shared, pc: Pc)
    requires sh.ring.Valid() && InEnqueue(pc)
    ensures var (sh', pc') := EnqueueStep(cfg, sh, pc);
      sh'.ring.numEnts > 0 && StepOk(cfg, t, sh, pc, sh', pc')
  {
    hide TryPut, Ring.NumInQueue, Ring.IsEmpty, Ring.Valid, Ring.Shaped, Sound, Continue;
    ValidShaped(sh.ring);
    if pc.EnqWoken? {
      PutOk(cfg, t, sh, pc, pc.m, true);
    } else {
      ContinueFacts();
      SoundSame(cfg, sh, EnqueueStep(cfg, sh, pc).0);
    }
  }

  lemma WritableOk(cfg: Config, t: nat, sh: Shared, pc: Pc)
    requires sh.ring.Valid() && InMakeWritable(pc)
    ensures var (sh', pc') := WritableStep(cfg, sh, pc);
      sh'.ring.numEnts > 0 && StepOk(cfg, t, sh, pc, sh', pc')
  {
    hide Ring.NumInQueue, Ring.IsEmpty, Ring.Valid, Ring.Shaped, Sound, Continue;
    ValidShaped(sh.ring);
    ContinueFacts();
    SoundSame(cfg, sh, WritableStep(cfg, sh, pc).0);
  }

  lemma ReadableOk(cfg: Config, t: nat, sh: Shared, pc: Pc)
    requires sh.ring.Valid() && InMakeReadable(pc)
    ensures var (sh', pc') := ReadableStep(cfg, sh, pc);
      sh'.ring.numEnts > 0 && StepOk(cfg, t, sh, pc, sh', pc')
  {
    hide Ring.NumInQueue, Ring.IsEmpty, Ring.Valid, Ring.Shaped, Sound, Continue;
    ValidShaped(sh.ring);
    ContinueFacts();
    SoundSame(cfg, sh, ReadableStep(cfg, sh, pc).0);
  }

  lemma DequeueOk(cfg: Config, t: nat, sh: Shared, pc: Pc)
    requires sh.ring.Valid() && InDequeue(pc)
    ensures var (sh', pc') := DequeueStep(cfg, sh, pc);
      sh'.ring.numEnts > 0 && StepOk(cfg, t, sh, pc, sh', pc')
  {
    hide TryTake, Ring.NumInQueue, Ring.IsEmpty, Ring.Valid, Ring.Shaped, Sound, Continue;
    ValidShaped(sh.ring);
    if pc.DeqWoken? {
      TakeOk(cfg, t, sh, pc, true);
    } else {
      ContinueFacts();
      SoundSame(cfg, sh, DequeueStep(cfg, sh, pc).0);
    }
  }

  lemma PollingOk(cfg: Config, t: nat, sh: Shared, pc: Pc, other: bool)
    requires sh.ring.Valid() && (pc.ReadCheck? || pc.WriteCheck? || pc.PollWoken?)
    ensures var (sh', pc') := PollingStep(cfg, sh, pc, other);
      sh'.ring.numEnts > 0 && StepOk(cfg, t, sh, pc, sh', pc')
  {
    hide Ring.NumInQueue, Ring.Avail, Ring.IsEmpty, Ring.Valid, Ring.Shaped, Sound;
    ValidShaped(sh.ring);
    StatusStep(sh);
  }

  lemma BeginOk(cfg: Config, t: nat, sh: Shared, call: Call)
    requires sh.ring.Valid() && Allowed(cfg, t, call)
    ensures var (sh', pc') := Begin(cfg, sh, call);
      sh'.ring.numEnts > 0 && StepOk(cfg, t, sh, Idle, sh', pc')
  {
    hide TryPut, TryTake, Ring.NumInQueue, Ring.IsEmpty, Ring.Valid, Ring.Shaped, Sound;
    ValidShaped(sh.ring);
    match call
    case Enqueue(m, wait) => PutOk(cfg, t, sh, Idle, m, wait);
    case Dequeue(wait) => TakeOk(cfg, t, sh, Idle, wait);
    case _ => SoundSame(cfg, sh, Begin(cfg, sh, call).0);
  }

  lemma WakeOk(cfg: Config, t: nat, sh: Shared, pc: Pc)
    requires sh.ring.Valid() && Asleep(pc)
    ensures sh.ring.numEnts > 0 && StepOk(cfg, t, sh, pc, sh, Awake(pc))
  {
    hide Ring.NumInQueue, Ring.IsEmpty, Ring.Valid, Ring.Shaped, Sound;
    ValidShaped(sh.ring);
  }

  /** Every step of every thread keeps what it should. */
  lemma LocalOk(cfg: Config, s: State, e: Event)
    requires s.sh.ring.Valid() && Enabled(cfg, s, e)
    ensures var (sh', pc') := Local(cfg, s.sh, s.threads[e.t], e);
      sh'.ring.numEnts > 0 && StepOk(cfg, e.t, s.sh, s.threads[e.t], sh', pc')
  {
    hide Begin, EnqueueStep, WritableStep, ReadableStep, DequeueStep, PollingStep, StepOk, Ring.Valid, Ring.Shaped;
    ValidShaped(s.sh.ring);
    match e
    case Start(t, call) => BeginOk(cfg, t, s.sh, call);
    case Go(t, _, other) =>
      var pc := s.threads[t];
      if InEnqueue(pc) { EnqueueOk(cfg, t, s.sh, pc); }
      else if InMakeWritable(pc) { WritableOk(cfg, t, s.sh, pc); }
      else if InMakeReadable(pc) { ReadableOk(cfg, t, s.sh, pc); }
      else if InDequeue(pc) { DequeueOk(cfg, t, s.sh, pc); }
      else { PollingOk(cfg, t, s.sh, pc, other); }
    case Spurious(t) => WakeOk(cfg, t, s.sh, s.threads[t]);
  }
}
