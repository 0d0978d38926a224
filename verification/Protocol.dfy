/** A FIFO shared by threads, with its two poll groups. Every section that holds a mutex, and every signal, is one
    atomic step; each thread has a program counter. The bindings to poll groups are fixed. */
module Protocol {
  import opened Ring
  import opened Words

  /** Which threads may call what: `producers` enqueue, `consumers` dequeue, `pollers` poll; all may enable and
      disable polling. The FIFO is bound for reading to group `readGroup` if `readBound`, and likewise for writing. */
  datatype Config = Config(numEnts: nat, lowWaterMark: nat, queue: seq<Message>, threads: nat,
                           producers: set<nat>, consumers: set<nat>, pollers: set<nat>,
                           readBound: bool, readGroup: nat, writeBound: bool, writeGroup: nat) {
    predicate Valid() {
      0 < numEnts <= TWO31 && lowWaterMark > 0 && |queue| == numEnts
    }
  }

  /** The calls of the interface. `other` says whether some other poll number of the group is ready. */
  datatype Call =
    | Enqueue(m: Message, wait: bool)
    | Dequeue(wait: bool)
    | EnableRead | DisableRead | EnableWrite | DisableWrite
    | Poll(group: nat, wait: bool, other: bool)

  /** What a call still has to do after the function it is in. */
  datatype Next =
    | Done
    | ThenReadable      // enqueue into an empty FIFO: make it readable
    | ThenNonReadable   // dequeue of the last message, having unblocked producers
    | ThenSignal        // dequeue: signal the producers once more

  /** Where a thread stands: the step it takes next. */
  datatype Pc =
    | Idle
    | EnqSleep(m: Message) | EnqWoken(m: Message)                         // waiting for space
    | NwBind(k: Next) | NwClear(k: Next) | EnqRecheck(k: Next)            // mark_non_writable, then check again
    | MwSignal(k: Next) | MwBind(k: Next) | MwSet(k: Next) | MwGroup(k: Next)   // make_writable
    | MrSignal(k: Next) | MrBind(k: Next) | MrSet(k: Next) | MrGroup(k: Next)   // make_readable
    | DeqSleep | DeqWoken                                                 // waiting for a message
    | NrBind(k: Next) | NrClear(k: Next) | NrRecheck(k: Next)             // make_non_readable_after_dequeue
    | FinalSignal
    | ReadCheck | WriteCheck                                              // enable_read_poll, enable_write_poll
    | PollSleep(group: nat) | PollWoken(group: nat)

  /** The FIFO and its bits in `fifos_ready` and `fifos_mask`. `sent` and `received` record the messages put into
      the ring and taken out of it, in the order in which the mutex was held. */
  datatype Shared = Shared(ring: Ring, readReady: bool, readMask: bool, writeReady: bool, writeMask: bool,
                           sent: seq<Message>, received: seq<Message>)

  datatype State = State(sh: Shared, threads: seq<Pc>)

  function Continue(k: Next): Pc {
    match k
    case Done => Idle
    case ThenReadable => MrSignal(Done)
    case ThenNonReadable => NrBind(ThenSignal)
    case ThenSignal => FinalSignal
  }

  function TryPut(sh: Shared, m: Message, wait: bool): (r: (Shared, Pc))
    requires sh.ring.Shaped()
    ensures r.0.ring.Shaped()
  {
    if sh.ring.IsFull() then (sh, if wait then EnqSleep(m) else Idle)
    else
      var k := if sh.ring.producer == sh.ring.consumer then ThenReadable else Done;
      var ring := sh.ring.Put(m);
      (sh.(ring := ring, sent := sh.sent + [m]),
       if ring.consumer == ring.producer then NwBind(k) else Continue(k))
  }

  function TryTake(sh: Shared, wait: bool): (r: (Shared, Pc))
    requires sh.ring.Shaped()
    ensures r.0.ring.Shaped()
  {
    if sh.ring.IsEmpty() then (sh, if wait then DeqSleep else NrBind(Done))
    else
      var ring := sh.ring.Take();
      var nonReadable := ring.producer == ring.consumer;
      (sh.(ring := ring, received := sh.received + [sh.ring.Head()]),
       if sh.ring.queueFull && !ring.queueFull then MwSignal(if nonReadable then ThenNonReadable else ThenSignal)
       else if nonReadable then NrBind(Done) else Idle)
  }

  function TryPoll(cfg: Config, sh: Shared, group: nat, wait: bool, other: bool): Pc {
    if other || (cfg.readBound && group == cfg.readGroup && sh.readReady && sh.readMask)
       || (cfg.writeBound && group == cfg.writeGroup && sh.writeReady && sh.writeMask) then Idle
    else if wait then PollSleep(group) else Idle
  }

  /** The first section of a call. */
  function Begin(cfg: Config, sh: Shared, call: Call): (r: (Shared, Pc))
    requires sh.ring.Shaped()
    ensures r.0.ring.Shaped()
  {
    match call
    case Enqueue(m, wait) => TryPut(sh, m, wait)
    case Dequeue(wait) => TryTake(sh, wait)
    case EnableRead => if cfg.readBound then (sh.(readMask := true), ReadCheck) else (sh, Idle)
    case DisableRead => (if cfg.readBound then sh.(readMask := false) else sh, Idle)
    case EnableWrite => if cfg.writeBound then (sh.(writeMask := true), WriteCheck) else (sh, Idle)
    case DisableWrite => (if cfg.writeBound then sh.(writeMask := false) else sh, Idle)
    case Poll(group, wait, other) => (sh, TryPoll(cfg, sh, group, wait, other))
  }

  predicate InEnqueue(pc: Pc) {
    pc.EnqWoken? || pc.NwBind? || pc.NwClear? || pc.EnqRecheck?
  }

  predicate InMakeWritable(pc: Pc) {
    pc.MwSignal? || pc.MwBind? || pc.MwSet? || pc.MwGroup?
  }

  predicate InMakeReadable(pc: Pc) {
    pc.MrSignal? || pc.MrBind? || pc.MrSet? || pc.MrGroup?
  }

  predicate InDequeue(pc: Pc) {
    pc.DeqWoken? || pc.NrBind? || pc.NrClear? || pc.NrRecheck? || pc.FinalSignal?
  }

  /** The section a thread is about to run, and where it stands afterwards: in enqueue and mark_non_writable, */
  function EnqueueStep(cfg: Config, sh: Shared, pc: Pc): (r: (Shared, Pc))
    requires sh.ring.Shaped() && InEnqueue(pc)
    ensures r.0.ring.Shaped()
  {
    match pc
    case EnqWoken(m) => TryPut(sh, m, true)
    case NwBind(k) => (sh, if cfg.writeBound then NwClear(k) else EnqRecheck(k))
    case NwClear(k) => (sh.(writeReady := false), EnqRecheck(k))
    case EnqRecheck(k) => (sh, if sh.ring.NumInQueue() < sh.ring.lowWaterMark then MwSignal(k) else Continue(k))
  }

  /** in make_writable, */
  function WritableStep(cfg: Config, sh: Shared, pc: Pc): (r: (Shared, Pc))
    requires sh.ring.Shaped() && InMakeWritable(pc)
    ensures r.0.ring.Shaped()
  {
    match pc
    case MwSignal(k) => (sh, MwBind(k))
    case MwBind(k) => (sh, if cfg.writeBound then MwSet(k) else Continue(k))
    case MwSet(k) => if sh.writeMask then (sh.(writeReady := true), MwGroup(k)) else (sh, Continue(k))
    case MwGroup(k) => (sh, Continue(k))
  }

  /** in make_readable, */
  function ReadableStep(cfg: Config, sh: Shared, pc: Pc): (r: (Shared, Pc))
    requires sh.ring.Shaped() && InMakeReadable(pc)
    ensures r.0.ring.Shaped()
  {
    match pc
    case MrSignal(k) => (sh, MrBind(k))
    case MrBind(k) => (sh, if cfg.readBound then MrSet(k) else Continue(k))
    case MrSet(k) => if sh.readMask then (sh.(readReady := true), MrGroup(k)) else (sh, Continue(k))
    case MrGroup(k) => (sh, Continue(k))
  }

  /** in dequeue and make_non_readable_after_dequeue, */
  function DequeueStep(cfg: Config, sh: Shared, pc: Pc): (r: (Shared, Pc))
    requires sh.ring.Shaped() && InDequeue(pc)
    ensures r.0.ring.Shaped()
  {
    match pc
    case DeqWoken => TryTake(sh, true)
    case NrBind(k) => (sh, if cfg.readBound then NrClear(k) else NrRecheck(k))
    case NrClear(k) => (sh.(readReady := false), NrRecheck(k))
    case NrRecheck(k) => (sh, if !sh.ring.IsEmpty() then MrSignal(k) else Continue(k))
    case FinalSignal => (sh, Idle)
  }

  /** and in the calls that enable polling and that poll. */
  function PollingStep(cfg: Config, sh: Shared, pc: Pc, other: bool): (r: (Shared, Pc))
    requires sh.ring.Shaped()
    ensures r.0.ring.Shaped()
  {
    match pc
    case ReadCheck => (sh, if sh.ring.NumInQueue() != 0 then MrSignal(Done) else Idle)
    case WriteCheck => (sh, if sh.ring.Avail() != 0 then MwSignal(Done) else Idle)
    case PollWoken(group) => (sh, TryPoll(cfg, sh, group, true, other))
    case _ => (sh, pc)
  }

  function Act(cfg: Config, sh: Shared, pc: Pc, other: bool): (r: (Shared, Pc))
    requires sh.ring.Shaped()
    ensures r.0.ring.Shaped()
  {
    if InEnqueue(pc) then EnqueueStep(cfg, sh, pc)
    else if InMakeWritable(pc) then WritableStep(cfg, sh, pc)
    else if InMakeReadable(pc) then ReadableStep(cfg, sh, pc)
    else if InDequeue(pc) then DequeueStep(cfg, sh, pc)
    else PollingStep(cfg, sh, pc, other)
  }

  /** Condition variables: who waits for one, and which steps signal one. */
  datatype Cond = NoCond | ProducerCond | ConsumerCond | GroupCond(group: nat)

  function WaitsFor(pc: Pc): Cond {
    match pc
    case EnqSleep(_) => ProducerCond
    case DeqSleep => ConsumerCond
    case PollSleep(group) => GroupCond(group)
    case _ => NoCond
  }

  function Signals(cfg: Config, pc: Pc): Cond {
    match pc
    case MwSignal(_) => ProducerCond
    case FinalSignal => ProducerCond
    case MrSignal(_) => ConsumerCond
    case MrGroup(_) => GroupCond(cfg.readGroup)
    case MwGroup(_) => GroupCond(cfg.writeGroup)
    case _ => NoCond
  }

  predicate Asleep(pc: Pc) {
    WaitsFor(pc) != NoCond
  }

  function Awake(pc: Pc): Pc {
    match pc
    case EnqSleep(m) => EnqWoken(m)
    case DeqSleep => DeqWoken
    case PollSleep(group) => PollWoken(group)
    case _ => pc
  }

  /** One waiter of the condition signalled wakes up, if there is one. `woken` is the scheduler's choice; a choice
      that is no waiter while another thread is one is not possible. */
  predicate CanSignal(threads: seq<Pc>, cond: Cond, woken: nat) {
    cond != NoCond && (exists i :: 0 <= i < |threads| && WaitsFor(threads[i]) == cond) ==>
      woken < |threads| && WaitsFor(threads[woken]) == cond
  }

  function Signal(threads: seq<Pc>, cond: Cond, woken: nat): (r: seq<Pc>)
    ensures |r| == |threads|
  {
    if cond != NoCond && woken < |threads| && WaitsFor(threads[woken]) == cond
    then threads[woken := Awake(threads[woken])] else threads
  }

  /** A step of thread `t`: it begins a call, runs its next section, or wakes up without a signal. */
  datatype Event =
    | Start(t: nat, call: Call)
    | Go(t: nat, woken: nat, other: bool)
    | Spurious(t: nat)

  predicate Allowed(cfg: Config, t: nat, call: Call) {
    match call
    case Enqueue(_, _) => t in cfg.producers
    case Dequeue(_) => t in cfg.consumers
    case Poll(_, _, _) => t in cfg.pollers
    case _ => true
  }

  predicate Enabled(cfg: Config, s: State, e: Event) {
    && e.t < |s.threads|
    && match e
       case Start(t, call) => s.threads[t].Idle? && Allowed(cfg, t, call)
       case Go(t, woken, _) =>
         !s.threads[t].Idle? && !Asleep(s.threads[t]) && CanSignal(s.threads, Signals(cfg, s.threads[t]), woken)
       case Spurious(t) => Asleep(s.threads[t])
  }

  /** What the thread itself does. */
  function Local(cfg: Config, sh: Shared, pc: Pc, e: Event): (r: (Shared, Pc))
    requires sh.ring.Shaped()
    ensures r.0.ring.Shaped()
  {
    match e
    case Start(_, call) => Begin(cfg, sh, call)
    case Go(_, _, other) => Act(cfg, sh, pc, other)
    case Spurious(_) => (sh, Awake(pc))
  }

  /** An event that is not enabled does nothing, so that every sequence of events is a run. */
  function Do(cfg: Config, s: State, e: Event): (r: State)
    requires s.sh.ring.Shaped()
    ensures r.sh.ring.Shaped() && |r.threads| == |s.threads|
  {
    if !Enabled(cfg, s, e) then s
    else
      var pc := s.threads[e.t];
      var (sh, pc') := Local(cfg, s.sh, pc, e);
      State(sh, Signal(s.threads, Signals(cfg, pc), if e.Go? then e.woken else 0)[e.t := pc'])
  }

  function Init(cfg: Config): State {
    State(Shared(New(cfg.numEnts, cfg.lowWaterMark, cfg.queue), false, false, false, false, [], []),
          seq(cfg.threads, _ => Idle))
  }

  /** The state after a run. */
  function After(cfg: Config, run: seq<Event>): (s: State)
    requires cfg.Valid()
    ensures s.sh.ring.Shaped() && |s.threads| == cfg.threads
  {
    if run == [] then Init(cfg) else Do(cfg, After(cfg, run[..|run| - 1]), run[|run| - 1])
  }

  /** No call is in progress except those that wait for a signal. */
  predicate Quiescent(s: State) {
    forall t :: 0 <= t < |s.threads| ==> s.threads[t].Idle? || Asleep(s.threads[t])
  }
}
