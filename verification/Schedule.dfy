/** Building runs: a thread begins a call, takes a step, and goes on to the end of its call, the others standing where they
    stand. */
module Schedule {
  import opened Ring
  import opened Protocol
  import opened Invariants
  import opened Safety
  import opened Sleeping
  import opened Progress

  /** The bits of the FIFO in the mask and in the ready map of the group it is bound to for writing. */
  datatype Marks = Marks(mask: bool, ready: bool)

  const OFF := Marks(false, false)

  /** The threads stand at `ts`, there are `n` messages and read polling is disabled. */
  ghost predicate At(cfg: Config, s: State, ts: seq<Pc>, n: nat, full: bool, w: Marks) {
    && s.threads == ts
    && Sound(cfg, s.sh) && |s.sh.ring.Contents()| == n && s.sh.ring.queueFull == full
    && !s.sh.readMask && s.sh.writeMask == w.mask && s.sh.writeReady == w.ready
  }

  function Idlers(cfg: Config): seq<Pc> {
    seq(cfg.threads, _ => Idle)
  }

  lemma Start0(cfg: Config)
    requires cfg.Valid()
    ensures At(cfg, After(cfg, []), Idlers(cfg), 0, false, OFF)
  {
    InitSound(cfg);
    StatusIsExact(Init(cfg).sh.ring);
  }

  lemma StatusAt(cfg: Config, sh: Shared)
    requires Sound(cfg, sh)
    ensures var n := |sh.ring.Contents()|;
      && sh.ring.Shaped() && (sh.ring.IsEmpty() <==> n == 0)
      && (sh.ring.IsFull() <==> n == cfg.numEnts) && n <= cfg.numEnts
  {
    StatusIsExact(sh.ring);
  }

  lemma Then(cfg: Config, run: seq<Event>, e: Event) returns (run': seq<Event>)
    requires cfg.Valid()
    ensures After(cfg, run') == Do(cfg, After(cfg, run), e)
  {
    hide Do;
    run' := run + [e];
    assert run'[..|run'| - 1] == run;
  }

  /** A thread begins a call. */
  lemma Begins(cfg: Config, run: seq<Event>, t: nat, call: Call) returns (run': seq<Event>)
    requires cfg.Valid() && t < cfg.threads && After(cfg, run).threads[t].Idle? && Allowed(cfg, t, call)
    ensures var s, s' := After(cfg, run), After(cfg, run');
      var (sh, pc) := Begin(cfg, s.sh, call);
      s' == State(sh, s.threads[t := pc])
  {
    hide After, Begin;
    run' := Then(cfg, run, Start(t, call));
  }

  /** A thread goes on, and no thread waits for what it signals. */
  lemma Moves(cfg: Config, run: seq<Event>, t: nat) returns (run': seq<Event>)
    requires cfg.Valid() && t < cfg.threads
    requires var s := After(cfg, run);
      var pc := s.threads[t];
      && !pc.Idle? && !Asleep(pc)
      && forall i :: 0 <= i < |s.threads| ==> WaitsFor(s.threads[i]) != Signals(cfg, pc) || Signals(cfg, pc) == NoCond
    ensures var s, s' := After(cfg, run), After(cfg, run');
      var (sh, pc) := Act(cfg, s.sh, s.threads[t], false);
      s' == State(sh, s.threads[t := pc])
  {
    hide After, Act, Signals;
    run' := Then(cfg, run, Go(t, 0, false));
  }

  /** A thread goes on and wakes `w`. */
  lemma Wakes(cfg: Config, run: seq<Event>, t: nat, w: nat) returns (run': seq<Event>)
    requires cfg.Valid() && t < cfg.threads && w < cfg.threads
    requires var s := After(cfg, run); Signals(cfg, s.threads[t]) == WaitsFor(s.threads[w]) != NoCond
    ensures var s, s' := After(cfg, run), After(cfg, run');
      var (sh, pc) := Act(cfg, s.sh, s.threads[t], false);
      s' == State(sh, s.threads[w := Awake(s.threads[w])][t := pc])
  {
    SignalsNotAsleep(cfg, After(cfg, run).threads[t]);
    hide After, Act, Signals, Awake;
    run' := Then(cfg, run, Go(t, w, false));
  }

  // A call that goes on to its end

  /** The call will neither signal `who` nor a poll group before it ends or is at the last signal; `NoCond` is nobody. */
  predicate Silent(who: Cond, pc: Pc) {
    || pc.Idle? || pc.FinalSignal?
    || (who == NoCond && (InWindow(pc) || pc.MwSignal? || pc.MwBind? || pc.MwSet?) && (pc.k == Done || pc.k == ThenReadable))
    || (who == NoCond && (pc.MrSignal? || pc.MrBind? || pc.MrSet?) && pc.k == Done)
    || (who == ConsumerCond && (InWindow(pc) || pc.MwSignal? || pc.MwBind? || pc.MwSet? || pc.MrBind? || pc.MrSet?)
        && (pc.k == Done || pc.k == ThenSignal))
    || (who == ProducerCond && (pc.MrSignal? || pc.MrBind? || pc.MrSet? || pc.NrBind? || pc.NrClear? || pc.NrRecheck?)
        && (pc.k == Done || pc.k == ThenSignal))
    || (who == ProducerCond && (pc.MwBind? || pc.MwSet?) && pc.k != ThenReadable)
  }

  /** What is left of the call may change the ready bit for writing. */
  predicate Writes(pc: Pc) {
    InWindow(pc) || pc.MwSignal? || pc.MwBind? || pc.MwSet?
  }

  function End(who: Cond, pc: Pc): Pc
    requires Silent(who, pc)
  {
    if pc.Idle? || (!pc.FinalSignal? && (pc.k == Done || pc.k == ThenReadable)) then Idle else FinalSignal
  }

  lemma SilentStep(cfg: Config, sh: Shared, pc: Pc, who: Cond)
    requires sh.ring.Shaped() && Silent(who, pc) && !pc.Idle? && !pc.FinalSignal?
    requires !sh.readMask && (sh.writeMask ==> !Writes(pc))
    ensures var pc' := Act(cfg, sh, pc, false).1;
      Silent(who, pc') && End(who, pc') == End(who, pc) && (sh.writeMask ==> !Writes(pc'))
  {
    hide TryPut, TryTake, Ring.NumInQueue, Ring.IsEmpty, Ring.Shaped;
  }

  lemma SilentSignals(cfg: Config, pc: Pc, who: Cond)
    requires Silent(who, pc)
    ensures !Asleep(pc)
    ensures !pc.FinalSignal? ==> var cond := Signals(cfg, pc); cond == NoCond || (cond != who && !cond.GroupCond?)
  {
  }

  lemma SilentKeeps(cfg: Config, sh: Shared, pc: Pc, who: Cond)
    requires sh.ring.Shaped() && Silent(who, pc) && !sh.readMask && if sh.writeMask then !Writes(pc) else !sh.writeReady
    ensures var sh' := Act(cfg, sh, pc, false).0;
      && sh'.ring == sh.ring && sh'.sent == sh.sent && sh'.received == sh.received && !sh'.readMask
      && sh'.writeMask == sh.writeMask && sh'.writeReady == sh.writeReady
  {
    hide TryPut, TryTake, Continue, Ring.NumInQueue, Ring.IsEmpty, Ring.Shaped;
  }

  /** Only threads that wait for `who` are asleep. */
  ghost predicate Only(who: Cond, ts: seq<Pc>) {
    forall i :: 0 <= i < |ts| ==> WaitsFor(ts[i]) == NoCond || WaitsFor(ts[i]) == who
  }

  /** One step of a call that will not signal `who`. */
  lemma SettleStep(cfg: Config, run: seq<Event>, ts: seq<Pc>, n: nat, full: bool, t: nat, who: Cond,
    w: Marks)
    returns (run': seq<Event>, pc': Pc)
    requires cfg.Valid() && At(cfg, After(cfg, run), ts, n, full, w) && t < |ts| && Silent(who, ts[t]) && Only(who, ts)
    requires !ts[t].Idle? && !ts[t].FinalSignal? && if w.mask then !Writes(ts[t]) else !w.ready
    ensures At(cfg, After(cfg, run'), ts[t := pc'], n, full, w) && Only(who, ts[t := pc'])
    ensures Silent(who, pc') && End(who, pc') == End(who, ts[t]) && Rank(pc') < Rank(ts[t]) && (w.mask ==> !Writes(pc'))
  {
    var pc, sh := ts[t], After(cfg, run).sh;
    hide Rank, Act, After, Silent, End, Writes, Sound, Signals, WaitsFor, Ring.Contents, Ring.Shaped;
    SilentStep(cfg, sh, pc, who);
    SilentKeeps(cfg, sh, pc, who);
    SilentSignals(cfg, pc, who);
    ActRank(cfg, sh, pc, false);
    run' := Moves(cfg, run, t);
    var (sh', next) := Act(cfg, sh, pc, false);
    pc' := next;
    SoundSame(cfg, sh, sh');
    SilentSignals(cfg, pc', who);
    NotWaiting(pc');
  }

  lemma {:induction false} Settle(cfg: Config, run: seq<Event>, ts: seq<Pc>, n: nat, full: bool, t: nat, who: Cond,
    w: Marks)
    returns (run': seq<Event>)
    requires cfg.Valid() && At(cfg, After(cfg, run), ts, n, full, w) && t < |ts| && Silent(who, ts[t]) && Only(who, ts)
    requires if w.mask then !Writes(ts[t]) else !w.ready
    ensures At(cfg, After(cfg, run'), ts[t := End(who, ts[t])], n, full, w)
    decreases Rank(ts[t])
  {
    hide *;
    run' := run;
    if ts[t].Idle? || ts[t].FinalSignal? {
      AtEnd(who, ts[t]);
      assert ts[t := End(who, ts[t])] == ts;
    } else {
      var pc';
      run', pc' := SettleStep(cfg, run, ts, n, full, t, who, w);
      run' := Settle(cfg, run', ts[t := pc'], n, full, t, who, w);
      assert ts[t := pc'][t := End(who, pc')] == ts[t := End(who, ts[t])];
    }
  }

  lemma AtEnd(who: Cond, pc: Pc)
    requires Silent(who, pc) && (pc.Idle? || pc.FinalSignal?)
    ensures End(who, pc) == pc
  {
  }

  lemma NotWaiting(pc: Pc)
    requires !Asleep(pc)
    ensures WaitsFor(pc) == NoCond
  {
  }

  // One enqueue and one dequeue

  /** The section of an enqueue into a ring of `n` messages. */
  lemma PutCounts(cfg: Config, sh: Shared, m: Message, n: nat)
    requires Sound(cfg, sh) && |sh.ring.Contents()| == n < cfg.numEnts
    ensures var (sh', pc') := TryPut(sh, m, false);
      && Sound(cfg, sh') && |sh'.ring.Contents()| == n + 1
      && sh'.ring.queueFull == (sh.ring.queueFull || n + 1 == cfg.numEnts)
      && sh'.readMask == sh.readMask && sh'.writeMask == sh.writeMask && sh'.writeReady == sh.writeReady
      && var k := if n == 0 then ThenReadable else Done;
      && pc' == (if n + 1 == cfg.numEnts then NwBind(k) else Continue(k))
  {
    hide Ring.Put, Ring.Contents, Ring.Occupancy;
    StatusIsExact(sh.ring);
    PutAppends(sh.ring, m);
    PutKeepsSize(sh.ring, m);
    StatusIsExact(sh.ring.Put(m));
    PutSound(cfg, sh, m, false);
  }

  lemma TakeCounts(cfg: Config, sh: Shared, n: nat)
    requires Sound(cfg, sh) && |sh.ring.Contents()| == n > 0
    ensures var (sh', pc') := TryTake(sh, false);
      && Sound(cfg, sh') && |sh'.ring.Contents()| == n - 1
      && sh'.ring.queueFull == (sh.ring.queueFull && n - 1 >= cfg.lowWaterMark)
      && sh'.readMask == sh.readMask && sh'.writeMask == sh.writeMask && sh'.writeReady == sh.writeReady
      && pc' == (if sh.ring.queueFull && !sh'.ring.queueFull then MwSignal(if n == 1 then ThenNonReadable else ThenSignal)
                 else if n == 1 then NrBind(Done) else Idle)
  {
    hide Ring.Take, Ring.Contents, Ring.Occupancy, Ring.Head;
    StatusIsExact(sh.ring);
    TakeRemovesFirst(sh.ring);
    TakeKeepsSize(sh.ring);
    StatusIsExact(sh.ring.Take());
    TakeSound(cfg, sh, false);
  }

  function Putting(cfg: Config, n: nat): Pc {
    var k := if n == 0 then ThenReadable else Done;
    if n + 1 == cfg.numEnts then NwBind(k) else Continue(k)
  }

  function Taking(cfg: Config, n: nat, full: bool): Pc {
    if full && n <= cfg.lowWaterMark then MwSignal(if n == 1 then ThenNonReadable else ThenSignal)
    else if n == 1 then NrBind(Done) else Idle
  }

  lemma Puts(cfg: Config, run: seq<Event>, ts: seq<Pc>, n: nat, full: bool, t: nat, w: Marks)
    returns (run': seq<Event>)
    requires cfg.Valid() && At(cfg, After(cfg, run), ts, n, full, w) && n < cfg.numEnts && t < |ts|
    requires (ts[t].Idle? && t in cfg.producers) || ts[t].EnqWoken?
    ensures At(cfg, After(cfg, run'), ts[t := Putting(cfg, n)], n + 1, full || n + 1 == cfg.numEnts, w)
  {
    var s := After(cfg, run);
    StatusAt(cfg, s.sh);
    if ts[t].Idle? {
      hide After, Sound, Ring.Shaped, Ring.Contents, Ring.IsFull, TryPut, Continue;
      run' := Begins(cfg, run, t, Enqueue(0, false));
      PutCounts(cfg, s.sh, 0, n);
    } else {
      var m := ts[t].m;
      assert TryPut(s.sh, m, true) == TryPut(s.sh, m, false);
      hide After, Sound, Ring.Shaped, Ring.Contents, Ring.IsFull, TryPut, Continue;
      run' := Moves(cfg, run, t);
      PutCounts(cfg, s.sh, m, n);
    }
  }

  lemma Takes(cfg: Config, run: seq<Event>, ts: seq<Pc>, n: nat, full: bool, t: nat, w: Marks)
    returns (run': seq<Event>)
    requires cfg.Valid() && At(cfg, After(cfg, run), ts, n, full, w) && 0 < n && t < |ts|
    requires (ts[t].Idle? && t in cfg.consumers) || ts[t].DeqWoken?
    ensures At(cfg, After(cfg, run'), ts[t := Taking(cfg, n, full)], n - 1, full && n > cfg.lowWaterMark, w)
  {
    var s := After(cfg, run);
    StatusAt(cfg, s.sh);
    assert TryTake(s.sh, true) == TryTake(s.sh, false);
    hide After, Sound, Ring.Shaped, Ring.Contents, Ring.IsEmpty, TryTake;
    TakeCounts(cfg, s.sh, n);
    if ts[t].Idle? {
      run' := Begins(cfg, run, t, Dequeue(false));
    } else {
      run' := Moves(cfg, run, t);
    }
  }

  /** The last signal of a dequeue finds nobody. */
  lemma LastSignal(cfg: Config, run: seq<Event>, ts: seq<Pc>, n: nat, full: bool, t: nat, w: Marks)
    returns (run': seq<Event>)
    requires cfg.Valid() && At(cfg, After(cfg, run), ts, n, full, w) && Only(ConsumerCond, ts) && t < |ts|
    requires ts[t] == FinalSignal
    ensures At(cfg, After(cfg, run'), ts[t := Idle], n, full, w)
  {
    hide After, Sound, Ring.Shaped, Ring.Contents;
    run' := Moves(cfg, run, t);
  }

  /** A whole enqueue that wakes nobody. */
  lemma Enqueues(cfg: Config, run: seq<Event>, ts: seq<Pc>, n: nat, t: nat, who: Cond, w: Marks)
    returns (run': seq<Event>)
    requires cfg.Valid() && At(cfg, After(cfg, run), ts, n, false, w) && Only(who, ts) && t < |ts| && 1 < cfg.numEnts
    requires (ts[t].Idle? && t in cfg.producers) || ts[t].EnqWoken?
    requires if n == 0 then who == ProducerCond else n < cfg.numEnts && who == ConsumerCond
    requires w == OFF || (w.mask && n + 1 < cfg.numEnts)
    ensures At(cfg, After(cfg, run'), ts[t := Idle], n + 1, n + 1 == cfg.numEnts, w)
  {
    hide After, At, Rank;
    run' := Puts(cfg, run, ts, n, false, t, w);
    run' := Settle(cfg, run', ts[t := Putting(cfg, n)], n + 1, n + 1 == cfg.numEnts, t, who, w);
    assert ts[t := Putting(cfg, n)][t := Idle] == ts[t := Idle];
  }

  /** A whole dequeue that does not unblock the FIFO, while only producers are asleep. */
  lemma Dequeues(cfg: Config, run: seq<Event>, ts: seq<Pc>, n: nat, full: bool, t: nat, w: Marks)
    returns (run': seq<Event>)
    requires cfg.Valid() && At(cfg, After(cfg, run), ts, n, full, w) && Only(ProducerCond, ts) && t < |ts|
    requires ts[t].Idle? && t in cfg.consumers && 0 < n && (full ==> n > cfg.lowWaterMark)
    requires !w.mask ==> !w.ready
    ensures At(cfg, After(cfg, run'), ts, n - 1, full, w)
  {
    hide After, At;
    run' := Takes(cfg, run, ts, n, full, t, w);
    run' := Settle(cfg, run', ts[t := Taking(cfg, n, full)], n - 1, full, t, ProducerCond, w);
    assert ts[t := Taking(cfg, n, full)][t := Idle] == ts;
  }

  lemma AtRest(cfg: Config, s: State, ts: seq<Pc>, n: nat, full: bool, w: Marks)
    requires At(cfg, s, ts, n, full, w) && forall i :: 0 <= i < |ts| ==> ts[i].Idle? || Asleep(ts[i])
    ensures Quiescent(s) && s.threads == ts && s.sh.ring.queueFull == full && (s.sh.ring.IsEmpty() <==> n == 0)
    ensures !s.sh.readMask && s.sh.writeMask == w.mask && s.sh.writeReady == w.ready
  {
    StatusAt(cfg, s.sh);
  }
}
