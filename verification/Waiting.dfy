/** Producers that wait: how many signals are on their way to them. And nobody waits in vain. */
module Waiting {
  import opened Ring
  import opened Protocol
  import opened Invariants
  import opened Safety
  import opened Sleeping

  /** Three producers that may wait, and a fourth thread that may dequeue meanwhile. */
  predicate ManyProducers(cfg: Config) {
    exists a: nat, b: nat, d: nat, c: nat ::
      && a in cfg.producers && b in cfg.producers && d in cfg.producers && c in cfg.consumers
      && a != b && a != d && b != d && c != a && c != b && c != d
  }

  /** The signals to the producers that a call has yet to give after the function it is in, */
  function LaterSignals(k: Next): nat {
    if k == ThenSignal || k == ThenNonReadable then 1 else 0
  }

  /** and from where it stands. */
  function Pending(pc: Pc): nat {
    match pc
    case NwBind(k) => LaterSignals(k)
    case NwClear(k) => LaterSignals(k)
    case EnqRecheck(k) => LaterSignals(k)
    case MwSignal(k) => 1 + LaterSignals(k)
    case MwBind(k) => LaterSignals(k)
    case MwSet(k) => LaterSignals(k)
    case MwGroup(k) => LaterSignals(k)
    case MrSignal(k) => LaterSignals(k)
    case MrBind(k) => LaterSignals(k)
    case MrSet(k) => LaterSignals(k)
    case MrGroup(k) => LaterSignals(k)
    case NrBind(k) => LaterSignals(k)
    case NrClear(k) => LaterSignals(k)
    case NrRecheck(k) => LaterSignals(k)
    case FinalSignal => 1
    case _ => 0
  }

  function Weight(pc: Pc): int {
    if pc.EnqSleep? then -1 else Pending(pc)
  }

  lemma ContinuePending()
    ensures forall k {:trigger Continue(k)} :: Pending(Continue(k)) == LaterSignals(k) && !Continue(k).EnqSleep?
  {
  }

  lemma PutPending(sh: Shared, m: Message, wait: bool)
    requires sh.ring.Shaped()
    ensures var pc := TryPut(sh, m, wait).1; Weight(pc) >= 0 || pc.EnqSleep?
  {
    hide Ring.Shaped, Ring.Put, Ring.IsFull;
  }

  /** A dequeue that unblocks the FIFO is going to signal the producers twice. */
  lemma TakePending(sh: Shared, wait: bool)
    requires sh.ring.Shaped()
    ensures var (sh', pc') := TryTake(sh, wait);
      Weight(pc') >= 0 && (sh.ring.queueFull && !sh'.ring.queueFull ==> Weight(pc') == 2)
  {
    hide Ring.Shaped, Ring.Take, Ring.IsEmpty, Ring.Head;
  }

  /** No step but a signal takes a signal away. */
  lemma ActPending(cfg: Config, sh: Shared, pc: Pc, other: bool)
    requires sh.ring.Shaped() && !pc.Idle? && !Asleep(pc)
    ensures var pc' := Act(cfg, sh, pc, other).1;
      pc'.EnqSleep? || Weight(pc') >= Weight(pc) - if Signals(cfg, pc) == ProducerCond then 1 else 0
  {
    hide TryPut, TryTake, Continue, Ring.NumInQueue, Ring.Avail, Ring.IsEmpty, Ring.Shaped;
    ContinuePending();
    if pc.EnqWoken? {
      PutPending(sh, pc.m, true);
    } else if pc.DeqWoken? {
      TakePending(sh, true);
    }
  }

  lemma BeginPending(cfg: Config, sh: Shared, call: Call)
    requires sh.ring.Shaped()
    ensures var pc' := Begin(cfg, sh, call).1; pc'.EnqSleep? || Weight(pc') >= 0
  {
    hide TryPut, TryTake, Ring.Shaped;
    if call.Enqueue? {
      PutPending(sh, call.m, call.wait);
    } else if call.Dequeue? {
      TakePending(sh, call.wait);
    }
  }

  lemma LocalPending(cfg: Config, sh: Shared, pc: Pc, e: Event)
    requires sh.ring.Shaped() && Fits(pc, e)
    ensures var pc' := Local(cfg, sh, pc, e).1;
      pc'.EnqSleep? || Weight(pc') >= Weight(pc) - if Signals(cfg, pc) == ProducerCond then 1 else 0
  {
    hide Begin, Act, Ring.Shaped;
    match e
    case Start(_, call) => BeginPending(cfg, sh, call);
    case Go(_, _, other) => ActPending(cfg, sh, pc, other);
    case Spurious(_) =>
  }

  /** Only a dequeue unblocks the FIFO. */
  lemma UnblockPending(cfg: Config, sh: Shared, pc: Pc, e: Event)
    requires sh.ring.Shaped() && Fits(pc, e)
    requires sh.ring.queueFull && !Local(cfg, sh, pc, e).0.ring.queueFull
    ensures Weight(Local(cfg, sh, pc, e).1) == 2
  {
    hide TryTake, Ring.Shaped, Ring.NumInQueue, Ring.Avail, Ring.IsEmpty;
    if e.Start? && e.call.Dequeue? {
      TakePending(sh, e.call.wait);
    } else if pc.DeqWoken? {
      TakePending(sh, true);
    }
  }

  /** Signals on their way, less producers asleep. */
  function Balance(threads: seq<Pc>): int {
    if threads == [] then 0 else Weight(threads[0]) + Balance(threads[1..])
  }

  lemma {:induction false} BalanceUpdate(threads: seq<Pc>, t: nat, pc: Pc)
    requires t < |threads|
    ensures Balance(threads[t := pc]) == Balance(threads) - Weight(threads[t]) + Weight(pc)
    decreases |threads|
  {
    hide Weight;
    if t > 0 {
      BalanceUpdate(threads[1..], t - 1, pc);
      assert threads[t := pc][1..] == threads[1..][t - 1 := pc];
    } else {
      assert threads[t := pc][1..] == threads[1..];
    }
  }

  lemma {:induction false} NobodySleeps(threads: seq<Pc>)
    requires forall i :: 0 <= i < |threads| ==> !threads[i].EnqSleep?
    ensures Balance(threads) >= 0
  {
    hide Pending;
    if threads != [] {
      NobodySleeps(threads[1..]);
    }
  }

  lemma {:induction false} NobodySignals(threads: seq<Pc>)
    requires forall i :: 0 <= i < |threads| ==> Pending(threads[i]) == 0
    ensures Balance(threads) <= 0
  {
    hide Pending;
    if threads != [] {
      NobodySignals(threads[1..]);
    }
  }

  /** A producer that sleeps uses up a signal, so that some thread has one to give. */
  lemma SleeperIsOwed(threads: seq<Pc>, t: nat)
    requires t < |threads| && threads[t].EnqSleep? && Balance(threads) >= 0
    ensures exists i: nat :: i < |threads| && Pending(threads[i]) > 0
  {
    assert Weight(Idle) == 0 && Pending(Idle) == 0 && Pending(threads[t]) == 0;
    hide Pending, Weight;
    if forall i: nat :: i < |threads| ==> Pending(threads[i]) == 0 {
      assert Weight(threads[t]) == -1 by { SleepWeight(threads[t]); }
      BalanceUpdate(threads, t, Idle);
      NobodySignals(threads[t := Idle]);
    }
  }

  lemma SleepWeight(pc: Pc)
    requires pc.EnqSleep?
    ensures Weight(pc) == -1
  {
  }

  /** If the FIFO is not blocked, no more producers sleep than are going to be signalled. */
  ghost predicate Owed(s: State) {
    !s.sh.ring.queueFull ==> Balance(s.threads) >= 0
  }

  /** Without three producers besides the dequeuing thread, its two signals are enough. */
  lemma TwoSignalsSuffice(cfg: Config, s: State, t: nat)
    requires Roles(cfg, s) && !ManyProducers(cfg) && t < |s.threads| && t in cfg.consumers
    requires Weight(s.threads[t]) == 2
    ensures Balance(s.threads) >= 0
  {
    assert Weight(Idle) == 0;
    hide Weight, Balance, ManyProducers;
    var rest := s.threads[t := Idle];
    BalanceUpdate(s.threads, t, Idle);
    if i: nat :| i < |rest| && rest[i].EnqSleep? {
      SleepWeight(rest[i]);
      BalanceUpdate(rest, i, Idle);
      var rest' := rest[i := Idle];
      if j: nat :| j < |rest| && rest'[j].EnqSleep? {
        SleepWeight(rest'[j]);
        BalanceUpdate(rest', j, Idle);
        var rest'' := rest'[j := Idle];
        forall k | 0 <= k < |rest''| ensures !rest''[k].EnqSleep? {
          if rest''[k].EnqSleep? {
            NotThree(cfg, s, i, j, k, t);
            assert false;
          }
        }
        NobodySleeps(rest'');
      } else {
        NobodySleeps(rest');
      }
    } else {
      NobodySleeps(rest);
    }
  }

  lemma NotThree(cfg: Config, s: State, i: nat, j: nat, k: nat, t: nat)
    requires Roles(cfg, s) && !ManyProducers(cfg) && t in cfg.consumers
    requires i < |s.threads| && j < |s.threads| && k < |s.threads| && t != i && t != j && t != k
    requires s.threads[i].EnqSleep? && s.threads[j].EnqSleep? && s.threads[k].EnqSleep?
    ensures i == j || i == k || j == k
  {
    assert InRole(cfg, i, s.threads[i]) && InRole(cfg, j, s.threads[j]) && InRole(cfg, k, s.threads[k]);
  }

  lemma WaitsForSpace(pc: Pc)
    ensures WaitsFor(pc) == ProducerCond <==> pc.EnqSleep?
    ensures pc.EnqSleep? ==> Weight(Awake(pc)) == 0
    ensures WaitsFor(pc) != NoCond && !pc.EnqSleep? ==> Weight(Awake(pc)) == Weight(pc)
  {
  }

  /** A step while the FIFO is not blocked: a signal that is given wakes a producer, if one sleeps. */
  lemma BalanceStep(cfg: Config, s: State, e: Event)
    requires s.sh.ring.Shaped() && Enabled(cfg, s, e) && !Do(cfg, s, e).threads[e.t].EnqSleep? && Balance(s.threads) >= 0
    ensures Balance(Do(cfg, s, e).threads) >= 0
  {
    var pc, cond := s.threads[e.t], Signals(cfg, s.threads[e.t]);
    LocalPending(cfg, s.sh, pc, e);
    var choice := if e.Go? then e.woken else 0;
    assert cond != NoCond ==> e.Go? by { if cond != NoCond { SignalsNotAsleep(cfg, pc); } }
    hide Local, Weight, Signals, Balance, Awake, WaitsFor;
    var woken := Signal(s.threads, cond, choice);
    BalanceUpdate(woken, e.t, Local(cfg, s.sh, pc, e).1);
    WaitsForSpace(pc);
    if cond != NoCond && choice < |s.threads| && WaitsFor(s.threads[choice]) == cond {
      WaitsForSpace(s.threads[choice]);
      BalanceUpdate(s.threads, choice, Awake(s.threads[choice]));
      if cond == ProducerCond { SleepWeight(s.threads[choice]); }
      assert choice != e.t by { if choice == e.t { SignalsNotAsleep(cfg, pc); } }
    } else if cond == ProducerCond {
      forall i | 0 <= i < |s.threads| ensures !Do(cfg, s, e).threads[i].EnqSleep? {
        WaitsForSpace(s.threads[i]);
      }
      NobodySleeps(Do(cfg, s, e).threads);
    }
  }

  lemma OwedStep(cfg: Config, s: State, e: Event)
    requires Sound(cfg, s.sh) && Roles(cfg, s) && !ManyProducers(cfg) && Owed(s)
    ensures Owed(Do(cfg, s, e))
  {
    if Enabled(cfg, s, e) {
      SoundIsValid(cfg, s.sh);
      ValidShaped(s.sh.ring);
      LocalOk(cfg, s, e);
      SoundStep(cfg, s, e);
      var pc := s.threads[e.t];
      assert Fits(pc, e);
      hide Local, Ring.Valid, Ring.Shaped, Ring.IsEmpty, Do, Signals, Enabled, Sound, WindowOk, InWindow, ReadSide, WriteSide,
           WillWakeConsumer, InRole, ManyProducers, Balance, Weight, WaitsFor, Awake, Fits;
      Others(cfg, s, e);
      var s' := Do(cfg, s, e);
      assert InRole(cfg, e.t, pc);
      if !s'.sh.ring.queueFull {
        if s.sh.ring.queueFull {
          UnblockPending(cfg, s.sh, pc, e);
          TwoSignalsSuffice(cfg, s', e.t);
        } else {
          BalanceStep(cfg, s, e);
        }
      }
    }
  }

  lemma {:induction false} AlwaysOwed(cfg: Config, run: seq<Event>)
    requires cfg.Valid() && !ManyProducers(cfg)
    ensures Owed(After(cfg, run))
    decreases |run|
  {
    hide Do, ManyProducers, Balance, Sound;
    if run == [] {
      NobodySleeps(After(cfg, run).threads);
    } else {
      var before := run[..|run| - 1];
      AlwaysOwed(cfg, before);
      MessagesConserved(cfg, before);
      OwedStep(cfg, After(cfg, before), run[|run| - 1]);
    }
  }

  // A FIFO of one entry

  /** If a consumer is asleep and there is a message, a consumer is awake to take it or is going to be signalled. */
  ghost predicate ConsumerServed(s: State) {
    (exists t: nat :: t < |s.threads| && s.threads[t].DeqSleep?) && !s.sh.ring.IsEmpty() ==>
      exists t: nat :: t < |s.threads| && (WillWakeConsumer(s.threads[t]) || s.threads[t].DeqWoken?)
  }

  ghost predicate ProducerServed(s: State) {
    (exists t: nat :: t < |s.threads| && s.threads[t].EnqSleep?) && !s.sh.ring.queueFull ==>
      exists t: nat :: t < |s.threads| && (s.threads[t].MwSignal? || s.threads[t].EnqWoken?)
  }

  /** With one entry, taking empties the ring and putting fills it. */
  lemma OneEntry(cfg: Config, sh: Shared, pc: Pc, e: Event)
    requires sh.ring.Valid() && sh.ring.numEnts == 1 && Fits(pc, e)
    ensures var sh' := Local(cfg, sh, pc, e).0;
      (pc.DeqWoken? ==> sh'.ring.IsEmpty()) && (pc.EnqWoken? ==> sh'.ring.queueFull)
  {
    hide Begin, WritableStep, ReadableStep, PollingStep, Ring.Occupancy;
  }

  /** A signal wakes a thread that waits for it. */
  lemma WakesOne(cfg: Config, s: State, e: Event, t: nat) returns (w: nat)
    requires s.sh.ring.Shaped() && Enabled(cfg, s, e) && t < |s.threads|
    requires var cond := Signals(cfg, s.threads[e.t]); cond != NoCond && WaitsFor(s.threads[t]) == cond
    ensures w < |s.threads| && WaitsFor(s.threads[w]) == Signals(cfg, s.threads[e.t])
    ensures Do(cfg, s, e).threads[w] == Awake(s.threads[w])
  {
    SignalsNotAsleep(cfg, s.threads[e.t]);
    hide Local, Signals, Awake;
    w := e.woken;
  }

  lemma AwakeIs(pc: Pc)
    ensures WaitsFor(pc) == ConsumerCond ==> Awake(pc).DeqWoken?
    ensures WaitsFor(pc) == ProducerCond ==> Awake(pc).EnqWoken?
  {
  }

  lemma StaysUp(cfg: Config, s: State, e: Event, i: nat)
    requires s.sh.ring.Shaped() && Enabled(cfg, s, e) && i < |s.threads| && i != e.t
    requires var pc := s.threads[i]; WillWakeConsumer(pc) || pc.MwSignal? || pc.DeqWoken? || pc.EnqWoken?
    ensures Do(cfg, s, e).threads[i] == s.threads[i]
  {
    hide Local, Enabled, Do;
    Stays(cfg, s, e, i);
  }

  lemma ConsumerServedStep(cfg: Config, s: State, e: Event)
    requires s.sh.ring.Valid() && s.sh.ring.numEnts == 1 && ConsumerServed(s)
    ensures ConsumerServed(Do(cfg, s, e))
  {
    if Enabled(cfg, s, e) {
      var pc := s.threads[e.t];
      assert pc.MrSignal? ==> Signals(cfg, pc) == ConsumerCond;
      assert Fits(pc, e);
      hide Local, Ring.Valid, Ring.IsEmpty, Do, Signals, Reported, Enabled, Asleep, WaitsFor, Awake, InRole, Sound,
           WindowOk, InWindow, ReadSide, WriteSide, WillWakeConsumer, WillRead, WillWrite, Fits;
      ValidShaped(s.sh.ring);
      LocalOk(cfg, s, e);
      Others(cfg, s, e);
      OneEntry(cfg, s.sh, pc, e);
      var s' := Do(cfg, s, e);
      if t: nat :| t < |s'.threads| && s'.threads[t].DeqSleep? && !s'.sh.ring.IsEmpty() && !WillWakeConsumer(s'.threads[e.t]) {
        WaitsForIs(s'.threads[t]);
        StaysAsleep(cfg, s, e, t);
        var i: nat :| i < |s.threads| && (WillWakeConsumer(s.threads[i]) || s.threads[i].DeqWoken?);
        if i != e.t {
          StaysUp(cfg, s, e, i);
          assert WillWakeConsumer(s'.threads[i]) || s'.threads[i].DeqWoken?;
        } else {
          var w := WakesOne(cfg, s, e, t);
          AwakeIs(s.threads[w]);
          assert s'.threads[w].DeqWoken?;
        }
      }
    }
  }

  lemma ProducerServedStep(cfg: Config, s: State, e: Event)
    requires s.sh.ring.Valid() && s.sh.ring.numEnts == 1 && ProducerServed(s)
    ensures ProducerServed(Do(cfg, s, e))
  {
    if Enabled(cfg, s, e) {
      var pc := s.threads[e.t];
      assert pc.MwSignal? ==> Signals(cfg, pc) == ProducerCond;
      assert Fits(pc, e);
      hide Local, Ring.Valid, Ring.IsEmpty, Do, Signals, Reported, Enabled, Asleep, WaitsFor, Awake, InRole, Sound,
           WindowOk, InWindow, ReadSide, WriteSide, WillWakeConsumer, WillRead, WillWrite, Fits;
      ValidShaped(s.sh.ring);
      LocalOk(cfg, s, e);
      Others(cfg, s, e);
      OneEntry(cfg, s.sh, pc, e);
      var s' := Do(cfg, s, e);
      if t: nat :| t < |s'.threads| && s'.threads[t].EnqSleep? && !s'.sh.ring.queueFull && !s'.threads[e.t].MwSignal? {
        WaitsForIs(s'.threads[t]);
        StaysAsleep(cfg, s, e, t);
        var i: nat :| i < |s.threads| && (s.threads[i].MwSignal? || s.threads[i].EnqWoken?);
        if i != e.t {
          StaysUp(cfg, s, e, i);
          assert s'.threads[i].MwSignal? || s'.threads[i].EnqWoken?;
        } else {
          var w := WakesOne(cfg, s, e, t);
          AwakeIs(s.threads[w]);
          assert s'.threads[w].EnqWoken?;
        }
      }
    }
  }

  lemma {:induction false} AlwaysServed(cfg: Config, run: seq<Event>)
    requires cfg.Valid() && cfg.numEnts == 1
    ensures ConsumerServed(After(cfg, run)) && ProducerServed(After(cfg, run))
    decreases |run|
  {
    hide Do;
    if run != [] {
      var before := run[..|run| - 1];
      AlwaysServed(cfg, before);
      MessagesConserved(cfg, before);
      hide ConsumerServed, ProducerServed;
      ConsumerServedStep(cfg, After(cfg, before), run[|run| - 1]);
      ProducerServedStep(cfg, After(cfg, before), run[|run| - 1]);
    }
  }

  // What follows when nobody is active

  lemma QuietThread(s: State, t: nat)
    requires Quiescent(s) && t < |s.threads|
    ensures var pc := s.threads[t];
      !WillWakeConsumer(pc) && !pc.DeqWoken? && !pc.MwSignal? && !pc.EnqWoken? && Pending(pc) == 0
  {
  }

  /** No consumer is left asleep with a message there, */
  lemma NoStarvedConsumer(cfg: Config, run: seq<Event>, c: nat)
    requires cfg.Valid() && (cfg.numEnts == 1 || !ManyConsumers(cfg)) && c < cfg.threads
    ensures var s := After(cfg, run); Quiescent(s) && !s.sh.ring.IsEmpty() ==> !s.threads[c].DeqSleep?
  {
    var s := After(cfg, run);
    if cfg.numEnts == 1 { AlwaysServed(cfg, run); } else { AlwaysConsumerCovered(cfg, run); }
    hide After, ManyConsumers, Ring.IsEmpty, Quiescent, ProducerServed;
    if Quiescent(s) && !s.sh.ring.IsEmpty() && s.threads[c].DeqSleep? {
      var t: nat :| t < |s.threads| && (WillWakeConsumer(s.threads[t]) || s.threads[t].DeqWoken?);
      QuietThread(s, t);
      assert false;
    }
  }

  /** and no producer is left asleep with the FIFO unblocked. */
  lemma NoStarvedProducer(cfg: Config, run: seq<Event>, p: nat)
    requires cfg.Valid() && (cfg.numEnts == 1 || !ManyProducers(cfg)) && p < cfg.threads
    ensures var s := After(cfg, run); Quiescent(s) && !s.sh.ring.queueFull ==> !s.threads[p].EnqSleep?
  {
    var s := After(cfg, run);
    if cfg.numEnts == 1 { AlwaysServed(cfg, run); } else { AlwaysOwed(cfg, run); }
    hide After, ManyProducers, Quiescent, ConsumerServed, Balance, Pending;
    if Quiescent(s) && !s.sh.ring.queueFull && s.threads[p].EnqSleep? {
      if cfg.numEnts != 1 { SleeperIsOwed(s.threads, p); }
      var t: nat :| t < |s.threads| && (Pending(s.threads[t]) > 0 || s.threads[t].MwSignal? || s.threads[t].EnqWoken?);
      QuietThread(s, t);
      assert false;
    }
  }

  /** Blocking runs never deadlock, with one entry or with few threads: when nobody is active, a producer asleep means
      that at least min(low_water_mark, num_ents) messages are there, and a consumer asleep that there are none. */
  lemma NoDeadlock(cfg: Config, run: seq<Event>, p: nat, c: nat)
    requires cfg.Valid() && p < cfg.threads && c < cfg.threads
    requires cfg.numEnts == 1 || (!ManyProducers(cfg) && !ManyConsumers(cfg))
    ensures var s := After(cfg, run);
      Quiescent(s) ==>
        && (s.threads[p].EnqSleep? ==> s.sh.ring.NumInQueue() >= s.sh.ring.Threshold() > 0)
        && (s.threads[c].DeqSleep? ==> s.sh.ring.NumInQueue() == 0)
        && !(s.threads[p].EnqSleep? && s.threads[c].DeqSleep?)
  {
    var s := After(cfg, run);
    MessagesConserved(cfg, run);
    NoStarvedProducer(cfg, run, p);
    NoStarvedConsumer(cfg, run, c);
    StatusIsExact(s.sh.ring);
    hide After, Ring.NumInQueue, Ring.Contents, ManyProducers, ManyConsumers;
  }
}
