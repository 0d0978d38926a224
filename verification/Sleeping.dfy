/** Threads that wait for a condition: whoever has something to do is going to be woken. */
module Sleeping {
  import opened Ring
  import opened Protocol
  import opened Invariants
  import opened Safety

  /** No two threads wait for `cond`. */
  ghost predicate OneWaiter(s: State, cond: Cond) {
    forall i: nat, j: nat | i < |s.threads| && j < |s.threads| ::
      WaitsFor(s.threads[i]) == cond && WaitsFor(s.threads[j]) == cond ==> i == j
  }

  /** A signal wakes the only waiter, so that nobody waits any more. */
  lemma SignalWakes(cfg: Config, s: State, e: Event, i: nat)
    requires s.sh.ring.Shaped() && Enabled(cfg, s, e) && i < |s.threads|
    requires var cond := Signals(cfg, s.threads[e.t]); cond != NoCond && OneWaiter(s, cond)
    ensures WaitsFor(Do(cfg, s, e).threads[i]) != Signals(cfg, s.threads[e.t])
  {
    var pc := s.threads[e.t];
    SignallerGoesOn(cfg, s.sh, pc, e);
    hide Local, Begin, Act, Signals, WaitsFor, Awake;
    AwakeNotAsleep(pc);
    var cond := Signals(cfg, pc);
    if WaitsFor(s.threads[i]) == cond {
      assert e.Go? by { SignalsNotAsleep(cfg, pc); }
      assert WaitsFor(s.threads[e.woken]) == cond;
      AwakeNotAsleep(s.threads[i]);
    }
  }

  lemma SignalsNotAsleep(cfg: Config, pc: Pc)
    requires Signals(cfg, pc) != NoCond
    ensures !Asleep(pc) && !pc.Idle?
  {
  }

  lemma AwakeNotAsleep(pc: Pc)
    ensures WaitsFor(Awake(pc)) == NoCond
  {
  }

  lemma SignallerGoesOn(cfg: Config, sh: Shared, pc: Pc, e: Event)
    requires sh.ring.Shaped() && Fits(pc, e) && Signals(cfg, pc) != NoCond
    ensures e.Go? && WaitsFor(Local(cfg, sh, pc, e).1) == NoCond
  {
    hide TryPut, TryTake, Begin, TryPoll, Ring.Shaped;
  }

  /** One thread at most polls, or at most one besides the thread that moves. */
  predicate FewPollers(cfg: Config) {
    Alone(cfg.pollers) || cfg.threads <= 2
  }

  lemma FewPollersWait(cfg: Config, s: State, e: Event, group: nat)
    requires Roles(cfg, s) && FewPollers(cfg) && |s.threads| == cfg.threads
    requires Enabled(cfg, s, e) && Signals(cfg, s.threads[e.t]) != NoCond
    ensures OneWaiter(s, GroupCond(group))
  {
    SignalsNotAsleep(cfg, s.threads[e.t]);
    hide Signals, Enabled;
    forall i: nat, j: nat | i < |s.threads| && j < |s.threads|
                            && WaitsFor(s.threads[i]) == GroupCond(group) == WaitsFor(s.threads[j])
      ensures i == j
    {
      assert InRole(cfg, i, s.threads[i]) && InRole(cfg, j, s.threads[j]);
      assert i != e.t && j != e.t;
    }
  }

  /** A sleeper that is asleep after a step of another thread was asleep before. */
  lemma StaysAsleep(cfg: Config, s: State, e: Event, t: nat)
    requires s.sh.ring.Shaped() && Enabled(cfg, s, e) && t < |s.threads| && t != e.t
    ensures var pc := Do(cfg, s, e).threads[t]; pc.EnqSleep? || pc.DeqSleep? || pc.PollSleep? ==> pc == s.threads[t]
  {
    hide Local, Enabled, Do;
    Stays(cfg, s, e, t);
  }

  lemma WaitsForIs(pc: Pc)
    ensures pc.EnqSleep? ==> WaitsFor(pc) == ProducerCond
    ensures pc.DeqSleep? ==> WaitsFor(pc) == ConsumerCond
    ensures pc.PollSleep? ==> WaitsFor(pc) == GroupCond(pc.group)
  {
  }

  /** A thread that is going to do something is still going to after a step of another. */
  lemma StaysBusy(cfg: Config, s: State, e: Event, i: nat)
    requires s.sh.ring.Shaped() && Enabled(cfg, s, e) && i < |s.threads| && i != e.t
    requires var pc := s.threads[i]; WillRead(pc) || WillWrite(pc) || pc.MrGroup? || pc.MwGroup? || WillWakeConsumer(pc)
    ensures Do(cfg, s, e).threads[i] == s.threads[i]
  {
    hide Local, Enabled, Do, WillRead, WillWrite, WillWakeConsumer;
    Busy(s.threads[i]);
    Stays(cfg, s, e, i);
  }

  // A consumer that waits

  /** Two consumers that may wait, and a third thread that may enqueue meanwhile. */
  predicate ManyConsumers(cfg: Config) {
    exists a: nat, b: nat, p: nat ::
      a in cfg.consumers && b in cfg.consumers && p in cfg.producers && a != b && p != a && p != b
  }

  /** Two consumers wait only while the FIFO is empty. */
  ghost predicate Single(s: State) {
    !s.sh.ring.IsEmpty() ==> OneWaiter(s, ConsumerCond)
  }

  lemma SingleStep(cfg: Config, s: State, e: Event)
    requires s.sh.ring.Valid() && Roles(cfg, s) && !ManyConsumers(cfg) && Single(s)
    ensures Single(Do(cfg, s, e))
  {
    if Enabled(cfg, s, e) {
      hide Local, Ring.Valid, Ring.IsEmpty, Do, Signals, Reported, Enabled, WaitsFor, Awake, Sound, ManyConsumers, InRole,
           WindowOk, InWindow, ReadSide, WriteSide, WillWakeConsumer, WillRead, WillWrite;
      ValidShaped(s.sh.ring);
      LocalOk(cfg, s, e);
      Others(cfg, s, e);
      EnabledThread(cfg, s, e);
      var s' := Do(cfg, s, e);
      if !s'.sh.ring.IsEmpty() {
        forall i: nat, j: nat
          | i < |s'.threads| && j < |s'.threads| && WaitsFor(s'.threads[i]) == ConsumerCond == WaitsFor(s'.threads[j])
          ensures i == j
        {
          WaitsForMessage(s'.threads[i]);
          WaitsForMessage(s'.threads[j]);
          StaysAsleep(cfg, s, e, i);
          StaysAsleep(cfg, s, e, j);
          WaitersAreConsumers(cfg, s, i, j, e.t);
        }
      }
    }
  }

  lemma WaitsForMessage(pc: Pc)
    ensures WaitsFor(pc) == ConsumerCond <==> pc.DeqSleep?
  {
  }

  lemma WaitersAreConsumers(cfg: Config, s: State, i: nat, j: nat, t: nat)
    requires Roles(cfg, s) && !ManyConsumers(cfg) && i < |s.threads| && j < |s.threads| && t < |s.threads|
    requires s.threads[i].DeqSleep? && s.threads[j].DeqSleep? && i != t && j != t
    ensures i == j || t !in cfg.producers
    ensures InRole(cfg, t, s.threads[t])
  {
    assert InRole(cfg, i, s.threads[i]) && InRole(cfg, j, s.threads[j]);
  }

  /** If a consumer is asleep and there is a message, some thread is going to signal the consumers. */
  ghost predicate ConsumerCovered(s: State) {
    (exists t: nat :: t < |s.threads| && s.threads[t].DeqSleep?) && !s.sh.ring.IsEmpty() ==>
      exists t: nat :: t < |s.threads| && WillWakeConsumer(s.threads[t])
  }

  lemma ConsumerStep(cfg: Config, s: State, e: Event)
    requires s.sh.ring.Valid() && Single(s) && ConsumerCovered(s)
    ensures ConsumerCovered(Do(cfg, s, e))
  {
    if Enabled(cfg, s, e) {
      var pc := s.threads[e.t];
      assert pc.MrSignal? ==> Signals(cfg, pc) == ConsumerCond;
      hide Local, Ring.Valid, Ring.IsEmpty, Do, Signals, OneWaiter, Reported, Enabled, Asleep, WaitsFor, Awake, InRole, Sound,
           WindowOk, InWindow, ReadSide, WriteSide, WillWakeConsumer, WillRead, WillWrite;
      ValidShaped(s.sh.ring);
      LocalOk(cfg, s, e);
      Others(cfg, s, e);
      var s' := Do(cfg, s, e);
      if t: nat :| t < |s'.threads| && s'.threads[t].DeqSleep? && !s'.sh.ring.IsEmpty() && !WillWakeConsumer(s'.threads[e.t]) {
        WaitsForIs(s'.threads[t]);
        StaysAsleep(cfg, s, e, t);
        var i: nat :| i < |s.threads| && WillWakeConsumer(s.threads[i]);
        if i == e.t {
          SignalWakes(cfg, s, e, t);
          assert false;
        }
        StaysBusy(cfg, s, e, i);
        assert WillWakeConsumer(s'.threads[i]);
      }
    }
  }

  lemma {:induction false} AlwaysConsumerCovered(cfg: Config, run: seq<Event>)
    requires cfg.Valid() && !ManyConsumers(cfg)
    ensures ConsumerCovered(After(cfg, run)) && Single(After(cfg, run))
    decreases |run|
  {
    hide Do, ManyConsumers, ConsumerCovered, Single;
    if run == [] {
      NobodyWaits(cfg);
    } else {
      var before := run[..|run| - 1];
      AlwaysConsumerCovered(cfg, before);
      MessagesConserved(cfg, before);
      ConsumerStep(cfg, After(cfg, before), run[|run| - 1]);
      SingleStep(cfg, After(cfg, before), run[|run| - 1]);
    }
  }

  lemma NobodyWaits(cfg: Config)
    requires cfg.Valid()
    ensures ConsumerCovered(After(cfg, [])) && Single(After(cfg, []))
  {
  }

  // A poller that waits

  /** If a poller of the read group is asleep while the FIFO is masked in and has a message, some thread is going to
      signal the group. */
  ghost predicate ReadPollerCovered(cfg: Config, s: State) {
    (exists t: nat :: t < |s.threads| && s.threads[t] == PollSleep(cfg.readGroup)) && ReadWork(cfg, s.sh) ==>
      exists t: nat :: t < |s.threads| && (WillRead(s.threads[t]) || s.threads[t].MrGroup?)
  }

  lemma NotReported(cfg: Config, sh: Shared)
    ensures ReadWork(cfg, sh) && !Reported(cfg, sh, cfg.readGroup) ==> Unreadable(cfg, sh)
    ensures WriteWork(cfg, sh) && !Reported(cfg, sh, cfg.writeGroup) ==> Unwritable(cfg, sh)
  {
  }

  lemma ReadPollerStep(cfg: Config, s: State, e: Event)
    requires s.sh.ring.Valid() && ReadCovered(cfg, s) && ReadPollerCovered(cfg, s)
    requires Roles(cfg, s) && FewPollers(cfg) && |s.threads| == cfg.threads
    ensures ReadPollerCovered(cfg, Do(cfg, s, e))
  {
    if Enabled(cfg, s, e) {
      var pc := s.threads[e.t];
      assert pc.MrGroup? ==> Signals(cfg, pc) == GroupCond(cfg.readGroup);
      hide Local, Ring.Valid, Ring.IsEmpty, Do, Signals, OneWaiter, Reported, Enabled, Asleep, WaitsFor, Awake, InRole, Sound,
           WindowOk, InWindow, WriteSide, WillWakeConsumer, WillRead, WillWrite, Unreadable, ReadWork, FewPollers;
      ValidShaped(s.sh.ring);
      LocalOk(cfg, s, e);
      Others(cfg, s, e);
      NotReported(cfg, s.sh);
      var s' := Do(cfg, s, e);
      if ReadWork(cfg, s'.sh) && !WillRead(s'.threads[e.t]) && !s'.threads[e.t].MrGroup? {
        if t: nat :| t < |s'.threads| && s'.threads[t] == PollSleep(cfg.readGroup) {
          WaitsForIs(s'.threads[t]);
          if t != e.t { StaysAsleep(cfg, s, e, t); }
          if pc.MrGroup? {
            FewPollersWait(cfg, s, e, cfg.readGroup);
            SignalWakes(cfg, s, e, t);
            assert false;
          }
          var i: nat :| i < |s.threads| && (WillRead(s.threads[i]) || s.threads[i].MrGroup?);
          if i == e.t {
            assert false;
          }
          StaysBusy(cfg, s, e, i);
          assert WillRead(s'.threads[i]) || s'.threads[i].MrGroup?;
        }
      }
    }
  }

  /** With few pollers, one asleep in a waiting poll while its FIFO has a message always has a thread that is going to
      signal it. */
  lemma {:induction false} ReadPollerIsWoken(cfg: Config, run: seq<Event>)
    requires cfg.Valid() && FewPollers(cfg)
    ensures ReadPollerCovered(cfg, After(cfg, run))
    decreases |run|
  {
    hide Do, FewPollers;
    if run != [] {
      var before := run[..|run| - 1];
      ReadPollerIsWoken(cfg, before);
      MessagesConserved(cfg, before);
      AlwaysReadCovered(cfg, before);
      ReadPollerStep(cfg, After(cfg, before), run[|run| - 1]);
    }
  }

  ghost predicate WritePollerCovered(cfg: Config, s: State) {
    (exists t: nat :: t < |s.threads| && s.threads[t] == PollSleep(cfg.writeGroup)) && WriteWork(cfg, s.sh) ==>
      exists t: nat :: t < |s.threads| && (WillWrite(s.threads[t]) || s.threads[t].MwGroup?)
  }

  lemma WritePollerStep(cfg: Config, s: State, e: Event)
    requires s.sh.ring.Valid() && Windows(cfg, s) && WriteCovered(cfg, s) && WritePollerCovered(cfg, s)
    requires Roles(cfg, s) && FewPollers(cfg) && |s.threads| == cfg.threads
    ensures WritePollerCovered(cfg, Do(cfg, s, e))
  {
    if Enabled(cfg, s, e) {
      var pc := s.threads[e.t];
      assert pc.MwGroup? ==> Signals(cfg, pc) == GroupCond(cfg.writeGroup);
      hide Local, Ring.Valid, Ring.IsEmpty, Do, Signals, OneWaiter, Reported, Enabled, Asleep, WaitsFor, Awake, InRole, Sound,
           WindowOk, InWindow, ReadSide, WillWakeConsumer, WillRead, WillWrite, Unwritable, WriteWork, FewPollers;
      ValidShaped(s.sh.ring);
      LocalOk(cfg, s, e);
      LocalWrite(cfg, s, e);
      Others(cfg, s, e);
      NotReported(cfg, s.sh);
      var s' := Do(cfg, s, e);
      if WriteWork(cfg, s'.sh) && !WillWrite(s'.threads[e.t]) && !s'.threads[e.t].MwGroup? {
        if t: nat :| t < |s'.threads| && s'.threads[t] == PollSleep(cfg.writeGroup) {
          WaitsForIs(s'.threads[t]);
          if t != e.t { StaysAsleep(cfg, s, e, t); }
          if pc.MwGroup? {
            FewPollersWait(cfg, s, e, cfg.writeGroup);
            SignalWakes(cfg, s, e, t);
            assert false;
          }
          var i: nat :| i < |s.threads| && (WillWrite(s.threads[i]) || s.threads[i].MwGroup?);
          if i == e.t {
            assert false;
          }
          StaysBusy(cfg, s, e, i);
          assert WillWrite(s'.threads[i]) || s'.threads[i].MwGroup?;
        }
      }
    }
  }

  /** The same for writing, if writability is never lost. */
  lemma {:induction false} WritePollerIsWoken(cfg: Config, run: seq<Event>)
    requires cfg.Valid() && FewPollers(cfg) && Calm(cfg)
    ensures WritePollerCovered(cfg, After(cfg, run))
    decreases |run|
  {
    hide Do, FewPollers, Calm, WindowOk;
    if run != [] {
      var before := run[..|run| - 1];
      WritePollerIsWoken(cfg, before);
      MessagesConserved(cfg, before);
      AlwaysWriteCovered(cfg, before);
      WritePollerStep(cfg, After(cfg, before), run[|run| - 1]);
    }
  }
}
