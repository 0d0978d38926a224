/** Pollers that wait in vain: when a FIFO that is ready is not reported to a poller asleep, and when it always is. */
module Unpolled {
  import opened Ring
  import opened Protocol
  import opened Invariants
  import opened Safety
  import opened Sleeping
  import opened Schedule
  import Overlap

  /** Without producers the FIFO stays empty. */
  lemma {:induction false} NoProducers(cfg: Config, run: seq<Event>)
    requires cfg.Valid() && cfg.producers == {}
    ensures After(cfg, run).sh.ring.IsEmpty()
    decreases |run|
  {
    hide Do, Local, Sound, InRole;
    if run != [] {
      var before, e := run[..|run| - 1], run[|run| - 1];
      var s := After(cfg, before);
      NoProducers(cfg, before);
      MessagesConserved(cfg, before);
      if Enabled(cfg, s, e) {
        SoundIsValid(cfg, s.sh);
        hide Ring.IsEmpty, ReadSide, WriteSide, SleepSide, Enabled;
        LocalOk(cfg, s, e);
        Others(cfg, s, e);
        EnabledThread(cfg, s, e);
        assert InRole(cfg, e.t, s.threads[e.t]);
      } else {
        assert Do(cfg, s, e) == s by { Nothing(cfg, s, e); }
      }
    }
  }

  lemma Nothing(cfg: Config, s: State, e: Event)
    requires s.sh.ring.Shaped() && !Enabled(cfg, s, e)
    ensures Do(cfg, s, e) == s
  {
    hide Enabled;
  }

  /** No poller of the read group is left asleep while the FIFO has a message, */
  lemma NoUnpolledReader(cfg: Config, run: seq<Event>, t: nat)
    requires cfg.Valid() && (cfg.producers == {} || FewPollers(cfg)) && t < cfg.threads
    ensures var s := After(cfg, run); Quiescent(s) && ReadWork(cfg, s.sh) ==> s.threads[t] != PollSleep(cfg.readGroup)
  {
    var s := After(cfg, run);
    if cfg.producers == {} { NoProducers(cfg, run); } else { ReadPollerIsWoken(cfg, run); }
    hide After, FewPollers, Ring.IsEmpty, Quiescent;
    if Quiescent(s) && ReadWork(cfg, s.sh) && s.threads[t] == PollSleep(cfg.readGroup) {
      var i: nat :| i < |s.threads| && (WillRead(s.threads[i]) || s.threads[i].MrGroup?);
      Active(s, i);
      assert false;
    }
  }

  /** and none of the write group while it is not blocked. */
  lemma NoUnpolledWriter(cfg: Config, run: seq<Event>, t: nat)
    requires cfg.Valid() && (cfg.pollers == {} || (Calm(cfg) && FewPollers(cfg))) && t < cfg.threads
    ensures var s := After(cfg, run); Quiescent(s) && WriteWork(cfg, s.sh) ==> s.threads[t] != PollSleep(cfg.writeGroup)
  {
    var s := After(cfg, run);
    if cfg.pollers == {} {
      MessagesConserved(cfg, run);
      assert InRole(cfg, t, s.threads[t]);
    } else {
      WritePollerIsWoken(cfg, run);
      hide After, FewPollers, Quiescent, Calm;
      if Quiescent(s) && WriteWork(cfg, s.sh) && s.threads[t] == PollSleep(cfg.writeGroup) {
        var i: nat :| i < |s.threads| && (WillWrite(s.threads[i]) || s.threads[i].MwGroup?);
        Active(s, i);
        assert false;
      }
    }
  }

  lemma Active(s: State, t: nat)
    requires Quiescent(s) && t < |s.threads|
    ensures var pc := s.threads[t]; !WillRead(pc) && !WillWrite(pc) && !pc.MrGroup? && !pc.MwGroup?
  {
  }

  /** A poll finds nothing, while polling is disabled, and waits. */
  lemma Waits(cfg: Config, run: seq<Event>, ts: seq<Pc>, n: nat, full: bool, t: nat, group: nat) returns (run': seq<Event>)
    requires cfg.Valid() && At(cfg, After(cfg, run), ts, n, full, OFF) && t < |ts| && ts[t] == Idle && t in cfg.pollers
    ensures At(cfg, After(cfg, run'), ts[t := PollSleep(group)], n, full, OFF)
  {
    hide After, Sound, Ring.Shaped, Ring.Contents;
    run' := Begins(cfg, run, t, Poll(group, true, false));
  }

  /** A message is enqueued while polling is disabled. */
  lemma OneMessage(cfg: Config, p: nat) returns (run: seq<Event>)
    requires cfg.Valid() && p < cfg.threads && p in cfg.producers
    ensures At(cfg, After(cfg, run), Idlers(cfg), 1, cfg.numEnts == 1, OFF)
  {
    hide After, At;
    var ts, pc := Idlers(cfg), Putting(cfg, 0);
    Start0(cfg);
    run := Puts(cfg, [], ts, 0, false, p, OFF);
    run := Settle(cfg, run, ts[p := pc], 1, cfg.numEnts == 1, p, NoCond, OFF);
    assert ts[p := pc][p := Idle] == ts;
  }

  /** Enabling read polling marks the FIFO ready and is about to signal the group. */
  lemma EnablesRead(cfg: Config, run: seq<Event>, c: nat) returns (run': seq<Event>)
    requires cfg.Valid() && cfg.readBound && c < cfg.threads && After(cfg, run).threads[c] == Idle
    requires After(cfg, run).sh.ring.NumInQueue() != 0
    requires forall i :: 0 <= i < cfg.threads ==> WaitsFor(After(cfg, run).threads[i]) != ConsumerCond
    ensures After(cfg, run') == State(After(cfg, run).sh.(readMask := true, readReady := true),
                                      After(cfg, run).threads[c := MrGroup(Done)])
  {
    hide After, TryPut, TryTake, TryPoll, EnqueueStep, DequeueStep, Ring.Shaped, Ring.NumInQueue, Ring.Avail;
    run' := Begins(cfg, run, c, EnableRead);
    run' := Moves(cfg, run', c);
    run' := Moves(cfg, run', c);
    run' := Moves(cfg, run', c);
    run' := Moves(cfg, run', c);
  }

  /** The signal wakes one poller, and it finds the FIFO. */
  lemma ReportsRead(cfg: Config, run: seq<Event>, c: nat, a: nat) returns (run': seq<Event>)
    requires cfg.Valid() && cfg.readBound && c < cfg.threads && a < cfg.threads && a != c
    requires var s := After(cfg, run);
      && s.threads[c] == MrGroup(Done) && s.threads[a] == PollSleep(cfg.readGroup)
      && s.sh.readReady && s.sh.readMask
    ensures After(cfg, run') == State(After(cfg, run).sh, After(cfg, run).threads[c := Idle][a := Idle])
  {
    hide After, TryPut, TryTake, Begin, EnqueueStep, DequeueStep, Ring.Shaped;
    run' := Wakes(cfg, run, c, a);
    run' := Moves(cfg, run', a);
  }

  /** Enabling write polling marks the FIFO ready and is about to signal the group. */
  lemma EnablesWrite(cfg: Config, run: seq<Event>, c: nat) returns (run': seq<Event>)
    requires cfg.Valid() && cfg.writeBound && c < cfg.threads && After(cfg, run).threads[c] == Idle
    requires After(cfg, run).sh.ring.Avail() != 0
    requires forall i :: 0 <= i < cfg.threads ==> WaitsFor(After(cfg, run).threads[i]) != ProducerCond
    ensures After(cfg, run') == State(After(cfg, run).sh.(writeMask := true, writeReady := true),
                                      After(cfg, run).threads[c := MwGroup(Done)])
  {
    hide After, TryPut, TryTake, TryPoll, EnqueueStep, DequeueStep, Ring.Shaped, Ring.NumInQueue, Ring.Avail;
    run' := Begins(cfg, run, c, EnableWrite);
    run' := Moves(cfg, run', c);
    run' := Moves(cfg, run', c);
    run' := Moves(cfg, run', c);
    run' := Moves(cfg, run', c);
  }

  /** The signal wakes one poller, and it finds the FIFO. */
  lemma ReportsWrite(cfg: Config, run: seq<Event>, c: nat, a: nat) returns (run': seq<Event>)
    requires cfg.Valid() && cfg.writeBound && c < cfg.threads && a < cfg.threads && a != c
    requires var s := After(cfg, run);
      && s.threads[c] == MwGroup(Done) && s.threads[a] == PollSleep(cfg.writeGroup)
      && s.sh.writeReady && s.sh.writeMask
    ensures After(cfg, run') == State(After(cfg, run).sh, After(cfg, run).threads[c := Idle][a := Idle])
  {
    hide After, TryPut, TryTake, Begin, EnqueueStep, DequeueStep, Ring.Shaped;
    run' := Wakes(cfg, run, c, a);
    run' := Moves(cfg, run', a);
  }

  /** Two pollers of the read group wait, a third thread enables polling: a message is there and one poller sleeps on. */
  lemma ReaderUnpolled(cfg: Config, a: nat, b: nat, c: nat, p: nat) returns (run: seq<Event>)
    requires cfg.Valid() && cfg.readBound && a < cfg.threads && b < cfg.threads && c < cfg.threads && p < cfg.threads
    requires a in cfg.pollers && b in cfg.pollers && p in cfg.producers && a != b && c != a && c != b
    ensures var s := After(cfg, run); Quiescent(s) && ReadWork(cfg, s.sh) && s.threads[b] == PollSleep(cfg.readGroup)
  {
    hide After, At;
    var ts, full := Idlers(cfg), cfg.numEnts == 1;
    run := OneMessage(cfg, p);
    run := Waits(cfg, run, ts, 1, full, b, cfg.readGroup);
    run := Waits(cfg, run, ts[b := PollSleep(cfg.readGroup)], 1, full, a, cfg.readGroup);
    var ts' := ts[b := PollSleep(cfg.readGroup)][a := PollSleep(cfg.readGroup)];
    ThreadsAt(cfg, After(cfg, run), ts', 1, full);
    run := EnablesRead(cfg, run, c);
    run := ReportsRead(cfg, run, c, a);
    assert ts'[c := MrGroup(Done)][c := Idle][a := Idle] == ts[b := PollSleep(cfg.readGroup)];
  }

  lemma ThreadsAt(cfg: Config, s: State, ts: seq<Pc>, n: nat, full: bool)
    requires At(cfg, s, ts, n, full, OFF)
    ensures s.threads == ts && s.sh.ring.queueFull == full
    ensures s.sh.ring.numEnts == cfg.numEnts > 0 && (s.sh.ring.IsEmpty() <==> n == 0)
    ensures (s.sh.ring.NumInQueue() == 0 <==> n == 0) && (s.sh.ring.Avail() == 0 <==> n == cfg.numEnts)
  {
    StatusIsExact(s.sh.ring);
  }

  /** Two pollers of the write group wait, a third thread enables polling, and one poller sleeps on. */
  lemma WriterUnpolled(cfg: Config, a: nat, b: nat, c: nat) returns (run: seq<Event>)
    requires cfg.Valid() && cfg.writeBound && a < cfg.threads && b < cfg.threads && c < cfg.threads
    requires a in cfg.pollers && b in cfg.pollers && a != b && c != a && c != b
    ensures var s := After(cfg, run); Quiescent(s) && WriteWork(cfg, s.sh) && s.threads[b] == PollSleep(cfg.writeGroup)
  {
    hide After, At;
    var ts := Idlers(cfg);
    Start0(cfg);
    run := Waits(cfg, [], ts, 0, false, b, cfg.writeGroup);
    run := Waits(cfg, run, ts[b := PollSleep(cfg.writeGroup)], 0, false, a, cfg.writeGroup);
    var ts' := ts[b := PollSleep(cfg.writeGroup)][a := PollSleep(cfg.writeGroup)];
    ThreadsAt(cfg, After(cfg, run), ts', 0, false);
    run := EnablesWrite(cfg, run, c);
    run := ReportsWrite(cfg, run, c, a);
    assert ts'[c := MwGroup(Done)][c := Idle][a := Idle] == ts[b := PollSleep(cfg.writeGroup)];
  }

  /** Where writability is lost, a poller that comes later waits in vain. */
  lemma LateWriterUnpolled(cfg: Config, p: nat, q: nat, c: nat, t: nat) returns (run: seq<Event>)
    requires cfg.Valid() && cfg.writeBound && cfg.lowWaterMark < cfg.numEnts && t < cfg.threads && t in cfg.pollers
    requires p < cfg.threads && q < cfg.threads && c < cfg.threads && p != q && p != c
    requires p in cfg.producers && q in cfg.producers && c in cfg.consumers
    ensures var s := After(cfg, run); Quiescent(s) && WriteWork(cfg, s.sh) && s.threads[t] == PollSleep(cfg.writeGroup)
  {
    hide After;
    run := Overlap.LostWritability(cfg, p, q, c);
    run := Begins(cfg, run, t, Poll(cfg.writeGroup, true, false));
  }

  // Exactly when

  /** No run leaves a poller of the read group asleep while the FIFO is masked in and has a message, exactly when nobody
      enqueues, at most one thread polls, or there are at most two threads. */
  lemma ReadPollersExact(cfg: Config)
    requires cfg.Valid() && cfg.readBound
    requires forall t :: t in cfg.producers || t in cfg.pollers ==> t < cfg.threads
    ensures (forall run, t: nat | t < cfg.threads :: var s := After(cfg, run);
               Quiescent(s) && ReadWork(cfg, s.sh) ==> s.threads[t] != PollSleep(cfg.readGroup))
            <==> cfg.producers == {} || FewPollers(cfg)
  {
    hide After, Quiescent, ReadWork;
    if cfg.producers == {} || FewPollers(cfg) {
      forall run, t: nat | t < cfg.threads
        ensures var s := After(cfg, run); Quiescent(s) && ReadWork(cfg, s.sh) ==> s.threads[t] != PollSleep(cfg.readGroup)
      {
        NoUnpolledReader(cfg, run, t);
      }
    } else {
      var p :| p in cfg.producers;
      var a, b, c := ThreeThreads(cfg);
      var run := ReaderUnpolled(cfg, a, b, c, p);
    }
  }

  lemma ThreeThreads(cfg: Config) returns (a: nat, b: nat, c: nat)
    requires !FewPollers(cfg) && forall t :: t in cfg.pollers ==> t < cfg.threads
    ensures a in cfg.pollers && b in cfg.pollers && a != b && c != a && c != b
    ensures a < cfg.threads && b < cfg.threads && c < cfg.threads
  {
    a, b :| a in cfg.pollers && b in cfg.pollers && a != b;
    c := if a != 0 && b != 0 then 0 else if a != 1 && b != 1 then 1 else 2;
  }

  /** No run leaves a poller of the write group asleep while the FIFO is masked in and not blocked, exactly when nobody
      polls, or writability is never lost and at most one thread polls or there are at most two threads. */
  lemma WritePollersExact(cfg: Config)
    requires cfg.Valid() && cfg.writeBound
    requires forall t :: t in cfg.producers || t in cfg.consumers || t in cfg.pollers ==> t < cfg.threads
    ensures (forall run, t: nat | t < cfg.threads :: var s := After(cfg, run);
               Quiescent(s) && WriteWork(cfg, s.sh) ==> s.threads[t] != PollSleep(cfg.writeGroup))
            <==> cfg.pollers == {} || (Calm(cfg) && FewPollers(cfg))
  {
    hide After, Quiescent, WriteWork;
    if cfg.pollers == {} || (Calm(cfg) && FewPollers(cfg)) {
      forall run, t: nat | t < cfg.threads
        ensures var s := After(cfg, run); Quiescent(s) && WriteWork(cfg, s.sh) ==> s.threads[t] != PollSleep(cfg.writeGroup)
      {
        NoUnpolledWriter(cfg, run, t);
      }
    } else if !FewPollers(cfg) {
      var a, b, c := ThreeThreads(cfg);
      var run := WriterUnpolled(cfg, a, b, c);
    } else {
      var t :| t in cfg.pollers;
      var p, q, c := Overlap.NotCalm(cfg);
      var run := LateWriterUnpolled(cfg, p, q, c, t);
    }
  }
}
