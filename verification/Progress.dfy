/** Calls come to an end: if no new call begins and nobody wakes without a signal, the threads soon are all idle or
    asleep, whatever the schedule. */
module Progress {
  import opened Ring
  import opened Protocol
  import opened Invariants
  import opened Safety

  /** How many steps a call may still take after the function it is in. A step that signals counts twice, because it may
      give another thread a step to take. */
  function RankNext(k: Next): nat {
    match k
    case Done => 0
    case ThenSignal => 2
    case ThenReadable => 6
    case ThenNonReadable => 11
  }

  function Rank(pc: Pc): nat {
    match pc
    case Idle => 0
    case FinalSignal => 2
    case MrGroup(k) => 2 + RankNext(k)
    case MrSet(k) => 3 + RankNext(k)
    case MrBind(k) => 4 + RankNext(k)
    case MrSignal(k) => 6 + RankNext(k)
    case NrRecheck(k) => 7 + RankNext(k)
    case NrClear(k) => 8 + RankNext(k)
    case NrBind(k) => 9 + RankNext(k)
    case MwGroup(k) => 2 + RankNext(k)
    case MwSet(k) => 3 + RankNext(k)
    case MwBind(k) => 4 + RankNext(k)
    case MwSignal(k) => 6 + RankNext(k)
    case EnqRecheck(k) => 7 + RankNext(k)
    case NwClear(k) => 8 + RankNext(k)
    case NwBind(k) => 9 + RankNext(k)
    case EnqSleep(_) => 15
    case EnqWoken(_) => 16
    case DeqSleep => 17
    case DeqWoken => 18
    case ReadCheck => 7
    case WriteCheck => 7
    case PollSleep(_) => 0
    case PollWoken(_) => 1
  }

  lemma PutRank(sh: Shared, m: Message)
    requires sh.ring.Shaped()
    ensures Rank(TryPut(sh, m, true).1) <= 15
  {
    hide Ring.Shaped;
  }

  lemma TakeRank(sh: Shared)
    requires sh.ring.Shaped()
    ensures Rank(TryTake(sh, true).1) <= 17
  {
    hide Ring.Shaped;
  }

  lemma ContinueRank()
    ensures forall k {:trigger Continue(k)} :: Rank(Continue(k)) == RankNext(k)
  {
  }

  /** A step brings a call nearer to its end, by two if it signals. */
  lemma ActRank(cfg: Config, sh: Shared, pc: Pc, other: bool)
    requires sh.ring.Shaped() && !pc.Idle? && !Asleep(pc)
    ensures Rank(Act(cfg, sh, pc, other).1) + (if Signals(cfg, pc) != NoCond then 2 else 1) <= Rank(pc)
  {
    hide TryPut, TryTake, Continue, Ring.NumInQueue, Ring.Avail, Ring.IsEmpty, Ring.Shaped;
    ContinueRank();
    if pc.EnqWoken? {
      PutRank(sh, pc.m);
    } else if pc.DeqWoken? {
      TakeRank(sh);
    }
  }

  function Total(threads: seq<Pc>): nat {
    if threads == [] then 0 else Rank(threads[0]) + Total(threads[1..])
  }

  lemma {:induction false} TotalUpdate(threads: seq<Pc>, t: nat, pc: Pc)
    requires t < |threads|
    ensures Total(threads[t := pc]) == Total(threads) - Rank(threads[t]) + Rank(pc)
    decreases |threads|
  {
    hide Rank;
    if t > 0 {
      TotalUpdate(threads[1..], t - 1, pc);
      assert threads[t := pc][1..] == threads[1..][t - 1 := pc];
    } else {
      assert threads[t := pc][1..] == threads[1..];
    }
  }

  lemma AwakeRank(pc: Pc)
    requires Asleep(pc)
    ensures Rank(Awake(pc)) == Rank(pc) + 1
  {
  }

  /** Every step that is not the beginning of a call nor a spurious wake-up lowers the total. */
  lemma StepLowersTotal(cfg: Config, s: State, e: Event)
    requires s.sh.ring.Shaped() && Enabled(cfg, s, e) && e.Go?
    ensures Total(Do(cfg, s, e).threads) < Total(s.threads)
  {
    var pc, cond := s.threads[e.t], Signals(cfg, s.threads[e.t]);
    ActRank(cfg, s.sh, pc, e.other);
    hide Act, Rank, Signals, Total, Awake, CanSignal;
    var (sh', pc') := Act(cfg, s.sh, pc, e.other);
    var woken := Signal(s.threads, cond, e.woken);
    TotalUpdate(woken, e.t, pc');
    if cond != NoCond && e.woken < |s.threads| && WaitsFor(s.threads[e.woken]) == cond {
      AwakeRank(s.threads[e.woken]);
      TotalUpdate(s.threads, e.woken, Awake(s.threads[e.woken]));
      assert woken[e.t] == pc;
    }
  }

  /** The state after further steps, all of them possible ones of threads that are active. */
  ghost predicate Runs(cfg: Config, s: State, steps: seq<Event>, s': State)
    requires s.sh.ring.Shaped()
    decreases |steps|
  {
    if steps == [] then s' == s
    else steps[0].Go? && Enabled(cfg, s, steps[0]) && Runs(cfg, Do(cfg, s, steps[0]), steps[1..], s')
  }

  /** However the active threads are scheduled, there are at most Total(threads) steps to come. */
  lemma {:induction false} CallsEnd(cfg: Config, s: State, steps: seq<Event>, s': State)
    requires s.sh.ring.Shaped() && Runs(cfg, s, steps, s')
    ensures |steps| + Total(s'.threads) <= Total(s.threads)
    decreases |steps|
  {
    hide Do, Enabled, Total;
    if steps != [] {
      StepLowersTotal(cfg, s, steps[0]);
      CallsEnd(cfg, Do(cfg, s, steps[0]), steps[1..], s');
    }
  }

  /** As long as a thread is active, some step is possible. */
  lemma SomeStep(cfg: Config, s: State) returns (e: Event)
    requires !Quiescent(s)
    ensures e.Go? && Enabled(cfg, s, e)
  {
    var t: nat :| t < |s.threads| && !s.threads[t].Idle? && !Asleep(s.threads[t]);
    var cond := Signals(cfg, s.threads[t]);
    e := Go(t, 0, false);
    if i :| 0 <= i < |s.threads| && WaitsFor(s.threads[i]) == cond {
      e := Go(t, i, false);
    }
  }

  /** The run with the steps added. */
  lemma {:induction false} RunsAfter(cfg: Config, run: seq<Event>, steps: seq<Event>, s': State)
    requires cfg.Valid() && Runs(cfg, After(cfg, run), steps, s')
    ensures After(cfg, run + steps) == s'
    decreases |steps|
  {
    hide Do;
    if steps == [] {
      assert run + steps == run;
    } else {
      var next := run + [steps[0]];
      assert next[..|next| - 1] == run;
      RunsAfter(cfg, next, steps[1..], s');
      assert next + steps[1..] == run + steps;
    }
  }

  /** From every reachable state, whatever the schedule: after boundedly many steps of the threads that are active no
      further one is possible, and then a bound, masked-in FIFO with a message is marked readable and, with one
      producer, one that takes messages is marked writable. */
  lemma EventuallyReady(cfg: Config, run: seq<Event>, steps: seq<Event>, s': State)
    requires cfg.Valid() && Runs(cfg, After(cfg, run), steps, s')
    ensures |steps| <= Total(After(cfg, run).threads)
    ensures (forall e: Event :: e.Go? ==> !Enabled(cfg, s', e)) ==>
      && (ReadWork(cfg, s'.sh) ==> s'.sh.readReady)
      && (Calm(cfg) && WriteWork(cfg, s'.sh) ==> s'.sh.writeReady)
  {
    hide After, Enabled, Calm, Runs;
    CallsEnd(cfg, After(cfg, run), steps, s');
    RunsAfter(cfg, run, steps, s');
    if forall e: Event :: e.Go? ==> !Enabled(cfg, s', e) {
      if !Quiescent(s') {
        var e := SomeStep(cfg, s');
        assert false;
      }
      NoLostReadability(cfg, run + steps);
      if Calm(cfg) {
        NoLostWritability(cfg, run + steps);
      }
    }
  }
}
