/** Threads that wait in vain: when a signal goes to a thread that can do without it, and when that never happens. */
module Starving {
  import opened Ring
  import opened Protocol
  import opened Invariants
  import opened Sleeping
  import opened Waiting
  import opened Schedule

  // Two consumers wait, and one of them is left waiting

  lemma SleepsEmpty(cfg: Config, run: seq<Event>, ts: seq<Pc>, full: bool, t: nat) returns (run': seq<Event>)
    requires cfg.Valid() && At(cfg, After(cfg, run), ts, 0, full, OFF) && t < |ts| && ts[t].Idle? && t in cfg.consumers
    ensures At(cfg, After(cfg, run'), ts[t := DeqSleep], 0, full, OFF)
  {
    StatusAt(cfg, After(cfg, run).sh);
    hide After, Sound, Ring.Shaped, Ring.Contents, Ring.IsEmpty;
    run' := Begins(cfg, run, t, Dequeue(true));
  }

  lemma SleepsFull(cfg: Config, run: seq<Event>, ts: seq<Pc>, t: nat) returns (run': seq<Event>)
    requires cfg.Valid() && At(cfg, After(cfg, run), ts, cfg.numEnts, true, OFF) && t < |ts| && ts[t].Idle? && t in cfg.producers
    ensures At(cfg, After(cfg, run'), ts[t := EnqSleep(0)], cfg.numEnts, true, OFF)
  {
    StatusAt(cfg, After(cfg, run).sh);
    hide After, Sound, Ring.Shaped, Ring.Contents, Ring.IsFull;
    run' := Begins(cfg, run, t, Enqueue(0, true));
  }

  /** make_readable wakes a consumer. */
  lemma WakesConsumer(cfg: Config, run: seq<Event>, ts: seq<Pc>, n: nat, full: bool, t: nat, w: nat)
    returns (run': seq<Event>)
    requires cfg.Valid() && At(cfg, After(cfg, run), ts, n, full, OFF) && Only(ConsumerCond, ts) && t < |ts| && w < |ts|
    requires ts[t] == MrSignal(Done) && ts[w] == DeqSleep
    ensures At(cfg, After(cfg, run'), ts[w := DeqWoken][t := Idle], n, full, OFF)
  {
    hide After, Sound, Ring.Shaped, Ring.Contents;
    run' := Wakes(cfg, run, t, w);
    var ts' := ts[w := DeqWoken][t := MrBind(Done)];
    assert At(cfg, After(cfg, run'), ts', n, full, OFF);
    hide At;
    run' := Settle(cfg, run', ts', n, full, t, ConsumerCond, OFF);
    assert ts'[t := Idle] == ts[w := DeqWoken][t := Idle];
  }

  /** Two consumers wait and the one message wakes the first of them. */
  lemma OneIsWoken(cfg: Config, a: nat, b: nat, p: nat) returns (run: seq<Event>)
    requires cfg.Valid() && cfg.numEnts > 1 && a < cfg.threads && b < cfg.threads && p < cfg.threads
    requires a in cfg.consumers && b in cfg.consumers && p in cfg.producers && a != b && p != a && p != b
    ensures At(cfg, After(cfg, run), Idlers(cfg)[b := DeqSleep][a := DeqWoken], 1, false, OFF)
  {
    hide After, At;
    var ts := Idlers(cfg);
    Start0(cfg);
    run := SleepsEmpty(cfg, [], ts, false, a);
    run := SleepsEmpty(cfg, run, ts[a := DeqSleep], false, b);
    var both := ts[a := DeqSleep][b := DeqSleep];
    run := Puts(cfg, run, both, 0, false, p, OFF);
    assert Putting(cfg, 0) == MrSignal(Done);
    run := WakesConsumer(cfg, run, both[p := MrSignal(Done)], 1, false, p, a);
    assert both[p := MrSignal(Done)][a := DeqWoken][p := Idle] == ts[b := DeqSleep][a := DeqWoken];
  }

  /** The woken consumer takes a message and leaves some. */
  lemma TakesOne(cfg: Config, run: seq<Event>, ts: seq<Pc>, n: nat, full: bool, a: nat) returns (run': seq<Event>)
    requires cfg.Valid() && a < |ts| && At(cfg, After(cfg, run), ts[a := DeqWoken], n, full, OFF) && n > 1
    requires Only(ConsumerCond, ts) && ts[a] == Idle
    ensures At(cfg, After(cfg, run'), ts, n - 1, full && n > cfg.lowWaterMark, OFF)
  {
    hide After, At;
    var full' := full && n > cfg.lowWaterMark;
    run' := Takes(cfg, run, ts[a := DeqWoken], n, full, a, OFF);
    var pc := Taking(cfg, n, full);
    assert ts[a := DeqWoken][a := pc] == ts[a := pc];
    run' := Settle(cfg, run', ts[a := pc], n - 1, full', a, ConsumerCond, OFF);
    if pc.MwSignal? {
      assert ts[a := pc][a := FinalSignal] == ts[a := FinalSignal];
      run' := LastSignal(cfg, run', ts[a := FinalSignal], n - 1, full', a, OFF);
      assert ts[a := FinalSignal][a := Idle] == ts;
    } else {
      assert ts[a := pc][a := Idle] == ts;
    }
  }

  /** Any FIFO of two or more entries, whatever the mark: two consumers wait, the one message wakes the first of them,
      a second message does not find the ring empty and so wakes nobody, and the other consumer sleeps on. */
  lemma ConsumerStarves(cfg: Config, a: nat, b: nat, p: nat) returns (run: seq<Event>)
    requires cfg.Valid() && cfg.numEnts > 1 && a < cfg.threads && b < cfg.threads && p < cfg.threads
    requires a in cfg.consumers && b in cfg.consumers && p in cfg.producers && a != b && p != a && p != b
    ensures var s := After(cfg, run); Quiescent(s) && !s.sh.ring.IsEmpty() && s.threads[b].DeqSleep?
  {
    hide After, At;
    var ts, full := Idlers(cfg)[b := DeqSleep], cfg.numEnts == 2;
    run := OneIsWoken(cfg, a, b, p);
    run := Enqueues(cfg, run, ts[a := DeqWoken], 1, p, ConsumerCond, OFF);
    assert ts[a := DeqWoken][p := Idle] == ts[a := DeqWoken];
    run := TakesOne(cfg, run, ts, 2, full, a);
    AtRest(cfg, After(cfg, run), ts, 1, full && 2 > cfg.lowWaterMark, OFF);
  }

  // Three producers wait, and one of them is left waiting

  lemma {:induction false} FillsUp(cfg: Config, run: seq<Event>, ts: seq<Pc>, n: nat, t: nat) returns (run': seq<Event>)
    requires cfg.Valid() && cfg.numEnts > 1 && t < |ts| && t in cfg.producers && ts[t] == Idle
    requires n < cfg.numEnts && At(cfg, After(cfg, run), ts, n, false, OFF) && Only(if n == 0 then NoCond else ConsumerCond, ts)
    ensures At(cfg, After(cfg, run'), ts, cfg.numEnts, true, OFF)
    decreases cfg.numEnts - n
  {
    hide After, At;
    run' := Enqueues(cfg, run, ts, n, t, if n == 0 then ProducerCond else ConsumerCond, OFF);
    assert ts[t := Idle] == ts;
    if n + 1 < cfg.numEnts {
      run' := FillsUp(cfg, run', ts, n + 1, t);
    }
  }

  /** Dequeues down to `to` messages that leave the FIFO blocked, or not. */
  lemma {:induction false} Drains(cfg: Config, run: seq<Event>, ts: seq<Pc>, n: nat, to: nat, full: bool, t: nat)
    returns (run': seq<Event>)
    requires cfg.Valid() && t < |ts| && t in cfg.consumers && ts[t] == Idle && Only(ProducerCond, ts)
    requires to <= n && (full ==> cfg.lowWaterMark <= to) && At(cfg, After(cfg, run), ts, n, full, OFF)
    ensures At(cfg, After(cfg, run'), ts, to, full, OFF)
    decreases n
  {
    hide After, At;
    run' := run;
    if to < n {
      run' := Dequeues(cfg, run, ts, n, full, t, OFF);
      run' := Drains(cfg, run', ts, n - 1, to, full, t);
    }
  }

  /** The thread at its first or last signal to the producers wakes `w`. */
  lemma WakesProducer(cfg: Config, run: seq<Event>, ts: seq<Pc>, n: nat, full: bool, t: nat, w: nat)
    returns (run': seq<Event>)
    requires cfg.Valid() && At(cfg, After(cfg, run), ts, n, full, OFF) && t < |ts| && w < |ts|
    requires (ts[t].MwSignal? || ts[t].FinalSignal?) && ts[w] == EnqSleep(0)
    ensures At(cfg, After(cfg, run'), ts[w := EnqWoken(0)][t := if ts[t].MwSignal? then MwBind(ts[t].k) else Idle], n, full, OFF)
  {
    hide After, Sound, Ring.Shaped, Ring.Contents;
    run' := Wakes(cfg, run, t, w);
  }

  /** The dequeue that unblocks the FIFO wakes two producers. */
  lemma Unblocks(cfg: Config, run: seq<Event>, ts: seq<Pc>, n: nat, c: nat, a: nat, b: nat) returns (run': seq<Event>)
    requires cfg.Valid() && At(cfg, After(cfg, run), ts, n, true, OFF) && 0 < n <= cfg.lowWaterMark && Only(ProducerCond, ts)
    requires c < |ts| && a < |ts| && b < |ts| && a != b && c in cfg.consumers
    requires ts[c] == Idle && ts[a] == EnqSleep(0) && ts[b] == EnqSleep(0)
    ensures At(cfg, After(cfg, run'), ts[a := EnqWoken(0)][b := EnqWoken(0)], n - 1, false, OFF)
  {
    hide After, At;
    var k := if n == 1 then ThenNonReadable else ThenSignal;
    run' := Takes(cfg, run, ts, n, true, c, OFF);
    run' := WakesProducer(cfg, run', ts[c := MwSignal(k)], n - 1, false, c, a);
    var ts1 := ts[a := EnqWoken(0)];
    assert ts[c := MwSignal(k)][a := EnqWoken(0)][c := MwBind(k)] == ts1[c := MwBind(k)];
    run' := Settle(cfg, run', ts1[c := MwBind(k)], n - 1, false, c, ProducerCond, OFF);
    assert ts1[c := MwBind(k)][c := FinalSignal] == ts1[c := FinalSignal];
    run' := WakesProducer(cfg, run', ts1[c := FinalSignal], n - 1, false, c, b);
    assert ts1[c := FinalSignal][b := EnqWoken(0)][c := Idle] == ts1[b := EnqWoken(0)];
  }

  /** The ring is filled up and three producers wait. */
  lemma ThreeWait(cfg: Config, a: nat, b: nat, d: nat) returns (run: seq<Event>)
    requires cfg.Valid() && cfg.numEnts > 1 && a < cfg.threads && b < cfg.threads && d < cfg.threads
    requires a in cfg.producers && b in cfg.producers && d in cfg.producers && a != b && a != d && b != d
    ensures At(cfg, After(cfg, run), Idlers(cfg)[d := EnqSleep(0)][a := EnqSleep(0)][b := EnqSleep(0)], cfg.numEnts, true, OFF)
  {
    hide After, At;
    var ts := Idlers(cfg);
    Start0(cfg);
    run := FillsUp(cfg, [], ts, 0, a);
    run := SleepsFull(cfg, run, ts, d);
    run := SleepsFull(cfg, run, ts[d := EnqSleep(0)], a);
    run := SleepsFull(cfg, run, ts[d := EnqSleep(0)][a := EnqSleep(0)], b);
  }

  /** The two woken producers find an empty ring, one after the other, and a dequeue in between. */
  lemma BothGoOn(cfg: Config, run: seq<Event>, ts: seq<Pc>, a: nat, b: nat, c: nat) returns (run': seq<Event>)
    requires cfg.Valid() && cfg.numEnts > 1 && a < |ts| && b < |ts| && c < |ts| && a != b && c != a && c != b
    requires At(cfg, After(cfg, run), ts[a := EnqWoken(0)][b := EnqWoken(0)], 0, false, OFF) && Only(ProducerCond, ts)
    requires ts[a] == Idle && ts[b] == Idle && ts[c] == Idle && c in cfg.consumers
    ensures At(cfg, After(cfg, run'), ts, 1, false, OFF)
  {
    hide After, At;
    run' := Enqueues(cfg, run, ts[a := EnqWoken(0)][b := EnqWoken(0)], 0, a, ProducerCond, OFF);
    assert ts[a := EnqWoken(0)][b := EnqWoken(0)][a := Idle] == ts[b := EnqWoken(0)];
    run' := Dequeues(cfg, run', ts[b := EnqWoken(0)], 1, false, c, OFF);
    run' := Enqueues(cfg, run', ts[b := EnqWoken(0)], 0, b, ProducerCond, OFF);
    assert ts[b := EnqWoken(0)][b := Idle] == ts;
  }

  /** Three producers wait, the dequeue that unblocks the FIFO wakes two of them, and these two enqueue. */
  lemma ThirdIsLeft(cfg: Config, a: nat, b: nat, d: nat, c: nat) returns (run: seq<Event>)
    requires cfg.Valid() && cfg.numEnts > 1 && a < cfg.threads && b < cfg.threads && d < cfg.threads && c < cfg.threads
    requires a in cfg.producers && b in cfg.producers && d in cfg.producers && c in cfg.consumers
    requires a != b && a != d && b != d && c != a && c != b && c != d
    ensures At(cfg, After(cfg, run), Idlers(cfg)[d := EnqSleep(0)], 1, false, OFF)
  {
    hide After, At;
    var N, L := cfg.numEnts, cfg.lowWaterMark;
    var n := if L < N then L else N;
    var ts := Idlers(cfg)[d := EnqSleep(0)];
    var ts3 := ts[a := EnqSleep(0)][b := EnqSleep(0)];
    run := ThreeWait(cfg, a, b, d);
    if L < N { run := Drains(cfg, run, ts3, N, L, true, c); }
    run := Unblocks(cfg, run, ts3, n, c, a, b);
    var ts2 := ts[a := EnqWoken(0)][b := EnqWoken(0)];
    assert ts3[a := EnqWoken(0)][b := EnqWoken(0)] == ts2;
    run := Drains(cfg, run, ts2, n - 1, 0, false, c);
    run := BothGoOn(cfg, run, ts, a, b, c);
  }

  /** Any FIFO of two or more entries, whatever the mark: three producers wait, the dequeue that unblocks the FIFO wakes
      two of them, and no later dequeue signals the third, although there is space. */
  lemma ProducerStarves(cfg: Config, a: nat, b: nat, d: nat, c: nat) returns (run: seq<Event>)
    requires cfg.Valid() && cfg.numEnts > 1 && a < cfg.threads && b < cfg.threads && d < cfg.threads && c < cfg.threads
    requires a in cfg.producers && b in cfg.producers && d in cfg.producers && c in cfg.consumers
    requires a != b && a != d && b != d && c != a && c != b && c != d
    ensures var s := After(cfg, run); Quiescent(s) && !s.sh.ring.queueFull && s.threads[d].EnqSleep?
  {
    hide After, At;
    run := ThirdIsLeft(cfg, a, b, d, c);
    AtRest(cfg, After(cfg, run), Idlers(cfg)[d := EnqSleep(0)], 1, false, OFF);
  }

  // A producer and a consumer wait for each other

  /** The producer that starves, and the consumer takes the last message and waits. */
  lemma DeadlockByProducers(cfg: Config, a: nat, b: nat, d: nat, c: nat) returns (run: seq<Event>)
    requires cfg.Valid() && cfg.numEnts > 1 && a < cfg.threads && b < cfg.threads && d < cfg.threads && c < cfg.threads
    requires a in cfg.producers && b in cfg.producers && d in cfg.producers && c in cfg.consumers
    requires a != b && a != d && b != d && c != a && c != b && c != d
    ensures var s := After(cfg, run); Quiescent(s) && s.threads[d].EnqSleep? && s.threads[c].DeqSleep?
  {
    hide After, At;
    var ts := Idlers(cfg)[d := EnqSleep(0)];
    run := ThirdIsLeft(cfg, a, b, d, c);
    run := Dequeues(cfg, run, ts, 1, false, c, OFF);
    run := SleepsEmpty(cfg, run, ts, false, c);
    AtRest(cfg, After(cfg, run), ts[c := DeqSleep], 0, false, OFF);
  }

  /** The consumer that starves, and the producer fills the ring up and waits: before the other consumer takes a message if
      the FIFO stays blocked then, and otherwise afterwards. */
  lemma DeadlockByConsumers(cfg: Config, a: nat, b: nat, p: nat) returns (run: seq<Event>)
    requires cfg.Valid() && cfg.numEnts > 1 && a < cfg.threads && b < cfg.threads && p < cfg.threads
    requires a in cfg.consumers && b in cfg.consumers && p in cfg.producers && a != b && p != a && p != b
    ensures var s := After(cfg, run); Quiescent(s) && s.threads[p].EnqSleep? && s.threads[b].DeqSleep?
  {
    hide After, At;
    var N, L := cfg.numEnts, cfg.lowWaterMark;
    var ts := Idlers(cfg)[b := DeqSleep];
    var ts' := ts[p := EnqSleep(0)];
    run := OneIsWoken(cfg, a, b, p);
    run := FillsUp(cfg, run, ts[a := DeqWoken], 1, p);
    if L < N {
      run := SleepsFull(cfg, run, ts[a := DeqWoken], p);
      run := Takes(cfg, run, ts[a := DeqWoken][p := EnqSleep(0)], N, true, a, OFF);
      assert ts[a := DeqWoken][p := EnqSleep(0)][a := Idle] == ts';
      AtRest(cfg, After(cfg, run), ts', N - 1, true, OFF);
    } else {
      run := TakesOne(cfg, run, ts, N, true, a);
      run := FillsUp(cfg, run, ts, N - 1, p);
      run := SleepsFull(cfg, run, ts, p);
      AtRest(cfg, After(cfg, run), ts', N, true, OFF);
    }
  }

  // Exactly when

  /** For every configuration: no run leaves a consumer asleep with a message there, exactly when the FIFO has one entry
      or there are not two consumers and a separate producer. */
  lemma ConsumersExact(cfg: Config)
    requires cfg.Valid() && forall t :: t in cfg.producers || t in cfg.consumers ==> t < cfg.threads
    ensures (forall run, c: nat | c < cfg.threads :: var s := After(cfg, run);
               Quiescent(s) && !s.sh.ring.IsEmpty() ==> !s.threads[c].DeqSleep?)
            <==> cfg.numEnts == 1 || !ManyConsumers(cfg)
  {
    hide After, Quiescent, Ring.IsEmpty;
    if cfg.numEnts == 1 || !ManyConsumers(cfg) {
      forall run, c: nat | c < cfg.threads
        ensures var s := After(cfg, run); Quiescent(s) && !s.sh.ring.IsEmpty() ==> !s.threads[c].DeqSleep?
      {
        NoStarvedConsumer(cfg, run, c);
      }
    } else {
      var a: nat, b: nat, p: nat :|
        a in cfg.consumers && b in cfg.consumers && p in cfg.producers && a != b && p != a && p != b;
      var run := ConsumerStarves(cfg, a, b, p);
    }
  }

  /** No run leaves a producer asleep with the FIFO unblocked, exactly when the FIFO has one entry or there are not three
      producers and a separate consumer. */
  lemma ProducersExact(cfg: Config)
    requires cfg.Valid() && forall t :: t in cfg.producers || t in cfg.consumers ==> t < cfg.threads
    ensures (forall run, p: nat | p < cfg.threads :: var s := After(cfg, run);
               Quiescent(s) && !s.sh.ring.queueFull ==> !s.threads[p].EnqSleep?)
            <==> cfg.numEnts == 1 || !ManyProducers(cfg)
  {
    hide After, Quiescent;
    if cfg.numEnts == 1 || !ManyProducers(cfg) {
      forall run, p: nat | p < cfg.threads
        ensures var s := After(cfg, run); Quiescent(s) && !s.sh.ring.queueFull ==> !s.threads[p].EnqSleep?
      {
        NoStarvedProducer(cfg, run, p);
      }
    } else {
      var a: nat, b: nat, d: nat, c: nat :|
        && a in cfg.producers && b in cfg.producers && d in cfg.producers && c in cfg.consumers
        && a != b && a != d && b != d && c != a && c != b && c != d;
      var run := ProducerStarves(cfg, a, b, d, c);
    }
  }

  /** No run leaves a producer and a consumer asleep with nobody active, exactly when the FIFO has one entry, or there are
      neither three producers and a separate consumer nor two consumers and a separate producer. */
  lemma DeadlockExact(cfg: Config)
    requires cfg.Valid() && forall t :: t in cfg.producers || t in cfg.consumers ==> t < cfg.threads
    ensures (forall run, p: nat, c: nat | p < cfg.threads && c < cfg.threads :: var s := After(cfg, run);
               Quiescent(s) ==> !(s.threads[p].EnqSleep? && s.threads[c].DeqSleep?))
            <==> cfg.numEnts == 1 || (!ManyProducers(cfg) && !ManyConsumers(cfg))
  {
    hide After, Quiescent;
    if cfg.numEnts == 1 || (!ManyProducers(cfg) && !ManyConsumers(cfg)) {
      forall run, p: nat, c: nat | p < cfg.threads && c < cfg.threads
        ensures var s := After(cfg, run); Quiescent(s) ==> !(s.threads[p].EnqSleep? && s.threads[c].DeqSleep?)
      {
        NoDeadlock(cfg, run, p, c);
      }
    } else if ManyProducers(cfg) {
      var a: nat, b: nat, d: nat, c: nat :|
        && a in cfg.producers && b in cfg.producers && d in cfg.producers && c in cfg.consumers
        && a != b && a != d && b != d && c != a && c != b && c != d;
      var run := DeadlockByProducers(cfg, a, b, d, c);
    } else {
      var a: nat, b: nat, p: nat :|
        a in cfg.consumers && b in cfg.consumers && p in cfg.producers && a != b && p != a && p != b;
      var run := DeadlockByConsumers(cfg, a, b, p);
    }
  }
}
