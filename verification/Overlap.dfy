/** Two enqueues at once: when writability is lost, and when it is not. */
module Overlap {
  import opened Ring
  import opened Protocol
  import opened Invariants
  import opened Safety
  import opened Schedule

  /** Write polling is enabled. */
  function On(ready: bool): Marks {
    Marks(true, ready)
  }

  /** Nobody is asleep. */
  ghost predicate Up(ts: seq<Pc>) {
    Only(NoCond, ts)
  }

  /** One step that does nothing to the shared state but perhaps to the ready bit. */
  lemma Goes(cfg: Config, run: seq<Event>, ts: seq<Pc>, n: nat, full: bool, t: nat, ready: bool, ready': bool, pc': Pc)
    returns (run': seq<Event>)
    requires cfg.Valid() && At(cfg, After(cfg, run), ts, n, full, On(ready)) && Up(ts)
    requires t < |ts| && !ts[t].Idle? && !Asleep(ts[t])
    requires var sh := After(cfg, run).sh; Act(cfg, sh, ts[t], false) == (sh.(writeReady := ready'), pc')
    ensures At(cfg, After(cfg, run'), ts[t := pc'], n, full, On(ready'))
    ensures After(cfg, run').sh == After(cfg, run).sh.(writeReady := ready')
  {
    hide After, Act, Sound, Ring.Contents, Ring.Shaped, Signals, Asleep;
    run' := Moves(cfg, run, t);
    SoundSame(cfg, After(cfg, run).sh, After(cfg, run').sh);
  }

  lemma WritableActs(cfg: Config, sh: Shared, k: Next)
    requires sh.ring.Shaped() && cfg.writeBound && sh.writeMask
    ensures Act(cfg, sh, MwSignal(k), false) == (sh, MwBind(k)) && Act(cfg, sh, MwBind(k), false) == (sh, MwSet(k))
    ensures Act(cfg, sh, MwSet(k), false) == (sh.(writeReady := true), MwGroup(k))
    ensures Act(cfg, sh, MwGroup(k), false) == (sh, Continue(k))
    ensures !Asleep(MwSignal(k)) && !Asleep(MwBind(k)) && !Asleep(MwSet(k)) && !Asleep(MwGroup(k))
  {
    hide Continue, Ring.Shaped;
  }

  /** make_writable while write polling is enabled sets the ready bit. */
  lemma FinishWritable(cfg: Config, run: seq<Event>, ts: seq<Pc>, n: nat, full: bool, t: nat, ready: bool)
    returns (run': seq<Event>)
    requires cfg.Valid() && cfg.writeBound && At(cfg, After(cfg, run), ts, n, full, On(ready)) && Up(ts)
    requires t < |ts| && ts[t].MwSignal?
    ensures At(cfg, After(cfg, run'), ts[t := Continue(ts[t].k)], n, full, On(true))
  {
    var k := ts[t].k;
    var sh := After(cfg, run).sh;
    WritableActs(cfg, sh, k);
    WritableActs(cfg, sh.(writeReady := true), k);
    assert sh == sh.(writeReady := ready);
    hide After, At, Continue, Act, Asleep, Ring.Shaped;
    run' := Goes(cfg, run, ts, n, full, t, ready, ready, MwBind(k));
    run' := Goes(cfg, run', ts[t := MwBind(k)], n, full, t, ready, ready, MwSet(k));
    assert ts[t := MwBind(k)][t := MwSet(k)] == ts[t := MwSet(k)];
    run' := Goes(cfg, run', ts[t := MwSet(k)], n, full, t, ready, true, MwGroup(k));
    assert ts[t := MwSet(k)][t := MwGroup(k)] == ts[t := MwGroup(k)];
    run' := Goes(cfg, run', ts[t := MwGroup(k)], n, full, t, true, true, Continue(k));
    assert ts[t := MwGroup(k)][t := Continue(k)] == ts[t := Continue(k)];
  }

  /** A new FIFO with write polling enabled. */
  lemma Enable(cfg: Config, t: nat) returns (run: seq<Event>)
    requires cfg.Valid() && cfg.writeBound && t < cfg.threads
    ensures At(cfg, After(cfg, run), Idlers(cfg), 0, false, On(true))
  {
    var ts, sh := Idlers(cfg), After(cfg, []).sh;
    Start0(cfg);
    StatusIsExact(sh.ring);
    hide After, EnqueueStep, WritableStep, ReadableStep, DequeueStep, Sound, Ring.Contents, Ring.Shaped, Ring.Avail;
    run := Begins(cfg, [], t, EnableWrite);
    run := Moves(cfg, run, t);
    SoundSame(cfg, sh, After(cfg, run).sh);
    run := FinishWritable(cfg, run, ts[t := MwSignal(Done)], 0, false, t, After(cfg, run).sh.writeReady);
    assert ts[t := MwSignal(Done)][t := Idle] == ts;
  }

  /** Enqueues up to the last free entry. */
  lemma {:induction false} EnqueueMany(cfg: Config, run: seq<Event>, ts: seq<Pc>, n: nat, t: nat) returns (run': seq<Event>)
    requires cfg.Valid() && At(cfg, After(cfg, run), ts, n, false, On(true)) && Up(ts) && n < cfg.numEnts
    requires t < |ts| && ts[t] == Idle && t in cfg.producers
    ensures At(cfg, After(cfg, run'), ts, cfg.numEnts - 1, false, On(true))
    decreases cfg.numEnts - n
  {
    hide After, At;
    run' := run;
    if n + 1 < cfg.numEnts {
      run' := Enqueues(cfg, run, ts, n, t, if n == 0 then ProducerCond else ConsumerCond, On(true));
      assert ts[t := Idle] == ts;
      run' := EnqueueMany(cfg, run', ts, n + 1, t);
    }
  }

  /** Dequeues that leave the FIFO blocked. */
  lemma {:induction false} DequeueMany(cfg: Config, run: seq<Event>, ts: seq<Pc>, n: nat, t: nat) returns (run': seq<Event>)
    requires cfg.Valid() && At(cfg, After(cfg, run), ts, n, true, On(true)) && Up(ts) && n >= cfg.lowWaterMark
    requires t < |ts| && ts[t] == Idle && t in cfg.consumers
    ensures At(cfg, After(cfg, run'), ts, cfg.lowWaterMark, true, On(true))
    decreases n
  {
    hide After, At;
    run' := run;
    if n > cfg.lowWaterMark {
      run' := Dequeues(cfg, run, ts, n, true, t, On(true));
      run' := DequeueMany(cfg, run', ts, n - 1, t);
    }
  }

  /** The dequeue that takes the ring below the mark: it clears `queue_full` and sets the ready bit. */
  lemma DequeueBelow(cfg: Config, run: seq<Event>, ts: seq<Pc>, t: nat) returns (run': seq<Event>)
    requires cfg.Valid() && cfg.writeBound && At(cfg, After(cfg, run), ts, cfg.lowWaterMark, true, On(true)) && Up(ts)
    requires t < |ts| && ts[t] == Idle && t in cfg.consumers
    ensures At(cfg, After(cfg, run'), ts, cfg.lowWaterMark - 1, false, On(true))
  {
    hide After, At;
    var L := cfg.lowWaterMark;
    var k := if L == 1 then ThenNonReadable else ThenSignal;
    run' := Takes(cfg, run, ts, L, true, t, On(true));
    run' := FinishWritable(cfg, run', ts[t := MwSignal(k)], L - 1, false, t, true);
    assert ts[t := MwSignal(k)][t := Continue(k)] == ts[t := Continue(k)];
    run' := Settle(cfg, run', ts[t := Continue(k)], L - 1, false, t, ProducerCond, On(true));
    assert ts[t := Continue(k)][t := FinalSignal] == ts[t := FinalSignal];
    run' := LastSignal(cfg, run', ts[t := FinalSignal], L - 1, false, t, On(true));
    assert ts[t := FinalSignal][t := Idle] == ts;
  }

  /** The window of the enqueue that filled the ring, up to the check. */
  lemma ClearReady(cfg: Config, run: seq<Event>, ts: seq<Pc>, n: nat, t: nat) returns (run': seq<Event>)
    requires cfg.Valid() && cfg.writeBound && At(cfg, After(cfg, run), ts, n, false, On(true))
    requires t < |ts| && ts[t] == NwBind(Done)
    ensures At(cfg, After(cfg, run'), ts[t := EnqRecheck(Done)], n, false, On(false))
  {
    var sh := After(cfg, run).sh;
    hide After, Begin, WritableStep, ReadableStep, DequeueStep, PollingStep, Sound, Ring.Contents, Ring.Shaped;
    run' := Moves(cfg, run, t);
    run' := Moves(cfg, run', t);
    SoundSame(cfg, sh, After(cfg, run').sh);
  }

  /** The check, with the ring back at the mark. */
  lemma CheckAgain(cfg: Config, run: seq<Event>, ts: seq<Pc>, t: nat) returns (run': seq<Event>)
    requires cfg.Valid() && At(cfg, After(cfg, run), ts, cfg.lowWaterMark, false, On(false))
    requires t < |ts| && ts[t] == EnqRecheck(Done)
    ensures At(cfg, After(cfg, run'), ts[t := Idle], cfg.lowWaterMark, false, On(false))
  {
    StatusIsExact(After(cfg, run).sh.ring);
    hide After, Begin, WritableStep, ReadableStep, DequeueStep, PollingStep, Sound, Ring.Contents, Ring.Shaped, Ring.NumInQueue;
    run' := Moves(cfg, run, t);
  }

  /** Two producers, a consumer other than the first of them and a mark inside the ring: a run after which the FIFO takes
      messages and is masked in, nobody is active, and the ready bit is clear. Between filling the ring and clearing the
      ready bit the consumer unblocks the FIFO, and before the check the other producer brings it back to the mark. */
  lemma LostWritability(cfg: Config, p: nat, q: nat, c: nat) returns (run: seq<Event>)
    requires cfg.Valid() && cfg.writeBound && cfg.lowWaterMark < cfg.numEnts
    requires p < cfg.threads && q < cfg.threads && c < cfg.threads && p != q && p != c
    requires p in cfg.producers && q in cfg.producers && c in cfg.consumers
    ensures var s := After(cfg, run);
      Quiescent(s) && s.sh.writeMask && !s.sh.ring.queueFull && !s.sh.writeReady
    ensures var s := After(cfg, run); !s.sh.readMask && forall t :: 0 <= t < |s.threads| ==> s.threads[t].Idle?
  {
    var ts, N, L := Idlers(cfg), cfg.numEnts, cfg.lowWaterMark;
    hide After, At;
    run := Enable(cfg, p);
    run := EnqueueMany(cfg, run, ts, 0, p);
    run := Puts(cfg, run, ts, N - 1, false, p, On(true));
    run := DequeueMany(cfg, run, ts[p := NwBind(Done)], N, c);
    run := DequeueBelow(cfg, run, ts[p := NwBind(Done)], c);
    run := ClearReady(cfg, run, ts[p := NwBind(Done)], L - 1, p);
    var ts' := ts[p := EnqRecheck(Done)];
    assert ts[p := NwBind(Done)][p := EnqRecheck(Done)] == ts';
    run := Enqueues(cfg, run, ts', L - 1, q, if L == 1 then ProducerCond else ConsumerCond, On(false));
    assert ts'[q := Idle] == ts';
    run := CheckAgain(cfg, run, ts', p);
    assert ts'[p := Idle] == ts;
    AtRest(cfg, After(cfg, run), ts, L, false, On(false));
  }

  lemma NotCalm(cfg: Config) returns (p: nat, q: nat, c: nat)
    requires !Calm(cfg)
    ensures p in cfg.producers && q in cfg.producers && c in cfg.consumers && p != q && p != c
  {
    p, q :| p in cfg.producers && q in cfg.producers && p != q;
    c :| c in cfg.consumers;
    if c == p { p, q := q, p; }
  }

  /** For every configuration: writability is never lost, on any run, exactly when there is one producer, or the low-water
      mark is not below the number of entries, or nobody dequeues. */
  lemma WritabilityExact(cfg: Config)
    requires cfg.Valid() && cfg.writeBound
    requires forall t :: t in cfg.producers || t in cfg.consumers ==> t < cfg.threads
    ensures (forall run :: var s := After(cfg, run);
               Quiescent(s) && s.sh.writeMask && !s.sh.ring.queueFull ==> s.sh.writeReady)
            <==> Calm(cfg)
  {
    hide After;
    if Calm(cfg) {
      forall run ensures var s := After(cfg, run);
        Quiescent(s) && s.sh.writeMask && !s.sh.ring.queueFull ==> s.sh.writeReady
      {
        NoLostWritability(cfg, run);
      }
    } else {
      var p, q, c := NotCalm(cfg);
      var run := LostWritability(cfg, p, q, c);
    }
  }
}
