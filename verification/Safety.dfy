/** What holds in every state of every run of the protocol. */
module Safety {
  import opened Ring
  import opened Protocol
  import opened Invariants

  /** At most one thread. */
  predicate Alone(s: set<nat>) {
    forall i, j :: i in s && j in s ==> i == j
  }

  ghost predicate Roles(cfg: Config, s: State) {
    forall t: nat :: t < |s.threads| ==> InRole(cfg, t, s.threads[t])
  }

  /** In every run, under every schedule, messages come out in the order in which they went in, none missing. */
  lemma {:induction false} MessagesConserved(cfg: Config, run: seq<Event>)
    requires cfg.Valid()
    ensures var s := After(cfg, run); Sound(cfg, s.sh) && Roles(cfg, s)
    decreases |run|
  {
    hide Do, Sound, InRole;
    if run == [] {
      InitSound(cfg);
    } else {
      var s := After(cfg, run[..|run| - 1]);
      MessagesConserved(cfg, run[..|run| - 1]);
      SoundStep(cfg, s, run[|run| - 1]);
    }
  }

  lemma InitSound(cfg: Config)
    requires cfg.Valid()
    ensures Sound(cfg, Init(cfg).sh) && Roles(cfg, Init(cfg))
  {
  }

  lemma SoundStep(cfg: Config, s: State, e: Event)
    requires s.sh.ring.Shaped() && Sound(cfg, s.sh) && Roles(cfg, s)
    ensures Sound(cfg, Do(cfg, s, e).sh) && Roles(cfg, Do(cfg, s, e))
  {
    if Enabled(cfg, s, e) {
      hide Local, Sound, InRole, Asleep, Do, ReadSide, SleepSide, WriteSide, WindowOk, InWindow, Ring.Valid;
      SoundIsValid(cfg, s.sh);
      LocalOk(cfg, s, e);
      Others(cfg, s, e);
      var s' := Do(cfg, s, e);
      forall t: nat | t < |s'.threads| ensures InRole(cfg, t, s'.threads[t]) {
        if t != e.t {
          AwakeInRole(cfg, t, s.threads[t]);
        }
      }
    }
  }

  lemma AwakeInRole(cfg: Config, t: nat, pc: Pc)
    requires InRole(cfg, t, pc)
    ensures InRole(cfg, t, Awake(pc))
  {
  }

  // Readability

  /** Whenever the FIFO has a message and is bound and masked in but not marked ready, some thread is on its way to
      mark it or to look again. */
  ghost predicate ReadCovered(cfg: Config, s: State) {
    Unreadable(cfg, s.sh) ==> exists t: nat :: t < |s.threads| && WillRead(s.threads[t])
  }

  /** A thread that does something stays where it is while another moves. */
  lemma Stays(cfg: Config, s: State, e: Event, i: nat)
    requires s.sh.ring.Shaped() && Enabled(cfg, s, e) && i < |s.threads| && i != e.t
    ensures var s' := Do(cfg, s, e); !Asleep(s.threads[i]) || Asleep(s'.threads[i]) ==> s'.threads[i] == s.threads[i]
  {
    hide Local, Enabled;
    Others(cfg, s, e);
  }

  lemma Busy(pc: Pc)
    ensures WillRead(pc) || WillWrite(pc) || pc.MrGroup? || pc.MwGroup? || WillWakeConsumer(pc) ==>
      !Asleep(pc) && !pc.Idle?
  {
  }

  lemma ReadStep(cfg: Config, s: State, e: Event)
    requires s.sh.ring.Valid() && ReadCovered(cfg, s)
    ensures ReadCovered(cfg, Do(cfg, s, e))
  {
    if Enabled(cfg, s, e) {
      hide Local, WillRead, Asleep, Ring.Valid, Unreadable, Do, ReadWork, SleepSide, WriteSide, WindowOk, InRole, Sound;
      ValidShaped(s.sh.ring);
      LocalOk(cfg, s, e);
      Others(cfg, s, e);
      var s' := Do(cfg, s, e);
      if Unreadable(cfg, s'.sh) && !WillRead(s'.threads[e.t]) {
        var i: nat :| i < |s.threads| && WillRead(s.threads[i]);
        Busy(s.threads[i]);
        Stays(cfg, s, e, i);
        assert WillRead(s'.threads[i]);
      }
    }
  }

  lemma {:induction false} AlwaysReadCovered(cfg: Config, run: seq<Event>)
    requires cfg.Valid()
    ensures ReadCovered(cfg, After(cfg, run))
    decreases |run|
  {
    hide Do;
    if run != [] {
      var before := run[..|run| - 1];
      AlwaysReadCovered(cfg, before);
      MessagesConserved(cfg, before);
      ReadStep(cfg, After(cfg, before), run[|run| - 1]);
    }
  }

  /** No lost readability: any number of threads, polling enabled and disabled at will. */
  lemma NoLostReadability(cfg: Config, run: seq<Event>)
    requires cfg.Valid()
    ensures var s := After(cfg, run);
      Quiescent(s) && cfg.readBound && s.sh.readMask && !s.sh.ring.IsEmpty() ==> s.sh.readReady
  {
    hide After;
    AlwaysReadCovered(cfg, run);
    var s := After(cfg, run);
    forall t: nat | t < |s.threads| && WillRead(s.threads[t]) ensures !Quiescent(s) {
      Busy(s.threads[t]);
    }
  }

  // Writability

  /** Enqueues never overlap, or the low-water mark is not below the size of the ring, or nobody dequeues. */
  predicate Calm(cfg: Config) {
    Alone(cfg.producers) || cfg.lowWaterMark >= cfg.numEnts || cfg.consumers == {}
  }

  ghost predicate WriteCovered(cfg: Config, s: State) {
    Unwritable(cfg, s.sh) ==> exists t: nat :: t < |s.threads| && WillWrite(s.threads[t])
  }

  /** Between filling the ring and checking it again: if `queue_full` is clear, occupancy is below the mark; and it is not
      cleared if nobody dequeues. */
  ghost predicate Windows(cfg: Config, s: State)
    requires s.sh.ring.numEnts > 0
  {
    forall t: nat :: t < |s.threads| && InWindow(s.threads[t]) ==>
      WindowOk(s.sh) && (cfg.consumers == {} ==> s.sh.ring.queueFull)
  }

  lemma LocalWrite(cfg: Config, s: State, e: Event)
    requires s.sh.ring.Valid() && Enabled(cfg, s, e) && Windows(cfg, s)
    ensures var (sh', pc') := Local(cfg, s.sh, s.threads[e.t], e);
      sh'.ring.numEnts > 0 && WriteSide(cfg, s.sh, s.threads[e.t], sh', pc')
  {
    hide Local, Ring.Valid, Ring.Shaped, WindowOk, ReadSide, SleepSide, WriteSide, InRole, Sound, InWindow;
    ValidShaped(s.sh.ring);
    LocalOk(cfg, s, e);
    EnabledThread(cfg, s, e);
  }

  lemma SizeStep(cfg: Config, sh: Shared)
    requires Sound(cfg, sh) && cfg.lowWaterMark >= cfg.numEnts
    ensures sh.ring.numEnts > 0 && WindowOk(sh)
  {
    hide Ring.NumInQueue, Ring.Contents;
    StatusStep(sh);
  }

  lemma WindowStep(cfg: Config, s: State, e: Event)
    requires Calm(cfg) && Sound(cfg, s.sh) && Roles(cfg, s) && Windows(cfg, s)
    ensures var s' := Do(cfg, s, e); s'.sh.ring.numEnts > 0 && Windows(cfg, s')
  {
    SoundStep(cfg, s, e);
    if Enabled(cfg, s, e) {
      hide Local, Asleep, InWindow, WindowOk, Sound, Do, Ring.Valid, Ring.Shaped, InRole, Enabled, ReadSide, SleepSide,
           Unwritable, WriteWork;
      SoundIsValid(cfg, s.sh);
      SoundIsValid(cfg, Do(cfg, s, e).sh);
      EnabledThread(cfg, s, e);
      LocalOk(cfg, s, e);
      LocalWrite(cfg, s, e);
      Others(cfg, s, e);
      var s' := Do(cfg, s, e);
      forall t: nat | t < |s'.threads| && InWindow(s'.threads[t])
        ensures WindowOk(s'.sh) && (cfg.consumers == {} ==> s'.sh.ring.queueFull)
      {
        FullIsOk(s'.sh);
        if t != e.t {
          WindowsAwake(s.threads[t]);
          Stays(cfg, s, e, t);
          EnqueuerInRole(cfg, s, t);
          if cfg.lowWaterMark >= cfg.numEnts {
            SizeStep(cfg, s'.sh);
          }
        }
      }
    }
  }

  lemma FullIsOk(sh: Shared)
    requires sh.ring.numEnts > 0
    ensures sh.ring.queueFull ==> WindowOk(sh)
  {
  }

  lemma EnqueuerInRole(cfg: Config, s: State, t: nat)
    requires Roles(cfg, s) && t < |s.threads|
    ensures InWindow(s.threads[t]) ==> t in cfg.producers
  {
    assert InRole(cfg, t, s.threads[t]);
  }

  lemma WindowsAwake(pc: Pc)
    ensures Asleep(pc) ==> !InWindow(pc) && !InWindow(Awake(pc))
  {
  }

  lemma WriteStep(cfg: Config, s: State, e: Event)
    requires s.sh.ring.Valid() && Windows(cfg, s) && WriteCovered(cfg, s)
    ensures WriteCovered(cfg, Do(cfg, s, e))
  {
    if Enabled(cfg, s, e) {
      hide Local, WillWrite, Asleep, Ring.Valid, Unwritable, Do, WindowOk, WriteWork, InWindow;
      ValidShaped(s.sh.ring);
      LocalWrite(cfg, s, e);
      Others(cfg, s, e);
      var s' := Do(cfg, s, e);
      if Unwritable(cfg, s'.sh) && !WillWrite(s'.threads[e.t]) {
        var i: nat :| i < |s.threads| && WillWrite(s.threads[i]);
        Busy(s.threads[i]);
        Stays(cfg, s, e, i);
        assert WillWrite(s'.threads[i]);
      }
    }
  }

  lemma {:induction false} AlwaysWriteCovered(cfg: Config, run: seq<Event>)
    requires cfg.Valid() && Calm(cfg)
    ensures Windows(cfg, After(cfg, run)) && WriteCovered(cfg, After(cfg, run))
    decreases |run|
  {
    hide Do, WindowOk, Calm;
    if run != [] {
      var before := run[..|run| - 1];
      AlwaysWriteCovered(cfg, before);
      MessagesConserved(cfg, before);
      WindowStep(cfg, After(cfg, before), run[|run| - 1]);
      WriteStep(cfg, After(cfg, before), run[|run| - 1]);
    }
  }

  /** No lost writability: one producer, any number of other threads. */
  lemma NoLostWritability(cfg: Config, run: seq<Event>)
    requires cfg.Valid() && Calm(cfg)
    ensures var s := After(cfg, run);
      Quiescent(s) && cfg.writeBound && s.sh.writeMask && !s.sh.ring.queueFull ==> s.sh.writeReady
  {
    hide After, Calm;
    AlwaysWriteCovered(cfg, run);
    var s := After(cfg, run);
    forall t: nat | t < |s.threads| && WillWrite(s.threads[t]) ensures !Quiescent(s) {
      Busy(s.threads[t]);
    }
  }
}
