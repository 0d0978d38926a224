/** Enabling and disabling polling: the mask is what the last of these calls left, and a FIFO that is disabled is not
    reported. */
module Masks {
  import opened Ring
  import opened Protocol

  /** Event `i` of the run is the beginning of `call`, and the thread could begin it. */
  ghost predicate Began(cfg: Config, run: seq<Event>, i: nat, call: Call)
    requires cfg.Valid()
  {
    i < |run| && run[i].Start? && run[i].call == call && Enabled(cfg, After(cfg, run[..i]), run[i])
  }

  /** The run has begun an `on` and no `off` after it. */
  ghost predicate LastIs(cfg: Config, run: seq<Event>, on: Call, off: Call)
    requires cfg.Valid()
  {
    exists i: nat :: Began(cfg, run, i, on) && !BeganAfter(cfg, run, i, off)
  }

  ghost predicate BeganAfter(cfg: Config, run: seq<Event>, i: nat, call: Call)
    requires cfg.Valid()
  {
    exists j: nat :: i < j && Began(cfg, run, j, call)
  }

  // What a step does to the masks

  lemma PutMasks(sh: Shared, m: Message, wait: bool)
    requires sh.ring.Shaped()
    ensures var sh' := TryPut(sh, m, wait).0; sh'.readMask == sh.readMask && sh'.writeMask == sh.writeMask
  {
    hide Ring.Shaped, Ring.IsFull, Ring.Put;
  }

  lemma TakeMasks(sh: Shared, wait: bool)
    requires sh.ring.Shaped()
    ensures var sh' := TryTake(sh, wait).0; sh'.readMask == sh.readMask && sh'.writeMask == sh.writeMask
  {
    hide Ring.Shaped, Ring.IsEmpty, Ring.Take, Ring.Head;
  }

  lemma ActMasks(cfg: Config, sh: Shared, pc: Pc, other: bool)
    requires sh.ring.Shaped()
    ensures var sh' := Act(cfg, sh, pc, other).0; sh'.readMask == sh.readMask && sh'.writeMask == sh.writeMask
  {
    hide TryPut, TryTake, TryPoll, Continue, Ring.Shaped, Ring.IsEmpty, Ring.NumInQueue, Ring.Avail;
    if pc.EnqWoken? {
      PutMasks(sh, pc.m, true);
    } else if pc.DeqWoken? {
      TakeMasks(sh, true);
    }
  }

  lemma BeginMasks(cfg: Config, sh: Shared, call: Call)
    requires sh.ring.Shaped()
    ensures var sh' := Begin(cfg, sh, call).0;
      && sh'.readMask == (if !cfg.readBound then sh.readMask
                          else match call case EnableRead => true case DisableRead => false case _ => sh.readMask)
      && sh'.writeMask == (if !cfg.writeBound then sh.writeMask
                           else match call case EnableWrite => true case DisableWrite => false case _ => sh.writeMask)
  {
    hide TryPut, TryTake, TryPoll, Ring.Shaped;
    if call.Enqueue? {
      PutMasks(sh, call.m, call.wait);
    } else if call.Dequeue? {
      TakeMasks(sh, call.wait);
    }
  }

  /** Only the beginning of one of the four calls moves a mask. */
  lemma MaskStep(cfg: Config, s: State, e: Event)
    requires s.sh.ring.Shaped()
    ensures var sh, sh', begins := s.sh, Do(cfg, s, e).sh, e.Start? && Enabled(cfg, s, e);
      && (cfg.readBound && begins && e.call.EnableRead? ==> sh'.readMask)
      && (cfg.readBound && begins && e.call.DisableRead? ==> !sh'.readMask)
      && (!cfg.readBound || !begins || (!e.call.EnableRead? && !e.call.DisableRead?) ==> sh'.readMask == sh.readMask)
      && (cfg.writeBound && begins && e.call.EnableWrite? ==> sh'.writeMask)
      && (cfg.writeBound && begins && e.call.DisableWrite? ==> !sh'.writeMask)
      && (!cfg.writeBound || !begins || (!e.call.EnableWrite? && !e.call.DisableWrite?) ==> sh'.writeMask == sh.writeMask)
  {
    hide Begin, Act, Enabled, Signal, Signals, Awake, Ring.Shaped;
    if Enabled(cfg, s, e) {
      EnabledIndex(cfg, s, e);
      match e
      case Start(_, call) => BeginMasks(cfg, s.sh, call);
      case Go(_, _, other) => ActMasks(cfg, s.sh, s.threads[e.t], other);
      case Spurious(_) =>
    }
  }

  lemma EnabledIndex(cfg: Config, s: State, e: Event)
    requires Enabled(cfg, s, e)
    ensures e.t < |s.threads|
  {
  }

  // The last call of a run

  lemma BeganBefore(cfg: Config, run: seq<Event>, i: nat, call: Call)
    requires cfg.Valid() && i + 1 < |run|
    ensures Began(cfg, run, i, call) <==> Began(cfg, run[..|run| - 1], i, call)
  {
    hide After, Enabled;
    assert run[..i] == run[..|run| - 1][..i];
  }

  /** The last event decides, if it is one of the two calls. */
  lemma LastStep(cfg: Config, run: seq<Event>, on: Call, off: Call)
    requires cfg.Valid() && run != [] && on != off
    ensures var last := |run| - 1;
      && (Began(cfg, run, last, on) ==> LastIs(cfg, run, on, off))
      && (Began(cfg, run, last, off) ==> !LastIs(cfg, run, on, off))
      && (!Began(cfg, run, last, on) && !Began(cfg, run, last, off) ==>
            (LastIs(cfg, run, on, off) <==> LastIs(cfg, run[..last], on, off)))
  {
    hide Began;
    var last := |run| - 1;
    var before := run[..last];
    BeganInside(cfg, run, on);
    BeganInside(cfg, run, off);
    BeganInside(cfg, before, on);
    BeganInside(cfg, before, off);
    forall i: nat | i < last
      ensures Began(cfg, run, i, on) <==> Began(cfg, before, i, on)
      ensures Began(cfg, run, i, off) <==> Began(cfg, before, i, off)
    {
      BeganBefore(cfg, run, i, on);
      BeganBefore(cfg, run, i, off);
    }
    NotBoth(cfg, run, last, on, off);
    if !Began(cfg, run, last, on) && !Began(cfg, run, last, off) {
      forall i: nat | i < last ensures BeganAfter(cfg, run, i, off) <==> BeganAfter(cfg, before, i, off) {
      }
    }
  }

  lemma BeganInside(cfg: Config, run: seq<Event>, call: Call)
    requires cfg.Valid()
    ensures forall i: nat :: Began(cfg, run, i, call) ==> i < |run|
  {
  }

  lemma NotBoth(cfg: Config, run: seq<Event>, i: nat, on: Call, off: Call)
    requires cfg.Valid() && on != off
    ensures !(Began(cfg, run, i, on) && Began(cfg, run, i, off))
  {
  }

  /** In every run: polling is masked in exactly if the FIFO is bound and the last call that enabled or disabled it was one
      that enabled it. */
  lemma {:induction false} MaskIsLastCall(cfg: Config, run: seq<Event>)
    requires cfg.Valid()
    ensures After(cfg, run).sh.readMask <==> cfg.readBound && LastIs(cfg, run, EnableRead, DisableRead)
    ensures After(cfg, run).sh.writeMask <==> cfg.writeBound && LastIs(cfg, run, EnableWrite, DisableWrite)
    decreases |run|
  {
    if run == [] {
      BeganInside(cfg, run, EnableRead);
      BeganInside(cfg, run, EnableWrite);
    } else {
      var last := |run| - 1;
      var before := run[..last];
      MaskIsLastCall(cfg, before);
      MaskStep(cfg, After(cfg, before), run[last]);
      LastStep(cfg, run, EnableRead, DisableRead);
      LastStep(cfg, run, EnableWrite, DisableWrite);
      hide LastIs, Do, Enabled;
    }
  }

  /** From a disabling call to the next enabling one a poll of the group does not find the FIFO: one that waits goes to
      sleep, unless the other side of the FIFO is in the same group. */
  lemma DisabledIsNotPolled(cfg: Config, run: seq<Event>, i: nat)
    requires cfg.Valid()
    ensures Began(cfg, run, i, DisableRead) && !BeganAfter(cfg, run, i, EnableRead) && cfg.readBound ==>
      var sh := After(cfg, run).sh;
      && !sh.readMask
      && (!cfg.writeBound || cfg.writeGroup != cfg.readGroup ==>
            TryPoll(cfg, sh, cfg.readGroup, true, false) == PollSleep(cfg.readGroup))
    ensures Began(cfg, run, i, DisableWrite) && !BeganAfter(cfg, run, i, EnableWrite) && cfg.writeBound ==>
      var sh := After(cfg, run).sh;
      && !sh.writeMask
      && (!cfg.readBound || cfg.writeGroup != cfg.readGroup ==>
            TryPoll(cfg, sh, cfg.writeGroup, true, false) == PollSleep(cfg.writeGroup))
  {
    MaskIsLastCall(cfg, run);
    LastDisables(cfg, run, i, EnableRead, DisableRead);
    LastDisables(cfg, run, i, EnableWrite, DisableWrite);
    hide After, Began, BeganAfter, LastIs;
  }

  lemma LastDisables(cfg: Config, run: seq<Event>, i: nat, on: Call, off: Call)
    requires cfg.Valid() && on != off
    ensures Began(cfg, run, i, off) && !BeganAfter(cfg, run, i, on) ==> !LastIs(cfg, run, on, off)
  {
    NotBoth(cfg, run, i, on, off);
    hide Began;
  }
}
