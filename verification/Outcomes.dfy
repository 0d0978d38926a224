/** How calls end: a call that waits does not return before it has done what it was called for. */
module Outcomes {
  import opened Ring
  import opened Protocol
  import opened Invariants
  import opened Safety
  import opened Masks

  predicate Waits(call: Call) {
    match call
    case Enqueue(_, wait) => wait
    case Dequeue(wait) => wait
    case Poll(_, wait, _) => wait
    case _ => false
  }

  /** The thread is asleep in the call, or has been woken and is to look again. */
  predicate WaitingIn(pc: Pc, call: Call) {
    match call
    case Enqueue(m, _) => pc == EnqSleep(m) || pc == EnqWoken(m)
    case Dequeue(_) => pc == DeqSleep || pc == DeqWoken
    case Poll(group, _, _) => pc == PollSleep(group) || pc == PollWoken(group)
    case _ => false
  }

  /** What the call was for, done by event `e`: the message is put, the oldest message is taken, or a poll number of the
      group is ready and masked in. */
  ghost predicate Serves(cfg: Config, s: State, e: Event, call: Call)
    requires s.sh.ring.Shaped()
  {
    var sh, sh' := s.sh, Do(cfg, s, e).sh;
    match call
    case Enqueue(m, _) => sh'.sent == sh.sent + [m] && sh'.received == sh.received
    case Dequeue(_) =>
      sh.ring.Contents() != [] && sh'.received == sh.received + [sh.ring.Contents()[0]] && sh'.sent == sh.sent
    case Poll(group, _, other) => Reported(cfg, sh, group) || (if e.Start? then other else e.Go? && e.other)
    case _ => false
  }

  lemma PutServes(cfg: Config, sh: Shared, m: Message)
    requires Sound(cfg, sh)
    ensures var (sh', pc') := TryPut(sh, m, true);
      pc' == EnqSleep(m) || (sh'.sent == sh.sent + [m] && sh'.received == sh.received)
  {
    hide Ring.Put, Ring.IsFull, Ring.Contents;
  }

  lemma TakeServes(cfg: Config, sh: Shared)
    requires Sound(cfg, sh)
    ensures var (sh', pc') := TryTake(sh, true);
      || pc' == DeqSleep
      || (sh.ring.Contents() != [] && sh'.received == sh.received + [sh.ring.Contents()[0]] && sh'.sent == sh.sent)
  {
    hide Ring.Take, Ring.Contents, Ring.Head;
    if !sh.ring.IsEmpty() {
      TakeRemovesFirst(sh.ring);
      StatusIsExact(sh.ring);
    }
  }

  /** The thread begins the call or looks again: it is served, or it waits. */
  lemma OwnStep(cfg: Config, s: State, e: Event, call: Call)
    requires Sound(cfg, s.sh) && s.sh.ring.Shaped() && Enabled(cfg, s, e) && Waits(call)
    requires if e.Start? then e.call == call else WaitingIn(s.threads[e.t], call)
    ensures WaitingIn(Do(cfg, s, e).threads[e.t], call) || Serves(cfg, s, e, call)
  {
    Others(cfg, s, e);
    hide TryPut, TryTake, Enabled, Do, Sound, Ring.Contents, Ring.Shaped, Ring.IsEmpty;
    EnabledIndex(cfg, s, e);
    match call
    case Enqueue(m, _) => PutServes(cfg, s.sh, m);
    case Dequeue(_) => TakeServes(cfg, s.sh);
    case _ =>
  }

  lemma OtherStep(cfg: Config, s: State, e: Event, t: nat, call: Call)
    requires s.sh.ring.Shaped() && t < |s.threads| && WaitingIn(s.threads[t], call) && (e.t != t || !Enabled(cfg, s, e))
    ensures WaitingIn(Do(cfg, s, e).threads[t], call)
  {
    if Enabled(cfg, s, e) {
      Others(cfg, s, e);
      hide Enabled, Do;
    }
  }

  /** Event `j` serves the call that thread `t` began with event `i`, having waited since. */
  ghost predicate ServedAt(cfg: Config, run: seq<Event>, i: nat, j: nat, t: nat, call: Call)
    requires cfg.Valid()
  {
    && i <= j < |run| && run[j].t == t && t < cfg.threads
    && Serves(cfg, After(cfg, run[..j]), run[j], call)
    && forall k: nat {:trigger run[..k]} :: i < k <= j ==> WaitingIn(After(cfg, run[..k]).threads[t], call)
  }

  lemma ServedBefore(cfg: Config, run: seq<Event>, i: nat, j: nat, t: nat, call: Call)
    requires cfg.Valid() && run != [] && ServedAt(cfg, run[..|run| - 1], i, j, t, call)
    ensures ServedAt(cfg, run, i, j, t, call)
  {
    hide After, Serves, WaitingIn;
    var before := run[..|run| - 1];
    assert run[..j] == before[..j];
    forall k: nat {:trigger run[..k]} | i < k <= j ensures WaitingIn(After(cfg, run[..k]).threads[t], call) {
      assert run[..k] == before[..k];
    }
  }

  /** The thread has waited in the call since it began it. */
  ghost predicate StillWaiting(cfg: Config, run: seq<Event>, i: nat, t: nat, call: Call)
    requires cfg.Valid()
  {
    t < cfg.threads && forall k: nat {:trigger run[..k]} :: i < k <= |run| ==> WaitingIn(After(cfg, run[..k]).threads[t], call)
  }

  lemma WaitingNow(cfg: Config, run: seq<Event>, i: nat, t: nat, call: Call)
    requires cfg.Valid() && StillWaiting(cfg, run, i, t, call) && i < |run|
    ensures WaitingIn(After(cfg, run).threads[t], call)
  {
    assert run[..|run|] == run;
  }

  lemma LastState(cfg: Config, run: seq<Event>)
    requires cfg.Valid() && run != []
    ensures After(cfg, run) == Do(cfg, After(cfg, run[..|run| - 1]), run[|run| - 1])
  {
  }

  lemma WaitedBefore(cfg: Config, run: seq<Event>, i: nat, t: nat, call: Call, k: nat)
    requires cfg.Valid() && i < |run| && t < cfg.threads && i < k < |run|
    requires StillWaiting(cfg, run[..|run| - 1], i, t, call)
    ensures WaitingIn(After(cfg, run[..k]).threads[t], call)
  {
    hide After, WaitingIn;
    assert run[..k] == run[..|run| - 1][..k];
  }

  lemma StillWaits(cfg: Config, run: seq<Event>, i: nat, t: nat, call: Call)
    requires cfg.Valid() && i < |run| && t < cfg.threads && WaitingIn(After(cfg, run).threads[t], call)
    requires i < |run| - 1 ==> StillWaiting(cfg, run[..|run| - 1], i, t, call)
    ensures StillWaiting(cfg, run, i, t, call)
  {
    forall k: nat {:trigger run[..k]} | i < k <= |run| ensures WaitingIn(After(cfg, run[..k]).threads[t], call) {
      if k < |run| { WaitedBefore(cfg, run, i, t, call, k); } else { assert run[..k] == run; }
    }
    hide After, WaitingIn;
  }

  lemma ServedLast(cfg: Config, run: seq<Event>, i: nat, t: nat, call: Call)
    requires cfg.Valid() && i < |run| && t < cfg.threads && run[|run| - 1].t == t
    requires Serves(cfg, After(cfg, run[..|run| - 1]), run[|run| - 1], call)
    requires i < |run| - 1 ==> StillWaiting(cfg, run[..|run| - 1], i, t, call)
    ensures ServedAt(cfg, run, i, |run| - 1, t, call)
  {
    hide After, Serves, WaitingIn, StillWaiting;
    forall k: nat {:trigger run[..k]} | i < k <= |run| - 1 ensures WaitingIn(After(cfg, run[..k]).threads[t], call) {
      WaitedBefore(cfg, run, i, t, call, k);
    }
  }

  /** A call served by the last event, or still waiting after it. */
  lemma Extends(cfg: Config, run: seq<Event>, i: nat, t: nat, call: Call)
    requires cfg.Valid() && i < |run| && t < cfg.threads
    requires i < |run| - 1 ==> StillWaiting(cfg, run[..|run| - 1], i, t, call)
    ensures WaitingIn(After(cfg, run).threads[t], call) ==> StillWaiting(cfg, run, i, t, call)
    ensures var last := |run| - 1;
      run[last].t == t && Serves(cfg, After(cfg, run[..last]), run[last], call) ==> ServedAt(cfg, run, i, last, t, call)
  {
    hide *;
    var last := |run| - 1;
    if WaitingIn(After(cfg, run).threads[t], call) { StillWaits(cfg, run, i, t, call); }
    if run[last].t == t && Serves(cfg, After(cfg, run[..last]), run[last], call) { ServedLast(cfg, run, i, t, call); }
  }

  lemma {:induction false} ServedOrWaiting(cfg: Config, run: seq<Event>, i: nat, call: Call)
    requires cfg.Valid() && Began(cfg, run, i, call) && Waits(call)
    ensures var t := run[i].t;
      t < cfg.threads && ((exists j: nat :: ServedAt(cfg, run, i, j, t, call)) || StillWaiting(cfg, run, i, t, call))
    decreases |run|
  {
    var t, last := run[i].t, |run| - 1;
    var before, e := run[..last], run[last];
    var s := After(cfg, before);
    MessagesConserved(cfg, before);
    LastState(cfg, run);
    hide After, Do, Sound, Serves;
    if i == last {
      EnabledIndex(cfg, s, e);
      OwnStep(cfg, s, e, call);
      Extends(cfg, run, i, t, call);
    } else {
      BeganBefore(cfg, run, i, call);
      ServedOrWaiting(cfg, before, i, call);
      if j: nat :| ServedAt(cfg, before, i, j, t, call) {
        ServedBefore(cfg, run, i, j, t, call);
      } else {
        WaitingNow(cfg, before, i, t, call);
        if e.t == t && Enabled(cfg, s, e) {
          NotIdle(cfg, s, e, call);
          OwnStep(cfg, s, e, call);
        } else {
          OtherStep(cfg, s, e, t, call);
        }
        Extends(cfg, run, i, t, call);
      }
    }
  }

  lemma NotIdle(cfg: Config, s: State, e: Event, call: Call)
    requires Enabled(cfg, s, e) && WaitingIn(s.threads[e.t], call)
    ensures !e.Start?
  {
  }

  /** In every run: a call that waits and has returned was served, by a step of its own thread, with nothing but waiting
      before. */
  lemma WaitingCallsAreServed(cfg: Config, run: seq<Event>, i: nat, call: Call)
    requires cfg.Valid() && Began(cfg, run, i, call) && Waits(call)
    ensures run[i].t < cfg.threads
    ensures After(cfg, run).threads[run[i].t].Idle? ==> exists j: nat :: ServedAt(cfg, run, i, j, run[i].t, call)
  {
    ServedOrWaiting(cfg, run, i, call);
    hide After, ServedAt, Began;
    if StillWaiting(cfg, run, i, run[i].t, call) {
      BeganInside(cfg, run, call);
      WaitingNow(cfg, run, i, run[i].t, call);
    }
  }

  lemma PutAtOnce(cfg: Config, sh: Shared, m: Message)
    requires Sound(cfg, sh)
    ensures var (sh', pc') := TryPut(sh, m, false);
      && !Asleep(pc')
      && if |sh.ring.Contents()| == cfg.numEnts then sh' == sh && pc'.Idle?
         else sh'.sent == sh.sent + [m] && sh'.received == sh.received
  {
    StatusIsExact(sh.ring);
    hide Ring.Put, Ring.Contents, Ring.NumInQueue, Ring.Avail;
  }

  lemma TakeAtOnce(cfg: Config, sh: Shared)
    requires Sound(cfg, sh)
    ensures var (sh', pc') := TryTake(sh, false);
      && !Asleep(pc')
      && if sh.ring.Contents() == [] then sh' == sh
         else sh'.received == sh.received + [sh.ring.Contents()[0]] && sh'.sent == sh.sent
  {
    StatusIsExact(sh.ring);
    if sh.ring.Contents() != [] { TakeRemovesFirst(sh.ring); }
    hide Ring.Take, Ring.Contents, Ring.Head, Ring.NumInQueue, Ring.Avail;
  }

  /** A call that does not wait never sleeps, and fails, leaving the FIFO as it is, exactly if there is no space or no
      message. */
  lemma OtherCalls(cfg: Config, s: State, e: Event)
    requires Sound(cfg, s.sh) && s.sh.ring.Shaped() && Enabled(cfg, s, e) && e.Start? && !Waits(e.call)
    ensures !Asleep(Do(cfg, s, e).threads[e.t])
    ensures e.call.Enqueue? ==>
      if |s.sh.ring.Contents()| == cfg.numEnts then Do(cfg, s, e).sh == s.sh && Do(cfg, s, e).threads[e.t].Idle?
      else Serves(cfg, s, e, e.call)
    ensures e.call.Dequeue? ==>
      if s.sh.ring.Contents() == [] then Do(cfg, s, e).sh == s.sh else Serves(cfg, s, e, e.call)
    ensures e.call.Poll? ==> Do(cfg, s, e).sh == s.sh && Do(cfg, s, e).threads[e.t].Idle?
  {
    Others(cfg, s, e);
    hide TryPut, TryTake, Enabled, Do, Sound, Ring.Contents, Ring.Shaped;
    EnabledIndex(cfg, s, e);
    match e.call
    case Enqueue(m, _) => PutAtOnce(cfg, s.sh, m);
    case Dequeue(_) => TakeAtOnce(cfg, s.sh);
    case _ =>
  }
}
