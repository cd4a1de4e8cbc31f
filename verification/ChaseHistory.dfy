/** Runs of the chase protocol seen from outside: in which order the participants' steps can come, and where
    each thread stands and what it has counted after any run. */
module ChaseHistory {
  import opened Paths
  import opened PathSetup
  import opened ChaseProtocol

  /** Let go by the main thread: in the loop, or back from it. */
  predicate Released(th: Thread) { th.phase.Looping? || th.phase.Exited? }

  /* ---------- the order of steps ---------- */

  ghost function Times(actions: seq<Action>, a: Action): nat {
    if actions == [] then 0
    else Times(actions[..|actions| - 1], a) + if actions[|actions| - 1] == a then 1 else 0
  }

  lemma TimesNext(actions: seq<Action>, next: Action, a: Action)
    ensures Times(actions + [next], a) == Times(actions, a) + if next == a then 1 else 0
  {
    assert (actions + [next])[..|actions|] == actions;
  }

  /** Which step `a` may come after the steps `actions`, by counting those steps: a thread makes its unchecked
      loads and arrives; once all have arrived the alarm is armed, and then the threads are released; the alarm
      may go off at any time after it is armed, before or after the release; a released thread begins, and
      then passes through its loop until it has returned. */
  ghost predicate MayFollow(cfg: Config, actions: seq<Action>, a: Action, s: State) {
    var n := |cfg.homes|;
    n == |cfg.offsets| &&
    match a
    case Walk(t) => t < n && Times(actions, Walk(t)) < cfg.offsets[t] && Times(actions, Arrive(t)) == 0
    case Arrive(t) => t < n && Times(actions, Walk(t)) == cfg.offsets[t] && Times(actions, Arrive(t)) == 0
    case Arm => Times(actions, Arm) == 0 && forall t :: 0 <= t < n ==> Times(actions, Arrive(t)) == 1
    case Start => Times(actions, Arm) == 1 && Times(actions, Start) == 0
    case Fire => Times(actions, Arm) == 1 && Times(actions, Fire) == 0
    case Break => Times(actions, Fire) == 1 && Times(actions, Break) < |cfg.chunks|
    case Begin(t) => t < n && Times(actions, Start) == 1 && Times(actions, Begin(t)) == 0
    case Iterate(t) => t < n && Times(actions, Begin(t)) == 1 && !Returned(s, t)
  }

  ghost predicate Returned(s: State, t: nat) { t < |s.threads| && s.threads[t].phase.Exited? }

  /** What the steps say about the main thread and the handler. */
  ghost predicate MainTold(actions: seq<Action>, s: State) {
    && Times(actions, Arm) == (if s.main.Waiting? then 0 else 1)
    && Times(actions, Start) == (if s.main.Started? then 1 else 0)
    && Times(actions, Fire) == (if s.handler.Idle? then 0 else 1)
    && Times(actions, Break) == s.Broken()
  }

  /** What they say about a thread. */
  ghost predicate ThreadTold(cfg: Config, actions: seq<Action>, t: nat, th: Thread)
    requires t < |cfg.offsets|
  {
    && (th.phase.Walking? ==> Times(actions, Walk(t)) + th.phase.left == cfg.offsets[t])
    && (!th.phase.Walking? ==> Times(actions, Walk(t)) == cfg.offsets[t])
    && Times(actions, Arrive(t)) == (if th.phase.Walking? then 0 else 1)
    && Times(actions, Begin(t)) == (if Released(th) then 1 else 0)
    && Times(actions, Iterate(t)) == th.accesscount + (if th.phase.Exited? then 1 else 0)
  }

  /** Nobody runs before the main thread has let the threads go. */
  ghost predicate HeldBack(s: State) {
    !s.main.Started? ==> forall t :: 0 <= t < |s.threads| ==> !Released(s.threads[t])
  }

  lemma StepHoldsBack(cfg: Config, s: State, a: Action)
    requires HeldBack(s) && Enabled(cfg, s, a)
    ensures HeldBack(Step(cfg, s, a))
  {
    var s' := Step(cfg, s, a);
    forall t | 0 <= t < |s'.threads| && !s'.main.Started? ensures !Released(s'.threads[t]) {
      assert t < |s.threads| && !Released(s.threads[t]);
    }
  }

  ghost predicate Told(cfg: Config, actions: seq<Action>, s: State) {
    && |s.threads| == |cfg.homes| == |cfg.offsets| && MainTold(actions, s) && HeldBack(s)
    && forall t :: 0 <= t < |s.threads| ==> ThreadTold(cfg, actions, t, s.threads[t])
  }

  lemma MainStepTold(cfg: Config, actions: seq<Action>, s: State, a: Action)
    requires MainTold(actions, s) && Enabled(cfg, s, a)
    ensures MainTold(actions + [a], Step(cfg, s, a))
  {
    TimesNext(actions, a, Arm);
    TimesNext(actions, a, Start);
    TimesNext(actions, a, Fire);
    TimesNext(actions, a, Break);
  }

  lemma OthersTold(cfg: Config, actions: seq<Action>, t: nat, th: Thread, a: Action)
    requires t < |cfg.offsets| && ThreadTold(cfg, actions, t, th) && (IsThreadStep(a) ==> a.t != t)
    ensures ThreadTold(cfg, actions + [a], t, th)
  {
    TimesNext(actions, a, Walk(t));
    TimesNext(actions, a, Arrive(t));
    TimesNext(actions, a, Begin(t));
    TimesNext(actions, a, Iterate(t));
  }

  lemma OwnStepTold(cfg: Config, actions: seq<Action>, s: State, a: Action)
    requires IsThreadStep(a) && Enabled(cfg, s, a) && a.t < |cfg.offsets|
    requires ThreadTold(cfg, actions, a.t, s.threads[a.t]) && !StepThread(cfg, s, a).phase.Crashed?
    ensures ThreadTold(cfg, actions + [a], a.t, StepThread(cfg, s, a))
  {
    TimesNext(actions, a, Walk(a.t));
    TimesNext(actions, a, Arrive(a.t));
    TimesNext(actions, a, Begin(a.t));
    TimesNext(actions, a, Iterate(a.t));
  }

  lemma StepTold(cfg: Config, actions: seq<Action>, s: State, a: Action)
    requires cfg.Valid() && Inv(cfg, s) && Told(cfg, actions, s) && Enabled(cfg, s, a)
    ensures Told(cfg, actions + [a], Step(cfg, s, a))
  {
    var s' := Step(cfg, s, a);
    MainStepTold(cfg, actions, s, a);
    StepHoldsBack(cfg, s, a);
    if IsThreadStep(a) {
      InvAt(cfg, s, a.t);
      ThreadStepOk(cfg, s, a);
      ThreadStepShape(cfg, s, a);
      OwnStepTold(cfg, actions, s, a);
    }
    forall t | 0 <= t < |s'.threads| ensures ThreadTold(cfg, actions + [a], t, s'.threads[t]) {
      if !IsThreadStep(a) || a.t != t {
        OtherStep(cfg, s, a, t);
        OthersTold(cfg, actions, t, s.threads[t], a);
      }
    }
  }

  lemma {:induction false} RunsSplit(cfg: Config, s: State, actions: seq<Action>, s': State, j: nat) returns (mid: State)
    requires Runs(cfg, s, actions, s') && j <= |actions|
    ensures Runs(cfg, s, actions[..j], mid) && Runs(cfg, mid, actions[j..], s')
    decreases j
  {
    if j == 0 {
      mid := s;
      assert actions[0..] == actions;
    } else {
      mid := RunsSplit(cfg, Step(cfg, s, actions[0]), actions[1..], s', j - 1);
      assert actions[..j][1..] == actions[1..][..j - 1];
      assert actions[1..][j - 1..] == actions[j..];
    }
  }

  lemma LastStep(cfg: Config, s: State, a: Action, s': State)
    requires Runs(cfg, s, [a], s')
    ensures Enabled(cfg, s, a) && s' == Step(cfg, s, a)
  {
    assert [a][1..] == [];
  }

  lemma {:induction false} RunTold(cfg: Config, actions: seq<Action>, s: State)
    requires cfg.Valid() && Runs(cfg, Init(cfg), actions, s)
    ensures Told(cfg, actions, s)
    decreases |actions|
  {
    if actions != [] {
      var n := |actions| - 1;
      var mid := RunsSplit(cfg, Init(cfg), actions, s, n);
      assert actions[n..] == [actions[n]] && actions == actions[..n] + [actions[n]];
      LastStep(cfg, mid, actions[n], s);
      RunTold(cfg, actions[..n], mid);
      ReachableOk(cfg, mid);
      StepTold(cfg, actions[..n], mid, actions[n]);
    }
  }

  lemma NextThreadStep(cfg: Config, actions: seq<Action>, s: State, a: Action)
    requires IsThreadStep(a) && Told(cfg, actions, s) && a.t < |s.threads| && !s.threads[a.t].phase.Crashed?
    requires !s.main.Waiting? ==> !s.threads[a.t].phase.Walking?
    ensures Enabled(cfg, s, a) <==> MayFollow(cfg, actions, a, s)
  {
    var th := s.threads[a.t];
    assert ThreadTold(cfg, actions, a.t, th);
    assert Released(th) ==> s.main.Started?;
  }

  lemma NextMainStep(cfg: Config, actions: seq<Action>, s: State, a: Action)
    requires !IsThreadStep(a) && Told(cfg, actions, s) && |cfg.infos| == |cfg.chunks|
    requires s.numAtBarrier == Arrived(s.threads) && (s.main.Waiting? ==> s.handler.Idle?)
    ensures Enabled(cfg, s, a) <==> MayFollow(cfg, actions, a, s)
  {
    if a.Arm? {
      ArrivedBound(s.threads);
      forall t | 0 <= t < |s.threads| ensures Times(actions, Arrive(t)) == 1 <==> !s.threads[t].phase.Walking? {
        assert ThreadTold(cfg, actions, t, s.threads[t]);
      }
    }
  }

  /** After every run, exactly the steps can come next that the steps made so far allow. */
  lemma NextSteps(cfg: Config, actions: seq<Action>, s: State, a: Action)
    requires cfg.Valid() && Runs(cfg, Init(cfg), actions, s)
    ensures Enabled(cfg, s, a) <==> MayFollow(cfg, actions, a, s)
  {
    RunTold(cfg, actions, s);
    ReachableOk(cfg, s);
    if !IsThreadStep(a) {
      NextMainStep(cfg, actions, s, a);
    } else if a.t < |s.threads| {
      InvAt(cfg, s, a.t);
      NextThreadStep(cfg, actions, s, a);
    }
  }

  /** What a run looks like: each of its steps may follow those before it. */
  lemma RunOrder(cfg: Config, actions: seq<Action>, s: State, j: nat) returns (mid: State)
    requires cfg.Valid() && Runs(cfg, Init(cfg), actions, s) && j < |actions|
    ensures Runs(cfg, Init(cfg), actions[..j], mid)
    ensures MayFollow(cfg, actions[..j], actions[j], mid)
  {
    mid := RunsSplit(cfg, Init(cfg), actions, s, j);
    assert actions[j..][0] == actions[j];
    NextSteps(cfg, actions[..j], mid, actions[j]);
  }

  /** In every reachable state: a thread that is in the loop, or back from it, has been released by the main
      thread; by then every thread has arrived, and the alarm is armed.  Before that nobody has made a load
      that counts. */
  lemma NobodyStartsEarly(cfg: Config, s: State, t: nat)
    requires cfg.Valid() && Reachable(cfg, s) && t < |cfg.homes|
    ensures |s.threads| == |cfg.homes|
    ensures s.threads[t].phase.Looping? || s.threads[t].phase.Exited? ==>
              && s.main == Started && s.numAtBarrier == |s.threads|
              && forall u :: 0 <= u < |s.threads| ==> !s.threads[u].phase.Walking?
    ensures s.main != Started ==> s.threads[t].accesscount == 0
  {
    var actions :| Runs(cfg, Init(cfg), actions, s);
    RunTold(cfg, actions, s);
    ReachableOk(cfg, s);
    InvAt(cfg, s, t);
    ArrivedBound(s.threads);
    assert ThreadTold(cfg, actions, t, s.threads[t]);
    assert !s.main.Started? ==> !Released(s.threads[t]);
  }

  /** A thread's count is the number of its passes, but for the one in which it returned. */
  lemma CountsPasses(cfg: Config, actions: seq<Action>, s: State, t: nat)
    requires cfg.Valid() && Runs(cfg, Init(cfg), actions, s) && t < |cfg.homes|
    ensures |s.threads| == |cfg.homes|
    ensures s.threads[t].accesscount == Times(actions, Iterate(t)) - if Returned(s, t) then 1 else 0
  {
    RunTold(cfg, actions, s);
    assert ThreadTold(cfg, actions, t, s.threads[t]);
  }

  /* ---------- the alarm before the release ---------- */

  /** In every experiment the alarm can go off, and the handler finish, while no thread has been released. */
  lemma AlarmMayComeFirst(cfg: Config) returns (s: State)
    requires cfg.Valid()
    ensures Reachable(cfg, s) && s.main == Armed && s.handler == Writing(|cfg.chunks|)
  {
    var s0 := Init(cfg);
    assert Runs(cfg, s0, [], s0);
    s := GatherAll(cfg, s0, 0);
    ReachableOk(cfg, s);
    ArrivedBound(s.threads);
    ReachableStep(cfg, s, Arm);
    s := Step(cfg, s, Arm);
    ReachableStep(cfg, s, Fire);
    s := BreakUpTo(cfg, Step(cfg, s, Fire), |cfg.infos|);
  }

  /* ---------- where threads stand ---------- */

  ghost predicate BrokenStart(cfg: Config, broken: nat, a: nat) {
    exists c :: 0 <= c < broken && c < |cfg.chunks| && cfg.chunks[c] != [] && cfg.chunks[c][0] == a
  }

  /** Where `k` loads from the start of a thread's subpath lead in the memory as it was built. */
  ghost function After(cfg: Config, t: nat, k: nat): nat
    requires cfg.Valid() && t < |cfg.homes|
  {
    Chase(cfg.mem, cfg.chunks[cfg.homes[t]][0], k)
  }

  /** A thread stands where its unchecked and its counted loads lead in the memory as it was built; or it holds
      the sentinel, and its last load was from a broken start slot. */
  ghost predicate OnTrack(cfg: Config, broken: nat, t: nat, th: Thread)
    requires cfg.Valid() && t < |cfg.homes|
  {
    match th.phase
    case Walking(left, index) => left <= cfg.offsets[t] && index == After(cfg, t, cfg.offsets[t] - left) && th.accesscount == 0
    case Ready(index) => index == After(cfg, t, cfg.offsets[t]) && th.accesscount == 0
    case Looping(index) =>
      if index != INVALID then index == After(cfg, t, cfg.offsets[t] + th.accesscount) else Stopped(cfg, broken, t, th)
    case Exited(index) => index == INVALID && Stopped(cfg, broken, t, th)
    case Crashed => false
  }

  ghost predicate Stopped(cfg: Config, broken: nat, t: nat, th: Thread)
    requires cfg.Valid() && t < |cfg.homes|
  {
    th.accesscount > 0 && BrokenStart(cfg, broken, After(cfg, t, cfg.offsets[t] + th.accesscount - 1))
  }

  /** The slot a running thread stands on. */
  lemma SlotOf(cfg: Config, t: nat, th: Thread) returns (c: nat, p: nat)
    requires cfg.Valid() && t < |cfg.homes| && ThreadOk(cfg, t, th) && th.phase.Looping? && th.phase.index != INVALID
    ensures c < |cfg.chunks| && p < |cfg.chunks[c]| && th.phase.index == cfg.chunks[c][p]
  {
    if cfg.migrating {
      SlotHeld(cfg, t, th);
      c, p := th.subpathIdx, th.curStep;
    } else {
      c := cfg.homes[t];
      p :| 0 <= p < |cfg.chunks[c]| && cfg.chunks[c][p] == th.phase.index;
    }
  }

  /** What a running thread loads: the sentinel, from a broken start slot, or the link that was built. */
  lemma Loads(cfg: Config, mem: seq<nat>, broken: nat, t: nat, th: Thread)
    requires cfg.Valid() && MemoryOk(cfg, mem, broken) && t < |cfg.homes| && ThreadOk(cfg, t, th)
    requires th.phase.Looping? && th.phase.index != INVALID
    ensures th.phase.index < |mem| == |cfg.mem| && cfg.mem[th.phase.index] != INVALID
    ensures if mem[th.phase.index] == INVALID then BrokenStart(cfg, broken, th.phase.index)
            else mem[th.phase.index] == cfg.mem[th.phase.index]
  {
    var c, p := SlotOf(cfg, t, th);
    SlotContent(cfg, mem, broken, c, p);
    SlotsInMemory(cfg, c, p);
    Unbroken(cfg, c, p);
    if p == 0 && c < broken {
      assert BrokenStart(cfg, broken, th.phase.index);
    }
  }

  lemma AfterNext(cfg: Config, t: nat, k: nat)
    requires cfg.Valid() && t < |cfg.homes| && After(cfg, t, k) < |cfg.mem|
    ensures After(cfg, t, k + 1) == cfg.mem[After(cfg, t, k)]
  {
  }

  lemma IterateShape(cfg: Config, mem: seq<nat>, th: Thread)
    requires th.phase.Looping? && (th.phase.index == INVALID || th.phase.index < |mem|)
    ensures var th' := IterateThread(cfg, mem, th);
            if th.phase.index == INVALID then th'.phase == Exited(INVALID) && th'.accesscount == th.accesscount
            else th'.phase == Looping(mem[th.phase.index]) && th'.accesscount == th.accesscount + 1
  {
  }

  lemma TrackOn(cfg: Config, broken: nat, t: nat, th: Thread, th': Thread)
    requires cfg.Valid() && t < |cfg.homes| && OnTrack(cfg, broken, t, th)
    requires th.phase.Looping? && th.phase.index != INVALID && th.phase.index < |cfg.mem|
    requires cfg.mem[th.phase.index] != INVALID && th'.phase == Looping(cfg.mem[th.phase.index])
    requires th'.accesscount == th.accesscount + 1
    ensures OnTrack(cfg, broken, t, th')
  {
    AfterNext(cfg, t, cfg.offsets[t] + th.accesscount);
  }

  lemma TrackStops(cfg: Config, broken: nat, t: nat, th: Thread, th': Thread)
    requires cfg.Valid() && t < |cfg.homes| && OnTrack(cfg, broken, t, th)
    requires th.phase.Looping? && th.phase.index != INVALID && BrokenStart(cfg, broken, th.phase.index)
    requires th'.phase == Looping(INVALID) && th'.accesscount == th.accesscount + 1
    ensures OnTrack(cfg, broken, t, th')
  {
    assert cfg.offsets[t] + th'.accesscount - 1 == cfg.offsets[t] + th.accesscount;
  }

  lemma LoadOnTrack(cfg: Config, mem: seq<nat>, broken: nat, t: nat, th: Thread)
    requires cfg.Valid() && MemoryOk(cfg, mem, broken) && t < |cfg.homes| && ThreadOk(cfg, t, th)
    requires th.phase.Looping? && OnTrack(cfg, broken, t, th)
    ensures OnTrack(cfg, broken, t, IterateThread(cfg, mem, th))
  {
    var th' := IterateThread(cfg, mem, th);
    if th.phase.index != INVALID {
      Loads(cfg, mem, broken, t, th);
      IterateShape(cfg, mem, th);
      if mem[th.phase.index] == INVALID {
        TrackStops(cfg, broken, t, th, th');
      } else {
        TrackOn(cfg, broken, t, th, th');
      }
    }
  }

  /** No link of the path as built is the sentinel. */
  lemma Unbroken(cfg: Config, c: nat, p: nat)
    requires cfg.Valid() && c < |cfg.chunks| && p < |cfg.chunks[c]|
    ensures cfg.chunks[c][p] < |cfg.mem| && cfg.mem[cfg.chunks[c][p]] != INVALID
  {
    SlotsInMemory(cfg, c, p);
    SlotsInMemory(cfg, cfg.After(c), 0);
    if p + 1 < |cfg.chunks[c]| { SlotsInMemory(cfg, c, p + 1); }
  }

  lemma WalkOnTrack(cfg: Config, broken: nat, t: nat, th: Thread)
    requires cfg.Valid() && t < |cfg.homes| && OnTrack(cfg, broken, t, th)
    requires th.phase.Walking? && th.phase.left > 0 && th.phase.index < |cfg.mem|
    ensures OnTrack(cfg, broken, t, th.(phase := Walking(th.phase.left - 1, cfg.mem[th.phase.index])))
  {
    AfterNext(cfg, t, cfg.offsets[t] - th.phase.left);
  }

  lemma BeginOnTrack(cfg: Config, broken: nat, t: nat, th: Thread)
    requires cfg.Valid() && t < |cfg.homes| && OnTrack(cfg, broken, t, th) && th.phase.Ready? && th.phase.index != INVALID
    ensures OnTrack(cfg, broken, t, th.(phase := Looping(th.phase.index)))
  {
  }

  lemma OwnStepOnTrack(cfg: Config, s: State, a: Action)
    requires cfg.Valid() && IsThreadStep(a) && Enabled(cfg, s, a) && a.t < |cfg.homes|
    requires ThreadOk(cfg, a.t, s.threads[a.t]) && MemoryOk(cfg, s.mem, s.Broken())
    requires s.threads[a.t].phase.Walking? ==> s.mem == cfg.mem
    requires OnTrack(cfg, s.Broken(), a.t, s.threads[a.t])
    ensures OnTrack(cfg, s.Broken(), a.t, StepThread(cfg, s, a))
  {
    var th := s.threads[a.t];
    match a
    case Iterate(t) => LoadOnTrack(cfg, s.mem, s.Broken(), t, th);
    case Walk(t) =>
      WalkOk(cfg, t, th);
      WalkOnTrack(cfg, s.Broken(), t, th);
    case Begin(t) =>
      SlotsInMemory(cfg, cfg.homes[t], cfg.offsets[t]);
      BeginOnTrack(cfg, s.Broken(), t, th);
    case Arrive(t) =>
  }

  lemma StaysOnTrack(cfg: Config, broken: nat, broken': nat, t: nat, th: Thread)
    requires cfg.Valid() && t < |cfg.homes| && OnTrack(cfg, broken, t, th) && broken <= broken'
    ensures OnTrack(cfg, broken', t, th)
  {
  }

  lemma {:induction false} RunOnTrack(cfg: Config, s: State, actions: seq<Action>, s': State, t: nat)
    requires cfg.Valid() && Inv(cfg, s) && Runs(cfg, s, actions, s') && t < |cfg.homes|
    requires OnTrack(cfg, s.Broken(), t, s.threads[t])
    ensures |s'.threads| == |cfg.homes| && OnTrack(cfg, s'.Broken(), t, s'.threads[t])
    decreases |actions|
  {
    if actions != [] {
      var a := actions[0];
      var next := Step(cfg, s, a);
      StepKeepsInv(cfg, s, a);
      InvAt(cfg, s, t);
      if IsThreadStep(a) && a.t == t {
        OwnStepOnTrack(cfg, s, a);
        ThreadStepShape(cfg, s, a);
      } else {
        OtherStep(cfg, s, a, t);
        StaysOnTrack(cfg, s.Broken(), next.Broken(), t, s.threads[t]);
      }
      RunOnTrack(cfg, next, actions[1..], s', t);
    }
  }

  /** In every reachable state of either loop, before, during and after the alarm: a running thread stands
      exactly where its unchecked loads and the loads it has counted lead in the memory as it was built, until
      it loads from a broken start slot; then it holds the sentinel. */
  lemma StandsWhereItCounted(cfg: Config, s: State, t: nat)
    requires cfg.Valid() && Reachable(cfg, s) && t < |cfg.homes|
    ensures |s.threads| == |cfg.homes| && OnTrack(cfg, s.Broken(), t, s.threads[t])
  {
    var actions :| Runs(cfg, Init(cfg), actions, s);
    InitOk(cfg);
    RunOnTrack(cfg, Init(cfg), actions, s, t);
  }

  /** In the plain loop that place is slot `(offset + count) mod length` of the thread's own subpath, and the
      load that found the sentinel was from its first slot. */
  lemma PlainPlace(cfg: Config, s: State, t: nat)
    requires cfg.Valid() && !cfg.migrating && Reachable(cfg, s) && t < |cfg.homes|
    ensures |s.threads| == |cfg.homes|
    ensures var th, path := s.threads[t], cfg.chunks[cfg.homes[t]];
            && (Released(th) && th.phase.index != INVALID ==>
                  th.phase.index == path[(cfg.offsets[t] + th.accesscount) % |path|])
            && (Released(th) && th.phase.index == INVALID ==>
                  th.accesscount > 0 && (cfg.offsets[t] + th.accesscount - 1) % |path| == 0)
  {
    StandsWhereItCounted(cfg, s, t);
    var th := s.threads[t];
    PlainAfter(cfg, t, cfg.offsets[t] + th.accesscount);
    if Released(th) && th.phase.index == INVALID {
      var k := cfg.offsets[t] + th.accesscount - 1;
      PlainAfter(cfg, t, k);
      var c :| 0 <= c < |cfg.chunks| && cfg.chunks[c] != [] && cfg.chunks[c][0] == After(cfg, t, k);
      SlotsDiffer(cfg, c, 0, cfg.homes[t], k % |cfg.chunks[cfg.homes[t]]|);
    }
  }

  lemma PlainAfter(cfg: Config, t: nat, k: nat)
    requires cfg.Valid() && !cfg.migrating && t < |cfg.homes|
    ensures After(cfg, t, k) == cfg.chunks[cfg.homes[t]][k % |cfg.chunks[cfg.homes[t]]|]
  {
    var home := cfg.homes[t];
    assert Chain(cfg.mem, cfg.chunks[home], cfg.chunks[Next(Loops, |cfg.chunks|, home)][0]);
    ChaseCycle(cfg.mem, cfg.chunks[home], k);
  }
}
