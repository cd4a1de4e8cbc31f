/** Pointer chasing as a concurrent protocol: threads (or fibres) that walk to their starting slot,
    meet at a barrier and then chase pointers without synchronisation, the main thread that arms
    the alarm and releases them, and the alarm handler that breaks the subpaths one write at a
    time.  Steps of all participants interleave arbitrarily over one sequentially consistent
    memory. */
module ChaseProtocol {
  import opened Paths
  import opened PathSetup
  import opened FirstFit
  import opened SubpathDistribution

  /* ---------- the state machine ---------- */

  /** One experiment: the subpaths, what was recorded about them, the memory they live in, which
      loop is run, and for each thread its subpath and its offset into it. */
  datatype Config = Config(chunks: seq<seq<nat>>, infos: seq<SubpathInfo>, mem: seq<nat>, migrating: bool,
                           homes: seq<nat>, offsets: seq<nat>) {
    function Shape(): Topology { if migrating then Ring else Loops }

    /** The migrating loop runs on the ring the builder left, the plain loop on the split path. */
    ghost predicate Valid() {
      && Linked(mem, chunks, Shape()) && Describes(infos, chunks) && |mem| <= INVALID
      && |homes| == |offsets|
      && forall t :: 0 <= t < |homes| ==> homes[t] < |chunks| && offsets[t] < |chunks[homes[t]]|
    }

    ghost function After(c: nat): (d: nat)
      requires c < |chunks|
      ensures d < |chunks|
    {
      Next(Shape(), |chunks|, c)
    }
  }

  /** Where a thread is: walking to its starting slot with `left` unchecked loads to go, waiting at
      the barrier, in the loop, returned, or dead because it loaded from outside the buffer. */
  datatype Phase =
    | Walking(left: nat, index: nat)
    | Ready(index: nat)
    | Looping(index: nat)
    | Exited(index: nat)
    | Crashed

  datatype Thread = Thread(phase: Phase, subpathIdx: nat, curStep: nat, accesscount: nat, migrations: nat)

  datatype Main = Waiting | Armed | Started

  /** `Writing(k)`: the handler has broken the first `k` subpaths. */
  datatype Handler = Idle | Writing(done: nat)

  datatype State = State(mem: seq<nat>, threads: seq<Thread>, numAtBarrier: nat, main: Main, handler: Handler) {
    function Broken(): nat { if handler.Idle? then 0 else handler.done }
  }

  datatype Action = Walk(t: nat) | Arrive(t: nat) | Arm | Start | Fire | Break | Begin(t: nat) | Iterate(t: nat)

  ghost function Init(cfg: Config): State
    requires cfg.Valid()
  {
    State(cfg.mem,
          seq(|cfg.homes|, t requires 0 <= t < |cfg.homes| =>
            Thread(Walking(cfg.offsets[t], cfg.infos[cfg.homes[t]].startIdx), cfg.homes[t], cfg.offsets[t], 0, 0)),
          0, Waiting, Idle)
  }

  ghost predicate Enabled(cfg: Config, s: State, a: Action) {
    match a
    case Walk(t) => t < |s.threads| && s.threads[t].phase.Walking? && s.threads[t].phase.left > 0
    case Arrive(t) => t < |s.threads| && s.threads[t].phase.Walking? && s.threads[t].phase.left == 0
    case Arm => s.main.Waiting? && s.numAtBarrier == |s.threads|
    case Start => s.main.Armed?
    case Fire => !s.main.Waiting? && s.handler.Idle?
    case Break => s.handler.Writing? && s.handler.done < |cfg.infos|
    case Begin(t) => t < |s.threads| && s.threads[t].phase.Ready? && s.main.Started?
    case Iterate(t) => t < |s.threads| && s.threads[t].phase.Looping?
  }

  /** One pass through the loop body: leave on the sentinel, otherwise load, count, and in the
      migrating loop move on to the next subpath when this one's steps are used up. */
  ghost function IterateThread(cfg: Config, mem: seq<nat>, th: Thread): Thread
    requires th.phase.Looping?
  {
    var index := th.phase.index;
    if index == INVALID then th.(phase := Exited(index))
    else if index >= |mem| then th.(phase := Crashed)
    else
      var moved := th.(phase := Looping(mem[index]), accesscount := th.accesscount + 1);
      if !cfg.migrating then moved
      else if th.subpathIdx < |cfg.infos| && th.curStep + 1 < cfg.infos[th.subpathIdx].length then
        moved.(curStep := th.curStep + 1)
      else
        moved.(curStep := 0, migrations := th.migrations + 1,
               subpathIdx := if th.subpathIdx + 1 >= |cfg.infos| then 0 else th.subpathIdx + 1)
  }

  ghost function StepThread(cfg: Config, s: State, a: Action): Thread
    requires Enabled(cfg, s, a) && (a.Walk? || a.Arrive? || a.Begin? || a.Iterate?)
  {
    var th := s.threads[a.t];
    match a
    case Walk(t) =>
      if th.phase.index >= |s.mem| then th.(phase := Crashed)
      else th.(phase := Walking(th.phase.left - 1, s.mem[th.phase.index]))
    case Arrive(t) => th.(phase := Ready(th.phase.index))
    case Begin(t) => th.(phase := Looping(th.phase.index))
    case Iterate(t) => IterateThread(cfg, s.mem, th)
  }

  ghost function Step(cfg: Config, s: State, a: Action): State
    requires Enabled(cfg, s, a)
  {
    match a
    case Walk(t) => s.(threads := s.threads[t := StepThread(cfg, s, a)])
    case Arrive(t) => s.(threads := s.threads[t := StepThread(cfg, s, a)], numAtBarrier := s.numAtBarrier + 1)
    case Arm => s.(main := Armed)
    case Start => s.(main := Started)
    case Fire => s.(handler := Writing(0))
    case Break =>
      var start := cfg.infos[s.handler.done].startIdx;
      s.(mem := if start < |s.mem| then s.mem[start := INVALID] else s.mem, handler := Writing(s.handler.done + 1))
    case Begin(t) => s.(threads := s.threads[t := StepThread(cfg, s, a)])
    case Iterate(t) => s.(threads := s.threads[t := StepThread(cfg, s, a)])
  }

  /** The participants can take `actions`, in this order, from `s`, and end in `s'`. */
  ghost predicate Runs(cfg: Config, s: State, actions: seq<Action>, s': State)
    decreases |actions|
  {
    if actions == [] then s' == s
    else Enabled(cfg, s, actions[0]) && Runs(cfg, Step(cfg, s, actions[0]), actions[1..], s')
  }

  ghost predicate Reachable(cfg: Config, s: State)
    requires cfg.Valid()
  {
    exists actions :: Runs(cfg, Init(cfg), actions, s)
  }

  /* ---------- the invariant ---------- */

  /** What slot `p` of subpath `c` holds once the first `broken` subpaths are broken. */
  ghost function Content(cfg: Config, broken: nat, c: nat, p: nat): nat
    requires cfg.Valid() && c < |cfg.chunks| && p < |cfg.chunks[c]|
  {
    if p == 0 && c < broken then INVALID
    else if p + 1 < |cfg.chunks[c]| then cfg.chunks[c][p + 1]
    else cfg.chunks[cfg.After(c)][0]
  }

  ghost predicate MemoryOk(cfg: Config, mem: seq<nat>, broken: nat)
    requires cfg.Valid()
  {
    && |mem| == |cfg.mem|
    && (forall c, p :: 0 <= c < |cfg.chunks| && 0 <= p < |cfg.chunks[c]| ==>
          cfg.chunks[c][p] < |mem| && mem[cfg.chunks[c][p]] == Content(cfg, broken, c, p))
    && (broken == 0 ==> mem == cfg.mem)
  }

  /** A running thread holds the sentinel or stands on a slot it may stand on: a slot of its own
      subpath in the plain loop; in the migrating loop, slot `curStep` of subpath `subpathIdx`. */
  ghost predicate InPlace(cfg: Config, home: nat, th: Thread, index: nat)
    requires cfg.Valid() && home < |cfg.chunks|
  {
    if cfg.migrating then
      && th.subpathIdx < |cfg.chunks| && th.curStep < |cfg.chunks[th.subpathIdx]|
      && index == cfg.chunks[th.subpathIdx][th.curStep]
    else
      index in cfg.chunks[home]
  }

  ghost predicate ThreadOk(cfg: Config, t: nat, th: Thread)
    requires cfg.Valid() && t < |cfg.homes|
  {
    var home, offset := cfg.homes[t], cfg.offsets[t];
    match th.phase
    case Walking(left, index) =>
      && left <= offset && index == cfg.chunks[home][offset - left]
      && th.subpathIdx == home && th.curStep == offset && th.accesscount == 0
    case Ready(index) =>
      index == cfg.chunks[home][offset] && th.subpathIdx == home && th.curStep == offset && th.accesscount == 0
    case Looping(index) => index == INVALID || InPlace(cfg, home, th, index)
    case Exited(index) => index == INVALID
    case Crashed => false
  }

  ghost function Arrived(threads: seq<Thread>): nat {
    if threads == [] then 0
    else Arrived(threads[..|threads| - 1]) + (if threads[|threads| - 1].phase.Walking? then 0 else 1)
  }

  ghost predicate Inv(cfg: Config, s: State)
    requires cfg.Valid()
  {
    && s.Broken() <= |cfg.chunks| && MemoryOk(cfg, s.mem, s.Broken())
    && |s.threads| == |cfg.homes|
    && (forall t :: 0 <= t < |s.threads| ==> ThreadOk(cfg, t, s.threads[t]))
    && s.numAtBarrier == Arrived(s.threads)
    && (!s.main.Waiting? ==> forall t :: 0 <= t < |s.threads| ==> !s.threads[t].phase.Walking?)
    && (s.main.Waiting? ==> s.handler.Idle?)
  }

  lemma {:induction false} ArrivedBound(threads: seq<Thread>)
    ensures Arrived(threads) <= |threads|
    ensures Arrived(threads) == |threads| <==> forall t :: 0 <= t < |threads| ==> !threads[t].phase.Walking?
  {
    if threads != [] {
      ArrivedBound(threads[..|threads| - 1]);
    }
  }

  lemma {:induction false} ArrivedUpdate(threads: seq<Thread>, t: nat, th: Thread)
    requires t < |threads|
    ensures Arrived(threads[t := th]) == Arrived(threads)
              + (if th.phase.Walking? then 0 else 1) - (if threads[t].phase.Walking? then 0 else 1)
  {
    var n := |threads| - 1;
    if t < n {
      ArrivedUpdate(threads[..n], t, th);
      assert threads[t := th][..n] == threads[..n][t := th];
    } else {
      assert threads[t := th][..n] == threads[..n];
    }
  }

  lemma SlotsDiffer(cfg: Config, c: nat, p: nat, d: nat, q: nat)
    requires cfg.Valid() && c < |cfg.chunks| && p < |cfg.chunks[c]| && d < |cfg.chunks| && q < |cfg.chunks[d]|
    ensures cfg.chunks[c][p] == cfg.chunks[d][q] <==> c == d && p == q
  {
    assert cfg.chunks[c][p] in cfg.chunks[c] && cfg.chunks[d][q] in cfg.chunks[d];
    assert Chain(cfg.mem, cfg.chunks[c], cfg.chunks[cfg.After(c)][0]);
  }

  lemma SlotsInMemory(cfg: Config, c: nat, p: nat)
    requires cfg.Valid() && c < |cfg.chunks| && p < |cfg.chunks[c]|
    ensures cfg.chunks[c][p] < |cfg.mem| && cfg.mem[cfg.chunks[c][p]] == Content(cfg, 0, c, p)
  {
    assert Chain(cfg.mem, cfg.chunks[c], cfg.chunks[cfg.After(c)][0]);
  }

  lemma InitOk(cfg: Config)
    requires cfg.Valid()
    ensures Inv(cfg, Init(cfg))
  {
    var s := Init(cfg);
    forall c, p | 0 <= c < |cfg.chunks| && 0 <= p < |cfg.chunks[c]|
      ensures cfg.chunks[c][p] < |s.mem| && s.mem[cfg.chunks[c][p]] == Content(cfg, 0, c, p)
    {
      SlotsInMemory(cfg, c, p);
    }
    NobodyArrived(s.threads);
  }

  lemma {:induction false} NobodyArrived(threads: seq<Thread>)
    requires forall t :: 0 <= t < |threads| ==> threads[t].phase.Walking?
    ensures Arrived(threads) == 0
  {
    if threads != [] {
      NobodyArrived(threads[..|threads| - 1]);
    }
  }

  /** A write of the handler breaks one start slot and touches nothing else. */
  lemma BreakKeepsMemory(cfg: Config, mem: seq<nat>, k: nat)
    requires cfg.Valid() && k < |cfg.chunks| && MemoryOk(cfg, mem, k)
    ensures cfg.infos[k].startIdx < |mem| && MemoryOk(cfg, mem[cfg.infos[k].startIdx := INVALID], k + 1)
  {
    var start := cfg.chunks[k][0];
    var mem' := mem[start := INVALID];
    forall c, p | 0 <= c < |cfg.chunks| && 0 <= p < |cfg.chunks[c]|
      ensures cfg.chunks[c][p] < |mem'| && mem'[cfg.chunks[c][p]] == Content(cfg, k + 1, c, p)
    {
      SlotsDiffer(cfg, c, p, k, 0);
    }
  }

  /** A load in the loop leads to the sentinel or to a slot the thread may stand on. */
  lemma PlainIterateOk(cfg: Config, mem: seq<nat>, broken: nat, t: nat, th: Thread)
    requires cfg.Valid() && !cfg.migrating && MemoryOk(cfg, mem, broken) && t < |cfg.homes|
    requires ThreadOk(cfg, t, th) && th.phase.Looping?
    ensures ThreadOk(cfg, t, IterateThread(cfg, mem, th))
  {
    var index, home := th.phase.index, cfg.homes[t];
    if index != INVALID {
      var p :| 0 <= p < |cfg.chunks[home]| && cfg.chunks[home][p] == index;
      assert mem[cfg.chunks[home][p]] == Content(cfg, broken, home, p);
    }
  }

  lemma MigratingIterateOk(cfg: Config, mem: seq<nat>, broken: nat, t: nat, th: Thread)
    requires cfg.Valid() && cfg.migrating && MemoryOk(cfg, mem, broken) && t < |cfg.homes|
    requires ThreadOk(cfg, t, th) && th.phase.Looping?
    ensures ThreadOk(cfg, t, IterateThread(cfg, mem, th))
  {
    if th.phase.index != INVALID {
      MigratingLoad(cfg, mem, broken, t, th);
    }
  }

  lemma SlotHeld(cfg: Config, t: nat, th: Thread)
    requires cfg.Valid() && cfg.migrating && t < |cfg.homes| && ThreadOk(cfg, t, th)
    requires th.phase.Looping? && th.phase.index != INVALID
    ensures th.subpathIdx < |cfg.chunks| && th.curStep < |cfg.chunks[th.subpathIdx]|
    ensures th.phase.index == cfg.chunks[th.subpathIdx][th.curStep]
  {
  }

  lemma SlotContent(cfg: Config, mem: seq<nat>, broken: nat, c: nat, p: nat)
    requires cfg.Valid() && MemoryOk(cfg, mem, broken) && c < |cfg.chunks| && p < |cfg.chunks[c]|
    ensures cfg.chunks[c][p] < |mem| && mem[cfg.chunks[c][p]] == Content(cfg, broken, c, p)
  {
  }

  lemma InfoAt(cfg: Config, c: nat)
    requires cfg.Valid() && c < |cfg.chunks|
    ensures |cfg.infos| == |cfg.chunks| && cfg.infos[c].length == |cfg.chunks[c]|
    ensures cfg.migrating ==> cfg.After(c) == if c + 1 >= |cfg.infos| then 0 else c + 1
  {
  }

  predicate At(th: Thread, c: nat, p: nat, migrations: nat) {
    th.subpathIdx == c && th.curStep == p && th.migrations == migrations
  }

  /** What the counters of a migrating thread do on a load, whatever it loads. */
  lemma CountersStep(cfg: Config, mem: seq<nat>, th: Thread)
    requires cfg.migrating && th.phase.Looping? && th.phase.index != INVALID && th.phase.index < |mem|
    requires th.subpathIdx < |cfg.infos|
    ensures var th' := IterateThread(cfg, mem, th);
            && th'.phase == Looping(mem[th.phase.index]) && th'.accesscount == th.accesscount + 1
            && (if th.curStep + 1 < cfg.infos[th.subpathIdx].length
                then At(th', th.subpathIdx, th.curStep + 1, th.migrations)
                else At(th', if th.subpathIdx + 1 >= |cfg.infos| then 0 else th.subpathIdx + 1, 0, th.migrations + 1))
  {
  }

  /** Where the load of a migrating thread leads, and what the counters say then. */
  lemma MigratingLoad(cfg: Config, mem: seq<nat>, broken: nat, t: nat, th: Thread)
    requires cfg.Valid() && cfg.migrating && MemoryOk(cfg, mem, broken) && t < |cfg.homes|
    requires ThreadOk(cfg, t, th) && th.phase.Looping? && th.phase.index != INVALID
    ensures th.subpathIdx < |cfg.chunks| && th.curStep < |cfg.chunks[th.subpathIdx]| && th.phase.index < |mem|
    ensures var (c, p) := (th.subpathIdx, th.curStep);
            var th' := IterateThread(cfg, mem, th);
            && th'.phase == Looping(Content(cfg, broken, c, p)) && th'.accesscount == th.accesscount + 1
            && (if p + 1 < |cfg.chunks[c]| then At(th', c, p + 1, th.migrations)
                else At(th', cfg.After(c), 0, th.migrations + 1))
  {
    SlotHeld(cfg, t, th);
    SlotContent(cfg, mem, broken, th.subpathIdx, th.curStep);
    InfoAt(cfg, th.subpathIdx);
    CountersStep(cfg, mem, th);
  }

  lemma WalkOk(cfg: Config, t: nat, th: Thread)
    requires cfg.Valid() && t < |cfg.homes| && ThreadOk(cfg, t, th) && th.phase.Walking? && th.phase.left > 0
    ensures th.phase.index < |cfg.mem|
    ensures ThreadOk(cfg, t, th.(phase := Walking(th.phase.left - 1, cfg.mem[th.phase.index])))
  {
    SlotsInMemory(cfg, cfg.homes[t], cfg.offsets[t] - th.phase.left);
  }

  lemma ArriveOk(cfg: Config, t: nat, th: Thread)
    requires cfg.Valid() && t < |cfg.homes| && ThreadOk(cfg, t, th) && th.phase.Walking? && th.phase.left == 0
    ensures ThreadOk(cfg, t, th.(phase := Ready(th.phase.index)))
  {
  }

  lemma BeginOk(cfg: Config, t: nat, th: Thread)
    requires cfg.Valid() && t < |cfg.homes| && ThreadOk(cfg, t, th) && th.phase.Ready?
    ensures ThreadOk(cfg, t, th.(phase := Looping(th.phase.index)))
  {
  }

  lemma IterateOk(cfg: Config, mem: seq<nat>, broken: nat, t: nat, th: Thread)
    requires cfg.Valid() && MemoryOk(cfg, mem, broken) && t < |cfg.homes| && ThreadOk(cfg, t, th) && th.phase.Looping?
    ensures ThreadOk(cfg, t, IterateThread(cfg, mem, th))
  {
    if cfg.migrating {
      MigratingIterateOk(cfg, mem, broken, t, th);
    } else {
      PlainIterateOk(cfg, mem, broken, t, th);
    }
  }

  predicate IsThreadStep(a: Action) { a.Walk? || a.Arrive? || a.Begin? || a.Iterate? }

  /** What a thread's step needs of the invariant. */
  lemma InvAt(cfg: Config, s: State, t: nat)
    requires cfg.Valid() && Inv(cfg, s) && t < |s.threads|
    ensures |s.threads| == |cfg.homes| && ThreadOk(cfg, t, s.threads[t]) && MemoryOk(cfg, s.mem, s.Broken())
    ensures s.threads[t].phase.Walking? ==> s.mem == cfg.mem
  {
  }

  lemma ThreadStepOk(cfg: Config, s: State, a: Action)
    requires cfg.Valid() && IsThreadStep(a) && Enabled(cfg, s, a) && a.t < |cfg.homes|
    requires ThreadOk(cfg, a.t, s.threads[a.t]) && MemoryOk(cfg, s.mem, s.Broken())
    requires s.threads[a.t].phase.Walking? ==> s.mem == cfg.mem
    ensures ThreadOk(cfg, a.t, StepThread(cfg, s, a))
  {
    var th := s.threads[a.t];
    match a
    case Walk(t) => WalkOk(cfg, t, th);
    case Arrive(t) => ArriveOk(cfg, t, th);
    case Begin(t) => BeginOk(cfg, t, th);
    case Iterate(t) => IterateOk(cfg, s.mem, s.Broken(), t, th);
  }

  lemma ReplaceThread(cfg: Config, s: State, t: nat, th: Thread)
    requires cfg.Valid() && Inv(cfg, s) && t < |s.threads| && ThreadOk(cfg, t, th)
    requires th.phase.Walking? ==> s.threads[t].phase.Walking?
    ensures Inv(cfg, s.(threads := s.threads[t := th],
                        numAtBarrier := s.numAtBarrier + (if s.threads[t].phase.Walking? && !th.phase.Walking? then 1 else 0)))
  {
    ArrivedUpdate(s.threads, t, th);
  }

  /** A thread's step changes that thread and, if it arrives, the count. */
  lemma ThreadStepShape(cfg: Config, s: State, a: Action)
    requires IsThreadStep(a) && Enabled(cfg, s, a)
    ensures var th, th' := s.threads[a.t], StepThread(cfg, s, a);
            && (th'.phase.Walking? ==> th.phase.Walking?)
            && Step(cfg, s, a) == s.(threads := s.threads[a.t := th'],
                                     numAtBarrier := s.numAtBarrier + if a.Arrive? then 1 else 0)
            && (a.Arrive? ==> th.phase.Walking? && !th'.phase.Walking?)
            && (th.phase.Walking? && !th'.phase.Walking? ==> a.Arrive? || th'.phase.Crashed?)
  {
  }

  lemma ThreadStepKeepsInv(cfg: Config, s: State, a: Action)
    requires cfg.Valid() && Inv(cfg, s) && Enabled(cfg, s, a) && IsThreadStep(a)
    ensures Inv(cfg, Step(cfg, s, a))
  {
    InvAt(cfg, s, a.t);
    ThreadStepOk(cfg, s, a);
    ThreadStepShape(cfg, s, a);
    ReplaceThread(cfg, s, a.t, StepThread(cfg, s, a));
  }

  /** Every step of every participant keeps the invariant. */
  lemma StepKeepsInv(cfg: Config, s: State, a: Action)
    requires cfg.Valid() && Inv(cfg, s) && Enabled(cfg, s, a)
    ensures Inv(cfg, Step(cfg, s, a))
  {
    match a
    case Arm => ArrivedBound(s.threads);
    case Start =>
    case Fire =>
    case Break => BreakKeepsMemory(cfg, s.mem, s.handler.done);
    case _ => ThreadStepKeepsInv(cfg, s, a);
  }

  lemma {:induction false} RunKeepsInv(cfg: Config, s: State, actions: seq<Action>, s': State)
    requires cfg.Valid() && Inv(cfg, s) && Runs(cfg, s, actions, s')
    ensures Inv(cfg, s')
    decreases |actions|
  {
    if actions != [] {
      StepKeepsInv(cfg, s, actions[0]);
      RunKeepsInv(cfg, Step(cfg, s, actions[0]), actions[1..], s');
    }
  }

  /** Safety over whole runs. */
  lemma ReachableOk(cfg: Config, s: State)
    requires cfg.Valid() && Reachable(cfg, s)
    ensures Inv(cfg, s)
  {
    var actions :| Runs(cfg, Init(cfg), actions, s);
    InitOk(cfg);
    RunKeepsInv(cfg, Init(cfg), actions, s);
  }

  /* ---------- what threads can do ---------- */

  /** In every reachable state: no thread has loaded through the sentinel or from outside the
      buffer; an unchecked walk is under way only while the path is still as built and the alarm
      is not armed; and a running thread holds the sentinel or stands on a slot it may stand on. */
  lemma NoWildLoads(cfg: Config, s: State, t: nat)
    requires cfg.Valid() && Reachable(cfg, s) && t < |cfg.homes|
    ensures |s.threads| == |cfg.homes| && !s.threads[t].phase.Crashed?
    ensures s.threads[t].phase.Walking? ==> s.main.Waiting? && s.mem == cfg.mem
    ensures s.threads[t].phase.Looping? ==>
              s.threads[t].phase.index == INVALID || InPlace(cfg, cfg.homes[t], s.threads[t], s.threads[t].phase.index)
    ensures s.threads[t].phase.Exited? ==> s.threads[t].phase.index == INVALID
  {
    ReachableOk(cfg, s);
    assert ThreadOk(cfg, t, s.threads[t]);
  }

  ghost predicate IsStart(cfg: Config, index: nat) {
    exists d :: 0 <= d < |cfg.chunks| && cfg.chunks[d] != [] && index == cfg.chunks[d][0]
  }

  /** What one pass of the migrating loop that loads something does about migration.  If the load
      arrives somewhere, the thread moves to another cluster exactly when it arrives at the start
      of a subpath, and then to that subpath's cluster.  The load of the sentinel is counted as a
      step too: in a subpath of length 1, and only there, it triggers a last move that no arrival
      asks for. */
  ghost predicate MovesOnArrival(cfg: Config, th: Thread, th': Thread) {
    && th'.phase.Looping?
    && th.subpathIdx < |cfg.chunks| && th'.subpathIdx < |cfg.chunks| && cfg.chunks[th'.subpathIdx] != []
    && (th'.migrations == th.migrations || th'.migrations == th.migrations + 1)
    && (th'.phase.index != INVALID ==> (th'.migrations == th.migrations + 1 <==> IsStart(cfg, th'.phase.index)))
    && (th'.phase.index != INVALID && IsStart(cfg, th'.phase.index) ==> th'.phase.index == cfg.chunks[th'.subpathIdx][0])
    && (th'.phase.index == INVALID ==> (th'.migrations == th.migrations + 1 <==> |cfg.chunks[th.subpathIdx]| == 1))
  }

  lemma MigratesOnArrival(cfg: Config, s: State, t: nat)
    requires cfg.Valid() && cfg.migrating && Reachable(cfg, s) && Enabled(cfg, s, Iterate(t))
    requires s.threads[t].phase.index != INVALID
    ensures MovesOnArrival(cfg, s.threads[t], Step(cfg, s, Iterate(t)).threads[t])
  {
    ReachableOk(cfg, s);
    assert ThreadOk(cfg, t, s.threads[t]);
    LoadMoves(cfg, s.mem, s.Broken(), t, s.threads[t]);
  }

  lemma LoadMoves(cfg: Config, mem: seq<nat>, broken: nat, t: nat, th: Thread)
    requires cfg.Valid() && cfg.migrating && MemoryOk(cfg, mem, broken) && t < |cfg.homes|
    requires th.phase.Looping? && th.phase.index != INVALID && ThreadOk(cfg, t, th)
    ensures MovesOnArrival(cfg, th, IterateThread(cfg, mem, th))
  {
    var c, p := th.subpathIdx, th.curStep;
    MigratingLoad(cfg, mem, broken, t, th);
    if p + 1 < |cfg.chunks[c]| {
      forall d | 0 <= d < |cfg.chunks| ensures cfg.chunks[c][p + 1] != cfg.chunks[d][0] {
        SlotsDiffer(cfg, c, p + 1, d, 0);
      }
    }
  }

  /* A subpath of length 1 is all it takes for the last move that no arrival asks for: a run that leads
     there gathers the threads, releases the first one, lets it chase up to that subpath, and breaks it. */

  lemma {:induction false} RunsThenStep(cfg: Config, s: State, actions: seq<Action>, s': State, a: Action)
    requires Runs(cfg, s, actions, s') && Enabled(cfg, s', a)
    ensures Runs(cfg, s, actions + [a], Step(cfg, s', a))
    decreases |actions|
  {
    if actions == [] {
      assert Runs(cfg, Step(cfg, s, a), [], Step(cfg, s, a));
    } else {
      RunsThenStep(cfg, Step(cfg, s, actions[0]), actions[1..], s', a);
      assert (actions + [a])[1..] == actions[1..] + [a];
    }
  }

  lemma ReachableStep(cfg: Config, s: State, a: Action)
    requires cfg.Valid() && Reachable(cfg, s) && Enabled(cfg, s, a)
    ensures Reachable(cfg, Step(cfg, s, a))
  {
    var actions :| Runs(cfg, Init(cfg), actions, s);
    RunsThenStep(cfg, Init(cfg), actions, s, a);
  }

  ghost predicate MovesAtSentinel(cfg: Config, s: State, t: nat) {
    && Enabled(cfg, s, Iterate(t)) && s.threads[t].phase.index != INVALID
    && var th := Step(cfg, s, Iterate(t)).threads[t];
       th.phase == Looping(INVALID) && th.migrations == s.threads[t].migrations + 1
  }

  /** The first `k` threads wait at the barrier, the others still walk. */
  ghost predicate Gathering(cfg: Config, s: State, k: nat)
    requires cfg.Valid()
  {
    && Reachable(cfg, s) && s.main.Waiting? && k <= |s.threads| == |cfg.homes|
    && (forall t :: 0 <= t < k ==> s.threads[t].phase.Ready?)
    && (forall t :: k <= t < |s.threads| ==> s.threads[t].phase.Walking?)
  }

  function WalkLeft(threads: seq<Thread>, k: nat): nat {
    if k < |threads| && threads[k].phase.Walking? then threads[k].phase.left + 1 else 0
  }

  lemma WalkOn(cfg: Config, s: State, k: nat) returns (s': State)
    requires cfg.Valid() && Gathering(cfg, s, k) && k < |s.threads| && s.threads[k].phase.left > 0
    ensures Gathering(cfg, s', k) && WalkLeft(s'.threads, k) < WalkLeft(s.threads, k)
  {
    ReachableOk(cfg, s);
    InvAt(cfg, s, k);
    WalkOk(cfg, k, s.threads[k]);
    ReachableStep(cfg, s, Walk(k));
    s' := Step(cfg, s, Walk(k));
  }

  lemma ArriveNow(cfg: Config, s: State, k: nat) returns (s': State)
    requires cfg.Valid() && Gathering(cfg, s, k) && k < |s.threads| && s.threads[k].phase.left == 0
    ensures Gathering(cfg, s', k + 1)
  {
    ReachableStep(cfg, s, Arrive(k));
    s' := Step(cfg, s, Arrive(k));
  }

  lemma {:induction false} GatherAll(cfg: Config, s: State, k: nat) returns (s': State)
    requires cfg.Valid() && Gathering(cfg, s, k)
    ensures Gathering(cfg, s', |cfg.homes|)
    decreases |cfg.homes| - k, WalkLeft(s.threads, k)
  {
    s' := s;
    if k < |cfg.homes| {
      if s.threads[k].phase.left > 0 {
        s' := WalkOn(cfg, s, k);
        s' := GatherAll(cfg, s', k);
      } else {
        s' := ArriveNow(cfg, s, k);
        s' := GatherAll(cfg, s', k + 1);
      }
    }
  }

  /** The first thread chases, and the handler has not been called. */
  ghost predicate Chasing(cfg: Config, s: State)
    requires cfg.Valid()
  {
    && Reachable(cfg, s) && s.main.Started? && s.handler.Idle? && 0 < |s.threads| == |cfg.homes|
    && s.threads[0].phase.Looping? && s.threads[0].phase.index != INVALID
  }

  lemma Release(cfg: Config, s: State) returns (s': State)
    requires cfg.Valid() && Gathering(cfg, s, |cfg.homes|) && 0 < |cfg.homes|
    ensures Chasing(cfg, s')
  {
    ReachableOk(cfg, s);
    ArrivedBound(s.threads);
    InvAt(cfg, s, 0);
    SlotsInMemory(cfg, cfg.homes[0], cfg.offsets[0]);
    ReachableStep(cfg, s, Arm);
    var s1 := Step(cfg, s, Arm);
    ReachableStep(cfg, s1, Start);
    var s2 := Step(cfg, s1, Start);
    ReachableStep(cfg, s2, Begin(0));
    s' := Step(cfg, s2, Begin(0));
  }

  function StepsTo(n: nat, from: nat, to: nat): nat
    requires from < n && to < n
  {
    if to >= from then to - from else to - from + n
  }

  lemma {:induction false} ChaseTo(cfg: Config, s: State, c: nat) returns (s': State)
    requires cfg.Valid() && cfg.migrating && Chasing(cfg, s) && c < |cfg.chunks| && |cfg.chunks[c]| == 1
    requires s.threads[0].subpathIdx < |cfg.chunks| && s.threads[0].curStep < |cfg.chunks[s.threads[0].subpathIdx]|
    ensures Chasing(cfg, s') && s'.threads[0].subpathIdx == c && s'.threads[0].curStep == 0
    decreases StepsTo(|cfg.chunks|, s.threads[0].subpathIdx, c), |cfg.chunks[s.threads[0].subpathIdx]| - s.threads[0].curStep
  {
    var th := s.threads[0];
    if th.subpathIdx == c {
      s' := s;
    } else {
      ReachableOk(cfg, s);
      InvAt(cfg, s, 0);
      MigratingLoad(cfg, s.mem, 0, 0, th);
      SlotsInMemory(cfg, th.subpathIdx, th.curStep);
      SlotsInMemory(cfg, cfg.After(th.subpathIdx), 0);
      if th.curStep + 1 < |cfg.chunks[th.subpathIdx]| {
        SlotsInMemory(cfg, th.subpathIdx, th.curStep + 1);
      }
      ReachableStep(cfg, s, Iterate(0));
      s' := ChaseTo(cfg, Step(cfg, s, Iterate(0)), c);
    }
  }

  lemma {:induction false} BreakUpTo(cfg: Config, s: State, k: nat) returns (s': State)
    requires cfg.Valid() && Reachable(cfg, s) && s.handler.Writing? && s.handler.done <= k <= |cfg.infos|
    ensures Reachable(cfg, s') && s'.threads == s.threads && s'.main == s.main && s'.handler == Writing(k)
    decreases k - s.handler.done
  {
    if s.handler.done == k {
      s' := s;
    } else {
      ReachableStep(cfg, s, Break);
      s' := BreakUpTo(cfg, Step(cfg, s, Break), k);
    }
  }

  lemma ChasedTo(cfg: Config, c: nat) returns (s': State)
    requires cfg.Valid() && cfg.migrating && 0 < |cfg.homes| && c < |cfg.chunks| && |cfg.chunks[c]| == 1
    ensures Chasing(cfg, s') && s'.threads[0].subpathIdx == c && s'.threads[0].curStep == 0
  {
    var s0 := Init(cfg);
    assert Runs(cfg, s0, [], s0);
    s' := GatherAll(cfg, s0, 0);
    s' := Release(cfg, s');
    ReachableOk(cfg, s');
    InvAt(cfg, s', 0);
    SlotHeld(cfg, 0, s'.threads[0]);
    s' := ChaseTo(cfg, s', c);
  }

  lemma SentinelLoad(cfg: Config, s: State, c: nat)
    requires cfg.Valid() && cfg.migrating && Reachable(cfg, s) && 0 < |s.threads| && s.handler == Writing(c + 1)
    requires c < |cfg.chunks| && |cfg.chunks[c]| == 1
    requires s.threads[0].phase.Looping? && s.threads[0].phase.index != INVALID
    requires s.threads[0].subpathIdx == c && s.threads[0].curStep == 0
    ensures MovesAtSentinel(cfg, s, 0)
  {
    ReachableOk(cfg, s);
    InvAt(cfg, s, 0);
    MigratingLoad(cfg, s.mem, c + 1, 0, s.threads[0]);
  }

  lemma ExtraMove(cfg: Config, c: nat) returns (s': State)
    requires cfg.Valid() && cfg.migrating && 0 < |cfg.homes| && c < |cfg.chunks| && |cfg.chunks[c]| == 1
    ensures Reachable(cfg, s') && MovesAtSentinel(cfg, s', 0)
  {
    s' := ChasedTo(cfg, c);
    ReachableStep(cfg, s', Fire);
    s' := BreakUpTo(cfg, Step(cfg, s', Fire), c + 1);
    SentinelLoad(cfg, s', c);
  }

  /** In a migrating experiment some fibre can load the sentinel and move all the same exactly when there
      are fibres and some subpath has length 1. */
  lemma ExtraMoveExactly(cfg: Config)
    requires cfg.Valid() && cfg.migrating
    ensures (exists s, t: nat :: Reachable(cfg, s) && MovesAtSentinel(cfg, s, t))
            <==> 0 < |cfg.homes| && exists c :: 0 <= c < |cfg.chunks| && |cfg.chunks[c]| == 1
  {
    if s, t: nat :| Reachable(cfg, s) && MovesAtSentinel(cfg, s, t) {
      ReachableOk(cfg, s);
      InvAt(cfg, s, t);
      SlotHeld(cfg, t, s.threads[t]);
      MigratesOnArrival(cfg, s, t);
      assert |cfg.chunks[s.threads[t].subpathIdx]| == 1;
    }
    if 0 < |cfg.homes| {
      if c :| 0 <= c < |cfg.chunks| && |cfg.chunks[c]| == 1 {
        var s := ExtraMove(cfg, c);
      }
    }
  }

  /* ---------- how threads come to an end ---------- */

  ghost function IndexOf(path: seq<nat>, a: nat): (p: nat)
    requires a in path
    ensures p < |path| && path[p] == a
  {
    var p :| 0 <= p < |path| && path[p] == a; p
  }

  /** The subpath a thread is on and how far along it is. */
  ghost function Position(cfg: Config, t: nat, th: Thread): (at: (nat, nat))
    requires cfg.Valid() && t < |cfg.homes| && ThreadOk(cfg, t, th) && !th.phase.Exited? && th.phase.index != INVALID
    ensures at.0 < |cfg.chunks| && at.1 < |cfg.chunks[at.0]|
  {
    if !th.phase.Looping? then (cfg.homes[t], cfg.offsets[t])
    else if cfg.migrating then (th.subpathIdx, th.curStep)
    else (cfg.homes[t], IndexOf(cfg.chunks[cfg.homes[t]], th.phase.index))
  }

  /** The next start slot in the thread's way, its own included, is broken. */
  ghost predicate Doomed(cfg: Config, broken: nat, t: nat, th: Thread)
    requires cfg.Valid() && t < |cfg.homes| && ThreadOk(cfg, t, th)
  {
    th.phase.Exited? || th.phase.index == INVALID ||
    var (c, p) := Position(cfg, t, th);
    if p == 0 then c < broken else cfg.After(c) < broken
  }

  /** Loads a doomed thread still makes. */
  ghost function LoadsLeft(cfg: Config, t: nat, th: Thread): nat
    requires cfg.Valid() && t < |cfg.homes| && ThreadOk(cfg, t, th)
  {
    if th.phase.Exited? || th.phase.index == INVALID then 0
    else
      var (c, p) := Position(cfg, t, th);
      if p == 0 then 1 else |cfg.chunks[c]| - p + 1
  }

  /** Passes through the loop it still makes: one per load, and the one that leaves. */
  ghost function PassesLeft(cfg: Config, t: nat, th: Thread): nat
    requires cfg.Valid() && t < |cfg.homes| && ThreadOk(cfg, t, th)
  {
    LoadsLeft(cfg, t, th) + (if th.phase.Exited? then 0 else 1)
  }

  lemma PlainPosition(cfg: Config, t: nat, th: Thread, p: nat)
    requires cfg.Valid() && !cfg.migrating && t < |cfg.homes| && ThreadOk(cfg, t, th) && th.phase.Looping?
    requires th.phase.index != INVALID && p < |cfg.chunks[cfg.homes[t]]| && cfg.chunks[cfg.homes[t]][p] == th.phase.index
    ensures Position(cfg, t, th) == (cfg.homes[t], p)
  {
    SlotsDiffer(cfg, cfg.homes[t], p, cfg.homes[t], IndexOf(cfg.chunks[cfg.homes[t]], th.phase.index));
  }

  /** One pass of a doomed thread uses up one of its passes, and a load if it makes one. */
  lemma DoomedIterates(cfg: Config, mem: seq<nat>, broken: nat, t: nat, th: Thread)
    requires cfg.Valid() && t < |cfg.homes| && MemoryOk(cfg, mem, broken)
    requires ThreadOk(cfg, t, th) && th.phase.Looping? && Doomed(cfg, broken, t, th)
    ensures var th' := IterateThread(cfg, mem, th);
            && ThreadOk(cfg, t, th') && Doomed(cfg, broken, t, th')
            && PassesLeft(cfg, t, th') == PassesLeft(cfg, t, th) - 1
            && th'.accesscount + LoadsLeft(cfg, t, th') == th.accesscount + LoadsLeft(cfg, t, th)
  {
    if th.phase.index != INVALID {
      var (c, p) := Position(cfg, t, th);
      var th' := IterateThread(cfg, mem, th);
      assert mem[cfg.chunks[c][p]] == Content(cfg, broken, c, p);
      if cfg.migrating {
        MigratingLoad(cfg, mem, broken, t, th);
        MigratingIterateOk(cfg, mem, broken, t, th);
      } else {
        PlainIterateOk(cfg, mem, broken, t, th);
        if th'.phase.index != INVALID {
          PlainPosition(cfg, t, th', if p + 1 < |cfg.chunks[c]| then p + 1 else 0);
        }
      }
    }
  }

  ghost function Iterations(actions: seq<Action>, t: nat): nat {
    if actions == [] then 0
    else (if actions[0] == Iterate(t) then 1 else 0) + Iterations(actions[1..], t)
  }

  lemma DoomedBegins(cfg: Config, broken: nat, t: nat, th: Thread)
    requires cfg.Valid() && t < |cfg.homes| && ThreadOk(cfg, t, th) && th.phase.Ready? && Doomed(cfg, broken, t, th)
    ensures var th' := th.(phase := Looping(th.phase.index));
            && ThreadOk(cfg, t, th') && Doomed(cfg, broken, t, th')
            && PassesLeft(cfg, t, th') == PassesLeft(cfg, t, th) && LoadsLeft(cfg, t, th') == LoadsLeft(cfg, t, th)
  {
    BeginOk(cfg, t, th);
    SlotsInMemory(cfg, cfg.homes[t], cfg.offsets[t]);
    if !cfg.migrating {
      PlainPosition(cfg, t, th.(phase := Looping(th.phase.index)), cfg.offsets[t]);
    }
  }

  lemma DoomedWalks(cfg: Config, broken: nat, t: nat, th: Thread, th': Thread)
    requires cfg.Valid() && t < |cfg.homes| && ThreadOk(cfg, t, th) && ThreadOk(cfg, t, th') && Doomed(cfg, broken, t, th)
    requires th.phase.Walking? && (th'.phase.Walking? || th'.phase.Ready?) && th'.accesscount == th.accesscount
    ensures Doomed(cfg, broken, t, th')
    ensures PassesLeft(cfg, t, th') == PassesLeft(cfg, t, th) && LoadsLeft(cfg, t, th') == LoadsLeft(cfg, t, th)
  {
    SlotsInMemory(cfg, cfg.homes[t], cfg.offsets[t]);
    SlotsInMemory(cfg, cfg.homes[t], cfg.offsets[t] - th.phase.left);
    if th'.phase.Walking? {
      SlotsInMemory(cfg, cfg.homes[t], cfg.offsets[t] - th'.phase.left);
    }
  }

  /** Breaking more start slots does not revive a doomed thread. */
  lemma DoomedStays(cfg: Config, broken: nat, broken': nat, t: nat, th: Thread)
    requires cfg.Valid() && t < |cfg.homes| && ThreadOk(cfg, t, th) && Doomed(cfg, broken, t, th) && broken <= broken'
    ensures Doomed(cfg, broken', t, th)
  {
  }

  lemma OtherStep(cfg: Config, s: State, a: Action, t: nat)
    requires Enabled(cfg, s, a) && t < |s.threads| && (IsThreadStep(a) ==> a.t != t)
    ensures var s' := Step(cfg, s, a);
            t < |s'.threads| && s'.threads[t] == s.threads[t] && s.Broken() <= s'.Broken()
  {
  }

  /** What is left for a doomed thread before and after a step. */
  ghost predicate CountsDown(cfg: Config, broken: nat, t: nat, th: Thread, th': Thread, passes: nat)
    requires cfg.Valid() && t < |cfg.homes| && ThreadOk(cfg, t, th)
  {
    && ThreadOk(cfg, t, th') && Doomed(cfg, broken, t, th')
    && PassesLeft(cfg, t, th') + passes == PassesLeft(cfg, t, th)
    && th'.accesscount + LoadsLeft(cfg, t, th') == th.accesscount + LoadsLeft(cfg, t, th)
  }

  /** No step revives a doomed thread, and its own passes use up what is left. */
  lemma DoomedStep(cfg: Config, s: State, a: Action, t: nat)
    requires cfg.Valid() && Inv(cfg, s) && Enabled(cfg, s, a) && t < |cfg.homes|
    requires ThreadOk(cfg, t, s.threads[t]) && Doomed(cfg, s.Broken(), t, s.threads[t])
    ensures var s' := Step(cfg, s, a);
            && |s'.threads| == |cfg.homes|
            && CountsDown(cfg, s'.Broken(), t, s.threads[t], s'.threads[t], if a == Iterate(t) then 1 else 0)
  {
    InvAt(cfg, s, t);
    if IsThreadStep(a) && a.t == t {
      DoomedOwnStep(cfg, s, a);
    } else {
      OtherStep(cfg, s, a, t);
      DoomedStays(cfg, s.Broken(), Step(cfg, s, a).Broken(), t, s.threads[t]);
    }
  }

  lemma DoomedOwnStep(cfg: Config, s: State, a: Action)
    requires cfg.Valid() && IsThreadStep(a) && Enabled(cfg, s, a) && |s.threads| == |cfg.homes|
    requires ThreadOk(cfg, a.t, s.threads[a.t]) && MemoryOk(cfg, s.mem, s.Broken())
    requires s.threads[a.t].phase.Walking? ==> s.mem == cfg.mem
    requires Doomed(cfg, s.Broken(), a.t, s.threads[a.t])
    ensures var s' := Step(cfg, s, a);
            && |s'.threads| == |cfg.homes|
            && CountsDown(cfg, s'.Broken(), a.t, s.threads[a.t], s'.threads[a.t], if a.Iterate? then 1 else 0)
  {
    var th := s.threads[a.t];
    ThreadStepShape(cfg, s, a);
    ThreadStepOk(cfg, s, a);
    if a.Iterate? {
      DoomedIterates(cfg, s.mem, s.Broken(), a.t, th);
    } else if a.Begin? {
      DoomedBegins(cfg, s.Broken(), a.t, th);
    } else {
      DoomedWalks(cfg, s.Broken(), a.t, th, StepThread(cfg, s, a));
    }
  }

  /** From the moment a thread is doomed, over every continuation of the run: passes made and
      passes left add up, and so do loads made and loads left. */
  lemma {:induction false} Countdown(cfg: Config, s: State, actions: seq<Action>, s': State, t: nat)
    requires cfg.Valid() && Inv(cfg, s) && Runs(cfg, s, actions, s') && t < |cfg.homes|
    requires ThreadOk(cfg, t, s.threads[t]) && Doomed(cfg, s.Broken(), t, s.threads[t])
    ensures |s'.threads| == |cfg.homes| && ThreadOk(cfg, t, s'.threads[t])
    ensures PassesLeft(cfg, t, s'.threads[t]) + Iterations(actions, t) == PassesLeft(cfg, t, s.threads[t])
    ensures s'.threads[t].accesscount + LoadsLeft(cfg, t, s'.threads[t])
            == s.threads[t].accesscount + LoadsLeft(cfg, t, s.threads[t])
    decreases |actions|
  {
    if actions != [] {
      StepKeepsInv(cfg, s, actions[0]);
      DoomedStep(cfg, s, actions[0], t);
      Countdown(cfg, Step(cfg, s, actions[0]), actions[1..], s', t);
    }
  }

  /** A start slot reads as the sentinel exactly when the handler has broken its subpath. */
  lemma BrokenMeansWritten(cfg: Config, mem: seq<nat>, broken: nat, c: nat)
    requires cfg.Valid() && MemoryOk(cfg, mem, broken) && c < |cfg.chunks|
    ensures mem[cfg.chunks[c][0]] == INVALID <==> c < broken
  {
    var q := if 1 < |cfg.chunks[c]| then 1 else 0;
    SlotsInMemory(cfg, c, q);
    SlotsInMemory(cfg, cfg.After(c), 0);
    assert mem[cfg.chunks[c][0]] == Content(cfg, broken, c, 0);
  }

  /** The plain loop.  Once the start slot of its subpath is broken, a thread makes at most as many
      further loads as the subpath has slots, whatever the others do, and has returned once it
      has been given one pass more than that. */
  lemma BrokenSubpathEnds(cfg: Config, s: State, actions: seq<Action>, s': State, t: nat)
    requires cfg.Valid() && !cfg.migrating && Reachable(cfg, s) && Runs(cfg, s, actions, s') && t < |cfg.homes|
    requires cfg.chunks[cfg.homes[t]][0] < |s.mem| && s.mem[cfg.chunks[cfg.homes[t]][0]] == INVALID
    ensures |s.threads| == |s'.threads| == |cfg.homes|
    ensures s'.threads[t].accesscount <= s.threads[t].accesscount + |cfg.chunks[cfg.homes[t]]|
    ensures Iterations(actions, t) > |cfg.chunks[cfg.homes[t]]| ==> s'.threads[t].phase.Exited?
  {
    ReachableOk(cfg, s);
    assert ThreadOk(cfg, t, s.threads[t]);
    BrokenMeansWritten(cfg, s.mem, s.Broken(), cfg.homes[t]);
    Countdown(cfg, s, actions, s', t);
  }

  ghost predicate HandlerDone(cfg: Config, s: State) {
    s.handler == Writing(|cfg.infos|)
  }

  /** Either loop.  Once the handler has finished, a thread makes at most as many further loads as
      the subpath it is on has slots. */
  lemma AlarmEndsEveryThread(cfg: Config, s: State, actions: seq<Action>, s': State, t: nat)
    requires cfg.Valid() && Reachable(cfg, s) && Runs(cfg, s, actions, s') && t < |cfg.homes|
    requires HandlerDone(cfg, s)
    ensures |s.threads| == |s'.threads| == |cfg.homes| && ThreadOk(cfg, t, s.threads[t])
    ensures s'.threads[t].accesscount <= s.threads[t].accesscount + LoadsLeft(cfg, t, s.threads[t])
    ensures Iterations(actions, t) >= PassesLeft(cfg, t, s.threads[t]) <==> s'.threads[t].phase.Exited?
    ensures !s.threads[t].phase.Exited? && s.threads[t].phase.index != INVALID ==>
              LoadsLeft(cfg, t, s.threads[t]) <= |cfg.chunks[Position(cfg, t, s.threads[t]).0]|
  {
    ReachableOk(cfg, s);
    assert ThreadOk(cfg, t, s.threads[t]);
    Countdown(cfg, s, actions, s', t);
  }

  /* ---------- the whole experiment ends ---------- */

  /** Steps thread `t` still takes once the handler has finished. */
  ghost function StepsLeft(cfg: Config, t: nat, th: Thread): nat
    requires cfg.Valid() && t < |cfg.homes| && ThreadOk(cfg, t, th)
  {
    PassesLeft(cfg, t, th) + (if th.phase.Ready? then 1 else 0)
  }

  ghost function StepsLeftFrom(cfg: Config, threads: seq<Thread>, k: nat): nat
    requires cfg.Valid() && |threads| == |cfg.homes| && k <= |threads|
    requires forall t :: 0 <= t < |threads| ==> ThreadOk(cfg, t, threads[t])
  {
    if k == 0 then 0 else StepsLeftFrom(cfg, threads, k - 1) + StepsLeft(cfg, k - 1, threads[k - 1])
  }

  ghost function TotalLeft(cfg: Config, s: State): nat
    requires cfg.Valid() && Inv(cfg, s)
  {
    StepsLeftFrom(cfg, s.threads, |s.threads|) + (if s.main.Armed? then 1 else 0)
  }

  lemma {:induction false} StepsLeftUpdate(cfg: Config, threads: seq<Thread>, t: nat, th: Thread, k: nat)
    requires cfg.Valid() && |threads| == |cfg.homes| && t < |threads| && k <= |threads|
    requires forall u :: 0 <= u < |threads| ==> ThreadOk(cfg, u, threads[u])
    requires ThreadOk(cfg, t, th)
    ensures StepsLeftFrom(cfg, threads[t := th], k) == StepsLeftFrom(cfg, threads, k)
              + (if t < k then StepsLeft(cfg, t, th) - StepsLeft(cfg, t, threads[t]) else 0)
  {
    if k > 0 { StepsLeftUpdate(cfg, threads, t, th, k - 1); }
  }

  /** After the handler has finished, every step anyone takes brings the end one step nearer. */
  lemma EveryStepCounts(cfg: Config, s: State, a: Action)
    requires cfg.Valid() && Inv(cfg, s) && HandlerDone(cfg, s) && Enabled(cfg, s, a)
    ensures Inv(cfg, Step(cfg, s, a)) && HandlerDone(cfg, Step(cfg, s, a))
    ensures TotalLeft(cfg, Step(cfg, s, a)) == TotalLeft(cfg, s) - 1
  {
    StepKeepsInv(cfg, s, a);
    if a.Begin? || a.Iterate? {
      assert ThreadOk(cfg, a.t, s.threads[a.t]);
      DoomedStep(cfg, s, a, a.t);
      StepsLeftUpdate(cfg, s.threads, a.t, StepThread(cfg, s, a), |s.threads|);
    }
  }

  lemma {:induction false} NothingLeft(cfg: Config, threads: seq<Thread>, k: nat)
    requires cfg.Valid() && |threads| == |cfg.homes| && k <= |threads|
    requires forall t :: 0 <= t < |threads| ==> ThreadOk(cfg, t, threads[t])
    ensures StepsLeftFrom(cfg, threads, k) == 0 <==> forall t :: 0 <= t < k ==> threads[t].phase.Exited?
  {
    if k > 0 { NothingLeft(cfg, threads, k - 1); }
  }

  /** A thread that has not returned can step once the main thread has released it. */
  lemma CanStep(cfg: Config, s: State, t: nat)
    requires cfg.Valid() && Inv(cfg, s) && s.main.Started? && t < |s.threads| && !s.threads[t].phase.Exited?
    ensures Enabled(cfg, s, Begin(t)) || Enabled(cfg, s, Iterate(t))
  {
    InvAt(cfg, s, t);
    assert !s.threads[t].phase.Walking?;
  }

  /** As long as anything is left to do, somebody can do it; nothing is left exactly when every
      thread has returned and the main thread has released them. */
  lemma ProgressUntilDone(cfg: Config, s: State)
    requires cfg.Valid() && Inv(cfg, s) && HandlerDone(cfg, s)
    ensures TotalLeft(cfg, s) > 0 ==> exists a :: Enabled(cfg, s, a)
    ensures TotalLeft(cfg, s) == 0 <==>
              !s.main.Armed? && forall t :: 0 <= t < |s.threads| ==> s.threads[t].phase.Exited?
  {
    NothingLeft(cfg, s.threads, |s.threads|);
    if s.main.Armed? {
      assert Enabled(cfg, s, Start);
    } else if t :| 0 <= t < |s.threads| && !s.threads[t].phase.Exited? {
      CanStep(cfg, s, t);
    }
  }

  /** Every run ends: after the handler has finished, no schedule takes more than `TotalLeft`
      further steps. */
  lemma {:induction false} ExperimentEnds(cfg: Config, s: State, actions: seq<Action>, s': State)
    requires cfg.Valid() && Inv(cfg, s) && HandlerDone(cfg, s) && Runs(cfg, s, actions, s')
    ensures Inv(cfg, s') && HandlerDone(cfg, s')
    ensures TotalLeft(cfg, s') + |actions| == TotalLeft(cfg, s)
    decreases |actions|
  {
    if actions != [] {
      EveryStepCounts(cfg, s, actions[0]);
      ExperimentEnds(cfg, Step(cfg, s, actions[0]), actions[1..], s');
    }
  }

  /* ---------- from the built path to an experiment ---------- */

  /** The tests split the path unless fibres migrate, and start every thread at the first slot of
      its subpath (the spreading factor is 0): what they hand to the threads is a valid
      experiment. */
  method StartTest(mem: array<nat>, infos: seq<SubpathInfo>, migrating: bool, homes: seq<nat>, ghost chunks: seq<seq<nat>>)
    returns (ghost cfg: Config)
    requires Linked(mem[..], chunks, Ring) && Describes(infos, chunks) && mem.Length <= INVALID
    requires forall t :: 0 <= t < |homes| ==> homes[t] < |chunks|
    modifies mem
    ensures cfg.Valid() && cfg.mem == mem[..] && cfg.infos == infos && cfg.chunks == chunks && cfg.migrating == migrating && cfg.homes == homes
    ensures migrating ==> mem[..] == old(mem[..])
  {
    if !migrating {
      SplitPointerChasingPath(mem, infos, chunks);
    }
    cfg := Config(chunks, infos, mem[..], migrating, homes, seq(|homes|, t => 0));
  }

  /** From an empty buffer to a running experiment: what the builder, the collector and the
      splitter leave behind is a valid experiment over exactly the subpaths the draws determine. */
  method Prepare(distr: SubpathDistribution, dataset: nat, bufferfactor: nat, draws: seq<Draws>, migrating: bool,
                 homes: seq<nat>)
    returns (ok: bool, ghost cfg: Config)
    requires distr.numSubpaths > 0 && distr.size == dataset * bufferfactor >= distr.cacheline >= ELEMENT_SIZE
    requires StartsKnown(dataset, bufferfactor, distr.cacheline, distr.numSubpaths)
    requires distr.startOffset + distr.size <= distr.mem.Length < INVALID
    requires distr.zipf ==> forall a :: distr.startOffset <= a < distr.startOffset + distr.size ==> distr.mem[a] == 0
    requires distr.size / distr.cacheline % distr.numSubpaths == 0 ==>
               DrawsOk(distr.zipf, distr.LinesPer(), distr.size, distr.numSubpaths, draws)
    requires forall t :: 0 <= t < |homes| ==> homes[t] < distr.numSubpaths
    modifies distr, distr.mem
    ensures ok <==> distr.Supported()
    ensures ok ==> distr.PlanOf().Valid() && AllSuit(distr.PlanOf(), draws) && cfg.Valid() && cfg.chunks == Subpaths(distr.PlanOf(), draws)
    ensures ok ==> cfg.mem == distr.mem[..] && cfg.migrating == migrating && cfg.homes == homes
    ensures ok ==> TotalLength(cfg.infos) == distr.entries
  {
    var infos;
    ok, infos := SetupDistribution(distr, dataset, bufferfactor, draws);
    if ok {
      cfg := StartTest(distr.mem, infos, migrating, homes, Subpaths(distr.PlanOf(), draws));
    } else {
      cfg := Config([], [], [], migrating, homes, []);
    }
  }

  /** The smallest run the program takes, one fibre on 1 KB in sixteen lines and as many subpaths, is one in
      which the extra move can happen. */
  method SmallestRun() returns (mem: array<nat>, ghost cfg: Config)
    ensures fresh(mem) && mem.Length == 1024
    ensures cfg.Valid() && cfg.migrating && cfg.mem == mem[..] && |cfg.chunks| == 16
    ensures exists s, t: nat :: Reachable(cfg, s) && MovesAtSentinel(cfg, s, t)
  {
    mem := new nat[1024](_ => 0);
    var distr := new SubpathDistribution(mem, 0, 1024, LINE, 16, false, false);
    var draws := seq(16, _ => Draws([], []));
    var ok;
    ok, cfg := Prepare(distr, 1024, 1, draws, true, [0]);
    assert |cfg.chunks[0]| == 1;
    ExtraMoveExactly(cfg);
  }
}
