/** The owner of the tracker never blocks forever: adds return, and the destructor ends. */
module OverlayShutdown {
  import opened Text
  import opened ContextThread
  import opened OverlayTracker
  import opened OverlaySystem
  import opened OverlaySafety

  // ---- A measure of what is left to wait for ----

  /** The first task that is not a removal. */
  function RequestAt(q: seq<Task>): (k: nat)
    ensures k <= |q| && forall j :: 0 <= j < k ==> q[j].RemoveTask?
    ensures k < |q| ==> !q[k].RemoveTask?
  {
    if q == [] || !q[0].RemoveTask? then 0 else 1 + RequestAt(q[1..])
  }

  /** Moves the thread still needs before it is in its loop. */
  function ToLoop(p: Phase): nat {
    match p
    case Starting => 3
    case Ready => 2
    case Entering => 1
    case _ => 0
  }

  function Stage(s: State): nat {
    match s.owner
    case Constructing => 1
    case InAdd => if s.answered then 1 else 2
    case InClear => if s.answered then 5 else 6
    case Cleared => 4
    case Disconnected => 3
    case Cancelled => 2
    case Joining => 1
    case _ => 0
  }

  /** What the context thread has to do before the stage can change. */
  function ThreadWork(s: State): nat {
    match s.owner
    case Constructing => if s.loop.phase == Starting then 1 else 0
    case InAdd =>
      if s.answered then 0
      else (match s.work
            case SessionMade(_, _) => 2
            case HelperStarted(_) => 1
            case _ => ToLoop(s.loop.phase) + RequestAt(s.queue) + 3)
    case InClear =>
      if s.answered then 0
      else if s.work.Clearing? then |s.book.tracked| + 1
      else ToLoop(s.loop.phase) + RequestAt(s.queue) + |s.book.tracked| + 2
    case Joining =>
      if s.loop.phase == Done then 0 else if s.loop.phase == AfterLoop then 1 else 2 + |s.queue|
    case _ => 0
  }

  predicate Less(s': State, s: State) {
    Stage(s') < Stage(s) || (Stage(s') == Stage(s) && ThreadWork(s') < ThreadWork(s))
  }

  predicate SameRank(s': State, s: State) {
    Stage(s') == Stage(s) && ThreadWork(s') == ThreadWork(s)
  }

  datatype Mover = TheOwner | TheThread

  /** Whose move brings the owner closer to being free. */
  function Awaited(s: State): Mover {
    if (s.owner in {InAdd, InClear} && !s.answered)
       || (s.owner == Constructing && s.loop.phase == Starting)
       || (s.owner == Joining && s.loop.phase != Done)
    then TheThread else TheOwner
  }

  predicate MadeBy(a: Action, m: Mover) {
    match m
    case TheOwner => a.OwnerMoves?
    case TheThread => a.ThreadMoves?
  }

  ghost predicate Enabled(s: State, m: Mover) {
    match m
    case TheOwner => OwnerStep(s).Some?
    case TheThread => ThreadStep(s, true).Some? && ThreadStep(s, false).Some?
  }

  predicate Blocked(s: State) {
    s.owner !in {Free, Gone}
  }

  /** Nobody can be waited for in vain: the awaited move can always be made. */
  lemma AwaitedIsEnabled(s: State)
    requires ControlOk(s) && Blocked(s)
    ensures Enabled(s, Awaited(s))
  {
    if s.owner in {InAdd, InClear} && !s.answered && s.work.Idle? {
      var k :| OnlyRequest(s.queue, k);
    }
  }

  lemma RequestPosition(q: seq<Task>, k: int)
    requires OnlyRequest(q, k)
    ensures RequestAt(q) == k
  {
  }

  lemma RequestAppend(q: seq<Task>, t: Task, k: int)
    requires OnlyRequest(q, k)
    ensures RequestAt(q + [t]) == RequestAt(q)
  {
    var r := q + [t];
    assert !r[k].RemoveTask? && forall j :: 0 <= j < k ==> r[j].RemoveTask?;
  }

  lemma RequestTail(q: seq<Task>)
    requires q != [] && q[0].RemoveTask?
    ensures RequestAt(q) == 1 + RequestAt(q[1..])
  {
  }

  lemma RemoveShrinks(b: Book, session: nat)
    ensures |RemoveSession(b, session).tracked| <= |b.tracked|
    ensures OfSession(b, session) != {} ==> |RemoveSession(b, session).tracked| < |b.tracked|
  {
  }

  /** Taking a task brings the owner's own one nearer. */
  lemma TakingLowers(s: State, succeeds: bool)
    requires ControlOk(s) && s.owner in {InAdd, InClear} && !s.answered
    requires s.loop.phase == Looping && s.work.Idle? && s.queue != []
    ensures Less(TakeTask(s, succeeds), s)
  {
    var k :| OnlyRequest(s.queue, k);
    RequestPosition(s.queue, k);
    if s.queue[0].RemoveTask? {
      RequestTail(s.queue);
      RemoveShrinks(s.book, s.queue[0].session);
    }
  }

  lemma ClearingLowers(s: State)
    requires s.owner == InClear && !s.answered && s.work.Clearing? && s.book.tracked != {}
    ensures Less(s.(book := RemoveSession(s.book, Any(s.book.tracked).session)), s)
  {
    var o := Any(s.book.tracked);
    assert o in OfSession(s.book, o.session);
    RemoveShrinks(s.book, o.session);
  }

  /** A move of the thread, when it is awaited, lowers the measure. */
  lemma ThreadLowers(s: State, succeeds: bool)
    requires ControlOk(s) && Blocked(s) && Awaited(s) == TheThread && ThreadStep(s, succeeds).Some?
    ensures Less(ThreadStep(s, succeeds).value, s)
  {
    if s.owner in {InAdd, InClear} && s.loop.phase == Looping {
      if s.work.Idle? {
        var k :| OnlyRequest(s.queue, k);
        TakingLowers(s, succeeds);
      } else if s.work.Clearing? && s.book.tracked != {} {
        ClearingLowers(s);
      }
    } else if s.owner == Joining && s.loop.phase == Looping && s.queue != [] && succeeds {
      assert s.queue[0].RemoveTask?;
    }
  }

  /** A move of the thread that nobody waits for leaves the measure alone. */
  lemma ThreadKeepsRank(s: State, succeeds: bool)
    requires ControlOk(s) && Blocked(s) && Awaited(s) == TheOwner && ThreadStep(s, succeeds).Some?
    ensures SameRank(ThreadStep(s, succeeds).value, s) && Awaited(ThreadStep(s, succeeds).value) == TheOwner
  {
    if s.loop.phase == Looping && s.queue != [] {
      assert s.queue[0].RemoveTask?;
    }
  }

  /** A stop event queues a removal behind what the owner waits for. */
  lemma StopsDoNotRaise(s: State, x: nat)
    requires ControlOk(s) && Blocked(s) && Step(s, MirStopped(x)).Some?
    ensures var s' := Step(s, MirStopped(x)).value;
            SameRank(s', s) && Awaited(s') == Awaited(s)
  {
    if k :| OnlyRequest(s.queue, k) {
      RequestPosition(s.queue, k);
      RequestAppend(s.queue, RemoveTask(x), k);
    }
  }

  lemma ReportShrinks(b: Book, h: Helper)
    ensures |ReportHelper(b, h).tracked| <= |b.tracked|
  {
  }

  /** A helper's report can only shorten the clear loop to come. */
  lemma ReportsDoNotRaise(s: State, h: Helper)
    requires ControlOk(s) && Blocked(s) && Step(s, HelperStopped(h)).Some?
    ensures var s' := Step(s, HelperStopped(h)).value;
            Less(s', s) || (SameRank(s', s) && Awaited(s') == Awaited(s))
  {
    ReportShrinks(s.book, h);
  }

  /** Every step lowers the measure or keeps it together with the awaited party;
      a step of the awaited party lowers it. */
  lemma StepRanks(s: State, a: Action)
    requires ControlOk(s) && Blocked(s) && Step(s, a).Some?
    ensures var s' := Step(s, a).value;
            && (Less(s', s) || (SameRank(s', s) && Awaited(s') == Awaited(s)))
            && (MadeBy(a, Awaited(s)) ==> Less(s', s))
  {
    match a {
      case ThreadMoves(succeeds) =>
        if Awaited(s) == TheThread {
          ThreadLowers(s, succeeds);
        } else {
          ThreadKeepsRank(s, succeeds);
        }
      case OwnerMoves =>
      case MirStopped(session) => StopsDoNotRaise(s, session);
      case HelperStopped(h) => ReportsDoNotRaise(s, h);
      case _ =>
    }
  }

  // ---- Endless runs ----

  /** An endless run; `None` is a moment in which nothing happens. */
  ghost predicate IsEndlessRun(run: nat -> State, act: nat -> Option<Action>) {
    && run(0) == INITIAL
    && forall i: nat :: StepsTo(run(i), act(i), run(i + 1))
  }

  ghost predicate StepsTo(s: State, a: Option<Action>, s': State) {
    if a.None? then s' == s else Step(s, a.value) == Some(s')
  }

  /** From moment `i` on, `m` moves at some time or is at some time unable to. */
  ghost predicate TurnComes(run: nat -> State, act: nat -> Option<Action>, m: Mover, i: nat) {
    exists j: nat :: j >= i && ((act(j).Some? && MadeBy(act(j).value, m)) || !Enabled(run(j), m))
  }

  /** Weak fairness: no thread is left out forever while it could move. */
  ghost predicate IsFair(run: nat -> State, act: nat -> Option<Action>) {
    forall m: Mover, i: nat :: TurnComes(run, act, m, i)
  }

  lemma {:induction false} RunControl(run: nat -> State, act: nat -> Option<Action>, i: nat)
    requires IsEndlessRun(run, act)
    ensures ControlOk(run(i))
    decreases i
  {
    if i > 0 {
      RunControl(run, act, i - 1);
      assert StepsTo(run(i - 1), act(i - 1), run(i - 1 + 1));
      if act(i - 1).Some? {
        StepKeepsControl(run(i - 1), act(i - 1).value);
      }
    }
  }

  /** One moment of a run, while the owner is blocked. */
  lemma MomentRanks(run: nat -> State, act: nat -> Option<Action>, i: nat)
    requires IsEndlessRun(run, act) && Blocked(run(i))
    ensures Less(run(i + 1), run(i)) || (SameRank(run(i + 1), run(i)) && Awaited(run(i + 1)) == Awaited(run(i)))
    ensures act(i).Some? && MadeBy(act(i).value, Awaited(run(i))) ==> Less(run(i + 1), run(i))
  {
    RunControl(run, act, i);
    assert StepsTo(run(i), act(i), run(i + 1));
    if act(i).Some? {
      StepRanks(run(i), act(i).value);
    }
  }

  /** Between `i` and `j` the measure drops at some moment, or nothing that matters has changed. */
  lemma {:induction false} Drift(run: nat -> State, act: nat -> Option<Action>, i: nat, j: nat) returns (k: nat)
    requires IsEndlessRun(run, act) && i <= j && Blocked(run(i))
    ensures i <= k <= j
    ensures Less(run(k), run(i))
            || (k == j && Blocked(run(j)) && SameRank(run(j), run(i)) && Awaited(run(j)) == Awaited(run(i)))
    decreases j - i
  {
    if i == j {
      k := j;
    } else {
      k := Drift(run, act, i, j - 1);
      if !Less(run(k), run(i)) {
        MomentRanks(run, act, j - 1);
        k := j;
        StageZero(run(j), run(i));
      }
    }
  }

  /** Only a free owner has nothing left to wait for. */
  lemma StageZero(s': State, s: State)
    requires Blocked(s)
    ensures Less(s', s) || !SameRank(s', s) || Blocked(s')
  {
  }

  /** Under weak fairness a blocked owner becomes free, or its destructor has ended. */
  lemma {:induction false} OwnerNeverHangs(run: nat -> State, act: nat -> Option<Action>, i: nat) returns (n: nat)
    requires IsEndlessRun(run, act) && IsFair(run, act)
    ensures n >= i && run(n).owner in {Free, Gone}
    decreases Stage(run(i)), ThreadWork(run(i))
  {
    if !Blocked(run(i)) {
      n := i;
    } else {
      var m := Awaited(run(i));
      assert TurnComes(run, act, m, i);
      var j: nat :| j >= i && ((act(j).Some? && MadeBy(act(j).value, m)) || !Enabled(run(j), m));
      var k := Drift(run, act, i, j);
      if Less(run(k), run(i)) {
        n := OwnerNeverHangs(run, act, k);
      } else {
        RunControl(run, act, j);
        AwaitedIsEnabled(run(j));
        MomentRanks(run, act, j);
        n := OwnerNeverHangs(run, act, j + 1);
      }
    }
  }

  // ---- The destructor ----

  predicate InDestructor(s: State) {
    s.owner in {InClear, Cleared, Disconnected, Cancelled, Joining, Gone}
  }

  lemma {:induction false} StaysInDestructor(run: nat -> State, act: nat -> Option<Action>, i: nat, n: nat)
    requires IsEndlessRun(run, act) && i <= n && InDestructor(run(i))
    ensures InDestructor(run(n))
    decreases n - i
  {
    if i < n {
      StaysInDestructor(run, act, i, n - 1);
      assert StepsTo(run(n - 1), act(n - 1), run(n - 1 + 1));
    }
  }

  /** In every fair run a destructor that has begun ends: its clear task runs, the quit meets a running loop,
      and the join returns. */
  lemma ShutdownTerminates(run: nat -> State, act: nat -> Option<Action>, i: nat) returns (n: nat)
    requires IsEndlessRun(run, act) && IsFair(run, act) && InDestructor(run(i))
    ensures n >= i && run(n).owner == Gone && run(n).loop.phase == Done && run(n).book.tracked == {}
  {
    n := OwnerNeverHangs(run, act, i);
    StaysInDestructor(run, act, i, n);
    RunControl(run, act, n);
  }

  // ---- Such runs exist ----

  /** Everybody in turn, and a destructor as soon as the owner is free. */
  ghost function Turn(s: State, i: nat): Option<Action> {
    if i % 3 == 0 then if OwnerStep(s).Some? then Some(OwnerMoves) else None
    else if i % 3 == 1 then if ThreadStep(s, true).Some? then Some(ThreadMoves(true)) else None
    else if s.owner.Free? then Some(CallDelete) else None
  }

  ghost function TakeTurn(s: State, i: nat): State {
    var a := Turn(s, i);
    if a.Some? && Step(s, a.value).Some? then Step(s, a.value).value else s
  }

  ghost function InTurns(i: nat): State {
    if i == 0 then INITIAL else TakeTurn(InTurns(i - 1), i - 1)
  }

  ghost function TurnAt(i: nat): Option<Action> {
    Turn(InTurns(i), i)
  }

  lemma TurnsAreFair(m: Mover, i: nat)
    ensures TurnComes(InTurns, TurnAt, m, i)
  {
    var j := if m.TheOwner? then 3 * i else 3 * i + 1;
    assert j % 3 == if m.TheOwner? then 0 else 1;
    assert (TurnAt(j).Some? && MadeBy(TurnAt(j).value, m)) || !Enabled(InTurns(j), m);
  }

  /** A fair endless run in which the destructor begins; so it also ends. */
  lemma AFairShutdown() returns (i: nat, n: nat)
    ensures IsEndlessRun(InTurns, TurnAt) && IsFair(InTurns, TurnAt)
    ensures InDestructor(InTurns(i)) && n >= i && InTurns(n).owner == Gone
  {
    forall i: nat
      ensures StepsTo(InTurns(i), TurnAt(i), InTurns(i + 1))
    {
      assert TurnAt(i).Some? ==> Step(InTurns(i), TurnAt(i).value).Some?;
    }
    forall m: Mover, i: nat {
      TurnsAreFair(m, i);
    }
    i := 6;
    FirstTurns();
    n := ShutdownTerminates(InTurns, TurnAt, i);
  }

  lemma FirstTurns()
    ensures InTurns(6).owner == InClear
  {
    assert InTurns(1) == INITIAL;
    assert InTurns(2) == INITIAL.(loop := Advance(STARTED));
    assert InTurns(3) == InTurns(2);
    assert InTurns(4) == InTurns(3).(owner := Free);
    assert InTurns(5) == InTurns(4).(loop := Advance(InTurns(4).loop));
  }

  /** The quit of a tracker always finds its thread inside the loop, never between the check and the loop. */
  lemma QuitMeetsARunningLoop(states: seq<State>, actions: seq<Action>, i: nat)
    requires IsRun(states, actions) && i < |actions| && states[i].owner == Cancelled && actions[i].OwnerMoves?
    ensures states[i].loop.phase == Looping && states[i].loop.running
  {
    ReachableIsSafe(states, actions, i);
  }
}
