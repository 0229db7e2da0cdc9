/** The overlay tracker at work: its owner, the context thread with its queue, Mir's thread and the
    helper observer, interleaved in every way. Sessions and helper instances are numbered as they are made,
    which says that Mir and the app launcher never hand out one twice. */
module OverlaySystem {
  import opened Text
  import opened ContextThread
  import opened OverlayTracker

  /** Work queued on the context: an add, the removal queued by a Mir stop event, the destructor's clear. */
  datatype Task = AddTask(appid: string) | RemoveTask(session: nat) | ClearTask

  /** Where the context thread is inside a task: after creating the session, after starting the helper,
      or in the clear loop. */
  datatype Work = Idle | SessionMade(appid: string, session: nat) | HelperStarted(overlay: Overlay) | Clearing

  /** Where the owner is: free, blocked on the result of a task, or inside the destructor. */
  datatype Owner =
    Constructing | Free | InAdd | InClear | Cleared | Disconnected | Cancelled | Joining | Gone

  datatype State = State(
    loop: Loop, work: Work, queue: seq<Task>,
    owner: Owner, answered: bool,
    book: Book,
    sessions: nat, instances: nat, started: set<Helper>,
    stopRaised: set<nat>)

  datatype Action =
    | CallAdd(appid: string)
    | CallDelete
    | OwnerMoves
    | ThreadMoves(succeeds: bool)
    | MirStopped(session: nat)
    | HelperStopped(helper: Helper)

  const INITIAL := State(STARTED, Idle, [], Constructing, false, Book({}, [], [], []), 0, 0, {}, {})

  // ---- Steps ----

  ghost function RemoveSession(b: Book, session: nat): (b': Book)
    ensures RemovesOne(b, b', session)
  {
    if OfSession(b, session) == {} then b else Stop(b, Any(OfSession(b, session)))
  }

  ghost function ReportHelper(b: Book, h: Helper): (b': Book)
    ensures ReportsOne(b, b', h)
  {
    if OfHelper(b, h) == {} then b else Report(b, Any(OfHelper(b, h)))
  }

  /** The head of the queue is taken; an add starts by creating its session. */
  ghost function TakeTask(s: State, succeeds: bool): State
    requires s.queue != []
  {
    var rest := s.(queue := s.queue[1..]);
    match s.queue[0]
    case AddTask(appid) =>
      if succeeds then rest.(work := SessionMade(appid, s.sessions), sessions := s.sessions + 1)
      else rest.(answered := true)
    case RemoveTask(session) => rest.(book := RemoveSession(rest.book, session))
    case ClearTask => rest.(work := Clearing)
  }

  /** One move of the context thread: on towards its loop, inside a task, or out of the loop.
      After a quit the thread still finishes tasks that were ready; leaving at once is `succeeds == false`. */
  ghost function ThreadStep(s: State, succeeds: bool): Option<State> {
    if s.loop.phase != Looping then
      if CanAdvance(s.loop) then Some(s.(loop := Advance(s.loop))) else None
    else match s.work
      case Idle =>
        if !s.loop.running && (s.queue == [] || !succeeds) then Some(s.(loop := Advance(s.loop)))
        else if s.queue != [] then Some(TakeTask(s, succeeds))
        else None
      case SessionMade(appid, session) =>
        if succeeds then
          var h := Helper(appid, s.instances);
          Some(s.(work := HelperStarted(Overlay(h, session)), instances := s.instances + 1, started := s.started + {h}))
        else Some(s.(work := Idle, book := Drop(s.book, session), answered := true))
      case HelperStarted(o) =>
        Some(s.(work := Idle, book := Record(s.book, o), answered := true))
      case Clearing =>
        if s.book.tracked == {} then Some(s.(work := Idle, answered := true))
        else Some(s.(book := RemoveSession(s.book, Any(s.book.tracked).session)))
  }

  function OwnerStep(s: State): Option<State> {
    match s.owner
    case Constructing => if s.loop.phase != Starting then Some(s.(owner := Free)) else None
    case Free => None
    case InAdd => if s.answered then Some(s.(owner := Free)) else None
    case InClear => if s.answered then Some(s.(owner := Cleared)) else None
    case Cleared => Some(s.(owner := Disconnected))
    case Disconnected => Some(s.(owner := Cancelled, loop := Cancel(s.loop)))
    case Cancelled => Some(s.(owner := Joining, loop := QuitLoop(s.loop)))
    case Joining => if s.loop.phase == Done then Some(s.(owner := Gone)) else None
    case Gone => None
  }

  /** Mir delivers events while the connection is open. */
  predicate Connected(s: State) {
    s.owner in {Constructing, Free, InAdd, InClear, Cleared}
  }

  ghost function Step(s: State, a: Action): Option<State> {
    match a
    case CallAdd(appid) =>
      if s.owner.Free? then Some(s.(owner := InAdd, answered := false, queue := s.queue + [AddTask(appid)])) else None
    case CallDelete =>
      if s.owner.Free? then Some(s.(owner := InClear, answered := false, queue := s.queue + [ClearTask])) else None
    case OwnerMoves => OwnerStep(s)
    case ThreadMoves(succeeds) => ThreadStep(s, succeeds)
    case MirStopped(session) =>
      if Connected(s) && session < s.sessions
      then Some(s.(queue := s.queue + [RemoveTask(session)], stopRaised := s.stopRaised + {session})) else None
    case HelperStopped(h) =>
      if s.loop.phase != Looping || s.work != Idle then None
      else Some(s.(book := ReportHelper(s.book, h)))
  }

  ghost predicate IsRun(states: seq<State>, actions: seq<Action>) {
    && |states| == |actions| + 1 && states[0] == INITIAL
    && forall i :: 0 <= i < |actions| ==> Step(states[i], actions[i]) == Some(states[i + 1])
  }

  // ---- Who waits for whom ----

  predicate InAddTask(s: State) {
    s.work.SessionMade? || s.work.HelperStarted?
  }

  predicate OnlyRemovals(q: seq<Task>) {
    forall k :: 0 <= k < |q| ==> q[k].RemoveTask?
  }

  /** Position `k` is the only task that is not a removal. */
  predicate OnlyRequest(q: seq<Task>, k: int) {
    0 <= k < |q| && !q[k].RemoveTask? && forall j :: 0 <= j < |q| && j != k ==> q[j].RemoveTask?
  }

  ghost predicate PendingAdd(s: State) {
    || (InAddTask(s) && OnlyRemovals(s.queue))
    || (s.work.Idle? && exists k :: OnlyRequest(s.queue, k) && s.queue[k].AddTask?)
  }

  ghost predicate PendingClear(s: State) {
    || (s.work.Clearing? && OnlyRemovals(s.queue))
    || (s.work.Idle? && exists k :: OnlyRequest(s.queue, k) && s.queue[k].ClearTask?)
  }

  predicate NothingPending(s: State) {
    s.work.Idle? && OnlyRemovals(s.queue)
  }

  /** The handshake between owner and thread. */
  ghost predicate ControlOk(s: State) {
    && (s.loop.cancelled <==> s.owner in {Cancelled, Joining, Gone})
    && (s.loop.running <==> s.loop.phase == Looping && s.owner !in {Joining, Gone})
    && (!s.work.Idle? ==> s.loop.phase == Looping)
    && match s.owner
       case Constructing =>
         && NothingPending(s) && s.queue == [] && s.sessions == 0
         && s.loop.phase in {Starting, Ready, Entering, Looping}
       case Free => NothingPending(s) && s.loop.phase in {Ready, Entering, Looping}
       case InAdd =>
         s.loop.phase in {Ready, Entering, Looping} && if s.answered then NothingPending(s) else PendingAdd(s)
       case InClear =>
         if s.answered then NothingPending(s) && s.book.tracked == {} && s.loop.phase == Looping
         else PendingClear(s) && s.loop.phase in {Ready, Entering, Looping}
       case Cleared => NothingPending(s) && s.book.tracked == {} && s.loop.phase == Looping
       case Disconnected => NothingPending(s) && s.book.tracked == {} && s.loop.phase == Looping
       case Cancelled => NothingPending(s) && s.book.tracked == {} && s.loop.phase == Looping
       case Joining => NothingPending(s) && s.book.tracked == {} && s.loop.phase in {Looping, AfterLoop, Done}
       case Gone => NothingPending(s) && s.book.tracked == {} && s.loop.phase == Done
  }

  lemma ThreadKeepsControl(s: State, succeeds: bool)
    requires ControlOk(s) && ThreadStep(s, succeeds).Some?
    ensures ControlOk(ThreadStep(s, succeeds).value)
  {
    var s' := ThreadStep(s, succeeds).value;
    if s.loop.phase == Looping && s.work.Idle? && (s.loop.running || (s.queue != [] && succeeds)) {
      TakeKeepsControl(s, succeeds);
    }
  }

  lemma TakeKeepsControl(s: State, succeeds: bool)
    requires ControlOk(s) && s.loop.phase == Looping && s.work.Idle? && s.queue != []
    ensures ControlOk(TakeTask(s, succeeds))
  {
    var s' := TakeTask(s, succeeds);
    assert forall k :: 0 <= k < |s.queue| - 1 ==> s.queue[1..][k] == s.queue[k + 1];
    assert s'.queue == s.queue[1..];
    if k :| OnlyRequest(s.queue, k) {
      if k > 0 {
        assert OnlyRequest(s'.queue, k - 1) && s'.queue[k - 1] == s.queue[k];
      }
    }
  }

  lemma StepKeepsControl(s: State, a: Action)
    requires ControlOk(s) && Step(s, a).Some?
    ensures ControlOk(Step(s, a).value)
  {
    var s' := Step(s, a).value;
    match a {
      case ThreadMoves(succeeds) => ThreadKeepsControl(s, succeeds);
      case CallAdd(appid) => assert OnlyRequest(s'.queue, |s.queue|);
      case CallDelete => assert OnlyRequest(s'.queue, |s.queue|);
      case MirStopped(session) =>
        if k :| OnlyRequest(s.queue, k) {
          assert OnlyRequest(s'.queue, k) && s'.queue[k] == s.queue[k];
        }
      case OwnerMoves =>
      case HelperStopped(h) =>
    }
  }
}
