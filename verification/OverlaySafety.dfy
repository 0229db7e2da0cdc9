/** What holds in every reachable state of the tracker: nothing is lost, nothing is done twice. */
module OverlaySafety {
  import opened Text
  import opened ContextThread
  import opened OverlayTracker
  import opened OverlaySystem

  // ---- Conservation ----

  function Held(s: State, session: nat): nat {
    match s.work
    case SessionMade(_, x) => if x == session then 1 else 0
    case HelperStarted(o) => if o.session == session then 1 else 0
    case _ => 0
  }

  /** The places a session is in: under construction, tracked, or released. */
  function SessionPlaces(s: State, session: nat): nat {
    Held(s, session) + SessionCount(s.book, session)
  }

  function SessionCount(b: Book, session: nat): nat {
    |OfSession(b, session)| + multiset(b.released)[session]
  }

  function HeldHelper(s: State, h: Helper): nat {
    if s.work.HelperStarted? && s.work.overlay.helper == h then 1 else 0
  }

  /** The places a helper is in: just started, tracked, stopped by the tracker, or gone by itself. */
  function HelperPlaces(s: State, h: Helper): nat {
    HeldHelper(s, h) + HelperCount(s.book, h)
  }

  function HelperCount(b: Book, h: Helper): nat {
    |OfHelper(b, h)| + multiset(b.stopped)[h] + multiset(b.reported)[h]
  }

  /** Every session ever created and every helper ever started is in exactly one place, once. */
  ghost predicate Conserved(s: State) {
    && (forall x: nat :: SessionPlaces(s, x) == if x < s.sessions then 1 else 0)
    && (forall h :: HelperPlaces(s, h) == if h in s.started then 1 else 0)
    && (forall h :: h in s.started ==> h.instance < s.instances)
  }

  /** Two books that count everything alike. */
  ghost predicate SameCounts(b: Book, b': Book) {
    && (forall x: nat :: SessionCount(b', x) == SessionCount(b, x))
    && (forall h :: HelperCount(b', h) == HelperCount(b, h))
  }

  /** Ending an entry, either way, only moves it from one place to another. */
  lemma EndMoves(b: Book, o: Overlay, b': Book)
    requires o in b.tracked && (b' == Stop(b, o) || b' == Report(b, o))
    ensures SameCounts(b, b')
  {
    forall x: nat
      ensures SessionCount(b', x) == SessionCount(b, x)
    {
      assert OfSession(b', x) == OfSession(b, x) - {o};
      assert x == o.session ==> o in OfSession(b, x);
    }
    forall h
      ensures HelperCount(b', h) == HelperCount(b, h)
    {
      assert OfHelper(b', h) == OfHelper(b, h) - {o};
      assert h == o.helper ==> o in OfHelper(b, h);
    }
  }

  lemma RemoveMoves(b: Book, b': Book, session: nat)
    requires RemovesOne(b, b', session)
    ensures SameCounts(b, b')
  {
    if o :| o in OfSession(b, session) && b' == Stop(b, o) {
      EndMoves(b, o, b');
    }
  }

  lemma ReportMoves(b: Book, b': Book, h: Helper)
    requires ReportsOne(b, b', h)
    ensures SameCounts(b, b')
  {
    if o :| o in OfHelper(b, h) && b' == Report(b, o) {
      EndMoves(b, o, b');
    }
  }

  lemma RecordCounts(b: Book, o: Overlay)
    requires o !in b.tracked
    ensures forall x: nat :: SessionCount(Record(b, o), x) == SessionCount(b, x) + if x == o.session then 1 else 0
    ensures forall h :: HelperCount(Record(b, o), h) == HelperCount(b, h) + if h == o.helper then 1 else 0
  {
    var b' := Record(b, o);
    forall x: nat
      ensures SessionCount(b', x) == SessionCount(b, x) + if x == o.session then 1 else 0
    {
      assert OfSession(b', x) == OfSession(b, x) + if x == o.session then {o} else {};
    }
    forall h
      ensures HelperCount(b', h) == HelperCount(b, h) + if h == o.helper then 1 else 0
    {
      assert OfHelper(b', h) == OfHelper(b, h) + if h == o.helper then {o} else {};
    }
  }

  lemma DropCounts(b: Book, session: nat)
    ensures forall x: nat :: SessionCount(Drop(b, session), x) == SessionCount(b, x) + if x == session then 1 else 0
    ensures forall h :: HelperCount(Drop(b, session), h) == HelperCount(b, h)
  {
    forall x: nat
      ensures OfSession(Drop(b, session), x) == OfSession(b, x)
    {
    }
    forall h
      ensures OfHelper(Drop(b, session), h) == OfHelper(b, h)
    {
    }
  }

  /** A step that makes nothing new and moves nothing in or out of the thread's hands. */
  lemma Carried(s: State, s': State)
    requires Conserved(s) && SameCounts(s.book, s'.book)
    requires s'.sessions == s.sessions && s'.instances == s.instances && s'.started == s.started
    requires forall x: nat :: Held(s', x) == Held(s, x)
    requires forall h :: HeldHelper(s', h) == HeldHelper(s, h)
    ensures Conserved(s')
  {
    assert forall x: nat :: SessionPlaces(s', x) == SessionPlaces(s, x);
    assert forall h :: HelperPlaces(s', h) == HelperPlaces(s, h);
  }

  lemma SessionMadePreserves(s: State, s': State)
    requires Conserved(s) && s.work.Idle? && s'.work.SessionMade? && s'.work.session == s.sessions
    requires s' == s.(queue := s'.queue, work := s'.work, sessions := s.sessions + 1)
    ensures Conserved(s')
  {
    assert forall x: nat :: SessionPlaces(s', x) == SessionPlaces(s, x) + if x == s.sessions then 1 else 0;
    assert forall h :: HelperPlaces(s', h) == HelperPlaces(s, h);
  }

  lemma TakePreserves(s: State, succeeds: bool)
    requires Conserved(s) && s.queue != [] && s.work.Idle?
    ensures Conserved(TakeTask(s, succeeds))
  {
    var s' := TakeTask(s, succeeds);
    match s.queue[0] {
      case AddTask(appid) =>
        if succeeds {
          SessionMadePreserves(s, s');
        } else {
          Carried(s, s');
        }
      case RemoveTask(session) =>
        RemoveMoves(s.book, s'.book, session);
        Carried(s, s');
      case ClearTask => Carried(s, s');
    }
  }

  lemma HelperStartedPreserves(s: State)
    requires Conserved(s) && s.work.SessionMade? && s.loop.phase == Looping
    ensures Conserved(ThreadStep(s, true).value)
  {
    var s' := ThreadStep(s, true).value;
    assert forall x: nat :: SessionPlaces(s', x) == SessionPlaces(s, x);
    assert forall h :: HelperPlaces(s', h) == HelperPlaces(s, h) + HeldHelper(s', h);
  }

  lemma FailedAddPreserves(s: State)
    requires Conserved(s) && s.work.SessionMade? && s.loop.phase == Looping
    ensures Conserved(ThreadStep(s, false).value)
  {
    var s' := ThreadStep(s, false).value;
    DropCounts(s.book, s.work.session);
    assert forall x: nat :: SessionPlaces(s', x) == SessionPlaces(s, x);
    assert forall h :: HelperPlaces(s', h) == HelperPlaces(s, h);
  }

  lemma RecordPreserves(s: State)
    requires Conserved(s) && s.work.HelperStarted?
    ensures Conserved(s.(work := Idle, book := Record(s.book, s.work.overlay), answered := true))
  {
    var o := s.work.overlay;
    assert SessionPlaces(s, o.session) <= 1;
    assert |OfSession(s.book, o.session)| == 0;
    assert o !in OfSession(s.book, o.session);
    RecordCounts(s.book, o);
    var s' := s.(work := Idle, book := Record(s.book, o), answered := true);
    assert forall x: nat :: SessionPlaces(s', x) == SessionPlaces(s, x);
    assert forall h :: HelperPlaces(s', h) == HelperPlaces(s, h);
  }

  lemma ThreadPreserves(s: State, succeeds: bool)
    requires Conserved(s) && ThreadStep(s, succeeds).Some?
    ensures Conserved(ThreadStep(s, succeeds).value)
  {
    var s' := ThreadStep(s, succeeds).value;
    if s.loop.phase != Looping {
      Carried(s, s');
    } else {
      match s.work {
        case Idle =>
          if s.queue != [] && (s.loop.running || succeeds) {
            TakePreserves(s, succeeds);
          } else {
            Carried(s, s');
          }
        case SessionMade(_, _) =>
          if succeeds {
            HelperStartedPreserves(s);
          } else {
            FailedAddPreserves(s);
          }
        case HelperStarted(_) => RecordPreserves(s);
        case Clearing =>
          if s.book.tracked != {} {
            RemoveMoves(s.book, s'.book, Any(s.book.tracked).session);
          }
          Carried(s, s');
      }
    }
  }

  /** Steps of the owner and queued events leave the book and the thread's hands alone. */
  lemma ControlPreserves(s: State, s': State)
    requires Conserved(s) && s'.book == s.book && s'.work == s.work
    requires s'.sessions == s.sessions && s'.instances == s.instances && s'.started == s.started
    ensures Conserved(s')
  {
    Carried(s, s');
  }

  lemma ReportPreserves(s: State, h: Helper)
    requires Conserved(s)
    ensures Conserved(s.(book := ReportHelper(s.book, h)))
  {
    ReportMoves(s.book, ReportHelper(s.book, h), h);
    Carried(s, s.(book := ReportHelper(s.book, h)));
  }

  lemma StepPreserves(s: State, a: Action)
    requires Conserved(s) && Step(s, a).Some?
    ensures Conserved(Step(s, a).value)
  {
    match a {
      case ThreadMoves(succeeds) => ThreadPreserves(s, succeeds);
      case HelperStopped(h) => ReportPreserves(s, h);
      case _ => ControlPreserves(s, Step(s, a).value);
    }
  }

  // ---- No stop is lost ----

  /** The session is under construction or tracked. */
  predicate Live(s: State, session: nat) {
    Held(s, session) > 0 || OfSession(s.book, session) != {}
  }

  /** A session whose stop was raised is not live, or its removal is still in the queue. */
  ghost predicate StopsRemembered(s: State) {
    forall x :: x in s.stopRaised ==> x < s.sessions && (Live(s, x) ==> RemoveTask(x) in s.queue)
  }

  lemma OneMember<T>(s: set<T>, x: T)
    requires x in s && |s| <= 1
    ensures s == {x}
  {
    assert |s - {x}| == 0;
  }

  /** The removal of a session that is tracked once takes it away. */
  lemma RemovedIsGone(s: State, session: nat)
    requires Conserved(s)
    ensures OfSession(RemoveSession(s.book, session), session) == {}
    ensures forall x: nat :: OfSession(RemoveSession(s.book, session), x) <= OfSession(s.book, x)
  {
    assert SessionPlaces(s, session) <= 1;
    if OfSession(s.book, session) != {} {
      var o := Any(OfSession(s.book, session));
      OneMember(OfSession(s.book, session), o);
    }
  }

  lemma TakeRemembers(s: State, succeeds: bool)
    requires Conserved(s) && StopsRemembered(s) && s.queue != [] && s.work.Idle?
    ensures StopsRemembered(TakeTask(s, succeeds))
  {
    var s' := TakeTask(s, succeeds);
    assert s.queue == [s.queue[0]] + s.queue[1..];
    if s.queue[0].RemoveTask? {
      RemovedIsGone(s, s.queue[0].session);
    }
    forall x | x in s'.stopRaised && Live(s', x)
      ensures RemoveTask(x) in s'.queue
    {
      assert x < s.sessions;
      assert Live(s, x);
    }
  }

  /** Only a new stop event or a taken task needs care: other steps keep what is queued and make nothing live. */
  lemma NothingComesAlive(s: State, a: Action, x: nat)
    requires Step(s, a).Some? && x < s.sessions && Live(Step(s, a).value, x)
    requires !(a.ThreadMoves? && s.loop.phase == Looping && s.work.Idle?)
    ensures Live(s, x)
  {
    var s' := Step(s, a).value;
    if o :| o in OfSession(s'.book, x) {
      assert o in OfSession(s.book, x) || (s.work.HelperStarted? && o == s.work.overlay);
    }
  }

  lemma StepRemembers(s: State, a: Action)
    requires Conserved(s) && StopsRemembered(s) && Step(s, a).Some?
    ensures StopsRemembered(Step(s, a).value)
  {
    var s' := Step(s, a).value;
    if a.ThreadMoves? && s.loop.phase == Looping && s.work.Idle? {
      if s.queue != [] && (s.loop.running || a.succeeds) {
        TakeRemembers(s, a.succeeds);
      }
    } else {
      forall x | x in s'.stopRaised && Live(s', x)
        ensures RemoveTask(x) in s'.queue
      {
        if x in s.stopRaised {
          NothingComesAlive(s, a, x);
        }
      }
    }
  }

  // ---- Every reachable state ----

  ghost predicate SafetyInv(s: State) {
    ControlOk(s) && Conserved(s) && StopsRemembered(s)
  }

  lemma StepKeepsSafety(s: State, a: Action)
    requires SafetyInv(s) && Step(s, a).Some?
    ensures SafetyInv(Step(s, a).value)
  {
    StepKeepsControl(s, a);
    StepPreserves(s, a);
    StepRemembers(s, a);
  }

  lemma {:induction false} ReachableIsSafe(states: seq<State>, actions: seq<Action>, i: nat)
    requires IsRun(states, actions) && i < |states|
    ensures SafetyInv(states[i])
    decreases i
  {
    if i > 0 {
      ReachableIsSafe(states, actions, i - 1);
      StepKeepsSafety(states[i - 1], actions[i - 1]);
    }
  }

  /** In every reachable state each created session is in construction, tracked, or released, exactly once in all;
      each started helper is being recorded, tracked, stopped by the tracker or reported stopped,
      exactly once in all. */
  lemma OverlaysAreConserved(states: seq<State>, actions: seq<Action>, i: nat, x: nat, h: Helper)
    requires IsRun(states, actions) && i < |states|
    ensures SessionPlaces(states[i], x) == if x < states[i].sessions then 1 else 0
    ensures HelperPlaces(states[i], h) == if h in states[i].started then 1 else 0
  {
    ReachableIsSafe(states, actions, i);
  }

  lemma {:induction false} RaisedStays(states: seq<State>, actions: seq<Action>, j: nat, i: nat, x: nat)
    requires IsRun(states, actions) && j < i < |states| && actions[j] == MirStopped(x)
    ensures x in states[i].stopRaised
    decreases i
  {
    assert Step(states[i - 1], actions[i - 1]) == Some(states[i]);
    if j < i - 1 {
      RaisedStays(states, actions, j, i - 1, x);
    }
  }

  /** A stop that Mir raises at any moment, however early after the session's creation, is not lost: once no removal
      of the session waits in the queue, no overlay under construction or tracked has the session,
      and it has been released once. */
  lemma NoStopIsLost(states: seq<State>, actions: seq<Action>, j: nat, i: nat, x: nat)
    requires IsRun(states, actions) && j < i < |states| && actions[j] == MirStopped(x)
    requires RemoveTask(x) !in states[i].queue
    ensures forall o :: o in states[i].book.tracked ==> o.session != x
    ensures states[i].work.SessionMade? ==> states[i].work.session != x
    ensures states[i].work.HelperStarted? ==> states[i].work.overlay.session != x
    ensures multiset(states[i].book.released)[x] == 1
  {
    ReachableIsSafe(states, actions, i);
    RaisedStays(states, actions, j, i, x);
    assert SessionPlaces(states[i], x) == 1;
    assert StopsRemembered(states[i]) && !Live(states[i], x);
    forall o | o in states[i].book.tracked
      ensures o.session != x
    {
      assert o !in OfSession(states[i].book, x);
    }
  }

  /** Sessions go before the connection: once the owner has dropped it, every session ever created
      has been released exactly once, and every helper ever started was stopped once or ended by itself. */
  lemma SessionsGoBeforeConnection(states: seq<State>, actions: seq<Action>, i: nat, x: nat, h: Helper)
    requires IsRun(states, actions) && i < |states|
    requires states[i].owner in {Disconnected, Cancelled, Joining, Gone}
    ensures x < states[i].sessions ==> multiset(states[i].book.released)[x] == 1
    ensures h in states[i].started ==> multiset(states[i].book.stopped)[h] + multiset(states[i].book.reported)[h] == 1
  {
    ReachableIsSafe(states, actions, i);
    var s := states[i];
    assert OfSession(s.book, x) == {} && OfHelper(s.book, h) == {};
    assert SessionPlaces(s, x) == if x < s.sessions then 1 else 0;
    assert HelperPlaces(s, h) == if h in s.started then 1 else 0;
  }

  // ---- What the events and tasks do ----

  /** As long as the connection is open Mir may stop any session it has made, and the removal is queued. */
  lemma StopIsQueued(s: State, x: nat)
    requires s.owner in {Constructing, Free, InAdd, InClear, Cleared} && x < s.sessions
    ensures Step(s, MirStopped(x)).Some?
    ensures var s' := Step(s, MirStopped(x)).value;
            s'.queue == s.queue + [RemoveTask(x)] && s'.book == s.book && s'.work == s.work && s'.owner == s.owner
  {
  }

  /** A queued removal ends the overlay of its session: the helper is told to stop and the session released.
      When there is none any more, a late or duplicate event, nothing happens. */
  lemma RemovalIsServed(states: seq<State>, actions: seq<Action>, i: nat, x: nat)
    requires IsRun(states, actions) && i < |states|
    requires states[i].loop.phase == Looping && states[i].loop.running && states[i].work == Idle
    requires states[i].queue != [] && states[i].queue[0] == RemoveTask(x)
    ensures Step(states[i], ThreadMoves(true)).Some?
    ensures var b, s' := states[i].book, Step(states[i], ThreadMoves(true)).value;
            && s'.queue == states[i].queue[1..] && s'.work == Idle
            && (forall o :: o in s'.book.tracked <==> o in b.tracked && o.session != x)
            && ((forall o :: o in b.tracked ==> o.session != x) ==> s'.book == b)
            && (forall o :: o in b.tracked && o.session == x ==>
                  && s'.book.stopped == b.stopped + [o.helper] && s'.book.released == b.released + [x]
                  && s'.book.reported == b.reported)
  {
    ReachableIsSafe(states, actions, i);
    var s := states[i];
    RemovedIsGone(s, x);
    var b' := RemoveSession(s.book, x);
    assert SessionPlaces(s, x) <= 1;
    forall o | o in s.book.tracked && o.session == x
      ensures OfSession(s.book, x) == {o} && b' == Stop(s.book, o)
    {
      OneMember(OfSession(s.book, x), o);
    }
    forall o
      ensures o in b'.tracked <==> o in s.book.tracked && o.session != x
    {
      assert o in b'.tracked && o.session == x ==> o in OfSession(b', x);
      if OfSession(s.book, x) == {} {
        assert o in s.book.tracked && o.session == x ==> o in OfSession(s.book, x);
      }
    }
    if forall o :: o in s.book.tracked ==> o.session != x {
      assert OfSession(s.book, x) == {};
    }
  }

  /** A helper that reports its end is no longer tracked, its session is released, and it is not told to stop;
      reports of other helpers change nothing. */
  lemma ReportIsServed(states: seq<State>, actions: seq<Action>, i: nat, h: Helper)
    requires IsRun(states, actions) && i < |states|
    requires states[i].loop.phase == Looping && states[i].work == Idle
    ensures Step(states[i], HelperStopped(h)).Some?
    ensures var b, s' := states[i].book, Step(states[i], HelperStopped(h)).value;
            && s' == states[i].(book := s'.book)
            && (forall o :: o in s'.book.tracked <==> o in b.tracked && o.helper != h)
            && ((forall o :: o in b.tracked ==> o.helper != h) ==> s'.book == b)
            && (forall o :: o in b.tracked && o.helper == h ==>
                  && s'.book.reported == b.reported + [h] && s'.book.released == b.released + [o.session]
                  && s'.book.stopped == b.stopped)
  {
    ReachableIsSafe(states, actions, i);
    var s := states[i];
    var b' := ReportHelper(s.book, h);
    assert HelperPlaces(s, h) <= 1;
    forall o | o in s.book.tracked && o.helper == h
      ensures OfHelper(s.book, h) == {o} && b' == Report(s.book, o)
    {
      OneMember(OfHelper(s.book, h), o);
    }
    forall o
      ensures o in b'.tracked <==> o in s.book.tracked && o.helper != h
    {
      if OfHelper(s.book, h) == {} {
        assert o in s.book.tracked && o.helper == h ==> o in OfHelper(s.book, h);
      }
    }
    if forall o :: o in s.book.tracked ==> o.helper != h {
      assert OfHelper(s.book, h) == {};
    }
  }

  /** An add whose turn has come: with a session and a helper its overlay is tracked, without a helper the session is
      released again, without a session nothing happens; each time the owner is answered. */
  lemma AddIsServed(states: seq<State>, actions: seq<Action>, i: nat, appid: string)
    requires IsRun(states, actions) && i < |states|
    requires states[i].loop.phase == Looping && states[i].loop.running && states[i].work == Idle
    requires states[i].queue != [] && states[i].queue[0] == AddTask(appid)
    ensures var s := states[i];
            && Step(s, ThreadMoves(false)).Some? && Step(s, ThreadMoves(true)).Some?
            && var s0, s1 := Step(s, ThreadMoves(false)).value, Step(s, ThreadMoves(true)).value;
            && s0.answered && s0.book == s.book && s0.sessions == s.sessions && s0.queue == s.queue[1..]
            && s1.sessions == s.sessions + 1 && s1.queue == s.queue[1..]
            && Step(s1, ThreadMoves(false)).Some? && Step(s1, ThreadMoves(true)).Some?
            && var r, s2 := Step(s1, ThreadMoves(false)).value, Step(s1, ThreadMoves(true)).value;
            && r.answered && r.work == Idle && r.book == s.book.(released := s.book.released + [s.sessions])
            && s2.started == s.started + {Helper(appid, s.instances)}
            && Step(s2, ThreadMoves(true)).Some?
            && var s3 := Step(s2, ThreadMoves(true)).value;
            && s3.answered && s3.work == Idle
            && s3.book == s.book.(tracked := s.book.tracked + {Overlay(Helper(appid, s.instances), s.sessions)})
  {
    ReachableIsSafe(states, actions, i);
    var s := states[i];
    var o := Overlay(Helper(appid, s.instances), s.sessions);
    assert SessionPlaces(s, s.sessions) == 0;
    assert o !in OfSession(s.book, s.sessions);
    assert o !in s.book.tracked;
  }

  /** A free owner may call for an overlay or begin the destructor, and either request waits behind what is queued. */
  lemma FreeOwnerMayCall(s: State, appid: string)
    requires s.owner == Free
    ensures Step(s, CallAdd(appid)).Some? && Step(s, CallDelete).Some?
    ensures Step(s, CallAdd(appid)).value.queue == s.queue + [AddTask(appid)]
    ensures Step(s, CallDelete).value.queue == s.queue + [ClearTask]
    ensures Step(s, CallAdd(appid)).value.owner == InAdd && Step(s, CallDelete).value.owner == InClear
  {
  }
}
