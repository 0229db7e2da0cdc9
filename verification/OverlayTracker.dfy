/** The overlay session tracker: the set of live overlays, the operations that change it, and the class
    that performs them. */
module OverlayTracker {
  import opened Text

  /** An application launch instance, as the app launcher names it. */
  datatype Helper = Helper(appid: string, instance: nat)

  datatype Overlay = Overlay(helper: Helper, session: nat)

  const HELPER_TYPE := "url-overlay"

  /** The tracked set with the calls it has led to: helpers told to stop, sessions released to Mir,
      and helpers that reported their own end, each in order. */
  datatype Book = Book(tracked: set<Overlay>, released: seq<nat>, stopped: seq<Helper>, reported: seq<Helper>)

  // ---- What the operations do to the book ----

  function OfSession(b: Book, session: nat): set<Overlay> {
    set o | o in b.tracked && o.session == session
  }

  function OfHelper(b: Book, h: Helper): set<Overlay> {
    set o | o in b.tracked && o.helper == h
  }

  /** Erasing an entry drops the last reference to its session, which releases it. */
  function Erase(b: Book, o: Overlay): Book {
    b.(tracked := b.tracked - {o}, released := b.released + [o.session])
  }

  /** The tracker ends an entry: its helper is told to stop. */
  function Stop(b: Book, o: Overlay): Book {
    Erase(b, o).(stopped := b.stopped + [o.helper])
  }

  /** The helper has ended by itself. */
  function Report(b: Book, o: Overlay): Book {
    Erase(b, o).(reported := b.reported + [o.helper])
  }

  /** A session that is not tracked after all. */
  function Drop(b: Book, session: nat): Book {
    b.(released := b.released + [session])
  }

  /** An entry that is already there keeps its place and the second reference is dropped. */
  function Record(b: Book, o: Overlay): Book {
    if o in b.tracked then Drop(b, o.session) else b.(tracked := b.tracked + {o})
  }

  /** removeSession: one entry of the session is stopped; without one nothing happens. */
  ghost predicate RemovesOne(b: Book, b': Book, session: nat) {
    if OfSession(b, session) == {} then b' == b
    else exists o :: o in OfSession(b, session) && b' == Stop(b, o)
  }

  /** untrustedHelperStopped: one entry of the helper is erased; without one nothing happens. */
  ghost predicate ReportsOne(b: Book, b': Book, h: Helper) {
    if OfHelper(b, h) == {} then b' == b
    else exists o :: o in OfHelper(b, h) && b' == Report(b, o)
  }

  /** The entries stopped one after the other. */
  function StopAll(b: Book, order: seq<Overlay>): Book {
    if order == [] then b else Stop(StopAll(b, order[..|order| - 1]), order[|order| - 1])
  }

  lemma StopAllNext(b: Book, order: seq<Overlay>, o: Overlay)
    ensures StopAll(b, order + [o]) == Stop(StopAll(b, order), o)
  {
    assert (order + [o])[..|order|] == order;
  }

  function HelpersOf(order: seq<Overlay>): (hs: seq<Helper>)
    ensures |hs| == |order| && forall i :: 0 <= i < |order| ==> hs[i] == order[i].helper
  {
    seq(|order|, i requires 0 <= i < |order| => order[i].helper)
  }

  function SessionsOf(order: seq<Overlay>): (xs: seq<nat>)
    ensures |xs| == |order| && forall i :: 0 <= i < |order| ==> xs[i] == order[i].session
  {
    seq(|order|, i requires 0 <= i < |order| => order[i].session)
  }

  /** Stopping a list of entries leaves one release and one stop call for each, in that order. */
  lemma {:induction false} StopAllLogs(b: Book, order: seq<Overlay>)
    ensures StopAll(b, order).tracked == b.tracked - (set o | o in order)
    ensures StopAll(b, order).reported == b.reported
    ensures StopAll(b, order).released == b.released + SessionsOf(order)
    ensures StopAll(b, order).stopped == b.stopped + HelpersOf(order)
    decreases |order|
  {
    if order != [] {
      var init, last := order[..|order| - 1], order[|order| - 1];
      StopAllLogs(b, init);
      assert order == init + [last];
      assert SessionsOf(order) == SessionsOf(init) + [last.session];
      assert HelpersOf(order) == HelpersOf(init) + [last.helper];
    }
  }

  // ---- The class ----

  class Tracker {
    var ongoingSessions: set<Overlay>
    var released: seq<nat>
    var stopCalls: seq<Helper>
    var reports: seq<Helper>

    function Contents(): Book
      reads this
    {
      Book(ongoingSessions, released, stopCalls, reports)
    }

    constructor ()
      ensures Contents() == Book({}, [], [], [])
    {
      ongoingSessions, released, stopCalls, reports := {}, [], [], [];
    }

    method EraseEntry(o: Overlay)
      modifies this
      ensures Contents() == Erase(old(Contents()), o)
    {
      ongoingSessions := ongoingSessions - {o};
      released := released + [o.session];
    }

    method RemoveSession(session: nat) returns (removed: Option<Overlay>)
      modifies this
      ensures removed.None? ==>
              && (forall o :: o in old(ongoingSessions) ==> o.session != session)
              && Contents() == old(Contents())
      ensures removed.Some? ==>
              && removed.value in old(ongoingSessions) && removed.value.session == session
              && ongoingSessions == old(ongoingSessions) - {removed.value}
              && released == old(released) + [session]
              && stopCalls == old(stopCalls) + [removed.value.helper]
              && reports == old(reports)
              && Contents() == Stop(old(Contents()), removed.value)
      ensures RemovesOne(old(Contents()), Contents(), session)
    {
      removed := None;
      ghost var before := Contents();
      var ahead := ongoingSessions;
      while ahead != {}
        invariant ahead <= ongoingSessions && Contents() == before
        invariant forall o :: o in ongoingSessions - ahead ==> o.session != session
      {
        var o :| o in ahead;
        if o.session == session {
          stopCalls := stopCalls + [o.helper];
          EraseEntry(o);
          removed := Some(o);
          assert o in OfSession(before, session) && Contents() == Stop(before, o);
          return;
        }
        ahead := ahead - {o};
      }
      assert OfSession(before, session) == {};
    }

    method UntrustedHelperStopped(appid: string, instance: nat, helperType: string) returns (erased: Option<Overlay>)
      modifies this
      ensures helperType == "url-overlay" ==> ReportsOne(old(Contents()), Contents(), Helper(appid, instance))
      ensures erased.None? ==>
              && Contents() == old(Contents())
              && (helperType == "url-overlay" ==>
                  forall o :: o in old(ongoingSessions) ==> o.helper != Helper(appid, instance))
      ensures erased.Some? ==>
              && helperType == "url-overlay"
              && erased.value in old(ongoingSessions) && erased.value.helper == Helper(appid, instance)
              && ongoingSessions == old(ongoingSessions) - {erased.value}
              && released == old(released) + [erased.value.session]
              && reports == old(reports) + [Helper(appid, instance)]
              && stopCalls == old(stopCalls)
    {
      erased := None;
      if helperType != HELPER_TYPE {
        return;
      }
      ghost var before := Contents();
      var ahead := ongoingSessions;
      while ahead != {}
        invariant ahead <= ongoingSessions && Contents() == before
        invariant forall o :: o in ongoingSessions - ahead ==> o.helper != Helper(appid, instance)
      {
        var o :| o in ahead;
        if o.helper.appid == appid && o.helper.instance == instance {
          reports := reports + [o.helper];
          EraseEntry(o);
          erased := Some(o);
          assert o in OfHelper(before, Helper(appid, instance)) && Contents() == Report(before, o);
          return;
        }
        ahead := ahead - {o};
      }
      assert OfHelper(before, Helper(appid, instance)) == {};
    }

    /** The body of an add: `session` is None when Mir gives none, `instance` when the helper does not start. */
    method AddOverlay(appid: string, session: Option<nat>, instance: Option<nat>) returns (ok: bool)
      modifies this
      ensures ok <==> session.Some? && instance.Some?
      ensures ok ==> Overlay(Helper(appid, instance.value), session.value) in ongoingSessions
      ensures ok && Overlay(Helper(appid, instance.value), session.value) !in old(ongoingSessions) ==>
              && ongoingSessions == old(ongoingSessions) + {Overlay(Helper(appid, instance.value), session.value)}
              && released == old(released)
      ensures !ok ==> ongoingSessions == old(ongoingSessions)
      ensures !ok && session.Some? ==> released == old(released) + [session.value]
      ensures session.None? ==> released == old(released)
      ensures stopCalls == old(stopCalls) && reports == old(reports)
      ensures Contents() ==
              if session.None? then old(Contents())
              else if instance.None? then Drop(old(Contents()), session.value)
              else Record(old(Contents()), Overlay(Helper(appid, instance.value), session.value))
    {
      if session.None? {
        return false;
      }
      if instance.None? {
        // the only reference to the session goes out of scope
        released := released + [session.value];
        return false;
      }
      var o := Overlay(Helper(appid, instance.value), session.value);
      if o in ongoingSessions {
        released := released + [session.value];
      } else {
        ongoingSessions := ongoingSessions + {o};
      }
      return true;
    }

    /** The destructor's loop: every entry goes exactly once, in some order, also when several share one session. */
    method Clear() returns (order: seq<Overlay>)
      modifies this
      ensures Contents() == StopAll(old(Contents()), order) && ongoingSessions == {}
      ensures |order| == |old(ongoingSessions)| && forall o :: o in order <==> o in old(ongoingSessions)
      ensures reports == old(reports)
      ensures stopCalls == old(stopCalls) + HelpersOf(order) && released == old(released) + SessionsOf(order)
    {
      order := [];
      ghost var first := Contents();
      while ongoingSessions != {}
        invariant Contents() == StopAll(first, order)
        invariant ongoingSessions <= old(ongoingSessions)
        invariant forall o :: o in order <==> o in old(ongoingSessions) - ongoingSessions
        invariant |order| + |ongoingSessions| == |old(ongoingSessions)|
        decreases |ongoingSessions|
      {
        ghost var before := Contents();
        var begin :| begin in ongoingSessions;
        var removed := RemoveSession(begin.session);
        var o := removed.value;
        StopAllNext(first, order, o);
        order := order + [o];
        assert before.tracked == ongoingSessions + {o} && o !in ongoingSessions;
      }
      StopAllLogs(first, order);
    }
  }
}
