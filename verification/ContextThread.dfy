/** The life of a GLib context thread: start, the cancel check, the main loop, and quitting. */
module ContextThread {

  /** Ready: the constructor may return. Entering: past the cancel check, not yet in the loop. */
  datatype Phase = Starting | Ready | Entering | Looping | AfterLoop | Done

  /** `running` is the main loop's own flag: entering the loop sets it, g_main_loop_quit clears it. */
  datatype Loop = Loop(phase: Phase, cancelled: bool, running: bool)

  const STARTED := Loop(Starting, false, false)

  /** The thread can move on by itself; inside the loop only once the flag is down. */
  predicate CanAdvance(l: Loop) {
    l.phase != Done && (l.phase == Looping ==> !l.running)
  }

  function Advance(l: Loop): Loop
    requires CanAdvance(l)
  {
    match l.phase
    case Starting => l.(phase := Ready)
    case Ready => l.(phase := if l.cancelled then AfterLoop else Entering)
    case Entering => l.(phase := Looping, running := true)
    case Looping => l.(phase := AfterLoop)
    case AfterLoop => l.(phase := Done)
  }

  function Cancel(l: Loop): Loop {
    l.(cancelled := true)
  }

  function QuitLoop(l: Loop): Loop {
    l.(running := false)
  }

  /** The thread left to itself for `n` moves. */
  function AdvanceBy(l: Loop, n: nat): Loop
    decreases n
  {
    if n == 0 || !CanAdvance(l) then l else AdvanceBy(Advance(l), n - 1)
  }

  /** What a thread can look like when its owner calls `quit`, for the first time or again:
      the constructor has returned, and only inside the loop can the flag be up. */
  predicate Quittable(l: Loop) {
    l.phase != Starting && (l.running ==> l.phase == Looping)
  }

  /** `quit` is two calls: it cancels, the thread makes `k` moves, then it quits the loop. */
  function Quit(l: Loop, k: nat): Loop {
    QuitLoop(AdvanceBy(Cancel(l), k))
  }

  ghost predicate Ends(l: Loop) {
    exists n: nat :: AdvanceBy(l, n).phase == Done
  }

  lemma {:induction false} HungForever(l: Loop, n: nat)
    requires l.phase == Looping && l.running
    ensures AdvanceBy(l, n) == l
  {
  }

  /** A thread that is still to raise the flag never ends. */
  lemma EnteringHangs(l: Loop)
    requires l.phase == Entering
    ensures !Ends(l)
  {
    var inLoop := Advance(l);
    forall n: nat
      ensures AdvanceBy(l, n).phase != Done
    {
      if n > 0 {
        HungForever(inLoop, n - 1);
        assert AdvanceBy(l, n) == AdvanceBy(inLoop, n - 1);
      }
    }
  }

  lemma {:induction false} OthersEnd(l: Loop)
    requires Quittable(l) && l.phase != Entering && !l.running && (l.phase == Ready ==> l.cancelled)
    ensures Ends(l)
    decreases if l.phase == Done then 0 else if l.phase == AfterLoop then 1 else 2
  {
    assert AdvanceBy(l, 0) == l;
    if l.phase != Done {
      OthersEnd(Advance(l));
      var n: nat :| AdvanceBy(Advance(l), n).phase == Done;
      assert AdvanceBy(l, n + 1) == AdvanceBy(Advance(l), n);
    }
  }

  lemma {:induction false} CancelledMoves(l: Loop, k: nat)
    requires Quittable(l) && l.cancelled
    ensures var m := AdvanceBy(l, k);
            Quittable(m) && m.cancelled && (m.phase == Entering <==> l.phase == Entering && k == 0)
    decreases k
  {
    if k > 0 && CanAdvance(l) {
      CancelledMoves(Advance(l), k - 1);
    }
  }

  /** The thread ends if and only if it does not stay, between the two calls, past the cancel check and
      before the loop: there neither the cancellation nor the lowered flag reaches it. */
  lemma QuitIsLostWhileEntering(l: Loop, k: nat)
    requires Quittable(l)
    ensures Ends(Quit(l, k)) <==> !(l.phase == Entering && k == 0)
  {
    CancelledMoves(Cancel(l), k);
    if l.phase == Entering && k == 0 {
      EnteringHangs(Quit(l, k));
    } else {
      OthersEnd(Quit(l, k));
    }
  }

  /** The lost quit is reachable: the owner may quit as soon as the constructor has returned. */
  lemma LostQuitIsReachable()
    ensures var l := AdvanceBy(STARTED, 2);
            l.phase == Entering && Quittable(l) && !Ends(Quit(l, 0))
  {
    var l1 := Advance(STARTED);
    var l2 := Advance(l1);
    assert AdvanceBy(l2, 0) == l2;
    assert AdvanceBy(l1, 1) == l2;
    assert AdvanceBy(STARTED, 2) == l2;
    QuitIsLostWhileEntering(l2, 0);
  }
}
