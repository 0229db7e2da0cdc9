/** Several updaters over the same unchanged files, interleaved statement by statement.
    Every statement autocommits, so one step is one statement of one process; any of them may fail,
    as it does when another process holds the write lock for too long. */
module RacingUpdaters {
  import opened Text
  import opened UrlTables
  import opened UpdateDirectory

  /** Files by full name. */
  type Disk = map<string, DiskFile>

  datatype Phase = Checking | Setting | Inserting(next: nat)

  /** One process: the files it still has to visit, and where it is with the first of them. */
  datatype Updater = Updater(remaining: seq<string>, phase: Phase)

  /** Since the time of a file was set last: who set it, which elements of its array anybody has inserted,
      and which ones the setter failed to insert. */
  datatype Since = Since(setter: nat, landed: set<int>, missed: set<int>)

  /** `since` and `troubled`, the files whose check or set-time has failed, only record what happened. */
  datatype World = World(db: Tables, updaters: seq<Updater>, since: map<string, Since>, troubled: set<string>)

  /** The next statement of one process, and whether it fails. */
  datatype Move = Move(process: nat, fails: bool)

  ghost predicate WellFormed(disk: Disk, w: World) {
    forall u :: u in w.updaters ==> forall f :: f in u.remaining ==> f in disk
  }

  function Array(disk: Disk, f: string): seq<Entry>
    requires f in disk
  {
    Entries(disk[f].content)
  }

  /** All accepted URLs of a file. */
  function Accepted(disk: Disk, f: string): set<Url>
    requires f in disk
  {
    AcceptedUrls(Array(disk, f), |Array(disk, f)|, {})
  }

  /** The accepted URLs at some positions of an array. */
  function UrlsAtPositions(es: seq<Entry>, positions: set<int>): set<Url> {
    set i | i in positions && 0 <= i < |es| && AcceptedUrl(es[i]).Some? :: AcceptedUrl(es[i]).value
  }

  ghost predicate IsStale(disk: Disk, e: Option<FileEntry>, f: string)
    requires f in disk
  {
    OutOfDate(e, disk[f].mtime, false)
  }

  function NextFile(u: Updater): Updater
    requires u.remaining != []
  {
    Updater(u.remaining[1..], Checking)
  }

  function Troubled(w: World, f: string, fails: bool): set<string> {
    if fails then w.troubled + {f} else w.troubled
  }

  /** The record of an insert at position `k` by process `i`. */
  function Recorded(s: Since, i: nat, k: nat, fails: bool): Since {
    if !fails then s.(landed := s.landed + {k})
    else if s.setter == i then s.(missed := s.missed + {k})
    else s
  }

  /** A process executes its next statement: an unreadable time counts as out of date, a time that cannot be set
      skips the file, and an insert that fails is only reported. */
  ghost function Step(disk: Disk, w: World, m: Move): World
    requires WellFormed(disk, w) && m.process < |w.updaters|
  {
    var i := m.process;
    var u := w.updaters[i];
    if u.remaining == [] then w
    else
      var f := u.remaining[0];
      match u.phase
      case Checking =>
        var stale := m.fails || IsStale(disk, Seen(w.db, f), f);
        w.(updaters := w.updaters[i := if stale then u.(phase := Setting) else NextFile(u)],
           troubled := Troubled(w, f, m.fails))
      case Setting =>
        if m.fails then w.(updaters := w.updaters[i := NextFile(u)], troubled := Troubled(w, f, true))
        else World(Execute(w.db, SetTime(f, disk[f].mtime)),
                   w.updaters[i := u.(phase := Inserting(0))],
                   w.since[f := Since(i, {}, {})],
                   w.troubled)
      case Inserting(k) =>
        if k < |Array(disk, f)| then
          World(InsertOne(w.db, f, Array(disk, f)[k], m.fails),
                w.updaters[i := u.(phase := Inserting(k + 1))],
                if f in w.since then w.since[f := Recorded(w.since[f], i, k, m.fails)] else w.since,
                w.troubled)
        else
          w.(updaters := w.updaters[i := NextFile(u)])
  }

  ghost predicate IsSchedule(w: World, schedule: seq<Move>) {
    forall k :: 0 <= k < |schedule| ==> schedule[k].process < |w.updaters|
  }

  lemma StepWellFormed(disk: Disk, w: World, m: Move)
    requires WellFormed(disk, w) && m.process < |w.updaters|
    ensures WellFormed(disk, Step(disk, w, m)) && |Step(disk, w, m).updaters| == |w.updaters|
  {
    var w' := Step(disk, w, m);
    forall u | u in w'.updaters
      ensures forall f :: f in u.remaining ==> f in disk
    {
      assert w.updaters[m.process] in w.updaters;
      assert u in w.updaters || u == w'.updaters[m.process];
    }
  }

  /** The world after a schedule: which process moves at each point, and whether its statement fails. */
  ghost function Race(disk: Disk, w: World, schedule: seq<Move>): World
    requires WellFormed(disk, w) && IsSchedule(w, schedule)
    decreases |schedule|
  {
    if schedule == [] then w
    else
      StepWellFormed(disk, w, schedule[0]);
      Race(disk, Step(disk, w, schedule[0]), schedule[1..])
  }

  // ---- A process alone ----

  /** The moves with which process `i` inserts elements `from` to the end, and goes on to its next file. */
  function InsertMoves(i: nat, f: string, from: nat, n: nat, faults: Faults): seq<Move>
    requires from <= n
    decreases n - from
  {
    if from == n then [Move(i, false)]
    else [Move(i, (f, from) in faults.insert)] + InsertMoves(i, f, from + 1, n, faults)
  }

  /** The moves of one visit, with the failures the faults name. */
  ghost function VisitMoves(disk: Disk, w: World, i: nat, f: string, faults: Faults): seq<Move>
    requires f in disk
  {
    var check, store := Move(i, f in faults.getTime), Move(i, f in faults.setTime);
    if !OutOfDate(Seen(w.db, f), disk[f].mtime, f in faults.getTime) then [check]
    else if f in faults.setTime then [check, store]
    else [check, store] + InsertMoves(i, f, 0, |Array(disk, f)|, faults)
  }

  lemma {:induction false} InsertsAlone(disk: Disk, w: World, t: Tables, i: nat, f: string, k: nat, faults: Faults)
    requires WellFormed(disk, w) && i < |w.updaters| && f in disk
    requires w.updaters[i].remaining != [] && w.updaters[i].remaining[0] == f
    requires k <= |Array(disk, f)| && w.updaters[i].phase == Inserting(k)
    requires w.db == InsertFirst(t, f, Array(disk, f), k, FailedInserts(faults, f, |Array(disk, f)|))
    ensures var moves := InsertMoves(i, f, k, |Array(disk, f)|, faults);
            && IsSchedule(w, moves)
            && var w' := Race(disk, w, moves);
               && w'.db == InsertFirst(t, f, Array(disk, f), |Array(disk, f)|,
                                       FailedInserts(faults, f, |Array(disk, f)|))
               && w'.updaters == w.updaters[i := NextFile(w.updaters[i])]
    decreases |Array(disk, f)| - k
  {
    var n, moves := |Array(disk, f)|, InsertMoves(i, f, k, |Array(disk, f)|, faults);
    StepWellFormed(disk, w, moves[0]);
    var w1 := Step(disk, w, moves[0]);
    if k == n {
      assert moves[1..] == [];
      assert Race(disk, w, moves) == Race(disk, w1, []);
    } else {
      assert moves[1..] == InsertMoves(i, f, k + 1, n, faults);
      InsertsAlone(disk, w1, t, i, f, k + 1, faults);
      assert Race(disk, w, moves) == Race(disk, w1, moves[1..]);
    }
  }

  lemma TwoMoves(disk: Disk, w: World, w1: World, w2: World, x: Move, y: Move, rest: seq<Move>)
    requires WellFormed(disk, w) && x.process < |w.updaters| && w1 == Step(disk, w, x)
    requires WellFormed(disk, w1) && y.process < |w1.updaters| && w2 == Step(disk, w1, y)
    requires WellFormed(disk, w2) && IsSchedule(w2, rest)
    ensures IsSchedule(w, [x, y] + rest) && Race(disk, w, [x, y] + rest) == Race(disk, w2, rest)
  {
    StepWellFormed(disk, w, x);
    StepWellFormed(disk, w1, y);
    assert ([x, y] + rest)[1..] == [y] + rest && ([y] + rest)[1..] == rest;
    assert Race(disk, w1, [y] + rest) == Race(disk, w2, rest);
  }

  /** Undisturbed by others, a visit in the race does to the tables what the updater's turn does. */
  lemma LoneVisit(disk: Disk, w: World, i: nat, f: string, faults: Faults)
    requires WellFormed(disk, w) && i < |w.updaters| && f in disk
    requires w.updaters[i].remaining != [] && w.updaters[i].remaining[0] == f && w.updaters[i].phase == Checking
    ensures var moves := VisitMoves(disk, w, i, f, faults);
            && IsSchedule(w, moves)
            && Race(disk, w, moves).db == IndexFile(w.db, f, disk[f], faults)
            && Race(disk, w, moves).updaters == w.updaters[i := NextFile(w.updaters[i])]
  {
    var check, store := Move(i, f in faults.getTime), Move(i, f in faults.setTime);
    StepWellFormed(disk, w, check);
    var w1 := Step(disk, w, check);
    if !OutOfDate(Seen(w.db, f), disk[f].mtime, f in faults.getTime) {
      assert [check][1..] == [];
      assert Race(disk, w, [check]) == Race(disk, w1, []);
    } else {
      StepWellFormed(disk, w1, store);
      var w2 := Step(disk, w1, store);
      if f in faults.setTime {
        TwoMoves(disk, w, w1, w2, check, store, []);
        assert [check, store] + [] == [check, store];
      } else {
        InsertsAlone(disk, w2, w2.db, i, f, 0, faults);
        TwoMoves(disk, w, w1, w2, check, store, InsertMoves(i, f, 0, |Array(disk, f)|, faults));
      }
    }
  }

  // ---- The invariant ----

  /** How far the process that set file `f` last has come with its array. */
  function Progress(disk: Disk, w: World, f: string): nat
    requires f in disk && f in w.since && w.since[f].setter < |w.updaters|
  {
    var u := w.updaters[w.since[f].setter];
    if u.remaining != [] && u.remaining[0] == f && u.phase.Inserting? then u.phase.next else |Array(disk, f)|
  }

  /** All the setter has come to has been inserted, but for what it failed to insert. */
  ghost predicate Landed(s: Since, progress: nat) {
    forall i :: 0 <= i < progress && i !in s.missed ==> i in s.landed
  }

  /** Nobody has set `f` yet and it is as it was; or it shows exactly what has landed since it was set last. */
  ghost predicate FileOk(disk: Disk, t0: Tables, w: World, f: string) {
    if f !in w.since then Seen(w.db, f) == Seen(t0, f)
    else
      && f in disk && w.since[f].setter < |w.updaters|
      && (IsStale(disk, Seen(t0, f), f) || f in w.troubled)
      && Progress(disk, w, f) <= |Array(disk, f)|
      && Landed(w.since[f], Progress(disk, w, f))
      && Seen(w.db, f) == Some(FileEntry(Wrap32(disk[f].mtime), UrlsAtPositions(Array(disk, f), w.since[f].landed)))
  }

  ghost predicate UpdaterOk(disk: Disk, t0: Tables, w: World, u: Updater) {
    && (forall f :: f in u.remaining ==> f in disk)
    && match u.phase
       case Checking => true
       case Setting =>
         u.remaining != [] && (IsStale(disk, Seen(t0, u.remaining[0]), u.remaining[0]) || u.remaining[0] in w.troubled)
       case Inserting(k) => u.remaining != [] && u.remaining[0] in w.since && k <= |Array(disk, u.remaining[0])|
  }

  /** Every stale file that was on a process's list is still on it, or someone has set it or failed to. */
  ghost predicate NothingSkipped(disk: Disk, t0: Tables, w: World, before: seq<string>, u: Updater) {
    forall f :: f in before && f in disk && IsStale(disk, Seen(t0, f), f) ==>
                f in u.remaining || f in w.since || f in w.troubled
  }

  ghost predicate RaceInv(disk: Disk, w0: World, w: World) {
    && Inv(w.db)
    && |w.updaters| == |w0.updaters|
    && (forall f :: FileOk(disk, w0.db, w, f))
    && (forall i :: 0 <= i < |w.updaters| ==>
          && UpdaterOk(disk, w0.db, w, w.updaters[i])
          && NothingSkipped(disk, w0.db, w, w0.updaters[i].remaining, w.updaters[i]))
  }

  /** All processes are about to start. */
  ghost predicate Initial(disk: Disk, w: World) {
    && Inv(w.db) && w.since == map[] && w.troubled == {} && WellFormed(disk, w)
    && forall u :: u in w.updaters ==> u.phase == Checking
  }

  lemma InitialInv(disk: Disk, w: World)
    requires Initial(disk, w)
    ensures RaceInv(disk, w, w)
  {
    forall i | 0 <= i < |w.updaters|
      ensures UpdaterOk(disk, w.db, w, w.updaters[i])
    {
      assert w.updaters[i] in w.updaters;
    }
  }

  /** A process that only moves on to another phase or file, leaving the tables alone. */
  lemma MoveKeepsInv(disk: Disk, w0: World, w: World, i: nat, u': Updater, troubled: set<string>)
    requires RaceInv(disk, w0, w) && i < |w.updaters| && w.troubled <= troubled
    requires UpdaterOk(disk, w0.db, w.(troubled := troubled), u')
    requires NothingSkipped(disk, w0.db, w.(troubled := troubled), w0.updaters[i].remaining, u')
    requires w.updaters[i].phase.Inserting? ==> w.updaters[i].phase.next == |Array(disk, w.updaters[i].remaining[0])|
    requires !u'.phase.Inserting?
    ensures RaceInv(disk, w0, w.(updaters := w.updaters[i := u'], troubled := troubled))
  {
    var w' := w.(updaters := w.updaters[i := u'], troubled := troubled);
    forall f
      ensures FileOk(disk, w0.db, w', f)
    {
      assert FileOk(disk, w0.db, w, f);
      if f in w.since {
        assert Progress(disk, w', f) == Progress(disk, w, f);
      }
    }
    forall j | 0 <= j < |w'.updaters|
      ensures UpdaterOk(disk, w0.db, w', w'.updaters[j])
           && NothingSkipped(disk, w0.db, w', w0.updaters[j].remaining, w'.updaters[j])
    {
      assert UpdaterOk(disk, w0.db, w, w.updaters[j]);
      assert NothingSkipped(disk, w0.db, w, w0.updaters[j].remaining, w.updaters[j]);
    }
  }

  lemma SetKeepsInv(disk: Disk, w0: World, w: World, i: nat)
    requires RaceInv(disk, w0, w) && WellFormed(disk, w) && i < |w.updaters|
    requires w.updaters[i].remaining != [] && w.updaters[i].phase.Setting?
    ensures RaceInv(disk, w0, Step(disk, w, Move(i, false)))
  {
    var u := w.updaters[i];
    assert UpdaterOk(disk, w0.db, w, u);
    var f := u.remaining[0];
    var st := SetTime(f, disk[f].mtime);
    var w' := Step(disk, w, Move(i, false));
    StatementRefines(w.db, st);
    StatementKeepsInv(w.db, st);
    assert Refines(w.db, st);
    assert UrlsAtPositions(Array(disk, f), {}) == {};
    forall g
      ensures FileOk(disk, w0.db, w', g)
    {
      assert FileOk(disk, w0.db, w, g);
      if g != f && g in w.since {
        assert Progress(disk, w', g) == Progress(disk, w, g);
      }
    }
    forall j | 0 <= j < |w'.updaters|
      ensures UpdaterOk(disk, w0.db, w', w'.updaters[j])
           && NothingSkipped(disk, w0.db, w', w0.updaters[j].remaining, w'.updaters[j])
    {
      assert UpdaterOk(disk, w0.db, w, w.updaters[j]);
      assert NothingSkipped(disk, w0.db, w, w0.updaters[j].remaining, w.updaters[j]);
    }
  }

  /** What an insert by process `i` does to file `f`. */
  lemma InsertIntoFile(disk: Disk, t0: Tables, w: World, m: Move, f: string, k: nat, w': World)
    requires Inv(w.db) && f in disk && k < |Array(disk, f)| && m.process < |w.updaters|
    requires w.updaters[m.process].remaining != [] && w.updaters[m.process].remaining[0] == f
    requires w.updaters[m.process].phase == Inserting(k)
    requires f in w.since && FileOk(disk, t0, w, f)
    requires w'.db == InsertOne(w.db, f, Array(disk, f)[k], m.fails) && w'.troubled == w.troubled
    requires w'.updaters == w.updaters[m.process := w.updaters[m.process].(phase := Inserting(k + 1))]
    requires w'.since == w.since[f := Recorded(w.since[f], m.process, k, m.fails)]
    ensures FileOk(disk, t0, w', f)
  {
    InsertOneSeen(w.db, f, Array(disk, f), k, w.since[f].landed, m.fails);
    if w.since[f].setter == m.process {
      assert Progress(disk, w', f) == k + 1 && Progress(disk, w, f) == k;
    } else {
      assert Progress(disk, w', f) == Progress(disk, w, f);
    }
  }

  /** One insert adds its position to those that have landed, and keeps the invariant. */
  lemma InsertOneSeen(t: Tables, f: string, es: seq<Entry>, k: nat, landed: set<int>, fails: bool)
    requires Inv(t) && Seen(t, f).Some? && k < |es|
    requires Seen(t, f).value.urls == UrlsAtPositions(es, landed)
    ensures var t' := InsertOne(t, f, es[k], fails);
            && Inv(t')
            && (forall n :: n != f ==> Seen(t', n) == Seen(t, n))
            && Seen(t', f) == Some(FileEntry(Seen(t, f).value.time,
                                             UrlsAtPositions(es, if fails then landed else landed + {k})))
  {
    var url := AcceptedUrl(es[k]);
    PositionsGrow(es, landed, k);
    if url.Some? && !fails {
      var st := InsertUrl(f, url.value.protocol, url.value.suffix);
      StatementRefines(t, st);
      StatementKeepsInv(t, st);
      assert Refines(t, st);
    } else {
      assert UrlsAtPositions(es, landed) + {} == UrlsAtPositions(es, landed);
    }
  }

  lemma PositionsGrow(es: seq<Entry>, landed: set<int>, k: nat)
    requires k < |es|
    ensures UrlsAtPositions(es, landed + {k}) ==
            UrlsAtPositions(es, landed) + if AcceptedUrl(es[k]).Some? then {AcceptedUrl(es[k]).value} else {}
  {
    var here := if AcceptedUrl(es[k]).Some? then {AcceptedUrl(es[k]).value} else {};
    forall u
      ensures u in UrlsAtPositions(es, landed + {k}) <==> u in UrlsAtPositions(es, landed) + here
    {
      if u in here {
        assert k in landed + {k} && AcceptedUrl(es[k]).value == u;
      }
    }
  }

  lemma InsertKeepsInv(disk: Disk, w0: World, w: World, m: Move)
    requires RaceInv(disk, w0, w) && WellFormed(disk, w) && m.process < |w.updaters|
    requires w.updaters[m.process].remaining != [] && w.updaters[m.process].phase.Inserting?
    requires w.updaters[m.process].phase.next < |Array(disk, w.updaters[m.process].remaining[0])|
    ensures RaceInv(disk, w0, Step(disk, w, m))
  {
    var u := w.updaters[m.process];
    assert UpdaterOk(disk, w0.db, w, u);
    var f, k := u.remaining[0], u.phase.next;
    var w' := Step(disk, w, m);
    assert FileOk(disk, w0.db, w, f);
    InsertOneSeen(w.db, f, Array(disk, f), k, w.since[f].landed, m.fails);
    InsertIntoFile(disk, w0.db, w, m, f, k, w');
    forall g | g != f
      ensures FileOk(disk, w0.db, w', g)
    {
      assert FileOk(disk, w0.db, w, g);
      if g in w.since {
        assert Progress(disk, w', g) == Progress(disk, w, g);
      }
    }
    forall j | 0 <= j < |w'.updaters|
      ensures UpdaterOk(disk, w0.db, w', w'.updaters[j])
           && NothingSkipped(disk, w0.db, w', w0.updaters[j].remaining, w'.updaters[j])
    {
      assert UpdaterOk(disk, w0.db, w, w.updaters[j]);
      assert NothingSkipped(disk, w0.db, w, w0.updaters[j].remaining, w.updaters[j]);
    }
  }

  lemma StepKeepsInv(disk: Disk, w0: World, w: World, m: Move)
    requires RaceInv(disk, w0, w) && WellFormed(disk, w) && m.process < |w.updaters|
    ensures RaceInv(disk, w0, Step(disk, w, m))
  {
    var i := m.process;
    var u := w.updaters[i];
    assert UpdaterOk(disk, w0.db, w, u) && NothingSkipped(disk, w0.db, w, w0.updaters[i].remaining, u);
    if u.remaining != [] {
      var f := u.remaining[0];
      assert FileOk(disk, w0.db, w, f);
      match u.phase {
        case Checking =>
          var stale := m.fails || IsStale(disk, Seen(w.db, f), f);
          MoveKeepsInv(disk, w0, w, i, if stale then u.(phase := Setting) else NextFile(u), Troubled(w, f, m.fails));
        case Setting =>
          if m.fails {
            MoveKeepsInv(disk, w0, w, i, NextFile(u), Troubled(w, f, true));
          } else {
            SetKeepsInv(disk, w0, w, i);
          }
        case Inserting(k) =>
          if k < |Array(disk, f)| {
            InsertKeepsInv(disk, w0, w, m);
          } else {
            MoveKeepsInv(disk, w0, w, i, NextFile(u), w.troubled);
          }
      }
    }
  }

  lemma {:induction false} RaceKeepsInv(disk: Disk, w0: World, w: World, schedule: seq<Move>)
    requires RaceInv(disk, w0, w) && WellFormed(disk, w) && IsSchedule(w, schedule)
    ensures RaceInv(disk, w0, Race(disk, w, schedule))
    decreases |schedule|
  {
    if schedule != [] {
      StepKeepsInv(disk, w0, w, schedule[0]);
      StepWellFormed(disk, w, schedule[0]);
      RaceKeepsInv(disk, w0, Step(disk, w, schedule[0]), schedule[1..]);
    }
  }

  lemma ReachedInv(disk: Disk, w0: World, schedule: seq<Move>)
    requires Initial(disk, w0) && IsSchedule(w0, schedule)
    ensures RaceInv(disk, w0, Race(disk, w0, schedule))
  {
    InitialInv(disk, w0);
    RaceKeepsInv(disk, w0, w0, schedule);
  }

  // ---- The theorems ----

  /** At every point of every race, whatever fails, a reader sees for each file either what was there before
      anyone set it, or exactly the accepted URLs of the elements inserted since it was set last:
      never old and new together. */
  lemma ReadersNeverSeeMixedVersions(disk: Disk, w0: World, schedule: seq<Move>, f: string)
    requires Initial(disk, w0) && IsSchedule(w0, schedule)
    ensures var w := Race(disk, w0, schedule);
            if f !in w.since then Seen(w.db, f) == Seen(w0.db, f)
            else f in disk &&
                 Seen(w.db, f) ==
                 Some(FileEntry(Wrap32(disk[f].mtime), UrlsAtPositions(Array(disk, f), w.since[f].landed)))
  {
    ReachedInv(disk, w0, schedule);
    assert FileOk(disk, w0.db, Race(disk, w0, schedule), f);
  }

  ghost predicate Finished(w: World) {
    forall i :: 0 <= i < |w.updaters| ==> w.updaters[i].remaining == []
  }

  lemma AllPositions(es: seq<Entry>, s: Since)
    requires Landed(s, |es|)
    ensures AcceptedUrls(es, |es|, s.missed) <= UrlsAtPositions(es, s.landed) <= AcceptedUrls(es, |es|, {})
  {
    forall u | u in AcceptedUrls(es, |es|, s.missed)
      ensures u in UrlsAtPositions(es, s.landed)
    {
      var i :| 0 <= i < |es| && i !in s.missed && AcceptedUrl(es[i]).Some? && AcceptedUrl(es[i]).value == u;
      assert i in s.landed;
    }
  }

  /** Once all have finished, a file that somebody set lacks at most the elements its last setter failed on. */
  lemma LastSetterDecides(disk: Disk, w0: World, schedule: seq<Move>, f: string)
    requires Initial(disk, w0) && IsSchedule(w0, schedule) && Finished(Race(disk, w0, schedule))
    requires f in Race(disk, w0, schedule).since
    ensures var w := Race(disk, w0, schedule);
            && f in disk && Seen(w.db, f).Some? && Seen(w.db, f).value.time == Wrap32(disk[f].mtime)
            && AcceptedUrls(Array(disk, f), |Array(disk, f)|, w.since[f].missed) <= Seen(w.db, f).value.urls
            && Seen(w.db, f).value.urls <= Accepted(disk, f)
  {
    var w := Race(disk, w0, schedule);
    ReachedInv(disk, w0, schedule);
    assert FileOk(disk, w0.db, w, f);
    assert Progress(disk, w, f) == |Array(disk, f)|;
    AllPositions(Array(disk, f), w.since[f]);
  }

  /** Process `p` has missed nothing in the files it has set last. */
  ghost predicate MissedNothing(w: World, p: nat) {
    forall g :: g in w.since && w.since[g].setter == p ==> w.since[g].missed == {}
  }

  lemma {:induction false} FaithfulMissesNothing(disk: Disk, w: World, schedule: seq<Move>, p: nat)
    requires WellFormed(disk, w) && IsSchedule(w, schedule) && MissedNothing(w, p)
    requires forall m :: m in schedule && m.process == p ==> !m.fails
    ensures MissedNothing(Race(disk, w, schedule), p)
    decreases |schedule|
  {
    if schedule != [] {
      StepWellFormed(disk, w, schedule[0]);
      assert schedule[0] in schedule;
      assert MissedNothing(Step(disk, w, schedule[0]), p);
      FaithfulMissesNothing(disk, Step(disk, w, schedule[0]), schedule[1..], p);
    }
  }

  /** If the process that set a file last never fails, the file shows all its accepted URLs in the end,
      however often others fail. */
  lemma FaithfulSetterDecides(disk: Disk, w0: World, schedule: seq<Move>, f: string)
    requires Initial(disk, w0) && IsSchedule(w0, schedule) && Finished(Race(disk, w0, schedule))
    requires f in Race(disk, w0, schedule).since
    requires forall m :: m in schedule && m.process == Race(disk, w0, schedule).since[f].setter ==> !m.fails
    ensures f in disk
    ensures Seen(Race(disk, w0, schedule).db, f) == Some(FileEntry(Wrap32(disk[f].mtime), Accepted(disk, f)))
  {
    var w := Race(disk, w0, schedule);
    FaithfulMissesNothing(disk, w0, schedule, w.since[f].setter);
    LastSetterDecides(disk, w0, schedule, f);
    assert Seen(w.db, f).value.urls == Accepted(disk, f);
  }

  /** What one complete visit leaves of a file. */
  ghost function VisitedOnce(disk: Disk, e: Option<FileEntry>, f: string): Option<FileEntry> {
    if f in disk && IsStale(disk, e, f) then Some(FileEntry(Wrap32(disk[f].mtime), Accepted(disk, f))) else e
  }

  /** No call that decides what is shown of the file has failed: no check, no set-time,
      and no insert by the process that set it last. */
  ghost predicate Untroubled(w: World, f: string) {
    f !in w.troubled && (f in w.since ==> w.since[f].missed == {})
  }

  /** However many updaters race and however they interleave, once all have finished every file untroubled by
      failures shows what a single visit would have left: the accepted URLs if it was out of date,
      its old entry otherwise. */
  lemma RacingUpdatersConverge(disk: Disk, w0: World, schedule: seq<Move>, f: string)
    requires Initial(disk, w0) && IsSchedule(w0, schedule) && Finished(Race(disk, w0, schedule))
    requires f in disk ==> exists i :: 0 <= i < |w0.updaters| && f in w0.updaters[i].remaining
    requires Untroubled(Race(disk, w0, schedule), f)
    ensures Seen(Race(disk, w0, schedule).db, f) == VisitedOnce(disk, Seen(w0.db, f), f)
  {
    var w := Race(disk, w0, schedule);
    ReachedInv(disk, w0, schedule);
    assert FileOk(disk, w0.db, w, f);
    if f in w.since {
      LastSetterDecides(disk, w0, schedule, f);
      assert Seen(w.db, f).value.urls == Accepted(disk, f);
    } else if f in disk {
      NobodySet(disk, w0, w, f);
    }
  }

  lemma NobodySet(disk: Disk, w0: World, w: World, f: string)
    requires RaceInv(disk, w0, w) && Finished(w) && f in disk && f !in w.since && f !in w.troubled
    requires exists i :: 0 <= i < |w0.updaters| && f in w0.updaters[i].remaining
    ensures !IsStale(disk, Seen(w0.db, f), f)
  {
    var i :| 0 <= i < |w0.updaters| && f in w0.updaters[i].remaining;
    assert NothingSkipped(disk, w0.db, w, w0.updaters[i].remaining, w.updaters[i]);
  }

  /** The move fails while its process is at file `f`. */
  predicate Disturbs(w: World, m: Move, f: string)
    requires m.process < |w.updaters|
  {
    m.fails && w.updaters[m.process].remaining != [] && w.updaters[m.process].remaining[0] == f
  }

  /** No move of the schedule fails at file `f`. */
  ghost predicate Undisturbed(disk: Disk, w: World, schedule: seq<Move>, f: string)
    requires WellFormed(disk, w) && IsSchedule(w, schedule)
    decreases |schedule|
  {
    schedule == [] ||
    (StepWellFormed(disk, w, schedule[0]);
     !Disturbs(w, schedule[0], f) && Undisturbed(disk, Step(disk, w, schedule[0]), schedule[1..], f))
  }

  lemma {:induction false} UndisturbedIsUntroubled(disk: Disk, w: World, schedule: seq<Move>, f: string)
    requires WellFormed(disk, w) && IsSchedule(w, schedule) && Undisturbed(disk, w, schedule, f) && Untroubled(w, f)
    ensures Untroubled(Race(disk, w, schedule), f)
    decreases |schedule|
  {
    if schedule != [] {
      StepWellFormed(disk, w, schedule[0]);
      UndisturbedIsUntroubled(disk, Step(disk, w, schedule[0]), schedule[1..], f);
    }
  }

  /** So every file at which nothing fails converges, whatever fails at others. */
  lemma UndisturbedFilesConverge(disk: Disk, w0: World, schedule: seq<Move>, f: string)
    requires Initial(disk, w0) && IsSchedule(w0, schedule) && Finished(Race(disk, w0, schedule))
    requires f in disk ==> exists i :: 0 <= i < |w0.updaters| && f in w0.updaters[i].remaining
    requires Undisturbed(disk, w0, schedule, f)
    ensures Seen(Race(disk, w0, schedule).db, f) ==
            if f in disk && (!Known(w0.db, f) || disk[f].mtime > Wrap32(TimeOf(w0.db, f)))
            then Some(FileEntry(Wrap32(disk[f].mtime), Accepted(disk, f)))
            else Seen(w0.db, f)
  {
    UndisturbedIsUntroubled(disk, w0, schedule, f);
    RacingUpdatersConverge(disk, w0, schedule, f);
  }

  lemma {:induction false} FaultlessIsUndisturbed(disk: Disk, w: World, schedule: seq<Move>, f: string)
    requires WellFormed(disk, w) && IsSchedule(w, schedule) && forall m :: m in schedule ==> !m.fails
    ensures Undisturbed(disk, w, schedule, f)
    decreases |schedule|
  {
    if schedule != [] {
      StepWellFormed(disk, w, schedule[0]);
      FaultlessIsUndisturbed(disk, Step(disk, w, schedule[0]), schedule[1..], f);
    }
  }

  /** In particular, when nothing fails, all files converge. */
  lemma FaultlessRacesConverge(disk: Disk, w0: World, schedule: seq<Move>, f: string)
    requires Initial(disk, w0) && IsSchedule(w0, schedule) && Finished(Race(disk, w0, schedule))
    requires f in disk ==> exists i :: 0 <= i < |w0.updaters| && f in w0.updaters[i].remaining
    requires forall m :: m in schedule ==> !m.fails
    ensures Seen(Race(disk, w0, schedule).db, f) == VisitedOnce(disk, Seen(w0.db, f), f)
  {
    FaultlessIsUndisturbed(disk, w0, schedule, f);
    UndisturbedFilesConverge(disk, w0, schedule, f);
  }

  // ---- Races end ----

  /** The moves a process still needs for the files on its list. */
  function FileMoves(disk: Disk, fs: seq<string>): nat
    requires forall f :: f in fs ==> f in disk
  {
    if fs == [] then 0 else |Array(disk, fs[0])| + 3 + FileMoves(disk, fs[1..])
  }

  function MovesLeft(disk: Disk, u: Updater): int
    requires forall f :: f in u.remaining ==> f in disk
  {
    if u.remaining == [] then 0
    else
      FileMoves(disk, u.remaining) -
      match u.phase
      case Checking => 0
      case Setting => 1
      case Inserting(k) => if k <= |Array(disk, u.remaining[0])| then 2 + k else 2 + |Array(disk, u.remaining[0])|
  }

  lemma MoveCounts(disk: Disk, w: World, m: Move, i: nat)
    requires WellFormed(disk, w) && m.process < |w.updaters| && i < |w.updaters|
    requires w.updaters[i] in w.updaters && Step(disk, w, m).updaters[i] in Step(disk, w, m).updaters
    requires WellFormed(disk, Step(disk, w, m))
    ensures var u, u' := w.updaters[i], Step(disk, w, m).updaters[i];
            && MovesLeft(disk, u) >= 0 && MovesLeft(disk, u') >= 0
            && (i != m.process ==> u' == u)
            && (i == m.process && u.remaining != [] ==> MovesLeft(disk, u') < MovesLeft(disk, u))
            && (MovesLeft(disk, u') == 0 ==> u'.remaining == [])
  {
  }

  function MovesOf(schedule: seq<Move>, i: nat): nat {
    if schedule == [] then 0 else (if schedule[0].process == i then 1 else 0) + MovesOf(schedule[1..], i)
  }

  lemma {:induction false} EnoughMoves(disk: Disk, w: World, schedule: seq<Move>, i: nat)
    requires WellFormed(disk, w) && IsSchedule(w, schedule) && i < |w.updaters| && w.updaters[i] in w.updaters
    requires MovesOf(schedule, i) >= MovesLeft(disk, w.updaters[i])
    ensures |Race(disk, w, schedule).updaters| == |w.updaters| && Race(disk, w, schedule).updaters[i].remaining == []
    decreases |schedule|
  {
    if schedule != [] {
      var w' := Step(disk, w, schedule[0]);
      StepWellFormed(disk, w, schedule[0]);
      assert w'.updaters[i] in w'.updaters;
      MoveCounts(disk, w, schedule[0], i);
      EnoughMoves(disk, w', schedule[1..], i);
    } else {
      assert FileMoves(disk, w.updaters[i].remaining) >= 0;
    }
  }

  /** A race ends as soon as every process has had enough moves, whatever the others do and whatever fails. */
  lemma RacesEnd(disk: Disk, w: World, schedule: seq<Move>)
    requires WellFormed(disk, w) && IsSchedule(w, schedule)
    requires forall i: nat :: i < |w.updaters| && w.updaters[i] in w.updaters ==>
               MovesOf(schedule, i) >= MovesLeft(disk, w.updaters[i])
    ensures Finished(Race(disk, w, schedule))
  {
    RaceKeepsUpdaters(disk, w, schedule);
    forall i: nat | i < |w.updaters|
      ensures Race(disk, w, schedule).updaters[i].remaining == []
    {
      assert w.updaters[i] in w.updaters;
      EnoughMoves(disk, w, schedule, i);
    }
  }

  lemma {:induction false} RaceKeepsUpdaters(disk: Disk, w: World, schedule: seq<Move>)
    requires WellFormed(disk, w) && IsSchedule(w, schedule)
    ensures |Race(disk, w, schedule).updaters| == |w.updaters|
    decreases |schedule|
  {
    if schedule != [] {
      StepWellFormed(disk, w, schedule[0]);
      RaceKeepsUpdaters(disk, Step(disk, w, schedule[0]), schedule[1..]);
    }
  }
}
