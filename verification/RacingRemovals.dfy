/** Races in which updaters remove files as well: each first visits its files, then removes its leftovers.
    A removal is one transaction, so it becomes visible at once, like an autocommitted statement. */
module RacingRemovals {
  import opened Text
  import opened UrlTables
  import opened IndexRuns
  import opened UpdateDirectory
  import opened RacingUpdaters

  // ---- What becomes visible, in order ----

  datatype Write = Single(st: Statement) | Removal(name: string)

  function Commit(t: Tables, w: Write): Tables {
    match w
    case Single(st) => Execute(t, st)
    case Removal(name) => Remove(t, name)
  }

  /** The simple index under a write, seen at file `n`. */
  function EntryAfterWrite(e: Option<FileEntry>, w: Write, n: string): Option<FileEntry> {
    match w
    case Single(st) => EntryAfter(e, st, n)
    case Removal(name) => if n == name then None else e
  }

  function CommitFirst(t: Tables, log: seq<Write>, k: nat): Tables
    requires k <= |log|
  {
    if k == 0 then t else Commit(CommitFirst(t, log, k - 1), log[k - 1])
  }

  function EntryFirst(e: Option<FileEntry>, log: seq<Write>, k: nat, n: string): Option<FileEntry>
    requires k <= |log|
  {
    if k == 0 then e else EntryAfterWrite(EntryFirst(e, log, k - 1, n), log[k - 1], n)
  }

  /** After `k` writes readers see the simple index. */
  ghost predicate ShowsIndexAt(t: Tables, log: seq<Write>, k: nat)
    requires k <= |log|
  {
    forall n :: Seen(CommitFirst(t, log, k), n) == EntryFirst(Seen(t, n), log, k, n)
  }

  ghost predicate ShowsIndex(t: Tables, log: seq<Write>) {
    forall k: nat :: k <= |log| ==> ShowsIndexAt(t, log, k)
  }

  /** Write `k` sets a time while an orphan waits at the rowid it hands out. */
  ghost predicate AdoptsAt(t: Tables, log: seq<Write>, k: nat)
    requires k < |log|
  {
    log[k].Single? && log[k].st.SetTime? && StaleAtNext(CommitFirst(t, log, k))
  }

  ghost predicate NeverAdopts(t: Tables, log: seq<Write>, upTo: nat)
    requires upTo <= |log|
  {
    forall k: nat :: k < upTo ==> !AdoptsAt(t, log, k)
  }

  lemma WriteRefines(t: Tables, w: Write)
    requires Valid(t)
    ensures Valid(Commit(t, w))
    ensures (forall n :: Seen(Commit(t, w), n) == EntryAfterWrite(Seen(t, n), w, n)) <==>
            !(w.Single? && w.st.SetTime? && StaleAtNext(t))
  {
    match w {
      case Single(st) =>
        ExecuteKeepsValid(t, st);
        StatementRefines(t, st);
        assert Refines(t, st) <==> forall n :: Seen(Commit(t, w), n) == EntryAfterWrite(Seen(t, n), w, n);
      case Removal(name) => RemoveRefines(t, name);
    }
  }

  lemma {:induction false} CommitKeepsValid(t: Tables, log: seq<Write>, k: nat)
    requires Valid(t) && k <= |log|
    ensures Valid(CommitFirst(t, log, k))
    decreases k
  {
    if k > 0 {
      CommitKeepsValid(t, log, k - 1);
      WriteRefines(CommitFirst(t, log, k - 1), log[k - 1]);
    }
  }

  lemma NextWrite(t: Tables, log: seq<Write>, k: nat)
    requires Valid(t) && k < |log| && ShowsIndexAt(t, log, k)
    ensures ShowsIndexAt(t, log, k + 1) <==> !AdoptsAt(t, log, k)
  {
    var before := CommitFirst(t, log, k);
    CommitKeepsValid(t, log, k);
    WriteRefines(before, log[k]);
    assert CommitFirst(t, log, k + 1) == Commit(before, log[k]);
    assert forall n :: EntryFirst(Seen(t, n), log, k + 1, n) == EntryAfterWrite(Seen(before, n), log[k], n);
  }

  lemma {:induction false} FirstWrites(t: Tables, log: seq<Write>, k: nat)
    requires Valid(t) && k <= |log| && NeverAdopts(t, log, k)
    ensures ShowsIndexAt(t, log, k)
    decreases k
  {
    if k > 0 {
      FirstWrites(t, log, k - 1);
      NextWrite(t, log, k - 1);
    }
  }

  /** Readers see the simple index after every write of a log exactly if no write of it adopts orphans. */
  lemma LogShowsIndex(t: Tables, log: seq<Write>)
    requires Valid(t)
    ensures ShowsIndex(t, log) <==> NeverAdopts(t, log, |log|)
  {
    if ShowsIndex(t, log) {
      forall k: nat | k < |log|
        ensures !AdoptsAt(t, log, k)
      {
        assert ShowsIndexAt(t, log, k) && ShowsIndexAt(t, log, k + 1);
        NextWrite(t, log, k);
      }
    }
    if NeverAdopts(t, log, |log|) {
      forall k: nat | k <= |log| {
        FirstWrites(t, log, k);
      }
    }
  }

  // ---- The race ----

  /** `leftovers[i]` are the names process `i` still has to remove; `log` records what has been written. */
  datatype Arena = Arena(world: World, leftovers: seq<seq<string>>, log: seq<Write>)

  ghost predicate ArenaOk(disk: Disk, a: Arena) {
    WellFormed(disk, a.world) && |a.leftovers| == |a.world.updaters|
  }

  /** The write a visiting process commits with its next statement, if any. */
  function WriteOf(disk: Disk, u: Updater, fails: bool): seq<Write>
    requires forall f :: f in u.remaining ==> f in disk
  {
    if u.remaining == [] || fails then []
    else
      var f := u.remaining[0];
      match u.phase
      case Checking => []
      case Setting => [Single(SetTime(f, disk[f].mtime))]
      case Inserting(k) =>
        if k < |Array(disk, f)| && AcceptedUrl(Array(disk, f)[k]).Some? then
          var url := AcceptedUrl(Array(disk, f)[k]).value;
          [Single(InsertUrl(f, url.protocol, url.suffix))]
        else []
  }

  /** A process that has visited all its files removes its next leftover; a removal that fails is only reported. */
  ghost function ArenaStep(disk: Disk, a: Arena, m: Move): Arena
    requires ArenaOk(disk, a) && m.process < |a.world.updaters|
  {
    var i := m.process;
    assert a.world.updaters[i] in a.world.updaters;
    if a.world.updaters[i].remaining != [] then
      Arena(Step(disk, a.world, m), a.leftovers, a.log + WriteOf(disk, a.world.updaters[i], m.fails))
    else if a.leftovers[i] == [] then a
    else
      var name, left := a.leftovers[i][0], a.leftovers[i := a.leftovers[i][1..]];
      if m.fails then a.(leftovers := left)
      else Arena(a.world.(db := Remove(a.world.db, name)), left, a.log + [Removal(name)])
  }

  lemma ArenaStepOk(disk: Disk, a: Arena, m: Move)
    requires ArenaOk(disk, a) && m.process < |a.world.updaters|
    ensures ArenaOk(disk, ArenaStep(disk, a, m))
    ensures |ArenaStep(disk, a, m).world.updaters| == |a.world.updaters|
  {
    StepWellFormed(disk, a.world, m);
  }

  ghost function ArenaRace(disk: Disk, a: Arena, schedule: seq<Move>): Arena
    requires ArenaOk(disk, a) && IsSchedule(a.world, schedule)
    decreases |schedule|
  {
    if schedule == [] then a
    else
      ArenaStepOk(disk, a, schedule[0]);
      ArenaRace(disk, ArenaStep(disk, a, schedule[0]), schedule[1..])
  }

  lemma {:induction false} LongerLog(t: Tables, log: seq<Write>, more: seq<Write>, k: nat)
    requires k <= |log|
    ensures CommitFirst(t, log + more, k) == CommitFirst(t, log, k)
    decreases k
  {
    if k > 0 {
      LongerLog(t, log, more, k - 1);
      assert (log + more)[k - 1] == log[k - 1];
    }
  }

  lemma OneMore(t: Tables, log: seq<Write>, w: Write)
    ensures CommitFirst(t, log + [w], |log| + 1) == Commit(CommitFirst(t, log, |log|), w)
  {
    LongerLog(t, log, [w], |log|);
    assert (log + [w])[|log|] == w;
  }

  /** The tables are what the log makes of those at the start. */
  ghost predicate Logged(t: Tables, a: Arena) {
    a.world.db == CommitFirst(t, a.log, |a.log|)
  }

  lemma VisitWrites(disk: Disk, w: World, m: Move)
    requires WellFormed(disk, w) && m.process < |w.updaters| && w.updaters[m.process] in w.updaters
    ensures var writes := WriteOf(disk, w.updaters[m.process], m.fails);
            && |writes| <= 1
            && Step(disk, w, m).db == if writes == [] then w.db else Commit(w.db, writes[0])
  {
  }

  lemma StepIsLogged(disk: Disk, t: Tables, a: Arena, m: Move)
    requires ArenaOk(disk, a) && m.process < |a.world.updaters| && Logged(t, a)
    ensures Logged(t, ArenaStep(disk, a, m))
  {
    var i := m.process;
    assert a.world.updaters[i] in a.world.updaters;
    if a.world.updaters[i].remaining != [] {
      VisitWrites(disk, a.world, m);
      var writes := WriteOf(disk, a.world.updaters[i], m.fails);
      if writes == [] {
        assert a.log + writes == a.log;
      } else {
        assert writes == [writes[0]];
        OneMore(t, a.log, writes[0]);
      }
    } else if a.leftovers[i] != [] && !m.fails {
      OneMore(t, a.log, Removal(a.leftovers[i][0]));
    }
  }

  lemma {:induction false} RaceIsLogged(disk: Disk, t: Tables, a: Arena, schedule: seq<Move>)
    requires ArenaOk(disk, a) && IsSchedule(a.world, schedule) && Logged(t, a)
    ensures Logged(t, ArenaRace(disk, a, schedule))
    decreases |schedule|
  {
    if schedule != [] {
      StepIsLogged(disk, t, a, schedule[0]);
      ArenaStepOk(disk, a, schedule[0]);
      RaceIsLogged(disk, t, ArenaStep(disk, a, schedule[0]), schedule[1..]);
    }
  }

  /** In every race with removals, from any tables and whatever fails, the log accounts for the tables, and readers
      see the simple index after every write exactly if no set-time of the race met an orphan at the rowid it took. */
  lemma RaceShowsIndex(disk: Disk, a: Arena, schedule: seq<Move>)
    requires ArenaOk(disk, a) && IsSchedule(a.world, schedule) && a.log == [] && Valid(a.world.db)
    ensures var t, after := a.world.db, ArenaRace(disk, a, schedule);
            && after.world.db == CommitFirst(t, after.log, |after.log|)
            && (ShowsIndex(t, after.log) <==> NeverAdopts(t, after.log, |after.log|))
  {
    RaceIsLogged(disk, a.world.db, a, schedule);
    LogShowsIndex(a.world.db, ArenaRace(disk, a, schedule).log);
  }

  // ---- One updater is safe, two are not ----

  predicate NoSetAfterRemoval(log: seq<Write>) {
    forall i, j :: 0 <= i < j < |log| && log[i].Removal? ==> !(log[j].Single? && log[j].st.SetTime?)
  }

  predicate OnlyVisits(log: seq<Write>, k: nat)
    requires k <= |log|
  {
    forall i :: 0 <= i < k ==> log[i].Single? && !log[i].st.DeleteFile?
  }

  lemma {:induction false} VisitsKeepInv(t: Tables, log: seq<Write>, k: nat)
    requires Inv(t) && k <= |log| && OnlyVisits(log, k)
    ensures Inv(CommitFirst(t, log, k))
    decreases k
  {
    if k > 0 {
      VisitsKeepInv(t, log, k - 1);
      StatementKeepsInv(CommitFirst(t, log, k - 1), log[k - 1].st);
    }
  }

  /** What a lone updater has written: visits first, removals last. */
  ghost predicate VisitsFirst(a: Arena) {
    && |a.world.updaters| == 1
    && (forall i :: 0 <= i < |a.log| && a.log[i].Single? ==> !a.log[i].st.DeleteFile?)
    && NoSetAfterRemoval(a.log)
    && ((exists i :: 0 <= i < |a.log| && a.log[i].Removal?) ==> a.world.updaters[0].remaining == [])
  }

  lemma LoneStep(disk: Disk, a: Arena, m: Move)
    requires ArenaOk(disk, a) && m.process == 0 && VisitsFirst(a)
    ensures VisitsFirst(ArenaStep(disk, a, m))
  {
    assert a.world.updaters[0] in a.world.updaters;
    var a' := ArenaStep(disk, a, m);
    if a.world.updaters[0].remaining != [] {
      assert forall i :: 0 <= i < |a'.log| ==> a'.log[i].Single?;
    } else {
      assert a'.log == a.log || a'.log == a.log + [Removal(a.leftovers[0][0])];
    }
  }

  lemma {:induction false} LoneRace(disk: Disk, a: Arena, schedule: seq<Move>)
    requires ArenaOk(disk, a) && IsSchedule(a.world, schedule) && VisitsFirst(a)
    ensures VisitsFirst(ArenaRace(disk, a, schedule))
    decreases |schedule|
  {
    if schedule != [] {
      LoneStep(disk, a, schedule[0]);
      ArenaStepOk(disk, a, schedule[0]);
      LoneRace(disk, ArenaStep(disk, a, schedule[0]), schedule[1..]);
    }
  }

  /** From any tables with the rowid invariant a lone updater is safe at every point of its run, whatever fails. */
  lemma LoneUpdaterIsSafe(disk: Disk, a: Arena, schedule: seq<Move>)
    requires ArenaOk(disk, a) && IsSchedule(a.world, schedule) && a.log == [] && Inv(a.world.db)
    requires |a.world.updaters| == 1
    ensures ShowsIndex(a.world.db, ArenaRace(disk, a, schedule).log)
  {
    var log := ArenaRace(disk, a, schedule).log;
    LoneRace(disk, a, schedule);
    forall k: nat | k < |log|
      ensures !AdoptsAt(a.world.db, log, k)
    {
      if log[k].Single? && log[k].st.SetTime? {
        VisitsKeepInv(a.world.db, log, k);
      }
    }
    RaceShowsIndex(disk, a, schedule);
  }

  /** Two updaters over different directories: the first is about to remove `a`, the second to visit `b`. */
  function TwoUpdaters(a: string, b: string, protocol: string, suffix: string): Arena {
    var updaters := [Updater([], Checking), Updater([b], Checking)];
    Arena(World(Orphaned(a, protocol, suffix), updaters, map[], {}), [[a], []], [])
  }

  lemma ThreeMoves(disk: Disk, a: Arena, a1: Arena, a2: Arena, x: Move, y: Move, z: Move)
    requires ArenaOk(disk, a) && IsSchedule(a.world, [x, y, z]) && x.process < |a.world.updaters|
    requires ArenaOk(disk, a1) && y.process < |a1.world.updaters| && a1 == ArenaStep(disk, a, x)
    requires ArenaOk(disk, a2) && z.process < |a2.world.updaters| && a2 == ArenaStep(disk, a1, y)
    ensures ArenaRace(disk, a, [x, y, z]) == ArenaStep(disk, a2, z)
  {
    var schedule := [x, y, z];
    assert schedule[1..] == [y, z] && [y, z][1..] == [z] && [z][1..] == [];
    ArenaStepOk(disk, a, x);
    ArenaStepOk(disk, a1, y);
    ArenaStepOk(disk, a2, z);
    assert IsSchedule(a1.world, [y, z]) && IsSchedule(a2.world, [z]);
    assert ArenaRace(disk, a2, [z]) == ArenaRace(disk, ArenaStep(disk, a2, z), []);
    assert ArenaRace(disk, a1, [y, z]) == ArenaRace(disk, a2, [z]);
  }

  /** The second updater's check finds `b` out of date. */
  lemma SecondChecks(a: string, b: string, d: DiskFile, protocol: string, suffix: string) returns (checked: Arena)
    requires a != b
    ensures var disk, arena := map[b := d], TwoUpdaters(a, b, protocol, suffix);
            && ArenaOk(disk, arena) && ArenaOk(disk, checked) && |checked.world.updaters| == 2
            && checked == ArenaStep(disk, arena, Move(1, false))
            && checked.world.db == arena.world.db && checked.leftovers == arena.leftovers
            && checked.world.updaters == [Updater([], Checking), Updater([b], Setting)]
  {
    var disk, arena := map[b := d], TwoUpdaters(a, b, protocol, suffix);
    assert forall r :: !Holds(arena.world.db, r, b);
    assert !Known(arena.world.db, b);
    checked := ArenaStep(disk, arena, Move(1, false));
    ArenaStepOk(disk, arena, Move(1, false));
  }

  /** The second checks `b`, the first removes `a`, the second sets the time of `b`: nothing fails, the tables had the
      rowid invariant, and `b` shows an old URL of `a`. */
  lemma RemovalInARace(a: string, b: string, d: DiskFile, protocol: string, suffix: string)
    requires a != b
    ensures var disk, arena := map[b := d], TwoUpdaters(a, b, protocol, suffix);
            var schedule := [Move(1, false), Move(0, false), Move(1, false)];
            && ArenaOk(disk, arena) && Inv(arena.world.db) && IsSchedule(arena.world, schedule)
            && Seen(ArenaRace(disk, arena, schedule).world.db, b)
               == Some(FileEntry(Wrap32(d.mtime), {Url(protocol, suffix)}))
  {
    var disk, arena := map[b := d], TwoUpdaters(a, b, protocol, suffix);
    OrphanArises(a, protocol, suffix);
    OrphanWaits(a, protocol, suffix);
    var checked := SecondChecks(a, b, d, protocol, suffix);
    var removed := ArenaStep(disk, checked, Move(0, false));
    ArenaStepOk(disk, checked, Move(0, false));
    assert removed.world.db == Remove(arena.world.db, a);
    ThreeMoves(disk, arena, checked, removed, Move(1, false), Move(0, false), Move(1, false));
    SetTimeSeen(removed.world.db, b, d.mtime);
  }

  /** Had the second set the time before the first removed `a`, it would not. */
  lemma RemovalAfterTheSet(a: string, b: string, d: DiskFile, protocol: string, suffix: string)
    requires a != b
    ensures var disk, arena := map[b := d], TwoUpdaters(a, b, protocol, suffix);
            var schedule := [Move(1, false), Move(1, false), Move(0, false)];
            && ArenaOk(disk, arena) && IsSchedule(arena.world, schedule)
            && Seen(ArenaRace(disk, arena, schedule).world.db, b) == Some(FileEntry(Wrap32(d.mtime), {}))
  {
    var disk, arena := map[b := d], TwoUpdaters(a, b, protocol, suffix);
    OrphanArises(a, protocol, suffix);
    var checked := SecondChecks(a, b, d, protocol, suffix);
    var stored := ArenaStep(disk, checked, Move(1, false));
    ArenaStepOk(disk, checked, Move(1, false));
    assert stored.world.db == Execute(arena.world.db, SetTime(b, d.mtime));
    ThreeMoves(disk, arena, checked, stored, Move(1, false), Move(1, false), Move(0, false));
    StatementRefines(arena.world.db, SetTime(b, d.mtime));
    assert Refines(arena.world.db, SetTime(b, d.mtime));
    ExecuteKeepsValid(arena.world.db, SetTime(b, d.mtime));
    RemoveRefines(stored.world.db, a);
  }
}
