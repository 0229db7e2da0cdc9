/** A connection to the URL index: the functions of service/url-db.c on mutable tables,
    with every SQLite call allowed to fail. */
module UrlDb {
  import opened Text
  import opened SqlLike
  import opened UrlTables
  import opened Resolution

  /** How a statement ends. Some errors, such as a full disk, roll the transaction back on their own. */
  datatype Outcome = Succeeds | Fails | FailsAndRollsBack

  /** Which of the calls of one removal fail. */
  datatype RemovalFaults = RemovalFaults(
    begin: bool,
    prepareUrls: bool, deleteUrls: Outcome,
    prepareFile: bool, deleteFile: Outcome,
    commit: Outcome,
    rollback: bool)
  {
    predicate None() {
      !begin && !prepareUrls && deleteUrls.Succeeds? && !prepareFile && deleteFile.Succeeds? && commit.Succeeds?
    }
  }

  class Connection {
    /** What every other connection reads. */
    var committed: Tables
    /** What this connection has written since `begin`. */
    var pending: Option<Tables>

    constructor (t: Tables)
      ensures committed == t && pending == None
    {
      committed, pending := t, None;
    }

    function Current(): Tables
      reads this
    {
      if pending.Some? then pending.value else committed
    }

    // ---- SQLite ----

    method Begin(fails: bool) returns (ok: bool)
      modifies this
      ensures ok == (!fails && old(pending).None?)
      ensures committed == old(committed)
      ensures pending == if ok then Some(old(committed)) else old(pending)
    {
      ok := !fails && pending.None?;
      if ok {
        pending := Some(committed);
      }
    }

    /** Prepares and steps one statement; outside a transaction it commits by itself. */
    method Exec(st: Statement, outcome: Outcome) returns (ok: bool)
      modifies this
      ensures ok == outcome.Succeeds?
      ensures committed == if ok && old(pending).None? then Execute(old(committed), st) else old(committed)
      ensures pending == match outcome
                         case Succeeds => (if old(pending).Some? then Some(Execute(old(pending).value, st)) else None)
                         case Fails => old(pending)
                         case FailsAndRollsBack => None
    {
      ok := outcome.Succeeds?;
      if ok {
        if pending.Some? {
          pending := Some(Execute(pending.value, st));
        } else {
          committed := Execute(committed, st);
        }
      } else if outcome.FailsAndRollsBack? {
        pending := None;
      }
    }

    method Commit(outcome: Outcome) returns (ok: bool)
      requires pending.Some?
      modifies this
      ensures ok == outcome.Succeeds?
      ensures committed == if ok then old(pending).value else old(committed)
      ensures pending == if outcome.Fails? then old(pending) else None
    {
      ok := outcome.Succeeds?;
      if ok {
        committed := pending.value;
      }
      if !outcome.Fails? {
        pending := None;
      }
    }

    method Rollback(fails: bool)
      modifies this
      ensures committed == old(committed)
      ensures pending == if fails then old(pending) else None
    {
      if !fails {
        pending := None;
      }
    }

    // ---- service/url-db.c ----

    method GetFileModificationTime(filename: string, fails: bool) returns (found: bool, time: int)
      requires Valid(Current())
      ensures found <==> !fails && Known(Current(), filename)
      ensures found ==> time == Wrap32(TimeOf(Current(), filename))
    {
      found, time := false, 0;
      if fails {
        return;
      }
      var rows := RowidsOf(Current(), filename);
      while rows != {}
        invariant rows <= RowidsOf(Current(), filename)
        invariant !found ==> rows == RowidsOf(Current(), filename)
        invariant found ==> Known(Current(), filename) && time == Wrap32(TimeOf(Current(), filename))
      {
        var r :| r in rows;
        SeenAt(Current(), r, filename);
        found, time := true, Wrap32(Current().configfiles[r].timestamp);
        rows := rows - {r};
      }
    }

    method SetFileModificationTime(filename: string, time: int, fails: bool) returns (ok: bool)
      modifies this
      ensures ok == !fails
      ensures Current() == if ok then Execute(old(Current()), SetTime(filename, time)) else old(Current())
      ensures old(pending).None? ==> pending.None?
    {
      ok := Exec(SetTime(filename, time), if fails then Fails else Succeeds);
    }

    method InsertUrl(filename: string, protocol: string, domainsuffix: Option<string>, fails: bool) returns (ok: bool)
      modifies this
      ensures ok == !fails
      ensures !ok ==> Current() == old(Current())
      ensures ok && domainsuffix.Some? ==>
              Current() == Execute(old(Current()), UrlTables.InsertUrl(filename, protocol, domainsuffix.value))
      ensures ok && domainsuffix.None? ==>
              Current() == Execute(old(Current()), UrlTables.InsertUrl(filename, protocol, ""))
      ensures old(pending).None? ==> pending.None?
    {
      var suffix := OrEmpty(domainsuffix);
      ok := Exec(UrlTables.InsertUrl(filename, protocol, suffix), if fails then Fails else Succeeds);
    }

    method FindUrl(protocol: string, domain: Option<string>, plan: Planner, fails: bool) returns (appid: Option<string>)
      requires IsPlanner(plan)
      ensures fails ==> appid == None
      ensures !fails && domain.Some? ==> appid == Resolution.FindUrl(Current(), protocol, domain.value, plan)
      ensures !fails && domain.None? ==> appid == Resolution.FindUrl(Current(), protocol, "", plan)
    {
      var suffix := OrEmpty(domain);
      // `limit 1`: at most one row
      var rows := if Longest(Current(), protocol, suffix) == {} then [] else [plan(Current(), protocol, suffix)];
      var filename: Option<string> := None;
      var i := 0;
      while i < |rows| && filename.None?
        invariant 0 <= i <= |rows|
        invariant filename == if i == 0 then None else Some(rows[0])
      {
        filename := Some(rows[i]);
        i := i + 1;
      }
      appid := None;
      if filename.Some? {
        var base := Basename(filename.value);
        var p := LastOccurrence(base, DISPATCHER_SUFFIX, |base|);
        if p >= 0 {
          base := base[..p];
        }
        appid := Some(base);
      }
      if fails {
        appid := None;
      }
    }

    /** The names LIKE `dir%`, each once; an empty list when the query fails. */
    method FilesForDir(dir: Option<string>, fails: bool) returns (files: seq<string>)
      ensures fails ==> files == []
      ensures !fails && dir.Some? ==> forall n :: n in files <==> Known(Current(), n) && Like(n, dir.value + "%")
      ensures !fails && dir.None? ==> forall n :: n in files <==> Known(Current(), n) && Like(n, "%")
      ensures Valid(Current()) ==> forall i, j :: 0 <= i < j < |files| ==> files[i] != files[j]
    {
      var t := Current();
      var search := OrEmpty(dir) + "%";
      var rows := set r | r in t.configfiles && Like(t.configfiles[r].name, search);
      var all := rows;
      files := [];
      while rows != {}
        invariant rows <= all
        invariant forall n :: n in files <==> exists r :: r in all - rows && Holds(t, r, n)
        invariant Valid(t) ==> forall i, j :: 0 <= i < j < |files| ==> files[i] != files[j]
      {
        HasMember(rows);
        var r :| r in rows;
        assert Holds(t, r, t.configfiles[r].name);
        assert Valid(t) ==> t.configfiles[r].name !in files;
        files := [t.configfiles[r].name] + files;
        rows := rows - {r};
      }
      forall n
        ensures n in files <==> Known(t, n) && Like(n, search)
      {
        assert forall r :: Holds(t, r, n) ==> r in RowidsOf(t, n);
      }
      assert "" + "%" == "%";
      if fails {
        files := [];
      }
    }

    /** All or nothing: TRUE means both deletions are committed, FALSE that nothing is. */
    method RemoveFile(path: string, f: RemovalFaults) returns (ok: bool)
      modifies this
      ensures ok <==> old(pending).None? && f.None()
      ensures ok ==> committed == Remove(old(committed), path) && pending.None?
      ensures !ok ==> committed == old(committed)
      ensures old(pending).None? && !f.rollback ==> pending.None?
      ensures old(pending).Some? ==> pending == old(pending)
    {
      ok := Begin(f.begin);
      if !ok {
        return;
      }
      label work: {
        if f.prepareUrls {
          break work;
        }
        ok := Exec(DeleteUrls(path), f.deleteUrls);
        if !ok {
          break work;
        }
        if f.prepareFile {
          break work;
        }
        ok := Exec(DeleteFile(path), f.deleteFile);
        if !ok {
          break work;
        }
        ok := Commit(f.commit);
        if !ok {
          break work;
        }
        return;
      }
      Rollback(f.rollback);
      ok := false;
    }
  }

  function OrEmpty(s: Option<string>): string {
    if s.Some? then s.value else ""
  }
}
