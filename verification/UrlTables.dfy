/** The two tables of the URL index and what each SQL statement does to them. */
module UrlTables {
  import opened Text

  datatype ConfigRow = ConfigRow(name: string, timestamp: int)
  datatype UrlRow = UrlRow(sourcefile: int, protocol: string, domainsuffix: string)

  /** `configfiles` keyed by its implicit rowid. `urls` is a set because of its unique index. */
  datatype Tables = Tables(configfiles: map<int, ConfigRow>, urls: set<UrlRow>)

  const EMPTY := Tables(map[], {})

  /** What a 64-bit value becomes in sqlite3_bind_int and sqlite3_column_int. */
  function Wrap32(x: int): (w: int)
    ensures -0x8000_0000 <= w < 0x8000_0000
    ensures (w - x) % 0x1_0000_0000 == 0
    ensures w == x <==> -0x8000_0000 <= x < 0x8000_0000
  {
    (x + 0x8000_0000) % 0x1_0000_0000 - 0x8000_0000
  }

  // ---- Rowids ----

  predicate IsLargest(s: set<int>, m: int) {
    0 <= m && (forall x :: x in s ==> x <= m) && (m in s || m == 0)
  }

  /** The largest element, or 0 if there is none above it. */
  function Largest(s: set<int>): (m: int)
    ensures IsLargest(s, m)
  {
    LargestExists(s);
    var m :| IsLargest(s, m);
    m
  }

  lemma {:induction false} LargestExists(s: set<int>)
    ensures exists m :: IsLargest(s, m)
  {
    if x :| x in s {
      LargestExists(s - {x});
      var m :| IsLargest(s - {x}, m);
      assert forall y :: y in s ==> y == x || y in s - {x};
      assert IsLargest(s, if x > m then x else m);
    } else {
      assert IsLargest(s, 0);
    }
  }

  /** SQLite's rule: one more than the largest rowid in the table, the row about to be replaced included. */
  function NextRowid(t: Tables): (r: int)
    ensures r !in t.configfiles && r >= 1
    ensures forall x :: x in t.configfiles ==> x < r
    ensures r == 1 || r - 1 in t.configfiles
  {
    Largest(t.configfiles.Keys) + 1
  }

  predicate Holds(t: Tables, r: int, name: string) {
    r in t.configfiles && t.configfiles[r].name == name
  }

  function RowidsOf(t: Tables, name: string): set<int> {
    set r | r in t.configfiles && Holds(t, r, name)
  }

  // ---- Statements ----

  datatype Statement =
    | SetTime(name: string, time: int)
    | InsertUrl(name: string, protocol: string, domainsuffix: string)
    | DeleteUrls(name: string)
    | DeleteFile(name: string)

  function Execute(t: Tables, st: Statement): Tables {
    match st
    // insert or replace into configfiles values (?1, ?2)
    case SetTime(name, time) =>
      t.(configfiles := (t.configfiles - RowidsOf(t, name))[NextRowid(t) := ConfigRow(name, Wrap32(time))])
    // insert or replace into urls select rowid, ?2, ?3 from configfiles where name = ?1
    case InsertUrl(name, protocol, suffix) =>
      t.(urls := t.urls + set r | r in RowidsOf(t, name) :: UrlRow(r, protocol, suffix))
    // delete from urls where sourcefile in (select rowid from configfiles where name = ?1)
    case DeleteUrls(name) =>
      t.(urls := set u | u in t.urls && u.sourcefile !in RowidsOf(t, name))
    // delete from configfiles where name = ?1
    case DeleteFile(name) =>
      t.(configfiles := t.configfiles - RowidsOf(t, name))
  }

  /** The two statements of a file removal. */
  function Remove(t: Tables, name: string): Tables {
    Execute(Execute(t, DeleteUrls(name)), DeleteFile(name))
  }

  // ---- Integrity and the rowid invariant ----

  /** What SQLite enforces: unique names. Rowids, also those kept in `urls`, start from 1. */
  ghost predicate Valid(t: Tables) {
    && (forall r :: r in t.configfiles ==> r >= 1)
    && (forall u :: u in t.urls ==> u.sourcefile >= 1)
    && (forall r, q :: r in t.configfiles && q in t.configfiles && t.configfiles[r].name == t.configfiles[q].name
          ==> r == q)
  }

  /** No URL row sits at a rowid that the next file would be given, or above it. */
  ghost predicate Bounded(t: Tables) {
    forall u :: u in t.urls ==> u.sourcefile < NextRowid(t)
  }

  ghost predicate Inv(t: Tables) {
    Valid(t) && Bounded(t)
  }

  /** Some orphan row waits at the rowid the next new file gets. */
  ghost predicate StaleAtNext(t: Tables) {
    exists u :: u in t.urls && u.sourcefile == NextRowid(t)
  }

  // ---- What a reader sees through the join ----

  datatype Url = Url(protocol: string, suffix: string)
  datatype FileEntry = FileEntry(time: int, urls: set<Url>)

  predicate Known(t: Tables, name: string) {
    RowidsOf(t, name) != {}
  }

  /** A file's rows joined on urls.sourcefile = configfiles.rowid. */
  function Visible(t: Tables, name: string): set<Url> {
    set u | u in t.urls && Holds(t, u.sourcefile, name) :: Url(u.protocol, u.domainsuffix)
  }

  /** The stored time, or 0 for an unknown file. */
  ghost function TimeOf(t: Tables, name: string): int {
    if r :| Holds(t, r, name) then t.configfiles[r].timestamp else 0
  }

  /** The abstract index the tables stand for: what is known about each name. */
  ghost function Seen(t: Tables, name: string): Option<FileEntry> {
    if Known(t, name) then Some(FileEntry(TimeOf(t, name), Visible(t, name))) else None
  }

  function UrlsAt(t: Tables, r: int): set<Url> {
    set u | u in t.urls && u.sourcefile == r :: Url(u.protocol, u.domainsuffix)
  }

  lemma SeenAt(t: Tables, r: int, name: string)
    requires Valid(t) && Holds(t, r, name)
    ensures RowidsOf(t, name) == {r}
    ensures Seen(t, name) == Some(FileEntry(t.configfiles[r].timestamp, UrlsAt(t, r)))
  {
    assert r in RowidsOf(t, name);
    assert forall q :: q in RowidsOf(t, name) ==> q == r;
    assert forall q :: Holds(t, q, name) ==> q == r;
    assert Visible(t, name) == UrlsAt(t, r);
  }

  lemma UnknownName(t: Tables, name: string)
    requires !Known(t, name)
    ensures forall r :: !Holds(t, r, name)
    ensures Visible(t, name) == {}
  {
    assert forall r :: Holds(t, r, name) ==> r in RowidsOf(t, name);
  }

  lemma KnownRow(t: Tables, name: string) returns (r: int)
    requires Known(t, name)
    ensures Holds(t, r, name)
  {
    r :| r in RowidsOf(t, name);
  }

  // ---- The abstract index under a statement ----

  /** What one statement does to the entry of file `n`. */
  function EntryAfter(e: Option<FileEntry>, st: Statement, n: string): Option<FileEntry> {
    if st.name != n then e
    else match st
      case SetTime(_, time) => Some(FileEntry(Wrap32(time), {}))
      case InsertUrl(_, protocol, suffix) =>
        if e.Some? then Some(e.value.(urls := e.value.urls + {Url(protocol, suffix)})) else None
      case DeleteUrls(_) => if e.Some? then Some(e.value.(urls := {})) else None
      case DeleteFile(_) => None
  }

  /** A reader sees exactly the abstract effect of the statement, on every file. */
  ghost predicate Refines(t: Tables, st: Statement) {
    forall n :: Seen(Execute(t, st), n) == EntryAfter(Seen(t, n), st, n)
  }

  lemma ExecuteKeepsValid(t: Tables, st: Statement)
    requires Valid(t)
    ensures Valid(Execute(t, st))
  {
    if st.SetTime? {
      assert forall r :: r in t.configfiles && t.configfiles[r].name == st.name ==> r in RowidsOf(t, st.name);
    }
  }

  lemma OthersUnchanged(t: Tables, st: Statement, n: string)
    requires Valid(t) && st.name != n
    ensures Seen(Execute(t, st), n) == Seen(t, n)
  {
    var t' := Execute(t, st);
    ExecuteKeepsValid(t, st);
    if Known(t, n) {
      var r := KnownRow(t, n);
      SeenAt(t, r, n);
      assert Holds(t', r, n);
      SeenAt(t', r, n);
      forall u: UrlRow | u.sourcefile == r
        ensures u in t'.urls <==> u in t.urls
      {
        if st.InsertUrl? || st.DeleteUrls? {
          assert r !in RowidsOf(t, st.name);
        }
      }
      assert UrlsAt(t', r) == UrlsAt(t, r);
    } else {
      UnknownName(t, n);
      forall r
        ensures !Holds(t', r, n)
      {
        assert !Holds(t, r, n);
      }
    }
  }

  lemma SetTimeSeen(t: Tables, name: string, time: int)
    requires Valid(t)
    ensures Seen(Execute(t, SetTime(name, time)), name) == Some(FileEntry(Wrap32(time), UrlsAt(t, NextRowid(t))))
  {
    ExecuteKeepsValid(t, SetTime(name, time));
    SeenAt(Execute(t, SetTime(name, time)), NextRowid(t), name);
  }

  lemma OtherStatementSeen(t: Tables, st: Statement)
    requires Valid(t) && !st.SetTime?
    ensures Seen(Execute(t, st), st.name) == EntryAfter(Seen(t, st.name), st, st.name)
  {
    var t', name := Execute(t, st), st.name;
    ExecuteKeepsValid(t, st);
    if st.DeleteFile? {
      assert forall r :: r in t'.configfiles ==> r !in RowidsOf(t, name);
      assert RowidsOf(t', name) == {};
    } else if Known(t, name) {
      var r := KnownRow(t, name);
      SeenAt(t, r, name);
      SeenAt(t', r, name);
      if st.InsertUrl? {
        var row := UrlRow(r, st.protocol, st.domainsuffix);
        assert t'.urls == t.urls + {row};
        assert UrlsAt(t', r) == UrlsAt(t, r) + {Url(st.protocol, st.domainsuffix)};
      } else {
        assert UrlsAt(t', r) == {};
      }
    } else {
      assert RowidsOf(t', name) == RowidsOf(t, name);
    }
  }

  /** One statement shows exactly its abstract effect, unless it is a set-time that hands a file
      a rowid some orphan row already carries; then, and only then, the file adopts stale URLs. */
  lemma StatementRefines(t: Tables, st: Statement)
    requires Valid(t)
    ensures Refines(t, st) <==> !(st.SetTime? && StaleAtNext(t))
  {
    forall n | n != st.name {
      OthersUnchanged(t, st, n);
    }
    if st.SetTime? {
      SetTimeSeen(t, st.name, st.time);
      assert EntryAfter(Seen(t, st.name), st, st.name).value.urls == {};
      if StaleAtNext(t) {
        var u :| u in t.urls && u.sourcefile == NextRowid(t);
        assert Url(u.protocol, u.domainsuffix) in UrlsAt(t, NextRowid(t));
        assert Seen(Execute(t, st), st.name) != EntryAfter(Seen(t, st.name), st, st.name);
      } else {
        assert UrlsAt(t, NextRowid(t)) == {};
      }
    } else {
      OtherStatementSeen(t, st);
    }
  }

  /** Every statement but the deletion of a file row keeps the rowid invariant. */
  lemma StatementKeepsInv(t: Tables, st: Statement)
    requires Inv(t) && !st.DeleteFile?
    ensures Inv(Execute(t, st))
  {
    var t' := Execute(t, st);
    ExecuteKeepsValid(t, st);
    if st.SetTime? {
      assert NextRowid(t) in t'.configfiles;
    } else {
      assert t'.configfiles == t.configfiles;
    }
  }

  // ---- Removal ----

  lemma RemoveTables(t: Tables, r: int, name: string)
    requires Valid(t) && Holds(t, r, name)
    ensures Remove(t, name).configfiles == t.configfiles - {r}
    ensures Remove(t, name).urls == set u | u in t.urls && u.sourcefile != r
  {
    SeenAt(t, r, name);
    assert RowidsOf(Execute(t, DeleteUrls(name)), name) == RowidsOf(t, name);
  }

  lemma RemoveUnknown(t: Tables, name: string)
    requires !Known(t, name)
    ensures Remove(t, name) == t
  {
    assert Execute(t, DeleteUrls(name)).urls == t.urls;
    assert RowidsOf(t, name) == {};
    assert t.configfiles - {} == t.configfiles;
  }

  /** Removal takes the file and its rows away and touches no other file, whatever the orphans. */
  lemma RemoveRefines(t: Tables, name: string)
    requires Valid(t)
    ensures Valid(Remove(t, name))
    ensures forall n :: Seen(Remove(t, name), n) == if n == name then None else Seen(t, n)
  {
    var t1 := Execute(t, DeleteUrls(name));
    ExecuteKeepsValid(t, DeleteUrls(name));
    ExecuteKeepsValid(t1, DeleteFile(name));
    StatementRefines(t, DeleteUrls(name));
    StatementRefines(t1, DeleteFile(name));
    assert Refines(t, DeleteUrls(name)) && Refines(t1, DeleteFile(name));
  }

  /** Some file other than the one at `r` has a rowid at or above the row's. */
  ghost predicate Covered(t: Tables, r: int, u: UrlRow) {
    exists q :: q in t.configfiles && q != r && u.sourcefile <= q
  }

  /** Removing a file keeps the invariant exactly when no surviving URL row lies above every file left. */
  lemma RemoveKeepsInv(t: Tables, r: int, name: string)
    requires Inv(t) && Holds(t, r, name)
    ensures Inv(Remove(t, name)) <==> forall u :: u in t.urls && u.sourcefile != r ==> Covered(t, r, u)
  {
    var t' := Remove(t, name);
    RemoveTables(t, r, name);
    RemoveRefines(t, name);
    var top := NextRowid(t') - 1;
    forall u | u in t.urls && u.sourcefile != r
      ensures Covered(t, r, u) <==> u.sourcefile <= top
    {
      if u.sourcefile <= top {
        assert top in t.configfiles && top != r;
      }
      if Covered(t, r, u) {
        var q :| q in t.configfiles && q != r && u.sourcefile <= q;
        assert q in t'.configfiles;
      }
    }
  }
}
