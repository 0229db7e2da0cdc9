/** A run of the updater as a script of statements, and what it does to the rowid invariant. */
module UpdateScripts {
  import opened Text
  import opened UrlTables
  import opened IndexRuns
  import opened UpdateDirectory

  // ---- A run as a script ----

  function InsertScript(file: string, entries: seq<Entry>, k: nat, failing: set<int>): seq<Statement>
    requires k <= |entries|
  {
    if k == 0 then []
    else
      var url := AcceptedUrl(entries[k - 1]);
      InsertScript(file, entries, k - 1, failing) +
      if url.None? || k - 1 in failing then [] else [InsertUrl(file, url.value.protocol, url.value.suffix)]
  }

  function FileScript(file: string, d: DiskFile, faults: Faults): seq<Statement> {
    var es := Entries(d.content);
    [SetTime(file, d.mtime)] + InsertScript(file, es, |es|, FailedInserts(faults, file, |es|))
  }

  ghost function IndexScript(t: Tables, dir: string, listing: seq<DiskFile>, k: nat, faults: Faults): seq<Statement>
    requires k <= |listing|
  {
    if k == 0 then []
    else
      IndexScript(t, dir, listing, k - 1, faults) +
      if ToBeIndexed(IndexFirst(t, dir, listing, k - 1, faults), dir, listing[k - 1], faults)
      then FileScript(BuildFilename(dir, listing[k - 1].name), listing[k - 1], faults) else []
  }

  function RemovalScript(names: seq<string>): seq<Statement> {
    if names == [] then []
    else
      var last := names[|names| - 1];
      RemovalScript(names[..|names| - 1]) + [DeleteUrls(last), DeleteFile(last)]
  }

  /** The statements of a run that take effect, in their order. */
  ghost function UpdateScript(t: Tables, dir: string, listing: seq<DiskFile>, faults: Faults, removed: seq<string>)
    : seq<Statement>
  {
    IndexScript(t, dir, listing, |listing|, faults) + RemovalScript(removed)
  }

  lemma {:induction false} RunAppend(t: Tables, a: seq<Statement>, b: seq<Statement>)
    ensures Run(t, a + b) == Run(Run(t, a), b)
    decreases |a|
  {
    if a == [] {
      assert a + b == b;
    } else {
      RunAppend(Execute(t, a[0]), a[1..], b);
      assert (a + b)[1..] == a[1..] + b;
    }
  }

  lemma RunOne(t: Tables, st: Statement)
    ensures Run(t, [st]) == Execute(t, st)
  {
    assert [st][1..] == [];
  }

  predicate NoDeletion(script: seq<Statement>) {
    forall i :: 0 <= i < |script| ==> script[i].SetTime? || script[i].InsertUrl?
  }

  predicate OnlyDeletions(script: seq<Statement>) {
    forall i :: 0 <= i < |script| ==> script[i].DeleteUrls? || script[i].DeleteFile?
  }

  lemma NextInsertRuns(t: Tables, file: string, entries: seq<Entry>, k: nat, failing: set<int>)
    requires k < |entries| && NoDeletion(InsertScript(file, entries, k, failing))
    requires Run(t, InsertScript(file, entries, k, failing)) == InsertFirst(t, file, entries, k, failing)
    ensures Run(t, InsertScript(file, entries, k + 1, failing)) == InsertFirst(t, file, entries, k + 1, failing)
    ensures NoDeletion(InsertScript(file, entries, k + 1, failing))
  {
    var before, url := InsertFirst(t, file, entries, k, failing), AcceptedUrl(entries[k]);
    var last := if url.None? || k in failing then [] else [InsertUrl(file, url.value.protocol, url.value.suffix)];
    RunAppend(t, InsertScript(file, entries, k, failing), last);
    if last != [] {
      RunOne(before, last[0]);
    }
  }

  lemma {:induction false} InsertScriptRuns(t: Tables, file: string, entries: seq<Entry>, k: nat, failing: set<int>)
    requires k <= |entries|
    ensures Run(t, InsertScript(file, entries, k, failing)) == InsertFirst(t, file, entries, k, failing)
    ensures NoDeletion(InsertScript(file, entries, k, failing))
  {
    for i := 0 to k
      invariant Run(t, InsertScript(file, entries, i, failing)) == InsertFirst(t, file, entries, i, failing)
      invariant NoDeletion(InsertScript(file, entries, i, failing))
    {
      NextInsertRuns(t, file, entries, i, failing);
    }
  }

  lemma FileScriptRuns(t: Tables, file: string, d: DiskFile, faults: Faults)
    requires Reindexes(Seen(t, file), file, d, faults)
    ensures Run(t, FileScript(file, d, faults)) == IndexFile(t, file, d, faults)
    ensures NoDeletion(FileScript(file, d, faults))
  {
    var es, st := Entries(d.content), SetTime(file, d.mtime);
    var failing := FailedInserts(faults, file, |es|);
    RunOne(t, st);
    RunAppend(t, [st], InsertScript(file, es, |es|, failing));
    InsertScriptRuns(Execute(t, st), file, es, |es|, failing);
  }

  lemma NextFileRuns(t: Tables, dir: string, before: Tables, d: DiskFile, faults: Faults, script: seq<Statement>)
    requires Run(t, script) == before && NoDeletion(script) && ToBeIndexed(before, dir, d, faults)
    ensures var file := BuildFilename(dir, d.name);
            var longer := script + FileScript(file, d, faults);
            Run(t, longer) == IndexFile(before, file, d, faults) && NoDeletion(longer)
  {
    var file := BuildFilename(dir, d.name);
    FileScriptRuns(before, file, d, faults);
    RunAppend(t, script, FileScript(file, d, faults));
  }

  lemma NextTurnRuns(t: Tables, dir: string, listing: seq<DiskFile>, k: nat, faults: Faults)
    requires k < |listing| && NoDeletion(IndexScript(t, dir, listing, k, faults))
    requires Run(t, IndexScript(t, dir, listing, k, faults)) == IndexFirst(t, dir, listing, k, faults)
    ensures Run(t, IndexScript(t, dir, listing, k + 1, faults)) == IndexFirst(t, dir, listing, k + 1, faults)
    ensures NoDeletion(IndexScript(t, dir, listing, k + 1, faults))
  {
    var before, script := IndexFirst(t, dir, listing, k, faults), IndexScript(t, dir, listing, k, faults);
    if ToBeIndexed(before, dir, listing[k], faults) {
      NextFileRuns(t, dir, before, listing[k], faults, script);
    } else {
      assert IndexScript(t, dir, listing, k + 1, faults) == script;
    }
  }

  lemma {:induction false} IndexScriptRuns(t: Tables, dir: string, listing: seq<DiskFile>, k: nat, faults: Faults)
    requires k <= |listing|
    ensures Run(t, IndexScript(t, dir, listing, k, faults)) == IndexFirst(t, dir, listing, k, faults)
    ensures NoDeletion(IndexScript(t, dir, listing, k, faults))
  {
    for i := 0 to k
      invariant Run(t, IndexScript(t, dir, listing, i, faults)) == IndexFirst(t, dir, listing, i, faults)
      invariant NoDeletion(IndexScript(t, dir, listing, i, faults))
    {
      NextTurnRuns(t, dir, listing, i, faults);
    }
  }

  lemma {:induction false} RemovalScriptRuns(t: Tables, names: seq<string>)
    ensures Run(t, RemovalScript(names)) == RemoveAll(t, names) && OnlyDeletions(RemovalScript(names))
    decreases |names|
  {
    if names != [] {
      var init, last := names[..|names| - 1], names[|names| - 1];
      RemovalScriptRuns(t, init);
      var t1 := RemoveAll(t, init);
      var pair := [DeleteUrls(last), DeleteFile(last)];
      RunAppend(t, RemovalScript(init), pair);
      assert pair[1..] == [pair[1]];
      RunOne(Execute(t1, pair[0]), pair[1]);
    }
  }

  /** Every run of the updater, whatever fails in it, sets no time after its first deletion. From any state with
      the rowid invariant it is therefore safe: after each of its statements readers see the simple index. */
  lemma UpdateIsSafeScript(t: Tables, dir: string, listing: seq<DiskFile>, faults: Faults, removed: seq<string>)
    requires Inv(t)
    ensures var script := UpdateScript(t, dir, listing, faults, removed);
            && Run(t, script) == Updated(t, dir, listing, faults, removed)
            && NoSetAfterDelete(script) && Simulates(t, script)
  {
    var first, last := IndexScript(t, dir, listing, |listing|, faults), RemovalScript(removed);
    IndexScriptRuns(t, dir, listing, |listing|, faults);
    RemovalScriptRuns(Run(t, first), removed);
    RunAppend(t, first, last);
    DeletingLastIsSafe(t, first + last);
  }

  // ---- The rowid invariant across a run ----

  predicate HeldBy(t: Tables, r: int, names: seq<string>) {
    r in t.configfiles && t.configfiles[r].name in names
  }

  lemma {:induction false} RemoveAllTables(t: Tables, names: seq<string>)
    requires Valid(t)
    ensures var t' := RemoveAll(t, names);
            && Valid(t')
            && (forall r :: r in t'.configfiles <==> r in t.configfiles && !HeldBy(t, r, names))
            && (forall r :: r in t'.configfiles ==> t'.configfiles[r] == t.configfiles[r])
            && (forall u :: u in t'.urls <==> u in t.urls && !HeldBy(t, u.sourcefile, names))
    decreases |names|
  {
    if names != [] {
      var init, last := names[..|names| - 1], names[|names| - 1];
      RemoveAllTables(t, init);
      var t1 := RemoveAll(t, init);
      RemoveRefines(t1, last);
      assert forall n :: n in names <==> n in init || n == last;
      if Known(t1, last) {
        var r := KnownRow(t1, last);
        RemoveTables(t1, r, last);
      } else {
        RemoveUnknown(t1, last);
        UnknownName(t1, last);
        assert forall r :: r in t1.configfiles ==> !Holds(t1, r, last);
      }
    }
  }

  /** The largest rowid is that of the dispatcher file. */
  predicate TopIs(t: Tables, dir: string, d: DiskFile) {
    var top := NextRowid(t) - 1;
    top in t.configfiles && t.configfiles[top].name == BuildFilename(dir, d.name)
  }

  lemma TopAfterIndexing(t: Tables, dir: string, d: DiskFile, faults: Faults)
    requires Inv(t) && ToBeIndexed(t, dir, d, faults)
    ensures TopIs(IndexOne(t, dir, d, faults), dir, d)
  {
    var file, es := BuildFilename(dir, d.name), Entries(d.content);
    var t1 := Execute(t, SetTime(file, d.mtime));
    ExecuteKeepsValid(t, SetTime(file, d.mtime));
    InsertFirstSeen(t1, file, es, |es|, FailedInserts(faults, file, |es|));
    assert NextRowid(t) in t1.configfiles && NextRowid(t1) == NextRowid(t) + 1;
  }

  lemma IndexedInTurn(t: Tables, dir: string, listing: seq<DiskFile>, k: nat, faults: Faults)
    requires Inv(t) && DistinctNames(listing) && k < |listing|
    ensures var before := IndexFirst(t, dir, listing, k, faults);
            && Inv(before)
            && (ToBeIndexed(before, dir, listing[k], faults) <==> ToBeIndexed(t, dir, listing[k], faults))
  {
    IndexFirstSeen(t, dir, listing, k, faults);
    IndexFirstKeepsInv(t, dir, listing, k, faults);
    InTurn(t, IndexFirst(t, dir, listing, k, faults), dir, listing, k, faults);
  }

  lemma TopNext(t: Tables, dir: string, listing: seq<DiskFile>, k: nat, faults: Faults)
    requires Inv(t) && DistinctNames(listing) && k < |listing|
    ensures ToBeIndexed(t, dir, listing[k], faults) ==>
            TopIs(IndexFirst(t, dir, listing, k + 1, faults), dir, listing[k])
    ensures !ToBeIndexed(t, dir, listing[k], faults) ==>
            IndexFirst(t, dir, listing, k + 1, faults) == IndexFirst(t, dir, listing, k, faults)
  {
    IndexedInTurn(t, dir, listing, k, faults);
    if ToBeIndexed(t, dir, listing[k], faults) {
      TopAfterIndexing(IndexFirst(t, dir, listing, k, faults), dir, listing[k], faults);
    }
  }

  /** After the first `k` files the largest rowid is that of dispatcher file `m`. */
  ghost predicate TopAfter(t: Tables, dir: string, listing: seq<DiskFile>, k: nat, faults: Faults, m: nat) {
    m < k <= |listing| && IsDispatcherFile(listing[m]) && TopIs(IndexFirst(t, dir, listing, k, faults), dir, listing[m])
  }

  lemma TopTurn(t: Tables, dir: string, listing: seq<DiskFile>, k: nat, faults: Faults, m: nat) returns (m': nat)
    requires Inv(t) && DistinctNames(listing) && k < |listing|
    requires TopAfter(t, dir, listing, k, faults, m) || ToBeIndexed(t, dir, listing[k], faults)
    ensures TopAfter(t, dir, listing, k + 1, faults, m')
  {
    TopNext(t, dir, listing, k, faults);
    m' := if ToBeIndexed(t, dir, listing[k], faults) then k else m;
  }

  /** Once some file was re-indexed, the largest rowid is that of a file on disk. */
  lemma {:induction false} TopIsOnDisk(t: Tables, dir: string, listing: seq<DiskFile>, k: nat, faults: Faults, i: nat)
    returns (m: nat)
    requires Inv(t) && DistinctNames(listing) && i < k <= |listing| && ToBeIndexed(t, dir, listing[i], faults)
    ensures TopAfter(t, dir, listing, k, faults, m)
  {
    m := TopTurn(t, dir, listing, i, faults, i);
    for j := i + 1 to k
      invariant TopAfter(t, dir, listing, j, faults, m)
    {
      m := TopTurn(t, dir, listing, j, faults, m);
    }
  }

  /** Some file that is not removed has a rowid at or above the row's. */
  ghost predicate CoveredWithout(t: Tables, removed: seq<string>, u: UrlRow) {
    exists q :: q in t.configfiles && !HeldBy(t, q, removed) && u.sourcefile <= q
  }

  /** No URL row that outlives the removals lies above every file that does. */
  ghost predicate AllCoveredWithout(t: Tables, removed: seq<string>) {
    forall u :: u in t.urls && !HeldBy(t, u.sourcefile, removed) ==> CoveredWithout(t, removed, u)
  }

  lemma RemoveAllKeepsInv(t: Tables, names: seq<string>)
    requires Inv(t)
    ensures Inv(RemoveAll(t, names)) <==> AllCoveredWithout(t, names)
  {
    RemoveAllTables(t, names);
    var t' := RemoveAll(t, names);
    forall u | u in t'.urls
      ensures u.sourcefile < NextRowid(t') <==> CoveredWithout(t, names, u)
    {
      if u.sourcefile < NextRowid(t') {
        assert NextRowid(t') - 1 in t'.configfiles;
      }
      if q :| q in t.configfiles && !HeldBy(t, q, names) && u.sourcefile <= q {
        assert q in t'.configfiles;
      }
    }
  }

  ghost predicate SomeToBeIndexed(t: Tables, dir: string, listing: seq<DiskFile>, faults: Faults) {
    exists i :: 0 <= i < |listing| && ToBeIndexed(t, dir, listing[i], faults)
  }

  /** A run keeps the rowid invariant exactly if it re-indexes some file, whose fresh rowid then lies above
      every row, or if no URL row that outlives the removals lies above every file that does. */
  lemma UpdateKeepsInv(t: Tables, dir: string, listing: seq<DiskFile>, faults: Faults, removed: seq<string>)
    requires Inv(t) && DistinctNames(listing)
    requires forall n :: n in removed ==> Leftover(t, dir, listing, faults, n)
    ensures Inv(Updated(t, dir, listing, faults, removed)) <==>
            SomeToBeIndexed(t, dir, listing, faults) || AllCoveredWithout(t, removed)
  {
    var t1 := IndexFirst(t, dir, listing, |listing|, faults);
    IndexFirstKeepsInv(t, dir, listing, |listing|, faults);
    RemoveAllKeepsInv(t1, removed);
    if i :| 0 <= i < |listing| && ToBeIndexed(t, dir, listing[i], faults) {
      var m := TopIsOnDisk(t, dir, listing, |listing|, faults, i);
      var top := NextRowid(t1) - 1;
      assert OnDisk(dir, listing, |listing|, t1.configfiles[top].name);
      assert !HeldBy(t1, top, removed);
      assert forall u :: u in t1.urls ==> u.sourcefile <= top;
      assert AllCoveredWithout(t1, removed);
    } else {
      NothingToIndex(t, dir, listing, |listing|, faults);
    }
  }
}
