/** The updater of service/update-directory.c: bringing the index in line with one directory. */
module UpdateDirectory {
  import opened Text
  import opened SqlLike
  import opened UrlTables
  import opened Resolution
  import opened UrlDb

  // ---- What is on disk ----

  /** One element of the JSON array. */
  datatype Entry = NotAnObject | Object(protocol: Option<string>, domainSuffix: Option<string>)

  datatype Content = Unparsable | NotAnArray | UrlArray(entries: seq<Entry>)

  datatype DiskFile = DiskFile(name: string, mtime: int, content: Content)

  /** Which database calls of a run fail. Inserts are named by file and position in the array. */
  datatype Faults = Faults(
    list: bool, getTime: set<string>, setTime: set<string>, insert: set<(string, int)>,
    remove: string -> RemovalFaults)
  {
    ghost predicate None() {
      !list && getTime == {} && setTime == {} && insert == {} && forall n :: remove(n).None()
    }

    /** Every removal that has to roll back can. */
    ghost predicate RollbackWorks() {
      forall n :: remove(n).None() || !remove(n).rollback
    }
  }

  /** What the path turns out to be: no directory any more, one that cannot be opened, or a directory with files. */
  datatype Directory = NotADirectory | CannotOpen | Files(listing: seq<DiskFile>)

  ghost predicate DistinctNames(listing: seq<DiskFile>) {
    forall i, j :: 0 <= i < j < |listing| ==> listing[i].name != listing[j].name
  }

  /** The names readdir can return. */
  predicate IsListing(listing: seq<DiskFile>) {
    forall d :: d in listing ==> !Contains(d.name, '/')
  }

  predicate IsDispatcherFile(d: DiskFile) {
    HasSuffix(d.name, DISPATCHER_SUFFIX)
  }

  /** The URL an array element asks for, if the updater accepts it. */
  function AcceptedUrl(e: Entry): Option<Url> {
    if e.NotAnObject? || e.protocol.None? then None
    else if e.protocol.value == "intent" && e.domainSuffix.None? then None
    else Some(Url(e.protocol.value, OrEmpty(e.domainSuffix)))
  }

  /** By its members, the element asks for this URL. */
  predicate Asks(e: Entry, p: string, s: string) {
    && e.Object? && e.protocol == Some(p)
    && (e.domainSuffix == Some(s) || (e.domainSuffix.None? && s == "" && p != "intent"))
  }

  predicate ContentAsks(c: Content, p: string, s: string) {
    c.UrlArray? && exists e :: e in c.entries && Asks(e, p, s)
  }

  lemma AcceptedAsks(e: Entry, p: string, s: string)
    ensures AcceptedUrl(e) == Some(Url(p, s)) <==> Asks(e, p, s)
  {
  }

  function Entries(c: Content): seq<Entry> {
    if c.UrlArray? then c.entries else []
  }

  /** The accepted URLs of the first `k` elements, leaving out positions whose insert fails. */
  function AcceptedUrls(entries: seq<Entry>, k: nat, failing: set<int>): set<Url>
    requires k <= |entries|
  {
    set i | 0 <= i < k && i !in failing && AcceptedUrl(entries[i]).Some? :: AcceptedUrl(entries[i]).value
  }

  lemma AcceptedByMembers(entries: seq<Entry>, k: nat, failing: set<int>, p: string, s: string)
    requires k <= |entries|
    ensures Url(p, s) in AcceptedUrls(entries, k, failing) <==>
            exists i :: 0 <= i < k && i !in failing && Asks(entries[i], p, s)
  {
    forall i | 0 <= i < k {
      AcceptedAsks(entries[i], p, s);
    }
    if i :| 0 <= i < k && i !in failing && Asks(entries[i], p, s) {
      assert AcceptedUrl(entries[i]).value in AcceptedUrls(entries, k, failing);
    }
  }

  lemma AcceptedByContent(c: Content, p: string, s: string)
    ensures Url(p, s) in AcceptedUrls(Entries(c), |Entries(c)|, {}) <==> ContentAsks(c, p, s)
  {
    var es := Entries(c);
    AcceptedByMembers(es, |es|, {}, p, s);
    if e :| e in es && Asks(e, p, s) {
      var i :| 0 <= i < |es| && es[i] == e;
    }
  }

  // ---- What the updater does to the tables ----

  function InsertFirst(t: Tables, file: string, entries: seq<Entry>, k: nat, failing: set<int>): Tables
    requires k <= |entries|
  {
    if k == 0 then t
    else InsertOne(InsertFirst(t, file, entries, k - 1, failing), file, entries[k - 1], k - 1 in failing)
  }

  function InsertOne(t: Tables, file: string, e: Entry, fails: bool): Tables {
    var url := AcceptedUrl(e);
    if url.None? || fails then t else Execute(t, InsertUrl(file, url.value.protocol, url.value.suffix))
  }

  function FailedInserts(faults: Faults, file: string, n: nat): set<int> {
    set i | 0 <= i < n && (file, i) in faults.insert
  }

  /** The check of one file: unknown, unreadable or older in the index than on disk. */
  ghost predicate OutOfDate(e: Option<FileEntry>, mtime: int, unreadable: bool) {
    unreadable || e.None? || mtime > Wrap32(e.value.time)
  }

  ghost predicate Reindexes(e: Option<FileEntry>, file: string, d: DiskFile, faults: Faults) {
    OutOfDate(e, d.mtime, file in faults.getTime) && file !in faults.setTime
  }

  /** A run that starts from these tables re-indexes the file. */
  ghost predicate ToBeIndexed(t: Tables, dir: string, d: DiskFile, faults: Faults) {
    var file := BuildFilename(dir, d.name);
    IsDispatcherFile(d) && Reindexes(Seen(t, file), file, d, faults)
  }

  ghost function IndexFile(t: Tables, file: string, d: DiskFile, faults: Faults): Tables {
    if Reindexes(Seen(t, file), file, d, faults) then
      var es := Entries(d.content);
      InsertFirst(Execute(t, SetTime(file, d.mtime)), file, es, |es|, FailedInserts(faults, file, |es|))
    else t
  }

  /** One turn of the directory loop. */
  ghost function IndexOne(t: Tables, dir: string, d: DiskFile, faults: Faults): Tables {
    if IsDispatcherFile(d) then IndexFile(t, BuildFilename(dir, d.name), d, faults) else t
  }

  ghost function IndexFirst(t: Tables, dir: string, listing: seq<DiskFile>, k: nat, faults: Faults): Tables
    requires k <= |listing|
  {
    if k == 0 then t
    else IndexOne(IndexFirst(t, dir, listing, k - 1, faults), dir, listing[k - 1], faults)
  }

  function RemoveAll(t: Tables, names: seq<string>): Tables {
    if names == [] then t else Remove(RemoveAll(t, names[..|names| - 1]), names[|names| - 1])
  }

  ghost predicate OnDisk(dir: string, listing: seq<DiskFile>, k: nat, n: string)
    requires k <= |listing|
  {
    exists i :: 0 <= i < k && IsDispatcherFile(listing[i]) && n == BuildFilename(dir, listing[i].name)
  }

  /** Known files under the LIKE pattern that are not on disk any more. */
  ghost predicate Leftover(t: Tables, dir: string, listing: seq<DiskFile>, faults: Faults, n: string) {
    !faults.list && Known(t, n) && Like(n, dir + "%") && !OnDisk(dir, listing, |listing|, n)
  }

  /** Some element asks for the URL and its insert works. */
  predicate Stored(c: Content, failing: set<(string, int)>, n: string, p: string, s: string) {
    c.UrlArray? && exists i :: 0 <= i < |c.entries| && (n, i) !in failing && Asks(c.entries[i], p, s)
  }

  /** What a run owes a dispatcher file of the directory. An entry at least as new as the file, or one whose time
      cannot be set, stays as it is. Else the entry gets the file's time and shows all URLs its content asks for and
      whose inserts work, and, unless stale rows were lying in wait, no others. */
  ghost predicate FollowsFile(t: Tables, t': Tables, dir: string, d: DiskFile, faults: Faults) {
    var n := BuildFilename(dir, d.name);
    && (n !in faults.setTime ==> Known(t', n))
    && if n in faults.setTime || (Known(t, n) && n !in faults.getTime && d.mtime <= Wrap32(TimeOf(t, n)))
       then Seen(t', n) == Seen(t, n)
       else
         && TimeOf(t', n) == Wrap32(d.mtime)
         && (forall p, s :: Stored(d.content, faults.insert, n, p, s) ==> Url(p, s) in Visible(t', n))
         && (Inv(t) ==> forall p, s :: Url(p, s) in Visible(t', n) ==> Stored(d.content, faults.insert, n, p, s))
  }

  // ---- service/update-directory.c ----

  /** An element that is an object with a protocol, and for intents with a suffix, adds exactly its URL to a known
      file; a missing suffix counts as empty. Any other element, and a failing insert, changes nothing. */
  method EachUrl(db: Connection, filename: string, value: Entry, fails: bool)
    modifies db
    ensures db.Current() == InsertOne(old(db.Current()), filename, value, fails)
    ensures old(db.pending).None? ==> db.pending.None?
    ensures Valid(old(db.Current())) ==>
            var t := old(db.Current());
            forall n :: Seen(db.Current(), n) ==
              if n == filename && Seen(t, n).Some? && !fails && value.Object? && value.protocol.Some?
                 && (value.protocol.value == "intent" ==> value.domainSuffix.Some?)
              then
                var suffix := if value.domainSuffix.Some? then value.domainSuffix.value else "";
                Some(FileEntry(Seen(t, n).value.time, Seen(t, n).value.urls + {Url(value.protocol.value, suffix)}))
              else Seen(t, n)
  {
    if value.NotAnObject? {
      return;
    }
    if value.protocol.None? {
      return;
    }
    if value.protocol.value == "intent" && value.domainSuffix.None? {
      return;
    }
    ghost var t := db.Current();
    var inserted := db.InsertUrl(filename, value.protocol.value, value.domainSuffix, fails);
    if inserted && Valid(t) {
      ghost var suffix := if value.domainSuffix.Some? then value.domainSuffix.value else "";
      ghost var st := InsertUrl(filename, value.protocol.value, suffix);
      StatementRefines(t, st);
      assert Refines(t, st);
    }
  }

  /** The URLs a file gains are those its array's elements ask for by their members, except where inserts fail. */
  method InsertUrlsFromFile(db: Connection, filename: string, content: Content, failing: set<int>)
    modifies db
    ensures db.Current() == InsertFirst(old(db.Current()), filename, Entries(content), |Entries(content)|, failing)
    ensures old(db.pending).None? ==> db.pending.None?
    ensures !content.UrlArray? ==> db.Current() == old(db.Current())
    ensures Valid(old(db.Current())) && Known(old(db.Current()), filename) && content.UrlArray? ==>
            && Known(db.Current(), filename)
            && forall p, s :: Url(p, s) in Seen(db.Current(), filename).value.urls <==>
                 || Url(p, s) in Seen(old(db.Current()), filename).value.urls
                 || exists i :: 0 <= i < |content.entries| && i !in failing && Asks(content.entries[i], p, s)
  {
    if content.Unparsable? || content.NotAnArray? {
      return;
    }
    var i := 0;
    while i < |content.entries|
      invariant 0 <= i <= |content.entries|
      invariant db.Current() == InsertFirst(old(db.Current()), filename, content.entries, i, failing)
      invariant old(db.pending).None? ==> db.pending.None?
    {
      EachUrl(db, filename, content.entries[i], i in failing);
      i := i + 1;
    }
    if Valid(old(db.Current())) {
      InsertFirstSeen(old(db.Current()), filename, content.entries, |content.entries|, failing);
      forall p, s {
        AcceptedByMembers(content.entries, |content.entries|, failing, p, s);
      }
    }
  }

  method CheckFileOutOfDate(db: Connection, filename: string, mtime: int, getFails: bool, setFails: bool)
    returns (outOfDate: bool)
    requires Valid(db.Current())
    modifies db
    ensures outOfDate <==> OutOfDate(Seen(old(db.Current()), filename), mtime, getFails) && !setFails
    ensures outOfDate <==>
            && (getFails || !Known(old(db.Current()), filename) || mtime > Wrap32(TimeOf(old(db.Current()), filename)))
            && !setFails
    ensures db.Current() ==
            if outOfDate then Execute(old(db.Current()), SetTime(filename, mtime)) else old(db.Current())
    ensures old(db.pending).None? ==> db.pending.None?
  {
    var found, dbtime := db.GetFileModificationTime(filename, getFails);
    if found {
      if mtime <= dbtime {
        return false;
      }
    }
    var stored := db.SetFileModificationTime(filename, mtime, setFails);
    if !stored {
      return false;
    }
    return true;
  }

  /** The whole run, up to the removals. A directory that cannot be opened ends it before any change.
      The names really removed are returned, in the order the hash table gave them. */
  method Update(db: Connection, dirname: string, directory: Directory, faults: Faults) returns (removed: seq<string>)
    requires Valid(db.committed) && db.pending.None?
    modifies db
    ensures faults.RollbackWorks() ==> db.pending.None?
    ensures directory.CannotOpen? ==> removed == [] && db.committed == old(db.committed) && db.pending.None?
    ensures directory.NotADirectory? ==>
            && db.committed == Updated(old(db.committed), dirname, [], faults, removed)
            && RemovesAsFaultsAllow(old(db.committed), dirname, [], faults, removed)
    ensures directory.Files? ==>
            && db.committed == Updated(old(db.committed), dirname, directory.listing, faults, removed)
            && RemovesAsFaultsAllow(old(db.committed), dirname, directory.listing, faults, removed)
    // when nothing fails: the names removed
    ensures faults.None() && directory.NotADirectory? ==>
            forall n :: n in removed <==> Known(old(db.committed), n) && Like(n, dirname + "%")
    ensures faults.None() && directory.Files? ==>
            forall n :: n in removed <==>
              && Known(old(db.committed), n) && Like(n, dirname + "%")
              && forall d :: d in directory.listing && HasSuffix(d.name, ".url-dispatcher") ==>
                             n != BuildFilename(dirname, d.name)
    // whatever fails: every dispatcher file of the directory
    ensures directory.Files? && DistinctNames(directory.listing) ==>
            forall d :: d in directory.listing && HasSuffix(d.name, ".url-dispatcher") ==>
                        FollowsFile(old(db.committed), db.committed, dirname, d, faults)
  {
    removed := [];
    ghost var t0 := db.committed;
    ghost var listing := if directory.Files? then directory.listing else [];
    var startingdb: set<string> := {};
    var files := db.FilesForDir(Some(dirname), faults.list);
    var c := 0;
    while c < |files|
      invariant 0 <= c <= |files|
      invariant forall n :: n in startingdb <==> n in files[..c]
    {
      startingdb := startingdb + {files[c]};
      c := c + 1;
    }
    assert files[..c] == files;

    if !directory.NotADirectory? {
      if directory.CannotOpen? {
        return;
      }
      var i := 0;
      while i < |directory.listing|
        invariant 0 <= i <= |directory.listing|
        invariant db.pending.None? && Valid(db.committed)
        invariant db.committed == IndexFirst(t0, dirname, listing, i, faults)
        invariant forall n :: n in startingdb <==> n in files && !OnDisk(dirname, listing, i, n)
      {
        var d := directory.listing[i];
        if HasSuffix(d.name, DISPATCHER_SUFFIX) {
          var fullname := BuildFilename(dirname, d.name);
          var outOfDate :=
            CheckFileOutOfDate(db, fullname, d.mtime, fullname in faults.getTime, fullname in faults.setTime);
          if outOfDate {
            InsertUrlsFromFile(db, fullname, d.content, FailedInserts(faults, fullname, |Entries(d.content)|));
          }
          startingdb := startingdb - {fullname};
        }
        OnDiskNext(dirname, listing, i);
        IndexFirstKeepsValid(t0, dirname, listing, i + 1, faults);
        i := i + 1;
      }
    }

    assert forall n :: n in startingdb <==> Leftover(t0, dirname, listing, faults, n);
    removed := RemoveFiles(db, startingdb, faults);
    if faults.None() {
      RemovedByName(t0, dirname, listing, faults, removed);
    }
    if DistinctNames(listing) {
      UpdateByContent(t0, dirname, listing, faults, removed);
    }
  }

  /** The removals a run makes: leftovers only, each of them whose own calls work if rollback works. */
  ghost predicate RemovesAsFaultsAllow(t: Tables, dir: string, listing: seq<DiskFile>, faults: Faults,
                                       removed: seq<string>)
  {
    && (forall n :: n in removed ==> Leftover(t, dir, listing, faults, n) && faults.remove(n).None())
    && (faults.RollbackWorks() ==>
        forall n :: Leftover(t, dir, listing, faults, n) && faults.remove(n).None() ==> n in removed)
    && (faults.None() ==> RemovesLeftovers(t, dir, listing, faults, removed))
  }

  /** Removes every name of the table, in the order the table gives them; a removal that fails is only reported. */
  method RemoveFiles(db: Connection, names: set<string>, faults: Faults) returns (removed: seq<string>)
    requires db.pending.None?
    modifies db
    ensures db.committed == RemoveAll(old(db.committed), removed)
    ensures forall n :: n in removed ==> n in names && faults.remove(n).None()
    ensures faults.RollbackWorks() ==>
            db.pending.None? && forall n :: n in names && faults.remove(n).None() ==> n in removed
  {
    removed := [];
    var ahead := names;
    while ahead != {}
      invariant ahead <= names
      invariant db.committed == RemoveAll(old(db.committed), removed)
      invariant forall n :: n in removed ==> n in names - ahead && faults.remove(n).None()
      invariant faults.RollbackWorks() ==>
                db.pending.None? && forall n :: n in names - ahead && faults.remove(n).None() ==> n in removed
    {
      var n :| n in ahead;
      ahead := ahead - {n};
      var ok := db.RemoveFile(n, faults.remove(n));
      if ok {
        assert (removed + [n])[..|removed|] == removed;
        removed := removed + [n];
      }
    }
  }

  // ---- Proofs ----

  lemma OnDiskNext(dir: string, listing: seq<DiskFile>, k: nat)
    requires k < |listing|
    ensures forall n :: OnDisk(dir, listing, k + 1, n) <==>
                        OnDisk(dir, listing, k, n)
                        || (IsDispatcherFile(listing[k]) && n == BuildFilename(dir, listing[k].name))
  {
    forall n | OnDisk(dir, listing, k, n)
      ensures OnDisk(dir, listing, k + 1, n)
    {
      var i :| 0 <= i < k && IsDispatcherFile(listing[i]) && n == BuildFilename(dir, listing[i].name);
    }
  }

  lemma {:induction false} InsertFirstSeen(t: Tables, file: string, entries: seq<Entry>, k: nat, failing: set<int>)
    requires Valid(t) && k <= |entries|
    ensures var t' := InsertFirst(t, file, entries, k, failing);
            && Valid(t') && (Inv(t) ==> Inv(t')) && t'.configfiles == t.configfiles
            && forall n :: Seen(t', n) ==
                 if n == file && Seen(t, n).Some?
                 then Some(Seen(t, n).value.(urls := Seen(t, n).value.urls + AcceptedUrls(entries, k, failing)))
                 else Seen(t, n)
    decreases k
  {
    if k > 0 {
      InsertFirstSeen(t, file, entries, k - 1, failing);
      var before, e := InsertFirst(t, file, entries, k - 1, failing), entries[k - 1];
      var url := AcceptedUrl(e);
      if url.Some? && k - 1 !in failing {
        var st := InsertUrl(file, url.value.protocol, url.value.suffix);
        StatementRefines(before, st);
        ExecuteKeepsValid(before, st);
        if Inv(t) {
          StatementKeepsInv(before, st);
        }
        var shorter, longer := AcceptedUrls(entries, k - 1, failing), AcceptedUrls(entries, k, failing);
        assert longer == shorter + {url.value};
        assert Refines(before, st);
        assert forall s: set<Url> :: s + longer == (s + shorter) + {url.value};
      } else {
        assert AcceptedUrls(entries, k, failing) == AcceptedUrls(entries, k - 1, failing);
      }
    } else {
      assert AcceptedUrls(entries, 0, failing) == {};
      assert forall s: set<Url> :: s + {} == s;
    }
  }

  /** After the set-time and `k` elements a reader sees exactly the accepted URLs of those `k` elements,
      and nothing else has moved: at no point are old and new URLs of the file seen together. */
  lemma NoMixedVersions(t: Tables, file: string, mtime: int, entries: seq<Entry>, k: nat, failing: set<int>)
    requires Inv(t) && k <= |entries|
    ensures var t' := InsertFirst(Execute(t, SetTime(file, mtime)), file, entries, k, failing);
            && Inv(t')
            && Seen(t', file) == Some(FileEntry(Wrap32(mtime), AcceptedUrls(entries, k, failing)))
            && forall n :: n != file ==> Seen(t', n) == Seen(t, n)
  {
    var st := SetTime(file, mtime);
    StatementRefines(t, st);
    StatementKeepsInv(t, st);
    assert Refines(t, st);
    InsertFirstSeen(Execute(t, st), file, entries, k, failing);
    assert {} + AcceptedUrls(entries, k, failing) == AcceptedUrls(entries, k, failing);
  }

  // ---- Indexing from any tables, orphans anywhere ----

  /** What a re-index leaves for the file, when orphan rows with these URLs wait at its fresh rowid. */
  ghost function EntryAfterIndexing(e: Option<FileEntry>, file: string, d: DiskFile, faults: Faults, adopted: set<Url>)
    : Option<FileEntry>
  {
    if Reindexes(e, file, d, faults) then
      var es := Entries(d.content);
      Some(FileEntry(Wrap32(d.mtime), adopted + AcceptedUrls(es, |es|, FailedInserts(faults, file, |es|))))
    else e
  }

  /** How many of the first `k` files a run from these tables re-indexes. */
  ghost function Reindexed(t: Tables, dir: string, listing: seq<DiskFile>, k: nat, faults: Faults): nat
    requires k <= |listing|
  {
    if k == 0 then 0
    else Reindexed(t, dir, listing, k - 1, faults) + if ToBeIndexed(t, dir, listing[k - 1], faults) then 1 else 0
  }

  /** The URLs of the orphan rows at the rowid that a run from these tables hands to file `k`, if it re-indexes it. */
  ghost function Adopted(t: Tables, dir: string, listing: seq<DiskFile>, k: nat, faults: Faults): set<Url>
    requires k <= |listing|
  {
    UrlsAt(t, NextRowid(t) + Reindexed(t, dir, listing, k, faults))
  }

  lemma NothingAdopted(t: Tables, dir: string, listing: seq<DiskFile>, k: nat, faults: Faults)
    requires Inv(t) && k <= |listing|
    ensures Adopted(t, dir, listing, k, faults) == {}
  {
  }

  /** Inserts only add rows at rowids in use. */
  lemma {:induction false} InsertFirstOrphans(t: Tables, file: string, entries: seq<Entry>, k: nat, failing: set<int>)
    requires k <= |entries|
    ensures var t' := InsertFirst(t, file, entries, k, failing);
            && t'.configfiles == t.configfiles
            && forall r :: r !in t.configfiles ==> UrlsAt(t', r) == UrlsAt(t, r)
    decreases k
  {
    if k > 0 {
      InsertFirstOrphans(t, file, entries, k - 1, failing);
      var before, e := InsertFirst(t, file, entries, k - 1, failing), entries[k - 1];
      InsertOneOrphans(before, file, e, k - 1 in failing);
    }
  }

  lemma InsertOneOrphans(t: Tables, file: string, e: Entry, fails: bool)
    ensures var t' := InsertOne(t, file, e, fails);
            && t'.configfiles == t.configfiles
            && forall r :: r !in t.configfiles ==> UrlsAt(t', r) == UrlsAt(t, r)
  {
    var t' := InsertOne(t, file, e, fails);
    forall r | r !in t.configfiles
      ensures UrlsAt(t', r) == UrlsAt(t, r)
    {
      assert forall u :: u in t'.urls && u.sourcefile == r ==> u in t.urls;
    }
  }

  /** The rowids a run has yet to hand out, and the orphans that wait there. */
  ghost predicate OrphansKept(t: Tables, t': Tables, handedOut: nat) {
    && NextRowid(t') == NextRowid(t) + handedOut
    && forall r :: r >= NextRowid(t') ==> UrlsAt(t', r) == UrlsAt(t, r)
  }

  lemma SetTimeOrphans(t: Tables, file: string, time: int)
    requires Valid(t)
    ensures OrphansKept(t, Execute(t, SetTime(file, time)), 1)
  {
    var t' := Execute(t, SetTime(file, time));
    assert NextRowid(t) in t'.configfiles;
  }

  lemma ReindexSeen(t: Tables, file: string, d: DiskFile, faults: Faults)
    requires Valid(t) && Reindexes(Seen(t, file), file, d, faults)
    ensures var t' := IndexFile(t, file, d, faults);
            && Valid(t') && OrphansKept(t, t', 1)
            && Seen(t', file) == EntryAfterIndexing(Seen(t, file), file, d, faults, UrlsAt(t, NextRowid(t)))
            && forall n :: n != file ==> Seen(t', n) == Seen(t, n)
  {
    var st, es := SetTime(file, d.mtime), Entries(d.content);
    var t1, failing := Execute(t, st), FailedInserts(faults, file, |es|);
    ExecuteKeepsValid(t, st);
    SetTimeSeen(t, file, d.mtime);
    SetTimeOrphans(t, file, d.mtime);
    InsertFirstSeen(t1, file, es, |es|, failing);
    InsertFirstOrphans(t1, file, es, |es|, failing);
    forall n | n != file {
      OthersUnchanged(t, st, n);
    }
  }

  lemma {:induction false} IndexFirstKeepsValid(t: Tables, dir: string, listing: seq<DiskFile>, k: nat, faults: Faults)
    requires Valid(t) && k <= |listing|
    ensures Valid(IndexFirst(t, dir, listing, k, faults))
    decreases k
  {
    if k > 0 {
      IndexFirstKeepsValid(t, dir, listing, k - 1, faults);
      var before, d := IndexFirst(t, dir, listing, k - 1, faults), listing[k - 1];
      if ToBeIndexed(before, dir, d, faults) {
        ReindexSeen(before, BuildFilename(dir, d.name), d, faults);
      }
    }
  }

  lemma {:induction false} IndexFirstKeepsInv(t: Tables, dir: string, listing: seq<DiskFile>, k: nat, faults: Faults)
    requires Inv(t) && k <= |listing|
    ensures Inv(IndexFirst(t, dir, listing, k, faults))
    decreases k
  {
    if k > 0 {
      IndexFirstKeepsInv(t, dir, listing, k - 1, faults);
      var before, d := IndexFirst(t, dir, listing, k - 1, faults), listing[k - 1];
      var file, es := BuildFilename(dir, d.name), Entries(d.content);
      NoMixedVersions(before, file, d.mtime, es, |es|, FailedInserts(faults, file, |es|));
    }
  }

  /** Between `t` and `t'` the first `k` files of the listing were brought up to date. */
  ghost predicate FilesIndexed(t: Tables, t': Tables, dir: string, listing: seq<DiskFile>, k: nat, faults: Faults)
    requires k <= |listing|
  {
    forall i :: 0 <= i < k && IsDispatcherFile(listing[i]) ==> IndexedAt(t, t', dir, listing, i, faults)
  }

  ghost predicate IndexedAt(t: Tables, t': Tables, dir: string, listing: seq<DiskFile>, i: nat, faults: Faults)
    requires i < |listing|
  {
    var file := BuildFilename(dir, listing[i].name);
    Seen(t', file) ==
    EntryAfterIndexing(Seen(t, file), file, listing[i], faults, Adopted(t, dir, listing, i, faults))
  }

  /** Nothing moved but the first `k` files on disk. */
  ghost predicate OthersSame(t: Tables, t': Tables, dir: string, listing: seq<DiskFile>, k: nat)
    requires k <= |listing|
  {
    forall n :: !OnDisk(dir, listing, k, n) ==> Seen(t', n) == Seen(t, n)
  }

  ghost predicate SameBut(t: Tables, t': Tables, file: string) {
    forall n :: n != file ==> Seen(t', n) == Seen(t, n)
  }

  lemma NotYetOnDisk(dir: string, listing: seq<DiskFile>, k: nat)
    requires DistinctNames(listing) && k < |listing|
    ensures forall i :: 0 <= i < k ==> BuildFilename(dir, listing[i].name) != BuildFilename(dir, listing[k].name)
    ensures !OnDisk(dir, listing, k, BuildFilename(dir, listing[k].name))
  {
    forall i | 0 <= i < k
      ensures BuildFilename(dir, listing[i].name) != BuildFilename(dir, listing[k].name)
    {
      if BuildFilename(dir, listing[i].name) == BuildFilename(dir, listing[k].name) {
        BuildFilenameInjective(dir, listing[i].name, listing[k].name);
      }
    }
  }

  lemma OrphansKeptOn(t: Tables, before: Tables, t': Tables, m: nat, n: nat)
    requires OrphansKept(t, before, m) && OrphansKept(before, t', n)
    ensures OrphansKept(t, t', m + n)
  {
  }

  lemma FilesIndexedOn(t: Tables, before: Tables, t': Tables, dir: string, listing: seq<DiskFile>, k: nat,
                       faults: Faults)
    requires DistinctNames(listing) && k < |listing| && FilesIndexed(t, before, dir, listing, k, faults)
    requires SameBut(before, t', BuildFilename(dir, listing[k].name))
    requires IsDispatcherFile(listing[k]) ==> IndexedAt(t, t', dir, listing, k, faults)
    ensures FilesIndexed(t, t', dir, listing, k + 1, faults)
  {
    NotYetOnDisk(dir, listing, k);
    forall i | 0 <= i < k && IsDispatcherFile(listing[i])
      ensures IndexedAt(t, t', dir, listing, i, faults)
    {
      assert IndexedAt(t, before, dir, listing, i, faults);
    }
  }

  lemma OthersSameOn(t: Tables, before: Tables, t': Tables, dir: string, listing: seq<DiskFile>, k: nat)
    requires k < |listing| && OthersSame(t, before, dir, listing, k)
    requires t' == before || (IsDispatcherFile(listing[k]) && SameBut(before, t', BuildFilename(dir, listing[k].name)))
    ensures OthersSame(t, t', dir, listing, k + 1)
  {
    OnDiskNext(dir, listing, k);
  }

  ghost predicate Indexed(t: Tables, t': Tables, dir: string, listing: seq<DiskFile>, k: nat, faults: Faults)
    requires k <= |listing|
  {
    && Valid(t')
    && OrphansKept(t, t', Reindexed(t, dir, listing, k, faults))
    && FilesIndexed(t, t', dir, listing, k, faults)
    && OthersSame(t, t', dir, listing, k)
  }

  /** A file is looked at with the entry it had when the run began, and handed the rowid that was due then. */
  lemma InTurn(t: Tables, before: Tables, dir: string, listing: seq<DiskFile>, k: nat, faults: Faults)
    requires DistinctNames(listing) && k < |listing| && Indexed(t, before, dir, listing, k, faults)
    ensures var file := BuildFilename(dir, listing[k].name);
            && Seen(before, file) == Seen(t, file)
            && UrlsAt(before, NextRowid(before)) == Adopted(t, dir, listing, k, faults)
            && (ToBeIndexed(before, dir, listing[k], faults) <==> ToBeIndexed(t, dir, listing[k], faults))
  {
    NotYetOnDisk(dir, listing, k);
  }

  /** One turn of the loop on a file that is re-indexed. */
  lemma IndexedNext(t: Tables, before: Tables, dir: string, listing: seq<DiskFile>, k: nat, faults: Faults)
    requires DistinctNames(listing) && k < |listing| && ToBeIndexed(t, dir, listing[k], faults)
    requires Indexed(t, before, dir, listing, k, faults)
    ensures Indexed(t, IndexOne(before, dir, listing[k], faults), dir, listing, k + 1, faults)
  {
    var file := BuildFilename(dir, listing[k].name);
    var t' := IndexOne(before, dir, listing[k], faults);
    InTurn(t, before, dir, listing, k, faults);
    ReindexSeen(before, file, listing[k], faults);
    assert SameBut(before, t', file);
    assert IndexedAt(t, t', dir, listing, k, faults);
    OrphansKeptOn(t, before, t', Reindexed(t, dir, listing, k, faults), 1);
    FilesIndexedOn(t, before, t', dir, listing, k, faults);
    OthersSameOn(t, before, t', dir, listing, k);
  }

  /** One turn of the loop on any other file. */
  lemma IndexedSkip(t: Tables, before: Tables, dir: string, listing: seq<DiskFile>, k: nat, faults: Faults)
    requires DistinctNames(listing) && k < |listing| && !ToBeIndexed(t, dir, listing[k], faults)
    requires Indexed(t, before, dir, listing, k, faults)
    ensures IndexOne(before, dir, listing[k], faults) == before && Indexed(t, before, dir, listing, k + 1, faults)
  {
    InTurn(t, before, dir, listing, k, faults);
    FilesIndexedOn(t, before, before, dir, listing, k, faults);
    OthersSameOn(t, before, before, dir, listing, k);
  }

  lemma IndexedTurn(t: Tables, dir: string, listing: seq<DiskFile>, k: nat, faults: Faults)
    requires DistinctNames(listing) && k < |listing|
    requires Indexed(t, IndexFirst(t, dir, listing, k, faults), dir, listing, k, faults)
    ensures Indexed(t, IndexFirst(t, dir, listing, k + 1, faults), dir, listing, k + 1, faults)
  {
    var before := IndexFirst(t, dir, listing, k, faults);
    if ToBeIndexed(t, dir, listing[k], faults) {
      IndexedNext(t, before, dir, listing, k, faults);
    } else {
      IndexedSkip(t, before, dir, listing, k, faults);
    }
  }

  lemma NoneIndexed(t: Tables, dir: string, listing: seq<DiskFile>, faults: Faults)
    requires Valid(t)
    ensures Indexed(t, t, dir, listing, 0, faults)
  {
  }

  /** Indexing brings every file on disk up to date and leaves every other name alone. */
  lemma {:induction false} IndexFirstSeen(t: Tables, dir: string, listing: seq<DiskFile>, k: nat, faults: Faults)
    requires Valid(t) && DistinctNames(listing) && k <= |listing|
    ensures Indexed(t, IndexFirst(t, dir, listing, k, faults), dir, listing, k, faults)
  {
    NoneIndexed(t, dir, listing, faults);
    for i := 0 to k
      invariant Indexed(t, IndexFirst(t, dir, listing, i, faults), dir, listing, i, faults)
    {
      IndexedTurn(t, dir, listing, i, faults);
    }
  }

  /** With no file to re-index, indexing is the identity. */
  lemma {:induction false} NothingToIndex(t: Tables, dir: string, listing: seq<DiskFile>, k: nat, faults: Faults)
    requires k <= |listing|
    requires forall i :: 0 <= i < |listing| ==> !ToBeIndexed(t, dir, listing[i], faults)
    ensures IndexFirst(t, dir, listing, k, faults) == t
    decreases k
  {
    if k > 0 {
      NothingToIndex(t, dir, listing, k - 1, faults);
      assert !ToBeIndexed(t, dir, listing[k - 1], faults);
    }
  }

  lemma {:induction false} RemoveAllSeen(t: Tables, names: seq<string>)
    requires Valid(t)
    ensures Valid(RemoveAll(t, names))
    ensures forall n :: Seen(RemoveAll(t, names), n) == if n in names then None else Seen(t, n)
    decreases |names|
  {
    if names != [] {
      var init, last := names[..|names| - 1], names[|names| - 1];
      RemoveAllSeen(t, init);
      RemoveRefines(RemoveAll(t, init), last);
      assert forall n :: n in names <==> n in init || n == last;
    }
  }

  /** The state after a run, given the names it removed. */
  ghost function Updated(t: Tables, dir: string, listing: seq<DiskFile>, faults: Faults, removed: seq<string>): Tables {
    RemoveAll(IndexFirst(t, dir, listing, |listing|, faults), removed)
  }

  /** A run with any faults from any tables, file by file: files on disk are brought up to date unless their
      own calls fail, removed leftovers are gone, and every other name keeps its time and URLs. */
  lemma UpdateSeen(t: Tables, dir: string, listing: seq<DiskFile>, faults: Faults, removed: seq<string>)
    requires Valid(t) && DistinctNames(listing)
    requires forall n :: n in removed ==> Leftover(t, dir, listing, faults, n)
    ensures var t' := Updated(t, dir, listing, faults, removed);
            && Valid(t')
            && (forall i :: 0 <= i < |listing| && IsDispatcherFile(listing[i]) ==>
                  IndexedAt(t, t', dir, listing, i, faults))
            && (forall n :: !OnDisk(dir, listing, |listing|, n) ==>
                  Seen(t', n) == if n in removed then None else Seen(t, n))
  {
    IndexFirstSeen(t, dir, listing, |listing|, faults);
    RemoveAllSeen(IndexFirst(t, dir, listing, |listing|, faults), removed);
    var t1 := IndexFirst(t, dir, listing, |listing|, faults);
    forall i | 0 <= i < |listing| && IsDispatcherFile(listing[i])
      ensures IndexedAt(t, RemoveAll(t1, removed), dir, listing, i, faults)
    {
      assert OnDisk(dir, listing, |listing|, BuildFilename(dir, listing[i].name));
      assert IndexedAt(t, t1, dir, listing, i, faults);
    }
  }

  /** The removals of a run in which no call fails. */
  ghost predicate RemovesLeftovers(t: Tables, dir: string, listing: seq<DiskFile>, faults: Faults,
                                   removed: seq<string>)
  {
    faults.None() && forall n :: n in removed <==> Leftover(t, dir, listing, faults, n)
  }

  /** One complete successful run, from any tables: exactly the names outside `dir%` and the dispatcher files on
      disk are known. Out-of-date files show their accepted entries and what orphans wait at their fresh rowids;
      everything else is as it was. */
  lemma SyncFromAnyTables(t: Tables, dir: string, listing: seq<DiskFile>, faults: Faults, removed: seq<string>)
    requires Valid(t) && DistinctNames(listing)
    requires RemovesLeftovers(t, dir, listing, faults, removed)
    ensures var t' := Updated(t, dir, listing, faults, removed);
            && Valid(t')
            && (forall n :: Known(t', n) <==>
                  (Known(t, n) && !Like(n, dir + "%")) || OnDisk(dir, listing, |listing|, n))
            && (forall i :: 0 <= i < |listing| && IsDispatcherFile(listing[i]) ==>
                  var file, es := BuildFilename(dir, listing[i].name), Entries(listing[i].content);
                  Seen(t', file) ==
                    if OutOfDate(Seen(t, file), listing[i].mtime, false)
                    then Some(FileEntry(Wrap32(listing[i].mtime),
                                        Adopted(t, dir, listing, i, faults) + AcceptedUrls(es, |es|, {})))
                    else Seen(t, file))
            && (forall n :: !Like(n, dir + "%") && !OnDisk(dir, listing, |listing|, n) ==> Seen(t', n) == Seen(t, n))
  {
    UpdateSeen(t, dir, listing, faults, removed);
    var t' := Updated(t, dir, listing, faults, removed);
    forall i | 0 <= i < |listing| && IsDispatcherFile(listing[i])
      ensures FailedInserts(faults, BuildFilename(dir, listing[i].name), |Entries(listing[i].content)|) == {}
      ensures IndexedAt(t, t', dir, listing, i, faults)
    {
    }
    forall n
      ensures Known(t', n) <==> (Known(t, n) && !Like(n, dir + "%")) || OnDisk(dir, listing, |listing|, n)
    {
      assert Known(t', n) <==> Seen(t', n).Some?;
    }
  }

  lemma LeftoversSpelled(t: Tables, dir: string, listing: seq<DiskFile>, faults: Faults, n: string)
    requires !faults.list
    ensures Leftover(t, dir, listing, faults, n) <==>
            && Known(t, n) && Like(n, dir + "%")
            && forall d :: d in listing && HasSuffix(d.name, ".url-dispatcher") ==> n != BuildFilename(dir, d.name)
  {
    if OnDisk(dir, listing, |listing|, n) {
      var i :| 0 <= i < |listing| && IsDispatcherFile(listing[i]) && n == BuildFilename(dir, listing[i].name);
      assert listing[i] in listing;
    }
    if d :| d in listing && HasSuffix(d.name, ".url-dispatcher") && n == BuildFilename(dir, d.name) {
      var i :| 0 <= i < |listing| && listing[i] == d;
      assert IsDispatcherFile(listing[i]);
    }
  }

  lemma StoredUrls(c: Content, faults: Faults, n: string, p: string, s: string)
    ensures var es := Entries(c);
            Url(p, s) in AcceptedUrls(es, |es|, FailedInserts(faults, n, |es|)) <==> Stored(c, faults.insert, n, p, s)
  {
    var es := Entries(c);
    AcceptedByMembers(es, |es|, FailedInserts(faults, n, |es|), p, s);
  }

  lemma FileIsFollowed(t: Tables, dir: string, listing: seq<DiskFile>, faults: Faults, removed: seq<string>, i: nat)
    requires Valid(t) && DistinctNames(listing) && i < |listing| && IsDispatcherFile(listing[i])
    requires forall n :: n in removed ==> Leftover(t, dir, listing, faults, n)
    ensures FollowsFile(t, Updated(t, dir, listing, faults, removed), dir, listing[i], faults)
  {
    var d := listing[i];
    var n, t' := BuildFilename(dir, d.name), Updated(t, dir, listing, faults, removed);
    UpdateSeen(t, dir, listing, faults, removed);
    assert IndexedAt(t, t', dir, listing, i, faults);
    forall p, s {
      StoredUrls(d.content, faults, n, p, s);
    }
    if Inv(t) {
      NothingAdopted(t, dir, listing, i, faults);
    }
  }

  /** A run by names and contents: what each dispatcher file of the directory shows, whatever fails... */
  lemma UpdateByContent(t: Tables, dir: string, listing: seq<DiskFile>, faults: Faults, removed: seq<string>)
    requires Valid(t) && DistinctNames(listing)
    requires forall n :: n in removed ==> Leftover(t, dir, listing, faults, n)
    ensures forall d :: d in listing && HasSuffix(d.name, ".url-dispatcher") ==>
                        FollowsFile(t, Updated(t, dir, listing, faults, removed), dir, d, faults)
  {
    forall d | d in listing && HasSuffix(d.name, ".url-dispatcher")
      ensures FollowsFile(t, Updated(t, dir, listing, faults, removed), dir, d, faults)
    {
      var i :| 0 <= i < |listing| && listing[i] == d;
      FileIsFollowed(t, dir, listing, faults, removed, i);
    }
  }

  /** ...and what is removed when nothing fails. */
  lemma RemovedByName(t: Tables, dir: string, listing: seq<DiskFile>, faults: Faults, removed: seq<string>)
    requires RemovesLeftovers(t, dir, listing, faults, removed)
    ensures forall n :: n in removed <==>
              && Known(t, n) && Like(n, dir + "%")
              && forall d :: d in listing && HasSuffix(d.name, ".url-dispatcher") ==> n != BuildFilename(dir, d.name)
  {
    forall n {
      LeftoversSpelled(t, dir, listing, faults, n);
    }
  }

  /** From tables with the rowid invariant out-of-date files show exactly their accepted entries. */
  lemma DirectorySync(t: Tables, dir: string, listing: seq<DiskFile>, faults: Faults, removed: seq<string>)
    requires Inv(t) && DistinctNames(listing)
    requires RemovesLeftovers(t, dir, listing, faults, removed)
    ensures var t' := Updated(t, dir, listing, faults, removed);
            && (forall n :: Known(t', n) <==>
                  (Known(t, n) && !Like(n, dir + "%")) || OnDisk(dir, listing, |listing|, n))
            && (forall i :: 0 <= i < |listing| && IsDispatcherFile(listing[i]) ==>
                  var file, es := BuildFilename(dir, listing[i].name), Entries(listing[i].content);
                  Seen(t', file) ==
                    if OutOfDate(Seen(t, file), listing[i].mtime, false)
                    then Some(FileEntry(Wrap32(listing[i].mtime), AcceptedUrls(es, |es|, {})))
                    else Seen(t, file))
            && (forall n :: !Like(n, dir + "%") && !OnDisk(dir, listing, |listing|, n) ==> Seen(t', n) == Seen(t, n))
  {
    SyncFromAnyTables(t, dir, listing, faults, removed);
    forall i | 0 <= i < |listing|
      ensures Adopted(t, dir, listing, i, faults) + AcceptedUrls(Entries(listing[i].content),
                                                                 |Entries(listing[i].content)|, {})
           == AcceptedUrls(Entries(listing[i].content), |Entries(listing[i].content)|, {})
    {
      NothingAdopted(t, dir, listing, i, faults);
    }
  }
}
