/** Runs of the updater one after another: how the index follows a directory that changes between the runs. */
module UpdateHistory {
  import opened Text
  import opened SqlLike
  import opened UrlTables
  import opened IndexRuns
  import opened Resolution
  import opened UrlDb
  import opened UpdateDirectory
  import opened UpdateScripts

  // ---- The index against the disk ----

  /** What the index should show for a file on disk. */
  function EntryOf(d: DiskFile): FileEntry {
    var es := Entries(d.content);
    FileEntry(Wrap32(d.mtime), AcceptedUrls(es, |es|, {}))
  }

  ghost predicate InDirectory(dir: string, n: string) {
    exists name :: IsEntryName(name) && n == BuildFilename(dir, name)
  }

  /** On the names of one directory the index agrees with the disk. */
  ghost predicate InStep(t: Tables, dir: string, listing: seq<DiskFile>) {
    && (forall d :: d in listing && IsDispatcherFile(d) ==> Seen(t, BuildFilename(dir, d.name)) == Some(EntryOf(d)))
    && (forall n :: Known(t, n) && InDirectory(dir, n) ==> OnDisk(dir, listing, |listing|, n))
  }

  /** The directory is named with two slashes at its end, or more. */
  predicate EndsInSlashes(dir: string) {
    TrimSlashes(dir) != "" && |dir| >= |TrimSlashes(dir)| + 2
  }

  lemma {:induction false} NoSlashes(s: string)
    requires !Contains(s, '/')
    ensures Slashes(s) == 0
    decreases |s|
  {
    if s != "" {
      assert forall i :: 0 <= i < |s| - 1 ==> s[1..][i] == s[i + 1];
      NoSlashes(s[1..]);
    }
  }

  lemma {:induction false} TrimmedSlashes(s: string)
    ensures Slashes(s) == Slashes(TrimSlashes(s)) + |s| - |TrimSlashes(s)|
    decreases |s|
  {
    if s != "" && s[|s| - 1] == '/' {
      TrimmedSlashes(s[..|s| - 1]);
      SlashesAppend(s[..|s| - 1], "/");
      assert s == s[..|s| - 1] + "/" && Slashes("/") == 1;
    }
  }

  lemma JoinedSlashes(dir: string, name: string)
    requires !Contains(name, '/')
    ensures Slashes(dir + "/" + name) == Slashes(dir) + 1
  {
    SlashesAppend(dir, "/");
    SlashesAppend(dir + "/", name);
    NoSlashes(name);
    assert Slashes("/") == 1;
  }

  lemma QueryMissesDirectory(dir: string, name: string)
    requires IsEntryName(name) && EndsInSlashes(dir)
    ensures !Like(BuildFilename(dir, name), dir + "%")
  {
    TrimmedSlashes(dir);
    JoinedSlashes(TrimSlashes(dir), name);
    SlashesAppend(dir, "%");
    if Like(BuildFilename(dir, name), dir + "%") {
      LikeKeepsSlashes(BuildFilename(dir, name), dir + "%");
    }
  }

  /** The query for a directory's files finds its names exactly if the directory is not named with two
      slashes at its end: joined names have one there, and no wildcard stands for the other. */
  lemma QueryFindsDirectory(dir: string, name: string)
    requires IsEntryName(name)
    ensures Like(BuildFilename(dir, name), dir + "%") <==> !EndsInSlashes(dir)
  {
    var trim := TrimSlashes(dir);
    if trim == "" {
      LikeOwnPrefix(dir, name);
    } else if |dir| == |trim| {
      assert BuildFilename(dir, name) == dir + ("/" + name);
      LikeOwnPrefix(dir, "/" + name);
    } else if |dir| == |trim| + 1 {
      assert dir == trim + "/";
      LikeOwnPrefix(dir, name);
    } else {
      QueryMissesDirectory(dir, name);
    }
  }

  /** The run notices that the file differs from its entry, or it does not differ. */
  ghost predicate Noticed(e: Option<FileEntry>, d: DiskFile) {
    OutOfDate(e, d.mtime, false) || e == Some(EntryOf(d))
  }

  ghost predicate AllNoticed(t: Tables, dir: string, listing: seq<DiskFile>) {
    forall d :: d in listing && IsDispatcherFile(d) ==> Noticed(Seen(t, BuildFilename(dir, d.name)), d)
  }

  ghost predicate NothingDeleted(t: Tables, dir: string, listing: seq<DiskFile>) {
    forall n :: Known(t, n) && InDirectory(dir, n) ==> OnDisk(dir, listing, |listing|, n)
  }

  /** Whatever orphans wait at the rowids the run hands out, no file shows more than its own entries for them. */
  ghost predicate NothingStale(t: Tables, dir: string, listing: seq<DiskFile>, faults: Faults) {
    forall i :: 0 <= i < |listing| && ToBeIndexed(t, dir, listing[i], faults) ==>
                Adopted(t, dir, listing, i, faults) <= EntryOf(listing[i]).urls
  }

  lemma NothingStaleUnderInv(t: Tables, dir: string, listing: seq<DiskFile>, faults: Faults)
    requires Inv(t)
    ensures NothingStale(t, dir, listing, faults)
  {
    forall i | 0 <= i < |listing| {
      NothingAdopted(t, dir, listing, i, faults);
    }
  }

  lemma KnownInDirectory(t: Tables, dir: string, listing: seq<DiskFile>, faults: Faults, removed: seq<string>,
                         n: string)
    requires Valid(t) && DistinctNames(listing) && RemovesLeftovers(t, dir, listing, faults, removed)
    requires InDirectory(dir, n)
    ensures Known(Updated(t, dir, listing, faults, removed), n) <==>
            OnDisk(dir, listing, |listing|, n) || (Known(t, n) && EndsInSlashes(dir))
  {
    SyncFromAnyTables(t, dir, listing, faults, removed);
    var name :| IsEntryName(name) && n == BuildFilename(dir, name);
    QueryFindsDirectory(dir, name);
  }

  lemma FileBroughtInStep(t: Tables, dir: string, listing: seq<DiskFile>, faults: Faults, removed: seq<string>, i: nat)
    requires Valid(t) && DistinctNames(listing) && RemovesLeftovers(t, dir, listing, faults, removed)
    requires i < |listing| && IsDispatcherFile(listing[i])
    ensures var d, file := listing[i], BuildFilename(dir, listing[i].name);
            Seen(Updated(t, dir, listing, faults, removed), file) == Some(EntryOf(d)) <==>
            && Noticed(Seen(t, file), d)
            && (ToBeIndexed(t, dir, d, faults) ==> Adopted(t, dir, listing, i, faults) <= EntryOf(d).urls)
  {
    SyncFromAnyTables(t, dir, listing, faults, removed);
    var adopted, own := Adopted(t, dir, listing, i, faults), EntryOf(listing[i]).urls;
    assert adopted + own == own <==> adopted <= own;
  }

  /** When one successful run brings the index in step with the directory, from any tables. */
  lemma RunBringsInStep(t: Tables, dir: string, listing: seq<DiskFile>, faults: Faults, removed: seq<string>)
    requires Valid(t) && DistinctNames(listing) && RemovesLeftovers(t, dir, listing, faults, removed)
    ensures InStep(Updated(t, dir, listing, faults, removed), dir, listing) <==>
            && AllNoticed(t, dir, listing)
            && (EndsInSlashes(dir) ==> NothingDeleted(t, dir, listing))
            && NothingStale(t, dir, listing, faults)
  {
    var t' := Updated(t, dir, listing, faults, removed);
    forall i | 0 <= i < |listing| && IsDispatcherFile(listing[i]) {
      FileBroughtInStep(t, dir, listing, faults, removed, i);
    }
    forall n | InDirectory(dir, n)
      ensures Known(t', n) <==> OnDisk(dir, listing, |listing|, n) || (Known(t, n) && EndsInSlashes(dir))
    {
      KnownInDirectory(t, dir, listing, faults, removed, n);
    }
    assert forall d :: d in listing ==> exists i :: 0 <= i < |listing| && listing[i] == d;
  }

  // ---- Histories ----

  /** Between two runs every changed file got a newer time (32-bit, for the old one), or shows the same;
      and when the query cannot find the directory's names, no file went away. */
  ghost predicate Follows(dir: string, listing: seq<DiskFile>, next: seq<DiskFile>) {
    && (forall d, d' :: d in listing && d' in next && IsDispatcherFile(d') && d.name == d'.name ==>
          d'.mtime > Wrap32(d.mtime) || EntryOf(d) == EntryOf(d'))
    && (EndsInSlashes(dir) ==> forall d :: d in listing && IsDispatcherFile(d) ==> HasFile(next, d.name))
  }

  predicate HasFile(listing: seq<DiskFile>, name: string) {
    exists d :: d in listing && d.name == name
  }

  lemma OnDiskHasFile(dir: string, listing: seq<DiskFile>, name: string)
    requires HasSuffix(name, DISPATCHER_SUFFIX)
    ensures OnDisk(dir, listing, |listing|, BuildFilename(dir, name)) <==> HasFile(listing, name)
  {
    if OnDisk(dir, listing, |listing|, BuildFilename(dir, name)) {
      var i :| 0 <= i < |listing| && IsDispatcherFile(listing[i])
               && BuildFilename(dir, name) == BuildFilename(dir, listing[i].name);
      BuildFilenameInjective(dir, name, listing[i].name);
      assert listing[i] in listing;
    }
    if d :| d in listing && d.name == name {
      var i :| 0 <= i < |listing| && listing[i] == d;
      assert IsDispatcherFile(listing[i]);
    }
  }

  /** In step, the entry of a dispatcher file is that of the file of its name, if there is one. */
  lemma EntryInStep(t: Tables, dir: string, listing: seq<DiskFile>, name: string)
    requires InStep(t, dir, listing) && HasSuffix(name, DISPATCHER_SUFFIX) && !Contains(name, '/')
    ensures Known(t, BuildFilename(dir, name)) <==> HasFile(listing, name)
    ensures forall d :: d in listing && d.name == name ==> Seen(t, BuildFilename(dir, name)) == Some(EntryOf(d))
  {
    OnDiskHasFile(dir, listing, name);
    forall d | d in listing && d.name == name
      ensures Seen(t, BuildFilename(dir, name)) == Some(EntryOf(d))
    {
      assert IsDispatcherFile(d);
    }
    assert InDirectory(dir, BuildFilename(dir, name));
  }

  lemma NoticedIfNewer(t: Tables, dir: string, listing: seq<DiskFile>, d': DiskFile)
    requires InStep(t, dir, listing) && IsDispatcherFile(d') && !Contains(d'.name, '/')
    ensures Noticed(Seen(t, BuildFilename(dir, d'.name)), d') <==>
            forall d :: d in listing && d.name == d'.name ==> d'.mtime > Wrap32(d.mtime) || EntryOf(d) == EntryOf(d')
  {
    EntryInStep(t, dir, listing, d'.name);
    forall d | d in listing && d.name == d'.name
      ensures Noticed(Some(EntryOf(d)), d') <==> d'.mtime > Wrap32(d.mtime) || EntryOf(d) == EntryOf(d')
    {
      assert Wrap32(Wrap32(d.mtime)) == Wrap32(d.mtime);
    }
  }

  lemma NothingDeletedInStep(t: Tables, dir: string, listing: seq<DiskFile>, next: seq<DiskFile>)
    requires InStep(t, dir, listing) && IsListing(listing)
    ensures NothingDeleted(t, dir, next) <==>
            forall d :: d in listing && IsDispatcherFile(d) ==> HasFile(next, d.name)
  {
    forall d | d in listing && IsDispatcherFile(d)
      ensures Known(t, BuildFilename(dir, d.name)) && InDirectory(dir, BuildFilename(dir, d.name))
      ensures OnDisk(dir, next, |next|, BuildFilename(dir, d.name)) <==> HasFile(next, d.name)
    {
      EntryInStep(t, dir, listing, d.name);
      OnDiskHasFile(dir, next, d.name);
    }
    forall n | Known(t, n) && InDirectory(dir, n)
      ensures exists d :: d in listing && IsDispatcherFile(d) && n == BuildFilename(dir, d.name)
    {
      var i :| 0 <= i < |listing| && IsDispatcherFile(listing[i]) && n == BuildFilename(dir, listing[i].name);
      assert listing[i] in listing;
    }
  }

  /** A successful run keeps the index in step with a changing directory exactly if the changes follow on
      and the run adopts nothing stale. */
  lemma RunStaysInStep(t: Tables, dir: string, listing: seq<DiskFile>, next: seq<DiskFile>, faults: Faults,
                       removed: seq<string>)
    requires Valid(t) && IsListing(listing) && IsListing(next) && DistinctNames(next) && InStep(t, dir, listing)
    requires RemovesLeftovers(t, dir, next, faults, removed)
    ensures InStep(Updated(t, dir, next, faults, removed), dir, next) <==>
            Follows(dir, listing, next) && NothingStale(t, dir, next, faults)
  {
    RunBringsInStep(t, dir, next, faults, removed);
    NothingDeletedInStep(t, dir, listing, next);
    forall d' | d' in next && IsDispatcherFile(d') {
      NoticedIfNewer(t, dir, listing, d');
    }
  }

  /** Successful runs over one directory, one after another. Run `k` brings state `k` to state `k + 1`,
      where it found the files of `listings[k + 1]`; `removals[k]` are those it removed. */
  datatype History = History(
    dir: string, faults: Faults,
    states: seq<Tables>, listings: seq<seq<DiskFile>>, removals: seq<seq<string>>)
  {
    ghost predicate Valid() {
      && |states| == |listings| == |removals| + 1
      && UrlTables.Valid(states[0])
      && (forall listing :: listing in listings ==> IsListing(listing) && DistinctNames(listing))
      && (forall k :: 0 <= k < |removals| ==> Run(k))
    }

    ghost predicate Run(k: nat)
      requires k < |removals| && |states| == |listings| == |removals| + 1
    {
      && RemovesLeftovers(states[k], dir, listings[k + 1], faults, removals[k])
      && states[k + 1] == Updated(states[k], dir, listings[k + 1], faults, removals[k])
    }

    ghost predicate InStepAt(k: nat)
      requires k < |states| && |states| == |listings|
    {
      InStep(states[k], dir, listings[k])
    }

    ghost predicate FollowsAt(k: nat)
      requires k + 1 < |listings|
    {
      Follows(dir, listings[k], listings[k + 1])
    }

    ghost predicate NothingStaleAt(k: nat)
      requires k < |states| && k + 1 < |listings|
    {
      NothingStale(states[k], dir, listings[k + 1], faults)
    }

    /** Run `k` keeps the rowid invariant, by the condition of UpdateKeepsInv. */
    ghost predicate KeepsInvAt(k: nat)
      requires k < |removals| && |states| == |listings| == |removals| + 1
    {
      SomeToBeIndexed(states[k], dir, listings[k + 1], faults) || AllCoveredWithout(states[k], removals[k])
    }
  }

  lemma {:induction false} HistoryKeepsValid(h: History, k: nat)
    requires h.Valid() && k < |h.states|
    ensures Valid(h.states[k])
    decreases k
  {
    if k > 0 {
      HistoryKeepsValid(h, k - 1);
      assert h.Run(k - 1);
      UpdateSeen(h.states[k - 1], h.dir, h.listings[k], h.faults, h.removals[k - 1]);
    }
  }

  lemma HistoryStep(h: History, k: nat)
    requires h.Valid() && k < |h.removals| && h.InStepAt(k)
    ensures h.InStepAt(k + 1) <==> h.FollowsAt(k) && h.NothingStaleAt(k)
  {
    HistoryKeepsValid(h, k);
    assert h.Run(k);
    RunStaysInStep(h.states[k], h.dir, h.listings[k], h.listings[k + 1], h.faults, h.removals[k]);
  }

  lemma {:induction false} FollowingStaysInStep(h: History, k: nat)
    requires h.Valid() && k < |h.states| && h.InStepAt(0)
    requires forall j: nat :: j < |h.removals| ==> h.FollowsAt(j) && h.NothingStaleAt(j)
    ensures h.InStepAt(k)
  {
    for i := 0 to k
      invariant h.InStepAt(i)
    {
      assert h.FollowsAt(i) && h.NothingStaleAt(i);
      HistoryStep(h, i);
    }
  }

  /** Over any number of successful runs, from any tables, the index is in step with the directory after every
      one of them if and only if it was at first, the directory's changes follow on each time, and no run hands
      a file a rowid at which stale orphans wait. */
  lemma HistoryStaysInStep(h: History)
    requires h.Valid()
    ensures (forall k: nat :: k < |h.states| ==> h.InStepAt(k)) <==>
            h.InStepAt(0) && forall k: nat :: k < |h.removals| ==> h.FollowsAt(k) && h.NothingStaleAt(k)
  {
    if forall k: nat :: k < |h.states| ==> h.InStepAt(k) {
      forall k: nat | k < |h.removals|
        ensures h.FollowsAt(k) && h.NothingStaleAt(k)
      {
        assert h.InStepAt(k) && h.InStepAt(k + 1);
        HistoryStep(h, k);
      }
    }
    if h.InStepAt(0) && forall k: nat :: k < |h.removals| ==> h.FollowsAt(k) && h.NothingStaleAt(k) {
      forall k: nat | k < |h.states| {
        FollowingStaysInStep(h, k);
      }
    }
  }

  lemma {:induction false} HistoryKeepsInv(h: History, k: nat)
    requires h.Valid() && k < |h.states| && Inv(h.states[0])
    requires forall j: nat :: j < |h.removals| ==> h.KeepsInvAt(j)
    ensures Inv(h.states[k])
    decreases k
  {
    if k > 0 {
      HistoryKeepsInv(h, k - 1);
      assert h.Run(k - 1) && h.KeepsInvAt(k - 1);
      UpdateKeepsInv(h.states[k - 1], h.dir, h.listings[k], h.faults, h.removals[k - 1]);
    }
  }

  /** As long as every run keeps the rowid invariant, the directory's changes alone decide. */
  lemma SafeHistoryStaysInStep(h: History)
    requires h.Valid() && Inv(h.states[0]) && forall k: nat :: k < |h.removals| ==> h.KeepsInvAt(k)
    ensures (forall k: nat :: k < |h.states| ==> h.InStepAt(k)) <==>
            h.InStepAt(0) && forall k: nat :: k < |h.removals| ==> h.FollowsAt(k)
  {
    forall k: nat | k < |h.removals|
      ensures h.NothingStaleAt(k)
    {
      HistoryKeepsInv(h, k);
      NothingStaleUnderInv(h.states[k], h.dir, h.listings[k + 1], h.faults);
    }
    HistoryStaysInStep(h);
  }

  // ---- A history that fails ----

  const NO_FAULTS :=
    Faults(false, {}, {}, {}, n => RemovalFaults(false, false, Succeeds, false, Succeeds, Succeeds, false))

  /** A dispatcher file without URLs. */
  function Bare(name: string, mtime: int): DiskFile {
    DiskFile(name, mtime, UrlArray([]))
  }

  /** Two runs: `a` has gone from the directory, then `b` has come. */
  function GoneThenCome(t: Tables, t1: Tables, t2: Tables, dir: string, a: string, b: string): History {
    History(dir, NO_FAULTS, [t, t1, t2], [[Bare(a, 2)], [], [Bare(b, 3)]], [[BuildFilename(dir, a)], []])
  }

  predicate IsDispatcherName(name: string) {
    HasSuffix(name, DISPATCHER_SUFFIX) && !Contains(name, '/')
  }

  lemma DispatcherNameIsEntry(name: string)
    requires IsDispatcherName(name)
    ensures IsEntryName(name)
  {
  }

  /** The run that finds `a` gone. */
  lemma GoneIsRemoved(t: Tables, dir: string, a: string)
    requires IsDispatcherName(a) && !EndsInSlashes(dir) && Valid(t)
    requires forall n :: Known(t, n) <==> n == BuildFilename(dir, a)
    ensures RemovesLeftovers(t, dir, [], NO_FAULTS, [BuildFilename(dir, a)])
    ensures Updated(t, dir, [], NO_FAULTS, [BuildFilename(dir, a)]) == Remove(t, BuildFilename(dir, a))
  {
    var file := BuildFilename(dir, a);
    DispatcherNameIsEntry(a);
    QueryFindsDirectory(dir, a);
    assert RemoveAll(t, []) == t && [file][..0] == [];
  }

  /** Index A, re-index it without URLs: the index is in step, with an orphan. Then A is removed by one run, and by the
      next B is added. All changes follow on, the first run leaves the index in step, and then B, without any URL
      of its own, shows the one of A's first version. */
  lemma StaleHistory(dir: string, a: string, b: string, protocol: string, suffix: string) returns (h: History)
    requires IsDispatcherName(a) && IsDispatcherName(b) && a != b && !EndsInSlashes(dir)
    ensures h.Valid() && |h.states| == 3 && h.states[0] == Orphaned(BuildFilename(dir, a), protocol, suffix)
    ensures Inv(h.states[0]) && h.InStepAt(0) && h.InStepAt(1) && h.FollowsAt(0) && h.FollowsAt(1)
    ensures h.listings[2] == [Bare(b, 3)]
    ensures Seen(h.states[2], BuildFilename(dir, b)) == Some(FileEntry(3, {Url(protocol, suffix)})) && !h.InStepAt(2)
  {
    var fileA, fileB := BuildFilename(dir, a), BuildFilename(dir, b);
    var t := Orphaned(fileA, protocol, suffix);
    OrphanArises(fileA, protocol, suffix);
    OrphanWaits(fileA, protocol, suffix);
    OnlyOneKnown(fileA, protocol, suffix);
    GoneIsRemoved(t, dir, a);
    var t1 := Remove(t, fileA);
    assert forall n :: !Known(t1, n);
    var t2 := Updated(t1, dir, [Bare(b, 3)], NO_FAULTS, []);
    h := GoneThenCome(t, t1, t2, dir, a, b);
    InStepAtFirst(t, dir, a, protocol, suffix);
    AdoptsWhenCome(t1, dir, b, protocol, suffix);
    TwoRuns(t, t1, t2, dir, a, b);
    NotInStep(t2, dir, b, Url(protocol, suffix));
  }

  /** The two runs make a history, whose changes follow on. */
  lemma TwoRuns(t: Tables, t1: Tables, t2: Tables, dir: string, a: string, b: string)
    requires IsDispatcherName(a) && IsDispatcherName(b) && !EndsInSlashes(dir) && Valid(t)
    requires RemovesLeftovers(t, dir, [], NO_FAULTS, [BuildFilename(dir, a)])
    requires t1 == Updated(t, dir, [], NO_FAULTS, [BuildFilename(dir, a)])
    requires RemovesLeftovers(t1, dir, [Bare(b, 3)], NO_FAULTS, [])
    requires t2 == Updated(t1, dir, [Bare(b, 3)], NO_FAULTS, [])
    ensures var h := GoneThenCome(t, t1, t2, dir, a, b);
            h.Valid() && h.FollowsAt(0) && h.FollowsAt(1)
  {
    var h := GoneThenCome(t, t1, t2, dir, a, b);
    assert h.Run(0) && h.Run(1);
    assert forall listing :: listing in h.listings ==> |listing| <= 1;
  }

  lemma NotInStep(t: Tables, dir: string, b: string, stale: Url)
    requires IsDispatcherName(b) && Seen(t, BuildFilename(dir, b)) == Some(FileEntry(3, {stale}))
    ensures !InStep(t, dir, [Bare(b, 3)])
  {
    var d := Bare(b, 3);
    assert d in [d] && IsDispatcherFile(d);
    assert EntryOf(d).urls == {} && stale in {stale};
  }

  lemma OnlyOneKnown(file: string, protocol: string, suffix: string)
    ensures var t := Orphaned(file, protocol, suffix);
            && (forall n :: Known(t, n) <==> n == file)
            && Seen(t, file) == Some(FileEntry(2, {}))
  {
    var t := Orphaned(file, protocol, suffix);
    OrphanArises(file, protocol, suffix);
    SeenAt(t, 2, file);
    assert UrlsAt(t, 2) == {};
    forall n
      ensures Known(t, n) <==> n == file
    {
      assert forall r :: r in RowidsOf(t, n) <==> r == 2 && n == file;
    }
  }

  lemma InStepAtFirst(t: Tables, dir: string, a: string, protocol: string, suffix: string)
    requires IsDispatcherName(a) && t == Orphaned(BuildFilename(dir, a), protocol, suffix)
    ensures InStep(t, dir, [Bare(a, 2)])
  {
    var listing := [Bare(a, 2)];
    OnlyOneKnown(BuildFilename(dir, a), protocol, suffix);
    assert IsDispatcherFile(listing[0]);
    assert OnDisk(dir, listing, 1, BuildFilename(dir, a));
    assert EntryOf(Bare(a, 2)) == FileEntry(2, {});
  }

  lemma AdoptsWhenCome(t: Tables, dir: string, b: string, protocol: string, suffix: string)
    requires IsDispatcherName(b) && Valid(t) && (forall n :: !Known(t, n))
    requires NextRowid(t) == 1 && UrlsAt(t, 1) == {Url(protocol, suffix)}
    ensures RemovesLeftovers(t, dir, [Bare(b, 3)], NO_FAULTS, [])
    ensures Seen(Updated(t, dir, [Bare(b, 3)], NO_FAULTS, []), BuildFilename(dir, b))
         == Some(FileEntry(3, {Url(protocol, suffix)}))
  {
    var listing := [Bare(b, 3)];
    assert forall n :: !Leftover(t, dir, listing, NO_FAULTS, n);
    SyncFromAnyTables(t, dir, listing, NO_FAULTS, []);
    assert IsDispatcherFile(listing[0]) && !Known(t, BuildFilename(dir, b));
    assert Adopted(t, dir, listing, 0, NO_FAULTS) == {Url(protocol, suffix)};
    var es := Entries(listing[0].content);
    assert AcceptedUrls(es, |es|, {}) == {};
    assert Seen(Updated(t, dir, listing, NO_FAULTS, []), BuildFilename(dir, listing[0].name))
        == Some(FileEntry(Wrap32(3), {Url(protocol, suffix)} + {}));
    assert {Url(protocol, suffix)} + {} == {Url(protocol, suffix)};
  }
}
