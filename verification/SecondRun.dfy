/** Running the updater twice over an unchanged directory, and the 32-bit timestamps that decide it. */
module SecondRun {
  import opened Text
  import opened UrlTables
  import opened UpdateDirectory

  const TWO_31 := 0x8000_0000

  /** A check right after a successful set reports "up to date" exactly for times below 2^31. */
  lemma CheckAfterSet(t: Tables, file: string, mtime: int)
    requires Valid(t)
    ensures OutOfDate(Seen(Execute(t, SetTime(file, mtime)), file), mtime, false) <==> mtime >= TWO_31
  {
    SetTimeSeen(t, file, mtime);
    assert Wrap32(Wrap32(mtime)) == Wrap32(mtime);
  }

  /** The same after any fault-free visit to the file. */
  lemma CheckAfterVisit(e: Option<FileEntry>, file: string, d: DiskFile, faults: Faults, adopted: set<Url>)
    requires faults.None()
    ensures OutOfDate(EntryAfterIndexing(e, file, d, faults, adopted), d.mtime, false) <==> d.mtime >= TWO_31
  {
    assert Wrap32(Wrap32(d.mtime)) == Wrap32(d.mtime);
  }

  ghost predicate AllTimesSmall(listing: seq<DiskFile>) {
    forall i :: 0 <= i < |listing| && IsDispatcherFile(listing[i]) ==> listing[i].mtime < TWO_31
  }

  /** Rowids only grow while indexing, and a re-indexed file gets a new one. */
  lemma RowidsGrow(t: Tables, file: string, d: DiskFile, faults: Faults)
    requires Valid(t)
    ensures var t' := IndexFile(t, file, d, faults);
            && Valid(t') && NextRowid(t') >= NextRowid(t)
            && (forall r, n :: n != file && Holds(t, r, n) ==> Holds(t', r, n))
            && (Reindexes(Seen(t, file), file, d, faults) ==> Holds(t', NextRowid(t), file))
  {
    if Reindexes(Seen(t, file), file, d, faults) {
      var t1, es := Execute(t, SetTime(file, d.mtime)), Entries(d.content);
      ExecuteKeepsValid(t, SetTime(file, d.mtime));
      InsertFirstSeen(t1, file, es, |es|, FailedInserts(faults, file, |es|));
      var t' := IndexFile(t, file, d, faults);
      assert t'.configfiles == t1.configfiles;
      assert NextRowid(t) in t'.configfiles;
      forall r, n | n != file && Holds(t, r, n)
        ensures Holds(t', r, n)
      {
        assert r !in RowidsOf(t, file);
      }
    }
  }

  /** Once re-indexed at position `i`, a file keeps its new rowid for the rest of the run. */
  lemma {:induction false} NewRowidStays(t: Tables, dir: string, listing: seq<DiskFile>, i: nat, k: nat, faults: Faults)
    returns (r: int)
    requires Valid(t) && DistinctNames(listing) && i < k <= |listing| && IsDispatcherFile(listing[i])
    requires Reindexes(Seen(IndexFirst(t, dir, listing, i, faults), BuildFilename(dir, listing[i].name)),
                       BuildFilename(dir, listing[i].name), listing[i], faults)
    ensures r >= NextRowid(t) && Holds(IndexFirst(t, dir, listing, k, faults), r, BuildFilename(dir, listing[i].name))
    decreases k
  {
    var file := BuildFilename(dir, listing[i].name);
    var before, d := IndexFirst(t, dir, listing, k - 1, faults), listing[k - 1];
    IndexFirstKeepsValid(t, dir, listing, k - 1, faults);
    RowidsGrow(before, BuildFilename(dir, d.name), d, faults);
    if i == k - 1 {
      r := NextRowid(before);
      NextRowidGrows(t, dir, listing, k - 1, faults);
    } else {
      r := NewRowidStays(t, dir, listing, i, k - 1, faults);
      if BuildFilename(dir, d.name) == file {
        BuildFilenameInjective(dir, d.name, listing[i].name);
      }
    }
  }

  lemma {:induction false} NextRowidGrows(t: Tables, dir: string, listing: seq<DiskFile>, k: nat, faults: Faults)
    requires Valid(t) && k <= |listing|
    ensures NextRowid(IndexFirst(t, dir, listing, k, faults)) >= NextRowid(t)
    decreases k
  {
    if k > 0 {
      NextRowidGrows(t, dir, listing, k - 1, faults);
      IndexFirstKeepsValid(t, dir, listing, k - 1, faults);
      var before, d := IndexFirst(t, dir, listing, k - 1, faults), listing[k - 1];
      RowidsGrow(before, BuildFilename(dir, d.name), d, faults);
    }
  }

  /** A second successful run over the same directory leaves both tables exactly as they are
      if and only if every dispatcher file on disk is dated before 2^31 seconds, whatever the tables at first. */
  lemma SecondRunChangesNothing(t: Tables, dir: string, listing: seq<DiskFile>, faults: Faults,
                                removed: seq<string>, removedAgain: seq<string>)
    requires Valid(t) && DistinctNames(listing)
    requires RemovesLeftovers(t, dir, listing, faults, removed)
    requires RemovesLeftovers(Updated(t, dir, listing, faults, removed), dir, listing, faults, removedAgain)
    ensures var once := Updated(t, dir, listing, faults, removed);
            Updated(once, dir, listing, faults, removedAgain) == once <==> AllTimesSmall(listing)
  {
    var once := Updated(t, dir, listing, faults, removed);
    assert |removedAgain| > 0 ==> removedAgain[0] in removedAgain;
    UpdateSeen(t, dir, listing, faults, removed);
    SyncFromAnyTables(t, dir, listing, faults, removed);
    assert forall n :: !Leftover(once, dir, listing, faults, n);
    assert removedAgain == [];
    assert Updated(once, dir, listing, faults, removedAgain) == IndexFirst(once, dir, listing, |listing|, faults);
    forall i | 0 <= i < |listing| && IsDispatcherFile(listing[i])
      ensures OutOfDate(Seen(once, BuildFilename(dir, listing[i].name)), listing[i].mtime, false)
         <==> listing[i].mtime >= TWO_31
    {
      var file := BuildFilename(dir, listing[i].name);
      assert IndexedAt(t, once, dir, listing, i, faults);
      CheckAfterVisit(Seen(t, file), file, listing[i], faults, Adopted(t, dir, listing, i, faults));
    }
    if AllTimesSmall(listing) {
      NothingToIndex(once, dir, listing, |listing|, faults);
    } else {
      var i :| 0 <= i < |listing| && IsDispatcherFile(listing[i]) && listing[i].mtime >= TWO_31;
      var r := NewRowidStays(once, dir, listing, i, |listing|, faults);
      assert r !in once.configfiles;
    }
  }
}
