/** Which files outside the directory a run of the updater can touch. */
module SyncFrame {
  import opened Text
  import opened SqlLike
  import opened UrlTables
  import opened UpdateDirectory

  /** A known file that is not on disk survives a successful run if and only if no beginning of its name is LIKE
      the directory's name, in which `_` and `%` are wildcards. */
  lemma SurvivesIffNotUnderPattern(t: Tables, dir: string, listing: seq<DiskFile>, faults: Faults,
                                   removed: seq<string>, n: string)
    requires Valid(t) && DistinctNames(listing) && RemovesLeftovers(t, dir, listing, faults, removed)
    requires Known(t, n) && !OnDisk(dir, listing, |listing|, n)
    ensures Known(Updated(t, dir, listing, faults, removed), n) <==>
            forall k :: 0 <= k <= |n| ==> !Like(n[..k], dir)
    ensures Known(Updated(t, dir, listing, faults, removed), n) ==>
            Seen(Updated(t, dir, listing, faults, removed), n) == Seen(t, n)
  {
    SyncFromAnyTables(t, dir, listing, faults, removed);
    LikePercentSuffixAny(n, dir);
  }

  /** For a directory without wildcards: if and only if its name does not start, up to ASCII case,
      with the directory's name. */
  lemma SurvivesIffNotUnderPrefix(t: Tables, dir: string, listing: seq<DiskFile>, faults: Faults, removed: seq<string>,
                                  n: string)
    requires Valid(t) && DistinctNames(listing) && RemovesLeftovers(t, dir, listing, faults, removed)
    requires WildcardFree(dir) && Known(t, n) && !OnDisk(dir, listing, |listing|, n)
    ensures Known(Updated(t, dir, listing, faults, removed), n) <==> !StartsWithFolded(n, dir)
    ensures !StartsWithFolded(n, dir) ==> Seen(Updated(t, dir, listing, faults, removed), n) == Seen(t, n)
  {
    SyncFromAnyTables(t, dir, listing, faults, removed);
    LikePercentSuffix(n, dir);
  }

  /** The prefix is not a path component: files of a sibling directory whose name continues this one's,
      `/usr/share/url-dispatcher/urls-extra/` beside `/usr/share/url-dispatcher/urls`,
      are removed with the leftovers. */
  lemma SiblingDirectoryIsSwept(t: Tables, dir: string, listing: seq<DiskFile>, faults: Faults, removed: seq<string>,
                                more: string, name: string)
    requires Valid(t) && DistinctNames(listing) && RemovesLeftovers(t, dir, listing, faults, removed)
    requires WildcardFree(dir) && IsEntryName(name) && more != "" && !Contains(more, '/')
    requires dir != "" && dir[|dir| - 1] != '/'
    requires Known(t, BuildFilename(dir + more, name))
    ensures !Known(Updated(t, dir, listing, faults, removed), BuildFilename(dir + more, name))
  {
    var n := BuildFilename(dir + more, name);
    assert (dir + more)[|dir + more| - 1] == more[|more| - 1] != '/';
    assert TrimSlashes(dir + more) == dir + more && TrimSlashes(dir) == dir;
    assert n == dir + more + "/" + name;
    assert n[|dir|] == more[0] != '/';
    forall i | 0 <= i < |listing|
      ensures n != BuildFilename(dir, listing[i].name)
    {
      assert BuildFilename(dir, listing[i].name)[|dir|] == '/';
    }
    assert n[..|dir|] == dir;
    SurvivesIffNotUnderPrefix(t, dir, listing, faults, removed, n);
  }

  /** `_` stands for any character: a run over `/home/a_b/urls` removes the files of `/home/axb/urls`. */
  lemma UnderscoreSweepsOthers(t: Tables, before: string, c: char, after: string, listing: seq<DiskFile>,
                               faults: Faults, removed: seq<string>, name: string)
    requires Valid(t) && DistinctNames(listing)
    requires RemovesLeftovers(t, before + "_" + after, listing, faults, removed)
    requires c != '_' && c != '/' && (after != "" ==> after[|after| - 1] != '/') && IsEntryName(name)
    requires Known(t, BuildFilename(before + [c] + after, name))
    ensures !Known(Updated(t, before + "_" + after, listing, faults, removed),
                   BuildFilename(before + [c] + after, name))
  {
    var dir, other := before + "_" + after, before + [c] + after;
    var n := BuildFilename(other, name);
    assert other[|other| - 1] != '/' && dir[|dir| - 1] != '/';
    assert TrimSlashes(other) == other && TrimSlashes(dir) == dir;
    assert n == other + "/" + name;
    assert n[|before|] == c;
    forall i | 0 <= i < |listing|
      ensures n != BuildFilename(dir, listing[i].name)
    {
      assert BuildFilename(dir, listing[i].name)[|before|] == '_';
    }
    UnderscoreMatches(before, c, after);
    assert n[..|other|] == other;
    SurvivesIffNotUnderPattern(t, dir, listing, faults, removed, n);
  }

  lemma UnderscoreMatches(before: string, c: char, after: string)
    ensures Like(before + [c] + after, before + "_" + after)
  {
    LikeItself(before);
    LikeItself(after);
    assert Like([c], "_") by {
      assert [c][1..] == "" && "_"[1..] == "";
    }
    LikeConcat(before, before, [c], "_");
    LikeConcat(before + [c], before + "_", after, after);
  }
}
