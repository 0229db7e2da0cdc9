/** From the files on disk to the app a URL opens. */
module EndToEnd {
  import opened Text
  import opened SqlLike
  import opened UrlTables
  import opened Resolution
  import opened IndexRuns
  import opened UpdateDirectory
  import opened UpdateScripts
  import opened Dispatcher

  /** File `d` is a dispatcher file whose content asks for the protocol and suffix. */
  predicate Offers(d: DiskFile, protocol: string, suffix: string) {
    HasSuffix(d.name, ".url-dispatcher") && ContentAsks(d.content, protocol, suffix)
  }

  /** Application `app` offers the longest suffix that matches the domain. */
  ghost predicate Best(listing: seq<DiskFile>, protocol: string, domain: string, app: string) {
    exists d, s :: d in listing && d.name == app + ".url-dispatcher" && Offers(d, protocol, s) && Like(domain, "%" + s)
      && forall d', s' :: d' in listing && Offers(d', protocol, s') && Like(domain, "%" + s') ==> |s'| <= |s|
  }

  ghost predicate NothingOffered(listing: seq<DiskFile>, protocol: string, domain: string) {
    forall d, s :: d in listing && Offers(d, protocol, s) ==> !Like(domain, "%" + s)
  }

  lemma OfferedUrls(d: DiskFile, u: Url)
    requires IsDispatcherFile(d)
    ensures u in AcceptedUrls(Entries(d.content), |Entries(d.content)|, {}) <==> Offers(d, u.protocol, u.suffix)
  {
    AcceptedByContent(d.content, u.protocol, u.suffix);
  }

  /** After syncing one directory into an empty database the index shows exactly what the files offer. */
  lemma SyncedShows(dir: string, listing: seq<DiskFile>, faults: Faults, removed: seq<string>,
                    n: string, p: string, s: string)
    requires DistinctNames(listing) && RemovesLeftovers(EMPTY, dir, listing, faults, removed)
    ensures Shows(Updated(EMPTY, dir, listing, faults, removed), n, p, s) <==>
            exists d :: d in listing && n == BuildFilename(dir, d.name) && Offers(d, p, s)
  {
    var t := Updated(EMPTY, dir, listing, faults, removed);
    DirectorySync(EMPTY, dir, listing, faults, removed);
    assert forall m :: !Known(EMPTY, m);
    if Shows(t, n, p, s) {
      assert Known(t, n);
      var i :| 0 <= i < |listing| && IsDispatcherFile(listing[i]) && n == BuildFilename(dir, listing[i].name);
      assert OutOfDate(Seen(EMPTY, n), listing[i].mtime, false);
      OfferedUrls(listing[i], Url(p, s));
      assert listing[i] in listing;
    }
    if d :| d in listing && n == BuildFilename(dir, d.name) && Offers(d, p, s) {
      var i :| 0 <= i < |listing| && listing[i] == d;
      assert OutOfDate(Seen(EMPTY, n), listing[i].mtime, false);
      OfferedUrls(d, Url(p, s));
    }
  }

  /** The app a dispatcher file stands for is its name without the suffix. */
  lemma AppOfFile(dir: string, d: DiskFile) returns (app: string)
    requires IsDispatcherFile(d) && !Contains(d.name, '/')
    ensures d.name == app + DISPATCHER_SUFFIX && AppIdOf(BuildFilename(dir, d.name)) == app
  {
    app := d.name[..|d.name| - |DISPATCHER_SUFFIX|];
    NoSlashPrefix(d.name, |app|);
    AppIdRoundTrip(dir, app);
  }

  /** The possible answers of a lookup are the apps with a longest matching entry on disk. */
  lemma LongestIsBest(dir: string, listing: seq<DiskFile>, faults: Faults, removed: seq<string>,
                      protocol: string, domain: string, n: string)
    requires DistinctNames(listing) && IsListing(listing) && RemovesLeftovers(EMPTY, dir, listing, faults, removed)
    requires n in Longest(Updated(EMPTY, dir, listing, faults, removed), protocol, domain)
    ensures Best(listing, protocol, domain, AppIdOf(n))
  {
    var t := Updated(EMPTY, dir, listing, faults, removed);
    LongestIsShown(t, protocol, domain, n);
    var s :| ShowsLongest(t, protocol, domain, n, s);
    SyncedShows(dir, listing, faults, removed, n, protocol, s);
    var d :| d in listing && n == BuildFilename(dir, d.name) && Offers(d, protocol, s);
    var app := AppOfFile(dir, d);
    forall d', s' | d' in listing && Offers(d', protocol, s') && Like(domain, "%" + s')
      ensures |s'| <= |s|
    {
      SyncedShows(dir, listing, faults, removed, BuildFilename(dir, d'.name), protocol, s');
    }
  }

  lemma BestIsLongest(dir: string, listing: seq<DiskFile>, faults: Faults, removed: seq<string>,
                      protocol: string, domain: string, app: string)
    requires DistinctNames(listing) && IsListing(listing) && RemovesLeftovers(EMPTY, dir, listing, faults, removed)
    requires Best(listing, protocol, domain, app)
    ensures exists n ::
              n in Longest(Updated(EMPTY, dir, listing, faults, removed), protocol, domain) && AppIdOf(n) == app
  {
    var t := Updated(EMPTY, dir, listing, faults, removed);
    var d, s :| d in listing && d.name == app + DISPATCHER_SUFFIX && Offers(d, protocol, s) && Like(domain, "%" + s)
      && forall d', s' :: d' in listing && Offers(d', protocol, s') && Like(domain, "%" + s') ==> |s'| <= |s|;
    var n := BuildFilename(dir, d.name);
    SyncedShows(dir, listing, faults, removed, n, protocol, s);
    forall n', s' | Shows(t, n', protocol, s') && Like(domain, "%" + s')
      ensures |s'| <= |s|
    {
      SyncedShows(dir, listing, faults, removed, n', protocol, s');
    }
    assert ShowsLongest(t, protocol, domain, n, s);
    LongestIsShown(t, protocol, domain, n);
    var same := AppOfFile(dir, d);
    assert d.name[..|app|] == app && d.name[..|same|] == same;
  }

  /** The lookup after a sync: it fails exactly when no file offers a match, and the possible answers are
      exactly the apps with an entry of maximal length. */
  lemma SyncThenFind(dir: string, listing: seq<DiskFile>, faults: Faults, removed: seq<string>,
                     protocol: string, domain: string, plan: Planner)
    requires DistinctNames(listing) && IsListing(listing) && RemovesLeftovers(EMPTY, dir, listing, faults, removed)
    ensures var t := Updated(EMPTY, dir, listing, faults, removed);
            && (FindUrl(t, protocol, domain, plan).None? <==> NothingOffered(listing, protocol, domain))
            && forall app :: Best(listing, protocol, domain, app) <==>
                 exists n :: n in Longest(t, protocol, domain) && AppIdOf(n) == app
  {
    var t := Updated(EMPTY, dir, listing, faults, removed);
    NothingFoundIffNothingMatches(t, protocol, domain, plan);
    forall n, s {
      SyncedShows(dir, listing, faults, removed, n, protocol, s);
    }
    forall d, s | d in listing && Offers(d, protocol, s)
      ensures Shows(t, BuildFilename(dir, d.name), protocol, s)
    {
    }
    forall n | n in Longest(t, protocol, domain) {
      LongestIsBest(dir, listing, faults, removed, protocol, domain, n);
    }
    forall app | Best(listing, protocol, domain, app) {
      BestIsLongest(dir, listing, faults, removed, protocol, domain, app);
    }
  }

  /** Sync, then resolve: a URL on the generic route, intents included, opens an app exactly when some file
      on disk has a matching accepted entry; it is then an app with an entry of maximal length, and every
      such app is a possible answer. */
  lemma SyncThenResolve(dir: string, listing: seq<DiskFile>, faults: Faults, removed: seq<string>,
                        url: string, protocol: string, domain: string, plan: Planner, ual: Launcher)
    requires DistinctNames(listing) && IsListing(listing) && RemovesLeftovers(EMPTY, dir, listing, faults, removed)
    requires IsPlanner(plan) && RoutesTo(url, ToIndex(protocol, domain))
    ensures var t := Updated(EMPTY, dir, listing, faults, removed);
            var r := UrlToAppId(url, t, plan, ual);
            && (r.None? <==> NothingOffered(listing, protocol, domain))
            && (r.Some? ==> Best(listing, protocol, domain, r.value.appid) && r.value.outUrl == Some(url))
            && forall app :: Best(listing, protocol, domain, app) <==>
                 exists n :: n in Longest(t, protocol, domain) && AppIdOf(n) == app
  {
    CascadeFollowsRoute(url, ToIndex(protocol, domain), Updated(EMPTY, dir, listing, faults, removed), plan, ual);
    SyncThenFind(dir, listing, faults, removed, protocol, domain, plan);
  }

  lemma NextState(t: Tables, script: seq<Statement>, k: nat)
    requires k < |script|
    ensures Run(t, script[..k + 1]) == Execute(Run(t, script[..k]), script[k])
  {
    assert script[..k + 1] == script[..k] + [script[k]];
    RunAppend(t, script[..k], [script[k]]);
    RunOne(Run(t, script[..k]), script[k]);
  }

  lemma {:induction false} RunKeepsValid(t: Tables, script: seq<Statement>, k: nat)
    requires Valid(t) && k <= |script|
    ensures Valid(Run(t, script[..k]))
    decreases k
  {
    if k > 0 {
      RunKeepsValid(t, script, k - 1);
      NextState(t, script, k - 1);
      ExecuteKeepsValid(Run(t, script[..k - 1]), script[k - 1]);
    }
  }

  /** Statement `k`, when its turn comes, neither brings nor takes away a longest match. */
  ghost predicate UnrelatedAt(t: Tables, script: seq<Statement>, k: nat, protocol: string, domain: string)
    requires k < |script|
  {
    Unrelated(Run(t, script[..k]), script[k], protocol, domain)
  }

  /** Between a test and a dispatch any number of unrelated statements of any kind leave the possible answers
      as they were. */
  lemma {:induction false} UnrelatedStatementsKeepAnswers(t: Tables, script: seq<Statement>, k: nat,
                                                          protocol: string, domain: string)
    requires Valid(t) && k <= |script| && forall j: nat :: j < k ==> UnrelatedAt(t, script, j, protocol, domain)
    ensures LongestMatches(Run(t, script[..k]), protocol, domain) == LongestMatches(t, protocol, domain)
    ensures Longest(Run(t, script[..k]), protocol, domain) == Longest(t, protocol, domain)
    decreases k
  {
    if k > 0 {
      UnrelatedStatementsKeepAnswers(t, script, k - 1, protocol, domain);
      assert UnrelatedAt(t, script, k - 1, protocol, domain);
      RunKeepsValid(t, script, k - 1);
      NextState(t, script, k - 1);
      UnrelatedKeepsLongest(Run(t, script[..k - 1]), script[k - 1], protocol, domain);
    } else {
      assert script[..0] == [];
    }
    LongestAreNames(t, protocol, domain);
    LongestAreNames(Run(t, script[..k]), protocol, domain);
  }

  /** Judged by the tables at the start: an insert falls short, any other statement is of a file that shows
      no longest match. */
  ghost predicate UnrelatedNow(t: Tables, st: Statement, protocol: string, domain: string) {
    if st.InsertUrl? then FallsShort(t, Url(st.protocol, st.domainsuffix), protocol, domain)
    else st.name !in Longest(t, protocol, domain)
  }

  /** For a whole run of the updater, from tables with the rowid invariant, the tables at the start decide. */
  lemma UnrelatedUpdateKeepsAnswers(t: Tables, dir: string, listing: seq<DiskFile>, faults: Faults,
                                    removed: seq<string>, protocol: string, domain: string)
    requires Inv(t)
    requires forall st :: st in UpdateScript(t, dir, listing, faults, removed) ==>
                          UnrelatedNow(t, st, protocol, domain)
    ensures Longest(Updated(t, dir, listing, faults, removed), protocol, domain) == Longest(t, protocol, domain)
  {
    var script := UpdateScript(t, dir, listing, faults, removed);
    UpdateIsSafeScript(t, dir, listing, faults, removed);
    UnrelatedThroughout(t, script, |script|, protocol, domain);
    UnrelatedStatementsKeepAnswers(t, script, |script|, protocol, domain);
    assert script[..|script|] == script;
  }

  lemma {:induction false} UnrelatedThroughout(t: Tables, script: seq<Statement>, k: nat,
                                               protocol: string, domain: string)
    requires Inv(t) && NoSetAfterDelete(script) && k <= |script|
    requires forall st :: st in script ==> UnrelatedNow(t, st, protocol, domain)
    ensures forall j: nat :: j < k ==> UnrelatedAt(t, script, j, protocol, domain)
    decreases k
  {
    if k > 0 {
      UnrelatedThroughout(t, script, k - 1, protocol, domain);
      UnrelatedStatementsKeepAnswers(t, script, k - 1, protocol, domain);
      UnrelatedInTurn(t, script, k - 1, protocol, domain);
    }
  }

  lemma UnrelatedInTurn(t: Tables, script: seq<Statement>, k: nat, protocol: string, domain: string)
    requires Inv(t) && NoSetAfterDelete(script) && k < |script|
    requires UnrelatedNow(t, script[k], protocol, domain)
    requires LongestMatches(Run(t, script[..k]), protocol, domain) == LongestMatches(t, protocol, domain)
    requires Longest(Run(t, script[..k]), protocol, domain) == Longest(t, protocol, domain)
    ensures UnrelatedAt(t, script, k, protocol, domain)
  {
    if script[k].SetTime? {
      RunKeepsInv(t, script[..k]);
      var now := Run(t, script[..k]);
      assert UrlsAt(now, NextRowid(now)) == {};
    }
  }
}
