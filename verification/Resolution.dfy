/** The longest-suffix lookup: which file a protocol and a domain resolve to. */
module Resolution {
  import opened Text
  import opened SqlLike
  import opened UrlTables

  const DISPATCHER_SUFFIX := ".url-dispatcher"

  /** A joined row that matches the query. */
  datatype Match = Match(name: string, suffix: string)

  /** select configfiles.name from configfiles, urls where urls.sourcefile = configfiles.rowid
      and urls.protocol = ?1 and ?2 like '%' || urls.domainsuffix */
  function Matches(t: Tables, protocol: string, domain: string): set<Match> {
    set u | u in t.urls && u.sourcefile in t.configfiles && u.protocol == protocol && Like(domain, "%" + u.domainsuffix)
      :: Match(t.configfiles[u.sourcefile].name, u.domainsuffix)
  }

  predicate IsLongest(m: Match, s: set<Match>) {
    m in s && forall o :: o in s ==> |o.suffix| <= |m.suffix|
  }

  /** The file names that `order by length(urls.domainsuffix) desc limit 1` may return. */
  function Longest(t: Tables, protocol: string, domain: string): set<string> {
    set m | m in Matches(t, protocol, domain) && IsLongest(m, Matches(t, protocol, domain)) :: m.name
  }

  /** SQL leaves the choice among equally long rows to the engine; it is some function of the state and the query. */
  type Planner = (Tables, string, string) -> string

  ghost predicate IsPlanner(plan: Planner) {
    forall t, p, d :: Longest(t, p, d) != {} ==> plan(t, p, d) in Longest(t, p, d)
  }

  /** The basename cut at the last ".url-dispatcher", if there is one. */
  function AppIdOf(filename: string): string {
    var base := Basename(filename);
    var p := LastOccurrence(base, DISPATCHER_SUFFIX, |base|);
    if p >= 0 then base[..p] else base
  }

  function FindUrl(t: Tables, protocol: string, domain: string, plan: Planner): Option<string> {
    if Longest(t, protocol, domain) == {} then None else Some(AppIdOf(plan(t, protocol, domain)))
  }

  // ---- What the lookup means for a reader of the index ----

  /** File `n` shows a URL of this protocol whose suffix matches the domain. */
  ghost predicate Shows(t: Tables, n: string, protocol: string, suffix: string) {
    Seen(t, n).Some? && Url(protocol, suffix) in Seen(t, n).value.urls
  }

  lemma MatchIsShown(t: Tables, protocol: string, domain: string, m: Match)
    ensures m in Matches(t, protocol, domain)
       <==> Shows(t, m.name, protocol, m.suffix) && Like(domain, "%" + m.suffix)
  {
    var n := m.name;
    if m in Matches(t, protocol, domain) {
      var u :| u in t.urls && u.sourcefile in t.configfiles && u.protocol == protocol
               && Like(domain, "%" + u.domainsuffix) && m == Match(t.configfiles[u.sourcefile].name, u.domainsuffix);
      assert u.sourcefile in RowidsOf(t, n);
      assert Holds(t, u.sourcefile, n);
      assert Url(u.protocol, u.domainsuffix) in Visible(t, n);
    }
    if Shows(t, n, protocol, m.suffix) && Like(domain, "%" + m.suffix) {
      var u :| u in t.urls && Holds(t, u.sourcefile, n) && Url(u.protocol, u.domainsuffix) == Url(protocol, m.suffix);
      assert u.domainsuffix == m.suffix;
    }
  }

  lemma {:induction false} LongestExists(s: set<Match>)
    requires s != {}
    ensures exists m :: IsLongest(m, s)
    decreases |s|
  {
    var x :| x in s;
    var rest := s - {x};
    assert forall o :: o in s ==> o == x || o in rest;
    if rest == {} {
      assert IsLongest(x, s);
    } else {
      LongestExists(rest);
      var m :| IsLongest(m, rest);
      assert IsLongest(if |m.suffix| >= |x.suffix| then m else x, s);
    }
  }

  /** The lookup fails exactly when no file shows a matching URL. */
  lemma NothingFoundIffNothingMatches(t: Tables, protocol: string, domain: string, plan: Planner)
    ensures FindUrl(t, protocol, domain, plan).None? <==>
            forall n, s :: Shows(t, n, protocol, s) ==> !Like(domain, "%" + s)
  {
    var ms := Matches(t, protocol, domain);
    if ms == {} {
      forall n, s | Shows(t, n, protocol, s)
        ensures !Like(domain, "%" + s)
      {
        MatchIsShown(t, protocol, domain, Match(n, s));
      }
      assert Longest(t, protocol, domain) == {};
    } else {
      LongestExists(ms);
      var m :| IsLongest(m, ms);
      MatchIsShown(t, protocol, domain, m);
      assert m.name in Longest(t, protocol, domain);
      assert Shows(t, m.name, protocol, m.suffix);
    }
  }

  /** File `n` shows a matching suffix, and no file shows a longer one. */
  ghost predicate ShowsLongest(t: Tables, protocol: string, domain: string, n: string, s: string) {
    && Shows(t, n, protocol, s) && Like(domain, "%" + s)
    && forall n', s' :: Shows(t, n', protocol, s') && Like(domain, "%" + s') ==> |s'| <= |s|
  }

  lemma LongestIsShown(t: Tables, protocol: string, domain: string, n: string)
    ensures n in Longest(t, protocol, domain) <==> exists s :: ShowsLongest(t, protocol, domain, n, s)
  {
    var ms := Matches(t, protocol, domain);
    forall m {
      MatchIsShown(t, protocol, domain, m);
    }
    if n in Longest(t, protocol, domain) {
      var m :| m in ms && IsLongest(m, ms) && m.name == n;
      forall n', s' | Shows(t, n', protocol, s') && Like(domain, "%" + s')
        ensures |s'| <= |m.suffix|
      {
        assert Match(n', s') in ms;
      }
      assert ShowsLongest(t, protocol, domain, n, m.suffix);
    }
    if s :| ShowsLongest(t, protocol, domain, n, s) {
      var m := Match(n, s);
      assert m in ms && IsLongest(m, ms);
    }
  }

  /** What is found is the file of a longest match; for suffixes without wildcards,
      all longest matches are one suffix up to ASCII case. */
  lemma FoundIsLongest(t: Tables, protocol: string, domain: string, plan: Planner) returns (n: string, s: string)
    requires IsPlanner(plan) && FindUrl(t, protocol, domain, plan).Some?
    ensures FindUrl(t, protocol, domain, plan) == Some(AppIdOf(n))
    ensures ShowsLongest(t, protocol, domain, n, s)
    ensures WildcardFree(s) ==> forall n', s' :: ShowsLongest(t, protocol, domain, n', s') && WildcardFree(s')
                                             ==> SameFolded(s', s)
  {
    n := plan(t, protocol, domain);
    LongestIsShown(t, protocol, domain, n);
    s :| ShowsLongest(t, protocol, domain, n, s);
    forall n', s' | ShowsLongest(t, protocol, domain, n', s') && WildcardFree(s') && WildcardFree(s)
      ensures SameFolded(s', s)
    {
      MatchingSuffixesChain(domain, s', s);
    }
  }

  // ---- Stability ----

  lemma InsertMatches(t: Tables, st: Statement, protocol: string, domain: string)
    requires Valid(t) && st.InsertUrl?
    ensures Matches(Execute(t, st), protocol, domain) == Matches(t, protocol, domain) +
            if Known(t, st.name) && st.protocol == protocol && Like(domain, "%" + st.domainsuffix)
            then {Match(st.name, st.domainsuffix)} else {}
  {
    var t' := Execute(t, st);
    StatementRefines(t, st);
    forall m
      ensures m in Matches(t', protocol, domain)
         <==> (|| m in Matches(t, protocol, domain)
               || (&& Known(t, st.name) && st.protocol == protocol && Like(domain, "%" + st.domainsuffix)
                   && m == Match(st.name, st.domainsuffix)))
    {
      MatchIsShown(t, protocol, domain, m);
      MatchIsShown(t', protocol, domain, m);
      assert Seen(t', m.name) == EntryAfter(Seen(t, m.name), st, m.name);
    }
  }

  lemma LongestOfSuperset(s: set<Match>, m: Match, o: Match)
    requires o in s && |m.suffix| < |o.suffix|
    ensures forall x :: IsLongest(x, s + {m}) <==> IsLongest(x, s)
  {
  }

  /** A new row that does not match, or is strictly shorter than some match, leaves the candidates alone. */
  lemma ShorterRowChangesNothing(t: Tables, st: Statement, protocol: string, domain: string)
    requires Valid(t) && st.InsertUrl?
    requires st.protocol == protocol && Like(domain, "%" + st.domainsuffix) ==>
             exists o :: o in Matches(t, protocol, domain) && |st.domainsuffix| < |o.suffix|
    ensures Longest(Execute(t, st), protocol, domain) == Longest(t, protocol, domain)
  {
    InsertMatches(t, st, protocol, domain);
    var ms, ms' := Matches(t, protocol, domain), Matches(Execute(t, st), protocol, domain);
    if ms' == ms {
    } else {
      var o :| o in ms && |st.domainsuffix| < |o.suffix|;
      LongestOfSuperset(ms, Match(st.name, st.domainsuffix), o);
      assert forall m :: m in ms' && IsLongest(m, ms') <==> m in ms && IsLongest(m, ms);
    }
  }

  /** A matching row strictly longer than every match takes the lookup over, for a known file. */
  lemma LongerRowWins(t: Tables, st: Statement, domain: string, plan: Planner)
    requires Valid(t) && IsPlanner(plan)
    requires st.InsertUrl? && Known(t, st.name) && Like(domain, "%" + st.domainsuffix)
    requires forall o :: o in Matches(t, st.protocol, domain) ==> |o.suffix| < |st.domainsuffix|
    ensures FindUrl(Execute(t, st), st.protocol, domain, plan) == Some(AppIdOf(st.name))
  {
    InsertMatches(t, st, st.protocol, domain);
    var ms' := Matches(Execute(t, st), st.protocol, domain);
    var m := Match(st.name, st.domainsuffix);
    assert m in ms' && IsLongest(m, ms');
    assert forall x :: IsLongest(x, ms') ==> x == m;
    assert Longest(Execute(t, st), st.protocol, domain) == {st.name};
  }

  /** The matches that `order by length(urls.domainsuffix) desc` puts first. */
  function LongestMatches(t: Tables, protocol: string, domain: string): set<Match> {
    set m | m in Matches(t, protocol, domain) && IsLongest(m, Matches(t, protocol, domain))
  }

  lemma LongestAreNames(t: Tables, protocol: string, domain: string)
    ensures Longest(t, protocol, domain) == set m | m in LongestMatches(t, protocol, domain) :: m.name
  {
  }

  /** The URL does not match the query, or matches with a suffix shorter than the longest. */
  ghost predicate FallsShort(t: Tables, u: Url, protocol: string, domain: string) {
    u.protocol == protocol && Like(domain, "%" + u.suffix) ==>
    exists o :: o in LongestMatches(t, protocol, domain) && |u.suffix| < |o.suffix|
  }

  /** The statement brings no new longest match and takes none away: an insert falls short, a set-time or a deletion
      is of a file that shows no longest match, and so do the orphans that a set-time may adopt. */
  ghost predicate Unrelated(t: Tables, st: Statement, protocol: string, domain: string) {
    match st
    case InsertUrl(_, p, s) => FallsShort(t, Url(p, s), protocol, domain)
    case SetTime(name, _) =>
      && name !in Longest(t, protocol, domain)
      && forall u :: u in UrlsAt(t, NextRowid(t)) ==> FallsShort(t, u, protocol, domain)
    case DeleteUrls(name) => name !in Longest(t, protocol, domain)
    case DeleteFile(name) => name !in Longest(t, protocol, domain)
  }

  /** Taking away shorter elements and adding shorter ones leaves the longest. */
  lemma SameLongest(a: set<Match>, b: set<Match>)
    requires forall m :: m in a && IsLongest(m, a) ==> m in b
    requires forall m :: m in b && m !in a ==> exists o :: o in a && IsLongest(o, a) && |m.suffix| < |o.suffix|
    ensures forall m :: IsLongest(m, a) <==> IsLongest(m, b)
  {
    if a != {} {
      LongestExists(a);
      var top :| IsLongest(top, a);
      assert forall m :: m in b ==> |m.suffix| <= |top.suffix|;
    }
  }

  lemma MatchesAfter(t: Tables, st: Statement, protocol: string, domain: string, m: Match)
    requires Valid(t) && m in Matches(Execute(t, st), protocol, domain) && m !in Matches(t, protocol, domain)
    ensures m.name == st.name && Like(domain, "%" + m.suffix)
    ensures (st.InsertUrl? && Url(st.protocol, st.domainsuffix) == Url(protocol, m.suffix))
         || (st.SetTime? && Url(protocol, m.suffix) in UrlsAt(t, NextRowid(t)))
  {
    MatchIsShown(t, protocol, domain, m);
    MatchIsShown(Execute(t, st), protocol, domain, m);
    if m.name != st.name {
      OthersUnchanged(t, st, m.name);
    } else if st.SetTime? {
      SetTimeSeen(t, st.name, st.time);
    } else {
      OtherStatementSeen(t, st);
    }
  }

  lemma MatchesStay(t: Tables, st: Statement, protocol: string, domain: string, m: Match)
    requires Valid(t) && m in Matches(t, protocol, domain) && (st.InsertUrl? || m.name != st.name)
    ensures m in Matches(Execute(t, st), protocol, domain)
  {
    MatchIsShown(t, protocol, domain, m);
    MatchIsShown(Execute(t, st), protocol, domain, m);
    if m.name != st.name {
      OthersUnchanged(t, st, m.name);
    } else {
      OtherStatementSeen(t, st);
    }
  }

  lemma UnrelatedKeepsLongest(t: Tables, st: Statement, protocol: string, domain: string)
    requires Valid(t) && Unrelated(t, st, protocol, domain)
    ensures LongestMatches(Execute(t, st), protocol, domain) == LongestMatches(t, protocol, domain)
  {
    var a, b := Matches(t, protocol, domain), Matches(Execute(t, st), protocol, domain);
    LongestAreNames(t, protocol, domain);
    forall m | m in a && IsLongest(m, a)
      ensures m in b
    {
      assert m in LongestMatches(t, protocol, domain);
      MatchesStay(t, st, protocol, domain, m);
    }
    forall m | m in b && m !in a
      ensures exists o :: o in a && IsLongest(o, a) && |m.suffix| < |o.suffix|
    {
      MatchesAfter(t, st, protocol, domain, m);
      assert FallsShort(t, Url(protocol, m.suffix), protocol, domain);
      var o :| o in LongestMatches(t, protocol, domain) && |m.suffix| < |o.suffix|;
    }
    SameLongest(a, b);
  }

  // ---- The name of the answer ----

  /** The answer is the basename up to the last ".url-dispatcher" in it, or all of it when there is none. */
  lemma AppIdIsCut(filename: string)
    ensures var base, app := Basename(filename), AppIdOf(filename);
            && app <= base
            && (app != base ==> HasPrefix(base[|app|..], ".url-dispatcher"))
            && (forall p :: |app| < p <= |base| ==> !HasPrefix(base[p..], ".url-dispatcher"))
            && (app == base ==> forall p :: 0 <= p <= |base| ==> !HasPrefix(base[p..], ".url-dispatcher"))
  {
    var base := Basename(filename);
    var p := LastOccurrence(base, DISPATCHER_SUFFIX, |base|);
    if p >= 0 {
      assert |base[p..]| >= 15;
    }
  }

  /** Cutting at the last occurrence gives back A for every `A.url-dispatcher`, also when A contains the suffix. */
  lemma AppIdRoundTrip(dir: string, app: string)
    requires !Contains(app, '/')
    ensures AppIdOf(BuildFilename(dir, app + ".url-dispatcher")) == app
  {
    var name := app + DISPATCHER_SUFFIX;
    assert forall i :: 0 <= i < |DISPATCHER_SUFFIX| ==> DISPATCHER_SUFFIX[i] != '/';
    assert forall i :: 0 <= i < |name| ==> name[i] == if i < |app| then app[i] else DISPATCHER_SUFFIX[i - |app|];
    BasenameOfBuildFilename(dir, name);
    var p := LastOccurrence(name, DISPATCHER_SUFFIX, |name|);
    assert name[|app|..] == DISPATCHER_SUFFIX;
    assert HasPrefix(name[|app|..], DISPATCHER_SUFFIX);
    assert p >= |app|;
    assert |name[p..]| >= |DISPATCHER_SUFFIX|;
    assert p == |app|;
    assert name[..p] == app;
  }
}
