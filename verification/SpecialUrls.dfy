/** The application, appid and intent patterns, each proved equal to a direct reading of the URL. */
module SpecialUrls {
  import opened Text
  import opened Regex
  import opened UrlPatterns

  // ---- Application URLs ----

  const APPLICATION_PREFIX := "application:///"

  predicate IsApplicationUrl(s: string, body: string) {
    s == APPLICATION_PREFIX + body + ".desktop" && AllIn(body, APP_FILE)
  }

  lemma ApplicationParts(s: string, body: string)
    requires s == APPLICATION_PREFIX + body + ".desktop"
    ensures |s| == |body| + 23 && HasPrefix(s, APPLICATION_PREFIX)
    ensures s[|s| - 8..] == ".desktop" && s[15..|s| - 8] == body
  {
  }

  const APPLICATION_SUFFIX := Push(Cat(Str(".desktop"), End), Nil)

  lemma ApplicationStart(s: string)
    requires HasPrefix(s, APPLICATION_PREFIX)
    ensures MatchAtStart(APPLICATION_RE, s)
         == Match(Push(Star(APP_FILE), Push(Close(1), APPLICATION_SUFFIX)), s, 15, Captures(map[1 := 15], map[]))
  {
    var file := Cat(Group(1, Star(APP_FILE)), Cat(Str(".desktop"), End));
    assert MatchAtStart(APPLICATION_RE, s) == Match(Push(Str(APPLICATION_PREFIX), Push(file, Nil)), s, 0, NO_CAPTURES);
    assert s[0..] == s;
    assert Match(Push(file, Nil), s, 15, NO_CAPTURES)
        == Match(Push(Group(1, Star(APP_FILE)), APPLICATION_SUFFIX), s, 15, NO_CAPTURES);
  }

  lemma ApplicationNoPrefix(s: string)
    requires !HasPrefix(s, APPLICATION_PREFIX)
    ensures MatchAtStart(APPLICATION_RE, s).None?
  {
    var file := Cat(Group(1, Star(APP_FILE)), Cat(Str(".desktop"), End));
    assert MatchAtStart(APPLICATION_RE, s) == Match(Push(Str(APPLICATION_PREFIX), Push(file, Nil)), s, 0, NO_CAPTURES);
    assert s[0..] == s;
  }

  lemma DesktopStep(s: string, j: nat, c1: Captures)
    requires NewlineFree(s) && 15 <= j <= |s| && c1 == Captures(map[1 := 15], map[])
    ensures Match(Push(Close(1), Push(Cat(Str(".desktop"), End), Nil)), s, j, c1)
         == (if s[j..] == ".desktop" then Some(c1.(texts := c1.texts[1 := s[15..j]])) else None)
  {
    var c2 := c1.(texts := c1.texts[1 := s[15..j]]);
    var end := Push(End, Nil);
    assert Match(Push(Cat(Str(".desktop"), End), Nil), s, j, c2) == Match(Push(Str(".desktop"), end), s, j, c2);
    if HasPrefix(s[j..], ".desktop") {
      EndOnly(s, j + 8, c2);
      assert s[j..][..8] == ".desktop";
      assert j + 8 == |s| <==> s[j..] == ".desktop";
    }
  }

  lemma ApplicationMatches(s: string, body: string)
    requires NewlineFree(s) && IsApplicationUrl(s, body)
    ensures MatchAtStart(APPLICATION_RE, s).Some? && Fetch(MatchAtStart(APPLICATION_RE, s).value, 1) == body
  {
    ApplicationParts(s, body);
    var c1 := Captures(map[1 := 15], map[]);
    ApplicationStart(s);
    var j := |s| - 8;
    DesktopStep(s, j, c1);
    forall k | j < k <= |s|
      ensures Match(Push(Close(1), APPLICATION_SUFFIX), s, k, c1).None?
    {
      DesktopStep(s, k, c1);
    }
    StarTakes(APP_FILE, Push(Close(1), APPLICATION_SUFFIX), s, 15, j, c1);
  }

  lemma ApplicationNoSuffix(s: string)
    requires NewlineFree(s) && HasPrefix(s, APPLICATION_PREFIX)
    requires forall j :: 15 <= j <= RunEnd(s, 15, APP_FILE) ==> s[j..] != ".desktop"
    ensures MatchAtStart(APPLICATION_RE, s).None?
  {
    var c1 := Captures(map[1 := 15], map[]);
    ApplicationStart(s);
    forall j | 15 <= j <= RunEnd(s, 15, APP_FILE)
      ensures Match(Push(Close(1), APPLICATION_SUFFIX), s, j, c1).None?
    {
      DesktopStep(s, j, c1);
    }
    StarFails(APP_FILE, Push(Close(1), APPLICATION_SUFFIX), s, 15, c1);
  }

  lemma ApplicationMatchIsStripped(s: string)
    requires NewlineFree(s) && MatchAtStart(APPLICATION_RE, s).Some?
    ensures exists body :: IsApplicationUrl(s, body)
  {
    if HasPrefix(s, APPLICATION_PREFIX) {
      if forall j :: 15 <= j <= RunEnd(s, 15, APP_FILE) ==> s[j..] != ".desktop" {
        ApplicationNoSuffix(s);
      } else {
        var j :| 15 <= j <= RunEnd(s, 15, APP_FILE) && s[j..] == ".desktop";
        Cut(s, 15, j);
        assert IsApplicationUrl(s, s[15..j]);
      }
    } else {
      ApplicationNoPrefix(s);
    }
  }

  /** Although the class also matches ".desktop", the pattern strips exactly the prefix and the final suffix. */
  lemma ApplicationIsStripping(s: string)
    requires NewlineFree(s)
    ensures MatchAtStart(APPLICATION_RE, s).Some? <==> exists body :: IsApplicationUrl(s, body)
    ensures forall body :: IsApplicationUrl(s, body) ==> Fetch(MatchAtStart(APPLICATION_RE, s).value, 1) == body
  {
    forall body | IsApplicationUrl(s, body) {
      ApplicationMatches(s, body);
    }
    if MatchAtStart(APPLICATION_RE, s).Some? {
      ApplicationMatchIsStripped(s);
    }
  }

  lemma ApplicationRunsToEnd()
    ensures RunsToEnd(APPLICATION_RE)
  {
    assert RunsToEnd(Cat(Str(".desktop"), End));
    assert AvoidsNewline(Str(APPLICATION_PREFIX));
  }

  /** The application pattern on any URL. */
  lemma ApplicationOnAnyUrl(s: string)
    ensures MatchAtStart(APPLICATION_RE, s).Some? <==> OneLine(s) && exists body :: IsApplicationUrl(Body(s), body)
    ensures OneLine(s) ==> forall body :: IsApplicationUrl(Body(s), body) ==>
                                          Fetch(MatchAtStart(APPLICATION_RE, s).value, 1) == body
  {
    ApplicationRunsToEnd();
    MatchOnAnyText(APPLICATION_RE, s);
    if OneLine(s) {
      ApplicationIsStripping(Body(s));
    }
  }

  // ---- Appid URLs ----

  const APPID_PREFIX := "appid://"

  datatype Triplet = Triplet(package: string, app: string, version: string)

  predicate IsTriplet(t: Triplet) {
    AllIn(t.package, PACKAGE) && AllIn(t.app, APP_NAME) && AllIn(t.version, HOST)
  }

  function PrintAppId(t: Triplet): string {
    APPID_PREFIX + t.package + "/" + t.app + "/" + t.version
  }

  /** The three groups of an appid URL. */
  function ParseAppId(s: string): Option<Triplet> {
    var m := MatchAtStart(APPID_RE, s);
    if m.Some? then Some(Triplet(Fetch(m.value, 1), Fetch(m.value, 2), Fetch(m.value, 3))) else None
  }

  /** The same read directly: three runs separated by slashes, up to the end. */
  function SplitAppId(s: string): Option<Triplet> {
    if !HasPrefix(s, APPID_PREFIX) then None
    else
      var a := RunEnd(s, 8, PACKAGE);
      if a == |s| || s[a] != '/' then None
      else
        var b := RunEnd(s, a + 1, APP_NAME);
        if b == |s| || s[b] != '/' then None
        else if RunEnd(s, b + 1, HOST) != |s| then None
        else Some(Triplet(s[8..a], s[a + 1..b], s[b + 1..]))
  }

  lemma AppIdVersion(s: string, b: nat, m: Option<Captures>, c2: Captures)
    requires NewlineFree(s) && b < |s| && m == Match(Push(VERSION_ON_RE, Nil), s, b + 1, c2)
    ensures if RunEnd(s, b + 1, HOST) != |s| then m.None? else m.Some? && m.value.texts == c2.texts[3 := s[b + 1..]]
  {
    GroupToEnd(3, HOST, s, b + 1, c2, m, Captures(c2.starts[3 := b + 1], c2.texts[3 := s[b + 1..]]));
  }

  /** The match reads name and version behind the slash at `a`. */
  ghost predicate ReadsNameOn(s: string, a: nat, m: Option<Captures>, before: map<nat, string>)
    requires a < |s|
  {
    var b := RunEnd(s, a + 1, APP_NAME);
    if b == |s| || s[b] != '/' then m.None?
    else if RunEnd(s, b + 1, HOST) != |s| then m.None?
    else m.Some? && m.value.texts == before[2 := s[a + 1..b]][3 := s[b + 1..]]
  }

  lemma AppIdName(s: string, a: nat, m: Option<Captures>, c1: Captures)
    requires NewlineFree(s) && a < |s| && m == Match(Push(NAME_ON_RE, Nil), s, a + 1, c1)
    ensures ReadsNameOn(s, a, m, c1.texts)
  {
    var b := RunEnd(s, a + 1, APP_NAME);
    var c2 := Captures(c1.starts[2 := a + 1], c1.texts[2 := s[a + 1..b]]);
    GroupUpTo(2, APP_NAME, '/', VERSION_ON_RE, s, a + 1, c1, m, b, c2);
    if b < |s| && s[b] == '/' {
      AppIdVersion(s, b, m, c2);
    }
  }

  lemma AppIdRuns(s: string, a: nat, m: Option<Captures>)
    requires NewlineFree(s) && 8 <= |s| && m == Match(Push(PACKAGE_ON_RE, Nil), s, 8, NO_CAPTURES)
    requires a == RunEnd(s, 8, PACKAGE)
    ensures if a == |s| || s[a] != '/' then m.None? else ReadsNameOn(s, a, m, map[1 := s[8..a]])
  {
    var c1 := Captures(map[1 := 8], map[1 := s[8..a]]);
    GroupUpTo(1, PACKAGE, '/', NAME_ON_RE, s, 8, NO_CAPTURES, m, a, c1);
    if a < |s| && s[a] == '/' {
      AppIdName(s, a, m, c1);
    }
  }

  lemma ParseIsSplitAppId(s: string)
    requires NewlineFree(s)
    ensures ParseAppId(s) == SplitAppId(s)
  {
    assert MatchAtStart(APPID_RE, s) == Match(Push(Str(APPID_PREFIX), Push(PACKAGE_ON_RE, Nil)), s, 0, NO_CAPTURES);
    assert s[0..] == s;
    if HasPrefix(s, APPID_PREFIX) {
      AppIdRuns(s, RunEnd(s, 8, PACKAGE), Match(Push(PACKAGE_ON_RE, Nil), s, 8, NO_CAPTURES));
    }
  }

  lemma PackageRun(prefix: string, t: Triplet)
    requires IsTriplet(t)
    ensures var s := prefix + t.package + "/" + t.app + "/" + t.version;
            var a := |prefix| + |t.package|;
            && s[..|prefix|] == prefix && RunEnd(s, |prefix|, PACKAGE) == a < |s|
            && s[a] == '/' && s[|prefix|..a] == t.package
  {
    var s := prefix + t.package + "/" + t.app + "/" + t.version;
    var tail := "/" + t.app + "/" + t.version;
    assert s == prefix + t.package + tail;
    RunOfPiece(prefix, t.package, tail, PACKAGE);
    Pieces(prefix, t.package, tail);
    assert s[|prefix| + |t.package|] == tail[0];
  }

  lemma NameRun(head: string, t: Triplet)
    requires IsTriplet(t)
    ensures var s := head + "/" + t.app + "/" + t.version;
            var b := |head| + 1 + |t.app|;
            RunEnd(s, |head| + 1, APP_NAME) == b < |s| && s[b] == '/' && s[|head| + 1..b] == t.app
  {
    var s := head + "/" + t.app + "/" + t.version;
    var tail := "/" + t.version;
    assert s == (head + "/") + t.app + tail;
    RunOfPiece(head + "/", t.app, tail, APP_NAME);
    Pieces(head + "/", t.app, tail);
    assert s[|head| + 1 + |t.app|] == tail[0];
  }

  lemma VersionRun(head: string, t: Triplet)
    requires IsTriplet(t)
    ensures var s := head + "/" + t.version;
            RunEnd(s, |head| + 1, HOST) == |s| && s[|head| + 1..] == t.version
  {
    var s := head + "/" + t.version;
    assert s == (head + "/") + t.version + "";
    RunOfPiece(head + "/", t.version, "", HOST);
  }

  lemma PrintIsSplit(t: Triplet)
    requires IsTriplet(t)
    ensures SplitAppId(PrintAppId(t)) == Some(t)
  {
    PackageRun(APPID_PREFIX, t);
    NameRun(APPID_PREFIX + t.package, t);
    VersionRun(APPID_PREFIX + t.package + "/" + t.app, t);
  }

  lemma ConcatNewlineFree(a: string, b: string)
    requires NewlineFree(a) && NewlineFree(b)
    ensures NewlineFree(a + b)
  {
  }

  lemma PrintNewlineFree(t: Triplet)
    requires IsTriplet(t)
    ensures NewlineFree(PrintAppId(t))
  {
    ConcatNewlineFree(APPID_PREFIX, t.package);
    ConcatNewlineFree(APPID_PREFIX + t.package, "/");
    ConcatNewlineFree(APPID_PREFIX + t.package + "/", t.app);
    ConcatNewlineFree(APPID_PREFIX + t.package + "/" + t.app, "/");
    ConcatNewlineFree(APPID_PREFIX + t.package + "/" + t.app + "/", t.version);
  }

  lemma ThreePieces(s: string, p: nat, a: nat, b: nat)
    requires p <= a < b < |s| && s[a] == '/' && s[b] == '/'
    ensures s == s[..p] + s[p..a] + "/" + s[a + 1..b] + "/" + s[b + 1..]
  {
    Extend(s, p, a);
    Extend(s, a + 1, b);
    assert s[..a] + "/" == s[..a + 1] && s[..b] + "/" == s[..b + 1];
    assert s[..b + 1] + s[b + 1..] == s;
  }

  lemma SplitIsPrint(s: string)
    requires SplitAppId(s).Some?
    ensures IsTriplet(SplitAppId(s).value) && PrintAppId(SplitAppId(s).value) == s
  {
    var a := RunEnd(s, 8, PACKAGE);
    var b := RunEnd(s, a + 1, APP_NAME);
    ThreePieces(s, 8, a, b);
    assert s[..8] == APPID_PREFIX;
  }

  lemma AppIdRunsToEnd()
    ensures RunsToEnd(APPID_RE)
  {
    assert RunsToEnd(VERSION_ON_RE);
    assert RunsToEnd(Cat(Chr('/'), VERSION_ON_RE));
    assert RunsToEnd(NAME_ON_RE);
    assert RunsToEnd(Cat(Chr('/'), NAME_ON_RE));
    assert RunsToEnd(PACKAGE_ON_RE);
    assert AvoidsNewline(Str(APPID_PREFIX));
  }

  /** The appid pattern on any URL. */
  lemma AppIdOnAnyUrl(s: string)
    ensures ParseAppId(s) == if OneLine(s) then SplitAppId(Body(s)) else None
  {
    AppIdRunsToEnd();
    MatchOnAnyText(APPID_RE, s);
    if OneLine(s) {
      ParseIsSplitAppId(Body(s));
    }
  }

  /** Printing and parsing appid URLs are inverses: every triplet is read back, also with a newline
      of any kind at the end... */
  lemma PrintThenParse(t: Triplet, newline: string)
    requires IsTriplet(t) && NewlineLength(newline, 0) == |newline|
    ensures ParseAppId(PrintAppId(t) + newline) == Some(t)
  {
    PrintIsSplit(t);
    PrintNewlineFree(t);
    BodyOfLine(PrintAppId(t), newline);
    AppIdOnAnyUrl(PrintAppId(t) + newline);
  }

  /** ...and whatever is parsed prints to the URL it came from, up to one newline at its end. */
  lemma ParseThenPrint(s: string)
    requires ParseAppId(s).Some?
    ensures IsTriplet(ParseAppId(s).value) && PrintAppId(ParseAppId(s).value) == Body(s)
  {
    AppIdOnAnyUrl(s);
    SplitIsPrint(Body(s));
  }

  // ---- Intent URLs ----

  const PACKAGE_EQ := "package="

  /** `package=`, a run of the class and `;` fit at position `p`. */
  predicate FitsAt(s: string, p: nat)
    requires p <= |s|
  {
    HasPrefix(s[p..], PACKAGE_EQ) &&
    var e := RunEnd(s, p + 8, ANDROID_PACKAGE);
    e < |s| && s[e] == ';'
  }

  function LastFit(s: string, from: nat, p: int): (r: int)
    requires from <= |s| && p <= |s|
    ensures r == -1 || (from <= r <= p && FitsAt(s, r))
    ensures forall q :: from <= q <= p && q > r ==> !FitsAt(s, q)
    decreases p - from + 1
  {
    if p < from then -1
    else if FitsAt(s, p) then p
    else LastFit(s, from, p - 1)
  }

  /** The package an intent URL names: that of the last position where one fits. */
  function IntentPackage(s: string): Option<string> {
    if !HasPrefix(s, "intent://") then None
    else
      var p := LastFit(s, 9, |s|);
      if p < 0 then None else Some(s[p + 8..RunEnd(s, p + 8, ANDROID_PACKAGE)])
  }

  /** The package is the text between `package=` and the next ';', where no later `package=` stands. */
  lemma IntentPackageOf(front: string, package: string, rest: string)
    requires AllIn(package, ANDROID_PACKAGE)
    requires var s := "intent://" + front + "package=" + package + ";" + rest;
             forall q :: 9 + |front| < q <= |s| ==> !HasPrefix(s[q..], "package=")
    ensures IntentPackage("intent://" + front + "package=" + package + ";" + rest) == Some(package)
  {
    var head := "intent://" + front;
    var s := head + "package=" + package + ";" + rest;
    var p := |head|;
    assert s[..9] == "intent://";
    assert s[p..p + 8] == "package=" && s[p..][..8] == s[p..p + 8];
    assert forall i :: 0 <= i < |package| ==> s[p + 8 + i] == package[i];
    assert forall i :: p + 8 <= i < p + 8 + |package| ==> s[i] == package[i - p - 8];
    assert s[p + 8 + |package|] == ';';
    RunEndAt(s, p + 8, ANDROID_PACKAGE, p + 8 + |package|);
    assert s[p + 8..p + 8 + |package|] == package;
    assert FitsAt(s, p);
    assert forall q :: p < q <= |s| ==> !FitsAt(s, q);
    assert LastFit(s, 9, |s|) == p;
  }

  const PACKAGE_STACK :=
    Push(Cat(Str(PACKAGE_EQ), Cat(Group(1, Star(ANDROID_PACKAGE)), Cat(Chr(';'), Cat(Star(Dot), End)))), Nil)

  lemma PackageStep(s: string, p: nat)
    requires NewlineFree(s) && p <= |s|
    ensures Match(PACKAGE_STACK, s, p, NO_CAPTURES).Some? <==> FitsAt(s, p)
    ensures FitsAt(s, p) ==> Fetch(Match(PACKAGE_STACK, s, p, NO_CAPTURES).value, 1)
                             == s[p + 8..RunEnd(s, p + 8, ANDROID_PACKAGE)]
  {
    var tail := Cat(Star(Dot), End);
    var group := Cat(Group(1, Star(ANDROID_PACKAGE)), Cat(Chr(';'), tail));
    assert Match(PACKAGE_STACK, s, p, NO_CAPTURES) == Match(Push(Str(PACKAGE_EQ), Push(group, Nil)), s, p, NO_CAPTURES);
    if HasPrefix(s[p..], PACKAGE_EQ) {
      var e := RunEnd(s, p + 8, ANDROID_PACKAGE);
      var c := Captures(map[1 := p + 8], map[1 := s[p + 8..e]]);
      GroupUpTo(1, ANDROID_PACKAGE, ';', tail, s, p + 8, NO_CAPTURES,
                Match(Push(group, Nil), s, p + 8, NO_CAPTURES), e, c);
      if e < |s| && s[e] == ';' {
        EndMatches(s, c);
        DotToEnd(Push(End, Nil), s, e + 1, c);
        assert Match(Push(tail, Nil), s, e + 1, c) == Match(Push(Star(Dot), Push(End, Nil)), s, e + 1, c);
      }
    }
  }

  /** The greedy `.*` makes the last fitting `package=` win. */
  lemma IntentIsLastFit(s: string)
    requires NewlineFree(s)
    ensures MatchAtStart(INTENT_RE, s).Some? <==> IntentPackage(s).Some?
    ensures IntentPackage(s).Some? ==> Fetch(MatchAtStart(INTENT_RE, s).value, 1) == IntentPackage(s).value
  {
    var rest := Cat(Star(Dot), PACKAGE_STACK.top);
    assert INTENT_RE == Cat(Str("intent://"), rest);
    assert MatchAtStart(INTENT_RE, s) == Match(Push(Str("intent://"), Push(rest, Nil)), s, 0, NO_CAPTURES);
    assert s[0..] == s;
    if HasPrefix(s, "intent://") {
      assert Match(Push(rest, Nil), s, 9, NO_CAPTURES) == Match(Push(Star(Dot), PACKAGE_STACK), s, 9, NO_CAPTURES);
      RunOfDot(s, 9);
      forall q | 9 <= q <= |s| {
        PackageStep(s, q);
      }
      var p := LastFit(s, 9, |s|);
      if p >= 0 {
        StarTakes(Dot, PACKAGE_STACK, s, 9, p, NO_CAPTURES);
      } else {
        StarFails(Dot, PACKAGE_STACK, s, 9, NO_CAPTURES);
      }
    }
  }

  lemma IntentRunsToEnd()
    ensures RunsToEnd(INTENT_RE)
  {
    assert RunsToEnd(Cat(Star(Dot), End));
    assert RunsToEnd(Cat(Chr(';'), Cat(Star(Dot), End)));
    assert RunsToEnd(Cat(Group(1, Star(ANDROID_PACKAGE)), Cat(Chr(';'), Cat(Star(Dot), End))));
    assert AvoidsNewline(Str(PACKAGE_EQ));
    assert RunsToEnd(PACKAGE_STACK.top);
    assert AvoidsNewline(Str("intent://"));
  }

  /** The intent pattern on any URL. */
  lemma IntentOnAnyUrl(s: string)
    ensures MatchAtStart(INTENT_RE, s).Some? <==> OneLine(s) && IntentPackage(Body(s)).Some?
    ensures OneLine(s) && IntentPackage(Body(s)).Some? ==>
            Fetch(MatchAtStart(INTENT_RE, s).value, 1) == IntentPackage(Body(s)).value
  {
    IntentRunsToEnd();
    MatchOnAnyText(INTENT_RE, s);
    if OneLine(s) {
      IntentIsLastFit(Body(s));
    }
  }
}
