/** Routing a URL to an application, testing URLs, and dispatching them. */
module Dispatcher {
  import opened Text
  import opened Regex
  import opened UrlPatterns
  import opened GenericUrl
  import opened SpecialUrls
  import opened UrlTables
  import opened Resolution
  import opened UrlDb

  /** What the dispatcher asks of its surroundings: app ids, overlays and launching. */
  datatype Launcher = Launcher(
    tripletToAppId: Triplet -> Option<string>,
    packageOf: string -> Option<string>,
    isOverlay: string -> bool,
    sends: Launch -> bool)

  datatype Launch = ToApp(appid: string, url: Option<string>) | ToOverlay(appid: string, url: Option<string>)

  /** An app id, and the URL to hand over; the two special forms hand over none. */
  datatype Resolved = Resolved(appid: string, outUrl: Option<string>)

  // ---- Routing ----

  function IntentDomain(url: string): Option<string> {
    var m := MatchAtStart(INTENT_RE, url);
    if m.Some? then Some(Fetch(m.value, 1)) else None
  }

  function UrlToAppId(url: string, t: Tables, plan: Planner, ual: Launcher): Option<Resolved> {
    var appid := MatchAtStart(APPID_RE, url);
    if appid.Some? then
      var id := ual.tripletToAppId(Triplet(Fetch(appid.value, 1), Fetch(appid.value, 2), Fetch(appid.value, 3)));
      if id.Some? then Some(Resolved(id.value, None)) else None
    else
      var app := MatchAtStart(APPLICATION_RE, url);
      if app.Some? then Some(Resolved(Fetch(app.value, 1), None))
      else
        var generic := MatchAtStart(GENERIC_RE, url);
        if generic.Some? then
          var protocol := Fetch(generic.value, 1);
          var domain := if protocol == "intent" then IntentDomain(url) else Some(Fetch(generic.value, 2));
          var found := FindUrl(t, protocol, OrEmpty(domain), plan);
          if found.Some? then Some(Resolved(found.value, Some(url))) else None
        else None
  }

  datatype Route =
    | ToTriplet(triplet: Triplet)
    | ToDesktopFile(body: string)
    | ToIndex(protocol: string, domain: string)
    | Nowhere

  /** Where a URL goes, read directly: a newline at its end is ignored, one elsewhere leads nowhere. */
  ghost predicate RoutesTo(url: string, r: Route) {
    if !OneLine(url) then r.Nowhere?
    else
      var s := Body(url);
      if SplitAppId(s).Some? then r == ToTriplet(SplitAppId(s).value)
      else if exists body :: IsApplicationUrl(s, body) then r.ToDesktopFile? && IsApplicationUrl(s, r.body)
      else if Split(s).Some? then
        var sp := Split(s).value;
        r == ToIndex(sp.protocol, if sp.protocol == "intent" then OrEmpty(IntentPackage(s)) else sp.domain)
      else r.Nowhere?
  }

  /** Every URL has exactly one direct route. */
  lemma OneRoute(url: string) returns (r: Route)
    ensures RoutesTo(url, r) && forall q :: RoutesTo(url, q) ==> q == r
  {
    var s := Body(url);
    ApplicationOnAnyUrl(url);
    if !OneLine(url) {
      r := Nowhere;
    } else if SplitAppId(s).Some? {
      r := ToTriplet(SplitAppId(s).value);
    } else if MatchAtStart(APPLICATION_RE, url).Some? {
      r := ToDesktopFile(Fetch(MatchAtStart(APPLICATION_RE, url).value, 1));
    } else if Split(s).Some? {
      var sp := Split(s).value;
      r := ToIndex(sp.protocol, if sp.protocol == "intent" then OrEmpty(IntentPackage(s)) else sp.domain);
    } else {
      r := Nowhere;
    }
  }

  lemma IntentDomainIsPackage(url: string)
    ensures IntentDomain(url) == if OneLine(url) then IntentPackage(Body(url)) else None
  {
    IntentOnAnyUrl(url);
  }

  /** The cascade of the four patterns takes the direct route, for every URL. The special forms hand no URL over. */
  lemma CascadeFollowsRoute(url: string, r: Route, t: Tables, plan: Planner, ual: Launcher)
    requires RoutesTo(url, r)
    ensures var to := UrlToAppId(url, t, plan, ual);
            match r
            case ToTriplet(triplet) =>
              && (to.Some? <==> ual.tripletToAppId(triplet).Some?)
              && (to.Some? ==> to.value.appid == ual.tripletToAppId(triplet).value && to.value.outUrl == None)
            case ToDesktopFile(body) => to.Some? && to.value.appid == body && to.value.outUrl == None
            case ToIndex(protocol, domain) =>
              && (to.Some? <==> FindUrl(t, protocol, domain, plan).Some?)
              && (to.Some? ==>
                    to.value.appid == FindUrl(t, protocol, domain, plan).value && to.value.outUrl == Some(url))
            case Nowhere => to.None?
  {
    AppIdOnAnyUrl(url);
    ApplicationOnAnyUrl(url);
    if !r.ToTriplet? && !r.ToDesktopFile? {
      GenericOnAnyUrl(url);
      IntentDomainIsPackage(url);
    }
  }

  // ---- The routes, form by form ----

  lemma AppIdUrlOpens(triplet: Triplet, t: Tables, plan: Planner, ual: Launcher)
    requires IsTriplet(triplet)
    ensures var url := "appid://" + triplet.package + "/" + triplet.app + "/" + triplet.version;
            var to := UrlToAppId(url, t, plan, ual);
            && (to.Some? <==> ual.tripletToAppId(triplet).Some?)
            && (to.Some? ==> to.value == Resolved(ual.tripletToAppId(triplet).value, None))
  {
    PrintThenParse(triplet, "");
    assert PrintAppId(triplet) + "" == PrintAppId(triplet);
  }

  lemma ApplicationUrlOpens(body: string, t: Tables, plan: Planner, ual: Launcher)
    requires AllIn(body, APP_FILE)
    ensures UrlToAppId("application:///" + body + ".desktop", t, plan, ual) == Some(Resolved(body, None))
  {
    var url := "application:///" + body + ".desktop";
    ConcatNewlineFree("application:///", body);
    ConcatNewlineFree("application:///" + body, ".desktop");
    PlainBody(url);
    assert IsApplicationUrl(url, body);
    assert url[3] == url[..8][3] == 'l' && APPID_PREFIX[3] == 'i';
    CascadeFollowsRoute(url, ToDesktopFile(body), t, plan, ual);
  }

  lemma IntentProtocol(url: string)
    requires HasPrefix(url, "intent://")
    ensures Split(url).Some? && Split(url).value.protocol == "intent" && url[0] == 'i'
  {
    assert forall i :: 0 <= i < 9 ==> url[i] == url[..9][i];
    assert url[0] == 'i' && url[1] == 'n' && url[2] == 't' && url[3] == 'e' && url[4] == 'n' && url[5] == 't';
    assert url[6] == ':' && forall i :: 0 <= i < 6 ==> url[i] != ':';
    assert IndexOf(url, ':', 0) == 6;
    assert url[..6] == "intent";
  }

  lemma NotASpecialForm(url: string)
    requires url != "" && url[0] != 'a'
    ensures SplitAppId(url).None? && forall body :: !IsApplicationUrl(url, body)
  {
    forall body
      ensures !IsApplicationUrl(url, body)
    {
      assert (APPLICATION_PREFIX + body + ".desktop")[0] == 'a';
    }
  }

  lemma PlainBody(url: string)
    requires NewlineFree(url)
    ensures OneLine(url) && Body(url) == url
  {
    BodyOfLine(url, "");
    assert url + "" == url;
  }

  /** An intent is looked up by its package, or by nothing when it names none; never by its host. */
  lemma IntentUrlOpens(url: string, package: string, t: Tables, plan: Planner, ual: Launcher)
    requires NewlineFree(url) && HasPrefix(url, "intent://")
    requires IntentPackage(url) == Some(package) || (IntentPackage(url) == None && package == "")
    ensures UrlToAppId(url, t, plan, ual) ==
            match FindUrl(t, "intent", package, plan)
            case Some(appid) => Some(Resolved(appid, Some(url)))
            case None => None
  {
    PlainBody(url);
    IntentProtocol(url);
    NotASpecialForm(url);
    CascadeFollowsRoute(url, ToIndex("intent", package), t, plan, ual);
  }

  /** Any other URL with a protocol is looked up by its protocol and domain, and handed over. */
  lemma GenericUrlOpens(url: string, t: Tables, plan: Planner, ual: Launcher)
    requires NewlineFree(url) && Split(url).Some? && Split(url).value.protocol != "intent"
    requires SplitAppId(url).None? && forall body :: !IsApplicationUrl(url, body)
    ensures UrlToAppId(url, t, plan, ual) ==
            match FindUrl(t, Split(url).value.protocol, Split(url).value.domain, plan)
            case Some(appid) => Some(Resolved(appid, Some(url)))
            case None => None
  {
    PlainBody(url);
    CascadeFollowsRoute(url, ToIndex(Split(url).value.protocol, Split(url).value.domain), t, plan, ual);
  }

  // ---- Dispatching ----

  /** Whether a package restriction keeps the URL from this app: its id parses to another package,
      or does not parse and is not the package itself. */
  function Restricted(appid: string, package: string, ual: Launcher): (r: bool)
    ensures !r <==>
            || package == ""
            || ual.packageOf(appid) == Some(package)
            || (ual.packageOf(appid).None? && appid == package)
  {
    if package == "" then false
    else
      var appPackage := ual.packageOf(appid);
      if appPackage.Some? then package != appPackage.value else package != appid
  }

  datatype Reply = Accepted | BadUrl | RestrictedUrl

  /** What one DispatchURL call sets off and answers. */
  datatype Dispatch = Dispatch(launch: Option<Launch>, reply: Reply)

  lemma EmptyUrlOpensNothing(t: Tables, plan: Planner, ual: Launcher)
    ensures UrlToAppId("", t, plan, ual).None?
  {
    var r := OneRoute("");
    CascadeFollowsRoute("", r, t, plan, ual);
    assert Split("").None?;
  }

  /** One DispatchURL call. It reaches the app that a test of the URL reports in the same database state, or none
      if that app is `unconfined` or outside the package; so in any state a restricted call reaches the package only.
      Overlays, and only they, are set up as overlays. */
  method DispatchUrl(url: string, package: string, t: Tables, plan: Planner, ual: Launcher) returns (d: Dispatch)
    ensures var to := UrlToAppId(url, t, plan, ual);
            && (d.launch.Some? <==>
                && to.Some? && to.value.appid != "unconfined"
                && (|| package == ""
                    || ual.packageOf(to.value.appid) == Some(package)
                    || (ual.packageOf(to.value.appid).None? && to.value.appid == package)))
            && (d.launch.Some? ==>
                && d.launch.value.appid == to.value.appid && d.launch.value.url == to.value.outUrl
                && (d.launch.value.ToOverlay? <==> ual.isOverlay(to.value.appid)))
    ensures d.reply.Accepted? <==> d.launch.Some? && ual.sends(d.launch.value)
    ensures d.reply.RestrictedUrl? <==>
            var to := UrlToAppId(url, t, plan, ual);
            && to.Some? && to.value.appid != "unconfined" && package != ""
            && ual.packageOf(to.value.appid) != Some(package)
            && (ual.packageOf(to.value.appid).Some? || to.value.appid != package)
    ensures forall r :: RoutesTo(url, r) && d.launch.Some? ==>
              match r
              case ToTriplet(triplet) =>
                ual.tripletToAppId(triplet) == Some(d.launch.value.appid) && d.launch.value.url == None
              case ToDesktopFile(body) => d.launch.value.appid == body && d.launch.value.url == None
              case ToIndex(protocol, domain) =>
                FindUrl(t, protocol, domain, plan) == Some(d.launch.value.appid) && d.launch.value.url == Some(url)
              case Nowhere => false
  {
    forall r | RoutesTo(url, r)
      ensures var to := UrlToAppId(url, t, plan, ual);
              match r
              case ToTriplet(triplet) =>
                to.Some? ==> ual.tripletToAppId(triplet) == Some(to.value.appid) && to.value.outUrl == None
              case ToDesktopFile(body) => to.Some? ==> to.value.appid == body && to.value.outUrl == None
              case ToIndex(protocol, domain) =>
                to.Some? ==> FindUrl(t, protocol, domain, plan) == Some(to.value.appid) && to.value.outUrl == Some(url)
              case Nowhere => to.None?
    {
      CascadeFollowsRoute(url, r, t, plan, ual);
    }
    if url == "" {
      EmptyUrlOpensNothing(t, plan, ual);
      return Dispatch(None, BadUrl);
    }
    var resolved := UrlToAppId(url, t, plan, ual);
    if resolved.None? {
      return Dispatch(None, BadUrl);
    }
    var appid := resolved.value.appid;
    if appid == "unconfined" {
      return Dispatch(None, BadUrl);
    }
    if Restricted(appid, package, ual) {
      return Dispatch(None, RestrictedUrl);
    }
    var launch: Launch;
    if !ual.isOverlay(appid) {
      launch := ToApp(appid, resolved.value.outUrl);
    } else {
      launch := ToOverlay(appid, resolved.value.outUrl);
    }
    var sent := ual.sends(launch);
    if sent {
      return Dispatch(Some(launch), Accepted);
    } else {
      return Dispatch(Some(launch), BadUrl);
    }
  }

  datatype TestReply = AppIds(ids: seq<string>) | BadUrlReply(url: Option<string>)

  /** One app id per URL in order if all URLs are non-empty and resolve, else one error for the first that does not. */
  method TestUrls(urls: seq<string>, t: Tables, plan: Planner, ual: Launcher) returns (reply: TestReply)
    requires IsPlanner(plan)
    ensures reply.AppIds? <==>
            urls != [] && forall i :: 0 <= i < |urls| ==> urls[i] != "" && UrlToAppId(urls[i], t, plan, ual).Some?
    ensures reply.AppIds? ==>
            && |reply.ids| == |urls|
            && forall i :: 0 <= i < |urls| ==> reply.ids[i] == UrlToAppId(urls[i], t, plan, ual).value.appid
    ensures reply.BadUrlReply? ==>
            (|| ((urls == [] || urls[0] == "") && reply.url == None)
             || exists k :: 0 <= k < |urls| && reply.url == Some(urls[k])
                            && (urls[k] == "" || UrlToAppId(urls[k], t, plan, ual).None?)
                            && forall i :: 0 <= i < k ==> urls[i] != "" && UrlToAppId(urls[i], t, plan, ual).Some?)
  {
    if |urls| == 0 || urls[0] == "" {
      return BadUrlReply(None);
    }
    var builder: seq<string> := [];
    var i := 0;
    while i < |urls|
      invariant 0 <= i <= |urls| && |builder| == i
      invariant forall j :: 0 <= j < i ==> urls[j] != "" && UrlToAppId(urls[j], t, plan, ual).Some?
      invariant forall j :: 0 <= j < i ==> builder[j] == UrlToAppId(urls[j], t, plan, ual).value.appid
    {
      var url := urls[i];
      if url == "" {
        return BadUrlReply(Some(url));
      }
      var r := UrlToAppId(url, t, plan, ual);
      if r.Some? {
        builder := builder + [r.value.appid];
      } else {
        return BadUrlReply(Some(url));
      }
      i := i + 1;
    }
    return AppIds(builder);
  }
}
