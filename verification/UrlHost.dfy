/** When the domain the dispatcher reads is the host of the URL. */
module UrlHost {
  import opened Text
  import opened Regex
  import opened UrlPatterns
  import opened GenericUrl

  // ---- The host of sections 3.2 to 3.2.3 of RFC 3986 ----

  predicate EndsAuthority(c: char) {
    c == '/' || c == '?' || c == '#'
  }

  /** The authority that starts at position `p` goes up to the next '/', '?' or '#'. */
  function AuthorityEnd(s: string, p: nat): (e: nat)
    requires p <= |s|
    ensures p <= e <= |s|
    ensures forall i :: p <= i < e ==> !EndsAuthority(s[i])
    ensures e == |s| || EndsAuthority(s[e])
    decreases |s| - p
  {
    if p < |s| && !EndsAuthority(s[p]) then AuthorityEnd(s, p + 1) else p
  }

  /** What follows the '@'; no host holds one, so it is the last. */
  function WithoutUserinfo(authority: string): string {
    var at := LastIndexOf(authority, '@', 0);
    if at >= 0 then authority[at + 1..] else authority
  }

  /** What precedes the last ':', if only digits follow it. */
  function WithoutPort(hostAndPort: string): (host: string)
    ensures host <= hostAndPort && (host != hostAndPort ==> hostAndPort[|host|] == ':')
  {
    var colon := LastIndexOf(hostAndPort, ':', 0);
    if colon >= 0 && AllIn(hostAndPort[colon + 1..], DIGIT) then hostAndPort[..colon] else hostAndPort
  }

  /** The host in the authority that starts at position `p`. */
  function HostAt(s: string, p: nat): string
    requires p <= |s|
  {
    WithoutPort(WithoutUserinfo(s[p..AuthorityEnd(s, p)]))
  }

  /** The host, for a URL that has an authority: `//` behind the first ':'. */
  function RfcHost(s: string): Option<string> {
    var colon := IndexOf(s, ':', 0);
    if colon == |s| || !HasPrefix(s[colon + 1..], "//") then None else Some(HostAt(s, colon + 3))
  }

  // ---- The domain against the host ----

  /** `word` stands at position `d`, and the next character, if any, is outside the class. */
  predicate StandsAt(s: string, d: nat, word: string, cls: Class)
    requires d <= |s|
  {
    d + |word| <= |s| && s[d..d + |word|] == word && (d + |word| == |s| || !cls.Has(s[d + |word|]))
  }

  /** The host is what the pattern reads behind `//` at position `p`: it stays within the class,
      and if an '@' follows the authority, it stands behind the last '@' of the URL as well. */
  predicate TakenForHost(s: string, p: nat, host: string)
    requires p <= |s|
  {
    var at := LastIndexOf(s, '@', p);
    AllIn(host, HOST) && (at >= AuthorityEnd(s, p) ==> StandsAt(s, at + 1, host, HOST))
  }

  lemma RunIsWord(s: string, d: nat, word: string, cls: Class)
    requires 0 < d <= |s|
    ensures s[d..RunEnd(s, d, cls)] == word <==> AllIn(word, cls) && StandsAt(s, d, word, cls)
  {
    if AllIn(word, cls) && StandsAt(s, d, word, cls) {
      assert forall i :: d <= i < d + |word| ==> s[i] == s[d..d + |word|][i - d];
      RunEndAt(s, d, cls, d + |word|);
    }
  }

  lemma LastIndexAt(s: string, c: char, from: nat, p: int)
    requires from <= |s| && -1 <= p < |s|
    requires p >= 0 ==> from <= p && s[p] == c
    requires forall j :: from <= j < |s| && j > p ==> s[j] != c
    ensures LastIndexOf(s, c, from) == p
  {
  }

  /** A host ends at its port or with the authority, both times before a character outside the class. */
  lemma HostStands(s: string, d: nat, e: nat, host: string)
    requires 0 < d <= e <= |s| && (e == |s| || EndsAuthority(s[e]))
    requires host <= s[d..e] && (host != s[d..e] ==> s[d..e][|host|] == ':')
    ensures StandsAt(s, d, host, HOST)
  {
    assert host == s[d..d + |host|];
    assert d + |host| < e ==> s[d + |host|] == s[d..e][|host|];
  }

  lemma AuthorityDomain(s: string, p: nat)
    requires 0 < p <= |s| && LastIndexOf(s, '@', p) < AuthorityEnd(s, p)
    ensures var d, e := DomainStart(s, p), AuthorityEnd(s, p);
            d <= e && WithoutUserinfo(s[p..e]) == s[d..e]
  {
    var e, at := AuthorityEnd(s, p), LastIndexOf(s, '@', p);
    LastIndexAt(s[p..e], '@', 0, if at >= 0 then at - p else -1);
  }

  lemma RunIsHost(s: string, p: nat)
    requires 0 < p <= |s|
    ensures var d := DomainStart(s, p);
            s[d..RunEnd(s, d, HOST)] == HostAt(s, p) <==> TakenForHost(s, p, HostAt(s, p))
  {
    var d, e := DomainStart(s, p), AuthorityEnd(s, p);
    RunIsWord(s, d, HostAt(s, p), HOST);
    if LastIndexOf(s, '@', p) < e {
      AuthorityDomain(s, p);
      HostStands(s, d, e, HostAt(s, p));
    }
  }

  /** What the generic pattern reads as the domain. */
  function DomainRead(url: string): Option<string> {
    var m := MatchAtStart(GENERIC_RE, url);
    if m.Some? then Some(Fetch(m.value, 2)) else None
  }

  /** When the generic pattern reads the host as its domain, for every URL it matches: without an '@' behind
      the authority exactly if the host stays within the class; with one exactly if moreover the host happens
      to stand once more behind the last '@'. */
  lemma DomainIsHost(url: string)
    requires DomainRead(url).Some?
    ensures var s, domain := Body(url), DomainRead(url).value;
            match RfcHost(s)
            case None => domain == ""
            case Some(host) => domain == host <==> TakenForHost(s, IndexOf(s, ':', 0) + 3, host)
  {
    GenericOnAnyUrl(url);
    var s := Body(url);
    if RfcHost(s).Some? {
      RunIsHost(s, IndexOf(s, ':', 0) + 3);
    }
  }

  lemma PlainRun(s: string, p: nat, d: nat, e: nat)
    requires 0 < p <= d <= e <= |s| && (d == p || s[d - 1] == '@')
    requires forall i :: d <= i < |s| ==> s[i] != '@'
    requires forall i :: d <= i < e ==> HOST.Has(s[i])
    requires e == |s| || !HOST.Has(s[e])
    ensures DomainStart(s, p) == d && RunEnd(s, d, HOST) == e
  {
    LastIndexAt(s, '@', p, if d == p then -1 else d - 1);
    RunEndAt(s, d, HOST, e);
  }

  // ---- The host of a composed URL ----

  lemma UserinfoGoes(userinfo: string, rest: string)
    requires !Contains(rest, '@')
    ensures WithoutUserinfo(userinfo + "@" + rest) == rest && WithoutUserinfo(rest) == rest
  {
    var authority := userinfo + "@" + rest;
    assert forall i :: |userinfo| < i < |authority| ==> authority[i] == rest[i - |userinfo| - 1];
    assert authority[|userinfo|] == '@';
    LastIndexAt(authority, '@', 0, |userinfo|);
    LastIndexAt(rest, '@', 0, -1);
    assert authority[|userinfo| + 1..] == rest;
  }

  lemma PortGoes(host: string, port: string)
    requires forall i :: 0 <= i < |port| ==> '0' <= port[i] <= '9'
    ensures WithoutPort(host + ":" + port) == host
  {
    var s := host + ":" + port;
    assert forall i :: |host| < i < |s| ==> s[i] == port[i - |host| - 1];
    assert s[|host|] == ':';
    LastIndexAt(s, ':', 0, |host|);
    assert s[|host| + 1..] == port && s[..|host|] == host;
  }

  /** Without a port the host stays, a bracketed IPv6 address with its colons too. */
  lemma HostStays(host: string)
    requires Contains(host, ':') ==> host[|host| - 1] == ']'
    ensures WithoutPort(host) == host
  {
    var colon := LastIndexOf(host, ':', 0);
    if colon >= 0 {
      assert host[colon] == ':' && host[|host| - 1] == ']';
      assert host[colon + 1..][|host| - colon - 2] == ']';
    }
  }

  lemma SlashesAt(s: string, p: nat)
    requires 0 < p && p + 2 <= |s| && s[p] == '/' && s[p + 1] == '/'
    ensures HasPrefix(s[p..], "//")
  {
  }

  lemma ColonAt(protocol: string, s: string)
    requires IsProtocol(protocol) && protocol + "://" <= s
    ensures IndexOf(s, ':', 0) == |protocol| && HasPrefix(s[|protocol| + 1..], "//")
  {
    var n := |protocol|;
    assert forall i :: 0 <= i < n + 3 ==> s[i] == (protocol + "://")[i];
    forall i | 0 <= i < n
      ensures s[i] != ':'
    {
      assert s[i] == protocol[i];
      if i > 0 {
        assert LOWER_DIGIT.Has(protocol[1..][i - 1]);
      }
    }
    assert s[n] == ':' && IndexOf(s, ':', 0) == n;
    SlashesAt(s, n + 1);
  }

  lemma AuthorityAt(head: string, authority: string, tail: string)
    requires tail != "" ==> EndsAuthority(tail[0])
    requires forall i :: 0 <= i < |authority| ==> !EndsAuthority(authority[i])
    ensures var s := head + authority + tail;
            AuthorityEnd(s, |head|) == |head| + |authority| && s[|head|..|head| + |authority|] == authority
  {
    Pieces(head, authority, tail);
  }

  lemma AuthorityCut(protocol: string, authority: string, tail: string)
    requires IsProtocol(protocol) && (tail != "" ==> EndsAuthority(tail[0]))
    requires forall i :: 0 <= i < |authority| ==> !EndsAuthority(authority[i])
    ensures RfcHost(protocol + "://" + authority + tail) == Some(WithoutPort(WithoutUserinfo(authority)))
  {
    ColonAt(protocol, protocol + "://" + authority + tail);
    AuthorityAt(protocol + "://", authority, tail);
  }

  predicate Without(s: string, cs: set<char>) {
    forall i :: 0 <= i < |s| ==> s[i] !in cs
  }

  lemma WithoutBoth(a: string, b: string, cs: set<char>)
    requires Without(a, cs) && Without(b, cs)
    ensures Without(a + b, cs)
  {
  }

  function HostPort(host: string, port: Option<string>): string {
    if port.Some? then host + ":" + port.value else host
  }

  function Authority(userinfo: Option<string>, hostPort: string): string {
    if userinfo.Some? then userinfo.value + "@" + hostPort else hostPort
  }

  lemma HostPortRead(host: string, port: Option<string>)
    requires Without(host, {'@', '/', '?', '#'})
    requires Contains(host, ':') ==> host[|host| - 1] == ']'
    requires port.Some? ==> forall i :: 0 <= i < |port.value| ==> '0' <= port.value[i] <= '9'
    ensures WithoutPort(HostPort(host, port)) == host && Without(HostPort(host, port), {'@', '/', '?', '#'})
  {
    if port.Some? {
      PortGoes(host, port.value);
      WithoutBoth(host, ":", {'@', '/', '?', '#'});
      WithoutBoth(host + ":", port.value, {'@', '/', '?', '#'});
    } else {
      HostStays(host);
    }
  }

  lemma AuthorityRead(userinfo: Option<string>, hostPort: string)
    requires Without(hostPort, {'@', '/', '?', '#'})
    requires userinfo.Some? ==> Without(userinfo.value, {'/', '?', '#'})
    ensures var a := Authority(userinfo, hostPort);
            WithoutUserinfo(a) == hostPort && Without(a, {'/', '?', '#'})
  {
    UserinfoGoes(if userinfo.Some? then userinfo.value else "", hostPort);
    if userinfo.Some? {
      WithoutBoth(userinfo.value, "@", {'/', '?', '#'});
      WithoutBoth(userinfo.value + "@", hostPort, {'/', '?', '#'});
    }
  }

  /** protocol "://" [ userinfo "@" ] host [ ":" port ] tail: what RfcHost finds is the host. */
  lemma HostOfParts(protocol: string, userinfo: Option<string>, host: string, port: Option<string>, tail: string)
    requires IsProtocol(protocol) && (tail != "" ==> tail[0] in {'/', '?', '#'})
    requires userinfo.Some? ==> Without(userinfo.value, {'/', '?', '#'})
    requires Without(host, {'@', '/', '?', '#'}) && (Contains(host, ':') ==> host[|host| - 1] == ']')
    requires port.Some? ==> forall i :: 0 <= i < |port.value| ==> '0' <= port.value[i] <= '9'
    ensures RfcHost(protocol + "://" + Authority(userinfo, HostPort(host, port)) + tail) == Some(host)
  {
    HostPortRead(host, port);
    AuthorityRead(userinfo, HostPort(host, port));
    AuthorityCut(protocol, Authority(userinfo, HostPort(host, port)), tail);
  }

  /** The host of an authority without userinfo and port. */
  lemma PlainHost(s: string, p: nat, e: nat)
    requires 0 < p <= e <= |s|
    requires forall i :: p <= i < e ==> !EndsAuthority(s[i]) && s[i] != '@' && s[i] != ':'
    requires e == |s| || EndsAuthority(s[e])
    ensures HostAt(s, p) == s[p..e]
  {
    assert AuthorityEnd(s, p) == e;
    LastIndexAt(s[p..e], '@', 0, -1);
    LastIndexAt(s[p..e], ':', 0, -1);
  }

  /** A URL of protocol `p` with an authority. */
  lemma ShortUrl(s: string)
    requires |s| >= 4 && s[0] == 'p' && s[1] == ':' && s[2] == '/' && s[3] == '/'
    ensures RfcHost(s) == Some(HostAt(s, 4))
    ensures var d := DomainStart(s, 4);
            Split(s) == Some(SplitUrl("p", s[d..RunEnd(s, d, HOST)]))
  {
    SlashesAt(s, 2);
    assert IndexOf(s, ':', 0) == 1 && s[..1] == "p";
  }

  lemma LaterAtPieces(s: string)
    requires |s| == 8 && s[4] == 'a' && s[5] == '/' && s[6] == '@' && s[7] == 'b'
    ensures HostAt(s, 4) == s[4..5] && DomainStart(s, 4) == 7 && RunEnd(s, 7, HOST) == 8
  {
    PlainHost(s, 4, 5);
    PlainRun(s, 4, 7, 8);
  }

  lemma LaterAtSplit(s: string)
    requires s == "p://a/@b"
    ensures RfcHost(s) == Some("a") && Split(s) == Some(SplitUrl("p", "b"))
  {
    ShortUrl(s);
    LaterAtPieces(s);
    assert s[4..5] == "a" && s[7..8] == "b";
  }

  lemma CutHostPieces(s: string)
    requires |s| == 7 && s[4] == 'a' && s[5] == '_' && s[6] == 'b'
    ensures HostAt(s, 4) == s[4..7] && DomainStart(s, 4) == 4 && RunEnd(s, 4, HOST) == 5
  {
    PlainHost(s, 4, 7);
    PlainRun(s, 4, 4, 5);
  }

  lemma CutHostSplit(s: string)
    requires s == "p://a_b"
    ensures RfcHost(s) == Some("a_b") && Split(s) == Some(SplitUrl("p", "a"))
  {
    ShortUrl(s);
    CutHostPieces(s);
    assert s[4..7] == "a_b" && s[4..5] == "a";
  }

  lemma TwoPlainTexts(s: string)
    requires s == "p://a/@b" || s == "p://a_b"
    ensures NewlineFree(s)
  {
  }

  lemma ReadAsSplit(s: string, protocol: string, domain: string)
    requires NewlineFree(s) && Split(s) == Some(SplitUrl(protocol, domain))
    ensures DomainRead(s) == Some(domain)
  {
    GenericIsSplit(s);
  }

  /** An '@' in the path is enough to mislead: the host of this URL is `a`, the domain read is `b`. */
  lemma PathAtSignMisleads(s: string)
    requires s == "p://a/@b"
    ensures RfcHost(s) == Some("a") && DomainRead(s) == Some("b")
  {
    LaterAtSplit(s);
    TwoPlainTexts(s);
    ReadAsSplit(s, "p", "b");
  }

  /** And so is a character outside the class: the host of this URL is `a_b`, the domain read is `a`. */
  lemma UnderscoreCutsHost(s: string)
    requires s == "p://a_b"
    ensures RfcHost(s) == Some("a_b") && DomainRead(s) == Some("a")
  {
    CutHostSplit(s);
    TwoPlainTexts(s);
    ReadAsSplit(s, "p", "a");
  }
}
