/** The generic pattern, proved equal to a direct reading of protocol and domain. */
module GenericUrl {
  import opened Text
  import opened Regex
  import opened UrlPatterns

  function IndexOf(s: string, c: char, from: nat): (p: nat)
    requires from <= |s|
    ensures from <= p <= |s|
    ensures p < |s| ==> s[p] == c
    ensures forall j :: from <= j < p ==> s[j] != c
    decreases |s| - from
  {
    if from < |s| && s[from] != c then IndexOf(s, c, from + 1) else from
  }

  /** The last `c` in `s[from..upTo]`, or -1. */
  function LastIndexWithin(s: string, c: char, from: nat, upTo: nat): (p: int)
    requires from <= upTo <= |s|
    ensures -1 <= p < upTo
    ensures p >= 0 ==> p >= from && s[p] == c
    ensures forall j :: from <= j < upTo && j > p ==> s[j] != c
    decreases upTo
  {
    if upTo == from then -1
    else if s[upTo - 1] == c then upTo - 1
    else LastIndexWithin(s, c, from, upTo - 1)
  }

  /** The last `c` at or after position `from`, or -1. */
  function LastIndexOf(s: string, c: char, from: nat): (p: int)
    requires from <= |s|
    ensures -1 <= p < |s|
    ensures p >= 0 ==> p >= from && s[p] == c
    ensures forall j :: from <= j < |s| && j > p ==> s[j] != c
  {
    LastIndexWithin(s, c, from, |s|)
  }

  predicate IsProtocol(p: string) {
    p != "" && LOWER.Has(p[0]) && AllIn(p[1..], LOWER_DIGIT)
  }

  /** Where the domain starts once `//` has been read: after the last '@', if any. */
  function DomainStart(s: string, from: nat): (d: nat)
    requires from <= |s|
    ensures from <= d <= |s|
  {
    var at := LastIndexOf(s, '@', from);
    if at >= 0 then at + 1 else from
  }

  datatype SplitUrl = SplitUrl(protocol: string, domain: string)

  /** The URL read directly: the text before the first ':', and after `//` the host run. */
  function Split(s: string): Option<SplitUrl> {
    var colon := IndexOf(s, ':', 0);
    if colon == |s| || !IsProtocol(s[..colon]) then None
    else Some(SplitUrl(s[..colon], Domain(s, colon + 1)))
  }

  function Domain(s: string, p: nat): string
    requires p <= |s|
  {
    if HasPrefix(s[p..], "//") then
      var d := DomainStart(s, p + 2);
      s[d..RunEnd(s, d, HOST)]
    else ""
  }

  // The stacks the engine goes through.
  const TAIL := Push(Cat(Opt(Group(3, Star(Dot))), End), Nil)

  /** A match that leaves the first two groups as they are. */
  ghost predicate Keeps(r: Option<Captures>, c: Captures) {
    r.Some? && Fetch(r.value, 1) == Fetch(c, 1) && Fetch(r.value, 2) == Fetch(c, 2)
  }

  /** From anywhere in a newline-free URL the rest of the pattern matches. */
  lemma TailMatches(s: string, i: nat, c: Captures)
    requires NewlineFree(s) && i <= |s|
    ensures Keeps(Match(TAIL, s, i, c), c)
  {
    var end := Push(End, Nil);
    var close := Push(Close(3), end);
    var c1 := c.(starts := c.starts[3 := i]);
    var c2 := c1.(texts := c1.texts[3 := s[i..|s|]]);
    EndMatches(s, c2);
    assert Match(close, s, |s|, c1) == Match(end, s, |s|, c2);
    DotToEnd(close, s, i, c1);
    assert Match(Push(Group(3, Star(Dot)), end), s, i, c) == Match(Push(Star(Dot), close), s, i, c1);
    assert Match(Push(Opt(Group(3, Star(Dot))), end), s, i, c) == Some(c2);
    assert Match(TAIL, s, i, c) == Some(c2);
  }

  const SLASH := Push(Opt(Chr('/')), TAIL)

  lemma SlashMatches(s: string, i: nat, c: Captures)
    requires NewlineFree(s) && i <= |s|
    ensures Keeps(Match(SLASH, s, i, c), c)
  {
    TailMatches(s, i, c);
    if i < |s| && s[i] == '/' {
      TailMatches(s, i + 1, c);
      assert Match(Push(Chr('/'), TAIL), s, i, c) == Match(TAIL, s, i + 1, c);
    }
  }

  const PORT := Push(PORT_ON_RE, TAIL)

  lemma PortMatches(s: string, i: nat, c: Captures)
    requires NewlineFree(s) && i <= |s|
    ensures Keeps(Match(PORT, s, i, c), c)
  {
    SlashMatches(s, i, c);
    assert Match(PORT, s, i, c) == Match(Push(Opt(Cat(Chr(':'), Star(DIGIT))), SLASH), s, i, c);
    if i < |s| && s[i] == ':' {
      var e := RunEnd(s, i + 1, DIGIT);
      SlashMatches(s, e, c);
      StarTakes(DIGIT, SLASH, s, i + 1, e, c);
      var digits := Push(Star(DIGIT), SLASH);
      assert Match(Push(Chr(':'), digits), s, i, c) == Match(digits, s, i + 1, c);
      assert Match(Push(Cat(Chr(':'), Star(DIGIT)), SLASH), s, i, c) == Match(SLASH, s, e, c);
    } else {
      assert Match(Push(Cat(Chr(':'), Star(DIGIT)), SLASH), s, i, c).None? by {
        assert Match(Push(Chr(':'), Push(Star(DIGIT), SLASH)), s, i, c).None?;
      }
    }
  }

  const HOST_STACK := Push(HOST_ON_RE, TAIL)

  /** A match that reads `domain` into group 2 and leaves group 1 as it is. */
  ghost predicate ReadsDomain(r: Option<Captures>, c: Captures, domain: string) {
    r.Some? && Fetch(r.value, 1) == Fetch(c, 1) && Fetch(r.value, 2) == domain
  }

  lemma HostMatches(s: string, i: nat, c: Captures)
    requires NewlineFree(s) && i <= |s|
    ensures ReadsDomain(Match(HOST_STACK, s, i, c), c, s[i..RunEnd(s, i, HOST)])
  {
    var e := RunEnd(s, i, HOST);
    var close := Push(Close(2), PORT);
    var c1 := c.(starts := c.starts[2 := i]);
    var c2 := c1.(texts := c1.texts[2 := s[i..e]]);
    PortMatches(s, e, c2);
    assert Match(close, s, e, c1) == Match(PORT, s, e, c2);
    StarTakes(HOST, close, s, i, e, c1);
    assert Match(Push(Group(2, Star(HOST)), PORT), s, i, c) == Match(Push(Star(HOST), close), s, i, c1);
    assert Match(HOST_STACK, s, i, c) == Match(Push(Group(2, Star(HOST)), PORT), s, i, c);
  }

  const USER_STACK := Push(USER_ON_RE, TAIL)

  /** The greedy `.*@` runs to the end and backs up to the last '@'. */
  lemma UserMatches(s: string, i: nat, c: Captures)
    requires NewlineFree(s) && i <= |s|
    ensures var d := DomainStart(s, i);
            ReadsDomain(Match(USER_STACK, s, i, c), c, s[d..RunEnd(s, d, HOST)])
  {
    var at := LastIndexOf(s, '@', i);
    var sign := Push(Chr('@'), HOST_STACK);
    var some := Push(Cat(Star(Dot), Chr('@')), HOST_STACK);
    RunOfDot(s, i);
    assert Match(USER_STACK, s, i, c) == Match(Push(Opt(Cat(Star(Dot), Chr('@'))), HOST_STACK), s, i, c);
    assert Match(some, s, i, c) == Match(Push(Star(Dot), sign), s, i, c);
    forall j | i <= j <= |s| && j > at
      ensures Match(sign, s, j, c).None?
    {
    }
    if at >= 0 {
      HostMatches(s, at + 1, c);
      assert Match(sign, s, at, c) == Match(HOST_STACK, s, at + 1, c);
      StarTakes(Dot, sign, s, i, at, c);
    } else {
      StarFails(Dot, sign, s, i, c);
      HostMatches(s, i, c);
    }
  }

  const AFTER_COLON := Push(AUTHORITY_RE, TAIL)

  lemma AuthorityMatches(s: string, i: nat, c: Captures)
    requires NewlineFree(s) && i <= |s| && 2 !in c.texts
    ensures ReadsDomain(Match(AFTER_COLON, s, i, c), c, Domain(s, i))
  {
    TailMatches(s, i, c);
    assert Match(Push(Cat(Str("//"), USER_ON_RE), TAIL), s, i, c) == Match(Push(Str("//"), USER_STACK), s, i, c);
    if HasPrefix(s[i..], "//") {
      UserMatches(s, i + 2, c);
    }
  }

  /** A run of a class without ':' ends before the first ':', or at it. */
  lemma RunBeforeColon(s: string, cls: Class)
    requires s != "" && s[0] != ':' && !cls.Has(':')
    ensures var e, colon := RunEnd(s, 1, cls), IndexOf(s, ':', 0);
            && e <= colon
            && (e < |s| && s[e] == ':' <==> colon < |s| && AllIn(s[1..colon], cls))
            && (colon < |s| && AllIn(s[1..colon], cls) ==> colon == e)
  {
    var e, colon := RunEnd(s, 1, cls), IndexOf(s, ':', 0);
    if e < |s| && s[e] == ':' {
      assert colon == e;
      assert forall i :: 0 <= i < e - 1 ==> s[1..e][i] == s[i + 1];
    }
    if colon < |s| && AllIn(s[1..colon], cls) {
      assert forall i :: 1 <= i < colon ==> s[i] == s[1..colon][i - 1];
    }
  }

  lemma ProtocolRun(s: string)
    requires s != "" && LOWER.Has(s[0])
    ensures var e, colon := RunEnd(s, 1, LOWER_DIGIT), IndexOf(s, ':', 0);
            && (e < |s| && s[e] == ':' <==> Split(s).Some?)
            && (Split(s).Some? ==> colon == e)
  {
    RunBeforeColon(s, LOWER_DIGIT);
    var colon := IndexOf(s, ':', 0);
    assert colon > 0 && s[..colon][1..] == s[1..colon];
  }

  const CLOSE_1 := Push(Close(1), Push(COLON_ON_RE, Nil))
  const OPENED_1 := Captures(map[1 := 0], map[])

  lemma GenericStart(s: string)
    ensures MatchAtStart(GENERIC_RE, s) ==
            (if s != "" && LOWER.Has(s[0]) then Match(Push(Star(LOWER_DIGIT), CLOSE_1), s, 1, OPENED_1) else None)
  {
    assert MatchAtStart(GENERIC_RE, s) == Match(Push(Group(1, PROTOCOL_RE), Push(COLON_ON_RE, Nil)), s, 0, NO_CAPTURES);
    assert Match(Push(Group(1, PROTOCOL_RE), Push(COLON_ON_RE, Nil)), s, 0, NO_CAPTURES)
        == Match(Push(PROTOCOL_RE, CLOSE_1), s, 0, OPENED_1);
    assert Match(Push(PROTOCOL_RE, CLOSE_1), s, 0, OPENED_1)
        == Match(Push(OneOf(LOWER), Push(Star(LOWER_DIGIT), CLOSE_1)), s, 0, OPENED_1);
  }

  lemma ColonStep(s: string, j: nat, c2: Captures)
    requires j <= |s| && c2 == Captures(map[1 := 0], map[1 := s[0..j]])
    ensures Match(CLOSE_1, s, j, OPENED_1) ==
            (if j < |s| && s[j] == ':' then Match(AFTER_COLON, s, j + 1, c2) else None)
  {
    var rest := Cat(AUTHORITY_RE, Cat(Opt(Group(3, Star(Dot))), End));
    assert Match(CLOSE_1, s, j, OPENED_1) == Match(Push(COLON_ON_RE, Nil), s, j, c2);
    assert Match(Push(COLON_ON_RE, Nil), s, j, c2) == Match(Push(Chr(':'), Push(rest, Nil)), s, j, c2);
    if j < |s| {
      CatUnfolds(AUTHORITY_RE, Cat(Opt(Group(3, Star(Dot))), End), Nil, s, j + 1, c2);
    }
  }

  /** Under ordered backtracking the generic pattern reads protocol and domain exactly as `Split` does. */
  lemma GenericIsSplit(s: string)
    requires NewlineFree(s)
    ensures MatchAtStart(GENERIC_RE, s).Some? <==> Split(s).Some?
    ensures Split(s).Some? ==>
            && Fetch(MatchAtStart(GENERIC_RE, s).value, 1) == Split(s).value.protocol
            && Fetch(MatchAtStart(GENERIC_RE, s).value, 2) == Split(s).value.domain
  {
    GenericStart(s);
    if s != "" && LOWER.Has(s[0]) {
      var e := RunEnd(s, 1, LOWER_DIGIT);
      ProtocolRun(s);
      forall j | 1 <= j < e
        ensures Match(CLOSE_1, s, j, OPENED_1).None?
      {
        ColonStep(s, j, Captures(map[1 := 0], map[1 := s[0..j]]));
      }
      StarTakesRun(LOWER_DIGIT, CLOSE_1, s, 1, OPENED_1);
      var c2 := Captures(map[1 := 0], map[1 := s[0..e]]);
      ColonStep(s, e, c2);
      if e < |s| && s[e] == ':' {
        AuthorityMatches(s, e + 1, c2);
      }
    } else {
      assert Split(s).None?;
    }
  }

  lemma GenericRunsToEnd()
    ensures RunsToEnd(GENERIC_RE)
  {
    assert AvoidsNewline(PORT_ON_RE);
    assert AvoidsNewline(HOST_ON_RE);
    assert AvoidsNewline(USER_ON_RE);
    assert AvoidsNewline(AUTHORITY_RE);
    assert RunsToEnd(Cat(Opt(Group(3, Star(Dot))), End));
    assert RunsToEnd(COLON_ON_RE);
    assert AvoidsNewline(PROTOCOL_RE);
  }

  /** The generic pattern on any URL. */
  lemma GenericOnAnyUrl(s: string)
    ensures MatchAtStart(GENERIC_RE, s).Some? <==> OneLine(s) && Split(Body(s)).Some?
    ensures OneLine(s) && Split(Body(s)).Some? ==>
            && Fetch(MatchAtStart(GENERIC_RE, s).value, 1) == Split(Body(s)).value.protocol
            && Fetch(MatchAtStart(GENERIC_RE, s).value, 2) == Split(Body(s)).value.domain
  {
    GenericRunsToEnd();
    MatchOnAnyText(GENERIC_RE, s);
    if OneLine(s) {
      GenericIsSplit(Body(s));
    }
  }
}
