/** The four patterns of the dispatcher, and how the engine runs the pieces they share. */
module UrlPatterns {
  import opened Text
  import opened Regex

  // ---- The patterns ----

  const LOWER := Chars(true, false, false, {})
  const LOWER_DIGIT := Chars(true, false, true, {})
  const DIGIT := Chars(false, false, true, {})
  const HOST := Chars(true, true, true, {'.', '-'})
  const APP_FILE := Chars(true, true, true, {'_', '.', '-'})
  const PACKAGE := Chars(true, false, true, {'.', '-'})
  const APP_NAME := Chars(true, true, true, {'-'})
  const ANDROID_PACKAGE := Chars(true, true, true, {'.'})

  /** The classes of the patterns, range by range. */
  lemma ClassesAre(c: char)
    ensures LOWER.Has(c) <==> 'a' <= c <= 'z'
    ensures LOWER_DIGIT.Has(c) <==> 'a' <= c <= 'z' || '0' <= c <= '9'
    ensures DIGIT.Has(c) <==> '0' <= c <= '9'
    ensures HOST.Has(c) <==> 'a' <= c <= 'z' || 'A' <= c <= 'Z' || '0' <= c <= '9' || c == '.' || c == '-'
    ensures APP_FILE.Has(c) <==>
            'a' <= c <= 'z' || 'A' <= c <= 'Z' || '0' <= c <= '9' || c == '_' || c == '.' || c == '-'
    ensures PACKAGE.Has(c) <==> 'a' <= c <= 'z' || '0' <= c <= '9' || c == '.' || c == '-'
    ensures APP_NAME.Has(c) <==> 'a' <= c <= 'z' || 'A' <= c <= 'Z' || '0' <= c <= '9' || c == '-'
    ensures ANDROID_PACKAGE.Has(c) <==> 'a' <= c <= 'z' || 'A' <= c <= 'Z' || '0' <= c <= '9' || c == '.'
    ensures Dot.Has(c) <==>
            c !in {'\n', '\U{0B}', '\U{0C}', '\r', '\U{85}', '\U{2028}', '\U{2029}'}
  {
  }

  // ^application:///([a-zA-Z0-9_\.-]*)\.desktop$
  const APPLICATION_RE :=
    Cat(Str("application:///"), Cat(Group(1, Star(APP_FILE)), Cat(Str(".desktop"), End)))

  // ^appid://([a-z0-9\.-]*)/([a-zA-Z0-9-]*)/([a-zA-Z0-9\.-]*)$
  const VERSION_ON_RE := Cat(Group(3, Star(HOST)), End)
  const NAME_ON_RE := Cat(Group(2, Star(APP_NAME)), Cat(Chr('/'), VERSION_ON_RE))
  const PACKAGE_ON_RE := Cat(Group(1, Star(PACKAGE)), Cat(Chr('/'), NAME_ON_RE))
  const APPID_RE := Cat(Str("appid://"), PACKAGE_ON_RE)

  // (?://(?:.*@)?([a-zA-Z0-9\.-]*)(?::[0-9]*)?/?)?
  const PORT_ON_RE := Cat(Opt(Cat(Chr(':'), Star(DIGIT))), Opt(Chr('/')))
  const HOST_ON_RE := Cat(Group(2, Star(HOST)), PORT_ON_RE)
  const USER_ON_RE := Cat(Opt(Cat(Star(Dot), Chr('@'))), HOST_ON_RE)
  const AUTHORITY_RE := Opt(Cat(Str("//"), USER_ON_RE))

  // ^([a-z][a-z0-9]*):(?://(?:.*@)?([a-zA-Z0-9\.-]*)(?::[0-9]*)?/?)?(.*)?$
  const PROTOCOL_RE := Cat(OneOf(LOWER), Star(LOWER_DIGIT))
  const COLON_ON_RE := Cat(Chr(':'), Cat(AUTHORITY_RE, Cat(Opt(Group(3, Star(Dot))), End)))
  const GENERIC_RE := Cat(Group(1, PROTOCOL_RE), COLON_ON_RE)

  // ^intent://.*package=([a-zA-Z0-9\.]*);.*$
  const INTENT_RE :=
    Cat(Str("intent://"), Cat(Star(Dot), Cat(Str("package="), Cat(Group(1, Star(ANDROID_PACKAGE)), Cat(Chr(';'),
      Cat(Star(Dot), End))))))

  // ---- Shared pieces ----

  lemma EndMatches(s: string, c: Captures)
    ensures Match(Push(End, Nil), s, |s|, c) == Some(c)
  {
    assert Match(Nil, s, |s|, c) == Some(c);
  }

  lemma EndOnly(s: string, i: nat, c: Captures)
    requires NewlineFree(s) && i <= |s|
    ensures Match(Push(End, Nil), s, i, c) == (if i == |s| then Some(c) else None)
  {
    if i == |s| {
      EndMatches(s, c);
    } else {
      assert !IsNewline(s[i]);
    }
  }

  lemma DotToEnd(rest: Stack, s: string, i: nat, c: Captures)
    requires NewlineFree(s) && i <= |s| && Match(rest, s, |s|, c).Some?
    ensures Match(Push(Star(Dot), rest), s, i, c) == Match(rest, s, |s|, c)
  {
    RunOfDot(s, i);
    StarTakes(Dot, rest, s, i, |s|, c);
  }

  lemma CatUnfolds(a: Re, b: Re, rest: Stack, s: string, i: nat, c: Captures)
    requires i <= |s|
    ensures Match(Push(Cat(a, b), rest), s, i, c) == Match(Push(a, Push(b, rest)), s, i, c)
  {
  }

  lemma DelimiterStep(n: nat, delimiter: char, after: Re, s: string, i: nat, j: nat,
                      c: Captures, c1: Captures, c2: Captures)
    requires i <= j <= |s| && c1 == c.(starts := c.starts[n := i]) && c2 == Captures(c1.starts, c.texts[n := s[i..j]])
    ensures Match(Push(Close(n), Push(Cat(Chr(delimiter), after), Nil)), s, j, c1) ==
            (if j < |s| && s[j] == delimiter then Match(Push(after, Nil), s, j + 1, c2) else None)
  {
    var tail := Push(Cat(Chr(delimiter), after), Nil);
    assert Match(Push(Close(n), tail), s, j, c1) == Match(tail, s, j, c2);
    assert Match(tail, s, j, c2) == Match(Push(Chr(delimiter), Push(after, Nil)), s, j, c2);
  }

  /** A captured run, when what follows cannot start inside it. */
  lemma GroupRun(n: nat, cls: Class, rest: Stack, s: string, i: nat, c: Captures, c1: Captures)
    requires i <= |s| && c1 == c.(starts := c.starts[n := i])
    requires forall j :: i <= j < RunEnd(s, i, cls) ==> Match(Push(Close(n), rest), s, j, c1).None?
    ensures Match(Push(Group(n, Star(cls)), rest), s, i, c) == Match(Push(Close(n), rest), s, RunEnd(s, i, cls), c1)
  {
    StarTakesRun(cls, Push(Close(n), rest), s, i, c1);
  }

  /** A captured run up to a delimiter outside its class can match in one way only. */
  lemma GroupUpTo(n: nat, cls: Class, delimiter: char, after: Re, s: string, i: nat, c: Captures,
                  m: Option<Captures>, e: nat, c2: Captures)
    requires i <= |s| && !cls.Has(delimiter) && e == RunEnd(s, i, cls)
    requires m == Match(Push(Cat(Group(n, Star(cls)), Cat(Chr(delimiter), after)), Nil), s, i, c)
    requires c2 == Captures(c.starts[n := i], c.texts[n := s[i..e]])
    ensures m == (if e < |s| && s[e] == delimiter then Match(Push(after, Nil), s, e + 1, c2) else None)
  {
    var c1, rest := c.(starts := c.starts[n := i]), Push(Cat(Chr(delimiter), after), Nil);
    forall j | i <= j < e
      ensures Match(Push(Close(n), rest), s, j, c1).None?
    {
      DelimiterStep(n, delimiter, after, s, i, j, c, c1, Captures(c1.starts, c.texts[n := s[i..j]]));
    }
    CatUnfolds(Group(n, Star(cls)), Cat(Chr(delimiter), after), Nil, s, i, c);
    GroupRun(n, cls, rest, s, i, c, c1);
    DelimiterStep(n, delimiter, after, s, i, e, c, c1, c2);
  }

  lemma CloseAtEnd(n: nat, s: string, i: nat, j: nat, c: Captures, c1: Captures, c2: Captures)
    requires NewlineFree(s) && i <= j <= |s|
    requires c1 == c.(starts := c.starts[n := i]) && c2 == Captures(c1.starts, c.texts[n := s[i..j]])
    ensures Match(Push(Close(n), Push(End, Nil)), s, j, c1) == (if j == |s| then Some(c2) else None)
  {
    assert Match(Push(Close(n), Push(End, Nil)), s, j, c1) == Match(Push(End, Nil), s, j, c2);
    EndOnly(s, j, c2);
  }

  lemma GroupToEnd(n: nat, cls: Class, s: string, i: nat, c: Captures, m: Option<Captures>, c2: Captures)
    requires NewlineFree(s) && i <= |s|
    requires m == Match(Push(Cat(Group(n, Star(cls)), End), Nil), s, i, c)
    requires c2 == Captures(c.starts[n := i], c.texts[n := s[i..]])
    ensures m == (if RunEnd(s, i, cls) == |s| then Some(c2) else None)
  {
    var e, c1, end := RunEnd(s, i, cls), c.(starts := c.starts[n := i]), Push(End, Nil);
    forall j | i <= j < e
      ensures Match(Push(Close(n), end), s, j, c1).None?
    {
      CloseAtEnd(n, s, i, j, c, c1, Captures(c1.starts, c.texts[n := s[i..j]]));
    }
    CatUnfolds(Group(n, Star(cls)), End, Nil, s, i, c);
    GroupRun(n, cls, end, s, i, c, c1);
    assert s[i..|s|] == s[i..];
    CloseAtEnd(n, s, i, e, c, c1, Captures(c1.starts, c.texts[n := s[i..e]]));
  }

  // ---- Pieces of a text ----

  lemma RunEndAt(s: string, i: nat, cls: Class, e: nat)
    requires i <= e <= |s|
    requires forall j :: i <= j < e ==> cls.Has(s[j])
    requires e == |s| || !cls.Has(s[e])
    ensures RunEnd(s, i, cls) == e
  {
  }

  lemma Pieces(a: string, word: string, rest: string)
    ensures var s := a + word + rest;
            && (forall i :: 0 <= i < |a| ==> s[i] == a[i])
            && (forall i :: |a| <= i < |a| + |word| ==> s[i] == word[i - |a|])
            && (forall i :: |a| + |word| <= i < |s| ==> s[i] == rest[i - |a| - |word|])
            && s[|a|..|a| + |word|] == word
  {
  }

  lemma Extend(s: string, p: nat, q: nat)
    requires p <= q <= |s|
    ensures s[..p] + s[p..q] == s[..q]
  {
  }

  lemma Cut(s: string, p: nat, q: nat)
    requires p <= q <= |s|
    ensures s == s[..p] + s[p..q] + s[q..]
  {
  }

  lemma RunOfPiece(a: string, word: string, rest: string, cls: Class)
    requires AllIn(word, cls) && (rest != "" ==> !cls.Has(rest[0]))
    ensures var s := a + word + rest;
            RunEnd(s, |a|, cls) == |a| + |word| && s[|a|..|a| + |word|] == word && s[|a| + |word|..] == rest
  {
    Pieces(a, word, rest);
    RunEndAt(a + word + rest, |a|, cls, |a| + |word|);
  }
}
