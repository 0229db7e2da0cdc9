/** Regular expressions as a backtracking engine runs them: choices are tried in order,
    greedy ones take the longer way first, and the first way that leads to the end wins. */
module Regex {
  import opened Text

  /** The characters GRegex takes for a newline unless told otherwise: line feed, vertical tab, form feed,
      carriage return, next line, line separator and paragraph separator. */
  predicate IsNewline(c: char) {
    '\n' <= c <= '\r' || c == '\U{85}' || c == '\U{2028}' || c == '\U{2029}'
  }

  /** The length of the newline at position `i`; a carriage return takes a line feed behind it along. */
  function NewlineLength(s: string, i: nat): nat {
    if i >= |s| || !IsNewline(s[i]) then 0
    else if s[i] == '\r' && i + 1 < |s| && s[i + 1] == '\n' then 2
    else 1
  }

  /** LF, VT, FF, CR, NEL, LS and PS, alone, and CR LF together. */
  lemma NewlinesAre(s: string)
    ensures s != "" && NewlineLength(s, 0) == |s| <==>
            s in {"\n", "\U{0B}", "\U{0C}", "\r", "\U{85}", "\U{2028}", "\U{2029}", "\r\n"}
  {
    if |s| == 1 {
      assert s == [s[0]];
    } else if |s| == 2 {
      assert s == [s[0], s[1]];
    }
  }

  predicate NewlineFree(s: string) {
    forall i :: 0 <= i < |s| ==> !IsNewline(s[i])
  }

  /** A character class: a-z, A-Z, 0-9 and single characters, or any character but a newline. */
  datatype Class = Chars(lower: bool, upper: bool, digit: bool, also: set<char>) | Dot
  {
    predicate Has(c: char) {
      if Dot? then !IsNewline(c)
      else (lower && 'a' <= c <= 'z') || (upper && 'A' <= c <= 'Z') || (digit && '0' <= c <= '9') || c in also
    }

    predicate AvoidsNewline() {
      Dot? || forall c :: c in also ==> !IsNewline(c)
    }
  }

  datatype Re =
    | Chr(c: char)
    | Str(t: string)
    | OneOf(cls: Class)
    | Star(cls: Class)            // cls*
    | Cat(first: Re, second: Re)
    | Opt(body: Re)               // (?:body)?
    | Group(n: nat, body: Re)     // the n-th capturing group
    | Close(n: nat)               // the end of that group, put on the stack when it is entered
    | End                         // $

  /** What is still to be matched. */
  datatype Stack = Nil | Push(top: Re, rest: Stack)

  datatype Captures = Captures(starts: map<nat, nat>, texts: map<nat, string>)

  const NO_CAPTURES := Captures(map[], map[])

  /** g_match_info_fetch: a group that took no part reads as the empty string. */
  function Fetch(c: Captures, n: nat): string {
    if n in c.texts then c.texts[n] else ""
  }

  function Size(r: Re): nat {
    match r
    case Cat(a, b) => 1 + Size(a) + Size(b)
    case Opt(a) => 1 + Size(a)
    case Group(_, a) => 2 + Size(a)
    case _ => 1
  }

  function StackSize(k: Stack): nat {
    if k.Nil? then 0 else Size(k.top) + StackSize(k.rest)
  }

  /** A point of the search. */
  datatype Point = Point(k: Stack, i: nat, c: Captures)

  /** The ways on from a point, the preferred one first. */
  datatype Ways = Fail | One(next: Point) | Two(next: Point, otherwise: Point)

  ghost predicate Below(p: Point, k: Stack, s: string, i: nat) {
    p.i <= |s| && (StackSize(p.k) < StackSize(k) || (StackSize(p.k) == StackSize(k) && p.i > i))
  }

  function WaysOn(k: Stack, s: string, i: nat, c: Captures): Ways
    requires k.Push? && i <= |s|
  {
    match k.top
    case Chr(ch) => if i < |s| && s[i] == ch then One(Point(k.rest, i + 1, c)) else Fail
    case Str(t) => if HasPrefix(s[i..], t) then One(Point(k.rest, i + |t|, c)) else Fail
    case OneOf(cls) => if i < |s| && cls.Has(s[i]) then One(Point(k.rest, i + 1, c)) else Fail
    case Star(cls) =>
      if i < |s| && cls.Has(s[i]) then Two(Point(k, i + 1, c), Point(k.rest, i, c)) else One(Point(k.rest, i, c))
    case Cat(a, b) => One(Point(Push(a, Push(b, k.rest)), i, c))
    case Opt(a) => Two(Point(Push(a, k.rest), i, c), Point(k.rest, i, c))
    case Group(n, a) => One(Point(Push(a, Push(Close(n), k.rest)), i, c.(starts := c.starts[n := i])))
    case Close(n) =>
      var from := if n in c.starts && c.starts[n] <= i then c.starts[n] else i;
      One(Point(k.rest, i, c.(texts := c.texts[n := s[from..i]])))
    case End => if i + NewlineLength(s, i) == |s| then One(Point(k.rest, i, c)) else Fail
  }

  lemma WaysOnDecrease(k: Stack, s: string, i: nat, c: Captures)
    requires k.Push? && i <= |s|
    ensures var w := WaysOn(k, s, i, c);
            (!w.Fail? ==> Below(w.next, k, s, i)) && (w.Two? ==> Below(w.otherwise, k, s, i))
  {
  }

  /** The first complete match from position `i` on, in backtracking order. */
  function Match(k: Stack, s: string, i: nat, c: Captures): Option<Captures>
    requires i <= |s|
    decreases StackSize(k), |s| - i
  {
    if k.Nil? then Some(c)
    else
      var w := WaysOn(k, s, i, c);
      WaysOnDecrease(k, s, i, c);
      if w.Fail? then None
      else
        var r := Match(w.next.k, s, w.next.i, w.next.c);
        if r.Some? || w.One? then r else Match(w.otherwise.k, s, w.otherwise.i, w.otherwise.c)
  }

  /** A pattern that starts with `^`: only position 0 is tried. */
  function MatchAtStart(r: Re, s: string): Option<Captures> {
    Match(Push(r, Nil), s, 0, NO_CAPTURES)
  }

  /** The end of the longest run of the class from position `i` on. */
  function RunEnd(s: string, i: nat, cls: Class): (e: nat)
    requires i <= |s|
    ensures i <= e <= |s|
    ensures forall j :: i <= j < e ==> cls.Has(s[j])
    ensures e == |s| || !cls.Has(s[e])
    decreases |s| - i
  {
    if i < |s| && cls.Has(s[i]) then RunEnd(s, i + 1, cls) else i
  }

  predicate AllIn(s: string, cls: Class) {
    forall i :: 0 <= i < |s| ==> cls.Has(s[i])
  }

  // ---- How the engine runs ----

  /** The star commits to the last end point, at most the run end, from which the rest matches. */
  lemma {:induction false} StarTakes(cls: Class, rest: Stack, s: string, i: nat, j: nat, c: Captures)
    requires i <= |s| && i <= j <= RunEnd(s, i, cls)
    requires Match(rest, s, j, c).Some?
    requires forall j' :: j < j' <= RunEnd(s, i, cls) ==> Match(rest, s, j', c).None?
    ensures Match(Push(Star(cls), rest), s, i, c) == Match(rest, s, j, c)
    decreases |s| - i
  {
    if i < RunEnd(s, i, cls) {
      if i < j {
        StarTakes(cls, rest, s, i + 1, j, c);
      } else {
        StarFails(cls, rest, s, i + 1, c);
      }
    }
  }

  lemma {:induction false} StarFails(cls: Class, rest: Stack, s: string, i: nat, c: Captures)
    requires i <= |s|
    requires forall j :: i <= j <= RunEnd(s, i, cls) ==> Match(rest, s, j, c).None?
    ensures Match(Push(Star(cls), rest), s, i, c).None?
    decreases |s| - i
  {
    assert Match(rest, s, i, c).None?;
    if i < RunEnd(s, i, cls) {
      StarFails(cls, rest, s, i + 1, c);
    }
  }

  /** When what follows can only start outside the class, the star takes exactly its run. */
  lemma StarTakesRun(cls: Class, rest: Stack, s: string, i: nat, c: Captures)
    requires i <= |s|
    requires forall j :: i <= j < RunEnd(s, i, cls) ==> Match(rest, s, j, c).None?
    ensures Match(Push(Star(cls), rest), s, i, c) == Match(rest, s, RunEnd(s, i, cls), c)
  {
    var e := RunEnd(s, i, cls);
    if Match(rest, s, e, c).Some? {
      StarTakes(cls, rest, s, i, e, c);
    } else {
      StarFails(cls, rest, s, i, c);
    }
  }

  lemma RunOfDot(s: string, i: nat)
    requires NewlineFree(s) && i <= |s|
    ensures RunEnd(s, i, Dot) == |s|
  {
  }

  // ---- Newlines ----

  /** The node can neither consume a newline nor look for the end. */
  predicate AvoidsNewline(r: Re) {
    match r
    case Chr(c) => !IsNewline(c)
    case Str(t) => NewlineFree(t)
    case OneOf(cls) => cls.AvoidsNewline()
    case Star(cls) => cls.AvoidsNewline()
    case Cat(a, b) => AvoidsNewline(a) && AvoidsNewline(b)
    case Opt(a) => AvoidsNewline(a)
    case Group(_, a) => AvoidsNewline(a)
    case Close(_) => true
    case End => false
  }

  /** A pattern that closes with `$`. */
  predicate RunsToEnd(r: Re) {
    r.End? || (r.Cat? && AvoidsNewline(r.first) && RunsToEnd(r.second))
  }

  predicate StackRunsToEnd(k: Stack) {
    k.Push? && if k.rest.Nil? then RunsToEnd(k.top) else AvoidsNewline(k.top) && StackRunsToEnd(k.rest)
  }

  lemma WaysStayOnTrack(k: Stack, s: string, i: nat, c: Captures)
    requires i <= |s| && StackRunsToEnd(k) && !k.top.End?
    ensures var w := WaysOn(k, s, i, c);
            (!w.Fail? ==> StackRunsToEnd(w.next.k)) && (w.Two? ==> StackRunsToEnd(w.otherwise.k))
  {
  }

  lemma PrefixAvoidsNewline(s: string, i: nat, t: string)
    requires i <= |s| && NewlineFree(t) && HasPrefix(s[i..], t)
    ensures forall j :: i <= j < i + |t| ==> !IsNewline(s[j])
  {
    forall j | i <= j < i + |t|
      ensures !IsNewline(s[j])
    {
      assert s[i..][..|t|][j - i] == s[j];
    }
  }

  lemma ClassAvoidsNewline(cls: Class, c: char)
    requires cls.AvoidsNewline() && IsNewline(c)
    ensures !cls.Has(c)
  {
  }

  lemma WaysStopAt(k: Stack, s: string, i: nat, c: Captures, q: nat)
    requires i <= q < |s| && IsNewline(s[q]) && StackRunsToEnd(k) && !k.top.End?
    ensures var w := WaysOn(k, s, i, c);
            (!w.Fail? ==> w.next.i <= q) && (w.Two? ==> w.otherwise.i <= q)
  {
    if k.top.Str? && HasPrefix(s[i..], k.top.t) {
      PrefixAvoidsNewline(s, i, k.top.t);
    } else if k.top.OneOf? || k.top.Star? {
      ClassAvoidsNewline(k.top.cls, s[q]);
    }
  }

  /** Nothing gets past a newline with more text behind it. */
  lemma {:induction false} NoMatchAcrossNewline(k: Stack, s: string, i: nat, c: Captures, q: nat)
    requires i <= q < |s| && IsNewline(s[q]) && q + NewlineLength(s, q) < |s| && StackRunsToEnd(k)
    ensures Match(k, s, i, c).None?
    decreases StackSize(k), |s| - i
  {
    if !k.top.End? {
      var w := WaysOn(k, s, i, c);
      WaysOnDecrease(k, s, i, c);
      WaysStayOnTrack(k, s, i, c);
      WaysStopAt(k, s, i, c, q);
      if !w.Fail? {
        NoMatchAcrossNewline(w.next.k, s, w.next.i, w.next.c, q);
      }
      if w.Two? {
        NoMatchAcrossNewline(w.otherwise.k, s, w.otherwise.i, w.otherwise.c, q);
      }
    }
  }

  /** The text without one newline at its end, CR LF counting as one. */
  function Body(s: string): (b: string)
    ensures b <= s
    ensures b != s ==> NewlineLength(s, |b|) > 0 && |b| + NewlineLength(s, |b|) == |s|
    ensures b == s ==> s == "" || !IsNewline(s[|s| - 1])
  {
    if |s| >= 2 && s[|s| - 2] == '\r' && s[|s| - 1] == '\n' then s[..|s| - 2]
    else if s != "" && IsNewline(s[|s| - 1]) then s[..|s| - 1]
    else s
  }

  predicate OneLine(s: string) {
    NewlineFree(Body(s))
  }

  lemma BodyOfLine(line: string, newline: string)
    requires NewlineFree(line) && NewlineLength(newline, 0) == |newline|
    ensures Body(line + newline) == line
  {
    var s := line + newline;
    assert forall i :: 0 <= i < |s| ==> s[i] == if i < |line| then line[i] else newline[i - |line|];
    assert s[..|line|] == line;
  }

  lemma SameWays(k: Stack, s: string, b: string, i: nat, c: Captures)
    requires b < s && IsNewline(s[|b|]) && NewlineFree(b) && i <= |b|
    requires StackRunsToEnd(k) && !k.top.End?
    ensures WaysOn(k, s, i, c) == WaysOn(k, b, i, c)
  {
    if k.top.Str? {
      var t := k.top.t;
      if HasPrefix(s[i..], t) {
        PrefixAvoidsNewline(s, i, t);
      }
      if i + |t| <= |b| {
        assert s[i..][..|t|] == b[i..][..|t|];
      } else {
        assert |t| > |b[i..]|;
      }
    } else if k.top.OneOf? || k.top.Star? {
      ClassAvoidsNewline(k.top.cls, s[|b|]);
    } else if k.top.Close? {
      var from := if k.top.n in c.starts && c.starts[k.top.n] <= i then c.starts[k.top.n] else i;
      assert s[from..i] == b[from..i];
    }
  }

  /** A newline at the very end makes no difference. */
  lemma {:induction false} FinalNewlineIgnored(k: Stack, s: string, b: string, i: nat, c: Captures)
    requires b < s && |b| + NewlineLength(s, |b|) == |s| && NewlineFree(b) && i <= |b|
    requires StackRunsToEnd(k)
    ensures Match(k, s, i, c) == Match(k, b, i, c)
    decreases StackSize(k), |s| - i
  {
    if k.top.End? {
      assert Match(Nil, s, i, c) == Match(Nil, b, i, c);
      assert i < |b| ==> !IsNewline(s[i]);
    } else {
      var w := WaysOn(k, s, i, c);
      SameWays(k, s, b, i, c);
      WaysOnDecrease(k, s, i, c);
      WaysStayOnTrack(k, s, i, c);
      WaysStopAt(k, s, i, c, |b|);
      if !w.Fail? {
        FinalNewlineIgnored(w.next.k, s, b, w.next.i, w.next.c);
      }
      if w.Two? {
        FinalNewlineIgnored(w.otherwise.k, s, b, w.otherwise.i, w.otherwise.c);
      }
    }
  }

  /** On any text at all: a pattern that closes with `$` reads the text without its final newline,
      and matches nothing when another newline is left. */
  lemma MatchOnAnyText(r: Re, s: string)
    requires RunsToEnd(r)
    ensures MatchAtStart(r, s) == if OneLine(s) then MatchAtStart(r, Body(s)) else None
  {
    var k, b := Push(r, Nil), Body(s);
    if !OneLine(s) {
      var q :| 0 <= q < |b| && IsNewline(b[q]);
      assert s[q] == b[q];
      NoMatchAcrossNewline(k, s, 0, NO_CAPTURES, q);
    } else if b != s {
      FinalNewlineIgnored(k, s, b, 0, NO_CAPTURES);
    }
  }
}
