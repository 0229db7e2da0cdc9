/** SQLite's LIKE operator with its default settings: `%` any run, `_` any one character,
    everything else itself up to ASCII case. */
module SqlLike {
  import opened Text

  /** `text LIKE pattern`, by backtracking on `%`. */
  predicate Like(text: string, pattern: string)
    decreases |pattern|, |text|
  {
    if pattern == "" then text == ""
    else if pattern[0] == '%' then
      Like(text, pattern[1..]) || (text != "" && Like(text[1..], pattern))
    else
      text != "" && MatchesOne(text[0], pattern[0]) && Like(text[1..], pattern[1..])
  }

  predicate MatchesOne(c: char, p: char) {
    p == '_' || FoldChar(c) == FoldChar(p)
  }

  predicate WildcardFree(s: string) {
    !Contains(s, '%') && !Contains(s, '_')
  }

  function Concat(pieces: seq<string>): string {
    if pieces == [] then "" else pieces[0] + Concat(pieces[1..])
  }

  predicate PieceFits(piece: string, p: char) {
    p == '%' || (|piece| == 1 && MatchesOne(piece[0], p))
  }

  /** The declarative meaning: `text` can be cut into one piece per pattern character. */
  ghost predicate IsSplit(pieces: seq<string>, text: string, pattern: string) {
    && |pieces| == |pattern|
    && Concat(pieces) == text
    && forall i :: 0 <= i < |pattern| ==> PieceFits(pieces[i], pattern[i])
  }

  lemma {:induction false} LikeSound(text: string, pattern: string) returns (pieces: seq<string>)
    requires Like(text, pattern)
    ensures IsSplit(pieces, text, pattern)
    decreases |pattern|, |text|
  {
    if pattern == "" {
      pieces := [];
    } else if pattern[0] == '%' {
      if Like(text, pattern[1..]) {
        var rest := LikeSound(text, pattern[1..]);
        pieces := [""] + rest;
        assert pieces[1..] == rest;
      } else {
        var longer := LikeSound(text[1..], pattern);
        pieces := [[text[0]] + longer[0]] + longer[1..];
        assert pieces[1..] == longer[1..];
        assert Concat(pieces) == [text[0]] + Concat(longer);
      }
    } else {
      var rest := LikeSound(text[1..], pattern[1..]);
      pieces := [[text[0]]] + rest;
      assert pieces[1..] == rest;
    }
  }

  lemma {:induction false} LikeComplete(text: string, pattern: string, pieces: seq<string>)
    requires IsSplit(pieces, text, pattern)
    ensures Like(text, pattern)
    decreases |pattern|, |text|
  {
    if pattern != "" {
      var rest := pieces[1..];
      assert text == pieces[0] + Concat(rest);
      assert PieceFits(pieces[0], pattern[0]);
      assert forall i :: 0 <= i < |rest| ==> PieceFits(rest[i], pattern[1..][i]);
      if pattern[0] == '%' && pieces[0] != "" {
        var shorter := [pieces[0][1..]] + rest;
        assert shorter[1..] == rest;
        assert text[1..] == pieces[0][1..] + Concat(rest);
        LikeComplete(text[1..], pattern, shorter);
      } else {
        assert Concat(rest) == text[|pieces[0]|..];
        LikeComplete(text[|pieces[0]|..], pattern[1..], rest);
        if pattern[0] == '%' {
          assert text[0..] == text;
        }
      }
    }
  }

  /** The backtracking matcher decides exactly the declarative meaning. */
  lemma LikeIsSplitting(text: string, pattern: string)
    ensures Like(text, pattern) <==> exists pieces :: IsSplit(pieces, text, pattern)
  {
    if Like(text, pattern) {
      var pieces := LikeSound(text, pattern);
    }
    if pieces :| IsSplit(pieces, text, pattern) {
      LikeComplete(text, pattern, pieces);
    }
  }

  lemma {:induction false} LikeWildcardFree(text: string, p: string)
    requires WildcardFree(p)
    ensures Like(text, p) <==> SameFolded(text, p)
    decreases |p|
  {
    if p != "" && text != "" {
      assert p[0] != '%' && p[0] != '_';
      assert forall i :: 0 <= i < |p| - 1 ==> p[1..][i] == p[i + 1];
      assert WildcardFree(p[1..]);
      LikeWildcardFree(text[1..], p[1..]);
      if SameFolded(text, p) {
        assert SameFolded(text[1..], p[1..]);
      }
      if MatchesOne(text[0], p[0]) && SameFolded(text[1..], p[1..]) {
        assert forall i :: 1 <= i < |p| ==> p[i] == p[1..][i - 1] && text[i] == text[1..][i - 1];
      }
    }
  }

  lemma {:induction false} LikePercentFirst(text: string, suffix: string)
    requires WildcardFree(suffix)
    ensures Like(text, "%" + suffix) <==> EndsWithFolded(text, suffix)
    decreases |text|
  {
    var pattern := "%" + suffix;
    assert pattern[1..] == suffix;
    LikeWildcardFree(text, suffix);
    if text == "" {
    } else {
      LikePercentFirst(text[1..], suffix);
      if |suffix| <= |text| - 1 {
        assert text[1..][|text| - 1 - |suffix|..] == text[|text| - |suffix|..];
      } else if |suffix| == |text| {
        assert text[0..] == text;
      }
    }
  }

  lemma SameFoldedSpelled(a: string, b: string)
    requires |a| == |b|
    ensures SameFolded(a, b) <==>
            forall i :: 0 <= i < |b| ==>
              || a[i] == b[i]
              || ('A' <= a[i] <= 'Z' && b[i] as int == a[i] as int + 32)
              || ('A' <= b[i] <= 'Z' && a[i] as int == b[i] as int + 32)
  {
    forall i | 0 <= i < |b| {
      FoldsAsciiCase(a[i], b[i]);
    }
  }

  /** `domain LIKE '%' || suffix` is "ends with", up to ASCII case, when the suffix has no wildcard. */
  lemma LikePercentPrefix(text: string, suffix: string)
    requires WildcardFree(suffix)
    ensures Like(text, "%" + suffix) <==> EndsWithFolded(text, suffix)
    ensures Like(text, "%" + suffix) <==>
            |suffix| <= |text| &&
            var end := text[|text| - |suffix|..];
            forall i :: 0 <= i < |suffix| ==>
              || end[i] == suffix[i]
              || ('A' <= end[i] <= 'Z' && suffix[i] as int == end[i] as int + 32)
              || ('A' <= suffix[i] <= 'Z' && end[i] as int == suffix[i] as int + 32)
  {
    LikePercentFirst(text, suffix);
    if |suffix| <= |text| {
      SameFoldedSpelled(text[|text| - |suffix|..], suffix);
    }
  }

  lemma {:induction false} LikeLonePercent(text: string)
    ensures Like(text, "%")
    decreases |text|
  {
    if text == "" {
      assert "%"[1..] == "";
    } else {
      LikeLonePercent(text[1..]);
    }
  }

  lemma {:induction false} LikePercentLast(text: string, dir: string)
    requires WildcardFree(dir)
    ensures Like(text, dir + "%") <==> StartsWithFolded(text, dir)
    decreases |dir|
  {
    var pattern := dir + "%";
    if dir == "" {
      assert pattern == "%";
      LikeLonePercent(text);
    } else {
      assert dir[0] != '%' && dir[0] != '_';
      assert pattern[1..] == dir[1..] + "%";
      assert forall i :: 0 <= i < |dir| - 1 ==> dir[1..][i] == dir[i + 1];
      assert WildcardFree(dir[1..]);
      if text != "" {
        LikePercentLast(text[1..], dir[1..]);
        if |dir| <= |text| {
          assert text[..|dir|][1..] == text[1..][..|dir| - 1];
          FoldedCons(text[..|dir|], dir);
        }
      }
    }
  }

  /** `name LIKE dir || '%'` is "starts with", up to ASCII case, when the directory has no wildcard. */
  lemma LikePercentSuffix(text: string, dir: string)
    requires WildcardFree(dir)
    ensures Like(text, dir + "%") <==> StartsWithFolded(text, dir)
    ensures Like(text, dir + "%") <==>
            |dir| <= |text| &&
            forall i :: 0 <= i < |dir| ==>
              || text[i] == dir[i]
              || ('A' <= text[i] <= 'Z' && dir[i] as int == text[i] as int + 32)
              || ('A' <= dir[i] <= 'Z' && text[i] as int == dir[i] as int + 32)
  {
    LikePercentLast(text, dir);
    if |dir| <= |text| {
      SameFoldedSpelled(text[..|dir|], dir);
    }
  }

  lemma FoldedCons(a: string, b: string)
    requires |a| == |b| > 0
    ensures SameFolded(a, b) <==> FoldChar(a[0]) == FoldChar(b[0]) && SameFolded(a[1..], b[1..])
  {
    if FoldChar(a[0]) == FoldChar(b[0]) && SameFolded(a[1..], b[1..]) {
      assert forall i :: 1 <= i < |a| ==> a[i] == a[1..][i - 1] && b[i] == b[1..][i - 1];
    }
  }

  /** Matches join. */
  lemma {:induction false} LikeConcat(a: string, p: string, b: string, q: string)
    requires Like(a, p) && Like(b, q)
    ensures Like(a + b, p + q)
    decreases |p|, |a|
  {
    if p == "" {
      assert a + b == b && p + q == q;
    } else {
      assert (p + q)[0] == p[0] && (p + q)[1..] == p[1..] + q;
      assert a != "" ==> (a + b)[1..] == a[1..] + b;
      if p[0] == '%' && !Like(a, p[1..]) {
        LikeConcat(a[1..], p, b, q);
      } else if p[0] == '%' {
        LikeConcat(a, p[1..], b, q);
      } else {
        LikeConcat(a[1..], p[1..], b, q);
      }
    }
  }

  /** Wildcards match themselves. */
  lemma {:induction false} LikeItself(s: string)
    ensures Like(s, s)
    decreases |s|
  {
    if s != "" {
      LikeItself(s[1..]);
    }
  }

  /** Every continuation of a directory's name is under its pattern. */
  lemma LikeOwnPrefix(dir: string, rest: string)
    ensures Like(dir + rest, dir + "%")
  {
    LikeItself(dir);
    LikeLonePercent(rest);
    LikeConcat(dir, dir, rest, "%");
  }

  /** `name LIKE dir || '%'`, for any directory: some beginning of the name is LIKE the directory's. */
  lemma {:induction false} LikePercentSuffixAny(text: string, dir: string)
    ensures Like(text, dir + "%") <==> exists k :: 0 <= k <= |text| && Like(text[..k], dir)
    decreases |dir|, |text|
  {
    if Like(text, dir + "%") {
      var k := MatchingPrefix(text, dir);
    }
    if k :| 0 <= k <= |text| && Like(text[..k], dir) {
      LikeLonePercent(text[k..]);
      LikeConcat(text[..k], dir, text[k..], "%");
      assert text == text[..k] + text[k..];
    }
  }

  lemma {:induction false} MatchingPrefix(text: string, dir: string) returns (k: nat)
    requires Like(text, dir + "%")
    ensures k <= |text| && Like(text[..k], dir)
    decreases |dir|, |text|
  {
    if dir == "" {
      k := 0;
    } else {
      assert (dir + "%")[0] == dir[0] && (dir + "%")[1..] == dir[1..] + "%";
      if dir[0] == '%' && Like(text, dir[1..] + "%") {
        k := MatchingPrefix(text, dir[1..]);
      } else {
        var rest := MatchingPrefix(text[1..], if dir[0] == '%' then dir else dir[1..]);
        k := rest + 1;
        assert text[..k][1..] == text[1..][..rest] && text[..k][0] == text[0];
      }
    }
  }

  function Slashes(s: string): nat {
    if s == "" then 0 else (if s[0] == '/' then 1 else 0) + Slashes(s[1..])
  }

  lemma {:induction false} SlashesAppend(a: string, b: string)
    ensures Slashes(a + b) == Slashes(a) + Slashes(b)
    decreases |a|
  {
    if a == "" {
      assert a + b == b;
    } else {
      SlashesAppend(a[1..], b);
      assert (a + b)[1..] == a[1..] + b;
    }
  }

  /** No wildcard stands for a slash of the pattern: each has to be in the text. */
  lemma {:induction false} LikeKeepsSlashes(text: string, pattern: string)
    requires Like(text, pattern)
    ensures Slashes(pattern) <= Slashes(text)
    decreases |pattern|, |text|
  {
    if pattern != "" {
      if pattern[0] == '%' {
        if Like(text, pattern[1..]) {
          LikeKeepsSlashes(text, pattern[1..]);
        } else {
          LikeKeepsSlashes(text[1..], pattern);
        }
      } else {
        LikeKeepsSlashes(text[1..], pattern[1..]);
      }
    }
  }

  /** Suffixes that match one domain form a chain; of equal length, they are the same up to case. */
  lemma MatchingSuffixesChain(domain: string, a: string, b: string)
    requires WildcardFree(a) && WildcardFree(b)
    requires Like(domain, "%" + a) && Like(domain, "%" + b)
    requires |a| <= |b|
    ensures EndsWithFolded(b, a)
    ensures |a| == |b| ==> SameFolded(a, b)
  {
    LikePercentPrefix(domain, a);
    LikePercentPrefix(domain, b);
    var da, db, tail := domain[|domain| - |a|..], domain[|domain| - |b|..], b[|b| - |a|..];
    forall i | 0 <= i < |a|
      ensures FoldChar(tail[i]) == FoldChar(a[i])
    {
      assert da[i] == domain[|domain| - |a| + i] == db[|b| - |a| + i];
    }
  }
}
