/**
  SQL's LIKE, as a recursive matcher over pattern tokens, and what the unescaped patterns
  that the repository builds (`%s%`, `s%`, `%s`) mean.

  `escapes` says whether the database reads a backslash in a pattern as an escape character
  (MySQL does by default, SQLite does not).
*/
module Like {

  // ----- Case folding -----

  /** LOWER() on one character; only the ASCII letters are folded. */
  function LowerChar(c: char): char {
    if 'A' <= c <= 'Z' then (c as int - 'A' as int + 'a' as int) as char else c
  }

  function Lower(s: string): (r: string)
    ensures |r| == |s|
    ensures forall i :: 0 <= i < |s| ==> r[i] == LowerChar(s[i])
  {
    if s == [] then [] else [LowerChar(s[0])] + Lower(s[1..])
  }

  // ----- Patterns -----

  datatype Token = Lit(c: char) | One | Many

  function Tokens(p: string, escapes: bool): seq<Token> {
    if p == [] then []
    else if escapes && p[0] == '\\' then
      if |p| == 1 then [Lit('\\')] else [Lit(p[1])] + Tokens(p[2..], escapes)
    else
      [if p[0] == '%' then Many else if p[0] == '_' then One else Lit(p[0])] + Tokens(p[1..], escapes)
  }

  predicate Accepts(ts: seq<Token>, t: string)
    decreases |ts| + |t|
  {
    if ts == [] then t == []
    else match ts[0]
      case Lit(c) => t != [] && t[0] == c && Accepts(ts[1..], t[1..])
      case One => t != [] && Accepts(ts[1..], t[1..])
      case Many => Accepts(ts[1..], t) || (t != [] && Accepts(ts, t[1..]))
  }

  predicate Matches(t: string, pattern: string, escapes: bool) {
    Accepts(Tokens(pattern, escapes), t)
  }

  // ----- What a search is meant to find -----

  datatype Search = Contains | Starts | Ends

  /** The pattern that is built around the search text, with nothing escaped. */
  function Pattern(kind: Search, s: string): string {
    match kind
    case Contains => "%" + s + "%"
    case Starts => s + "%"
    case Ends => "%" + s
  }

  ghost predicate Finds(kind: Search, t: string, s: string) {
    match kind
    case Contains => exists k :: 0 <= k <= |t| && s <= t[k..]
    case Starts => s <= t
    case Ends => |s| <= |t| && t[|t| - |s|..] == s
  }

  predicate IsMeta(c: char, escapes: bool) {
    c == '%' || c == '_' || (escapes && c == '\\')
  }

  /**
    The search texts that mean themselves. A lone backslash at the very end of a pattern
    escapes nothing, so at the end of an `Ends` pattern it is harmless.
  */
  predicate Plain(kind: Search, s: string, escapes: bool) {
    || (forall i :: 0 <= i < |s| ==> !IsMeta(s[i], escapes))
    || (&& kind == Ends && s != [] && s[|s| - 1] == '\\'
        && forall i :: 0 <= i < |s| - 1 ==> !IsMeta(s[i], escapes))
  }

  // ----- Plain text is matched literally -----

  function Lits(s: string): seq<Token> {
    seq(|s|, i requires 0 <= i < |s| => Lit(s[i]))
  }

  const CAPITALS := "ABCDEFGHIJKLMNOPQRSTUVWXYZ"
  const SMALL := "abcdefghijklmnopqrstuvwxyz"

  /** Folding takes each capital to its small letter and leaves everything else. */
  lemma FoldsCapitals(c: char)
    ensures |CAPITALS| == |SMALL| && forall i :: 0 <= i < |CAPITALS| ==> LowerChar(CAPITALS[i]) == SMALL[i]
    ensures c !in CAPITALS ==> LowerChar(c) == c
  {
    if 'A' <= c <= 'Z' {
      assert CAPITALS[c as int - 'A' as int] == c;
    }
  }


  lemma {:induction false} PlainTokens(s: string, rest: string, escapes: bool)
    requires forall i :: 0 <= i < |s| ==> !IsMeta(s[i], escapes)
    ensures Tokens(s + rest, escapes) == Lits(s) + Tokens(rest, escapes)
  {
    if s == [] {
      assert s + rest == rest;
    } else {
      PlainTokens(s[1..], rest, escapes);
      assert (s + rest)[1..] == s[1..] + rest;
      assert Lits(s) == [Lit(s[0])] + Lits(s[1..]);
    }
  }

  lemma {:induction false} AcceptsLits(s: string, ts: seq<Token>, t: string)
    ensures Accepts(Lits(s) + ts, t) <==> s <= t && Accepts(ts, t[|s|..])
  {
    if s == [] {
      assert Lits(s) + ts == ts;
    } else {
      assert (Lits(s) + ts)[1..] == Lits(s[1..]) + ts;
      if t != [] && t[0] == s[0] {
        AcceptsLits(s[1..], ts, t[1..]);
        assert s <= t <==> s[1..] <= t[1..];
        assert s <= t ==> t[1..][|s[1..]|..] == t[|s|..];
      }
    }
  }

  lemma {:induction false} AcceptsMany(ts: seq<Token>, t: string)
    ensures Accepts([Many] + ts, t) <==> exists k :: 0 <= k <= |t| && Accepts(ts, t[k..])
  {
    assert ([Many] + ts)[1..] == ts;
    assert t[0..] == t;
    if t != [] {
      AcceptsMany(ts, t[1..]);
      forall k | 0 <= k < |t|
        ensures t[1..][k..] == t[k + 1..]
      {}
      if exists k :: 0 <= k <= |t| && Accepts(ts, t[k..]) {
        var k :| 0 <= k <= |t| && Accepts(ts, t[k..]);
        if k > 0 { assert t[1..][k - 1..] == t[k..]; }
      }
    }
  }

  lemma AcceptsAnything(t: string)
    ensures Accepts([Many], t)
  {
    AcceptsMany([], t);
    assert [Many] + [] == [Many];
    assert t[|t|..] == [];
  }

  lemma PlainStarts(s: string, escapes: bool, t: string)
    requires Plain(Starts, s, escapes)
    ensures Matches(t, Pattern(Starts, s), escapes) <==> Finds(Starts, t, s)
  {
    assert Tokens("%", escapes) == [Many];
    PlainTokens(s, "%", escapes);
    AcceptsLits(s, [Many], t);
    if s <= t { AcceptsAnything(t[|s|..]); }
  }

  lemma PlainContains(s: string, escapes: bool, t: string)
    requires Plain(Contains, s, escapes)
    ensures Matches(t, Pattern(Contains, s), escapes) <==> Finds(Contains, t, s)
  {
    assert Tokens("%", escapes) == [Many];
    PlainTokens(s, "%", escapes);
    assert ("%" + s + "%")[1..] == s + "%";
    AcceptsMany(Lits(s) + [Many], t);
    forall k | 0 <= k <= |t|
      ensures Accepts(Lits(s) + [Many], t[k..]) <==> s <= t[k..]
    {
      AcceptsLits(s, [Many], t[k..]);
      if s <= t[k..] { AcceptsAnything(t[k..][|s|..]); }
    }
  }

  lemma PlainEnds(s: string, escapes: bool, t: string)
    requires Plain(Ends, s, escapes)
    ensures Matches(t, Pattern(Ends, s), escapes) <==> Finds(Ends, t, s)
  {
    EndsTokens(s, escapes);
    assert ("%" + s)[1..] == s;
    AcceptsMany(Lits(s), t);
    assert Lits(s) + [] == Lits(s);
    forall k | 0 <= k <= |t|
      ensures Accepts(Lits(s), t[k..]) <==> t[k..] == s
    {
      AcceptsLits(s, [], t[k..]);
    }
    if exists k :: 0 <= k <= |t| && Accepts(Lits(s), t[k..]) {
      var k :| 0 <= k <= |t| && Accepts(Lits(s), t[k..]);
      assert k == |t| - |s|;
    }
  }

  lemma PlainPatternFinds(kind: Search, s: string, escapes: bool, t: string)
    requires Plain(kind, s, escapes)
    ensures Matches(t, Pattern(kind, s), escapes) <==> Finds(kind, t, s)
  {
    match kind {
      case Starts => PlainStarts(s, escapes, t);
      case Contains => PlainContains(s, escapes, t);
      case Ends => PlainEnds(s, escapes, t);
    }
  }

  lemma EndsTokens(s: string, escapes: bool)
    requires Plain(Ends, s, escapes)
    ensures Tokens(s, escapes) == Lits(s)
  {
    if forall i :: 0 <= i < |s| ==> !IsMeta(s[i], escapes) {
      PlainTokens(s, "", escapes);
      assert s + "" == s;
    } else {
      var init := s[..|s| - 1];
      assert s == init + "\\";
      PlainTokens(init, "\\", escapes);
      assert Tokens("\\", escapes) == [Lit('\\')];
    }
  }

  // ----- Any other text is not -----

  /** A text that the tokens accept, no longer than the pattern they came from. */
  function Sample(ts: seq<Token>): string {
    if ts == [] then ""
    else match ts[0]
      case Lit(c) => [c] + Sample(ts[1..])
      case One => ['a'] + Sample(ts[1..])
      case Many => Sample(ts[1..])
  }

  lemma {:induction false} SampleAccepted(ts: seq<Token>)
    ensures Accepts(ts, Sample(ts))
  {
    if ts != [] { SampleAccepted(ts[1..]); }
  }

  /** The sample reproduces the search text only when nothing in it was special. */
  lemma {:induction false} SampleReproduces(kind: Search, s: string, escapes: bool)
    ensures var post := if kind == Ends then "" else "%";
            var u := Sample(Tokens(s + post, escapes));
            |u| <= |s| && (u == s ==> Plain(kind, s, escapes))
    decreases |s|
  {
    var post := if kind == Ends then "" else "%";
    var u := Sample(Tokens(s + post, escapes));
    if s == [] {
      assert s + post == post;
    } else if escapes && s[0] == '\\' {
      if |s| == 1 {
        assert s + post == if kind == Ends then "\\" else "\\%";
        assert (s + post)[..] == s + post;
      } else {
        SampleReproduces(kind, s[2..], escapes);
        assert (s + post)[2..] == s[2..] + post;
        assert u == [s[1]] + Sample(Tokens(s[2..] + post, escapes));
      }
    } else {
      SampleReproduces(kind, s[1..], escapes);
      assert (s + post)[1..] == s[1..] + post;
      var rest := Sample(Tokens(s[1..] + post, escapes));
      if u == s {
        assert u == [s[0]] + rest;
        assert rest == s[1..];
      }
    }
  }

  lemma {:induction false} SampleIsLower(s: string, escapes: bool)
    requires Lower(s) == s
    ensures Lower(Sample(Tokens(s, escapes))) == Sample(Tokens(s, escapes))
    decreases |s|
  {
    if s != [] {
      assert forall i :: 0 <= i < |s| ==> LowerChar(s[i]) == s[i];
      LowerTail(s, 1);
      if escapes && s[0] == '\\' {
        if |s| > 1 {
          LowerTail(s, 2);
          SampleIsLower(s[2..], escapes);
        }
      } else {
        SampleIsLower(s[1..], escapes);
      }
    }
  }

  lemma LowerTail(s: string, k: nat)
    requires k <= |s|
    ensures Lower(s[k..]) == Lower(s)[k..]
  {}

  lemma LowerPattern(kind: Search, s: string)
    ensures Lower(Pattern(kind, s)) == Pattern(kind, Lower(s))
    ensures Lower(Lower(s)) == Lower(s)
  {}

  lemma LowerKeepsPlain(kind: Search, s: string, escapes: bool)
    ensures Plain(kind, Lower(s), escapes) <==> Plain(kind, s, escapes)
  {
    var l := Lower(s);
    assert forall i :: 0 <= i < |s| ==> l[i] == LowerChar(s[i]) && (IsMeta(l[i], escapes) <==> IsMeta(s[i], escapes));
    if s != [] {
      assert l[|s| - 1] == LowerChar(s[|s| - 1]);
    }
  }

  /** A text that the pattern of a search with special characters accepts although the search text is not there. */
  lemma Misfire(kind: Search, s: string, escapes: bool) returns (t: string)
    requires !Plain(kind, s, escapes)
    ensures Matches(t, Pattern(kind, s), escapes) && !Finds(kind, t, s)
    ensures Lower(s) == s ==> Lower(t) == t
  {
    var pattern := Pattern(kind, s);
    var body := if kind == Ends then s else s + "%";
    t := Sample(Tokens(pattern, escapes));
    SampleAccepted(Tokens(pattern, escapes));
    SampleReproduces(kind, s, escapes);
    if kind == Ends {
      assert s + "" == s;
    }
    if kind == Starts {
      assert pattern == body;
    } else {
      assert pattern[1..] == body;
      assert Tokens(pattern, escapes) == [Many] + Tokens(body, escapes);
    }
    assert t == Sample(Tokens(body, escapes));
    if Lower(s) == s {
      LowerPattern(kind, s);
      SampleIsLower(pattern, escapes);
    }
  }

  /**
    Pattern search is faithful, for every text, exactly when the search text has no
    metacharacter: both for LIKE and, below, for the case-insensitive form.
  */
  lemma PatternExact(kind: Search, s: string, escapes: bool)
    ensures Plain(kind, s, escapes) <==>
            forall t :: Matches(t, Pattern(kind, s), escapes) <==> Finds(kind, t, s)
  {
    if Plain(kind, s, escapes) {
      forall t
        ensures Matches(t, Pattern(kind, s), escapes) <==> Finds(kind, t, s)
      {
        PlainPatternFinds(kind, s, escapes, t);
      }
    } else {
      var t := Misfire(kind, s, escapes);
    }
  }

  /** Case-insensitive LIKE: both sides are folded before they are matched. */
  predicate MatchesFolded(t: string, pattern: string, escapes: bool) {
    Matches(Lower(t), Lower(pattern), escapes)
  }

  lemma FoldedPlainFinds(kind: Search, s: string, escapes: bool, t: string)
    requires Plain(kind, s, escapes)
    ensures MatchesFolded(t, Pattern(kind, s), escapes) <==> Finds(kind, Lower(t), Lower(s))
  {
    LowerPattern(kind, s);
    LowerKeepsPlain(kind, s, escapes);
    PlainPatternFinds(kind, Lower(s), escapes, Lower(t));
  }

  /** A text that the case-insensitive pattern accepts although the search text is not there. */
  lemma FoldedMisfire(kind: Search, s: string, escapes: bool) returns (t: string)
    requires !Plain(kind, s, escapes)
    ensures MatchesFolded(t, Pattern(kind, s), escapes) && !Finds(kind, Lower(t), Lower(s))
  {
    LowerPattern(kind, s);
    LowerKeepsPlain(kind, s, escapes);
    t := Misfire(kind, Lower(s), escapes);
  }

  /** For example, searching for a percent sign finds every text. */
  lemma PercentFindsAnything(t: string)
    ensures MatchesFolded(t, Pattern(Contains, "%"), false)
    ensures t == "5" ==> !Finds(Contains, Lower(t), Lower("%"))
  {
    var pattern := Pattern(Contains, "%");
    assert pattern == "%%%" && Lower(pattern) == pattern;
    assert Tokens("%", false) == [Many];
    assert "%%"[1..] == "%" && pattern[1..] == "%%";
    assert Tokens("%%", false) == [Many, Many];
    assert Tokens(pattern, false) == [Many, Many, Many];
    AcceptsAnything(Lower(t));
    assert [Many, Many][1..] == [Many];
    assert [Many, Many, Many][1..] == [Many, Many];
  }

  lemma FoldedPatternExact(kind: Search, s: string, escapes: bool)
    ensures Plain(kind, s, escapes) <==>
            forall t :: MatchesFolded(t, Pattern(kind, s), escapes) <==> Finds(kind, Lower(t), Lower(s))
  {
    if Plain(kind, s, escapes) {
      forall t
        ensures MatchesFolded(t, Pattern(kind, s), escapes) <==> Finds(kind, Lower(t), Lower(s))
      {
        FoldedPlainFinds(kind, s, escapes, t);
      }
    } else {
      var t := FoldedMisfire(kind, s, escapes);
    }
  }
}
