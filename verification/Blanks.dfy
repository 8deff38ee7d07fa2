/** Taking the blanks off the ends of a text. */
module Blanks {

  /** The characters that `str.strip` removes, one by one. */
  const BLANKS :=
    "\U{0009}\U{000A}\U{000B}\U{000C}\U{000D}\U{001C}\U{001D}\U{001E}\U{001F}\U{0020}\U{0085}\U{00A0}\U{1680}"
    + "\U{2000}\U{2001}\U{2002}\U{2003}\U{2004}\U{2005}\U{2006}\U{2007}\U{2008}\U{2009}\U{200A}"
    + "\U{2028}\U{2029}\U{202F}\U{205F}\U{3000}"

  predicate IsSpace(c: char) {
    var i := c as int;
    || 0x09 <= i <= 0x0D || 0x1C <= i <= 0x20 || i == 0x85 || i == 0xA0 || i == 0x1680
    || 0x2000 <= i <= 0x200A || i == 0x2028 || i == 0x2029 || i == 0x202F || i == 0x205F || i == 0x3000
  }

  function StripLeft(s: string): string {
    if s != [] && IsSpace(s[0]) then StripLeft(s[1..]) else s
  }

  function StripRight(s: string): string {
    if s != [] && IsSpace(s[|s| - 1]) then StripRight(s[..|s| - 1]) else s
  }

  function Strip(s: string): string {
    StripRight(StripLeft(s))
  }

  // ----- What stripping means -----

  ghost predicate AllBlank(s: string) {
    forall c :: c in s ==> c in BLANKS
  }

  /** No blank at either end. */
  ghost predicate Trimmed(t: string) {
    t != "" ==> t[0] !in BLANKS && t[|t| - 1] !in BLANKS
  }

  /** `t` is what is left of `s` without the blanks around it. */
  ghost predicate Bare(s: string, t: string) {
    Trimmed(t) && exists a, b :: AllBlank(a) && AllBlank(b) && s == a + t + b
  }

  lemma SpaceIsBlank(c: char)
    ensures IsSpace(c) <==> c in BLANKS
  {}

  lemma {:induction false} StripLeftOf(a: string, t: string)
    requires AllBlank(a) && (t != "" ==> t[0] !in BLANKS)
    ensures StripLeft(a + t) == t
  {
    if a == "" {
      assert a + t == t;
      if t != "" {
        SpaceIsBlank(t[0]);
      }
    } else {
      SpaceIsBlank(a[0]);
      assert (a + t)[1..] == a[1..] + t;
      StripLeftOf(a[1..], t);
    }
  }

  lemma {:induction false} StripRightOf(t: string, b: string)
    requires AllBlank(b) && (t != "" ==> t[|t| - 1] !in BLANKS)
    ensures StripRight(t + b) == t
  {
    if b == "" {
      assert t + b == t;
      if t != "" {
        SpaceIsBlank(t[|t| - 1]);
      }
    } else {
      var n := |b| - 1;
      SpaceIsBlank(b[n]);
      assert (t + b)[..|t + b| - 1] == t + b[..n];
      StripRightOf(t, b[..n]);
    }
  }

  lemma StripAround(a: string, t: string, b: string)
    requires AllBlank(a) && AllBlank(b) && Trimmed(t)
    ensures Strip(a + t + b) == t
  {
    if t == "" {
      assert a + t + b == (a + b) + "";
      StripLeftOf(a + b, "");
    } else {
      assert a + t + b == a + (t + b);
      StripLeftOf(a, t + b);
      StripRightOf(t, b);
    }
  }

  lemma {:induction false} LeftBlanks(s: string) returns (a: string)
    ensures AllBlank(a) && s == a + StripLeft(s)
    ensures StripLeft(s) != "" ==> StripLeft(s)[0] !in BLANKS
  {
    if s == "" {
      a := "";
    } else {
      SpaceIsBlank(s[0]);
      if IsSpace(s[0]) {
        a := LeftBlanks(s[1..]);
        a := [s[0]] + a;
      } else {
        a := "";
      }
    }
  }

  lemma StripRightStep(rest: string, last: char)
    ensures StripRight(rest + [last]) == if last in BLANKS then StripRight(rest) else rest + [last]
  {
    assert (rest + [last])[..|rest + [last]| - 1] == rest;
    SpaceIsBlank(last);
  }

  lemma BlankMore(b: string, c: char)
    requires AllBlank(b) && c in BLANKS
    ensures AllBlank(b + [c])
  {}

  lemma {:induction false} RightBlanks(s: string) returns (b: string)
    ensures AllBlank(b) && s == StripRight(s) + b
    ensures StripRight(s) != "" ==> StripRight(s)[|StripRight(s)| - 1] !in BLANKS
  {
    if s == "" {
      b := "";
    } else {
      var rest, last := s[..|s| - 1], s[|s| - 1];
      assert s == rest + [last];
      StripRightStep(rest, last);
      if last in BLANKS {
        var blanks := RightBlanks(rest);
        BlankMore(blanks, last);
        b := blanks + [last];
        assert StripRight(rest) + blanks + [last] == StripRight(rest) + b;
      } else {
        b := "";
      }
    }
  }

  lemma StripIsBare(s: string)
    ensures Bare(s, Strip(s))
  {
    var t := Strip(s);
    var a := LeftBlanks(s);
    var b := RightBlanks(StripLeft(s));
    assert s == a + t + b;
    assert t != "" ==> t[0] == StripLeft(s)[0];
  }

  /** Stripping gives the one text that is left without the blanks around it. */
  lemma StripExact(s: string, t: string)
    ensures Strip(s) == t <==> Bare(s, t)
  {
    StripIsBare(s);
    if Bare(s, t) {
      var a, b :| AllBlank(a) && AllBlank(b) && s == a + t + b;
      StripAround(a, t, b);
    }
  }
}
