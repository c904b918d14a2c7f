/** Section-name patterns (`GPatternSpec`, src/dtweaks.c:220 and 278): `*`
    matches any run of characters, including none, `?` matches exactly one
    character, every other character matches itself, and a pattern must
    match the whole name. */
module Glob {
  import opened Base

  predicate IsWildcard(c: char) {
    c == '*' || c == '?'
  }

  /** True when `s` as a whole is matched by pattern `p`. */
  predicate Matches(p: String, s: String)
    decreases |p| + |s|
  {
    if |p| == 0 then |s| == 0
    else if p[0] == '*' then Matches(p[1..], s) || (|s| > 0 && Matches(p, s[1..]))
    else |s| > 0 && (p[0] == '?' || p[0] == s[0]) && Matches(p[1..], s[1..])
  }

  /** A pattern without wildcards matches exactly the one string it spells. */
  lemma {:induction false} LiteralMatchesItselfOnly(p: String, s: String)
    requires forall i :: 0 <= i < |p| ==> !IsWildcard(p[i])
    ensures Matches(p, s) <==> s == p
  {
    if |p| > 0 && |s| > 0 {
      LiteralMatchesItselfOnly(p[1..], s[1..]);
      if s == p {
        assert s[1..] == p[1..];
      }
      if s[0] == p[0] && s[1..] == p[1..] {
        assert s == [s[0]] + s[1..] && p == [p[0]] + p[1..];
      }
    }
  }

  /** Every pattern matches its own text: `*` and `?` can stand for
      themselves. */
  lemma {:induction false} MatchesItself(p: String)
    ensures Matches(p, p)
    decreases |p|
  {
    if |p| > 0 {
      MatchesItself(p[1..]);
      if p[0] == '*' {
        assert Matches(p, p[1..]);
      }
    }
  }

  /** A lone `*` matches every string, the empty one included. */
  lemma {:induction false} StarMatchesEverything(s: String)
    ensures Matches("*", s)
  {
    if |s| > 0 {
      StarMatchesEverything(s[1..]);
    }
  }

  /** A lone `?` matches exactly the one-character strings. */
  lemma QuestionMatchesOneChar(s: String)
    ensures Matches("?", s) <==> |s| == 1
  {
    if |s| > 0 {
      assert Matches("?", s) == Matches([], s[1..]);
    }
  }

  /** Matching is compositional: a match of `p1` followed by a match of
      `p2` is a match of `p1 + p2`. */
  lemma {:induction false} MatchJoin(p1: String, p2: String, s1: String, s2: String)
    requires Matches(p1, s1) && Matches(p2, s2)
    ensures Matches(p1 + p2, s1 + s2)
    decreases |p1| + |s1|
  {
    if |p1| == 0 {
      assert p1 + p2 == p2 && s1 + s2 == s2;
    } else {
      assert (p1 + p2)[0] == p1[0] && (p1 + p2)[1..] == p1[1..] + p2;
      if p1[0] == '*' {
        if Matches(p1[1..], s1) {
          MatchJoin(p1[1..], p2, s1, s2);
        } else {
          assert (s1 + s2)[1..] == s1[1..] + s2;
          MatchJoin(p1, p2, s1[1..], s2);
        }
      } else {
        assert (s1 + s2)[0] == s1[0] && (s1 + s2)[1..] == s1[1..] + s2;
        MatchJoin(p1[1..], p2, s1[1..], s2);
      }
    }
  }

  /** Conversely, a match of `p1 + p2` splits into a match of `p1` on some
      prefix and a match of `p2` on the rest. */
  lemma {:induction false} MatchSplit(p1: String, p2: String, s: String) returns (k: nat)
    requires Matches(p1 + p2, s)
    ensures k <= |s| && Matches(p1, s[..k]) && Matches(p2, s[k..])
    decreases |p1| + |s|
  {
    if |p1| == 0 {
      assert p1 + p2 == p2;
      k := 0;
      assert s[k..] == s;
    } else {
      assert (p1 + p2)[0] == p1[0] && (p1 + p2)[1..] == p1[1..] + p2;
      if p1[0] == '*' && Matches(p1[1..] + p2, s) {
        k := MatchSplit(p1[1..], p2, s);
      } else if p1[0] == '*' {
        var k' := MatchSplit(p1, p2, s[1..]);
        k := k' + 1;
        assert s[..k][1..] == s[1..][..k'];
        assert s[k..] == s[1..][k'..];
      } else {
        var k' := MatchSplit(p1[1..], p2, s[1..]);
        k := k' + 1;
        assert s[..k][0] == s[0];
        assert s[..k][1..] == s[1..][..k'];
        assert s[k..] == s[1..][k'..];
      }
    }
  }

  /** Both directions together: the language of `p1 + p2` is the
      concatenation of the languages of `p1` and `p2`. */
  lemma MatchConcat(p1: String, p2: String, s: String)
    ensures Matches(p1 + p2, s) <==> exists k :: 0 <= k <= |s| && Matches(p1, s[..k]) && Matches(p2, s[k..])
  {
    if Matches(p1 + p2, s) {
      var k := MatchSplit(p1, p2, s);
    }
    if k :| 0 <= k <= |s| && Matches(p1, s[..k]) && Matches(p2, s[k..]) {
      MatchJoin(p1, p2, s[..k], s[k..]);
      assert s[..k] + s[k..] == s;
    }
  }
}
