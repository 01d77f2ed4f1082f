/**
 * The glob patterns of Redis SCAN ... MATCH, restricted to literal characters
 * and `*` (any run of characters, possibly empty).  The scheduler's only
 * pattern uses nothing else.
 */
module Glob {

  predicate Match(p: string, s: string)
    decreases |p| + |s|
  {
    if p == [] then s == []
    else if p[0] == '*' then Match(p[1..], s) || (s != [] && Match(p, s[1..]))
    else s != [] && s[0] == p[0] && Match(p[1..], s[1..])
  }

  /** A pattern without `*` matches only itself. */
  lemma {:induction false} MatchLiteral(lit: string, s: string)
    requires '*' !in lit
    ensures Match(lit, s) <==> s == lit
  {
    if lit != [] && s != [] {
      MatchLiteral(lit[1..], s[1..]);
      assert s == [s[0]] + s[1..] && lit == [lit[0]] + lit[1..];
    }
  }

  /** A literal prefix of the pattern must be a prefix of the subject. */
  lemma {:induction false} MatchPrefix(lit: string, p: string, s: string)
    requires '*' !in lit
    ensures Match(lit + p, s) <==> |s| >= |lit| && s[..|lit|] == lit && Match(p, s[|lit|..])
  {
    if lit != [] {
      assert (lit + p)[0] == lit[0] && (lit + p)[1..] == lit[1..] + p;
      if s != [] {
        MatchPrefix(lit[1..], p, s[1..]);
        if |s| >= |lit| {
          assert s[1..][|lit| - 1..] == s[|lit|..];
          assert s[..|lit|] == [s[0]] + s[1..][..|lit| - 1];
        }
      }
    } else {
      assert lit + p == p;
    }
  }

  /** `*` followed by a literal matches exactly the subjects ending in that literal. */
  lemma {:induction false} MatchStarSuffix(lit: string, s: string)
    requires '*' !in lit
    ensures Match(['*'] + lit, s) <==> |s| >= |lit| && s[|s| - |lit|..] == lit
    decreases |s|
  {
    assert (['*'] + lit)[1..] == lit;
    MatchLiteral(lit, s);
    if s != [] {
      MatchStarSuffix(lit, s[1..]);
      assert |s| > |lit| ==> s[1..][|s| - 1 - |lit|..] == s[|s| - |lit|..];
    }
  }
}
