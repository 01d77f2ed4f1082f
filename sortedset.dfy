/**
 * A Redis sorted set as a value: a finite map from member to score.
 * Redis orders the members of a sorted set by score and breaks ties by
 * comparing the members as binary strings; ZRANK is the 0-based position in
 * that order and ZPOPMIN removes the lowest members.  Members here are
 * strings of Unicode scalar values compared code point by code point, which
 * is the same order as comparing their UTF-8 encodings byte by byte.
 */
module SortedSet {
  import opened Wrappers

  type ZSet = map<string, int>

  /** Lexicographic order on strings, a proper prefix coming first. */
  predicate LexLess(a: string, b: string)
  {
    if a == [] then b != []
    else b != [] && (a[0] < b[0] || (a[0] == b[0] && LexLess(a[1..], b[1..])))
  }

  lemma {:induction false} LexIrreflexive(a: string)
    ensures !LexLess(a, a)
  {
    if a != [] {
      LexIrreflexive(a[1..]);
    }
  }

  lemma {:induction false} LexAsymmetric(a: string, b: string)
    requires LexLess(a, b)
    ensures !LexLess(b, a)
  {
    if a != [] && b != [] && a[0] == b[0] {
      LexAsymmetric(a[1..], b[1..]);
    }
  }

  lemma {:induction false} LexTransitive(a: string, b: string, c: string)
    requires LexLess(a, b) && LexLess(b, c)
    ensures LexLess(a, c)
  {
    if a != [] && a[0] == b[0] && b[0] == c[0] {
      LexTransitive(a[1..], b[1..], c[1..]);
    }
  }

  lemma {:induction false} LexTotal(a: string, b: string)
    ensures a == b || LexLess(a, b) || LexLess(b, a)
  {
    if a != [] && b != [] && a[0] == b[0] {
      LexTotal(a[1..], b[1..]);
      if a[1..] == b[1..] {
        assert a == [a[0]] + a[1..] && b == [b[0]] + b[1..];
      }
    }
  }

  /** `a` comes strictly before `b` in the sorted set `s`: lower score, or equal score and smaller member. */
  predicate Before(s: ZSet, a: string, b: string)
  {
    a in s && b in s && (s[a] < s[b] || (s[a] == s[b] && LexLess(a, b)))
  }

  lemma BeforeIrreflexive(s: ZSet, a: string)
    ensures !Before(s, a, a)
  {
    LexIrreflexive(a);
  }

  lemma BeforeAsymmetric(s: ZSet, a: string, b: string)
    requires Before(s, a, b)
    ensures !Before(s, b, a)
  {
    if s[a] == s[b] {
      LexAsymmetric(a, b);
    }
  }

  lemma BeforeTransitive(s: ZSet, a: string, b: string, c: string)
    requires Before(s, a, b) && Before(s, b, c)
    ensures Before(s, a, c)
  {
    if s[a] == s[b] == s[c] {
      LexTransitive(a, b, c);
    }
  }

  lemma BeforeTotal(s: ZSet, a: string, b: string)
    requires a in s && b in s && a != b
    ensures Before(s, a, b) || Before(s, b, a)
  {
    LexTotal(a, b);
  }

  /** The members that come strictly before `m`. */
  function Below(s: ZSet, m: string): set<string>
  {
    set x | x in s && Before(s, x, m)
  }

  /** ZRANK's 0-based rank: the number of members strictly before `m`. */
  function Rank(s: ZSet, m: string): nat
  {
    |Below(s, m)|
  }

  /** ZRANK: the rank of a member, or nothing when the member is absent. */
  function ZRank(s: ZSet, m: string): (r: Option<nat>)
    ensures r.Some? <==> m in s
    ensures r.Some? ==> r.value < |s| && r.value == Rank(s, m)
  {
    if m in s then RankBound(s, m); Some(Rank(s, m)) else None
  }

  /** The `k` lowest members: those ZPOPMIN with count `k` removes. */
  function Lowest(s: ZSet, k: nat): set<string>
  {
    set x | x in s && Rank(s, x) < k
  }

  /** What is left of `s` after its `k` lowest members are removed. */
  function Rest(s: ZSet, k: nat): ZSet
  {
    map x | x in s && Rank(s, x) >= k :: s[x]
  }

  /** Every member of `members` gets `score`; the others keep theirs (ZADD of each member). */
  function AddAll(s: ZSet, members: set<string>, score: int): (r: ZSet)
    ensures r.Keys == s.Keys + members
    ensures forall x :: x in members ==> r[x] == score
    ensures forall x :: x in s && x !in members ==> r[x] == s[x]
  {
    map x | x in s.Keys + members :: if x in members then score else s[x]
  }

  lemma RankBound(s: ZSet, m: string)
    requires m in s
    ensures Rank(s, m) < |s|
  {
    BeforeIrreflexive(s, m);
    assert Below(s, m) <= s.Keys - {m};
    SubsetCard(Below(s, m), s.Keys - {m});
  }

  lemma SubsetCard<T>(a: set<T>, b: set<T>)
    requires a <= b
    ensures |a| <= |b|
  {
    assert b == a + (b - a);
  }

  lemma RankBefore(s: ZSet, a: string, b: string)
    requires Before(s, a, b)
    ensures Rank(s, a) < Rank(s, b)
  {
    forall x | x in Below(s, a) ensures x in Below(s, b) {
      BeforeTransitive(s, x, a, b);
    }
    BeforeIrreflexive(s, a);
    assert Below(s, a) + {a} <= Below(s, b);
    SubsetCard(Below(s, a) + {a}, Below(s, b));
  }

  /** Ranks follow the order: `a` before `b` exactly when its rank is smaller. */
  lemma RankOrder(s: ZSet, a: string, b: string)
    requires a in s && b in s
    ensures Before(s, a, b) <==> Rank(s, a) < Rank(s, b)
  {
    if Before(s, a, b) {
      RankBefore(s, a, b);
    } else if a != b {
      BeforeTotal(s, a, b);
      RankBefore(s, b, a);
    }
  }

  /** Nothing comes before a member of rank 0. */
  lemma NoneBeforeMin(s: ZSet, m: string, x: string)
    requires Rank(s, m) == 0
    ensures !Before(s, x, m)
  {
    assert x !in Below(s, m);
  }

  lemma RankInjective(s: ZSet, a: string, b: string)
    requires a in s && b in s && Rank(s, a) == Rank(s, b)
    ensures a == b
  {
    if a != b {
      BeforeTotal(s, a, b);
      RankOrder(s, a, b);
      RankOrder(s, b, a);
    }
  }

  /** A member of rank 0 comes before every other member. */
  lemma MinBeforeAll(s: ZSet, m: string, x: string)
    requires m in s && Rank(s, m) == 0 && x in s && x != m
    ensures Before(s, m, x)
  {
    BeforeTotal(s, m, x);
    if Before(s, x, m) {
      assert x in Below(s, m);
    }
  }

  /** Restricting to a sub-map with the same scores keeps the order. */
  lemma BeforeSub(s: ZSet, t: ZSet, a: string, b: string)
    requires forall x :: x in t ==> x in s && t[x] == s[x]
    ensures Before(t, a, b) <==> a in t && b in t && Before(s, a, b)
  {
  }

  /** Removing the lowest member lowers every other rank by one. */
  lemma RemoveMinRank(s: ZSet, m: string, x: string)
    requires m in s && Rank(s, m) == 0 && x in s && x != m
    ensures x in s - {m} && Rank(s - {m}, x) == Rank(s, x) - 1
  {
    var t := s - {m};
    forall y ensures y in Below(s, x) <==> y in Below(t, x) + {m} {
      BeforeSub(s, t, y, x);
      if y == m {
        MinBeforeAll(s, m, x);
      }
    }
    assert Below(s, x) == Below(t, x) + {m};
    assert m !in Below(t, x);
  }

  /** Every non-empty sorted set has a lowest member. */
  lemma {:induction false} ExistsMin(s: ZSet)
    requires |s| > 0
    ensures exists m :: m in s && Rank(s, m) == 0
  {
    var y :| y in s;
    var t := s - {y};
    if |t| == 0 {
      assert Below(s, y) <= t.Keys by {
        BeforeIrreflexive(s, y);
      }
      assert Below(s, y) == {};
    } else {
      ExistsMin(t);
      var m :| m in t && Rank(t, m) == 0;
      forall z | z in t ensures !Before(s, z, m) {
        NoneBeforeMin(t, m, z);
        BeforeSub(s, t, z, m);
      }
      if Before(s, y, m) {
        forall z | z in s ensures !Before(s, z, y) {
          BeforeIrreflexive(s, y);
          if z != y && Before(s, z, y) {
            BeforeTransitive(s, z, y, m);
          }
        }
        assert Below(s, y) == {};
      } else {
        assert Below(s, m) == {};
      }
    }
  }

  /** Every rank below the size is taken by some member. */
  lemma {:induction false} RankSurjective(s: ZSet, k: nat)
    requires k < |s|
    ensures exists x :: x in s && Rank(s, x) == k
  {
    ExistsMin(s);
    var m :| m in s && Rank(s, m) == 0;
    if k > 0 {
      var t := s - {m};
      RankSurjective(t, k - 1);
      var x :| x in t && Rank(t, x) == k - 1;
      RemoveMinRank(s, m, x);
    }
  }

  lemma LowestStep(s: ZSet, k: nat, y: string)
    requires y in s && Rank(s, y) == k
    ensures Lowest(s, k + 1) == Lowest(s, k) + {y}
  {
    forall x | x in s && Rank(s, x) == k ensures x == y {
      RankInjective(s, x, y);
    }
  }

  lemma LowestAll(s: ZSet, k: nat)
    requires k >= |s|
    ensures Lowest(s, k) == s.Keys
  {
    forall x | x in s ensures Rank(s, x) < k {
      RankBound(s, x);
    }
  }

  /** ZPOPMIN with count `k` removes min(k, |s|) members. */
  lemma {:induction false} LowestSize(s: ZSet, k: nat)
    ensures |Lowest(s, k)| == Min(k, |s|)
  {
    if k == 0 {
      assert Lowest(s, 0) == {};
    } else if k - 1 < |s| {
      LowestSize(s, k - 1);
      RankSurjective(s, k - 1);
      var y :| y in s && Rank(s, y) == k - 1;
      LowestStep(s, k - 1, y);
    } else {
      LowestAll(s, k);
    }
  }

  /** Keys of what is left after popping `k`. */
  lemma RestKeys(s: ZSet, k: nat)
    ensures Rest(s, k).Keys == s.Keys - Lowest(s, k)
    ensures |Rest(s, k)| == |s| - Min(k, |s|)
  {
    assert Rest(s, k).Keys == s.Keys - Lowest(s, k);
    LowestSize(s, k);
    assert s.Keys == Rest(s, k).Keys + Lowest(s, k);
  }

  /** Every popped member comes before every remaining member. */
  lemma LowestBeforeRest(s: ZSet, k: nat, x: string, y: string)
    requires x in Lowest(s, k) && y in Rest(s, k)
    ensures Before(s, x, y)
  {
    RankOrder(s, x, y);
  }

  /** The ranks of the remaining members drop by the number of members popped ahead of them. */
  lemma RestRank(s: ZSet, k: nat, x: string)
    requires x in Rest(s, k)
    ensures Rank(Rest(s, k), x) == Rank(s, x) - k
  {
    var r := Rest(s, k);
    forall y ensures y in Below(s, x) <==> y in Below(r, x) + Lowest(s, k) {
      BeforeSub(s, r, y, x);
      if y in Lowest(s, k) {
        LowestBeforeRest(s, k, y, x);
      }
      if y in Below(s, x) {
        RankOrder(s, y, x);
      }
    }
    assert Below(s, x) == Below(r, x) + Lowest(s, k);
    assert Below(r, x) !! Lowest(s, k);
    RankBound(s, x);
    LowestSize(s, k);
  }

  /** Popping `a` and then `b` members is popping `a + b` members. */
  lemma RestCompose(s: ZSet, a: nat, b: nat)
    ensures Rest(Rest(s, a), b) == Rest(s, a + b)
    ensures Lowest(s, a) + Lowest(Rest(s, a), b) == Lowest(s, a + b)
  {
    forall x | x in Rest(s, a) {
      RestRank(s, a, x);
    }
    assert Rest(Rest(s, a), b).Keys == Rest(s, a + b).Keys;
  }

  /** Popping nothing leaves the set as it is. */
  lemma RestZero(s: ZSet)
    ensures Rest(s, 0) == s && Lowest(s, 0) == {}
  {
  }

  /** Removing a member of rank 0 is popping one member. */
  lemma RestOne(s: ZSet, m: string)
    requires m in s && Rank(s, m) == 0
    ensures Rest(s, 1) == s - {m}
  {
    forall x | x in s && x != m ensures Rank(s, x) >= 1 {
      if Rank(s, x) == 0 {
        RankInjective(s, x, m);
      }
    }
  }

  /** Removing the lowest member of Rest(s, k) leaves Rest(s, k + 1); that member had rank k in s. */
  lemma PopStep(s: ZSet, k: nat, m: string)
    requires m in Rest(s, k) && Rank(Rest(s, k), m) == 0
    ensures m in s && Rank(s, m) == k && Rest(s, k)[m] == s[m]
    ensures Rest(s, k) - {m} == Rest(s, k + 1)
  {
    RestRank(s, k, m);
    RestOne(Rest(s, k), m);
    RestCompose(s, k, 1);
  }

  /** Adding the k lowest and then the n lowest of the rest adds the k + n lowest. */
  lemma AddAllLowest(p: ZSet, w: ZSet, k: nat, n: nat, score: int)
    ensures AddAll(AddAll(p, Lowest(w, k), score), Lowest(Rest(w, k), n), score) == AddAll(p, Lowest(w, k + n), score)
  {
    RestCompose(w, k, n);
    AddAllUnion(p, Lowest(w, k), Lowest(Rest(w, k), n), score);
  }

  /** Members listed lowest first, each with its score in s. */
  ghost predicate PoppedInOrder(s: ZSet, popped: seq<(string, int)>)
  {
    forall i :: 0 <= i < |popped| ==> popped[i].0 in s && Rank(s, popped[i].0) == i && popped[i].1 == s[popped[i].0]
  }

  lemma PoppedInOrderSnoc(s: ZSet, popped: seq<(string, int)>, m: string)
    requires PoppedInOrder(s, popped) && m in s && Rank(s, m) == |popped|
    ensures PoppedInOrder(s, popped + [(m, s[m])])
  {
    var next := popped + [(m, s[m])];
    forall i | 0 <= i < |next|
      ensures next[i].0 in s && Rank(s, next[i].0) == i && next[i].1 == s[next[i].0]
    {
      if i < |popped| {
        assert next[i] == popped[i];
      }
    }
  }

  /** Popping stops after `count` members or when none are left: it has taken min(count, |s|) of them. */
  lemma PopExit(s: ZSet, k: nat, count: nat)
    requires k <= count && k <= |s| && (k == count || Rest(s, k) == map[])
    ensures k == Min(count, |s|) && Rest(s, k) == Rest(s, count)
  {
    RestKeys(s, k);
    RestKeys(s, count);
    if k < count {
      assert |Rest(s, count)| == 0;
    }
  }

  /** Adding in two steps with the same score is adding the union. */
  lemma AddAllUnion(s: ZSet, a: set<string>, b: set<string>, score: int)
    ensures AddAll(AddAll(s, a, score), b, score) == AddAll(s, a + b, score)
  {
  }

  /** A lowest member, found by one pass over the members. */
  method MinMember(s: ZSet) returns (m: string)
    requires |s| > 0
    ensures m in s && Rank(s, m) == 0
  {
    var rest := s.Keys;
    m :| m in rest;
    rest := rest - {m};
    while rest != {}
      invariant rest <= s.Keys && m in s && m !in rest
      invariant forall y :: y in s && y !in rest && y != m ==> Before(s, m, y)
      decreases |rest|
    {
      var y :| y in rest;
      if Before(s, y, m) {
        forall z | z in s && z !in rest && z != y ensures Before(s, y, z) {
          if z != m {
            BeforeTransitive(s, y, m, z);
          }
        }
        m := y;
      } else {
        BeforeTotal(s, m, y);
      }
      rest := rest - {y};
    }
    forall x | x in s ensures !Before(s, x, m) {
      if x == m {
        BeforeIrreflexive(s, m);
      } else {
        BeforeAsymmetric(s, m, x);
      }
    }
    assert Below(s, m) == {};
  }
}
