/**
 * The Redis keyspace as far as the queue service uses it: every key holds a
 * sorted set.  Redis deletes a key whose sorted set becomes empty, so the
 * keyspace never holds an empty set; an absent key reads as the empty set.
 */
module RedisStore {
  import opened Wrappers
  import opened SortedSet
  import Glob

  type Keyspace = map<string, ZSet>

  /** No key holds an empty sorted set. */
  ghost predicate NoEmpty(zs: Keyspace)
  {
    forall k :: k in zs ==> zs[k] != map[]
  }

  /** The sorted set at `key`; an absent key reads as empty. */
  function Lookup(zs: Keyspace, key: string): ZSet
  {
    if key in zs then zs[key] else map[]
  }

  /** Store `s` at `key`, deleting the key when `s` is empty. */
  function Put(zs: Keyspace, key: string, s: ZSet): (r: Keyspace)
    ensures NoEmpty(zs) ==> NoEmpty(r)
    ensures Lookup(r, key) == s
    ensures forall k :: k != key ==> Lookup(r, k) == Lookup(zs, k)
  {
    if s == map[] then zs - {key} else zs[key := s]
  }

  /** Writing back what is already there changes nothing. */
  lemma PutLookup(zs: Keyspace, key: string)
    requires NoEmpty(zs)
    ensures Put(zs, key, Lookup(zs, key)) == zs
  {
  }

  /** Two keyspaces without empty sets are equal when every key reads the same. */
  lemma LookupExtensional(a: Keyspace, b: Keyspace)
    requires NoEmpty(a) && NoEmpty(b)
    requires forall k :: Lookup(a, k) == Lookup(b, k)
    ensures a == b
  {
    forall k | k in a ensures k in b && a[k] == b[k] {
      assert Lookup(a, k) == a[k];
    }
    forall k | k in b ensures k in a {
      assert Lookup(b, k) == b[k];
    }
    assert a.Keys == b.Keys;
  }

  class Redis {
    var zsets: Keyspace

    ghost predicate Valid()
      reads this
    {
      NoEmpty(zsets)
    }

    constructor (initial: Keyspace)
      requires NoEmpty(initial)
      ensures Valid() && zsets == initial
    {
      zsets := initial;
    }

    /** The sorted set at `key`. */
    function Get(key: string): ZSet
      reads this
    {
      Lookup(zsets, key)
    }

    /**
     * ZADD key score member (no NX/XX flag): sets the member's score, adding
     * the member when absent; reports whether it was added.
     */
    method ZAdd(key: string, member: string, score: int) returns (added: bool)
      requires Valid()
      modifies this
      ensures Valid()
      ensures added <==> member !in old(Get(key))
      ensures zsets == old(zsets)[key := old(Get(key))[member := score]]
    {
      added := member !in Get(key);
      zsets := zsets[key := Get(key)[member := score]];
      assert zsets[key] != map[] by {
        var empty: ZSet := map[];
        assert member in zsets[key] && member !in empty;
      }
    }

    /**
     * ZPOPMIN key count: removes and returns, lowest first, the min(count, size)
     * lowest members with their scores; the i-th returned member had rank i.
     */
    method ZPopMin(key: string, count: nat) returns (popped: seq<(string, int)>)
      requires Valid()
      modifies this
      ensures Valid()
      ensures |popped| == Min(count, |old(Get(key))|)
      ensures forall i :: 0 <= i < |popped| ==>
        popped[i].0 in old(Get(key)) && Rank(old(Get(key)), popped[i].0) == i && popped[i].1 == old(Get(key))[popped[i].0]
      ensures zsets == Put(old(zsets), key, Rest(old(Get(key)), count))
    {
      var s := Get(key);
      ghost var s0 := s;
      popped := [];
      RestZero(s0);
      while |popped| < count && s != map[]
        invariant zsets == old(zsets)
        invariant |popped| <= count && |popped| <= |s0|
        invariant s == Rest(s0, |popped|)
        invariant PoppedInOrder(s0, popped)
        decreases count - |popped|
      {
        var m := MinMember(s);
        PopStep(s0, |popped|, m);
        RankBound(s0, m);
        PoppedInOrderSnoc(s0, popped, m);
        popped := popped + [(m, s[m])];
        s := s - {m};
      }
      PopExit(s0, |popped|, count);
      zsets := Put(zsets, key, s);
    }

    /**
     * SCAN with MATCH over the whole keyspace, run to the end: every matching
     * key once, in no particular order.
     */
    method Scan(pattern: string) returns (keys: seq<string>)
      ensures forall i :: 0 <= i < |keys| ==> keys[i] in zsets && Glob.Match(pattern, keys[i])
      ensures forall k :: k in zsets && Glob.Match(pattern, k) ==> k in keys
      ensures forall i, j :: 0 <= i < j < |keys| ==> keys[i] != keys[j]
    {
      var rest := zsets.Keys;
      keys := [];
      while rest != {}
        invariant rest <= zsets.Keys
        invariant forall i :: 0 <= i < |keys| ==> keys[i] in zsets && keys[i] !in rest && Glob.Match(pattern, keys[i])
        invariant forall k :: k in zsets && k !in rest && Glob.Match(pattern, k) ==> k in keys
        invariant forall i, j :: 0 <= i < j < |keys| ==> keys[i] != keys[j]
        decreases |rest|
      {
        var k :| k in rest;
        if Glob.Match(pattern, k) {
          keys := keys + [k];
        }
        rest := rest - {k};
      }
    }
  }
}
