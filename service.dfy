/**
 * The queue service: per named queue, a Redis sorted set of waiting users
 * (member = user id, score = registration time in epoch seconds) and one of
 * admitted ("proceed") users, plus a stateless token derived from the queue
 * name and user id.  The clock is the parameter `now`.
 */
module QueueService {
  import opened Wrappers
  import opened SortedSet
  import opened RedisStore
  import opened Text
  import opened Hex
  import Glob
  import JavaSplit

  datatype ErrorCode = QueueAlreadyRegisteredUser

  datatype Result<T> = Ok(value: T) | Err(code: ErrorCode)

  /** The scheduler's batch size. */
  const MaxAllowUserCount: nat := 100

  // ---------------------------------------------------------------- keys

  const KeyPrefix: string := "users:queue:"
  const WaitSuffix: string := ":wait"
  const ProceedSuffix: string := ":proceed"

  /** "users:queue:%s:wait".formatted(queue) */
  function WaitKey(queue: string): string
  {
    KeyPrefix + queue + WaitSuffix
  }

  /** "users:queue:%s:proceed".formatted(queue) */
  function ProceedKey(queue: string): string
  {
    KeyPrefix + queue + ProceedSuffix
  }

  /** The SCAN pattern for every wait key, "users:queue:*:wait". */
  const WaitKeyScanPattern: string := KeyPrefix + "*" + WaitSuffix

  /** userId.toString(): the sorted-set member of a user. */
  function Member(userId: Long): string
  {
    Decimal(userId)
  }

  lemma WaitKeyQueue(queue: string)
    ensures |WaitKey(queue)| == |queue| + 17
    ensures WaitKey(queue)[12..|WaitKey(queue)| - 5] == queue
  {
  }

  lemma WaitKeyInjective(a: string, b: string)
    requires WaitKey(a) == WaitKey(b)
    ensures a == b
  {
    WaitKeyQueue(a);
    WaitKeyQueue(b);
  }

  lemma ProceedKeyInjective(a: string, b: string)
    requires ProceedKey(a) == ProceedKey(b)
    ensures a == b
  {
    assert a == ProceedKey(a)[12..|ProceedKey(a)| - 8];
    assert b == ProceedKey(b)[12..|ProceedKey(b)| - 8];
  }

  /** A wait key is never a proceed key, whatever the two queue names. */
  lemma WaitKeyNotProceedKey(a: string, b: string)
    ensures WaitKey(a) != ProceedKey(b)
  {
    assert WaitKey(a)[|WaitKey(a)| - 1] == 't';
    assert ProceedKey(b)[|ProceedKey(b)| - 1] == 'd';
  }

  /** Distinct users are distinct members. */
  lemma MemberInjective(a: Long, b: Long)
    requires Member(a) == Member(b)
    ensures a == b
  {
    DecimalInjective(a, b);
  }

  lemma NoStarOutsideWildcard()
    ensures '*' !in KeyPrefix && '*' !in WaitSuffix
    ensures WaitKeyScanPattern == KeyPrefix + (['*'] + WaitSuffix)
  {
  }

  /** The scan pattern matches exactly the keys with the wait prefix and suffix. */
  lemma ScanPatternShape(key: string)
    ensures Glob.Match(WaitKeyScanPattern, key) <==>
      |key| >= 17 && key[..12] == KeyPrefix && key[|key| - 5..] == WaitSuffix
  {
    NoStarOutsideWildcard();
    Glob.MatchPrefix(KeyPrefix, ['*'] + WaitSuffix, key);
    if |key| >= 12 {
      var tail := key[12..];
      Glob.MatchStarSuffix(WaitSuffix, tail);
      if |tail| >= 5 {
        assert tail[|tail| - 5..] == key[|key| - 5..];
      }
    }
  }

  /** The scan pattern matches exactly the wait keys. */
  lemma ScanPatternMatchesWaitKeys(key: string)
    ensures Glob.Match(WaitKeyScanPattern, key) <==> |key| >= 17 && key == WaitKey(key[12..|key| - 5])
  {
    ScanPatternShape(key);
    if |key| >= 17 {
      var q := key[12..|key| - 5];
      WaitKeyQueue(q);
      if key[..12] == KeyPrefix && key[|key| - 5..] == WaitSuffix {
        assert key == key[..12] + q + key[|key| - 5..];
      }
      if key == WaitKey(q) {
        assert key[..12] == WaitKey(q)[..12];
        assert key[|key| - 5..] == WaitKey(q)[|WaitKey(q)| - 5..];
      }
    }
  }

  lemma WaitKeyMatchesScanPattern(queue: string)
    ensures Glob.Match(WaitKeyScanPattern, WaitKey(queue))
  {
    WaitKeyQueue(queue);
    ScanPatternMatchesWaitKeys(WaitKey(queue));
  }

  /** key.split(":")[2], or None where Java would index out of bounds. */
  function QueueNameOfKey(key: string): Option<string>
  {
    var parts := JavaSplit.Split(key, ':');
    if |parts| > 2 then Some(parts[2]) else None
  }

  lemma WaitKeyTailFields(queue: string)
    ensures JavaSplit.Fields("queue" + [':'] + (queue + [':'] + "wait"), ':') ==
      ["queue"] + (JavaSplit.Fields(queue, ':') + ["wait"])
  {
    JavaSplit.FieldsSnoc(queue, "wait", ':');
    JavaSplit.FieldsCons("queue", queue + [':'] + "wait", ':');
  }

  /** The ':'-separated fields of a wait key: "users", "queue", those of the name, "wait". */
  lemma WaitKeyFields(queue: string)
    ensures JavaSplit.Fields(WaitKey(queue), ':') ==
      ["users"] + (["queue"] + (JavaSplit.Fields(queue, ':') + ["wait"]))
  {
    var middle := "queue" + [':'] + (queue + [':'] + "wait");
    assert WaitKey(queue) == "users" + [':'] + middle;
    WaitKeyTailFields(queue);
    JavaSplit.FieldsCons("users", middle, ':');
  }

  /**
   * The scheduler's parse of a wait key: the queue name up to its first ':'.
   * The whole name comes back exactly when the name has no ':'.
   */
  lemma QueueNameOfWaitKey(queue: string)
    ensures QueueNameOfKey(WaitKey(queue)) == Some(JavaSplit.Fields(queue, ':')[0])
    ensures ':' !in queue ==> QueueNameOfKey(WaitKey(queue)) == Some(queue)
  {
    var key := WaitKey(queue);
    var fs := JavaSplit.Fields(key, ':');
    var fq := JavaSplit.Fields(queue, ':');
    WaitKeyFields(queue);
    assert fs[2] == fq[0] && fs[|fs| - 1] == "wait";
    JavaSplit.SplitKeepsFields(key, ':');
    if ':' !in queue {
      JavaSplit.FieldsNoSeparator(queue, ':');
    }
  }

  /** Every key the scan returns parses to a queue name. */
  lemma ScannedKeyHasQueueName(key: string)
    requires Glob.Match(WaitKeyScanPattern, key)
    ensures QueueNameOfKey(key).Some?
  {
    ScanPatternMatchesWaitKeys(key);
    QueueNameOfWaitKey(key[12..|key| - 5]);
  }

  // --------------------------------------------------------------- token

  /** SHA-256 as MessageDigest computes it: some function from bytes to 32 signed bytes. */
  type Sha256 = f: seq<Uint8> -> seq<Int8> | forall m :: |f(m)| == 32
    witness (m: seq<Uint8>) => ZeroDigest()

  function ZeroDigest(): (d: seq<Int8>)
    ensures |d| == 32
  {
    seq(32, i => 0)
  }

  /** "user-queue-%s-%d".formatted(queue, userId) */
  function TokenInput(queue: string, userId: Long): string
  {
    "user-queue-" + queue + "-" + Decimal(userId)
  }

  /** The token generateToken returns: the hex digits of the SHA-256 of the UTF-8 input. */
  function Token(sha256: Sha256, queue: string, userId: Long): (t: string)
    ensures |t| == 64 && IsLowerHex(t)
  {
    HexEncode(sha256(Utf8Encode(TokenInput(queue, userId))))
  }

  /** The derived token equals the given one, ignoring case (String.equalsIgnoreCase). */
  predicate TokenMatches(sha256: Sha256, queue: string, userId: Long, token: string)
  {
    EqualsIgnoreCase(Token(sha256, queue, userId), token)
  }

  /** A token is accepted exactly when it lower-cases to the derived token. */
  lemma TokenAcceptance(sha256: Sha256, queue: string, userId: Long, token: string)
    ensures TokenMatches(sha256, queue, userId, token) <==> Lower(token) == Token(sha256, queue, userId)
  {
    EqualsIgnoreCaseLower(Token(sha256, queue, userId), token);
  }

  /** The derived token is accepted, and so is its upper-cased form. */
  lemma IssuedTokenAccepted(sha256: Sha256, queue: string, userId: Long)
    ensures TokenMatches(sha256, queue, userId, Token(sha256, queue, userId))
    ensures TokenMatches(sha256, queue, userId, Upper(Token(sha256, queue, userId)))
  {
    var t := Token(sha256, queue, userId);
    TokenAcceptance(sha256, queue, userId, t);
    TokenAcceptance(sha256, queue, userId, Upper(t));
    assert Lower(t) == t;
    assert Lower(Upper(t)) == t;
  }

  /** A token of any length other than 64 is rejected; so are "" and "wrong". */
  lemma WrongLengthRejected(sha256: Sha256, queue: string, userId: Long, token: string)
    requires |token| != 64
    ensures !TokenMatches(sha256, queue, userId, token)
    ensures !TokenMatches(sha256, queue, userId, "")
    ensures !TokenMatches(sha256, queue, userId, "wrong")
  {
  }

  /** For non-negative user ids, the token input determines queue and user. */
  lemma TokenInputInjective(q1: string, u1: Long, q2: string, u2: Long)
    requires u1 >= 0 && u2 >= 0
    requires TokenInput(q1, u1) == TokenInput(q2, u2)
    ensures q1 == q2 && u1 == u2
  {
    var d1, d2 := Decimal(u1), Decimal(u2);
    var s1, s2 := q1 + "-" + d1, q2 + "-" + d2;
    assert TokenInput(q1, u1) == "user-queue-" + s1;
    assert TokenInput(q2, u2) == "user-queue-" + s2;
    assert s1 == s2 by {
      assert s1 == TokenInput(q1, u1)[11..];
      assert s2 == TokenInput(q2, u2)[11..];
    }
    DecimalDigitsOnly(u1);
    DecimalDigitsOnly(u2);
    assert s1[|s1| - |d1| - 1] == '-';
    assert s2[|s2| - |d2| - 1] == '-';
    assert |d1| == |d2|;
    assert d1 == s1[|s1| - |d1|..] && d2 == s2[|s2| - |d2|..];
    assert q1 == s1[..|q1|] && q2 == s2[..|q2|];
    DecimalInjective(u1, u2);
  }

  /** With a negative user id, two different (queue, user) pairs share a token input, hence a token. */
  lemma TokenInputCollision(sha256: Sha256)
    ensures TokenInput("a-", -12) == TokenInput("a--", 12)
    ensures Token(sha256, "a-", -12) == Token(sha256, "a--", 12)
  {
    assert Digits(12) == "12" by {
      assert Digits(1) == "1";
    }
  }

  // ------------------------------------------------------- store queries

  /** getRank: the 1-based rank in the wait set, or -1 when absent. */
  function GetRank(zs: Keyspace, queue: string, userId: Long): (r: int)
    ensures r == -1 <==> Member(userId) !in Lookup(zs, WaitKey(queue))
    ensures r != -1 ==> 1 <= r <= |Lookup(zs, WaitKey(queue))|
    ensures r != -1 ==> r == Rank(Lookup(zs, WaitKey(queue)), Member(userId)) + 1
  {
    var rank := match ZRank(Lookup(zs, WaitKey(queue)), Member(userId)) {
      case Some(i) => i
      case None => -1
    };
    if rank >= 0 then rank + 1 else rank
  }

  /** isAllowed: membership in the proceed set. */
  predicate IsAllowed(zs: Keyspace, queue: string, userId: Long)
    ensures IsAllowed(zs, queue, userId) <==> Member(userId) in Lookup(zs, ProceedKey(queue))
  {
    var rank := match ZRank(Lookup(zs, ProceedKey(queue)), Member(userId)) {
      case Some(i) => i
      case None => -1
    };
    rank >= 0
  }

  // ------------------------------------------------- state transitions

  /** The keyspace after registerWaitQueue: ZADD rewrites or adds the user's score. */
  function Registered(zs: Keyspace, queue: string, userId: Long, now: int): Keyspace
  {
    zs[WaitKey(queue) := Lookup(zs, WaitKey(queue))[Member(userId) := now]]
  }

  /** The keyspace after allowUser(queue, n) at time `now`. */
  function Admit(zs: Keyspace, queue: string, n: nat, now: int): Keyspace
  {
    var w := Lookup(zs, WaitKey(queue));
    var p := Lookup(zs, ProceedKey(queue));
    Put(Put(zs, WaitKey(queue), Rest(w, n)), ProceedKey(queue), AddAll(p, Lowest(w, n), now))
  }

  /** allowUser(q, n) for each q of `queues` in turn. */
  function AdmitEach(zs: Keyspace, queues: seq<string>, n: nat, now: int): Keyspace
  {
    if queues == [] then zs
    else Admit(AdmitEach(zs, queues[..|queues| - 1], n, now), queues[|queues| - 1], n, now)
  }

  /** allowUser changes the queue's two sets and no other key. */
  lemma AdmitLookup(zs: Keyspace, queue: string, n: nat, now: int)
    ensures NoEmpty(zs) ==> NoEmpty(Admit(zs, queue, n, now))
    ensures Lookup(Admit(zs, queue, n, now), WaitKey(queue)) == Rest(Lookup(zs, WaitKey(queue)), n)
    ensures Lookup(Admit(zs, queue, n, now), ProceedKey(queue)) ==
      AddAll(Lookup(zs, ProceedKey(queue)), Lowest(Lookup(zs, WaitKey(queue)), n), now)
    ensures forall k :: k != WaitKey(queue) && k != ProceedKey(queue) ==>
      Lookup(Admit(zs, queue, n, now), k) == Lookup(zs, k)
  {
    WaitKeyNotProceedKey(queue, queue);
  }

  /**
   * allowUser(queue, n) as seen by getRank and isAllowed: the first n waiting
   * users leave the wait set and are allowed; everyone behind them moves up n
   * places; nobody else's standing changes.
   */
  lemma AdmitRank(zs: Keyspace, queue: string, n: nat, now: int, userId: Long)
    ensures 1 <= GetRank(zs, queue, userId) <= n ==>
      GetRank(Admit(zs, queue, n, now), queue, userId) == -1 && IsAllowed(Admit(zs, queue, n, now), queue, userId)
    ensures GetRank(zs, queue, userId) > n ==>
      GetRank(Admit(zs, queue, n, now), queue, userId) == GetRank(zs, queue, userId) - n
    ensures GetRank(zs, queue, userId) == -1 ==> GetRank(Admit(zs, queue, n, now), queue, userId) == -1
    ensures IsAllowed(Admit(zs, queue, n, now), queue, userId) <==>
      IsAllowed(zs, queue, userId) || 1 <= GetRank(zs, queue, userId) <= n
  {
    AdmitLookup(zs, queue, n, now);
    var w := Lookup(zs, WaitKey(queue));
    var m := Member(userId);
    if m in w && Rank(w, m) >= n {
      RestRank(w, n, m);
    }
  }

  /** Admitting twice to a queue admits the combined number. */
  lemma AdmitAgain(zs: Keyspace, queue: string, n: nat, now: int, w: ZSet, p: ZSet, a: nat, b: nat)
    requires Lookup(zs, WaitKey(queue)) == Rest(w, a)
    requires Lookup(zs, ProceedKey(queue)) == AddAll(p, Lowest(w, a), now)
    requires b == a + n
    ensures Lookup(Admit(zs, queue, n, now), WaitKey(queue)) == Rest(w, b)
    ensures Lookup(Admit(zs, queue, n, now), ProceedKey(queue)) == AddAll(p, Lowest(w, b), now)
  {
    AdmitAgainWait(zs, queue, n, now, w, a, b);
    AdmitAgainProceed(zs, queue, n, now, w, p, a, b);
  }

  lemma AdmitAgainWait(zs: Keyspace, queue: string, n: nat, now: int, w: ZSet, a: nat, b: nat)
    requires Lookup(zs, WaitKey(queue)) == Rest(w, a)
    requires b == a + n
    ensures Lookup(Admit(zs, queue, n, now), WaitKey(queue)) == Rest(w, b)
  {
    AdmitLookup(zs, queue, n, now);
    RestCompose(w, a, n);
  }

  lemma AdmitAgainProceed(zs: Keyspace, queue: string, n: nat, now: int, w: ZSet, p: ZSet, a: nat, b: nat)
    requires Lookup(zs, WaitKey(queue)) == Rest(w, a)
    requires Lookup(zs, ProceedKey(queue)) == AddAll(p, Lowest(w, a), now)
    requires b == a + n
    ensures Lookup(Admit(zs, queue, n, now), ProceedKey(queue)) == AddAll(p, Lowest(w, b), now)
  {
    AdmitLookup(zs, queue, n, now);
    AddAllLowest(p, w, a, n, now);
  }

  /** Admitting to one queue leaves another queue's two sets alone. */
  lemma AdmitOtherLookup(zs: Keyspace, queue: string, n: nat, now: int, other: string)
    requires other != queue
    ensures Lookup(Admit(zs, queue, n, now), WaitKey(other)) == Lookup(zs, WaitKey(other))
    ensures Lookup(Admit(zs, queue, n, now), ProceedKey(other)) == Lookup(zs, ProceedKey(other))
  {
    AdmitLookup(zs, queue, n, now);
    WaitKeyNotProceedKey(other, queue);
    WaitKeyNotProceedKey(queue, other);
    if WaitKey(other) == WaitKey(queue) {
      WaitKeyInjective(other, queue);
    }
    if ProceedKey(other) == ProceedKey(queue) {
      ProceedKeyInjective(other, queue);
    }
  }

  /** Admitting to one queue leaves every other queue's ranks and admissions alone. */
  lemma AdmitOtherQueue(zs: Keyspace, queue: string, n: nat, now: int, other: string, userId: Long)
    requires other != queue
    ensures GetRank(Admit(zs, queue, n, now), other, userId) == GetRank(zs, other, userId)
    ensures IsAllowed(Admit(zs, queue, n, now), other, userId) == IsAllowed(zs, other, userId)
  {
    AdmitOtherLookup(zs, queue, n, now, other);
  }

  /**
   * One scheduler pass over `queues`: a queue named c times loses its
   * n * c lowest waiting users, and they join its proceed set at `now`.
   */
  lemma {:induction false} AdmitEachQueue(zs: Keyspace, queues: seq<string>, n: nat, now: int, queue: string)
    ensures Lookup(AdmitEach(zs, queues, n, now), WaitKey(queue)) ==
      Rest(Lookup(zs, WaitKey(queue)), n * multiset(queues)[queue])
    ensures Lookup(AdmitEach(zs, queues, n, now), ProceedKey(queue)) ==
      AddAll(Lookup(zs, ProceedKey(queue)), Lowest(Lookup(zs, WaitKey(queue)), n * multiset(queues)[queue]), now)
  {
    if queues == [] {
      AdmitEachNone(zs, n, now, queue);
    } else {
      AdmitEachQueue(zs, queues[..|queues| - 1], n, now, queue);
      AdmitEachLast(zs, queues, n, now, queue);
    }
  }

  lemma AdmitEachNone(zs: Keyspace, n: nat, now: int, queue: string)
    ensures Lookup(AdmitEach(zs, [], n, now), WaitKey(queue)) ==
      Rest(Lookup(zs, WaitKey(queue)), n * multiset([])[queue])
    ensures Lookup(AdmitEach(zs, [], n, now), ProceedKey(queue)) ==
      AddAll(Lookup(zs, ProceedKey(queue)), Lowest(Lookup(zs, WaitKey(queue)), n * multiset([])[queue]), now)
  {
    var w, p := Lookup(zs, WaitKey(queue)), Lookup(zs, ProceedKey(queue));
    assert n * multiset([])[queue] == 0;
    RestZero(w);
    assert AddAll(p, {}, now) == p;
  }

  /** The inductive step of AdmitEachQueue: one more admission, to the same queue or another. */
  lemma AdmitEachLast(zs: Keyspace, queues: seq<string>, n: nat, now: int, queue: string)
    requires queues != []
    requires Lookup(AdmitEach(zs, queues[..|queues| - 1], n, now), WaitKey(queue)) ==
      Rest(Lookup(zs, WaitKey(queue)), n * multiset(queues[..|queues| - 1])[queue])
    requires Lookup(AdmitEach(zs, queues[..|queues| - 1], n, now), ProceedKey(queue)) ==
      AddAll(Lookup(zs, ProceedKey(queue)), Lowest(Lookup(zs, WaitKey(queue)), n * multiset(queues[..|queues| - 1])[queue]), now)
    ensures Lookup(AdmitEach(zs, queues, n, now), WaitKey(queue)) ==
      Rest(Lookup(zs, WaitKey(queue)), n * multiset(queues)[queue])
    ensures Lookup(AdmitEach(zs, queues, n, now), ProceedKey(queue)) ==
      AddAll(Lookup(zs, ProceedKey(queue)), Lowest(Lookup(zs, WaitKey(queue)), n * multiset(queues)[queue]), now)
  {
    var w, p := Lookup(zs, WaitKey(queue)), Lookup(zs, ProceedKey(queue));
    var init, last := queues[..|queues| - 1], queues[|queues| - 1];
    var c := multiset(init)[queue];
    var before := AdmitEach(zs, init, n, now);
    CountSnoc(queues, queue);
    if last == queue {
      MulSucc(n, c);
      AdmitAgain(before, queue, n, now, w, p, n * c, n * multiset(queues)[queue]);
    } else {
      AdmitOtherLookup(before, last, n, now, queue);
    }
  }

  lemma MulSucc(n: nat, c: nat)
    ensures n * c >= 0 && n * (c + 1) == n * c + n
  {
  }

  /** Occurrences of q in a non-empty sequence: those before the last element, plus the last. */
  lemma CountSnoc(queues: seq<string>, q: string)
    requires queues != []
    ensures multiset(queues)[q] == multiset(queues[..|queues| - 1])[q] + (if queues[|queues| - 1] == q then 1 else 0)
  {
    assert queues == queues[..|queues| - 1] + [queues[|queues| - 1]];
  }

  lemma AdmitEachNoEmpty(zs: Keyspace, queues: seq<string>, n: nat, now: int)
    requires NoEmpty(zs)
    ensures NoEmpty(AdmitEach(zs, queues, n, now))
  {
    if queues != [] {
      AdmitEachNoEmpty(zs, queues[..|queues| - 1], n, now);
      AdmitLookup(AdmitEach(zs, queues[..|queues| - 1], n, now), queues[|queues| - 1], n, now);
    }
  }

  /** Registering an absent user gives them a 1-based rank within the new wait set. */
  lemma RegisterRankBounds(zs: Keyspace, queue: string, userId: Long, now: int)
    ensures var r := GetRank(Registered(zs, queue, userId, now), queue, userId);
      1 <= r <= |Lookup(zs, WaitKey(queue))| + 1
  {
    var w := Lookup(zs, WaitKey(queue));
    assert Lookup(Registered(zs, queue, userId, now), WaitKey(queue)) == w[Member(userId) := now];
    assert |w[Member(userId) := now]| <= |w| + 1 by {
      assert w[Member(userId) := now].Keys == w.Keys + {Member(userId)};
    }
  }

  /** Registering at a time later than every waiting score puts the user at the back. */
  lemma RegisterAtBack(zs: Keyspace, queue: string, userId: Long, now: int)
    requires Member(userId) !in Lookup(zs, WaitKey(queue))
    requires forall m :: m in Lookup(zs, WaitKey(queue)) ==> Lookup(zs, WaitKey(queue))[m] < now
    ensures GetRank(Registered(zs, queue, userId, now), queue, userId) == |Lookup(zs, WaitKey(queue))| + 1
  {
    var w := Lookup(zs, WaitKey(queue));
    var m := Member(userId);
    var w' := w[m := now];
    assert Lookup(Registered(zs, queue, userId, now), WaitKey(queue)) == w';
    forall x | x in w ensures x in Below(w', m) {
      assert w'[x] == w[x] < now;
    }
    forall x | x in Below(w', m) ensures x in w {
      BeforeIrreflexive(w', m);
    }
    assert Below(w', m) == w.Keys;
  }

  /**
   * A waiting user who registers again later than every other waiting score
   * goes to the back: their rank becomes the size of the wait set.
   */
  lemma ReRegisterAtBack(zs: Keyspace, queue: string, userId: Long, now: int)
    requires Member(userId) in Lookup(zs, WaitKey(queue))
    requires forall m :: m in Lookup(zs, WaitKey(queue)) && m != Member(userId) ==> Lookup(zs, WaitKey(queue))[m] < now
    ensures GetRank(Registered(zs, queue, userId, now), queue, userId) == |Lookup(zs, WaitKey(queue))|
  {
    var w := Lookup(zs, WaitKey(queue));
    var m := Member(userId);
    var w' := w[m := now];
    assert Lookup(Registered(zs, queue, userId, now), WaitKey(queue)) == w';
    forall x | x in w && x != m ensures x in Below(w', m) {
      assert w'[x] == w[x] < now;
    }
    forall x | x in Below(w', m) ensures x in w && x != m {
      BeforeIrreflexive(w', m);
    }
    assert Below(w', m) == w.Keys - {m};
    assert w'.Keys == w.Keys;
  }

  /**
   * Within one second the wait order is the order of the member strings:
   * with user 9 waiting since second 100, user 10 registering in second 100
   * gets rank 1 and pushes user 9 to rank 2.
   */
  lemma SameSecondTie(queue: string)
    ensures var zs := map[WaitKey(queue) := map["9" := 100]];
      var after := Registered(zs, queue, 10, 100);
      GetRank(zs, queue, 9) == 1 && GetRank(after, queue, 10) == 1 && GetRank(after, queue, 9) == 2
  {
    assert Member(9) == "9" && Member(10) == "10" by {
      assert Digits(1) == "1";
    }
    var w := map["9" := 100, "10" := 100];
    assert LexLess("10", "9");
    LexAsymmetric("10", "9");
    assert Below(w, "10") == {};
    assert Below(w, "9") == {"10"};
    assert Below(map["9" := 100], "9") == {} by {
      LexIrreflexive("9");
    }
  }

  /**
   * Registering again rewrites the score (ZADD without NX): user 1 waiting
   * first, since second 100, falls behind user 2 (second 101) after
   * registering again in second 102, although the call reports an error.
   */
  lemma ReRegisterMovesToBack(queue: string)
    ensures var zs := map[WaitKey(queue) := map["1" := 100, "2" := 101]];
      var after := Registered(zs, queue, 1, 102);
      GetRank(zs, queue, 1) == 1 && GetRank(after, queue, 1) == 2 && GetRank(after, queue, 2) == 1
  {
    var w := map["1" := 100, "2" := 101];
    var w' := map["1" := 102, "2" := 101];
    assert Member(1) == "1" && Member(2) == "2";
    assert w[Member(1) := 102] == w';
    assert Below(w, "1") == {};
    assert Below(w', "1") == {"2"};
    assert Below(w', "2") == {};
  }

  /** The members a ZPOPMIN returned are the lowest ones. */
  lemma PoppedAreLowest(s: ZSet, count: nat, popped: seq<(string, int)>)
    requires |popped| == Min(count, |s|)
    requires forall i :: 0 <= i < |popped| ==> popped[i].0 in s && Rank(s, popped[i].0) == i
    ensures MembersOf(popped) == Lowest(s, count)
  {
    forall x | x in Lowest(s, count) ensures x in MembersOf(popped) {
      RankBound(s, x);
      var i := Rank(s, x);
      RankInjective(s, popped[i].0, x);
    }
  }

  ghost function MembersOf(popped: seq<(string, int)>): set<string>
  {
    set i | 0 <= i < |popped| :: popped[i].0
  }

  lemma MembersOfSnoc(popped: seq<(string, int)>, i: nat)
    requires i < |popped|
    ensures MembersOf(popped[..i + 1]) == MembersOf(popped[..i]) + {popped[i].0}
  {
    assert forall j :: 0 <= j < i ==> popped[..i + 1][j] == popped[..i][j];
    assert popped[..i + 1][i] == popped[i];
  }

  lemma AddAllInsert(s: ZSet, members: set<string>, m: string, score: int)
    ensures AddAll(s, members, score)[m := score] == AddAll(s, members + {m}, score)
  {
  }

  /** Overwriting a key with a non-empty set replaces whatever Put stored there. */
  lemma PutOver(zs: Keyspace, key: string, x: ZSet, y: ZSet)
    requires y != map[]
    ensures Put(zs, key, x)[key := y] == Put(zs, key, y)
  {
  }

  /** The queue names the scheduler parses from the scanned keys, key.split(":")[2] each. */
  function QueueNames(keys: seq<string>): (r: seq<string>)
    requires forall i :: 0 <= i < |keys| ==> QueueNameOfKey(keys[i]).Some?
    ensures |r| == |keys| && forall i :: 0 <= i < |keys| ==> QueueNameOfKey(keys[i]) == Some(r[i])
    ensures forall i, q :: 0 <= i < |keys| && keys[i] == WaitKey(q) ==> r[i] == JavaSplit.Fields(q, ':')[0]
    ensures forall i, q :: 0 <= i < |keys| && keys[i] == WaitKey(q) && ':' !in q ==> r[i] == q
  {
    QueueNameOfEveryWaitKey();
    seq(|keys|, i requires 0 <= i < |keys| => QueueNameOfKey(keys[i]).value)
  }

  /** QueueNameOfWaitKey for every queue name at once. */
  lemma QueueNameOfEveryWaitKey()
    ensures forall q :: QueueNameOfKey(WaitKey(q)) == Some(JavaSplit.Fields(q, ':')[0])
    ensures forall q :: ':' !in q ==> QueueNameOfKey(WaitKey(q)) == Some(q)
  {
    forall q ensures QueueNameOfKey(WaitKey(q)) == Some(JavaSplit.Fields(q, ':')[0]) &&
      (':' !in q ==> QueueNameOfKey(WaitKey(q)) == Some(q))
    {
      QueueNameOfWaitKey(q);
    }
  }

  lemma AdmitEachSnoc(zs: Keyspace, queues: seq<string>, i: nat, n: nat, now: int)
    requires i < |queues|
    ensures AdmitEach(zs, queues[..i + 1], n, now) == Admit(AdmitEach(zs, queues[..i], n, now), queues[i], n, now)
  {
    assert queues[..i + 1][..i] == queues[..i];
  }

  /**
   * What allowUser(q, n) returns for each q of `queues` in turn: the number
   * of waiting users of q, after the calls before it, capped at n.
   */
  ghost function AllowedCounts(zs: Keyspace, queues: seq<string>, n: nat, now: int): (r: seq<nat>)
    ensures |r| == |queues|
  {
    if queues == [] then []
    else
      var init := queues[..|queues| - 1];
      AllowedCounts(zs, init, n, now) + [Min(n, |Lookup(AdmitEach(zs, init, n, now), WaitKey(queues[|queues| - 1]))|)]
  }

  lemma AllowedCountsSnoc(zs: Keyspace, queues: seq<string>, i: nat, n: nat, now: int)
    requires i < |queues|
    ensures AllowedCounts(zs, queues[..i + 1], n, now) ==
      AllowedCounts(zs, queues[..i], n, now) + [Min(n, |Lookup(AdmitEach(zs, queues[..i], n, now), WaitKey(queues[i]))|)]
  {
    assert queues[..i + 1][..i] == queues[..i];
  }

  /** The j-th count is taken in the state the first j admissions leave. */
  lemma {:induction false} AllowedCountsIndex(zs: Keyspace, queues: seq<string>, n: nat, now: int, j: nat)
    requires j < |queues|
    ensures AllowedCounts(zs, queues, n, now)[j] ==
      Min(n, |Lookup(AdmitEach(zs, queues[..j], n, now), WaitKey(queues[j]))|)
  {
    if j < |queues| - 1 {
      AllowedCountsIndex(zs, queues[..|queues| - 1], n, now, j);
      PrefixOfInit(queues, j);
    }
  }

  lemma PrefixOfInit<T>(s: seq<T>, j: nat)
    requires j < |s| - 1
    ensures s[..|s| - 1][..j] == s[..j] && s[..|s| - 1][j] == s[j]
  {
  }

  // ------------------------------------------------------------ service

  class UserQueueService {
    const redis: Redis
    /** The scheduler.enabled setting. */
    const scheduling: bool
    const sha256: Sha256

    constructor (redis: Redis, scheduling: bool, sha256: Sha256)
      ensures this.redis == redis && this.scheduling == scheduling && this.sha256 == sha256
    {
      this.redis := redis;
      this.scheduling := scheduling;
      this.sha256 := sha256;
    }

    /**
     * registerWaitQueue: ZADD the user with score `now`; an already waiting
     * user gets the already-registered error (their score is still rewritten),
     * a new one their 1-based rank.
     */
    method RegisterWaitQueue(queue: string, userId: Long, now: int) returns (r: Result<int>)
      requires redis.Valid()
      modifies redis
      ensures redis.Valid()
      ensures redis.zsets == Registered(old(redis.zsets), queue, userId, now)
      ensures redis.Get(WaitKey(queue)).Keys == old(redis.Get(WaitKey(queue))).Keys + {Member(userId)}
      ensures Member(userId) in old(redis.Get(WaitKey(queue))) ==> r == Err(QueueAlreadyRegisteredUser)
      ensures Member(userId) !in old(redis.Get(WaitKey(queue))) ==>
        r.Ok? && r.value == GetRank(redis.zsets, queue, userId) && 1 <= r.value <= |redis.Get(WaitKey(queue))|
    {
      var added := redis.ZAdd(WaitKey(queue), Member(userId), now);
      if !added {
        return Err(QueueAlreadyRegisteredUser);
      }
      var rank: int := ZRank(redis.Get(WaitKey(queue)), Member(userId)).value;
      r := Ok(if rank >= 0 then rank + 1 else rank);
    }

    /**
     * allowUser: ZPOPMIN up to `count` waiting users, ZADD each to the proceed
     * set with score `now`, and count them.
     */
    method AllowUser(queue: string, count: nat, now: int) returns (allowed: nat)
      requires redis.Valid()
      modifies redis
      ensures redis.Valid()
      ensures redis.zsets == Admit(old(redis.zsets), queue, count, now)
      ensures allowed == Min(count, |old(redis.Get(WaitKey(queue)))|)
    {
      ghost var w := redis.Get(WaitKey(queue));
      ghost var p := redis.Get(ProceedKey(queue));
      var popped := redis.ZPopMin(WaitKey(queue), count);
      WaitKeyNotProceedKey(queue, queue);
      assert redis.Get(ProceedKey(queue)) == p;
      AddToProceed(queue, popped, now);
      allowed := |popped|;
      PoppedAreLowest(w, count, popped);
    }

    /** The flatMap step of allowUser: ZADD each popped member to the proceed set with score `now`. */
    method AddToProceed(queue: string, popped: seq<(string, int)>, now: int)
      requires redis.Valid()
      modifies redis
      ensures redis.Valid()
      ensures redis.zsets ==
        Put(old(redis.zsets), ProceedKey(queue), AddAll(old(redis.Get(ProceedKey(queue))), MembersOf(popped), now))
    {
      ghost var start := redis.zsets;
      ghost var p := redis.Get(ProceedKey(queue));
      PutLookup(start, ProceedKey(queue));
      assert MembersOf(popped[..0]) == {};
      assert AddAll(p, {}, now) == p;
      for i := 0 to |popped|
        invariant redis.zsets == Put(start, ProceedKey(queue), AddAll(p, MembersOf(popped[..i]), now))
        invariant redis.Valid()
      {
        var member := popped[i].0;
        ghost var before := AddAll(p, MembersOf(popped[..i]), now);
        var _ := redis.ZAdd(ProceedKey(queue), member, now);
        MembersOfSnoc(popped, i);
        AddAllInsert(p, MembersOf(popped[..i]), member, now);
        PutOver(start, ProceedKey(queue), before, before[member := now]);
      }
      assert popped[..|popped|] == popped;
    }

    /** generateToken: the digest's bytes as "%02x" each, appended in order. */
    method GenerateToken(queue: string, userId: Long) returns (token: string)
      ensures token == Token(sha256, queue, userId)
      ensures |token| == 64 && IsLowerHex(token)
    {
      var digest := sha256(Utf8Encode(TokenInput(queue, userId)));
      token := "";
      for i := 0 to |digest|
        invariant token == HexEncode(digest[..i])
      {
        assert digest[..i + 1][..i] == digest[..i];
        token := token + HexByte(digest[i]);
      }
      assert digest[..|digest|] == digest;
    }

    /** isAllowedByToken: generate the token and compare it with the given one ignoring case. */
    method IsAllowedByToken(queue: string, userId: Long, token: string) returns (ok: bool)
      ensures ok <==> TokenMatches(sha256, queue, userId, token)
      ensures ok <==> Lower(token) == Token(sha256, queue, userId)
    {
      var generated := GenerateToken(queue, userId);
      ok := EqualsIgnoreCase(generated, token);
      TokenAcceptance(sha256, queue, userId, token);
    }

    /**
     * allowUser(q, 100) for each queue name in turn; returns how many each
     * call allowed.
     */
    method AllowQueues(queues: seq<string>, now: int) returns (allowed: seq<nat>)
      requires redis.Valid()
      modifies redis
      ensures redis.Valid()
      ensures allowed == AllowedCounts(old(redis.zsets), queues, MaxAllowUserCount, now)
      ensures redis.zsets == AdmitEach(old(redis.zsets), queues, MaxAllowUserCount, now)
    {
      ghost var zs0 := redis.zsets;
      allowed := [];
      for i := 0 to |queues|
        invariant redis.Valid()
        invariant redis.zsets == AdmitEach(zs0, queues[..i], MaxAllowUserCount, now)
        invariant allowed == AllowedCounts(zs0, queues[..i], MaxAllowUserCount, now)
      {
        var n := AllowUser(queues[i], MaxAllowUserCount, now);
        AdmitEachSnoc(zs0, queues, i, MaxAllowUserCount, now);
        AllowedCountsSnoc(zs0, queues, i, MaxAllowUserCount, now);
        allowed := allowed + [n];
      }
      assert queues[..|queues|] == queues;
    }

    /**
     * scheduleAllowUser, one tick: when enabled, scan the wait keys, take
     * each key's third ':'-separated segment as the queue name, and admit up
     * to 100 users of that queue.  Returns the scanned keys and, per key, the
     * queue name and the number allowed (what the source logs).
     */
    method ScheduleAllowUser(now: int) returns (scanned: seq<string>, queues: seq<string>, allowed: seq<nat>)
      requires redis.Valid()
      modifies redis
      ensures redis.Valid()
      ensures !scheduling ==> scanned == [] && queues == [] && allowed == [] && redis.zsets == old(redis.zsets)
      ensures scheduling ==>
        (forall i :: 0 <= i < |scanned| ==> scanned[i] in old(redis.zsets) && Glob.Match(WaitKeyScanPattern, scanned[i])) &&
        (forall k :: k in old(redis.zsets) && Glob.Match(WaitKeyScanPattern, k) ==> k in scanned)
      ensures forall i, j :: 0 <= i < j < |scanned| ==> scanned[i] != scanned[j]
      ensures |queues| == |scanned|
      ensures forall i :: 0 <= i < |scanned| ==> QueueNameOfKey(scanned[i]) == Some(queues[i])
      ensures allowed == AllowedCounts(old(redis.zsets), queues, MaxAllowUserCount, now)
      ensures redis.zsets == AdmitEach(old(redis.zsets), queues, MaxAllowUserCount, now)
      ensures scheduling ==> forall q :: ':' !in q && WaitKey(q) in old(redis.zsets) ==> q in queues
    {
      if !scheduling {
        return [], [], [];
      }
      scanned := redis.Scan(WaitKeyScanPattern);
      forall j | 0 <= j < |scanned| ensures QueueNameOfKey(scanned[j]).Some? {
        ScannedKeyHasQueueName(scanned[j]);
      }
      queues := QueueNames(scanned);
      forall q | ':' !in q && WaitKey(q) in redis.zsets ensures q in queues {
        WaitKeyMatchesScanPattern(q);
        QueueNameOfWaitKey(q);
        var j :| 0 <= j < |scanned| && scanned[j] == WaitKey(q);
        assert queues[j] == q;
      }
      allowed := AllowQueues(queues, now);
    }
  }
}
