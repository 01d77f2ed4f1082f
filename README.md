# Traffic queue admission, modelled in Dafny

This project models the admission core of a web waiting-room service. Users who
want to enter a protected site are put into a per-queue **wait set**. A
scheduler periodically moves the earliest waiting users of every queue into
the queue's **proceed set**. A waiting-room page redirects a user on once the
cookie they present holds the right **token**. The token is the lowercase hex
SHA-256 of `user-queue-<queue>-<userId>`.

Both sets are Redis sorted sets, keyed `users:queue:<queue>:wait` and
`users:queue:<queue>:proceed`. A member is the decimal user id and its score is
the Unix second at which it was added.

Modules:

- `Wrappers`: `Option` and `Min`.
- `SortedSet`: a sorted set as `map<string, int>`. Members are ordered by
  (score, member string), as in Redis. The module defines rank, the k lowest
  members (`Lowest`), what remains after removing them (`Rest`), and a loop
  that finds the minimum.
- `RedisStore`: the keyspace (`map<string, ZSet>`, with no empty sets) and
  `class Redis`. Its methods `ZAdd`, `ZPopMin` and `Scan` update the `zsets`
  field.
- `Glob`: Redis `MATCH` patterns made of literals and `*`.
- `JavaSplit`: `String.split` on one character, including how it drops
  trailing empty strings.
- `Text`: `Long.toString`, ASCII case mapping, `String.equalsIgnoreCase` and
  UTF-8 encoding, with their round trips.
- `Hex`: the `%02x` encoding of signed bytes, with its decoder and round trip.
- `QueueService`: `UserQueueService`. The pure queries `GetRank` and
  `IsAllowed` are functions over the keyspace. The state changes are
  functions `Registered`, `Admit` and `AdmitEach`, and the class
  `UserQueueService`, whose methods are proved equal to them.
- `WaitingRoom`: `WaitingRoomController.waitingRoomPage`.

Where the code does something one might not expect, the model follows the
code and proves what it does:

- `registerWaitQueue` calls ZADD without `NX`. A user who is already waiting
  gets the "already registered" error, but their score is still rewritten to
  the current second. A repeated call therefore moves them to the back of the
  queue (`ReRegisterAtBack`, with a concrete case in `ReRegisterMovesToBack`).
  The waiting-room page re-registers on every load, so reloading it sends a
  waiting user to the back.
- Scores are whole seconds. Users registered in the same second are ordered
  by their member strings, so "10" goes before "9" (`SameSecondTie`). A later
  registration is placed behind everyone only when the clock has moved on
  (`RegisterAtBack`).
- The scheduler recovers the queue name with `key.split(":")[2]`. For a queue
  name that contains `:` this gives only the part before the first `:`
  (`QueueNameOfWaitKey`). The scheduler then admits users of a different
  queue than the one scanned.
- With a negative user id, two different (queue, user) pairs can produce the
  same token input and so the same token (`TokenInputCollision`). For
  non-negative ids the input determines both (`TokenInputInjective`).

## Model

| member | source | states |
|---|---|---|
| QueueService.WaitKeyInjective | flow/src/main/java/com/dustin/flow/service/UserQueueService.java:34 | different queue names give different wait keys |
| QueueService.ProceedKeyInjective | flow/src/main/java/com/dustin/flow/service/UserQueueService.java:40 | different queue names give different proceed keys |
| QueueService.WaitKeyNotProceedKey | flow/src/main/java/com/dustin/flow/service/UserQueueService.java:34-40 | no wait key is ever a proceed key, so the two sets of a queue never alias |
| QueueService.MemberInjective | flow/src/main/java/com/dustin/flow/service/UserQueueService.java:54 | different user ids are different sorted-set members |
| QueueService.ScanPatternMatchesWaitKeys | flow/src/main/java/com/dustin/flow/service/UserQueueService.java:37 | the scan pattern matches a key exactly when it has the form `users:queue:X:wait` |
| QueueService.WaitKeyMatchesScanPattern | flow/src/main/java/com/dustin/flow/service/UserQueueService.java:34-37 | every queue's wait key matches the scan pattern |
| QueueService.QueueNameOfWaitKey | flow/src/main/java/com/dustin/flow/service/UserQueueService.java:151 | `split(":")[2]` of a wait key returns the queue name when it has no `:`, and otherwise its first `:`-separated field |
| QueueService.ScannedKeyHasQueueName | flow/src/main/java/com/dustin/flow/service/UserQueueService.java:147-151 | every key the scan returns has a third field, so the index never fails |
| QueueService.QueueNames | flow/src/main/java/com/dustin/flow/service/UserQueueService.java:151 | the i-th queue name is the third field of the i-th scanned key; for the wait key of queue q it is the first `:`-field of q, and q itself when q has no `:` |
| QueueService.Token | flow/src/main/java/com/dustin/flow/service/UserQueueService.java:117-128 | a token is 64 lowercase hex digits |
| QueueService.UserQueueService.GenerateToken | flow/src/main/java/com/dustin/flow/service/UserQueueService.java:117-132 | the loop over the digest builds the hex encoding of the SHA-256 of the UTF-8 input, 64 lowercase hex digits |
| QueueService.TokenInputInjective | flow/src/main/java/com/dustin/flow/service/UserQueueService.java:121 | for non-negative ids, the hashed input determines queue and user |
| QueueService.TokenInputCollision | flow/src/main/java/com/dustin/flow/service/UserQueueService.java:121 | queue `a-` with user -12 and queue `a--` with user 12 share their input, hence their token |
| QueueService.TokenAcceptance | flow/src/main/java/com/dustin/flow/service/UserQueueService.java:92-97 | a token is accepted exactly when it lower-cases to the derived token |
| QueueService.IssuedTokenAccepted | flow/src/main/java/com/dustin/flow/service/UserQueueService.java:92-97 | the derived token is accepted, and so is its upper-case form |
| QueueService.WrongLengthRejected | flow/src/main/java/com/dustin/flow/service/UserQueueService.java:94 | a token of any length other than 64, the empty token included, is rejected |
| QueueService.UserQueueService.IsAllowedByToken | flow/src/main/java/com/dustin/flow/service/UserQueueService.java:92-97 | returns true exactly when the given token equals the generated one ignoring case, that is, when it lower-cases to it |
| QueueService.GetRank | flow/src/main/java/com/dustin/flow/service/UserQueueService.java:105-109 | -1 exactly when the user is not waiting; otherwise 1 + the number of members ordered before them, between 1 and the wait set's size |
| QueueService.IsAllowed | flow/src/main/java/com/dustin/flow/service/UserQueueService.java:79-83 | true exactly when the user is in the proceed set |
| QueueService.UserQueueService.RegisterWaitQueue | flow/src/main/java/com/dustin/flow/service/UserQueueService.java:52-59 | the user's score becomes `now` whether or not they were waiting; a waiting user gets the already-registered error; a new user gets their 1-based rank, which lies within the new wait set |
| QueueService.RegisterRankBounds | flow/src/main/java/com/dustin/flow/service/UserQueueService.java:57-58 | after registering, the user's rank is between 1 and the old wait size + 1 |
| QueueService.ReRegisterAtBack | flow/src/main/java/com/dustin/flow/service/UserQueueService.java:53-56 | a waiting user who registers again later than every other waiting score gets rank equal to the wait size, the back of the queue |
| QueueService.RegisterAtBack | flow/src/main/java/com/dustin/flow/service/UserQueueService.java:53-58 | a new user registering later than every waiting score gets rank old size + 1 |
| QueueService.SameSecondTie | flow/src/main/java/com/dustin/flow/service/UserQueueService.java:53-54 | user 10 registering in the same second as waiting user 9 goes before them |
| QueueService.ReRegisterMovesToBack | flow/src/main/java/com/dustin/flow/service/UserQueueService.java:54-56 | registering again rewrites the score and moves the first user behind the second, although the call reports an error |
| QueueService.UserQueueService.AllowUser | flow/src/main/java/com/dustin/flow/service/UserQueueService.java:67-71 | the store is the state `Admit` describes, and the returned count is min(count, old wait size) |
| QueueService.UserQueueService.AddToProceed | flow/src/main/java/com/dustin/flow/service/UserQueueService.java:69 | each popped member is added to the proceed set with score `now`, and nothing else changes |
| QueueService.AdmitLookup | flow/src/main/java/com/dustin/flow/service/UserQueueService.java:67-70 | allowUser(n) removes the n lowest members from the wait set, adds exactly them to the proceed set at `now`, leaves every other key alone and never stores an empty set |
| QueueService.AdmitRank | flow/src/main/java/com/dustin/flow/service/UserQueueService.java:67-70 | users ranked 1..n become allowed and stop waiting; users ranked above n move up n places; users not waiting stay not waiting; allowed afterwards iff allowed before or ranked 1..n |
| QueueService.AdmitOtherQueue | flow/src/main/java/com/dustin/flow/service/UserQueueService.java:67-70 | allowUser on one queue changes no user's rank or allowed state in another queue |
| QueueService.AdmitAgain | flow/src/main/java/com/dustin/flow/service/UserQueueService.java:67-70 | allowUser(a) followed by allowUser(n) on the same queue at the same `now` has the effect of allowUser(a + n) |
| QueueService.AdmitEachQueue | flow/src/main/java/com/dustin/flow/service/UserQueueService.java:146-152 | after allowUser(n) on each name of a list, a queue named c times has lost its n*c lowest waiting users, and exactly they have joined its proceed set |
| QueueService.AdmitEachNoEmpty | flow/src/main/java/com/dustin/flow/service/UserQueueService.java:152 | a run over any list of queues never leaves an empty set in the store |
| QueueService.AllowedCountsIndex | flow/src/main/java/com/dustin/flow/service/UserQueueService.java:152-153 | the j-th count reported is min(100, the wait size of the j-th queue after the first j admissions) |
| QueueService.UserQueueService.AllowQueues | flow/src/main/java/com/dustin/flow/service/UserQueueService.java:146-154 | allowUser(q, 100) for each queue in scan order: the store is `AdmitEach` of the old one and the counts are `AllowedCounts` |
| QueueService.UserQueueService.ScheduleAllowUser | flow/src/main/java/com/dustin/flow/service/UserQueueService.java:139-155 | when scheduling is off, the store is unchanged and the results are empty; otherwise the scanned keys are exactly the matching keys of the store, each once, every queue without `:` that has a wait set is among the processed names, each scanned key yields its third field, and the store and the counts are `AdmitEach` and `AllowedCounts` of the old store |
| RedisStore.Put | flow/src/main/java/com/dustin/flow/service/UserQueueService.java:68 | a key whose sorted set becomes empty is deleted; other keys read the same |
| RedisStore.Redis.ZAdd | flow/src/main/java/com/dustin/flow/service/UserQueueService.java:54 | the member's score becomes the given one; reports true exactly when the member was absent |
| RedisStore.Redis.ZPopMin | flow/src/main/java/com/dustin/flow/service/UserQueueService.java:68 | returns min(count, size) members with their scores, the i-th having rank i, and leaves `Rest(s, count)` |
| RedisStore.Redis.Scan | flow/src/main/java/com/dustin/flow/service/UserQueueService.java:147-150 | returns every key that matches the pattern, each exactly once, and only such keys |
| SortedSet.ZRank | flow/src/main/java/com/dustin/flow/service/UserQueueService.java:57 | ZRANK is defined exactly for members and lies below the size |
| SortedSet.RankOrder | flow/src/main/java/com/dustin/flow/service/UserQueueService.java:106 | one member ranks below another exactly when it comes first by (score, member) |
| SortedSet.LowestSize | flow/src/main/java/com/dustin/flow/service/UserQueueService.java:68 | ZPOPMIN with count k takes min(k, size) members |
| SortedSet.RestRank | flow/src/main/java/com/dustin/flow/service/UserQueueService.java:68 | after removing the k lowest members, everyone left moves down k ranks |
| Text.DecimalRoundTrip | flow/src/main/java/com/dustin/flow/service/UserQueueService.java:54 | Long.toString of a user id parses back to that id |
| Text.EqualsIgnoreCaseLower | flow/src/main/java/com/dustin/flow/service/UserQueueService.java:94 | against a lowercase hex string, equalsIgnoreCase is equality after lower-casing the other string |
| Text.Utf8RoundTrip | flow/src/main/java/com/dustin/flow/service/UserQueueService.java:122 | the UTF-8 bytes of the token input decode back to it |
| Hex.HexRoundTrip | flow/src/main/java/com/dustin/flow/service/UserQueueService.java:125-127 | the `%02x` encoding of the digest decodes back to the digest |
| Hex.HexInjective | flow/src/main/java/com/dustin/flow/service/UserQueueService.java:125-127 | different digests give different tokens |
| JavaSplit.JoinFields | flow/src/main/java/com/dustin/flow/service/UserQueueService.java:151 | the fields of a string rejoined with the separator give the string back |
| JavaSplit.SplitKeepsFields | flow/src/main/java/com/dustin/flow/service/UserQueueService.java:151 | split keeps every field when the last one is non-empty |
| Glob.MatchStarSuffix | flow/src/main/java/com/dustin/flow/service/UserQueueService.java:148 | `*` followed by a literal matches exactly the strings ending in that literal |
| WaitingRoom.QueueOrDefault | flow/src/main/java/com/dustin/flow/controller/WaitingRoomController.java:33 | the queue is never empty: a non-empty parameter is used as given, a missing or empty one becomes "default" |
| WaitingRoom.EmptyQueueParamIsDefault | flow/src/main/java/com/dustin/flow/controller/WaitingRoomController.java:33 | `?queue=` uses the cookie `user-queue-default-token`, the wait key `users:queue:default:wait` and the token of queue "default", like a request without the parameter |
| WaitingRoom.TokenCookieNameInjective | flow/src/main/java/com/dustin/flow/controller/WaitingRoomController.java:37 | different queues read their tokens from different cookies |
| WaitingRoom.OtherCookiesIgnored | flow/src/main/java/com/dustin/flow/controller/WaitingRoomController.java:37-39 | a cookie under any name other than the queue's token cookie does not change the token read |
| WaitingRoom.OtherQueueCookieIgnored | flow/src/main/java/com/dustin/flow/controller/WaitingRoomController.java:37-39 | another queue's token cookie never changes the token read for this queue |
| WaitingRoom.IssuedCookieAccepted | flow/src/main/java/com/dustin/flow/controller/WaitingRoomController.java:37-44 | a request whose first token cookie lower-cases to the issued token is let through |
| WaitingRoom.MissingCookieRejected | flow/src/main/java/com/dustin/flow/controller/WaitingRoomController.java:39-45 | a request without the token cookie is never let through |
| WaitingRoom.LaterCookiesIgnored | flow/src/main/java/com/dustin/flow/controller/WaitingRoomController.java:38 | only the first value under the token cookie's name decides |
| WaitingRoom.WaitingRoomController.WaitingRoomPage | flow/src/main/java/com/dustin/flow/controller/WaitingRoomController.java:32-56 | redirects to the given URL, leaving the store alone, exactly when the cookie token is accepted; otherwise registers the user and renders `waiting-room.html` with their current rank (≥ 1, replacing the already-registered error), user id and queue; a new user arriving after every waiting score gets old size + 1, and a waiting user reloading after every other waiting score gets the last place, the wait size |

## Left out

- Reactive execution: the `Mono`/`Flux` pipelines are modelled as sequential
  calls. Concurrent requests and the scheduler interleaving with them are not
  modelled.
- QueueService.UserQueueService.ScheduleAllowUser: the `flatMap` in the source
  may run several `allowUser` calls at once; the model runs them one after
  another in scan order.
- The clock: `Instant.now().getEpochSecond()` becomes a `now` parameter.
- QueueService.UserQueueService.AllowUser: the source reads the clock once per
  proceeding member; the model gives every member of one call the same `now`.
- `@Scheduled` timing (initial delay and fixed delay) is left out; the model
  has one scheduler run per call.
- Logging: the log lines are left out. `ScheduleAllowUser` returns the
  scanned keys, the queue names and the allowed counts instead.
- SCAN cursors and the `COUNT 100` hint are left out. The model returns every
  matching key exactly once. Real SCAN may return a key twice, or miss keys
  created during the scan.
- Glob: only literal characters and `*` are modelled, which covers the one
  pattern used. `?`, `[...]` and `\` escapes are left out.
- RedisStore.Redis.ZPopMin: `count` is a `nat`. A negative count is a Redis
  error reply, which the model does not represent.
- Store failures (connection errors, wrong-type replies) are left out.
- SHA-256 internals: the hash is a parameter of the service. It is any
  function from byte strings to 32 signed bytes. `NoSuchAlgorithmException`
  cannot arise in the model.
- ErrorCode: only the one code used here is modelled. Its HTTP status and
  message text (`ErrorCode.java`) and the exception handler
  (`ApplicationAdvice.java`) are not part of this model.
- Case mapping: `equalsIgnoreCase` is modelled for ASCII letters only.
  Non-ASCII case mapping is left out. Tokens are ASCII, so a non-ASCII
  character never matches a token character.
- Lone UTF-16 surrogates: strings are sequences of Unicode scalar values, so
  the replacement that `getBytes(UTF_8)` does for unpaired surrogates is not
  modelled.
- Locale digits in `"%d"` are left out; the default locale's ASCII digits are
  assumed.
- Request binding errors are left out: a missing `user_id` or `redirect_url`,
  or a `user_id` that is not a number, are rejected by the framework before
  the handler runs.
- `UserQueueController.java` (the REST endpoints that call the same service
  methods and set the token cookie) and `WebsiteApplication.java` are not part
  of this model.
