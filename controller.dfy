/**
 * The waiting-room page (GET /waiting-room): a user whose cookie carries the
 * token of the queue is redirected on; anyone else is registered in the
 * queue's wait set and shown their 1-based place in it.
 */
module WaitingRoom {
  import opened Wrappers
  import opened Text
  import opened RedisStore
  import opened QueueService

  /** The value the handler produces: a redirect, or the waiting-room view with its model attributes. */
  datatype Rendering =
    | Redirect(url: string)
    | View(template: string, number: int, userId: Long, queue: string)

  const WaitingRoomTemplate: string := "waiting-room.html"

  const DefaultQueue: string := "default"

  /**
   * The queue request parameter as Spring binds it with defaultValue
   * "default": a missing or empty parameter becomes "default".
   */
  function QueueOrDefault(queueParam: Option<string>): (queue: string)
    ensures queue != ""
    ensures queueParam.Some? && queueParam.value != "" ==> queue == queueParam.value
    ensures queueParam.None? || queueParam.value == "" ==> queue == DefaultQueue
  {
    match queueParam
    case Some(q) => if q == "" then DefaultQueue else q
    case None => DefaultQueue
  }

  /**
   * `?queue=` and no queue parameter land in the same queue: its token
   * cookie, its token input and its wait key are those of "default".
   */
  lemma EmptyQueueParamIsDefault(sha256: Sha256, userId: Long)
    ensures QueueOrDefault(Some("")) == QueueOrDefault(None) == "default"
    ensures TokenCookieName(QueueOrDefault(Some(""))) == "user-queue-default-token"
    ensures WaitKey(QueueOrDefault(Some(""))) == "users:queue:default:wait"
    ensures Token(sha256, QueueOrDefault(Some("")), userId) == Token(sha256, "default", userId)
  {
  }

  const CookiePrefix: string := "user-queue-"
  const CookieSuffix: string := "-token"

  /** "user-queue-%s-token".formatted(queue): the cookie holding the queue's token. */
  function TokenCookieName(queue: string): string
  {
    CookiePrefix + queue + CookieSuffix
  }

  /** Different queues read their tokens from different cookies. */
  lemma TokenCookieNameInjective(a: string, b: string)
    requires TokenCookieName(a) == TokenCookieName(b)
    ensures a == b
  {
    var na, nb := TokenCookieName(a), TokenCookieName(b);
    assert |a| == |b|;
    assert a == na[|CookiePrefix|..|na| - |CookieSuffix|];
    assert b == nb[|CookiePrefix|..|nb| - |CookieSuffix|];
  }

  /** The request's cookies: every value sent under each name, in order. */
  type Cookies = map<string, seq<string>>

  /** MultiValueMap.getFirst: the first value under `name`, or none (null). */
  function FirstCookie(cookies: Cookies, name: string): (r: Option<string>)
    ensures r.None? <==> name !in cookies || cookies[name] == []
    ensures r.Some? ==> r.value == cookies[name][0]
  {
    if name in cookies && cookies[name] != [] then Some(cookies[name][0]) else None
  }

  /** The token the request presents for `queue`: the first token cookie's value, else "". */
  function CookieToken(cookies: Cookies, queue: string): (token: string)
    ensures FirstCookie(cookies, TokenCookieName(queue)).None? ==> token == ""
    ensures FirstCookie(cookies, TokenCookieName(queue)).Some? ==>
      token == cookies[TokenCookieName(queue)][0]
  {
    match FirstCookie(cookies, TokenCookieName(queue))
    case Some(v) => v
    case None => ""
  }

  /** A request whose first token cookie holds the issued token, in either case, is let through. */
  lemma IssuedCookieAccepted(sha256: Sha256, cookies: Cookies, queue: string, userId: Long)
    requires TokenCookieName(queue) in cookies && cookies[TokenCookieName(queue)] != []
    requires var v := cookies[TokenCookieName(queue)][0];
      Lower(v) == Token(sha256, queue, userId)
    ensures TokenMatches(sha256, queue, userId, CookieToken(cookies, queue))
  {
    TokenAcceptance(sha256, queue, userId, CookieToken(cookies, queue));
  }

  /** A request without the queue's token cookie is never let through. */
  lemma MissingCookieRejected(sha256: Sha256, cookies: Cookies, queue: string, userId: Long)
    requires FirstCookie(cookies, TokenCookieName(queue)).None?
    ensures !TokenMatches(sha256, queue, userId, CookieToken(cookies, queue))
  {
    WrongLengthRejected(sha256, queue, userId, "");
  }

  /** Cookies under any other name, another queue's token cookie included, do not change the token read. */
  lemma OtherCookiesIgnored(cookies: Cookies, queue: string, name: string, values: seq<string>)
    requires name != TokenCookieName(queue)
    ensures CookieToken(cookies[name := values], queue) == CookieToken(cookies, queue)
  {
  }

  /** Another queue's token cookie never decides this queue's page. */
  lemma OtherQueueCookieIgnored(cookies: Cookies, queue: string, other: string, values: seq<string>)
    requires other != queue
    ensures CookieToken(cookies[TokenCookieName(other) := values], queue) == CookieToken(cookies, queue)
  {
    if TokenCookieName(other) == TokenCookieName(queue) {
      TokenCookieNameInjective(other, queue);
      assert false;
    }
    OtherCookiesIgnored(cookies, queue, TokenCookieName(other), values);
  }

  /** Only the first value under the token cookie's name is consulted. */
  lemma LaterCookiesIgnored(sha256: Sha256, queue: string, userId: Long, first: string, later: seq<string>)
    ensures var cookies: Cookies := map[TokenCookieName(queue) := [first] + later];
      (TokenMatches(sha256, queue, userId, CookieToken(cookies, queue)) <==>
       TokenMatches(sha256, queue, userId, first))
  {
  }

  class WaitingRoomController {
    const userQueueService: UserQueueService

    constructor (userQueueService: UserQueueService)
      ensures this.userQueueService == userQueueService
    {
      this.userQueueService := userQueueService;
    }

    /**
     * waitingRoomPage: redirect when the token cookie is accepted; otherwise
     * register the user (an already waiting user's error is replaced by
     * their current rank) and render the waiting room with that rank.
     */
    method WaitingRoomPage(queueParam: Option<string>, userId: Long, redirectUrl: string, cookies: Cookies, now: int)
      returns (page: Rendering)
      requires userQueueService.redis.Valid()
      modifies userQueueService.redis
      ensures userQueueService.redis.Valid()
      ensures var queue := QueueOrDefault(queueParam);
        page.Redirect? <==> TokenMatches(userQueueService.sha256, queue, userId, CookieToken(cookies, queue))
      ensures page.Redirect? ==> page == Redirect(redirectUrl) && userQueueService.redis.zsets == old(userQueueService.redis.zsets)
      ensures var queue := QueueOrDefault(queueParam);
        page.View? ==>
          userQueueService.redis.zsets == Registered(old(userQueueService.redis.zsets), queue, userId, now) &&
          page == View(WaitingRoomTemplate, GetRank(userQueueService.redis.zsets, queue, userId), userId, queue) &&
          1 <= page.number <= |userQueueService.redis.Get(WaitKey(queue))|
      ensures var queue := QueueOrDefault(queueParam);
        var w := old(userQueueService.redis.Get(WaitKey(queue)));
        page.View? && Member(userId) !in w && (forall m :: m in w ==> w[m] < now) ==>
          page.number == |w| + 1
      ensures var queue := QueueOrDefault(queueParam);
        var w := old(userQueueService.redis.Get(WaitKey(queue)));
        page.View? && Member(userId) in w && (forall m :: m in w && m != Member(userId) ==> w[m] < now) ==>
          page.number == |w|
    {
      var queue := QueueOrDefault(queueParam);
      var key := TokenCookieName(queue);
      var cookieValue := FirstCookie(cookies, key);
      var token := if cookieValue.None? then "" else cookieValue.value;
      var allowed := userQueueService.IsAllowedByToken(queue, userId, token);
      if allowed {
        return Redirect(redirectUrl);
      }
      ghost var zs0 := userQueueService.redis.zsets;
      var registered := userQueueService.RegisterWaitQueue(queue, userId, now);
      var rank := match registered
        case Ok(v) => v
        case Err(_) => GetRank(userQueueService.redis.zsets, queue, userId);
      page := View(WaitingRoomTemplate, rank, userId, queue);
      RegisterRankBounds(zs0, queue, userId, now);
      if Member(userId) !in Lookup(zs0, WaitKey(queue)) && forall m :: m in Lookup(zs0, WaitKey(queue)) ==> Lookup(zs0, WaitKey(queue))[m] < now {
        RegisterAtBack(zs0, queue, userId, now);
      }
      if Member(userId) in Lookup(zs0, WaitKey(queue)) && forall m :: m in Lookup(zs0, WaitKey(queue)) && m != Member(userId) ==> Lookup(zs0, WaitKey(queue))[m] < now {
        ReRegisterAtBack(zs0, queue, userId, now);
      }
    }
  }
}
