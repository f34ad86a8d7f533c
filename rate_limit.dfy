/**
 * The `/ask` admission step of the bot: a per-user sliding-window rate
 * limiter (`rateLimitMap`) in front of a FIFO request queue (`requestQueue`).
 */
module RateLimit {
  import opened Common

  /** `MAX_REQUESTS_PER_MINUTE`: admissions allowed per window. */
  const MaxRequestsPerMinute: nat := 5

  /** `r` is `s` with some elements dropped and the rest kept in order. */
  ghost predicate Subsequence(r: seq<int>, s: seq<int>)
    decreases |s|
  {
    if r == [] then true
    else if s == [] then false
    else (r[0] == s[0] && Subsequence(r[1..], s[1..])) || Subsequence(r, s[1..])
  }

  /**
   * The timestamps that still count at time `now`: those less than one
   * window old (a stamp exactly one window old no longer counts), in
   * their stored order.
   */
  function Recent(stamps: seq<int>, now: int, window: int): (kept: seq<int>)
    ensures Subsequence(kept, stamps)
    ensures forall i :: 0 <= i < |kept| ==> now - kept[i] < window
    ensures forall t :: multiset(kept)[t] == if now - t < window then multiset(stamps)[t] else 0
  {
    if stamps == [] then []
    else
      var rest := Recent(stamps[1..], now, window);
      assert stamps == [stamps[0]] + stamps[1..];
      if now - stamps[0] < window then [stamps[0]] + rest else rest
  }

  /**
   * The admission rule for one user whose stored list is `stored`.
   * `None`: the request is rejected and nothing stored changes.
   * `Some(s)`: the request is admitted and `s` becomes the user's list.
   */
  function Admit(stored: seq<int>, now: int, window: Window): (r: Option<seq<int>>)
    ensures r.None? <==> |Recent(stored, now, window)| >= MaxRequestsPerMinute
    ensures r.Some? ==> 0 < |r.value| <= MaxRequestsPerMinute && r.value[|r.value| - 1] == now
    ensures r.Some? ==> r.value[..|r.value| - 1] == Recent(stored, now, window)
    ensures r.Some? ==> forall i :: 0 <= i < |r.value| ==> now - r.value[i] < window
  {
    var kept := Recent(stored, now, window);
    if |kept| >= MaxRequestsPerMinute then None else Some(kept + [now])
  }

  /** One entry of `requestQueue`: the question and the chat to answer in. */
  datatype Request = Request(userMessage: string, chatId: int)

  /** What the user lookup before admission returned. */
  datatype Lookup = Registered | Unregistered | LookupFailed

  /** The reply the `/ask` handler sends. */
  datatype AskReply =
    | MissingQuestion   // the command carried no question
    | NotRegistered     // the sender has no user record
    | RateLimited       // too many questions in the current window
    | Received          // the question was queued
    | Failed            // the user lookup failed

  /** The process-wide state the `/ask` handler updates. */
  class AskDesk {
    /** `REQUEST_TIME_WINDOW`, in milliseconds. */
    const window: Window
    /** User id to that user's stored request timestamps, oldest first. */
    var rateLimitMap: map<int, seq<int>>
    /** Admitted requests waiting for the dispatcher, oldest first. */
    var requestQueue: seq<Request>

    constructor (window: Window)
      ensures this.window == window
      ensures rateLimitMap == map[] && requestQueue == []
    {
      this.window := window;
      rateLimitMap := map[];
      requestQueue := [];
    }

    /** The user's stored timestamps; a user without an entry has none. */
    function Stamps(telegramId: int): (stamps: seq<int>)
      reads this
    {
      if telegramId in rateLimitMap then rateLimitMap[telegramId] else []
    }

    /**
     * The `/ask` handler up to the enqueue: `userMessage` is the trimmed
     * question, `lookup` the outcome of the user lookup, `now` the clock.
     */
    method Ask(telegramId: int, chatId: int, userMessage: string, lookup: Lookup, now: int)
      returns (reply: AskReply)
      modifies this
      ensures userMessage == [] ==> reply == MissingQuestion
      ensures userMessage != [] && lookup == LookupFailed ==> reply == Failed
      ensures userMessage != [] && lookup == Unregistered ==> reply == NotRegistered
      ensures userMessage != [] && lookup == Registered ==>
        reply == (if Admit(old(Stamps(telegramId)), now, window).Some? then Received else RateLimited)
      ensures reply == Received ==>
        && rateLimitMap == old(rateLimitMap)[telegramId := Admit(old(Stamps(telegramId)), now, window).value]
        && requestQueue == old(requestQueue) + [Request(userMessage, chatId)]
      ensures reply == Received ==> forall u :: u != telegramId ==> Stamps(u) == old(Stamps(u))
      ensures reply != Received ==> rateLimitMap == old(rateLimitMap) && requestQueue == old(requestQueue)
    {
      if userMessage == [] {
        return MissingQuestion;
      }
      match lookup
      case LookupFailed => return Failed;
      case Unregistered => return NotRegistered;
      case Registered =>
      var lastRequests := Stamps(telegramId);
      var updatedRequests := Recent(lastRequests, now, window);
      if |updatedRequests| >= MaxRequestsPerMinute {
        return RateLimited;
      }
      updatedRequests := updatedRequests + [now];
      rateLimitMap := rateLimitMap[telegramId := updatedRequests];
      requestQueue := requestQueue + [Request(userMessage, chatId)];
      reply := Received;
    }
  }
}
