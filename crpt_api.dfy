/** The client facade: it derives the limiter's settings from a request limit
    per one unit of time, and gates every document creation through the
    limiter before handing the request to the transport. */
module Crpt {
  import opened RateLimiter

  /** Why the facade refuses construction: its own check of the request
      limit, or a refusal of the limiter it builds. */
  datatype ApiConfigError =
    | RequestsLimitNotPositive
    | LimiterRejected(cause: ConfigError)

  /** The time units a request limit can be stated per. */
  datatype TimeUnit =
    | Nanoseconds
    | Microseconds
    | Milliseconds
    | Seconds
    | Minutes
    | Hours
    | Days

  /** The length of one unit in whole milliseconds, truncated: units finer
      than a millisecond come out as 0. */
  function OneUnitInMillis(unit: TimeUnit): (ms: int)
    ensures ms >= 0
    ensures ms == 0 <==> unit == Nanoseconds || unit == Microseconds
    ensures unit == Seconds ==> ms == 1000
    ensures unit == Days ==> ms == 24 * 60 * 60 * 1000
  {
    match unit
    case Nanoseconds => 0
    case Microseconds => 0
    case Milliseconds => 1
    case Seconds => 1000
    case Minutes => 60 * 1000
    case Hours => 60 * 60 * 1000
    case Days => 24 * 60 * 60 * 1000
  }

  /** The facade's own check of the request limit, followed by the limiter's
      checks on the limit and on the length of one unit: a limit per one unit
      finer than a millisecond is refused as a zero time limit. */
  function ApiConfig(unit: TimeUnit, requestsLimit: int): (r: Result<Config, ApiConfigError>)
    ensures r.Success? <==> requestsLimit > 0 && unit != Nanoseconds && unit != Microseconds
    ensures requestsLimit <= 0 ==> r == Failure(RequestsLimitNotPositive)
    ensures requestsLimit > 0 && (unit == Nanoseconds || unit == Microseconds) ==>
              r == Failure(LimiterRejected(TimeLimitNotPositive))
    ensures r.Success? ==> r.value == Config(requestsLimit, OneUnitInMillis(unit))
    ensures r.Success? ==> r.value.timeLimit >= 1
  {
    if requestsLimit <= 0 then Failure(RequestsLimitNotPositive)
    else
      match CheckConfig(requestsLimit, OneUnitInMillis(unit))
      case Success(cfg) => Success(cfg)
      case Failure(e) => Failure(LimiterRejected(e))
  }

  /** The facade object: its limiter (the transport it also holds is not part
      of this model). */
  class CrptApi {
    const rateLimiter: SlidingWindowRateLimiter

    ghost predicate Valid()
      reads this, rateLimiter
    {
      rateLimiter.Valid()
    }

    /** Wraps an already built limiter. */
    constructor (limiter: SlidingWindowRateLimiter)
      requires limiter.Valid()
      ensures Valid() && rateLimiter == limiter
    {
      rateLimiter := limiter;
    }

    /** Construction from a request limit per one unit of time: either a new
        facade over a new, empty limiter allowing `requestsLimit` requests per
        unit, or the first error the checks raise. */
    static method Create(unit: TimeUnit, requestsLimit: int) returns (r: Result<CrptApi, ApiConfigError>)
      ensures r.Failure? ==> Failure(r.error) == ApiConfig(unit, requestsLimit)
      ensures r.Success? ==>
                && ApiConfig(unit, requestsLimit).Success?
                && fresh(r.value) && fresh(r.value.rateLimiter) && r.value.Valid()
                && r.value.rateLimiter.window == map[]
                && r.value.rateLimiter.Cfg() == ApiConfig(unit, requestsLimit).value
    {
      if requestsLimit <= 0 {
        return Failure(RequestsLimitNotPositive);
      }
      var limiter := SlidingWindowRateLimiter.Create(requestsLimit, OneUnitInMillis(unit));
      if limiter.Failure? {
        return Failure(LimiterRejected(limiter.error));
      }
      var api := new CrptApi(limiter.value);
      return Success(api);
    }

    /** Document creation, up to the hand-over to the transport: the request
        goes out exactly when the limiter admits it, and the admission is
        recorded whether or not the transport later succeeds. */
    method CreateDocument(checkedAt: int, recordedAt: int) returns (sent: bool)
      requires Valid()
      modifies rateLimiter
      ensures Valid()
      ensures sent == Admits(old(rateLimiter.window), checkedAt, rateLimiter.Cfg())
      ensures rateLimiter.window == Step(old(rateLimiter.window), Consume(checkedAt, recordedAt), rateLimiter.Cfg())
    {
      sent := rateLimiter.TryConsume(checkedAt, recordedAt);
    }
  }
}
