/** The sliding-window rate limiter: its configuration check, the object that
    owns the ledger, and the safety argument over any history of admissions
    and sweeps. Time is explicit: every operation takes the clock reading it
    would have taken from the limiter's clock. */
module RateLimiter {
  import opened Ledger

  /** The two ways the limiter's construction can be refused. */
  datatype ConfigError =
    | WindowSizeNotPositive
    | TimeLimitNotPositive

  datatype Result<+T, +E> = Success(value: T) | Failure(error: E)

  /** An accepted configuration: at most `windowSize` admissions within any
      trailing `timeLimit` milliseconds. */
  datatype Config = Config(windowSize: int, timeLimit: int)

  /** The limiter's constructor checks: the window size is tested first, so it
      is the error reported when both values are out of range. */
  function CheckConfig(windowSize: int, timeLimit: int): (r: Result<Config, ConfigError>)
    ensures r.Success? <==> windowSize > 0 && timeLimit > 0
    ensures r.Success? ==> r.value == Config(windowSize, timeLimit)
    ensures windowSize <= 0 ==> r == Failure(WindowSizeNotPositive)
    ensures windowSize > 0 && timeLimit <= 0 ==> r == Failure(TimeLimitNotPositive)
  {
    if windowSize <= 0 then Failure(WindowSizeNotPositive)
    else if timeLimit <= 0 then Failure(TimeLimitNotPositive)
    else Success(Config(windowSize, timeLimit))
  }

  /** One critical section of the limiter, with the clock readings it takes:
      an admission attempt reads the clock once to test capacity and once
      more to record, a sweep reads it once. */
  datatype Event =
    | Consume(checkedAt: int, recordedAt: int)
    | Sweep(at: int)
  {
    function FirstReading(): int
    {
      if Consume? then checkedAt else at
    }

    function LastReading(): int
    {
      if Consume? then recordedAt else at
    }
  }

  /** Whether an admission attempt finds room in the window at its first clock
      reading. */
  ghost predicate Admits(w: map<int, int>, checkedAt: int, cfg: Config)
  {
    Count(w, checkedAt, cfg.timeLimit) < cfg.windowSize
  }

  /** The ledger after one critical section: an admission bumps the bucket at
      its second reading when the first found room; a sweep keeps only the
      buckets at or after `at - timeLimit`. */
  ghost function Step(w: map<int, int>, e: Event, cfg: Config): map<int, int>
  {
    match e
    case Consume(c, r) => if Admits(w, c, cfg) then Bumped(w, r) else w
    case Sweep(a) => AtOrAfter(w, a - cfg.timeLimit)
  }

  /** The ledger after a whole history of critical sections, in order. */
  ghost function Replay(w: map<int, int>, history: seq<Event>, cfg: Config): map<int, int>
    decreases |history|
  {
    if history == [] then w
    else Replay(Step(w, history[0], cfg), history[1..], cfg)
  }

  /** The clock never runs backwards from `since` on through `history`,
      including between the two readings of one admission attempt. */
  ghost predicate ClockFrom(since: int, history: seq<Event>)
    decreases |history|
  {
    history == []
    || (since <= history[0].FirstReading()
        && history[0].FirstReading() <= history[0].LastReading()
        && ClockFrom(history[0].LastReading(), history[1..]))
  }

  /** The latest clock reading after `history`, starting from `since`. */
  function LastTime(since: int, history: seq<Event>): int
    decreases |history|
  {
    if history == [] then since else LastTime(history[0].LastReading(), history[1..])
  }

  /** What the limiter keeps true of its ledger at clock reading `now`: every
      bucket is positive and within the window size, and the window ending at
      `now` holds no more than the window size. */
  ghost predicate Bounded(w: map<int, int>, now: int, cfg: Config)
  {
    && AllPositive(w)
    && (forall k :: k in w ==> w[k] <= cfg.windowSize)
    && Count(w, now, cfg.timeLimit) <= cfg.windowSize
  }

  /** A ledger only changes by whole buckets: an existing bucket never
      shrinks, a bucket disappears only in a sweep and only when it lies
      before the sweep's window, and a new bucket is created only by a granted
      admission, at its recording time, holding 1. */
  lemma StepChangesWholeBuckets(w: map<int, int>, e: Event, cfg: Config)
    ensures forall k :: k in w && k in Step(w, e, cfg) ==> Step(w, e, cfg)[k] >= w[k]
    ensures forall k :: k in w && k !in Step(w, e, cfg) ==> e.Sweep? && k < e.at - cfg.timeLimit
    ensures forall k :: k !in w && k in Step(w, e, cfg) ==>
              e.Consume? && k == e.recordedAt && Step(w, e, cfg)[k] == 1
    ensures AllPositive(w) ==> AllPositive(Step(w, e, cfg))
  {
  }

  /** An admission attempt whose readings come no earlier than `now` keeps
      the ledger bounded at its recording instant. */
  lemma ConsumeKeepsBound(w: map<int, int>, now: int, c: int, r: int, cfg: Config)
    requires cfg.timeLimit > 0
    requires Bounded(w, now, cfg)
    requires now <= c <= r
    ensures Bounded(Step(w, Consume(c, r), cfg), r, cfg)
  {
    var L := cfg.timeLimit;
    if Admits(w, c, cfg) {
      var w' := Bumped(w, r);
      var tail := AtOrAfter(w', r - L);
      CountAntitone(w, c, r, L);
      CountBumped(w, r, r, L);
      assert Count(w', r, L) <= cfg.windowSize;
      MassNonNegative(tail);
      assert r in tail && w'[r] == tail[r];
      assert w'[r] <= cfg.windowSize;
      assert Step(w, Consume(c, r), cfg) == w';
    } else {
      CountAntitone(w, now, r, L);
    }
  }

  /** A sweep at a reading no earlier than `now` keeps the ledger bounded at
      the sweep's reading. */
  lemma CleanupKeepsBound(w: map<int, int>, now: int, a: int, cfg: Config)
    requires Bounded(w, now, cfg)
    requires now <= a
    ensures Bounded(Step(w, Sweep(a), cfg), a, cfg)
  {
    var L := cfg.timeLimit;
    CountAntitone(w, now, a, L);
    TrimThenView(w, a - L, a - L);
  }

  /** A step taken with a clock no earlier than `now` keeps the ledger
      bounded at the step's last reading. */
  lemma StepKeepsBound(w: map<int, int>, now: int, e: Event, cfg: Config)
    requires cfg.timeLimit > 0
    requires Bounded(w, now, cfg)
    requires now <= e.FirstReading() <= e.LastReading()
    ensures Bounded(Step(w, e, cfg), e.LastReading(), cfg)
  {
    match e
    case Consume(c, r) => ConsumeKeepsBound(w, now, c, r, cfg);
    case Sweep(a) => CleanupKeepsBound(w, now, a, cfg);
  }

  /** The window bound over any history: from a bounded ledger and a clock
      that never runs backwards, every later ledger stays bounded, and the
      window ending at any instant from the last reading on holds at most the
      window size. */
  lemma {:induction false} WindowBound(w: map<int, int>, since: int, history: seq<Event>, cfg: Config)
    requires cfg.timeLimit > 0
    requires Bounded(w, since, cfg)
    requires ClockFrom(since, history)
    ensures Bounded(Replay(w, history, cfg), LastTime(since, history), cfg)
    ensures forall t :: t >= LastTime(since, history) ==>
              Count(Replay(w, history, cfg), t, cfg.timeLimit) <= cfg.windowSize
    decreases |history|
  {
    if history == [] {
      forall t | t >= since
        ensures Count(w, t, cfg.timeLimit) <= cfg.windowSize
      {
        CountAntitone(w, since, t, cfg.timeLimit);
      }
    } else {
      var e := history[0];
      StepKeepsBound(w, since, e, cfg);
      WindowBound(Step(w, e, cfg), e.LastReading(), history[1..], cfg);
    }
  }

  /** A new limiter starts with an empty ledger, which is bounded at any
      instant; so the bound holds after any history of a new limiter. */
  lemma FreshLimiterBounded(since: int, history: seq<Event>, cfg: Config)
    requires CheckConfig(cfg.windowSize, cfg.timeLimit).Success?
    requires ClockFrom(since, history)
    ensures forall t :: t >= LastTime(since, history) ==>
              Count(Replay(map[], history, cfg), t, cfg.timeLimit) <= cfg.windowSize
  {
    var empty: map<int, int> := map[];
    assert AtOrAfter(empty, since - cfg.timeLimit) == empty;
    WindowBound(empty, since, history, cfg);
  }

  /** Without the ordered clock the bound fails: a wall clock that steps
      back between the capacity test and the record lets an admission be
      recorded into a window that is already full. With one admission at 0,
      a window size of 1 and a 10 ms window, a test at 20 finds room, the
      record lands at 5, and the window ending at 5 then holds 2. */
  lemma BackwardClockBreaksBound()
    ensures Admits(map[0 := 1], 20, Config(1, 10))
    ensures Step(map[0 := 1], Consume(20, 5), Config(1, 10)) == map[0 := 1, 5 := 1]
    ensures Count(Step(map[0 := 1], Consume(20, 5), Config(1, 10)), 5, 10) == 2
  {
    var w: map<int, int> := map[0 := 1];
    var empty: map<int, int> := map[];
    assert AtOrAfter(w, 10) == empty;
    var w' := map[0 := 1, 5 := 1];
    assert Step(w, Consume(20, 5), Config(1, 10)) == w';
    assert AtOrAfter(w', -5) == w';
    MassRemove(w', 5);
    assert w' - {5} == w;
    MassSingleton(0, 1);
  }

  /** A sweep at `now` does not change what the window at `now`, or at any
      later instant, holds; and sweeping twice at the same instant is the
      same as sweeping once. */
  lemma CleanupInvisible(w: map<int, int>, now: int, later: int, cfg: Config)
    requires now <= later
    ensures Count(Step(w, Sweep(now), cfg), later, cfg.timeLimit) == Count(w, later, cfg.timeLimit)
    ensures Step(Step(w, Sweep(now), cfg), Sweep(now), cfg) == Step(w, Sweep(now), cfg)
  {
    TrimThenView(w, now - cfg.timeLimit, later - cfg.timeLimit);
    TrimThenView(w, now - cfg.timeLimit, now - cfg.timeLimit);
  }

  /** The ledger holding `n` admissions, all recorded at `t`. */
  function Filled(t: int, n: nat): map<int, int>
  {
    if n == 0 then map[] else map[t := n]
  }

  /** A ledger filled at `t` shows exactly its fill in the window ending at
      `t`. */
  lemma CountFilled(t: int, n: nat, timeLimit: int)
    requires timeLimit >= 0
    ensures Count(Filled(t, n), t, timeLimit) == n
  {
    assert AtOrAfter(Filled(t, n), t - timeLimit) == Filled(t, n);
    if n > 0 {
      MassSingleton(t, n);
    }
  }

  /** Liveness at one instant: from an empty ledger, `windowSize` admissions
      at the same instant `t` are all granted and the next one is refused;
      once the clock has moved past `t + timeLimit` and a sweep has run, an
      admission is granted again and is the only one in the ledger. */
  lemma FillThenRefuseThenRecover(t: int, later: int, cfg: Config)
    requires CheckConfig(cfg.windowSize, cfg.timeLimit).Success?
    requires later > t + cfg.timeLimit
    ensures forall n: nat :: n < cfg.windowSize ==>
              Admits(Filled(t, n), t, cfg) && Step(Filled(t, n), Consume(t, t), cfg) == Filled(t, n + 1)
    ensures !Admits(Filled(t, cfg.windowSize), t, cfg)
    ensures Step(Filled(t, cfg.windowSize), Consume(t, t), cfg) == Filled(t, cfg.windowSize)
    ensures Step(Filled(t, cfg.windowSize), Sweep(later), cfg) == map[]
    ensures Admits(map[], later, cfg)
    ensures Step(map[], Consume(later, later), cfg) == map[later := 1]
  {
    forall n: nat | n < cfg.windowSize
      ensures Admits(Filled(t, n), t, cfg)
    {
      CountFilled(t, n, cfg.timeLimit);
    }
    CountFilled(t, cfg.windowSize, cfg.timeLimit);
    CountFilled(later, 0, cfg.timeLimit);
  }

  /** The limiter object: the ledger it updates in place and its two settings,
      fixed at construction. */
  class SlidingWindowRateLimiter {
    var window: map<int, int>
    const windowSize: int
    const timeLimit: int

    ghost predicate Valid()
      reads this
    {
      windowSize > 0 && timeLimit > 0 && AllPositive(window)
    }

    function Cfg(): Config
    {
      Config(windowSize, timeLimit)
    }

    /** Admissions the ledger holds in the window ending at `now`. */
    ghost function CountInWindow(now: int): int
      reads this
    {
      Count(window, now, timeLimit)
    }

    /** Builds a limiter from settings already accepted by CheckConfig. */
    constructor (cfg: Config)
      requires CheckConfig(cfg.windowSize, cfg.timeLimit).Success?
      ensures Valid()
      ensures windowSize == cfg.windowSize && timeLimit == cfg.timeLimit
      ensures window == map[]
    {
      window := map[];
      windowSize := cfg.windowSize;
      timeLimit := cfg.timeLimit;
    }

    /** Construction with the limiter's argument checks: either a fresh,
        empty limiter with exactly these settings, or the error for the first
        setting out of range. */
    static method Create(windowSize: int, timeLimit: int) returns (r: Result<SlidingWindowRateLimiter, ConfigError>)
      ensures r.Failure? <==> windowSize <= 0 || timeLimit <= 0
      ensures r.Failure? ==> Failure(r.error) == CheckConfig(windowSize, timeLimit)
      ensures r.Success? ==>
                && fresh(r.value) && r.value.Valid() && r.value.window == map[]
                && r.value.windowSize == windowSize && r.value.timeLimit == timeLimit
    {
      var checked := CheckConfig(windowSize, timeLimit);
      if checked.Failure? {
        return Failure(checked.error);
      }
      var limiter := new SlidingWindowRateLimiter(checked.value);
      return Success(limiter);
    }

    /** Sums the counts of the buckets at or after `currentTime - timeLimit`,
        one bucket at a time. */
    method GetWindowSize(currentTime: int) returns (size: int)
      requires Valid()
      ensures size == CountInWindow(currentTime)
      ensures size >= 0
    {
      var tail := AtOrAfter(window, currentTime - timeLimit);
      var rest := tail;
      size := 0;
      while rest.Keys != {}
        invariant forall k :: k in rest ==> k in tail && rest[k] == tail[k]
        invariant size >= 0
        invariant size + Mass(rest) == Mass(tail)
        decreases |rest|
      {
        HasKey(rest);
        var k :| k in rest.Keys;
        MassRemove(rest, k);
        assert (rest - {k}).Keys == rest.Keys - {k};
        size := size + rest[k];
        rest := rest - {k};
      }
      assert rest == map[];
    }

    /** Adds one admission to the bucket at `now`, creating it if absent. */
    method Record(now: int)
      requires Valid()
      modifies this
      ensures Valid()
      ensures window == Bumped(old(window), now)
    {
      window := Bumped(window, now);
    }

    /** One pass of the admission step: test capacity at the first clock
        reading and, when there is room, record at the second. Granted
        exactly when the window at the first reading holds fewer than
        `windowSize` admissions; with the two readings in order, the window
        at the recording instant then holds at most `windowSize`. */
    method TryConsume(checkedAt: int, recordedAt: int) returns (admitted: bool)
      requires Valid()
      modifies this
      ensures Valid()
      ensures admitted == Admits(old(window), checkedAt, Cfg())
      ensures window == Step(old(window), Consume(checkedAt, recordedAt), Cfg())
      ensures admitted && checkedAt <= recordedAt ==> CountInWindow(recordedAt) <= windowSize
      ensures !admitted ==> CountInWindow(checkedAt) >= windowSize
    {
      var size := GetWindowSize(checkedAt);
      admitted := size < windowSize;
      if admitted {
        ghost var before := window;
        Record(recordedAt);
        if checkedAt <= recordedAt {
          CountAntitone(before, checkedAt, recordedAt, timeLimit);
          CountBumped(before, recordedAt, recordedAt, timeLimit);
        }
      }
    }

    /** The periodic sweep at `now`: removes every bucket strictly before
        `now - timeLimit` and keeps every other bucket with its count. */
    method Cleanup(now: int)
      requires Valid()
      modifies this
      ensures Valid()
      ensures window == Step(old(window), Sweep(now), Cfg())
      ensures forall k :: k in window ==> k >= now - timeLimit
      ensures forall k :: k in old(window) && k >= now - timeLimit ==> k in window && window[k] == old(window)[k]
    {
      var stale := set k | k in window && k < now - timeLimit;
      window := window - stale;
      assert window == AtOrAfter(old(window), now - timeLimit);
    }
  }

  /** The end-to-end scenario for a limiter of 3 admissions per 1000 ms with a
      clock held at 0: three admissions are granted and a fourth refused;
      with the clock at 1001 and a sweep run, the waiting admission and one
      more are granted. */
  method ScenarioThreePerSecond() returns (granted: seq<bool>)
    ensures granted == [true, true, true, false, true, true]
  {
    var cfg := Config(3, 1000);
    FillThenRefuseThenRecover(0, 1001, cfg);
    var limiter := new SlidingWindowRateLimiter(cfg);
    assert limiter.window == Filled(0, 0);
    var a := limiter.TryConsume(0, 0);
    assert limiter.window == Filled(0, 1);
    var b := limiter.TryConsume(0, 0);
    assert limiter.window == Filled(0, 2);
    var c := limiter.TryConsume(0, 0);
    assert limiter.window == Filled(0, 3);
    var d := limiter.TryConsume(0, 0);
    limiter.Cleanup(1001);
    assert limiter.window == map[];
    var e := limiter.TryConsume(1001, 1001);
    assert limiter.window == Filled(1001, 1);
    CountFilled(1001, 1, 1000);
    var f := limiter.TryConsume(1001, 1001);
    granted := [a, b, c, d, e, f];
  }
}
