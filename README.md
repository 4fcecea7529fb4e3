# Sliding-window rate limiter of the CRPT client, in Dafny

The CRPT client (`CrptApi`) sends each document-creation request only after
`SlidingWindowRateLimiter` admits it. The limiter allows at most `windowSize`
admissions in any trailing window of `timeLimit` milliseconds. It keeps a
ledger, an ordered map from a millisecond timestamp to the number of
admissions granted at that instant. From it, the limiter:

- counts the admissions in the window that ends at the current time
  (`getWindowSize`);
- admits a request when that count is below `windowSize`, recording it in
  the bucket of the current time (`consume`);
- drops, every 100 ms, the buckets older than the window (`cleanup`).

The project has three modules:

- `Ledger` (`ledger.dfy`) is the ledger as a value of type `map<int, int>`.
  `AtOrAfter` is the map's inclusive tail view. `Bumped` records one
  admission. `Mass` is the sum of the counts and `Count` is the in-window
  count. The lemmas cover summation, recording, the inclusive boundary and
  how the window slides.
- `RateLimiter` (`limiter.dfy`) holds:
  - the constructor checks (`CheckConfig`);
  - the class `SlidingWindowRateLimiter`, which owns the ledger as a `map`
    field that its methods reassign in place;
  - `GetWindowSize`, a loop that adds the in-window buckets one at a time;
  - a history model. Each critical section of the limiter is an `Event`
    (an admission attempt with its two clock readings, or a sweep). `Step`
    and `Replay` apply events to a ledger. The class methods are specified
    by `Step`, and the safety theorem `WindowBound` is proved over any
    `Replay` whose clock never runs backwards.
- `Crpt` (`crpt_api.dfy`) is the facade. It checks the request limit, turns
  one `TimeUnit` into milliseconds, and gates `createDocument` through the
  limiter.

The clock is an explicit parameter. `consume` reads the clock twice: once
for the capacity test (CrptApi.java line 131) and once for the record (line
138). `TryConsume(checkedAt, recordedAt)` keeps both readings.

`Count` follows `tailMap`, which has no upper bound: it counts every bucket
at or after `now - timeLimit`, including buckets after `now`. A closed window
`[now - timeLimit, now]` would leave those out. Buckets after `now` exist
only when the clock has gone backwards.

The limiter reads `Clock.systemDefaultZone()` (line 116), a wall clock that
may step back, even between the two readings of one `consume`. The window
bound holds only while the readings never decrease. `WindowBound` is proved
under that condition. `BackwardClockBreaksBound` shows an admission that
breaks the bound when the clock steps back between test and record.

A request limit per nanosecond or per microsecond is refused, because one
such unit is 0 whole milliseconds (`TimeUnit.toMillis(1)`). The limiter's
constructor then rejects the zero time limit with its own error, which the
facade passes on.
`Crpt.ApiConfig` states this outcome.

## Model

| member | source | states |
|---|---|---|
| `RateLimiter.CheckConfig` | src/main/java/org/example/crpt/CrptApi.java:104-111 | construction succeeds iff `windowSize > 0` and `timeLimit > 0`, and then keeps both values; a non-positive window size is reported first, and the time-limit error only when the window size is valid |
| `RateLimiter.SlidingWindowRateLimiter.Create` | src/main/java/org/example/crpt/CrptApi.java:104-119 | fails iff a setting is out of range, with the error of `CheckConfig`; otherwise returns a fresh limiter with an empty ledger and exactly the given settings |
| `RateLimiter.SlidingWindowRateLimiter.constructor` | src/main/java/org/example/crpt/CrptApi.java:113-115 | a new limiter holds an empty ledger and the given settings, and is valid |
| `RateLimiter.SlidingWindowRateLimiter.GetWindowSize` | src/main/java/org/example/crpt/CrptApi.java:149-155 | the loop returns exactly the sum of the counts of the buckets at or after `currentTime - timeLimit`, and the sum is non-negative |
| `RateLimiter.SlidingWindowRateLimiter.Record` | src/main/java/org/example/crpt/CrptApi.java:138 | the bucket at `now` becomes 1 when absent, otherwise grows by one; every other bucket is unchanged; all counts stay positive |
| `RateLimiter.SlidingWindowRateLimiter.TryConsume` | src/main/java/org/example/crpt/CrptApi.java:130-139 | admits iff the window at the check reading holds fewer than `windowSize`; the ledger then changes only by a record at the second reading; after an admission with readings in order, the window at the record instant holds at most `windowSize`; a refusal means the window was full |
| `RateLimiter.SlidingWindowRateLimiter.Cleanup` | src/main/java/org/example/crpt/CrptApi.java:144-147 | after the sweep no bucket before `now - timeLimit` remains, and every bucket at or after it keeps its count |
| `Ledger.AtOrAfter` | src/main/java/org/example/crpt/CrptApi.java:151 | the tail view holds exactly the buckets whose key is `>= lo`, the bound included, with unchanged counts |
| `Ledger.Bumped` | src/main/java/org/example/crpt/CrptApi.java:138 | recording adds key `t` to the keys; its count is 1 if it was absent and one more otherwise; other buckets keep their counts |
| `Ledger.MassRemove` | src/main/java/org/example/crpt/CrptApi.java:151-153 | the sum over the buckets is the same whichever bucket is taken first, so the visiting order of the loop does not matter |
| `Ledger.MassNonNegative` | src/main/java/org/example/crpt/CrptApi.java:150-154 | with non-negative counts, the sum is non-negative and at least the count of each single bucket |
| `Ledger.MassSubmap` | src/main/java/org/example/crpt/CrptApi.java:151-153 | summing a subset of the buckets gives no more than summing all of them |
| `Ledger.MassBumped` | src/main/java/org/example/crpt/CrptApi.java:138 | one record adds exactly one to the sum of the ledger |
| `Ledger.CountBumped` | src/main/java/org/example/crpt/CrptApi.java:138 | a record at `t` adds one to the window ending at `now` iff `t >= now - timeLimit`, and otherwise leaves that count unchanged |
| `Ledger.BoundaryCounted` | src/main/java/org/example/crpt/CrptApi.java:151 | the in-window count is the count strictly inside the window plus the bucket at exactly `now - timeLimit`, which is counted |
| `Ledger.CountAntitone` | src/main/java/org/example/crpt/CrptApi.java:149-155 | for the same ledger, the window ending at a later instant never holds more than the window ending at an earlier one |
| `Ledger.TrimThenView` | src/main/java/org/example/crpt/CrptApi.java:145 | trimming at `cut` and then taking the view from a bound no lower than `cut` gives the same view as the untrimmed ledger |
| `RateLimiter.StepChangesWholeBuckets` | src/main/java/org/example/crpt/CrptApi.java:138-145 | no bucket shrinks; a bucket disappears only in a sweep, and only if it lies before the sweep's window; a new bucket appears only through an admission, at its record instant, holding 1; all counts stay `>= 1` |
| `RateLimiter.ConsumeKeepsBound` | src/main/java/org/example/crpt/CrptApi.java:131-138 | if the clock does not run backwards, an admission attempt keeps every bucket in `1..windowSize` and keeps the window at its record instant within `windowSize` |
| `RateLimiter.CleanupKeepsBound` | src/main/java/org/example/crpt/CrptApi.java:145 | if the clock does not run backwards, a sweep keeps the ledger bounded at its own reading |
| `RateLimiter.StepKeepsBound` | src/main/java/org/example/crpt/CrptApi.java:129-147 | any single critical section whose clock does not run backwards keeps the ledger bounded |
| `RateLimiter.WindowBound` | src/main/java/org/example/crpt/CrptApi.java:129-147 | over any history of admissions and sweeps with a clock that never runs backwards, the ledger stays bounded; the window ending at any instant from the last reading on holds at most `windowSize` |
| `RateLimiter.FreshLimiterBounded` | src/main/java/org/example/crpt/CrptApi.java:113-147 | for a limiter built with valid settings, the window bound holds after any history with a clock that never runs backwards |
| `RateLimiter.BackwardClockBreaksBound` | src/main/java/org/example/crpt/CrptApi.java:131-138 | with one admission at 0, window size 1 and a 10 ms window, a capacity test at 20 admits, the record lands at 5, and the window ending at 5 then holds 2, above the window size |
| `RateLimiter.CleanupInvisible` | src/main/java/org/example/crpt/CrptApi.java:145 | a sweep at `now` leaves the in-window count at `now`, and at every later instant, unchanged; a second sweep at the same `now` changes nothing |
| `RateLimiter.CountFilled` | src/main/java/org/example/crpt/CrptApi.java:149-155 | a ledger with `n` admissions all at `t` has exactly `n` in the window ending at `t` |
| `RateLimiter.FillThenRefuseThenRecover` | src/main/java/org/example/crpt/CrptApi.java:131-145 | starting empty, `windowSize` admissions at one instant `t` are all granted and the next is refused; after a sweep past `t + timeLimit` the ledger is empty and an admission is granted again |
| `RateLimiter.ScenarioThreePerSecond` | src/main/java/org/example/crpt/CrptApi.java:130-147 | with 3 per 1000 ms and the clock at 0, the first three attempts are granted and the fourth refused; at 1001, after a sweep, the next two are granted |
| `Crpt.OneUnitInMillis` | src/main/java/org/example/crpt/CrptApi.java:31 | one unit in whole milliseconds: 0 exactly for nanoseconds and microseconds, 1000 for a second, 86 400 000 for a day |
| `Crpt.ApiConfig` | src/main/java/org/example/crpt/CrptApi.java:27-31 | the facade accepts iff `requestsLimit > 0` and the unit is at least a millisecond; a non-positive limit is reported as such first; a sub-millisecond unit fails with the limiter's zero-time-limit error; on success the settings are exactly the request limit and one unit in milliseconds (`timeUnit.toMillis(1)`), so at least 1 ms |
| `Crpt.CrptApi.Create` | src/main/java/org/example/crpt/CrptApi.java:27-33 | fails with exactly the error of `ApiConfig`; otherwise builds a fresh facade over a fresh, empty limiter whose settings are those of `ApiConfig` |
| `Crpt.CrptApi.constructor` | src/main/java/org/example/crpt/CrptApi.java:22-25 | the facade wraps the given valid limiter |
| `Crpt.CrptApi.CreateDocument` | src/main/java/org/example/crpt/CrptApi.java:35-38 | a request is handed to the transport iff the limiter admits it, and the limiter's ledger changes exactly as in one admission attempt |

## Left out

- `RateLimiter.SlidingWindowRateLimiter.TryConsume`: this is one non-blocking pass of `consume`. `consume` waits on the monitor and re-checks until there is room, so it never returns a refusal. The model returns `false` where `consume` would wait. The wait/notify protocol, `synchronized` and the swallowed interrupt are concurrency. Any interleaving of lock-protected sections is a sequence of `Event`s. `WindowBound` covers every such sequence whose clock readings never decrease; other sequences are outside the bound (see `BackwardClockBreaksBound`).
- `Crpt.CrptApi.CreateDocument`: for the same reason, `sent == false` stands for a call that would block. The HTTP `post` itself is not modelled.
- The `JDK17CrptHttpClient` transport, the `CrptHttpClient` interface, `CreateDocumentRequest` and the Jackson serialisation (CrptApi.java lines 42-81) are foreign library calls and network I/O. They are not part of this model.
- `java.time.Clock` and the clock-injecting constructor (lines 92, 116, 121-124) are left out. Every clock reading is a parameter.
- The `ScheduledExecutorService` that runs `cleanup` every 100 ms (lines 98, 117-118) is a background thread. A sweep is an explicit `Cleanup(now)` call. The model has no bound on how long a stale bucket may stay.
- Java integer widths are not modelled. Timestamps and the time limit are `long`; the window size, counts and the running sum are `int`. The model uses unbounded integers. `WindowBound` shows that, under a clock that never runs backwards, every bucket and every later in-window sum is at most `windowSize`, which fits in an `int`. A clock that runs backwards is modelled (`TryConsume` and `Step` accept any readings), but then the window bound itself can fail (`BackwardClockBreaksBound`), so the `int` sum and bucket counts are no longer bounded by `windowSize` and could in principle wrap; the wrap itself is not modelled.
- `getWindowSize` visits buckets in ascending key order. The model's loop picks them in any order. `MassRemove` shows that the sum does not depend on the order.
- Document.java and Product.java are plain data records with JSON naming and no behaviour. They are not part of this model.
