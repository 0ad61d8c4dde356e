/**
 The login rate limiter: a table of per-client windows that is pruned on every call. It is compared with
 a limiter that never forgets a client, over every run whose clock does not go back.
 */
module RateLimiter {
  import opened Base
  import opened Arithmetic

  type Key = string
  /** An instant in nanoseconds. */
  type Instant = nat
  const Second: nat := 1_000_000_000
  datatype Bucket = Bucket(count: nat, start: Instant)
  datatype Request = Request(key: Key, time: Instant)

  /** `now.duration_since(start).as_secs()`: whole seconds, and zero when `start` lies ahead. */
  function Elapsed(start: Instant, now: Instant): nat {
    if start <= now then (now - start) / Second else 0
  }

  /** The run is in order and ends no later than `now`. */
  ghost predicate Ordered(log: seq<Request>, now: Instant) {
    log != [] ==> log[|log| - 1].time <= now && Ordered(log[..|log| - 1], log[|log| - 1].time)
  }

  /** The bucket of a client after one more request, in a limiter that never forgets. */
  function Touched(b: Option<Bucket>, window: nat, now: Instant): Bucket {
    if b.None? || Elapsed(b.value.start, now) >= window then Bucket(1, now) else Bucket(b.value.count + 1, b.value.start)
  }

  /** The bucket of a client after a run. */
  function After(log: seq<Request>, window: nat, key: Key): Option<Bucket> {
    if log == [] then None else
    var before, r := log[..|log| - 1], log[|log| - 1];
    if r.key == key then Some(Touched(After(before, window, key), window, r.time)) else After(before, window, key)
  }

  /** The answer to a request that comes after a run: `None` admits, `Some(s)` asks to wait `s` seconds. */
  function Answer(max: nat, window: nat, log: seq<Request>, r: Request): Option<nat> {
    if max == 0 then None else Verdict(max, window, Touched(After(log, window, r.key), window, r.time), r.time)
  }

  function Verdict(max: nat, window: nat, b: Bucket, now: Instant): Option<nat> {
    if b.count <= max then None else
    var elapsed := Elapsed(b.start, now);
    Some(if elapsed < window then window - elapsed else 1)
  }

  predicate Stale(b: Option<Bucket>, window: nat, now: Instant) {
    b.Some? ==> Elapsed(b.value.start, now) >= window
  }

  /** A client in the table has the bucket it would have anyway; one that is not there would start afresh. */
  predicate Tracks(buckets: map<Key, Bucket>, log: seq<Request>, window: nat, now: Instant, k: Key) {
    if k in buckets then After(log, window, k) == Some(buckets[k]) else Stale(After(log, window, k), window, now)
  }

  function Pruned(buckets: map<Key, Bucket>, window: nat, now: Instant): map<Key, Bucket> {
    map k | k in buckets && Elapsed(buckets[k].start, now) < window * 2 :: buckets[k]
  }

  lemma PruningIsHarmless(buckets: map<Key, Bucket>, log: seq<Request>, window: nat, clock: Instant, now: Instant, k: Key)
    requires clock <= now && Tracks(buckets, log, window, clock, k)
    ensures Tracks(Pruned(buckets, window, now), log, window, now, k)
  {
  }

  lemma AfterOneMore(log: seq<Request>, window: nat, r: Request, k: Key)
    ensures After(log + [r], window, k) ==
            if r.key == k then Some(Touched(After(log, window, k), window, r.time)) else After(log, window, k)
  {
    assert (log + [r])[..|log|] == log;
  }

  lemma OrderedOneMore(log: seq<Request>, clock: Instant, r: Request)
    requires Ordered(log, clock) && clock <= r.time
    ensures Ordered(log + [r], r.time)
  {
    assert (log + [r])[..|log|] == log;
  }

  class SlidingWindowLimiter {
    const max: nat
    const window: nat
    var buckets: map<Key, Bucket>
    ghost var log: seq<Request>
    ghost var clock: Instant

    ghost predicate Valid()
      reads this
    {
      Ordered(log, clock) && (max > 0 ==> forall k :: Tracks(buckets, log, window, clock, k))
    }

    constructor (max: nat, windowSecs: nat)
      ensures Valid() && log == [] && clock == 0 && this.max == max && window == windowSecs
    {
      this.max, window, buckets, log, clock := max, windowSecs, map[], [], 0;
    }

    /** `try_acquire`, with the clock as a parameter. The answer is that of the limiter that never forgets. */
    method TryAcquire(key: Key, now: Instant) returns (retryAfter: Option<nat>)
      requires Valid() && clock <= now
      modifies this
      ensures Valid() && clock == now && log == old(log) + [Request(key, now)]
      ensures retryAfter == Answer(max, window, old(log), Request(key, now))
      // what the table holds is recent
      ensures max > 0 ==> forall k :: k in buckets && k != key ==> Elapsed(buckets[k].start, now) < window * 2
    {
      OrderedOneMore(log, clock, Request(key, now));
      log, clock := log + [Request(key, now)], now;
      if max == 0 {
        return None;
      }
      buckets := Pruned(buckets, window, now);
      ghost var pruned := buckets;
      PruningIsHarmless(old(buckets), old(log), window, old(clock), now, key);
      var bucket := if key in buckets then buckets[key] else Bucket(0, now);
      if Elapsed(bucket.start, now) >= window {
        bucket := Bucket(0, now);
      }
      bucket := bucket.(count := bucket.count + 1);
      assert bucket == Touched(After(old(log), window, key), window, now);
      buckets := buckets[key := bucket];
      if bucket.count > max {
        var elapsed := Elapsed(bucket.start, now);
        var remaining := if elapsed < window then window - elapsed else 0;
        retryAfter := Some(if remaining > 1 then remaining else 1);
      } else {
        retryAfter := None;
      }
      hide Touched, Elapsed, After;
      forall k ensures Tracks(buckets, log, window, clock, k) {
        PruningIsHarmless(old(buckets), old(log), window, old(clock), now, k);
        AfterOneMore(old(log), window, Request(key, now), k);
      }
    }
  }

  /** A rejected client that waits as long as it was told, and sends nothing meanwhile, is admitted. */
  lemma WaitingHelps(max: nat, window: nat, log: seq<Request>, r: Request, others: seq<Request>, later: Instant)
    requires Answer(max, window, log, r).Some?
    requires Ordered(log, r.time)
    requires forall i :: 0 <= i < |others| ==> others[i].key != r.key
    requires later >= r.time + Answer(max, window, log, r).value * Second
    ensures Answer(max, window, log + [r] + others, Request(r.key, later)).None?
  {
    AfterOneMore(log, window, r, r.key);
    OthersDoNotTouch(log + [r], others, window, r.key);
    StartsInThePast(log, window, r.key, r.time);
  }

  lemma {:induction false} OthersDoNotTouch(log: seq<Request>, others: seq<Request>, window: nat, key: Key)
    requires forall i :: 0 <= i < |others| ==> others[i].key != key
    ensures After(log + others, window, key) == After(log, window, key)
  {
    if others == [] {
      assert log + others == log;
    } else {
      var front, last := others[..|others| - 1], others[|others| - 1];
      OthersDoNotTouch(log, front, window, key);
      AfterOneMore(log + front, window, last, key);
      assert log + front + [last] == log + others;
    }
  }

  /** A bucket starts at one of the run's instants. */
  lemma {:induction false} StartsInThePast(log: seq<Request>, window: nat, key: Key, now: Instant)
    requires Ordered(log, now)
    ensures var b := After(log, window, key); b.Some? ==> b.value.start <= now
  {
    if log != [] {
      StartsInThePast(log[..|log| - 1], window, key, log[|log| - 1].time);
    }
  }

  /** How many requests a client has made from an instant on. */
  function Requests(log: seq<Request>, key: Key, since: Instant): nat {
    if log == [] then 0 else
    var r := log[|log| - 1];
    Requests(log[..|log| - 1], key, since) + if r.key == key && since <= r.time then 1 else 0
  }

  lemma {:induction false} CountsItsWindow(log: seq<Request>, window: nat, key: Key, since: Instant, now: Instant)
    requires Ordered(log, now)
    ensures var b := After(log, window, key); b.Some? && since <= b.value.start ==> b.value.count <= Requests(log, key, since)
  {
    if log != [] {
      CountsItsWindow(log[..|log| - 1], window, key, since, log[|log| - 1].time);
      StartsInThePast(log[..|log| - 1], window, key, log[|log| - 1].time);
    }
  }

  /** A client whose requests of the last window are fewer than the quota is admitted. */
  lemma QuotaIsGranted(max: nat, window: nat, log: seq<Request>, r: Request)
    requires Ordered(log, r.time)
    requires Requests(log, r.key, if r.time < window * Second then 0 else r.time - window * Second + 1) < max
    ensures Answer(max, window, log, r).None?
  {
    StartsInThePast(log, window, r.key, r.time);
    CountsItsWindow(log, window, r.key, if r.time < window * Second then 0 else r.time - window * Second + 1, r.time);
  }

  // ---- how many requests get through ----

  predicate Within(t: Instant, span: nat, time: Instant) {
    t <= time <= t + span
  }

  /** How often a client is admitted, over a run, from `t` to `t + span`, both included. */
  function Admissions(max: nat, window: nat, log: seq<Request>, key: Key, t: Instant, span: nat): nat {
    if log == [] then 0 else
    var before, r := log[..|log| - 1], log[|log| - 1];
    Admissions(max, window, before, key, t, span) +
      if r.key == key && Within(t, span, r.time) && Answer(max, window, before, r).None? then 1 else 0
  }

  /**
   The most admissions in `d` nanoseconds before a window begins: a quota for each window that fits, and one less
   than a quota, from a window that began earlier, if there is time left over.
   */
  function Prior(max: nat, w: nat, d: nat): nat
    requires max > 0 && w > 0
  {
    Times(d / w, max) + if d % w == 0 then 0 else max - 1
  }

  /** The most admissions in an interval of this span: those, and the quota of the window that begins at its end. */
  function Most(max: nat, w: nat, span: nat): nat
    requires max > 0 && w > 0
  {
    Prior(max, w, span) + max
  }

  lemma PriorMonotone(max: nat, w: nat, d: nat, d': nat)
    requires max > 0 && w > 0 && d <= d'
    ensures Prior(max, w, d) <= Prior(max, w, d')
  {
    DivMod(d, w);
    DivMod(d', w);
    hide Times;
    OrderOfQuotients(w, d / w, d % w, d' / w, d' % w);
    TimesMono(d / w, d' / w, max);
  }

  lemma OrderOfQuotients(w: nat, q: nat, r: nat, q': nat, r': nat)
    requires r < w && r' < w && Times(q, w) + r <= Times(q', w) + r'
    ensures q <= q' && (q == q' ==> r <= r')
  {
    if q' < q {
      TimesMono(q', q, w);
    }
  }

  lemma PriorStep(max: nat, w: nat, d: nat)
    requires max > 0 && w > 0
    ensures Prior(max, w, d + w) == Prior(max, w, d) + max
    ensures Prior(max, w, 0) == 0 && (d > 0 ==> Prior(max, w, d) >= max - 1)
  {
    DivMod(d, w);
    DivUnique(d + w, w, d / w + 1, d % w);
    if d > 0 && d % w == 0 {
      TimesMono(1, d / w, max);
    }
  }

  /**
   What the bucket says about the admissions from `t` on: those of the present window, without its first one if
   it began before `t`, and the most that can have come before it since `t`.
   */
  predicate Accounted(max: nat, w: nat, span: nat, admissions: nat, b: Option<Bucket>, t: Instant, now: Instant)
    requires max > 0 && w > 0
  {
    match b
    case None => admissions == 0
    case Some(Bucket(count, start)) =>
      && start <= now && count > 0
      && (now < t ==> admissions == 0)
      && (start < t ==> admissions < Min(count, max))
      && (t <= start <= t + span ==> admissions <= Min(count, max) + Prior(max, w, start - t))
      && admissions <= Most(max, w, span)
  }

  /** The last request of a client, or nothing. */
  function LastTime(log: seq<Request>, key: Key): Option<Instant> {
    if log == [] then None else
    var r := log[|log| - 1];
    if r.key == key then Some(r.time) else LastTime(log[..|log| - 1], key)
  }

  lemma {:induction false} AccountedAlways(max: nat, window: nat, span: nat, log: seq<Request>, key: Key, t: Instant, now: Instant)
    requires max > 0 && window > 0 && Ordered(log, now)
    ensures var b, last := After(log, window, key), LastTime(log, key);
            && b.Some? == last.Some?
            && (b.Some? ==> last.value <= now && Elapsed(b.value.start, last.value) < window)
            && Accounted(max, window * Second, span, Admissions(max, window, log, key, t, span), b, t, if last.Some? then last.value else 0)
  {
    hide Accounted, Touched, Elapsed, Verdict;
    if log == [] {
      NothingAccounted(max, window * Second, span, t);
    } else {
      var before, r := log[..|log| - 1], log[|log| - 1];
      AccountedAlways(max, window, span, before, key, t, r.time);
      if r.key == key {
        OneMore(max, window, span, Admissions(max, window, before, key, t, span), After(before, window, key), t,
                if LastTime(before, key).Some? then LastTime(before, key).value else 0, r.time);
      }
    }
  }

  lemma NothingAccounted(max: nat, w: nat, span: nat, t: Instant)
    requires max > 0 && w > 0
    ensures Accounted(max, w, span, 0, None, t, 0)
  {
  }

  lemma OneMore(max: nat, window: nat, span: nat, admissions: nat, b: Option<Bucket>, t: Instant, last: Instant, now: Instant)
    requires max > 0 && window > 0 && last <= now
    requires Accounted(max, window * Second, span, admissions, b, t, last)
    requires b.Some? ==> Elapsed(b.value.start, last) < window
    ensures var b' := Touched(b, window, now);
            && Elapsed(b'.start, now) < window
            && Accounted(max, window * Second, span, admissions + if Within(t, span, now) && Verdict(max, window, b', now).None? then 1 else 0,
                         Some(b'), t, now)
  {
    var w := window * Second;
    if b.Some? {
      ElapsedLess(b.value.start, last, window);
      ElapsedLess(b.value.start, now, window);
    }
    ElapsedLess(now, now, window);
    var begins := b.None? || Elapsed(b.value.start, now) >= window;
    hide Elapsed;
    if begins {
      NewWindow(max, w, span, admissions, b, t, last, now);
    } else {
      SameWindow(max, w, span, admissions, b, t, last, now);
    }
  }

  /** A request that begins a window is admitted. */
  lemma NewWindow(max: nat, w: nat, span: nat, admissions: nat, b: Option<Bucket>, t: Instant, last: Instant, now: Instant)
    requires max > 0 && w > 0 && Accounted(max, w, span, admissions, b, t, last)
    requires b.Some? ==> last < b.value.start + w <= now
    ensures Accounted(max, w, span, admissions + if Within(t, span, now) then 1 else 0, Some(Bucket(1, now)), t, now)
  {
    if t <= now {
      PriorStep(max, w, now - t);
      if now <= t + span {
        PriorMonotone(max, w, now - t, span);
      }
      if b.Some? && t <= b.value.start {
        PriorStep(max, w, b.value.start - t);
        PriorMonotone(max, w, b.value.start - t + w, now - t);
      }
    }
    hide Prior;
  }

  /** One more request in the present window is admitted while the quota lasts. */
  lemma SameWindow(max: nat, w: nat, span: nat, admissions: nat, b: Option<Bucket>, t: Instant, last: Instant, now: Instant)
    requires max > 0 && w > 0 && Accounted(max, w, span, admissions, b, t, last) && last <= now
    requires b.Some? && b.value.start <= now < b.value.start + w
    ensures Accounted(max, w, span, admissions + if Within(t, span, now) && b.value.count + 1 <= max then 1 else 0,
                      Some(Bucket(b.value.count + 1, b.value.start)), t, now)
  {
    var start := b.value.start;
    if t <= start <= t + span {
      PriorMonotone(max, w, start - t, span);
    }
    if start < t {
      PriorStep(max, w, 0);
      PriorMonotone(max, w, 0, span);
    }
    hide Prior;
  }

  lemma ElapsedLess(start: Instant, now: Instant, window: nat)
    requires start <= now
    ensures Elapsed(start, now) < window <==> now < start + window * Second
    ensures window > 0 ==> window * Second > 1
  {
  }

  // ---- runs that get the most ----

  /** A run, and then `n` requests of one client at one instant. */
  function Burst(log: seq<Request>, key: Key, time: Instant, n: nat): seq<Request> {
    if n == 0 then log else Burst(log, key, time, n - 1) + [Request(key, time)]
  }

  lemma {:induction false} BurstIsOrdered(log: seq<Request>, key: Key, time: Instant, n: nat, now: Instant)
    requires Ordered(log, now) && now <= time
    ensures Ordered(Burst(log, key, time, n), if n == 0 then now else time)
  {
    if n > 0 {
      BurstIsOrdered(log, key, time, n - 1, now);
      OrderedOneMore(Burst(log, key, time, n - 1), if n == 1 then now else time, Request(key, time));
    }
  }

  lemma OneMoreAdmission(max: nat, window: nat, log: seq<Request>, r: Request, t: Instant, span: nat)
    ensures Admissions(max, window, log + [r], r.key, t, span) ==
            Admissions(max, window, log, r.key, t, span) + if Within(t, span, r.time) && Answer(max, window, log, r).None? then 1 else 0
  {
    hide Answer;
    assert (log + [r])[..|log|] == log;
  }

  /** As long as the quota lasts, all of a burst is admitted. */
  lemma {:induction false} BurstIsAdmitted(max: nat, window: nat, log: seq<Request>, key: Key, time: Instant, n: nat, t: Instant, span: nat)
    requires max > 0
    requires var b := Touched(After(log, window, key), window, time);
             Elapsed(b.start, time) < window && b.count + n <= max + 1
    ensures var b := Touched(After(log, window, key), window, time);
            && (n > 0 ==> After(Burst(log, key, time, n), window, key) == Some(Bucket(b.count + n - 1, b.start)))
            && (n == 0 ==> Burst(log, key, time, n) == log)
    ensures Admissions(max, window, Burst(log, key, time, n), key, t, span) ==
            Admissions(max, window, log, key, t, span) + if Within(t, span, time) then n else 0
  {
    hide After, Elapsed, Admissions, Within;
    if n > 0 {
      BurstIsAdmitted(max, window, log, key, time, n - 1, t, span);
      var before := Burst(log, key, time, n - 1);
      AfterOneMore(before, window, Request(key, time), key);
      OneMoreAdmission(max, window, before, Request(key, time), t, span);
    }
  }

  lemma Nothing(max: nat, window: nat, key: Key, t: Instant, span: nat)
    ensures Ordered([], 0) && After([], window, key) == None && Admissions(max, window, [], key, t, span) == 0
  {
  }

  lemma TouchedIs(b: Option<Bucket>, window: nat, now: Instant)
    ensures Touched(b, window, now) ==
            if b.None? || Elapsed(b.value.start, now) >= window then Bucket(1, now) else Bucket(b.value.count + 1, b.value.start)
  {
  }

  lemma WithinIs(t: Instant, span: nat, time: Instant)
    ensures Within(t, span, time) <==> t <= time <= t + span
  {
  }

  /** `n` whole quotas, one window apart. */
  function Series(log: seq<Request>, key: Key, max: nat, first: Instant, w: nat, n: nat): seq<Request> {
    if n == 0 then log else Burst(Series(log, key, max, first, w, n - 1), key, first + Times(n - 1, w), max)
  }

  /** A whole quota at once is admitted if the client's window, if there is one, is over. */
  lemma QuotaAtOnce(max: nat, window: nat, log: seq<Request>, key: Key, time: Instant, t: Instant, span: nat)
    requires max > 0 && window > 0 && t <= time <= t + span
    requires After(log, window, key).Some? ==> After(log, window, key).value.start + window * Second <= time
    ensures After(Burst(log, key, time, max), window, key) == Some(Bucket(max, time))
    ensures Admissions(max, window, Burst(log, key, time, max), key, t, span) == Admissions(max, window, log, key, t, span) + max
  {
    hide *;
    var b := After(log, window, key);
    if b.Some? {
      ElapsedLess(b.value.start, time, window);
    }
    ElapsedLess(time, time, window);
    TouchedIs(b, window, time);
    WithinIs(t, span, time);
    BurstIsAdmitted(max, window, log, key, time, max, t, span);
  }

  /** Every request of such a series is admitted. */
  lemma {:induction false} SeriesIsAdmitted(max: nat, window: nat, w: nat, log: seq<Request>, key: Key, first: Instant, n: nat, t: Instant, span: nat)
    requires max > 0 && window > 0 && w == window * Second && t <= first
    requires After(log, window, key).Some? ==> After(log, window, key).value.start + w <= first
    requires n > 0 ==> first + Times(n - 1, w) <= t + span
    ensures var all := Series(log, key, max, first, w, n);
            && Admissions(max, window, all, key, t, span) == Admissions(max, window, log, key, t, span) + Times(n, max)
            && (n > 0 ==> After(all, window, key) == Some(Bucket(max, first + Times(n - 1, w))))
  {
    hide *;
    SeriesUnfolds(log, key, max, first, w, n);
    if n > 0 {
      UnfoldTimes(n - 1, w);
      UnfoldTimes(n, max);
      SeriesIsAdmitted(max, window, w, log, key, first, n - 1, t, span);
      SeriesUnfolds(log, key, max, first, w, n - 1);
      QuotaAtOnce(max, window, Series(log, key, max, first, w, n - 1), key, first + Times(n - 1, w), t, span);
    }
  }

  lemma {:induction false} SeriesIsOrdered(max: nat, w: nat, log: seq<Request>, key: Key, first: Instant, n: nat, now: Instant)
    requires max > 0 && Ordered(log, now) && now <= first
    ensures Ordered(Series(log, key, max, first, w, n), if n == 0 then now else first + Times(n - 1, w))
  {
    hide *;
    SeriesUnfolds(log, key, max, first, w, n);
    if n > 0 {
      UnfoldTimes(n - 1, w);
      SeriesIsOrdered(max, w, log, key, first, n - 1, now);
      BurstIsOrdered(Series(log, key, max, first, w, n - 1), key, first + Times(n - 1, w), max,
                     if n == 1 then now else first + Times(n - 2, w));
    }
  }

  lemma SeriesUnfolds(log: seq<Request>, key: Key, max: nat, first: Instant, w: nat, n: nat)
    ensures Series(log, key, max, first, w, 0) == log && Times(0, max) == 0
    ensures n > 0 ==> Series(log, key, max, first, w, n) == Burst(Series(log, key, max, first, w, n - 1), key, first + Times(n - 1, w), max)
  {
  }

  lemma UnfoldTimes(n: nat, x: nat)
    ensures Times(n, x) == if n == 0 then 0 else x + Times(n - 1, x)
  {
  }

  lemma MostIs(max: nat, w: nat, span: nat) returns (q: nat)
    requires max > 0 && w > 0
    ensures q == span / w && span == Times(q, w) + span % w
    ensures Most(max, w, span) == Times(q + 1, max) + if span % w == 0 then 0 else max - 1
  {
    q := span / w;
    DivMod(span, w);
    UnfoldTimes(q + 1, max);
  }

  /** One request, and the rest of its quota just before its window ends. */
  function LateStart(key: Key, max: nat, w: nat): seq<Request>
    requires max > 0 && w > 0
  {
    Burst(Burst([], key, 0, 1), key, w - 1, max - 1)
  }

  lemma LateStartIsAdmitted(max: nat, window: nat, w: nat, key: Key, span: nat)
    requires max > 0 && window > 0 && w == window * Second && w > 1
    ensures var log := LateStart(key, max, w);
            && Ordered(log, w - 1)
            && After(log, window, key) == Some(Bucket(max, 0))
            && Admissions(max, window, log, key, w - 1, span) == max - 1
  {
    hide *;
    LateStartIs(key, max, w);
    FirstOfTwo(max, window, w, key, span);
    RestOfTwo(max, window, w, key, span);
  }

  lemma LateStartIs(key: Key, max: nat, w: nat)
    requires max > 0 && w > 0
    ensures LateStart(key, max, w) == Burst(Burst([], key, 0, 1), key, w - 1, max - 1)
  {
  }

  lemma FirstOfTwo(max: nat, window: nat, w: nat, key: Key, span: nat)
    requires max > 0 && window > 0 && w == window * Second && w > 1
    ensures var one := Burst([], key, 0, 1);
            && Ordered(one, 0) && After(one, window, key) == Some(Bucket(1, 0))
            && Admissions(max, window, one, key, w - 1, span) == 0
  {
    hide *;
    Nothing(max, window, key, w - 1, span);
    ElapsedLess(0, 0, window);
    TouchedIs(None, window, 0);
    WithinIs(w - 1, span, 0);
    BurstIsOrdered([], key, 0, 1, 0);
    BurstIsAdmitted(max, window, [], key, 0, 1, w - 1, span);
  }

  lemma RestOfTwo(max: nat, window: nat, w: nat, key: Key, span: nat)
    requires max > 0 && window > 0 && w == window * Second && w > 1
    requires var one := Burst([], key, 0, 1);
             && Ordered(one, 0) && After(one, window, key) == Some(Bucket(1, 0))
             && Admissions(max, window, one, key, w - 1, span) == 0
    ensures var two := Burst(Burst([], key, 0, 1), key, w - 1, max - 1);
            && Ordered(two, w - 1) && After(two, window, key) == Some(Bucket(max, 0))
            && Admissions(max, window, two, key, w - 1, span) == max - 1
  {
    hide *;
    var one := Burst([], key, 0, 1);
    ElapsedLess(0, w - 1, window);
    TouchedIs(Some(Bucket(1, 0)), window, w - 1);
    WithinIs(w - 1, span, w - 1);
    BurstIsOrdered(one, key, w - 1, max - 1, 0);
    OrderedLater(one, 0, w - 1);
    BurstIsAdmitted(max, window, one, key, w - 1, max - 1, w - 1, span);
  }

  lemma OrderedLater(log: seq<Request>, now: Instant, later: Instant)
    requires Ordered(log, now) && now <= later
    ensures Ordered(log, later)
  {
  }

  /** One request starts a window; the rest of its quota comes just before the window ends, and then a series of whole quotas. */
  lemma LateSeries(max: nat, window: nat, key: Key, span: nat) returns (log: seq<Request>, end: Instant)
    requires max > 0 && window > 0 && span % (window * Second) > 0
    ensures Ordered(log, end)
    ensures Admissions(max, window, log, key, window * Second - 1, span) == Most(max, window * Second, span)
  {
    hide *;
    ElapsedLess(0, 0, window);
    var w := window * Second;
    var q := MostIs(max, w, span);
    UnfoldTimes(q + 1, w);
    LateStartIsAdmitted(max, window, w, key, span);
    var start := LateStart(key, max, w);
    SeriesIsOrdered(max, w, start, key, w, q + 1, w - 1);
    SeriesIsAdmitted(max, window, w, start, key, w, q + 1, w - 1, span);
    log, end := Series(start, key, max, w, w, q + 1), w + Times(q, w);
  }

  /** A series of whole quotas from the beginning of the interval to its end. */
  lemma FullSeries(max: nat, window: nat, key: Key, span: nat) returns (log: seq<Request>, end: Instant)
    requires max > 0 && window > 0 && span % (window * Second) == 0
    ensures Ordered(log, end)
    ensures Admissions(max, window, log, key, 0, span) == Most(max, window * Second, span)
  {
    hide *;
    ElapsedLess(0, 0, window);
    var w := window * Second;
    var q := MostIs(max, w, span);
    Nothing(max, window, key, 0, span);
    SeriesIsOrdered(max, w, [], key, 0, q + 1, 0);
    SeriesIsAdmitted(max, window, w, [], key, 0, q + 1, 0, span);
    log, end := Series([], key, max, 0, w, q + 1), Times(q, w);
  }

  lemma ZeroWindowAdmits(max: nat, log: seq<Request>, r: Request)
    requires max > 0
    ensures Answer(max, 0, log, r).None?
  {
    hide After;
  }

  /** Without a window there is no limit. */
  lemma {:induction false} NoWindowNoLimit(max: nat, key: Key, n: nat)
    requires max > 0
    ensures Ordered(Burst([], key, 0, n), 0) && Admissions(max, 0, Burst([], key, 0, n), key, 0, 0) == n
  {
    hide Answer, Admissions, Ordered;
    Nothing(max, 0, key, 0, 0);
    if n > 0 {
      NoWindowNoLimit(max, key, n - 1);
      ZeroWindowAdmits(max, Burst([], key, 0, n - 1), Request(key, 0));
      OneMoreAdmission(max, 0, Burst([], key, 0, n - 1), Request(key, 0), 0, 0);
      OrderedOneMore(Burst([], key, 0, n - 1), 0, Request(key, 0));
    }
  }

  // ---- which limits hold ----

  /** No client gets more than `quota` in any interval of this span, over all runs. */
  ghost predicate LimitHolds(max: nat, window: nat, span: nat, quota: nat) {
    forall log: seq<Request>, key: Key, t: Instant, now: Instant ::
      Ordered(log, now) ==> Admissions(max, window, log, key, t, span) <= quota
  }

  lemma Exceeded(max: nat, window: nat, span: nat, quota: nat, log: seq<Request>, key: Key, t: Instant, now: Instant)
    requires Ordered(log, now) && Admissions(max, window, log, key, t, span) > quota
    ensures !LimitHolds(max, window, span, quota)
  {
  }

  lemma AtMost(max: nat, window: nat, span: nat)
    requires max > 0 && window > 0
    ensures LimitHolds(max, window, span, Most(max, window * Second, span))
  {
    hide Most;
    forall log: seq<Request>, key: Key, t: Instant, now: Instant | Ordered(log, now)
      ensures Admissions(max, window, log, key, t, span) <= Most(max, window * Second, span)
    {
      AccountedAlways(max, window, span, log, key, t, now);
    }
  }

  /** Which limits hold in intervals of a given length, over all runs: exactly those from `Most` on. */
  lemma LimitHoldsIff(max: nat, window: nat, span: nat, quota: nat)
    requires max > 0 && window > 0
    ensures LimitHolds(max, window, span, quota) <==> Most(max, window * Second, span) <= quota
  {
    AtMost(max, window, span);
    hide LimitHolds, Most;
    if Most(max, window * Second, span) <= quota {
      Relaxed(max, window, span, Most(max, window * Second, span), quota);
    } else if span % (window * Second) > 0 {
      var log, end := LateSeries(max, window, "", span);
      Exceeded(max, window, span, quota, log, "", window * Second - 1, end);
    } else {
      var log, end := FullSeries(max, window, "", span);
      Exceeded(max, window, span, quota, log, "", 0, end);
    }
  }

  lemma Relaxed(max: nat, window: nat, span: nat, quota: nat, more: nat)
    requires LimitHolds(max, window, span, quota) && quota <= more
    ensures LimitHolds(max, window, span, more)
  {
  }

  /** At one instant it is the quota, just short of a window twice the quota less one, and in a closed window twice the quota. */
  lemma MostInAWindow(max: nat, window: nat)
    requires max > 0 && window > 0
    ensures Most(max, window * Second, 0) == max
    ensures Most(max, window * Second, window * Second - 1) == 2 * max - 1
    ensures Most(max, window * Second, window * Second) == 2 * max
  {
    var w := window * Second;
    assert w > 1;
    UnfoldTimes(1, w);
    UnfoldTimes(0, w);
    UnfoldTimes(1, max);
    UnfoldTimes(0, max);
    DivUnique(0, w, 0, 0);
    DivUnique(w - 1, w, 0, w - 1);
    DivUnique(w, w, 1, 0);
  }

  /** The promise of a sliding window, at most the quota in any window that includes one of its two bounds, holds iff the quota is one. */
  lemma SlidingWindowIff(max: nat, window: nat)
    requires max > 0 && window > 0
    ensures LimitHolds(max, window, window * Second - 1, max) <==> max == 1
  {
    LimitHoldsIff(max, window, window * Second - 1, max);
    MostInAWindow(max, window);
    hide LimitHolds, Most;
  }

  /** With no window every limit is broken. */
  lemma NoWindowNoLimitHolds(max: nat, quota: nat)
    requires max > 0
    ensures !LimitHolds(max, 0, 0, quota)
  {
    NoWindowNoLimit(max, "", quota + 1);
    Exceeded(max, 0, 0, quota, Burst([], "", 0, quota + 1), "", 0, 0);
  }
}
