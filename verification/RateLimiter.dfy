// The per-client rate limiter: fixed windows that open at a key's first
// request, kept in a map that is swept lazily.
module RateLimiter {
  import opened Wrappers
  import Float64

  // Nanoseconds; 0 is Go's zero time, which no clock reading equals.
  type Time = int

  const ZERO_TIME: Time := 0

  datatype Bucket = Bucket(count: int, resetAt: Time, updatedAt: Time)

  const ZERO_BUCKET := Bucket(0, ZERO_TIME, ZERO_TIME)

  datatype State = State(buckets: map<string, Bucket>, lastSweep: Time)

  datatype Config = Config(limit: int, window: int) {
    predicate Enabled() {
      limit > 0 && window > 0
    }
  }

  // ---- One call ----

  function Swept(c: Config, buckets: map<string, Bucket>, now: Time): map<string, Bucket> {
    map k | k in buckets && now - buckets[k].updatedAt < c.window :: buckets[k]
  }

  function SweepIfDue(c: Config, st: State, now: Time): State {
    if st.lastSweep == ZERO_TIME || now - st.lastSweep >= c.window then
      State(Swept(c, st.buckets, now), now)
    else
      st
  }

  function Touched(c: Config, bucket: Bucket, now: Time): (Bucket, bool) {
    if bucket.resetAt == ZERO_TIME || now >= bucket.resetAt then
      (Bucket(1, now + c.window, now), true)
    else if bucket.count >= c.limit then
      (bucket.(updatedAt := now), false)
    else
      (bucket.(count := bucket.count + 1, updatedAt := now), true)
  }

  function BucketOf(st: State, key: string): Bucket {
    if key in st.buckets then st.buckets[key] else ZERO_BUCKET
  }

  function Allowed(c: Config, st: State, key: string, now: Time): (State, bool) {
    if !c.Enabled() then
      (st, true)
    else
      var swept := SweepIfDue(c, st, now);
      var (bucket, admitted) := Touched(c, BucketOf(swept, key), now);
      (swept.(buckets := swept.buckets[key := bucket]), admitted)
  }

  class RateLimiter {
    const limit: int
    const window: int
    var buckets: map<string, Bucket>
    var lastSweep: Time

    constructor (limit: int, window: int)
      ensures Settings() == Config(limit, window) && Contents() == INITIAL
    {
      this.limit := limit;
      this.window := window;
      buckets := map[];
      lastSweep := ZERO_TIME;
    }

    function Settings(): Config {
      Config(limit, window)
    }

    function Contents(): State
      reads this
    {
      State(buckets, lastSweep)
    }

    method Allow(key: string, now: Time) returns (admitted: bool)
      modifies this
      ensures (Contents(), admitted) == Allowed(Settings(), old(Contents()), key, now)
    {
      if limit <= 0 || window <= 0 {
        return true;
      }
      if lastSweep == ZERO_TIME || now - lastSweep >= window {
        Sweep(now);
        lastSweep := now;
      }
      var bucket := if key in buckets then buckets[key] else ZERO_BUCKET;
      if bucket.resetAt == ZERO_TIME || !(now < bucket.resetAt) {
        buckets := buckets[key := Bucket(1, now + window, now)];
        return true;
      }
      if bucket.count >= limit {
        bucket := bucket.(updatedAt := now);
        buckets := buckets[key := bucket];
        return false;
      }
      bucket := bucket.(count := bucket.count + 1);
      bucket := bucket.(updatedAt := now);
      buckets := buckets[key := bucket];
      return true;
    }

    // The deleting loop of a sweep, over the map's keys in any order.
    method Sweep(now: Time)
      modifies this`buckets
      ensures buckets == Swept(Settings(), old(buckets), now)
    {
      var unvisited := buckets.Keys;
      while unvisited != {}
        invariant unvisited <= buckets.Keys
        invariant buckets == map k | k in old(buckets) &&
                                     (k in unvisited || now - old(buckets)[k].updatedAt < window) :: old(buckets)[k]
        decreases |unvisited|
      {
        var bucketKey :| bucketKey in unvisited;
        if now - buckets[bucketKey].updatedAt >= window {
          buckets := buckets - {bucketKey};
        }
        unvisited := unvisited - {bucketKey};
      }
    }
  }

  // ---- Runs ----

  datatype Call = Call(key: string, now: Time)

  const INITIAL := State(map[], ZERO_TIME)

  function After(c: Config, calls: seq<Call>): State {
    if |calls| == 0 then INITIAL
    else
      var last := calls[|calls| - 1];
      Allowed(c, After(c, calls[..|calls| - 1]), last.key, last.now).0
  }

  // The answer to the i-th call of a run.
  function Answer(c: Config, calls: seq<Call>, i: nat): bool
    requires i < |calls|
  {
    Allowed(c, After(c, calls[..i]), calls[i].key, calls[i].now).1
  }

  // A clock that never goes back and is past the zero time.
  predicate Clocked(calls: seq<Call>) {
    forall i | 0 <= i < |calls| :: calls[i].now > ZERO_TIME && (i > 0 ==> calls[i - 1].now <= calls[i].now)
  }

  function LastTime(calls: seq<Call>): Time {
    if |calls| == 0 then ZERO_TIME else calls[|calls| - 1].now
  }

  // ---- The reference: one key, its own request times, nothing ever deleted ----

  datatype Window = Window(count: int, resetAt: Time)

  function RefStep(c: Config, w: Option<Window>, now: Time): (Window, bool) {
    if w.None? || now >= w.value.resetAt then
      (Window(1, now + c.window), true)
    else if w.value.count >= c.limit then
      (w.value, false)
    else
      (w.value.(count := w.value.count + 1), true)
  }

  function RefAfter(c: Config, times: seq<Time>): Option<Window> {
    if |times| == 0 then None
    else Some(RefStep(c, RefAfter(c, times[..|times| - 1]), times[|times| - 1]).0)
  }

  function RefAnswer(c: Config, times: seq<Time>, i: nat): bool
    requires i < |times|
  {
    !c.Enabled() || RefStep(c, RefAfter(c, times[..i]), times[i]).1
  }

  function TimesOf(calls: seq<Call>, key: string): seq<Time> {
    if |calls| == 0 then []
    else
      var last := calls[|calls| - 1];
      TimesOf(calls[..|calls| - 1], key) + (if last.key == key then [last.now] else [])
  }

  // ---- Invariant of every run ----

  // The last two conjuncts are what a sweep needs: a bucket it may delete is past
  // its reset time, and every survivor was touched within a window of the sweep.
  ghost predicate Inv(c: Config, st: State, now: Time) {
    (forall k | k in st.buckets ::
       var b := st.buckets[k];
       b.count >= 1 && b.resetAt > ZERO_TIME && b.updatedAt <= now
       && b.updatedAt >= b.resetAt - c.window
       && b.updatedAt > st.lastSweep - c.window)
    && (st.lastSweep == ZERO_TIME ==> st.buckets == map[])
    && (st.lastSweep != ZERO_TIME ==> st.lastSweep <= now && now - st.lastSweep < c.window)
  }

  lemma InvStep(c: Config, st: State, key: string, before: Time, now: Time)
    requires c.Enabled() && Inv(c, st, before) && before <= now && now > ZERO_TIME
    ensures Inv(c, Allowed(c, st, key, now).0, now)
  {
  }

  lemma {:induction false} InvHolds(c: Config, calls: seq<Call>)
    requires c.Enabled() && Clocked(calls)
    ensures Inv(c, After(c, calls), LastTime(calls))
  {
    if |calls| > 0 {
      var n := |calls| - 1;
      InvHolds(c, calls[..n]);
      InvStep(c, After(c, calls[..n]), calls[n].key, LastTime(calls[..n]), calls[n].now);
    }
  }

  // ---- The limiter refines the reference ----

  // A stored bucket is the reference window; a missing one is a window already over.
  predicate Matches(st: State, key: string, w: Option<Window>, now: Time) {
    if key in st.buckets then
      w == Some(Window(st.buckets[key].count, st.buckets[key].resetAt))
    else
      w.None? || w.value.resetAt <= now
  }

  lemma SweepMatches(c: Config, st: State, key: string, w: Option<Window>, before: Time, now: Time)
    requires c.Enabled() && Inv(c, st, before) && before <= now
    requires Matches(st, key, w, before)
    ensures Matches(SweepIfDue(c, st, now), key, w, now)
  {
  }

  // One call keeps the correspondence for its own key and for every other.
  lemma AllowedMatches(c: Config, st: State, key: string, w: Option<Window>, before: Time, call: Call)
    requires c.Enabled() && Inv(c, st, before) && before <= call.now && call.now > ZERO_TIME
    requires Matches(st, key, w, before)
    ensures Matches(Allowed(c, st, call.key, call.now).0, key,
                    if call.key == key then Some(RefStep(c, w, call.now).0) else w, call.now)
    ensures call.key == key ==> Allowed(c, st, key, call.now).1 == RefStep(c, w, call.now).1
  {
    SweepMatches(c, st, key, w, before, call.now);
  }

  lemma {:induction false} MatchesHolds(c: Config, calls: seq<Call>, key: string)
    requires c.Enabled() && Clocked(calls)
    ensures Matches(After(c, calls), key, RefAfter(c, TimesOf(calls, key)), LastTime(calls))
  {
    if |calls| > 0 {
      var n := |calls| - 1;
      var prev := calls[..n];
      MatchesHolds(c, prev, key);
      InvHolds(c, prev);
      AllowedMatches(c, After(c, prev), key, RefAfter(c, TimesOf(prev, key)), LastTime(prev), calls[n]);
      var times := TimesOf(calls, key);
      if calls[n].key == key {
        assert times[..|times| - 1] == TimesOf(prev, key);
      } else {
        assert times == TimesOf(prev, key);
      }
    }
  }

  // Every call is answered as the reference answers from that key's own times:
  // sweeps and other keys' traffic never change an answer.
  lemma AnswersLikeReference(c: Config, calls: seq<Call>, i: nat)
    requires Clocked(calls) && i < |calls|
    ensures var times := TimesOf(calls[..i + 1], calls[i].key);
            |times| > 0 && Answer(c, calls, i) == RefAnswer(c, times, |times| - 1)
  {
    var key, prev := calls[i].key, calls[..i];
    var times := TimesOf(calls[..i + 1], key);
    assert calls[..i + 1][..i] == prev;
    assert times[..|times| - 1] == TimesOf(prev, key);
    if c.Enabled() {
      MatchesHolds(c, prev, key);
      InvHolds(c, prev);
      AllowedMatches(c, After(c, prev), key, RefAfter(c, TimesOf(prev, key)), LastTime(prev), calls[i]);
    }
  }

  // ---- How much a client gets through ----

  // Admitted calls of a key with lo <= time < hi.
  function Admitted(c: Config, calls: seq<Call>, key: string, lo: Time, hi: Time): nat {
    if |calls| == 0 then 0
    else
      var n := |calls| - 1;
      Admitted(c, calls[..n], key, lo, hi)
      + (if calls[n].key == key && lo <= calls[n].now < hi && Answer(c, calls, n) then 1 else 0)
  }

  function RefAdmitted(c: Config, times: seq<Time>, lo: Time, hi: Time): nat {
    if |times| == 0 then 0
    else
      var n := |times| - 1;
      RefAdmitted(c, times[..n], lo, hi) + (if lo <= times[n] < hi && RefAnswer(c, times, n) then 1 else 0)
  }

  lemma RefAdmittedSnoc(c: Config, times: seq<Time>, t: Time, lo: Time, hi: Time)
    ensures RefAdmitted(c, times + [t], lo, hi)
         == RefAdmitted(c, times, lo, hi) + (if lo <= t < hi && RefAnswer(c, times + [t], |times|) then 1 else 0)
  {
    assert (times + [t])[..|times|] == times;
  }

  lemma {:induction false} AdmittedIsRefAdmitted(c: Config, calls: seq<Call>, key: string, lo: Time, hi: Time)
    requires Clocked(calls)
    ensures Admitted(c, calls, key, lo, hi) == RefAdmitted(c, TimesOf(calls, key), lo, hi)
  {
    if |calls| > 0 {
      var n := |calls| - 1;
      AdmittedIsRefAdmitted(c, calls[..n], key, lo, hi);
      if calls[n].key == key {
        OwnCallAdmitted(c, calls, n, lo, hi);
      } else {
        assert TimesOf(calls, key) == TimesOf(calls[..n], key);
      }
    }
  }

  // The last call adds to the reference's count what its answer says.
  lemma OwnCallAdmitted(c: Config, calls: seq<Call>, n: nat, lo: Time, hi: Time)
    requires Clocked(calls) && n == |calls| - 1
    ensures RefAdmitted(c, TimesOf(calls, calls[n].key), lo, hi)
         == RefAdmitted(c, TimesOf(calls[..n], calls[n].key), lo, hi)
            + (if lo <= calls[n].now < hi && Answer(c, calls, n) then 1 else 0)
  {
    var before := TimesOf(calls[..n], calls[n].key);
    AnswersLikeReference(c, calls, n);
    assert calls[..n + 1] == calls;
    assert TimesOf(calls, calls[n].key) == before + [calls[n].now];
    RefAdmittedSnoc(c, before, calls[n].now, lo, hi);
  }

  predicate Ascending(times: seq<Time>) {
    forall i, j | 0 <= i <= j < |times| :: times[i] <= times[j]
  }

  lemma {:induction false} TimesAscend(calls: seq<Call>, key: string)
    requires Clocked(calls)
    ensures Ascending(TimesOf(calls, key))
    ensures forall i | 0 <= i < |TimesOf(calls, key)| :: TimesOf(calls, key)[i] <= LastTime(calls)
  {
    if |calls| > 0 {
      TimesAscend(calls[..|calls| - 1], key);
    }
  }

  // Where the admissions since `lo` come from. A window that opens before
  // `lo` spent its first admission there; each later window opens a whole
  // window length after the one before. `m` counts the full windows between.
  lemma {:induction false} AdmittedSince(c: Config, times: seq<Time>, lo: Time, hi: Time) returns (m: nat)
    requires c.Enabled() && Ascending(times) && |times| > 0
    ensures var w := RefAfter(c, times).value;
            var start, sofar := w.resetAt - c.window, RefAdmitted(c, times, lo, hi);
            && 1 <= w.count <= c.limit && start <= times[|times| - 1]
            && (times[|times| - 1] < lo ==> sofar == 0)
            && (start < lo ==> sofar <= w.count - 1)
            && (start >= lo ==> lo + m * c.window <= start && sofar <= (c.limit - 1) + m * c.limit + w.count)
  {
    var n := |times| - 1;
    if n == 0 {
      assert RefAfter(c, times[..0]) == None && RefAdmitted(c, times[..0], lo, hi) == 0;
      m := 0;
    } else {
      var prev := times[..n];
      var m0 := AdmittedSince(c, prev, lo, hi);
      var w := RefAfter(c, prev).value;
      var opens := times[n] >= w.resetAt;
      m := if opens && w.resetAt - c.window >= lo then m0 + 1 else if opens then 0 else m0;
      assert (m0 + 1) * c.window == m0 * c.window + c.window;
      assert (m0 + 1) * c.limit == m0 * c.limit + c.limit;
    }
  }

  // Calls at or after `hi` add nothing to the count.
  lemma {:induction false} AdmittedBefore(c: Config, times: seq<Time>, lo: Time, hi: Time) returns (n: nat)
    requires Ascending(times)
    ensures n <= |times| && (n > 0 ==> times[n - 1] < hi)
    ensures RefAdmitted(c, times, lo, hi) == RefAdmitted(c, times[..n], lo, hi)
  {
    if |times| == 0 || times[|times| - 1] < hi {
      n := |times|;
      assert times[..n] == times;
    } else {
      n := AdmittedBefore(c, times[..|times| - 1], lo, hi);
      assert times[..|times| - 1][..n] == times[..n];
    }
  }

  // Any k consecutive window lengths contain at most (k + 1) * limit - 1
  // admitted requests of a key, hence at most 2 * limit - 1 in one window length.
  lemma AdmissionBound(c: Config, calls: seq<Call>, key: string, lo: Time, k: nat)
    requires c.Enabled() && Clocked(calls) && k >= 1
    ensures Admitted(c, calls, key, lo, lo + k * c.window) <= (k + 1) * c.limit - 1
  {
    var hi := lo + k * c.window;
    var times := TimesOf(calls, key);
    AdmittedIsRefAdmitted(c, calls, key, lo, hi);
    TimesAscend(calls, key);
    var n := AdmittedBefore(c, times, lo, hi);
    assert (k + 1) * c.limit == k * c.limit + c.limit;
    TimesMonotone(1, k, c.limit);
    if n > 0 {
      var m := AdmittedSince(c, times[..n], lo, hi);
      if RefAfter(c, times[..n]).value.resetAt - c.window >= lo {
        FullWindows(c.limit, c.window, m, k);
      }
    }
  }

  // m windows that fit before the k-th boundary leave room for one more.
  lemma FullWindows(limit: int, window: int, m: int, k: int)
    requires limit > 0 && window > 0 && m * window < k * window
    ensures m * limit + limit <= k * limit
  {
    if m >= k {
      TimesMonotone(k, m, window);
    } else {
      TimesMonotone(m + 1, k, limit);
      assert (m + 1) * limit == m * limit + limit;
    }
  }

  lemma TimesMonotone(a: int, b: int, x: int)
    requires a <= b && x >= 0
    ensures a * x <= b * x
  {
    assert b * x - a * x == (b - a) * x;
  }

  // ---- The bound is reached ----

  function Times(t: Time, n: nat): seq<Time> {
    if n == 0 then [] else Times(t, n - 1) + [t]
  }

  // A call inside a window that has room for it is admitted and counted.
  lemma OneMore(c: Config, times: seq<Time>, w: Window, t: Time, lo: Time, hi: Time)
    requires c.Enabled() && RefAfter(c, times) == Some(w) && t < w.resetAt && w.count < c.limit
    ensures RefAfter(c, times + [t]) == Some(Window(w.count + 1, w.resetAt))
    ensures RefAdmitted(c, times + [t], lo, hi) == RefAdmitted(c, times, lo, hi) + (if lo <= t < hi then 1 else 0)
  {
    assert (times + [t])[..|times|] == times;
  }

  // So are n of them at one instant.
  lemma {:induction false} Fill(c: Config, times: seq<Time>, w: Window, t: Time, n: nat, lo: Time, hi: Time)
    requires c.Enabled() && RefAfter(c, times) == Some(w) && t < w.resetAt && w.count + n <= c.limit
    ensures RefAfter(c, times + Times(t, n)) == Some(Window(w.count + n, w.resetAt))
    ensures RefAdmitted(c, times + Times(t, n), lo, hi)
         == RefAdmitted(c, times, lo, hi) + (if lo <= t < hi then n else 0)
  {
    if n == 0 {
      assert times + Times(t, 0) == times;
    } else {
      var mid := times + Times(t, n - 1);
      Fill(c, times, w, t, n - 1, lo, hi);
      OneMore(c, mid, Window(w.count + n - 1, w.resetAt), t, lo, hi);
      Regroup(times, Times(t, n - 1), t);
      assert times + Times(t, n) == mid + [t];
    }
  }

  lemma Regroup(a: seq<Time>, b: seq<Time>, t: Time)
    ensures a + (b + [t]) == a + b + [t]
  {
  }

  // A call at or past the reset opens a window and is admitted.
  lemma Open(c: Config, times: seq<Time>, t: Time, lo: Time, hi: Time)
    requires c.Enabled() && (|times| > 0 ==> t >= RefAfter(c, times).value.resetAt)
    ensures RefAfter(c, times + [t]) == Some(Window(1, t + c.window))
    ensures RefAdmitted(c, times + [t], lo, hi) == RefAdmitted(c, times, lo, hi) + (if lo <= t < hi then 1 else 0)
  {
    assert (times + [t])[..|times|] == times;
  }

  function CallsAt(times: seq<Time>): seq<Call> {
    seq(|times|, i requires 0 <= i < |times| => Call("client", times[i]))
  }

  lemma {:induction false} TimesOfCallsAt(times: seq<Time>)
    ensures TimesOf(CallsAt(times), "client") == times
  {
    if |times| > 0 {
      var n := |times| - 1;
      assert CallsAt(times)[..n] == CallsAt(times[..n]);
      TimesOfCallsAt(times[..n]);
      assert times == times[..n] + [times[n]];
    }
  }

  // When the k-th window after the first opens.
  function Start(c: Config, k: nat): Time {
    if k == 0 then 1 else Start(c, k - 1) + c.window
  }

  lemma {:induction false} StartIsMultiple(c: Config, k: nat)
    requires c.Enabled()
    ensures Start(c, k) == 1 + k * c.window && Start(c, k) >= 1
  {
    if k > 0 {
      StartIsMultiple(c, k - 1);
      assert k * c.window == (k - 1) * c.window + c.window;
    }
  }

  // One call, limit - 1 at the end of its window, then k full windows, each spent at its start.
  function Worst(c: Config, k: nat): seq<Time>
    requires c.Enabled()
  {
    if k == 0 then [1] + Times(c.window, c.limit - 1)
    else Worst(c, k - 1) + [Start(c, k)] + Times(Start(c, k), c.limit - 1)
  }

  predicate Steps(times: seq<Time>) {
    forall i | 0 <= i < |times| :: times[i] > ZERO_TIME && (i > 0 ==> times[i - 1] <= times[i])
  }

  lemma StepsSnoc(times: seq<Time>, t: Time, n: nat, later: Time)
    requires Steps(times) && (|times| > 0 ==> times[|times| - 1] <= t) && ZERO_TIME < t <= later
    ensures var all := times + [t] + Times(later, n);
            Steps(all) && all[|all| - 1] <= later
  {
    TimesAreEqual(later, n);
    var all := times + [t] + Times(later, n);
    forall i | 0 <= i < |all| ensures all[i] > ZERO_TIME && (i > 0 ==> all[i - 1] <= all[i]) {
      assert all[i] == if i < |times| then times[i] else if i == |times| then t else later;
      assert i > 0 ==> all[i - 1] == if i <= |times| then times[i - 1] else if i == |times| + 1 then t else later;
    }
  }

  lemma {:induction false} WorstSteps(c: Config, k: nat)
    requires c.Enabled()
    ensures Steps(Worst(c, k)) && |Worst(c, k)| > 0 && Worst(c, k)[|Worst(c, k)| - 1] < Start(c, k + 1)
    decreases k
  {
    StartIsMultiple(c, k);
    if k == 0 {
      assert [] + [1] + Times(c.window, c.limit - 1) == Worst(c, 0);
      StepsSnoc([], 1, c.limit - 1, c.window);
    } else {
      WorstSteps(c, k - 1);
      StepsSnoc(Worst(c, k - 1), Start(c, k), c.limit - 1, Start(c, k));
    }
  }

  // A window opened by one call and filled by n more at a later time of it.
  lemma OpenAndFill(c: Config, times: seq<Time>, t: Time, later: Time, n: nat, lo: Time, hi: Time)
    requires c.Enabled() && (|times| > 0 ==> t >= RefAfter(c, times).value.resetAt)
    requires later < t + c.window && 1 + n <= c.limit
    ensures var all := times + [t] + Times(later, n);
            RefAfter(c, all) == Some(Window(1 + n, t + c.window))
            && RefAdmitted(c, all, lo, hi)
            == RefAdmitted(c, times, lo, hi) + (if lo <= t < hi then 1 else 0) + (if lo <= later < hi then n else 0)
  {
    Open(c, times, t, lo, hi);
    Fill(c, times + [t], Window(1, t + c.window), later, n, lo, hi);
  }

  // One full window more, opened at the reset of the one before.
  lemma FullWindowMore(c: Config, times: seq<Time>, start: Time, hi: Time)
    requires c.Enabled() && RefAfter(c, times) == Some(Window(c.limit, start)) && |times| > 0 && 2 <= start < hi
    ensures var all := times + [start] + Times(start, c.limit - 1);
            RefAfter(c, all) == Some(Window(c.limit, start + c.window))
            && RefAdmitted(c, all, 2, hi) == RefAdmitted(c, times, 2, hi) + c.limit
  {
    OpenAndFill(c, times, start, start, c.limit - 1, 2, hi);
  }

  lemma WorstStart(c: Config, hi: Time)
    requires c.Enabled() && 2 <= c.window < hi
    ensures RefAfter(c, Worst(c, 0)) == Some(Window(c.limit, 1 + c.window))
    ensures RefAdmitted(c, Worst(c, 0), 2, hi) == c.limit - 1
  {
    assert [] + [1] + Times(c.window, c.limit - 1) == Worst(c, 0);
    OpenAndFill(c, [], 1, c.window, c.limit - 1, 2, hi);
  }

  lemma {:induction false} WorstAdmits(c: Config, k: nat, hi: Time) returns (full: nat)
    requires c.Enabled() && 2 <= c.window < hi && Start(c, k) < hi
    ensures full == k * c.limit
    ensures RefAfter(c, Worst(c, k)) == Some(Window(c.limit, Start(c, k) + c.window)) && |Worst(c, k)| > 0
    ensures RefAdmitted(c, Worst(c, k), 2, hi) == c.limit - 1 + full
    decreases k
  {
    if k == 0 {
      WorstStart(c, hi);
      full := 0;
    } else {
      var before := WorstAdmits(c, k - 1, hi);
      full := before + c.limit;
      assert full == k * c.limit;
      StartIsMultiple(c, k - 1);
      FullWindowMore(c, Worst(c, k - 1), Start(c, k), hi);
    }
  }

  lemma WorstIsClocked(c: Config, k: nat, hi: Time)
    requires c.Enabled()
    ensures Clocked(CallsAt(Worst(c, k)))
    ensures Admitted(c, CallsAt(Worst(c, k)), "client", 2, hi) == RefAdmitted(c, Worst(c, k), 2, hi)
  {
    var times := Worst(c, k);
    WorstSteps(c, k);
    assert Clocked(CallsAt(times));
    TimesOfCallsAt(times);
    AdmittedIsRefAdmitted(c, CallsAt(times), "client", 2, hi);
  }

  // For every k a run reaches the bound in k window lengths: it is exact.
  lemma AdmissionBoundIsReached(c: Config, k: nat)
    requires c.Enabled() && c.window >= 2 && k >= 1
    ensures var calls := CallsAt(Worst(c, k));
            Clocked(calls) && Admitted(c, calls, "client", 2, 2 + k * c.window) == (k + 1) * c.limit - 1
  {
    var hi := 2 + k * c.window;
    StartIsMultiple(c, k);
    TimesMonotone(1, k, c.window);
    WorstReaches(c, k, hi);
    assert (k + 1) * c.limit == k * c.limit + c.limit;
  }

  lemma WorstReaches(c: Config, k: nat, hi: Time)
    requires c.Enabled() && 2 <= c.window < hi && Start(c, k) < hi
    ensures Clocked(CallsAt(Worst(c, k)))
    ensures Admitted(c, CallsAt(Worst(c, k)), "client", 2, hi) == c.limit - 1 + k * c.limit
  {
    WorstIsClocked(c, k, hi);
    var full := WorstAdmits(c, k, hi);
  }

  lemma {:induction false} TimesAreEqual(t: Time, n: nat)
    ensures |Times(t, n)| == n && forall i | 0 <= i < n :: Times(t, n)[i] == t
  {
    if n > 0 {
      TimesAreEqual(t, n - 1);
    }
  }

  // ---- What the map keeps ----

  // Keys called less than two window lengths before `now`.
  function RecentKeys(c: Config, calls: seq<Call>, now: Time): set<string> {
    set i | 0 <= i < |calls| && now - calls[i].now < 2 * c.window :: calls[i].key
  }

  lemma {:induction false} BucketsWereCalled(c: Config, calls: seq<Call>, k: string)
    requires c.Enabled() && k in After(c, calls).buckets
    ensures exists i | 0 <= i < |calls| :: calls[i] == Call(k, After(c, calls).buckets[k].updatedAt)
  {
    var n := |calls| - 1;
    if calls[n].key == k {
      assert calls[n] == Call(k, After(c, calls).buckets[k].updatedAt);
    } else {
      BucketsWereCalled(c, calls[..n], k);
      var i :| 0 <= i < n && calls[..n][i] == Call(k, After(c, calls[..n]).buckets[k].updatedAt);
      assert calls[i] == calls[..n][i];
    }
  }

  // After every call each stored bucket was touched less than two windows ago,
  // so the map holds no more keys than were seen in the last two windows.
  lemma MapStaysSmall(c: Config, calls: seq<Call>)
    requires c.Enabled() && Clocked(calls) && |calls| > 0
    ensures var st, now := After(c, calls), LastTime(calls);
            && (forall k | k in st.buckets :: now - st.buckets[k].updatedAt < 2 * c.window)
            && st.buckets.Keys <= RecentKeys(c, calls, now)
            && |st.buckets| <= |RecentKeys(c, calls, now)|
  {
    var st, now := After(c, calls), LastTime(calls);
    InvHolds(c, calls);
    assert st.lastSweep != ZERO_TIME;
    forall k | k in st.buckets ensures k in RecentKeys(c, calls, now) {
      BucketsWereCalled(c, calls, k);
      var i :| 0 <= i < |calls| && calls[i] == Call(k, st.buckets[k].updatedAt);
    }
    SubsetSize(st.buckets.Keys, RecentKeys(c, calls, now));
  }

  lemma {:induction false} SubsetSize(a: set<string>, b: set<string>)
    requires a <= b
    ensures |a| <= |b|
  {
    if a != {} {
      var x :| x in a;
      SubsetSize(a - {x}, b - {x});
    }
  }

  // ---- Retry-After ----

  // secondsString, in nanoseconds: the whole seconds of the float64, at least one.
  function RetryAfter(window: int): int
    requires 0 <= window <= Float64.MAX_DURATION
  {
    (if Float64.Seconds(window) < 1 then 1 else Float64.Seconds(window)) * Float64.SECOND
  }

  // A denied key that stays silent for that long is admitted on its next request.
  ghost predicate Honoured(pause: int, c: Config) {
    forall calls: seq<Call>, denied: nat, retry: nat |
      denied < retry < |calls| && RetriesAfterDenial(pause, c, calls, denied, retry) :: Answer(c, calls, retry)
  }

  predicate RetriesAfterDenial(pause: int, c: Config, calls: seq<Call>, denied: nat, retry: nat)
    requires denied < retry < |calls|
  {
    Clocked(calls) && !Answer(c, calls, denied)
    && calls[retry].key == calls[denied].key
    && calls[retry].now >= calls[denied].now + pause
    && forall i | denied < i < retry :: calls[i].key != calls[denied].key
  }

  lemma {:induction false} SilentKeepsTimes(calls: seq<Call>, key: string, p: nat, q: nat)
    requires p <= q <= |calls|
    requires forall i | p <= i < q :: calls[i].key != key
    ensures TimesOf(calls[..q], key) == TimesOf(calls[..p], key)
    decreases q
  {
    if p < q {
      assert calls[..q][..q - 1] == calls[..q - 1];
      SilentKeepsTimes(calls, key, p, q - 1);
    }
  }

  lemma {:induction false} ResetWithinWindow(c: Config, times: seq<Time>)
    requires c.Enabled() && Ascending(times) && |times| > 0
    ensures RefAfter(c, times).value.resetAt <= times[|times| - 1] + c.window
  {
    if |times| > 1 {
      ResetWithinWindow(c, times[..|times| - 1]);
    }
  }

  lemma LongEnoughIsAdmitted(pause: int, c: Config, calls: seq<Call>, denied: nat, retry: nat)
    requires pause >= c.window
    requires denied < retry < |calls| && RetriesAfterDenial(pause, c, calls, denied, retry)
    ensures Answer(c, calls, retry)
  {
    if c.Enabled() {
      var times := TimesOf(calls[..denied + 1], calls[denied].key);
      LastTimeOf(calls, denied);
      ResetWithinWindow(c, times);
      TimesAtRetry(calls, denied, retry);
      AnswersLikeReference(c, calls, retry);
      PastResetIsAdmitted(c, times, calls[retry].now);
    }
  }

  lemma TimesAtRetry(calls: seq<Call>, i: nat, j: nat)
    requires i < j < |calls| && calls[j].key == calls[i].key
    requires forall m | i < m < j :: calls[m].key != calls[i].key
    ensures TimesOf(calls[..j + 1], calls[j].key) == TimesOf(calls[..i + 1], calls[i].key) + [calls[j].now]
  {
    SilentKeepsTimes(calls, calls[i].key, i + 1, j);
    assert calls[..j + 1][..j] == calls[..j];
  }

  lemma LastTimeOf(calls: seq<Call>, i: nat)
    requires Clocked(calls) && i < |calls|
    ensures var times := TimesOf(calls[..i + 1], calls[i].key);
            |times| > 0 && Ascending(times) && times[|times| - 1] == calls[i].now
  {
    assert calls[..i + 1][i] == calls[i];
    TimesAscend(calls[..i + 1], calls[i].key);
  }

  lemma PastResetIsAdmitted(c: Config, times: seq<Time>, t: Time)
    requires c.Enabled() && |times| > 0 && t >= RefAfter(c, times).value.resetAt
    ensures RefAnswer(c, times + [t], |times|)
  {
    assert (times + [t])[..|times|] == times;
  }

  // Calls of one client at the given times are answered by the reference.
  lemma AnswerAtCalls(c: Config, times: seq<Time>, i: nat)
    requires Clocked(CallsAt(times)) && i < |times|
    ensures Answer(c, CallsAt(times), i) == RefAnswer(c, times, i)
  {
    var calls := CallsAt(times);
    assert calls[i].key == "client";
    AnswersLikeReference(c, calls, i);
    assert calls[..i + 1] == CallsAt(times[..i + 1]);
    TimesOfCallsAt(times[..i + 1]);
    RefAnswerPrefix(c, times, i);
  }

  lemma RefAnswerPrefix(c: Config, times: seq<Time>, i: nat)
    requires i < |times|
    ensures RefAnswer(c, times[..i + 1], i) == RefAnswer(c, times, i)
  {
    assert times[..i + 1][..i] == times[..i];
  }

  // A full window denies a call before its reset, and stays as it is.
  lemma FullWindowDenies(c: Config, times: seq<Time>, t: Time)
    requires c.Enabled() && RefAfter(c, times) == Some(Window(c.limit, 1 + c.window)) && t < 1 + c.window
    ensures !RefAnswer(c, times + [t], |times|)
    ensures RefAfter(c, times + [t]) == Some(Window(c.limit, 1 + c.window))
  {
    assert (times + [t])[..|times|] == times;
  }

  // limit requests at one instant fill its window.
  function Burst(c: Config): seq<Time>
    requires c.Enabled()
  {
    [1] + Times(1, c.limit - 1)
  }

  lemma BurstFills(c: Config)
    requires c.Enabled()
    ensures |Burst(c)| == c.limit && (forall i | 0 <= i < c.limit :: Burst(c)[i] == 1)
    ensures RefAfter(c, Burst(c)) == Some(Window(c.limit, 1 + c.window))
  {
    TimesAreEqual(1, c.limit - 1);
    assert [] + [1] == [1];
    Open(c, [], 1, 0, 0);
    Fill(c, [1], Window(1, 1 + c.window), 1, c.limit - 1, 0, 0);
  }

  // One request more is denied, and so is the next one after too short a pause.
  lemma BurstThenDenied(c: Config, later: Time)
    requires c.Enabled() && 1 <= later < 1 + c.window
    ensures var times := Burst(c) + [1] + [later];
            |times| == c.limit + 2 && Clocked(CallsAt(times))
            && !RefAnswer(c, times, c.limit) && !RefAnswer(c, times, c.limit + 1)
  {
    BurstFills(c);
    FullWindowDenies(c, Burst(c), 1);
    FullWindowDenies(c, Burst(c) + [1], later);
    var times := Burst(c) + [1] + [later];
    assert times[..c.limit] == (Burst(c) + [1])[..c.limit];
  }

  lemma ShortPauseIsDenied(pause: int, c: Config)
    requires c.Enabled() && 0 <= pause < c.window
    ensures !Honoured(pause, c)
  {
    var later := 1 + pause;
    var times := Burst(c) + [1] + [later];
    BurstFills(c);
    BurstThenDenied(c, later);
    AnswerAtCalls(c, times, c.limit);
    AnswerAtCalls(c, times, c.limit + 1);
    var calls := CallsAt(times);
    assert calls[c.limit] == Call("client", 1) && calls[c.limit + 1] == Call("client", later);
    assert RetriesAfterDenial(pause, c, calls, c.limit, c.limit + 1);
  }

  lemma HonouredIff(pause: int, c: Config)
    requires c.Enabled() && pause >= 0
    ensures Honoured(pause, c) <==> pause >= c.window
  {
    if pause >= c.window {
      forall calls: seq<Call>, denied: nat, retry: nat |
        denied < retry < |calls| && RetriesAfterDenial(pause, c, calls, denied, retry)
        ensures Answer(c, calls, retry)
      {
        LongEnoughIsAdmitted(pause, c, calls, denied, retry);
      }
    } else {
      ShortPauseIsDenied(pause, c);
    }
  }

  lemma RetryAfterIs(window: int)
    requires 0 < window <= Float64.MAX_DURATION
    ensures RetryAfter(window) == Float64.SECOND
            * (if window < Float64.SECOND then 1
               else window / Float64.SECOND + (if Float64.RoundsUp(window) then 1 else 0))
  {
    if window < Float64.SECOND {
      Float64.SecondsUnderOne(window);
    } else {
      Float64.SecondsIs(window);
    }
  }

  // For every duration: the advertised time is long enough exactly when the
  // window is a whole number of seconds, or shorter than one, or lacks so few
  // nanoseconds of the next that the float64 sum carries.
  lemma RetryAfterHonouredIff(c: Config)
    requires c.Enabled() && c.window <= Float64.MAX_DURATION
    ensures Honoured(RetryAfter(c.window), c)
       <==> c.window % Float64.SECOND == 0 || c.window < Float64.SECOND || Float64.RoundsUp(c.window)
  {
    RetryAfterIs(c.window);
    HonouredIff(RetryAfter(c.window), c);
  }

  // Below 2^24 seconds, half a year and more, nothing ever carries.
  lemma RetryAfterHonouredBelow(c: Config)
    requires c.Enabled() && c.window < 0x100_0000 * Float64.SECOND
    ensures Honoured(RetryAfter(c.window), c) <==> c.window % Float64.SECOND == 0 || c.window < Float64.SECOND
  {
    if c.window >= Float64.SECOND {
      Float64.SmallWindowsNeverRoundUp(c.window);
    }
    RetryAfterHonouredIff(c);
  }

  // At one and a half seconds a denied client is told to come back after one, and is denied again.
  lemma RetryAfterCanFallShort(limit: int)
    requires limit > 0
    ensures !Honoured(RetryAfter(1_500_000_000), Config(limit, 1_500_000_000))
  {
    RetryAfterHonouredBelow(Config(limit, 1_500_000_000));
  }
}
