/** The rate limiter of ProcessNewMinidump: one greedy choice per crash, optimal per key. */
module RateLimiter {

  type Key = string

  /** kRateLimitWindow, in nanoseconds of the steady clock. */
  const WINDOW: int := 30_000_000_000

  datatype Crash = Crash(key: Key, time: int)

  /** Suppressed when the key was logged less than a window ago. */
  predicate Suppressed(logged: map<Key, int>, c: Crash) {
    c.key in logged && c.time - logged[c.key] < WINDOW
  }

  function Remember(logged: map<Key, int>, c: Crash): map<Key, int> {
    if Suppressed(logged, c) then logged else logged[c.key := c.time]
  }

  /** The crashes of a run that reach the log. */
  function Log(logged: map<Key, int>, crashes: seq<Crash>): seq<Crash>
    decreases |crashes|
  {
    if crashes == [] then []
    else
      (if Suppressed(logged, crashes[0]) then [] else [crashes[0]]) + Log(Remember(logged, crashes[0]), crashes[1..])
  }

  // ----- One key at a time

  /** The times of the crashes with key `k`. */
  function Times(crashes: seq<Crash>, k: Key): seq<int> {
    if crashes == [] then []
    else (if crashes[0].key == k then [crashes[0].time] else []) + Times(crashes[1..], k)
  }

  datatype Last = Never | At(time: int)

  function LastOf(logged: map<Key, int>, k: Key): Last {
    if k in logged then At(logged[k]) else Never
  }

  predicate Due(last: Last, t: int) {
    last.Never? || t - last.time >= WINDOW
  }

  /** The greedy choice on the times of one key. */
  function Greedy(last: Last, ts: seq<int>): seq<int>
    decreases |ts|
  {
    if ts == [] then []
    else if Due(last, ts[0]) then [ts[0]] + Greedy(At(ts[0]), ts[1..])
    else Greedy(last, ts[1..])
  }

  /** Keys do not interfere: the log restricted to a key is the greedy choice on that key. */
  lemma {:induction false} LogPerKey(logged: map<Key, int>, crashes: seq<Crash>, k: Key)
    ensures Times(Log(logged, crashes), k) == Greedy(LastOf(logged, k), Times(crashes, k))
    decreases |crashes|
  {
    if crashes != [] {
      var c, rest := crashes[0], crashes[1..];
      var next := Remember(logged, c);
      LogPerKey(next, rest, k);
      TimesCons(c, Log(next, rest), k);
      TimesCons(c, rest, k);
      GreedyCons(LastOf(logged, k), c.time, Times(rest, k));
      assert [] + Log(next, rest) == Log(next, rest);
      assert [c] + rest == crashes;
    }
  }

  lemma TimesCons(c: Crash, rest: seq<Crash>, k: Key)
    ensures Times([c] + rest, k) == if c.key == k then [c.time] + Times(rest, k) else Times(rest, k)
  {
    assert ([c] + rest)[1..] == rest;
  }

  lemma GreedyCons(last: Last, t: int, rest: seq<int>)
    ensures Greedy(last, [t] + rest) == if Due(last, t) then [t] + Greedy(At(t), rest) else Greedy(last, rest)
  {
    assert ([t] + rest)[1..] == rest;
  }

  // ----- What the greedy choice achieves

  predicate Sorted(ts: seq<int>) {
    forall i, j :: 0 <= i < j < |ts| ==> ts[i] <= ts[j]
  }

  /** Any two times are at least 30 s apart, in nanoseconds. */
  predicate Apart(ts: seq<int>) {
    forall i, j :: 0 <= i < j < |ts| ==> ts[j] - ts[i] >= 30_000_000_000
  }

  predicate AllDue(last: Last, ts: seq<int>) {
    forall i :: 0 <= i < |ts| ==> Due(last, ts[i])
  }

  /** `sub` is `ts` with some elements left out. */
  predicate Subsequence<T(==)>(sub: seq<T>, ts: seq<T>)
    decreases ts
  {
    if ts == [] then sub == []
    else Subsequence(sub, ts[1..]) || (sub != [] && sub[0] == ts[0] && Subsequence(sub[1..], ts[1..]))
  }

  lemma {:induction false} GreedyIsApart(last: Last, ts: seq<int>)
    requires Sorted(ts)
    ensures Apart(Greedy(last, ts)) && AllDue(last, Greedy(last, ts))
    ensures Subsequence(Greedy(last, ts), ts)
    ensures forall t :: t in Greedy(last, ts) ==> t in ts
    decreases |ts|
  {
    if ts != [] {
      if Due(last, ts[0]) {
        GreedyIsApart(At(ts[0]), ts[1..]);
        var rest := Greedy(At(ts[0]), ts[1..]);
        assert Greedy(last, ts) == [ts[0]] + rest;
      } else {
        GreedyIsApart(last, ts[1..]);
      }
    }
  }

  /** Every time has a chosen one (or the remembered one) less than a window before it. */
  lemma {:induction false} GreedyCovers(last: Last, ts: seq<int>, i: nat)
    requires Sorted(ts) && i < |ts|
    requires last.At? ==> last.time <= ts[0]
    ensures (last.At? && 0 <= ts[i] - last.time < WINDOW)
         || exists t :: t in Greedy(last, ts) && 0 <= ts[i] - t < WINDOW
    decreases |ts|
  {
    if Due(last, ts[0]) {
      assert ts[0] in Greedy(last, ts);
      if i > 0 {
        GreedyCovers(At(ts[0]), ts[1..], i - 1);
        assert forall t :: t in Greedy(At(ts[0]), ts[1..]) ==> t in Greedy(last, ts);
      }
    } else if i > 0 {
      GreedyCovers(last, ts[1..], i - 1);
    }
  }

  /** Staying ahead: no subsequence of times that are due and apart is longer. */
  lemma {:induction false} GreedyIsLongest(last: Last, ts: seq<int>, sub: seq<int>)
    requires Sorted(ts) && Subsequence(sub, ts) && Apart(sub) && AllDue(last, sub)
    ensures |sub| <= |Greedy(last, ts)|
    decreases ts
  {
    if ts != [] && sub != [] {
      if Due(last, ts[0]) {
        SubsequenceTail(sub, ts);
        SubsequenceBound(sub, ts);
        assert ts[0] <= sub[0];
        GreedyIsLongest(At(ts[0]), ts[1..], sub[1..]);
      } else {
        GreedyIsLongest(last, ts[1..], sub);
      }
    }
  }

  lemma {:induction false} SubsequenceTail(sub: seq<int>, ts: seq<int>)
    requires Subsequence(sub, ts) && sub != []
    ensures ts != [] && Subsequence(sub[1..], ts[1..])
    decreases ts
  {
    if Subsequence(sub, ts[1..]) {
      SubsequenceTail(sub, ts[1..]);
    }
  }

  lemma {:induction false} SubsequenceBound(sub: seq<int>, ts: seq<int>)
    requires Subsequence(sub, ts) && sub != []
    ensures sub[0] in ts
    decreases ts
  {
    if Subsequence(sub, ts[1..]) {
      SubsequenceBound(sub, ts[1..]);
    }
  }

  lemma {:induction false} ApartSpread(ts: seq<int>, i: nat, j: nat)
    requires Apart(ts) && i <= j < |ts|
    ensures ts[j] - ts[i] >= (j - i) * 30_000_000_000
    decreases j - i
  {
    if i < j {
      ApartSpread(ts, i, j - 1);
    }
  }

  // ----- The theorem about a run of the daemon

  predicate Monotone(crashes: seq<Crash>) {
    forall i, j :: 0 <= i < j < |crashes| ==> crashes[i].time <= crashes[j].time
  }

  lemma {:induction false} TimesSorted(crashes: seq<Crash>, k: Key, low: int)
    requires Monotone(crashes) && forall i :: 0 <= i < |crashes| ==> low <= crashes[i].time
    ensures Sorted(Times(crashes, k))
    ensures forall t :: t in Times(crashes, k) ==> low <= t
    decreases |crashes|
  {
    if crashes != [] {
      TimesSorted(crashes[1..], k, crashes[0].time);
      var rest := Times(crashes[1..], k);
      assert forall i :: 0 <= i < |rest| ==> rest[i] in rest;
    }
  }

  /** From an empty map and with a steady clock, for every key: the logged crashes are a
      subsequence of that key's crashes, pairwise at least 30 s apart; every crash has a logged one
      (itself, or the one it repeats) less than 30 s before it; and no subsequence of that key's
      crashes that is pairwise 30 s apart is longer than the log. */
  lemma RateLimiterIsOptimal(crashes: seq<Crash>, k: Key)
    requires Monotone(crashes)
    ensures var all, log := Times(crashes, k), Times(Log(map[], crashes), k);
      && Subsequence(log, all) && Apart(log)
      && (forall t :: t in all ==> exists l :: l in log && 0 <= t - l < 30_000_000_000)
      && (forall sub :: Subsequence(sub, all) && Apart(sub) ==> |sub| <= |log|)
  {
    var all, log := Times(crashes, k), Times(Log(map[], crashes), k);
    LogPerKey(map[], crashes, k);
    TimesSorted(crashes, k, if crashes == [] then 0 else crashes[0].time);
    GreedyIsApart(Never, all);
    forall t | t in all
      ensures exists l :: l in log && 0 <= t - l < 30_000_000_000
    {
      var i :| 0 <= i < |all| && all[i] == t;
      GreedyCovers(Never, all, i);
    }
    forall sub | Subsequence(sub, all) && Apart(sub)
      ensures |sub| <= |log|
    {
      GreedyIsLongest(Never, all, sub);
    }
  }

  /** Any interval of length `span` holds at most span / 30 s + 1 log entries of one key: that many
      are the entries from the first one in it to the last one in it. */
  lemma LogRateIsBounded(crashes: seq<Crash>, k: Key, i: nat, j: nat, span: nat)
    requires Monotone(crashes)
    requires i <= j < |Times(Log(map[], crashes), k)|
    requires Times(Log(map[], crashes), k)[j] - Times(Log(map[], crashes), k)[i] <= span
    ensures j - i + 1 <= span / 30_000_000_000 + 1
  {
    hide Apart;
    RateLimiterIsOptimal(crashes, k);
    ApartSpread(Times(Log(map[], crashes), k), i, j);
  }
}
