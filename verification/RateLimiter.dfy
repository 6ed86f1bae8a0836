/**
  The sliding-window limiter in `security_boundary` (main.py): one deque of accepted
  timestamps per actor, pruned from the left on each request.  The ghost history
  keeps everything the deque forgets.  Timestamps come from `time.monotonic`, read
  and used without an await in between, so they never decrease.
  */
module RateLimiter {

  const WINDOW := 60.0
  const LIMIT := 240

  /** How many timestamps lie in the closed interval [lo, hi]. */
  function CountIn(times: seq<real>, lo: real, hi: real): nat {
    if times == [] then 0
    else CountIn(times[..|times| - 1], lo, hi) + (if lo <= times[|times| - 1] <= hi then 1 else 0)
  }

  ghost predicate Sorted(times: seq<real>) {
    forall i, j | 0 <= i < j < |times| :: times[i] <= times[j]
  }

  /** Any 241 accepted requests in a row take more than a window. */
  ghost predicate Spaced(times: seq<real>) {
    forall i, j | 0 <= i && j < |times| && i + LIMIT <= j :: times[j] > times[i] + WINDOW
  }

  lemma {:induction false} CountZero(times: seq<real>, lo: real, hi: real)
    requires forall i | 0 <= i < |times| :: times[i] < lo || times[i] > hi
    ensures CountIn(times, lo, hi) == 0
  {
    if times != [] {
      CountZero(times[..|times| - 1], lo, hi);
    }
  }

  lemma {:induction false} CountSplit(a: seq<real>, b: seq<real>, lo: real, hi: real)
    ensures CountIn(a + b, lo, hi) == CountIn(a, lo, hi) + CountIn(b, lo, hi)
  {
    if b == [] {
      assert a + b == a;
    } else {
      CountSplit(a, b[..|b| - 1], lo, hi);
      assert (a + b)[..|a + b| - 1] == a + b[..|b| - 1];
    }
  }

  lemma {:induction false} CountAtMostLength(times: seq<real>, lo: real, hi: real)
    ensures CountIn(times, lo, hi) <= |times|
  {
    if times != [] {
      CountAtMostLength(times[..|times| - 1], lo, hi);
    }
  }

  lemma {:induction false} CountAll(times: seq<real>, lo: real, hi: real)
    requires forall i | 0 <= i < |times| :: lo <= times[i] <= hi
    ensures CountIn(times, lo, hi) == |times|
  {
    if times != [] {
      CountAll(times[..|times| - 1], lo, hi);
    }
  }

  /** Every closed window of sixty seconds holds at most 240 accepted requests. */
  lemma WindowHoldsAtMostLimit(times: seq<real>, lo: real)
    requires Sorted(times) && Spaced(times)
    ensures CountIn(times, lo, lo + 60.0) <= 240
  {
    var first := 0;
    while first < |times| && times[first] < lo
      invariant first <= |times|
      invariant forall i | 0 <= i < first :: times[i] < lo
    {
      first := first + 1;
    }
    CountBelow(times, first, lo, lo + WINDOW);
    if first + LIMIT < |times| {
      LateAreOutside(times, first, lo);
      CountBetween(times, first, first + LIMIT, lo, lo + WINDOW);
    } else {
      CountAtMostLength(times[first..], lo, lo + WINDOW);
    }
  }

  lemma {:induction false} CountBelow(times: seq<real>, first: nat, lo: real, hi: real)
    requires first <= |times| && forall i | 0 <= i < first :: times[i] < lo
    ensures CountIn(times, lo, hi) == CountIn(times[first..], lo, hi)
  {
    assert times == times[..first] + times[first..];
    CountSplit(times[..first], times[first..], lo, hi);
    CountZero(times[..first], lo, hi);
  }

  lemma {:induction false} CountBetween(times: seq<real>, first: nat, end: nat, lo: real, hi: real)
    requires first <= end <= |times| && forall j | end <= j < |times| :: times[j] > hi
    ensures CountIn(times[first..], lo, hi) <= end - first
  {
    assert times[first..] == times[first..end] + times[end..];
    CountSplit(times[first..end], times[end..], lo, hi);
    CountAtMostLength(times[first..end], lo, hi);
    CountZero(times[end..], lo, hi);
  }

  lemma LateAreOutside(times: seq<real>, first: nat, lo: real)
    requires Sorted(times) && Spaced(times) && first + LIMIT < |times| && times[first] >= lo
    ensures forall j | first + LIMIT <= j < |times| :: times[j] > lo + WINDOW
  {
    forall j | first + LIMIT <= j < |times|
      ensures times[j] > lo + WINDOW
    { assert times[j] > times[first] + WINDOW; }
  }

  class Limiter {
    var buckets: map<string, seq<real>>
    ghost var history: map<string, seq<real>>
    ghost var clock: real

    constructor (start: real)
      ensures Valid() && history == map[] && clock == start
    {
      buckets, history, clock := map[], map[], start;
      NothingRefinesNothing(start);
    }

    ghost predicate Valid()
      reads this
    {
      AllRefine(buckets, history, clock)
    }

    /** A request of `actor` at time `t`: accepted or answered with 429. */
    method Admit(actor: string, t: real) returns (accepted: bool)
      requires Valid() && clock <= t
      modifies this
      ensures Valid() && clock == t
      ensures accepted <==> CountIn(At(old(history), actor), t - 60.0, t) < 240
      ensures history == old(history)[actor := if accepted then At(old(history), actor) + [t] else At(old(history), actor)]
      ensures |At(buckets, actor)| <= 240
      ensures forall other | other != actor :: At(buckets, other) == At(old(buckets), other)
    {
      LaterClock(At(buckets, actor), At(history, actor), clock, t);
      var bucket;
      ghost var accepts;
      bucket, accepted, accepts := Decide(if actor in buckets then buckets[actor] else [], t, At(history, actor));
      UpdateKeepsAll(buckets, history, clock, t, actor, bucket, accepts);
      OthersKept(buckets, actor, bucket);
      buckets := buckets[actor := bucket];
      history := history[actor := accepts];
      clock := t;
    }
  }

  /** A missing deque is an empty one (`defaultdict`). */
  function At(m: map<string, seq<real>>, actor: string): seq<real> {
    if actor in m then m[actor] else []
  }

  /** Every deque is what pruning leaves of its actor's history. */
  ghost predicate AllRefine(buckets: map<string, seq<real>>, history: map<string, seq<real>>, clock: real) {
    forall actor :: Refines(At(buckets, actor), At(history, actor), clock)
  }

  lemma OthersKept(buckets: map<string, seq<real>>, actor: string, bucket: seq<real>)
    ensures At(buckets[actor := bucket], actor) == bucket
    ensures forall other | other != actor :: At(buckets[actor := bucket], other) == At(buckets, other)
  {
  }

  lemma NothingRefinesNothing(clock: real)
    ensures AllRefine(map[], map[], clock)
  {
    forall actor
      ensures Refines(At(map[], actor), At(map[], actor), clock)
    {
      assert At(map[], actor) == [];
    }
  }

  lemma UpdateKeepsAll(buckets: map<string, seq<real>>, history: map<string, seq<real>>, clock: real, t: real,
                       actor: string, bucket: seq<real>, accepts: seq<real>)
    requires AllRefine(buckets, history, clock) && clock <= t && Refines(bucket, accepts, t)
    ensures AllRefine(buckets[actor := bucket], history[actor := accepts], t)
  {
    var newBuckets, newHistory := buckets[actor := bucket], history[actor := accepts];
    forall other
      ensures Refines(At(newBuckets, other), At(newHistory, other), t)
    {
      if other != actor {
        LaterClock(At(buckets, other), At(history, other), clock, t);
      }
    }
  }

  /** One actor's deque: prune, then accept if there is room. */
  method Decide(deque: seq<real>, t: real, ghost history: seq<real>)
    returns (bucket: seq<real>, accepted: bool, ghost after: seq<real>)
    requires Refines(deque, history, t)
    ensures Refines(bucket, after, t)
    ensures accepted <==> CountIn(history, t - WINDOW, t) < LIMIT
    ensures after == if accepted then history + [t] else history
  {
    bucket := deque;
    while bucket != [] && bucket[0] < t - WINDOW
      invariant Refines(bucket, history, t)
      decreases |bucket|
    {
      bucket := bucket[1..];
    }
    PrunedCount(bucket, history, t);
    accepted := |bucket| < LIMIT;
    after := history;
    if accepted {
      AppendKeeps(bucket, history, t);
      bucket := bucket + [t];
      after := history + [t];
    }
  }

  lemma LaterClock(bucket: seq<real>, history: seq<real>, clock: real, t: real)
    requires Refines(bucket, history, clock) && clock <= t
    ensures Refines(bucket, history, t)
  {
  }

  /** A deque is a suffix of the history that lacks only what is out of the window. */
  ghost predicate Refines(bucket: seq<real>, history: seq<real>, clock: real) {
    && |bucket| <= |history| && bucket == history[|history| - |bucket|..]
    && |bucket| <= LIMIT
    && Sorted(history) && Spaced(history)
    && (forall i | 0 <= i < |history| :: history[i] <= clock)
    && (forall i | 0 <= i < |history| - |bucket| :: history[i] < clock - WINDOW)
  }

  /** After pruning, the deque's length is the number of accepted requests in the window. */
  lemma {:induction false} PrunedCount(bucket: seq<real>, history: seq<real>, t: real)
    requires Refines(bucket, history, t) && (bucket != [] ==> bucket[0] >= t - WINDOW)
    ensures CountIn(history, t - WINDOW, t) == |bucket|
  {
    var n := |history| - |bucket|;
    assert history == history[..n] + bucket;
    CountSplit(history[..n], bucket, t - WINDOW, t);
    CountZero(history[..n], t - WINDOW, t);
    CountAll(bucket, t - WINDOW, t);
  }

  lemma AppendKeeps(bucket: seq<real>, history: seq<real>, t: real)
    requires Refines(bucket, history, t) && |bucket| < LIMIT
    ensures Refines(bucket + [t], history + [t], t)
  {
    var n := |history| - |bucket|;
    assert (history + [t])[n..] == bucket + [t];
  }
}
