/**
  One outbox row and any number of delivery workers, one transaction at a time:
  read (`_deliver_outbox`'s SELECT), claim (`_claim_outbox`), send, finalise.
  Times are seconds on one clock that all workers share and that never runs back.
  */
module OutboxProtocol {
  import opened Prelude

  const LEASE := 300
  const MAX_ATTEMPTS := 6

  datatype Status = Pending | Claimed | Delivered | Dead

  datatype Row = Row(status: Status, attempts: nat, nextAttempt: int, claimedAt: Option<int>)

  /** What sending ended in: a missing or disabled webhook kills the row. */
  datatype Sent = SentOk | SentDead | SentFailed

  /** Seconds to wait after the given number of failed attempts. */
  function Delay(attempts: nat): nat {
    match (if attempts < 2 then 1 else if attempts > 5 then 5 else attempts)
    case 1 => 2
    case 2 => 8
    case 3 => 30
    case 4 => 120
    case _ => 600
  }

  /** `status='pending' OR (status='claimed' AND claimed_at <= now - 300 s)` */
  predicate Claimable(row: Row, now: int) {
    || row.status == Pending
    || (row.status == Claimed && row.claimedAt.Some? && row.claimedAt.value <= now - LEASE)
  }

  function ClaimRow(row: Row, now: int): Row {
    row.(status := Claimed, claimedAt := Some(now))
  }

  /** The final UPDATE of a worker that read `seen` attempts; it has no guard. */
  function FinaliseRow(row: Row, seen: nat, sent: Sent, now: int): Row {
    var attempts := seen + 1;
    if sent.SentOk? then row.(status := Delivered, attempts := attempts)
    else if sent.SentDead? || attempts >= MAX_ATTEMPTS then row.(status := Dead, attempts := attempts)
    else Row(Pending, attempts, now + Delay(attempts), None)
  }

  datatype Worker = Idle | HasRead(seen: nat) | Holding(seen: nat, since: int)

  datatype System = System(row: Row, workers: map<nat, Worker>, now: int)

  datatype Label =
    | Tick(seconds: nat)
    | Read(w: nat)
    | TryClaim(w: nat)
    | Finalise(w: nat, sent: Sent)
    | Crash(w: nat)

  function WorkerOf(s: System, w: nat): Worker {
    if w in s.workers then s.workers[w] else Idle
  }

  function Apply(s: System, l: Label): System {
    match l
    case Tick(seconds) => s.(now := s.now + seconds)
    case Read(w) =>
      if WorkerOf(s, w).Idle? && (s.row.status == Pending || s.row.status == Claimed) then
        s.(workers := s.workers[w := HasRead(s.row.attempts)])
      else s
    case TryClaim(w) =>
      (match WorkerOf(s, w)
       case HasRead(seen) =>
         if Claimable(s.row, s.now) then
           s.(row := ClaimRow(s.row, s.now), workers := s.workers[w := Holding(seen, s.now)])
         else s.(workers := s.workers[w := Idle])
       case _ => s)
    case Finalise(w, sent) =>
      (match WorkerOf(s, w)
       case Holding(seen, _) =>
         s.(row := FinaliseRow(s.row, seen, sent, s.now), workers := s.workers[w := Idle])
       case _ => s)
    case Crash(w) => s.(workers := s.workers[w := Idle])
  }

  function RunAll(s: System, ls: seq<Label>): System
    decreases |ls|
  {
    if ls == [] then s else RunAll(Apply(s, ls[0]), ls[1..])
  }

  function Enqueued(now: int): Row {
    Row(Pending, 0, now, None)
  }

  function Initial(now: int): System {
    System(Enqueued(now), map[], now)
  }

  /******* What holds in every interleaving *******/

  ghost predicate Bounded(s: System) {
    && s.row.attempts <= MAX_ATTEMPTS
    && (s.row.status == Pending || s.row.status == Claimed ==> s.row.attempts < MAX_ATTEMPTS)
    && (s.row.status == Claimed ==> s.row.claimedAt.Some?)
    && forall w | w in s.workers :: !s.workers[w].Idle? ==> s.workers[w].seen < MAX_ATTEMPTS
  }

  /** However workers overlap, crash or outlive their leases, no row is ever tried
      more than six times on the books. */
  lemma {:induction false} AttemptsBounded(s: System, ls: seq<Label>)
    requires Bounded(s)
    ensures Bounded(RunAll(s, ls)) && RunAll(s, ls).row.attempts <= 6
    decreases |ls|
  {
    if ls != [] {
      AttemptsBounded(Apply(s, ls[0]), ls[1..]);
    }
  }

  lemma {:induction false} NeverMoreThanSixAttempts(now: int, ls: seq<Label>)
    ensures RunAll(Initial(now), ls).row.attempts <= 6
  {
    AttemptsBounded(Initial(now), ls);
  }

  /******* Mutual exclusion under timely workers *******/

  predicate Holds(s: System, w: nat) {
    WorkerOf(s, w).Holding?
  }

  /** The assumption on workers: whoever is still between claim and finalise has
      claimed less than a lease ago. */
  ghost predicate Timely(s: System) {
    forall w | Holds(s, w) :: s.now < WorkerOf(s, w).since + LEASE
  }

  /** It must hold all along, not only in the end. */
  ghost predicate TimelyThroughout(s: System, ls: seq<Label>)
    decreases |ls|
  {
    Timely(s) && (ls == [] || TimelyThroughout(Apply(s, ls[0]), ls[1..]))
  }

  ghost predicate Exclusive(s: System) {
    && (forall w, v | Holds(s, w) && Holds(s, v) :: w == v)
    && (forall w | Holds(s, w) :: s.row.status == Claimed && s.row.claimedAt == Some(WorkerOf(s, w).since))
  }

  /** An action that lets no worker in and leaves the row alone. */
  lemma NobodyEnters(s: System, after: System)
    requires Exclusive(s) && after.row == s.row
    requires forall w | Holds(after, w) :: Holds(s, w) && WorkerOf(after, w) == WorkerOf(s, w)
    ensures Exclusive(after)
  {
    forall w, v | Holds(after, w) && Holds(after, v)
      ensures w == v
    { assert Holds(s, w) && Holds(s, v); }
  }

  /** One worker changes; the others are as they were. */
  lemma OneWorkerChanges(s: System, after: System, w: nat, worker: Worker)
    requires after.workers == s.workers[w := worker]
    ensures WorkerOf(after, w) == worker
    ensures forall v | v != w :: WorkerOf(after, v) == WorkerOf(s, v) && (Holds(after, v) <==> Holds(s, v))
  {
  }

  /** The holder finalises, and nobody holds the row any more. */
  lemma FinaliseKeepsExclusive(s: System, after: System, w: nat)
    requires Exclusive(s) && Holds(s, w) && after.workers == s.workers[w := Idle]
    ensures Exclusive(after)
  {
    OneWorkerChanges(s, after, w, Idle);
    forall v
      ensures !Holds(after, v)
    { assert Holds(s, v) ==> v == w; }
  }

  lemma TimelyHolder(s: System, v: nat)
    requires Exclusive(s) && Timely(s)
    ensures Holds(s, v) ==> !Claimable(s.row, s.now)
  {
  }

  /** While holders are timely, a row can be claimed only if nobody holds it. */
  lemma ClaimKeepsExclusive(s: System, after: System, w: nat, seen: nat)
    requires Exclusive(s) && Timely(s) && Claimable(s.row, s.now)
    requires after.row == ClaimRow(s.row, s.now) && after.workers == s.workers[w := Holding(seen, s.now)]
    ensures Exclusive(after)
  {
    OneWorkerChanges(s, after, w, Holding(seen, s.now));
    forall v
      ensures !Holds(s, v)
    {
      TimelyHolder(s, v);
    }
  }

  lemma ApplyKeepsExclusive(s: System, l: Label)
    requires Exclusive(s) && Timely(s)
    ensures Exclusive(Apply(s, l))
    ensures s.row.status == Delivered || s.row.status == Dead ==> Apply(s, l).row == s.row
  {
    var after := Apply(s, l);
    match l
    case Finalise(w, sent) =>
      if Holds(s, w) { FinaliseKeepsExclusive(s, after, w); }
    case TryClaim(w) =>
      if WorkerOf(s, w).HasRead? {
        if Claimable(s.row, s.now) {
          ClaimKeepsExclusive(s, after, w, WorkerOf(s, w).seen);
        } else {
          OneWorkerChanges(s, after, w, Idle);
          NobodyEnters(s, after);
        }
      }
    case Read(w) =>
      if after != s {
        OneWorkerChanges(s, after, w, HasRead(s.row.attempts));
        NobodyEnters(s, after);
      }
    case Crash(w) =>
      OneWorkerChanges(s, after, w, Idle);
      NobodyEnters(s, after);
    case Tick(_) => NobodyEnters(s, after);
  }

  /** With timely workers at most one is ever between claim and finalise, and a
      delivered or dead row stays as it is. */
  lemma {:induction false} OneHolderAtATime(s: System, ls: seq<Label>)
    requires Exclusive(s) && TimelyThroughout(s, ls)
    ensures Exclusive(RunAll(s, ls))
    ensures s.row.status == Delivered || s.row.status == Dead ==> RunAll(s, ls).row == s.row
    decreases |ls|
  {
    if ls != [] {
      ApplyKeepsExclusive(s, ls[0]);
      OneHolderAtATime(Apply(s, ls[0]), ls[1..]);
    }
  }

  lemma {:induction false} DeliveryIsExclusive(now: int, ls: seq<Label>, w: nat, v: nat)
    requires TimelyThroughout(Initial(now), ls)
    requires Holds(RunAll(Initial(now), ls), w) && Holds(RunAll(Initial(now), ls), v)
    ensures w == v && RunAll(Initial(now), ls).row.status == Claimed
  {
    OneHolderAtATime(Initial(now), ls);
  }

  /** The assumption is needed exactly where a lease runs out: a claim beside a live
      holder succeeds if and only if that holder is late. */
  lemma SecondClaimSucceedsExactlyWhenHolderLate(s: System, w: nat, v: nat)
    requires Exclusive(s) && Holds(s, v) && WorkerOf(s, w).HasRead?
    ensures (Holds(Apply(s, TryClaim(w)), w) && Holds(Apply(s, TryClaim(w)), v)) <==> s.now >= WorkerOf(s, v).since + LEASE
  {
    assert w != v;
  }

  /** And then the late holder's unguarded write can reopen a delivered row. */
  lemma LateHolderReopensDelivered(now: int)
    ensures var late := Apply(Apply(Apply(Initial(now), Read(1)), TryClaim(1)), Tick(300));
      var delivered := Apply(Apply(Apply(late, Read(2)), TryClaim(2)), Finalise(2, SentOk));
      && delivered.row.status == Delivered
      && Apply(delivered, Finalise(1, SentFailed)).row.status == Pending
  {
    var late := Apply(Apply(Apply(Initial(now), Read(1)), TryClaim(1)), Tick(300));
    assert WorkerOf(late, 1) == Holding(0, now) && Claimable(late.row, late.now);
    assert WorkerOf(Apply(Apply(late, Read(2)), TryClaim(2)), 1) == Holding(0, now);
  }

  /******* One crash-free delivery thread *******/

  /** A delivery that starts when the row is due, and ends at `finish`. */
  datatype Try = Try(start: int, finish: int, sent: Sent)

  function Deliver(row: Row, t: Try): Row {
    FinaliseRow(ClaimRow(row, t.start), row.attempts, t.sent, t.finish)
  }

  function AfterTries(row: Row, tries: seq<Try>): Row
    decreases |tries|
  {
    if tries == [] then row else AfterTries(Deliver(row, tries[0]), tries[1..])
  }

  /** `_due_outbox` hands out a row only when it is pending and due. */
  predicate Schedule(row: Row, tries: seq<Try>)
    decreases |tries|
  {
    tries == []
    || (row.status == Pending && row.nextAttempt <= tries[0].start <= tries[0].finish
        && Schedule(Deliver(row, tries[0]), tries[1..]))
  }

  /** Seconds of back-off between the try after `from` failures and the sixth try. */
  function BackoffFrom(from: nat): nat
    decreases 5 - from
  {
    if from >= 5 then 0 else Delay(from + 1) + BackoffFrom(from + 1)
  }

  lemma {:induction false} TriesFrom(row: Row, tries: seq<Try>)
    requires row.status == Pending && row.attempts < MAX_ATTEMPTS && Schedule(row, tries)
    ensures |tries| <= MAX_ATTEMPTS - row.attempts
    ensures AfterTries(row, tries).attempts == row.attempts + |tries|
    ensures |tries| == MAX_ATTEMPTS - row.attempts ==>
      && tries[|tries| - 1].start >= row.nextAttempt + BackoffFrom(row.attempts)
      && tries[|tries| - 1].start >= tries[0].start + BackoffFrom(row.attempts)
      && AfterTries(row, tries).status in {Delivered, Dead}
    ensures forall i | 0 <= i < |tries| - 1 :: tries[i].sent == SentFailed
    ensures tries != [] ==>
      (AfterTries(row, tries).status == Delivered <==> tries[|tries| - 1].sent == SentOk)
    ensures AfterTries(row, tries).status == Pending <==>
      (forall i | 0 <= i < |tries| :: tries[i].sent == SentFailed) && row.attempts + |tries| < MAX_ATTEMPTS
    decreases |tries|
  {
    if tries != [] {
      var next := Deliver(row, tries[0]);
      if next.status == Pending {
        TriesFrom(next, tries[1..]);
        assert forall i | 1 <= i < |tries| :: tries[i] == tries[1..][i - 1];
      } else {
        assert tries[1..] == [];
      }
    }
  }

  /** Before each further try the back-off of the attempts so far has passed. */
  lemma {:induction false} GapsOfSchedule(row: Row, tries: seq<Try>)
    requires row.status == Pending && row.attempts < 6 && Schedule(row, tries)
    ensures |tries| <= 6 - row.attempts
    ensures forall k | 0 <= k < |tries| - 1 :: tries[k + 1].start >= tries[k].finish + [2, 8, 30, 120, 600][row.attempts + k]
    decreases |tries|
  {
    if |tries| > 1 {
      var next := Deliver(row, tries[0]);
      GapsOfSchedule(next, tries[1..]);
      forall k | 0 <= k < |tries| - 1
        ensures tries[k + 1].start >= tries[k].finish + [2, 8, 30, 120, 600][row.attempts + k]
      {
        if k > 0 {
          assert tries[1..][k - 1] == tries[k] && tries[1..][k] == tries[k + 1];
        }
      }
    }
  }

  lemma TotalBackoff()
    ensures BackoffFrom(0) == 760
  {
    assert BackoffFrom(3) == 720 && BackoffFrom(1) == 758;
  }

  /** Delivered by one crash-free thread, a row ends within six tries, its attempts
      count the tries, and the sixth starts at least 760 seconds after the first. */
  lemma {:induction false} SixTriesWithBackoff(now: int, tries: seq<Try>)
    requires Schedule(Enqueued(now), tries)
    ensures |tries| <= 6
    ensures AfterTries(Enqueued(now), tries).attempts == |tries|
    ensures |tries| == 6 ==>
      && tries[5].start >= tries[0].start + 760
      && AfterTries(Enqueued(now), tries).status in {Delivered, Dead}
    ensures tries != [] ==>
      (AfterTries(Enqueued(now), tries).status == Delivered <==> tries[|tries| - 1].sent == SentOk)
    ensures AfterTries(Enqueued(now), tries).status == Pending <==>
      |tries| < 6 && forall i | 0 <= i < |tries| :: tries[i].sent == SentFailed
  {
    TriesFrom(Enqueued(now), tries);
    TotalBackoff();
  }
}
