/**
  The outbox table as the service updates it: enqueueing with deduplication, and
  delivery by one worker.  Sends are given by their outcome; a destination is
  written the way the idempotency key ends.
  */
module Outbox {
  import opened Prelude
  import opened Text
  import opened OutboxProtocol

  datatype Destination = Webhook(id: nat) | Slack | Email

  datatype Event = Event(event: string, run: nat, destination: Destination, key: string, row: Row)

  function DestinationKey(d: Destination): string {
    match d
    case Webhook(id) => Decimal(id)
    case Slack => "slack"
    case Email => "email"
  }

  /** `f"{event}:{run_id}:{destination}"` */
  function Key(event: string, run: nat, d: Destination): string {
    event + [':'] + (Decimal(run) + [':'] + DestinationKey(d))
  }

  lemma {:induction false} DigitsHaveNoColon(n: nat)
    ensures ':' !in Decimal(n)
  {
    assert !IsDigit(':');
    assert forall i | 0 <= i < |Decimal(n)| :: Decimal(n)[i] != ':';
  }

  lemma {:induction false} DecimalInjective(m: nat, n: nat)
    requires Decimal(m) == Decimal(n)
    ensures m == n
  {
    ParseInvertsDecimal(m);
    ParseInvertsDecimal(n);
  }

  lemma KindFromFirstChar(d: Destination)
    ensures DestinationKey(d) != []
    ensures d.Webhook? <==> IsDigit(DestinationKey(d)[0])
    ensures d.Slack? <==> DestinationKey(d)[0] == 's'
  {
    assert "slack"[0] == 's' && "email"[0] == 'e';
    if d.Webhook? {
      assert IsDigit(Decimal(d.id)[0]);
    }
  }

  lemma DestinationKeyInjective(d: Destination, d': Destination)
    requires DestinationKey(d) == DestinationKey(d')
    ensures d == d'
  {
    KindFromFirstChar(d);
    KindFromFirstChar(d');
    if d.Webhook? {
      DecimalInjective(d.id, d'.id);
    }
  }

  /** The key names its event, run and destination; event names bear no colon. */
  lemma KeyInjective(event: string, run: nat, d: Destination, event': string, run': nat, d': Destination)
    requires ':' !in event && ':' !in event'
    requires Key(event, run, d) == Key(event', run', d')
    ensures event == event' && run == run' && d == d'
  {
    SplitUnique(event, Decimal(run) + [':'] + DestinationKey(d), event', Decimal(run') + [':'] + DestinationKey(d'), ':');
    DigitsHaveNoColon(run);
    DigitsHaveNoColon(run');
    SplitUnique(Decimal(run), DestinationKey(d), Decimal(run'), DestinationKey(d'), ':');
    DecimalInjective(run, run');
    DestinationKeyInjective(d, d');
  }

  datatype Subscription = Subscription(webhook: nat, enabled: bool, events: seq<string>)

  predicate Wants(s: Subscription, event: string) {
    s.enabled && event in s.events
  }

  /** A destination together with the idempotency key of its row. */
  datatype Recipient = Recipient(destination: Destination, key: string)

  /** The recipients of one dispatch, in order. */
  function Recipients(subscriptions: seq<Subscription>, event: string, run: nat, slack: bool, email: bool): seq<Recipient> {
    WebhookRecipients(subscriptions, event, run) + Channel(slack, event, run, Slack) + Channel(email, event, run, Email)
  }

  function Channel(on: bool, event: string, run: nat, d: Destination): seq<Recipient> {
    if on then [Recipient(d, Key(event, run, d))] else []
  }

  function WebhookRecipients(subscriptions: seq<Subscription>, event: string, run: nat): seq<Recipient> {
    if subscriptions == [] then []
    else
      var last := subscriptions[|subscriptions| - 1];
      WebhookRecipients(subscriptions[..|subscriptions| - 1], event, run)
      + Channel(Wants(last, event), event, run, Webhook(last.webhook))
  }

  /** The destinations of an event: the enabled webhooks subscribed to it, and the two
      channels if they are configured. */
  ghost predicate Wanted(subscriptions: seq<Subscription>, event: string, slack: bool, email: bool, d: Destination) {
    match d
    case Webhook(id) =>
      exists i | 0 <= i < |subscriptions| ::
        subscriptions[i].webhook == id && subscriptions[i].enabled && event in subscriptions[i].events
    case Slack => slack
    case Email => email
  }

  lemma {:induction false} WebhooksExactly(subscriptions: seq<Subscription>, event: string, run: nat, r: Recipient)
    ensures r in WebhookRecipients(subscriptions, event, run) <==>
              && r.destination.Webhook? && Wanted(subscriptions, event, false, false, r.destination)
              && r.key == Key(event, run, r.destination)
  {
    if subscriptions != [] {
      var n := |subscriptions| - 1;
      WebhooksExactly(subscriptions[..n], event, run, r);
      if r.destination.Webhook? {
        if i :| 0 <= i < n && subscriptions[i].webhook == r.destination.id && subscriptions[i].enabled
                && event in subscriptions[i].events {
          assert subscriptions[..n][i] == subscriptions[i];
        }
      }
    }
  }

  /** A dispatch addresses exactly the destinations that want the event. */
  lemma RecipientsExactly(subscriptions: seq<Subscription>, event: string, run: nat, slack: bool, email: bool, r: Recipient)
    ensures r in Recipients(subscriptions, event, run, slack, email) <==>
              Wanted(subscriptions, event, slack, email, r.destination) && r.key == Key(event, run, r.destination)
  {
    WebhooksExactly(subscriptions, event, run, r);
  }

  lemma {:induction false} ChannelKeyText(event: string, run: nat)
    ensures Key(event, run, Slack) == event + ":" + Decimal(run) + ":slack"
    ensures Key(event, run, Email) == event + ":" + Decimal(run) + ":email"
  {
    KeyText(event, run, Slack, "slack");
    KeyText(event, run, Email, "email");
  }

  lemma {:induction false} WebhookKeyText(event: string, run: nat, id: nat)
    ensures Key(event, run, Webhook(id)) == event + ":" + Decimal(run) + ":" + Decimal(id)
  {
    KeyText(event, run, Webhook(id), Decimal(id));
  }

  lemma {:induction false} KeyText(event: string, run: nat, d: Destination, end: string)
    requires end == DestinationKey(d)
    ensures Key(event, run, d) == event + ":" + Decimal(run) + ":" + end == event + ":" + Decimal(run) + (":" + end)
  {
  }

  predicate Addressed(to: seq<Recipient>, event: string, run: nat) {
    forall i | 0 <= i < |to| :: to[i].key == Key(event, run, to[i].destination)
  }

  lemma {:induction false} RecipientsAddressed(subscriptions: seq<Subscription>, event: string, run: nat, slack: bool,
                                               email: bool)
    ensures Addressed(Recipients(subscriptions, event, run, slack, email), event, run)
  {
    WebhooksAddressed(subscriptions, event, run);
  }

  lemma {:induction false} WebhooksAddressed(subscriptions: seq<Subscription>, event: string, run: nat)
    ensures Addressed(WebhookRecipients(subscriptions, event, run), event, run)
  {
    if subscriptions != [] {
      WebhooksAddressed(subscriptions[..|subscriptions| - 1], event, run);
    }
  }

  predicate Contains(events: seq<Event>, key: string) {
    exists i | 0 <= i < |events| :: events[i].key == key
  }

  /** INSERT OR IGNORE */
  function Insert(events: seq<Event>, event: string, run: nat, r: Recipient, now: int): seq<Event> {
    if Contains(events, r.key) then events
    else events + [Event(event, run, r.destination, r.key, Enqueued(now))]
  }

  /** The same for each recipient in turn. */
  function EnqueueAll(events: seq<Event>, event: string, run: nat, to: seq<Recipient>, now: int): seq<Event> {
    if to == [] then events
    else Insert(EnqueueAll(events, event, run, to[..|to| - 1], now), event, run, to[|to| - 1], now)
  }

  /** `UNIQUE(idempotency_key)` */
  ghost predicate UniqueKeys(events: seq<Event>) {
    forall i, j | 0 <= i < j < |events| :: events[i].key != events[j].key
  }

  /** Keys are what the service builds, from event names without a colon. */
  ghost predicate WellKeyed(events: seq<Event>) {
    forall i | 0 <= i < |events| ::
      ':' !in events[i].event && events[i].key == Key(events[i].event, events[i].run, events[i].destination)
  }

  /** At most one row per (event, run, destination), and a different key for each. */
  lemma OneRowPerTriple(events: seq<Event>, i: nat, j: nat)
    requires UniqueKeys(events) && WellKeyed(events) && i < |events| && j < |events|
    ensures (events[i].event == events[j].event && events[i].run == events[j].run
             && events[i].destination == events[j].destination) <==> i == j
    ensures events[i].key == events[j].key <==> i == j
  {
  }

  /** INSERT OR IGNORE drops a row exactly when the table already holds one for the
      same event, run and destination. */
  lemma IgnoredExactlyWhenPresent(events: seq<Event>, event: string, run: nat, d: Destination)
    requires WellKeyed(events) && ':' !in event
    ensures Contains(events, Key(event, run, d)) <==>
              exists i | 0 <= i < |events| ::
                events[i].event == event && events[i].run == run && events[i].destination == d
  {
    if i :| 0 <= i < |events| && events[i].key == Key(event, run, d) {
      KeyInjective(events[i].event, events[i].run, events[i].destination, event, run, d);
    }
  }

  lemma {:induction false} EnqueueKeepsKeys(events: seq<Event>, event: string, run: nat, to: seq<Recipient>, now: int)
    requires UniqueKeys(events)
    ensures UniqueKeys(EnqueueAll(events, event, run, to, now))
    ensures events <= EnqueueAll(events, event, run, to, now)
    ensures WellKeyed(events) && ':' !in event && Addressed(to, event, run) ==> WellKeyed(EnqueueAll(events, event, run, to, now))
  {
    if to != [] {
      EnqueueKeepsKeys(events, event, run, to[..|to| - 1], now);
    }
  }

  /** Every recipient has its row. */
  lemma {:induction false} EnqueueReachesAll(events: seq<Event>, event: string, run: nat, to: seq<Recipient>, now: int, k: nat)
    requires k < |to|
    ensures Contains(EnqueueAll(events, event, run, to, now), to[k].key)
  {
    var earlier := EnqueueAll(events, event, run, to[..|to| - 1], now);
    InsertContains(earlier, event, run, to[|to| - 1], now, to[k].key);
    if k < |to| - 1 {
      EnqueueReachesAll(events, event, run, to[..|to| - 1], now, k);
    }
  }

  lemma InsertContains(events: seq<Event>, event: string, run: nat, r: Recipient, now: int, key: string)
    ensures Contains(Insert(events, event, run, r, now), key) <==> Contains(events, key) || key == r.key
  {
    var after := Insert(events, event, run, r, now);
    if i :| 0 <= i < |events| && events[i].key == key {
      assert after[i].key == key;
    } else if key == r.key {
      assert after[|events|].key == key;
    }
  }

  /** A new row of a table: for this event and run, pending, and due at once. */
  ghost predicate Fresh(e: Event, event: string, run: nat, now: int) {
    && e.event == event && e.run == run
    && e.row.status == Pending && e.row.attempts == 0 && e.row.nextAttempt == now && e.row.claimedAt == None
  }

  lemma {:induction false} EnqueueAddsFresh(events: seq<Event>, event: string, run: nat, to: seq<Recipient>, now: int)
    ensures events <= EnqueueAll(events, event, run, to, now)
    ensures forall i | |events| <= i < |EnqueueAll(events, event, run, to, now)| ::
              var e := EnqueueAll(events, event, run, to, now)[i];
              Fresh(e, event, run, now) && Recipient(e.destination, e.key) in to
  {
    if to != [] {
      EnqueueAddsFresh(events, event, run, to[..|to| - 1], now);
    }
  }

  /** A dispatch keeps all rows, adds fresh ones for destinations that want the event,
      and leaves every such destination with a row. */
  lemma {:induction false} DispatchExactly(events: seq<Event>, event: string, run: nat, subscriptions: seq<Subscription>,
                                           slack: bool, email: bool, now: int, after: seq<Event>)
    requires after == EnqueueAll(events, event, run, Recipients(subscriptions, event, run, slack, email), now)
    ensures events <= after
    ensures forall i | |events| <= i < |after| ::
              Fresh(after[i], event, run, now) && Wanted(subscriptions, event, slack, email, after[i].destination)
    ensures forall d | Wanted(subscriptions, event, slack, email, d) :: Contains(after, Key(event, run, d))
  {
    var to := Recipients(subscriptions, event, run, slack, email);
    EnqueueAddsFresh(events, event, run, to, now);
    forall i | |events| <= i < |after|
      ensures Wanted(subscriptions, event, slack, email, after[i].destination)
    {
      RecipientsExactly(subscriptions, event, run, slack, email, Recipient(after[i].destination, after[i].key));
    }
    forall d | Wanted(subscriptions, event, slack, email, d)
      ensures Contains(after, Key(event, run, d))
    {
      var r := Recipient(d, Key(event, run, d));
      RecipientsExactly(subscriptions, event, run, slack, email, r);
      var k :| 0 <= k < |to| && to[k] == r;
      EnqueueReachesAll(events, event, run, to, now, k);
    }
  }

  /** Dispatching again adds nothing: each recipient keeps its one row. */
  lemma {:induction false} DispatchTwiceIsOnce(events: seq<Event>, event: string, run: nat, to: seq<Recipient>, now: int,
                                               again: seq<Recipient>, later: int)
    requires forall r | r in again :: r in to
    ensures EnqueueAll(EnqueueAll(events, event, run, to, now), event, run, again, later)
            == EnqueueAll(events, event, run, to, now)
  {
    if again != [] {
      var n := |again| - 1;
      assert forall r | r in again[..n] :: r in again;
      DispatchTwiceIsOnce(events, event, run, to, now, again[..n], later);
      assert again[n] in again;
      var k :| 0 <= k < |to| && to[k] == again[n];
      EnqueueReachesAll(events, event, run, to, now, k);
    }
  }

  /** Due now: pending and past its delay, or claimed by a holder whose lease is over. */
  predicate Due(row: Row, now: int) {
    || (row.status == Pending && row.nextAttempt <= now)
    || (row.status == Claimed && row.claimedAt.Some? && row.claimedAt.value <= now - LEASE)
  }

  function DueIds(events: seq<Event>, now: int): seq<nat> {
    if events == [] then []
    else DueIds(events[..|events| - 1], now) + (if Due(events[|events| - 1].row, now) then [|events| - 1] else [])
  }

  /** What `_due_outbox` selects: the first due rows, at most `limit`. */
  function FirstDue(events: seq<Event>, limit: nat, now: int): seq<nat> {
    if |DueIds(events, now)| <= limit then DueIds(events, now) else DueIds(events, now)[..limit]
  }

  /** In ascending order and without repetition. */
  lemma {:induction false} DueAscends(events: seq<Event>, now: int)
    ensures forall k | 0 <= k < |DueIds(events, now)| :: DueIds(events, now)[k] < |events|
    ensures forall j, k | 0 <= j < k < |DueIds(events, now)| :: DueIds(events, now)[j] < DueIds(events, now)[k]
  {
    if events != [] {
      DueAscends(events[..|events| - 1], now);
    }
  }

  /** Handed out at `now`: pending rows whose time has come, and rows claimed five
      minutes ago or earlier; all of them, or as many of the oldest as the limit allows. */
  ghost predicate HandsOut(events: seq<Event>, limit: nat, now: int, ids: seq<nat>) {
    && |ids| <= limit
    && (forall j, k | 0 <= j < k < |ids| :: ids[j] < ids[k])
    && (forall id | id in ids :: id < |events| && (events[id].row.status == Pending || events[id].row.status == Claimed))
    && (forall id | id in ids && events[id].row.status == Pending :: events[id].row.nextAttempt <= now)
    && (forall id | id in ids && events[id].row.status == Claimed ::
          events[id].row.claimedAt.Some? && events[id].row.claimedAt.value + 300 <= now)
    && (forall id: nat | id < |events| && events[id].row.status == Pending && events[id].row.nextAttempt <= now ::
          id in ids || FullBefore(ids, limit, id))
    && (forall id: nat | id < |events| && events[id].row.status == Claimed && events[id].row.claimedAt.Some?
                         && events[id].row.claimedAt.value + 300 <= now :: id in ids || FullBefore(ids, limit, id))
  }

  /** The limit is reached with rows that precede `id`. */
  ghost predicate FullBefore(ids: seq<nat>, limit: nat, id: nat) {
    |ids| == limit && forall k | 0 <= k < |ids| :: ids[k] < id
  }

  lemma FirstDueExactly(events: seq<Event>, limit: nat, now: int)
    ensures HandsOut(events, limit, now, FirstDue(events, limit, now))
  {
    DueAreClaimable(events, now);
    DueAscends(events, now);
    var all, ids := DueIds(events, now), FirstDue(events, limit, now);
    forall id | id in all && id !in ids
      ensures FullBefore(ids, limit, id)
    {
      var k :| 0 <= k < |all| && all[k] == id;
      assert forall j | 0 <= j < |ids| :: all[j] in ids;
    }
  }

  /** A row that is handed out as due can also be claimed. */
  lemma {:induction false} DueAreClaimable(events: seq<Event>, now: int)
    ensures forall id :: id in DueIds(events, now) <==> 0 <= id < |events| && Due(events[id].row, now)
    ensures forall id | id in DueIds(events, now) :: Claimable(events[id].row, now)
  {
    if events != [] {
      DueAreClaimable(events[..|events| - 1], now);
    }
  }

  /******* The worker loop *******/

  /** One round of `_outbox_loop` at `now`: the tries it makes, row by row. */
  datatype Poll = Poll(now: int, tries: nat -> Try)

  /** Rows are tried after they were handed out. */
  ghost predicate InTime(poll: Poll) {
    forall id :: poll.now <= poll.tries(id).start <= poll.tries(id).finish
  }

  /** The table after some of its rows were delivered. */
  function AfterDeliveries(events: seq<Event>, ids: seq<nat>, tries: nat -> Try): (after: seq<Event>)
    ensures |after| == |events|
  {
    seq(|events|, id requires 0 <= id < |events| =>
      if id in ids then events[id].(row := OutboxProtocol.Deliver(events[id].row, tries(id))) else events[id])
  }

  lemma OneMoreDelivery(events: seq<Event>, ids: seq<nat>, tries: nat -> Try, id: nat)
    requires id < |events| && id !in ids
    ensures AfterDeliveries(events, ids, tries)[id] == events[id]
    ensures AfterDeliveries(events, ids + [id], tries)
         == AfterDeliveries(events, ids, tries)[id := events[id].(row := OutboxProtocol.Deliver(events[id].row, tries(id)))]
  {
  }

  /** The table after a round: the rows handed out were delivered, the others left alone. */
  function AfterPoll(events: seq<Event>, limit: nat, poll: Poll): (after: seq<Event>)
    ensures |after| == |events|
  {
    AfterDeliveries(events, FirstDue(events, limit, poll.now), poll.tries)
  }

  class Table {
    var events: seq<Event>

    constructor ()
      ensures events == [] && Valid()
    {
      events := [];
    }

    ghost predicate Valid()
      reads this
    {
      UniqueKeys(events) && WellKeyed(events)
    }

    /** `_enqueue_outbox` */
    method Enqueue(event: string, run: nat, r: Recipient, now: int)
      modifies this
      ensures events == Insert(old(events), event, run, r, now)
    {
      if !(exists i | 0 <= i < |events| :: events[i].key == r.key) {
        events := events + [Event(event, run, r.destination, r.key, Enqueued(now))];
      }
    }

    /** `_dispatch_webhooks` */
    method Dispatch(run: nat, event: string, subscriptions: seq<Subscription>, slack: bool, email: bool, now: int)
      requires Valid() && ':' !in event
      modifies this
      ensures Valid()
      ensures events == EnqueueAll(old(events), event, run, Recipients(subscriptions, event, run, slack, email), now)
    {
      var i := 0;
      ghost var done := [];
      while i < |subscriptions|
        invariant i <= |subscriptions|
        invariant done == WebhookRecipients(subscriptions[..i], event, run)
        invariant events == EnqueueAll(old(events), event, run, done, now)
      {
        assert subscriptions[..i + 1][..i] == subscriptions[..i];
        var d := Webhook(subscriptions[i].webhook);
        var wanted := subscriptions[i].enabled && event in subscriptions[i].events;
        DispatchTo(wanted, event, run, d, now, old(events), done);
        done := done + Channel(wanted, event, run, d);
        i := i + 1;
      }
      assert subscriptions[..i] == subscriptions;
      DispatchTo(slack, event, run, Slack, now, old(events), done);
      done := done + Channel(slack, event, run, Slack);
      DispatchTo(email, event, run, Email, now, old(events), done);
      RecipientsAddressed(subscriptions, event, run, slack, email);
      EnqueueKeepsKeys(old(events), event, run, Recipients(subscriptions, event, run, slack, email), now);
    }

    /** One destination of a dispatch, if it is wanted. */
    method DispatchTo(wanted: bool, event: string, run: nat, d: Destination, now: int,
                      ghost before: seq<Event>, ghost done: seq<Recipient>)
      requires events == EnqueueAll(before, event, run, done, now)
      modifies this
      ensures events == EnqueueAll(before, event, run, done + Channel(wanted, event, run, d), now)
    {
      if wanted {
        var r := Recipient(d, Key(event, run, d));
        Enqueue(event, run, r, now);
        assert (done + [r])[..|done|] == done;
      } else {
        assert done + [] == done;
      }
    }

    /** `_due_outbox` */
    method DueOutbox(limit: nat, now: int) returns (ids: seq<nat>)
      ensures ids == FirstDue(events, limit, now)
      ensures HandsOut(events, limit, now, ids)
    {
      ids := SelectDue(limit, now);
      FirstDueExactly(events, limit, now);
    }

    /** Its SELECT: rows in the order of their ids, until the limit is reached. */
    method SelectDue(limit: nat, now: int) returns (ids: seq<nat>)
      ensures ids == FirstDue(events, limit, now)
    {
      ids := [];
      var id := 0;
      while id < |events| && |ids| < limit
        invariant id <= |events| && |ids| <= limit
        invariant ids == DueIds(events[..id], now)
      {
        assert events[..id + 1][..id] == events[..id];
        if Due(events[id].row, now) {
          ids := ids + [id];
        }
        id := id + 1;
      }
      DuePrefix(events, id, now);
      assert events[..|events|] == events;
    }

    /** `_claim_outbox` */
    method Claim(id: nat, now: int) returns (claimed: bool)
      requires Valid() && id < |events|
      modifies this
      ensures Valid()
      ensures claimed == Claimable(old(events)[id].row, now)
      ensures events == if claimed then old(events)[id := old(events)[id].(row := ClaimRow(old(events)[id].row, now))]
                        else old(events)
    {
      var row := events[id].row;
      claimed := row.status == Pending
                 || (row.status == Claimed && row.claimedAt.Some? && row.claimedAt.value <= now - LEASE);
      if claimed {
        events := events[id := events[id].(row := row.(status := Claimed, claimedAt := Some(now)))];
      }
    }

    /** `_deliver_outbox`, alone on its row: claim at `start`, outcome `sent` at `finish`. */
    method Deliver(id: nat, start: int, finish: int, sent: Sent) returns (tried: bool)
      requires Valid() && id < |events|
      modifies this
      ensures Valid()
      ensures tried == Claimable(old(events)[id].row, start)
      ensures events == if tried
        then old(events)[id := old(events)[id].(row := OutboxProtocol.Deliver(old(events)[id].row, Try(start, finish, sent)))]
        else old(events)
    {
      var row := events[id].row;
      if row.status != Pending && row.status != Claimed {
        return false;
      }
      tried := Claim(id, start);
      if !tried {
        return;
      }
      var attempts := row.attempts + 1;
      var claimed := events[id].row;
      var updated;
      if sent.SentOk? || sent.SentDead? || attempts >= MAX_ATTEMPTS {
        var finalStatus := if sent.SentOk? then Delivered else Dead;
        updated := claimed.(status := finalStatus, attempts := attempts);
      } else {
        updated := claimed.(status := Pending, claimedAt := None, attempts := attempts, nextAttempt := finish + Delay(attempts));
      }
      events := events[id := events[id].(row := updated)];
      assert events[id].row == OutboxProtocol.Deliver(row, Try(start, finish, sent));
      assert events == old(events)[id := events[id]];
    }

    /** One round of `_outbox_loop`. */
    method WorkOutbox(limit: nat, poll: Poll)
      requires Valid() && InTime(poll)
      modifies this
      ensures Valid()
      ensures events == AfterPoll(old(events), limit, poll)
    {
      var ids := SelectDue(limit, poll.now);
      var i := 0;
      assert AfterDeliveries(events, ids[..0], poll.tries) == events;
      while i < |ids|
        invariant i <= |ids| && Valid()
        invariant events == AfterDeliveries(old(events), ids[..i], poll.tries)
      {
        var t := poll.tries(ids[i]);
        HandedOutCanBeTried(old(events), limit, poll.now, ids, i, t.start);
        OneMoreDelivery(old(events), ids[..i], poll.tries, ids[i]);
        assert ids[..i + 1] == ids[..i] + [ids[i]];
        var _ := Deliver(ids[i], t.start, t.finish, t.sent);
        i := i + 1;
      }
      assert ids[..i] == ids;
    }
  }

  lemma HandedOutCanBeTried(events: seq<Event>, limit: nat, now: int, ids: seq<nat>, i: nat, start: int)
    requires ids == FirstDue(events, limit, now) && i < |ids| && now <= start
    ensures ids[i] < |events| && ids[i] !in ids[..i]
    ensures Claimable(events[ids[i]].row, start)
  {
    FirstDueExactly(events, limit, now);
    assert ids[i] in ids;
  }

  /******* What the worker loop comes to *******/

  function AfterPolls(events: seq<Event>, limit: nat, polls: seq<Poll>): (after: seq<Event>)
    ensures |after| == |events|
    decreases |polls|
  {
    if polls == [] then events else AfterPolls(AfterPoll(events, limit, polls[0]), limit, polls[1..])
  }

  /** The tries that some rounds of the loop make on one row. */
  function TriesOf(events: seq<Event>, limit: nat, polls: seq<Poll>, id: nat): seq<Try>
    decreases |polls|
  {
    if polls == [] then []
    else
      (if id in FirstDue(events, limit, polls[0].now) then [polls[0].tries(id)] else [])
      + TriesOf(AfterPoll(events, limit, polls[0]), limit, polls[1..], id)
  }

  /** However often the loop comes round: the tries it makes on a row that no crashed
      worker holds follow the schedule, and the row is what they make of it. */
  lemma {:induction false} LoopFollowsSchedule(events: seq<Event>, limit: nat, polls: seq<Poll>, id: nat)
    requires id < |events| && events[id].row.status != Claimed
    requires forall k | 0 <= k < |polls| :: InTime(polls[k])
    ensures Schedule(events[id].row, TriesOf(events, limit, polls, id))
    ensures AfterPolls(events, limit, polls)[id].row == AfterTries(events[id].row, TriesOf(events, limit, polls, id))
    decreases |polls|
  {
    if polls != [] {
      var after, rest := AfterPoll(events, limit, polls[0]), TriesOf(AfterPoll(events, limit, polls[0]), limit, polls[1..], id);
      FirstDueExactly(events, limit, polls[0].now);
      LoopFollowsSchedule(after, limit, polls[1..], id);
      if id in FirstDue(events, limit, polls[0].now) {
        assert InTime(polls[0]);
        var tries := [polls[0].tries(id)] + rest;
        assert tries[1..] == rest;
      } else {
        assert [] + rest == rest;
      }
    }
  }

  /** So the worker loop itself tries an enqueued row at most six times, waits 2, 8, 30,
      120 and 600 seconds in between, and is done with it after the sixth try, which starts
      at least 760 seconds after the first. */
  lemma {:induction false} LoopTriesSixTimes(events: seq<Event>, limit: nat, polls: seq<Poll>, id: nat, enqueued: int)
    requires id < |events| && events[id].row == Enqueued(enqueued)
    requires forall k | 0 <= k < |polls| :: InTime(polls[k])
    ensures var tries := TriesOf(events, limit, polls, id);
      && |tries| <= 6
      && (forall k | 0 <= k < |tries| - 1 :: tries[k + 1].start >= tries[k].finish + [2, 8, 30, 120, 600][k])
      && (|tries| == 6 ==> tries[5].start >= tries[0].start + 760)
      && AfterPolls(events, limit, polls)[id].row.attempts == |tries|
      && (AfterPolls(events, limit, polls)[id].row.status == Pending <==>
            |tries| < 6 && forall k | 0 <= k < |tries| :: tries[k].sent == SentFailed)
      && (tries != [] ==> (AfterPolls(events, limit, polls)[id].row.status == Delivered <==> tries[|tries| - 1].sent == SentOk))
  {
    LoopFollowsSchedule(events, limit, polls, id);
    var tries := TriesOf(events, limit, polls, id);
    SixTriesWithBackoff(enqueued, tries);
    GapsOfSchedule(Enqueued(enqueued), tries);
  }

  lemma {:induction false} DuePrefix(events: seq<Event>, n: nat, now: int)
    requires n <= |events|
    ensures DueIds(events[..n], now) <= DueIds(events, now)
  {
    if n < |events| {
      DuePrefix(events[..|events| - 1], n, now);
      assert events[..|events| - 1][..n] == events[..n];
    } else {
      assert events[..n] == events;
    }
  }
}
