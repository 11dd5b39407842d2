/** The watcher's objects over a whole run, from the pages of the list endpoint to the messages
    handed to Telegram and the cards that arrive. */
module WatcherRuns {
  import opened Text
  import opened WatcherSpec
  import opened Listing
  import opened AccessWatcher

  // ------------------------------------------------------------------ messages attempted

  /** Whom each message is for, and the id it is about. */
  function Heads(ms: seq<Message>): (hs: seq<(int, string)>)
    ensures |hs| == |ms| && forall i | 0 <= i < |ms| :: hs[i] == (ms[i].0, ms[i].1.id)
  {
    seq(|ms|, i requires 0 <= i < |ms| => (ms[i].0, ms[i].1.id))
  }

  /** The messages due for the ids tried: id by id, operator by operator. */
  function Addressed(users: seq<int>, tried: seq<string>): seq<(int, string)> {
    if tried == [] then []
    else
      var last := tried[|tried| - 1];
      Addressed(users, tried[..|tried| - 1]) + seq(|users|, i requires 0 <= i < |users| => (users[i], last))
  }

  lemma {:induction false} AddressedAppend(users: seq<int>, tried: seq<string>, more: seq<string>)
    ensures Addressed(users, tried + more) == Addressed(users, tried) + Addressed(users, more)
  {
    if more == [] {
      assert tried + more == tried;
    } else {
      AddressedAppend(users, tried, more[..|more| - 1]);
      assert (tried + more)[..|tried + more| - 1] == tried + more[..|more| - 1];
    }
  }

  lemma {:induction false} AddressedMembers(users: seq<int>, tried: seq<string>, user: int, id: string)
    ensures (user, id) in Addressed(users, tried) <==> user in users && id in tried
  {
    if tried != [] {
      var front, last := tried[..|tried| - 1], tried[|tried| - 1];
      AddressedMembers(users, front, user, id);
      var fan := seq(|users|, i requires 0 <= i < |users| => (users[i], last));
      assert tried == front + [last];
      if user in users && id == last {
        var i :| 0 <= i < |users| && users[i] == user;
        assert fan[i] == (user, id);
      }
    }
  }

  lemma {:induction false} FanCount(users: seq<int>, x: string, user: int, id: string)
    ensures multiset(seq(|users|, i requires 0 <= i < |users| => (users[i], x)))[(user, id)]
            == if x == id then multiset(users)[user] else 0
  {
    var fan := seq(|users|, i requires 0 <= i < |users| => (users[i], x));
    if users != [] {
      var front, last := users[..|users| - 1], users[|users| - 1];
      FanCount(front, x, user, id);
      assert fan == seq(|front|, i requires 0 <= i < |front| => (front[i], x)) + [(last, x)];
      assert users == front + [last];
    }
  }

  /** An operator listed once is due one message per try. */
  lemma {:induction false} AddressedCount(users: seq<int>, tried: seq<string>, user: int, id: string)
    requires Distinct(users)
    ensures multiset(Addressed(users, tried))[(user, id)] == if user in users then multiset(tried)[id] else 0
  {
    if tried != [] {
      var front, last := tried[..|tried| - 1], tried[|tried| - 1];
      AddressedCount(users, front, user, id);
      FanCount(users, last, user, id);
      DistinctOccursOnce(users, user);
      assert multiset(users)[user] > 0 <==> user in users;
      assert tried == front + [last];
    }
  }

  /** The messages of an announce loop are the messages due for its ids. */
  lemma {:induction false} MessagesHeads(users: seq<int>, pending: seq<AccessRequest>, ids: seq<string>)
    requires forall x | x in ids :: x in Ids(pending)
    ensures Heads(Messages(users, pending, ids)) == Addressed(users, ids)
  {
    if ids != [] {
      var front, last := ids[..|ids| - 1], ids[|ids| - 1];
      MessagesHeads(users, pending, front);
      var i := LastWithIsListed(pending, last);
      var fan := FanOut(users, LastWith(pending, last));
      assert Heads(Messages(users, pending, front) + fan) == Heads(Messages(users, pending, front)) + Heads(fan);
    }
  }

  /** The history grew by exactly the messages due for the ids tried, in order. */
  ghost predicate Recorded(before: seq<Message>, after: seq<Message>, users: seq<int>, tried: seq<string>) {
    before <= after && Heads(after) == Heads(before) + Addressed(users, tried)
  }

  lemma RecordMessages(before: seq<Message>, users: seq<int>, pending: seq<AccessRequest>, ids: seq<string>)
    requires forall x | x in ids :: x in Ids(pending)
    ensures Recorded(before, before + Messages(users, pending, ids), users, ids)
  {
    MessagesHeads(users, pending, ids);
    var ms := Messages(users, pending, ids);
    assert Heads(before + ms) == Heads(before) + Heads(ms);
  }

  lemma RecordThen(before: seq<Message>, between: seq<Message>, after: seq<Message>, users: seq<int>,
                   tried: seq<string>, more: seq<string>)
    requires Recorded(before, between, users, tried) && Recorded(between, after, users, more)
    ensures Recorded(before, after, users, tried + more)
  {
    AddressedAppend(users, tried, more);
  }

  lemma RecordNothing(before: seq<Message>, users: seq<int>)
    ensures Recorded(before, before, users, [])
  {
  }

  /** How often a message about id to the operator was attempted. */
  function Attempts(ms: seq<Message>, user: int, id: string): nat { multiset(Heads(ms))[(user, id)] }

  // ------------------------------------------------------------------ cards that arrive

  /** The n-th message is about id, for the operator, and was answered without error. */
  predicate Arrives(ms: seq<Message>, deliver: Delivery, user: int, id: string, n: nat)
    requires n < |ms|
  {
    Heads(ms)[n] == (user, id) && deliver(n, ms[n].0, ms[n].1).None?
  }

  /** The cards about id in the operator's chat. */
  function Cards(ms: seq<Message>, deliver: Delivery, user: int, id: string): nat {
    if ms == [] then 0
    else
      Cards(ms[..|ms| - 1], deliver, user, id) + if Arrives(ms, deliver, user, id, |ms| - 1) then 1 else 0
  }

  /** Cards are messages attempted, so every bound on attempts is one on cards. */
  lemma {:induction false} CardsAtMostAttempts(ms: seq<Message>, deliver: Delivery, user: int, id: string)
    ensures Cards(ms, deliver, user, id) <= Attempts(ms, user, id)
  {
    if ms != [] {
      var front := ms[..|ms| - 1];
      CardsAtMostAttempts(front, deliver, user, id);
      assert Heads(ms) == Heads(front) + [Heads(ms)[|ms| - 1]];
    }
  }

  /** The operator got another card exactly when some message in between arrived. */
  lemma {:induction false} MoreCardsIff(before: seq<Message>, after: seq<Message>, deliver: Delivery,
                                        user: int, id: string)
    requires before <= after
    ensures Cards(after, deliver, user, id) >= Cards(before, deliver, user, id)
    ensures Cards(after, deliver, user, id) > Cards(before, deliver, user, id) <==>
              exists n | |before| <= n < |after| :: Arrives(after, deliver, user, id, n)
  {
    if before == after {
    } else {
      var front := after[..|after| - 1];
      MoreCardsIff(before, front, deliver, user, id);
      forall n | 0 <= n < |front|
        ensures Arrives(front, deliver, user, id, n) == Arrives(after, deliver, user, id, n)
      {
        assert Heads(front)[n] == Heads(after)[n];
      }
      if n :| |before| <= n < |front| && Arrives(front, deliver, user, id, n) {
        assert Arrives(after, deliver, user, id, n);
      }
    }
  }

  // ------------------------------------------------------------------ runs

  /** What the world does to the process at one tick of its clock. */
  datatype Tick =
    | Poll(backlogs: seq<Backlog>, save: SaveOutcome)   // a pass; backlogs[i] is pending at request i
    | Die(backlogs: seq<Backlog>, tried: nat)           // the process dies while announcing, or before
    | Stop                                              // stopped and started again

  /** The endpoint's answer to a request within a tick. */
  type Server = (nat, nat, string) -> Page

  ghost predicate KeysetServer(lt: Order, server: Server, ticks: seq<Tick>) {
    forall t, i, cursor | 0 <= t < |ticks| && !ticks[t].Stop? && 0 <= i < |ticks[t].backlogs| ::
      KeysetPage(lt, ticks[t].backlogs[i], cursor, server(t, i, cursor))
  }

  /** ids is a listing of the backlog at n requests: nothing made up, nothing missing that stayed. */
  ghost predicate ListedBy(ids: seq<string>, backlogs: seq<Backlog>, n: nat) {
    && n <= |backlogs|
    && (forall id | id in ids :: exists i | 0 <= i < n :: id in backlogs[i])
    && (forall id | Throughout(backlogs, n, id) :: id in ids)
  }

  ghost predicate ListingOf(ids: seq<string>, backlogs: seq<Backlog>) {
    Distinct(ids) && exists n :: ListedBy(ids, backlogs, n)
  }

  /** A backlog that does not change during the tick, and enough answers to read all of it. */
  ghost predicate Standing(backlogs: seq<Backlog>) {
    |backlogs| > 0 && |backlogs| > |backlogs[0]| && forall i | 0 <= i < |backlogs| :: backlogs[i] == backlogs[0]
  }

  /** The state machine's event for a tick. */
  ghost predicate EventOf(tick: Tick, e: Event) {
    match tick
    case Poll(backlogs, save) =>
      (e.PollFailed? && !Standing(backlogs)) || (e.Passed? && ListingOf(e.ids, backlogs) && e.saved == save.Succeeds?)
    case Die(backlogs, tried) =>
      (e.Restarted? && !Standing(backlogs)) || (e.Crashed? && ListingOf(e.ids, backlogs) && e.tried == tried)
    case Stop => e.Restarted?
  }

  /** The request is pending, just like that, at one of the requests to the endpoint. */
  ghost predicate PendingAt(backlogs: seq<Backlog>, q: AccessRequest) {
    exists i | 0 <= i < |backlogs| :: q.id in backlogs[i] && backlogs[i][q.id] == q
  }

  /** Some tick had the request in its backlog. */
  ghost predicate PendingDuring(tick: Tick, q: AccessRequest) { !tick.Stop? && PendingAt(tick.backlogs, q) }

  ghost predicate PendingDuringSome(ticks: seq<Tick>, q: AccessRequest) {
    exists t | 0 <= t < |ticks| :: PendingDuring(ticks[t], q)
  }

  lemma StillPendingDuring(ticks: seq<Tick>, t: nat, q: AccessRequest)
    requires t < |ticks|
    ensures PendingDuringSome(ticks[..t], q) || PendingDuring(ticks[t], q) ==> PendingDuringSome(ticks[..t + 1], q)
  {
    hide PendingDuring;
    if PendingDuringSome(ticks[..t], q) {
      var k :| 0 <= k < t && PendingDuring(ticks[..t][k], q);
      assert ticks[..t + 1][k] == ticks[k];
    } else if PendingDuring(ticks[t], q) {
      assert ticks[..t + 1][t] == ticks[t];
    }
  }

  lemma GenuineRequests(r: seq<AccessRequest>, backlogs: seq<Backlog>, calls: nat)
    requires calls <= |backlogs| && Genuine(r, backlogs, calls)
    ensures forall q | q in r :: PendingAt(backlogs, q)
  {
  }

  lemma GenuineIds(r: seq<AccessRequest>, backlogs: seq<Backlog>, calls: nat)
    requires calls <= |backlogs| && Genuine(r, backlogs, calls) && Distinct(Ids(r))
    requires forall id | Throughout(backlogs, calls, id) :: id in Ids(r)
    ensures ListingOf(Ids(r), backlogs)
  {
    forall id | id in Ids(r) ensures exists i | 0 <= i < calls :: id in backlogs[i] {
      var k :| 0 <= k < |r| && Ids(r)[k] == id;
      assert r[k] in r;
    }
    assert ListedBy(Ids(r), backlogs, calls);
  }

  method FetchListing(ghost lt: Order, server: Server, tick: nat, backlogs: seq<Backlog>)
    returns (r: Result<seq<AccessRequest>, string>)
    requires StrictOrder(lt)
    requires forall i, cursor | 0 <= i < |backlogs| :: KeysetPage(lt, backlogs[i], cursor, server(tick, i, cursor))
    ensures r.Ok? ==> ListingOf(Ids(r.value), backlogs)
    ensures r.Ok? ==> forall q | q in r.value :: PendingAt(backlogs, q)
    ensures Standing(backlogs) ==> r.Ok?
  {
    hide StrictOrder, KeysetPage, ListingOf, Genuine, Throughout, Distinct, StrictlyIncreasing, PendingAt;
    var calls;
    r, calls := ListPending(lt, (i: nat, cursor: string) => server(tick, i, cursor), backlogs);
    if r.Ok? {
      GenuineIds(r.value, backlogs, calls);
      assert forall q | q in r.value :: PendingAt(backlogs, q) by { GenuineRequests(r.value, backlogs, calls); }
    }
  }

  lemma EventsDistinct(ticks: seq<Tick>, es: seq<Event>)
    requires EventsOf(ticks, es)
    ensures ListingsDistinct(es)
  {
  }

  lemma TriedInGrows(w: World, es: seq<Event>, n: nat)
    requires n <= |es|
    ensures TriedIn(w, es[..n]) <= TriedIn(w, es)
  {
    hide Run, TriedIn;
    SplitRun(w, es[..n], es[n..]);
    assert es[..n] + es[n..] == es;
  }

  // ------------------------------------------------------------------ the environment's side

  /** The id was missing from the backlog at some request of the tick. */
  predicate Missing(tick: Tick, id: string) {
    !tick.Stop? && exists i | 0 <= i < |tick.backlogs| :: id !in tick.backlogs[i]
  }

  function Gaps(ticks: seq<Tick>, id: string): nat {
    if ticks == [] then 0
    else Gaps(ticks[..|ticks| - 1], id) + if Missing(ticks[|ticks| - 1], id) then 1 else 0
  }

  function Interruptions(ticks: seq<Tick>): nat {
    if ticks == [] then 0
    else Interruptions(ticks[..|ticks| - 1]) + if ticks[|ticks| - 1].Poll? then 0 else 1
  }

  ghost predicate EventsOf(ticks: seq<Tick>, es: seq<Event>) {
    |es| == |ticks| && forall t | 0 <= t < |es| :: EventOf(ticks[t], es[t])
  }

  lemma UnlistedWasMissing(tick: Tick, e: Event, id: string)
    requires EventOf(tick, e) && (e.Passed? || e.Crashed?) && id !in e.ids
    ensures Missing(tick, id)
  {
    var n :| ListedBy(e.ids, tick.backlogs, n);
    assert !Throughout(tick.backlogs, n, id);
  }

  /** Whatever pages a listing was put together from, an absence from it is a real one. */
  lemma {:induction false} RealAbsences(ticks: seq<Tick>, es: seq<Event>, id: string)
    requires EventsOf(ticks, es)
    ensures Absences(es, id) <= Gaps(ticks, id) && Restarts(es) == Interruptions(ticks)
  {
    if es != [] {
      var n := |es| - 1;
      assert EventOf(ticks[n], es[n]);
      RealAbsences(ticks[..n], es[..n], id);
      if (es[n].Passed? || es[n].Crashed?) && id !in es[n].ids {
        UnlistedWasMissing(ticks[n], es[n], id);
      }
    }
  }

  /** No more messages about an id are attempted to an operator than one, one for every tick during
      which the id was missing from the backlog, and one for every death or restart. */
  lemma AttemptsBounded(w: World, ticks: seq<Tick>, es: seq<Event>, before: seq<Message>, after: seq<Message>,
                        users: seq<int>, user: int, id: string)
    requires EventsOf(ticks, es) && Recorded(before, after, users, TriedIn(w, es)) && Distinct(users)
    ensures Attempts(after, user, id) <= Attempts(before, user, id) + 1 + Gaps(ticks, id) + Interruptions(ticks)
    ensures Attempts(after, user, id) <= Attempts(before, user, id) + Appearances(es, id) + Restarts(es)
    ensures user !in users ==> Attempts(after, user, id) == Attempts(before, user, id)
  {
    EventsDistinct(ticks, es);
    assert Attempts(after, user, id)
        == Attempts(before, user, id) + multiset(Addressed(users, TriedIn(w, es)))[(user, id)];
    hide TriedIn, Appearances, Absences, Restarts, Gaps, Interruptions, Addressed, EventsOf, Attempts;
    AddressedCount(users, TriedIn(w, es), user, id);
    AnnouncementsBounded(w, es, id);
    AppearancesAndAbsences(es, id);
    RealAbsences(ticks, es, id);
  }

  // ------------------------------------------------------------------ who is told

  /** A message about id to the operator was attempted as the n-th. */
  predicate Attempted(ms: seq<Message>, user: int, id: string, n: nat) {
    n < |ms| && Heads(ms)[n] == (user, id)
  }

  /** From the first saved pass on, an id that was unknown then and is listed by a completed pass has
      been attempted to every operator.  The operator got a card for it exactly when one of the
      attempts was answered without error. */
  lemma ToldIffAnswered(w: World, es: seq<Event>, before: seq<Message>, after: seq<Message>, users: seq<int>,
                        deliver: Delivery, t: nat, user: int, id: string)
    requires PastFirstRun(w) && id !in Remembered(w) && Recorded(before, after, users, TriedIn(w, es))
    requires t < |es| && es[t].Passed? && id in es[t].ids && user in users
    ensures exists n | |before| <= n < |after| :: Attempted(after, user, id, n)
    ensures Cards(after, deliver, user, id) > Cards(before, deliver, user, id) <==>
              exists n | |before| <= n < |after| && Attempted(after, user, id, n) ::
                deliver(n, user, after[n].1).None?
  {
    hide TriedIn, Remembered, PastFirstRun, Addressed, Cards, Heads;
    ListedIsTried(w, es, t, id);
    DueIsAttempted(before, after, users, TriedIn(w, es), user, id);
    MoreCardsIff(before, after, deliver, user, id);
    forall n | |before| <= n < |after| && Attempted(after, user, id, n)
      ensures Arrives(after, deliver, user, id, n) <==> deliver(n, user, after[n].1).None?
    {
      assert after[n].0 == user by { HeadOf(after, n); }
    }
    assert forall n | |before| <= n < |after| && Arrives(after, deliver, user, id, n) ::
        Attempted(after, user, id, n);
  }

  lemma HeadOf(ms: seq<Message>, n: nat)
    requires n < |ms|
    ensures Heads(ms)[n] == (ms[n].0, ms[n].1.id)
  {
  }

  lemma ListedIsTried(w: World, es: seq<Event>, t: nat, id: string)
    requires PastFirstRun(w) && id !in Remembered(w) && t < |es| && es[t].Passed? && id in es[t].ids
    ensures id in TriedIn(w, es)
  {
    hide TriedIn, Remembered, PastFirstRun;
    EveryListedIdIsAnnounced(w, es[..t], es[t].ids, es[t].saved, id);
    assert es[..t] + [Passed(es[t].ids, es[t].saved)] == es[..t + 1];
    TriedInGrows(w, es, t + 1);
  }

  lemma DueIsAttempted(before: seq<Message>, after: seq<Message>, users: seq<int>, tried: seq<string>,
                       user: int, id: string)
    requires Recorded(before, after, users, tried) && user in users && id in tried
    ensures exists n | |before| <= n < |after| :: Attempted(after, user, id, n)
  {
    AddressedMembers(users, tried, user, id);
    var due := Addressed(users, tried);
    var k :| 0 <= k < |due| && due[k] == (user, id);
    assert Attempted(after, user, id, |before| + k);
  }

  /** Once a completed pass has listed an id, and while it stays listed and the process runs, the cards
      an operator has for it are final: a send that failed is not made up for. */
  lemma CardsAreFinal(w: World, es: seq<Event>, before: seq<Message>, after: seq<Message>, users: seq<int>,
                      deliver: Delivery, t: nat, user: int, id: string)
    requires Recorded(before, after, users, TriedIn(w, es))
    requires t < |es| && es[t].Passed? && id in es[t].ids && StaysListed(es[t + 1..], id)
    ensures
      var n := |before| + |Addressed(users, TriedIn(w, es[..t + 1]))|;
      n <= |after| && Cards(after, deliver, user, id) == Cards(after[..n], deliver, user, id)
  {
    hide Run, TriedIn, Addressed, Cards, StaysListed;
    var first, rest := es[..t + 1], es[t + 1..];
    assert first + rest == es;
    SplitRun(w, first, rest);
    PassRemembers(w, es, t, id);
    NeverRetried(Run(w, first), rest, id);
    NothingDue(before, after, users, TriedIn(w, first), TriedIn(Run(w, first), rest), deliver, user, id);
  }

  lemma PassRemembers(w: World, es: seq<Event>, t: nat, id: string)
    requires t < |es| && es[t].Passed? && id in es[t].ids
    ensures id in Run(w, es[..t + 1]).mem.seen
  {
    hide Run;
    ExtendRun(w, es[..t], es[t]);
    assert es[..t] + [es[t]] == es[..t + 1];
  }

  lemma NothingDue(before: seq<Message>, after: seq<Message>, users: seq<int>, tried: seq<string>,
                   more: seq<string>, deliver: Delivery, user: int, id: string)
    requires Recorded(before, after, users, tried + more) && id !in more
    ensures
      var n := |before| + |Addressed(users, tried)|;
      n <= |after| && Cards(after, deliver, user, id) == Cards(after[..n], deliver, user, id)
  {
    hide Addressed, Cards, Recorded;
    RecordedTail(before, after, users, tried, more);
    AddressedMembers(users, more, user, id);
    var n := |before| + |Addressed(users, tried)|;
    MoreCardsIff(after[..n], after, deliver, user, id);
  }

  lemma RecordedTail(before: seq<Message>, after: seq<Message>, users: seq<int>, tried: seq<string>,
                     more: seq<string>)
    requires Recorded(before, after, users, tried + more)
    ensures
      var n := |before| + |Addressed(users, tried)|;
      n <= |after| && forall k | n <= k < |after| :: Heads(after)[k] in Addressed(users, more)
  {
    hide Addressed;
    AddressedAppend(users, tried, more);
    var n := |before| + |Addressed(users, tried)|;
    forall k | n <= k < |after| ensures Heads(after)[k] in Addressed(users, more) {
      assert Heads(after)[k] == Addressed(users, more)[k - n];
    }
  }

  /** An operator who blocked the bot is never told, however long it runs. */
  lemma BlockedIsNeverTold(w: World, es: seq<Event>, before: seq<Message>, after: seq<Message>, users: seq<int>,
                           deliver: Delivery, user: int, id: string)
    requires Recorded(before, after, users, TriedIn(w, es))
    requires forall n, req :: deliver(n, user, req).Some?
    ensures Cards(after, deliver, user, id) == Cards(before, deliver, user, id)
  {
    MoreCardsIff(before, after, deliver, user, id);
  }

  // ------------------------------------------------------------------ the objects

  /** One tick takes the state machine's step for its event and attempts exactly that step's messages. */
  method OneTick(poller: Poller, ghost lt: Order, server: Server, t: nat, tick: Tick, now: int, deliver: Delivery)
    returns (next: Poller, ghost e: Event)
    requires poller.Valid() && StrictOrder(lt)
    requires !tick.Stop? ==>
               forall i, cursor | 0 <= i < |tick.backlogs| ::
                 KeysetPage(lt, tick.backlogs[i], cursor, server(t, i, cursor))
    modifies poller, poller.state, poller.bot, poller.file
    ensures next == poller || (fresh(next) && fresh(next.state))
    ensures next.Valid() && next.bot == poller.bot && next.file == poller.file
    ensures EventOf(tick, e) && next.World() == Step(old(poller.World()), e)
    ensures Recorded(old(poller.bot.attempts), next.bot.attempts, next.bot.users, Tried(old(poller.World()), e))
    ensures forall n | old(|poller.bot.attempts|) <= n < |next.bot.attempts| ::
              PendingDuring(tick, next.bot.attempts[n].1)
  {
    hide StrictOrder, KeysetPage, ListingOf, Standing, Recorded, Messages, PendingAt;
    var bot, file := poller.bot, poller.file;
    ghost var w := poller.World();
    next, e := poller, Restarted;
    RecordNothing(bot.attempts, bot.users);
    if tick.Stop? {
      var state := new State(file);
      next := new Poller(bot, state, file, poller.interval);
      return;
    }
    var r := FetchListing(lt, server, t, tick.backlogs);
    if tick.Poll? {
      e := if r.Ok? then Passed(Ids(r.value), tick.save.Succeeds?) else PollFailed;
      poller.PollOnce(r, now, deliver, tick.save);
      if r.Ok? {
        TriedAreListed(w, Ids(r.value), tick.save.Succeeds?);
        RecordMessages(old(bot.attempts), bot.users, r.value, Tried(w, e));
      }
    } else {
      var state;
      if r.Ok? {
        e := Crashed(Ids(r.value), tick.tried);
        state := poller.PollAndCrash(r.value, now, tick.tried, deliver);
        TriedBeforeCrash(w, Ids(r.value), tick.tried);
        RecordMessages(old(bot.attempts), bot.users, r.value, Tried(w, e));
      } else {
        state := new State(file);
      }
      next := new Poller(bot, state, file, poller.interval);
    }
  }

  /** A watcher over a whole run: a process polls at every tick, and one that died or was stopped is
      replaced by one that starts from the state file. */
  method Watch(bot: Bot, file: StateFile, interval: int, ghost lt: Order, server: Server, ticks: seq<Tick>,
               clock: nat -> int, deliver: Delivery)
    returns (poller: Poller, ghost es: seq<Event>)
    requires StrictOrder(lt) && KeysetServer(lt, server, ticks)
    modifies bot, file
    ensures fresh(poller) && poller.Valid() && poller.bot == bot && poller.file == file
    ensures EventsOf(ticks, es) && ListingsDistinct(es)
    ensures
      var start := World(Load(old(file.content)), old(file.content));
      poller.World() == Run(start, es) && Recorded(old(bot.attempts), bot.attempts, bot.users, TriedIn(start, es))
    // every message carries a request as it was pending during some tick
    ensures forall n | |old(bot.attempts)| <= n < |bot.attempts| :: PendingDuringSome(ticks, bot.attempts[n].1)
    ensures Distinct(bot.users) ==>
              forall user, id ::
                Attempts(bot.attempts, user, id)
                <= Attempts(old(bot.attempts), user, id) + 1 + Gaps(ticks, id) + Interruptions(ticks)
  {
    hide StrictOrder, EventOf, Recorded, Run, TriedIn, KeysetPage, Step, Tried, ListingsDistinct, Attempts;
    hide PendingDuringSome;
    es := [];
    ghost var start := World(Load(file.content), file.content);
    var state := new State(file);
    poller := new Poller(bot, state, file, interval);
    NothingYet(start, bot.attempts, bot.users);
    for t := 0 to |ticks|
      invariant |es| == t && forall k | 0 <= k < t :: EventOf(ticks[k], es[k])
      invariant fresh(poller) && fresh(poller.state) && poller.Valid() && poller.bot == bot && poller.file == file
      invariant poller.World() == Run(start, es)
      invariant Recorded(old(bot.attempts), bot.attempts, bot.users, TriedIn(start, es))
      invariant |old(bot.attempts)| <= |bot.attempts|
      invariant forall n | |old(bot.attempts)| <= n < |bot.attempts| ::
                  PendingDuringSome(ticks[..t], bot.attempts[n].1)
    {
      ghost var w, attempts := poller.World(), bot.attempts;
      ghost var e;
      poller, e := OneTick(poller, lt, server, t, ticks[t], clock(t), deliver);
      ExtendRun(start, es, e);
      assert attempts <= bot.attempts by { RecordedGrows(attempts, bot.attempts, bot.users, Tried(w, e)); }
      RecordThen(old(bot.attempts), attempts, bot.attempts, bot.users, TriedIn(start, es), Tried(w, e));
      forall n | |old(bot.attempts)| <= n < |bot.attempts|
        ensures PendingDuringSome(ticks[..t + 1], bot.attempts[n].1)
      {
        StillPendingDuring(ticks, t, bot.attempts[n].1);
      }
      es := es + [e];
    }
    assert ticks[..|ticks|] == ticks;
    EventsDistinct(ticks, es);
    if Distinct(bot.users) {
      forall user, id ensures Attempts(bot.attempts, user, id)
                              <= Attempts(old(bot.attempts), user, id) + 1 + Gaps(ticks, id) + Interruptions(ticks)
      {
        AttemptsBounded(start, ticks, es, old(bot.attempts), bot.attempts, bot.users, user, id);
      }
    }
  }

  lemma RecordedGrows(before: seq<Message>, after: seq<Message>, users: seq<int>, tried: seq<string>)
    requires Recorded(before, after, users, tried)
    ensures before <= after
  {
  }

  lemma NothingYet(start: World, attempts: seq<Message>, users: seq<int>)
    ensures Run(start, []) == start && Recorded(attempts, attempts, users, TriedIn(start, []))
  {
  }
}
