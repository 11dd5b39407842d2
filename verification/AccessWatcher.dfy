/** The watcher's objects: the durable seen set, the announcing bot, and the poller that drives
    them.  Every method is proved to take the corresponding step of module WatcherSpec. */
module AccessWatcher {
  import opened Text
  import opened WatcherSpec
  import opened Listing
  import opened Int64

  // ------------------------------------------------------------------ the state file

  /** Where a save can stop; the last case is the only one that reaches the rename. */
  datatype SaveOutcome = EncodingFails | DirectoryFails | WriteFails | RenameFails | Succeeds

  class StateFile {
    var content: Option<Memory>
    var temporary: Option<Memory>

    constructor (content: Option<Memory>)
      ensures this.content == content
    {
      this.content, temporary := content, None;
    }
  }

  class State {
    var seen: set<string>
    var firstRunDone: bool

    ghost function Value(): Memory
      reads this
    {
      Memory(seen, firstRunDone)
    }

    /** LoadState: a missing file yields the fresh state. */
    constructor (file: StateFile)
      ensures Value() == Load(file.content)
    {
      match file.content {
        case None => seen, firstRunDone := {}, false;
        case Some(m) => seen, firstRunDone := m.seen, m.firstRunDone;
      }
    }

    /** The ids not seen yet, in the given order. */
    method Diff(ids: seq<string>) returns (news: seq<string>)
      ensures news == Unseen(ids, seen)
    {
      news := [];
      for i := 0 to |ids|
        invariant news + Unseen(ids[i..], seen) == Unseen(ids, seen)
      {
        assert ids[i..][1..] == ids[i + 1..];
        if ids[i] !in seen {
          news := news + [ids[i]];
        }
      }
    }

    method MarkSeen(ids: seq<string>)
      modifies this
      ensures seen == old(seen) + Elements(ids) && firstRunDone == old(firstRunDone)
    {
      for i := 0 to |ids|
        invariant seen == old(seen) + Elements(ids[..i]) && firstRunDone == old(firstRunDone)
      {
        assert ids[..i + 1] == ids[..i] + [ids[i]];
        seen := seen + {ids[i]};
      }
      assert ids[..|ids|] == ids;
    }

    /** Forget the ids that are no longer pending. */
    method Prune(live: set<string>)
      modifies this
      ensures seen == old(seen) * live && firstRunDone == old(firstRunDone)
    {
      var todo := seen;
      while todo != {}
        invariant todo <= old(seen) && firstRunDone == old(firstRunDone)
        invariant seen == todo + (old(seen) - todo) * live
        decreases todo
      {
        var id :| id in todo;
        todo := todo - {id};
        if id !in live {
          seen := seen - {id};
        }
      }
    }

    /** Write a temporary file, then rename: the file holds the old or the new state, never a mix. */
    method Save(file: StateFile, outcome: SaveOutcome) returns (ok: bool)
      modifies file
      ensures ok == outcome.Succeeds?
      ensures file.content == if ok then Some(Value()) else old(file.content)
    {
      if outcome.EncodingFails? || outcome.DirectoryFails? || outcome.WriteFails? {
        return false;
      }
      file.temporary := Some(Memory(seen, firstRunDone));
      if outcome.RenameFails? {
        return false;
      }
      file.content, file.temporary := file.temporary, None;
      return true;
    }
  }

  // ------------------------------------------------------------------ the bot

  /** A message to one operator with the card of one request. */
  type Message = (int, AccessRequest)

  /** Telegram's answer to the n-th message it is given: None when delivered. */
  type Delivery = (nat, int, AccessRequest) -> Option<string>

  function FanOut(users: seq<int>, req: AccessRequest): seq<Message> {
    seq(|users|, i requires 0 <= i < |users| => (users[i], req))
  }

  /** Every message the process has handed to Telegram, answered or not. */
  class Bot {
    const users: seq<int>
    var attempts: seq<Message>

    constructor (users: seq<int>)
      ensures this.users == users && attempts == []
    {
      this.users, attempts := users, [];
    }

    /** A send is attempted to every operator, whoever fails before; the first failure is reported. */
    method Announce(req: AccessRequest, deliver: Delivery) returns (firstErr: Option<string>)
      modifies this
      ensures attempts == old(attempts) + FanOut(users, req)
      ensures
        var n := old(|attempts|);
        && (firstErr.None? <==> forall i | 0 <= i < |users| :: deliver(n + i, users[i], req).None?)
        && (firstErr.Some? ==>
              exists i | 0 <= i < |users| ::
                && deliver(n + i, users[i], req) == firstErr
                && forall j | 0 <= j < i :: deliver(n + j, users[j], req).None?)
    {
      firstErr := None;
      ghost var n := |attempts|;
      for i := 0 to |users|
        invariant attempts == old(attempts) + FanOut(users[..i], req)
        invariant firstErr.None? <==> forall j | 0 <= j < i :: deliver(n + j, users[j], req).None?
        invariant firstErr.Some? ==>
                    exists k | 0 <= k < i ::
                      && deliver(n + k, users[k], req) == firstErr
                      && forall j | 0 <= j < k :: deliver(n + j, users[j], req).None?
      {
        var err := deliver(|attempts|, users[i], req);
        attempts := attempts + [(users[i], req)];
        assert FanOut(users[..i + 1], req) == FanOut(users[..i], req) + [(users[i], req)];
        if err.Some? && firstErr.None? {
          firstErr := err;
        }
      }
      assert users[..|users|] == users;
    }
  }

  /** The request announced under an id: the last one listed with it. */
  function LastWith(pending: seq<AccessRequest>, id: string): AccessRequest
    requires id in Ids(pending)
  {
    var last := pending[|pending| - 1];
    if last.id == id then last
    else
      assert Ids(pending) == Ids(pending[..|pending| - 1]) + [last.id];
      LastWith(pending[..|pending| - 1], id)
  }

  /** It is in the listing, and no later entry has that id ... */
  lemma {:induction false} LastWithIsListed(pending: seq<AccessRequest>, id: string) returns (i: nat)
    requires id in Ids(pending)
    ensures i < |pending| && pending[i] == LastWith(pending, id) && pending[i].id == id
    ensures forall j | i < j < |pending| :: pending[j].id != id
  {
    var front, last := pending[..|pending| - 1], pending[|pending| - 1];
    assert Ids(pending) == Ids(front) + [last.id];
    if last.id == id {
      i := |front|;
    } else {
      i := LastWithIsListed(front, id);
    }
  }

  /** ... so that with distinct ids it is the one request with that id. */
  lemma LastWithIsTheOne(pending: seq<AccessRequest>, i: nat)
    requires Distinct(Ids(pending)) && i < |pending|
    ensures pending[i].id in Ids(pending) && LastWith(pending, pending[i].id) == pending[i]
  {
    hide LastWith, Ids;
    var ids := Ids(pending);
    assert ids[i] == pending[i].id;
    var j := LastWithIsListed(pending, ids[i]);
    assert ids[j] == ids[i];
    assert i == j;
  }

  /** The messages for a list of ids, id by id, operator by operator. */
  function Messages(users: seq<int>, pending: seq<AccessRequest>, ids: seq<string>): seq<Message>
    requires forall id | id in ids :: id in Ids(pending)
  {
    if ids == [] then []
    else
      Messages(users, pending, ids[..|ids| - 1]) + FanOut(users, LastWith(pending, ids[|ids| - 1]))
  }

  /** Every message carries a request of the listing, as it was listed. */
  lemma {:induction false} MessagesAreListed(users: seq<int>, pending: seq<AccessRequest>, ids: seq<string>)
    requires forall id | id in ids :: id in Ids(pending)
    ensures forall n | 0 <= n < |Messages(users, pending, ids)| :: Messages(users, pending, ids)[n].1 in pending
  {
    if ids != [] {
      var last := ids[|ids| - 1];
      MessagesAreListed(users, pending, ids[..|ids| - 1]);
      var i := LastWithIsListed(pending, last);
    }
  }

  lemma TriedAreListed(w: World, ids: seq<string>, saved: bool)
    ensures forall id | id in Tried(w, Passed(ids, saved)) :: id in ids
  {
    forall id | id in Tried(w, Passed(ids, saved)) ensures id in ids {
      UnseenMembers(ids, w.mem.seen, id);
    }
  }

  /** The messages of one completed pass from world w. */
  ghost function PassMessages(w: World, users: seq<int>, pending: seq<AccessRequest>, saved: bool)
    : seq<Message>
  {
    TriedAreListed(w, Ids(pending), saved);
    Messages(users, pending, Tried(w, Passed(Ids(pending), saved)))
  }

  lemma TriedBeforeCrash(w: World, ids: seq<string>, tried: nat)
    ensures forall id | id in Tried(w, Crashed(ids, tried)) :: id in ids
  {
    TriedAreListed(w, ids, true);
  }

  /** The messages of a pass from world w that died after some announcements. */
  ghost function CrashMessages(w: World, users: seq<int>, pending: seq<AccessRequest>, tried: nat)
    : seq<Message>
  {
    TriedBeforeCrash(w, Ids(pending), tried);
    Messages(users, pending, Tried(w, Crashed(Ids(pending), tried)))
  }

  // ------------------------------------------------------------------ time

  /** time.Since saturates instead of overflowing. */
  function Since(now: int, start: int): int {
    var d := now - start;
    if d > MAX_INT64 then MAX_INT64 else if d < MIN_INT64 then MIN_INT64 else d
  }

  const STALE_FACTOR: int := 3

  predicate IsStale(interval: int, now: int, lastSuccess: int) {
    var limit := Wrap(STALE_FACTOR * interval);
    limit > 0 && Since(now, lastSuccess) > limit
  }

  /** The staleness test means "older than three intervals" exactly when three intervals can be
      expressed as a duration; beyond that the product wraps around. */
  lemma StaleMeansThreeIntervalsIff(interval: int)
    requires 0 < interval <= MAX_INT64
    ensures (forall now, last :: IsStale(interval, now, last) <==> now - last > 3 * interval)
            <==> 3 * interval <= 0x7FFF_FFFF_FFFF_FFFF
  {
    var limit := Wrap(STALE_FACTOR * interval);
    if STALE_FACTOR * interval > MAX_INT64 {
      if limit <= 0 {
        assert !IsStale(interval, STALE_FACTOR * interval + 1, 0);
      } else {
        assert IsStale(interval, limit + 1, 0);
      }
    }
  }

  // ------------------------------------------------------------------ the poller

  datatype Health = Ready | NotStarted | ListingFailed(error: string) | Stale

  /** One recorded listing outcome. */
  datatype Report = Report(at: int, err: Option<string>)

  ghost predicate HealthyAt(reports: seq<Report>, now: int, interval: int) {
    reports != [] &&
    var last := reports[|reports| - 1];
    last.err.None? && now - last.at <= 3 * interval
  }

  class Poller {
    const bot: Bot
    const state: State
    const file: StateFile
    const interval: int

    var started: bool
    var lastSuccess: int
    var lastErr: Option<string>

    ghost var reports: seq<Report>

    ghost predicate Valid()
      reads this
    {
      && (started <==> reports != [])
      && (started ==>
            var last := reports[|reports| - 1];
            lastErr == last.err && (last.err.None? ==> lastSuccess == last.at))
    }

    ghost function World(): World
      reads state, file
    {
      WatcherSpec.World.World(state.Value(), file.content)
    }

    constructor (bot: Bot, state: State, file: StateFile, interval: int)
      ensures Valid() && reports == [] && this.bot == bot && this.state == state && this.file == file
      ensures this.interval == interval
    {
      this.bot, this.state, this.file, this.interval := bot, state, file, interval;
      started, lastSuccess, lastErr := false, 0, None;
      reports := [];
    }

    method NoteResult(err: Option<string>, now: int)
      requires Valid()
      modifies this
      ensures Valid() && reports == old(reports) + [Report(now, err)]
    {
      started := true;
      lastErr := err;
      if err.None? {
        lastSuccess := now;
      }
      reports := reports + [Report(now, err)];
    }

    /** Ready exactly when the latest listing succeeded and is at most three intervals old. */
    method HealthCheck(now: int) returns (health: Health)
      requires Valid()
      ensures 0 < interval && 3 * interval <= 0x7FFF_FFFF_FFFF_FFFF ==>
                (health.Ready? <==> HealthyAt(reports, now, interval))
      ensures health.Stale? <==>
                && reports != [] && reports[|reports| - 1].err.None?
                && IsStale(interval, now, reports[|reports| - 1].at)
      ensures health.NotStarted? <==> reports == []
      ensures health.ListingFailed? <==> reports != [] && reports[|reports| - 1].err.Some?
      ensures health.ListingFailed? ==> Some(health.error) == reports[|reports| - 1].err
    {
      if !started {
        return NotStarted;
      }
      if lastErr.Some? {
        return ListingFailed(lastErr.value);
      }
      if IsStale(interval, now, lastSuccess) {
        return Stale;
      }
      return Ready;
    }

    /** One pass takes the watcher's step for the listing it got, and attempts exactly the messages
        for the ids that step announces. */
    method PollOnce(listing: Result<seq<AccessRequest>, string>, now: int, deliver: Delivery, save: SaveOutcome)
      requires Valid()
      modifies this, state, bot, file
      ensures Valid()
      ensures reports == old(reports) + [Report(now, if listing.Err? then Some(listing.error) else None)]
      ensures listing.Err? ==> World() == Step(old(World()), PollFailed) && bot.attempts == old(bot.attempts)
      ensures listing.Ok? ==>
                && World() == Step(old(World()), Passed(Ids(listing.value), save.Succeeds?))
                && bot.attempts ==
                   old(bot.attempts) + PassMessages(old(World()), bot.users, listing.value, save.Succeeds?)
                && forall n | |old(bot.attempts)| <= n < |bot.attempts| :: bot.attempts[n].1 in listing.value
    {
      if listing.Err? {
        NoteResult(Some(listing.error), now);
        return;
      }
      NoteResult(None, now);
      var pending := listing.value;
      var live, ids, byId, news := Prepare(pending);
      AnnounceAll(pending, news, byId, deliver);
      state.MarkSeen(ids);
      state.Prune(live);
      assert state.seen == Elements(ids);
      var ok := state.Save(file, save);
    }

    /** A process that dies in the announce loop after some announcements, and the one that replaces
        it.  Nothing was saved, so the new process starts from the file and may announce again. */
    method PollAndCrash(pending: seq<AccessRequest>, now: int, tried: nat, deliver: Delivery)
      returns (revived: State)
      requires Valid()
      modifies this, state, bot
      ensures fresh(revived) && file.content == old(file.content)
      ensures WatcherSpec.World.World(revived.Value(), file.content)
              == Step(old(World()), Crashed(Ids(pending), tried))
      ensures bot.attempts == old(bot.attempts) + CrashMessages(old(World()), bot.users, pending, tried)
      ensures forall n | |old(bot.attempts)| <= n < |bot.attempts| :: bot.attempts[n].1 in pending
    {
      NoteResult(None, now);
      var live, ids, byId, news := Prepare(pending);
      var reached := if tried < |news| then news[..tried] else news;
      TriedBeforeCrash(old(World()), ids, tried);
      AnnounceAll(pending, reached, byId, deliver);
      revived := new State(file);
    }

    /** The part of a pass before the first announcement. */
    method Prepare(pending: seq<AccessRequest>)
      returns (live: set<string>, ids: seq<string>, byId: map<string, AccessRequest>, news: seq<string>)
      modifies state
      ensures ids == Ids(pending) && live == Elements(ids) && byId.Keys == live
      ensures forall id | id in byId :: byId[id] == LastWith(pending, id)
      ensures news == Fresh(old(state.Value()), ids) && forall id | id in news :: id in ids
      ensures state.Value() == Memory(old(state.seen), true)
    {
      TriedAreListed(World(), Ids(pending), true);
      live, ids, byId := IndexListing(pending);
      news := state.Diff(ids);
      if !state.firstRunDone {
        news := [];
        state.firstRunDone := true;
      }
    }

    /** The set of listed ids, the ids in order, and the request under each id. */
    method IndexListing(pending: seq<AccessRequest>)
      returns (live: set<string>, ids: seq<string>, byId: map<string, AccessRequest>)
      ensures ids == Ids(pending) && live == Elements(ids) && byId.Keys == live
      ensures forall id | id in byId :: byId[id] == LastWith(pending, id)
    {
      live, ids, byId := {}, [], map[];
      for i := 0 to |pending|
        invariant ids == Ids(pending[..i]) && live == Elements(ids) && byId.Keys == live
        invariant forall id | id in byId :: byId[id] == LastWith(pending[..i], id)
      {
        var req := pending[i];
        assert pending[..i + 1][..i] == pending[..i];
        live := live + {req.id};
        ids := ids + [req.id];
        byId := byId[req.id := req];
        assert Ids(pending[..i + 1]) == ids;
      }
      assert pending[..|pending|] == pending;
    }

    method AnnounceAll(pending: seq<AccessRequest>, news: seq<string>, byId: map<string, AccessRequest>,
                       deliver: Delivery)
      requires forall id | id in news :: id in byId && id in Ids(pending) && byId[id] == LastWith(pending, id)
      modifies bot
      ensures bot.attempts == old(bot.attempts) + Messages(bot.users, pending, news)
      ensures forall n | |old(bot.attempts)| <= n < |bot.attempts| :: bot.attempts[n].1 in pending
    {
      for i := 0 to |news|
        invariant bot.attempts == old(bot.attempts) + Messages(bot.users, pending, news[..i])
      {
        var err := bot.Announce(byId[news[i]], deliver);
        assert news[..i + 1][..i] == news[..i];
      }
      assert news[..|news|] == news;
      MessagesAreListed(bot.users, pending, news);
    }
  }
}
