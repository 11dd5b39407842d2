/** The access-request watcher as a state machine over everything that can happen to it:
    failed polls, completed passes whose save succeeds or fails, crashes in the middle of
    announcing, and restarts.  Module AccessWatcher proves that the code takes these steps. */
module WatcherSpec {
  import opened Text

  /** What a watcher remembers: bot memory and state file have the same content. */
  datatype Memory = Memory(seen: set<string>, firstRunDone: bool)

  /** A running process and the state file, if one was ever written. */
  datatype World = World(mem: Memory, disk: Option<Memory>)

  datatype Event =
    | PollFailed                                 // listing failed; the next tick retries
    | Passed(ids: seq<string>, saved: bool)      // a full pass over a listing
    | Crashed(ids: seq<string>, tried: nat)      // died before saving, after trying some announcements
    | Restarted                                  // stopped and started while idle

  /** A missing state file loads as the unseen state. */
  function Load(disk: Option<Memory>): Memory {
    match disk
    case None => Memory({}, false)
    case Some(m) => m
  }

  function Unseen(ids: seq<string>, seen: set<string>): seq<string> {
    if ids == [] then []
    else (if ids[0] in seen then [] else [ids[0]]) + Unseen(ids[1..], seen)
  }

  /** The ids a pass sets out to announce; the first pass ever stays quiet. */
  function Fresh(mem: Memory, ids: seq<string>): seq<string> {
    if mem.firstRunDone then Unseen(ids, mem.seen) else []
  }

  function AfterPass(ids: seq<string>): Memory {
    Memory(set id | id in ids, true)
  }

  function Step(w: World, e: Event): World {
    match e
    case PollFailed => w
    case Passed(ids, saved) => World(AfterPass(ids), if saved then Some(AfterPass(ids)) else w.disk)
    case Crashed(_, _) => World(Load(w.disk), w.disk)
    case Restarted => World(Load(w.disk), w.disk)
  }

  /** The announcements tried during one event, in order. */
  function Tried(w: World, e: Event): seq<string> {
    match e
    case Passed(ids, _) => Fresh(w.mem, ids)
    case Crashed(ids, tried) =>
      var unseen := Fresh(w.mem, ids);
      if tried < |unseen| then unseen[..tried] else unseen
    case _ => []
  }

  /** Pending ids a completed quiet pass took in without announcing them. */
  function Absorbed(w: World, e: Event): set<string> {
    if e.Passed? && !w.mem.firstRunDone then set id | id in e.ids else {}
  }

  function Run(w: World, es: seq<Event>): World {
    if es == [] then w else Step(Run(w, es[..|es| - 1]), es[|es| - 1])
  }

  /** Everything tried in a run, in order. */
  function TriedIn(w: World, es: seq<Event>): seq<string> {
    if es == [] then []
    else
      var before := es[..|es| - 1];
      TriedIn(w, before) + Tried(Run(w, before), es[|es| - 1])
  }

  function AbsorbedIn(w: World, es: seq<Event>): set<string> {
    if es == [] then {}
    else
      var before := es[..|es| - 1];
      AbsorbedIn(w, before) + Absorbed(Run(w, before), es[|es| - 1])
  }

  // ------------------------------------------------------------------ the environment's side

  /** The last listing that was fetched successfully, whatever became of the pass. */
  function LastListing(es: seq<Event>): seq<string> {
    if es == [] then []
    else
      match es[|es| - 1]
      case Passed(ids, _) => ids
      case Crashed(ids, _) => ids
      case _ => LastListing(es[..|es| - 1])
  }

  /** How often id was seen to appear: listed, and absent from the listing fetched before. */
  function Appearances(es: seq<Event>, id: string): nat {
    if es == [] then 0
    else
      var before, e := es[..|es| - 1], es[|es| - 1];
      Appearances(before, id) +
      if (e.Passed? || e.Crashed?) && id in e.ids && id !in LastListing(before) then 1 else 0
  }

  /** How many listings were without id. */
  function Absences(es: seq<Event>, id: string): nat {
    if es == [] then 0
    else
      var e := es[|es| - 1];
      Absences(es[..|es| - 1], id) + if (e.Passed? || e.Crashed?) && id !in e.ids then 1 else 0
  }

  /** An id appears once, and once more after every absence. */
  lemma {:induction false} AppearancesAndAbsences(es: seq<Event>, id: string)
    ensures Appearances(es, id) <= Absences(es, id) + if id in LastListing(es) then 1 else 0
  {
    if es != [] {
      AppearancesAndAbsences(es[..|es| - 1], id);
    }
  }

  function Restarts(es: seq<Event>): nat {
    if es == [] then 0
    else Restarts(es[..|es| - 1]) + if es[|es| - 1].Crashed? || es[|es| - 1].Restarted? then 1 else 0
  }

  ghost predicate ListingsDistinct(es: seq<Event>) {
    forall i | 0 <= i < |es| && (es[i].Passed? || es[i].Crashed?) :: Distinct(es[i].ids)
  }

  // ------------------------------------------------------------------ facts about one pass

  lemma {:induction false} UnseenMembers(ids: seq<string>, seen: set<string>, id: string)
    ensures id in Unseen(ids, seen) <==> id in ids && id !in seen
  {
    if ids != [] {
      UnseenMembers(ids[1..], seen, id);
      assert id in ids <==> id == ids[0] || id in ids[1..];
    }
  }

  /** The unseen ids stay in the order of the listing. */
  lemma {:induction false} UnseenInOrder(a: seq<string>, b: seq<string>, seen: set<string>, id: string)
    ensures Unseen(a + b, seen) == Unseen(a, seen) + Unseen(b, seen)
    ensures Unseen([id], seen) == if id in seen then [] else [id]
  {
    if a == [] {
      assert a + b == b;
    } else {
      UnseenInOrder(a[1..], b, seen, id);
      assert (a + b)[1..] == a[1..] + b;
    }
    assert [id][1..] == [];
  }

  lemma {:induction false} UnseenCount(ids: seq<string>, seen: set<string>, id: string)
    ensures multiset(Unseen(ids, seen))[id] == if id in seen then 0 else multiset(ids)[id]
  {
    if ids != [] {
      assert ids == [ids[0]] + ids[1..];
      UnseenCount(ids[1..], seen, id);
    }
  }

  lemma {:induction false} DistinctOccursOnce<T>(xs: seq<T>, x: T)
    requires Distinct(xs)
    ensures multiset(xs)[x] <= 1
  {
    if xs != [] {
      assert xs == [xs[0]] + xs[1..];
      DistinctOccursOnce(xs[1..], x);
      if x == xs[0] {
        assert x !in xs[1..];
      }
    }
  }

  /** One pass tries an id at most once, and only if it is listed and not remembered. */
  lemma TriedOnce(w: World, e: Event, id: string)
    requires e.Passed? || e.Crashed? ==> Distinct(e.ids)
    ensures multiset(Tried(w, e))[id] <= 1
    ensures multiset(Tried(w, e))[id] > 0 ==> (e.Passed? || e.Crashed?) && id in e.ids && id !in w.mem.seen
  {
    if e.Passed? || e.Crashed? {
      UnseenCount(e.ids, w.mem.seen, id);
      DistinctOccursOnce(e.ids, id);
      var unseen := Fresh(w.mem, e.ids);
      if e.Crashed? && e.tried < |unseen| {
        assert unseen == unseen[..e.tried] + unseen[e.tried..];
      }
    }
  }

  // ------------------------------------------------------------------ repeated announcements are bounded

  /** However polls, saves and processes fail, an id is announced at most once per appearance in
      the backlog, plus once per restart. */
  lemma {:induction false} AnnouncementsBounded(w: World, es: seq<Event>, id: string)
    requires ListingsDistinct(es)
    ensures multiset(TriedIn(w, es))[id] <= Appearances(es, id) + Restarts(es)
    // a listed id that memory has lost has a restart still to its credit
    ensures id in LastListing(es) && id !in Run(w, es).mem.seen ==>
              multiset(TriedIn(w, es))[id] < Appearances(es, id) + Restarts(es)
  {
    if es != [] {
      var before, e := es[..|es| - 1], es[|es| - 1];
      assert ListingsDistinct(before);
      AnnouncementsBounded(w, before, id);
      assert es[|es| - 1] == e;
      TriedOnce(Run(w, before), e, id);
    }
  }

  /** The bound is reached: an unsaved pass after every restart announces the same id again. */
  function Flapping(id: string, n: nat): seq<Event> {
    if n == 0 then [Passed([], true), Passed([id], false)]
    else Flapping(id, n - 1) + [Restarted, Passed([id], false)]
  }

  lemma ExtendRun(w: World, es: seq<Event>, e: Event)
    ensures Run(w, es + [e]) == Step(Run(w, es), e)
    ensures TriedIn(w, es + [e]) == TriedIn(w, es) + Tried(Run(w, es), e)
  {
    assert (es + [e])[..|es + [e]| - 1] == es;
  }

  lemma Extend(w: World, es: seq<Event>, e: Event, id: string)
    ensures Run(w, es + [e]) == Step(Run(w, es), e)
    ensures TriedIn(w, es + [e]) == TriedIn(w, es) + Tried(Run(w, es), e)
    ensures LastListing(es + [e]) == if e.Passed? || e.Crashed? then e.ids else LastListing(es)
    ensures Restarts(es + [e]) == Restarts(es) + if e.Crashed? || e.Restarted? then 1 else 0
    ensures Appearances(es + [e], id) == Appearances(es, id) +
              if (e.Passed? || e.Crashed?) && id in e.ids && id !in LastListing(es) then 1 else 0
  {
    assert (es + [e])[..|es + [e]| - 1] == es;
  }

  const FRESH_START: World := World(Memory({}, false), None)

  ghost predicate Counts(es: seq<Event>, id: string, tried: nat, appeared: nat, restarts: nat) {
    && multiset(TriedIn(FRESH_START, es))[id] == tried
    && Appearances(es, id) == appeared && Restarts(es) == restarts
  }

  /** From a saved empty state, an unsaved pass over [id] announces id once more. */
  lemma UnsavedPass(es: seq<Event>, id: string, t: nat, a: nat, r: nat)
    requires Run(FRESH_START, es) == World(AfterPass([]), Some(AfterPass([])))
    requires Counts(es, id, t, a, r)
    ensures
      var es' := es + [Passed([id], false)];
      && Run(FRESH_START, es') == World(AfterPass([id]), Some(AfterPass([])))
      && Counts(es', id, t + 1, if id in LastListing(es) then a else a + 1, r)
      && LastListing(es') == [id]
  {
    var w := Run(FRESH_START, es);
    assert w.mem.seen == {};
    assert Unseen([id], w.mem.seen) == [id] + Unseen([id][1..], w.mem.seen);
    assert Fresh(w.mem, [id]) == [id];
    assert Tried(w, Passed([id], false)) == [id];
    Extend(FRESH_START, es, Passed([id], false), id);
  }

  lemma {:induction false} FlappingListings(id: string, n: nat)
    ensures ListingsDistinct(Flapping(id, n))
  {
    if n > 0 {
      FlappingListings(id, n - 1);
    }
  }

  lemma SavedEmptyPass(id: string)
    ensures
      var es := [Passed([], true)];
      && Run(FRESH_START, es) == World(AfterPass([]), Some(AfterPass([])))
      && Counts(es, id, 0, 0, 0) && LastListing(es) == []
  {
    Extend(FRESH_START, [], Passed([], true), id);
    assert [] + [Passed([], true)] == [Passed([], true)];
  }

  lemma {:induction false} BoundIsReached(id: string, n: nat)
    ensures ListingsDistinct(Flapping(id, n))
    ensures Counts(Flapping(id, n), id, n + 1, 1, n)
    ensures Run(FRESH_START, Flapping(id, n)) == World(AfterPass([id]), Some(AfterPass([])))
    ensures LastListing(Flapping(id, n)) == [id]
  {
    FlappingListings(id, n);
    hide Run, TriedIn, LastListing, Appearances, Restarts, ListingsDistinct;
    if n == 0 {
      SavedEmptyPass(id);
      UnsavedPass([Passed([], true)], id, 0, 0, 0);
      assert Flapping(id, 0) == [Passed([], true)] + [Passed([id], false)];
    } else {
      var prefix := Flapping(id, n - 1);
      BoundIsReached(id, n - 1);
      Extend(FRESH_START, prefix, Restarted, id);
      UnsavedPass(prefix + [Restarted], id, n, 1, n);
      assert Flapping(id, n) == prefix + [Restarted] + [Passed([id], false)];
    }
  }

  // ------------------------------------------------------------------ failures are not made up for

  /** Nothing but failed polls and completed passes that list id. */
  predicate StaysListed(es: seq<Event>, id: string) {
    forall i | 0 <= i < |es| :: es[i].PollFailed? || (es[i].Passed? && id in es[i].ids)
  }

  /** An id in memory is not announced again while it stays listed, whatever became of the sends. */
  lemma {:induction false} NeverRetried(w: World, es: seq<Event>, id: string)
    requires id in w.mem.seen && StaysListed(es, id)
    ensures id !in TriedIn(w, es) && id in Run(w, es).mem.seen
  {
    if es != [] {
      var before, e := es[..|es| - 1], es[|es| - 1];
      NeverRetried(w, before, id);
      if e.Passed? {
        UnseenMembers(e.ids, Run(w, before).mem.seen, id);
      }
    }
  }

  lemma EmptyRun(w: World)
    ensures Run(w, []) == w && TriedIn(w, []) == []
  {
  }

  /** A run in two parts. */
  lemma {:induction false} SplitRun(w: World, es: seq<Event>, more: seq<Event>)
    ensures Run(w, es + more) == Run(Run(w, es), more)
    ensures TriedIn(w, es + more) == TriedIn(w, es) + TriedIn(Run(w, es), more)
  {
    hide Run, TriedIn, Step, Tried;
    if more == [] {
      EmptyRun(Run(w, es));
      assert es + more == es;
    } else {
      var front, e := more[..|more| - 1], more[|more| - 1];
      SplitRun(w, es, front);
      ExtendRun(w, es + front, e);
      ExtendRun(Run(w, es), front, e);
      assert es + more == (es + front) + [e];
      assert more == front + [e];
    }
  }

  // ------------------------------------------------------------------ nothing is lost silently

  ghost function Remembered(w: World): set<string> {
    w.mem.seen + Load(w.disk).seen
  }

  /** Whatever memory or the state file holds was announced, or was there at the start, or was
      taken in by a quiet first pass. */
  lemma {:induction false} NothingLostSilently(w: World, es: seq<Event>, id: string)
    requires id in Remembered(Run(w, es))
    ensures id in Remembered(w) || id in TriedIn(w, es) || id in AbsorbedIn(w, es)
  {
    if es != [] {
      var before, e := es[..|es| - 1], es[|es| - 1];
      if id in Remembered(Run(w, before)) {
        NothingLostSilently(w, before, id);
      } else {
        UnseenMembers(e.ids, Run(w, before).mem.seen, id);
      }
    }
  }

  /** Without a state file nothing is announced before a pass has completed, nor by that pass, however
      often the process fails, dies and restarts before; and that pass remembers what it listed. */
  lemma {:induction false} ColdStartIsQuiet(es: seq<Event>, ids: seq<string>, saved: bool)
    requires forall i | 0 <= i < |es| :: !es[i].Passed?
    ensures
      var start := World(Load(None), None);
      && Run(start, es) == start && TriedIn(start, es + [Passed(ids, saved)]) == []
      && Run(start, es + [Passed(ids, saved)]).mem == Memory(set id | id in ids, true)
  {
    var start := World(Load(None), None);
    ExtendRun(start, es, Passed(ids, saved));
    if es == [] {
      EmptyRun(start);
    } else {
      var before, e := es[..|es| - 1], es[|es| - 1];
      ColdStartIsQuiet(before, ids, saved);
      ExtendRun(start, before, Passed(ids, saved));
      assert TriedIn(start, before) == [];
      assert es == before + [e];
      ExtendRun(start, before, e);
    }
  }

  ghost predicate PastFirstRun(w: World) {
    w.mem.firstRunDone && w.disk.Some? && w.disk.value.firstRunDone
  }

  /** Once a pass has been saved, no later pass is ever quiet again. */
  lemma {:induction false} QuietOnlyBeforeFirstSave(w: World, es: seq<Event>)
    requires PastFirstRun(w)
    ensures PastFirstRun(Run(w, es)) && AbsorbedIn(w, es) == {}
  {
    if es != [] {
      QuietOnlyBeforeFirstSave(w, es[..|es| - 1]);
    }
  }

  /** From the first saved pass on, every id a completed pass has listed was already remembered
      at that point or has been announced. */
  lemma EveryListedIdIsAnnounced(w: World, es: seq<Event>, ids: seq<string>, saved: bool, id: string)
    requires PastFirstRun(w) && id in ids
    ensures id in Remembered(w) || id in TriedIn(w, es + [Passed(ids, saved)])
  {
    var all := es + [Passed(ids, saved)];
    assert all[..|all| - 1] == es;
    QuietOnlyBeforeFirstSave(w, all);
    assert id in Remembered(Run(w, all));
    NothingLostSilently(w, all, id);
  }
}
