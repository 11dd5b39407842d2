/** The seen-set watcher is the simple watcher that remembers only the previous listing. */
module WatcherRefinement {
  import opened Text
  import opened WatcherSpec

  /** The reference machine: the last completed listing of this process, and the last one saved. */
  datatype Simple = Simple(last: Option<seq<string>>, saved: Option<seq<string>>)

  /** Listed now and not in the previous listing, in listing order; nothing without a previous one. */
  function NewSince(last: Option<seq<string>>, ids: seq<string>): seq<string> {
    match last
    case None => []
    case Some(prev) => Missing(ids, prev)
  }

  function Missing(ids: seq<string>, prev: seq<string>): (r: seq<string>)
    ensures forall id :: id in r <==> id in ids && id !in prev
  {
    if ids == [] then []
    else
      assert ids == [ids[0]] + ids[1..];
      (if ids[0] in prev then [] else [ids[0]]) + Missing(ids[1..], prev)
  }

  function SimpleStep(s: Simple, e: Event): Simple {
    match e
    case PollFailed => s
    case Passed(ids, saved) => Simple(Some(ids), if saved then Some(ids) else s.saved)
    case Crashed(_, _) => Simple(s.saved, s.saved)
    case Restarted => Simple(s.saved, s.saved)
  }

  function SimpleTried(s: Simple, e: Event): seq<string> {
    match e
    case Passed(ids, _) => NewSince(s.last, ids)
    case Crashed(ids, tried) =>
      var news := NewSince(s.last, ids);
      if tried < |news| then news[..tried] else news
    case _ => []
  }

  function SimpleRun(s: Simple, es: seq<Event>): Simple {
    if es == [] then s else SimpleStep(SimpleRun(s, es[..|es| - 1]), es[|es| - 1])
  }

  function SimpleTriedIn(s: Simple, es: seq<Event>): seq<string> {
    if es == [] then []
    else
      var before := es[..|es| - 1];
      SimpleTriedIn(s, before) + SimpleTried(SimpleRun(s, before), es[|es| - 1])
  }

  /** The watcher's state that stands for a listing. */
  function MemoryOf(last: Option<seq<string>>): Memory {
    match last
    case None => Memory({}, false)
    case Some(ids) => Memory(set id | id in ids, true)
  }

  function WorldOf(s: Simple): World {
    World(MemoryOf(s.last), if s.saved.None? then None else Some(MemoryOf(s.saved)))
  }

  lemma {:induction false} UnseenIsMissing(ids: seq<string>, prev: seq<string>)
    ensures Unseen(ids, set id | id in prev) == Missing(ids, prev)
  {
    if ids != [] {
      UnseenIsMissing(ids[1..], prev);
    }
  }

  lemma StepRefines(s: Simple, e: Event)
    ensures Step(WorldOf(s), e) == WorldOf(SimpleStep(s, e))
    ensures Tried(WorldOf(s), e) == SimpleTried(s, e)
  {
    if (e.Passed? || e.Crashed?) && s.last.Some? {
      UnseenIsMissing(e.ids, s.last.value);
    }
  }

  /** Over every run, with every kind of failure, the watcher announces exactly what the simple
      machine announces, in the same order, and its seen set is the simple machine's last listing. */
  lemma {:induction false} WatcherRefinesSimple(s: Simple, es: seq<Event>)
    ensures Run(WorldOf(s), es) == WorldOf(SimpleRun(s, es))
    ensures TriedIn(WorldOf(s), es) == SimpleTriedIn(s, es)
  {
    if es != [] {
      var before := es[..|es| - 1];
      WatcherRefinesSimple(s, before);
      StepRefines(SimpleRun(s, before), es[|es| - 1]);
    }
  }

  /** A process that starts without a state file is the simple machine with no listing yet. */
  lemma FreshStartRefines(es: seq<Event>)
    ensures Run(FRESH_START, es) == WorldOf(SimpleRun(Simple(None, None), es))
    ensures TriedIn(FRESH_START, es) == SimpleTriedIn(Simple(None, None), es)
  {
    WatcherRefinesSimple(Simple(None, None), es);
  }

  // ------------------------------------------------------------------ restarts that nobody notices

  /** Failed polls after a saved pass do not spoil it. */
  ghost predicate EndsSaved(es: seq<Event>) {
    es != [] &&
    var e := es[|es| - 1];
    (e.Passed? && e.saved) || ((e.PollFailed? || e.Restarted?) && EndsSaved(es[..|es| - 1]))
  }

  lemma {:induction false} SavedMatchesMemory(w: World, es: seq<Event>)
    requires EndsSaved(es)
    ensures Run(w, es).disk == Some(Run(w, es).mem)
  {
    if !es[|es| - 1].Passed? {
      SavedMatchesMemory(w, es[..|es| - 1]);
    }
  }

  /** Removing a restart that follows a saved pass from a run changes neither what is announced
      nor where the run ends. */
  lemma RestartAfterSaveUnobservable(w: World, es: seq<Event>, rest: seq<Event>)
    requires EndsSaved(es)
    ensures Run(w, es + [Restarted] + rest) == Run(w, es + rest)
    ensures TriedIn(w, es + [Restarted] + rest) == TriedIn(w, es + rest)
  {
    hide Run, TriedIn;
    SavedMatchesMemory(w, es);
    ExtendRun(w, es, Restarted);
    SplitRun(w, es + [Restarted], rest);
    SplitRun(w, es, rest);
  }
}
