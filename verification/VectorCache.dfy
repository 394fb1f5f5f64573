/** The one vector cache shared by every search, keyed on what each search read of its database. */
module VectorCache {
  import Quantized
  import opened Wrappers

  // ---------------------------------------------------------------------
  // What a store holds, commit by commit
  // ---------------------------------------------------------------------

  datatype Row = Row(id: int, model: string, kind: string, target: int, vec: Quantized.QVec)

  /** The database after a commit. Triggers raise `revision` once for every row inserted, updated or deleted. */
  datatype Snapshot = Snapshot(ledgerHead: int, revision: int, rows: seq<Row>)

  /** The rows of one model, in id order. */
  function Under(rows: seq<Row>, model: string): (r: seq<Row>) {
    if rows == [] then []
    else
      var before := Under(rows[..|rows| - 1], model);
      var last := rows[|rows| - 1];
      if last.model == model then before + [last] else before
  }

  /** Exactly the rows of the model, each as often as it is stored, in the order of the rows around it. */
  lemma {:induction false} UnderTakesTheModelsRows(a: seq<Row>, r: Row, b: seq<Row>, model: string)
    ensures Under(a + [r] + b, model) == Under(a, model) + (if r.model == model then [r] else []) + Under(b, model)
    ensures Under([], model) == []
  {
    if b == [] {
      assert (a + [r] + b)[..|a|] == a;
    } else {
      var front := b[..|b| - 1];
      assert (a + [r] + b)[..|a + [r] + b| - 1] == a + [r] + front;
      UnderTakesTheModelsRows(a, r, front, model);
    }
  }

  /** The greatest row id, or zero when there is no row with a greater one. */
  lemma {:induction false} MaxIdIsTheGreatest(rows: seq<Row>)
    ensures MaxId(rows) >= 0 && forall i | 0 <= i < |rows| :: rows[i].id <= MaxId(rows)
    ensures MaxId(rows) > 0 ==> exists i :: 0 <= i < |rows| && rows[i].id == MaxId(rows)
  {
    if rows != [] {
      var front, n := rows[..|rows| - 1], |rows| - 1;
      MaxIdIsTheGreatest(front);
      if rows[n].id <= MaxId(front) && MaxId(front) > 0 {
        var i :| 0 <= i < n && front[i].id == MaxId(front);
        assert rows[i].id == MaxId(rows);
      }
    }
  }

  /** `COALESCE(MAX(id), 0)`. */
  function MaxId(rows: seq<Row>): (m: int) {
    if rows == [] then 0
    else
      var m := MaxId(rows[..|rows| - 1]);
      if rows[|rows| - 1].id > m then rows[|rows| - 1].id else m
  }

  /** What the triggers guarantee between an earlier commit and a later one. */
  predicate Follows(earlier: Snapshot, later: Snapshot) {
    earlier.revision <= later.revision && (earlier.revision == later.revision ==> earlier.rows == later.rows)
  }

  /** Row ids are assigned by the database and start at one. */
  predicate PositiveIds(s: Snapshot) {
    forall k | 0 <= k < |s.rows| :: s.rows[k].id > 0
  }

  // ---------------------------------------------------------------------
  // Searches, one read at a time
  // ---------------------------------------------------------------------

  datatype Key = Key(ledgerHead: int, headId: int, revision: int)

  datatype Cached = Cached(store: nat, model: string, key: Key, rows: seq<Row>)

  datatype Phase =
    | Started
    | SawLedger(ledgerHead: int)
    | SawHead(ledgerHead: int, headId: int)
    | SawRevision(key: Key)
    | Missed(key: Key)
    | Fetched(key: Key, rows: seq<Row>)
    | Ranked(key: Key, rows: seq<Row>)
    | Absent

  /** `at` is the newest commit the search has seen; a live view may move forward, a read snapshot stays. */
  datatype Search = Search(store: nat, model: string, at: nat, phase: Phase)

  datatype System = System(stores: map<nat, seq<Snapshot>>, cache: Option<Cached>, searches: map<nat, Search>)

  datatype Action =
    | Open(store: nat, first: Snapshot)
    | Commit(store: nat, snapshot: Snapshot)
    | Begin(search: nat, store: nat, model: string, at: nat)
    | Read(search: nat, see: nat)
    | Lookup(search: nat)
    | Publish(search: nat, locked: bool)
    | Reset

  const IDLE := System(map[], None, map[])

  /** What one read makes of the search: the ledger head, the newest row id, the revision, or the rows on a miss. */
  function AfterRead(p: Phase, model: string, s: Snapshot): Option<Phase> {
    match p
    case Started => Some(SawLedger(s.ledgerHead))
    case SawLedger(ledger) => Some(SawHead(ledger, MaxId(s.rows)))
    case SawHead(ledger, head) => Some(SawRevision(Key(ledger, head, s.revision)))
    case Missed(key) =>
      var rows := Under(s.rows, model);
      Some(if rows == [] then Absent else Fetched(key, rows))
    case _ => None
  }

  /** An empty index is absent; otherwise the cache serves a search whose store, model and key it was built for. */
  function AfterLookup(search: Search, key: Key, cache: Option<Cached>): Phase {
    if key.headId == 0 then Absent
    else if cache.Some? && cache.value.key == key && cache.value.model == search.model
            && cache.value.store == search.store then Ranked(key, cache.value.rows)
    else Missed(key)
  }

  /** One atomic step of one participant; None when the step cannot be taken. */
  function Apply(s: System, a: Action): Option<System> {
    match a
    case Open(store, first) =>
      if store in s.stores || !PositiveIds(first) then None else Some(s.(stores := s.stores[store := [first]]))
    case Commit(store, snapshot) =>
      if store !in s.stores || s.stores[store] == [] then None
      else
        var history := s.stores[store];
        if !Follows(history[|history| - 1], snapshot) || !PositiveIds(snapshot) then None
        else Some(s.(stores := s.stores[store := history + [snapshot]]))
    case Begin(id, store, model, at) =>
      if id in s.searches || store !in s.stores || at >= |s.stores[store]| then None
      else Some(s.(searches := s.searches[id := Search(store, model, at, Started)]))
    case Read(id, see) =>
      if id !in s.searches || s.searches[id].store !in s.stores then None
      else
        var search := s.searches[id];
        var history := s.stores[search.store];
        if see < search.at || see >= |history| then None
        else
          var phase := AfterRead(search.phase, search.model, history[see]);
          if phase.None? then None
          else Some(s.(searches := s.searches[id := search.(at := see, phase := phase.value)]))
    case Lookup(id) =>
      if id !in s.searches || !s.searches[id].phase.SawRevision? then None
      else
        var search := s.searches[id];
        Some(s.(searches := s.searches[id := search.(phase := AfterLookup(search, search.phase.key, s.cache))]))
    case Publish(id, locked) =>
      if id !in s.searches || !s.searches[id].phase.Fetched? then None
      else
        var search := s.searches[id];
        var built := Cached(search.store, search.model, search.phase.key, search.phase.rows);
        Some(System(s.stores, if locked then Some(built) else s.cache,
                    s.searches[id := search.(phase := Ranked(search.phase.key, search.phase.rows))]))
    case Reset => Some(s.(cache := None))
  }

  /** The cache changes only when a reset drops it or a search that has the lock publishes what it fetched. */
  lemma OnlyPublishingAndResetsChangeTheCache(s: System, a: Action, t: System)
    requires Apply(s, a) == Some(t) && t.cache != s.cache
    ensures (a == Reset && t.cache == None)
            || (a.Publish? && a.locked && a.search in s.searches
                && var search := s.searches[a.search];
                   && search.phase.Fetched?
                   && t.cache == Some(Cached(search.store, search.model, search.phase.key, search.phase.rows)))
  {
  }

  /** Any interleaving of commits, searches and cache resets, from nothing. */
  function Run(actions: seq<Action>): Option<System> {
    if actions == [] then Some(IDLE)
    else
      match Run(actions[..|actions| - 1])
      case None => None
      case Some(s) => Apply(s, actions[|actions| - 1])
  }

  // ---------------------------------------------------------------------
  // What every step keeps
  // ---------------------------------------------------------------------

  ghost predicate GoodHistory(history: seq<Snapshot>) {
    && history != []
    && (forall i | 0 <= i < |history| :: PositiveIds(history[i]))
    && forall i, j | 0 <= i <= j < |history| :: Follows(history[i], history[j])
  }

  /** The rows are those of one commit, at a revision not before the given one. */
  ghost predicate RowsAt(history: seq<Snapshot>, i: nat, model: string, revision: int, rows: seq<Row>) {
    i < |history| && revision <= history[i].revision && rows == Under(history[i].rows, model)
  }

  ghost predicate Recent(history: seq<Snapshot>, model: string, revision: int, rows: seq<Row>) {
    exists i: nat :: RowsAt(history, i, model, revision, rows)
  }

  ghost predicate NoRowsAt(history: seq<Snapshot>, i: nat, model: string) {
    i < |history| && Under(history[i].rows, model) == []
  }

  ghost predicate EmptyOnce(history: seq<Snapshot>, model: string) {
    exists i: nat :: NoRowsAt(history, i, model)
  }

  ghost predicate HeadSeen(history: seq<Snapshot>, headId: int) {
    headId == 0 ==> exists i: nat :: i < |history| && history[i].rows == []
  }

  ghost predicate GoodSearch(search: Search, history: seq<Snapshot>) {
    && search.at < |history|
    && match search.phase
       case Started => true
       case SawLedger(_) => true
       case SawHead(_, head) => HeadSeen(history, head)
       case SawRevision(key) => HeadSeen(history, key.headId) && key.revision <= history[search.at].revision
       case Missed(key) => key.revision <= history[search.at].revision
       case Fetched(key, rows) => Recent(history, search.model, key.revision, rows)
       case Ranked(key, rows) => Recent(history, search.model, key.revision, rows)
       case Absent => EmptyOnce(history, search.model)
  }

  ghost predicate GoodCache(cache: Option<Cached>, stores: map<nat, seq<Snapshot>>) {
    cache.Some? ==>
      && cache.value.store in stores
      && Recent(stores[cache.value.store], cache.value.model, cache.value.key.revision, cache.value.rows)
  }

  ghost predicate Inv(s: System) {
    && (forall store | store in s.stores :: GoodHistory(s.stores[store]))
    && (forall id | id in s.searches ::
          s.searches[id].store in s.stores && GoodSearch(s.searches[id], s.stores[s.searches[id].store]))
    && GoodCache(s.cache, s.stores)
  }

  lemma HistoryGrows(history: seq<Snapshot>, next: Snapshot)
    requires GoodHistory(history) && Follows(history[|history| - 1], next) && PositiveIds(next)
    ensures GoodHistory(history + [next])
  {
    hide PositiveIds;
    var longer := history + [next];
    forall i, j | 0 <= i <= j < |longer|
      ensures Follows(longer[i], longer[j])
    {
      assert j == |history| && i < j ==> Follows(history[i], history[|history| - 1]);
    }
  }

  lemma RecentStays(history: seq<Snapshot>, next: Snapshot, model: string, revision: int, rows: seq<Row>)
    requires Recent(history, model, revision, rows)
    ensures Recent(history + [next], model, revision, rows)
  {
    var i: nat :| RowsAt(history, i, model, revision, rows);
    assert RowsAt(history + [next], i, model, revision, rows);
  }

  lemma SearchStays(search: Search, history: seq<Snapshot>, next: Snapshot)
    requires GoodSearch(search, history)
    ensures GoodSearch(search, history + [next])
  {
    hide Recent;
    var longer := history + [next];
    assert forall i | 0 <= i < |history| :: longer[i] == history[i];
    match search.phase
    case Fetched(key, rows) => RecentStays(history, next, search.model, key.revision, rows);
    case Ranked(key, rows) => RecentStays(history, next, search.model, key.revision, rows);
    case Absent =>
      var i: nat :| NoRowsAt(history, i, search.model);
      assert NoRowsAt(longer, i, search.model);
    case _ =>
  }

  lemma ReadKeepsTheSearch(search: Search, history: seq<Snapshot>, see: nat)
    requires GoodSearch(search, history) && GoodHistory(history) && search.at <= see < |history|
    requires AfterRead(search.phase, search.model, history[see]).Some?
    ensures GoodSearch(search.(at := see, phase := AfterRead(search.phase, search.model, history[see]).value), history)
  {
    var s := history[see];
    assert Follows(history[search.at], s);
    if search.phase.Missed? {
      var rows := Under(s.rows, search.model);
      assert RowsAt(history, see, search.model, search.phase.key.revision, rows);
      assert rows == [] ==> NoRowsAt(history, see, search.model);
    }
  }

  lemma LookupKeepsTheSearch(search: Search, s: System)
    requires Inv(s) && search.store in s.stores && GoodSearch(search, s.stores[search.store]) && search.phase.SawRevision?
    ensures GoodSearch(search.(phase := AfterLookup(search, search.phase.key, s.cache)), s.stores[search.store])
  {
    var history := s.stores[search.store];
    if search.phase.key.headId == 0 {
      var i: nat :| i < |history| && history[i].rows == [];
      assert NoRowsAt(history, i, search.model);
    }
  }

  lemma CommitKeepsTheInvariant(s: System, store: nat, snapshot: Snapshot)
    requires Inv(s) && store in s.stores && Follows(s.stores[store][|s.stores[store]| - 1], snapshot) && PositiveIds(snapshot)
    ensures Inv(s.(stores := s.stores[store := s.stores[store] + [snapshot]]))
  {
    hide GoodHistory, GoodSearch, Recent, Follows, PositiveIds;
    var history := s.stores[store];
    HistoryGrows(history, snapshot);
    forall id | id in s.searches && s.searches[id].store == store
      ensures GoodSearch(s.searches[id], history + [snapshot])
    {
      SearchStays(s.searches[id], history, snapshot);
    }
    if s.cache.Some? && s.cache.value.store == store {
      var c := s.cache.value;
      RecentStays(history, snapshot, c.model, c.key.revision, c.rows);
    }
  }

  lemma NewSearchIsGood(store: nat, model: string, at: nat, history: seq<Snapshot>)
    requires at < |history|
    ensures GoodSearch(Search(store, model, at, Started), history)
  {
  }

  lemma FetchedIsRecent(search: Search, history: seq<Snapshot>)
    requires GoodSearch(search, history) && search.phase.Fetched?
    ensures Recent(history, search.model, search.phase.key.revision, search.phase.rows)
    ensures GoodSearch(search.(phase := Ranked(search.phase.key, search.phase.rows)), history)
  {
  }

  lemma StepKeepsTheInvariant(s: System, a: Action)
    requires Inv(s) && Apply(s, a).Some?
    ensures Inv(Apply(s, a).value)
  {
    hide GoodSearch, Recent, PositiveIds, AfterRead, AfterLookup;
    match a
    case Open(store, first) =>
    case Commit(store, snapshot) =>
      assert GoodHistory(s.stores[store]);
      hide Inv;
      CommitKeepsTheInvariant(s, store, snapshot);
    case Begin(id, store, model, at) =>
      NewSearchIsGood(store, model, at, s.stores[store]);
    case Read(id, see) =>
      var search := s.searches[id];
      var history := s.stores[search.store];
      ReadKeepsTheSearch(search, history, see);
      hide Inv;
    case Lookup(id) =>
      var search := s.searches[id];
      LookupKeepsTheSearch(search, s);
    case Publish(id, _) =>
      var search := s.searches[id];
      FetchedIsRecent(search, s.stores[search.store]);
    case Reset =>
  }

  lemma {:induction false} RunsKeepTheInvariant(actions: seq<Action>)
    requires Run(actions).Some?
    ensures Inv(Run(actions).value)
  {
    if actions == [] {
    } else {
      hide Inv, Apply;
      RunsKeepTheInvariant(actions[..|actions| - 1]);
      StepKeepsTheInvariant(Run(actions[..|actions| - 1]).value, actions[|actions| - 1]);
    }
  }

  // ---------------------------------------------------------------------
  // What a search ranks
  // ---------------------------------------------------------------------

  /**
    In every interleaving, what a search ranks is its own store's rows for its own model, whole, as of some commit at
    a revision not before the one the search read; an absent answer means some commit had none.
   */
  lemma RankedRowsAreRecent(actions: seq<Action>, id: nat)
    requires Run(actions).Some? && id in Run(actions).value.searches
    ensures var s := Run(actions).value;
            var search := s.searches[id];
            && search.store in s.stores
            && (search.phase.Ranked? ==>
                  Recent(s.stores[search.store], search.model, search.phase.key.revision, search.phase.rows))
            && (search.phase.Absent? ==> EmptyOnce(s.stores[search.store], search.model))
  {
    hide Run, Recent;
    RunsKeepTheInvariant(actions);
  }

  /**
    While the store is still at the revision the search read, a warm search and a cold one rank the same rows: exactly
    what the store holds now.
   */
  lemma WarmIsColdWhileNothingIsWritten(actions: seq<Action>, id: nat)
    requires Run(actions).Some? && id in Run(actions).value.searches
    requires Run(actions).value.searches[id].phase.Ranked?
    ensures var s := Run(actions).value;
            var search := s.searches[id];
            && search.store in s.stores && s.stores[search.store] != []
            && var history := s.stores[search.store];
               var now := history[|history| - 1];
               now.revision == search.phase.key.revision ==> search.phase.rows == Under(now.rows, search.model)
  {
    hide Run;
    RunsKeepTheInvariant(actions);
    var s := Run(actions).value;
    var search := s.searches[id];
    var history := s.stores[search.store];
    assert GoodSearch(search, history) && GoodHistory(history);
    var i: nat :| RowsAt(history, i, search.model, search.phase.key.revision, search.phase.rows);
    assert Follows(history[i], history[|history| - 1]);
  }

  // ---------------------------------------------------------------------
  // Searches over read snapshots
  // ---------------------------------------------------------------------

  /** Every read of a run saw the commit its search began on. */
  predicate Pinned(actions: seq<Action>) {
    actions == [] ||
    (var before := actions[..|actions| - 1];
     var a := actions[|actions| - 1];
     && Pinned(before)
     && (a.Read? && Run(before).Some? && a.search in Run(before).value.searches ==>
           a.see == Run(before).value.searches[a.search].at))
  }

  ghost predicate ExactAt(history: seq<Snapshot>, i: nat, model: string, revision: int, rows: seq<Row>) {
    i < |history| && history[i].revision == revision && rows == Under(history[i].rows, model)
  }

  ghost predicate Exact(history: seq<Snapshot>, model: string, revision: int, rows: seq<Row>) {
    exists i: nat :: ExactAt(history, i, model, revision, rows)
  }

  ghost predicate ExactSearch(search: Search, history: seq<Snapshot>) {
    && search.at < |history|
    && match search.phase
       case SawRevision(key) => key.revision == history[search.at].revision
       case Missed(key) => key.revision == history[search.at].revision
       case Fetched(key, rows) => ExactAt(history, search.at, search.model, key.revision, rows)
       case Ranked(key, rows) => ExactAt(history, search.at, search.model, key.revision, rows)
       case _ => true
  }

  ghost predicate ExactInv(s: System) {
    && (forall id | id in s.searches ::
          s.searches[id].store in s.stores && ExactSearch(s.searches[id], s.stores[s.searches[id].store]))
    && (s.cache.Some? ==>
          && s.cache.value.store in s.stores
          && Exact(s.stores[s.cache.value.store], s.cache.value.model, s.cache.value.key.revision, s.cache.value.rows))
  }

  lemma CommitKeepsExact(s: System, a: Action)
    requires ExactInv(s) && a.Commit? && Apply(s, a).Some?
    ensures ExactInv(Apply(s, a).value)
  {
    var history := s.stores[a.store];
    var longer := history + [a.snapshot];
    assert forall i | 0 <= i < |history| :: longer[i] == history[i];
    if s.cache.Some? && s.cache.value.store == a.store {
      var c := s.cache.value;
      var i: nat :| ExactAt(history, i, c.model, c.key.revision, c.rows);
      assert ExactAt(longer, i, c.model, c.key.revision, c.rows);
    }
  }

  lemma LookupKeepsExact(search: Search, s: System)
    requires Inv(s) && ExactInv(s) && search.store in s.stores && search.phase.SawRevision?
    requires ExactSearch(search, s.stores[search.store])
    ensures ExactSearch(search.(phase := AfterLookup(search, search.phase.key, s.cache)), s.stores[search.store])
  {
    var history := s.stores[search.store];
    var after := AfterLookup(search, search.phase.key, s.cache);
    if after.Ranked? {
      var c := s.cache.value;
      var i: nat :| ExactAt(history, i, c.model, c.key.revision, c.rows);
      assert GoodHistory(history);
      assert Follows(history[i], history[search.at]) || Follows(history[search.at], history[i]);
    }
  }

  lemma StepKeepsExact(s: System, a: Action)
    requires Inv(s) && ExactInv(s) && Apply(s, a).Some?
    requires a.Read? && a.search in s.searches ==> a.see == s.searches[a.search].at
    ensures ExactInv(Apply(s, a).value)
  {
    hide AfterLookup, Inv, Follows, PositiveIds, Under;
    match a
    case Commit(_, _) => CommitKeepsExact(s, a);
    case Lookup(id) => LookupKeepsExact(s.searches[id], s);
    case Publish(id, _) =>
      var search := s.searches[id];
      assert ExactAt(s.stores[search.store], search.at, search.model, search.phase.key.revision, search.phase.rows);
    case _ =>
  }

  /** When every search runs on a read snapshot, each ranks exactly the rows of the snapshot it holds, cached or not. */
  lemma {:induction false} PinnedSearchesRankTheirSnapshot(actions: seq<Action>)
    requires Run(actions).Some? && Pinned(actions)
    ensures ExactInv(Run(actions).value)
  {
    if actions == [] {
    } else {
      hide Apply, ExactInv;
      var before := actions[..|actions| - 1];
      PinnedSearchesRankTheirSnapshot(before);
      RunsKeepTheInvariant(before);
      StepKeepsExact(Run(before).value, actions[|actions| - 1]);
    }
  }

  // ---------------------------------------------------------------------
  // Rows newer than their key
  // ---------------------------------------------------------------------

  const OLD_ROW := Row(1, "m", "prompt", 1, Quantized.QVec(1.0, [1]))
  const NEW_ROW := OLD_ROW.(vec := Quantized.QVec(1.0, [2]))
  const BEFORE := Snapshot(1, 1, [OLD_ROW])
  const AFTER := Snapshot(1, 2, [NEW_ROW])

  /**
    A live search reads its key, a row is rewritten, and the search publishes the new rows under the old key; a search
    on a snapshot taken before the write then finds that key in the cache.
   */
  const RACE: seq<Action> := [
    Open(0, BEFORE), Begin(0, 0, "m", 0), Read(0, 0), Read(0, 0), Read(0, 0), Lookup(0), Commit(0, AFTER),
    Read(0, 1), Publish(0, true), Begin(1, 0, "m", 0), Read(1, 0), Read(1, 0), Read(1, 0), Lookup(1)]

  /** The store after the given commits, with the first search in a phase, and perhaps a second one. */
  function Scene(history: seq<Snapshot>, cache: Option<Cached>, at: nat, first: Phase, second: Option<Phase>): System {
    System(map[0 := history], cache,
           if second.None? then map[0 := Search(0, "m", at, first)]
           else map[0 := Search(0, "m", at, first), 1 := Search(0, "m", 0, second.value)])
  }

  const ENTRY := Cached(0, "m", Key(1, 1, 1), [NEW_ROW])

  lemma RunStep(n: nat, s: System, t: System)
    requires n < |RACE| && Run(RACE[..n]) == Some(s) && Apply(s, RACE[n]) == Some(t)
    ensures Run(RACE[..n + 1]) == Some(t)
  {
    assert RACE[..n + 1][..n] == RACE[..n];
  }

  /** The step moves the first search on, and may write the cache. */
  lemma FirstMoves(n: nat, history: seq<Snapshot>, cache: Option<Cached>, at: nat, was: Phase, written: Option<Cached>, next: nat, became: Phase)
    requires n < |RACE| && Run(RACE[..n]) == Some(Scene(history, cache, at, was, None))
    requires var s := Scene(history, cache, at, was, None);
             Apply(s, RACE[n]) == Some(System(s.stores, written, s.searches[0 := Search(0, "m", next, became)]))
    ensures Run(RACE[..n + 1]) == Some(Scene(history, written, next, became, None))
  {
    hide Run, Apply;
    var s := Scene(history, cache, at, was, None);
    assert s.searches[0 := Search(0, "m", next, became)] == map[0 := Search(0, "m", next, became)];
    RunStep(n, s, Scene(history, written, next, became, None));
  }

  lemma Contents()
    ensures Under(BEFORE.rows, "m") == [OLD_ROW] && Under(AFTER.rows, "m") == [NEW_ROW] && MaxId(BEFORE.rows) == 1
    ensures PositiveIds(BEFORE) && PositiveIds(AFTER) && Follows(BEFORE, AFTER)
  {
  }

  lemma FirstSearchStarts()
    ensures Run(RACE[..2]) == Some(Scene([BEFORE], None, 0, Started, None))
  {
    Contents();
    assert Run(RACE[..0]) == Some(IDLE);
    hide Run, PositiveIds;
    var empty := System(map[0 := [BEFORE]], None, map[]);
    RunStep(0, IDLE, empty);
    RunStep(1, empty, Scene([BEFORE], None, 0, Started, None));
  }

  lemma FirstSearchReads()
    ensures Run(RACE[..4]) == Some(Scene([BEFORE], None, 0, SawHead(1, 1), None))
  {
    Contents();
    FirstSearchStarts();
    hide Run, Under, MaxId, PositiveIds, Follows;
    FirstMoves(2, [BEFORE], None, 0, Started, None, 0, SawLedger(1));
    FirstMoves(3, [BEFORE], None, 0, SawLedger(1), None, 0, SawHead(1, 1));
  }

  lemma FirstSearchMisses()
    ensures Run(RACE[..6]) == Some(Scene([BEFORE], None, 0, Missed(Key(1, 1, 1)), None))
  {
    Contents();
    FirstSearchReads();
    hide Run, Under, MaxId, PositiveIds, Follows;
    FirstMoves(4, [BEFORE], None, 0, SawHead(1, 1), None, 0, SawRevision(Key(1, 1, 1)));
    FirstMoves(5, [BEFORE], None, 0, SawRevision(Key(1, 1, 1)), None, 0, Missed(Key(1, 1, 1)));
  }

  lemma FirstSearchPublishes()
    ensures Run(RACE[..9]) == Some(Later(None))
  {
    Contents();
    FirstSearchMisses();
    hide Run, Under, MaxId, PositiveIds, Follows;
    var key := Key(1, 1, 1);
    var before := Scene([BEFORE], None, 0, Missed(key), None);
    var history := [BEFORE, AFTER];
    assert [BEFORE] + [AFTER] == history;
    assert before.stores[0 := history] == map[0 := history];
    RunStep(6, before, Scene(history, None, 0, Missed(key), None));
    FirstMoves(7, history, None, 0, Missed(key), None, 1, Fetched(key, [NEW_ROW]));
    FirstMoves(8, history, None, 1, Fetched(key, [NEW_ROW]), Some(ENTRY), 1, Ranked(key, [NEW_ROW]));
  }

  /** The scene from the publication on, with the second search in a phase. */
  function Later(second: Option<Phase>): System {
    Scene([BEFORE, AFTER], Some(ENTRY), 1, Ranked(Key(1, 1, 1), [NEW_ROW]), second)
  }

  lemma SecondMoves(n: nat, was: Phase, became: Phase)
    requires n < |RACE| && Run(RACE[..n]) == Some(Later(Some(was)))
    requires var s := Later(Some(was));
             Apply(s, RACE[n]) == Some(s.(searches := s.searches[1 := Search(0, "m", 0, became)]))
    ensures Run(RACE[..n + 1]) == Some(Later(Some(became)))
  {
    hide Run, Apply;
    var s := Later(Some(was));
    assert s.searches[1 := Search(0, "m", 0, became)] == Later(Some(became)).searches;
    RunStep(n, s, Later(Some(became)));
  }

  lemma SecondSearchReads()
    ensures Run(RACE[..12]) == Some(Later(Some(SawHead(1, 1))))
  {
    Contents();
    FirstSearchPublishes();
    hide Run, Under, MaxId, PositiveIds, Follows;
    RunStep(9, Later(None), Later(Some(Started)));
    SecondMoves(10, Started, SawLedger(1));
    SecondMoves(11, SawLedger(1), SawHead(1, 1));
  }

  /** So an entry can be newer than its key says, and "no older than the revision read" is the most that holds. */
  lemma RowsCanOutrunTheirKey()
    ensures Run(RACE) == Some(Later(Some(Ranked(Key(1, 1, 1), [NEW_ROW]))))
    ensures Under(BEFORE.rows, "m") == [OLD_ROW] && OLD_ROW != NEW_ROW
  {
    Contents();
    SecondSearchReads();
    hide Run, Under, MaxId, PositiveIds, Follows;
    SecondMoves(12, SawHead(1, 1), SawRevision(Key(1, 1, 1)));
    SecondMoves(13, SawRevision(Key(1, 1, 1)), Ranked(Key(1, 1, 1), [NEW_ROW]));
    assert RACE[..14] == RACE;
  }

  // ---------------------------------------------------------------------
  // One search with nothing in between
  // ---------------------------------------------------------------------

  /**
    What a search over one view serves, and the cache it leaves: none when the index is empty or holds nothing under
    the model, the cached rows when the entry's key matches, otherwise the view's own, which then become the entry.
   */
  function Served(store: nat, model: string, view: Snapshot, cache: Option<Cached>): (Option<seq<Row>>, Option<Cached>) {
    var key := Key(view.ledgerHead, MaxId(view.rows), view.revision);
    var own := Under(view.rows, model);
    match AfterLookup(Search(store, model, 0, SawRevision(key)), key, cache)
    case Ranked(_, cached) => (Some(cached), cache)
    case Missed(_) => if own == [] then (None, cache) else (Some(own), Some(Cached(store, model, key, own)))
    case _ => (None, cache)
  }

  /** Steps taken one after another from a state. */
  function Chain(s: System, actions: seq<Action>): Option<System>
    decreases actions
  {
    if actions == [] then Some(s)
    else
      var next := Apply(s, actions[0]);
      if next.None? then None else Chain(next.value, actions[1..])
  }

  lemma {:induction false} Chained(s: System, actions: seq<Action>, t: System, a: Action)
    requires Chain(s, actions) == Some(t)
    ensures Chain(s, actions + [a]) == Apply(t, a)
    decreases actions
  {
    hide Apply;
    if actions == [] {
      assert (actions + [a])[1..] == [];
    } else {
      assert (actions + [a])[1..] == actions[1..] + [a];
      Chained(Apply(s, actions[0]).value, actions[1..], t, a);
    }
  }

  /** A state with one search, and perhaps the cache, changed. */
  function With(s: System, id: nat, search: Search, cache: Option<Cached>): System {
    System(s.stores, cache, s.searches[id := search])
  }

  lemma SearchSteps(s: System, actions: seq<Action>, id: nat, was: Search, a: Action, now: Search, cache: Option<Cached>)
    requires Chain(s, actions) == Some(With(s, id, was, s.cache))
    requires Apply(With(s, id, was, s.cache), a) == Some(System(s.stores, cache, s.searches[id := was][id := now]))
    ensures Chain(s, actions + [a]) == Some(With(s, id, now, cache))
  {
    hide Apply, Chain;
    Chained(s, actions, With(s, id, was, s.cache), a);
    assert s.searches[id := was][id := now] == s.searches[id := now];
  }

  lemma ReadSteps(s: System, actions: seq<Action>, id: nat, was: Search)
    requires Chain(s, actions) == Some(With(s, id, was, s.cache))
    requires was.store in s.stores && was.at < |s.stores[was.store]|
    requires AfterRead(was.phase, was.model, s.stores[was.store][was.at]).Some?
    ensures var now := was.(phase := AfterRead(was.phase, was.model, s.stores[was.store][was.at]).value);
            Chain(s, actions + [Read(id, was.at)]) == Some(With(s, id, now, s.cache))
  {
    hide Chain, AfterRead;
    var now := was.(phase := AfterRead(was.phase, was.model, s.stores[was.store][was.at]).value);
    SearchSteps(s, actions, id, was, Read(id, was.at), now, s.cache);
  }

  /** The steps of a search that is not interrupted, up to its lookup; on a miss it reads and publishes as well. */
  function UpToLookup(id: nat, store: nat, model: string, at: nat): seq<Action> {
    [Begin(id, store, model, at)] + [Read(id, at)] + [Read(id, at)] + [Read(id, at)] + [Lookup(id)]
  }

  lemma SearchBegins(s: System, id: nat, store: nat, model: string, at: nat)
    requires id !in s.searches && store in s.stores && at < |s.stores[store]|
    ensures Chain(s, [Begin(id, store, model, at)]) == Some(With(s, id, Search(store, model, at, Started), s.cache))
  {
    assert [Begin(id, store, model, at)][1..] == [];
  }

  lemma LookupIsReached(s: System, id: nat, store: nat, model: string, at: nat)
    requires id !in s.searches && store in s.stores && at < |s.stores[store]|
    ensures var view := s.stores[store][at];
            var key := Key(view.ledgerHead, MaxId(view.rows), view.revision);
            var search := Search(store, model, at, SawRevision(key));
            Chain(s, UpToLookup(id, store, model, at))
            == Some(With(s, id, search.(phase := AfterLookup(search, key, s.cache)), s.cache))
  {
    hide Chain, MaxId, AfterLookup, Apply, With;
    var view := s.stores[store][at];
    var key := Key(view.ledgerHead, MaxId(view.rows), view.revision);
    var started := Search(store, model, at, Started);
    var actions := [Begin(id, store, model, at)];
    SearchBegins(s, id, store, model, at);
    ReadSteps(s, actions, id, started);
    actions := actions + [Read(id, at)];
    ReadSteps(s, actions, id, started.(phase := SawLedger(key.ledgerHead)));
    actions := actions + [Read(id, at)];
    ReadSteps(s, actions, id, started.(phase := SawHead(key.ledgerHead, key.headId)));
    LookupSteps(s, actions + [Read(id, at)], id, started.(phase := SawRevision(key)));
  }

  lemma LookupSteps(s: System, actions: seq<Action>, id: nat, was: Search)
    requires Chain(s, actions) == Some(With(s, id, was, s.cache)) && was.phase.SawRevision?
    ensures var now := was.(phase := AfterLookup(was, was.phase.key, s.cache));
            Chain(s, actions + [Lookup(id)]) == Some(With(s, id, now, s.cache))
  {
    hide Chain, AfterLookup;
    SearchSteps(s, actions, id, was, Lookup(id), was.(phase := AfterLookup(was, was.phase.key, s.cache)), s.cache);
  }

  /** A search that nothing interrupts serves what `Served` says, and leaves the cache it says. */
  lemma UninterruptedSearchServes(s: System, id: nat, store: nat, model: string, at: nat) returns (actions: seq<Action>)
    requires id !in s.searches && store in s.stores && at < |s.stores[store]|
    ensures UpToLookup(id, store, model, at) <= actions
    ensures var (rows, cache) := Served(store, model, s.stores[store][at], s.cache);
            var t := Chain(s, actions);
            && t.Some? && t.value.stores == s.stores && t.value.cache == cache && id in t.value.searches
            && match rows
               case Some(ranked) => t.value.searches[id].phase.Ranked? && t.value.searches[id].phase.rows == ranked
               case None => t.value.searches[id].phase == Absent
  {
    var view := s.stores[store][at];
    var key := Key(view.ledgerHead, MaxId(view.rows), view.revision);
    LookupIsReached(s, id, store, model, at);
    actions := UpToLookup(id, store, model, at);
    var found := Search(store, model, at, AfterLookup(Search(store, model, at, SawRevision(key)), key, s.cache));
    hide Chain, MaxId, Under, UpToLookup;
    if found.phase.Missed? {
      var own := Under(view.rows, model);
      var fetched := found.(phase := if own == [] then Absent else Fetched(key, own));
      SearchSteps(s, actions, id, found, Read(id, at), fetched, s.cache);
      actions := actions + [Read(id, at)];
      if own != [] {
        var built := Cached(store, model, key, own);
        SearchSteps(s, actions, id, fetched, Publish(id, true), found.(phase := Ranked(key, own)), Some(built));
        actions := actions + [Publish(id, true)];
      }
    }
  }

  /** After a tick that stored something, a search that nothing interrupts ranks its own view's rows, if it has any. */
  lemma SearchAfterATickServesItsOwn(s: System, id: nat, store: nat, model: string, at: nat) returns (actions: seq<Action>)
    requires id !in s.searches && store in s.stores && at < |s.stores[store]| && PositiveIds(s.stores[store][at])
    ensures actions != [] && actions[0] == Reset
    ensures var t := Chain(s, actions);
            var own := Under(s.stores[store][at].rows, model);
            && t.Some? && id in t.value.searches
            && (own == [] ==> t.value.searches[id].phase == Absent)
            && (own != [] ==> t.value.searches[id].phase.Ranked? && t.value.searches[id].phase.rows == own)
  {
    var rest := UninterruptedSearchServes(s.(cache := None), id, store, model, at);
    actions := [Reset] + rest;
    assert actions[1..] == rest;
    hide Chain;
    EmptyIndexHasNoRows(s.stores[store][at], model);
    hide Under, MaxId;
  }

  lemma EmptyIndexHasNoRows(view: Snapshot, model: string)
    requires PositiveIds(view)
    ensures MaxId(view.rows) == 0 ==> Under(view.rows, model) == []
  {
    if view.rows != [] {
      assert view.rows[0].id > 0;
      MaxIdBounds(view.rows, 0);
    }
  }

  lemma {:induction false} MaxIdBounds(rows: seq<Row>, k: nat)
    requires k < |rows|
    ensures rows[k].id <= MaxId(rows)
  {
    if k < |rows| - 1 {
      MaxIdBounds(rows[..|rows| - 1], k);
    }
  }

  /** The shared cache as one search and one index tick update it. */
  class SharedCache {
    var cache: Option<Cached>

    constructor ()
      ensures cache == None
    {
      cache := None;
    }

    /** The rows a search over one read view ranks, as the steps of the same search taken without interruption do. */
    method Vectors(store: nat, model: string, view: Snapshot) returns (rows: Option<seq<Row>>)
      modifies this`cache
      ensures (rows, cache) == Served(store, model, view, old(cache))
    {
      var ledgerHead := view.ledgerHead;
      var headId := MaxId(view.rows);
      var revision := view.revision;
      if headId == 0 {
        return None;
      }
      if cache.Some? {
        var c := cache.value;
        if c.key.revision == revision && c.key.headId == headId && c.model == model && c.store == store
           && c.key.ledgerHead == ledgerHead {
          return Some(c.rows);
        }
      }
      var own := Under(view.rows, model);
      if own == [] {
        return None;
      }
      cache := Some(Cached(store, model, Key(ledgerHead, headId, revision), own));
      return Some(own);
    }

    /** A tick that stored anything drops the entry, the `Reset` step. */
    method AfterTick(done: nat)
      modifies this`cache
      ensures cache == if done > 0 then None else old(cache)
    {
      if done > 0 {
        cache := None;
      }
    }
  }
}
