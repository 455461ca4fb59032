/** Whole runs of the permission cache. Each `get` takes four separate steps (generation, entry, database, store);
    between them anything may happen: commits, invalidations, other readers, expiry, eviction, foreign text, failures,
    lost answers. */
module CacheRuns {
  import opened Wrappers
  import opened Resolution
  import opened PermissionCache
  import EffectivePolicies
  import Json
  import PolicyVersions

  type Reader = string

  /** What a `get` knows. `begun` and `floor` are history: the database state when it began, and the oldest state
      that an answer under the generation of that moment may come from. */
  datatype Call = Call(subject: Subject, begun: nat, floor: nat, generationAtStart: nat)

  datatype Phase =
    | Begun(call: Call)
    | HasGeneration(call: Call, generation: nat)
    | Missed(call: Call, generation: nat)
    | Loaded(call: Call, generation: nat, value: Effective, readFrom: nat, readAt: int)
    | Direct(call: Call)
    | Done(call: Call, answer: Result<Effective, ResolutionError>, readFrom: nat, hit: Option<Timing>)

  datatype Timing = Timing(readAt: int, storedAt: int, servedAt: int)

  /** `history` lists the committed database states, the current one last, and `commits` when each became current.
      `floors` lists for every scope how far the history was at each accepted invalidation. */
  datatype State<D> = State(
    history: seq<D>,
    commits: seq<int>,
    cells: Cells,
    now: int,
    floors: map<Scope, seq<nat>>,
    readers: map<Reader, Phase>)

  datatype Event<D> =
    | Commit(database: D)
    | Invalidate(scope: Scope, eventId: string)
    | Tick(seconds: nat)
    | Evict(key: string)
    | Overwrite(key: string, parses: bool, expiresAt: int)
    | Begin(reader: Reader, subject: Subject)
    | ReadGeneration(reader: Reader)
    | ReadEntry(reader: Reader)
    | ReadDatabase(reader: Reader)
    | StoreEntry(reader: Reader)
    | StoreAnswerLost(reader: Reader)
    | Fail(reader: Reader)
    | ReadDirectly(reader: Reader)

  /** The direct answer of a database state. */
  type Resolver<!D> = (D, Subject) -> Result<Effective, ResolutionError>

  function FloorsOf<D>(s: State<D>, scope: Scope): seq<nat> {
    if scope in s.floors then s.floors[scope] else []
  }

  /** The oldest state that an entry of the generation may have been read from. */
  function Floor(floors: seq<nat>, generation: nat): nat {
    if 1 <= generation <= |floors| then floors[generation - 1] else 0
  }

  ghost predicate Enabled<D>(s: State<D>, e: Event<D>) {
    match e
    case Commit(_) => true
    case Invalidate(_, _) => true
    case Tick(_) => true
    case Evict(key) => key in s.cells ==> !s.cells[key].Counter?
    case Overwrite(key, _, _) => forall scope :: key != GenerationKey(scope)
    case Begin(r, _) => r !in s.readers
    case ReadGeneration(r) => r in s.readers && s.readers[r].Begun?
    case ReadEntry(r) => r in s.readers && s.readers[r].HasGeneration?
    case ReadDatabase(r) => r in s.readers && s.readers[r].Missed?
    case StoreEntry(r) => r in s.readers && s.readers[r].Loaded?
    case StoreAnswerLost(r) => r in s.readers && s.readers[r].Loaded?
    case Fail(r) => r in s.readers && !s.readers[r].Done? && !s.readers[r].Direct?
    case ReadDirectly(r) => r in s.readers && s.readers[r].Direct?
  }

  function AfterInvalidate<D>(s: State<D>, scope: Scope, eventId: string): State<D>
    requires |s.history| > 0
  {
    if Live(s.cells, EventKey(scope, eventId), s.now) then s
    else
      s.(cells := Invalidated(s.cells, scope, eventId, s.now),
         floors := s.floors[scope := FloorsOf(s, scope) + [|s.history| - 1]])
  }

  function AfterReadEntry<D>(s: State<D>, r: Reader): State<D>
    requires r in s.readers && s.readers[r].HasGeneration?
  {
    var p := s.readers[r];
    var hit := Hit(s.cells, p.call.subject, p.generation, s.now);
    if hit.Some? then
      var cell := s.cells[EntryKey(p.call.subject, p.generation)];
      s.(readers := s.readers[r := Done(p.call, Ok(hit.value), cell.readFrom,
        Some(Timing(cell.readAt, cell.storedAt, s.now)))])
    else if Unparsable(s.cells, p.call.subject, p.generation, s.now) then s.(readers := s.readers[r := Direct(p.call)])
    else s.(readers := s.readers[r := Missed(p.call, p.generation)])
  }

  /** An error answer is an exception, which sends the reader to the direct path. */
  function AfterReadDatabase<D>(resolve: Resolver<D>, s: State<D>, r: Reader): State<D>
    requires |s.history| > 0 && r in s.readers && s.readers[r].Missed?
  {
    var p := s.readers[r];
    var current := |s.history| - 1;
    match resolve(s.history[current], p.call.subject)
    case Ok(value) => s.(readers := s.readers[r := Loaded(p.call, p.generation, value, current, s.now)])
    case Err(_) => s.(readers := s.readers[r := Direct(p.call)])
  }

  /** The entry is stored; the reader goes on as `next`. */
  function AfterStore<D>(s: State<D>, r: Reader, next: Phase, ttlSeconds: nat): State<D>
    requires r in s.readers && s.readers[r].Loaded?
  {
    var p := s.readers[r];
    s.(cells := Filled(s.cells, p.call.subject, p.generation, p.value, p.readFrom, p.readAt, s.now, ttlSeconds),
       readers := s.readers[r := next])
  }

  /** The reader returns what it has read. */
  function Answered(p: Phase): Phase
    requires p.Loaded?
  {
    Done(p.call, Ok(p.value), p.readFrom, None)
  }

  function CallOf<D>(s: State<D>, subject: Subject): (c: Call)
    requires |s.history| > 0
    ensures c.subject == subject
  {
    var floors := FloorsOf(s, ScopeOf(subject));
    Call(subject, |s.history| - 1, Floor(floors, |floors|), |floors|)
  }

  ghost function Step<D>(resolve: Resolver<D>, s: State<D>, e: Event<D>, ttlSeconds: nat): State<D>
    requires |s.history| > 0 && Enabled(s, e)
  {
    match e
    case Commit(database) => s.(history := s.history + [database], commits := s.commits + [s.now])
    case Invalidate(scope, eventId) => AfterInvalidate(s, scope, eventId)
    case Tick(seconds) => s.(now := s.now + seconds)
    case Evict(key) => s.(cells := s.cells - {key})
    case Overwrite(key, parses, expiresAt) => s.(cells := s.cells[key := Foreign(parses, expiresAt)])
    case Begin(r, subject) => s.(readers := s.readers[r := Begun(CallOf(s, subject))])
    case ReadGeneration(r) =>
      var call := s.readers[r].call;
      s.(readers := s.readers[r := HasGeneration(call, Generation(s.cells, ScopeOf(call.subject)))])
    case ReadEntry(r) => AfterReadEntry(s, r)
    case ReadDatabase(r) => AfterReadDatabase(resolve, s, r)
    case StoreEntry(r) => AfterStore(s, r, Answered(s.readers[r]), ttlSeconds)
    case StoreAnswerLost(r) => AfterStore(s, r, Direct(s.readers[r].call), ttlSeconds)
    case Fail(r) => s.(readers := s.readers[r := Direct(s.readers[r].call)])
    case ReadDirectly(r) =>
      var call, current := s.readers[r].call, |s.history| - 1;
      s.(readers := s.readers[r := Done(call, resolve(s.history[current], call.subject), current, None)])
  }

  // ----- the invariant -----

  /** The counter counts the accepted invalidations, and later generations start no earlier. */
  ghost predicate GoodScope<D>(s: State<D>, scope: Scope) {
    var key, floors := GenerationKey(scope), FloorsOf(s, scope);
    && (key in s.cells ==> s.cells[key].Counter?)
    && Generation(s.cells, scope) == |floors|
    && (forall i | 0 <= i < |floors| :: floors[i] < |s.history|)
    && (forall i, j | 0 <= i < j < |floors| :: floors[i] <= floors[j])
  }

  /** The database state was the current one at this time. */
  predicate CurrentAt(commits: seq<int>, from: int, at: int) {
    && 0 <= from < |commits|
    && commits[from] <= at
    && (from + 1 < |commits| ==> at <= commits[from + 1])
  }

  /** The value is what this state of the database answers; the state was current when it was read, and it is not
      older than the generation. */
  predicate ReadSince<D>(resolve: Resolver<D>, s: State<D>, subject: Subject, generation: nat, value: Effective,
      readFrom: nat, readAt: int)
  {
    var floors := FloorsOf(s, ScopeOf(subject));
    && generation <= |floors|
    && Floor(floors, generation) <= readFrom < |s.history|
    && resolve(s.history[readFrom], subject) == Ok(value)
    && CurrentAt(s.commits, readFrom, readAt) && readAt <= s.now
  }

  predicate GoodEntry<D>(resolve: Resolver<D>, s: State<D>, subject: Subject, generation: nat, ttlSeconds: nat) {
    var key := EntryKey(subject, generation);
    key in s.cells && !s.cells[key].Foreign? ==>
      && s.cells[key].Cached?
      && ReadSince(resolve, s, subject, generation, s.cells[key].value, s.cells[key].readFrom, s.cells[key].readAt)
      && s.cells[key].readAt <= s.cells[key].storedAt <= s.now
      && s.cells[key].expiresAt == s.cells[key].storedAt + ttlSeconds
  }

  predicate GoodCall<D>(s: State<D>, call: Call) {
    var floors := FloorsOf(s, ScopeOf(call.subject));
    && call.begun < |s.history|
    && call.generationAtStart <= |floors|
    && call.floor == Floor(floors, call.generationAtStart)
    && call.floor <= call.begun
  }

  predicate GoodAnswer<D>(resolve: Resolver<D>, s: State<D>, p: Phase, ttlSeconds: nat)
    requires p.Done?
  {
    && p.call.floor <= p.readFrom < |s.history|
    && p.answer == resolve(s.history[p.readFrom], p.call.subject)
    && match p.hit
       case None => p.call.begun <= p.readFrom
       case Some(t) =>
         && CurrentAt(s.commits, p.readFrom, t.readAt)
         && t.readAt <= t.storedAt <= t.servedAt < t.storedAt + ttlSeconds && t.servedAt <= s.now
  }

  predicate GoodReader<D>(resolve: Resolver<D>, s: State<D>, r: Reader, ttlSeconds: nat)
    requires r in s.readers
  {
    var p := s.readers[r];
    var floors := FloorsOf(s, ScopeOf(p.call.subject));
    && GoodCall(s, p.call)
    && match p
       case Begun(_) => true
       case HasGeneration(call, generation) => call.generationAtStart <= generation <= |floors|
       case Missed(call, generation) => call.generationAtStart <= generation <= |floors|
       case Loaded(call, generation, value, readFrom, readAt) =>
         && call.begun <= readFrom && call.generationAtStart <= generation
         && ReadSince(resolve, s, call.subject, generation, value, readFrom, readAt)
       case Direct(_) => true
       case Done(_, _, _, _) => GoodAnswer(resolve, s, p, ttlSeconds)
  }

  /** Every database state became current at some time, one after the other. */
  predicate GoodClock<D>(s: State<D>) {
    && |s.commits| == |s.history|
    && (forall c | 0 <= c < |s.commits| :: s.commits[c] <= s.now)
    && (forall c, d | 0 <= c < d < |s.commits| :: s.commits[c] <= s.commits[d])
  }

  ghost predicate Inv<D>(resolve: Resolver<D>, s: State<D>, ttlSeconds: nat) {
    && |s.history| > 0 && GoodClock(s)
    && (forall scope :: GoodScope(s, scope))
    && (forall subject, generation :: GoodEntry(resolve, s, subject, generation, ttlSeconds))
    && (forall r | r in s.readers :: GoodReader(resolve, s, r, ttlSeconds))
  }

  // ----- every step keeps it -----

  lemma FloorGrows<D>(s: State<D>, scope: Scope, g: nat, h: nat)
    requires GoodScope(s, scope) && g <= h <= |FloorsOf(s, scope)| && |s.history| > 0
    ensures Floor(FloorsOf(s, scope), g) <= Floor(FloorsOf(s, scope), h) < |s.history|
  {
    hide GenerationKey;
  }

  /** The history may grow and later generations may be added; nothing else that the predicates look at changes. */
  ghost predicate Later<D>(s: State<D>, t: State<D>) {
    && s.history <= t.history
    && s.now <= t.now
    && s.commits <= t.commits && (forall c | |s.commits| <= c < |t.commits| :: t.commits[c] >= s.now)
    && forall scope :: FloorsOf(s, scope) <= FloorsOf(t, scope)
  }

  lemma LaterCurrent<D>(s: State<D>, t: State<D>, from: int, at: int)
    requires Later(s, t) && CurrentAt(s.commits, from, at) && at <= s.now
    ensures CurrentAt(t.commits, from, at) && at <= t.now
  {
    hide FloorsOf;
  }

  lemma LaterReader<D>(resolve: Resolver<D>, s: State<D>, t: State<D>, r: Reader, ttlSeconds: nat)
    requires r in s.readers && r in t.readers && s.readers[r] == t.readers[r]
    requires Later(s, t) && GoodReader(resolve, s, r, ttlSeconds)
    ensures GoodReader(resolve, t, r, ttlSeconds)
  {
    var p := s.readers[r];
    var scope := ScopeOf(p.call.subject);
    hide FloorsOf, CurrentAt;
    assert FloorsOf(s, scope) <= FloorsOf(t, scope);
    if p.Loaded? {
      LaterCurrent(s, t, p.readFrom, p.readAt);
    } else if p.Done? && p.hit.Some? {
      LaterCurrent(s, t, p.readFrom, p.hit.value.readAt);
    }
  }

  lemma LaterEntry<D>(resolve: Resolver<D>, s: State<D>, t: State<D>, subject: Subject, generation: nat,
      ttlSeconds: nat)
    requires Later(s, t) && GoodEntry(resolve, s, subject, generation, ttlSeconds)
    requires var key := EntryKey(subject, generation);
      key in t.cells ==> key in s.cells && t.cells[key] == s.cells[key]
    ensures GoodEntry(resolve, t, subject, generation, ttlSeconds)
  {
    hide FloorsOf, EntryKey, CurrentAt;
    assert FloorsOf(s, ScopeOf(subject)) <= FloorsOf(t, ScopeOf(subject));
    var key := EntryKey(subject, generation);
    if key in t.cells && t.cells[key].Cached? {
      LaterCurrent(s, t, t.cells[key].readFrom, t.cells[key].readAt);
    }
  }

  lemma LaterScope<D>(s: State<D>, t: State<D>, scope: Scope)
    requires Later(s, t) && GoodScope(s, scope) && FloorsOf(t, scope) == FloorsOf(s, scope)
    requires var key := GenerationKey(scope);
      (key in t.cells <==> key in s.cells) && (key in t.cells ==> t.cells[key] == s.cells[key])
    ensures GoodScope(t, scope)
  {
    hide FloorsOf, GenerationKey;
  }

  /** Steps that write no cell, except that they may drop some. */
  lemma QuietStep<D>(resolve: Resolver<D>, s: State<D>, t: State<D>, active: set<Reader>, ttlSeconds: nat)
    requires Inv(resolve, s, ttlSeconds) && Later(s, t) && t.floors == s.floors && GoodClock(t)
    requires forall key | key in t.cells :: key in s.cells && t.cells[key] == s.cells[key]
    requires forall key | key in s.cells && s.cells[key].Counter? :: key in t.cells
    requires forall r | r in t.readers && r !in active :: r in s.readers && t.readers[r] == s.readers[r]
    requires forall r | r in active && r in t.readers :: GoodReader(resolve, t, r, ttlSeconds)
    ensures Inv(resolve, t, ttlSeconds)
  {
    forall scope
      ensures GoodScope(t, scope)
    {
      assert GoodScope(s, scope);
      LaterScope(s, t, scope);
    }
    hide GoodScope, GoodEntry, GoodReader, Later, EntryKey;
    forall subject, generation
      ensures GoodEntry(resolve, t, subject, generation, ttlSeconds)
    {
      assert GoodEntry(resolve, s, subject, generation, ttlSeconds);
      LaterEntry(resolve, s, t, subject, generation, ttlSeconds);
    }
    forall r | r in t.readers
      ensures GoodReader(resolve, t, r, ttlSeconds)
    {
      if r !in active {
        LaterReader(resolve, s, t, r, ttlSeconds);
      }
    }
  }

  lemma InvalidateCells(cells: Cells, scope: Scope, eventId: string, now: int)
    ensures var after := Invalidated(cells, scope, eventId, now);
      !Live(cells, EventKey(scope, eventId), now) ==>
        && (forall other :: other != scope ==>
              (GenerationKey(other) in after <==> GenerationKey(other) in cells)
              && (GenerationKey(other) in after ==> after[GenerationKey(other)] == cells[GenerationKey(other)]))
        && GenerationKey(scope) in after && after[GenerationKey(scope)] == Counter(Generation(cells, scope) + 1)
        && (forall subject, g :: EntryKey(subject, g) in after ==>
              EntryKey(subject, g) in cells && after[EntryKey(subject, g)] == cells[EntryKey(subject, g)])
  {
    hide GenerationKey, EntryKey, EventKey;
    var after := Invalidated(cells, scope, eventId, now);
    KindsOfKeysDiffer(scope, scope, Subject("", "", ""), 0, eventId);
    forall other | other != scope
      ensures GenerationKey(other) != GenerationKey(scope) && GenerationKey(other) != EventKey(scope, eventId)
    {
      GenerationKeyInjective(other, scope);
      KindsOfKeysDiffer(other, scope, Subject("", "", ""), 0, eventId);
    }
    forall subject, g
      ensures EntryKey(subject, g) != GenerationKey(scope) && EntryKey(subject, g) != EventKey(scope, eventId)
    {
      KindsOfKeysDiffer(scope, scope, subject, g, eventId);
    }
  }

  lemma InvalidateKeepsInv<D>(resolve: Resolver<D>, s: State<D>, scope: Scope, eventId: string, ttlSeconds: nat)
    requires Inv(resolve, s, ttlSeconds)
    ensures Inv(resolve, AfterInvalidate(s, scope, eventId), ttlSeconds)
  {
    hide EventKey, EntryKey, GenerationKey, Invalidated, GoodEntry, GoodReader;
    if !Live(s.cells, EventKey(scope, eventId), s.now) {
      var t := AfterInvalidate(s, scope, eventId);
      InvalidateCells(s.cells, scope, eventId, s.now);
      assert GoodScope(s, scope);
      assert Later(s, t);
      forall other
        ensures GoodScope(t, other)
      {
        assert GoodScope(s, other);
        if other != scope {
          LaterScope(s, t, other);
        }
      }
      hide GoodScope, Later;
      forall subject, generation
        ensures GoodEntry(resolve, t, subject, generation, ttlSeconds)
      {
        assert GoodEntry(resolve, s, subject, generation, ttlSeconds);
        LaterEntry(resolve, s, t, subject, generation, ttlSeconds);
      }
      forall r | r in t.readers
        ensures GoodReader(resolve, t, r, ttlSeconds)
      {
        LaterReader(resolve, s, t, r, ttlSeconds);
      }
    }
  }

  lemma ReadGenerationKeepsInv<D>(resolve: Resolver<D>, s: State<D>, r: Reader, ttlSeconds: nat)
    requires Inv(resolve, s, ttlSeconds) && Enabled(s, ReadGeneration(r))
    ensures Inv(resolve, Step(resolve, s, ReadGeneration(r), ttlSeconds), ttlSeconds)
  {
    hide EventKey, EntryKey, GenerationKey, GoodEntry;
    var t := Step(resolve, s, ReadGeneration(r), ttlSeconds);
    assert GoodReader(resolve, s, r, ttlSeconds);
    assert GoodScope(s, ScopeOf(s.readers[r].call.subject));
    hide GoodScope;
    QuietStep(resolve, s, t, {r}, ttlSeconds);
  }

  lemma BeginKeepsInv<D>(resolve: Resolver<D>, s: State<D>, r: Reader, subject: Subject, ttlSeconds: nat)
    requires Inv(resolve, s, ttlSeconds) && Enabled(s, Event.Begin(r, subject))
    ensures Inv(resolve, Step(resolve, s, Event.Begin(r, subject), ttlSeconds), ttlSeconds)
  {
    hide EventKey, EntryKey, GenerationKey, GoodEntry;
    var t := Step(resolve, s, Event.Begin(r, subject), ttlSeconds);
    var floors := FloorsOf(s, ScopeOf(subject));
    assert GoodScope(s, ScopeOf(subject));
    FloorGrows(s, ScopeOf(subject), |floors|, |floors|);
    hide GoodScope;
    QuietStep(resolve, s, t, {r}, ttlSeconds);
  }

  lemma ReadEntryKeepsInv<D>(resolve: Resolver<D>, s: State<D>, r: Reader, ttlSeconds: nat)
    requires Inv(resolve, s, ttlSeconds) && Enabled(s, ReadEntry(r))
    ensures Inv(resolve, AfterReadEntry(s, r), ttlSeconds)
  {
    hide EventKey, EntryKey, GenerationKey, ValidCachedValue, GoodReader, GoodScope, GoodEntry;
    EntryReader(resolve, s, r, ttlSeconds);
    QuietStep(resolve, s, AfterReadEntry(s, r), {r}, ttlSeconds);
  }

  lemma EntryReader<D>(resolve: Resolver<D>, s: State<D>, r: Reader, ttlSeconds: nat)
    requires Inv(resolve, s, ttlSeconds) && Enabled(s, ReadEntry(r))
    ensures GoodReader(resolve, AfterReadEntry(s, r), r, ttlSeconds)
  {
    hide EntryKey, GenerationKey, ValidCachedValue, Floor, CurrentAt;
    var p := s.readers[r];
    var scope := ScopeOf(p.call.subject);
    assert GoodReader(resolve, s, r, ttlSeconds);
    assert GoodScope(s, scope) && GoodEntry(resolve, s, p.call.subject, p.generation, ttlSeconds);
    FloorGrows(s, scope, p.call.generationAtStart, p.generation);
    hide GoodScope, Inv;
  }

  lemma ReadDatabaseKeepsInv<D>(resolve: Resolver<D>, s: State<D>, r: Reader, ttlSeconds: nat)
    requires Inv(resolve, s, ttlSeconds) && Enabled(s, ReadDatabase(r))
    ensures Inv(resolve, AfterReadDatabase(resolve, s, r), ttlSeconds)
  {
    hide EventKey, EntryKey, GenerationKey, GoodReader, GoodScope, GoodEntry;
    DatabaseReader(resolve, s, r, ttlSeconds);
    QuietStep(resolve, s, AfterReadDatabase(resolve, s, r), {r}, ttlSeconds);
  }

  lemma DatabaseReader<D>(resolve: Resolver<D>, s: State<D>, r: Reader, ttlSeconds: nat)
    requires Inv(resolve, s, ttlSeconds) && Enabled(s, ReadDatabase(r))
    ensures GoodReader(resolve, AfterReadDatabase(resolve, s, r), r, ttlSeconds)
  {
    hide EntryKey, GenerationKey, Floor, GoodEntry;
    var p := s.readers[r];
    var scope := ScopeOf(p.call.subject);
    assert GoodReader(resolve, s, r, ttlSeconds) && GoodScope(s, scope);
    FloorGrows(s, scope, p.generation, p.generation);
    hide GoodScope;
  }

  /** A reader that has stored returns its value, or, without an answer, goes to the database once more. */
  lemma StoreKeepsInv<D>(resolve: Resolver<D>, s: State<D>, r: Reader, next: Phase, ttlSeconds: nat)
    requires Inv(resolve, s, ttlSeconds) && r in s.readers && s.readers[r].Loaded?
    requires next == Answered(s.readers[r]) || next == Direct(s.readers[r].call)
    ensures Inv(resolve, AfterStore(s, r, next, ttlSeconds), ttlSeconds)
  {
    hide EventKey, EntryKey, GenerationKey, GoodScope, GoodEntry, GoodReader;
    var t := AfterStore(s, r, next, ttlSeconds);
    assert Later(s, t);
    forall subject, generation
      ensures GoodEntry(resolve, t, subject, generation, ttlSeconds)
    {
      StoredEntry(resolve, s, r, next, subject, generation, ttlSeconds);
    }
    forall scope
      ensures GoodScope(t, scope)
    {
      StoredScope(s, r, next, scope, ttlSeconds);
    }
    hide Later;
    forall v | v in t.readers
      ensures GoodReader(resolve, t, v, ttlSeconds)
    {
      if v == r {
        StoringReader(resolve, s, r, next, ttlSeconds);
      } else {
        LaterReader(resolve, s, t, v, ttlSeconds);
      }
    }
  }

  lemma StoredEntry<D>(resolve: Resolver<D>, s: State<D>, r: Reader, next: Phase, subject: Subject, generation: nat,
      ttlSeconds: nat)
    requires r in s.readers && s.readers[r].Loaded? && GoodReader(resolve, s, r, ttlSeconds)
    requires GoodEntry(resolve, s, subject, generation, ttlSeconds)
    ensures GoodEntry(resolve, AfterStore(s, r, next, ttlSeconds), subject, generation, ttlSeconds)
  {
    hide EntryKey, Floor, CurrentAt;
    EntryKeyInjective(subject, s.readers[r].call.subject, generation, s.readers[r].generation);
  }

  lemma StoredScope<D>(s: State<D>, r: Reader, next: Phase, scope: Scope, ttlSeconds: nat)
    requires r in s.readers && s.readers[r].Loaded? && GoodScope(s, scope)
    ensures GoodScope(AfterStore(s, r, next, ttlSeconds), scope)
  {
    hide EntryKey, GenerationKey;
    KindsOfKeysDiffer(scope, scope, s.readers[r].call.subject, s.readers[r].generation, "");
  }

  lemma StoringReader<D>(resolve: Resolver<D>, s: State<D>, r: Reader, next: Phase, ttlSeconds: nat)
    requires Inv(resolve, s, ttlSeconds) && r in s.readers && s.readers[r].Loaded?
    requires next == Answered(s.readers[r]) || next == Direct(s.readers[r].call)
    ensures GoodReader(resolve, AfterStore(s, r, next, ttlSeconds), r, ttlSeconds)
  {
    hide GoodEntry, EntryKey, CurrentAt;
    var p := s.readers[r];
    assert GoodReader(resolve, s, r, ttlSeconds) && GoodScope(s, ScopeOf(p.call.subject));
    FloorGrows(s, ScopeOf(p.call.subject), p.call.generationAtStart, p.generation);
    hide GoodScope, Inv;
  }

  lemma ReadDirectlyKeepsInv<D>(resolve: Resolver<D>, s: State<D>, r: Reader, ttlSeconds: nat)
    requires Inv(resolve, s, ttlSeconds) && Enabled(s, ReadDirectly(r))
    ensures Inv(resolve, Step(resolve, s, ReadDirectly(r), ttlSeconds), ttlSeconds)
  {
    hide EventKey, EntryKey, GenerationKey, GoodEntry, GoodScope;
    assert GoodReader(resolve, s, r, ttlSeconds);
    QuietStep(resolve, s, Step(resolve, s, ReadDirectly(r), ttlSeconds), {r}, ttlSeconds);
  }

  lemma FailKeepsInv<D>(resolve: Resolver<D>, s: State<D>, r: Reader, ttlSeconds: nat)
    requires Inv(resolve, s, ttlSeconds) && Enabled(s, Fail(r))
    ensures Inv(resolve, Step(resolve, s, Fail(r), ttlSeconds), ttlSeconds)
  {
    hide EventKey, EntryKey, GenerationKey, GoodEntry, GoodScope;
    assert GoodReader(resolve, s, r, ttlSeconds);
    QuietStep(resolve, s, Step(resolve, s, Fail(r), ttlSeconds), {r}, ttlSeconds);
  }

  lemma OverwriteKeepsInv<D>(resolve: Resolver<D>, s: State<D>, key: string, parses: bool, expiresAt: int,
      ttlSeconds: nat)
    requires Inv(resolve, s, ttlSeconds) && Enabled(s, Overwrite(key, parses, expiresAt))
    ensures Inv(resolve, Step(resolve, s, Overwrite(key, parses, expiresAt), ttlSeconds), ttlSeconds)
  {
    hide EntryKey, GenerationKey, GoodReader, ReadSince;
    var t := Step(resolve, s, Overwrite(key, parses, expiresAt), ttlSeconds);
    assert Later(s, t) && GoodClock(t);
    forall scope
      ensures GoodScope(t, scope)
    {
      assert GoodScope(s, scope);
      LaterScope(s, t, scope);
    }
    forall subject, generation
      ensures GoodEntry(resolve, t, subject, generation, ttlSeconds)
    {
      assert GoodEntry(resolve, s, subject, generation, ttlSeconds);
      if EntryKey(subject, generation) != key {
        LaterEntry(resolve, s, t, subject, generation, ttlSeconds);
      }
    }
    hide GoodScope, GoodEntry, Later;
    forall r | r in t.readers
      ensures GoodReader(resolve, t, r, ttlSeconds)
    {
      LaterReader(resolve, s, t, r, ttlSeconds);
    }
  }

  lemma PassiveStepKeepsInv<D>(resolve: Resolver<D>, s: State<D>, e: Event<D>, ttlSeconds: nat)
    requires Inv(resolve, s, ttlSeconds) && Enabled(s, e) && (e.Commit? || e.Tick? || e.Evict?)
    ensures Inv(resolve, Step(resolve, s, e, ttlSeconds), ttlSeconds)
  {
    hide EventKey, EntryKey, GenerationKey, GoodEntry, GoodScope, GoodReader;
    QuietStep(resolve, s, Step(resolve, s, e, ttlSeconds), {}, ttlSeconds);
  }

  lemma StepKeepsInv<D>(resolve: Resolver<D>, s: State<D>, e: Event<D>, ttlSeconds: nat)
    requires Inv(resolve, s, ttlSeconds) && Enabled(s, e)
    ensures Inv(resolve, Step(resolve, s, e, ttlSeconds), ttlSeconds)
  {
    hide GoodScope, GoodEntry, GoodReader;
    match e
    case Invalidate(scope, eventId) => InvalidateKeepsInv(resolve, s, scope, eventId, ttlSeconds);
    case Begin(r, subject) => BeginKeepsInv(resolve, s, r, subject, ttlSeconds);
    case ReadGeneration(r) => ReadGenerationKeepsInv(resolve, s, r, ttlSeconds);
    case ReadEntry(r) => ReadEntryKeepsInv(resolve, s, r, ttlSeconds);
    case ReadDatabase(r) => ReadDatabaseKeepsInv(resolve, s, r, ttlSeconds);
    case StoreEntry(r) => StoreKeepsInv(resolve, s, r, Answered(s.readers[r]), ttlSeconds);
    case StoreAnswerLost(r) => StoreKeepsInv(resolve, s, r, Direct(s.readers[r].call), ttlSeconds);
    case Fail(r) => FailKeepsInv(resolve, s, r, ttlSeconds);
    case ReadDirectly(r) => ReadDirectlyKeepsInv(resolve, s, r, ttlSeconds);
    case Overwrite(key, parses, expiresAt) => OverwriteKeepsInv(resolve, s, key, parses, expiresAt, ttlSeconds);
    case _ => PassiveStepKeepsInv(resolve, s, e, ttlSeconds);
  }

  // ----- whole runs -----

  function Start<D>(database: D, now: int): State<D> {
    State([database], [now], map[], now, map[], map[])
  }

  ghost predicate IsRun<D>(resolve: Resolver<D>, states: seq<State<D>>, events: seq<Event<D>>, ttlSeconds: nat) {
    && |states| == |events| + 1
    && |states[0].history| == 1 && states[0] == Start(states[0].history[0], states[0].now)
    && forall i | 0 <= i < |events| ::
         |states[i].history| > 0 && Enabled(states[i], events[i])
         && states[i + 1] == Step(resolve, states[i], events[i], ttlSeconds)
  }

  lemma {:induction false} RunKeepsInv<D>(resolve: Resolver<D>, states: seq<State<D>>, events: seq<Event<D>>,
      ttlSeconds: nat, i: nat)
    requires IsRun(resolve, states, events, ttlSeconds) && i < |states|
    ensures Inv(resolve, states[i], ttlSeconds)
  {
    hide GenerationKey, EntryKey;
    if i > 0 {
      hide Inv, Step, Enabled;
      RunKeepsInv(resolve, states, events, ttlSeconds, i - 1);
      StepKeepsInv(resolve, states[i - 1], events[i - 1], ttlSeconds);
    }
  }

  /** A `get` keeps its subject and its history while it runs. */
  ghost predicate Successor<D>(s: State<D>, t: State<D>) {
    && Later(s, t)
    && forall r | r in s.readers :: r in t.readers && t.readers[r].call == s.readers[r].call
  }

  lemma StepGoesOn<D>(resolve: Resolver<D>, s: State<D>, e: Event<D>, ttlSeconds: nat)
    requires |s.history| > 0 && Enabled(s, e)
    ensures Successor(s, Step(resolve, s, e, ttlSeconds))
  {
    hide EventKey, EntryKey, GenerationKey, Floor, ValidCachedValue;
  }

  lemma {:induction false} RunGoesOn<D>(resolve: Resolver<D>, states: seq<State<D>>, events: seq<Event<D>>,
      ttlSeconds: nat, i: nat, j: nat)
    requires IsRun(resolve, states, events, ttlSeconds) && i <= j < |states|
    ensures Successor(states[i], states[j])
  {
    hide Step, Enabled, FloorsOf;
    if i < j {
      hide Later, Successor;
      RunGoesOn(resolve, states, events, ttlSeconds, i, j - 1);
      StepGoesOn(resolve, states[j - 1], events[j - 1], ttlSeconds);
      SuccessorsChain(states[i], states[j - 1], states[j]);
    }
  }

  lemma SuccessorsChain<D>(s: State<D>, t: State<D>, u: State<D>)
    requires Successor(s, t) && Successor(t, u)
    ensures Successor(s, u)
  {
    hide FloorsOf;
    forall scope
      ensures FloorsOf(s, scope) <= FloorsOf(u, scope)
    {
      assert FloorsOf(s, scope) <= FloorsOf(t, scope) <= FloorsOf(u, scope);
    }
  }

  /** The state of the database that an answer was read from. */
  ghost predicate AnsweredFrom<D>(resolve: Resolver<D>, s: State<D>, r: Reader, subject: Subject, oldest: int) {
    && r in s.readers && s.readers[r].Done?
    && oldest <= s.readers[r].readFrom < |s.history|
    && s.readers[r].answer == resolve(s.history[s.readers[r].readFrom], subject)
  }

  lemma FloorAfterInvalidation<D>(s: State<D>, scope: Scope, eventId: string, t: State<D>, subject: Subject)
    requires |s.history| > 0 && !Live(s.cells, EventKey(scope, eventId), s.now)
    requires Later(AfterInvalidate(s, scope, eventId), t) && GoodScope(t, scope) && ScopeOf(subject) == scope
    ensures var floors := FloorsOf(t, scope); Floor(floors, |floors|) >= |s.history| - 1
  {
    hide EventKey, GenerationKey, Invalidated;
    var before := FloorsOf(s, scope);
    var floors := FloorsOf(t, scope);
    assert before + [|s.history| - 1] <= floors;
    assert floors[|before|] == |s.history| - 1;
  }

  /** A `get` that begins after an accepted invalidation answers from a database state that has everything which
      was committed before the invalidation, although slow readers may store before answers at any time. */
  lemma FreshAfterAcceptedInvalidation<D>(resolve: Resolver<D>, states: seq<State<D>>, events: seq<Event<D>>,
      ttlSeconds: nat, i: nat, j: nat, m: nat)
    requires IsRun(resolve, states, events, ttlSeconds) && i < j < m < |states|
    requires events[i].Invalidate?
    requires !Live(states[i].cells, EventKey(events[i].scope, events[i].eventId), states[i].now)
    requires events[j].Begin? && ScopeOf(events[j].subject) == events[i].scope
    requires events[j].reader in states[m].readers && states[m].readers[events[j].reader].Done?
    ensures AnsweredFrom(resolve, states[m], events[j].reader, events[j].subject, |states[i].history| - 1)
  {
    hide EventKey, EntryKey, GenerationKey, Inv, GoodScope;
    var r, subject, scope := events[j].reader, events[j].subject, events[i].scope;
    RunKeepsInv(resolve, states, events, ttlSeconds, m);
    RunKeepsInv(resolve, states, events, ttlSeconds, j);
    RunGoesOn(resolve, states, events, ttlSeconds, i + 1, j);
    RunGoesOn(resolve, states, events, ttlSeconds, j + 1, m);
    ScopeOfInv(resolve, states[j], scope, ttlSeconds);
    assert states[i + 1] == AfterInvalidate(states[i], scope, events[i].eventId);
    FloorAfterInvalidation(states[i], scope, events[i].eventId, states[j], subject);
    BeginRecords(resolve, states[j], r, subject, ttlSeconds);
    assert states[j + 1] == Step(resolve, states[j], events[j], ttlSeconds);
    hide IsRun, Step, AfterInvalidate, Later;
    assert states[m].readers[r].call == states[j + 1].readers[r].call;
    ReaderOfInv(resolve, states[m], r, ttlSeconds);
  }

  lemma ScopeOfInv<D>(resolve: Resolver<D>, s: State<D>, scope: Scope, ttlSeconds: nat)
    requires Inv(resolve, s, ttlSeconds)
    ensures GoodScope(s, scope)
  {
    hide GoodEntry, GoodReader;
  }

  lemma ReaderOfInv<D>(resolve: Resolver<D>, s: State<D>, r: Reader, ttlSeconds: nat)
    requires Inv(resolve, s, ttlSeconds) && r in s.readers && s.readers[r].Done?
    ensures GoodAnswer(resolve, s, s.readers[r], ttlSeconds)
  {
    hide GoodScope, GoodEntry, GoodAnswer;
    assert GoodReader(resolve, s, r, ttlSeconds);
  }

  lemma BeginRecords<D>(resolve: Resolver<D>, s: State<D>, r: Reader, subject: Subject, ttlSeconds: nat)
    requires |s.history| > 0 && r !in s.readers
    ensures var t := Step(resolve, s, Event.Begin(r, subject), ttlSeconds);
      r in t.readers && t.readers[r].call == CallOf(s, subject)
  {
  }

  /** A hit was stored less than the time to live before it was served. A commit is missing from an answer only if it
      was made after the `get` began, or less than the time to live, and the time that the reader who stored the entry
      took from its read to its store, before it was served. */
  ghost predicate AgeBounded<D>(s: State<D>, p: Phase, begun: nat, ttlSeconds: nat)
    requires p.Done?
  {
    && (p.hit.Some? ==>
          && p.hit.value.readAt <= p.hit.value.storedAt
          && p.hit.value.storedAt <= p.hit.value.servedAt < p.hit.value.storedAt + ttlSeconds)
    && (begun <= p.readFrom
        || (&& p.hit.Some?
            && forall c | p.readFrom < c < |s.commits| ::
                 p.hit.value.servedAt - s.commits[c] < ttlSeconds + (p.hit.value.storedAt - p.hit.value.readAt)))
  }

  /** Whatever happens to the invalidations, the age of an answer is bounded by the time to live and the time that the
      slowest reader takes to store. */
  lemma AgeIsBounded<D>(resolve: Resolver<D>, states: seq<State<D>>, events: seq<Event<D>>,
      ttlSeconds: nat, j: nat, m: nat)
    requires IsRun(resolve, states, events, ttlSeconds) && j < m < |states|
    requires events[j].Begin?
    requires events[j].reader in states[m].readers && states[m].readers[events[j].reader].Done?
    ensures AnsweredFrom(resolve, states[m], events[j].reader, events[j].subject, 0)
    ensures AgeBounded(states[m], states[m].readers[events[j].reader], |states[j].history| - 1, ttlSeconds)
  {
    hide EventKey, EntryKey, GenerationKey, Inv;
    var r, subject := events[j].reader, events[j].subject;
    RunKeepsInv(resolve, states, events, ttlSeconds, m);
    RunGoesOn(resolve, states, events, ttlSeconds, j + 1, m);
    BeginRecords(resolve, states[j], r, subject, ttlSeconds);
    assert states[j + 1] == Step(resolve, states[j], events[j], ttlSeconds);
    hide IsRun, Step, Later;
    assert states[m].readers[r].call == states[j + 1].readers[r].call;
    ReaderOfInv(resolve, states[m], r, ttlSeconds);
    ClockOfInv(resolve, states[m], ttlSeconds);
    CommitsAfter(states[m]);
  }

  lemma ClockOfInv<D>(resolve: Resolver<D>, s: State<D>, ttlSeconds: nat)
    requires Inv(resolve, s, ttlSeconds)
    ensures GoodClock(s)
  {
    hide GoodClock, GoodScope, GoodEntry, GoodReader;
  }

  lemma CommitsAfter<D>(s: State<D>)
    requires GoodClock(s)
    ensures forall from, at, c | CurrentAt(s.commits, from, at) && from < c < |s.commits| :: at <= s.commits[c]
  {
    forall from, at, c | CurrentAt(s.commits, from, at) && from < c < |s.commits|
      ensures at <= s.commits[c]
    {
      assert c == from + 1 || s.commits[from + 1] <= s.commits[c];
    }
  }

  // ----- the program's `get` in a run -----

  function ServerOf<D>(s: State<D>): Server {
    Server(s.cells, s.now)
  }

  /** How far a `get` has come. */
  function Progress(p: Phase): nat {
    match p
    case Begun(_) => 0
    case HasGeneration(_, _) => 1
    case Missed(_, _) => 2
    case Loaded(_, _, _, _, _) => 3
    case Direct(_) => 4
    case Done(_, _, _, _) => 5
  }

  /** A reader never goes back, and others do not move it. */
  ghost predicate Onward<D>(s: State<D>, t: State<D>, r: Reader) {
    r in s.readers ==>
      && r in t.readers && Progress(s.readers[r]) <= Progress(t.readers[r])
      && (Progress(s.readers[r]) == Progress(t.readers[r]) ==> t.readers[r] == s.readers[r])
  }

  lemma StepIsOnward<D>(resolve: Resolver<D>, s: State<D>, e: Event<D>, ttlSeconds: nat, r: Reader)
    requires |s.history| > 0 && Enabled(s, e)
    ensures Onward(s, Step(resolve, s, e, ttlSeconds), r)
  {
    hide EventKey, EntryKey, GenerationKey, CallOf, ValidCachedValue, Invalidated, Generation, Live;
  }

  lemma {:induction false} RunIsOnward<D>(resolve: Resolver<D>, states: seq<State<D>>, events: seq<Event<D>>,
      ttlSeconds: nat, i: nat, j: nat, r: Reader)
    requires IsRun(resolve, states, events, ttlSeconds) && i <= j < |states|
    ensures Onward(states[i], states[j], r)
  {
    hide Step, Enabled;
    if i < j {
      RunIsOnward(resolve, states, events, ttlSeconds, i, j - 1, r);
      StepIsOnward(resolve, states[j - 1], events[j - 1], ttlSeconds, r);
    }
  }

  /** What others did in the run between the two moments. */
  predicate Between<D>(others: Server -> Server, s: State<D>, t: State<D>) {
    others(ServerOf(s)) == ServerOf(t)
  }

  /** A `get` of a run that finds its entry is the `get` of the program. */
  lemma HitIsGet<D>(resolve: Resolver<D>, states: seq<State<D>>, events: seq<Event<D>>, ttlSeconds: nat, g: nat, e: nat,
      visit: Visit)
    requires IsRun(resolve, states, events, ttlSeconds) && g < e < |events|
    requires events[g].ReadGeneration? && events[e] == ReadEntry(events[g].reader)
    requires visit.generationRead.Succeeds? && visit.entryRead.Succeeds?
    requires Between(visit.beforeEntry, states[g + 1], states[e])
    requires events[g].reader in states[e + 1].readers && states[e + 1].readers[events[g].reader].Done?
    ensures var p := states[e + 1].readers[events[g].reader];
      Fetched(ServerOf(states[g]), ServerOf(states[e + 1]), p.answer, p.call.subject, visit, ttlSeconds)
  {
    hide EntryKey, GenerationKey, ValidCachedValue, Generation, Live;
    RunIsOnward(resolve, states, events, ttlSeconds, g + 1, e, events[g].reader);
  }

  /** So is one that finds nothing and reads the database: it stores, and returns what it read, or what the database
      answers when the answer to its SET is lost. */
  lemma StoredIsGet<D>(resolve: Resolver<D>, states: seq<State<D>>, events: seq<Event<D>>, ttlSeconds: nat,
      g: nat, e: nat, d: nat, w: nat, visit: Visit)
    requires IsRun(resolve, states, events, ttlSeconds) && g < e < d < w < |events|
    requires events[g].ReadGeneration? && events[e] == ReadEntry(events[g].reader)
    requires events[d] == ReadDatabase(events[g].reader)
    requires events[w] ==
      if visit.store.Succeeds? then StoreEntry(events[g].reader) else StoreAnswerLost(events[g].reader)
    requires visit.generationRead.Succeeds? && visit.entryRead.Succeeds? && !visit.store.Fails?
    requires Between(visit.beforeEntry, states[g + 1], states[e])
    requires Between(visit.beforeDatabase, states[e + 1], states[d])
    requires Between(visit.beforeStore, states[d + 1], states[w])
    requires ReadBy(resolve, states[d], events[g].reader, visit)
    ensures var r := events[g].reader;
      && r in states[g].readers && r in states[w + 1].readers
      && (visit.store.Succeeds? ==> states[w + 1].readers[r].Done? && states[w + 1].readers[r].answer == visit.read)
      && (visit.store.AnswerLost? ==> states[w + 1].readers[r].Direct?)
      && Fetched(ServerOf(states[g]), ServerOf(states[w + 1]),
           if visit.store.Succeeds? then visit.read else visit.again,
           states[g].readers[r].call.subject, visit, ttlSeconds)
  {
    hide IsRun, EntryKey, GenerationKey, ValidCachedValue, Generation, Hit, Unparsable, CallOf, Filled,
      AfterReadDatabase;
    MissOfRun(resolve, states, events, ttlSeconds, g, e, d);
    StoreOfRun(resolve, states, events, ttlSeconds, d, w);
  }

  /** A reader that stores has read its value from the database, and keeps it. */
  lemma StoreOfRun<D>(resolve: Resolver<D>, states: seq<State<D>>, events: seq<Event<D>>, ttlSeconds: nat, d: nat,
      w: nat)
    requires IsRun(resolve, states, events, ttlSeconds) && d < w < |events|
    requires events[d].ReadDatabase?
    requires events[w] == StoreEntry(events[d].reader) || events[w] == StoreAnswerLost(events[d].reader)
    ensures var r, s := events[d].reader, states[d];
      && |s.history| > 0 && r in s.readers && s.readers[r].Missed? && r in states[w].readers
      && var p := s.readers[r];
      var answer := resolve(s.history[|s.history| - 1], p.call.subject);
      && answer.Ok? && ServerOf(states[d + 1]) == ServerOf(s)
      && var loaded := Loaded(p.call, p.generation, answer.value, |s.history| - 1, s.now);
      && states[w].readers[r] == loaded
      && states[w + 1] == AfterStore(states[w], r,
           if events[w].StoreEntry? then Answered(loaded) else Direct(p.call), ttlSeconds)
  {
    hide AfterStore;
    RunIsOnward(resolve, states, events, ttlSeconds, d + 1, w, events[d].reader);
    assert Enabled(states[w], events[w]);
    assert states[d + 1] == AfterReadDatabase(resolve, states[d], events[d].reader);
  }

  /** A reader that reads the database has found nothing under the generation that it read before. */
  lemma MissOfRun<D>(resolve: Resolver<D>, states: seq<State<D>>, events: seq<Event<D>>, ttlSeconds: nat,
      g: nat, e: nat, d: nat)
    requires IsRun(resolve, states, events, ttlSeconds) && g < e < d < |events|
    requires events[g].ReadGeneration? && events[e] == ReadEntry(events[g].reader)
    requires events[d] == ReadDatabase(events[g].reader)
    ensures var r := events[g].reader;
      r in states[g].readers && r in states[d].readers
      && var call := states[g].readers[r].call;
      var generation := Generation(states[g].cells, ScopeOf(call.subject));
      && states[d].readers[r] == Missed(call, generation)
      && Hit(states[e].cells, call.subject, generation, states[e].now).None?
      && !Unparsable(states[e].cells, call.subject, generation, states[e].now)
      && ServerOf(states[g + 1]) == ServerOf(states[g]) && ServerOf(states[e + 1]) == ServerOf(states[e])
  {
    hide EntryKey, GenerationKey, ValidCachedValue, Generation, Live;
    RunIsOnward(resolve, states, events, ttlSeconds, g + 1, e, events[g].reader);
    RunIsOnward(resolve, states, events, ttlSeconds, e + 1, d, events[g].reader);
  }

  /** What the reader gets from the database in this state. */
  predicate ReadBy<D>(resolve: Resolver<D>, s: State<D>, r: Reader, visit: Visit) {
    && |s.history| > 0 && r in s.readers
    && visit.readFrom == |s.history| - 1
    && visit.read == resolve(s.history[visit.readFrom], s.readers[r].call.subject)
  }

  // ----- particular runs -----

  lemma StartsRun<D>(resolve: Resolver<D>, database: D, ttlSeconds: nat)
    ensures IsRun(resolve, [Start(database, 0)], [], ttlSeconds)
  {
  }

  lemma OneMore<D>(resolve: Resolver<D>, states: seq<State<D>>, events: seq<Event<D>>, e: Event<D>, ttlSeconds: nat)
    returns (states': seq<State<D>>, events': seq<Event<D>>)
    requires IsRun(resolve, states, events, ttlSeconds)
    requires |states[|events|].history| > 0 && Enabled(states[|events|], e)
    ensures events' == events + [e] && |states'| == |events'| + 1 && |states| == |events| + 1 && states <= states'
    ensures states'[|events'|] == Step(resolve, states[|events|], e, ttlSeconds)
    ensures IsRun(resolve, states', events', ttlSeconds)
  {
    hide Enabled, Step;
    states' := states + [Step(resolve, states[|events|], e, ttlSeconds)];
    events' := events + [e];
  }

  /** The entry that a `get` started now would find. */
  function CurrentHit<D>(s: State<D>, subject: Subject): Option<Effective> {
    Hit(s.cells, subject, Generation(s.cells, ScopeOf(subject)), s.now)
  }

  /** The phase in which a reader that starts now asks for its entry. */
  function Asking<D>(s: State<D>, subject: Subject): Phase
    requires |s.history| > 0
  {
    HasGeneration(CallOf(s, subject), Generation(s.cells, ScopeOf(subject)))
  }

  lemma MovedOn<D>(s: State<D>, r: Reader, p: Phase, q: Phase)
    ensures s.readers[r := p][r := q] == s.readers[r := q]
  {
  }

  /** A `get` up to its cache lookup, without other events in between. */
  lemma ReaderAsks<D>(resolve: Resolver<D>, states: seq<State<D>>, events: seq<Event<D>>, r: Reader, subject: Subject,
      ttlSeconds: nat)
    returns (states': seq<State<D>>, events': seq<Event<D>>)
    requires IsRun(resolve, states, events, ttlSeconds)
    requires |states[|events|].history| > 0 && r !in states[|events|].readers
    ensures events' == events + [Event.Begin(r, subject), ReadGeneration(r), ReadEntry(r)]
    ensures IsRun(resolve, states', events', ttlSeconds)
    ensures |states'| == |events'| + 1 && |states| == |events| + 1 && states <= states'
    ensures var s := states[|events|];
      states'[|events'|] == AfterReadEntry(s.(readers := s.readers[r := Asking(s, subject)]), r)
  {
    hide IsRun, EntryKey, GenerationKey, AfterReadEntry, CallOf, Generation;
    states', events' := OneMore(resolve, states, events, Event.Begin(r, subject), ttlSeconds);
    states', events' := OneMore(resolve, states', events', ReadGeneration(r), ttlSeconds);
    var s, t := states[|events|], states'[|events'|];
    MovedOn(s, r, Begun(CallOf(s, subject)), Asking(s, subject));
    assert t == s.(readers := s.readers[r := Asking(s, subject)]);
    states', events' := OneMore(resolve, states', events', ReadEntry(r), ttlSeconds);
  }

  /** What it finds. */
  lemma AskedFor<D>(s: State<D>, r: Reader, subject: Subject)
    requires |s.history| > 0
    ensures var generation := Generation(s.cells, ScopeOf(subject));
      var key := EntryKey(subject, generation);
      AfterReadEntry(s.(readers := s.readers[r := Asking(s, subject)]), r).readers[r] ==
        if CurrentHit(s, subject).Some? then
          Done(CallOf(s, subject), Ok(s.cells[key].value), s.cells[key].readFrom,
            Some(Timing(s.cells[key].readAt, s.cells[key].storedAt, s.now)))
        else if Unparsable(s.cells, subject, generation, s.now) then Direct(CallOf(s, subject))
        else Missed(CallOf(s, subject), generation)
  {
    hide EntryKey, CallOf, Generation, ValidCachedValue;
  }

  /** A `get` that finds its entry. */
  lemma ReaderHits<D>(resolve: Resolver<D>, states: seq<State<D>>, events: seq<Event<D>>, r: Reader, subject: Subject,
      ttlSeconds: nat)
    returns (states': seq<State<D>>, events': seq<Event<D>>)
    requires IsRun(resolve, states, events, ttlSeconds)
    requires |states[|events|].history| > 0 && r !in states[|events|].readers
    requires CurrentHit(states[|events|], subject).Some?
    ensures events' == events + [Event.Begin(r, subject), ReadGeneration(r), ReadEntry(r)]
    ensures IsRun(resolve, states', events', ttlSeconds)
    ensures |states'| == |events'| + 1 && |states| == |events| + 1 && states <= states'
    ensures var s := states[|events|];
      var cell := s.cells[EntryKey(subject, Generation(s.cells, ScopeOf(subject)))];
      states'[|events'|] == s.(readers := s.readers[r := Done(CallOf(s, subject), Ok(cell.value), cell.readFrom,
        Some(Timing(cell.readAt, cell.storedAt, s.now)))])
  {
    hide IsRun, EntryKey, GenerationKey, CallOf, Generation, ValidCachedValue, Live;
    states', events' := ReaderAsks(resolve, states, events, r, subject, ttlSeconds);
    var s, t := states[|events|], states'[|events'|];
    AskedFor(s, r, subject);
    MovedOn(s, r, Asking(s, subject), t.readers[r]);
  }

  /** A `get` that finds nothing and has read the database. */
  lemma ReaderLoads<D>(resolve: Resolver<D>, states: seq<State<D>>, events: seq<Event<D>>, r: Reader, subject: Subject,
      ttlSeconds: nat)
    returns (states': seq<State<D>>, events': seq<Event<D>>)
    requires IsRun(resolve, states, events, ttlSeconds)
    requires |states[|events|].history| > 0 && r !in states[|events|].readers
    requires EntryKey(subject, Generation(states[|events|].cells, ScopeOf(subject))) !in states[|events|].cells
    requires var s := states[|events|]; resolve(s.history[|s.history| - 1], subject).Ok?
    ensures events' == events + [Event.Begin(r, subject), ReadGeneration(r), ReadEntry(r), ReadDatabase(r)]
    ensures IsRun(resolve, states', events', ttlSeconds)
    ensures |states'| == |events'| + 1 && |states| == |events| + 1 && states <= states'
    ensures var s := states[|events|];
      var current := |s.history| - 1;
      states'[|events'|] == s.(readers := s.readers[r := Loaded(CallOf(s, subject),
        Generation(s.cells, ScopeOf(subject)),
        resolve(s.history[current], subject).value, current, s.now)])
  {
    hide IsRun, EntryKey, GenerationKey, CallOf, Generation, ValidCachedValue;
    states', events' := ReaderAsks(resolve, states, events, r, subject, ttlSeconds);
    var s, t := states[|events|], states'[|events'|];
    AskedFor(s, r, subject);
    MovedOn(s, r, Asking(s, subject), t.readers[r]);
    states', events' := OneMore(resolve, states', events', ReadDatabase(r), ttlSeconds);
    var u := states'[|events'|];
    MovedOn(s, r, t.readers[r], u.readers[r]);
  }

  /** A slow reader has read the database, a change is committed, a long time passes, and it stores what it read. */
  function SlowFill<D>(subject: Subject, database: D, pause: nat, wait: nat): seq<Event<D>> {
    [Event.Begin("slow", subject), ReadGeneration("slow"), ReadEntry("slow"), ReadDatabase("slow"),
     Commit(database), Tick(pause), StoreEntry("slow"), Tick(wait),
     Event.Begin("late", subject), ReadGeneration("late"), ReadEntry("late")]
  }

  /** So the time to live alone bounds nothing: however long ago a change was committed, without an invalidation the
      next `get` can answer from the state before it. */
  lemma SlowReaderServesOldState<D>(resolve: Resolver<D>, before: D, after: D, subject: Subject, pause: nat, wait: nat,
      ttlSeconds: nat)
    returns (states: seq<State<D>>, events: seq<Event<D>>)
    requires resolve(before, subject).Ok? && ValidCachedValue(resolve(before, subject).value, subject)
    requires wait < ttlSeconds
    ensures events == SlowFill(subject, after, pause, wait) && IsRun(resolve, states, events, ttlSeconds)
    ensures |states| == 12 && states[8].history == [before, after] && states[8].commits == [0, 0]
    ensures states[8].now == pause + wait
    ensures "late" in states[11].readers && states[11].readers["late"].Done?
    ensures states[11].readers["late"].answer == resolve(before, subject) && states[11].readers["late"].readFrom == 0
    ensures states[11].readers["late"].hit == Some(Timing(0, pause, pause + wait))
    ensures states[11].commits == [0, 0]
  {
    hide EntryKey, GenerationKey, ValidCachedValue, IsRun, Generation, Hit;
    var value := resolve(before, subject).value;
    var start := Start(before, 0);
    StartsRun(resolve, before, ttlSeconds);
    states, events := ReaderLoads(resolve, [start], [], "slow", subject, ttlSeconds);
    states, events := OneMore(resolve, states, events, Commit(after), ttlSeconds);
    states, events := OneMore(resolve, states, events, Tick(pause), ttlSeconds);
    states, events := OneMore(resolve, states, events, StoreEntry("slow"), ttlSeconds);
    states, events := OneMore(resolve, states, events, Tick(wait), ttlSeconds);
    StoredIsHit(start.cells, subject, value, 0, 0, pause, pause + wait, ttlSeconds);
    states, events := ReaderHits(resolve, states, events, "late", subject, ttlSeconds);
  }

  /** The bound on the age is reached: one second more, and the missing commit would be as old as the time to live and
      the pause together. */
  lemma AgeBoundIsReached<D>(resolve: Resolver<D>, before: D, after: D, subject: Subject, pause: nat, ttlSeconds: nat)
    returns (states: seq<State<D>>, events: seq<Event<D>>)
    requires resolve(before, subject).Ok? && ValidCachedValue(resolve(before, subject).value, subject) && ttlSeconds > 0
    ensures IsRun(resolve, states, events, ttlSeconds) && |events| == 11 && events[8] == Event.Begin("late", subject)
    ensures states[8].history == [before, after]
    ensures var s := states[11];
      && "late" in s.readers && s.readers["late"].Done?
      && s.readers["late"].hit.Some? && s.readers["late"].readFrom == 0
      && var t := s.readers["late"].hit.value;
      && t.storedAt - t.readAt == pause && t.servedAt == t.storedAt + ttlSeconds - 1
      && |s.commits| == 2 && t.servedAt - s.commits[1] == ttlSeconds + (t.storedAt - t.readAt) - 1
  {
    hide IsRun, ValidCachedValue;
    states, events := SlowReaderServesOldState(resolve, before, after, subject, pause, ttlSeconds - 1, ttlSeconds);
  }

  /** An event id is used, an answer is stored, a change is committed and announced under the same id. */
  function UsedEvent<D>(subject: Subject, eventId: string, database: D): seq<Event<D>> {
    [Invalidate(ScopeOf(subject), eventId),
     Event.Begin("first", subject), ReadGeneration("first"), ReadEntry("first"),
     ReadDatabase("first"), StoreEntry("first"),
     Commit(database), Invalidate(ScopeOf(subject), eventId),
     Event.Begin("late", subject), ReadGeneration("late"), ReadEntry("late")]
  }

  /** Then the next `get` answers from the state before the change. */
  lemma UsedEventKeepsOldAnswer<D>(resolve: Resolver<D>, before: D, after: D, subject: Subject, eventId: string,
      ttlSeconds: nat)
    returns (states: seq<State<D>>, events: seq<Event<D>>)
    requires resolve(before, subject).Ok? && ValidCachedValue(resolve(before, subject).value, subject) && ttlSeconds > 0
    ensures events == UsedEvent(subject, eventId, after) && IsRun(resolve, states, events, ttlSeconds)
    ensures |states| == 12 && states[8].history == [before, after]
    ensures "late" in states[11].readers && states[11].readers["late"].Done?
    ensures states[11].readers["late"].answer == resolve(before, subject) && states[11].readers["late"].readFrom == 0
  {
    hide EntryKey, GenerationKey, EventKey, ValidCachedValue, IsRun, Generation, Hit, Invalidated, Live, CallOf;
    var value, scope := resolve(before, subject).value, ScopeOf(subject);
    var start := Start(before, 0);
    StartsRun(resolve, before, ttlSeconds);
    states, events := OneMore(resolve, [start], [], Invalidate(scope, eventId), ttlSeconds);
    FirstInvalidation(scope, eventId, 0, subject);
    var marked := Invalidated(map[], scope, eventId, 0);
    assert states[1].cells == marked && states[1].readers == map[];
    states, events := ReaderLoads(resolve, states, events, "first", subject, ttlSeconds);
    states, events := OneMore(resolve, states, events, StoreEntry("first"), ttlSeconds);
    states, events := OneMore(resolve, states, events, Commit(after), ttlSeconds);
    StoredIsHit(marked, subject, value, 0, 0, 0, 0, ttlSeconds);
    assert CurrentHit(states[7], subject) == Some(value);
    MarkerStays(marked, scope, eventId, subject, value, ttlSeconds);
    states, events := OneMore(resolve, states, events, Invalidate(scope, eventId), ttlSeconds);
    states, events := ReaderHits(resolve, states, events, "late", subject, ttlSeconds);
  }

  /** After a first invalidation its event is live and its generation has no entry. */
  lemma FirstInvalidation(scope: Scope, eventId: string, now: int, subject: Subject)
    requires scope == ScopeOf(subject)
    ensures !Live(map[], EventKey(scope, eventId), now)
    ensures var cells := Invalidated(map[], scope, eventId, now);
      Live(cells, EventKey(scope, eventId), now) && EntryKey(subject, Generation(cells, scope)) !in cells
  {
    hide EntryKey, GenerationKey, EventKey;
    var cells := Invalidated(map[], scope, eventId, now);
    KindsOfKeysDiffer(scope, scope, subject, Generation(cells, scope), eventId);
  }

  lemma MarkerStays(cells: Cells, scope: Scope, eventId: string, subject: Subject, value: Effective, ttlSeconds: nat)
    requires scope == ScopeOf(subject) && Live(cells, EventKey(scope, eventId), 0)
    ensures Live(Filled(cells, subject, Generation(cells, scope), value, 0, 0, 0, ttlSeconds),
      EventKey(scope, eventId), 0)
  {
    hide EntryKey, GenerationKey, EventKey, Generation;
    KindsOfKeysDiffer(scope, scope, subject, Generation(cells, scope), eventId);
  }

  /** What a `get` that starts now knows after its first three steps, up to the cache lookup. */
  ghost function LookUp<D>(resolve: Resolver<D>, s: State<D>, r: Reader, subject: Subject, ttlSeconds: nat): Phase
    requires |s.history| > 0 && r !in s.readers
  {
    var begun := Step(resolve, s, Event.Begin(r, subject), ttlSeconds);
    var generation := Step(resolve, begun, ReadGeneration(r), ttlSeconds);
    Step(resolve, generation, ReadEntry(r), ttlSeconds).readers[r]
  }

  /** A change is committed, and then announced. */
  ghost function Announced<D>(resolve: Resolver<D>, s: State<D>, database: D, scope: Scope, eventId: string,
      ttlSeconds: nat): (t: State<D>)
    requires |s.history| > 0
    ensures |t.history| > 0 && t.readers == s.readers
  {
    var committed := Step(resolve, s, Commit(database), ttlSeconds);
    Step(resolve, committed, Invalidate(scope, eventId), ttlSeconds)
  }

  /** A change that is committed and then announced under an event id takes effect at once exactly when that id has
      not been used for the scope in the last day: otherwise the next `get` still returns the entry from before. */
  lemma InvalidationWorksExactly<D>(resolve: Resolver<D>, s: State<D>, database: D, eventId: string, r: Reader,
      subject: Subject, ttlSeconds: nat)
    requires Inv(resolve, s, ttlSeconds) && |s.history| > 0 && r !in s.readers
    requires CurrentHit(s, subject).Some?
    ensures var announced := Announced(resolve, s, database, ScopeOf(subject), eventId, ttlSeconds);
      var p := LookUp(resolve, announced, r, subject, ttlSeconds);
      if Live(s.cells, EventKey(ScopeOf(subject), eventId), s.now) then
        p.Done? && p.answer == Ok(CurrentHit(s, subject).value) && p.readFrom < |s.history|
      else p.Missed? || p.Direct?
  {
    hide EntryKey, GenerationKey, EventKey, ValidCachedValue, LookUp, Invalidated, Inv, Hit, Generation, Live;
    var scope := ScopeOf(subject);
    LookUpResult(resolve, Announced(resolve, s, database, scope, eventId, ttlSeconds), r, subject, ttlSeconds);
    if Live(s.cells, EventKey(scope, eventId), s.now) {
      HitIsOld(resolve, s, subject, Generation(s.cells, scope), ttlSeconds);
    } else {
      NextGenerationIsEmpty(resolve, s, subject, eventId, ttlSeconds);
    }
  }

  lemma LookUpResult<D>(resolve: Resolver<D>, s: State<D>, r: Reader, subject: Subject, ttlSeconds: nat)
    requires |s.history| > 0 && r !in s.readers
    ensures var p := LookUp(resolve, s, r, subject, ttlSeconds);
      match CurrentHit(s, subject)
      case Some(value) => p.Done? && p.answer == Ok(value)
        && p.readFrom == s.cells[EntryKey(subject, Generation(s.cells, ScopeOf(subject)))].readFrom
      case None => p.Missed? || p.Direct?
  {
    hide EntryKey, GenerationKey, ValidCachedValue, Floor;
  }

  lemma HitIsOld<D>(resolve: Resolver<D>, s: State<D>, subject: Subject, generation: nat, ttlSeconds: nat)
    requires Inv(resolve, s, ttlSeconds) && Hit(s.cells, subject, generation, s.now).Some?
    ensures s.cells[EntryKey(subject, generation)].readFrom < |s.history|
  {
    hide EntryKey, GoodScope, GoodReader, ValidCachedValue, Floor;
    assert GoodEntry(resolve, s, subject, generation, ttlSeconds);
  }

  lemma NextGenerationIsEmpty<D>(resolve: Resolver<D>, s: State<D>, subject: Subject, eventId: string, ttlSeconds: nat)
    requires Inv(resolve, s, ttlSeconds) && !Live(s.cells, EventKey(ScopeOf(subject), eventId), s.now)
    ensures var cells := Invalidated(s.cells, ScopeOf(subject), eventId, s.now);
      Hit(cells, subject, Generation(cells, ScopeOf(subject)), s.now).None?
  {
    hide EntryKey, GenerationKey, EventKey, GoodReader, ValidCachedValue, Floor;
    var scope := ScopeOf(subject);
    assert GoodScope(s, scope) && GoodEntry(resolve, s, subject, Generation(s.cells, scope) + 1, ttlSeconds);
    InvalidateCells(s.cells, scope, eventId, s.now);
    hide Invalidated, Inv;
  }

  // ----- the database's own answers -----

  /** Which rows, and in which order, the query of a snapshot returns. */
  type Query = (Database, Subject) -> seq<EffectivePolicies.Row>

  function DirectAnswer(hashing: PolicyVersions.Hashing, query: Query): Resolver<Database> {
    (db: Database, subject: Subject) => Resolve(hashing, db, subject, query(db, subject))
  }

  predicate IsSha256(digest: string) {
    |digest| == 64 && forall i | 0 <= i < 64 :: HexDigitChar(digest[i])
  }

  /** What the service stores is never refused when it is read back. */
  lemma StoredAnswersAreValid(hashing: PolicyVersions.Hashing, query: Query, db: Database, subject: Subject)
    requires forall text :: IsSha256(hashing.sha256(text))
    requires DirectAnswer(hashing, query)(db, subject).Ok?
    ensures ValidCachedValue(DirectAnswer(hashing, query)(db, subject).value, subject)
  {
    hide EffectivePolicies.Merge, IsDigestTag, IsSha256, Resolve;
    var rows := query(db, subject);
    assert DirectAnswer(hashing, query)(db, subject) == Resolve(hashing, db, subject, rows);
    var text := ResolvedShape(hashing, db, subject, rows);
    QuotedDigest(hashing.sha256(text));
  }

  lemma ResolvedShape(hashing: PolicyVersions.Hashing, db: Database, subject: Subject, rows: seq<EffectivePolicies.Row>)
    returns (text: string)
    requires Resolve(hashing, db, subject, rows).Ok?
    ensures var value := Resolve(hashing, db, subject, rows).value;
      && value.organizationId == subject.organizationId
      && value.service == subject.service
      && value.subjectUserId == subject.userId
      && value.etag == "\"" + hashing.sha256(text) + "\""
  {
    hide EffectivePolicies.Merge, Json.Stringify, FingerprintJson;
    var member := db.members[MemberKey(subject.organizationId, subject.userId)];
    var policies := Resolve(hashing, db, subject, rows).value.policies;
    text := Json.Stringify(FingerprintJson(PrintOf(db, subject, member, policies)));
  }

  lemma QuotedDigest(digest: string)
    requires IsSha256(digest)
    ensures IsDigestTag("\"" + digest + "\"")
  {
    var etag := "\"" + digest + "\"";
    forall i | 0 < i < 65
      ensures HexDigitChar(etag[i])
    {
      assert etag[i] == digest[i - 1];
    }
  }
}
