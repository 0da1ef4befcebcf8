/** The schema cache shared by the window and its workers (wing_parser/ui/live_schema_cache.py), and every
    interleaving of the steps that use it (wing_parser/ui/live_controller.py). */
module SchemaCache {
  import opened Results

  // ----- one remembered walk, or none

  datatype Cell<S> = Cell(schema: Option<S>, generation: int)

  function Cleared<S>(cell: Cell<S>): Cell<S> {
    Cell(None, cell.generation + 1)
  }

  /** Written only if the generation handed in is still current. */
  function Offered<S>(cell: Cell<S>, schema: S, generation: int): Cell<S> {
    if generation == cell.generation then cell.(schema := Some(schema)) else cell
  }

  /** Each method is one atomic unit. */
  class Cache<S> {
    var schema: Option<S>
    var generation: int

    ghost function Contents(): Cell<S>
      reads this
    {
      Cell(schema, generation)
    }

    constructor ()
      ensures Contents() == Cell(None, 0)
    {
      schema, generation := None, 0;
    }

    method Generation() returns (g: int)
      ensures g == Contents().generation
    {
      g := generation;
    }

    method Get() returns (s: Option<S>)
      ensures s == Contents().schema
    {
      s := schema;
    }

    method Set(s: S, g: int)
      modifies this
      ensures Contents() == Offered(old(Contents()), s, g)
      ensures generation == old(generation) && schema == if g == old(generation) then Some(s) else old(schema)
    {
      if g == generation {
        schema := Some(s);
      }
    }

    method Clear()
      modifies this
      ensures Contents() == Cleared(old(Contents()))
      ensures schema == None && generation == old(generation) + 1
    {
      schema := None;
      generation := generation + 1;
    }
  }

  /** `_schema_for` with the window clearing the cache `clears` times while the walk runs: what was cached is
      used, and what was walked is remembered only when complete and not overtaken by a clear. */
  method SchemaFor<S>(cache: Cache<S>, walked: S, complete: S -> bool, clears: nat) returns (schema: S)
    modifies cache
    ensures old(cache.schema).Some? ==> schema == old(cache.schema).value && cache.Contents() == old(cache.Contents())
    ensures old(cache.schema).None? ==>
      && schema == walked
      && cache.generation == old(cache.generation) + clears
      && cache.schema == if complete(walked) && clears == 0 then Some(walked) else None
  {
    var cached := cache.Get();
    if cached.Some? {
      return cached.value;
    }
    var generation := cache.Generation();
    for i := 0 to clears
      invariant cache.generation == old(cache.generation) + i && cache.schema == None
    {
      cache.Clear();
    }
    schema := walked;
    if complete(schema) {
      cache.Set(schema, generation);
    }
  }

  // ----- any number of workers beside the window

  /** A walk's result, with what a run remembers of it: the host it was asked of, when it was asked for and when
      it began. */
  datatype Entry<H, S> = Entry(schema: S, host: H, clicked: nat, began: nat)

  /** How far a worker has come in `_schema_for`. */
  datatype Phase<H, S> =
    | Idle
    | Clicked(host: H, clicked: nat)
    | Missed(host: H, clicked: nat)
    | Stamped(host: H, clicked: nat, generation: int)
    | Walking(host: H, clicked: nat, generation: int, began: nat)
    | Walked(entry: Entry<H, S>, generation: int)

  /** The window clears the cache whenever it connects or disconnects. `desks` remembers which desk was connected at
      each click. */
  datatype State<H, S> = State(cell: Cell<Entry<H, S>>, workers: map<int, Phase<H, S>>, connected: Option<H>,
                               cleared: nat, now: nat, desks: map<nat, H>)

  datatype Step<H, S> =
    | Connect(host: H)
    | Disconnect
    | Look
    | Click(worker: int)
    | TryCache(worker: int)
    | TakeGeneration(worker: int)
    | BeginWalk(worker: int)
    | EndWalk(worker: int, schema: S)
    | FailWalk(worker: int)
    | Finish(worker: int)

  function PhaseOf<H, S>(s: State<H, S>, worker: int): Phase<H, S> {
    if worker in s.workers then s.workers[worker] else Idle
  }

  function Moved<H, S>(s: State<H, S>, worker: int, phase: Phase<H, S>): State<H, S> {
    s.(workers := s.workers[worker := phase], now := s.now + 1)
  }

  /** One atomic step; a step a worker is not ready for changes nothing. The host is taken when the operator
      clicks, the generation only later, on the worker. */
  function Next<H, S>(s: State<H, S>, step: Step<H, S>, complete: S -> bool): State<H, S> {
    match step
    case Connect(host) => s.(cell := Cleared(s.cell), connected := Some(host), cleared := s.now, now := s.now + 1)
    case Disconnect => s.(cell := Cleared(s.cell), connected := None, cleared := s.now, now := s.now + 1)
    case Look => s.(now := s.now + 1)
    case Click(w) =>
      if PhaseOf(s, w).Idle? && s.connected.Some? then
        Moved(s.(desks := s.desks[s.now := s.connected.value]), w, Clicked(s.connected.value, s.now))
      else s
    case TryCache(w) =>
      var p := PhaseOf(s, w);
      if !p.Clicked? then s
      else if s.cell.schema.Some? then Moved(s, w, Idle)
      else Moved(s, w, Missed(p.host, p.clicked))
    case TakeGeneration(w) =>
      var p := PhaseOf(s, w);
      if p.Missed? then Moved(s, w, Stamped(p.host, p.clicked, s.cell.generation)) else s
    case BeginWalk(w) =>
      var p := PhaseOf(s, w);
      if p.Stamped? then Moved(s, w, Walking(p.host, p.clicked, p.generation, s.now)) else s
    case EndWalk(w, schema) =>
      var p := PhaseOf(s, w);
      if p.Walking? then Moved(s, w, Walked(Entry(schema, p.host, p.clicked, p.began), p.generation)) else s
    case FailWalk(w) =>
      if PhaseOf(s, w).Walking? then Moved(s, w, Idle) else s
    case Finish(w) =>
      var p := PhaseOf(s, w);
      if !p.Walked? then s
      else if complete(p.entry.schema) then Moved(s.(cell := Offered(s.cell, p.entry, p.generation)), w, Idle)
      else Moved(s, w, Idle)
  }

  function Start<H, S>(): State<H, S> {
    State(Cell(None, 0), map[], None, 0, 1, map[])
  }

  function After<H, S>(steps: seq<Step<H, S>>, complete: S -> bool): State<H, S> {
    if steps == [] then Start() else Next(After(steps[..|steps| - 1], complete), steps[|steps| - 1], complete)
  }

  // ----- what every run keeps

  /** The cached walk is complete and began after the most recent clear. */
  ghost predicate Fresh<H, S>(s: State<H, S>, complete: S -> bool) {
    s.cell.schema.Some? ==> complete(s.cell.schema.value.schema) && s.cell.schema.value.began > s.cleared
  }

  /** A worker whose generation is still current has not been overtaken by a clear since it took it. */
  ghost predicate InTime<H, S>(s: State<H, S>, phase: Phase<H, S>) {
    match phase
    case Stamped(_, _, g) => g <= s.cell.generation
    case Walking(_, _, g, began) => g <= s.cell.generation && (g == s.cell.generation ==> began > s.cleared)
    case Walked(entry, g) => g <= s.cell.generation && (g == s.cell.generation ==> entry.began > s.cleared)
    case _ => true
  }

  ghost predicate Kept<H, S>(s: State<H, S>, complete: S -> bool) {
    Fresh(s, complete) && s.cleared < s.now && forall w :: w in s.workers ==> InTime(s, s.workers[w])
  }

  lemma StepKeeps<H, S>(s: State<H, S>, step: Step<H, S>, complete: S -> bool)
    requires Kept(s, complete)
    ensures Kept(Next(s, step, complete), complete)
  {
    var s' := Next(s, step, complete);
    forall w | w in s'.workers
      ensures InTime(s', s'.workers[w])
    {
      if w in s.workers {
        assert InTime(s, s.workers[w]);
      }
    }
  }

  /** In every interleaving, whatever is cached is a complete walk that began after the last clear. */
  lemma {:induction false} EveryRunKeeps<H, S>(steps: seq<Step<H, S>>, complete: S -> bool)
    ensures Kept(After(steps, complete), complete)
  {
    if steps != [] {
      EveryRunKeeps(steps[..|steps| - 1], complete);
      StepKeeps(After(steps[..|steps| - 1], complete), steps[|steps| - 1], complete);
    }
  }

  // ----- the host of the cached walk

  /** A job is for the desk of its click, which is the one connected now when no clear came since. */
  ghost predicate JobOfDesk<H, S>(s: State<H, S>, host: H, clicked: nat) {
    && clicked < s.now && clicked in s.desks && s.desks[clicked] == host
    && (clicked > s.cleared ==> s.connected == Some(host))
  }

  ghost predicate PhaseOfDesk<H, S>(s: State<H, S>, phase: Phase<H, S>) {
    match phase
    case Idle => true
    case Walked(entry, _) => JobOfDesk(s, entry.host, entry.clicked)
    case _ => JobOfDesk(s, phase.host, phase.clicked)
  }

  ghost predicate OfDesk<H, S>(s: State<H, S>) {
    && s.cleared < s.now && (forall t :: t in s.desks ==> t < s.now)
    && (s.cell.schema.Some? ==> JobOfDesk(s, s.cell.schema.value.host, s.cell.schema.value.clicked))
    && forall w :: w in s.workers ==> PhaseOfDesk(s, s.workers[w])
  }

  /** Time goes on, clicks are not forgotten, and the connected desk changes only with a clear. */
  ghost predicate Onward<H, S>(s: State<H, S>, s': State<H, S>) {
    && s.now <= s'.now
    && (forall t :: t in s.desks && t < s.now ==> t in s'.desks && s'.desks[t] == s.desks[t])
    && ((s'.connected == s.connected && s'.cleared == s.cleared) || s'.cleared == s.now)
  }

  lemma StepIsOnward<H, S>(s: State<H, S>, step: Step<H, S>, complete: S -> bool)
    ensures Onward(s, Next(s, step, complete))
  {
  }

  lemma JobStays<H, S>(s: State<H, S>, s': State<H, S>, host: H, clicked: nat)
    requires Onward(s, s') && JobOfDesk(s, host, clicked)
    ensures JobOfDesk(s', host, clicked)
  {
  }

  lemma PhaseStays<H, S>(s: State<H, S>, s': State<H, S>, phase: Phase<H, S>)
    requires Onward(s, s') && PhaseOfDesk(s, phase)
    ensures PhaseOfDesk(s', phase)
  {
    match phase
    case Idle =>
    case Walked(entry, _) => JobStays(s, s', entry.host, entry.clicked);
    case _ => JobStays(s, s', phase.host, phase.clicked);
  }

  /** The phase that a step leaves a worker in is of a job it had already, or of a click made in this step. */
  lemma PhaseOfStep<H, S>(s: State<H, S>, step: Step<H, S>, complete: S -> bool, w: int)
    requires OfDesk(s)
    ensures PhaseOfDesk(Next(s, step, complete), PhaseOf(Next(s, step, complete), w))
  {
    var s' := Next(s, step, complete);
    StepIsOnward(s, step, complete);
    assert PhaseOfDesk(s, PhaseOf(s, w));
    PhaseStays(s, s', PhaseOf(s, w));
  }

  lemma StepOfDesk<H, S>(s: State<H, S>, step: Step<H, S>, complete: S -> bool)
    requires OfDesk(s)
    ensures OfDesk(Next(s, step, complete))
  {
    var s' := Next(s, step, complete);
    StepIsOnward(s, step, complete);
    forall w | w in s'.workers
      ensures PhaseOfDesk(s', s'.workers[w])
    {
      PhaseOfStep(s, step, complete, w);
    }
    CellOfStep(s, step, complete);
  }

  lemma CellOfStep<H, S>(s: State<H, S>, step: Step<H, S>, complete: S -> bool)
    requires OfDesk(s)
    ensures var s' := Next(s, step, complete);
      s'.cell.schema.Some? ==> JobOfDesk(s', s'.cell.schema.value.host, s'.cell.schema.value.clicked)
  {
    var s' := Next(s, step, complete);
    StepIsOnward(s, step, complete);
    if s'.cell.schema.Some? {
      assert s'.cell == s.cell || (step.Finish? && PhaseOfDesk(s, PhaseOf(s, step.worker)));
      JobStays(s, s', s'.cell.schema.value.host, s'.cell.schema.value.clicked);
    }
  }

  lemma {:induction false} EveryRunOfDesk<H, S>(steps: seq<Step<H, S>>, complete: S -> bool)
    ensures OfDesk(After(steps, complete))
  {
    if steps != [] {
      EveryRunOfDesk(steps[..|steps| - 1], complete);
      StepOfDesk(After(steps[..|steps| - 1], complete), steps[|steps| - 1], complete);
    }
  }

  /** The cached walk is of the connected desk exactly when the desk of its click is still, or again, the one
      connected; that is so whenever the click came after the last clear. */
  lemma CachedOfDeskIff<H, S>(steps: seq<Step<H, S>>, complete: S -> bool)
    ensures var s := After(steps, complete);
      s.cell.schema.Some? ==>
        var entry := s.cell.schema.value;
        && entry.clicked in s.desks
        && (s.connected == Some(entry.host) <==> s.connected == Some(s.desks[entry.clicked]))
        && (entry.clicked > s.cleared ==> s.connected == Some(entry.host))
  {
    EveryRunOfDesk(steps, complete);
  }

  lemma AfterFrom<H, S>(first: seq<Step<H, S>>, step: Step<H, S>, complete: S -> bool)
    ensures After(first + [step], complete) == Next(After(first, complete), step, complete)
  {
    assert (first + [step])[..|first|] == first;
  }

  /** It need not be so for an earlier click: the operator clicks on one desk and moves to another before the worker
      takes the generation. */
  lemma CachedOfAnotherDesk<H, S>(here: H, there: H, walk: S, complete: S -> bool) returns (steps: seq<Step<H, S>>)
    requires here != there && complete(walk)
    ensures var s := After(steps, complete);
      && s.connected == Some(there) && s.cell.schema.Some? && s.cell.schema.value.host == here
      && s.cell.schema.value.began > s.cleared && s.cell.schema.value.clicked <= s.cleared
  {
    var s0: seq<Step<H, S>> := [];
    AfterFrom(s0, Connect(here), complete);
    var s1 := s0 + [Connect(here)];
    AfterFrom(s1, Click(0), complete);
    var s2 := s1 + [Click(0)];
    AfterFrom(s2, TryCache(0), complete);
    var s3 := s2 + [TryCache(0)];
    AfterFrom(s3, Connect(there), complete);
    var s4 := s3 + [Connect(there)];
    AfterFrom(s4, TakeGeneration(0), complete);
    var s5 := s4 + [TakeGeneration(0)];
    AfterFrom(s5, BeginWalk(0), complete);
    var s6 := s5 + [BeginWalk(0)];
    AfterFrom(s6, EndWalk(0, walk), complete);
    var s7 := s6 + [EndWalk(0, walk)];
    AfterFrom(s7, Finish(0), complete);
    steps := s7 + [Finish(0)];
  }

  // ----- why the compare and the write must be one step

  /** The last step without the lock: the worker compares, and another step may come before it writes. */
  function WrittenLate<H, S>(s: State<H, S>, worker: int): State<H, S> {
    var p := PhaseOf(s, worker);
    if p.Walked? then Moved(s.(cell := s.cell.(schema := Some(p.entry))), worker, Idle) else s
  }

  predicate WouldWrite<H, S>(s: State<H, S>, worker: int, complete: S -> bool) {
    var p := PhaseOf(s, worker);
    p.Walked? && complete(p.entry.schema) && p.generation == s.cell.generation
  }

  /** A clear between the comparison and the write leaves a walk cached that began before the clear. */
  lemma SplitSetBreaks<H, S>(host: H, walk: S, complete: S -> bool) returns (before: seq<Step<H, S>>)
    requires complete(walk)
    ensures var compared := After(before, complete);
      && WouldWrite(compared, 0, complete)
      && !Fresh(WrittenLate(Next(compared, Disconnect, complete), 0), complete)
  {
    var s0: seq<Step<H, S>> := [];
    AfterFrom(s0, Connect(host), complete);
    var s1 := s0 + [Connect(host)];
    AfterFrom(s1, Click(0), complete);
    var s2 := s1 + [Click(0)];
    AfterFrom(s2, TryCache(0), complete);
    var s3 := s2 + [TryCache(0)];
    AfterFrom(s3, TakeGeneration(0), complete);
    var s4 := s3 + [TakeGeneration(0)];
    AfterFrom(s4, BeginWalk(0), complete);
    var s5 := s4 + [BeginWalk(0)];
    AfterFrom(s5, EndWalk(0, walk), complete);
    before := s5 + [EndWalk(0, walk)];
  }

  /** Without a clear in between, comparing and writing apart is the same as the one step. */
  lemma SplitSetAgrees<H, S>(s: State<H, S>, worker: int, complete: S -> bool)
    requires WouldWrite(s, worker, complete)
    ensures WrittenLate(s, worker) == Next(s, Finish(worker), complete)
  {
  }
}
