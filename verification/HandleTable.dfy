/**
  The handle table of the C library (go/clib/core.go) under any interleaving of threads. Each thread loads,
  parses and frees; each step is one action on the shared state, so a load's increment is a read and a write.
 */
module HandleTable {
  import opened Wrappers

  type Thread = nat
  type Handle = int
  type Instance = nat

  /** Where a thread stands in loadGrammar, parseWith or freeGrammar. */
  datatype Pc =
    | Idle
    | LoadWaits
    | LoadHolds
    | LoadRead(id: Handle)
    | LoadBumped
    | LoadTook(id: Handle)
    | LoadStored(id: Handle)
    | ParseWaits(h: Handle)
    | ParseHolds(h: Handle)
    | ParseLooked(h: Handle, found: Option<Instance>)
    | MuWaits(g: Instance)
    | Parsing(g: Instance)
    | FreeWaits(h: Handle)
    | FreeHolds(h: Handle)
    | FreeDeleted

  datatype Call = LoadGrammar | ParseWith(h: Handle) | FreeGrammar(h: Handle)

  /** What a call answers: the handle it issued, the handle failure, what the instance parsed, or nothing. */
  datatype Answer = Issued(h: Handle) | HandleFailure | Parsed(g: Instance) | Done

  /**
    What happened, in order: a call, a handle stored, one deleted, a lookup and what it found, a parse begun
    inside an instance, and an answer.
   */
  datatype Event =
    | Called(t: Thread, call: Call)
    | Loaded(t: Thread, h: Handle, g: Instance)
    | Freed(t: Thread, h: Handle)
    | Lookup(t: Thread, h: Handle, found: Option<Instance>)
    | Entered(t: Thread, g: Instance)
    | Answered(t: Thread, answer: Answer)

  /** `writer` and `readers` hold `reg`; `held` gives the holder of each locked instance; `made` counts instances. */
  datatype State = State(
    nextID: Handle,
    table: map<Handle, Instance>,
    made: nat,
    writer: Option<Thread>,
    readers: set<Thread>,
    held: map<Instance, Thread>,
    pcs: map<Thread, Pc>,
    log: seq<Event>)

  const START := State(0, map[], 0, None, {}, map[], map[], [])

  function At(s: State, t: Thread): Pc {
    if t in s.pcs then s.pcs[t] else Idle
  }

  function Move(s: State, t: Thread, pc: Pc): State {
    s.(pcs := s.pcs[t := pc])
  }

  function Note(s: State, e: Event): State {
    s.(log := s.log + [e])
  }

  function Begin(s: State, t: Thread, call: Call): State {
    var pc := match call
              case LoadGrammar => LoadWaits
              case ParseWith(h) => ParseWaits(h)
              case FreeGrammar(h) => FreeWaits(h);
    Move(Note(s, Called(t, call)), t, pc)
  }

  /** Whether a busy thread can act: a lock must be free, and everything else can go on. */
  predicate Enabled(s: State, t: Thread) {
    match At(s, t)
    case Idle => false
    case LoadWaits => s.writer == None && s.readers == {}
    case FreeWaits(_) => s.writer == None && s.readers == {}
    case ParseWaits(_) => s.writer == None
    case MuWaits(g) => g !in s.held
    case _ => true
  }

  function Find(table: map<Handle, Instance>, h: Handle): Option<Instance> {
    if h in table then Some(table[h]) else None
  }

  function Finish(s: State, t: Thread, answer: Answer): State {
    Move(Note(s, Answered(t, answer)), t, Idle)
  }

  /** The next action of a busy thread. */
  function Act(s: State, t: Thread): State {
    match At(s, t)
    case Idle => s
    case LoadWaits => Move(s.(writer := Some(t)), t, LoadHolds)
    case LoadHolds => Move(s, t, LoadRead(s.nextID))
    case LoadRead(id) => Move(s.(nextID := id + 1), t, LoadBumped)
    case LoadBumped => Move(s, t, LoadTook(s.nextID))
    case LoadTook(id) =>
      var stored := s.(table := s.table[id := s.made], made := s.made + 1);
      Move(Note(stored, Loaded(t, id, s.made)), t, LoadStored(id))
    case LoadStored(id) => Finish(s.(writer := None), t, Issued(id))
    case ParseWaits(h) => Move(s.(readers := s.readers + {t}), t, ParseHolds(h))
    case ParseHolds(h) =>
      var found := Find(s.table, h);
      Move(Note(s, Lookup(t, h, found)), t, ParseLooked(h, found))
    case ParseLooked(_, found) =>
      var released := s.(readers := s.readers - {t});
      if found.Some? then Move(released, t, MuWaits(found.value)) else Finish(released, t, HandleFailure)
    case MuWaits(g) => Move(Note(s.(held := s.held[g := t]), Entered(t, g)), t, Parsing(g))
    case Parsing(g) => Finish(s.(held := s.held - {g}), t, Parsed(g))
    case FreeWaits(h) => Move(s.(writer := Some(t)), t, FreeHolds(h))
    case FreeHolds(h) => Move(Note(s.(table := s.table - {h}), Freed(t, h)), t, FreeDeleted)
    case FreeDeleted => Finish(s.(writer := None), t, Done)
  }

  /** One step of any thread: an idle one makes a call, or a busy one acts. */
  ghost predicate Step(s: State, s': State) {
    exists t: Thread ::
      || (At(s, t).Idle? && exists call: Call :: s' == Begin(s, t, call))
      || (Enabled(s, t) && s' == Act(s, t))
  }

  ghost predicate IsRun(run: seq<State>) {
    run != [] && run[0] == START && forall i | 0 <= i < |run| - 1 :: Step(run[i], run[i + 1])
  }

  ghost predicate Reachable(s: State) {
    exists run: seq<State> :: IsRun(run) && run[|run| - 1] == s
  }

  // ---- What the log says ----

  function Loads(log: seq<Event>): nat {
    if log == [] then 0 else Loads(log[..|log| - 1]) + (if log[|log| - 1].Loaded? then 1 else 0)
  }

  /** The handle that is bound after the events: stored, and not deleted since. */
  function Bound(log: seq<Event>, h: Handle): Option<Instance> {
    if log == [] then None
    else
      var last := log[|log| - 1];
      if last.Loaded? && last.h == h then Some(last.g)
      else if last.Freed? && last.h == h then None
      else Bound(log[..|log| - 1], h)
  }

  /** A thread's last event. */
  function Last(log: seq<Event>, t: Thread): (e: Option<Event>)
    ensures e.Some? ==> e.value.t == t
  {
    if log == [] then None
    else if log[|log| - 1].t == t then Some(log[|log| - 1]) else Last(log[..|log| - 1], t)
  }

  /** The n-th load gets handle n and a parser of its own, and every lookup finds what is bound then. */
  ghost predicate EventFits(log: seq<Event>, i: nat)
    requires i < |log|
  {
    match log[i]
    case Loaded(_, h, g) => g == Loads(log[..i]) && h == g + 1
    case Lookup(_, h, found) => found == Bound(log[..i], h)
    case _ => true
  }

  ghost predicate LogFits(log: seq<Event>) {
    forall i | 0 <= i < |log| :: EventFits(log, i)
  }

  /**
    What a thread may do after its last event: a call follows an answer, or nothing. A load stores, and
    answers the handle it stored. A parse looks its own handle up; if that finds nothing it answers the
    handle failure, and if it finds an instance the thread enters that one and answers what it parsed.
    A free deletes its own handle.
   */
  ghost predicate Follows(last: Option<Event>, e: Event) {
    match e
    case Called(_, _) => last == None || last.value.Answered?
    case Loaded(t, _, _) => last == Some(Called(t, LoadGrammar))
    case Freed(t, h) => last == Some(Called(t, FreeGrammar(h)))
    case Lookup(t, h, _) => last == Some(Called(t, ParseWith(h)))
    case Entered(_, g) => last.Some? && last.value.Lookup? && last.value.found == Some(g)
    case Answered(_, Issued(h)) => last.Some? && last.value.Loaded? && last.value.h == h
    case Answered(_, HandleFailure) => last.Some? && last.value.Lookup? && last.value.found == None
    case Answered(t, Parsed(g)) => last == Some(Entered(t, g))
    case Answered(_, Done) => last.Some? && last.value.Freed?
  }

  ghost predicate InTurn(log: seq<Event>) {
    forall i | 0 <= i < |log| :: Follows(Last(log[..i], log[i].t), log[i])
  }

  // ---- What every run keeps ----

  predicate Writes(pc: Pc) {
    match pc
    case LoadHolds | LoadRead(_) | LoadBumped | LoadTook(_) | LoadStored(_) | FreeHolds(_) | FreeDeleted => true
    case _ => false
  }

  predicate Reads(pc: Pc) {
    pc.ParseHolds? || pc.ParseLooked?
  }

  /** The locks are held by exactly the threads inside them, and no writer has company. */
  ghost predicate LocksHeld(s: State) {
    && (s.writer.Some? ==> s.readers == {})
    && WriterHeld(s) && ReadersHeld(s) && InstancesHeld(s)
  }

  ghost predicate WriterHeld(s: State) {
    forall t: Thread :: Writes(At(s, t)) <==> s.writer == Some(t)
  }

  ghost predicate ReadersHeld(s: State) {
    forall t: Thread :: Reads(At(s, t)) <==> t in s.readers
  }

  ghost predicate InstancesHeld(s: State) {
    && (forall t: Thread :: At(s, t).Parsing? ==> At(s, t).g in s.held && s.held[At(s, t).g] == t)
    && (forall g: Instance | g in s.held :: At(s, s.held[g]) == Parsing(g))
  }

  /** Where the writer stands. */
  function WriterPc(s: State): Pc {
    if s.writer.Some? then At(s, s.writer.value) else Idle
  }

  /** The counter, and what a load has read of it. */
  ghost predicate CounterFits(s: State) {
    var pc := WriterPc(s);
    && s.made == Loads(s.log)
    && s.nextID == s.made + (if pc.LoadBumped? || pc.LoadTook? then 1 else 0)
    && (pc.LoadRead? || pc.LoadTook? ==> pc.id == s.nextID)
  }

  ghost predicate TableFits(s: State) {
    && LogFits(s.log)
    && (forall h: Handle :: Find(s.table, h) == Bound(s.log, h))
  }

  /** Where a thread stands, by its last event. */
  ghost predicate Stands(t: Thread, pc: Pc, last: Option<Event>) {
    match pc
    case Idle => last == None || last.value.Answered?
    case LoadWaits | LoadHolds | LoadRead(_) | LoadBumped | LoadTook(_) => last == Some(Called(t, LoadGrammar))
    case LoadStored(id) => last.Some? && last.value.Loaded? && last.value.h == id
    case ParseWaits(h) => last == Some(Called(t, ParseWith(h)))
    case ParseHolds(h) => last == Some(Called(t, ParseWith(h)))
    case ParseLooked(h, found) => last == Some(Lookup(t, h, found))
    case MuWaits(g) => last.Some? && last.value.Lookup? && last.value.found == Some(g)
    case Parsing(g) => last == Some(Entered(t, g))
    case FreeWaits(h) => last == Some(Called(t, FreeGrammar(h)))
    case FreeHolds(h) => last == Some(Called(t, FreeGrammar(h)))
    case FreeDeleted => last.Some? && last.value.Freed?
  }

  ghost predicate ThreadsFit(s: State) {
    && InTurn(s.log)
    && (forall t: Thread :: Stands(t, At(s, t), Last(s.log, t)))
  }

  ghost predicate Inv(s: State) {
    LocksHeld(s) && CounterFits(s) && TableFits(s) && ThreadsFit(s)
  }

  lemma StartInv()
    ensures Inv(START)
  {
  }

  /** A step moves one thread. */
  lemma {:induction false} OneMoves(s: State, t: Thread)
    ensures forall u: Thread | u != t :: At(Act(s, t), u) == At(s, u)
  {
    hide Act, At;
    forall u: Thread | u != t ensures At(Act(s, t), u) == At(s, u) {
      OtherStays(s, t, u);
    }
  }

  lemma {:induction false} OtherStays(s: State, t: Thread, u: Thread)
    requires u != t
    ensures At(Act(s, t), u) == At(s, u)
  {
    hide Find;
  }

  lemma {:induction false} WriterField(s: State, t: Thread)
    requires Enabled(s, t)
    ensures var pc := At(s, t);
            Act(s, t).writer == (if pc.LoadWaits? || pc.FreeWaits? then Some(t)
                                 else if pc.LoadStored? || pc.FreeDeleted? then None else s.writer)
  {
    hide Find;
  }

  lemma {:induction false} WritesNext(s: State, t: Thread)
    requires Enabled(s, t)
    ensures var pc := At(s, t);
            Writes(At(Act(s, t), t))
            == (pc.LoadWaits? || pc.FreeWaits? || (Writes(pc) && !pc.LoadStored? && !pc.FreeDeleted?))
  {
    hide Find;
  }

  lemma {:induction false} WriterOf(s: State, t: Thread)
    requires Enabled(s, t)
    ensures var s', pc := Act(s, t), At(s, t);
            && s'.writer == (if pc.LoadWaits? || pc.FreeWaits? then Some(t)
                             else if pc.LoadStored? || pc.FreeDeleted? then None else s.writer)
            && Writes(At(s', t)) == (pc.LoadWaits? || pc.FreeWaits? || (Writes(pc) && !pc.LoadStored?
               && !pc.FreeDeleted?))
  {
    hide Act, At, Writes;
    WriterField(s, t);
    WritesNext(s, t);
  }

  lemma {:induction false} ReadersField(s: State, t: Thread)
    requires Enabled(s, t)
    ensures var pc := At(s, t);
            Act(s, t).readers == (if pc.ParseWaits? then s.readers + {t}
                                  else if pc.ParseLooked? then s.readers - {t} else s.readers)
  {
    hide Find;
  }

  lemma {:induction false} ReadsNext(s: State, t: Thread)
    requires Enabled(s, t)
    ensures Reads(At(Act(s, t), t)) == (At(s, t).ParseWaits? || At(s, t).ParseHolds?)
  {
    hide Find;
  }

  lemma {:induction false} ReadersOf(s: State, t: Thread)
    requires Enabled(s, t)
    ensures var s', pc := Act(s, t), At(s, t);
            && s'.readers == (if pc.ParseWaits? then s.readers + {t}
                              else if pc.ParseLooked? then s.readers - {t} else s.readers)
            && Reads(At(s', t)) == (pc.ParseWaits? || pc.ParseHolds?)
  {
    hide Act, At, Reads;
    ReadersField(s, t);
    ReadsNext(s, t);
  }

  lemma {:induction false} HeldOf(s: State, t: Thread)
    requires Enabled(s, t)
    ensures var s', pc := Act(s, t), At(s, t);
            && s'.held == (if pc.MuWaits? then s.held[pc.g := t] else if pc.Parsing? then s.held - {pc.g} else s.held)
            && (pc.MuWaits? ==> At(s', t) == Parsing(pc.g))
            && (At(s', t).Parsing? ==> pc.MuWaits?)
  {
    hide Find;
  }

  lemma {:induction false} ActWriter(s: State, t: Thread)
    requires WriterHeld(s) && Enabled(s, t)
    ensures WriterHeld(Act(s, t))
  {
    OneMoves(s, t);
    WriterOf(s, t);
    hide Act, At;
    assert Writes(At(s, t)) <==> s.writer == Some(t);
  }

  lemma {:induction false} ActReaders(s: State, t: Thread)
    requires ReadersHeld(s) && Enabled(s, t)
    ensures ReadersHeld(Act(s, t))
  {
    OneMoves(s, t);
    ReadersOf(s, t);
    hide Act, At;
    assert Reads(At(s, t)) <==> t in s.readers;
  }

  lemma {:induction false} ActInstances(s: State, t: Thread)
    requires InstancesHeld(s) && Enabled(s, t)
    ensures InstancesHeld(Act(s, t))
  {
    OneMoves(s, t);
    HeldOf(s, t);
    assert At(s, t).MuWaits? ==> At(s, t).g !in s.held;
    hide Act, At;
  }

  lemma {:induction false} NoCompany(s: State, t: Thread)
    requires LocksHeld(s) && Enabled(s, t)
    ensures Act(s, t).writer.Some? ==> Act(s, t).readers == {}
  {
    WriterOf(s, t);
    ReadersOf(s, t);
    assert Reads(At(s, t)) <==> t in s.readers;
    hide Act;
  }

  lemma {:induction false} ActLocks(s: State, t: Thread)
    requires LocksHeld(s) && Enabled(s, t)
    ensures LocksHeld(Act(s, t))
  {
    NoCompany(s, t);
    hide Act, At, WriterHeld, ReadersHeld, InstancesHeld;
    ActWriter(s, t);
    ActReaders(s, t);
    ActInstances(s, t);
  }

  // ---- The log grows by an event at most ----

  /** What an action of a thread adds to the log. */
  function Emitted(s: State, t: Thread): (e: Option<Event>)
    ensures e.Some? ==> e.value.t == t
  {
    match At(s, t)
    case LoadTook(id) => Some(Loaded(t, id, s.made))
    case LoadStored(id) => Some(Answered(t, Issued(id)))
    case ParseHolds(h) => Some(Lookup(t, h, Find(s.table, h)))
    case ParseLooked(_, found) => if found == None then Some(Answered(t, HandleFailure)) else None
    case MuWaits(g) => Some(Entered(t, g))
    case Parsing(g) => Some(Answered(t, Parsed(g)))
    case FreeHolds(h) => Some(Freed(t, h))
    case FreeDeleted => Some(Answered(t, Done))
    case _ => None
  }

  function With(log: seq<Event>, e: Option<Event>): seq<Event> {
    if e.Some? then log + [e.value] else log
  }

  lemma LogOf(s: State, t: Thread)
    ensures Act(s, t).log == With(s.log, Emitted(s, t))
  {
    hide Find;
  }

  lemma LoadsWith(log: seq<Event>, e: Option<Event>)
    ensures Loads(With(log, e)) == Loads(log) + (if e.Some? && e.value.Loaded? then 1 else 0)
  {
    if e.Some? {
      assert (log + [e.value])[..|log|] == log;
    }
  }

  lemma LoadsNext(s: State, t: Thread)
    ensures Loads(Act(s, t).log) == Loads(s.log) + (if At(s, t).LoadTook? then 1 else 0)
  {
    hide Act, Loads, With, Find;
    LogOf(s, t);
    LoadsWith(s.log, Emitted(s, t));
  }

  // ---- The counter ----

  lemma {:induction false} CounterField(s: State, t: Thread)
    ensures var s', pc := Act(s, t), At(s, t);
            && s'.nextID == (if pc.LoadRead? then pc.id + 1 else s.nextID)
            && s'.made == s.made + (if pc.LoadTook? then 1 else 0)
  {
    hide Find;
  }

  /** A thread that neither holds nor takes the write lock leaves the writer where it stands. */
  lemma {:induction false} WriterStays(s: State, t: Thread)
    requires Enabled(s, t) && !Writes(At(s, t)) && !At(s, t).LoadWaits? && !At(s, t).FreeWaits? && s.writer != Some(t)
    ensures WriterPc(Act(s, t)) == WriterPc(s)
  {
    hide Act, At, Writes;
    OneMoves(s, t);
    WriterField(s, t);
    NoWriter(s, t);
  }

  lemma NoWriter(s: State, t: Thread)
    requires !Writes(At(s, t))
    ensures !At(s, t).LoadStored? && !At(s, t).FreeDeleted?
  {
  }

  /** And one that holds it, or takes it, is the writer. */
  lemma {:induction false} WriterMoves(s: State, t: Thread)
    requires Enabled(s, t) && (Writes(At(s, t)) <==> s.writer == Some(t))
    requires Writes(At(s, t)) || At(s, t).LoadWaits? || At(s, t).FreeWaits?
    ensures var s', pc := Act(s, t), At(s, t);
            && WriterPc(s) == (if Writes(pc) then pc else Idle)
            && WriterPc(s') == (if Writes(At(s', t)) then At(s', t) else Idle)
  {
    hide Find, Act, At;
    WriterOf(s, t);
    OneMoves(s, t);
  }

  lemma {:induction false} LoadMoves(s: State, t: Thread)
    requires Enabled(s, t)
    ensures var now, pc := At(Act(s, t), t), At(s, t);
            && (now.LoadRead? <==> pc.LoadHolds?) && (now.LoadBumped? <==> pc.LoadRead?)
            && (now.LoadTook? <==> pc.LoadBumped?)
            && (now.LoadRead? || now.LoadTook? ==> now.id == s.nextID)
  {
    hide Find;
  }

  lemma ActCounter(s: State, t: Thread)
    requires Writes(At(s, t)) <==> s.writer == Some(t)
    requires CounterFits(s) && Enabled(s, t)
    ensures CounterFits(Act(s, t))
  {
    hide Loads, Enabled, WriterPc, Act, At;
    CounterField(s, t);
    LoadsNext(s, t);
    LoadMoves(s, t);
    if Writes(At(s, t)) || At(s, t).LoadWaits? || At(s, t).FreeWaits? {
      WriterMoves(s, t);
    } else {
      WriterStays(s, t);
    }
  }

  // ---- The table ----

  lemma FitsSnoc(log: seq<Event>, e: Event)
    requires LogFits(log) && EventFits(log + [e], |log|)
    ensures LogFits(log + [e])
  {
    var now := log + [e];
    hide Bound, Loads;
    forall i | 0 <= i < |now| ensures EventFits(now, i) {
      if i < |log| {
        assert EventFits(log, i);
        assert now[..i] == log[..i];
      }
    }
  }

  lemma BoundSnoc(log: seq<Event>, e: Event, h: Handle)
    ensures Bound(log + [e], h) == if e.Loaded? && e.h == h then Some(e.g)
                                   else if e.Freed? && e.h == h then None else Bound(log, h)
  {
    assert (log + [e])[..|log|] == log;
  }

  /** An event that fits the log, with the table it leaves. */
  lemma TableSnoc(s: State, s': State, e: Event)
    requires TableFits(s) && s'.log == s.log + [e] && EventFits(s'.log, |s.log|)
    requires s'.table == match e
                         case Loaded(_, h, g) => s.table[h := g]
                         case Freed(_, h) => s.table - {h}
                         case _ => s.table
    ensures TableFits(s')
  {
    FitsSnoc(s.log, e);
    hide LogFits, EventFits;
    forall h: Handle ensures Find(s'.table, h) == Bound(s'.log, h) {
      BoundSnoc(s.log, e, h);
    }
  }

  lemma TableField(s: State, t: Thread)
    ensures Act(s, t).table == match Emitted(s, t)
                               case Some(Loaded(_, h, g)) => s.table[h := g]
                               case Some(Freed(_, h)) => s.table - {h}
                               case _ => s.table
  {
    hide Find;
  }

  lemma EmittedFits(s: State, t: Thread)
    requires (Writes(At(s, t)) <==> s.writer == Some(t)) && CounterFits(s) && TableFits(s) && Emitted(s, t).Some?
    ensures EventFits(s.log + [Emitted(s, t).value], |s.log|)
  {
    hide LogFits, Bound, Loads, Find;
    assert (s.log + [Emitted(s, t).value])[..|s.log|] == s.log;
  }

  lemma ActTable(s: State, t: Thread)
    requires Writes(At(s, t)) <==> s.writer == Some(t)
    requires CounterFits(s) && TableFits(s)
    ensures TableFits(Act(s, t))
  {
    hide Act, At, LogFits, EventFits, Bound, Find, Emitted, CounterFits;
    LogOf(s, t);
    TableField(s, t);
    if Emitted(s, t).Some? {
      EmittedFits(s, t);
      TableSnoc(s, Act(s, t), Emitted(s, t).value);
    }
  }

  // ---- The threads ----

  lemma LastSnoc(log: seq<Event>, e: Event, t: Thread)
    ensures Last(log + [e], t) == if e.t == t then Some(e) else Last(log, t)
  {
    assert (log + [e])[..|log|] == log;
  }

  lemma InTurnSnoc(log: seq<Event>, e: Event)
    requires InTurn(log) && Follows(Last(log, e.t), e)
    ensures InTurn(log + [e])
  {
    var now := log + [e];
    hide Last, Follows;
    forall i | 0 <= i < |now| ensures Follows(Last(now[..i], now[i].t), now[i]) {
      assert now[..i] == log[..i];
      if i < |log| {
        assert Follows(Last(log[..i], log[i].t), log[i]);
      } else {
        assert log[..i] == log;
      }
    }
  }

  /** A thread that moves, with what it adds to the log. */
  lemma ThreadMoves(s: State, s': State, t: Thread, e: Option<Event>)
    requires ThreadsFit(s) && s'.log == With(s.log, e)
    requires e.Some? ==> e.value.t == t && Follows(Last(s.log, t), e.value)
    requires forall u: Thread | u != t :: At(s', u) == At(s, u)
    requires Stands(t, At(s', t), if e.Some? then e else Last(s.log, t))
    ensures ThreadsFit(s')
  {
    hide InTurn, Stands, Follows, At, Last;
    if e.Some? {
      InTurnSnoc(s.log, e.value);
    }
    forall u: Thread ensures Stands(u, At(s', u), Last(s'.log, u)) {
      assert Stands(u, At(s, u), Last(s.log, u));
      if e.Some? {
        LastSnoc(s.log, e.value, u);
      }
    }
  }

  lemma EmittedFollows(s: State, t: Thread)
    requires Stands(t, At(s, t), Last(s.log, t)) && Enabled(s, t)
    ensures Emitted(s, t).Some? ==> Follows(Last(s.log, t), Emitted(s, t).value)
  {
    hide Last, Find;
  }

  lemma StandsNext(s: State, t: Thread)
    requires Stands(t, At(s, t), Last(s.log, t)) && Enabled(s, t)
    ensures Stands(t, At(Act(s, t), t), if Emitted(s, t).Some? then Emitted(s, t) else Last(s.log, t))
  {
    hide Last, Find;
  }

  lemma ActThreads(s: State, t: Thread)
    requires ThreadsFit(s) && Enabled(s, t)
    ensures ThreadsFit(Act(s, t))
  {
    hide Act, At, Enabled, InTurn, Stands, Follows, Last, With, Emitted;
    assert Stands(t, At(s, t), Last(s.log, t));
    LogOf(s, t);
    OneMoves(s, t);
    EmittedFollows(s, t);
    StandsNext(s, t);
    ThreadMoves(s, Act(s, t), t, Emitted(s, t));
  }

  // ---- A call begins ----

  lemma {:induction false} BeginLocks(s: State, t: Thread, call: Call)
    requires LocksHeld(s) && At(s, t).Idle?
    ensures LocksHeld(Begin(s, t, call))
  {
    var s' := Begin(s, t, call);
    assert forall u: Thread :: At(s', u) == if u == t then At(s', t) else At(s, u);
    assert s.writer == Some(t) <==> Writes(At(s, t));
  }

  lemma BeginCounter(s: State, t: Thread, call: Call)
    requires WriterHeld(s) && CounterFits(s) && At(s, t).Idle?
    ensures CounterFits(Begin(s, t, call))
  {
    hide Loads;
    assert s.writer == Some(t) <==> Writes(At(s, t));
    LoadsWith(s.log, Some(Called(t, call)));
  }

  lemma BeginTable(s: State, t: Thread, call: Call)
    requires TableFits(s)
    ensures TableFits(Begin(s, t, call))
  {
    hide LogFits, Bound;
    TableSnoc(s, Begin(s, t, call), Called(t, call));
  }

  lemma BeginThreads(s: State, t: Thread, call: Call)
    requires ThreadsFit(s) && At(s, t).Idle?
    ensures ThreadsFit(Begin(s, t, call))
  {
    hide InTurn, Last;
    assert Stands(t, At(s, t), Last(s.log, t));
    ThreadMoves(s, Begin(s, t, call), t, Some(Called(t, call)));
  }

  lemma BeginInv(s: State, t: Thread, call: Call)
    requires Inv(s) && At(s, t).Idle?
    ensures Inv(Begin(s, t, call))
  {
    hide Begin, At, WriterHeld, ReadersHeld, InstancesHeld, CounterFits, TableFits, ThreadsFit;
    BeginLocks(s, t, call);
    BeginCounter(s, t, call);
    BeginTable(s, t, call);
    BeginThreads(s, t, call);
  }

  lemma ActInv(s: State, t: Thread)
    requires Inv(s) && Enabled(s, t)
    ensures Inv(Act(s, t))
  {
    hide Act, At, Enabled, ReadersHeld, InstancesHeld, CounterFits, TableFits, ThreadsFit;
    assert Writes(At(s, t)) <==> s.writer == Some(t);
    ActLocks(s, t);
    ActCounter(s, t);
    ActTable(s, t);
    ActThreads(s, t);
  }

  lemma StepInv(s: State, s': State)
    requires Inv(s) && Step(s, s')
    ensures Inv(s')
  {
    hide Inv, Enabled, Act, Begin, At;
    var t: Thread :| (At(s, t).Idle? && exists call: Call :: s' == Begin(s, t, call)) || (Enabled(s, t)
        && s' == Act(s, t));
    if Enabled(s, t) && s' == Act(s, t) {
      ActInv(s, t);
    } else {
      var call: Call :| s' == Begin(s, t, call);
      BeginInv(s, t, call);
    }
  }

  /** Every state of every run. */
  lemma {:induction false} RunInv(run: seq<State>)
    requires IsRun(run)
    ensures Inv(run[|run| - 1])
    decreases |run|
  {
    if |run| == 1 {
      StartInv();
    } else {
      RunInv(run[..|run| - 1]);
      StepInv(run[|run| - 2], run[|run| - 1]);
    }
  }

  lemma ReachableInv(s: State)
    requires Reachable(s)
    ensures Inv(s)
  {
    var run: seq<State> :| IsRun(run) && run[|run| - 1] == s;
    RunInv(run);
  }

  // ---- Main results ----

  /** At most one thread is inside an instance's parse. */
  lemma ParsesExclude(s: State, t: Thread, u: Thread)
    requires Reachable(s)
    ensures At(s, t).Parsing? && At(s, u).Parsing? && At(s, t).g == At(s, u).g ==> t == u
  {
    ReachableInv(s);
  }

  /** No thread acts on the table while another writes it. */
  lemma WritersExclude(s: State, t: Thread, u: Thread)
    requires Reachable(s)
    ensures Writes(At(s, t)) && (Writes(At(s, u)) || Reads(At(s, u))) ==> t == u
  {
    ReachableInv(s);
  }

  lemma {:induction false} LoadsGrow(log: seq<Event>, i: nat, j: nat)
    requires i < j <= |log| && log[i].Loaded?
    ensures Loads(log[..i]) < Loads(log[..j])
    decreases j
  {
    assert log[..j][..j - 1] == log[..j - 1];
    if j == i + 1 {
      assert log[..j][i] == log[i];
    } else {
      LoadsGrow(log, i, j - 1);
    }
  }

  /** Handles are never issued twice, not even after a free, and each has an instance of its own. */
  lemma HandlesNeverReissued(s: State, i: nat, j: nat)
    requires Reachable(s)
    requires var log := s.log; i < j < |log| && log[i].Loaded? && log[j].Loaded?
    ensures var log := s.log; log[i].h < log[j].h && log[i].g != log[j].g
  {
    ReachableInv(s);
    var log := s.log;
    assert EventFits(log, i) && EventFits(log, j);
    LoadsGrow(log, i, j);
  }

  /** Bound before place n: loaded before it and not freed between. */
  ghost predicate LiveAt(log: seq<Event>, n: nat, h: Handle, g: Instance)
    requires n <= |log|
  {
    exists i :: 0 <= i < n && IsLoad(log[i], h, g) && NotFreed(log, i, n, h)
  }

  predicate IsLoad(e: Event, h: Handle, g: Instance) {
    e.Loaded? && e.h == h && e.g == g
  }

  predicate IsFree(e: Event, h: Handle) {
    e.Freed? && e.h == h
  }

  ghost predicate NotFreed(log: seq<Event>, i: nat, n: nat, h: Handle)
    requires n <= |log|
  {
    forall j | i < j < n :: !IsFree(log[j], h)
  }

  /** What is bound is what was loaded last, if nothing has freed or loaded the handle since. */
  lemma {:induction false} BoundLast(log: seq<Event>, n: nat, h: Handle) returns (i: nat)
    requires n <= |log| && Bound(log[..n], h).Some?
    ensures i < n && IsLoad(log[i], h, Bound(log[..n], h).value) && NotFreed(log, i, n, h)
    decreases n
  {
    assert log[..n][..n - 1] == log[..n - 1] && log[..n][n - 1] == log[n - 1];
    if log[n - 1].Loaded? && log[n - 1].h == h {
      i := n - 1;
    } else {
      i := BoundLast(log, n - 1, h);
    }
  }

  lemma {:induction false} LoadedStaysBound(log: seq<Event>, i: nat, n: nat)
    requires i < n <= |log| && log[i].Loaded? && NotFreed(log, i, n, log[i].h)
    ensures Bound(log[..n], log[i].h).Some?
    decreases n
  {
    assert log[..n][..n - 1] == log[..n - 1] && log[..n][n - 1] == log[n - 1];
    if i < n - 1 {
      LoadedStaysBound(log, i, n - 1);
    }
  }

  lemma LoadedOnce(s: State, i: nat, k: nat)
    requires Reachable(s) && i < |s.log| && k < |s.log| && s.log[i].Loaded? && s.log[k].Loaded?
        && s.log[i].h == s.log[k].h
    ensures i == k
  {
    if i < k {
      HandlesNeverReissued(s, i, k);
    } else if k < i {
      HandlesNeverReissued(s, k, i);
    }
  }

  /**
    In every run a parse's lookup finds an instance exactly when its handle was loaded before it and not
    freed between, and it is that load's.
   */
  lemma LookupExact(s: State, n: nat, g: Instance)
    requires Reachable(s)
    requires var log := s.log; n < |log| && log[n].Lookup?
    ensures var log := s.log; log[n].found == Some(g) <==> LiveAt(log, n, log[n].h, g)
  {
    ReachableInv(s);
    hide Inv, Reachable;
    var log := s.log;
    var h := log[n].h;
    LookupBound(s, n);
    if log[n].found == Some(g) {
      var i := BoundLast(log, n, h);
    }
    if LiveAt(log, n, h, g) {
      var i :| 0 <= i < n && IsLoad(log[i], h, g) && NotFreed(log, i, n, h);
      LoadedStaysBound(log, i, n);
      var k := BoundLast(log, n, h);
      LoadedOnce(s, i, k);
    }
  }

  lemma LookupBound(s: State, n: nat)
    requires Inv(s) && n < |s.log| && s.log[n].Lookup?
    ensures s.log[n].found == Bound(s.log[..n], s.log[n].h)
  {
    hide LocksHeld, CounterFits, ThreadsFit, Bound, Loads;
    assert EventFits(s.log, n);
  }

  // ---- What a call answers ----

  /** Two events of one thread with none of its own between. */
  ghost predicate Adjacent(log: seq<Event>, p: nat, m: nat) {
    p < m < |log| && log[p].t == log[m].t && forall k | p < k < m :: log[k].t != log[m].t
  }

  lemma {:induction false} LastIs(log: seq<Event>, p: nat, m: nat, t: Thread)
    requires p < m <= |log| && log[p].t == t && forall k | p < k < m :: log[k].t != t
    ensures Last(log[..m], t) == Some(log[p])
    decreases m
  {
    assert log[..m][..m - 1] == log[..m - 1] && log[..m][m - 1] == log[m - 1];
    if p < m - 1 {
      LastIs(log, p, m - 1, t);
    }
  }

  /** The last event of a thread before a place. */
  lemma {:induction false} LastPlace(log: seq<Event>, m: nat, t: Thread) returns (p: nat)
    requires m <= |log| && Last(log[..m], t).Some?
    ensures p < m && log[p].t == t && Last(log[..m], t) == Some(log[p]) && forall k | p < k < m :: log[k].t != t
    decreases m
  {
    assert log[..m][..m - 1] == log[..m - 1] && log[..m][m - 1] == log[m - 1];
    if log[m - 1].t == t {
      p := m - 1;
    } else {
      p := LastPlace(log, m - 1, t);
    }
  }

  lemma NextFollows(s: State, p: nat, m: nat)
    requires Reachable(s) && Adjacent(s.log, p, m)
    ensures Follows(Some(s.log[p]), s.log[m])
  {
    ReachableInv(s);
    hide LocksHeld, CounterFits, TableFits, Last, Follows;
    assert Follows(Last(s.log[..m], s.log[m].t), s.log[m]);
    LastIs(s.log, p, m, s.log[m].t);
  }

  /** The event of the same thread before one that is not its first. */
  lemma Previous(log: seq<Event>, c: nat, m: nat) returns (p: nat)
    requires c < m < |log| && log[c].t == log[m].t
    ensures c <= p && Adjacent(log, p, m)
    decreases m - c
  {
    if k: nat :| c < k < m && log[k].t == log[m].t {
      p := Previous(log, k, m);
    } else {
      p := c;
    }
  }

  /** A call and its answer: the thread's first after it. */
  ghost predicate IsAnswered(log: seq<Event>, c: nat, m: nat) {
    && c < m < |log| && log[c].Called? && log[m].Answered? && log[c].t == log[m].t
    && forall k | c < k < m && log[k].t == log[c].t :: !log[k].Answered?
  }

  /** What a call did, and that its answer says so. */
  ghost predicate Tells(call: Call, did: Event, answer: Answer) {
    match call
    case LoadGrammar => did.Loaded? && answer == Issued(did.h)
    case ParseWith(h) =>
      did.Lookup? && did.h == h && answer == if did.found == None then HandleFailure else Parsed(did.found.value)
    case FreeGrammar(h) => did.Freed? && did.h == h && answer == Done
  }

  /**
    A call's answer tells what the call did: a load answers the handle it stored; a parse looks up its own
    handle, and answers the handle failure exactly if that finds nothing, and otherwise what the instance
    it found parsed; and a free deletes its own handle.
   */
  lemma AnswerTells(s: State, c: nat, m: nat) returns (n: nat)
    requires Reachable(s) && IsAnswered(s.log, c, m)
    ensures var log := s.log; c < n < m && log[n].t == log[c].t && Tells(log[c].call, log[n], log[m].answer)
  {
    hide Reachable;
    var log := s.log;
    n := Previous(log, c, m);
    NextFollows(s, n, m);
    if log[n].Entered? {
      var k := Previous(log, c, n);
      NextFollows(s, k, n);
      n := k;
    }
    var b := Previous(log, c, n);
    NextFollows(s, b, n);
    if c < b {
      var a := Previous(log, c, b);
      NextFollows(s, a, b);
      assert false;
    }
  }

  /** What follows a lookup of a thread is the handle failure exactly if it found nothing, and else its instance. */
  lemma LookupDecides(s: State, n: nat, m: nat)
    requires Reachable(s) && Adjacent(s.log, n, m) && s.log[n].Lookup?
    ensures var log := s.log; log[m] == if log[n].found == None then Answered(log[n].t, HandleFailure)
                                        else Entered(log[n].t, log[n].found.value)
  {
    NextFollows(s, n, m);
  }

  /**
    In every reachable state a thread that waits for an instance, or parses inside it, looked its handle up
    last, found that instance, and the handle was live: loaded, as that instance, and not freed.
   */
  lemma ParsesItsOwn(s: State, t: Thread) returns (n: nat)
    requires Reachable(s) && (At(s, t).MuWaits? || At(s, t).Parsing?)
    ensures var log := s.log;
            && n < |log| && log[n].t == t && log[n].Lookup? && log[n].found == Some(At(s, t).g)
            && LiveAt(log, n, log[n].h, At(s, t).g)
            && forall k | n < k < |log| && log[k].t == t :: log[k] == Entered(t, At(s, t).g)
  {
    var log := s.log;
    assert log[..|log|] == log;
    ThreadStands(s, t);
    n := LastPlace(log, |log|, t);
    hide At, Reachable;
    if log[n].Entered? {
      var k := EntryLooked(s, n);
      n := k;
    }
    LookupExact(s, n, At(s, t).g);
  }

  lemma ThreadStands(s: State, t: Thread)
    requires Reachable(s)
    ensures Stands(t, At(s, t), Last(s.log, t))
  {
    ReachableInv(s);
  }

  /** Before a thread enters an instance it has found it. */
  lemma EntryLooked(s: State, m: nat) returns (n: nat)
    requires Reachable(s) && m < |s.log| && s.log[m].Entered?
    ensures Adjacent(s.log, n, m) && s.log[n].Lookup? && s.log[n].found == Some(s.log[m].g)
  {
    ReachableInv(s);
    hide LocksHeld, CounterFits, TableFits, Last;
    assert Follows(Last(s.log[..m], s.log[m].t), s.log[m]);
    n := LastPlace(s.log, m, s.log[m].t);
  }

  /** A handle freed after its load stays dead: a later lookup finds nothing, and its call answers the failure. */
  lemma FreedStaysDead(s: State, i: nat, j: nat, n: nat)
    requires Reachable(s)
    requires var log := s.log;
             i < j < n < |log| && log[i].Loaded? && IsFree(log[j], log[i].h) && log[n].Lookup? && log[n].h == log[i].h
    ensures s.log[n].found == None
    ensures forall m: nat | Adjacent(s.log, n, m) :: s.log[m] == Answered(s.log[n].t, HandleFailure)
  {
    hide Reachable;
    var log := s.log;
    if log[n].found.Some? {
      LookupExact(s, n, log[n].found.value);
      var k :| 0 <= k < n && IsLoad(log[k], log[n].h, log[n].found.value) && NotFreed(log, k, n, log[n].h);
      LoadedOnce(s, i, k);
      assert false;
    }
    forall m: nat | Adjacent(log, n, m) ensures log[m] == Answered(log[n].t, HandleFailure) {
      LookupDecides(s, n, m);
    }
  }

  /** So a call made after the free, by any thread, answers the handle failure, however many loads come between. */
  lemma CallAfterFree(s: State, i: nat, j: nat, c: nat, m: nat)
    requires Reachable(s) && IsAnswered(s.log, c, m)
    requires var log := s.log;
             i < j < c && log[i].Loaded? && IsFree(log[j], log[i].h) && log[c].call == ParseWith(log[i].h)
    ensures s.log[m].answer == HandleFailure
  {
    hide Reachable;
    var n := AnswerTells(s, c, m);
    FreedStaysDead(s, i, j, n);
  }

  // ---- Nobody waits for ever on a lock nobody will release ----

  /** Go's RWMutex also keeps new readers out while a writer waits. */
  ghost predicate EnabledBehindWriters(s: State, t: Thread) {
    Enabled(s, t) && (At(s, t).ParseWaits? ==> forall u: Thread :: !At(s, u).LoadWaits? && !At(s, u).FreeWaits?)
  }

  /** In every reachable state with a busy thread some thread can act: the locks cannot deadlock. */
  lemma NoDeadlock(s: State, t: Thread)
    requires Reachable(s) && !At(s, t).Idle?
    ensures exists u: Thread :: EnabledBehindWriters(s, u)
  {
    ReachableInv(s);
    if s.writer.Some? {
      assert EnabledBehindWriters(s, s.writer.value);
    } else if s.readers != {} {
      var u :| u in s.readers;
      assert EnabledBehindWriters(s, u);
    } else if u: Thread :| At(s, u).LoadWaits? || At(s, u).FreeWaits? {
      assert EnabledBehindWriters(s, u);
    } else if At(s, t).MuWaits? && At(s, t).g in s.held {
      assert EnabledBehindWriters(s, s.held[At(s, t).g]);
    } else {
      assert EnabledBehindWriters(s, t);
    }
  }
}
