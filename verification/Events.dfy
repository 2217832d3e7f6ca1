/** The event log, its snapshots, and the state of a creator rebuilt from them. */
module Events {
  import opened Prelude

  type Id = nat

  datatype Event =
    | CreatorRegistered(id: Id, username: string, wallet: string, timestamp: int)
    | TipReceived(tip: Id, creator: Id, amount: string, timestamp: int)
  {
    function Aggregate(): Id { if CreatorRegistered? then id else creator }
  }

  // ---- Projections ----

  datatype Projection = Projection(id: Option<Id>, username: string, wallet: string, tipCount: nat,
                                   registeredAt: Option<int>)

  const BLANK := Projection(None, "", "", 0, None)

  function Apply(p: Projection, e: Event): Projection {
    match e
    case CreatorRegistered(id, username, wallet, timestamp) =>
      p.(id := Some(id), username := username, wallet := wallet, registeredAt := Some(timestamp))
    case TipReceived(_, _, _, _) => p.(tipCount := p.tipCount + 1)
  }

  function Fold(p: Projection, es: seq<Event>): Projection {
    if |es| == 0 then p else Apply(Fold(p, es[..|es| - 1]), es[|es| - 1])
  }

  /** Applies events in order to a projection in place. */
  method ApplyAll(start: Projection, es: seq<Event>) returns (p: Projection)
    ensures p == Fold(start, es)
  {
    p := start;
    for i := 0 to |es|
      invariant p == Fold(start, es[..i])
    {
      assert es[..i + 1][..i] == es[..i];
      match es[i]
      case CreatorRegistered(id, username, wallet, timestamp) =>
        p := p.(id := Some(id));
        p := p.(username := username);
        p := p.(wallet := wallet);
        p := p.(registeredAt := Some(timestamp));
      case TipReceived(_, _, _, _) =>
        p := p.(tipCount := p.tipCount + 1);
    }
    assert es[..|es|] == es;
  }

  lemma {:induction false} FoldConcat(p: Projection, a: seq<Event>, b: seq<Event>)
    ensures Fold(p, a + b) == Fold(Fold(p, a), b)
  {
    if |b| == 0 {
      assert a + b == a;
    } else {
      FoldConcat(p, a, b[..|b| - 1]);
      assert (a + b)[..|a + b| - 1] == a + b[..|b| - 1];
    }
  }

  // ---- The log ----

  /** A stored event; `event` is `None` when the stored payload does not decode. */
  datatype Row = Row(number: int, aggregate: Id, event: Option<Event>)

  /** The events of one aggregate, or of all, with a number from `from` up to `upTo`, skipping rows that
      do not decode. */
  function Select(log: seq<Row>, aggregate: Option<Id>, from: int, upTo: Option<int>): seq<Event> {
    if |log| == 0 then [] else
    var before, r := Select(log[..|log| - 1], aggregate, from, upTo), log[|log| - 1];
    if Chosen(r, aggregate, from, upTo) && r.event.Some? then before + [r.event.value] else before
  }

  predicate Chosen(r: Row, aggregate: Option<Id>, from: int, upTo: Option<int>) {
    (aggregate.None? || aggregate.value == r.aggregate) && from <= r.number && (upTo.None? || r.number <= upTo.value)
  }

  function CountOf(log: seq<Row>, aggregate: Id): nat {
    if |log| == 0 then 0
    else CountOf(log[..|log| - 1], aggregate) + if log[|log| - 1].aggregate == aggregate then 1 else 0
  }

  /** Numbers grow along the log; they start at 1 and may leave gaps. */
  ghost predicate Ordered(log: seq<Row>) {
    (forall i, j :: 0 <= i < j < |log| ==> log[i].number < log[j].number)
    && forall i :: 0 <= i < |log| ==> log[i].number >= 1
  }

  function LastNumber(log: seq<Row>): int { if |log| == 0 then 0 else log[|log| - 1].number }

  /** Every decodable row is filed under its event's aggregate. */
  ghost predicate Filed(log: seq<Row>) {
    forall i :: 0 <= i < |log| && log[i].event.Some? ==> log[i].aggregate == log[i].event.value.Aggregate()
  }

  /** What the log says: its events in order, less those that do not decode. */
  function Decoded(log: seq<Row>): seq<Event> {
    if |log| == 0 then [] else
    var before, r := Decoded(log[..|log| - 1]), log[|log| - 1];
    if r.event.Some? then before + [r.event.value] else before
  }

  /** The events of one creator, in order. */
  function Of(es: seq<Event>, a: Id): seq<Event> {
    if |es| == 0 then [] else
    var before, e := Of(es[..|es| - 1], a), es[|es| - 1];
    if e.Aggregate() == a then before + [e] else before
  }

  /** The rows up to a number. */
  function UpTo(log: seq<Row>, number: int): (rows: seq<Row>)
    ensures rows <= log && (|rows| < |log| ==> log[|rows|].number > number)
    ensures |rows| > 0 ==> rows[|rows| - 1].number <= number
  {
    if |log| == 0 || log[|log| - 1].number <= number then log
    else
      var rows := UpTo(log[..|log| - 1], number);
      assert |rows| < |log| - 1 ==> log[..|log| - 1][|rows|] == log[|rows|];
      rows
  }

  type Snapshots = map<(Id, int), Projection>

  const THRESHOLD := 50

  /** The snapshot of an aggregate with the greatest number, if it has any. */
  ghost predicate IsLatest(snapshots: Snapshots, aggregate: Id, found: Option<(int, Projection)>) {
    match found
    case None => forall n :: (aggregate, n) !in snapshots
    case Some((number, p)) =>
      (aggregate, number) in snapshots && snapshots[(aggregate, number)] == p
      && forall n :: (aggregate, n) in snapshots ==> n <= number
  }

  class EventStore {
    var log: seq<Row>
    var snapshots: Snapshots

    ghost predicate Valid()
      reads this
    {
      Ordered(log) && Filed(log)
    }

    constructor ()
      ensures Valid() && log == [] && snapshots == map[]
    {
      log, snapshots := [], map[];
    }

    /** INSERT ... RETURNING sequence_number; numbers drawn by others and lost leave a gap. */
    method Insert(e: Event, gap: nat) returns (number: int)
      requires Valid()
      modifies this`log
      ensures Valid() && number == LastNumber(old(log)) + 1 + gap
      ensures log == old(log) + [Row(number, e.Aggregate(), Some(e))]
    {
      number := 1 + gap;
      if |log| > 0 {
        number := log[|log| - 1].number + 1 + gap;
      }
      log := log + [Row(number, e.Aggregate(), Some(e))];
    }

    method Count(aggregate: Id) returns (n: nat)
      ensures n == CountOf(log, aggregate)
    {
      n := 0;
      for i := 0 to |log|
        invariant n == CountOf(log[..i], aggregate)
      {
        assert log[..i + 1][..i] == log[..i];
        if log[i].aggregate == aggregate {
          n := n + 1;
        }
      }
      assert log[..|log|] == log;
    }

    /** SELECT event_data ... ORDER BY sequence_number, then decode what decodes. */
    method Query(aggregate: Option<Id>, from: int, upTo: Option<int>) returns (es: seq<Event>)
      ensures es == Select(log, aggregate, from, upTo)
    {
      es := [];
      for i := 0 to |log|
        invariant es == Select(log[..i], aggregate, from, upTo)
      {
        assert log[..i + 1][..i] == log[..i];
        if Chosen(log[i], aggregate, from, upTo) && log[i].event.Some? {
          es := es + [log[i].event.value];
        }
      }
      assert log[..|log|] == log;
    }

    /** INSERT ... ON CONFLICT DO NOTHING of the projection up to `number`. */
    method WriteSnapshot(aggregate: Id, number: int)
      modifies this`snapshots
      ensures snapshots == SnapshotStep(old(snapshots), aggregate, number,
                                        Fold(BLANK, Select(log, Some(aggregate), 1, Some(number))))
    {
      var es := Query(Some(aggregate), 1, Some(number));
      var p := ApplyAll(BLANK, es);
      if (aggregate, number) !in snapshots {
        snapshots := snapshots[(aggregate, number) := p];
      }
    }

    /** An append that nothing interrupts: the row, and a snapshot at every fiftieth row of the aggregate. */
    method Append(e: Event, gap: nat) returns (number: int)
      requires Valid()
      modifies this
      ensures Valid() && number == LastNumber(old(log)) + 1 + gap
      ensures log == old(log) + [Row(number, e.Aggregate(), Some(e))]
      ensures snapshots ==
              if CountOf(log, e.Aggregate()) % 50 == 0
              then
                SnapshotStep(old(snapshots), e.Aggregate(), number,
                             Fold(BLANK, Select(log, Some(e.Aggregate()), 1, Some(number))))
              else old(snapshots)
    {
      number := Insert(e, gap);
      var count := Count(e.Aggregate());
      if count % THRESHOLD == 0 {
        WriteSnapshot(e.Aggregate(), number);
      }
    }

    method LoadLatestSnapshot(aggregate: Id) returns (found: Option<(int, Projection)>)
      ensures IsLatest(snapshots, aggregate, found)
      ensures forall n :: (aggregate, n) in snapshots ==> found.Some? && n <= found.value.0
    {
      found := None;
      var rest := snapshots.Keys;
      while rest != {}
        invariant rest <= snapshots.Keys
        invariant match found
                  case None => forall n :: (aggregate, n) in snapshots ==> (aggregate, n) in rest
                  case Some((number, p)) =>
                    (aggregate, number) in snapshots && snapshots[(aggregate, number)] == p
                    && forall n :: (aggregate, n) in snapshots && (aggregate, n) !in rest ==> n <= number
        decreases rest
      {
        var k :| k in rest;
        if k.0 == aggregate && (found.None? || found.value.0 < k.1) {
          found := Some((k.1, snapshots[k]));
        }
        rest := rest - {k};
      }
    }
  }

  function SnapshotStep(snapshots: Snapshots, aggregate: Id, number: int, p: Projection): Snapshots {
    if (aggregate, number) in snapshots then snapshots else snapshots[(aggregate, number) := p]
  }

  /** The state of a creator: its latest snapshot and what came after, or everything. */
  method CreatorState(store: EventStore, creator: Id) returns (p: Projection)
    requires store.Valid() && SnapshotsAreFolds(store.log, store.snapshots)
    ensures p == Fold(BLANK, Of(Decoded(store.log), creator))
  {
    OwnEvents(store.log, creator);
    var found := store.LoadLatestSnapshot(creator);
    if found.Some? {
      var (number, start) := found.value;
      var delta := store.Query(Some(creator), number + 1, None);
      p := ApplyAll(start, delta);
      SnapshotPlusDelta(store.log, store.snapshots, creator, number);
    } else {
      var es := store.Query(Some(creator), 1, None);
      p := ApplyAll(BLANK, es);
    }
  }

  method CreatorStateAt(store: EventStore, creator: Id, number: int) returns (p: Projection)
    requires store.Valid()
    ensures p == Fold(BLANK, Of(Decoded(UpTo(store.log, number)), creator))
  {
    OwnEventsUpTo(store.log, creator, number);
    var es := store.Query(Some(creator), 1, Some(number));
    p := ApplyAll(BLANK, es);
  }

  // ---- What is selected ----

  lemma {:induction false} OfAdds(es: seq<Event>, e: Event, a: Id)
    ensures Of(es + [e], a) == if e.Aggregate() == a then Of(es, a) + [e] else Of(es, a)
  {
    assert (es + [e])[..|es|] == es;
  }

  /** Selecting for one aggregate gives its own events among those selected for all. */
  lemma {:induction false} SelectsOwn(log: seq<Row>, a: Id, from: int, upTo: Option<int>)
    requires Filed(log)
    ensures Select(log, Some(a), from, upTo) == Of(Select(log, None, from, upTo), a)
  {
    if |log| > 0 {
      var before, r := log[..|log| - 1], log[|log| - 1];
      SelectsOwn(before, a, from, upTo);
      if r.event.Some? {
        OfAdds(Select(before, None, from, upTo), r.event.value, a);
      }
    }
  }

  lemma {:induction false} SelectsAll(log: seq<Row>)
    requires Ordered(log)
    ensures Select(log, None, 1, None) == Decoded(log)
  {
    if |log| > 0 {
      SelectsAll(log[..|log| - 1]);
    }
  }

  lemma {:induction false} SelectsUpTo(log: seq<Row>, number: int)
    requires Ordered(log)
    ensures Select(log, None, 1, Some(number)) == Decoded(UpTo(log, number))
  {
    if |log| > 0 {
      var before := log[..|log| - 1];
      if log[|log| - 1].number <= number {
        StateAtEnd(log, None, 1, number);
        SelectsAll(log);
      } else {
        SelectsUpTo(before, number);
      }
    }
  }

  /** The state of a creator is a matter of its own events, all of them. */
  lemma {:induction false} OwnEvents(log: seq<Row>, a: Id)
    requires Ordered(log) && Filed(log)
    ensures Select(log, Some(a), 1, None) == Of(Decoded(log), a)
  {
    SelectsOwn(log, a, 1, None);
    SelectsAll(log);
  }

  lemma {:induction false} OwnEventsUpTo(log: seq<Row>, a: Id, number: int)
    requires Ordered(log) && Filed(log)
    ensures Select(log, Some(a), 1, Some(number)) == Of(Decoded(UpTo(log, number)), a)
  {
    SelectsOwn(log, a, 1, Some(number));
    SelectsUpTo(log, number);
  }

  // ---- Splitting a log at a number ----

  /** `p` is the fold of the aggregate's events up to a number that the log has reached. */
  ghost predicate IsFold(log: seq<Row>, a: Id, n: int, p: Projection) {
    1 <= n <= LastNumber(log) && p == Fold(BLANK, Select(log, Some(a), 1, Some(n)))
  }

  ghost predicate SnapshotsAreFolds(log: seq<Row>, snapshots: Snapshots) {
    forall a, n :: (a, n) in snapshots ==> IsFold(log, a, n, snapshots[(a, n)])
  }

  lemma {:induction false} NothingAfter(log: seq<Row>, aggregate: Option<Id>, from: int, upTo: Option<int>)
    requires Ordered(log) && LastNumber(log) < from
    ensures Select(log, aggregate, from, upTo) == []
  {
    if |log| > 0 {
      NothingAfter(log[..|log| - 1], aggregate, from, upTo);
    }
  }

  lemma {:induction false} SelectSplit(log: seq<Row>, aggregate: Option<Id>, from: int, at: int)
    requires Ordered(log) && from <= at + 1
    ensures Select(log, aggregate, from, Some(at)) + Select(log, aggregate, at + 1, None)
         == Select(log, aggregate, from, None)
  {
    if |log| > 0 {
      SelectSplit(log[..|log| - 1], aggregate, from, at);
      if LastNumber(log) <= at {
        NothingAfter(log[..|log| - 1], aggregate, at + 1, None);
      }
    }
  }

  lemma {:induction false} SnapshotPlusDelta(log: seq<Row>, snapshots: Snapshots, creator: Id, number: int)
    requires Ordered(log) && SnapshotsAreFolds(log, snapshots) && (creator, number) in snapshots
    ensures Fold(snapshots[(creator, number)], Select(log, Some(creator), number + 1, None))
         == Fold(BLANK, Select(log, Some(creator), 1, None))
  {
    SelectSplit(log, Some(creator), 1, number);
    FoldConcat(BLANK, Select(log, Some(creator), 1, Some(number)), Select(log, Some(creator), number + 1, None));
  }

  /** At the end of the log time travel and the present agree. */
  lemma {:induction false} StateAtEnd(log: seq<Row>, aggregate: Option<Id>, from: int, number: int)
    requires Ordered(log) && LastNumber(log) <= number
    ensures Select(log, aggregate, from, Some(number)) == Select(log, aggregate, from, None)
  {
    if |log| > 0 {
      StateAtEnd(log[..|log| - 1], aggregate, from, number);
    }
  }

  // ---- Interleaved appends ----

  /** Where a running append stands after its insert. */
  datatype Stage =
    | AtCount(aggregate: Id, number: int)
    | AtLoad(aggregate: Id, number: int)
    | AtWrite(aggregate: Id, number: int, projection: Projection)

  type Task = nat

  datatype State = State(log: seq<Row>, snapshots: Snapshots, running: map<Task, Stage>)

  /** A statement of some append, or a row that does not decode written by someone else. */
  datatype Step =
    | Insert(task: Task, event: Event, gap: nat)
    | Next(task: Task)
    | Foreign(aggregate: Id, gap: nat)

  /** The next statement of an append after its insert. */
  function Statement(st: State, task: Task): State
    requires task in st.running
  {
    match st.running[task]
    case AtCount(a, n) =>
      if CountOf(st.log, a) % THRESHOLD == 0 then Move(st, task, AtLoad(a, n)) else st.(running := st.running - {task})
    case AtLoad(a, n) => Move(st, task, AtWrite(a, n, Fold(BLANK, Select(st.log, Some(a), 1, Some(n)))))
    case AtWrite(a, n, p) => st.(snapshots := SnapshotStep(st.snapshots, a, n, p), running := st.running - {task})
  }

  function Move(st: State, task: Task, g: Stage): State { st.(running := st.running[task := g]) }

  function Extend(st: State, r: Row): State { st.(log := st.log + [r]) }

  function Exec(st: State, s: Step): State {
    match s
    case Insert(task, e, gap) =>
      var number := LastNumber(st.log) + 1 + gap;
      Move(Extend(st, Row(number, e.Aggregate(), Some(e))), task, AtCount(e.Aggregate(), number))
    case Foreign(aggregate, gap) => Extend(st, Row(LastNumber(st.log) + 1 + gap, aggregate, None))
    case Next(task) => if task in st.running then Statement(st, task) else st
  }

  function After(steps: seq<Step>): State {
    if |steps| == 0 then State([], map[], map[]) else Exec(After(steps[..|steps| - 1]), steps[|steps| - 1])
  }

  ghost predicate Inv(st: State) {
    && Ordered(st.log) && Filed(st.log) && SnapshotsAreFolds(st.log, st.snapshots)
    && forall t :: t in st.running ==> Accurate(st.log, st.running[t])
  }

  /** Later rows do not reach back before an earlier number. */
  lemma {:induction false} SelectStable(log: seq<Row>, r: Row, aggregate: Option<Id>, number: int)
    requires number < r.number
    ensures Select(log + [r], aggregate, 1, Some(number)) == Select(log, aggregate, 1, Some(number))
  {
    assert (log + [r])[..|log + [r]| - 1] == log;
  }

  ghost predicate Accurate(log: seq<Row>, g: Stage) {
    1 <= g.number <= LastNumber(log) && (g.AtWrite? ==> IsFold(log, g.aggregate, g.number, g.projection))
  }

  lemma {:induction false} IsFoldGrows(log: seq<Row>, r: Row, a: Id, n: int, p: Projection)
    requires IsFold(log, a, n, p) && r.number > LastNumber(log)
    ensures IsFold(log + [r], a, n, p)
  {
    SelectStable(log, r, Some(a), n);
  }

  lemma {:induction false} InvExtend(st: State, r: Row)
    requires Inv(st) && r.number > LastNumber(st.log)
    requires r.event.Some? ==> r.aggregate == r.event.value.Aggregate()
    ensures Inv(Extend(st, r))
  {
    forall a, n | (a, n) in st.snapshots
      ensures IsFold(st.log + [r], a, n, st.snapshots[(a, n)])
    {
      IsFoldGrows(st.log, r, a, n, st.snapshots[(a, n)]);
    }
    forall t | t in st.running
      ensures Accurate(st.log + [r], st.running[t])
    {
      var g := st.running[t];
      assert Accurate(st.log, g);
      if g.AtWrite? {
        IsFoldGrows(st.log, r, g.aggregate, g.number, g.projection);
      }
    }
  }

  lemma {:induction false} InvMove(st: State, t: Task, g: Stage)
    requires Inv(st) && Accurate(st.log, g)
    ensures Inv(Move(st, t, g))
  {
  }

  lemma {:induction false} InvStatement(st: State, task: Task)
    requires Inv(st) && task in st.running
    ensures Inv(Statement(st, task))
  {
    assert Accurate(st.log, st.running[task]);
    match st.running[task]
    case AtCount(a, n) => InvMove(st, task, AtLoad(a, n));
    case AtLoad(a, n) => InvMove(st, task, AtWrite(a, n, Fold(BLANK, Select(st.log, Some(a), 1, Some(n)))));
    case AtWrite(a, n, p) =>
  }

  lemma {:induction false} InvInsert(st: State, task: Task, r: Row)
    requires Inv(st) && r.number > LastNumber(st.log)
    requires r.event.Some? ==> r.aggregate == r.event.value.Aggregate()
    ensures Inv(Move(Extend(st, r), task, AtCount(r.aggregate, r.number)))
  {
    InvExtend(st, r);
    var next := Extend(st, r);
    assert LastNumber(next.log) == r.number && r.number >= 1 by {
      assert next.log[|st.log|] == r;
    }
    InvMove(next, task, AtCount(r.aggregate, r.number));
  }

  lemma {:induction false} InvExec(st: State, s: Step)
    requires Inv(st)
    ensures Inv(Exec(st, s))
  {
    if s.Insert? {
      var r := Row(LastNumber(st.log) + 1 + s.gap, s.event.Aggregate(), Some(s.event));
      InvInsert(st, s.task, r);
      assert Exec(st, s) == Move(Extend(st, r), s.task, AtCount(r.aggregate, r.number));
    } else if s.Foreign? {
      var r := Row(LastNumber(st.log) + 1 + s.gap, s.aggregate, None);
      InvExtend(st, r);
      assert Exec(st, s) == Extend(st, r);
    } else if s.task in st.running {
      InvStatement(st, s.task);
      assert Exec(st, s) == Statement(st, s.task);
    } else {
      assert Exec(st, s) == st;
    }
  }

  lemma {:induction false} InvAfter(steps: seq<Step>)
    ensures Inv(After(steps))
  {
    if |steps| > 0 {
      InvAfter(steps[..|steps| - 1]);
      InvExec(After(steps[..|steps| - 1]), steps[|steps| - 1]);
    }
  }

  /** However appends to all aggregates interleave, every stored snapshot is the fold of its aggregate's
      events up to its number. */
  lemma {:induction false} SnapshotsAreExact(steps: seq<Step>, aggregate: Id, number: int)
    requires (aggregate, number) in After(steps).snapshots
    ensures After(steps).snapshots[(aggregate, number)]
         == Fold(BLANK, Of(Decoded(UpTo(After(steps).log, number)), aggregate))
  {
    InvAfter(steps);
    OwnEventsUpTo(After(steps).log, aggregate, number);
  }

  /** Nothing is ever removed or changed. */
  ghost predicate Grows(st: State, later: State) {
    && st.log <= later.log
    && forall k :: k in st.snapshots ==> k in later.snapshots && later.snapshots[k] == st.snapshots[k]
  }

  lemma {:induction false} StepGrows(st: State, s: Step)
    ensures Grows(st, Exec(st, s))
  {
  }

  lemma {:induction false} GrowsOn(st: State, later: State, latest: State)
    requires Grows(st, later) && Grows(later, latest)
    ensures Grows(st, latest)
  {
  }

  lemma {:induction false} OnlyGrows(steps: seq<Step>, more: seq<Step>)
    ensures Grows(After(steps), After(steps + more))
  {
    if |more| == 0 {
      assert steps + more == steps;
    } else {
      var before := steps + more[..|more| - 1];
      OnlyGrows(steps, more[..|more| - 1]);
      assert (steps + more)[..|steps + more| - 1] == before;
      StepGrows(After(before), more[|more| - 1]);
      GrowsOn(After(steps), After(before), After(steps + more));
    }
  }

  lemma {:induction false} ReplayAgrees(st: State, later: State, creator: Id, found: Option<(int, Projection)>)
    requires Inv(later) && Grows(st, later) && IsLatest(st.snapshots, creator, found)
    ensures var full := Fold(BLANK, Select(later.log, Some(creator), 1, None));
            && (found.Some? ==> Fold(found.value.1, Select(later.log, Some(creator), found.value.0 + 1, None)) == full)
            && Fold(BLANK, Select(later.log, Some(creator), 1, Some(LastNumber(later.log)))) == full
  {
    StateAtEnd(later.log, Some(creator), 1, LastNumber(later.log));
    if found.Some? {
      SnapshotPlusDelta(later.log, later.snapshots, creator, found.value.0);
    }
  }

  /** A reader that finds the latest snapshot, is overtaken by any number of appends, and only then reads
      the rest, still gets the fold of everything in the log at that second read; so does time travel to
      the log's end. */
  lemma {:induction false} CreatorStateIsFullReplay(steps: seq<Step>, more: seq<Step>, creator: Id,
                                                    found: Option<(int, Projection)>)
    requires IsLatest(After(steps).snapshots, creator, found)
    ensures var log := After(steps + more).log;
            var full := Fold(BLANK, Of(Decoded(log), creator));
            && (found.Some? ==> Fold(found.value.1, Select(log, Some(creator), found.value.0 + 1, None)) == full)
            && Fold(BLANK, Select(log, Some(creator), 1, None)) == full
            && Fold(BLANK, Select(log, Some(creator), 1, Some(LastNumber(log)))) == full
  {
    InvAfter(steps + more);
    OwnEvents(After(steps + more).log, creator);
    OnlyGrows(steps, more);
    ReplayAgrees(After(steps), After(steps + more), creator, found);
  }

  // ---- When snapshots are taken ----

  /** How many rows an aggregate has, counted one by one. */
  ghost function RowsOf(log: seq<Row>, a: Id): set<int> { set i | 0 <= i < |log| && log[i].aggregate == a }

  lemma {:induction false} CountIsSize(log: seq<Row>, a: Id)
    ensures CountOf(log, a) == |RowsOf(log, a)|
  {
    if |log| > 0 {
      var n := |log| - 1;
      CountIsSize(log[..n], a);
      if log[n].aggregate == a {
        assert RowsOf(log, a) == RowsOf(log[..n], a) + {n};
      } else {
        assert RowsOf(log, a) == RowsOf(log[..n], a);
      }
    }
  }

  /** The statements of one append with nothing in between: the insert, the count, and, at a multiple of fifty,
      the load and the write. */
  function Uninterrupted(st: State, task: Task, e: Event, gap: nat): State {
    Exec(Exec(Exec(Exec(st, Insert(task, e, gap)), Next(task)), Next(task)), Next(task))
  }

  /** They leave the log with the new row, and its snapshot exactly if the aggregate now has a multiple of
      fifty rows. */
  lemma {:induction false} UninterruptedAppend(st: State, task: Task, e: Event, gap: nat)
    requires task !in st.running
    ensures var end, number, a := Uninterrupted(st, task, e, gap), LastNumber(st.log) + 1 + gap, e.Aggregate();
            && end.log == st.log + [Row(number, a, Some(e))] && end.running == st.running
            && end.snapshots
               == if |RowsOf(end.log, a)| % 50 == 0
                  then SnapshotStep(st.snapshots, a, number, Fold(BLANK, Select(end.log, Some(a), 1, Some(number))))
                  else st.snapshots
  {
    var number, a := LastNumber(st.log) + 1 + gap, e.Aggregate();
    var inserted := Move(Extend(st, Row(number, a, Some(e))), task, AtCount(a, number));
    assert Exec(st, Insert(task, e, gap)) == inserted;
    CountIsSize(inserted.log, a);
    assert inserted.running - {task} == st.running;
    if |RowsOf(inserted.log, a)| % 50 == 0 {
      SnapshotSteps(inserted, task, a, number);
    } else {
      assert Exec(inserted, Next(task)) == inserted.(running := st.running);
    }
  }

  lemma {:induction false} SnapshotSteps(st: State, task: Task, a: Id, number: int)
    requires task in st.running && st.running[task] == AtCount(a, number) && CountOf(st.log, a) % 50 == 0
    ensures var p := Fold(BLANK, Select(st.log, Some(a), 1, Some(number)));
            Exec(Exec(Exec(st, Next(task)), Next(task)), Next(task))
            == State(st.log, SnapshotStep(st.snapshots, a, number, p), st.running - {task})
  {
    var p := Fold(BLANK, Select(st.log, Some(a), 1, Some(number)));
    var loading, writing := Move(st, task, AtLoad(a, number)), Move(st, task, AtWrite(a, number, p));
    assert Exec(st, Next(task)) == loading;
    assert Exec(loading, Next(task)) == writing;
    assert writing.running - {task} == st.running - {task};
  }

  /** Whole appends, one after the other. */
  function Appends(es: seq<(Event, nat)>): State {
    if |es| == 0 then State([], map[], map[])
    else Uninterrupted(Appends(es[..|es| - 1]), 0, es[|es| - 1].0, es[|es| - 1].1)
  }

  /** They are a run of the interleaved statements. */
  lemma {:induction false} AppendsAreRuns(es: seq<(Event, nat)>) returns (steps: seq<Step>)
    ensures After(steps) == Appends(es)
  {
    steps := [];
    if |es| > 0 {
      var before := AppendsAreRuns(es[..|es| - 1]);
      var insert := Insert(0, es[|es| - 1].0, es[|es| - 1].1);
      AfterAdds(before, insert);
      AfterAdds(before + [insert], Next(0));
      AfterAdds(before + [insert] + [Next(0)], Next(0));
      AfterAdds(before + [insert] + [Next(0)] + [Next(0)], Next(0));
      steps := before + [insert] + [Next(0)] + [Next(0)] + [Next(0)];
    }
  }

  lemma {:induction false} AfterAdds(steps: seq<Step>, s: Step)
    ensures After(steps + [s]) == Exec(After(steps), s)
  {
    assert (steps + [s])[..|steps + [s]| - 1] == steps;
  }

  /** Row `i` brings its aggregate to a multiple of fifty rows. */
  ghost predicate Fiftieth(log: seq<Row>, i: nat)
    requires i < |log|
  {
    |RowsOf(log[..i + 1], log[i].aggregate)| % 50 == 0
  }

  ghost predicate HasFiftieth(log: seq<Row>, a: Id, number: int) {
    exists i: nat :: i < |log| && log[i].aggregate == a && log[i].number == number && Fiftieth(log, i)
  }

  lemma {:induction false} FiftiethAdds(log: seq<Row>, r: Row, a: Id, number: int)
    requires forall i :: 0 <= i < |log| ==> log[i].number < r.number
    ensures HasFiftieth(log + [r], a, number)
       <==> if number == r.number then a == r.aggregate && Fiftieth(log + [r], |log|) else HasFiftieth(log, a, number)
  {
    var longer := log + [r];
    forall i: nat | i < |log|
      ensures longer[i] == log[i] && (Fiftieth(longer, i) <==> Fiftieth(log, i))
    {
      assert longer[..i + 1] == log[..i + 1];
    }
    if HasFiftieth(log, a, number) {
      var i: nat :| i < |log| && log[i].aggregate == a && log[i].number == number && Fiftieth(log, i);
      assert longer[i].aggregate == a && longer[i].number == number && Fiftieth(longer, i);
    }
    if number == r.number && a == r.aggregate && Fiftieth(longer, |log|) {
      assert longer[|log|].aggregate == a && longer[|log|].number == number;
    }
  }

  /** One append among appends that do not overlap. */
  lemma {:induction false} SnapshotIffStep(st: State, e: Event, gap: nat, a: Id, number: int)
    requires st.running == map[] && Ordered(st.log)
    requires (a, number) in st.snapshots <==> HasFiftieth(st.log, a, number)
    requires (e.Aggregate(), LastNumber(st.log) + 1 + gap) !in st.snapshots
    ensures var end := Uninterrupted(st, 0, e, gap);
            && end.running == map[] && Ordered(end.log)
            && ((a, number) in end.snapshots <==> HasFiftieth(end.log, a, number))
  {
    var r := Row(LastNumber(st.log) + 1 + gap, e.Aggregate(), Some(e));
    UninterruptedAppend(st, 0, e, gap);
    OrderedAdds(st.log, r);
    FiftiethAdds(st.log, r, a, number);
    assert (st.log + [r])[..|st.log| + 1] == st.log + [r];
  }

  /** When appends do not overlap, an aggregate has a snapshot at a number exactly if the row with that number
      is its fiftieth, hundredth, and so on. */
  lemma {:induction false} SnapshotIffFiftieth(es: seq<(Event, nat)>, a: Id, number: int)
    ensures Appends(es).running == map[] && Ordered(Appends(es).log)
    ensures (a, number) in Appends(es).snapshots <==> HasFiftieth(Appends(es).log, a, number)
    decreases |es|, 1
  {
    if |es| > 0 {
      var before, e, gap := es[..|es| - 1], es[|es| - 1].0, es[|es| - 1].1;
      SnapshotIffFiftieth(before, a, number);
      NoneAtNewNumber(before, e.Aggregate(), LastNumber(Appends(before).log) + 1 + gap);
      SnapshotIffStep(Appends(before), e, gap, a, number);
    }
  }

  lemma {:induction false} FiftiethIsOld(log: seq<Row>, a: Id, number: int)
    requires Ordered(log) && HasFiftieth(log, a, number)
    ensures number <= LastNumber(log)
  {
    var i: nat :| i < |log| && log[i].aggregate == a && log[i].number == number && Fiftieth(log, i);
  }

  lemma {:induction false} NoneAtNewNumber(es: seq<(Event, nat)>, a: Id, number: int)
    requires number > LastNumber(Appends(es).log)
    ensures (a, number) !in Appends(es).snapshots
    decreases |es|, 2
  {
    SnapshotIffFiftieth(es, a, number);
    if HasFiftieth(Appends(es).log, a, number) {
      FiftiethIsOld(Appends(es).log, a, number);
    }
  }

  lemma {:induction false} OrderedAdds(log: seq<Row>, r: Row)
    requires Ordered(log) && r.number > LastNumber(log)
    ensures Ordered(log + [r]) && forall i :: 0 <= i < |log| ==> log[i].number < r.number
  {
    assert LastNumber(log) >= 0;
  }
}
