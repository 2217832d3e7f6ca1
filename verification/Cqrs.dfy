/** The creator read model, kept up to date from the event log. */
module Cqrs {
  import opened Arith
  import opened Prelude
  import opened Events

  datatype ReadRow = ReadRow(username: string, wallet: string, tipCount: nat, registeredAt: int)

  type Model = map<Id, ReadRow>

  ghost predicate UsernameTaken(m: Model, username: string) { exists id :: id in m && m[id].username == username }

  /** One event. `None`: the statement failed, because another creator has the username. */
  ghost function SyncStep(m: Model, e: Event): Option<Model> {
    match e
    case CreatorRegistered(id, username, wallet, timestamp) =>
      if id in m then Some(m)
      else if UsernameTaken(m, username) then None
      else Some(m[id := ReadRow(username, wallet, 0, timestamp)])
    case TipReceived(_, creator, _, _) =>
      if creator in m then Some(m[creator := m[creator].(tipCount := m[creator].tipCount + 1)]) else Some(m)
  }

  /** The model after the events, or `None` once one of them failed. */
  ghost function SyncAll(m: Model, es: seq<Event>): Option<Model> {
    if |es| == 0 then Some(m) else
    var before := SyncAll(m, es[..|es| - 1]);
    if before.None? then None else SyncStep(before.value, es[|es| - 1])
  }

  /** The first event that fails is number `n`, and `stopped` is the model before it. */
  ghost predicate FailsAt(m: Model, es: seq<Event>, n: nat, stopped: Model) {
    n < |es| && SyncAll(m, es[..n]) == Some(stopped) && SyncAll(m, es[..n + 1]).None?
  }

  /** The model after the events, or after those before the first that fails. */
  ghost function Applied(m: Model, es: seq<Event>): Model {
    if |es| == 0 then m else
    var n := |es| - 1;
    var before := SyncAll(m, es[..n]);
    if before.None? then Applied(m, es[..n])
    else
      var next := SyncStep(before.value, es[n]);
      if next.None? then before.value else next.value
  }

  /** What the log holds from a number on. */
  function ReplayFrom(log: seq<Row>, from: int): seq<Event> { Select(log, None, from, None) }

  class CqrsProjection {
    var model: Model
    const events: EventStore

    constructor (events: EventStore)
      ensures model == map[] && this.events == events
    {
      model := map[];
      this.events := events;
    }

    /** A failed statement changes nothing. */
    method SyncEvent(e: Event) returns (ok: bool)
      modifies this
      ensures SyncStep(old(model), e) == if ok then Some(model) else None
      ensures !ok ==> model == old(model)
    {
      ok := true;
      match e
      case CreatorRegistered(id, username, wallet, timestamp) =>
        if id !in model {
          if exists other :: other in model && model[other].username == username {
            return false;
          }
          model := model[id := ReadRow(username, wallet, 0, timestamp)];
        }
      case TipReceived(_, creator, _, _) =>
        if creator in model {
          model := model[creator := model[creator].(tipCount := model[creator].tipCount + 1)];
        }
    }

    /** Applies events in order and stops at the first that fails, keeping what came before it. */
    method SyncEvents(es: seq<Event>) returns (processed: nat, ok: bool)
      modifies this
      ensures processed <= |es| && SyncAll(old(model), es[..processed]) == Some(model)
      ensures ok <==> SyncAll(old(model), es).Some?
      ensures ok ==> processed == |es| && SyncAll(old(model), es) == Some(model)
      ensures !ok ==> FailsAt(old(model), es, processed, model)
      ensures model == Applied(old(model), es)
    {
      processed, ok := 0, true;
      while processed < |es|
        invariant processed <= |es| && SyncAll(old(model), es[..processed]) == Some(model)
      {
        assert es[..processed + 1][..processed] == es[..processed];
        ok := SyncEvent(es[processed]);
        if !ok {
          FailureIsFinal(old(model), es, processed + 1);
          AppliedToFailure(old(model), es, processed, model);
          return;
        }
        processed := processed + 1;
      }
      assert es[..|es|] == es;
      AppliedToAll(old(model), es);
    }

    method Rebuild() returns (ok: bool)
      modifies this
      ensures ok <==> SyncAll(map[], ReplayFrom(events.log, 0)).Some?
      ensures ok ==> Some(model) == SyncAll(map[], ReplayFrom(events.log, 0))
      ensures model == Applied(map[], ReplayFrom(events.log, 0))
    {
      model := map[];
      var es := events.Query(None, 0, None);
      var processed;
      processed, ok := SyncEvents(es);
    }

    /** The number reported is counted from the events applied, not read from the log. */
    method SyncFromSequence(from: int) returns (to: int, ok: bool)
      modifies this
      ensures ok <==> SyncAll(old(model), ReplayFrom(events.log, from)).Some?
      ensures ok ==> Some(model) == SyncAll(old(model), ReplayFrom(events.log, from))
      ensures ok ==> to == from + |ReplayFrom(events.log, from)| - 1
      ensures model == Applied(old(model), ReplayFrom(events.log, from))
    {
      var es := events.Query(None, from, None);
      var processed;
      processed, ok := SyncEvents(es);
      to := if processed == 0 then from - 1 else from + processed - 1;
    }
  }

  lemma {:induction false} FailureIsFinal(m: Model, es: seq<Event>, n: nat)
    requires n <= |es| && SyncAll(m, es[..n]).None?
    ensures SyncAll(m, es).None?
    decreases |es|
  {
    if n < |es| {
      assert es[..|es| - 1][..n] == es[..n];
      FailureIsFinal(m, es[..|es| - 1], n);
    } else {
      assert es[..n] == es;
    }
  }

  class CqrsSynchronizer {
    const projection: CqrsProjection
    var lastSequence: int

    constructor (projection: CqrsProjection)
      ensures this.projection == projection && lastSequence == 0
    {
      this.projection := projection;
      lastSequence := 0;
    }

    method SyncOnce() returns (ok: bool)
      modifies this, projection
      ensures var es := ReplayFrom(projection.events.log, old(lastSequence) + 1);
              && (ok <==> SyncAll(old(projection.model), es).Some?)
              && projection.model == Applied(old(projection.model), es)
              && lastSequence == PositionAfterCall(old(lastSequence), es, ok)
    {
      var from := lastSequence;
      var to;
      to, ok := projection.SyncFromSequence(from + 1);
      if ok && to > 0 {
        lastSequence := to;
      }
    }

    /** Up to `maxAttempts` calls, at least one, until one succeeds. If the first does not, none does. */
    method SyncWithRetry(maxAttempts: nat) returns (ok: bool, attempts: nat)
      modifies this, projection
      ensures var es := ReplayFrom(projection.events.log, old(lastSequence) + 1);
              && (ok <==> SyncAll(old(projection.model), es).Some?)
              && attempts == (if ok then 1 else Max(maxAttempts, 1))
              && projection.model == Repeated(old(projection.model), es, attempts)
              && lastSequence == PositionAfterCall(old(lastSequence), es, ok)
    {
      ghost var m, last, es := projection.model, lastSequence, ReplayFrom(projection.events.log, lastSequence + 1);
      ok := SyncOnce();
      attempts := 1;
      while !ok && attempts < maxAttempts
        invariant 1 <= attempts <= Max(maxAttempts, 1) && (ok ==> attempts == 1)
        invariant es == ReplayFrom(projection.events.log, last + 1)
        invariant ok <==> SyncAll(m, es).Some?
        invariant projection.model == Repeated(m, es, attempts)
        invariant lastSequence == PositionAfterCall(last, es, ok)
        decreases !ok, maxAttempts - attempts
      {
        RepeatedFails(m, es, attempts);
        attempts := attempts + 1;
        ok := SyncOnce();
      }
    }
  }

  /** The model after a number of calls on the same events. */
  ghost function Repeated(m: Model, es: seq<Event>, times: nat): Model {
    if times == 0 then m else Applied(Repeated(m, es, times - 1), es)
  }

  lemma {:induction false} AppliedToAll(m: Model, es: seq<Event>)
    requires SyncAll(m, es).Some?
    ensures Applied(m, es) == SyncAll(m, es).value
  {
  }

  lemma {:induction false} AppliedToFailure(m: Model, es: seq<Event>, n: nat, stopped: Model)
    requires FailsAt(m, es, n, stopped)
    ensures Applied(m, es) == stopped
    decreases |es|
  {
    var before := es[..|es| - 1];
    if n == |before| {
      assert es[..n + 1] == es;
    } else {
      assert before[..n] == es[..n] && before[..n + 1] == es[..n + 1];
      FailureIsFinal(m, before, n + 1);
      AppliedToFailure(m, before, n, stopped);
    }
  }

  /** Where a batch fails. */
  lemma {:induction false} FindFailure(m: Model, es: seq<Event>) returns (n: nat)
    requires SyncAll(m, es).None?
    ensures FailsAt(m, es, n, Applied(m, es))
  {
    var before := es[..|es| - 1];
    if SyncAll(m, before).None? {
      n := FindFailure(m, before);
      assert before[..n] == es[..n] && before[..n + 1] == es[..n + 1];
    } else {
      n := |before|;
      assert es[..n + 1] == es;
    }
  }

  /** The position after a call: that of the events applied, counted, or the old one after a failure. */
  function PositionAfterCall(last: int, es: seq<Event>, ok: bool): int {
    if ok && last + |es| > 0 then last + |es| else last
  }

  /** A successful `sync_once`. */
  ghost function SyncOnceStep(m: Model, last: int, log: seq<Row>): (Model, int)
    requires SyncAll(m, ReplayFrom(log, last + 1)).Some?
  {
    var es := ReplayFrom(log, last + 1);
    (SyncAll(m, es).value, PositionAfterCall(last, es, true))
  }

  // ---- When a batch succeeds ----

  /** Event `i` is the first registration of its creator. */
  ghost predicate FirstOfCreator(es: seq<Event>, i: nat)
    requires i < |es|
  {
    es[i].CreatorRegistered? && forall j :: 0 <= j < i && es[j].CreatorRegistered? ==> es[j].id != es[i].id
  }

  /** No two creators register first under one username. */
  ghost predicate ClashFree(es: seq<Event>) {
    forall i, j :: 0 <= i < j < |es| && FirstOfCreator(es, i) && FirstOfCreator(es, j) ==>
                     es[i].username != es[j].username
  }

  /** Event `i` is the first registration of a creator under a username. */
  ghost predicate FirstAs(es: seq<Event>, i: nat, id: Id, username: string)
    requires i < |es|
  {
    FirstOfCreator(es, i) && es[i].id == id && es[i].username == username
  }

  /** Each row is that of a first registration, and every first registration has its row. */
  ghost predicate RowsOfFirsts(m: Model, es: seq<Event>) {
    && (forall id :: id in m ==>
                       exists i :: 0 <= i < |es| && FirstAs(es, i, id, m[id].username))
    && (forall i :: 0 <= i < |es| && FirstOfCreator(es, i) ==> es[i].id in m && m[es[i].id].username == es[i].username)
  }

  lemma {:induction false} FirstsOfPrefix(es: seq<Event>, n: nat, i: nat)
    requires i < n <= |es|
    ensures FirstOfCreator(es[..n], i) <==> FirstOfCreator(es, i)
  {
  }

  /** What one more event does to rows of first registrations. */
  lemma {:induction false} RowsOfFirstsStep(m: Model, es: seq<Event>, next: Model)
    requires |es| > 0 && RowsOfFirsts(m, es[..|es| - 1]) && SyncStep(m, es[|es| - 1]) == Some(next)
    ensures RowsOfFirsts(next, es)
  {
    var n, before := |es| - 1, es[..|es| - 1];
    forall i | 0 <= i < n
      ensures FirstOfCreator(before, i) <==> FirstOfCreator(es, i)
    {
      FirstsOfPrefix(es, n, i);
    }
    KnownIffRegistered(m, es);
    forall id | id in next
      ensures exists i :: 0 <= i < |es| && FirstAs(es, i, id, next[id].username)
    {
      if id in m {
        var i :| 0 <= i < |before| && FirstAs(before, i, id, m[id].username);
        assert FirstAs(es, i, id, next[id].username);
      } else {
        assert FirstAs(es, n, id, next[id].username);
      }
    }
  }

  /** The last event is a first registration exactly if its creator has no row yet. */
  lemma {:induction false} KnownIffRegistered(m: Model, es: seq<Event>)
    requires |es| > 0 && RowsOfFirsts(m, es[..|es| - 1])
    ensures es[|es| - 1].CreatorRegistered? ==> (FirstOfCreator(es, |es| - 1) <==> es[|es| - 1].id !in m)
  {
    var n, before := |es| - 1, es[..|es| - 1];
    if es[n].CreatorRegistered? && es[n].id !in m {
      forall j | 0 <= j < n && es[j].CreatorRegistered?
        ensures es[j].id != es[n].id
      {
        var first := FindFirst(before, j);
        assert before[first].id == es[j].id;
      }
    }
    if es[n].CreatorRegistered? && es[n].id in m {
      var i :| 0 <= i < |before| && FirstAs(before, i, es[n].id, m[es[n].id].username);
      assert es[i] == before[i];
    }
  }

  lemma {:induction false} FindFirst(es: seq<Event>, j: nat) returns (i: nat)
    requires j < |es| && es[j].CreatorRegistered?
    ensures i <= j && FirstOfCreator(es, i) && es[i].id == es[j].id
  {
    i := j;
    if !FirstOfCreator(es, j) {
      var k :| 0 <= k < j && es[k].CreatorRegistered? && es[k].id == es[j].id;
      i := FindFirst(es, k);
    }
  }

  /** Applied to an empty table, events succeed exactly if no two creators register first under one username;
      repeated registrations and tips to unknown creators never fail. */
  lemma {:induction false} SyncSucceedsIff(es: seq<Event>)
    ensures SyncAll(map[], es).Some? <==> ClashFree(es)
    ensures SyncAll(map[], es).Some? ==> RowsOfFirsts(SyncAll(map[], es).value, es)
  {
    if |es| > 0 {
      var n, before := |es| - 1, es[..|es| - 1];
      SyncSucceedsIff(before);
      ClashFreeStep(es);
      if SyncAll(map[], before).Some? {
        var m := SyncAll(map[], before).value;
        KnownIffRegistered(m, es);
        LastClashes(m, es);
        if SyncAll(map[], es).Some? {
          RowsOfFirstsStep(m, es, SyncAll(map[], es).value);
        }
      }
    }
  }

  ghost predicate LastClashFree(es: seq<Event>)
    requires |es| > 0
  {
    FirstOfCreator(es, |es| - 1) ==>
      forall i :: 0 <= i < |es| - 1 && FirstOfCreator(es[..|es| - 1], i) ==> es[i].username != es[|es| - 1].username
  }

  lemma {:induction false} ClashFreeStep(es: seq<Event>)
    requires |es| > 0
    ensures ClashFree(es) <==> ClashFree(es[..|es| - 1]) && LastClashFree(es)
  {
    var n := |es| - 1;
    forall i | 0 <= i < n
      ensures FirstOfCreator(es[..n], i) <==> FirstOfCreator(es, i)
    {
      FirstsOfPrefix(es, n, i);
    }
    if ClashFree(es) {
      forall i, j | 0 <= i < j < n && FirstOfCreator(es[..n], i) && FirstOfCreator(es[..n], j)
        ensures es[..n][i].username != es[..n][j].username
      {
        assert FirstOfCreator(es, i) && FirstOfCreator(es, j);
      }
    }
    if ClashFree(es[..n]) && LastClashFree(es) {
      forall i, j | 0 <= i < j < |es| && FirstOfCreator(es, i) && FirstOfCreator(es, j)
        ensures es[i].username != es[j].username
      {
        assert FirstOfCreator(es[..n], i);
        if j < n {
          assert FirstOfCreator(es[..n], j);
          assert es[..n][i].username != es[..n][j].username;
        }
      }
    }
  }

  lemma {:induction false} LastClashes(m: Model, es: seq<Event>)
    requires |es| > 0 && RowsOfFirsts(m, es[..|es| - 1])
    ensures SyncStep(m, es[|es| - 1]).Some? <==> LastClashFree(es)
  {
    var n, before := |es| - 1, es[..|es| - 1];
    KnownIffRegistered(m, es);
    if FirstOfCreator(es, n) {
      if UsernameTaken(m, es[n].username) {
        var id :| id in m && m[id].username == es[n].username;
        var i :| 0 <= i < |before| && FirstAs(before, i, id, m[id].username);
        assert es[i].username == es[n].username;
      }
      if !LastClashFree(es) {
        var i :| 0 <= i < n && FirstOfCreator(before, i) && es[i].username == es[n].username;
        assert before[i].id in m && m[before[i].id].username == es[n].username;
      }
    }
  }

  // ---- Each event exactly once ----

  /** Numbered 1, 2, 3, ... and fully decodable. */
  ghost predicate GapFree(log: seq<Row>) {
    forall i :: 0 <= i < |log| ==> log[i].number == i + 1 && log[i].event.Some?
  }

  function EventsOf(log: seq<Row>): seq<Event>
    requires forall i :: 0 <= i < |log| ==> log[i].event.Some?
  {
    seq(|log|, i requires 0 <= i < |log| => log[i].event.value)
  }

  lemma {:induction false} ReplayOfGapFree(log: seq<Row>, from: nat)
    requires GapFree(log) && 1 <= from <= |log| + 1
    ensures ReplayFrom(log, from) == EventsOf(log)[from - 1..]
  {
    if |log| > 0 {
      var before := log[..|log| - 1];
      assert EventsOf(before) == EventsOf(log)[..|log| - 1];
      if from <= |log| {
        ReplayOfGapFree(before, from);
      } else {
        assert Ordered(log);
        NothingAfter(log, None, from, None);
      }
    }
  }

  lemma {:induction false} RebuildOfGapFree(log: seq<Row>)
    requires GapFree(log)
    ensures ReplayFrom(log, 0) == EventsOf(log)
  {
    ReplayOfGapFree(log, 1);
    StartsAtOne(log);
  }

  lemma {:induction false} StartsAtOne(log: seq<Row>)
    requires GapFree(log)
    ensures ReplayFrom(log, 0) == ReplayFrom(log, 1)
  {
    if |log| > 0 {
      StartsAtOne(log[..|log| - 1]);
    }
  }

  lemma {:induction false} SyncAllConcat(m: Model, a: seq<Event>, b: seq<Event>)
    ensures SyncAll(m, a + b) == if SyncAll(m, a).None? then None else SyncAll(SyncAll(m, a).value, b)
  {
    if |b| == 0 {
      assert a + b == a;
    } else {
      SyncAllConcat(m, a, b[..|b| - 1]);
      assert (a + b)[..|a + b| - 1] == a + b[..|b| - 1];
    }
  }

  /** A run of appends and successful `sync_once` calls. */
  datatype Action = Append(row: Row) | Sync

  datatype Synced = Synced(log: seq<Row>, model: Model, last: int)

  ghost predicate Runs(actions: seq<Action>)
    decreases |actions|, 0
  {
    |actions| > 0 ==>
      var before, a := actions[..|actions| - 1], actions[|actions| - 1];
      && Runs(before)
      && match a
         case Append(row) => row.number == |After(before).log| + 1 && row.event.Some?
         case Sync => SyncAll(After(before).model, ReplayFrom(After(before).log, After(before).last + 1)).Some?
  }

  ghost function After(actions: seq<Action>): Synced
    requires Runs(actions)
    decreases |actions|, 1
  {
    if |actions| == 0 then Synced([], map[], 0) else
    var st := After(actions[..|actions| - 1]);
    match actions[|actions| - 1]
    case Append(row) => st.(log := st.log + [row])
    case Sync =>
      var (model, last) := SyncOnceStep(st.model, st.last, st.log);
      Synced(st.log, model, last)
  }

  /** The model is that of the first `last` events, each applied once. */
  ghost predicate UpToDate(st: Synced) {
    && GapFree(st.log) && 0 <= st.last <= |st.log|
    && SyncAll(map[], EventsOf(st.log)[..st.last]) == Some(st.model)
  }

  lemma {:induction false} SyncKeepsUpToDate(st: Synced)
    requires UpToDate(st) && SyncAll(st.model, ReplayFrom(st.log, st.last + 1)).Some?
    ensures var (model, last) := SyncOnceStep(st.model, st.last, st.log);
            && last == |st.log| && UpToDate(Synced(st.log, model, last))
            && SyncAll(map[], ReplayFrom(st.log, 0)) == Some(model)
  {
    var all, rest := EventsOf(st.log), ReplayFrom(st.log, st.last + 1);
    ReplayOfGapFree(st.log, st.last + 1);
    RebuildOfGapFree(st.log);
    assert |rest| == |st.log| - st.last;
    SyncAllSplit(all, st.last);
    assert all[..|st.log|] == all;
  }

  lemma {:induction false} SyncAllSplit(es: seq<Event>, n: nat)
    requires n <= |es| && SyncAll(map[], es[..n]).Some?
    ensures SyncAll(map[], es) == SyncAll(SyncAll(map[], es[..n]).value, es[n..])
  {
    SyncAllConcat(map[], es[..n], es[n..]);
    assert es[..n] + es[n..] == es;
  }

  lemma {:induction false} UpToDateAfter(actions: seq<Action>)
    requires Runs(actions)
    ensures UpToDate(After(actions))
  {
    if |actions| > 0 {
      var st := After(actions[..|actions| - 1]);
      UpToDateAfter(actions[..|actions| - 1]);
      match actions[|actions| - 1]
      case Append(row) =>
        var log := st.log + [row];
        assert EventsOf(log)[..st.last] == EventsOf(st.log)[..st.last];
      case Sync =>
        SyncKeepsUpToDate(st);
    }
  }

  /** The rows that the run appends. */
  function Appended(actions: seq<Action>): seq<Row> {
    if |actions| == 0 then [] else
    var before, a := Appended(actions[..|actions| - 1]), actions[|actions| - 1];
    if a.Append? then before + [a.row] else before
  }

  lemma {:induction false} LogIsAppended(actions: seq<Action>)
    requires Runs(actions)
    ensures After(actions).log == Appended(actions)
  {
    if |actions| > 0 {
      LogIsAppended(actions[..|actions| - 1]);
    }
  }

  /** On a gap-free, decodable log, whatever the schedule: each event was applied exactly once, and after
      a `sync_once` the read model is the one that a rebuild gives. */
  lemma {:induction false} IncrementalEqualsRebuild(actions: seq<Action>)
    requires Runs(actions)
    ensures var st := After(actions);
            && st.log == Appended(actions) && GapFree(st.log) && 0 <= st.last <= |st.log|
            && SyncAll(map[], EventsOf(st.log)[..st.last]) == Some(st.model)
            && (|actions| > 0 && actions[|actions| - 1].Sync? ==>
                  st.last == |st.log| && SyncAll(map[], ReplayFrom(st.log, 0)) == Some(st.model))
  {
    UpToDateAfter(actions);
    LogIsAppended(actions);
    if |actions| > 0 && actions[|actions| - 1].Sync? {
      UpToDateAfter(actions[..|actions| - 1]);
      SyncKeepsUpToDate(After(actions[..|actions| - 1]));
    }
  }

  // ---- When numbers are missing ----

  /** The numbers of the decodable rows from `from` on. */
  function Numbers(log: seq<Row>, from: int): seq<int> {
    if |log| == 0 then [] else
    var before, r := Numbers(log[..|log| - 1], from), log[|log| - 1];
    if r.number >= from && r.event.Some? then before + [r.number] else before
  }

  lemma {:induction false} NumbersGrow(log: seq<Row>, from: int)
    requires Ordered(log)
    ensures var ns := Numbers(log, from);
            && |ns| == |ReplayFrom(log, from)|
            && (forall i, j :: 0 <= i < j < |ns| ==> ns[i] < ns[j])
            && (forall i :: 0 <= i < |ns| ==> from <= ns[i] <= LastNumber(log))
  {
    if |log| > 0 {
      NumbersGrow(log[..|log| - 1], from);
    }
  }

  ghost predicate AllBelow(ns: seq<int>, to: int) { forall i :: 0 <= i < |ns| ==> ns[i] < to }

  lemma {:induction false} AllBelowAdds(ns: seq<int>, n: int, to: int)
    ensures AllBelow(ns + [n], to) <==> AllBelow(ns, to) && n < to
  {
    var all := ns + [n];
    if AllBelow(all, to) {
      assert all[|ns|] == n;
      forall i | 0 <= i < |ns|
        ensures ns[i] < to
      {
        assert all[i] == ns[i];
      }
    }
  }

  lemma {:induction false} NothingBeyond(log: seq<Row>, from: int, to: int)
    requires Ordered(log) && from <= to
    ensures ReplayFrom(log, to) == [] <==> AllBelow(Numbers(log, from), to)
  {
    if |log| > 0 {
      var r, before := log[|log| - 1], log[..|log| - 1];
      NothingBeyond(before, from, to);
      if r.number >= from && r.event.Some? {
        AllBelowAdds(Numbers(before, from), r.number, to);
        assert Numbers(log, from) == Numbers(before, from) + [r.number];
      }
    }
  }

  ghost predicate Consecutive(ns: seq<int>, from: int) { forall i :: 0 <= i < |ns| ==> ns[i] == from + i }

  lemma {:induction false} GrowsAtLeast(ns: seq<int>, i: nat, j: nat)
    requires i <= j < |ns| && forall a, b :: 0 <= a < b < |ns| ==> ns[a] < ns[b]
    ensures ns[j] - ns[i] >= j - i
  {
    if i < j {
      GrowsAtLeast(ns, i, j - 1);
    }
  }

  /** Right after a successful `sync_once` a second one finds nothing to apply exactly when the decodable
      rows that the first one applied are numbered without a gap; otherwise it applies some row again. */
  lemma {:induction false} SecondSyncIdleIff(log: seq<Row>, m: Model, last: nat)
    requires Ordered(log) && SyncAll(m, ReplayFrom(log, last + 1)).Some?
    ensures var next := SyncOnceStep(m, last, log).1;
            && next == last + |Numbers(log, last + 1)|
            && (ReplayFrom(log, next + 1) == [] <==> Consecutive(Numbers(log, last + 1), last + 1))
  {
    var ns, next := Numbers(log, last + 1), SyncOnceStep(m, last, log).1;
    NumbersGrow(log, last + 1);
    NothingBeyond(log, last + 1, next + 1);
    if |ns| > 0 {
      forall i | 0 <= i < |ns|
        ensures ns[i] >= last + 1 + i && ns[|ns| - 1] - ns[i] >= |ns| - 1 - i
      {
        GrowsAtLeast(ns, 0, i);
        GrowsAtLeast(ns, i, |ns| - 1);
      }
    }
  }

  // ---- Nothing is skipped ----

  /** The decodable rows from a number on. */
  function Decodable(log: seq<Row>, from: int): seq<Row> {
    if |log| == 0 then [] else
    var before, r := Decodable(log[..|log| - 1], from), log[|log| - 1];
    if r.number >= from && r.event.Some? then before + [r] else before
  }

  lemma {:induction false} DecodableRows(log: seq<Row>, from: int)
    ensures var rows := Decodable(log, from);
            && (forall i :: 0 <= i < |rows| ==> rows[i].event.Some?)
            && ReplayFrom(log, from) == EventsOf(rows) && |Numbers(log, from)| == |rows|
    ensures forall r :: r in Decodable(log, from) <==> r in log && r.number >= from && r.event.Some?
  {
    if |log| > 0 {
      var before, r := log[..|log| - 1], log[|log| - 1];
      DecodableRows(before, from);
      assert log == before + [r];
      if r.number >= from && r.event.Some? {
        assert EventsOf(Decodable(before, from) + [r]) == EventsOf(Decodable(before, from)) + [r.event.value];
      }
    }
  }

  /** A write to the log, or a `sync_once` that applies `processed` events: all of its batch, or those before
      the first that fails. */
  datatype Move = Write(row: Row) | Call(processed: nat)

  /** `applied` lists the rows in the order in which their events were applied. */
  datatype Progress = Progress(log: seq<Row>, model: Model, last: int, applied: seq<Row>)

  ghost predicate Possible(st: Progress, move: Move) {
    match move
    case Write(row) => row.number > LastNumber(st.log)
    case Call(processed) =>
      var es := ReplayFrom(st.log, st.last + 1);
      if Succeeds(st) then processed == |es| else exists stopped :: FailsAt(st.model, es, processed, stopped)
  }

  ghost predicate Succeeds(st: Progress) { SyncAll(st.model, ReplayFrom(st.log, st.last + 1)).Some? }

  /** The position moves as in `SyncOnceStep` after a success, and stays after a failure. */
  ghost function Moved(st: Progress, move: Move): Progress {
    match move
    case Write(row) => st.(log := st.log + [row])
    case Call(processed) =>
      var es, rows := ReplayFrom(st.log, st.last + 1), Decodable(st.log, st.last + 1);
      var model := SyncAll(st.model, es[..Min(processed, |es|)]);
      Progress(st.log, if model.Some? then model.value else st.model,
               if Succeeds(st) then SyncOnceStep(st.model, st.last, st.log).1 else st.last,
               st.applied + rows[..Min(processed, |rows|)])
  }

  ghost predicate Moves(moves: seq<Move>)
    decreases |moves|, 0
  {
    |moves| > 0 ==>
      Moves(moves[..|moves| - 1]) && Possible(AfterMoves(moves[..|moves| - 1]), moves[|moves| - 1])
  }

  ghost function AfterMoves(moves: seq<Move>): Progress
    requires Moves(moves)
    decreases |moves|, 1
  {
    if |moves| == 0 then Progress([], map[], 0, []) else Moved(AfterMoves(moves[..|moves| - 1]), moves[|moves| - 1])
  }

  ghost predicate AllDecodable(rows: seq<Row>) { forall i :: 0 <= i < |rows| ==> rows[i].event.Some? }

  /** The model is that of the rows applied, in that order, and they are rows of the log; among them is every
      decodable row up to the position. */
  ghost predicate NoneSkipped(st: Progress) {
    && Ordered(st.log) && 0 <= st.last <= LastNumber(st.log)
    && AllDecodable(st.applied) && SyncAll(map[], EventsOf(st.applied)) == Some(st.model)
    && (forall r :: r in st.applied ==> r in st.log)
    && (forall r :: r in st.log && r.event.Some? && r.number <= st.last ==> r in st.applied)
  }

  /** The position never gets ahead of the numbers. */
  lemma {:induction false} PositionIsBehind(log: seq<Row>, last: int)
    requires Ordered(log) && 0 <= last <= LastNumber(log)
    ensures last + |Numbers(log, last + 1)| <= LastNumber(log)
  {
    var ns := Numbers(log, last + 1);
    NumbersGrow(log, last + 1);
    if |ns| > 0 {
      GrowsAtLeast(ns, 0, |ns| - 1);
    }
  }

  lemma {:induction false} WriteSkipsNone(st: Progress, row: Row)
    requires NoneSkipped(st) && row.number > LastNumber(st.log)
    ensures NoneSkipped(st.(log := st.log + [row]))
  {
    var log := st.log + [row];
    assert LastNumber(log) == row.number;
    assert row.number >= 1;
  }

  lemma {:induction false} AppliedAdds(m: Model, applied: seq<Row>, rows: seq<Row>, n: nat)
    requires AllDecodable(applied) && AllDecodable(rows) && n <= |rows|
    requires SyncAll(map[], EventsOf(applied)) == Some(m)
    ensures AllDecodable(applied + rows[..n])
    ensures SyncAll(map[], EventsOf(applied + rows[..n])) == SyncAll(m, EventsOf(rows)[..n])
  {
    assert EventsOf(applied + rows[..n]) == EventsOf(applied) + EventsOf(rows)[..n];
    SyncAllConcat(map[], EventsOf(applied), EventsOf(rows)[..n]);
  }

  /** What one call leaves applied. */
  lemma {:induction false} CallApplies(st: Progress, processed: nat)
    requires NoneSkipped(st) && Possible(st, Call(processed))
    ensures var next, rows := Moved(st, Call(processed)), Decodable(st.log, st.last + 1);
            && processed <= |rows| && next.applied == st.applied + rows[..processed]
            && AllDecodable(next.applied) && SyncAll(map[], EventsOf(next.applied)) == Some(next.model)
            && (Succeeds(st) ==> processed == |rows|) && (!Succeeds(st) ==> next.last == st.last)
  {
    var rows, es := Decodable(st.log, st.last + 1), ReplayFrom(st.log, st.last + 1);
    DecodableRows(st.log, st.last + 1);
    AppliedAdds(st.model, st.applied, rows, processed);
    assert es[..|es|] == es;
  }

  lemma {:induction false} PositionAfter(st: Progress, processed: nat)
    requires Ordered(st.log) && 0 <= st.last <= LastNumber(st.log)
    ensures 0 <= Moved(st, Call(processed)).last <= LastNumber(st.log)
  {
    PositionIsBehind(st.log, st.last);
    DecodableRows(st.log, st.last + 1);
  }

  /** The applied rows with the first `n` or all of those that come after the position. */
  lemma {:induction false} RowsAfter(log: seq<Row>, applied: seq<Row>, last: int, n: nat, next: seq<Row>)
    requires forall r :: r in applied ==> r in log
    requires forall r :: r in log && r.event.Some? && r.number <= last ==> r in applied
    requires n <= |Decodable(log, last + 1)| && next == applied + Decodable(log, last + 1)[..n]
    ensures forall r :: r in next ==> r in log
    ensures forall r :: r in log && r.event.Some? && r.number <= last ==> r in next
    ensures n == |Decodable(log, last + 1)| ==> forall r :: r in log && r.event.Some? ==> r in next
  {
    var rows := Decodable(log, last + 1);
    DecodableRows(log, last + 1);
    assert forall r :: r in next ==> r in applied || r in rows;
    assert n == |rows| ==> rows[..n] == rows;
  }

  lemma {:induction false} CallSkipsNone(st: Progress, processed: nat)
    requires NoneSkipped(st) && Possible(st, Call(processed))
    ensures NoneSkipped(Moved(st, Call(processed)))
    ensures Succeeds(st) ==> forall r :: r in st.log && r.event.Some? ==> r in Moved(st, Call(processed)).applied
  {
    CallApplies(st, processed);
    PositionAfter(st, processed);
    RowsAfter(st.log, st.applied, st.last, processed, Moved(st, Call(processed)).applied);
  }

  /** The rows that the run writes. */
  function Written(moves: seq<Move>): seq<Row> {
    if |moves| == 0 then [] else
    var before, move := Written(moves[..|moves| - 1]), moves[|moves| - 1];
    if move.Write? then before + [move.row] else before
  }

  lemma {:induction false} LogIsWritten(moves: seq<Move>)
    requires Moves(moves)
    ensures AfterMoves(moves).log == Written(moves)
  {
    if |moves| > 0 {
      LogIsWritten(moves[..|moves| - 1]);
    }
  }

  /** A successful call moves the position by as many numbers as it applied events, a failed one not at all. */
  lemma {:induction false} CallMoves(st: Progress, processed: nat)
    requires Possible(st, Call(processed)) && 0 <= st.last
    ensures Moved(st, Call(processed)).last == if Succeeds(st) then st.last + processed else st.last
    ensures Succeeds(st) ==> processed == |Decodable(st.log, st.last + 1)|
  {
    DecodableRows(st.log, st.last + 1);
  }

  /** Whatever the numbers, gaps and undecodable rows, under every schedule of writes, successful and failed
      calls: the position never passes the last number, every decodable row up to it has been applied, and
      right after a successful call so has every decodable row of the log. */
  lemma {:induction false} NothingIsSkipped(moves: seq<Move>)
    requires Moves(moves)
    ensures NoneSkipped(AfterMoves(moves)) && AfterMoves(moves).log == Written(moves)
    ensures |moves| > 0 && moves[|moves| - 1].Call? ==>
              var before := AfterMoves(moves[..|moves| - 1]);
              Succeeds(before) ==>
                forall r :: r in before.log && r.event.Some? ==> r in AfterMoves(moves).applied
  {
    LogIsWritten(moves);
    if |moves| > 0 {
      var st := AfterMoves(moves[..|moves| - 1]);
      NothingIsSkipped(moves[..|moves| - 1]);
      match moves[|moves| - 1]
      case Write(row) => WriteSkipsNone(st, row);
      case Call(processed) => CallSkipsNone(st, processed);
    }
  }

  // ---- When a batch fails ----

  /** Every row of the model with its own tips among the events counted `times` times more. */
  function Recount(m: Model, es: seq<Event>, times: nat): Model {
    map a | a in m :: m[a].(tipCount := m[a].tipCount + times * Tips(Of(es, a)))
  }

  lemma {:induction false} RecountNothing(m: Model, es: seq<Event>)
    ensures Recount(m, es, 0) == m
  {
  }

  lemma {:induction false} RecountOnce(m: Model, es: seq<Event>, times: nat)
    ensures Recount(Recount(m, es, times), es, 1) == Recount(m, es, times + 1)
  {
    forall a | a in m
      ensures (times + 1) * Tips(Of(es, a)) == times * Tips(Of(es, a)) + Tips(Of(es, a))
    {
      MulNext(times, Tips(Of(es, a)));
    }
  }

  /** A row exists for whoever had one and for whoever registered. */
  lemma {:induction false} KeysAfter(m: Model, es: seq<Event>, a: Id)
    requires SyncAll(m, es).Some?
    ensures a in SyncAll(m, es).value <==> a in m || FirstRegistration(Of(es, a)).Some?
  {
    if |es| > 0 {
      var before, e := es[..|es| - 1], es[|es| - 1];
      KeysAfter(m, before, a);
      if e.Aggregate() == a {
        assert (Of(before, a) + [e])[..|Of(before, a)|] == Of(before, a);
      }
    }
  }

  ghost predicate AllKnown(m: Model, es: seq<Event>) {
    forall i :: 0 <= i < |es| && es[i].CreatorRegistered? ==> es[i].id in m
  }

  lemma {:induction false} RegisteredAreKnown(m: Model, es: seq<Event>)
    requires SyncAll(m, es).Some?
    ensures m.Keys <= SyncAll(m, es).value.Keys && AllKnown(SyncAll(m, es).value, es)
  {
    if |es| > 0 {
      RegisteredAreKnown(m, es[..|es| - 1]);
    }
  }

  lemma {:induction false} TipsOfLast(es: seq<Event>, a: Id)
    requires |es| > 0
    ensures var e := es[|es| - 1];
            Tips(Of(es, a)) == Tips(Of(es[..|es| - 1], a)) + if e.TipReceived? && e.creator == a then 1 else 0
  {
    var before, e := Of(es[..|es| - 1], a), es[|es| - 1];
    if e.Aggregate() == a {
      assert (before + [e])[..|before|] == before;
    }
  }

  lemma {:induction false} RecountStep(m: Model, es: seq<Event>)
    requires |es| > 0 && AllKnown(m, es)
    ensures SyncStep(Recount(m, es[..|es| - 1], 1), es[|es| - 1]) == Some(Recount(m, es, 1))
  {
    var before, now, e := Recount(m, es[..|es| - 1], 1), Recount(m, es, 1), es[|es| - 1];
    forall a | a in m
      ensures now[a] == if e.TipReceived? && e.creator == a
                        then before[a].(tipCount := before[a].tipCount + 1) else before[a]
    {
      TipsOfLast(es, a);
    }
    if e.TipReceived? && e.creator in m {
      assert before[e.creator := now[e.creator]] == now;
    } else {
      assert before == now;
    }
  }

  /** Over a model that knows everyone who registers, only the tips count, and they count in full. */
  lemma {:induction false} ReapplyCountsTips(m: Model, es: seq<Event>)
    requires AllKnown(m, es)
    ensures SyncAll(m, es) == Some(Recount(m, es, 1))
  {
    if |es| == 0 {
      assert Recount(m, es, 1) == m;
    } else {
      ReapplyCountsTips(m, es[..|es| - 1]);
      RecountStep(m, es);
    }
  }

  /** Counting tips changes neither who has a row nor which usernames are taken. */
  lemma {:induction false} SameClash(m: Model, es: seq<Event>, times: nat, e: Event)
    ensures SyncStep(Recount(m, es, times), e).None? <==> SyncStep(m, e).None?
  {
    var again := Recount(m, es, times);
    if e.CreatorRegistered? && e.id !in m {
      forall id | id in m
        ensures again[id].username == m[id].username
      {
      }
      if UsernameTaken(m, e.username) {
        var id :| id in m && m[id].username == e.username;
        assert again[id].username == e.username;
      }
    }
  }

  /** After a failure at event `n` and any number of retries, the next retry applies the events before `n`
      once more and fails at `n` again, even if the log has grown. */
  lemma {:induction false} FailedRetry(m: Model, es: seq<Event>, n: nat, stopped: Model, times: nat, more: seq<Event>)
    requires FailsAt(m, es, n, stopped)
    ensures FailsAt(Recount(stopped, es[..n], times), es + more, n, Recount(stopped, es[..n], times + 1))
  {
    var now, done, next := Recount(stopped, es[..n], times), es[..n], Recount(stopped, es[..n], times + 1);
    RegisteredAreKnown(m, done);
    assert AllKnown(now, done);
    ReapplyCountsTips(now, done);
    RecountOnce(stopped, done, times);
    assert SyncAll(now, done) == Some(next);
    SyncAllNext(m, es, n);
    assert (es + more)[..n] == done && (es + more)[n] == es[n];
    SyncAllNext(now, es + more, n);
    SameClash(stopped, done, times + 1, es[n]);
  }

  lemma {:induction false} SyncAllNext(m: Model, es: seq<Event>, n: nat)
    requires n < |es| && SyncAll(m, es[..n]).Some?
    ensures SyncAll(m, es[..n + 1]) == SyncStep(SyncAll(m, es[..n]).value, es[n])
  {
    assert es[..n + 1][..n] == es[..n];
  }

  /** A retry leaves the model as it was exactly when no tip among the events before the clash belongs to a
      creator who had a row or registered among them. */
  lemma {:induction false} RetryIsHarmlessIff(m: Model, es: seq<Event>, n: nat, stopped: Model, times: nat)
    requires FailsAt(m, es, n, stopped)
    ensures Recount(stopped, es[..n], times + 1) == Recount(stopped, es[..n], times)
       <==> forall a :: a in m || FirstRegistration(Of(es[..n], a)).Some? ==> Tips(Of(es[..n], a)) == 0
  {
    forall a
      ensures a in stopped <==> a in m || FirstRegistration(Of(es[..n], a)).Some?
    {
      KeysAfter(m, es[..n], a);
    }
    RecountMoves(stopped, es[..n], times);
  }

  lemma {:induction false} RecountMoves(m: Model, es: seq<Event>, times: nat)
    ensures Recount(m, es, times + 1) == Recount(m, es, times) <==> forall a :: a in m ==> Tips(Of(es, a)) == 0
  {
    var now, next := Recount(m, es, times), Recount(m, es, times + 1);
    forall a | a in m
      ensures next[a] == now[a] <==> Tips(Of(es, a)) == 0
    {
      MulNext(times, Tips(Of(es, a)));
    }
    assert next == now <==> forall a :: a in m ==> next[a] == now[a];
  }

  /** However often a failed batch is applied again, it fails again, and every call after the first has counted
      the tips before the clash once more. */
  lemma {:induction false} RepeatedIsRecount(m: Model, es: seq<Event>, n: nat, stopped: Model, times: nat)
    requires FailsAt(m, es, n, stopped)
    ensures FailsAt(Repeated(m, es, times), es, n, Recount(stopped, es[..n], times))
    ensures Repeated(m, es, times + 1) == Recount(stopped, es[..n], times)
  {
    if times == 0 {
      RecountNothing(stopped, es[..n]);
    } else {
      RepeatedIsRecount(m, es, n, stopped, times - 1);
      FailedRetry(m, es, n, stopped, times - 1, []);
      assert es + [] == es;
    }
    AppliedToFailure(Repeated(m, es, times), es, n, Recount(stopped, es[..n], times));
  }

  lemma {:induction false} RepeatedFails(m: Model, es: seq<Event>, times: nat)
    requires SyncAll(m, es).None?
    ensures SyncAll(Repeated(m, es, times), es).None?
  {
    var n := FindFailure(m, es);
    RepeatedIsRecount(m, es, n, Applied(m, es), times);
    FailureIsFinal(Repeated(m, es, times), es, n + 1);
  }

  lemma {:induction false} ReplayGrows(log: seq<Row>, more: seq<Row>, from: int)
    ensures ReplayFrom(log + more, from) == ReplayFrom(log, from) + ReplayFrom(more, from)
  {
    if |more| == 0 {
      assert log + more == log;
    } else {
      ReplayGrows(log, more[..|more| - 1], from);
      assert (log + more)[..|log + more| - 1] == log + more[..|more| - 1];
    }
  }

  /** Calls from one position while the log grows: `logs[k]` is the log at call `k`, `models[k]` the model
      before it. */
  ghost predicate Calls(last: int, logs: seq<seq<Row>>, models: seq<Model>) {
    && |models| == |logs| + 1
    && (forall k :: 0 <= k < |logs| ==> logs[0] <= logs[k])
    && forall k :: 0 <= k < |logs| ==> models[k + 1] == Applied(models[k], ReplayFrom(logs[k], last + 1))
  }

  /** Once a call has failed no later one succeeds, whatever is appended: each fails at the same event, and
      call `k` leaves every creator's tips before that event counted `k` times too often. */
  lemma {:induction false} RetriesNeverPass(last: int, logs: seq<seq<Row>>, models: seq<Model>, n: nat,
                                            stopped: Model, k: nat)
    requires Calls(last, logs, models) && k < |logs|
    requires FailsAt(models[0], ReplayFrom(logs[0], last + 1), n, stopped)
    ensures FailsAt(models[k], ReplayFrom(logs[k], last + 1), n, models[k + 1])
    ensures SyncAll(models[k], ReplayFrom(logs[k], last + 1)).None?
    ensures models[k + 1] == Recount(stopped, ReplayFrom(logs[0], last + 1)[..n], k)
  {
    var first, now := ReplayFrom(logs[0], last + 1), ReplayFrom(logs[k], last + 1);
    var more := ReplayFrom(logs[k][|logs[0]|..], last + 1);
    assert logs[k] == logs[0] + logs[k][|logs[0]|..];
    ReplayGrows(logs[0], logs[k][|logs[0]|..], last + 1);
    var next := Recount(stopped, first[..n], k);
    if k == 0 {
      RecountNothing(stopped, first[..n]);
    } else {
      RetriesNeverPass(last, logs, models, n, stopped, k - 1);
      FailedRetry(models[0], first, n, stopped, k - 1, more);
    }
    assert FailsAt(models[k], now, n, next);
    FailureIsFinal(models[k], now, n + 1);
    AppliedToFailure(models[k], now, n, next);
  }

  /** The smallest such case: after the retry the tip counts twice. */
  lemma {:induction false} FailedBatchIsReapplied()
    ensures var tip, clash := TipReceived(7, 1, "5", 20), CreatorRegistered(2, "ann", "GB", 30);
            var m: Model := map[1 := ReadRow("ann", "GA", 0, 10)];
            && SyncAll(m, [tip, clash]).None?
            && SyncAll(m, [tip]) == Some(map[1 := ReadRow("ann", "GA", 1, 10)])
            && SyncAll(SyncAll(m, [tip]).value, [tip]) == Some(map[1 := ReadRow("ann", "GA", 2, 10)])
  {
    var tip, clash := TipReceived(7, 1, "5", 20), CreatorRegistered(2, "ann", "GB", 30);
    var m: Model := map[1 := ReadRow("ann", "GA", 0, 10)];
    var m1: Model := map[1 := ReadRow("ann", "GA", 1, 10)];
    assert [tip, clash][..1] == [tip] && [tip][..0] == [];
    assert m[1 := ReadRow("ann", "GA", 1, 10)] == m1;
    assert SyncAll(m, []) == Some(m) && SyncAll(m1, []) == Some(m1);
    assert SyncAll(m, [tip]) == SyncStep(m, tip) == Some(m1);
    assert m1[1].username == "ann" && UsernameTaken(m1, "ann");
    assert m1[1 := ReadRow("ann", "GA", 2, 10)] == map[1 := ReadRow("ann", "GA", 2, 10)];
    assert SyncAll(m1, [tip]) == SyncStep(m1, tip);
  }

  // ---- The read model against the projection of one creator ----

  function Tips(es: seq<Event>): nat {
    if |es| == 0 then 0 else Tips(es[..|es| - 1]) + if es[|es| - 1].TipReceived? then 1 else 0
  }

  function FirstRegistration(es: seq<Event>): Option<Event> {
    if |es| == 0 then None else
    var before, e := FirstRegistration(es[..|es| - 1]), es[|es| - 1];
    if before.None? && e.CreatorRegistered? then Some(e) else before
  }

  function LastRegistration(es: seq<Event>): Option<Event> {
    if |es| == 0 then None else
    if es[|es| - 1].CreatorRegistered? then Some(es[|es| - 1]) else LastRegistration(es[..|es| - 1])
  }

  function EarlyTips(es: seq<Event>): nat {
    if |es| == 0 then 0
    else EarlyTips(es[..|es| - 1]) +
         if es[|es| - 1].TipReceived? && FirstRegistration(es[..|es| - 1]).None? then 1 else 0
  }

  /** A row keeps the first registration and the tips since; a creator without registration has no row. */
  ghost predicate RowIs(m: Model, a: Id, es: seq<Event>) {
    match FirstRegistration(es)
    case None => a !in m && EarlyTips(es) == Tips(es)
    case Some(e) =>
      && e.CreatorRegistered? && e.id == a && EarlyTips(es) <= Tips(es)
      && a in m && m[a] == ReadRow(e.username, e.wallet, Tips(es) - EarlyTips(es), e.timestamp)
  }

  /** One event of the creator. */
  lemma {:induction false} RowIsNext(m: Model, a: Id, es: seq<Event>, e: Event)
    requires RowIs(m, a, es) && e.Aggregate() == a && SyncStep(m, e).Some?
    ensures RowIs(SyncStep(m, e).value, a, es + [e])
  {
    var all := es + [e];
    assert all[..|all| - 1] == es && all[|all| - 1] == e;
  }

  lemma {:induction false} RowsAreFirst(es: seq<Event>, a: Id)
    requires SyncAll(map[], es).Some?
    ensures RowIs(SyncAll(map[], es).value, a, Of(es, a))
  {
    if |es| > 0 {
      var before, e := es[..|es| - 1], es[|es| - 1];
      RowsAreFirst(before, a);
      var m := SyncAll(map[], before).value;
      if e.Aggregate() == a {
        RowIsNext(m, a, Of(before, a), e);
      } else {
        OtherRowsStay(m, a, e);
      }
    }
  }

  lemma {:induction false} OtherRowsStay(m: Model, a: Id, e: Event)
    requires e.Aggregate() != a && SyncStep(m, e).Some?
    ensures var next := SyncStep(m, e).value; (a in next <==> a in m) && (a in m ==> next[a] == m[a])
  {
  }

  /** A projection keeps the last registration and every tip. */
  lemma {:induction false} ProjectionsAreLast(es: seq<Event>)
    ensures var p := Fold(BLANK, es);
            && p.tipCount == Tips(es)
            && match LastRegistration(es)
               case None => p == Projection(None, "", "", Tips(es), None)
               case Some(e) =>
                 e.CreatorRegistered? && p == Projection(Some(e.id), e.username, e.wallet, Tips(es), Some(e.timestamp))
  {
    if |es| > 0 {
      ProjectionsAreLast(es[..|es| - 1]);
    }
  }

  lemma {:induction false} Registrations(es: seq<Event>, a: Id)
    requires forall i :: 0 <= i < |es| ==> es[i].Aggregate() == a
    ensures FirstRegistration(es).Some? == LastRegistration(es).Some?
    ensures LastRegistration(es).Some? ==> LastRegistration(es).value.CreatorRegistered?
                                           && LastRegistration(es).value.id == a
  {
    if |es| > 0 {
      Registrations(es[..|es| - 1], a);
    }
  }

  lemma {:induction false} OfIsOf(es: seq<Event>, a: Id)
    ensures forall i :: 0 <= i < |Of(es, a)| ==> Of(es, a)[i].Aggregate() == a
  {
    if |es| > 0 {
      OfIsOf(es[..|es| - 1], a);
    }
  }

  ghost predicate Matches(row: ReadRow, a: Id, p: Projection) {
    p == Projection(Some(a), row.username, row.wallet, row.tipCount, Some(row.registeredAt))
  }

  /** After the same events, a creator has a row exactly when it has registered, and the row matches the
      creator's projection exactly when no tip came before the registration and no later registration
      changed the identity. */
  lemma {:induction false} RowMatchesProjectionIff(es: seq<Event>, a: Id)
    requires SyncAll(map[], es).Some?
    ensures var m, mine := SyncAll(map[], es).value, Of(es, a);
            && (a in m <==> FirstRegistration(mine).Some?)
            && (a in m ==>
                  (Matches(m[a], a, Fold(BLANK, mine))
                   <==> EarlyTips(mine) == 0 && FirstRegistration(mine) == LastRegistration(mine)))
  {
    var mine := Of(es, a);
    RowsAreFirst(es, a);
    ProjectionsAreLast(mine);
    OfIsOf(es, a);
    Registrations(mine, a);
  }
}
