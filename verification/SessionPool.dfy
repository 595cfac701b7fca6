/** The load generator's session pool, its injector, and the report on what they collected. */
module SessionPool {
  import opened Api
  import opened ChatSession
  import opened Percentile
  import opened Sequences

  // ---------- What was collected ----------

  function RowsOfKind(rows: seq<Row>, kind: RowKind): seq<Row> {
    if rows == [] then []
    else (if rows[0].kind == kind then [rows[0]] else []) + RowsOfKind(rows[1..], kind)
  }

  /** The outcome of each session by id: its rows, or the exception its future re-raises. */
  type Outcomes = nat -> Result<seq<Row>, string>

  /** The rows of the collected sessions, in the order they were collected. */
  function Gathered(collected: seq<nat>, outcomes: Outcomes): seq<Row> {
    if collected == [] then []
    else
      var n := |collected| - 1;
      Gathered(collected[..n], outcomes) + (if outcomes(collected[n]).Ok? then outcomes(collected[n]).value else [])
  }

  ghost predicate Distinct(ids: seq<nat>) { forall i, j :: 0 <= i < j < |ids| ==> ids[i] != ids[j] }

  /** Sessions 1 to `counter` are each either collected, once, or missing. */
  ghost predicate Partition(counter: nat, collected: seq<nat>, missing: set<nat>) {
    && Distinct(collected)
    && (forall id :: id in collected ==> id !in missing)
    && (forall id :: id in collected || id in missing <==> 1 <= id <= counter)
  }

  /** Every session's rows are chat rows under its own id. */
  ghost predicate OwnRows(outcomes: Outcomes) {
    forall id: nat, r :: outcomes(id).Ok? && r in outcomes(id).value ==> r.session == ChatId(id) && r.kind == Chat
  }

  /** So they are when every session ran as RunChatSession promises, each on its own prompts and server. */
  lemma SessionsOwnTheirRows(outcomes: Outcomes, prompts: nat -> seq<string>, server: nat -> Server)
    requires forall id: nat :: outcomes(id).Ok? ==> |outcomes(id).value| <= |prompts(id)|
    requires forall id: nat, i: nat :: outcomes(id).Ok? && i < |outcomes(id).value| ==>
               Answered(id, prompts(id), server(id), i, outcomes(id).value[i])
    ensures OwnRows(outcomes)
  {
    forall id: nat, r | outcomes(id).Ok? && r in outcomes(id).value
      ensures r.session == ChatId(id) && r.kind == Chat
    {
      var i: nat :| i < |outcomes(id).value| && outcomes(id).value[i] == r;
      assert Answered(id, prompts(id), server(id), i, r);
    }
  }

  ghost predicate InjectedOnly(rows: seq<Row>) { forall r :: r in rows ==> r.kind == Inject && r.session.InjectId? }

  lemma {:induction false} RowsOfConcat(a: seq<Row>, b: seq<Row>, kind: RowKind)
    ensures RowsOfKind(a + b, kind) == RowsOfKind(a, kind) + RowsOfKind(b, kind)
  {
    if a == [] {
      assert a + b == b;
    } else {
      assert (a + b)[0] == a[0] && (a + b)[1..] == a[1..] + b;
      RowsOfConcat(a[1..], b, kind);
      AppendIsAssociative(if a[0].kind == kind then [a[0]] else [], RowsOfKind(a[1..], kind), RowsOfKind(b, kind));
    }
  }

  /** Appending rows that are all, or none, of a kind. */
  lemma AppendUniform(all: seq<Row>, rows: seq<Row>, kind: RowKind, mine: bool)
    requires forall r :: r in rows ==> (r.kind == kind) == mine
    ensures RowsOfKind(all + rows, kind) == if mine then RowsOfKind(all, kind) + rows else RowsOfKind(all, kind)
  {
    RowsOfConcat(all, rows, kind);
    RowsOfUniform(rows, kind, mine);
  }

  lemma {:induction false} RowsOfUniform(a: seq<Row>, kind: RowKind, mine: bool)
    requires forall r :: r in a ==> (r.kind == kind) == mine
    ensures RowsOfKind(a, kind) == if mine then a else []
  {
    if a != [] {
      assert a[0] in a;
      RowsOfUniform(a[1..], kind, mine);
      assert a == [a[0]] + a[1..];
    }
  }

  /** The results hold the rows of the collected sessions and the injected ones, each in order, and no more. */
  ghost predicate Recorded(all: seq<Row>, collected: seq<nat>, injected: seq<Row>, outcomes: Outcomes) {
    && (forall id :: id in collected ==> outcomes(id).Ok?)
    && RowsOfKind(all, Chat) == Gathered(collected, outcomes)
    && RowsOfKind(all, Inject) == injected
  }

  lemma RecordOne(all: seq<Row>, collected: seq<nat>, injected: seq<Row>, outcomes: Outcomes, id: nat)
    requires Recorded(all, collected, injected, outcomes) && OwnRows(outcomes) && outcomes(id).Ok?
    ensures Recorded(all + outcomes(id).value, collected + [id], injected, outcomes)
  {
    AppendUniform(all, outcomes(id).value, Chat, true);
    AppendUniform(all, outcomes(id).value, Inject, false);
    assert (collected + [id])[..|collected|] == collected;
    assert forall c :: c in collected + [id] ==> c in collected || c == id;
  }

  lemma RecordInjected(all: seq<Row>, collected: seq<nat>, injected: seq<Row>, outcomes: Outcomes, rows: seq<Row>)
    requires Recorded(all, collected, injected, outcomes) && InjectedOnly(rows)
    ensures Recorded(all + rows, collected, injected + rows, outcomes)
  {
    AppendUniform(all, rows, Chat, false);
    AppendUniform(all, rows, Inject, true);
  }

  lemma CollectOne(counter: nat, collected: seq<nat>, missing: set<nat>, id: nat)
    requires Partition(counter, collected, missing) && id in missing
    ensures Partition(counter, collected + [id], missing - {id})
  {
    assert forall c :: c in collected + [id] <==> c in collected || c == id;
  }

  function RowsOfSession(rows: seq<Row>, id: nat): seq<Row> {
    if rows == [] then []
    else (if rows[0].session == ChatId(id) then [rows[0]] else []) + RowsOfSession(rows[1..], id)
  }

  lemma {:induction false} SessionRowsOfConcat(a: seq<Row>, b: seq<Row>, id: nat)
    ensures RowsOfSession(a + b, id) == RowsOfSession(a, id) + RowsOfSession(b, id)
  {
    if a == [] {
      assert a + b == b;
    } else {
      assert (a + b)[0] == a[0] && (a + b)[1..] == a[1..] + b;
      SessionRowsOfConcat(a[1..], b, id);
      AppendIsAssociative(if a[0].session == ChatId(id) then [a[0]] else [],
                          RowsOfSession(a[1..], id), RowsOfSession(b, id));
    }
  }

  lemma {:induction false} SessionRowsOfOwn(a: seq<Row>, owner: nat, id: nat)
    requires forall r :: r in a ==> r.session == ChatId(owner)
    ensures RowsOfSession(a, id) == if id == owner then a else []
  {
    if a != [] {
      assert a[0] in a;
      SessionRowsOfOwn(a[1..], owner, id);
      assert a == [a[0]] + a[1..];
    }
  }

  /** What the driver gathered holds each collected session's rows exactly once, in their order, and none of
      any other session. */
  lemma {:induction false} EachSessionOnce(collected: seq<nat>, outcomes: Outcomes, id: nat)
    requires Distinct(collected) && OwnRows(outcomes) && forall c :: c in collected ==> outcomes(c).Ok?
    ensures RowsOfSession(Gathered(collected, outcomes), id) == if id in collected then outcomes(id).value else []
    decreases |collected|
  {
    if collected != [] {
      var (n, last) := (|collected| - 1, collected[|collected| - 1]);
      assert last in collected;
      assert collected == collected[..n] + [last];
      assert forall c :: c in collected[..n] ==> c in collected;
      EachSessionOnce(collected[..n], outcomes, id);
      SessionRowsOfConcat(Gathered(collected[..n], outcomes), outcomes(last).value, id);
      SessionRowsOfOwn(outcomes(last).value, last, id);
    }
  }

  function Ids(ids: seq<nat>): set<nat> { set id | id in ids }

  lemma IdsUnfold(ids: seq<nat>, i: nat)
    requires Distinct(ids) && i < |ids|
    ensures Ids(ids[i..]) == {ids[i]} + Ids(ids[i + 1..]) && ids[i] !in Ids(ids[i + 1..])
  {
    assert ids[i..] == [ids[i]] + ids[i + 1..];
  }

  /** A turnover: `f` leaves the missing sessions, and a new `id` joins them and the active ones. */
  lemma Vacated(active: set<nat>, rest: set<nat>, f: nat, missing: set<nat>)
    requires active !! ({f} + rest) && missing == active + ({f} + rest) && f !in rest
    ensures missing - {f} == active + rest && |missing - {f}| == |missing| - 1
  {}

  lemma Refilled(active: set<nat>, rest: set<nat>, missing: set<nat>, id: nat)
    requires active !! rest && missing == active + rest + {id} && id !in active + rest
    ensures (active + {id}) !! rest && missing == (active + {id}) + rest && |missing| == |active + rest| + 1
  {}

  lemma OrderStep(order: seq<nat>, i: nat)
    requires Distinct(order) && i < |order|
    ensures order[..i] + [order[i]] == order[..i + 1] && order[..i] <= order
    ensures order[i] in Ids(order[i..]) && Ids(order[i..]) - {order[i]} == Ids(order[i + 1..])
  {
    IdsUnfold(order, i);
  }

  lemma OneMore(before: seq<nat>, order: seq<nat>, i: nat)
    requires i < |order|
    ensures before + order[..i] + [order[i]] == before + order[..i + 1]
  {}

  lemma EmptyTail(ids: seq<nat>)
    ensures Ids(ids[|ids|..]) == {}
  {}

  /** Before anything is collected, the missing sessions are all that were started. */
  lemma AllMissing(counter: nat, collected: seq<nat>, missing: set<nat>, order: seq<nat>)
    requires Partition(counter, collected, missing) && collected == []
    requires forall id :: id in order <==> 1 <= id <= counter
    ensures missing == Ids(order[0..])
  {
    assert order[0..] == order;
  }

  // ---------- The driver ----------

  /** What the environment decides: which futures a wait returns, and which rows the injector appends
      before the driver's statement number k. */
  datatype World = World(finished: (nat, set<nat>) -> seq<nat>, injected: nat -> seq<Row>)

  ghost predicate Fair(w: World) {
    && (forall k: nat, active: set<nat> :: active != {} ==>
          var done := w.finished(k, active);
          done != [] && Distinct(done) && forall id :: id in done ==> id in active)
    && (forall k: nat :: InjectedOnly(w.injected(k)))
  }

  /** What the injector appends before the statements from `from` up to, not including, `until`. */
  function InjectedBetween(w: World, from: nat, until: nat): seq<Row>
    requires from <= until
  {
    if from == until then [] else InjectedBetween(w, from, until - 1) + w.injected(until - 1)
  }

  lemma {:induction false} InjectedConcat(w: World, from: nat, mid: nat, until: nat)
    requires from <= mid <= until
    ensures InjectedBetween(w, from, until) == InjectedBetween(w, from, mid) + InjectedBetween(w, mid, until)
    decreases until
  {
    if until > mid {
      InjectedConcat(w, from, mid, until - 1);
      AppendIsAssociative(InjectedBetween(w, from, mid), InjectedBetween(w, mid, until - 1), w.injected(until - 1));
    }
  }

  lemma InjectedNext(w: World, before: seq<Row>, from: nat, until: nat)
    requires from <= until
    ensures before + InjectedBetween(w, from, until) + w.injected(until) == before + InjectedBetween(w, from, until + 1)
  {
    AppendIsAssociative(before, InjectedBetween(w, from, until), w.injected(until));
  }

  lemma InjectedOnce(w: World, before: seq<Row>, clock: nat)
    ensures before + w.injected(clock) == before + InjectedBetween(w, clock, clock + 1)
    ensures before + w.injected(clock) + w.injected(clock + 1) == before + InjectedBetween(w, clock, clock + 2)
  {
    assert InjectedBetween(w, clock, clock + 1) == [] + w.injected(clock);
    InjectedNext(w, before, clock, clock + 1);
  }

  lemma InjectedAfterReplace(w: World, before: seq<Row>, from: nat, mid: nat, until: nat)
    requires from <= mid < until <= mid + 2
    ensures var so := before + InjectedBetween(w, from, mid);
            before + InjectedBetween(w, from, until)
            == if until == mid + 1 then so + w.injected(mid) else so + w.injected(mid) + w.injected(mid + 1)
  {
    InjectedOnce(w, before + InjectedBetween(w, from, mid), mid);
    InjectedMore(w, before, from, mid, until);
  }

  lemma InjectedInRound(w: World, before: seq<Row>, start: nat, clock: nat)
    requires start + 1 <= clock
    ensures before + w.injected(start) + InjectedBetween(w, start + 1, clock)
         == before + InjectedBetween(w, start, clock)
  {
    InjectedOnce(w, before, start);
    InjectedMore(w, before, start, start + 1, clock);
  }

  lemma InjectedMore(w: World, before: seq<Row>, from: nat, mid: nat, until: nat)
    requires from <= mid <= until
    ensures before + InjectedBetween(w, from, mid) + InjectedBetween(w, mid, until)
         == before + InjectedBetween(w, from, until)
  {
    InjectedConcat(w, from, mid, until);
    AppendIsAssociative(before, InjectedBetween(w, from, mid), InjectedBetween(w, mid, until));
  }

  datatype Ending = Interrupted | Crashed(error: string) | Finished

  class LoadTest {
    const concurrency: nat
    var sessionCounter: nat
    var active: set<nat>
    var allResults: seq<Row>
    ghost var collected: seq<nat>     // in the order their rows were appended
    ghost var missing: set<nat>       // started, rows not appended
    ghost var injected: seq<Row>      // what the injector appended

    constructor (concurrency: nat)
      ensures this.concurrency == concurrency && sessionCounter == 0 && active == {} && allResults == []
      ensures collected == [] && missing == {} && injected == []
    {
      this.concurrency := concurrency;
      sessionCounter, active, allResults := 0, {}, [];
      collected, missing, injected := [], {}, [];
    }

    /** Whole sessions only, each once, in order, apart from the injector's rows; at most `concurrency` missing. */
    ghost predicate Conserved(outcomes: Outcomes)
      reads this
    {
      && Partition(sessionCounter, collected, missing)
      && |missing| <= concurrency
      && Recorded(allResults, collected, injected, outcomes)
    }

    /** Full concurrency: as many sessions are active as there may be, and no other is missing. */
    ghost predicate LoopHead()
      reads this
    {
      active == missing && |active| == concurrency
    }

    /** new_session: numbers the session and submits it. */
    method NewSession(ghost outcomes: Outcomes) returns (id: nat)
      requires Conserved(outcomes) && |missing| < concurrency
      modifies this`sessionCounter, this`missing
      ensures Conserved(outcomes) && id == sessionCounter == old(sessionCounter) + 1
      ensures id !in old(missing) && missing == old(missing) + {id}
    {
      sessionCounter := sessionCounter + 1;
      id := sessionCounter;
      missing := missing + {id};
    }

    /** The injector thread appends whatever it finished since the last statement. */
    method AppendInjected(rows: seq<Row>, ghost outcomes: Outcomes)
      requires Conserved(outcomes) && InjectedOnly(rows)
      modifies this`allResults, this`injected
      ensures Conserved(outcomes)
      ensures allResults == old(allResults) + rows && injected == old(injected) + rows
    {
      RecordInjected(allResults, collected, injected, outcomes, rows);
      allResults := allResults + rows;
      injected := injected + rows;
    }

    /** all_results.extend(f.result()): appends a whole session, or re-raises and appends nothing. */
    method Collect(id: nat, outcomes: Outcomes) returns (error: Option<string>)
      requires Conserved(outcomes) && OwnRows(outcomes) && id in missing
      modifies this`allResults, this`collected, this`missing
      ensures Conserved(outcomes)
      ensures error == if outcomes(id).Ok? then None else Some(outcomes(id).error)
      ensures error.Some? ==> missing == old(missing) && collected == old(collected) && allResults == old(allResults)
      ensures error.None? ==> missing == old(missing) - {id} && collected == old(collected) + [id]
                              && allResults == old(allResults) + outcomes(id).value
    {
      var r := outcomes(id);
      if r.Err? {
        return Some(r.error);
      }
      RecordOne(allResults, collected, injected, outcomes, id);
      CollectOne(sessionCounter, collected, missing, id);
      allResults := allResults + r.value;
      collected := collected + [id];
      missing := missing - {id};
      error := None;
    }

    /** Starts the first `concurrency` sessions. */
    method Fill(ghost outcomes: Outcomes)
      requires Conserved(outcomes) && sessionCounter == 0 && active == missing == {}
      modifies this`sessionCounter, this`missing, this`active
      ensures Conserved(outcomes) && LoopHead() && sessionCounter == concurrency
    {
      for i := 0 to concurrency
        invariant Conserved(outcomes) && active == missing && |active| == i == sessionCounter
      {
        var id := NewSession(outcomes);
        active := active + {id};
      }
    }

    /** One finished session, before whose statement the injector may append and the interrupt may arrive. */
    method CollectNext(f: nat, outcomes: Outcomes, world: World, clock: nat, budget: nat) returns (exit: Option<Ending>)
      requires Fair(world) && OwnRows(outcomes) && Conserved(outcomes) && f in missing
      modifies this`allResults, this`collected, this`missing, this`injected
      ensures Conserved(outcomes)
      ensures injected == old(injected) + world.injected(clock)
      ensures exit.None? ==> collected == old(collected) + [f] && missing == old(missing) - {f}
      ensures exit.Some? ==> collected == old(collected) && missing == old(missing)
                             && exit.value != Finished && EndingIsReal(exit.value, outcomes)
      ensures exit == Some(Interrupted) <==> budget <= clock
    {
      AppendInjected(world.injected(clock), outcomes);
      if clock >= budget {
        return Some(Interrupted);
      }
      var error := Collect(f, outcomes);
      exit := if error.Some? then Some(Crashed(error.value)) else None;
    }

    /** The session that replaces it, likewise. */
    method StartNext(ghost outcomes: Outcomes, world: World, clock: nat, budget: nat)
      returns (exit: Option<Ending>, ghost id: nat)
      requires Fair(world) && Conserved(outcomes) && |missing| < concurrency
      modifies this`sessionCounter, this`active, this`allResults, this`missing, this`injected
      ensures Conserved(outcomes)
      ensures injected == old(injected) + world.injected(clock)
      ensures exit.None? ==> active == old(active) + {id} && missing == old(missing) + {id} && id !in old(missing)
      ensures exit.Some? ==> exit.value.Interrupted? && missing == old(missing)
      ensures exit.Some? <==> budget <= clock
    {
      id := 0;
      AppendInjected(world.injected(clock), outcomes);
      if clock >= budget {
        return Some(Interrupted), id;
      }
      var session := NewSession(outcomes);
      active, id := active + {session}, session;
      exit := None;
    }

    /** The body of the collecting loop for one finished session: append its rows, start its replacement.
        `rest` are the finished sessions still to come. */
    method Replace(f: nat, ghost rest: set<nat>, outcomes: Outcomes, world: World, start: nat, budget: nat)
      returns (exit: Option<Ending>, clock: nat, ghost taken: bool)
      requires Fair(world) && OwnRows(outcomes) && Conserved(outcomes)
      requires active !! ({f} + rest) && missing == active + ({f} + rest) && f !in rest && |missing| == concurrency
      modifies this`sessionCounter, this`active, this`allResults, this`collected, this`missing, this`injected
      ensures Conserved(outcomes)
      ensures collected == if taken then old(collected) + [f] else old(collected)
      ensures start < clock <= start + 2
      ensures injected == if clock == start + 1 then old(injected) + world.injected(start)
                          else old(injected) + world.injected(start) + world.injected(start + 1)
      ensures exit.None? ==> taken && active !! rest && missing == active + rest && |missing| == concurrency
                             && clock == start + 2
      ensures exit.Some? ==> exit.value != Finished && EndingIsReal(exit.value, outcomes)
                             && (if taken then rest else {f} + rest) <= missing
      ensures exit == Some(Interrupted) ==> budget <= start + (if taken then 1 else 0)
      ensures start <= budget ==> clock <= budget + 1 && (exit == Some(Interrupted) <==> clock == budget + 1)
    {
      clock, taken := start + 1, false;
      exit := CollectNext(f, outcomes, world, start, budget);
      if exit.Some? {
        return;
      }
      taken := true;
      Vacated(active, rest, f, old(missing));
      ghost var id;
      exit, id := StartNext(outcomes, world, clock, budget);
      clock := clock + 1;
      if exit.Some? {
        return;
      }
      assert f in collected && id in missing;
      Refilled(old(active), rest, missing, id);
    }

    /** A crash is the re-raised exception of a session that is still missing. */
    ghost predicate EndingIsReal(exit: Ending, outcomes: Outcomes)
      reads this
    {
      exit.Crashed? ==> exists id :: id in missing && outcomes(id) == Err(exit.error)
    }

    /** The collecting loop over the futures a wait returned. It collects the first `n` of them, in order. When
        it is left early the others, though finished, stay missing. */
    method CollectFinished(done: seq<nat>, outcomes: Outcomes, world: World, start: nat, budget: nat)
      returns (exit: Option<Ending>, clock: nat, ghost n: nat)
      requires Fair(world) && OwnRows(outcomes) && Conserved(outcomes)
      requires Distinct(done) && active !! Ids(done) && missing == active + Ids(done) && |missing| == concurrency
      modifies this`sessionCounter, this`active, this`allResults, this`collected, this`missing, this`injected
      ensures Conserved(outcomes)
      ensures n <= |done| && collected == old(collected) + done[..n] && Ids(done[n..]) <= missing
      ensures start <= clock && injected == old(injected) + InjectedBetween(world, start, clock)
      ensures exit.None? ==> LoopHead() && n == |done| && clock == start + 2 * n
      ensures exit.Some? ==> exit.value != Finished && EndingIsReal(exit.value, outcomes)
      ensures exit == Some(Interrupted) ==> budget <= start + 2 * n
      ensures start <= budget ==> clock <= budget + 1 && (exit == Some(Interrupted) <==> clock == budget + 1)
    {
      clock, n := start, 0;
      exit := None;
      assert done[0..] == done && done[..0] == [];
      for i := 0 to |done|
        invariant Conserved(outcomes) && |missing| == concurrency && exit == None
        invariant n == i && clock == start + 2 * n && collected == old(collected) + done[..n]
        invariant active !! Ids(done[i..]) && missing == active + Ids(done[i..])
        invariant injected == old(injected) + InjectedBetween(world, start, clock)
        invariant start <= budget ==> clock <= budget
      {
        IdsUnfold(done, i);
        OneMore(old(collected), done, i);
        ghost var taken;
        var next;
        exit, next, taken := Replace(done[i], Ids(done[i + 1..]), outcomes, world, clock, budget);
        InjectedAfterReplace(world, old(injected), start, clock, next);
        clock := next;
        n := if taken then i + 1 else i;
        if exit.Some? {
          return;
        }
      }
      EmptyTail(done);
      assert done[..|done|] == done;
    }

    /** One turn of the endless loop, from loop head to loop head: waits until some sessions have finished,
        collects exactly those, and replaces each of them. When it is left early, the finished sessions that
        were not reached are dropped: they stay missing with the running ones. */
    method Round(outcomes: Outcomes, world: World, start: nat, budget: nat)
      returns (exit: Option<Ending>, clock: nat, ghost n: nat)
      requires concurrency > 0 && Fair(world) && OwnRows(outcomes)
      requires Conserved(outcomes) && LoopHead()
      modifies this`sessionCounter, this`active, this`allResults, this`collected, this`missing, this`injected
      ensures Conserved(outcomes)
      ensures var done := world.finished(start, old(active));
              && n <= |done| && collected == old(collected) + done[..n] && Ids(done[n..]) <= missing
              && (exit.None? ==> LoopHead() && n == |done| > 0 && clock == start + 1 + 2 * n)
      ensures start < clock && injected == old(injected) + InjectedBetween(world, start, clock)
      ensures exit.Some? ==> exit.value != Finished && EndingIsReal(exit.value, outcomes)
      ensures exit == Some(Interrupted) ==> budget <= start + 1 + 2 * n
      ensures start < budget ==> clock <= budget + 1 && (exit == Some(Interrupted) <==> clock == budget + 1)
    {
      AppendInjected(world.injected(start), outcomes);
      var done := world.finished(start, active);
      active := active - (set id | id in done);
      exit, clock, n := CollectFinished(done, outcomes, world, start + 1, budget);
      InjectedInRound(world, old(injected), start, clock);
    }

    /** Continuous mode until a session's exception or the interrupt, which arrives before statement number
        `budget`. At least every third statement has collected a session by then, and the results hold what the
        injector appended before each statement `reached`. */
    method RunContinuous(outcomes: Outcomes, world: World, budget: nat) returns (exit: Ending, ghost reached: nat)
      requires concurrency > 0 && Fair(world) && OwnRows(outcomes)
      requires Conserved(outcomes) && sessionCounter == 0 && active == missing == {}
      modifies this`sessionCounter, this`active, this`allResults, this`collected, this`missing, this`injected
      ensures Conserved(outcomes) && exit != Finished && EndingIsReal(exit, outcomes)
      ensures injected == old(injected) + InjectedBetween(world, 0, reached)
      ensures exit == Interrupted ==> budget <= reached <= budget + 1 && budget <= 3 * |collected| + 1
      ensures exit.Crashed? ==> reached <= budget
    {
      Fill(outcomes);
      var clock := 0;
      reached := 0;
      while clock < budget
        invariant Conserved(outcomes) && LoopHead() && clock <= budget && clock <= 3 * |collected|
        invariant reached == clock && injected == old(injected) + InjectedBetween(world, 0, clock)
        decreases budget - clock
      {
        ghost var n;
        var stopped, now;
        stopped, now, n := Round(outcomes, world, clock, budget);
        InjectedMore(world, old(injected), 0, clock, now);
        clock, reached := now, now;
        if stopped.Some? {
          return stopped.value, reached;
        }
      }
      return Interrupted, reached;
    }

    /** One round: the sessions are collected as they complete, in whatever order, until all are, one
        crashes, or the interrupt arrives before the `budget`-th of them. */
    method RunOnce(order: seq<nat>, outcomes: Outcomes, world: World, budget: nat)
      returns (exit: Ending, ghost reached: nat)
      requires Fair(world) && OwnRows(outcomes)
      requires Conserved(outcomes) && sessionCounter == 0 && active == missing == {} && collected == []
      requires Distinct(order) && forall id :: id in order <==> 1 <= id <= concurrency
      modifies this`sessionCounter, this`active, this`allResults, this`collected, this`missing, this`injected
      ensures Conserved(outcomes) && sessionCounter == concurrency && collected <= order
      ensures exit.Finished? ==> missing == {} && collected == order
      ensures exit.Interrupted? ==> |collected| == budget
      ensures EndingIsReal(exit, outcomes)
      ensures |collected| <= reached <= |collected| + 1
      ensures injected == old(injected) + InjectedBetween(world, 0, reached)
    {
      reached := 0;
      Fill(outcomes);
      AllMissing(sessionCounter, collected, missing, order);
      assert order[..0] == [];
      for i := 0 to |order|
        invariant Conserved(outcomes) && sessionCounter == concurrency && i <= budget
        invariant collected == order[..i] && missing == Ids(order[i..])
        invariant reached == i && injected == old(injected) + InjectedBetween(world, 0, i)
      {
        OrderStep(order, i);
        AppendInjected(world.injected(i), outcomes);
        InjectedNext(world, old(injected), 0, i);
        reached := i + 1;
        if i >= budget {
          return Interrupted, reached;
        }
        var error := Collect(order[i], outcomes);
        if error.Some? {
          return Crashed(error.value), reached;
        }
      }
      EmptyTail(order);
      assert order[..|order|] == order;
      return Finished, reached;
    }
  }

  // ---------- The injector ----------

  /** The rows of the first `n` attempts: one for each that succeeded, under its number, in order. */
  ghost predicate InjectorRows(rows: seq<Row>, attempts: seq<Result<Inference, string>>, n: nat)
    requires n <= |attempts|
  {
    && (forall i :: 0 <= i < |rows| ==> IsAttempt(rows[i], attempts, n))
    && (forall i, j :: 0 <= i < j < |rows| ==> rows[i].session.k < rows[j].session.k)
    && (forall k :: 0 <= k < n && attempts[k].Ok? ==> Numbered(rows, k + 1))
  }

  ghost predicate IsAttempt(r: Row, attempts: seq<Result<Inference, string>>, n: nat)
    requires n <= |attempts|
  {
    && r.kind == Inject && r.session.InjectId? && 1 <= r.session.k <= n
    && r.turn == 1 && r.promptMessages == 1 && attempts[r.session.k - 1].Ok?
    && var x := attempts[r.session.k - 1].value;
       r.ttft == x.ttft && r.tpot == x.tpot && r.totalTokens == x.totalTokens
  }

  function InjectRow(k: nat, x: Inference): Row { Row(InjectId(k), Inject, 1, 1, x.ttft, x.tpot, x.totalTokens) }

  ghost predicate Numbered(rows: seq<Row>, k: nat) {
    exists i :: 0 <= i < |rows| && rows[i].session == InjectId(k)
  }

  lemma InjectorStep(rows: seq<Row>, attempts: seq<Result<Inference, string>>, n: nat)
    requires n < |attempts| && InjectorRows(rows, attempts, n)
    ensures InjectorRows(rows + (if attempts[n].Ok? then [InjectRow(n + 1, attempts[n].value)] else []),
                         attempts, n + 1)
  {
    assert forall i :: 0 <= i < |rows| ==> IsAttempt(rows[i], attempts, n) && IsAttempt(rows[i], attempts, n + 1);
    if attempts[n].Ok? {
      var row := InjectRow(n + 1, attempts[n].value);
      assert IsAttempt(row, attempts, n + 1) && [row][0] == row;
      forall k | 0 <= k < n && attempts[k].Ok?
        ensures Numbered(rows + [row], k + 1)
      {
        NumberedInLonger(rows, [row], k + 1);
      }
      assert (rows + [row])[|rows|] == row;
    } else {
      assert rows + [] == rows;
    }
  }

  lemma NumberedInLonger(rows: seq<Row>, later: seq<Row>, k: nat)
    requires Numbered(rows, k)
    ensures Numbered(rows + later, k)
  {
    var i :| 0 <= i < |rows| && rows[i].session == InjectId(k);
    assert (rows + later)[i] == rows[i];
  }

  /** Numbers its requests from one; a request that raises uses up its number and leaves no row. Runs until
      it sees the stop event set. */
  method RunInjector(attempts: seq<Result<Inference, string>>, stop: nat -> bool) returns (rows: seq<Row>, ghost n: nat)
    ensures n <= |attempts| && (n < |attempts| ==> stop(n)) && (forall i :: 0 <= i < n ==> !stop(i))
    ensures InjectorRows(rows, attempts, n)
  {
    rows := [];
    n := 0;
    var injectId := 0;
    for i := 0 to |attempts|
      invariant n == injectId == i && forall j :: 0 <= j < i ==> !stop(j)
      invariant InjectorRows(rows, attempts, i)
    {
      if stop(i) {
        return;
      }
      InjectorStep(rows, attempts, i);
      injectId := injectId + 1;
      n := injectId;
      if attempts[i].Ok? {
        var x := attempts[i].value;
        rows := rows + [Row(InjectId(injectId), Inject, 1, 1, x.ttft, x.tpot, x.totalTokens)];
      }
    }
  }

  // ---------- The report ----------

  function Ttfts(rows: seq<Row>): (r: seq<real>)
    ensures |r| == |rows| && forall i :: 0 <= i < |rows| ==> r[i] == rows[i].ttft
  {
    seq(|rows|, i requires 0 <= i < |rows| => rows[i].ttft)
  }

  datatype Summary =
    | NoResults
    | Latencies(chatP50: real, chatP95: real, inject: Option<(real, real)>)

  /** The closing report. The chat percentiles are taken unguarded: the median of no samples raises. */
  function Report(rows: seq<Row>): Result<Summary, string> {
    if rows == [] then Ok(NoResults)
    else
      var chat := Ttfts(RowsOfKind(rows, Chat));
      var inject := Ttfts(RowsOfKind(rows, Inject));
      if chat == [] then Err("no median for empty data")
      else Ok(Latencies(Median(chat), P95(chat),
                        if inject == [] then None else Some((Median(inject), P95(inject)))))
  }

  lemma {:induction false} RowsAreChatOrInject(rows: seq<Row>)
    ensures |rows| == |RowsOfKind(rows, Chat)| + |RowsOfKind(rows, Inject)|
  {
    if rows != [] {
      RowsAreChatOrInject(rows[1..]);
    }
  }

  /** The report fails exactly when the injector finished a request before any chat row was collected. */
  lemma ReportFailsIff(rows: seq<Row>, collected: seq<nat>, outcomes: Outcomes)
    requires RowsOfKind(rows, Chat) == Gathered(collected, outcomes)
    ensures Report(rows).Err? <==> Gathered(collected, outcomes) == [] && RowsOfKind(rows, Inject) != []
  {
    RowsAreChatOrInject(rows);
  }

  /** And it does fail: in continuous mode, interrupted after the injector's first answer and before any
      session was collected, with all of them still missing. */
  lemma ReportCanFail(concurrency: nat, missing: set<nat>, outcomes: Outcomes, x: Inference)
    requires forall id :: id in missing <==> 1 <= id <= concurrency
    ensures var rows := [InjectRow(1, x)];
            && InjectorRows(rows, [Ok(x)], 1)
            && Partition(concurrency, [], missing)
            && Recorded(rows, [], rows, outcomes)
            && Report(rows) == Err("no median for empty data")
  {
    var rows := [InjectRow(1, x)];
    assert rows[0].session == InjectId(1);
    assert rows[1..] == [];
  }

  /** `p50` is the mean of the middle order statistics of the samples, and `p95` the one above 95% of them. */
  ghost predicate Describes(p50: real, p95: real, samples: seq<real>) {
    && p95 in samples && 20 * AtMost(samples, p95) > 19 * |samples| && 20 * Below(samples, p95) <= 19 * |samples|
    && p50 <= p95
    && exists lo, hi :: MeanOfMiddle(p50, lo, hi, samples)
  }

  ghost predicate MeanOfMiddle(p50: real, lo: real, hi: real, samples: seq<real>) {
    && lo in samples && Below(samples, lo) <= (|samples| - 1) / 2 < AtMost(samples, lo)
    && hi in samples && Below(samples, hi) <= |samples| / 2 < AtMost(samples, hi)
    && p50 * 2.0 == lo + hi
  }

  lemma FiguresDescribe(samples: seq<real>)
    requires samples != []
    ensures Describes(Median(samples), P95(samples), samples)
  {
    P95IsOrderStatistic(samples);
    var lo, hi := MedianIsMiddle(samples);
    assert MeanOfMiddle(Median(samples), lo, hi, samples);
  }

  /** When it succeeds, its chat figures are order statistics of exactly the collected sessions' first-token
      latencies, whatever the injector appended in between, and its other figures, which are there exactly if the
      injector appended anything, are those of exactly the injected rows. */
  lemma ReportIsAboutTheSessions(rows: seq<Row>, collected: seq<nat>, injected: seq<Row>, outcomes: Outcomes)
    requires Recorded(rows, collected, injected, outcomes)
    ensures Report(rows) == Ok(NoResults) <==> Gathered(collected, outcomes) == [] && injected == []
    ensures Gathered(collected, outcomes) != [] ==>
              && Report(rows).Ok? && Report(rows).value.Latencies?
              && var l := Report(rows).value;
                 && Describes(l.chatP50, l.chatP95, Ttfts(Gathered(collected, outcomes)))
                 && (l.inject.Some? <==> injected != [])
                 && (injected != [] ==> Describes(l.inject.value.0, l.inject.value.1, Ttfts(injected)))
  {
    RowsAreChatOrInject(rows);
    if Gathered(collected, outcomes) != [] {
      FiguresDescribe(Ttfts(Gathered(collected, outcomes)));
    }
    if injected != [] {
      FiguresDescribe(Ttfts(injected));
    }
  }
}
