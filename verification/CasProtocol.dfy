/**
 The protocol that both allocators follow against the Kubernetes API server: read an object,
 compute a new value, and write it back on the condition that the object has not changed since.

 Any number of calls run at once, each in its own process if need be, so the in-process mutex is
 not relied on. A call retries a refused write up to a budget. The server bumps the object's
 version on every write, also on writes that leave the allocator's value alone. A write can be
 refused without being stale, and an accepted write's reply can be lost, in which case the caller
 believes that it was refused.
 */
module CasProtocol {
  import opened Wrappers

  /** One accepted write. */
  datatype Commit<D> = Commit(call: nat, before: D, after: D, acknowledged: bool)

  datatype Call<D> =
    | Ready(attempt: nat)
    | Holding(attempt: nat, seen: D, version: nat)
    | Returned(result: Option<Commit<D>>)

  datatype State<D> = State(data: D, version: nat, calls: map<nat, Call<D>>, log: seq<Commit<D>>)

  datatype Reply = Acknowledged | Lost | Refused

  datatype Event<D> =
    | Begin(call: nat)
    | Load(call: nat)
    | GiveUp(call: nat)
    | Write(call: nat, after: D, reply: Reply)
    | OtherWriter

  function Start<D>(data: D, version: nat): State<D> {
    State(data, version, map[], [])
  }

  /** `rule(c, before, after)`: call `c`, having read `before`, may ask to store `after`. */
  predicate Enabled<D>(s: State<D>, e: Event<D>, rule: (nat, D, D) -> bool) {
    match e
    case Begin(c) => c !in s.calls
    case Load(c) => c in s.calls && s.calls[c].Ready?
    case GiveUp(c) => c in s.calls && !s.calls[c].Returned?
    case Write(c, after, reply) =>
      && c in s.calls && s.calls[c].Holding?
      && rule(c, s.calls[c].seen, after)
      && (reply != Refused ==> s.calls[c].version == s.version)
    case OtherWriter => true
  }

  function Retry<D>(attempt: nat, budget: nat): Call<D> {
    if attempt + 1 < budget then Ready(attempt + 1) else Returned(None)
  }

  function Apply<D>(s: State<D>, e: Event<D>, budget: nat, rule: (nat, D, D) -> bool): State<D>
    requires Enabled(s, e, rule)
  {
    match e
    case Begin(c) => s.(calls := s.calls[c := Ready(0)])
    case Load(c) => s.(calls := s.calls[c := Holding(s.calls[c].attempt, s.data, s.version)])
    case GiveUp(c) => s.(calls := s.calls[c := Returned(None)])
    case Write(c, after, reply) =>
      var held := s.calls[c];
      if reply == Refused then s.(calls := s.calls[c := Retry(held.attempt, budget)])
      else
        var commit := Commit(c, held.seen, after, reply == Acknowledged);
        var call := if reply == Acknowledged then Returned(Some(commit)) else Retry(held.attempt, budget);
        State(after, s.version + 1, s.calls[c := call], s.log + [commit])
    case OtherWriter => s.(version := s.version + 1)
  }

  /** The state a run ends in; None when some event of it is not enabled where it happens. */
  function Exec<D>(s: State<D>, run: seq<Event<D>>, budget: nat, rule: (nat, D, D) -> bool): Option<State<D>> {
    if run == [] then Some(s)
    else
      var before := Exec(s, run[..|run| - 1], budget, rule);
      var e := run[|run| - 1];
      if before.None? || !Enabled(before.value, e, rule) then None
      else Some(Apply(before.value, e, budget, rule))
  }

  // ---------- the invariant ----------

  function Latest<D>(initial: D, log: seq<Commit<D>>): D {
    if log == [] then initial else log[|log| - 1].after
  }

  /** Every accepted write was computed from what the write just before it had stored. */
  predicate Chained<D(==)>(initial: D, log: seq<Commit<D>>, rule: (nat, D, D) -> bool) {
    forall i :: 0 <= i < |log| ==>
      && log[i].before == Latest(initial, log[..i])
      && rule(log[i].call, log[i].before, log[i].after)
  }

  /** The accepted writes of one call, in order. */
  function Mine<D>(log: seq<Commit<D>>, call: nat): (mine: seq<Commit<D>>)
    ensures |mine| <= |log|
    ensures forall i :: 0 <= i < |mine| ==> mine[i] in log && mine[i].call == call
  {
    if log == [] then []
    else
      var rest := Mine(log[..|log| - 1], call);
      var last := log[|log| - 1];
      if last.call == call then rest + [last] else rest
  }

  predicate AllLost<D>(mine: seq<Commit<D>>) {
    forall i :: 0 <= i < |mine| ==> !mine[i].acknowledged
  }

  /** What a call's own writes look like at each stage of the call. */
  predicate CallOk<D(==)>(call: Call<D>, mine: seq<Commit<D>>, budget: nat) {
    match call
    case Ready(attempt) => |mine| <= attempt < budget && AllLost(mine)
    case Holding(attempt, _, _) => |mine| <= attempt < budget && AllLost(mine)
    case Returned(None) => |mine| <= budget && AllLost(mine)
    case Returned(Some(commit)) =>
      && 1 <= |mine| <= budget
      && mine[|mine| - 1] == commit && commit.acknowledged
      && AllLost(mine[..|mine| - 1])
  }

  predicate HoldsCurrent<D(==)>(call: Call<D>, data: D, version: nat) {
    call.Holding? ==> call.version <= version && (call.version == version ==> call.seen == data)
  }

  ghost predicate HoldersOk<D>(s: State<D>) {
    forall c :: c in s.calls ==> HoldsCurrent(s.calls[c], s.data, s.version)
  }

  ghost predicate CallsOk<D>(s: State<D>, budget: nat) {
    && (forall c :: c in s.calls ==> CallOk(s.calls[c], Mine(s.log, c), budget))
    && (forall c :: c !in s.calls ==> Mine(s.log, c) == [])
  }

  ghost predicate Invariant<D>(initial: D, s: State<D>, budget: nat, rule: (nat, D, D) -> bool) {
    && Chained(initial, s.log, rule)
    && s.data == Latest(initial, s.log)
    && HoldersOk(s)
    && CallsOk(s, budget)
  }

  lemma ChainGrows<D>(initial: D, log: seq<Commit<D>>, commit: Commit<D>, rule: (nat, D, D) -> bool)
    requires Chained(initial, log, rule)
    requires commit.before == Latest(initial, log) && rule(commit.call, commit.before, commit.after)
    ensures Chained(initial, log + [commit], rule)
    ensures Latest(initial, log + [commit]) == commit.after
  {
  }

  lemma MineGrows<D>(log: seq<Commit<D>>, commit: Commit<D>, call: nat)
    ensures Mine(log + [commit], call) ==
            if commit.call == call then Mine(log, call) + [commit] else Mine(log, call)
  {
  }

  lemma StepKeepsChain<D>(initial: D, s: State<D>, e: Event<D>, budget: nat, rule: (nat, D, D) -> bool)
    requires Invariant(initial, s, budget, rule) && Enabled(s, e, rule)
    ensures var s' := Apply(s, e, budget, rule);
      Chained(initial, s'.log, rule) && s'.data == Latest(initial, s'.log)
  {
    hide Mine, Chained, Latest, CallsOk;
    if e.Write? && e.reply != Refused {
      var held := s.calls[e.call];
      assert HoldsCurrent(held, s.data, s.version);
      ChainGrows(initial, s.log, Commit(e.call, held.seen, e.after, e.reply == Acknowledged), rule);
    }
  }

  lemma StepKeepsHolders<D>(s: State<D>, e: Event<D>, budget: nat, rule: (nat, D, D) -> bool)
    requires HoldersOk(s) && Enabled(s, e, rule)
    ensures HoldersOk(Apply(s, e, budget, rule))
  {
  }

  lemma WriteKeepsCalls<D>(s: State<D>, e: Event<D>, budget: nat, rule: (nat, D, D) -> bool)
    requires budget > 0 && CallsOk(s, budget) && Enabled(s, e, rule)
    requires e.Write? && e.reply != Refused
    ensures CallsOk(Apply(s, e, budget, rule), budget)
  {
    hide Mine, CallOk;
    var s' := Apply(s, e, budget, rule);
    var held := s.calls[e.call];
    var commit := Commit(e.call, held.seen, e.after, e.reply == Acknowledged);
    forall c
      ensures Mine(s'.log, c) == if e.call == c then Mine(s.log, c) + [commit] else Mine(s.log, c)
    {
      MineGrows(s.log, commit, c);
    }
    CallAfterWrite(held, Mine(s.log, e.call), commit, budget);
  }

  lemma CallMoves<D>(s: State<D>, e: Event<D>, budget: nat, rule: (nat, D, D) -> bool, mine: seq<Commit<D>>)
    requires budget > 0 && Enabled(s, e, rule) && !e.OtherWriter? && !(e.Write? && e.reply != Refused)
    requires if e.call in s.calls then CallOk(s.calls[e.call], mine, budget) else mine == []
    ensures CallOk(Apply(s, e, budget, rule).calls[e.call], mine, budget)
  {
  }

  lemma StepKeepsCalls<D>(s: State<D>, e: Event<D>, budget: nat, rule: (nat, D, D) -> bool)
    requires budget > 0 && CallsOk(s, budget) && Enabled(s, e, rule)
    ensures CallsOk(Apply(s, e, budget, rule), budget)
  {
    if e.Write? && e.reply != Refused {
      WriteKeepsCalls(s, e, budget, rule);
    } else if !e.OtherWriter? {
      CallMoves(s, e, budget, rule, Mine(s.log, e.call));
      hide Mine, CallOk;
    }
  }

  lemma CallAfterWrite<D>(held: Call<D>, mine: seq<Commit<D>>, commit: Commit<D>, budget: nat)
    requires held.Holding? && CallOk(held, mine, budget)
    ensures commit.acknowledged ==> CallOk(Returned(Some(commit)), mine + [commit], budget)
    ensures !commit.acknowledged ==> CallOk(Retry(held.attempt, budget), mine + [commit], budget)
  {
  }

  lemma StepKeepsInvariant<D>(initial: D, s: State<D>, e: Event<D>, budget: nat, rule: (nat, D, D) -> bool)
    requires budget > 0 && Invariant(initial, s, budget, rule) && Enabled(s, e, rule)
    ensures Invariant(initial, Apply(s, e, budget, rule), budget, rule)
  {
    StepKeepsChain(initial, s, e, budget, rule);
    StepKeepsHolders(s, e, budget, rule);
    StepKeepsCalls(s, e, budget, rule);
  }

  /** The invariant holds in every reachable state of every run. */
  lemma {:induction false} RunKeepsInvariant<D>(initial: D, version: nat, run: seq<Event<D>>, budget: nat,
                                                rule: (nat, D, D) -> bool, s: State<D>)
    requires budget > 0 && Exec(Start(initial, version), run, budget, rule) == Some(s)
    ensures Invariant(initial, s, budget, rule)
  {
    if run != [] {
      var front := run[..|run| - 1];
      var before := Exec(Start(initial, version), front, budget, rule).value;
      RunKeepsInvariant(initial, version, front, budget, rule, before);
      StepKeepsInvariant(initial, before, run[|run| - 1], budget, rule);
    }
  }

  // ---------- what a caller can rely on ----------

  /** In every run, a call writes at most `budget` times. If it returns a value, that value is the
      last it wrote. It writes exactly what it returns, and nothing when it returns nothing, if and
      only if no reply to an accepted write of its own is lost. */
  lemma CallWritesWhatItReturns<D>(initial: D, version: nat, run: seq<Event<D>>, budget: nat,
                                   rule: (nat, D, D) -> bool, s: State<D>, c: nat)
    requires budget > 0 && Exec(Start(initial, version), run, budget, rule) == Some(s)
    requires c in s.calls
    ensures var mine := Mine(s.log, c);
      var result := if s.calls[c].Returned? then s.calls[c].result else None;
      && |mine| <= budget
      && (result.Some? ==> mine != [] && mine[|mine| - 1] == result.value)
      && ((forall m :: m in mine ==> m.acknowledged) <==> mine == if result.Some? then [result.value] else [])
  {
    RunKeepsInvariant(initial, version, run, budget, rule, s);
    hide Mine, Exec, Chained, Latest, CallOk;
    OwnWrites(s.calls[c], Mine(s.log, c), budget);
  }

  lemma OwnWrites<D>(call: Call<D>, mine: seq<Commit<D>>, budget: nat)
    requires CallOk(call, mine, budget)
    ensures var result := if call.Returned? then call.result else None;
      && |mine| <= budget
      && (result.Some? ==> mine != [] && mine[|mine| - 1] == result.value)
      && ((forall m :: m in mine ==> m.acknowledged) <==> mine == if result.Some? then [result.value] else [])
  {
    assert |mine| > 0 ==> mine[0] in mine;
    assert |mine| > 1 ==> mine[..|mine| - 1][0] == mine[0];
  }

  lemma ExecOneMore<D>(s: State<D>, run: seq<Event<D>>, e: Event<D>, budget: nat, rule: (nat, D, D) -> bool)
    ensures var before := Exec(s, run, budget, rule);
      Exec(s, run + [e], budget, rule) ==
      if before.None? || !Enabled(before.value, e, rule) then None else Some(Apply(before.value, e, budget, rule))
  {
  }

  /** A lost reply leaks a value: the call writes a second one and returns only that. */
  lemma LostReplyLeaks<D>(initial: D, a: D, b: D, budget: nat, rule: (nat, D, D) -> bool)
    requires budget >= 2 && rule(0, initial, a) && rule(0, a, b)
    ensures exists run, s: State<D> ::
              && Exec(Start(initial, 0), run, budget, rule) == Some(s)
              && s.calls == map[0 := Returned(Some(Commit(0, a, b, true)))]
              && s.log == [Commit(0, initial, a, false), Commit(0, a, b, true)]
  {
    hide Exec;
    var start: State<D> := Start(initial, 0);
    var run: seq<Event<D>> := [];
    assert Exec(start, run, budget, rule) == Some(start) by {
      ExecNone(start, budget, rule);
    }
    ExecOneMore(start, run, Begin(0), budget, rule);
    run := run + [Begin(0)];
    ExecOneMore(start, run, Load(0), budget, rule);
    run := run + [Load(0)];
    ExecOneMore(start, run, Write(0, a, Lost), budget, rule);
    run := run + [Write(0, a, Lost)];
    ExecOneMore(start, run, Load(0), budget, rule);
    run := run + [Load(0)];
    ExecOneMore(start, run, Write(0, b, Acknowledged), budget, rule);
    run := run + [Write(0, b, Acknowledged)];
    var s := Exec(start, run, budget, rule).value;
    assert s.log == [Commit(0, initial, a, false), Commit(0, a, b, true)];
  }

  lemma ExecNone<D>(s: State<D>, budget: nat, rule: (nat, D, D) -> bool)
    ensures Exec(s, [], budget, rule) == Some(s)
  {
  }
}
