/** Batches of instance ids from one stored counter. */
module IdAllocators {
  import opened Wrappers
  import opened GoText
  import opened ConfigMaps
  import opened CasProtocol

  type Counter = Option<string>

  const NEXT_ID_KEY := "NextClusterScopeCustInsId"
  const DEFAULT_NEXT_ID := "1000"

  /** The next id a stored text stands for; None when it is no number. */
  function NextId(counter: Counter): Option<int64> {
    Atoi(if counter.None? then DEFAULT_NEXT_ID else counter.value)
  }

  /** The ids of one call: as many as asked for, counting up from the first. */
  function Batch(first: int64, n: int64): (ids: seq<int64>)
    ensures |ids| == if n < 0 then 0 else n
    ensures forall k :: 0 <= k < |ids| ==> ids[k] == Wrap64(first + k)
  {
    seq(if n < 0 then 0 else n, k requires 0 <= k <= MAX_INT => IdAt(first, k))
  }

  function IdAt(first: int64, k: int64): int64 {
    Wrap64(first + k)
  }

  datatype IdError = CannotRead | NotANumber | CannotUpdate

  /** Without an error, the batch starts at the stored counter and the counter moves past it. `cm` is
      null when the ConfigMap could not be read. */
  method GetNextClusterScopeHostInsIds(cm: ConfigMap?, n: int64, accepted: bool)
    returns (r: Result<seq<int64>, IdError>)
    modifies cm
    ensures cm == null ==> r == Failure(CannotRead)
    ensures cm != null ==>
      var stored := "NextClusterScopeCustInsId" in old(cm.data);
      var first := if stored then Atoi(old(cm.data)["NextClusterScopeCustInsId"]) else Some(1000);
      && (first.None? ==> r == Failure(NotANumber) && cm.data == old(cm.data))
      && (first.Some? ==>
            && cm.data == old(cm.data)["NextClusterScopeCustInsId" := Itoa(Wrap64(first.value + n))]
            && (r.Success? <==> accepted) && (r.Failure? ==> r == Failure(CannotUpdate)))
      && (r.Success? ==>
            && |r.value| == (if n < 0 then 0 else n)
            && forall k :: 0 <= k < |r.value| ==> r.value[k] == Wrap64(first.value + k))
  {
    DefaultIsAThousand();
    hide Atoi, Itoa;
    if cm == null {
      return Failure(CannotRead);
    }
    var id := NextId(Lookup(cm.data, NEXT_ID_KEY));
    if id.None? {
      return Failure(NotANumber);
    }
    var result: seq<int64> := [];
    var i := 0;
    while i < n
      invariant 0 <= i && (i <= n || i == 0)
      invariant cm.data == old(cm.data)
      invariant |result| == i && forall k :: 0 <= k < i ==> result[k] == Wrap64(id.value + k)
    {
      result := result + [Wrap64(id.value + i)];
      i := i + 1;
    }
    var nextId := Wrap64(id.value + n);
    cm.data := cm.data[NEXT_ID_KEY := Itoa(nextId)];
    if !accepted {
      return Failure(CannotUpdate);
    }
    return Success(result);
  }

  lemma DefaultIsAThousand()
    ensures NextId(None) == Some(1000)
  {
    var s := DEFAULT_NEXT_ID;
    assert s[..3][..2][..1] == "1" && s[..3][..2] == "10" && s[..3] == "100" && s[..3][..2][..1][..0] == "";
    assert AllDigits(s);
    assert DigitsValue("1") == 1 && DigitsValue("10") == 10 && DigitsValue("100") == 100 && DigitsValue(s) == 1000;
  }

  // ---------- any number of calls ----------

  /** `sizes(c)` is the number of ids that call `c` asks for. The call makes one attempt. */
  function IdRule(sizes: nat -> int64): (nat, Counter, Counter) -> bool {
    (call: nat, before: Counter, after: Counter) =>
      var first := NextId(before);
      first.Some? && after == Some(Itoa(Wrap64(first.value + sizes(call))))
  }

  const ONE_ATTEMPT := 1

  function Total(log: seq<Commit<Counter>>, sizes: nat -> int64): int {
    if log == [] then 0 else Total(log[..|log| - 1], sizes) + sizes(log[|log| - 1].call)
  }

  /** Two 64-bit integers are equal when they agree modulo 2^64. */
  predicate Congruent(a: int, b: int) {
    (a - b) % TWO_TO_THE_64 == 0
  }

  lemma CongruentAdds(a: int, b: int, c: int)
    requires Congruent(a, b)
    ensures Congruent(a + c, b + c)
  {
  }

  lemma CongruentTransitive(a: int, b: int, c: int)
    requires Congruent(a, b) && Congruent(b, c)
    ensures Congruent(a, c)
  {
  }

  lemma WrapIsCongruent(n: int)
    requires MIN_INT - TWO_TO_THE_64 <= n <= MAX_INT + TWO_TO_THE_64
    ensures Congruent(Wrap64(n), n)
  {
  }

  lemma NextBatch(initial: Counter, before: Counter, after: Counter, total: int, size: int64)
    requires NextId(initial).Some? && NextId(before).Some?
    requires Congruent(NextId(before).value, NextId(initial).value + total)
    requires after == Some(Itoa(Wrap64(NextId(before).value + size)))
    ensures NextId(after).Some? && Congruent(NextId(after).value, NextId(initial).value + total + size)
  {
    hide Atoi, Itoa, Congruent;
    var first: int := NextId(before).value;
    var start: int := NextId(initial).value;
    AtoiOfItoa(Wrap64(first + size));
    WrapIsCongruent(first + size);
    CongruentAdds(first, start + total, size);
    CongruentTransitive(Wrap64(first + size), first + size, start + total + size);
  }

  /** Where the `i`-th committed batch starts: past everything committed before it. */
  lemma {:induction false} BatchStart(initial: Counter, log: seq<Commit<Counter>>, sizes: nat -> int64, i: nat)
    requires NextId(initial).Some? && Chained(initial, log, IdRule(sizes)) && i <= |log|
    ensures NextId(Latest(initial, log[..i])).Some?
    ensures Congruent(NextId(Latest(initial, log[..i])).value, NextId(initial).value + Total(log[..i], sizes))
  {
    hide Atoi, Itoa;
    if i > 0 {
      hide Congruent;
      var prefix := log[..i - 1];
      assert log[..i][..i - 1] == prefix;
      BatchStart(initial, log, sizes, i - 1);
      var last := log[i - 1];
      assert last.before == Latest(initial, prefix);
      NextBatch(initial, last.before, last.after, Total(prefix, sizes), sizes(last.call));
      assert log[..i][|log[..i]| - 1] == last;
      assert Total(log[..i], sizes) == Total(prefix, sizes) + sizes(last.call);
    } else {
      assert log[..0] == [];
    }
  }

  predicate AllRead(log: seq<Commit<Counter>>) {
    forall i :: 0 <= i < |log| ==> NextId(log[i].before).Some?
  }

  /** The ids that a committed call returns, or would have returned but for a lost reply. */
  function BatchOf(commit: Commit<Counter>, sizes: nat -> int64): seq<int64>
    requires NextId(commit.before).Some?
  {
    Batch(NextId(commit.before).value, sizes(commit.call))
  }

  /** All committed batches, one after the other. */
  function AllIds(log: seq<Commit<Counter>>, sizes: nat -> int64): seq<int64>
    requires AllRead(log)
  {
    if log == [] then [] else AllIds(log[..|log| - 1], sizes) + BatchOf(log[|log| - 1], sizes)
  }

  predicate NoRepeats(ids: seq<int64>) {
    forall a, b :: 0 <= a < b < |ids| ==> ids[a] != ids[b]
  }

  /** What a call writes is a step of the protocol, and the ids that it returns are its commit's batch. */
  lemma AttemptIsIdStep(data: map<string, string>, first: int64, n: int64, ids: seq<int64>, sizes: nat -> int64,
                        call: nat, acknowledged: bool)
    requires sizes(call) == n
    requires if NEXT_ID_KEY in data then Atoi(data[NEXT_ID_KEY]) == Some(first) else first == 1000
    requires |ids| == if n < 0 then 0 else n
    requires forall k :: 0 <= k < |ids| ==> ids[k] == Wrap64(first + k)
    ensures var before, after := Lookup(data, NEXT_ID_KEY), Some(Itoa(Wrap64(first + n)));
      && IdRule(sizes)(call, before, after)
      && NextId(before).Some? && BatchOf(Commit(call, before, after, acknowledged), sizes) == ids
  {
    DefaultIsAThousand();
    hide Atoi, Itoa;
    assert NextId(Lookup(data, NEXT_ID_KEY)) == Some(first);
    assert Batch(first, n) == ids;
  }

  lemma ChainReads(initial: Counter, log: seq<Commit<Counter>>, sizes: nat -> int64)
    requires Chained(initial, log, IdRule(sizes))
    ensures AllRead(log)
  {
  }

  /** The committed ids count up from the first counter, modulo 2^64. */
  lemma {:induction false} IdsCountUp(initial: Counter, log: seq<Commit<Counter>>, sizes: nat -> int64)
    requires (forall c :: sizes(c) >= 0) && NextId(initial).Some?
    requires Chained(initial, log, IdRule(sizes)) && AllRead(log)
    ensures |AllIds(log, sizes)| == Total(log, sizes)
    ensures forall o :: 0 <= o < |AllIds(log, sizes)| ==> Congruent(AllIds(log, sizes)[o], NextId(initial).value + o)
    decreases |log|
  {
    hide Congruent, NextId, Wrap64, IdRule, Chained;
    if log == [] {
      return;
    }
    var front, last := log[..|log| - 1], log[|log| - 1];
    assert Total(log, sizes) == Total(front, sizes) + sizes(last.call);
    assert AllIds(log, sizes) == AllIds(front, sizes) + BatchOf(last, sizes);
    hide *;
    assert Chained(initial, front, IdRule(sizes)) && last.before == Latest(initial, front) by {
      ChainFront(initial, log, sizes);
    }
    ChainReads(initial, front, sizes);
    IdsCountUp(initial, front, sizes);
    BatchStart(initial, log, sizes, |log| - 1);
    BatchSize(last, sizes);
    CountingGoesOn(AllIds(front, sizes), BatchOf(last, sizes), NextId(initial).value, NextId(last.before).value);
  }

  lemma BatchSize(commit: Commit<Counter>, sizes: nat -> int64)
    requires NextId(commit.before).Some? && sizes(commit.call) >= 0
    ensures var batch := BatchOf(commit, sizes);
      |batch| == sizes(commit.call) && forall k :: 0 <= k < |batch| ==> batch[k] == Wrap64(NextId(commit.before).value + k)
  {
  }

  lemma CountingGoesOn(ids: seq<int64>, more: seq<int64>, start: int, first: int64)
    requires forall o :: 0 <= o < |ids| ==> Congruent(ids[o], start + o)
    requires |more| <= MAX_INT && forall k :: 0 <= k < |more| ==> more[k] == Wrap64(first + k)
    requires Congruent(first, start + |ids|)
    ensures forall o :: 0 <= o < |ids + more| ==> Congruent((ids + more)[o], start + o)
  {
    hide Congruent, Wrap64;
    forall k | 0 <= k < |more|
      ensures Congruent(more[k], start + |ids| + k)
    {
      WrapIsCongruent(first + k);
      CongruentAdds(first, start + |ids|, k);
      CongruentTransitive(more[k], first + k, start + |ids| + k);
    }
    forall o | 0 <= o < |ids + more|
      ensures Congruent((ids + more)[o], start + o)
    {
      if o >= |ids| {
        var k := o - |ids|;
        assert Congruent(more[k], start + |ids| + k);
      }
    }
  }

  lemma ChainFront(initial: Counter, log: seq<Commit<Counter>>, sizes: nat -> int64)
    requires log != [] && Chained(initial, log, IdRule(sizes))
    ensures Chained(initial, log[..|log| - 1], IdRule(sizes))
    ensures log[|log| - 1].before == Latest(initial, log[..|log| - 1])
  {
    hide IdRule, Latest;
    var front := log[..|log| - 1];
    assert forall i :: 0 <= i < |front| ==> front[..i] == log[..i];
  }

  lemma SameIdSameOffset(x: int, a: int, y: int, b: int)
    requires Congruent(x, a) && Congruent(y, b) && -TWO_TO_THE_64 < a - b < TWO_TO_THE_64
    ensures x == y ==> a == b
  {
  }

  /** Numbers that count up modulo 2^64 repeat exactly when there are more than 2^64 of them. */
  lemma CountingRepeatsIff(ids: seq<int64>, start: int)
    requires forall o :: 0 <= o < |ids| ==> Congruent(ids[o], start + o)
    ensures NoRepeats(ids) <==> |ids| <= TWO_TO_THE_64
  {
    hide Congruent;
    if |ids| <= TWO_TO_THE_64 {
      forall a, b | 0 <= a < b < |ids|
        ensures ids[a] != ids[b]
      {
        SameIdSameOffset(ids[a], start + a, ids[b], start + b);
      }
    } else {
      SameResidueSameId(ids[0], start + 0, ids[TWO_TO_THE_64]);
    }
  }

  /** In every run, also when replies are lost: the counter has moved by exactly the sizes of all
      committed batches (modulo 2^64), and each batch starts where the one before it ended. */
  lemma CounterCountsEveryBatch(initial: Counter, version: nat, run: seq<Event<Counter>>, sizes: nat -> int64,
                                s: State<Counter>)
    requires NextId(initial).Some?
    requires Exec(Start(initial, version), run, ONE_ATTEMPT, IdRule(sizes)) == Some(s)
    ensures NextId(s.data).Some? && Congruent(NextId(s.data).value, NextId(initial).value + Total(s.log, sizes))
    ensures AllRead(s.log)
    ensures forall i :: 0 < i < |s.log| ==>
              NextId(s.log[i].before) == Some(Wrap64(NextId(s.log[i - 1].before).value + sizes(s.log[i - 1].call)))
  {
    hide Atoi, Itoa, Total, Chained, IdRule, NextId, Exec, HoldersOk, CallsOk, Congruent;
    RunKeepsInvariant(initial, version, run, ONE_ATTEMPT, IdRule(sizes), s);
    var log := s.log;
    ChainReads(initial, log, sizes);
    BatchStart(initial, log, sizes, |log|);
    assert log[..|log|] == log;
    forall i | 0 < i < |log|
      ensures NextId(log[i].before) == Some(Wrap64(NextId(log[i - 1].before).value + sizes(log[i - 1].call)))
    {
      BatchFollows(initial, log, sizes, i);
    }
  }

  /** In every run whose sizes are not negative, also when replies are lost: the committed batches hold no
      id twice, within a batch or across batches, if and only if they hold at most 2^64 ids. */
  lemma IdsAreDistinct(initial: Counter, version: nat, run: seq<Event<Counter>>, sizes: nat -> int64,
                       s: State<Counter>)
    requires (forall c :: sizes(c) >= 0) && NextId(initial).Some?
    requires Exec(Start(initial, version), run, ONE_ATTEMPT, IdRule(sizes)) == Some(s)
    ensures AllRead(s.log)
    ensures NoRepeats(AllIds(s.log, sizes)) <==> |AllIds(s.log, sizes)| <= TWO_TO_THE_64
    ensures |AllIds(s.log, sizes)| == Total(s.log, sizes)
  {
    hide Atoi, Itoa, Total, Chained, IdRule, NextId, Exec, NoRepeats, HoldersOk, CallsOk, AllIds;
    RunKeepsInvariant(initial, version, run, ONE_ATTEMPT, IdRule(sizes), s);
    ChainReads(initial, s.log, sizes);
    IdsCountUp(initial, s.log, sizes);
    CountingRepeatsIff(AllIds(s.log, sizes), NextId(initial).value);
  }

  /** In every run, a call commits at most one batch, also when its reply is lost; a call that returns a
      batch committed that batch and no other. */
  lemma CallCommitsOneBatch(initial: Counter, version: nat, run: seq<Event<Counter>>, sizes: nat -> int64,
                            s: State<Counter>, c: nat)
    requires Exec(Start(initial, version), run, ONE_ATTEMPT, IdRule(sizes)) == Some(s)
    requires c in s.calls
    ensures |Mine(s.log, c)| <= 1
    ensures s.calls[c].Returned? && s.calls[c].result.Some? ==> Mine(s.log, c) == [s.calls[c].result.value]
  {
    hide Exec, Mine;
    CallWritesWhatItReturns(initial, version, run, ONE_ATTEMPT, IdRule(sizes), s, c);
  }

  lemma BatchFollows(initial: Counter, log: seq<Commit<Counter>>, sizes: nat -> int64, i: nat)
    requires Chained(initial, log, IdRule(sizes)) && 0 < i < |log|
    ensures NextId(log[i - 1].before).Some?
    ensures NextId(log[i].before) == Some(Wrap64(NextId(log[i - 1].before).value + sizes(log[i - 1].call)))
  {
    hide Atoi, Itoa;
    AtoiOfItoa(Wrap64(NextId(log[i - 1].before).value + sizes(log[i - 1].call)));
  }

  lemma SameResidueSameId(x: int64, start: int, y: int64)
    requires Congruent(x, start) && Congruent(y, start + TWO_TO_THE_64)
    ensures x == y
  {
  }

  // ---------- negative sizes ----------

  /** How many ids a second call must ask for so that a call for `n` ids leads back into its batch. */
  function Opposite(n: int64): int64
    requires n < 0
  {
    if n == MIN_INT then MAX_INT else -n
  }

  /** A call that begins, reads and writes, with nothing in between. */
  lemma OneCall(initial: Counter, run: seq<Event<Counter>>, s: State<Counter>, c: nat, sizes: nat -> int64)
    returns (longer: seq<Event<Counter>>, s': State<Counter>)
    requires Exec(Start(initial, 0), run, ONE_ATTEMPT, IdRule(sizes)) == Some(s)
    requires c !in s.calls && NextId(s.data).Some?
    ensures Exec(Start(initial, 0), longer, ONE_ATTEMPT, IdRule(sizes)) == Some(s')
    ensures NextId(s'.data) == Some(Wrap64(NextId(s.data).value + sizes(c)))
    ensures s'.calls.Keys == s.calls.Keys + {c} && s'.log == s.log + [Commit(c, s.data, s'.data, true)]
  {
    hide Exec, Itoa, Atoi, Wrap64;
    var next := Wrap64(NextId(s.data).value + sizes(c));
    var after := Some(Itoa(next));
    AtoiOfItoa(next);
    var start, rule := Start(initial, 0), IdRule(sizes);
    assert rule(c, s.data, after);
    longer := run;
    ExecOneMore(start, longer, Begin(c), ONE_ATTEMPT, rule);
    longer := longer + [Begin(c)];
    ExecOneMore(start, longer, Load(c), ONE_ATTEMPT, rule);
    longer := longer + [Load(c)];
    ExecOneMore(start, longer, Write(c, after, Acknowledged), ONE_ATTEMPT, rule);
    longer := longer + [Write(c, after, Acknowledged)];
    s' := Exec(start, longer, ONE_ATTEMPT, rule).value;
  }

  lemma BackAndForth(first: int64, n: int64)
    requires n < 0
    ensures var third := Wrap64(Wrap64(first + Opposite(n)) + n);
      Wrap64(third + (if n == MIN_INT then 1 else 0)) == first
  {
  }

  lemma IdsOfThree(log: seq<Commit<Counter>>, sizes: nat -> int64)
    requires |log| == 3 && AllRead(log)
    ensures AllIds(log, sizes) == BatchOf(log[0], sizes) + BatchOf(log[1], sizes) + BatchOf(log[2], sizes)
  {
    hide BatchOf, NextId;
    assert log[..1][..0] == [] && log[..2][..1] == log[..1];
    assert AllIds(log[..1], sizes) == BatchOf(log[0], sizes);
    assert AllIds(log[..2], sizes) == BatchOf(log[0], sizes) + BatchOf(log[1], sizes);
  }

  /** Every negative size breaks distinctness, whatever the counter holds: calls for `Opposite(n)`, `n`
      and again `Opposite(n)` ids, one after the other, hand out some id twice. */
  lemma NegativeSizeRepeats(n: int64, initial: Counter, sizes: nat -> int64)
    requires n < 0 && NextId(initial).Some?
    requires sizes(0) == Opposite(n) && sizes(1) == n && sizes(2) == Opposite(n)
    ensures exists run, s: State<Counter> ::
              && Exec(Start(initial, 0), run, ONE_ATTEMPT, IdRule(sizes)) == Some(s)
              && AllRead(s.log) && !NoRepeats(AllIds(s.log, sizes)) && |AllIds(s.log, sizes)| <= TWO_TO_THE_64
  {
    hide Exec, IdRule, NextId, Wrap64, AllIds;
    var run: seq<Event<Counter>>, s: State<Counter> := [], Start(initial, 0);
    ExecNone(s, ONE_ATTEMPT, IdRule(sizes));
    run, s := OneCall(initial, run, s, 0, sizes);
    var b := s.data;
    run, s := OneCall(initial, run, s, 1, sizes);
    var c := s.data;
    run, s := OneCall(initial, run, s, 2, sizes);
    assert s.log == [Commit(0, initial, b, true), Commit(1, b, c, true), Commit(2, c, s.data, true)];
    BackAndForth(NextId(initial).value, n);
    IdsOfThree(s.log, sizes);
    var ids := AllIds(s.log, sizes);
    assert ids[0] == Wrap64(NextId(initial).value + 0);
    assert Wrap64(NextId(initial).value + 0) == NextId(initial).value;
    assert ids[Opposite(n) + if n == MIN_INT then 1 else 0] == ids[0];
  }

  /** No run repeats an id among its first 2^64, when sizes that are not negative mix with `n`. */
  ghost predicate SafeSize(initial: Counter, n: int64) {
    forall sizes: nat -> int64, run, s: State<Counter> ::
      && (forall c :: sizes(c) >= 0 || sizes(c) == n)
      && Exec(Start(initial, 0), run, ONE_ATTEMPT, IdRule(sizes)) == Some(s)
      ==> AllRead(s.log) && (|AllIds(s.log, sizes)| <= TWO_TO_THE_64 ==> NoRepeats(AllIds(s.log, sizes)))
  }

  function SizeAround(n: int64, call: nat): int64
    requires n < 0
  {
    if call == 1 then n else Opposite(n)
  }

  /** The sizes that are safe to ask for are exactly those that are not negative. */
  lemma SafeSizeIff(initial: Counter, n: int64)
    requires NextId(initial).Some?
    ensures SafeSize(initial, n) <==> n >= 0
  {
    hide Exec, IdRule, NextId, Total, NoRepeats, AllRead, AllIds;
    if n >= 0 {
      forall sizes: nat -> int64, run, s: State<Counter> |
        && (forall c :: sizes(c) >= 0 || sizes(c) == n)
        && Exec(Start(initial, 0), run, ONE_ATTEMPT, IdRule(sizes)) == Some(s)
        ensures AllRead(s.log) && (|AllIds(s.log, sizes)| <= TWO_TO_THE_64 ==> NoRepeats(AllIds(s.log, sizes)))
      {
        IdsAreDistinct(initial, 0, run, sizes, s);
      }
    } else {
      var sizes: nat -> int64 := (c: nat) => SizeAround(n, c);
      NegativeSizeRepeats(n, initial, sizes);
      assert forall c :: sizes(c) >= 0 || sizes(c) == n;
    }
  }
}
