/** Any number of port allocators at once: what every interleaving guarantees about the ports. */
module PortAllocators {
  import opened Wrappers
  import opened GoText
  import opened GoSets
  import opened ConfigMaps
  import opened PortRanges
  import opened PortGenerator
  import opened CasProtocol

  type Cursor = Option<string>

  /** A write stores the port that the scan selects after the cursor read, for whatever ports were
      in use at that moment. */
  ghost predicate PortStep(ranges: Ranges, before: Cursor, after: Cursor) {
    exists used: set<int32> :: Selects(ranges, before, used, after)
  }

  predicate Selects(ranges: Ranges, before: Cursor, used: set<int32>, after: Cursor) {
    var port := NextPort(ranges, CursorOf(before, ranges.Begin()), Some(used));
    port.Some? && after == Some(Itoa(port.value))
  }

  ghost function PortRule(ranges: Ranges): (nat, Cursor, Cursor) -> bool {
    (call, before, after) => PortStep(ranges, before, after)
  }

  /** The port that a stored text records. */
  function PortIn(cursor: Cursor): int {
    CursorOf(cursor, 0)
  }

  lemma StepBounds(ranges: Ranges, before: Cursor, after: Cursor)
    requires Canonical(ranges.range) && PortStep(ranges, before, after)
    ensures ranges.Contains(PortIn(after))
    ensures ScanStart(ranges, CursorOf(before, ranges.Begin())) < PortIn(after) <= ranges.End()
    ensures after.Some? && CursorOf(after, ranges.Begin()) == PortIn(after) && after == Some(Itoa(PortIn(after)))
  {
    hide Int32Of, LeastFree, Itoa, Atoi;
    var used :| Selects(ranges, before, used, after);
    var port := NextPort(ranges, CursorOf(before, ranges.Begin()), Some(used)).value;
    ContainsUpToLast(ranges.range, port);
    AtoiOfItoa(port);
  }

  /** In every run, each committed port lies in the range, is not reserved, and is the one the scan
      selects after the cursor committed just before it. */
  lemma EachPortFollowsThePreviousCursor(ranges: Ranges, initial: Cursor, version: nat, run: seq<Event<Cursor>>,
                                         s: State<Cursor>, i: nat)
    requires Canonical(ranges.range)
    requires Exec(Start(initial, version), run, MAX_ATTEMPTS, PortRule(ranges)) == Some(s)
    requires i < |s.log|
    ensures ranges.Contains(PortIn(s.log[i].after))
    ensures PortStep(ranges, if i == 0 then initial else s.log[i - 1].after, s.log[i].after)
    ensures s.data == s.log[|s.log| - 1].after
  {
    hide Exec, PortStep, HoldersOk, CallsOk, CursorOf, ScanStart, Itoa, Ranges.Contains, Ranges.End, PortIn;
    RunKeepsInvariant(initial, version, run, MAX_ATTEMPTS, PortRule(ranges), s);
    assert s.log[i].before == Latest(initial, s.log[..i]);
    assert s.log[..|s.log|] == s.log;
    StepBounds(ranges, s.log[i].before, s.log[i].after);
  }

  /** Ports only grow along the chain, as long as none of them is the end of the range. */
  lemma {:induction false} PortsGrow(ranges: Ranges, initial: Cursor, log: seq<Commit<Cursor>>, i: nat, j: nat)
    requires Canonical(ranges.range) && Chained(initial, log, PortRule(ranges))
    requires i < j < |log|
    requires forall m :: i <= m < j ==> PortIn(log[m].after) != ranges.End()
    ensures PortIn(log[i].after) < PortIn(log[j].after)
  {
    hide PortStep, ScanStart;
    var before := log[j - 1].after;
    assert log[j].before == Latest(initial, log[..j]) == before;
    StepBounds(ranges, log[j - 1].before, before);
    StepBounds(ranges, log[j].before, log[j].after);
    assert ScanStart(ranges, CursorOf(before, ranges.Begin())) == PortIn(before) by {
      StartBelowEnd(ranges, PortIn(before));
    }
    if i < j - 1 {
      PortsGrow(ranges, initial, log, i, j - 1);
    }
  }

  lemma StartBelowEnd(ranges: Ranges, cursor: int64)
    requires cursor < ranges.End()
    ensures ScanStart(ranges, cursor) == cursor
  {
  }

  /** In every run, a port is committed again only after the end of the range was committed, at or
      after the first time and before the second. */
  lemma RepeatedPortMeansWrapAround(ranges: Ranges, initial: Cursor, version: nat, run: seq<Event<Cursor>>,
                                    s: State<Cursor>, i: nat, j: nat)
    requires Canonical(ranges.range)
    requires Exec(Start(initial, version), run, MAX_ATTEMPTS, PortRule(ranges)) == Some(s)
    requires i < j < |s.log| && s.log[i].after == s.log[j].after
    ensures exists m :: i <= m < j && s.log[m].after == Some(Itoa(ranges.End()))
  {
    RunKeepsInvariant(initial, version, run, MAX_ATTEMPTS, PortRule(ranges), s);
    hide Exec, HoldersOk, CallsOk, PortStep, Itoa, Atoi;
    if forall m :: i <= m < j ==> PortIn(s.log[m].after) != ranges.End() {
      PortsGrow(ranges, initial, s.log, i, j);
      assert false;
    }
    var m :| i <= m < j && PortIn(s.log[m].after) == ranges.End();
    StepBounds(ranges, s.log[m].before, s.log[m].after);
  }

  /** In every run, a call of GetNextClusterExternalPort commits at most three ports, and the one it
      returns is the last of them. It commits exactly the port it returns, and none when it returns
      none, if and only if no reply to an accepted write of its own is lost. */
  lemma CallCommitsWhatItReturns(ranges: Ranges, initial: Cursor, version: nat, run: seq<Event<Cursor>>,
                                 s: State<Cursor>, c: nat)
    requires Exec(Start(initial, version), run, MAX_ATTEMPTS, PortRule(ranges)) == Some(s)
    requires c in s.calls
    ensures var mine := Mine(s.log, c);
      var result := if s.calls[c].Returned? then s.calls[c].result else None;
      && |mine| <= 3
      && (result.Some? ==> mine != [] && mine[|mine| - 1] == result.value)
      && ((forall m :: m in mine ==> m.acknowledged) <==> mine == if result.Some? then [result.value] else [])
  {
    CallWritesWhatItReturns(initial, version, run, MAX_ATTEMPTS, PortRule(ranges), s, c);
  }

  /** A lost reply leaks a port. With the range 30000-30002, no cursor and no port in use, one call can
      commit 30001, not hear of it, and commit and return 30002. */
  lemma LostReplyLeaksPort()
    ensures var ranges := Ranges(Interval(30000, 3), []);
      var first, second := Some(Itoa(30001)), Some(Itoa(30002));
      exists run, s: State<Cursor> ::
        && Exec(Start(None, 0), run, MAX_ATTEMPTS, PortRule(ranges)) == Some(s)
        && s.calls == map[0 := Returned(Some(Commit(0, first, second, true)))]
        && s.log == [Commit(0, None, first, false), Commit(0, first, second, true)]
  {
    hide Itoa, Atoi;
    var ranges := Ranges(Interval(30000, 3), []);
    var first, second := Some(Itoa(30001)), Some(Itoa(30002));
    AtoiOfItoa(30001);
    assert Selects(ranges, None, {}, first);
    assert Selects(ranges, first, {}, second);
    LostReplyLeaks(None, first, second, MAX_ATTEMPTS, PortRule(ranges));
  }

  // ---------- one attempt is one step ----------

  /** What an attempt writes is a step of the protocol, over ranges of the kind the theorems above ask
      for, whatever the annotations hold. */
  lemma AttemptIsPortStep(data: map<string, string>, annotations: map<string, string>, key: string, names: Names,
                          used: Result<Option<set<int32>>, ()>)
    ensures var choice := Choose(data, annotations, key, names, used);
      choice.Success? ==>
        && RangesIn(annotations, names).Some?
        && Canonical(RangesIn(annotations, names).value.range)
        && PortStep(RangesIn(annotations, names).value, Lookup(data, key), Lookup(data[key := Itoa(choice.value)], key))
  {
    hide Itoa, ParseRanges, CursorOf, NextPort;
    ParsedRangesAreCanonical(TextOrEmpty(Lookup(annotations, names.portRange)),
                             TextOrEmpty(Lookup(annotations, names.reservedPortRanges)));
    var choice := Choose(data, annotations, key, names, used);
    if choice.Success? {
      var ranges := RangesIn(annotations, names).value;
      var ports := if used.value.Some? then used.value.value else {};
      assert used.value.Some? by {
        NothingWithoutUsedSet(ranges, CursorOf(Lookup(data, key), ranges.Begin()));
      }
      assert Selects(ranges, Lookup(data, key), ports, Some(Itoa(choice.value)));
    }
  }

  lemma NothingWithoutUsedSet(ranges: Ranges, cursor: int64)
    ensures NextPort(ranges, cursor, None) == None
  {
  }
}
