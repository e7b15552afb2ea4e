/**
 Flushing again and again: the effective values are written to the running parameters, whose update
 time moves only where the value changed, and the flush time is recorded. Writing the running
 parameters is done by the cluster manager; this is the part of its behaviour that is assumed.
 */
module Convergence {
  import opened Wrappers
  import opened GoText
  import opened Templates
  import opened EffectiveParams
  import opened FlushCycles

  /** What stays fixed over the cycles. */
  datatype Config = Config(user: Params, template: seq<Item>, classParams: map<string, string>, canUpdate: bool)

  /** What a flush changes. */
  datatype Stores = Stores(running: Params, latestFlush: string)

  /** The clock of one flush: when changed values are stamped, and what is recorded at its end. */
  datatype Tick = Tick(stamp: string, done: string)

  function InputsOf(cfg: Config, s: Stores): Inputs {
    Inputs(cfg.user, s.running, s.latestFlush, cfg.template, cfg.classParams, false, cfg.canUpdate)
  }

  /** One pass of GetEffectiveParams(false, canUpdate). */
  function Pass(cfg: Config, s: Stores): (r: Outcome)
    ensures r.Effective? && r.params.Keys == EffectiveKeys(InputsOf(cfg, s))
  {
    EffectiveOutcome(InputsOf(cfg, s))
  }

  function RunningAt(s: Stores, key: string): Option<ParamItem> {
    if key in s.running then Some(s.running[key]) else None
  }

  function Rewritten(old_: Option<ParamItem>, key: string, value: string, stamp: string): ParamItem {
    if old_.None? then ParamItem(key, value, stamp, "")
    else if old_.value.value == value then old_.value
    else old_.value.(value := value, updateTime := stamp)
  }

  function Flush(cfg: Config, s: Stores, tick: Tick): Stores {
    var params := Pass(cfg, s).params;
    Stores(map key | key in s.running.Keys + params.Keys ::
             if key in params then Rewritten(RunningAt(s, key), key, params[key], tick.stamp) else s.running[key],
           tick.done)
  }

  function After(cfg: Config, s: Stores, ticks: seq<Tick>): Stores {
    if ticks == [] then s else Flush(cfg, After(cfg, s, ticks[..|ticks| - 1]), ticks[|ticks| - 1])
  }

  /** Every flush happens later than every change the user made. */
  predicate LaterThanUser(cfg: Config, ticks: seq<Tick>) {
    forall i, key :: 0 <= i < |ticks| && key in cfg.user ==>
      Less(cfg.user[key].updateTime, ticks[i].stamp) && Less(cfg.user[key].updateTime, ticks[i].done)
  }

  predicate IsKey(cfg: Config, key: string) {
    key in cfg.user && !Ignored(key)
  }

  // ---------- one key ----------

  function ItemsAt(cfg: Config, key: string): seq<Item> {
    MergedNamed(cfg.template, cfg.classParams, key)
  }

  function ForcedAt(cfg: Config, key: string): Option<string> {
    ForcedValue(ItemsAt(cfg, key), cfg.canUpdate)
  }

  predicate NewerThan(cfg: Config, key: string, running: ParamItem)
    requires key in cfg.user
  {
    Less(running.updateTime, cfg.user[key].updateTime)
  }

  function Quoted(cfg: Config, key: string, value: string): string
    requires key in cfg.user
  {
    Quote(cfg.user[key].value, value, RegexOf(ItemsAt(cfg, key)))
  }

  /** The effective value of a key, given what is running. The flush time plays no part in it. */
  function ValueAt(cfg: Config, key: string, running: Option<ParamItem>): string
    requires key in cfg.user
  {
    if running.None? then cfg.user[key].value
    else if ForcedAt(cfg, key).Some? then ForcedAt(cfg, key).value
    else if NewerThan(cfg, key, running.value) then cfg.user[key].value
    else Quoted(cfg, key, running.value.value)
  }

  lemma PassAt(cfg: Config, s: Stores, key: string)
    requires IsKey(cfg, key)
    ensures key in Pass(cfg, s).params && Pass(cfg, s).params[key] == ValueAt(cfg, key, RunningAt(s, key))
  {
    hide Overridden, ForcedValue, Quote, Less, MergedNamed;
    var inp := InputsOf(cfg, s);
    assert Pass(cfg, s).params[key] == Resolved(inp, key).value;
    if key in s.running {
      OverriddenValue(ItemsFor(inp, key), Reconciled(inp, key), cfg.canUpdate);
    }
  }

  lemma FlushAt(cfg: Config, s: Stores, tick: Tick, key: string)
    requires IsKey(cfg, key)
    ensures RunningAt(Flush(cfg, s, tick), key) ==
            Some(Rewritten(RunningAt(s, key), key, ValueAt(cfg, key, RunningAt(s, key)), tick.stamp))
  {
    hide Pass, ValueAt, Rewritten;
    PassAt(cfg, s, key);
  }

  // ---------- one key over many flushes ----------

  /** The value of the first pass. */
  function FirstValue(cfg: Config, s: Stores, key: string): string
    requires key in cfg.user
  {
    ValueAt(cfg, key, RunningAt(s, key))
  }

  /** The user's newer value was running already: the running item is never rewritten. */
  predicate NeverRewritten(cfg: Config, s: Stores, key: string)
    requires key in cfg.user
  {
    key in s.running && NewerThan(cfg, key, s.running[key]) && s.running[key].value == FirstValue(cfg, s, key)
  }

  /** The first value settles: quoting it is stable. */
  predicate QuotesSettle(cfg: Config, key: string, value: string)
    requires key in cfg.user
  {
    Quoted(cfg, key, value) == value || '\n' !in value
  }

  /** What a key looks like after `n` flushes, n >= 1. */
  predicate KeyAfter(cfg: Config, s: Stores, key: string, n: nat, running: Option<ParamItem>)
    requires key in cfg.user
  {
    && running.Some?
    && var first := FirstValue(cfg, s, key);
    if NeverRewritten(cfg, s, key) then running == RunningAt(s, key)
    else
      && !NewerThan(cfg, key, running.value)
      && (n <= 1 ==> running.value.value == first)
      && (n > 1 && ForcedAt(cfg, key).Some? ==> running.value.value == ForcedAt(cfg, key).value)
      && (ForcedAt(cfg, key).None? ==>
            if QuotesSettle(cfg, key, first)
            then n > 1 ==> running.value.value == Quoted(cfg, key, first)
            else
              && '\n' in running.value.value
              && Quoted(cfg, key, running.value.value) == "'" + running.value.value + "'"
              && |running.value.value| == |first| + 2 * (n - 1))
  }

  lemma FirstFlush(cfg: Config, s: Stores, tick: Tick, key: string)
    requires IsKey(cfg, key) && Less(cfg.user[key].updateTime, tick.stamp)
    ensures KeyAfter(cfg, s, key, 1, RunningAt(Flush(cfg, s, tick), key))
  {
    hide Flush, Less, ForcedAt, Quoted, ItemsAt;
    FlushAt(cfg, s, tick, key);
    LessAsymmetric(cfg.user[key].updateTime, tick.stamp);
    var first := FirstValue(cfg, s, key);
    QuotedGrows(cfg, key, first);
  }

  lemma QuotedGrows(cfg: Config, key: string, value: string)
    requires key in cfg.user
    ensures Quoted(cfg, key, value) == value || Quoted(cfg, key, value) == "'" + value + "'"
    ensures QuotesSettle(cfg, key, value) <==> Quoted(cfg, key, Quoted(cfg, key, value)) == Quoted(cfg, key, value)
    ensures !QuotesSettle(cfg, key, value) ==>
              && Quoted(cfg, key, value) == "'" + value + "'"
              && '\n' in Quoted(cfg, key, value)
              && Quoted(cfg, key, Quoted(cfg, key, value)) == "'" + Quoted(cfg, key, value) + "'"
  {
  }

  lemma NextFlush(cfg: Config, s: Stores, n: nat, now: Stores, tick: Tick, key: string)
    requires IsKey(cfg, key) && Less(cfg.user[key].updateTime, tick.stamp)
    requires n >= 1 && KeyAfter(cfg, s, key, n, RunningAt(now, key))
    ensures KeyAfter(cfg, s, key, n + 1, RunningAt(Flush(cfg, now, tick), key))
  {
    hide Flush, Less, ForcedAt, Quoted, ItemsAt;
    FlushAt(cfg, now, tick, key);
    LessAsymmetric(cfg.user[key].updateTime, tick.stamp);
    QuotedGrows(cfg, key, FirstValue(cfg, s, key));
    QuotedGrows(cfg, key, RunningAt(now, key).value.value);
  }

  lemma {:induction false} KeyRun(cfg: Config, s: Stores, ticks: seq<Tick>, key: string)
    requires IsKey(cfg, key) && ticks != [] && LaterThanUser(cfg, ticks)
    ensures KeyAfter(cfg, s, key, |ticks|, RunningAt(After(cfg, s, ticks), key))
    decreases |ticks|
  {
    hide Flush, KeyAfter;
    var front, last := ticks[..|ticks| - 1], ticks[|ticks| - 1];
    assert LaterThanUser(cfg, front);
    if front == [] {
      FirstFlush(cfg, s, last, key);
    } else {
      KeyRun(cfg, s, front, key);
      NextFlush(cfg, s, |front|, After(cfg, s, front), last, key);
    }
  }

  /** The value of the pass that follows `n` flushes, n >= 1. */
  lemma ValueAfter(cfg: Config, s: Stores, key: string, n: nat, running: Option<ParamItem>)
    requires key in cfg.user && n >= 1 && KeyAfter(cfg, s, key, n, running)
    ensures var first := FirstValue(cfg, s, key);
      var value := ValueAt(cfg, key, running);
      if NeverRewritten(cfg, s, key) then value == first
      else if ForcedAt(cfg, key).Some? then value == ForcedAt(cfg, key).value
      else if QuotesSettle(cfg, key, first) then value == Quoted(cfg, key, first)
      else |value| == |first| + 2 * n
  {
  }

  // ---------- all keys ----------

  /** A key settles unless quotes are added, again and again, around a value that holds a newline. */
  predicate Settles(cfg: Config, s: Stores, key: string)
    requires key in cfg.user
  {
    || ForcedAt(cfg, key).Some?
    || NeverRewritten(cfg, s, key)
    || QuotesSettle(cfg, key, StoredValue(cfg, s, key))
  }

  /** The value that quoting starts from: the user's where it is newer or not running yet, otherwise
      the running one. */
  function StoredValue(cfg: Config, s: Stores, key: string): string
    requires key in cfg.user
  {
    if key in s.running && !NewerThan(cfg, key, s.running[key]) then s.running[key].value else cfg.user[key].value
  }

  /** Whether the first value settles can be read off the stored values. */
  lemma FirstSettlesIffStoredDoes(cfg: Config, s: Stores, key: string)
    requires key in cfg.user && ForcedAt(cfg, key).None?
    ensures QuotesSettle(cfg, key, FirstValue(cfg, s, key)) <==> QuotesSettle(cfg, key, StoredValue(cfg, s, key))
  {
  }

  lemma KeySettlesIff(cfg: Config, s: Stores, ticks: seq<Tick>, key: string)
    requires IsKey(cfg, key) && |ticks| >= 2 && LaterThanUser(cfg, ticks)
    ensures Pass(cfg, After(cfg, s, ticks)).params[key] == Pass(cfg, After(cfg, s, ticks[..1])).params[key]
            <==> Settles(cfg, s, key)
  {
    hide KeyAfter, QuotesSettle, Quoted, ForcedAt, NeverRewritten, Pass, ValueAt, After, StoredValue, FirstValue;
    KeyRun(cfg, s, ticks, key);
    KeyRun(cfg, s, ticks[..1], key);
    ValueAfter(cfg, s, key, |ticks|, RunningAt(After(cfg, s, ticks), key));
    ValueAfter(cfg, s, key, 1, RunningAt(After(cfg, s, ticks[..1]), key));
    PassAt(cfg, After(cfg, s, ticks), key);
    PassAt(cfg, After(cfg, s, ticks[..1]), key);
    if ForcedAt(cfg, key).None? {
      FirstSettlesIffStoredDoes(cfg, s, key);
    }
  }

  /** For every starting state and every sequence of at least two flushes: the effective values of the
      pass after them are those of the second pass exactly when every key settles. So the second pass
      is a fixed point of all later ones, or no later pass ever agrees with it. */
  lemma SecondPassIsFixedIff(cfg: Config, s: Stores, ticks: seq<Tick>)
    requires |ticks| >= 2 && LaterThanUser(cfg, ticks)
    ensures Pass(cfg, After(cfg, s, ticks)).params == Pass(cfg, After(cfg, s, ticks[..1])).params
            <==> forall key :: IsKey(cfg, key) ==> Settles(cfg, s, key)
  {
    hide Pass, Settles, After, LaterThanUser;
    var later, second := Pass(cfg, After(cfg, s, ticks)).params, Pass(cfg, After(cfg, s, ticks[..1])).params;
    forall key | IsKey(cfg, key)
      ensures later[key] == second[key] <==> Settles(cfg, s, key)
    {
      KeySettlesIff(cfg, s, ticks, key);
    }
    assert forall key :: key in later <==> IsKey(cfg, key);
    assert forall key :: key in second <==> IsKey(cfg, key);
  }

  /** When every effective key is running already, the first pass agrees with the second up to quotes. */
  lemma FirstPassUpToQuotes(cfg: Config, s: Stores, tick: Tick, key: string)
    requires IsKey(cfg, key) && key in s.running && LaterThanUser(cfg, [tick])
    ensures var first := Pass(cfg, s).params[key];
      var second := Pass(cfg, Flush(cfg, s, tick)).params[key];
      second == first || second == "'" + first + "'"
  {
    hide Flush, Pass, KeyAfter, QuotesSettle, Quoted, ItemsAt, ForcedValue;
    assert Less(cfg.user[key].updateTime, [tick][0].stamp);
    FirstFlush(cfg, s, tick, key);
    PassAt(cfg, s, key);
    PassAt(cfg, Flush(cfg, s, tick), key);
    SecondValue(cfg, s, key, RunningAt(Flush(cfg, s, tick), key));
  }

  lemma SecondValue(cfg: Config, s: Stores, key: string, running: Option<ParamItem>)
    requires key in cfg.user && key in s.running && KeyAfter(cfg, s, key, 1, running)
    ensures var first := FirstValue(cfg, s, key);
      ValueAt(cfg, key, running) == first || ValueAt(cfg, key, running) == "'" + first + "'"
  {
  }

  // ---------- the reports of later passes ----------

  /** The template forces a default that the key never comes to hold: the user's newer value hides it,
      or it gets quotes added. */
  predicate KeepsReporting(cfg: Config, s: Stores, key: string)
    requires key in cfg.user
  {
    var forced := ForcedAt(cfg, key);
    && forced.Some?
    && (if NeverRewritten(cfg, s, key) then cfg.user[key].value != forced.value
        else Quoted(cfg, key, forced.value) != forced.value)
  }

  lemma ReportedLater(cfg: Config, s: Stores, ticks: seq<Tick>, key: string)
    requires IsKey(cfg, key) && |ticks| >= 2 && LaterThanUser(cfg, ticks)
    ensures Reported(InputsOf(cfg, After(cfg, s, ticks)), key) <==> KeepsReporting(cfg, s, key)
  {
    var now := After(cfg, s, ticks);
    var last := ticks[|ticks| - 1];
    assert Less(cfg.user[key].updateTime, last.stamp) && Less(cfg.user[key].updateTime, last.done);
    assert now.latestFlush == last.done;
    KeyRun(cfg, s, ticks, key);
    ReportedAt(cfg, s, now, |ticks|, key);
  }

  lemma ReportedAt(cfg: Config, s: Stores, now: Stores, n: nat, key: string)
    requires IsKey(cfg, key) && n >= 2 && KeyAfter(cfg, s, key, n, RunningAt(now, key))
    requires Less(cfg.user[key].updateTime, now.latestFlush)
    ensures Reported(InputsOf(cfg, now), key) <==> KeepsReporting(cfg, s, key)
  {
  }

  /** From the third pass on, with distinct template names, a change is reported exactly when some key
      keeps reporting: the values may have settled while every pass still asks for a flush. */
  lemma LaterPassesReportIff(cfg: Config, s: Stores, ticks: seq<Tick>)
    requires |ticks| >= 2 && LaterThanUser(cfg, ticks) && DistinctNames(cfg.template)
    ensures var outcome := Pass(cfg, After(cfg, s, ticks));
      && (outcome.changed <==> exists key :: IsKey(cfg, key) && KeepsReporting(cfg, s, key))
      && (outcome.needRestart <==>
          exists key :: IsKey(cfg, key) && KeepsReporting(cfg, s, key) && NeedsRestart(ItemsAt(cfg, key)))
  {
    hide After, LaterThanUser, KeepsReporting, Reported, NeedsRestart, DistinctNames, MergedNamed, EffectiveOutcome;
    var inp := InputsOf(cfg, After(cfg, s, ticks));
    ReportExactly(inp);
    forall key | IsKey(cfg, key)
      ensures Reported(inp, key) <==> KeepsReporting(cfg, s, key)
    {
      ReportedLater(cfg, s, ticks, key);
    }
    assert forall key :: key in EffectiveKeys(inp) <==> IsKey(cfg, key);
  }

  // ---------- a change made while a flush is under way ----------

  /** The user sets `key` after a pass has read the stores and before the next one does. */
  function WithChange(cfg: Config, key: string, item: ParamItem): Config {
    cfg.(user := cfg.user[key := item])
  }

  /** What the passes after that flush see, after further flushes. */
  function AfterFlush(cfg: Config, s: Stores, tick: Tick, key: string, item: ParamItem, ticks: seq<Tick>): Inputs {
    InputsOf(WithChange(cfg, key, item), After(WithChange(cfg, key, item), Flush(cfg, s, tick), ticks))
  }

  /** What the next pass reports of the change, for every key. */
  lemma NextPassReportsIff(cfg: Config, s: Stores, tick: Tick, key: string, item: ParamItem)
    requires !Ignored(key) && |ItemsAt(cfg, key)| <= 1
    ensures var now := Flush(cfg, s, tick);
      var forced := ForcedAt(cfg, key);
      Resolved(AfterFlush(cfg, s, tick, key, item, []), key).changed <==>
      if key !in s.running && key !in cfg.user then true
      else if Less(now.running[key].updateTime, item.updateTime)
      then !Less(item.updateTime, tick.done) || (forced.Some? && item.value != forced.value)
      else forced.Some? && Quote(item.value, now.running[key].value, RegexOf(ItemsAt(cfg, key))) != forced.value
  {
    hide Less, Quote, ForcedValue;
    var inp := AfterFlush(cfg, s, tick, key, item, []);
    assert ItemsFor(inp, key) == ItemsAt(cfg, key);
    ResolvedExactly(inp, key);
    assert IsFlushed(inp, key) <==> Less(item.updateTime, tick.done) by {
      NothingLessThanEmpty(item.updateTime);
    }
  }

  lemma NothingLessThanEmpty(t: string)
    ensures !Less(t, "")
  {
  }

  /** The change of a running key whose default is not forced is reported by the next pass or never. The
      next pass reports it exactly when its time is later than the one recorded for the running value
      and not earlier than the one recorded for the flush. */
  lemma ChangeReportedIff(cfg: Config, s: Stores, tick: Tick, key: string, item: ParamItem, ticks: seq<Tick>)
    requires !Ignored(key) && (key in s.running || key in cfg.user)
    requires |ItemsAt(cfg, key)| <= 1 && ForcedAt(cfg, key).None?
    requires LaterThanUser(WithChange(cfg, key, item), ticks)
    ensures key in Flush(cfg, s, tick).running
    ensures Resolved(AfterFlush(cfg, s, tick, key, item, ticks), key).changed <==>
            && ticks == []
            && Less(Flush(cfg, s, tick).running[key].updateTime, item.updateTime)
            && !Less(item.updateTime, tick.done)
  {
    var cfg', now := WithChange(cfg, key, item), Flush(cfg, s, tick);
    var inp := AfterFlush(cfg, s, tick, key, item, ticks);
    assert ItemsAt(cfg', key) == ItemsAt(cfg, key) && ForcedAt(cfg', key) == ForcedAt(cfg, key);
    ResolvedExactly(inp, key);
    if ticks != [] {
      KeyRun(cfg', now, ticks, key);
      UnforcedIsQuiet(cfg', now, After(cfg', now, ticks), ticks, key);
    } else {
      UnforcedReported(cfg', now, key);
    }
  }

  lemma UnforcedReported(cfg: Config, s: Stores, key: string)
    requires key in cfg.user && key in s.running && ForcedAt(cfg, key).None?
    ensures Reported(InputsOf(cfg, s), key) <==>
            Less(s.running[key].updateTime, cfg.user[key].updateTime) && !Less(cfg.user[key].updateTime, s.latestFlush)
  {
  }

  lemma UnforcedIsQuiet(cfg: Config, s: Stores, now: Stores, ticks: seq<Tick>, key: string)
    requires IsKey(cfg, key) && ForcedAt(cfg, key).None? && ticks != [] && LaterThanUser(cfg, ticks)
    requires now == After(cfg, s, ticks) && KeyAfter(cfg, s, key, |ticks|, RunningAt(now, key))
    ensures !Reported(InputsOf(cfg, now), key)
  {
    hide QuotesSettle, Quoted, ForcedAt, FirstValue;
    assert now.latestFlush == ticks[|ticks| - 1].done;
    UnforcedReported(cfg, now, key);
  }

  /** A user raises a parameter while a flush of the old value is under way. The next pass wants the new
      value, which is not running, and yet reports neither a change nor a restart. */
  lemma ChangeIsMissed()
    ensures var key, old_, new_ := "work_mem", ParamItem("work_mem", "4MB", "1", ""), ParamItem("work_mem", "8MB", "3", "");
      var cfg := Config(map[key := old_], [], map[], false);
      var now := Flush(cfg, Stores(map[], ""), Tick("2", "4"));
      var outcome := Pass(WithChange(cfg, key, new_), now);
      now.running[key].value == "4MB" && outcome == Effective(map[key := "8MB"], false, false)
  {
  }

  // ---------- two concrete clusters ----------

  /** A user's list that spans two lines is quoted anew on every pass. */
  lemma NewlineNeverSettles(ticks: seq<Tick>)
    requires |ticks| >= 2
    ensures var user := map["search_path" := ParamItem("search_path", "a,\nb", "1", "")];
      var cfg := Config(user, [], map[], false);
      LaterThanUser(cfg, ticks) ==>
        Pass(cfg, After(cfg, Stores(map[], ""), ticks)).params != Pass(cfg, After(cfg, Stores(map[], ""), ticks[..1])).params
  {
    var cfg := Config(map["search_path" := ParamItem("search_path", "a,\nb", "1", "")], [], map[], false);
    var s := Stores(map[], "");
    hide Pass, After, LaterThanUser;
    if LaterThanUser(cfg, ticks) {
      var value := "a,\nb";
      assert value[1] == ',' && value[2] == '\n' && value[0] == 'a';
      assert NeedsQuotes(value, value, "");
      QuoteAgain(value, value, "");
      assert IsKey(cfg, "search_path") && !Settles(cfg, s, "search_path");
      SecondPassIsFixedIff(cfg, s, ticks);
    }
  }

  /** A user's value newer than the running one, for a parameter whose default the template forces: the
      values are settled from the first pass on, and every pass reports a change. */
  lemma SettledYetReporting(ticks: seq<Tick>)
    requires |ticks| >= 2
    ensures var user := map["fsync" := ParamItem("fsync", "off", "2", "")];
      var cfg := Config(user, [Item("fsync", "on", 1, 0, 0, "", "", "", 0, "")], map[], false);
      var s := Stores(map["fsync" := ParamItem("fsync", "on", "1", "")], "");
      LaterThanUser(cfg, ticks) ==>
        && Pass(cfg, After(cfg, s, ticks)).params == Pass(cfg, After(cfg, s, ticks[..1])).params
        && Pass(cfg, After(cfg, s, ticks)).changed
  {
    var item := Item("fsync", "on", 1, 0, 0, "", "", "", 0, "");
    var cfg := Config(map["fsync" := ParamItem("fsync", "off", "2", "")], [item], map[], false);
    var s := Stores(map["fsync" := ParamItem("fsync", "on", "1", "")], "");
    assert ItemsAt(cfg, "fsync") == [item] by {
      NamedOne(item, "fsync");
    }
    NeverHeld(cfg, s, "fsync", item);
    hide Pass, After, LaterThanUser, KeepsReporting, Settles;
    if LaterThanUser(cfg, ticks) {
      SecondPassIsFixedIff(cfg, s, ticks);
      LaterPassesReportIff(cfg, s, ticks);
    }
  }

  lemma NeverHeld(cfg: Config, s: Stores, key: string, item: Item)
    requires IsKey(cfg, key) && key in s.running && ItemsAt(cfg, key) == [item] && Forces(item, cfg.canUpdate)
    requires s.running[key].value == item.defaultValue != cfg.user[key].value
    requires NewerThan(cfg, key, s.running[key])
    ensures Settles(cfg, s, key) && KeepsReporting(cfg, s, key)
  {
  }
}
