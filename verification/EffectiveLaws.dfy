/**
 Reconciliation in plain terms: what GetEffectiveParams makes of one parameter, said with the fields of
 the stored items and nothing else, and that parameters do not affect one another.
 */
module EffectiveLaws {
  import opened Wrappers
  import opened GoText
  import opened Templates
  import opened EffectiveParams
  import opened FlushCycles

  // ---------- one parameter ----------

  /** One user's parameter `key`, and what is running of it: the whole outcome. */
  lemma OneParameter(inp: Inputs, key: string)
    requires inp.user.Keys == {key} && inp.running.Keys <= {key} && key != "log_line_prefix"
    requires |ItemsFor(inp, key)| <= 1
    ensures var user, named := inp.user[key], ItemsFor(inp, key);
      var restarts := named == [] || named[0].isDynamic == 0;
      EffectiveOutcome(inp) ==
      if key !in inp.running then Effective(map[key := user.value], true, restarts)
      else
        var running := inp.running[key];
        var forced :=
          && named != [] && !inp.canUpdate && named[0].isUserChangeable == 0 && named[0].isDeleted == 0
          && key !in ["ssl", "ssl_cert_file", "ssl_key_file", "listen_addresses"];
        var waits := inp.inoperative && running.inoperative != "";
        var newer := Less(running.updateTime, user.updateTime);
        var flushed := Less(user.updateTime, inp.latestFlush);
        var v := if waits then running.inoperative else running.value;
        var regex := if named == [] then "" else named[0].optional;
        var quoted := |v| >= 2 && v[0] == '\'' && v[|v| - 1] == '\'' && '\n' !in v;
        var wantsQuotes :=
          || (|user.value| >= 2 && user.value[0] == '\'' && user.value[|user.value| - 1] == '\'' && '\n' !in user.value)
          || (|regex| >= 4 && regex[..2] == "^'" && regex[|regex| - 2..] == "'$" && '\n' !in regex)
          || ',' in v || ':' in v;
        var held := if newer then user.value else if wantsQuotes && !quoted then "'" + v + "'" else v;
        var reported := if newer then !flushed else waits;
        var corrected := forced && held != named[0].defaultValue;
        Effective(map[key := if forced then named[0].defaultValue else held],
                  reported || corrected, (reported || corrected) && restarts)
  {
    hide Less, ItemsFor, Resolved, ForcedValue, Held, NeedsRestart;
    OnlyKey(inp, key);
    ResolvedExactly(inp, key);
    if key in inp.running {
      HeldPlainly(inp, key);
      ForcedPlainly(inp, key);
      NothingBelow(inp.user[key].updateTime);
    }
    RestartsPlainly(ItemsFor(inp, key));
  }

  lemma OnlyKey(inp: Inputs, key: string)
    requires inp.user.Keys == {key} && inp.running.Keys <= {key} && key != "log_line_prefix"
    ensures var v := Resolved(inp, key);
      EffectiveOutcome(inp) == Effective(map[key := v.value], v.changed, v.restart)
  {
    hide Resolved;
    assert EffectiveKeys(inp) == {key};
  }

  lemma RestartsPlainly(named: seq<Item>)
    ensures NeedsRestart(named) <==> named == [] || named[0].isDynamic == 0
  {
  }

  lemma HeldPlainly(inp: Inputs, key: string)
    requires key in inp.user && key in inp.running
    ensures var user, running, named := inp.user[key], inp.running[key], ItemsFor(inp, key);
      var v := if inp.inoperative && running.inoperative != "" then running.inoperative else running.value;
      var regex := if named == [] then "" else named[0].optional;
      var quoted := |v| >= 2 && v[0] == '\'' && v[|v| - 1] == '\'' && '\n' !in v;
      var wantsQuotes :=
        || (|user.value| >= 2 && user.value[0] == '\'' && user.value[|user.value| - 1] == '\'' && '\n' !in user.value)
        || (|regex| >= 4 && regex[..2] == "^'" && regex[|regex| - 2..] == "'$" && '\n' !in regex)
        || ',' in v || ':' in v;
      Held(inp, key) ==
      if Less(running.updateTime, user.updateTime) then user.value
      else if wantsQuotes && !quoted then "'" + v + "'" else v
  {
    hide Less, ItemsFor;
    AsksPlainly(RegexOf(ItemsFor(inp, key)));
  }

  lemma AsksPlainly(regex: string)
    ensures AsksForQuotes(regex) <==>
            |regex| >= 4 && regex[..2] == "^'" && regex[|regex| - 2..] == "'$" && '\n' !in regex
  {
  }

  lemma ForcedPlainly(inp: Inputs, key: string)
    requires |ItemsFor(inp, key)| <= 1
    ensures var named := ItemsFor(inp, key);
      ForcedValue(named, inp.canUpdate) ==
      if && named != [] && !inp.canUpdate && named[0].isUserChangeable == 0 && named[0].isDeleted == 0
         && key !in ["ssl", "ssl_cert_file", "ssl_key_file", "listen_addresses"]
      then Some(named[0].defaultValue) else None
  {
    OverriddenOne(ItemsFor(inp, key), Verdict("", false, false), inp.canUpdate);
  }

  lemma NothingBelow(t: string)
    ensures !Less(t, "")
  {
  }

  // ---------- all parameters ----------

  /** A parameter and nothing else. */
  function Alone(inp: Inputs, key: string): Inputs {
    inp.(user := map k | k in inp.user && k == key :: inp.user[k],
         running := map k | k in inp.running && k == key :: inp.running[k])
  }

  /** The program crashes exactly when it waits for inoperative values and a running parameter has one
      but is not the user's. Otherwise the keys are the user's but for the ignored one, each gets the value
      it would get if it were the only parameter, and each flag is set exactly when it would be set for
      some parameter on its own. */
  lemma ParametersAreIndependent(inp: Inputs)
    ensures EffectiveOutcome(inp) == Crash <==>
            exists key :: key in inp.running && key != "log_line_prefix" && key !in inp.user
                          && inp.inoperative && inp.running[key].inoperative != ""
    ensures var outcome := EffectiveOutcome(inp);
      outcome != Crash ==>
        && outcome.params.Keys == inp.user.Keys - {"log_line_prefix"}
        && (forall key :: key in outcome.params ==>
              && EffectiveOutcome(Alone(inp, key)) != Crash
              && EffectiveOutcome(Alone(inp, key)).params == map[key := outcome.params[key]])
        && (outcome.changed <==> exists key :: key in outcome.params && EffectiveOutcome(Alone(inp, key)).changed)
        && (outcome.needRestart <==> exists key :: key in outcome.params && EffectiveOutcome(Alone(inp, key)).needRestart)
  {
    hide Resolved;
    assert forall key :: key in inp.running ==>
      (CrashesAt(inp, key) <==> key != "log_line_prefix" && key !in inp.user
                                && inp.inoperative && inp.running[key].inoperative != "");
    var outcome := EffectiveOutcome(inp);
    if outcome != Crash {
      hide CrashesAt;
      assert forall key :: key in outcome.params <==> key in inp.user && key != "log_line_prefix";
      forall key | key in outcome.params
        ensures var v := Resolved(inp, key);
          EffectiveOutcome(Alone(inp, key)) == Effective(map[key := v.value], v.changed, v.restart)
      {
        OnlyKey(Alone(inp, key), key);
        ResolvedAlone(inp, key);
      }
    }
  }

  lemma ResolvedAlone(inp: Inputs, key: string)
    requires key in inp.user
    ensures Resolved(Alone(inp, key), key) == Resolved(inp, key)
  {
    hide Overridden, Quote, Less, MergedNamed, NeedsRestart;
  }

  // ---------- consequences ----------

  /** A running key that the user has not changed since, and whose default is not forced: the running
      value comes out, in quotes when they are asked for and not there yet. */
  lemma RunningValueComesOut(inp: Inputs, key: string)
    requires IsUnforcedRunning(inp, key)
    ensures var user, running, named := inp.user[key].value, inp.running[key].value, ItemsFor(inp, key);
      var regex := if named == [] then "" else named[0].optional;
      var wantsQuotes :=
        || (|user| >= 2 && user[0] == '\'' && user[|user| - 1] == '\'' && '\n' !in user)
        || (|regex| >= 4 && regex[..2] == "^'" && regex[|regex| - 2..] == "'$" && '\n' !in regex)
        || ',' in running || ':' in running;
      var quoted := |running| >= 2 && running[0] == '\'' && running[|running| - 1] == '\'' && '\n' !in running;
      && key in EffectiveOutcome(inp).params
      && EffectiveOutcome(inp).params[key] == if wantsQuotes && !quoted then "'" + running + "'" else running
  {
    hide ItemsFor, Less, Overridden, EffectiveOutcome;
    ValueAlone(inp, key);
    ItemsAlone(inp, key);
    var one, named := Alone(inp, key), ItemsFor(inp, key);
    assert one.user[key] == inp.user[key] && one.running[key] == inp.running[key] && one.canUpdate == inp.canUpdate;
    assert inp.canUpdate || named == [] || named[0].isUserChangeable != 0;
    OneParameter(one, key);
    hide Alone;
    assert EffectiveOutcome(one).params[key] == EffectiveOutcome(inp).params[key];
  }

  lemma ValueAlone(inp: Inputs, key: string)
    requires EffectiveOutcome(inp) != Crash && key in inp.user && key != "log_line_prefix"
    ensures var outcome, alone := EffectiveOutcome(inp), EffectiveOutcome(Alone(inp, key));
      key in outcome.params && alone != Crash && alone.params == map[key := outcome.params[key]]
  {
    hide EffectiveOutcome, Alone;
    ParametersAreIndependent(inp);
  }

  predicate IsUnforcedRunning(inp: Inputs, key: string) {
    && key in inp.user && key in inp.running && key != "log_line_prefix"
    && !inp.inoperative && EffectiveOutcome(inp) != Crash
    && !Less(inp.running[key].updateTime, inp.user[key].updateTime)
    && |ItemsFor(inp, key)| <= 1
    && (inp.canUpdate || forall i :: 0 <= i < |ItemsFor(inp, key)| ==> ItemsFor(inp, key)[i].isUserChangeable != 0)
  }

  /** The quotes that the user wrote around the running value are kept. */
  lemma UserQuotesAreKept(inp: Inputs, key: string)
    requires IsUnforcedRunning(inp, key)
    ensures var user, running := inp.user[key].value, inp.running[key].value;
      user == "'" + running + "'" && '\n' !in running && '\'' !in running ==>
        key in EffectiveOutcome(inp).params && EffectiveOutcome(inp).params[key] == user
  {
    hide EffectiveOutcome, ItemsFor, Less;
    var user, running := inp.user[key].value, inp.running[key].value;
    RunningValueComesOut(inp, key);
    assert user == "'" + running + "'" ==> user[0] == '\'' && user[|user| - 1] == '\'' && |user| >= 2;
  }

  lemma ItemsAlone(inp: Inputs, key: string)
    ensures ItemsFor(Alone(inp, key), key) == ItemsFor(inp, key)
  {
  }

  /** A class parameter that the template lacks is forced on the user's value, without a restart. */
  lemma ClassParamIsForced(inp: Inputs, key: string)
    requires key in inp.user && key in inp.running && key in inp.classParams && !inp.canUpdate && !inp.inoperative
    requires key !in ["log_line_prefix", "ssl", "ssl_cert_file", "ssl_key_file", "listen_addresses"]
    requires DistinctNames(inp.template) && forall i :: 0 <= i < |inp.template| ==> inp.template[i].name != key
    requires Less(inp.running[key].updateTime, inp.user[key].updateTime) ==>
               Less(inp.user[key].updateTime, inp.latestFlush)
    ensures EffectiveOutcome(Alone(inp, key)) != Crash
    ensures EffectiveOutcome(Alone(inp, key)).params == map[key := inp.classParams[key]]
    ensures !EffectiveOutcome(Alone(inp, key)).needRestart
  {
    hide MergedNamed, EffectiveOutcome, Less, DistinctNames;
    var one := Alone(inp, key);
    ItemOfKey(inp.template, inp.classParams, key);
    ItemsAlone(inp, key);
    assert one.user[key] == inp.user[key] && one.running[key] == inp.running[key];
    OneParameter(one, key);
  }

  /** A white-listed item of the base template is never forced: the permission to update makes no difference. */
  lemma WhiteListedIsNeverForced(inp: Inputs, base: seq<Item>, whiteList: seq<string>, extension: seq<Item>, key: string)
    requires inp.template == Extended(Whitened(base, whiteList), extension)
    requires key in whiteList && exists i :: 0 <= i < |base| && base[i].name == key
    requires key in inp.user && key != "log_line_prefix"
    ensures EffectiveOutcome(Alone(inp, key).(canUpdate := true)) == EffectiveOutcome(Alone(inp, key).(canUpdate := false))
  {
    WhiteListedItems(inp, base, whiteList, extension, key);
    PermissionMakesNoDifference(inp, key);
  }

  lemma WhiteListedItems(inp: Inputs, base: seq<Item>, whiteList: seq<string>, extension: seq<Item>, key: string)
    requires inp.template == Extended(Whitened(base, whiteList), extension)
    requires key in whiteList && exists i :: 0 <= i < |base| && base[i].name == key
    ensures forall i :: 0 <= i < |ItemsFor(inp, key)| ==> ItemsFor(inp, key)[i].isUserChangeable == 1
  {
    hide Named, Extended, FirstIndex;
    NamedOfExtended(Whitened(base, whiteList), extension, key);
    NamedOfWhitened(base, whiteList, key);
    NamedNone(base, key);
  }

  lemma PermissionMakesNoDifference(inp: Inputs, key: string)
    requires key in inp.user && key != "log_line_prefix"
    requires forall i :: 0 <= i < |ItemsFor(inp, key)| ==> ItemsFor(inp, key)[i].isUserChangeable == 1
    ensures EffectiveOutcome(Alone(inp, key).(canUpdate := true)) == EffectiveOutcome(Alone(inp, key).(canUpdate := false))
  {
    var free, bound := Alone(inp, key).(canUpdate := true), Alone(inp, key).(canUpdate := false);
    forall v: Verdict
      ensures Overridden(ItemsFor(inp, key), v, true) == Overridden(ItemsFor(inp, key), v, false)
    {
      FreeItemsOverrideNothing(ItemsFor(inp, key), v, true);
      FreeItemsOverrideNothing(ItemsFor(inp, key), v, false);
    }
    assert Resolved(free, key) == Resolved(bound, key) by {
      hide Overridden, MergedNamed, Less, Quote, NeedsRestart;
      assert ItemsFor(free, key) == ItemsFor(inp, key) == ItemsFor(bound, key);
    }
    hide Resolved, EffectiveOutcome, ItemsFor;
    OnlyKey(free, key);
    OnlyKey(bound, key);
  }

  lemma {:induction false} FreeItemsOverrideNothing(named: seq<Item>, v: Verdict, canUpdate: bool)
    requires forall i :: 0 <= i < |named| ==> named[i].isUserChangeable == 1
    ensures Overridden(named, v, canUpdate) == v
    decreases |named|
  {
    if named != [] {
      FreeItemsOverrideNothing(named[..|named| - 1], v, canUpdate);
    }
  }

  /** In a fresh cluster no value waits to become operative: the flag makes no difference. */
  lemma NothingWaitsInFreshCluster(template: seq<Item>, classParams: map<string, string>, userClock: string -> string,
                                   runningClock: string -> string, canUpdate: bool)
    ensures var inp := FreshInputs(template, classParams, userClock, runningClock, canUpdate);
      EffectiveOutcome(inp.(inoperative := true)) == EffectiveOutcome(inp)
  {
    var inp := FreshInputs(template, classParams, userClock, runningClock, canUpdate);
    var waiting := inp.(inoperative := true);
    hide Defaults, Overridden, MergedNamed, Less, Quote, NeedsRestart;
    assert forall key :: key in inp.running ==> inp.running[key].inoperative == "";
    forall key | key in inp.user
      ensures Resolved(waiting, key) == Resolved(inp, key)
    {
    }
  }
}
