/**
 Reconciliation over many flushes: what it reports, that a fresh cluster reports nothing, and when
 the effective values settle.
 */
module FlushCycles {
  import opened Wrappers
  import opened GoText
  import opened Templates
  import opened EffectiveParams
  import opened ParamsRepository

  // ---------- what is reported, exactly ----------

  /** The default that the template insists on for a key, if any; with repeated names, the last. */
  function ForcedValue(named: seq<Item>, canUpdate: bool): Option<string> {
    if named == [] then None
    else if Forces(named[|named| - 1], canUpdate) then Some(named[|named| - 1].defaultValue)
    else ForcedValue(named[..|named| - 1], canUpdate)
  }

  lemma {:induction false} OverriddenValue(named: seq<Item>, v: Verdict, canUpdate: bool)
    ensures Overridden(named, v, canUpdate).value ==
            if ForcedValue(named, canUpdate).Some? then ForcedValue(named, canUpdate).value else v.value
    ensures ForcedValue(named, canUpdate).None? ==> Overridden(named, v, canUpdate) == v
    decreases |named|
  {
    hide Forces;
    if named != [] {
      OverriddenValue(named[..|named| - 1], v, canUpdate);
    }
  }

  lemma OverriddenOne(named: seq<Item>, v: Verdict, canUpdate: bool)
    requires |named| <= 1
    ensures ForcedValue(named, canUpdate) ==
            if named != [] && Forces(named[0], canUpdate) then Some(named[0].defaultValue) else None
    ensures var forced := ForcedValue(named, canUpdate);
      var o := Overridden(named, v, canUpdate);
      && (o.changed <==> v.changed || (forced.Some? && v.value != forced.value))
      && (o.restart <==> v.restart || (forced.Some? && v.value != forced.value && named[0].isDynamic == 0))
  {
  }

  /** The value a running key holds before the template is consulted. */
  function Held(inp: Inputs, key: string): string
    requires key in inp.user && key in inp.running
  {
    if IsNewer(inp, key) then inp.user[key].value
    else Quote(inp.user[key].value,
               if HasInoperative(inp, key) then inp.running[key].inoperative else inp.running[key].value,
               RegexOf(ItemsFor(inp, key)))
  }

  /** The four reasons to report a key: it is not running yet; the user's value is newer and no later
      flush has covered it; a value waits to become operative; or it is forced to a default it does
      not hold. */
  predicate Reported(inp: Inputs, key: string)
    requires key in inp.user
  {
    || key !in inp.running
    || (IsNewer(inp, key) && !IsFlushed(inp, key))
    || (!IsNewer(inp, key) && HasInoperative(inp, key))
    || (var forced := ForcedValue(ItemsFor(inp, key), inp.canUpdate);
        forced.Some? && Held(inp, key) != forced.value)
  }

  /** The value of an effective key. */
  function ExactValue(inp: Inputs, key: string): string
    requires key in inp.user
  {
    var forced := ForcedValue(ItemsFor(inp, key), inp.canUpdate);
    if key !in inp.running then inp.user[key].value else if forced.Some? then forced.value else Held(inp, key)
  }

  lemma ResolvedExactly(inp: Inputs, key: string)
    requires key in inp.user && |ItemsFor(inp, key)| <= 1
    ensures var v := Resolved(inp, key);
      && (v.changed <==> Reported(inp, key))
      && (v.restart <==> Reported(inp, key) && NeedsRestart(ItemsFor(inp, key)))
      && v.value == ExactValue(inp, key)
  {
    hide ForcedValue, Overridden, Quote, Less, ItemsFor;
    if key in inp.running {
      OverriddenOne(ItemsFor(inp, key), Reconciled(inp, key), inp.canUpdate);
      OverriddenValue(ItemsFor(inp, key), Reconciled(inp, key), inp.canUpdate);
    }
  }

  lemma AtMostOneItem(inp: Inputs, key: string)
    requires DistinctNames(inp.template)
    ensures |ItemsFor(inp, key)| <= 1
  {
    DistinctIffNamed(inp.template);
    assert |Named(inp.template, key)| <= 1;
  }

  /** With distinct template names, `changed` holds exactly when some effective key is reported, and
      `needRestart` exactly when such a key is not dynamic or unknown to the template. The effective
      keys are exactly the user's keys that are not ignored. A key that is not running takes the user's
      value; any other takes the default forced on it, or else the value it holds. */
  lemma ReportExactly(inp: Inputs)
    requires DistinctNames(inp.template) && !Crashes(inp)
    ensures var outcome := EffectiveOutcome(inp);
      && outcome.params.Keys == EffectiveKeys(inp)
      && (forall key :: key in EffectiveKeys(inp) ==> outcome.params[key] == ExactValue(inp, key))
      && (outcome.changed <==> exists key :: key in EffectiveKeys(inp) && Reported(inp, key))
      && (outcome.needRestart <==>
          exists key :: key in EffectiveKeys(inp) && Reported(inp, key) && NeedsRestart(ItemsFor(inp, key)))
  {
    hide Crashes, Resolved, Reported, NeedsRestart, ItemsFor, ExactValue;
    forall key | key in EffectiveKeys(inp)
      ensures Resolved(inp, key).changed <==> Reported(inp, key)
      ensures Resolved(inp, key).restart <==> Reported(inp, key) && NeedsRestart(ItemsFor(inp, key))
      ensures Resolved(inp, key).value == ExactValue(inp, key)
    {
      AtMostOneItem(inp, key);
      ResolvedExactly(inp, key);
    }
  }

  // ---------- a fresh cluster ----------

  /** The inputs right after InitEngineParams. */
  function FreshInputs(template: seq<Item>, classParams: map<string, string>, userClock: string -> string,
                       runningClock: string -> string, canUpdate: bool): Inputs {
    var initParams := Defaults(template) + classParams;
    Inputs(Converted(initParams, userClock), Converted(initParams, runningClock), "", template, classParams, false, canUpdate)
  }

  lemma InitIsMergedDefault(template: seq<Item>, classParams: map<string, string>, key: string)
    requires DistinctNames(template) && key in Defaults(template) + classParams
    ensures var named := MergedNamed(template, classParams, key);
      |named| == 1 && named[0].defaultValue == (Defaults(template) + classParams)[key]
  {
    hide Named, Defaults;
    DistinctIffNamed(template);
    assert |Named(template, key)| <= 1;
    DefaultsOfNamed(template, key);
  }

  /** A fresh cluster whose user's parameters were stored no later than its running ones: the effective
      values are the initial ones up to quotes. A change is reported exactly when the template forces a
      default that gets quotes added, and a restart exactly when that parameter is not dynamic. */
  lemma FreshClusterIsFixedPoint(template: seq<Item>, classParams: map<string, string>, userClock: string -> string,
                                 runningClock: string -> string, canUpdate: bool)
    requires DistinctNames(template)
    requires forall key :: key in Defaults(template) + classParams ==> !Less(runningClock(key), userClock(key))
    ensures var inp := FreshInputs(template, classParams, userClock, runningClock, canUpdate);
      var initParams := Defaults(template) + classParams;
      var outcome := EffectiveOutcome(inp);
      && outcome.Effective?
      && outcome.params.Keys == (set key | key in initParams && !Ignored(key))
      && (forall key :: key in outcome.params ==>
            outcome.params[key] == initParams[key] || outcome.params[key] == "'" + initParams[key] + "'")
      && (outcome.changed <==> exists key :: key in outcome.params && ForcedDefaultIsQuoted(inp, key))
      && (outcome.needRestart <==>
          exists key :: key in outcome.params && ForcedDefaultIsQuoted(inp, key) && NeedsRestart(ItemsFor(inp, key)))
  {
    var inp := FreshInputs(template, classParams, userClock, runningClock, canUpdate);
    hide Defaults, Resolved, NeedsRestart, ItemsFor, ForcedDefaultIsQuoted, Less, Reported;
    ReportExactly(inp);
    forall key | key in EffectiveKeys(inp)
      ensures Reported(inp, key) <==> ForcedDefaultIsQuoted(inp, key)
      ensures var v := (Defaults(template) + classParams)[key];
        Resolved(inp, key).value == v || Resolved(inp, key).value == "'" + v + "'"
    {
      FreshKey(template, classParams, userClock, runningClock, canUpdate, key);
    }
  }

  /** The template forces the key's default, and `getRunningParamQuotaValue` does not leave that
      default alone. */
  predicate ForcedDefaultIsQuoted(inp: Inputs, key: string) {
    var named := ItemsFor(inp, key);
    && named != [] && Forces(named[0], inp.canUpdate)
    && NeedsQuotes(named[0].defaultValue, named[0].defaultValue, named[0].optional)
  }

  lemma FreshKey(template: seq<Item>, classParams: map<string, string>, userClock: string -> string,
                 runningClock: string -> string, canUpdate: bool, key: string)
    requires DistinctNames(template) && key in Defaults(template) + classParams
    requires !Less(runningClock(key), userClock(key))
    ensures var inp := FreshInputs(template, classParams, userClock, runningClock, canUpdate);
      var v := (Defaults(template) + classParams)[key];
      && (Reported(inp, key) <==> ForcedDefaultIsQuoted(inp, key))
      && (Resolved(inp, key).value == v || Resolved(inp, key).value == "'" + v + "'")
  {
    hide Defaults, Less, MergedNamed, Resolved, NeedsQuotes, Forces, Overridden;
    var inp := FreshInputs(template, classParams, userClock, runningClock, canUpdate);
    InitIsMergedDefault(template, classParams, key);
    ResolvedExactly(inp, key);
    var v := (Defaults(template) + classParams)[key];
    OverriddenOne(ItemsFor(inp, key), Verdict(v, false, false), canUpdate);
    QuoteAgain(v, v, RegexOf(ItemsFor(inp, key)));
  }
}
