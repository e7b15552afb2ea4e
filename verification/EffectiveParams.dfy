/**
 The value every engine parameter gets: the user's parameters, the running ones and the template,
 reconciled. Also whether anything changed and whether the engine must restart.
 */
module EffectiveParams {
  import opened GoText
  import opened MapOrders
  import opened Templates
  import opened TemplateLists

  datatype ParamItem = ParamItem(name: string, value: string, updateTime: string, inoperative: string)

  type Params = map<string, ParamItem>

  datatype Inputs = Inputs(user: Params, running: Params, latestFlush: string, template: seq<Item>,
                           classParams: map<string, string>, inoperative: bool, canUpdate: bool)

  const IGNORE_TEMPLATE_PARAMS := ["ssl", "ssl_cert_file", "ssl_key_file", "listen_addresses"]
  const IGNORE_PARAMS := ["log_line_prefix"]

  predicate Ignored(key: string) {
    key in IGNORE_PARAMS
  }

  // ---------- quoting ----------

  /** The pattern `^'.*'$`, where `.` is any character but a newline. */
  predicate IsQuoted(value: string) {
    |value| >= 2 && value[0] == '\'' && value[|value| - 1] == '\'' && '\n' !in value
  }

  /** The pattern `^\^'.*'\$$`: a regular expression that asks for quotes. */
  predicate AsksForQuotes(regex: string) {
    && |regex| >= 4 && regex[0] == '^' && regex[1] == '\''
    && regex[|regex| - 2] == '\'' && regex[|regex| - 1] == '$' && '\n' !in regex
  }

  predicate NeedsQuotes(userValue: string, value: string, regex: string) {
    (IsQuoted(userValue) || AsksForQuotes(regex) || ',' in value || ':' in value) && !IsQuoted(value)
  }

  /** `getRunningParamQuotaValue`. */
  function Quote(userValue: string, value: string, regex: string): string {
    if NeedsQuotes(userValue, value, regex) then "'" + value + "'" else value
  }

  /** Quoting again changes nothing, exactly when the first time changed nothing or there is no
      newline to spoil the quotes. */
  lemma QuoteAgain(userValue: string, value: string, regex: string)
    ensures var quoted := Quote(userValue, value, regex);
      Quote(userValue, quoted, regex) == quoted <==> (quoted == value || '\n' !in value)
    ensures Quote(userValue, value, regex) == value <==> !NeedsQuotes(userValue, value, regex)
  {
  }

  // ---------- one key at a time ----------

  /** What becomes of one key: its value, and what it reports. */
  datatype Verdict = Verdict(value: string, changed: bool, restart: bool)

  /** The merged template's items of a name; usually one or none. */
  function ItemsFor(inp: Inputs, key: string): seq<Item> {
    MergedNamed(inp.template, inp.classParams, key)
  }

  /** A parameter outside the template always needs a restart. */
  predicate NeedsRestart(named: seq<Item>) {
    named == [] || named[0].isDynamic == 0
  }

  function RegexOf(named: seq<Item>): string {
    if named == [] then "" else named[0].optional
  }

  predicate IsNewer(inp: Inputs, key: string)
    requires key in inp.user && key in inp.running
  {
    Less(inp.running[key].updateTime, inp.user[key].updateTime)
  }

  /** A flush recorded after the user's change has covered it. */
  predicate IsFlushed(inp: Inputs, key: string)
    requires key in inp.user
  {
    inp.latestFlush != "" && Less(inp.user[key].updateTime, inp.latestFlush)
  }

  predicate HasInoperative(inp: Inputs, key: string)
    requires key in inp.running
  {
    inp.inoperative && inp.running[key].inoperative != ""
  }

  /** The first phase, for a key that is both a user's and a running parameter. */
  function Reconciled(inp: Inputs, key: string): Verdict
    requires key in inp.user && key in inp.running
  {
    var user, running, named := inp.user[key], inp.running[key], ItemsFor(inp, key);
    if IsNewer(inp, key) then
      if IsFlushed(inp, key) then Verdict(user.value, false, false)
      else Verdict(user.value, true, NeedsRestart(named))
    else if HasInoperative(inp, key) then
      Verdict(Quote(user.value, running.inoperative, RegexOf(named)), true, NeedsRestart(named))
    else
      Verdict(Quote(user.value, running.value, RegexOf(named)), false, false)
  }

  /** The template insists on its default. */
  predicate Forces(item: Item, canUpdate: bool) {
    !canUpdate && item.isUserChangeable == 0 && item.isDeleted == 0 && item.name !in IGNORE_TEMPLATE_PARAMS
  }

  function ForcedBy(item: Item, v: Verdict, canUpdate: bool): Verdict {
    if Forces(item, canUpdate) && v.value != item.defaultValue
    then Verdict(item.defaultValue, true, v.restart || item.isDynamic == 0)
    else v
  }

  /** The second phase: every item of the key's name in turn. */
  function Overridden(named: seq<Item>, v: Verdict, canUpdate: bool): Verdict {
    if named == [] then v
    else ForcedBy(named[|named| - 1], Overridden(named[..|named| - 1], v, canUpdate), canUpdate)
  }

  /** All three phases for a user's key. One that is not running takes the user's value as it is. */
  function Resolved(inp: Inputs, key: string): Verdict
    requires key in inp.user
  {
    if key in inp.running then Overridden(ItemsFor(inp, key), Reconciled(inp, key), inp.canUpdate)
    else Verdict(inp.user[key].value, true, NeedsRestart(ItemsFor(inp, key)))
  }

  // ---------- the whole outcome ----------

  datatype Outcome = Crash | Effective(params: map<string, string>, changed: bool, needRestart: bool)

  /** The program dereferences a user's item that is not there. */
  predicate Crashes(inp: Inputs) {
    exists key :: key in inp.running && CrashesAt(inp, key)
  }

  predicate CrashesAt(inp: Inputs, key: string)
    requires key in inp.running
  {
    !Ignored(key) && key !in inp.user && HasInoperative(inp, key)
  }

  function EffectiveKeys(inp: Inputs): set<string> {
    set key | key in inp.user && !Ignored(key)
  }

  /** The specification: key by key, with no order in it. */
  function EffectiveOutcome(inp: Inputs): Outcome {
    if Crashes(inp) then Crash
    else Effective(map key | key in EffectiveKeys(inp) :: Resolved(inp, key).value,
                   exists key :: key in EffectiveKeys(inp) && Resolved(inp, key).changed,
                   exists key :: key in EffectiveKeys(inp) && Resolved(inp, key).restart)
  }

  /** One running parameter waiting to become operative, and no user's item for it. */
  lemma MissingUserItemCrashes()
    ensures var running := map["work_mem" := ParamItem("work_mem", "4MB", "1", "8MB")];
      EffectiveOutcome(Inputs(map[], running, "", [], map[], true, false)) == Crash
  {
    var running := map["work_mem" := ParamItem("work_mem", "4MB", "1", "8MB")];
    assert CrashesAt(Inputs(map[], running, "", [], map[], true, false), "work_mem");
  }

  // ---------- the loops ----------

  /** The program's three variables agree with a verdict per key. */
  ghost predicate Tracks(result: map<string, string>, changed: bool, needRestart: bool, verdicts: map<string, Verdict>) {
    && result.Keys == verdicts.Keys
    && (forall key :: key in verdicts ==> result[key] == verdicts[key].value)
    && (changed <==> exists key :: key in verdicts && verdicts[key].changed)
    && (needRestart <==> exists key :: key in verdicts && verdicts[key].restart)
  }

  lemma TrackSet(result: map<string, string>, changed: bool, needRestart: bool, verdicts: map<string, Verdict>,
                 key: string, v: Verdict)
    requires Tracks(result, changed, needRestart, verdicts)
    requires key in verdicts ==> (verdicts[key].changed ==> v.changed) && (verdicts[key].restart ==> v.restart)
    ensures Tracks(result[key := v.value], changed || v.changed, needRestart || v.restart, verdicts[key := v])
  {
    var after := verdicts[key := v];
    assert key in after && after[key] == v;
    if changed {
      var k :| k in verdicts && verdicts[k].changed;
      assert k in after && after[k].changed;
    }
    if needRestart {
      var k :| k in verdicts && verdicts[k].restart;
      assert k in after && after[k].restart;
    }
  }

  /** The verdicts of the first phase for the keys walked so far. */
  function ReconciledKeys(inp: Inputs, walked: set<string>): map<string, Verdict>
    requires walked <= inp.running.Keys
  {
    map key | key in walked && !Ignored(key) && key in inp.user :: Reconciled(inp, key)
  }

  method ParamNeedRestart(templateParam: ParamTemplateItem?) returns (needRestart: bool)
    ensures needRestart == (templateParam == null || templateParam.isDynamic == 0)
  {
    if templateParam != null {
      return templateParam.isDynamic == 0;
    }
    return true;
  }

  ghost predicate TemplateOf(inp: Inputs, templateParams: ItemList)
    reads templateParams
  {
    forall key :: Named(Views(templateParams), key) == ItemsFor(inp, key)
  }

  method GetTemplateParam(inp: Inputs, paramName: string, templateParams: ItemList) returns (item: ParamTemplateItem?)
    requires TemplateOf(inp, templateParams)
    ensures item == null <==> ItemsFor(inp, paramName) == []
    ensures item != null ==> item.View() == ItemsFor(inp, paramName)[0]
  {
    hide Named, FirstIndex, Views, MergedNamed;
    item := FindTemplate(paramName, templateParams);
    ghost var views := Views(templateParams);
    NamedNone(views, paramName);
    if item != null {
      FirstOfNamed(views, paramName);
    }
  }

  method MergeRunning(inp: Inputs, templateParams: ItemList)
    returns (crashed: bool, result: map<string, string>, changed: bool, needRestart: bool)
    requires TemplateOf(inp, templateParams)
    ensures crashed <==> Crashes(inp)
    ensures !crashed ==> Tracks(result, changed, needRestart, ReconciledKeys(inp, inp.running.Keys))
  {
    hide Quote, Less, Tracks, TemplateOf, ItemsFor;
    crashed, result, changed, needRestart := false, map[], false, false;
    ghost var verdicts: map<string, Verdict> := map[];
    assert Tracks(result, changed, needRestart, verdicts) by {
      TrackNone();
    }
    var rest := inp.running.Keys;
    while rest != {}
      invariant rest <= inp.running.Keys
      invariant !crashed && forall key :: key in inp.running && key !in rest ==> !CrashesAt(inp, key)
      invariant verdicts == ReconciledKeys(inp, inp.running.Keys - rest)
      invariant Tracks(result, changed, needRestart, verdicts)
      decreases rest
    {
      var paramKey :| paramKey in rest;
      WalkOneMore(inp, rest, paramKey);
      rest := rest - {paramKey};
      if paramKey in IGNORE_PARAMS {
        continue;
      }
      var running := inp.running[paramKey];
      if paramKey in inp.user {
        var user := inp.user[paramKey];
        TrackSet(result, changed, needRestart, verdicts, paramKey, Reconciled(inp, paramKey));
        verdicts := verdicts[paramKey := Reconciled(inp, paramKey)];
        if Less(running.updateTime, user.updateTime) {
          if inp.latestFlush != "" && Less(user.updateTime, inp.latestFlush) {
            result := result[paramKey := user.value];
            continue;
          }
          changed := true;
          var item := GetTemplateParam(inp, paramKey, templateParams);
          var currentNeedRestart := ParamNeedRestart(item);
          if currentNeedRestart {
            needRestart := true;
          }
          result := result[paramKey := user.value];
          continue;
        }
        var item := GetTemplateParam(inp, paramKey, templateParams);
        var regex := "";
        if item != null {
          regex := item.optional;
        }
        if !inp.inoperative || running.inoperative == "" {
          result := result[paramKey := Quote(user.value, running.value, regex)];
          continue;
        }
        changed := true;
        var currentNeedRestart := ParamNeedRestart(item);
        if currentNeedRestart {
          needRestart := true;
        }
        result := result[paramKey := Quote(user.value, running.inoperative, regex)];
        continue;
      }
      if inp.inoperative && running.inoperative != "" {
        crashed := true;
        return;
      }
    }
    assert inp.running.Keys - rest == inp.running.Keys;
  }

  lemma TrackNone()
    ensures Tracks(map[], false, false, map[])
  {
  }

  lemma WalkOneMore(inp: Inputs, rest: set<string>, key: string)
    requires rest <= inp.running.Keys && key in rest
    ensures ReconciledKeys(inp, inp.running.Keys - (rest - {key})) ==
            if !Ignored(key) && key in inp.user
            then ReconciledKeys(inp, inp.running.Keys - rest)[key := Reconciled(inp, key)]
            else ReconciledKeys(inp, inp.running.Keys - rest)
  {
  }

  /** The verdicts of the second phase after part of the template list. */
  function OverriddenKeys(items: seq<Item>, verdicts: map<string, Verdict>, canUpdate: bool): map<string, Verdict> {
    map key | key in verdicts :: Overridden(Named(items, key), verdicts[key], canUpdate)
  }

  method OverrideWithTemplate(inp: Inputs, templateParams: ItemList, result0: map<string, string>, changed0: bool,
                              needRestart0: bool, ghost verdicts0: map<string, Verdict>)
    returns (result: map<string, string>, changed: bool, needRestart: bool)
    requires Tracks(result0, changed0, needRestart0, verdicts0)
    ensures Tracks(result, changed, needRestart, OverriddenKeys(Views(templateParams), verdicts0, inp.canUpdate))
  {
    hide Tracks, Views, OverriddenKeys;
    result, changed, needRestart := result0, changed0, needRestart0;
    ghost var views := Views(templateParams);
    ghost var verdicts := OverriddenKeys(views[..0], verdicts0, inp.canUpdate);
    assert verdicts == verdicts0 by {
      OverrideNone(verdicts0, inp.canUpdate);
      assert views[..0] == [];
    }
    for i := 0 to |templateParams|
      invariant verdicts == OverriddenKeys(views[..i], verdicts0, inp.canUpdate)
      invariant Tracks(result, changed, needRestart, verdicts)
    {
      var paramItem := templateParams[i];
      assert views[..i + 1] == views[..i] + [paramItem.View()];
      OverrideOneMore(views[..i], paramItem.View(), verdicts0, inp.canUpdate);
      TracksKeys(result, changed, needRestart, verdicts);
      if paramItem.name !in result {
        verdicts := OverriddenKeys(views[..i + 1], verdicts0, inp.canUpdate);
        continue;
      }
      var needOverride :=
        && !inp.canUpdate
        && paramItem.isUserChangeable == 0
        && paramItem.isDeleted == 0
        && result[paramItem.name] != paramItem.defaultValue
        && paramItem.name !in IGNORE_TEMPLATE_PARAMS;
      ghost var v := ForcedBy(paramItem.View(), verdicts[paramItem.name], inp.canUpdate);
      TrackSet(result, changed, needRestart, verdicts, paramItem.name, v);
      if needOverride {
        changed := true;
        if paramItem.isDynamic == 0 {
          needRestart := true;
        }
        result := result[paramItem.name := paramItem.defaultValue];
      } else {
        assert result[paramItem.name := v.value] == result;
      }
      verdicts := verdicts[paramItem.name := v];
    }
    assert views[..|templateParams|] == views;
  }

  lemma OverrideNone(verdicts: map<string, Verdict>, canUpdate: bool)
    ensures OverriddenKeys([], verdicts, canUpdate) == verdicts
  {
  }

  lemma OverrideOneMore(items: seq<Item>, item: Item, verdicts: map<string, Verdict>, canUpdate: bool)
    ensures var before := OverriddenKeys(items, verdicts, canUpdate);
      OverriddenKeys(items + [item], verdicts, canUpdate) ==
      if item.name in before then before[item.name := ForcedBy(item, before[item.name], canUpdate)] else before
  {
    hide Named, ForcedBy;
    var before := OverriddenKeys(items, verdicts, canUpdate);
    forall key | key in verdicts
      ensures Overridden(Named(items + [item], key), verdicts[key], canUpdate) ==
              if key == item.name then ForcedBy(item, before[key], canUpdate) else before[key]
    {
      NamedGrows(items, item, key);
      var named := Named(items, key);
      assert (named + [item])[..|named|] == named;
    }
  }

  lemma TracksKeys(result: map<string, string>, changed: bool, needRestart: bool, verdicts: map<string, Verdict>)
    requires Tracks(result, changed, needRestart, verdicts)
    ensures result.Keys == verdicts.Keys && forall key :: key in verdicts ==> result[key] == verdicts[key].value
    ensures forall key :: key in verdicts ==> (verdicts[key].changed ==> changed) && (verdicts[key].restart ==> needRestart)
  {
  }

  method AddMissingUserParams(inp: Inputs, templateParams: ItemList, result0: map<string, string>, changed0: bool,
                              needRestart0: bool, ghost verdicts0: map<string, Verdict>)
    returns (result: map<string, string>, changed: bool, needRestart: bool)
    requires TemplateOf(inp, templateParams)
    requires Tracks(result0, changed0, needRestart0, verdicts0)
    ensures Tracks(result, changed, needRestart, verdicts0 + AddedKeys(inp, inp.user.Keys, verdicts0.Keys))
  {
    hide Tracks, TemplateOf, ItemsFor, NeedsRestart;
    result, changed, needRestart := result0, changed0, needRestart0;
    ghost var verdicts := verdicts0;
    var rest := inp.user.Keys;
    assert inp.user.Keys - rest == {};
    while rest != {}
      invariant rest <= inp.user.Keys
      invariant verdicts == verdicts0 + AddedKeys(inp, inp.user.Keys - rest, verdicts0.Keys)
      invariant Tracks(result, changed, needRestart, verdicts)
      decreases rest
    {
      var paramKey :| paramKey in rest;
      AddOneMore(inp, rest, paramKey, verdicts0);
      TracksKeys(result, changed, needRestart, verdicts);
      rest := rest - {paramKey};
      if paramKey in IGNORE_PARAMS {
        continue;
      }
      if paramKey !in result {
        ghost var v := Added(inp, paramKey);
        TrackSet(result, changed, needRestart, verdicts, paramKey, v);
        verdicts := verdicts[paramKey := v];
        changed := true;
        var item := GetTemplateParam(inp, paramKey, templateParams);
        var currentNeedRestart := ParamNeedRestart(item);
        assert currentNeedRestart == NeedsRestart(ItemsFor(inp, paramKey)) by {
          RestartOfFirst(ItemsFor(inp, paramKey));
        }
        if currentNeedRestart {
          needRestart := true;
        }
        result := result[paramKey := inp.user[paramKey].value];
      }
    }
    assert inp.user.Keys - rest == inp.user.Keys;
  }

  function Added(inp: Inputs, key: string): Verdict
    requires key in inp.user
  {
    Verdict(inp.user[key].value, true, NeedsRestart(ItemsFor(inp, key)))
  }

  function AddedKeys(inp: Inputs, walked: set<string>, present: set<string>): map<string, Verdict>
    requires walked <= inp.user.Keys
  {
    map key | key in walked && !Ignored(key) && key !in present :: Added(inp, key)
  }

  lemma AddOneMore(inp: Inputs, rest: set<string>, key: string, verdicts: map<string, Verdict>)
    requires rest <= inp.user.Keys && key in rest
    ensures var before := verdicts + AddedKeys(inp, inp.user.Keys - rest, verdicts.Keys);
      verdicts + AddedKeys(inp, inp.user.Keys - (rest - {key}), verdicts.Keys) ==
      if Ignored(key) || key in verdicts then before else before[key := Added(inp, key)]
    ensures key !in verdicts ==> key !in verdicts + AddedKeys(inp, inp.user.Keys - rest, verdicts.Keys)
  {
    hide Added, Ignored;
  }

  lemma RestartOfFirst(named: seq<Item>)
    ensures NeedsRestart(named) <==> named == [] || named[0].isDynamic == 0
  {
  }

  method MergeParams(inp: Inputs, templateParams: ItemList) returns (r: Outcome)
    requires exists order :: IsOrder(order, inp.classParams) &&
               Views(templateParams) == Merged(inp.template, order, inp.classParams)
    ensures r == EffectiveOutcome(inp)
  {
    hide Tracks, TemplateOf, ItemsFor, IsOrder, Merged, Views, Resolved, ReconciledKeys, OverriddenKeys, AddedKeys, Crashes;
    TemplateFound(inp, templateParams);
    var crashed, merged, changed1, restart1 := MergeRunning(inp, templateParams);
    if crashed {
      return Crash;
    }
    ghost var reconciled := ReconciledKeys(inp, inp.running.Keys);
    var overridden, changed2, restart2 :=
      OverrideWithTemplate(inp, templateParams, merged, changed1, restart1, reconciled);
    ghost var forced := OverriddenKeys(Views(templateParams), reconciled, inp.canUpdate);
    var result, changed, needRestart :=
      AddMissingUserParams(inp, templateParams, overridden, changed2, restart2, forced);
    ghost var verdicts := forced + AddedKeys(inp, inp.user.Keys, forced.Keys);
    PhasesResolve(inp, Views(templateParams));
    assert verdicts == map key | key in EffectiveKeys(inp) :: Resolved(inp, key);
    TracksOutcome(inp, result, changed, needRestart, verdicts);
    return Effective(result, changed, needRestart);
  }

  lemma TemplateFound(inp: Inputs, templateParams: ItemList)
    requires exists order :: IsOrder(order, inp.classParams) &&
               Views(templateParams) == Merged(inp.template, order, inp.classParams)
    ensures TemplateOf(inp, templateParams)
    ensures forall key :: Named(Views(templateParams), key) == ItemsFor(inp, key)
  {
    hide Named, MergedNamed, Merged, Views;
    var order :| IsOrder(order, inp.classParams) &&
                 Views(templateParams) == Merged(inp.template, order, inp.classParams);
    forall key
      ensures Named(Views(templateParams), key) == ItemsFor(inp, key)
    {
      NamedOfMerged(inp.template, order, inp.classParams, key);
    }
  }

  lemma PhasesResolve(inp: Inputs, items: seq<Item>)
    requires forall key :: Named(items, key) == ItemsFor(inp, key)
    ensures var merged := OverriddenKeys(items, ReconciledKeys(inp, inp.running.Keys), inp.canUpdate);
      merged + AddedKeys(inp, inp.user.Keys, merged.Keys) == map key | key in EffectiveKeys(inp) :: Resolved(inp, key)
  {
    hide Named, ItemsFor, Reconciled, Overridden, Ignored;
  }

  lemma TracksOutcome(inp: Inputs, result: map<string, string>, changed: bool, needRestart: bool,
                      verdicts: map<string, Verdict>)
    requires Tracks(result, changed, needRestart, verdicts) && !Crashes(inp)
    requires verdicts == map key | key in EffectiveKeys(inp) :: Resolved(inp, key)
    ensures EffectiveOutcome(inp) == Effective(result, changed, needRestart)
  {
    hide Resolved, Crashes;
    assert result == map key | key in EffectiveKeys(inp) :: Resolved(inp, key).value;
    assert forall key :: key in EffectiveKeys(inp) ==> verdicts[key] == Resolved(inp, key);
    assert forall key :: key in verdicts ==> key in EffectiveKeys(inp);
  }

  /** For every order in which the three maps are walked, the program computes the same outcome. */
  method GetEffectiveParams(userParams: Params, latestFlushTime: string, runningParams: Params, template: ParamsTemplate,
                            inoperative: bool, canUpdateNotChangeableParams: bool)
    returns (r: Outcome)
    ensures r == EffectiveOutcome(Inputs(userParams, runningParams, latestFlushTime, Views(template.templateParams),
                                         template.classParams, inoperative, canUpdateNotChangeableParams))
  {
    hide *;
    var templateParams := template.GetClassParamsTemplate();
    var base := Views(template.templateParams);
    r := MergeParams(Inputs(userParams, runningParams, latestFlushTime, base, template.classParams, inoperative,
                            canUpdateNotChangeableParams), templateParams);
  }
}
