/**
 Changing the instance class: which of the user's stored parameters take a new value, and whether
 the engine still has to be flushed for them.
 */
module ClassChange {
  import opened Wrappers
  import opened MapOrders
  import opened Templates
  import opened TemplateLists
  import opened EffectiveParams

  datatype ChangeInputs = ChangeInputs(user: Params, running: Params, template: seq<Item>,
                                       newClass: map<string, string>, oldClassKey: string, newClassKey: string,
                                       oldClass: Option<map<string, string>>, resetClass: bool, canUpdate: bool)

  datatype EffectiveUserParamValue = EffectiveUserParamValue(value: string, needFlush: bool, runningUpdateTime: string)

  // ---------- one key at a time ----------

  datatype UserVerdict = UserVerdict(current: Option<EffectiveUserParamValue>, changed: bool, restart: bool)

  predicate ClassChanged(inp: ChangeInputs) {
    inp.oldClassKey != inp.newClassKey && inp.newClassKey != "" && inp.oldClassKey != ""
  }

  function NewClassValue(inp: ChangeInputs, key: string): string {
    if key in inp.newClass then inp.newClass[key] else ""
  }

  /** The caller asked to reset the class's own changeable parameters. */
  predicate ResetByRequest(inp: ChangeInputs, item: Item, value: string) {
    && item.name in inp.newClass && inp.resetClass && item.isUserChangeable == 1
    && value != inp.newClass[item.name]
  }

  /** The user still has the old class's default, and the new class has another. */
  predicate StillOldDefault(inp: ChangeInputs, key: string, value: string) {
    && ClassChanged(inp) && inp.oldClass.Some? && key in inp.oldClass.value
    && value == inp.oldClass.value[key] && value != NewClassValue(inp, key)
  }

  predicate Replaces(inp: ChangeInputs, item: Item, value: string) {
    || (Forces(item, inp.canUpdate) && value != item.defaultValue)
    || ResetByRequest(inp, item, value)
    || (item.isUserChangeable == 1 && StillOldDefault(inp, item.name, value))
  }

  /** The running value is the template's already: the stored value is only corrected. */
  predicate RunsAlready(inp: ChangeInputs, item: Item) {
    item.name in inp.running && item.defaultValue == inp.running[item.name].value
  }

  function Replacement(inp: ChangeInputs, item: Item): EffectiveUserParamValue {
    if RunsAlready(inp, item)
    then EffectiveUserParamValue(item.defaultValue, false, inp.running[item.name].updateTime)
    else EffectiveUserParamValue(item.defaultValue, true, "")
  }

  function ValueOf(current: Option<EffectiveUserParamValue>): string {
    if current.None? then "" else current.value.value
  }

  function UserStep(inp: ChangeInputs, item: Item, v: UserVerdict): UserVerdict {
    if Replaces(inp, item, ValueOf(v.current))
    then UserVerdict(Some(Replacement(inp, item)), true,
                     v.restart || (item.isDynamic == 0 && !RunsAlready(inp, item)))
    else v
  }

  function UserFold(inp: ChangeInputs, named: seq<Item>, v: UserVerdict): UserVerdict {
    if named == [] then v else UserStep(inp, named[|named| - 1], UserFold(inp, named[..|named| - 1], v))
  }

  /** Before the template is looked at: the user's values as they are. */
  function StartOf(inp: ChangeInputs, key: string): UserVerdict {
    UserVerdict(if key in inp.user then Some(EffectiveUserParamValue(inp.user[key].value, true, "")) else None,
                false, false)
  }

  function ClassItems(inp: ChangeInputs, key: string): seq<Item> {
    MergedNamed(inp.template, inp.newClass, key)
  }

  function UserResolved(inp: ChangeInputs, key: string): UserVerdict {
    UserFold(inp, ClassItems(inp, key), StartOf(inp, key))
  }

  // ---------- the whole outcome ----------

  datatype UserOutcome =
    | OldClassMissing
    | UserEffective(params: map<string, EffectiveUserParamValue>, changed: bool, needRestart: bool)

  function NamesOf(items: seq<Item>): set<string> {
    set item | item in items :: item.name
  }

  function ConcernedKeys(inp: ChangeInputs): set<string> {
    inp.user.Keys + NamesOf(inp.template) + inp.newClass.Keys
  }

  /** The old class is looked up only once an item is reached, and only if the class changes. */
  predicate LookupFails(inp: ChangeInputs) {
    ClassChanged(inp) && inp.oldClass.None? && (inp.template != [] || inp.newClass != map[])
  }

  function UserOutcomeOf(inp: ChangeInputs): UserOutcome {
    if LookupFails(inp) then OldClassMissing
    else UserEffective(map key | key in ConcernedKeys(inp) && UserResolved(inp, key).current.Some?
                         :: UserResolved(inp, key).current.value,
                       exists key :: key in ConcernedKeys(inp) && UserResolved(inp, key).changed,
                       exists key :: key in ConcernedKeys(inp) && UserResolved(inp, key).restart)
  }

  // ---------- the loops ----------

  function UserVerdicts(inp: ChangeInputs, items: seq<Item>): map<string, UserVerdict> {
    map key | key in inp.user.Keys + NamesOf(items) :: UserFold(inp, Named(items, key), StartOf(inp, key))
  }

  ghost predicate TracksUser(result: map<string, EffectiveUserParamValue>, changed: bool, needRestart: bool,
                             verdicts: map<string, UserVerdict>) {
    && (forall key :: key in result <==> key in verdicts && verdicts[key].current.Some?)
    && (forall key :: key in result ==> result[key] == verdicts[key].current.value)
    && (changed <==> exists key :: key in verdicts && verdicts[key].changed)
    && (needRestart <==> exists key :: key in verdicts && verdicts[key].restart)
  }

  lemma TrackUserSet(result: map<string, EffectiveUserParamValue>, changed: bool, needRestart: bool,
                     verdicts: map<string, UserVerdict>, key: string, v: UserVerdict)
    requires TracksUser(result, changed, needRestart, verdicts)
    requires key in verdicts ==> (verdicts[key].changed ==> v.changed) && (verdicts[key].restart ==> v.restart)
    requires key in verdicts && verdicts[key].current.Some? ==> v.current.Some?
    ensures TracksUser(if v.current.Some? then result[key := v.current.value] else result,
                       changed || v.changed, needRestart || v.restart, verdicts[key := v])
  {
    var after := verdicts[key := v];
    assert key in after && after[key] == v;
    if changed {
      var k :| k in verdicts && verdicts[k].changed;
      assert k in after && after[k].changed;
    }
    if needRestart {
      var k :| k in verdicts && verdicts[k].restart;
      assert k in after && after[k].restart;
    }
  }

  lemma UserOneMore(inp: ChangeInputs, items: seq<Item>, item: Item)
    ensures var before := UserVerdicts(inp, items);
      var start := if item.name in before then before[item.name] else StartOf(inp, item.name);
      UserVerdicts(inp, items + [item]) == before[item.name := UserStep(inp, item, start)]
  {
    hide Named, UserStep, StartOf, UserFold, FirstIndex, NamesOf;
    var before := UserVerdicts(inp, items);
    NamesGrow(items, item);
    forall key
      ensures Named(items + [item], key) == if item.name == key then Named(items, key) + [item] else Named(items, key)
    {
      NamedGrows(items, item, key);
    }
    var named, start := Named(items, item.name), StartOf(inp, item.name);
    FoldOneMore(inp, named, item, start);
    if item.name !in before {
      NamesAreNamed(items, item.name);
      FoldNone(inp, start);
    }
    var after := UserVerdicts(inp, items + [item]);
    var step := UserStep(inp, item, if item.name in before then before[item.name] else start);
    assert after.Keys == before.Keys + {item.name};
    assert after[item.name] == step;
    forall key | key in before && key != item.name
      ensures after[key] == before[key]
    {
    }
    assert after == before[item.name := step];
  }

  lemma NamesGrow(items: seq<Item>, item: Item)
    ensures NamesOf(items + [item]) == NamesOf(items) + {item.name}
  {
  }

  lemma FoldOneMore(inp: ChangeInputs, named: seq<Item>, item: Item, v: UserVerdict)
    ensures UserFold(inp, named + [item], v) == UserStep(inp, item, UserFold(inp, named, v))
  {
  }

  lemma FoldNone(inp: ChangeInputs, v: UserVerdict)
    ensures UserFold(inp, [], v) == v
  {
  }

  lemma TracksUserFacts(result: map<string, EffectiveUserParamValue>, changed: bool, needRestart: bool,
                        verdicts: map<string, UserVerdict>)
    requires TracksUser(result, changed, needRestart, verdicts)
    ensures forall key :: key in result <==> key in verdicts && verdicts[key].current.Some?
    ensures forall key :: key in result ==> result[key] == verdicts[key].current.value
    ensures forall key :: key in verdicts ==>
              (verdicts[key].changed ==> changed) && (verdicts[key].restart ==> needRestart)
  {
  }

  method CopyUserParams(inp: ChangeInputs) returns (result: map<string, EffectiveUserParamValue>)
    ensures result == map key | key in inp.user :: EffectiveUserParamValue(inp.user[key].value, true, "")
  {
    result := map[];
    var rest := inp.user.Keys;
    while rest != {}
      invariant rest <= inp.user.Keys
      invariant result == map key | key in inp.user && key !in rest
                            :: EffectiveUserParamValue(inp.user[key].value, true, "")
      decreases rest
    {
      var paramKey :| paramKey in rest;
      result := result[paramKey := EffectiveUserParamValue(inp.user[paramKey].value, true, "")];
      rest := rest - {paramKey};
    }
  }

  lemma StartTracks(inp: ChangeInputs)
    ensures var result := map key | key in inp.user :: EffectiveUserParamValue(inp.user[key].value, true, "");
      TracksUser(result, false, false, UserVerdicts(inp, []))
  {
  }

  /** The three override rules. */
  method NeedOverride(inp: ChangeInputs, paramItem: ParamTemplateItem, itemResultValue: string,
                      oldClassParams: Option<map<string, string>>) returns (needOverride: bool)
    requires oldClassParams == if ClassChanged(inp) then inp.oldClass else None
    ensures needOverride == Replaces(inp, paramItem.View(), itemResultValue)
  {
    var needOverride1 :=
      && !inp.canUpdate && paramItem.isUserChangeable == 0 && paramItem.isDeleted == 0
      && itemResultValue != paramItem.defaultValue && paramItem.name !in IGNORE_TEMPLATE_PARAMS;
    var newClassParamValue := if paramItem.name in inp.newClass then inp.newClass[paramItem.name] else "";
    var needOverride2 :=
      && paramItem.name in inp.newClass && inp.resetClass && paramItem.isUserChangeable == 1
      && itemResultValue != newClassParamValue;
    var needOverride3 := false;
    if oldClassParams.Some? {
      needOverride3 :=
        && paramItem.name in oldClassParams.value && paramItem.isUserChangeable == 1
        && itemResultValue == oldClassParams.value[paramItem.name] && itemResultValue != newClassParamValue;
    }
    return needOverride1 || needOverride2 || needOverride3;
  }

  method MakeReplacement(inp: ChangeInputs, paramItem: ParamTemplateItem) returns (r: EffectiveUserParamValue)
    ensures r == Replacement(inp, paramItem.View())
    ensures r.needFlush == !RunsAlready(inp, paramItem.View())
  {
    var needFlush := true;
    var runningUpdateTime := "";
    if paramItem.name in inp.running && paramItem.defaultValue == inp.running[paramItem.name].value {
      needFlush := false;
      runningUpdateTime := inp.running[paramItem.name].updateTime;
    }
    return EffectiveUserParamValue(paramItem.defaultValue, needFlush, runningUpdateTime);
  }

  method ApplyTemplate(inp: ChangeInputs, templateParams: ItemList)
    returns (failed: bool, result: map<string, EffectiveUserParamValue>, changed: bool, needRestart: bool)
    ensures failed <==> ClassChanged(inp) && inp.oldClass.None? && templateParams != []
    ensures !failed ==> TracksUser(result, changed, needRestart, UserVerdicts(inp, Views(templateParams)))
  {
    hide TracksUser, UserVerdicts, Views, Replacement, StartOf, Replaces, RunsAlready;
    failed, changed, needRestart := false, false, false;
    result := CopyUserParams(inp);
    ghost var views := Views(templateParams);
    assert views[..0] == [];
    StartTracks(inp);
    var oldClassParams: Option<map<string, string>> := None;
    for i := 0 to |templateParams|
      invariant TracksUser(result, changed, needRestart, UserVerdicts(inp, views[..i]))
      invariant oldClassParams == if ClassChanged(inp) && i > 0 then inp.oldClass else None
      invariant ClassChanged(inp) && i > 0 ==> inp.oldClass.Some?
    {
      var paramItem := templateParams[i];
      ghost var item := paramItem.View();
      ghost var before := UserVerdicts(inp, views[..i]);
      TracksUserFacts(result, changed, needRestart, before);
      if inp.oldClassKey != inp.newClassKey && inp.newClassKey != "" && inp.oldClassKey != "" {
        if oldClassParams.None? {
          if inp.oldClass.None? {
            failed := true;
            return;
          }
          oldClassParams := inp.oldClass;
        }
      }
      var itemResultValue := "";
      if paramItem.name in result {
        itemResultValue := result[paramItem.name].value;
      }
      StartOutside(inp, views[..i], item.name);
      ghost var start := if item.name in before then before[item.name] else StartOf(inp, item.name);
      ghost var v := UserStep(inp, item, start);
      assert itemResultValue == ValueOf(start.current);
      assert views[..i + 1] == views[..i] + [item];
      UserOneMore(inp, views[..i], item);
      TrackUserSet(result, changed, needRestart, before, item.name, v);
      var needOverride := NeedOverride(inp, paramItem, itemResultValue, oldClassParams);
      if needOverride {
        var replacement := MakeReplacement(inp, paramItem);
        changed := true;
        if paramItem.isDynamic == 0 && replacement.needFlush {
          needRestart := true;
        }
        result := result[paramItem.name := replacement];
      } else {
        assert v.current.Some? ==> result[item.name := v.current.value] == result;
      }
    }
    assert views[..|templateParams|] == views;
  }

  lemma StartOutside(inp: ChangeInputs, items: seq<Item>, key: string)
    ensures key !in UserVerdicts(inp, items) ==> StartOf(inp, key) == UserVerdict(None, false, false)
  {
  }

  /** For every order in which the maps are walked, the program computes the same outcome. */
  method GetEffectiveUserParams(user: Params, running: Params, template: ParamsTemplate, oldClassKey: string,
                                newClassKey: string, oldClass: Option<map<string, string>>,
                                resetClassChangeableValue: bool, canUpdateNotChangeableParams: bool)
    returns (r: UserOutcome)
    ensures r == UserOutcomeOf(ChangeInputs(user, running, Views(template.templateParams), template.classParams,
                                            oldClassKey, newClassKey, oldClass, resetClassChangeableValue,
                                            canUpdateNotChangeableParams))
  {
    hide Views, Merged, UserOutcomeOf, TracksUser, UserVerdicts;
    var templateParams := template.GetClassParamsTemplate();
    var inp := ChangeInputs(user, running, Views(template.templateParams), template.classParams,
                            oldClassKey, newClassKey, oldClass, resetClassChangeableValue,
                            canUpdateNotChangeableParams);
    var failed, result, changed, needRestart := ApplyTemplate(inp, templateParams);
    ghost var order :| IsOrder(order, inp.newClass) &&
                       Views(templateParams) == Merged(inp.template, order, inp.newClass);
    MergedEmptyIff(inp.template, order, inp.newClass);
    if failed {
      OutcomeFails(inp);
      return OldClassMissing;
    }
    r := UserEffective(result, changed, needRestart);
    TracksUserOutcome(inp, order, Views(templateParams), result, changed, needRestart);
  }

  lemma OutcomeFails(inp: ChangeInputs)
    requires ClassChanged(inp) && inp.oldClass.None? && (inp.template != [] || inp.newClass != map[])
    ensures UserOutcomeOf(inp) == OldClassMissing
  {
  }

  lemma MergedEmptyIff(items: seq<Item>, order: seq<string>, classParams: map<string, string>)
    requires IsOrder(order, classParams)
    ensures Merged(items, order, classParams) == [] <==> items == [] && classParams == map[]
  {
  }

  lemma NamesAreNamed(items: seq<Item>, key: string)
    ensures key in NamesOf(items) <==> Named(items, key) != []
  {
  }

  lemma VerdictsResolve(inp: ChangeInputs, order: seq<string>, items: seq<Item>)
    requires IsOrder(order, inp.newClass) && items == Merged(inp.template, order, inp.newClass)
    ensures UserVerdicts(inp, items) == map key | key in ConcernedKeys(inp) :: UserResolved(inp, key)
  {
    hide Named, Merged, UserFold, IsOrder;
    forall key
      ensures Named(items, key) == ClassItems(inp, key)
      ensures key in NamesOf(items) <==> key in NamesOf(inp.template) + inp.newClass.Keys
    {
      NamedOfMerged(inp.template, order, inp.newClass, key);
      NamesAreNamed(items, key);
      NamesAreNamed(inp.template, key);
    }
  }

  lemma TracksUserOutcome(inp: ChangeInputs, order: seq<string>, items: seq<Item>,
                          result: map<string, EffectiveUserParamValue>, changed: bool, needRestart: bool)
    requires !LookupFails(inp)
    requires IsOrder(order, inp.newClass) && items == Merged(inp.template, order, inp.newClass)
    requires TracksUser(result, changed, needRestart, UserVerdicts(inp, items))
    ensures UserOutcomeOf(inp) == UserEffective(result, changed, needRestart)
  {
    hide UserVerdicts, Merged, UserResolved, LookupFails, IsOrder, ConcernedKeys, TracksUser, UserOutcomeOf;
    VerdictsResolve(inp, order, items);
    ResolvedOutcome(inp, result, changed, needRestart, UserVerdicts(inp, items));
  }

  lemma ResolvedOutcome(inp: ChangeInputs, result: map<string, EffectiveUserParamValue>, changed: bool,
                        needRestart: bool, verdicts: map<string, UserVerdict>)
    requires TracksUser(result, changed, needRestart, verdicts) && !LookupFails(inp)
    requires verdicts == map key | key in ConcernedKeys(inp) :: UserResolved(inp, key)
    ensures UserOutcomeOf(inp) == UserEffective(result, changed, needRestart)
  {
    hide UserResolved, LookupFails, ConcernedKeys;
    assert forall key :: key in ConcernedKeys(inp) ==> verdicts[key] == UserResolved(inp, key);
    assert forall key :: key in verdicts ==> key in ConcernedKeys(inp);
    assert result == map key | key in ConcernedKeys(inp) && UserResolved(inp, key).current.Some?
                       :: UserResolved(inp, key).current.value;
  }

  // ---------- writing the stored parameters ----------

  /** A stored item after an update: untouched unless its value differs. */
  function UpdatedItem(item: ParamItem, effective: EffectiveUserParamValue, now: string): ParamItem {
    if effective.value == item.value then item
    else item.(value := effective.value, updateTime := if effective.needFlush then now else effective.runningUpdateTime)
  }

  /** The stored map after an update; `clock` gives the time read when a key is rewritten. */
  function UpdatedStore(store: Params, effective: map<string, EffectiveUserParamValue>, clock: string -> string): Params {
    map key | key in store && key in effective :: UpdatedItem(store[key], effective[key], clock(key))
  }

  /** The stored map after ModifyClassParams. */
  function ModifiedStore(inp: ChangeInputs, clock: string -> string): Params {
    map key | key in inp.user :: UpdatedItem(inp.user[key], ModifiedValue(inp, key), clock(key))
  }

  function ModifiedValue(inp: ChangeInputs, key: string): EffectiveUserParamValue
    requires key in inp.user
  {
    KeepsSome(inp, ClassItems(inp, key), StartOf(inp, key));
    UserResolved(inp, key).current.value
  }

  lemma {:induction false} KeepsSome(inp: ChangeInputs, named: seq<Item>, v: UserVerdict)
    requires v.current.Some?
    ensures UserFold(inp, named, v).current.Some?
    ensures !v.changed && !UserFold(inp, named, v).changed ==> UserFold(inp, named, v) == v
    ensures v.changed ==> UserFold(inp, named, v).changed
    decreases |named|
  {
    if named != [] {
      KeepsSome(inp, named[..|named| - 1], v);
    }
  }

  /** Every stored key has an effective value, so an update never deletes one. */
  lemma UpdateFromOutcome(inp: ChangeInputs, clock: string -> string)
    requires UserOutcomeOf(inp).UserEffective?
    ensures UpdatedStore(inp.user, UserOutcomeOf(inp).params, clock) == ModifiedStore(inp, clock)
    ensures !UserOutcomeOf(inp).changed ==> ModifiedStore(inp, clock) == inp.user
  {
    hide UserFold, Replaces, LookupFails;
    var params := UserOutcomeOf(inp).params;
    forall key | key in inp.user
      ensures key in params && params[key] == ModifiedValue(inp, key)
      ensures !UserOutcomeOf(inp).changed ==> ModifiedValue(inp, key).value == inp.user[key].value
    {
      KeepsSome(inp, ClassItems(inp, key), StartOf(inp, key));
      assert key in ConcernedKeys(inp);
    }
  }
}
