/** What a class change keeps, and how it meets the next flush. */
module ClassChangeLaws {
  import opened Wrappers
  import opened GoText
  import opened Templates
  import opened EffectiveParams
  import opened ClassChange

  // ---------- the value alone ----------

  /** The value a list of items leaves for a key. */
  function ValueFold(inp: ChangeInputs, named: seq<Item>, value: string): string {
    if named == [] then value
    else
      var v := ValueFold(inp, named[..|named| - 1], value);
      if Replaces(inp, named[|named| - 1], v) then named[|named| - 1].defaultValue else v
  }

  lemma {:induction false} FoldHasValue(inp: ChangeInputs, named: seq<Item>, v: UserVerdict)
    ensures ValueOf(UserFold(inp, named, v).current) == ValueFold(inp, named, ValueOf(v.current))
    decreases |named|
  {
    hide Replaces;
    if named != [] {
      FoldHasValue(inp, named[..|named| - 1], v);
    }
  }

  lemma ModifiedHasValue(inp: ChangeInputs, key: string)
    requires key in inp.user
    ensures ModifiedValue(inp, key).value == ValueFold(inp, ClassItems(inp, key), inp.user[key].value)
  {
    hide Replaces, UserFold, ValueFold, ClassItems;
    FoldHasValue(inp, ClassItems(inp, key), StartOf(inp, key));
    KeepsSome(inp, ClassItems(inp, key), StartOf(inp, key));
  }

  predicate SomeForces(inp: ChangeInputs, named: seq<Item>) {
    exists i :: 0 <= i < |named| && Forces(named[i], inp.canUpdate)
  }

  /** A forcing item fixes the outcome, whatever the value was. */
  lemma {:induction false} ForcedFold(inp: ChangeInputs, named: seq<Item>, v: string, w: string)
    requires !inp.resetClass && SomeForces(inp, named)
    ensures ValueFold(inp, named, v) == ValueFold(inp, named, w)
    decreases |named|
  {
    hide StillOldDefault;
    var front, last := named[..|named| - 1], named[|named| - 1];
    if !Forces(last, inp.canUpdate) {
      var i :| 0 <= i < |named| && Forces(named[i], inp.canUpdate);
      assert Forces(front[i], inp.canUpdate);
      ForcedFold(inp, front, v, w);
    }
  }

  /** Without one, only the old class's default can be replaced. */
  lemma {:induction false} FreeFold(inp: ChangeInputs, named: seq<Item>, key: string, v: string)
    requires !inp.resetClass && !SomeForces(inp, named) && !StillOldDefault(inp, key, v)
    requires forall i :: 0 <= i < |named| ==> named[i].name == key
    ensures ValueFold(inp, named, v) == v
    decreases |named|
  {
    hide StillOldDefault, Forces;
    if named != [] {
      var front := named[..|named| - 1];
      assert forall i :: 0 <= i < |front| ==> front[i] == named[i];
      FreeFold(inp, front, key, v);
      assert !Forces(named[|named| - 1], inp.canUpdate);
    }
  }

  /** Folding twice is folding once, also when the template repeats names. */
  lemma FoldTwice(inp: ChangeInputs, named: seq<Item>, key: string, v: string)
    requires !inp.resetClass && forall i :: 0 <= i < |named| ==> named[i].name == key
    ensures ValueFold(inp, named, ValueFold(inp, named, v)) == ValueFold(inp, named, v)
  {
    hide ValueFold, SomeForces;
    var once := ValueFold(inp, named, v);
    if SomeForces(inp, named) {
      ForcedFold(inp, named, v, once);
    } else if !StillOldDefault(inp, key, v) {
      FreeFold(inp, named, key, v);
    } else if !StillOldDefault(inp, key, once) {
      FreeFold(inp, named, key, once);
    }
  }

  lemma {:induction false} FoldIgnoresUserAndRunning(inp: ChangeInputs, inp': ChangeInputs, named: seq<Item>, v: string)
    requires inp' == inp.(user := inp'.user, running := inp'.running)
    ensures ValueFold(inp', named, v) == ValueFold(inp, named, v)
    decreases |named|
  {
    if named != [] {
      FoldIgnoresUserAndRunning(inp, inp', named[..|named| - 1], v);
    }
  }

  lemma ClassItemsNamed(inp: ChangeInputs, key: string)
    ensures forall i :: 0 <= i < |ClassItems(inp, key)| ==> ClassItems(inp, key)[i].name == key
  {
  }

  // ---------- the laws ----------

  /** ModifyClassParams twice leaves the store exactly as once, update times included, whatever the
      running parameters are the second time and however the clock has moved. */
  lemma ModifyTwiceIsOnce(inp: ChangeInputs, running': Params, clock: string -> string, clock': string -> string)
    requires !inp.resetClass
    ensures var once := ModifiedStore(inp, clock);
      ModifiedStore(inp.(user := once, running := running'), clock') == once
  {
    var once := ModifiedStore(inp, clock);
    var inp' := inp.(user := once, running := running');
    hide ModifiedValue, ValueFold;
    forall key | key in inp.user
      ensures ModifiedValue(inp', key).value == once[key].value
    {
      var named := ClassItems(inp, key);
      assert ClassItems(inp', key) == named;
      ModifiedHasValue(inp, key);
      ModifiedHasValue(inp', key);
      FoldIgnoresUserAndRunning(inp, inp', named, once[key].value);
      ClassItemsNamed(inp, key);
      FoldTwice(inp, named, key, inp.user[key].value);
    }
  }

  /** The stored keys never change. A changeable value that is not the old class's default survives. */
  lemma UsersChoicesSurvive(inp: ChangeInputs, clock: string -> string, key: string)
    requires !inp.resetClass
    requires key in inp.user && !StillOldDefault(inp, key, inp.user[key].value)
    requires forall i :: 0 <= i < |ClassItems(inp, key)| ==> ClassItems(inp, key)[i].isUserChangeable == 1
    ensures ModifiedStore(inp, clock).Keys == inp.user.Keys
    ensures ModifiedStore(inp, clock)[key] == inp.user[key]
  {
    hide ModifiedValue, ValueFold, StillOldDefault;
    ModifiedHasValue(inp, key);
    ClassItemsNamed(inp, key);
    FreeFold(inp, ClassItems(inp, key), key, inp.user[key].value);
  }

  /** With distinct names: exactly which stored values a class change rewrites, and to what. */
  lemma ModifiedExactly(inp: ChangeInputs, clock: string -> string, key: string)
    requires !inp.resetClass && key in inp.user && |ClassItems(inp, key)| <= 1
    ensures var old_, new_ := inp.user[key].value, ModifiedStore(inp, clock)[key].value;
      if ClassItems(inp, key) != [] &&
         (Forces(ClassItems(inp, key)[0], inp.canUpdate) ||
          (ClassItems(inp, key)[0].isUserChangeable == 1 && StillOldDefault(inp, key, old_)))
      then new_ == ClassItems(inp, key)[0].defaultValue
      else new_ == old_
  {
    hide ModifiedValue, StillOldDefault, Forces, ClassItems;
    var named := ClassItems(inp, key);
    ModifiedHasValue(inp, key);
    ClassItemsNamed(inp, key);
    if named != [] {
      assert named[..0] == [];
      assert ValueFold(inp, named[..0], inp.user[key].value) == inp.user[key].value;
    }
  }

  // ---------- the handshake with the next flush ----------

  /** A value that was replaced carries the flush flag its own comparison with the running value set. */
  lemma {:induction false} ReplacedKnowsRunning(inp: ChangeInputs, named: seq<Item>, key: string, v: UserVerdict)
    requires forall i :: 0 <= i < |named| ==> named[i].name == key
    requires !v.changed
    ensures var r := UserFold(inp, named, v);
      if !r.changed then r == v
      else
        && r.current.Some?
        && var effective := r.current.value;
        && var same := key in inp.running && effective.value == inp.running[key].value;
        && effective.needFlush == !same
        && (same ==> effective.runningUpdateTime == inp.running[key].updateTime)
    decreases |named|
  {
    hide Replaces;
    if named != [] {
      var front := named[..|named| - 1];
      assert forall i :: 0 <= i < |front| ==> front[i] == named[i];
      ReplacedKnowsRunning(inp, front, key, v);
    }
  }

  /** The inputs of the first reconciliation after a class change. */
  function AfterChange(inp: ChangeInputs, clock: string -> string, latestFlush: string): Inputs {
    Inputs(ModifiedStore(inp, clock), inp.running, latestFlush, inp.template, inp.newClass, false, inp.canUpdate)
  }

  /** When a class change really replaced the stored value of a running parameter, at a time later than
      everything recorded, the next reconciliation takes it for a newer user value and flags it exactly
      when the running value is not already the new one. */
  lemma ClassChangeIsFlushedIffNeeded(inp: ChangeInputs, clock: string -> string, latestFlush: string, key: string)
    requires !inp.resetClass && key in inp.user && key in inp.running
    ensures var next := AfterChange(inp, clock, latestFlush);
      var differs := inp.running[key].value != next.user[key].value;
      && next.user[key].value != inp.user[key].value
      && Less(inp.running[key].updateTime, clock(key))
      && (latestFlush == "" || !Less(clock(key), latestFlush)) ==>
      && (IsNewer(next, key) && !IsFlushed(next, key) <==> differs)
      && Reconciled(next, key).changed == differs
      && (differs ==> Reconciled(next, key).value == next.user[key].value)
      && (differs ==> Resolved(next, key).changed)
  {
    hide UserFold, Less, ClassItems, ItemsFor, Overridden;
    var start, named := StartOf(inp, key), ClassItems(inp, key);
    ClassItemsNamed(inp, key);
    ReplacedKnowsRunning(inp, named, key, start);
    var next := AfterChange(inp, clock, latestFlush);
    var running := inp.running[key];
    assert next.user[key] == UpdatedItem(inp.user[key], ModifiedValue(inp, key), clock(key));
    LessAsymmetric(running.updateTime, running.updateTime);
    OverridingKeepsReports(ItemsFor(next, key), Reconciled(next, key), next.canUpdate);
  }

  lemma {:induction false} OverridingKeepsReports(named: seq<Item>, v: Verdict, canUpdate: bool)
    ensures v.changed ==> Overridden(named, v, canUpdate).changed
    decreases |named|
  {
    if named != [] {
      OverridingKeepsReports(named[..|named| - 1], v, canUpdate);
    }
  }

  // ---------- in plain terms ----------

  /** A key, what is stored and running of it, and the items of its name. */
  function Alone(inp: ChangeInputs, key: string): ChangeInputs {
    inp.(user := map k | k in inp.user && k == key :: inp.user[k],
         running := map k | k in inp.running && k == key :: inp.running[k],
         newClass := map k | k in inp.newClass && k == key :: inp.newClass[k],
         template := Named(inp.template, key))
  }

  /** One key with at most one item: the whole outcome. */
  lemma OneStoredParameter(inp: ChangeInputs, key: string)
    requires inp.user.Keys <= {key} && inp.newClass.Keys <= {key}
    requires forall i :: 0 <= i < |inp.template| ==> inp.template[i].name == key
    requires |ClassItems(inp, key)| <= 1 && UserOutcomeOf(inp) != OldClassMissing
    ensures var stored := if key in inp.user then map[key := EffectiveUserParamValue(inp.user[key].value, true, "")] else map[];
      UserOutcomeOf(inp) ==
      if ClassItems(inp, key) == [] then UserEffective(stored, false, false)
      else
        var item := ClassItems(inp, key)[0];
        var value := if key in inp.user then inp.user[key].value else "";
        var newValue := if key in inp.newClass then inp.newClass[key] else "";
        var forced :=
          && !inp.canUpdate && item.isUserChangeable == 0 && item.isDeleted == 0 && value != item.defaultValue
          && key !in ["ssl", "ssl_cert_file", "ssl_key_file", "listen_addresses"];
        var reset := inp.resetClass && key in inp.newClass && item.isUserChangeable == 1 && value != newValue;
        var follows :=
          && inp.oldClassKey != inp.newClassKey && inp.oldClassKey != "" && inp.newClassKey != ""
          && inp.oldClass.Some? && key in inp.oldClass.value && item.isUserChangeable == 1
          && value == inp.oldClass.value[key] && value != newValue;
        var runs := key in inp.running && inp.running[key].value == item.defaultValue;
        if forced || reset || follows then
          UserEffective(map[key := EffectiveUserParamValue(item.defaultValue, !runs,
                                                           if runs then inp.running[key].updateTime else "")],
                        true, item.isDynamic == 0 && !runs)
        else UserEffective(stored, false, false)
  {
    hide UserOutcomeOf, ClassItems, UserResolved, UserStep;
    OnlyStored(inp, key);
    if ClassItems(inp, key) != [] {
      ResolvedOne(inp, key);
      ClassItemsNamed(inp, key);
      StepPlainly(inp, ClassItems(inp, key)[0], StartOf(inp, key));
    } else {
      ResolvedNone(inp, key);
    }
  }

  lemma StepPlainly(inp: ChangeInputs, item: Item, v: UserVerdict)
    requires !v.changed && !v.restart
    ensures var key := item.name;
      var value := if v.current.Some? then v.current.value.value else "";
      var newValue := if key in inp.newClass then inp.newClass[key] else "";
      var forced :=
        && !inp.canUpdate && item.isUserChangeable == 0 && item.isDeleted == 0 && value != item.defaultValue
        && key !in ["ssl", "ssl_cert_file", "ssl_key_file", "listen_addresses"];
      var reset := inp.resetClass && key in inp.newClass && item.isUserChangeable == 1 && value != newValue;
      var follows :=
        && inp.oldClassKey != inp.newClassKey && inp.oldClassKey != "" && inp.newClassKey != ""
        && inp.oldClass.Some? && key in inp.oldClass.value && item.isUserChangeable == 1
        && value == inp.oldClass.value[key] && value != newValue;
      var runs := key in inp.running && inp.running[key].value == item.defaultValue;
      UserStep(inp, item, v) ==
      if forced || reset || follows then
        UserVerdict(Some(EffectiveUserParamValue(item.defaultValue, !runs,
                                                 if runs then inp.running[key].updateTime else "")),
                    true, item.isDynamic == 0 && !runs)
      else v
  {
  }

  lemma ResolvedOne(inp: ChangeInputs, key: string)
    requires |ClassItems(inp, key)| == 1
    ensures UserResolved(inp, key) == UserStep(inp, ClassItems(inp, key)[0], StartOf(inp, key))
  {
    hide UserStep, ClassItems, StartOf;
    var named, start := ClassItems(inp, key), StartOf(inp, key);
    assert named[..|named| - 1] == [];
    assert UserFold(inp, [], start) == start;
    assert UserFold(inp, named, start) == UserStep(inp, named[|named| - 1], UserFold(inp, named[..|named| - 1], start));
  }

  lemma ResolvedNone(inp: ChangeInputs, key: string)
    requires ClassItems(inp, key) == []
    ensures UserResolved(inp, key) == StartOf(inp, key)
  {
  }

  lemma OnlyStored(inp: ChangeInputs, key: string)
    requires inp.user.Keys <= {key} && inp.newClass.Keys <= {key}
    requires forall i :: 0 <= i < |inp.template| ==> inp.template[i].name == key
    requires UserOutcomeOf(inp) != OldClassMissing
    ensures var v := UserResolved(inp, key);
      UserOutcomeOf(inp) ==
      UserEffective(if v.current.Some? then map[key := v.current.value] else map[], v.changed, v.restart)
  {
    hide UserResolved, LookupFails, ConcernedKeys;
    ConcernedOnly(inp, key);
    var v, outcome := UserResolved(inp, key), UserOutcomeOf(inp);
    assert outcome.changed == v.changed;
    assert outcome.needRestart == v.restart;
    assert outcome.params == if v.current.Some? then map[key := v.current.value] else map[] by {
      assert forall k :: k in outcome.params <==> k == key && v.current.Some?;
    }
  }

  lemma ConcernedOnly(inp: ChangeInputs, key: string)
    requires inp.user.Keys <= {key} && inp.newClass.Keys <= {key}
    requires forall i :: 0 <= i < |inp.template| ==> inp.template[i].name == key
    ensures forall k :: k in ConcernedKeys(inp) ==> k == key
    ensures key !in ConcernedKeys(inp) ==> UserResolved(inp, key) == UserVerdict(None, false, false)
  {
    if key !in ConcernedKeys(inp) {
      NamesInList(inp.template, key);
      ResolvedNone(inp, key);
    }
  }

  lemma NamesInList(items: seq<Item>, key: string)
    ensures key in NamesOf(items) <==> Named(items, key) != []
  {
    hide Named;
    NamedNone(items, key);
  }

  /** The old class's lookup fails the whole call exactly when the class changes and there is any item.
      Otherwise every key gets what it would get alone, and each flag is set exactly when it would be set
      for some key alone. */
  lemma KeysAreIndependent(inp: ChangeInputs)
    ensures UserOutcomeOf(inp) == OldClassMissing <==>
            && inp.oldClassKey != inp.newClassKey && inp.oldClassKey != "" && inp.newClassKey != ""
            && inp.oldClass.None? && (inp.template != [] || inp.newClass != map[])
    ensures var outcome := UserOutcomeOf(inp);
      outcome != OldClassMissing ==>
        && (forall key :: UserOutcomeOf(Alone(inp, key)) != OldClassMissing)
        && (forall key :: UserOutcomeOf(Alone(inp, key)).params ==
              if key in outcome.params then map[key := outcome.params[key]] else map[])
        && (outcome.changed <==> exists key :: UserOutcomeOf(Alone(inp, key)).changed)
        && (outcome.needRestart <==> exists key :: UserOutcomeOf(Alone(inp, key)).needRestart)
  {
    var outcome := UserOutcomeOf(inp);
    if outcome != OldClassMissing {
      hide UserResolved, ConcernedKeys;
      forall key
        ensures UserOutcomeOf(Alone(inp, key)) ==
          var v := UserResolved(inp, key);
          UserEffective(if v.current.Some? then map[key := v.current.value] else map[], v.changed, v.restart)
      {
        OutcomeAlone(inp, key);
      }
      forall key | key !in ConcernedKeys(inp)
        ensures UserResolved(inp, key) == UserVerdict(None, false, false)
      {
        Unconcerned(inp, key);
      }
    }
  }

  lemma Unconcerned(inp: ChangeInputs, key: string)
    requires key !in ConcernedKeys(inp)
    ensures UserResolved(inp, key) == UserVerdict(None, false, false)
  {
    NamesInList(inp.template, key);
    ResolvedNone(inp, key);
  }

  lemma OutcomeAlone(inp: ChangeInputs, key: string)
    requires UserOutcomeOf(inp) != OldClassMissing
    ensures var v := UserResolved(inp, key);
      UserOutcomeOf(Alone(inp, key)) ==
      UserEffective(if v.current.Some? then map[key := v.current.value] else map[], v.changed, v.restart)
  {
    LookupAlone(inp, key);
    ResolvedAlone(inp, key);
    hide UserResolved, LookupFails, Named;
    OnlyStored(Alone(inp, key), key);
  }

  lemma LookupAlone(inp: ChangeInputs, key: string)
    requires UserOutcomeOf(inp) != OldClassMissing
    ensures UserOutcomeOf(Alone(inp, key)) != OldClassMissing
  {
    hide UserResolved, ConcernedKeys;
    assert ClassChanged(Alone(inp, key)) == ClassChanged(inp);
    assert inp.template == [] ==> Named(inp.template, key) == [];
    assert inp.newClass == map[] ==> Alone(inp, key).newClass == map[];
  }

  lemma ResolvedAlone(inp: ChangeInputs, key: string)
    ensures UserResolved(Alone(inp, key), key) == UserResolved(inp, key)
    ensures ClassItems(Alone(inp, key), key) == ClassItems(inp, key)
  {
    var one := Alone(inp, key);
    assert ClassItems(one, key) == ClassItems(inp, key) by {
      NamedAgain(inp.template, key);
    }
    ClassItemsNamed(inp, key);
    hide ClassItems;
    FoldAlone(inp, key, ClassItems(inp, key), StartOf(inp, key));
  }

  lemma {:induction false} NamedAgain(items: seq<Item>, key: string)
    ensures Named(Named(items, key), key) == Named(items, key)
    decreases |items|
  {
    if items != [] {
      var front, last := items[..|items| - 1], items[|items| - 1];
      NamedAgain(front, key);
      NamedGrows(Named(front, key), last, key);
    }
  }

  lemma {:induction false} FoldAlone(inp: ChangeInputs, key: string, named: seq<Item>, v: UserVerdict)
    requires forall i :: 0 <= i < |named| ==> named[i].name == key
    ensures UserFold(Alone(inp, key), named, v) == UserFold(inp, named, v)
    decreases |named|
  {
    if named != [] {
      var front := named[..|named| - 1];
      assert forall i :: 0 <= i < |front| ==> front[i] == named[i];
      FoldAlone(inp, key, front, v);
      StepAlone(inp, key, named[|named| - 1], UserFold(inp, front, v));
    }
  }

  lemma StepAlone(inp: ChangeInputs, key: string, item: Item, v: UserVerdict)
    requires item.name == key
    ensures UserStep(Alone(inp, key), item, v) == UserStep(inp, item, v)
  {
    hide Named, Forces;
  }

  /** What ModifyClassParams stores for a key with at most one item: the item as it was, or the default
      with the time of the change, or with the running one's time when the default is running already. */
  lemma StoredItemExactly(inp: ChangeInputs, clock: string -> string, key: string)
    requires !inp.resetClass && key in inp.user && |ClassItems(inp, key)| <= 1
    ensures var stored := ModifiedStore(inp, clock);
      && stored.Keys == inp.user.Keys
      && if ClassItems(inp, key) == [] then stored[key] == inp.user[key]
         else
           var item, value := ClassItems(inp, key)[0], inp.user[key].value;
           var newValue := if key in inp.newClass then inp.newClass[key] else "";
           var forced :=
             && !inp.canUpdate && item.isUserChangeable == 0 && item.isDeleted == 0
             && key !in ["ssl", "ssl_cert_file", "ssl_key_file", "listen_addresses"];
           var follows :=
             && inp.oldClassKey != inp.newClassKey && inp.oldClassKey != "" && inp.newClassKey != ""
             && inp.oldClass.Some? && key in inp.oldClass.value && item.isUserChangeable == 1
             && value == inp.oldClass.value[key] && value != newValue;
           stored[key] ==
           if (!forced && !follows) || value == item.defaultValue then inp.user[key]
           else
             inp.user[key].(
               value := item.defaultValue,
               updateTime := if key in inp.running && inp.running[key].value == item.defaultValue
                             then inp.running[key].updateTime else clock(key))
  {
    hide ClassItems, UserResolved, UserStep;
    if ClassItems(inp, key) == [] {
      ResolvedNone(inp, key);
    } else {
      ResolvedOne(inp, key);
      ClassItemsNamed(inp, key);
      StepPlainly(inp, ClassItems(inp, key)[0], StartOf(inp, key));
    }
  }

  /** A changeable parameter of both classes, when the class changes: a stored value that is the old
      class's becomes the new class's, and every other one stays. When the class does not change, all stay. */
  lemma ClassDefaultIsFollowed(inp: ChangeInputs, clock: string -> string, key: string, i: nat)
    requires !inp.resetClass && key in inp.user && key in inp.newClass && DistinctNames(inp.template)
    requires i < |inp.template| && inp.template[i].name == key && inp.template[i].isUserChangeable == 1
    requires inp.oldClass.Some? && key in inp.oldClass.value
    ensures ModifiedStore(inp, clock)[key].value ==
            if && inp.oldClassKey != inp.newClassKey && inp.oldClassKey != "" && inp.newClassKey != ""
               && inp.user[key].value == inp.oldClass.value[key]
            then inp.newClass[key] else inp.user[key].value
  {
    ItemOfKey(inp.template, inp.newClass, key);
    hide ModifiedStore, DistinctNames, MergedNamed;
    StoredItemExactly(inp, clock, key);
  }
}
