/** The stored parameters of one cluster, and the operations that rewrite them. */
module ParamsRepository {
  import opened Wrappers
  import opened Templates
  import opened TemplateLists
  import opened EffectiveParams
  import opened ClassChange

  /** A parameter as it is first stored; `clock` gives the time read when its key is converted. */
  function Converted(params: map<string, string>, clock: string -> string): Params {
    map key | key in params :: ParamItem(key, params[key], clock(key), "")
  }

  /** The user's stored object: the items and, as an annotation, the latest flush time. */
  datatype UserObject = UserObject(items: Params, latestFlushTime: string)

  /** How the API server answers while an object is replaced: reading it, deleting it if it was found, and
      the rest, from finding the owner to creating the new object. */
  datatype SaveReplies = SaveReplies(read: bool, deleted: bool, created: bool)

  /** An object that exists must be found and deleted before a new one of its name can be created. */
  predicate Cleared<T>(stored: Option<T>, replies: SaveReplies) {
    stored.None? || (replies.read && replies.deleted)
  }

  function Replaced<T>(stored: Option<T>, next: T, replies: SaveReplies): Option<T> {
    if !Cleared(stored, replies) then stored else if replies.created then Some(next) else None
  }

  /** Saving succeeds exactly when every answer it needs is good. When it fails, the object is as it was
      if it could not be deleted, and gone if it could. */
  lemma FailedSaveKeepsOrLoses<T>(stored: Option<T>, next: T, replies: SaveReplies)
    ensures Cleared(stored, replies) && replies.created ==> Replaced(stored, next, replies) == Some(next)
    ensures !(Cleared(stored, replies) && replies.created) ==>
              Replaced(stored, next, replies) == if replies.read && replies.deleted then None else stored
  {
  }

  /** The stored objects; None for one that does not exist. */
  class EngineParamsRepository {
    var userParams: Option<UserObject>
    var runningParams: Option<Params>

    constructor (userParams: Option<UserObject>, runningParams: Option<Params>)
      ensures this.userParams == userParams && this.runningParams == runningParams
    {
      this.userParams, this.runningParams := userParams, runningParams;
    }

    /** Replaces the stored object, so its annotation, the latest flush time, is gone too. */
    method SaveUserParams(initParams: map<string, string>, clock: string -> string, replies: SaveReplies)
      returns (ok: bool)
      modifies this`userParams
      ensures ok == ((old(userParams).None? || (replies.read && replies.deleted)) && replies.created)
      ensures ok ==>
        && userParams.Some? && userParams.value.latestFlushTime == "" && userParams.value.items.Keys == initParams.Keys
        && forall key :: key in initParams ==>
             userParams.value.items[key] == ParamItem(key, initParams[key], clock(key), "")
      ensures !ok ==> userParams == if replies.read && replies.deleted then None else old(userParams)
      ensures userParams == Replaced(old(userParams), UserObject(Converted(initParams, clock), ""), replies)
    {
      if userParams.Some? && replies.read {
        if !replies.deleted {
          return false;
        }
        userParams := None;
      }
      var entityMap := ConvertParams(initParams, clock);
      if userParams.Some? || !replies.created {
        return false;
      }
      userParams := Some(UserObject(entityMap, ""));
      return true;
    }

    method SaveRunningParams(initParams: map<string, string>, clock: string -> string, replies: SaveReplies)
      returns (ok: bool)
      modifies this`runningParams
      ensures ok == ((old(runningParams).None? || (replies.read && replies.deleted)) && replies.created)
      ensures ok ==>
        && runningParams.Some? && runningParams.value.Keys == initParams.Keys
        && forall key :: key in initParams ==>
             runningParams.value[key] == ParamItem(key, initParams[key], clock(key), "")
      ensures !ok ==> runningParams == if replies.read && replies.deleted then None else old(runningParams)
      ensures runningParams == Replaced(old(runningParams), Converted(initParams, clock), replies)
    {
      if runningParams.Some? && replies.read {
        if !replies.deleted {
          return false;
        }
        runningParams := None;
      }
      var entityMap := ConvertParams(initParams, clock);
      if runningParams.Some? || !replies.created {
        return false;
      }
      runningParams := Some(entityMap);
      return true;
    }

    method GetUserParams(readable: bool) returns (r: Option<UserObject>)
      ensures r == if readable then userParams else None
    {
      return if readable then userParams else None;
    }

    method GetRunningParams(readable: bool) returns (r: Option<Params>)
      ensures r == if readable then runningParams else None
    {
      return if readable then runningParams else None;
    }

    method SaveLatestFlushTime(now: string, readable: bool, accepted: bool) returns (ok: bool)
      modifies this`userParams
      ensures ok == (old(userParams).Some? && readable && accepted)
      ensures userParams == if ok then Some(old(userParams).value.(latestFlushTime := now)) else old(userParams)
    {
      var stored := GetUserParams(readable);
      if stored.None? || !accepted {
        return false;
      }
      userParams := Some(stored.value.(latestFlushTime := now));
      return true;
    }

    /** Rewrites values that differ and deletes keys without an effective value. Nothing is sent when
        nothing changed; `accepted` is the API server's answer when something is. */
    method UpdateUserParams(effective: map<string, EffectiveUserParamValue>, clock: string -> string,
                            readable: bool, accepted: bool)
      returns (ok: bool)
      modifies this`userParams
      ensures old(userParams).None? || !readable ==> !ok && userParams == old(userParams)
      ensures old(userParams).Some? && readable ==>
        var stored := old(userParams).value;
        var updated := UpdatedStore(stored.items, effective, clock);
        && ok == (accepted || updated == stored.items)
        && userParams == Some(if accepted then stored.(items := updated) else stored)
      // Key by key:
      ensures old(userParams).Some? && readable && accepted ==>
        var stored, updated := old(userParams).value.items, userParams.value.items;
        && updated.Keys == stored.Keys * effective.Keys
        && forall key :: key in updated ==>
             updated[key] ==
             if effective[key].value == stored[key].value then stored[key]
             else stored[key].(
               value := effective[key].value,
               updateTime := if effective[key].needFlush then clock(key) else effective[key].runningUpdateTime)
    {
      var found := GetUserParams(readable);
      if found.None? {
        return false;
      }
      var stored := found.value.items;
      var data := stored;
      var changed := false;
      var rest := stored.Keys;
      while rest != {}
        invariant userParams == found && rest <= stored.Keys
        invariant data == PartlyUpdated(stored, rest, effective, clock)
        invariant changed <==> data != stored
        decreases rest
      {
        var key :| key in rest;
        UpdateOneMore(stored, rest, key, effective, clock);
        rest := rest - {key};
        if key in effective {
          var entity := data[key];
          if effective[key].value != entity.value {
            var updateTime := if effective[key].needFlush then clock(key) else effective[key].runningUpdateTime;
            data := data[key := entity.(value := effective[key].value, updateTime := updateTime)];
            changed := true;
          }
        } else {
          data := data - {key};
          changed := true;
        }
      }
      assert data == UpdatedStore(stored, effective, clock);
      if changed {
        if !accepted {
          return false;
        }
        userParams := Some(found.value.(items := data));
      }
      return true;
    }
  }

  method ConvertParams(paramsMap: map<string, string>, clock: string -> string) returns (result: Params)
    ensures result == Converted(paramsMap, clock)
  {
    result := map[];
    var rest := paramsMap.Keys;
    while rest != {}
      invariant rest <= paramsMap.Keys
      invariant result == map key | key in paramsMap && key !in rest :: ParamItem(key, paramsMap[key], clock(key), "")
      decreases rest
    {
      var key :| key in rest;
      result := result[key := ParamItem(key, paramsMap[key], clock(key), "")];
      rest := rest - {key};
    }
  }

  /** The stored map when all keys but `rest` have been walked. */
  function PartlyUpdated(store: Params, rest: set<string>, effective: map<string, EffectiveUserParamValue>,
                         clock: string -> string): Params {
    map key | key in store && (key in rest || key in effective)
      :: if key in rest then store[key] else UpdatedItem(store[key], effective[key], clock(key))
  }

  lemma UpdateOneMore(store: Params, rest: set<string>, key: string,
                      effective: map<string, EffectiveUserParamValue>, clock: string -> string)
    requires key in rest && rest <= store.Keys
    ensures var before := PartlyUpdated(store, rest, effective, clock);
      && key in before && before[key] == store[key]
      && PartlyUpdated(store, rest - {key}, effective, clock) ==
         if key in effective then before[key := UpdatedItem(store[key], effective[key], clock(key))] else before - {key}
  {
  }

  class DbCluster {
    const repo: EngineParamsRepository
    const template: ParamsTemplate

    constructor (repo: EngineParamsRepository, template: ParamsTemplate)
      ensures this.repo == repo && this.template == template
    {
      this.repo, this.template := repo, template;
    }

    /** Both stores start from the class's initial parameters. The user's are written first, and when that
        fails the running ones are left alone. */
    method InitEngineParams(userClock: string -> string, runningClock: string -> string,
                            userReplies: SaveReplies, runningReplies: SaveReplies)
      returns (ok: bool)
      modifies repo
      ensures var initParams := Defaults(old(Views(template.templateParams))) + old(template.classParams);
        var userSaved :=
          (old(repo.userParams).None? || (userReplies.read && userReplies.deleted)) && userReplies.created;
        && repo.userParams ==
             Replaced(old(repo.userParams), UserObject(Converted(initParams, userClock), ""), userReplies)
        && repo.runningParams ==
             (if userSaved then Replaced(old(repo.runningParams), Converted(initParams, runningClock), runningReplies)
              else old(repo.runningParams))
        && ok == (userSaved && runningReplies.created &&
                  (old(repo.runningParams).None? || (runningReplies.read && runningReplies.deleted)))
      // When both saves succeed, key by key:
      ensures ok ==>
        var initParams := Defaults(old(Views(template.templateParams))) + old(template.classParams);
        && repo.userParams.Some? && repo.userParams.value.latestFlushTime == "" && repo.runningParams.Some?
        && repo.userParams.value.items.Keys == initParams.Keys == repo.runningParams.value.Keys
        && forall key :: key in initParams ==>
             && repo.userParams.value.items[key] == ParamItem(key, initParams[key], userClock(key), "")
             && repo.runningParams.value[key] == ParamItem(key, initParams[key], runningClock(key), "")
    {
      hide *;
      var initParams := template.GetClassInitParams();
      ok := repo.SaveUserParams(initParams, userClock, userReplies);
      if ok {
        ok := repo.SaveRunningParams(initParams, runningClock, runningReplies);
      }
    }

    /** None when a store is missing or cannot be read. */
    method GetEffectiveParams(inoperative: bool, canUpdate: bool, userReadable: bool, runningReadable: bool)
      returns (r: Option<Outcome>)
      ensures r.Some? <==> repo.userParams.Some? && userReadable && repo.runningParams.Some? && runningReadable
      ensures r.Some? ==>
        r.value == EffectiveOutcome(Inputs(repo.userParams.value.items, repo.runningParams.value,
                                           repo.userParams.value.latestFlushTime, Views(template.templateParams),
                                           template.classParams, inoperative, canUpdate))
    {
      hide *;
      var user := repo.GetUserParams(userReadable);
      if user.None? {
        return None;
      }
      var running := repo.GetRunningParams(runningReadable);
      if running.None? {
        return None;
      }
      var outcome := EffectiveParams.GetEffectiveParams(user.value.items, user.value.latestFlushTime, running.value,
                                                        template, inoperative, canUpdate);
      return Some(outcome);
    }

    /** False when a store is missing or cannot be read, the old class is unknown, or the update fails;
        then nothing is stored. */
    method ModifyClassParams(oldClassKey: string, newClassKey: string, oldClass: Option<map<string, string>>,
                             canUpdate: bool, clock: string -> string, replies: ModifyReplies)
      returns (ok: bool)
      modifies repo`userParams
      ensures old(repo.userParams).None? || !replies.userRead || repo.runningParams.None? || !replies.runningRead ==>
                !ok && repo.userParams == old(repo.userParams)
      ensures old(repo.userParams).Some? && replies.userRead && repo.runningParams.Some? && replies.runningRead ==>
        var stored := old(repo.userParams).value;
        var inp := ChangeInputs(stored.items, repo.runningParams.value, old(Views(template.templateParams)),
                                template.classParams, oldClassKey, newClassKey, oldClass, false, canUpdate);
        && ok == (!LookupFails(inp) &&
                  (!UserOutcomeOf(inp).changed ||
                   (replies.updateRead && (replies.accepted || ModifiedStore(inp, clock) == stored.items))))
        && repo.userParams == Some(if ok then stored.(items := ModifiedStore(inp, clock)) else stored)
    {
      hide Views, UserResolved, ConcernedKeys, ModifiedStore, UpdatedStore;
      var user := repo.GetUserParams(replies.userRead);
      var running := repo.GetRunningParams(replies.runningRead);
      if user.None? || running.None? {
        return false;
      }
      ghost var inp := ChangeInputs(user.value.items, running.value, Views(template.templateParams),
                                    template.classParams, oldClassKey, newClassKey, oldClass, false, canUpdate);
      var outcome := GetEffectiveUserParams(user.value.items, running.value, template, oldClassKey, newClassKey,
                                            oldClass, false, canUpdate);
      if outcome.OldClassMissing? {
        return false;
      }
      UpdateFromOutcome(inp, clock);
      if !outcome.changed {
        return true;
      }
      ok := repo.UpdateUserParams(outcome.params, clock, replies.updateRead, replies.accepted);
    }
  }

  /** How the API server answers while a class change is applied. */
  datatype ModifyReplies = ModifyReplies(userRead: bool, runningRead: bool, updateRead: bool, accepted: bool)
}
