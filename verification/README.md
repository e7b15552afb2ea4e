# PolarDB-Stack-Common: a verified model

PolarDB Stack keeps database clusters running on Kubernetes. This project models the parts of its
common library where a wrong answer is easy to miss, and proves what they guarantee on every input,
in every order of walking a Go map, and in every interleaving of concurrent callers.

* **Engine parameters** (`Templates`, `TemplateLists`, `EffectiveParams`, `ClassChange`,
  `ParamsRepository`, `ClassChangeLaws`, `FlushCycles`, `EffectiveLaws`, `Convergence`). Three stores decide the value of
  every parameter: the user's parameters, the running ones and a template merged with the instance
  class. The loops are methods over those maps. Each is proved equal to a specification that treats one
  key at a time and mentions no order. The laws are about that specification.
* **Ports and ids** (`GoSets`, `PortRanges`, `PortGenerator`, `CasProtocol`, `PortAllocators`,
  `IdAllocators`). Range texts are parsed and printed on wrapping 64-bit integers. The allocators are
  calls of one protocol: read an object, compute, write it back if its version is still current. Any
  number of calls interleave, other writers bump the version, writes are refused, and replies get lost.
* **Environments** (`ShellEnv`). Maps are printed as shell assignments. They are read back by a model of
  the shell's quoting rules (POSIX.1-2017, Shell Command Language, sections 2.2.1 to 2.2.3).
* **Waiting** (`Retry`, `Deadline`). A counted retry and a deadline that progress moves, over traces.
* **Timestamps and text** (`Timestamps`, `GoText`, `MapOrders`, `ConfigMaps`, `Wrappers`).

## Where the code differs from what one would expect

* A text range `0-9223372036854775807` gets the size -2^63 and contains no port. It is the only such
  range (`PortRanges.ParsedSizes`, `PortRanges.ContainsMeansBetween`).
* The comment in `port_generator.go:127` says that the scan starts over when ports run out. It does so
  only when the stored cursor has reached the end. With the cursor inside the range, free ports below it
  are never offered, and a failed scan does not move the cursor (`PortGenerator.FreePortIsNotEnough`,
  `PortGenerator.AllocatesIff`, `PortGenerator.ExhaustionPersists`).
* A port call commits exactly the port it returns if and only if no reply to an accepted write of its
  own is lost (`PortAllocators.CallCommitsWhatItReturns`). A lost reply leaks a port
  (`PortAllocators.LostReplyLeaksPort`).
* A negative batch size hands out ids twice (`IdAllocators.NegativeSizeRepeats`). The sizes that are safe
  to ask for are exactly those that are not negative (`IdAllocators.SafeSizeIff`).
* A user's value that holds a newline and gets quotes gets them again on every flush
  (`Convergence.NewlineNeverSettles`). `Convergence.SecondPassIsFixedIff` says exactly when values settle.
* Values can be settled while every later pass still reports a change
  (`Convergence.SettledYetReporting`, `Convergence.LaterPassesReportIff`).
* A user's change that is stored while a flush is under way can be taken for flushed and never be
  reported (`Convergence.ChangeIsMissed`). `Convergence.ChangeReportedIff` says exactly when it is.
* When a stored object is deleted and its successor cannot be created, the parameters are gone
  (`ParamsRepository.FailedSaveKeepsOrLoses`).
* With `inoperative` set, a running key with an inoperative value that is not a user's key makes the
  program dereference a nil pointer. `EffectiveOutcome` has a case `Crash` for exactly those inputs
  (`EffectiveParams.MergeRunning`); `EffectiveParams.MissingUserItemCrashes` shows one.
* Times are formatted from the local clock with a literal `Z`. The texts of any two readings compare as
  the instants do if and only if both were taken at one zone offset (`Timestamps.OneOffsetIff`). Across
  offsets, the later reading has the larger text if and only if more time has passed than the clock was
  set back (`Timestamps.TextOrderAcrossZones`).

## Model

| member | source | states |
|---|---|---|
| EffectiveParams.GetEffectiveParams | business/domain/db_cluster_base.go:327-458 | for every order in which running-params, user-params and class-params are walked, the result is one outcome defined key by key; it crashes exactly when the nil dereference happens; the template is left unchanged |
| EffectiveParams.MergeRunning | business/domain/db_cluster_base.go:346-408 | the first phase: the crash condition in both directions, and the verdict of every key that is running and the user's |
| EffectiveParams.MissingUserItemCrashes | business/domain/db_cluster_base.go:387-399 | a concrete running parameter without a user's item that makes the program crash |
| EffectiveParams.OverrideWithTemplate | business/domain/db_cluster_base.go:410-434 | the second phase: every key already in the result takes the last forced default of its name, and both flags follow, also when names repeat |
| EffectiveParams.AddMissingUserParams | business/domain/db_cluster_base.go:436-454 | the third phase: user keys missing from the result join with the user's value |
| EffectiveParams.QuoteAgain | business/domain/db_cluster_base.go:603-632 | quoting a second time changes nothing if and only if the first time changed nothing or the value holds no newline |
| EffectiveLaws.OneParameter | business/domain/db_cluster_base.go:346-458 | one parameter on its own: the whole outcome, with its value, quotes and both flags, in terms of the stored fields and the template's item |
| EffectiveLaws.ParametersAreIndependent | business/domain/db_cluster_base.go:346-458 | exactly when the program crashes; otherwise the keys are the user's but for the ignored one, each gets the value it would get alone, and each flag is set if and only if some parameter alone would set it |
| EffectiveLaws.RunningValueComesOut | business/domain/db_cluster_base.go:603-632 | a running, unchanged, unforced value comes out as it is, in quotes if and only if the user's value, the pattern, a comma or a colon asks for them and they are not there |
| EffectiveLaws.UserQuotesAreKept | business/domain/db_cluster_base.go:603-632 | quotes that the user wrote around the running value are kept |
| EffectiveLaws.ClassParamIsForced | business/domain/db_cluster_base.go:410-434 | a class parameter that the template lacks is forced on the user's value, without a restart |
| EffectiveLaws.WhiteListedIsNeverForced | business/adapter/engine_params_template_query.go:80-86 | a white-listed item of the base template is never forced |
| EffectiveLaws.NothingWaitsInFreshCluster | business/domain/db_cluster_base.go:387-407 | after InitEngineParams no value waits to become operative: the flag makes no difference |
| FlushCycles.ReportExactly | business/domain/db_cluster_base.go:346-454 | with distinct names: the key set, every value, and `changed` and `needRestart` each if and only if one of the four reasons holds for some key |
| FlushCycles.ResolvedExactly | business/domain/db_cluster_base.go:346-454 | one key: reported if and only if it is new, newer and not flushed, waiting to become operative, or forced to a default it does not hold |
| FlushCycles.FreshClusterIsFixedPoint | business/domain/db_cluster_base.go:187-205 | after InitEngineParams with a clock that does not go back: values are the initial ones up to quotes, and a change is reported if and only if a forced default gets quotes |
| Convergence.SecondPassIsFixedIff | business/domain/db_cluster_base.go:327-458 | over every run of at least two flushes: later passes give the values of the second pass if and only if no key is quoted around a newline again and again |
| Convergence.FirstPassUpToQuotes | business/domain/db_cluster_base.go:346-385 | for a key already running, the first pass agrees with the second up to surrounding quotes |
| Convergence.LaterPassesReportIff | business/domain/db_cluster_base.go:410-434 | from the third pass on, a change (or restart) is reported if and only if some forced default is never held |
| Convergence.KeyRun | business/domain/db_cluster_base.go:346-385 | what is running for a key after any number of flushes, in closed form |
| Convergence.NewlineNeverSettles | business/domain/db_cluster_base.go:627-628 | a concrete cluster whose values never settle |
| Convergence.SettledYetReporting | business/domain/db_cluster_base.go:410-434 | a concrete cluster whose values are settled while every pass reports a change |
| Convergence.NextPassReportsIff | business/domain/db_cluster_base.go:346-434 | a user's change stored while a flush is under way: for every key, exactly when the next pass reports it |
| Convergence.ChangeReportedIff | business/domain/db_cluster_base.go:354-362 | such a change of a running, unforced key is reported by the next pass or by none; by the next one if and only if it is later than the running value's time and not earlier than the recorded flush |
| Convergence.ChangeIsMissed | business/domain/db_cluster_base.go:354-362 | a concrete change whose new value is wanted but not running, and for which neither a change nor a restart is reported |
| ClassChange.GetEffectiveUserParams | business/domain/db_cluster_base.go:463-565 | for every map order, the result is one outcome defined key by key; the old class is needed only when the class changes and an item is reached |
| ClassChange.ApplyTemplate | business/domain/db_cluster_base.go:503-562 | the loop over the template with its three override rules, the flush flag and both result flags |
| ClassChange.UpdateFromOutcome | business/adapter/engine_params_repository.go:121-163 | an update made from that outcome deletes no stored key, and changes nothing when no change was reported |
| ClassChangeLaws.ModifyTwiceIsOnce | business/domain/db_cluster_base.go:212-225 | a second ModifyClassParams leaves the store as the first left it, update times included, whatever is running by then and whatever names the template repeats |
| ClassChangeLaws.UsersChoicesSurvive | business/domain/db_cluster_base.go:529-543 | a changeable value that is not the old class's default survives the class change, item and all |
| ClassChangeLaws.ModifiedExactly | business/domain/db_cluster_base.go:505-562 | with distinct names: exactly which stored values are replaced, and by what |
| ClassChangeLaws.ClassDefaultIsFollowed | business/domain/db_cluster_base.go:529-543 | a changeable parameter of both classes takes the new class's value if and only if the class changes and the stored value is the old class's; otherwise it stays |
| ClassChangeLaws.StoredItemExactly | business/domain/db_cluster_base.go:505-562 | the stored item after ModifyClassParams, value and update time, in terms of the stored fields, the classes and the template's item |
| ClassChangeLaws.OneStoredParameter | business/domain/db_cluster_base.go:503-562 | one key on its own: the whole outcome with its flush flag, running time, `changed` and `needRestart`, for all three rules, a requested reset included |
| ClassChangeLaws.KeysAreIndependent | business/domain/db_cluster_base.go:463-565 | exactly when the old class's lookup fails the call; otherwise every key gets what it would get alone, and each flag is set if and only if some key alone would set it |
| ClassChangeLaws.ClassChangeIsFlushedIffNeeded | business/domain/db_cluster_base.go:545-559 | a value replaced by a class change is taken for newer and flagged by the next reconciliation if and only if the running value differs from it |
| ParamsRepository.DbCluster.InitEngineParams | business/domain/db_cluster_base.go:187-205 | both stores hold the class's initial parameters, item by item, and no flush is recorded; the running ones are left alone when saving the user's fails, and a failed save of the running ones leaves the user's in place |
| ParamsRepository.DbCluster.ModifyClassParams | business/domain/db_cluster_base.go:212-225 | the stored parameters become the modified ones; they stay as they were when a store is missing or unreadable, the old class is unknown, or the update fails |
| ParamsRepository.DbCluster.GetEffectiveParams | business/domain/db_cluster_base.go:327-344 | the outcome for what the two stores and the template hold, or nothing exactly when a store is missing or unreadable |
| ParamsRepository.EngineParamsRepository.UpdateUserParams | business/adapter/engine_params_repository.go:121-163 | values that differ are rewritten with the right update time, keys without an effective value are deleted, and nothing is sent when nothing differs; nothing is stored when the object is missing, unreadable or the update refused |
| ParamsRepository.EngineParamsRepository.SaveUserParams | business/adapter/engine_params_repository.go:182-222 | the new object holds the converted parameters and no latest flush time; exactly when saving fails, and what is then stored |
| ParamsRepository.EngineParamsRepository.SaveRunningParams | business/adapter/engine_params_repository.go:182-222 | the same for the running parameters |
| ParamsRepository.FailedSaveKeepsOrLoses | business/adapter/engine_params_repository.go:182-222 | a failed save leaves the object as it was if it could not be deleted, and none if it could |
| ParamsRepository.EngineParamsRepository.SaveLatestFlushTime | business/adapter/engine_params_repository.go:98-109 | only the annotation changes; nothing does when the object is missing, unreadable or the update refused |
| ParamsRepository.ConvertParams | business/adapter/engine_params_repository.go:225-239 | every parameter as an item stamped with the time its key was converted |
| TemplateLists.ParamsTemplate.GetClassParamsTemplate | business/domain/engine_params_template.go:120-158 | the merged list on fresh items for some order of the class parameters; the base template is untouched |
| TemplateLists.ParamsTemplate.GetClassInitParams | business/domain/engine_params_template.go:96-103 | template defaults overridden by class parameters |
| TemplateLists.ParamsTemplate.GetParamsTemplateDefaultValues | business/domain/engine_params_template.go:160-166 | names to defaults, a later item winning |
| TemplateLists.ApplyClassParam | business/domain/engine_params_template.go:136-156 | the first item of the name is overwritten in place, or an unchangeable dynamic item is appended |
| TemplateLists.GetTemplateParams | business/adapter/engine_params_template_query.go:80-95 | white-listed base items become changeable in place; extension items join unless their name is taken |
| TemplateLists.FindTemplate | business/adapter/engine_params_template_query.go:97-104 | the first item of the name, or null exactly when there is none |
| Templates.NamedOfMerged | business/domain/engine_params_template.go:136-156 | for every order of the class parameters, the merged list holds the same items under every name |
| Templates.ItemOfKey | business/domain/engine_params_template.go:136-156 | with distinct names: the merged item of a key is the base item with the class's value, or a dynamic unchangeable one for a class parameter that the template lacks |
| Templates.WhitenedExactly | business/adapter/engine_params_template_query.go:80-86 | white-listed items become changeable and nothing else about any item changes |
| Templates.MergeKeepsNamesDistinct | business/domain/engine_params_template.go:120-158 | merging keeps names distinct, for every order |
| Templates.TemplateQueryKeepsNamesDistinct | business/adapter/engine_params_template_query.go:80-95 | the template query keeps names distinct, whatever the extension repeats |
| Templates.NamedOfExtended | business/adapter/engine_params_template_query.go:87-93 | base items take precedence over extension items, and the first extension item of a name over later ones |
| Templates.MergedReadsAsInitParams | business/domain/engine_params_template.go:96-158 | with distinct names, the merged list read as a map is the class's initial parameters, for every order |
| Templates.RepeatedNameBreaksInitParams | business/domain/engine_params_template.go:96-158 | with a repeated name, some class makes the two differ |
| Templates.DistinctIffNamed | business/domain/db_cluster_base.go:594-601 | names are distinct if and only if no name has two items |
| Timestamps.TextOrderIsChronological | define/constant.go:26 | comparing two recorded times as strings compares the instants, for every reading with a four-digit year |
| Timestamps.LayoutOfText | define/constant.go:26 | the twenty characters of a recorded time: its separators, and the number that each field reads as |
| Timestamps.TextOrderAcrossZones | define/constant.go:26 | for readings at any two zone offsets, the second text is the larger if and only if more time passed than the clock was set back |
| Timestamps.OneOffsetIff | define/constant.go:26 | the text order is the order of time for all readings if and only if the two offsets are equal |
| PortRanges.PortRange.Set | business/adapter/port_range.go:40-115 | the receiver holds the parsed interval, or is unchanged when the text is none |
| PortRanges.ParsedSizes | business/adapter/port_range.go:102-114 | bases are never negative, and a size is negative if and only if the text denotes 0 to the largest integer |
| PortRanges.CanonicalIffParsed | business/adapter/port_range.go:40-115 | which intervals parsing can produce, in both directions |
| PortRanges.SetOfStringRestores | business/adapter/port_range.go:33-115 | parsing what was printed restores the interval, whatever text it came from |
| PortRanges.ParseOfText | business/adapter/port_range.go:33-115 | the same for every interval parsing can produce |
| PortRanges.ParseHyphen | business/adapter/port_range.go:80-88 | the interval of two printed ends, and the error when they are out of order |
| PortRanges.PlusIsHyphen | business/adapter/port_range.go:89-99 | base plus offset denotes the same as the two ends, and is an error when the sum overflows |
| PortRanges.SingleIsHyphen | business/adapter/port_range.go:72-79 | one port denotes the range from itself to itself |
| PortRanges.ContainsMeansBetween | business/adapter/port_range.go:29-31 | a range contains exactly the ports between its ends, except the overflowing one, which contains none |
| PortRanges.ReservedRoundTrip | business/adapter/port_range.go:144-154 | a printed list, with blanks around any piece, is parsed back in order |
| PortRanges.BlanksAroundRange | business/adapter/port_range.go:47 | blanks around a range make no difference |
| PortRanges.PortRanges.SetReservedPortRanges | business/adapter/port_range.go:144-154 | one range per piece is appended, or some piece is none; earlier ranges stay |
| PortRanges.PortRanges.Contains | business/adapter/port_range.go:156-163 | in the range and in no reserved range |
| PortRanges.ParsePortRanges | business/adapter/port_range.go:169-183 | the range with its reserved ranges, or null exactly when a text is none |
| GoText.AtoiOfItoa | business/adapter/port_generator.go:109-117 | a printed 64-bit integer is read back |
| GoText.AtoiIff | business/adapter/port_generator.go:109-117 | exactly which texts are numbers: an optional sign and digits whose value fits 64 bits |
| GoText.TrimAround | business/adapter/port_range.go:47 | trimming removes the blanks around a text and nothing else |
| GoText.LessIff | business/domain/db_cluster_base.go:355-357 | the order on strings: after a common prefix, one ends or has the smaller character |
| GoSets.GoSet.Add | business/adapter/go_set.go:33-46 | union with the values |
| GoSets.GoSet.Contains | business/adapter/go_set.go:48-59 | true if and only if all values are elements |
| GoSets.GoSet.GetAll | business/adapter/go_set.go:61-72 | every element once, in some order |
| GoSets.GoSet.ClearAll | business/adapter/go_set.go:74-84 | empties the set and lists what it held, each once |
| GoSets.GoSet.Remove | business/adapter/go_set.go:86-100 | removes the values and lists those that were there, each once |
| PortGenerator.GetUsedTcpPortByConfigmap | business/adapter/port_generator.go:228-249 | exactly the ports between 1 and 65535 that some key names |
| PortGenerator.GetAllUsedPort | business/adapter/port_generator.go:196-226 | the union over the nodes that could be read, and null exactly without a node list |
| PortGenerator.PortIsUsedIff | business/adapter/port_generator.go:196-249 | a port counts as used if and only if a node that could be read names it, by a usage key from 1 to 65535 or in the shell's answer |
| PortGenerator.BlanksAroundKey | business/adapter/port_generator.go:237 | blanks around a usage key make no difference |
| PortGenerator.LeastFree | business/adapter/port_generator.go:131-148 | the least port after the start that is in range, not reserved and unused, or none exactly when there is none |
| PortGenerator.SelectPort | business/adapter/port_generator.go:131-148 | the scan loop finds that port, and selects nothing without a used set |
| PortGenerator.GetNextScopePort | business/adapter/port_generator.go:91-165 | one attempt: its result, and that the cursor is rewritten exactly when a port was chosen |
| PortGenerator.RangesPlainly | business/adapter/port_generator.go:95-106 | which annotation is the range and which the reserved list: what is parsed, and the ports that result |
| PortGenerator.ChoicePlainly | business/adapter/port_generator.go:95-106 | BadRanges if and only if one of the two texts does not parse; a chosen port lies in the one and in no piece of the other |
| PortGenerator.ChosenPortExactly | business/adapter/port_generator.go:109-148 | from the stored text: the port is the least free one beyond the cursor, or beyond the first port once the cursor has reached the last, and there is none if and only if none is free there |
| PortGenerator.GetNextClusterExternalPort | business/adapter/port_generator.go:50-60 | the first attempt that is not a refused update decides, and three refusals are an error; a returned port lies in the range that was read and in no reserved one |
| PortGenerator.CheckPortUsed | business/adapter/port_generator.go:62-89 | every rejection in its order, from the ConfigMap that cannot be read to the port in use; BadRanges and OutOfRange in terms of the two annotations |
| PortGenerator.CheckPlainly | business/adapter/port_generator.go:62-79 | a port is out of range if and only if the one text does not contain it or a piece of the other does |
| PortGenerator.ChosenPortPassesCheck | business/adapter/port_generator.go:62-165 | a chosen port passes the check on the same ranges and used set |
| PortGenerator.AllocatesIff | business/adapter/port_generator.go:126-148 | a port is chosen if and only if a free one lies beyond the cursor (or, past the end, beyond the first port); it is the least such |
| PortGenerator.FirstPortNeedsLowCursor | business/adapter/port_generator.go:126-148 | the first port is offered only to a cursor below it, which decides when a one-port range allocates |
| PortGenerator.ExhaustionPersists | business/adapter/port_generator.go:150-158 | after a failed scan, freeing ports at or below the cursor does not help |
| PortGenerator.FreePortIsNotEnough | business/adapter/port_generator.go:126-148 | a concrete range with a free port and no allocation |
| CasProtocol.RunKeepsInvariant | business/adapter/port_generator.go:95-164 | in every reachable state: writes form a chain, a holder of the current version has seen the current value, and each call's own writes match its stage |
| CasProtocol.StepKeepsInvariant | business/adapter/port_generator.go:95-164 | every step of the protocol keeps the invariant |
| CasProtocol.CallWritesWhatItReturns | business/adapter/port_generator.go:50-60 | a call writes at most its budget; what it returns is its last write; it writes exactly what it returns if and only if no reply to an accepted write of its own is lost |
| CasProtocol.LostReplyLeaks | business/adapter/port_generator.go:160-163 | for every rule that allows two steps in a row, a run in which one call commits two values and returns one |
| PortAllocators.EachPortFollowsThePreviousCursor | business/adapter/port_generator.go:109-164 | in every interleaving, each committed port is in range, not reserved, and selected after the cursor committed just before it |
| PortAllocators.RepeatedPortMeansWrapAround | business/adapter/port_generator.go:126-164 | in every interleaving, a port is committed twice only if the end of the range was committed in between |
| PortAllocators.CallCommitsWhatItReturns | business/adapter/port_generator.go:50-60 | at most three commits a call; exactly the returned port (none when none is returned) if and only if no reply to an accepted write of the call is lost |
| PortAllocators.LostReplyLeaksPort | business/adapter/port_generator.go:50-60 | a concrete range and run in which one call commits 30001 and 30002 and returns only 30002 |
| PortAllocators.AttemptIsPortStep | business/adapter/port_generator.go:91-165 | whatever the annotations hold, what an attempt writes is a step of the protocol over ranges as its theorems ask for |
| IdAllocators.GetNextClusterScopeHostInsIds | business/adapter/id_generator.go:47-80 | the batch as long as asked for, counting up from the stored counter or from 1000, the counter moved past it, and the three errors |
| IdAllocators.AttemptIsIdStep | business/adapter/id_generator.go:57-72 | what a call writes is a step of the protocol, and the ids that it returns are the batch of its commit |
| IdAllocators.CounterCountsEveryBatch | business/adapter/id_generator.go:54-76 | in every interleaving, batches are contiguous and the counter has moved by the sum of all committed sizes |
| IdAllocators.IdsAreDistinct | business/adapter/id_generator.go:54-76 | in every interleaving with sizes that are not negative, lost replies included: the committed batches together hold no id twice if and only if they hold at most 2^64 ids |
| IdAllocators.IdsCountUp | business/adapter/id_generator.go:66-72 | the ids of all committed batches, one after the other, count up from the first counter, modulo 2^64 |
| IdAllocators.CallCommitsOneBatch | business/adapter/id_generator.go:69-80 | a call commits at most one batch, and a returned batch is the one committed |
| IdAllocators.NegativeSizeRepeats | business/adapter/id_generator.go:66-70 | for every negative size and every counter, a run of three calls that hands out an id twice |
| IdAllocators.SafeSizeIff | business/adapter/id_generator.go:66-70 | asking for a size never leads to a repeated id among the first 2^64 if and only if it is not negative |
| ShellEnv.TranslateEnvMap2StringWithBase | business/adapter/manager_env_get_strategy_base.go:284-296 | for every map order, the printed assignments follow the base, and reading all of it gives the base's environment overridden by the map |
| ShellEnv.EnvRoundTrip | business/adapter/manager_env_get_strategy_base.go:284-296 | the same as a law about any given order |
| ShellEnv.PrintableIff | business/adapter/manager_env_get_strategy_base.go:284-296 | with names for keys, a map meets the condition of the round trip if and only if each assignment is read back on its own |
| ShellEnv.SingleQuotedRoundTripIff | business/adapter/manager_env_get_strategy_base.go:291 | a single-quoted assignment sets its name to the value if and only if the value holds no single quote |
| ShellEnv.DoubleQuotedRoundTripIff | business/adapter/manager_env_get_strategy_base.go:286-289 | the assignment printed for mycnf_dict sets it to its value if and only if the value holds no dollar sign, no backtick and no backslash that escapes, also when an early closing quote makes the shell read on |
| ShellEnv.GetUpdateEngineParamsEnvirons | business/adapter/manager_env_get_strategy_base.go:195-210 | appended to any printed environment, the parameters are read back if and only if their JSON holds no dollar sign and no backtick |
| ShellEnv.ReadParams | business/adapter/manager_env_get_strategy_base.go:204-207 | the two replacements never end the quoted word early: the whole text is read back, or an expansion is met |
| ShellEnv.CommandRunsWithEnv | business/adapter/manager_client.go:429 | the command line runs the entry point with exactly the printed environment |
| Retry.RetryFunc | utils/retryutil/retry_util.go:50-77 | at most maxRetries+1 calls; success if and only if the first decisive call has no error; its error otherwise; the last error after exactly maxRetries+1 indecisive calls |
| Retry.LastErrIff | utils/retryutil/retry_util.go:58-76 | the last error is that of the latest call that had one |
| Deadline.WaitWithDeadline | business/domain/db_ins.go:345-413 | success at the first ready poll in time, timeout at the first poll later than the timeout after the latest reset, with the latest error |
| Deadline.CheckHealthWithTimeout | business/domain/db_ins.go:345-379 | the same for the answers of the health check |
| Deadline.CheckInstallProgressWithTimeout | business/domain/db_ins.go:381-413 | the same for the answers of the installation check |
| Deadline.HealthTimesOutIff | business/domain/db_ins.go:352-369 | the health check times out at a turn if and only if it is the first to begin more than the timeout after the latest answer that the engine is starting up; its error is that of the turn before |
| Deadline.InstallTimesOutIff | business/domain/db_ins.go:388-403 | the same for the latest answer that is not ready and has no error; the error reported is that of the turn before, if it had one |
| Deadline.StartingUpNeverTimesOut | business/domain/db_ins.go:362-365 | an engine that keeps starting up, asked within the timeout each time, is waited for without end |
| Deadline.EndingIsUnique | business/domain/db_ins.go:345-413 | every trace ends in one way only |
| Deadline.WaitEnds | business/domain/db_ins.go:345-413 | once resets stop, the wait is over within timeout/interval + 1 further polls |

## Left out

- Shell expansions: a dollar sign or backtick outside single quotes, and unquoted operators, end the reader in `Unsupported`; what the shell would expand them to is not modelled.
- The cluster manager, which writes the running parameters, is not part of the source; `Convergence.Flush` states the behaviour assumed of it.
- JSON and YAML encodings: items are records and JSON text is an opaque string; decoding errors are not modelled.
- Errors of reading the template, its white list and extension and the new class, before any work is done.
- A ConfigMap without any data, whose nil map cannot be written, in the two allocators.
- The ports of a node read over a shell connection are given; parsing the command's output is not modelled.
- The in-process mutexes: the protocol allows every interleaving, so it needs none.
- Tickers, goroutines and channels of the polling loops: a trace says what each poll meets.
- `changedParams` and all logging: they do not affect any result.
- GetCommonEnv's selection of fields, the account, log agent and replication environments: straight lookups before the modelled printing.
- Pods, volumes, cluster manager and storage clients, accounts, passwords, versions and engine classes: thin wrappers or large literals.
- Invalid UTF-8 in strings.
