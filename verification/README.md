# Pugback callback registry, modelled in Dafny

Pugback is a header-only C++ publish/notify registry. Callers register
named callbacks under named groups. Other code then triggers every
callback of a group by name and passes an opaque payload. This project
models the registry engine of `Pugback.h`:

- the callback record `PUG_CallBack`, with its status mapping `DoCallback`
  and its `Enable`/`Disable`/`IsEnabled` flag;
- the group record `PUG_CallBack_Group`;
- the engine `PUG_CallBack_Engine`:
  - the group lookup `GetGroupIndex`, which returns -1 when the name is absent;
  - `CreateNewGroup` and `AddCallBack`;
  - `DeleteGroup`;
  - the dispatch `DoCallBack`;
  - the two listings `Info_GetGroupList` and `Info_GetCallbackFromGroup`;
  - the constructor, which sets the group-ID counter to 0.

Files:

- `optional.dfy` (module `Optional`): the `Option` datatype.
- `results.dfy` (module `Results`): the `PUG_RESULTS_*` status codes.
- `callback.dfy` (module `CallBack`): the callback record and its operations.
- `engine.dfy` (module `CallBackEngine`): the engine state, the engine invariant `Valid` and every engine method.
- `properties.dfy` (module `EngineProperties`): lemmas that relate the operations to one another.

Modelling choices:

- The engine is the immutable value `Engine(groups, counter)`.
- A mutating method is a function from an engine to a `Reply`, which holds the new engine and the status code.
- A read-only method (the listings and the dispatch) returns its result and no new engine. In the model, therefore, it cannot change the registry. This rests on callables being pure (see "## Left out").
- The payload is a type parameter `P`.
- The C++ function pointer, together with what it does when called, is the field `f: P -> Outcome`, where `Outcome = Returns(int) | Throws`.
- The dispatch returns the per-callback statuses it computes as well as its own status. The C++ loop computes the same statuses and discards them.
- The field accessors `SetID`/`GetID`, `SetGroupID`/`GetGroupID`, `SetName`/`GetName` and `SetCallback` are plain field reads and record updates of the `Callback` datatype.
- `Valid` is the engine invariant:
  - group names are pairwise distinct;
  - group IDs strictly increase along the sequence;
  - every group ID lies in `1..counter`;
  - every stored callback has `id` and `groupId` equal to 0, because `AddCallBack` sets both to 0 at Pugback.h:290 and Pugback.h:293 and nothing changes them later.

Two consequences of the source that shape the model:

- The `PUG_CallBack` constructor (Pugback.h:118-120) leaves `Disabled` uninitialised, and `AddCallBack` never calls `Enable`. So the initial flag is the `disabled` parameter of `AddCallBack` and `NewCallback`.
- The engine keeps copies of callbacks (Pugback.h:305, Pugback.h:328), and `Info_GetCallbackFromGroup` returns copies (Pugback.h:238, Pugback.h:244). So the flag of a callback the engine holds cannot be toggled. `CallBack.DisableThenEnable` states disable/re-enable for one callback.

## Model

| member | source | states |
|---|---|---|
| Results.Code | Pugback.h:9-13 | every status has a code in 1..5, and decoding that code gives back the same status, so the five constants are pairwise distinct |
| Results.FromCode | Pugback.h:9-13 | exactly the integers 1..5 decode to a status; with Code's contract, each decodes to the status whose constant it is |
| CallBack.DoCallback | Pugback.h:79-103 | returns Disabled exactly when the callback is disabled, so `f` is not consulted then. Otherwise: Success exactly when `f` returns 0, Failure exactly when it returns non-zero, Invalid exactly when it throws. Never CreatedNew |
| CallBack.NewCallback | Pugback.h:287-293 | a fresh callback has the placeholder `id` and `groupId` 0, the given name and callable, and is enabled exactly when `disabled` is false |
| CallBack.IsEnabled | Pugback.h:112-114 | a callback is enabled exactly when enabling it would change nothing |
| CallBack.Enable | Pugback.h:109-111 | afterwards `IsEnabled` holds and every other field is unchanged |
| CallBack.Disable | Pugback.h:106-108 | afterwards `IsEnabled` is false and every other field is unchanged |
| CallBack.DisableThenEnable | Pugback.h:106-114 | a disabled callback reports Disabled; re-enabling restores the original record and the status it had before |
| CallBackEngine.Init | Pugback.h:410-412 | the constructed engine has counter 0, lists no group and satisfies the invariant |
| CallBackEngine.FindFrom | Pugback.h:275-281 | the scan from `start` returns the first position at or after `start` whose name matches, or -1 exactly when there is none |
| CallBackEngine.GetGroupIndex | Pugback.h:274-282 | the result lies in [-1, number of groups). It is -1 exactly when no group has the name; otherwise it is the smallest index whose group has the name |
| CallBackEngine.EraseAt | Pugback.h:265 | the erase is defined exactly for an index inside the bounds, and then removes that one element and keeps the others in order |
| CallBackEngine.AppendAt | Pugback.h:305 | the callback is appended to the group at the index. That group's id and name, the counter, the number of groups and every other group are unchanged |
| CallBackEngine.CreateNewGroup | Pugback.h:177-198 | for an existing name: Failure, engine unchanged. Otherwise: Success, the counter goes up by one, and one empty group with that name and the new counter as ID is appended. The invariant is preserved |
| CallBackEngine.AddCallBack | Pugback.h:285-342 | never Failure. Success exactly when the group exists: the callback is appended to that group, and the other groups and the counter are unchanged. Otherwise CreatedNew: the counter goes up by one and a single group holding just the new callback is appended. The invariant is preserved |
| CallBackEngine.DeleteGroup | Pugback.h:248-271 | the behaviour the comments at lines 255 and 264 describe: an absent name gives Failure and no change; a present name is removed, the other groups keep their order, the counter is kept and the result is Success. The invariant is preserved |
| CallBackEngine.DeleteGroupAsWritten | Pugback.h:248-271 | the code as written: a present name gives Failure and no change; an absent name reaches the erase at -1, which has no defined result |
| CallBackEngine.Info_GetGroupList | Pugback.h:201-217 | one name per group, and the name at position i is that of the i-th group, in group order |
| CallBackEngine.Info_GetCallbackFromGroup | Pugback.h:220-245 | the listed callbacks are those of the group the lookup finds, or empty when the name is absent |
| CallBackEngine.FanOut | Pugback.h:369-372 | one status per callback, in list order, each the callback's own status on the same payload; no status stops the loop |
| CallBackEngine.DoCallBack | Pugback.h:345-375 | Failure with nothing invoked exactly when the group is absent. Otherwise Success whatever the callbacks return, after every callback of the group's snapshot is invoked in order on the payload |
| EngineProperties.ListedIffFound | Pugback.h:201-217 | a name appears in the group listing exactly when the lookup finds it |
| EngineProperties.ListingIsDistinct | Pugback.h:180-182 | in a valid engine each name is listed at most once, and the lookup returns its one position |
| EngineProperties.LookupByNamesOnly | Pugback.h:274-282 | two engines whose group listings are equal give the same lookup result for every name |
| EngineProperties.AddCallBackAppends | Pugback.h:299-334 | after a registration, the target group lists its previous callbacks followed by the new one, whether or not the group existed before |
| EngineProperties.AddCallBackLeavesOthers | Pugback.h:299-334 | a registration leaves every other group's callback list unchanged |
| EngineProperties.AddCallBackGroupList | Pugback.h:315-334 | a registration appends the group name to the listing when it was absent, and otherwise leaves the listing unchanged |
| EngineProperties.AddCallBackCountsOne | Pugback.h:285-342 | each registration adds exactly one callback to the registry |
| EngineProperties.RegisterAllKeepsEverything | Pugback.h:285-342 | after any run of registrations, every group lists its old callbacks followed by exactly those registered to it, in order. The total grows by the number of registrations, and the invariant holds |
| EngineProperties.DeleteGroupRemoves | Pugback.h:248-271 | after deleting a present group, its name is not listed, it has no callbacks, and dispatching to it fails |
| EngineProperties.DeleteGroupShifts | Pugback.h:265 | after a deletion, the groups before the deleted position keep their positions and the ones after it move down by one |
| EngineProperties.DeleteGroupKeepsPresent | Pugback.h:248-271 | every other group that was present is still found after a deletion, at its shifted position |
| EngineProperties.DeleteGroupKeepsAbsent | Pugback.h:248-271 | a name that was absent is still absent after a deletion |
| EngineProperties.DeleteGroupLeavesOthers | Pugback.h:248-271 | for every engine, valid or not, deleting a group leaves every other group's callback list unchanged |
| EngineProperties.DeleteGroupList | Pugback.h:248-271 | after a deletion, the group listing is the old listing with the name taken out and the rest in order |
| EngineProperties.DeleteGroupAsWrittenDiffers | Pugback.h:256-265 | for every engine and name, the code as written disagrees with the intended deletion, and it never removes a present group |
| EngineProperties.DeleteGroupAsWrittenCounterexample | Pugback.h:256-265 | deleting from a fresh engine reaches the out-of-bounds erase; deleting an existing group keeps it, where the intended version removes it |
| EngineProperties.OnStartScenario | Pugback.h:285-375 | two registrations under "onStart" return CreatedNew then Success. The dispatch returns Success with statuses [Success, Failure], and "onStart" is the only group listed |

## Findings

| source | as written | input that shows it | evidently intended | confidence | as-written member | corrected member |
|---|---|---|---|---|---|---|
| Pugback.h:256-265 | `if (IndexOfGroup != -1)` returns Failure, and the erase runs only when the group is absent, at index -1 | any present group name (reported as Failure and kept); any absent name, e.g. on a fresh engine (erase at `begin() - 1`) | absent gives Failure with no change; present is erased and gives Success (comments at lines 255 and 264) | high, not executed | CallBackEngine.DeleteGroupAsWritten (with EngineProperties.DeleteGroupAsWrittenDiffers and EngineProperties.DeleteGroupAsWrittenCounterexample) | CallBackEngine.DeleteGroup (with EngineProperties.DeleteGroupRemoves, EngineProperties.DeleteGroupLeavesOthers and EngineProperties.DeleteGroupList) |

## Left out

- The mutex and its spin-lock (`DoMutexLock`/`DoMutexUnlock`, Pugback.h:156-174), and every interleaving of concurrent callers. Each public method is one atomic step. Lost or duplicated registrations are ruled out only for sequential runs (`RegisterAllKeepsEverything`).
- `PUG_PS` (Pugback.h:378-406): it only writes text to standard output.
- `PugGetValue` (Pugback.h:26-29): an unchecked cast of the payload pointer. The payload is opaque here.
- The `extern` global engine `PUG` (Pugback.h:416). Engines are explicit values here.
- C++ exception machinery and real function pointers. The callable is the abstract `f: P -> Outcome`, and a throw is the value `Throws`.
- Callback side effects: `f` is a pure function of the payload. `DoCallBack` releases the lock (Pugback.h:366) before its loop (Pugback.h:370-372). A callable can therefore change `*Value` so that later callbacks see it, or call back into the engine (`AddCallBack`, `DeleteGroup`) in the middle of the fan-out. Neither is represented. As a result, the snapshot taken at Pugback.h:363 has no observable role in the model.
- CallBackEngine.CreateNewGroup: it does not model the 32-bit `int` group-ID counter incremented at Pugback.h:190. The counter is unbounded, so the signed overflow after 2^31 - 1 group creations is not represented.
- CallBackEngine.AddCallBack: it does not model the 32-bit `int` group-ID counter, through the group it may create. The counter is unbounded, so the signed overflow after 2^31 - 1 group creations is not represented.
- CallBackEngine.GetGroupIndex: it does not model the conversion of the `unsigned int` loop index to the `int` result. The index is unbounded, so registries with more than 2^31 - 1 groups are not represented.
