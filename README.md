# Object pool of the Flight-Controller project

The Unity project keeps bullets and other frequently spawned objects in pools. `PooledObjectManager`
is configured with a list of `PoolStruct` entries. Each entry names a prefab, a batch size
`m_Size` and an overflow rule `m_LimitReachUseActiveObject`.

For every entry with a non-null prefab, the manager keeps two lists:
- every copy it instantiated (`m_PoolsObjects`);
- the copies it handed out, oldest first (`m_PoolsActiveObjects`).

It works as follows:
- **Initialisation.** The manager pre-creates one batch of `m_Size` inactive copies per entry.
- **Handing out.** It hands out the first inactive copy in creation order. When every copy is in use, the overflow rule decides:
  - re-use: the oldest copy handed out is handed out again;
  - growth: another batch of `m_Size` copies is created, and the first of them is handed out.
- **Return.** Every copy derives from `PooledObject`, which records its owner prefab. When the copy is switched off, its `OnDisable` hook returns it to the manager, which takes it off the owner's active list.

The model has the following parts:

- `pool_types.dfy` (module `PoolTypes`):
  - A prefab is a key plus a flag telling whether it carries a `PooledObject` component.
  - Copies are identified by natural-number ids.
  - A configuration entry is `PoolStruct`.
- `lists.dfy` (module `Lists`): the sequence and map vocabulary.
  - `RemoveFirst` is `List.Remove`.
  - `Range`/`Fill` describe a batch of consecutive ids.
- `pool_spec.dfy` (module `PoolSpec`):
  - the lookup of an entry, both corrected and as written;
  - the scan for an inactive copy;
  - the per-pool invariant `PoolConsistent`;
  - what each kind of step does to one pool.
- `manager_spec.dfy` (module `ManagerSpec`): the whole manager as a value `PoolState`, and the operations as functions on it:
  - `Build` for `CreatePools`, `Grow` for `GrowPool`, `Take` for `GetObjectFromPool`, `Use` for `UseObjectFromPool`, `Disable` for a copy being switched off, `Cleared` for `ClearOlderPools`;
  - the invariant `ManagerConsistent`;
  - the lemmas that relate them.
- `pooled_object_manager.dfy` (module `PoolManager`): the class `PooledObjectManager`.
  - Its fields are the two dictionaries, the configuration and, keyed by copy id, the state the engine and each copy's `PooledObject` component keep: `activeInHierarchy` and `m_PoolOwner`.
  - Every method of the pool core in `PooledObjectManager.cs` and `PooledObject.cs`, except those listed under "## Left out", is a method here; `IsValidPoolStruct`, which reads no state, is a predicate in `PoolTypes`. The methods keep the code's `for` loops, the recursion between `GetObjectFromPool`, `NotEnoughPooledObject` and `DynamicGrowPool`, and the double deactivation in `CreatePooledObject`.
  - The control flow differs in two places:
    - `GetPoolStruct` passes over entries with a null prefab, where the code throws (see Findings);
    - `ReturnPooledObject` leaves out the unused lookup on its first line (see Findings).
  - Each method's postcondition equates the new state with the specification function applied to the old state.
  - `UseObjectFromPool` and `InitalizePools` also keep `Valid()`, the invariant, and so does `SetActive` when it switches a copy off.

The code behaves as follows in these places, and the model does the same:
- **Growth adds a whole batch.** On exhaustion the pool grows by `m_Size` copies (`GrowPool` is called with the entry), not by one copy.
- **Re-use rotates the active list.** It takes the head of the active list and appends it again at the tail. The copy is never switched off, so no return hook runs.
- **Re-initialising only forgets.** It empties both dictionaries, and the copies made before keep their ids, flags and owners.
- **Crash paths are preconditions.**
  - Handing out a copy of an unregistered prefab reads a null list.
  - Two entries with the same prefab make `Dictionary.Add` throw.
  - Growing with `m_Size <= 0`, or for a prefab without the component, makes the grow-and-retry recursion never end.

## Model

| member | source | states |
|---|---|---|
| PoolSpec.PoolStructOf | Assets/Scripts/PooledObjects/PooledObjectManager.cs:151-162 | the entry found names the requested prefab and is one of the configured entries; otherwise the result is the entry with a null prefab |
| PoolSpec.PoolStructOfIsFirstMatch | Assets/Scripts/PooledObjects/PooledObjectManager.cs:151-162 | the lookup gives a null prefab exactly when no entry names the prefab, and otherwise gives the first entry in list order that does |
| PoolSpec.AsWrittenThrowsOnNullBeforeMatch | Assets/Scripts/PooledObjects/PooledObjectManager.cs:151-162 | the lookup as written fails exactly when an entry with a null prefab comes before the first match; when it succeeds it agrees with the corrected lookup |
| PoolSpec.NullEntryBeforeMatchThrows | Assets/Scripts/PooledObjects/PooledObjectManager.cs:155-157 | for a configuration whose first entry has a null prefab, the lookup as written fails, while the second entry names the prefab |
| PoolTypes.IsValidPoolStruct | Assets/Scripts/PooledObjects/PooledObjectManager.cs:65-68 | an entry is valid when it names a prefab; the entry a failed lookup returns is never valid |
| PoolTypes.Capacity | Assets/Scripts/PooledObjects/PooledObjectManager.cs:72 | the number of copies a batch creates: `m_Size` when positive, otherwise none, so never below `m_Size` |
| PoolSpec.GetPoolStructAsWritten | Assets/Scripts/PooledObjects/PooledObjectManager.cs:151-162 | the lookup as written: when it returns, the entry names the requested prefab and is configured, or is the entry with a null prefab; it fails (no result) on a null entry |
| PoolSpec.LookupOfUnnamedKeyThrowsOnAnyNull | Assets/Scripts/PooledObjects/PooledObjectManager.cs:188-190 | a lookup for an object no entry names, such as a copy's own game object, fails exactly when some entry has a null prefab |
| PoolSpec.Returned | Assets/Scripts/PooledObjects/PooledObjectManager.cs:188-201 | returning a copy keeps the dictionary's keys and every other owner's list, and removes one occurrence of the copy from the owner's list |
| PoolSpec.FirstInactive | Assets/Scripts/PooledObjects/PooledObjectManager.cs:117-128 | the scan finds an inactive copy whose predecessors are all active; it finds none exactly when every copy is active |
| PoolSpec.ReturnedAt | Assets/Scripts/PooledObjects/PooledObjectManager.cs:188-201 | returning a copy keeps the dictionary's keys, removes the copy from the owner's list only, and leaves every other list unchanged |
| PoolSpec.AcquireKeepsConsistent | Assets/Scripts/PooledObjects/PooledObjectManager.cs:106-112 | switching on an inactive copy and appending it to the active list keeps the pool consistent |
| PoolSpec.ReuseKeepsConsistent | Assets/Scripts/PooledObjects/PooledObjectManager.cs:164-177 | moving the head of the active list to its tail keeps the pool consistent and the list's contents as a multiset |
| PoolSpec.DeactivateKeepsConsistent | Assets/Scripts/PooledObjects/PooledObject.cs:45-51 | clearing a copy's flag and removing it from its owner's list keeps every pool consistent |
| PoolSpec.ExhaustedActiveListCoversPool | Assets/Scripts/PooledObjects/PooledObjectManager.cs:169-176 | when every copy of a pool is active, its active list holds exactly those copies; an empty active list then means an empty pool |
| PoolSpec.FirstInactiveAfterGrowth | Assets/Scripts/PooledObjects/PooledObjectManager.cs:179-186 | after a batch is appended to an exhausted pool, the retried scan finds the first copy of the batch |
| PoolSpec.AcquireThenReturn | Assets/Scripts/PooledObjects/PooledObject.cs:45-51 | handing out an inactive copy and then switching it off restores the active list and the flags |
| PoolSpec.ReturnIdempotent | Assets/Scripts/PooledObjects/PooledObjectManager.cs:188-201 | returning a copy twice has the same effect as returning it once |
| PoolSpec.ReturnAbsentIsNoOp | Assets/Scripts/PooledObjects/PooledObjectManager.cs:188-201 | returning a copy that is on no active list changes nothing |
| PoolSpec.PoolGrows | Assets/Scripts/PooledObjects/PooledObjectManager.cs:70-94 | appending a batch of fresh, inactive copies owned by the pool keeps the pool consistent, and every id stays below the next free id |
| ManagerSpec.Cleared | Assets/Scripts/PooledObjects/PooledObjectManager.cs:45-49 | both dictionaries are empty; flags, owners and the next id are unchanged |
| ManagerSpec.Register | Assets/Scripts/PooledObjects/PooledObjectManager.cs:58-59 | the prefab becomes a key of both dictionaries with two empty lists; the instance and active lists of every other prefab, the flags, owners and the next id are unchanged |
| ManagerSpec.Build | Assets/Scripts/PooledObjects/PooledObjectManager.cs:51-63 | creating the pools of the first `k` entries never reuses an id: the next free id only grows |
| ManagerSpec.Take | Assets/Scripts/PooledObjects/PooledObjectManager.cs:117-186 | the search for a copy keeps the registered prefabs; when it finds nothing, nothing changes |
| ManagerSpec.Activate | Assets/Scripts/PooledObjects/PooledObjectManager.cs:108-111 | the copy is switched on and appended to the tail of the prefab's active list, the earlier entries staying in place; instance lists, owners and ids are unchanged |
| ManagerSpec.Use | Assets/Scripts/PooledObjects/PooledObjectManager.cs:102-115 | handing out keeps the registered prefabs; a copy handed out is active; a null result changes nothing |
| ManagerSpec.Disable | Assets/Scripts/PooledObjects/PooledObject.cs:45-51 | the copy's flag is off; only its owner's active list may change; instance lists, owners and ids are unchanged |
| ManagerSpec.Grow | Assets/Scripts/PooledObjects/PooledObjectManager.cs:70-94 | growing keeps the registered prefabs and the active lists and uses up exactly `n` ids |
| ManagerSpec.NextIsUntracked | Assets/Scripts/PooledObjects/PooledObjectManager.cs:80 | in a consistent manager, every copy on record and on an active list has an id below the one `Instantiate` gives next |
| ManagerSpec.ClearKeeps | Assets/Scripts/PooledObjects/PooledObjectManager.cs:45-49 | emptying both dictionaries leaves a consistent manager for any new configuration |
| ManagerSpec.RegisterKeeps | Assets/Scripts/PooledObjects/PooledObjectManager.cs:58-59 | registering a configured prefab with two empty lists keeps the manager consistent |
| ManagerSpec.GrowKeeps | Assets/Scripts/PooledObjects/PooledObjectManager.cs:70-94 | growing a registered pool by any number of copies keeps the manager consistent |
| ManagerSpec.GrowZero | Assets/Scripts/PooledObjects/PooledObjectManager.cs:72 | a batch of no copies changes nothing |
| ManagerSpec.GrowComposes | Assets/Scripts/PooledObjects/PooledObjectManager.cs:72-75 | a batch of `i` copies followed by one more copy is a batch of `i + 1` copies |
| ManagerSpec.AcquireKeeps | Assets/Scripts/PooledObjects/PooledObjectManager.cs:106-112 | handing out an inactive copy keeps the manager consistent |
| ManagerSpec.ReuseKeeps | Assets/Scripts/PooledObjects/PooledObjectManager.cs:164-177 | the head of an active list is an active copy, and moving it to the tail keeps the manager consistent |
| ManagerSpec.DisableKeeps | Assets/Scripts/PooledObjects/PooledObject.cs:45-51 | switching off any copy on record, followed by its return hook, keeps the manager consistent |
| ManagerSpec.DisableUnlists | Assets/Scripts/PooledObjects/PooledObjectManager.cs:188-201 | for any configuration, entries with a null prefab included, a copy switched off is on no active list afterwards |
| ManagerSpec.TakeResult | Assets/Scripts/PooledObjects/PooledObjectManager.cs:117-186 | the copy the search returns belongs to the requested pool, and the prefab stays registered |
| ManagerSpec.UseKeeps | Assets/Scripts/PooledObjects/PooledObjectManager.cs:102-115 | handing out a copy keeps the manager consistent in every branch of the overflow rule |
| ManagerSpec.UseHandsOutActiveCopy | Assets/Scripts/PooledObjects/PooledObjectManager.cs:102-115 | a copy handed out belongs to the prefab's pool, is active, and is the newest entry of the prefab's active list |
| ManagerSpec.UseTakesFirstInactive | Assets/Scripts/PooledObjects/PooledObjectManager.cs:117-128 | with an inactive copy present, the first inactive copy in creation order is switched on and appended to the tail; the instance lists, owners and ids do not change |
| ManagerSpec.UseGrowsByBatch | Assets/Scripts/PooledObjects/PooledObjectManager.cs:179-186 | on exhaustion without re-use, exactly `m_Size` copies with fresh ids, owned by the prefab, are appended after the old ones; the first is handed out and the rest stay inactive; the first new copy is appended to the prefab's active list and every other active list is unchanged |
| ManagerSpec.UseKeepsRecords | Assets/Scripts/PooledObjects/PooledObjectManager.cs:102-115 | handing out a copy only extends instance lists, never changes an owner, and changes no flag but that of the copy handed out |
| ManagerSpec.UseNullOnlyForEmptyPool | Assets/Scripts/PooledObjects/PooledObjectManager.cs:164-177 | a null result happens only for a pool with no copies at all, and then nothing changes |
| ManagerSpec.UseGrowsOnlyWhenExhausted | Assets/Scripts/PooledObjects/PooledObjectManager.cs:138-145 | the instance lists change only when every copy is active and re-use is off, and then by one batch of fresh ids on the prefab's list |
| ManagerSpec.UseReusesOldest | Assets/Scripts/PooledObjects/PooledObjectManager.cs:164-177 | re-use hands out the head of the active list and moves it to the tail, keeping the order of the others (so the next re-use hands out the second oldest); nothing else in the state changes; the list's contents are kept as a multiset |
| ManagerSpec.UseThenDisable | Assets/Scripts/PooledObjects/PooledObject.cs:45-51 | handing out an inactive copy and switching it off again restores the whole manager state |
| ManagerSpec.BuildCreatesPools | Assets/Scripts/PooledObjects/PooledObjectManager.cs:51-63 | creating pools from empty dictionaries registers exactly the prefabs of the non-null entries, each with a full first batch of fresh inactive copies and an empty active list; the manager is consistent; earlier copies keep their flags and owners |
| ManagerSpec.BuildKeys | Assets/Scripts/PooledObjects/PooledObjectManager.cs:53-60 | after the first `k` entries, the registered prefabs are the earlier keys plus the non-null prefabs among those entries |
| ManagerSpec.NotYetRegistered | Assets/Scripts/PooledObjects/PooledObjectManager.cs:58-59 | when no prefab is configured twice, an entry's prefab is not yet a key when that entry is reached, so neither `Add` throws |
| ManagerSpec.EntryOfDistinct | Assets/Scripts/PooledObjects/PooledObjectManager.cs:151-162 | when no prefab is configured twice, the lookup of an entry's prefab gives that entry |
| PoolManager.PooledObjectManager.constructor | Assets/Scripts/PooledObjects/PooledObjectManager.cs:19-22 | the manager starts with no configuration, empty dictionaries and no copies, and is consistent |
| PoolManager.PooledObjectManager.PoolOwner | Assets/Scripts/PooledObjects/PooledObject.cs:16-17 | in a consistent manager, the recorded owner of a copy on an active list is the pool whose list holds it |
| PoolManager.PooledObjectManager.InitPooledObject | Assets/Scripts/PooledObjects/PooledObject.cs:39-43 | the owner is recorded and `PoolOwner` returns it; the copy is inactive; its return hook runs when it was active |
| PoolManager.PooledObjectManager.SetActive | Assets/Scripts/PooledObjects/PooledObject.cs:45-51 | sets the copy's flag; switching an active copy off has exactly the effect of `Disable`; switching a copy off keeps the manager consistent |
| PoolManager.PooledObjectManager.OnDisable | Assets/Scripts/PooledObjects/PooledObject.cs:45-51 | the copy is returned to the pool of its own recorded owner |
| PoolManager.PooledObjectManager.InitalizePools | Assets/Scripts/PooledObjects/PooledObjectManager.cs:38-43 | the new configuration is stored; the new state is the pools built from the cleared old state; the manager stays consistent |
| PoolManager.PooledObjectManager.ClearOlderPools | Assets/Scripts/PooledObjects/PooledObjectManager.cs:45-49 | both dictionaries are emptied, and nothing else changes |
| PoolManager.PooledObjectManager.CreatePools | Assets/Scripts/PooledObjects/PooledObjectManager.cs:51-63 | the loop registers and grows each non-null entry, as `Build` over all entries |
| PoolManager.PooledObjectManager.GrowPool | Assets/Scripts/PooledObjects/PooledObjectManager.cs:70-76 | the loop adds a batch of `m_Size` copies (none when `m_Size <= 0`), as `Grow` |
| PoolManager.PooledObjectManager.CreatePooledObject | Assets/Scripts/PooledObjects/PooledObjectManager.cs:78-94 | one copy is created and destroyed again (no component), or bound to its owner, switched off and appended, as `Grow` by one |
| PoolManager.PooledObjectManager.UseObjectFromPool | Assets/Scripts/PooledObjects/PooledObjectManager.cs:102-115 | result and new state are those of `Use`; the manager stays consistent |
| PoolManager.PooledObjectManager.GetObjectFromPool | Assets/Scripts/PooledObjects/PooledObjectManager.cs:117-130 | result and new state are those of `Take` |
| PoolManager.PooledObjectManager.NotEnoughPooledObject | Assets/Scripts/PooledObjects/PooledObjectManager.cs:132-149 | the overflow branch of `Take`: null without an entry, re-use or growth otherwise |
| PoolManager.PooledObjectManager.GetPoolStruct | Assets/Scripts/PooledObjects/PooledObjectManager.cs:151-162 | the scan returns `PoolStructOf`, the corrected lookup |
| PoolManager.PooledObjectManager.UseFirstActivePooledObject | Assets/Scripts/PooledObjects/PooledObjectManager.cs:164-177 | removes and returns the head of the active list, or returns null for an empty list; flags are not touched |
| PoolManager.PooledObjectManager.DynamicGrowPool | Assets/Scripts/PooledObjects/PooledObjectManager.cs:179-186 | grows by one batch and returns the first copy of that batch |
| PoolManager.PooledObjectManager.ReturnPooledObject | Assets/Scripts/PooledObjects/PooledObjectManager.cs:188-201 | removes the copy from the given owner's list when the recorded owner is registered and that list is not empty; nothing else changes |

## Left out

- `Instantiate` and `Destroy` are modelled only as handing out the next id. The engine's objects, components and memory are not modelled.
- Transform placement in `UseObjectFromPool` (`SetPositionAndRotation`) is not modelled, since it is geometry.
- The error messages from `Debug.LogErrorFormat` in `CreatePooledObject` and `DynamicGrowPool` are not modelled.
- The singleton `Awake` is not modelled. The model is one manager object, and a second instance destroying itself is engine behaviour.
- The generic `UseObjectFromPool<T>` is not modelled. It only calls `GetComponent<T>` on the result.
- PoolManager.PooledObjectManager.ReturnPooledObject: leaves out the `GetPoolStruct` lookup on its first line, whose result is never used. As written, that lookup throws whenever the configuration holds an entry with a null prefab, and the return is aborted; `PoolSpec.LookupOfUnnamedKeyThrowsOnAnyNull` states when, and `ManagerSpec.DisableUnlists` proves the return without it (see Findings).
- Scene-unload tracking, stack traces and `OnDestroy` diagnostics in `PooledObject.cs` are not modelled. They are editor-only messages.
- Switching copies on or off from gameplay code is not modelled as an operation of its own. It appears as `SetActive`, whose effect is `Disable` and which keeps the manager consistent when it switches a copy off.
- `activeSelf` is not distinguished from `activeInHierarchy`. Pooled copies are taken to have no inactive parent.
- Aliasing is not modelled. `InitalizePools` keeps a reference to the caller's list, and the model copies the configuration as a value.
- An exception inside a copy's `OnDisable` hook is not modelled. The engine would log it and carry on.
- The behaviour of the code in the crash paths is not modelled. Each is excluded by a precondition:
  - an unregistered prefab;
  - duplicate prefabs in the configuration;
  - growth that cannot add a copy.
- PoolManager.PooledObjectManager.GetPoolStruct: passes over entries with a null prefab. The code as written throws a `NullReferenceException` at such an entry when it comes before the match. That behaviour is modelled separately, by `PoolSpec.GetPoolStructAsWritten` (see Findings).

## Findings

| source | as written | input that shows it | evidently intended | confidence | as-written member | corrected member |
|---|---|---|---|---|---|---|
| Assets/Scripts/PooledObjects/PooledObjectManager.cs:155 | `m_Pools[i].m_Prefab.Equals(poolPrefab)` is called on every entry before the match, including entries whose prefab is null, which `CreatePools` explicitly skips | configuration `[entry with null prefab, entry for P]`, every copy of P in use: `NotEnoughPooledObject(P)` throws instead of applying P's overflow rule | entries with a null prefab are passed over, as `IsValidPoolStruct` does elsewhere | medium, not executed (the engine's overloaded null comparison on destroyed objects is not modelled) | PoolSpec.NullEntryBeforeMatchThrows | PoolSpec.PoolStructOfIsFirstMatch |
| Assets/Scripts/PooledObjects/PooledObjectManager.cs:190 | `ReturnPooledObject` starts with `GetPoolStruct(pooledObject.gameObject)`. The key is the copy itself, which no entry names, so the scan visits every entry and calls `Equals` on each prefab | configuration `[entry for P, entry with null prefab]`, a copy of P switched off: its `OnDisable` throws before the copy is taken off P's active list, so the copy stays listed as active | the return does not depend on the configuration: the unused lookup is dropped and the copy is removed from its owner's list | medium, not executed | PoolSpec.LookupOfUnnamedKeyThrowsOnAnyNull | ManagerSpec.DisableUnlists |
