/**
 * PooledObjectManager and the PooledObject base class it drives.
 *
 * The manager keeps, per registered prefab, the list of every copy it created (m_PoolsObjects) and
 * the list of copies handed out, oldest first (m_PoolsActiveObjects). Copies are identified by the
 * id the engine gives each instantiated copy. What belongs to the copies themselves is kept here in
 * two tables keyed by that id: the copy's active flag (activeInHierarchy) and the owner prefab its
 * PooledObject component records (m_PoolOwner). `nextInstance` is the id the next instantiated copy
 * gets.
 */
module PoolManager {
  import opened PoolTypes
  import opened Lists
  import opened PoolSpec
  import opened ManagerSpec

  class PooledObjectManager {
    var pools: seq<PoolStruct>                            // m_Pools
    var poolsObjects: map<Prefab, seq<Instance>>          // m_PoolsObjects
    var poolsActiveObjects: map<Prefab, seq<Instance>>    // m_PoolsActiveObjects
    var active: map<Instance, bool>                       // activeInHierarchy of each pooled copy
    var poolOwner: map<Instance, Prefab>                  // PooledObject.m_PoolOwner of each pooled copy
    var nextInstance: nat                                 // id of the next copy Instantiate makes

    /** The fields the operations change, as one value. */
    function State(): (r: PoolState)
      reads this
    {
      PoolState(poolsObjects, poolsActiveObjects, active, poolOwner, nextInstance)
    }

    /** The manager's invariant (ManagerConsistent) on the current values of its fields. */
    ghost predicate Valid()
      reads this
    {
      ManagerConsistent(pools, State())
    }

    /** The manager as the singleton Awake keeps: no configuration, no pools, no copies yet. */
    constructor ()
      ensures Valid()
      ensures pools == [] && State() == PoolState(map[], map[], map[], map[], 0)
    {
      pools := [];
      poolsObjects := map[];
      poolsActiveObjects := map[];
      active := map[];
      poolOwner := map[];
      nextInstance := 0;
    }

    // ---------------------------------------------------------------------------------------------
    // PooledObject.cs: the owner binding and the return hook

    /**
     * PooledObject.PoolOwner: the prefab recorded for the copy. In a consistent manager this is the
     * pool whose active list holds the copy, so the return hook clears the right list.
     */
    function PoolOwner(obj: Instance): (r: Prefab)
      reads this
      requires obj in poolOwner
      ensures forall q :: Valid() && q in poolsActiveObjects && obj in poolsActiveObjects[q] ==> r == q
    {
      poolOwner[obj]
    }

    /**
     * PooledObject.InitPooledObject: records the owner, then deactivates the copy, which runs the
     * OnDisable hook when the copy was active.
     */
    method InitPooledObject(obj: Instance, owner: Prefab)
      requires obj in active
      modifies this`poolOwner, this`active, this`poolsActiveObjects
      ensures poolOwner == old(poolOwner)[obj := owner] && PoolOwner(obj) == owner
      ensures active == old(active)[obj := false]
      ensures poolsActiveObjects ==
        if old(active[obj]) then Returned(old(poolsActiveObjects), obj, owner) else old(poolsActiveObjects)
    {
      poolOwner := poolOwner[obj := owner];
      SetActive(obj, false);
    }

    /**
     * GameObject.SetActive: sets the copy's flag; switching an active copy off runs its OnDisable
     * hook (DisableKeeps shows that this keeps the manager consistent).
     */
    method SetActive(obj: Instance, value: bool)
      requires obj in active
      requires active[obj] && !value ==> obj in poolOwner
      modifies this`active, this`poolsActiveObjects
      ensures active == old(active)[obj := value]
      ensures poolsActiveObjects ==
        if old(active[obj]) && !value then Returned(old(poolsActiveObjects), obj, poolOwner[obj])
        else old(poolsActiveObjects)
      ensures old(active[obj]) && !value ==> State() == Disable(old(State()), obj)
      ensures old(Valid()) && !value ==> Valid()
    {
      if active[obj] && !value {
        if Valid() {
          DisableKeeps(pools, State(), obj);
        }
        active := active[obj := false];
        OnDisable(obj);
      } else {
        active := active[obj := value];
      }
    }

    /** PooledObject.OnDisable: returns the copy to the pool of its own recorded owner. */
    method OnDisable(obj: Instance)
      requires obj in poolOwner
      modifies this`poolsActiveObjects
      ensures poolsActiveObjects == Returned(old(poolsActiveObjects), obj, PoolOwner(obj))
    {
      ReturnPooledObject(obj, PoolOwner(obj));
    }

    // ---------------------------------------------------------------------------------------------
    // PooledObjectManager.cs

    /** InitalizePools: takes the new configuration, forgets the old pools and builds the new ones. */
    method InitalizePools(newPools: seq<PoolStruct>)
      requires Valid()
      requires DistinctValidPrefabs(newPools)
      modifies this
      ensures Valid()
      ensures pools == newPools && State() == Build(newPools, |newPools|, Cleared(old(State())))
    {
      ClearKeeps(pools, newPools, State());
      pools := newPools;
      ClearOlderPools();
      NextIsUntracked(pools, State());
      CreatePools();
      BuildCreatesPools(pools, |pools|, Cleared(old(State())));
    }

    /** ClearOlderPools: empties both dictionaries; the copies themselves are left as they are. */
    method ClearOlderPools()
      modifies this`poolsObjects, this`poolsActiveObjects
      ensures State() == Cleared(old(State()))
    {
      poolsObjects := map[];
      poolsActiveObjects := map[];
    }

    /**
     * CreatePools: registers every entry with a non-null prefab, with two empty lists, and creates
     * its first batch of copies.
     */
    method CreatePools()
      requires poolsObjects == map[] && poolsActiveObjects == map[] && IdsBelow(State())
      requires DistinctValidPrefabs(pools)
      modifies this
      ensures pools == old(pools) && State() == Build(pools, |pools|, old(State()))
    {
      for i := 0 to |pools|
        invariant pools == old(pools)
        invariant State() == Build(pools, i, old(State())) && IdsBelow(State())
      {
        var pool := pools[i];
        if IsValidPoolStruct(pool) {
          var p := pool.prefab.value;
          BuildKeys(pools, i, old(State()));
          NotYetRegistered(pools, i);
          assert p !in poolsObjects && p !in poolsActiveObjects;   // neither Dictionary.Add throws
          ghost var t := State();
          poolsObjects := poolsObjects[p := []];
          poolsActiveObjects := poolsActiveObjects[p := []];
          assert State() == Register(t, p);
          GrowPool(pool);
          assert Build(pools, i + 1, old(State())) == Grow(Register(t, p), p, Capacity(pool));
        }
      }
    }

    /** GrowPool: creates one batch of `m_Size` copies of the entry's prefab. */
    method GrowPool(pool: PoolStruct)
      requires pool.prefab.Some? && pool.prefab.value in poolsObjects
      requires IdsBelow(State())
      modifies this
      ensures State() == Grow(old(State()), pool.prefab.value, Capacity(pool))
      ensures IdsBelow(State()) && pools == old(pools)
    {
      var p := pool.prefab.value;
      GrowZero(State(), p);
      var i := 0;
      while i < pool.size
        invariant 0 <= i <= Capacity(pool)
        invariant State() == Grow(old(State()), p, i)
        invariant IdsBelow(State()) && pools == old(pools)
      {
        CreatePooledObject(p);
        GrowComposes(old(State()), p, i);
        i := i + 1;
      }
    }

    /**
     * CreatePooledObject: instantiates a live copy of the prefab. Without a PooledObject component
     * the copy is destroyed (after an error message); with one it is bound to its owner, switched
     * off and appended to the prefab's list.
     */
    method CreatePooledObject(poolPrefab: Prefab)
      requires poolPrefab in poolsObjects
      requires IdsBelow(State())
      modifies this
      ensures State() == Grow(old(State()), poolPrefab, 1)
      ensures IdsBelow(State()) && pools == old(pools)
    {
      // Instantiate(poolPrefab): a live copy with a new id
      var obj := nextInstance;
      nextInstance := nextInstance + 1;
      active := active[obj := true];
      if !poolPrefab.hasPooledObject {
        // Destroy(pooledGameObject)
        active := active - {obj};
        assert active == old(active);
        assert State() == old(State()).(next := old(nextInstance) + 1);

      } else {
        ReturnAbsentIsNoOp(poolsActiveObjects, obj, poolPrefab);
        InitPooledObject(obj, poolPrefab);
        SetActive(obj, false);
        poolsObjects := poolsObjects[poolPrefab := poolsObjects[poolPrefab] + [obj]];
        UpdateTwice(old(active), obj, true, false);
        UpdateTwice(old(active), obj, false, false);
        assert Range(obj, 1) == [obj];
        assert Fill(old(active), obj, 1, false) == active;
        assert Fill(old(poolOwner), obj, 1, poolPrefab) == poolOwner;
        assert poolsActiveObjects == old(poolsActiveObjects);
      }
    }

    /**
     * UseObjectFromPool: takes a copy from the pool (or by the overflow rule), places it (not
     * modelled), switches it on and appends it to the tail of the prefab's active list.
     */
    method UseObjectFromPool(prefab: Prefab) returns (r: Option<Instance>)
      requires Valid() && CanAcquire(pools, State(), prefab)
      modifies this
      ensures Valid() && pools == old(pools)
      ensures (r, State()) == Use(pools, old(State()), prefab)
    {
      ghost var s := State();
      NextIsUntracked(pools, s);
      r := GetObjectFromPool(prefab);
      ghost var t := State();
      TakeResult(pools, s, prefab);
      if r.Some? {
        SetActive(r.value, true);
        poolsActiveObjects := poolsActiveObjects[prefab := poolsActiveObjects[prefab] + [r.value]];
        assert State() == Activate(t, prefab, r.value);
      }
      UseKeeps(pools, s, prefab);
    }

    /**
     * GetObjectFromPool: the first inactive copy in creation order; when there is none, the
     * overflow rule decides.
     */
    method GetObjectFromPool(prefab: Prefab) returns (r: Option<Instance>)
      requires CanTake(pools, State(), prefab) && IdsBelow(State())
      modifies this
      decreases if FirstInactive(poolsObjects[prefab], active).Some? then 0 else 1, 2
      ensures (r, State()) == Take(pools, old(State()), prefab) && pools == old(pools)
    {
      var pooledObject := poolsObjects[prefab];
      for i := 0 to |pooledObject|
        invariant forall j :: 0 <= j < i ==> active[pooledObject[j]]
      {
        if !active[pooledObject[i]] {
          return Some(pooledObject[i]);
        }
      }
      r := NotEnoughPooledObject(prefab);
    }

    /** NotEnoughPooledObject: every copy is in use; re-use the oldest active copy or grow. */
    method NotEnoughPooledObject(prefab: Prefab) returns (r: Option<Instance>)
      requires CanTake(pools, State(), prefab) && IdsBelow(State())
      requires FirstInactive(poolsObjects[prefab], active).None?
      modifies this
      decreases 1, 1
      ensures (r, State()) == Take(pools, old(State()), prefab) && pools == old(pools)
    {
      var pool := GetPoolStruct(prefab);
      if IsValidPoolStruct(pool) {
        if pool.limitReachUseActiveObject {
          r := UseFirstActivePooledObject(pool);
        } else {
          r := DynamicGrowPool(pool);
        }
      } else {
        r := None;
      }
    }

    /**
     * GetPoolStruct: the configuration entry of a prefab, scanning the entries in order; an entry
     * with a null prefab is passed over (see GetPoolStructAsWritten for the code as written).
     */
    method GetPoolStruct(poolPrefab: Prefab) returns (r: PoolStruct)
      ensures r == PoolStructOf(pools, poolPrefab)
    {
      for i := 0 to |pools|
        invariant forall j :: 0 <= j < i ==> pools[j].prefab != Some(poolPrefab)
      {
        if pools[i].prefab == Some(poolPrefab) {
          PoolStructOfIsFirstMatch(pools, poolPrefab);
          return pools[i];
        }
      }
      PoolStructOfIsFirstMatch(pools, poolPrefab);
      return NoPoolStruct;
    }

    /**
     * UseFirstActivePooledObject: removes the head of the active list (the oldest copy handed out)
     * and returns it; the copy stays active and no return hook runs. Null when the list is empty.
     */
    method UseFirstActivePooledObject(pool: PoolStruct) returns (r: Option<Instance>)
      requires pool.prefab.Some? && pool.prefab.value in poolsActiveObjects
      modifies this`poolsActiveObjects
      ensures var act := old(poolsActiveObjects)[pool.prefab.value];
        if act != [] then
          r == Some(act[0]) && poolsActiveObjects == old(poolsActiveObjects)[pool.prefab.value := act[1..]]
        else
          r == None && poolsActiveObjects == old(poolsActiveObjects)
    {
      var activeObjects := poolsActiveObjects[pool.prefab.value];
      if |activeObjects| != 0 {
        var firstElement := activeObjects[0];
        poolsActiveObjects := poolsActiveObjects[pool.prefab.value := activeObjects[1..]];
        return Some(firstElement);
      }
      return None;
    }

    /**
     * DynamicGrowPool: grows an exhausted pool by a whole batch of `m_Size` copies (after an error
     * message) and takes a copy again, which is the first copy of the new batch.
     */
    method DynamicGrowPool(pool: PoolStruct) returns (r: Option<Instance>)
      requires pool.prefab.Some? && Tracked(State(), pool.prefab.value) && IdsBelow(State())
      requires pool.size > 0 && pool.prefab.value.hasPooledObject
      requires FirstInactive(poolsObjects[pool.prefab.value], active).None?
      modifies this
      decreases 1, 0
      ensures r == Some(old(nextInstance))
      ensures State() == Grow(old(State()), pool.prefab.value, Capacity(pool)) && pools == old(pools)
    {
      var p := pool.prefab.value;
      GrowPool(pool);
      InRange(old(nextInstance), Capacity(pool));
      FillAt(old(active), old(nextInstance), Capacity(pool), false);
      FirstInactiveAfterGrowth(old(poolsObjects)[p], Range(old(nextInstance), Capacity(pool)), active);
      r := GetObjectFromPool(p);
    }

    /**
     * ReturnPooledObject: when the copy's recorded owner has an active list, removes the copy from
     * the active list of `owner` (if that list is not empty). Nothing else changes.
     */
    method ReturnPooledObject(obj: Instance, owner: Prefab)
      requires obj in poolOwner
      requires poolOwner[obj] in poolsActiveObjects ==> owner in poolsActiveObjects
      modifies this`poolsActiveObjects
      ensures poolsActiveObjects ==
        if poolOwner[obj] in old(poolsActiveObjects) && |old(poolsActiveObjects)[owner]| != 0
        then old(poolsActiveObjects)[owner := RemoveFirst(old(poolsActiveObjects)[owner], obj)]
        else old(poolsActiveObjects)
    {
      if poolOwner[obj] in poolsActiveObjects {
        var activeObjects := poolsActiveObjects[owner];
        if |activeObjects| != 0 {
          poolsActiveObjects := poolsActiveObjects[owner := RemoveFirst(activeObjects, obj)];
        }
      }
    }
  }
}
