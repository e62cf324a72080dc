/** The values the object pool works with: prefabs, pooled instances and pool configuration entries. */
module PoolTypes {

  datatype Option<T> = None | Some(value: T)

  /** A pooled copy of a prefab, identified by the id the engine gives each copy it instantiates. */
  type Instance = nat

  /**
   * A prefab (template GameObject): an opaque identity, and whether its template carries a
   * PooledObject component, which is fixed for the prefab and decides whether its copies can be pooled.
   */
  datatype Prefab = Prefab(key: nat, hasPooledObject: bool)

  /**
   * PooledObjectManager.PoolStruct: which prefab to pool (None stands for an unassigned, null m_Prefab),
   * how many copies to create per batch, and the overflow policy: when every copy is in use, re-use the
   * oldest active one (true) or grow the pool by another batch (false).
   */
  datatype PoolStruct = PoolStruct(prefab: Option<Prefab>, size: int, limitReachUseActiveObject: bool)

  /** The entry GetPoolStruct returns when no entry matches: `new PoolStruct() { m_Prefab = null }`. */
  const NoPoolStruct := PoolStruct(None, 0, false)

  /** PooledObjectManager.IsValidPoolStruct: the entry names a prefab (m_Prefab is not null). */
  predicate IsValidPoolStruct(pool: PoolStruct)
    ensures IsValidPoolStruct(pool) ==> pool != NoPoolStruct
  {
    pool.prefab.Some?
  }

  /** The number of copies `for (int i = 0; i < m_Size; i++)` creates: none for a size below one. */
  function Capacity(pool: PoolStruct): (r: nat)
    ensures r >= pool.size && (r == 0 || r == pool.size)
  {
    if pool.size > 0 then pool.size else 0
  }
}
