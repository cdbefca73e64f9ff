/** The named user-level locks of plugin/user_locks/locks.cc: a table from
    lock key to the session holding it.  Each operation runs under the
    table's mutex and is modelled as one atomic step; the key type (a
    context and a lock name in the plugin) is left abstract. */
module UserLocks {

  type SessionId = nat

  /** boost::tribool. */
  datatype Tribool = True | False | Indeterminate

  /** The non-waiting lock: map insertion, which succeeds only for a key
      that nobody holds, the caller included. */
  function LockSpec<K>(m: map<K, SessionId>, id: SessionId, key: K): (r: (map<K, SessionId>, bool))
    ensures r.1 <==> key !in m
    ensures key in r.0 && r.0.Keys == m.Keys + {key}
    ensures r.1 ==> r.0[key] == id
    ensures forall k :: k in m ==> k in r.0 && r.0[k] == m[k]
  {
    if key in m then (m, false) else (m[key := id], true)
  }

  /** Whether every key of `keys` is free or already held by `id`. */
  predicate Available<K>(m: map<K, SessionId>, id: SessionId, keys: set<K>)
  {
    forall k :: k in keys && k in m ==> m[k] == id
  }

  /** The table after the multi-key lock succeeded: the keys nobody held
      now belong to `id`. */
  function Acquired<K>(m: map<K, SessionId>, id: SessionId, keys: set<K>): (r: map<K, SessionId>)
    ensures r.Keys == m.Keys + keys
    ensures forall k :: k in r ==> r[k] == if k in m then m[k] else id
  {
    map k | k in m.Keys + keys :: if k in m then m[k] else id
  }

  /** release: indeterminate for a key nobody holds, true (with the key
      erased) for its holder, false for anybody else. */
  function ReleaseSpec<K>(m: map<K, SessionId>, key: K, id: SessionId): (r: (map<K, SessionId>, Tribool))
    ensures r.1 == Indeterminate <==> key !in m
    ensures r.1 == True <==> key in m && m[key] == id
    ensures r.1 == True ==> r.0 == m - {key}
    ensures r.1 != True ==> r.0 == m
  {
    if key !in m then (m, Indeterminate)
    else if m[key] == id then (m - {key}, True)
    else (m, False)
  }

  /** isFree as written: true exactly when the key is held. */
  function IsFreeAsWritten<K>(m: map<K, SessionId>, key: K): (r: bool)
    ensures r <==> key in m
  {
    key in m
  }

  /** On an empty table isFree reports the key as not free, while a lock
      on it is then granted. */
  lemma IsFreeAsWrittenInverted<K>(key: K)
    ensures !IsFreeAsWritten(map[], key) && LockSpec(map[], 0, key).1
  {
  }

  /** A lock taken and released by the same session leaves the table as it
      was. */
  lemma LockThenRelease<K>(m: map<K, SessionId>, id: SessionId, key: K)
    requires key !in m
    ensures var (m1, locked) := LockSpec(m, id, key);
      locked && ReleaseSpec(m1, key, id) == (m, True)
  {
    var m1 := LockSpec(m, id, key).0;
    assert m1 - {key} == m;
  }

  /** Only the holder can release: another session's release changes
      nothing and a later lock attempt still fails. */
  lemma ReleaseByOtherKeepsLock<K>(m: map<K, SessionId>, holder: SessionId, other: SessionId, key: K)
    requires key in m && m[key] == holder && other != holder
    ensures ReleaseSpec(m, key, other) == (m, False)
    ensures !LockSpec(ReleaseSpec(m, key, other).0, other, key).1
  {
  }

  /** After a successful multi-key lock the caller holds every key; keys
      held before keep their holders. */
  lemma AcquiredHoldsAll<K>(m: map<K, SessionId>, id: SessionId, keys: set<K>)
    requires Available(m, id, keys)
    ensures forall k :: k in keys ==> k in Acquired(m, id, keys) && Acquired(m, id, keys)[k] == id
    ensures forall k :: k in m ==> Acquired(m, id, keys)[k] == m[k]
  {
  }

  class Locks<K(==)> {
    var lockMap: map<K, SessionId>

    constructor()
      ensures lockMap == map[]
    {
      lockMap := map[];
    }

    /** lock(id, key) without waiting. */
    method Lock(id: SessionId, key: K) returns (locked: bool)
      modifies this
      ensures (lockMap, locked) == LockSpec(old(lockMap), id, key)
    {
      if key in lockMap {
        return false;
      }
      lockMap := lockMap[key := id];
      locked := true;
    }

    /** lock(id, key, wait_for): returns at once for the key's holder;
        a key held by another session is waited for, and
        `releasedInTime` says whether that session let it go before the
        timeout. */
    method LockWaiting(id: SessionId, key: K, releasedInTime: bool) returns (locked: bool)
      modifies this
      ensures key in old(lockMap) && old(lockMap)[key] == id ==> locked && lockMap == old(lockMap)
      ensures key in old(lockMap) && old(lockMap)[key] != id && !releasedInTime ==>
        !locked && lockMap == old(lockMap)
      ensures key !in old(lockMap) || (old(lockMap)[key] != id && releasedInTime) ==>
        locked && lockMap == old(lockMap)[key := id]
    {
      if key in lockMap {
        if lockMap[key] == id {
          return true;
        }
        if !releasedInTime {
          return false;
        }
        lockMap := lockMap - {key};
      }
      lockMap := lockMap[key := id];
      locked := true;
    }

    /** lock(id, keys): all or nothing.  The first pass looks for a key
        held by another session; the second inserts the free ones. */
    method LockAll(id: SessionId, keys: set<K>) returns (locked: bool)
      modifies this
      ensures locked <==> Available(old(lockMap), id, keys)
      ensures lockMap == if locked then Acquired(old(lockMap), id, keys) else old(lockMap)
    {
      var todo := keys;
      while todo != {}
        invariant todo <= keys
        invariant Available(lockMap, id, keys - todo)
        decreases todo
      {
        var k :| k in todo;
        if k in lockMap && lockMap[k] != id {
          return false;
        }
        todo := todo - {k};
      }
      assert keys - todo == keys;
      todo := keys;
      ghost var m0 := lockMap;
      while todo != {}
        invariant todo <= keys
        invariant lockMap == Acquired(m0, id, keys - todo)
        decreases todo
      {
        var k :| k in todo;
        if k !in lockMap {
          lockMap := lockMap[k := id];
        }
        todo := todo - {k};
      }
      assert keys - todo == keys;
      locked := true;
    }

    /** isUsed: the holder of a held key; `idArg` comes back unchanged for
        a free one. */
    method IsUsed(key: K, idArg: SessionId) returns (used: bool, idOut: SessionId)
      ensures used <==> key in lockMap
      ensures idOut == if used then lockMap[key] else idArg
    {
      if key !in lockMap {
        return false, idArg;
      }
      return true, lockMap[key];
    }

    /** isFree with the test the name promises. */
    method IsFree(key: K) returns (free: bool)
      ensures free <==> key !in lockMap
      ensures free != IsFreeAsWritten(lockMap, key)
    {
      free := key !in lockMap;
    }

    /** Copy: a snapshot of the table. */
    method Copy() returns (snapshot: map<K, SessionId>)
      ensures snapshot == lockMap
    {
      snapshot := lockMap;
    }

    method Release(key: K, id: SessionId) returns (released: Tribool)
      modifies this
      ensures (lockMap, released) == ReleaseSpec(old(lockMap), key, id)
    {
      if key !in lockMap {
        return Indeterminate;
      }
      var elements := 0;
      if lockMap[key] == id {
        lockMap := lockMap - {key};
        elements := 1;
      }
      released := if elements != 0 then True else False;
    }
  }
}
