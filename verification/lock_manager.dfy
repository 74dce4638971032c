/** Page-granularity shared/exclusive locks (`simpledb.LockManager`): per page
    a list of shared holders and at most one exclusive holder, and per
    transaction the pages it was granted. A grant is one non-blocking attempt
    that either succeeds and updates the tables or reports that the caller
    must wait. */
module LockManager {
  import opened Common
  import opened Ids

  /** `Permissions.READ_ONLY` and `Permissions.READ_WRITE`. */
  datatype Permissions = ReadOnly | ReadWrite

  /** The outcome of one grant attempt. */
  datatype Grant = Granted | NotYet

  /** Another transaction holds the page exclusively. */
  predicate ExclusivelyLockedByOthers(exclusive: map<HeapPageId, Tid>, tid: Tid, pid: HeapPageId)
  {
    pid in exclusive && exclusive[pid] != tid
  }

  /** Another transaction holds the page exclusively or is on its shared
      list. */
  predicate LockedByOthers(shared: map<HeapPageId, seq<Tid>>, exclusive: map<HeapPageId, Tid>, tid: Tid, pid: HeapPageId)
  {
    || ExclusivelyLockedByOthers(exclusive, tid, pid)
    || (pid in shared && exists k :: 0 <= k < |shared[pid]| && shared[pid][k] != tid)
  }

  /** `hasWritePermissions`: the transaction is the page's exclusive holder. */
  predicate HasWrite(exclusive: map<HeapPageId, Tid>, tid: Tid, pid: HeapPageId)
    ensures HasWrite(exclusive, tid, pid) ==> !ExclusivelyLockedByOthers(exclusive, tid, pid)
    ensures HasWrite(exclusive, tid, pid) ==> forall other :: other != tid ==> ExclusivelyLockedByOthers(exclusive, other, pid)
  {
    pid in exclusive && exclusive[pid] == tid
  }

  /** `hasReadPermissions`: exclusive holder or on the shared list. */
  predicate HasRead(shared: map<HeapPageId, seq<Tid>>, exclusive: map<HeapPageId, Tid>, tid: Tid, pid: HeapPageId)
    ensures HasWrite(exclusive, tid, pid) ==> HasRead(shared, exclusive, tid, pid)
    ensures !HasRead(shared, exclusive, tid, pid) ==> pid !in shared || tid !in shared[pid]
  {
    HasWrite(exclusive, tid, pid) || (pid in shared && tid in shared[pid])
  }

  /** The compatibility invariant: a page with an exclusive holder has no
      other transaction on its shared list. */
  predicate Compatible(shared: map<HeapPageId, seq<Tid>>, exclusive: map<HeapPageId, Tid>)
  {
    forall pid :: pid in exclusive && pid in shared ==> forall t :: t in shared[pid] ==> t == exclusive[pid]
  }

  /** `addSharedUser`: append to the page's shared list, creating it. */
  function AddShared(shared: map<HeapPageId, seq<Tid>>, tid: Tid, pid: HeapPageId): (r: map<HeapPageId, seq<Tid>>)
    ensures r.Keys == shared.Keys + {pid}
    ensures r[pid] == (if pid in shared then shared[pid] else []) + [tid]
    ensures forall q :: q in shared && q != pid ==> r[q] == shared[q]
  {
    shared[pid := (if pid in shared then shared[pid] else []) + [tid]]
  }

  /** `addPageToTransactionLocks`: append to the transaction's held pages. */
  function AddHeld(held: map<Tid, seq<HeapPageId>>, tid: Tid, pid: HeapPageId): (r: map<Tid, seq<HeapPageId>>)
    ensures r.Keys == held.Keys + {tid}
    ensures r[tid] == (if tid in held then held[tid] else []) + [pid]
    ensures forall t :: t in held && t != tid ==> r[t] == held[t]
  {
    held[tid := (if tid in held then held[tid] else []) + [pid]]
  }

  /** `List.remove(Object)`: drop the first occurrence, if any. */
  function RemoveFirst<T(==)>(s: seq<T>, x: T): (r: seq<T>)
    ensures x in s ==> |r| == |s| - 1
    ensures x !in s ==> r == s
    ensures multiset(r) == multiset(s) - multiset{x}
  {
    if s == [] then []
    else
      assert s == [s[0]] + s[1..];
      if s[0] == x then s[1..] else [s[0]] + RemoveFirst(s[1..], x)
  }

  /** The shared lists after `releaseLock(tid, pid)`. */
  function ReleaseShared(shared: map<HeapPageId, seq<Tid>>, tid: Tid, pid: HeapPageId): (r: map<HeapPageId, seq<Tid>>)
    ensures r.Keys == shared.Keys
    ensures forall q :: q in shared && q != pid ==> r[q] == shared[q]
    ensures pid in shared ==> multiset(r[pid]) == multiset(shared[pid]) - multiset{tid}
  {
    if pid in shared then shared[pid := RemoveFirst(shared[pid], tid)] else shared
  }

  /** The pages of a list, as a set. */
  function PageSet(pages: seq<HeapPageId>): (r: set<HeapPageId>)
    ensures forall p :: p in r <==> p in pages
  {
    set p | p in pages
  }

  /** The shared lists after releasing each of `pages` in turn. */
  function ReleaseSharedAll(shared: map<HeapPageId, seq<Tid>>, tid: Tid, pages: seq<HeapPageId>): map<HeapPageId, seq<Tid>>
  {
    if pages == [] then shared else ReleaseSharedAll(ReleaseShared(shared, tid, pages[0]), tid, pages[1..])
  }

  /** A shared grant, made only when no other transaction holds the page
      exclusively, keeps the invariant. */
  lemma SharedGrantKeepsCompatible(shared: map<HeapPageId, seq<Tid>>, exclusive: map<HeapPageId, Tid>, tid: Tid, pid: HeapPageId)
    requires Compatible(shared, exclusive) && !ExclusivelyLockedByOthers(exclusive, tid, pid)
    ensures Compatible(AddShared(shared, tid, pid), exclusive)
  {
    var s := AddShared(shared, tid, pid);
    forall q | q in exclusive && q in s
      ensures forall t :: t in s[q] ==> t == exclusive[q]
    {
      if q == pid {
        assert forall t :: t in s[q] ==> t == tid || (q in shared && t in shared[q]);
      }
    }
  }

  /** An exclusive grant, made only when no other transaction holds the page
      in any mode, keeps the invariant. */
  lemma ExclusiveGrantKeepsCompatible(shared: map<HeapPageId, seq<Tid>>, exclusive: map<HeapPageId, Tid>, tid: Tid, pid: HeapPageId)
    requires Compatible(shared, exclusive) && !LockedByOthers(shared, exclusive, tid, pid)
    ensures Compatible(shared, exclusive[pid := tid])
  {
    if pid in shared {
      forall t | t in shared[pid]
        ensures t == tid
      {
        var k :| 0 <= k < |shared[pid]| && shared[pid][k] == t;
      }
    }
  }

  /** Releasing a page drops its exclusive entry and so keeps the
      invariant. */
  lemma ReleaseKeepsCompatible(shared: map<HeapPageId, seq<Tid>>, exclusive: map<HeapPageId, Tid>, tid: Tid, pid: HeapPageId)
    requires Compatible(shared, exclusive)
    ensures Compatible(ReleaseShared(shared, tid, pid), exclusive - {pid})
  {
    var s := ReleaseShared(shared, tid, pid);
    forall q | q in exclusive - {pid} && q in s
      ensures forall t :: t in s[q] ==> t == exclusive[q]
    {
      assert s[q] == shared[q];
    }
  }

  /** Readers block a writer: another transaction on the shared list makes
      the page locked by others. */
  lemma ReaderBlocksWriter(shared: map<HeapPageId, seq<Tid>>, exclusive: map<HeapPageId, Tid>, tid: Tid, other: Tid, pid: HeapPageId)
    requires pid in shared && other in shared[pid] && other != tid
    ensures LockedByOthers(shared, exclusive, tid, pid)
  {
    var k :| 0 <= k < |shared[pid]| && shared[pid][k] == other;
  }

  /** A transaction that is the only one on a page's shared list, with no
      other exclusive holder, can upgrade to an exclusive lock. */
  lemma SoleReaderCanUpgrade(shared: map<HeapPageId, seq<Tid>>, exclusive: map<HeapPageId, Tid>, tid: Tid, pid: HeapPageId)
    requires pid in shared && (forall t :: t in shared[pid] ==> t == tid)
    requires !ExclusivelyLockedByOthers(exclusive, tid, pid)
    ensures !LockedByOthers(shared, exclusive, tid, pid)
  {
    forall k | 0 <= k < |shared[pid]|
      ensures shared[pid][k] == tid
    {
      assert shared[pid][k] in shared[pid];
    }
  }

  class LockManager {
    var sharedLocks: map<HeapPageId, seq<Tid>>
    var exclusiveLocks: map<HeapPageId, Tid>
    var pageIdsLockedByTransaction: map<Tid, seq<HeapPageId>>

    ghost predicate Valid()
      reads this
    {
      Compatible(sharedLocks, exclusiveLocks)
    }

    /** The three tables together. */
    ghost function Tables(): (map<HeapPageId, seq<Tid>>, map<HeapPageId, Tid>, map<Tid, seq<HeapPageId>>)
      reads this
    {
      (sharedLocks, exclusiveLocks, pageIdsLockedByTransaction)
    }

    /** `create()`: empty tables. */
    constructor ()
      ensures Valid()
      ensures sharedLocks == map[] && exclusiveLocks == map[] && pageIdsLockedByTransaction == map[]
    {
      sharedLocks := map[];
      exclusiveLocks := map[];
      pageIdsLockedByTransaction := map[];
    }

    /** `holdsLock(tid, pid)`: the page is among the transaction's held
        pages. */
    method HoldsLock(tid: Tid, pid: HeapPageId) returns (b: bool)
      ensures b <==> tid in pageIdsLockedByTransaction && pid in pageIdsLockedByTransaction[tid]
    {
      if tid !in pageIdsLockedByTransaction {
        return false;
      }
      return pid in pageIdsLockedByTransaction[tid];
    }

    /** `isLockedByOthers`: the exclusive check, then a scan of the shared
        list for another transaction. */
    method IsLockedByOthers(tid: Tid, pid: HeapPageId) returns (b: bool)
      ensures b == LockedByOthers(sharedLocks, exclusiveLocks, tid, pid)
    {
      if ExclusivelyLockedByOthers(exclusiveLocks, tid, pid) {
        return true;
      }
      if pid in sharedLocks {
        var holders := sharedLocks[pid];
        for k := 0 to |holders|
          invariant forall j :: 0 <= j < k ==> holders[j] == tid
        {
          if holders[k] != tid {
            return true;
          }
        }
      }
      return false;
    }

    /** One attempt of `acquireReadOnlyLock`: granted, and the transaction
        appended to the shared list, unless another transaction holds the
        page exclusively. */
    method AcquireReadOnlyLock(tid: Tid, pid: HeapPageId) returns (g: Grant)
      requires Valid()
      modifies this
      ensures Valid()
      ensures g == Granted <==> !ExclusivelyLockedByOthers(old(exclusiveLocks), tid, pid)
      ensures sharedLocks == if g == Granted then AddShared(old(sharedLocks), tid, pid) else old(sharedLocks)
      ensures exclusiveLocks == old(exclusiveLocks)
      ensures pageIdsLockedByTransaction == old(pageIdsLockedByTransaction)
    {
      if ExclusivelyLockedByOthers(exclusiveLocks, tid, pid) {
        return NotYet;
      }
      SharedGrantKeepsCompatible(sharedLocks, exclusiveLocks, tid, pid);
      sharedLocks := AddShared(sharedLocks, tid, pid);
      return Granted;
    }

    /** One attempt of `acquireReadWriteLock`: granted, and the transaction
        made the exclusive holder, unless another transaction holds the page
        in either mode. */
    method AcquireReadWriteLock(tid: Tid, pid: HeapPageId) returns (g: Grant)
      requires Valid()
      modifies this
      ensures Valid()
      ensures g == Granted <==> !LockedByOthers(old(sharedLocks), old(exclusiveLocks), tid, pid)
      ensures exclusiveLocks == if g == Granted then old(exclusiveLocks)[pid := tid] else old(exclusiveLocks)
      ensures sharedLocks == old(sharedLocks)
      ensures pageIdsLockedByTransaction == old(pageIdsLockedByTransaction)
    {
      var locked := IsLockedByOthers(tid, pid);
      if locked {
        return NotYet;
      }
      ExclusiveGrantKeepsCompatible(sharedLocks, exclusiveLocks, tid, pid);
      exclusiveLocks := exclusiveLocks[pid := tid];
      return Granted;
    }

    /** `acquireLock(tid, pid, perm)` with one grant attempt: a permission
        the transaction already has returns at once and changes nothing; a
        grant records the page among the transaction's held pages; an
        unknown permission is an IllegalArgument error. */
    method AcquireLock(tid: Tid, pid: HeapPageId, perm: Option<Permissions>) returns (r: Result<Grant>)
      requires Valid()
      modifies this
      ensures Valid()
      ensures perm.None? ==> r == Err(IllegalArgument) && Tables() == old(Tables())
      ensures perm == Some(ReadOnly) && HasRead(old(sharedLocks), old(exclusiveLocks), tid, pid) ==>
                r == Ok(Granted) && Tables() == old(Tables())
      ensures perm == Some(ReadWrite) && HasWrite(old(exclusiveLocks), tid, pid) ==>
                r == Ok(Granted) && Tables() == old(Tables())
      ensures r == Ok(NotYet) ==> Tables() == old(Tables())
      ensures perm == Some(ReadOnly) && !HasRead(old(sharedLocks), old(exclusiveLocks), tid, pid) && r == Ok(Granted) ==>
                pageIdsLockedByTransaction == AddHeld(old(pageIdsLockedByTransaction), tid, pid)
      ensures perm == Some(ReadWrite) && !HasWrite(old(exclusiveLocks), tid, pid) && r == Ok(Granted) ==>
                pageIdsLockedByTransaction == AddHeld(old(pageIdsLockedByTransaction), tid, pid)
      ensures perm == Some(ReadWrite) && r == Ok(Granted) ==> HasWrite(exclusiveLocks, tid, pid)
      ensures perm == Some(ReadOnly) && r == Ok(Granted) ==> HasRead(sharedLocks, exclusiveLocks, tid, pid)
    {
      var g;
      if perm == Some(ReadOnly) {
        if HasRead(sharedLocks, exclusiveLocks, tid, pid) {
          return Ok(Granted);
        }
        g := AcquireReadOnlyLock(tid, pid);
      } else if perm == Some(ReadWrite) {
        if HasWrite(exclusiveLocks, tid, pid) {
          return Ok(Granted);
        }
        g := AcquireReadWriteLock(tid, pid);
      } else {
        return Err(IllegalArgument);
      }
      if g == NotYet {
        return Ok(NotYet);
      }
      pageIdsLockedByTransaction := AddHeld(pageIdsLockedByTransaction, tid, pid);
      return Ok(Granted);
    }

    /** `releaseLock(tid, pid)`: the page's exclusive entry is removed,
        whoever holds it, and one occurrence of the transaction leaves its
        shared list. */
    method ReleaseLock(tid: Tid, pid: HeapPageId)
      requires Valid()
      modifies this
      ensures Valid()
      ensures exclusiveLocks == old(exclusiveLocks) - {pid}
      ensures sharedLocks == ReleaseShared(old(sharedLocks), tid, pid)
      ensures pageIdsLockedByTransaction == old(pageIdsLockedByTransaction)
    {
      ReleaseKeepsCompatible(sharedLocks, exclusiveLocks, tid, pid);
      exclusiveLocks := exclusiveLocks - {pid};
      if pid in sharedLocks {
        sharedLocks := sharedLocks[pid := RemoveFirst(sharedLocks[pid], tid)];
      }
    }

    /** `releasePage(tid, pid)`: release the lock and drop the page once
        from the transaction's held pages. */
    method ReleasePage(tid: Tid, pid: HeapPageId)
      requires Valid()
      modifies this
      ensures Valid()
      ensures exclusiveLocks == old(exclusiveLocks) - {pid}
      ensures sharedLocks == ReleaseShared(old(sharedLocks), tid, pid)
      ensures pageIdsLockedByTransaction ==
                if tid in old(pageIdsLockedByTransaction)
                then old(pageIdsLockedByTransaction)[tid := RemoveFirst(old(pageIdsLockedByTransaction)[tid], pid)]
                else old(pageIdsLockedByTransaction)
    {
      ReleaseLock(tid, pid);
      if tid in pageIdsLockedByTransaction {
        pageIdsLockedByTransaction := pageIdsLockedByTransaction[tid := RemoveFirst(pageIdsLockedByTransaction[tid], pid)];
      }
    }

    /** `releasePages(tid)`: release every held page in order, then empty the
        transaction's held pages. A transaction with no entry is left
        alone. */
    method ReleasePages(tid: Tid)
      requires Valid()
      modifies this
      ensures Valid()
      ensures tid !in old(pageIdsLockedByTransaction) ==> Tables() == old(Tables())
      ensures tid in old(pageIdsLockedByTransaction) ==>
                var pages := old(pageIdsLockedByTransaction)[tid];
                && exclusiveLocks == old(exclusiveLocks) - PageSet(pages)
                && sharedLocks == ReleaseSharedAll(old(sharedLocks), tid, pages)
                && pageIdsLockedByTransaction == old(pageIdsLockedByTransaction)[tid := []]
    {
      if tid in pageIdsLockedByTransaction {
        var pages := pageIdsLockedByTransaction[tid];
        for k := 0 to |pages|
          invariant Valid()
          invariant exclusiveLocks == old(exclusiveLocks) - PageSet(pages[..k])
          invariant ReleaseSharedAll(sharedLocks, tid, pages[k..]) == ReleaseSharedAll(old(sharedLocks), tid, pages)
          invariant pageIdsLockedByTransaction == old(pageIdsLockedByTransaction)
        {
          assert pages[k..][0] == pages[k] && pages[k..][1..] == pages[k + 1..];
          assert pages[..k + 1] == pages[..k] + [pages[k]];
          assert PageSet(pages[..k + 1]) == PageSet(pages[..k]) + {pages[k]};
          ReleaseLock(tid, pages[k]);
        }
        assert pages[..|pages|] == pages;
        pageIdsLockedByTransaction := pageIdsLockedByTransaction[tid := []];
      }
    }
  }
}
