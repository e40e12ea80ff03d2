/**
 * index/DocumentsWriterPerThreadPool: the registered writers, a free list
 * of writers not in use (each with its RAM estimate), and a permit counter
 * that holds back the creation of new writers.  The pool is modelled as a
 * sequential state machine: a writer's lock is its membership in `held`,
 * and `synchronized` / `wait` become preconditions.
 */
module DocumentsWriterPerThreadPool {
  import opened Java

  /**
   * A per-thread writer, with the RAM estimate the free list is keyed by.
   * The pool calls `ramBytesUsed()`, `lock()`, `tryLock()` and `unlock()` on
   * it, none of which index/DocumentsWriterPerThread defines; the estimate is
   * this field and the lock is membership in the pool's `held`.
   */
  class DocumentsWriterPerThread {
    var ramBytesUsed: int64

    constructor ()
      ensures ramBytesUsed == 0
    {
      ramBytesUsed := 0;
    }
  }

  /** The writers of `snapshot`, in order, that pass `test` and are registered in `dwpts`. */
  function Kept(snapshot: seq<DocumentsWriterPerThread>, test: DocumentsWriterPerThread -> bool,
                dwpts: set<DocumentsWriterPerThread>): (r: seq<DocumentsWriterPerThread>)
    ensures |r| <= |snapshot|
    decreases |snapshot|
  {
    if snapshot == [] then []
    else
      var n := |snapshot| - 1;
      Kept(snapshot[..n], test, dwpts) + if test(snapshot[n]) && snapshot[n] in dwpts then [snapshot[n]] else []
  }

  /** The writers of `snapshot` that pass `test` but were taken out of the pool. */
  function Dropped(snapshot: seq<DocumentsWriterPerThread>, test: DocumentsWriterPerThread -> bool,
                   dwpts: set<DocumentsWriterPerThread>): set<DocumentsWriterPerThread>
  {
    set w | w in snapshot && test(w) && w !in dwpts
  }

  /** One more writer in the snapshot drops it exactly when it passes the test and is not registered. */
  lemma DroppedSnoc(snapshot: seq<DocumentsWriterPerThread>, w: DocumentsWriterPerThread,
                    test: DocumentsWriterPerThread -> bool, dwpts: set<DocumentsWriterPerThread>)
    ensures Dropped(snapshot + [w], test, dwpts) ==
      Dropped(snapshot, test, dwpts) + if test(w) && w !in dwpts then {w} else {}
  {
  }

  /**
   * The locks after running `filterAndLock`'s loop over `snapshot` from
   * `held`: the dropped writers unlocked, the kept ones locked.
   */
  function LockedAfter(held: set<DocumentsWriterPerThread>, snapshot: seq<DocumentsWriterPerThread>,
                       test: DocumentsWriterPerThread -> bool, dwpts: set<DocumentsWriterPerThread>)
    : set<DocumentsWriterPerThread>
  {
    (held - Dropped(snapshot, test, dwpts)) + set w | w in Kept(snapshot, test, dwpts)
  }

  /** One more writer locks it if it is kept, unlocks it if it is dropped, and otherwise changes nothing. */
  lemma LockedAfterSnoc(held: set<DocumentsWriterPerThread>, snapshot: seq<DocumentsWriterPerThread>,
                        w: DocumentsWriterPerThread, test: DocumentsWriterPerThread -> bool,
                        dwpts: set<DocumentsWriterPerThread>)
    ensures LockedAfter(held, snapshot + [w], test, dwpts) ==
      if !test(w) then LockedAfter(held, snapshot, test, dwpts)
      else if w in dwpts then LockedAfter(held, snapshot, test, dwpts) + {w}
      else LockedAfter(held, snapshot, test, dwpts) - {w}
  {
    DroppedSnoc(snapshot, w, test, dwpts);
    KeptMembers(snapshot, test, dwpts);
    assert (snapshot + [w])[..|snapshot|] == snapshot;
  }

  /** One loop step of `filterAndLock` on the prefixes of `snapshot`. */
  lemma FilterPrefixSnoc(held: set<DocumentsWriterPerThread>, snapshot: seq<DocumentsWriterPerThread>, i: nat,
                         test: DocumentsWriterPerThread -> bool, dwpts: set<DocumentsWriterPerThread>)
    requires i < |snapshot|
    ensures var w := snapshot[i];
      Kept(snapshot[..i + 1], test, dwpts) ==
        Kept(snapshot[..i], test, dwpts) + if test(w) && w in dwpts then [w] else []
    ensures var w := snapshot[i];
      LockedAfter(held, snapshot[..i + 1], test, dwpts) ==
        if !test(w) then LockedAfter(held, snapshot[..i], test, dwpts)
        else if w in dwpts then LockedAfter(held, snapshot[..i], test, dwpts) + {w}
        else LockedAfter(held, snapshot[..i], test, dwpts) - {w}
  {
    assert snapshot[..i + 1] == snapshot[..i] + [snapshot[i]];
    assert snapshot[..i + 1][..i] == snapshot[..i];
    LockedAfterSnoc(held, snapshot[..i], snapshot[i], test, dwpts);
  }

  /** The kept writers are exactly the snapshot's writers that pass the test and are registered. */
  lemma {:induction false} KeptMembers(snapshot: seq<DocumentsWriterPerThread>, test: DocumentsWriterPerThread -> bool,
                                       dwpts: set<DocumentsWriterPerThread>)
    ensures forall w :: w in Kept(snapshot, test, dwpts) <==> w in snapshot && test(w) && w in dwpts
    decreases |snapshot|
  {
    if snapshot != [] {
      var n := |snapshot| - 1;
      KeptMembers(snapshot[..n], test, dwpts);
      assert snapshot == snapshot[..n] + [snapshot[n]];
    }
  }

  /** No writer occurs twice. */
  predicate Unique(s: seq<DocumentsWriterPerThread>) {
    forall i, j :: 0 <= i < j < |s| ==> s[i] != s[j]
  }

  /** Keeping a distinct snapshot's writers keeps them distinct. */
  lemma {:induction false} KeptDistinct(snapshot: seq<DocumentsWriterPerThread>, test: DocumentsWriterPerThread -> bool,
                                        dwpts: set<DocumentsWriterPerThread>)
    requires Unique(snapshot)
    ensures Unique(Kept(snapshot, test, dwpts))
    decreases |snapshot|
  {
    if snapshot != [] {
      var n := |snapshot| - 1;
      assert Unique(snapshot[..n]) by {
        forall i, j | 0 <= i < j < n ensures snapshot[..n][i] != snapshot[..n][j] {
          assert snapshot[..n][i] == snapshot[i] && snapshot[..n][j] == snapshot[j];
        }
      }
      KeptDistinct(snapshot[..n], test, dwpts);
      KeptMembers(snapshot[..n], test, dwpts);
      var r0 := Kept(snapshot[..n], test, dwpts);
      assert snapshot[n] !in snapshot[..n];
      forall i | 0 <= i < |r0| ensures r0[i] != snapshot[n] {
        assert r0[i] in r0;
      }
      var r := Kept(snapshot, test, dwpts);
      if test(snapshot[n]) && snapshot[n] in dwpts {
        assert r == r0 + [snapshot[n]];
        forall i, j | 0 <= i < j < |r| ensures r[i] != r[j] {
          if j < |r0| { assert r[i] == r0[i] && r[j] == r0[j]; }
          else { assert r[i] == r0[i] && r[j] == snapshot[n]; }
        }
      } else {
        assert r == r0;
      }
    }
  }

  class DocumentsWriterPerThreadPool {
    var dwpts: set<DocumentsWriterPerThread>
    /** The free list: each writer with the RAM estimate it was added with. */
    var freeList: map<DocumentsWriterPerThread, int64>
    /** The writers whose lock is taken. */
    var held: set<DocumentsWriterPerThread>
    /** A Java `int`: `takenWriterPermits++` wraps. */
    var takenWriterPermits: int32
    var closed: bool

    /** Permits never go negative, and the free list only holds registered writers. */
    ghost predicate Valid()
      reads this
    {
      takenWriterPermits >= 0 && freeList.Keys <= dwpts
    }

    /**
     * `new DocumentsWriterPerThreadPool(dwptFactory)`: no writers, no permits
     * taken.  The factory is always `new DocumentsWriterPerThread()`, so it
     * is not a parameter.
     */
    constructor ()
      ensures Valid()
      ensures dwpts == {} && freeList == map[] && held == {} && takenWriterPermits == 0 && !closed
    {
      dwpts := {};
      freeList := map[];
      held := {};
      takenWriterPermits := 0;
      closed := false;
    }

    /** `size`: the number of registered writers. */
    method Size() returns (n: nat)
      ensures n == |dwpts|
    {
      n := |dwpts|;
    }

    /**
     * `lockNewWriters`: take one more permit.  Its `assert takenWriterPermits >= 0`
     * is `Valid()`; the `++` wraps, so the count stays valid unless it was
     * already Integer.MAX_VALUE.
     */
    method LockNewWriters()
      requires Valid()
      modifies this
      ensures takenWriterPermits == Wrap32(old(takenWriterPermits) + 1)
      ensures Valid() <==> old(takenWriterPermits) < TWO_31 - 1
      ensures old(takenWriterPermits) < TWO_31 - 1 ==> takenWriterPermits == old(takenWriterPermits) + 1
      ensures dwpts == old(dwpts) && freeList == old(freeList) && held == old(held) && closed == old(closed)
    {
      takenWriterPermits := Wrap32(takenWriterPermits + 1);
    }

    /** `unlockNewWriters`: give a permit back; only a taken permit can be given back. */
    method UnlockNewWriters()
      requires Valid() && takenWriterPermits > 0
      modifies this
      ensures Valid() && takenWriterPermits == old(takenWriterPermits) - 1
      ensures dwpts == old(dwpts) && freeList == old(freeList) && held == old(held) && closed == old(closed)
    {
      takenWriterPermits := takenWriterPermits - 1;
    }

    /**
     * `newWriter`: once no permit is taken (the wait for that is the
     * precondition), a new writer, locked and registered.  `dwptFactory.get()`
     * is `new DocumentsWriterPerThread()`.
     */
    method NewWriter() returns (w: DocumentsWriterPerThread)
      requires Valid() && takenWriterPermits == 0
      modifies this
      ensures Valid() && fresh(w)
      ensures dwpts == old(dwpts) + {w} && held == old(held) + {w}
      ensures freeList == old(freeList) && takenWriterPermits == old(takenWriterPermits) && closed == old(closed)
    {
      w := new DocumentsWriterPerThread();
      held := held + {w};
      dwpts := dwpts + {w};
    }

    /**
     * `freeList.poll(DocumentsWriterPerThread::tryLock)`: some free writer
     * whose lock is not taken is locked and leaves the free list; with none,
     * nothing changes.
     */
    method Poll() returns (w: Option<DocumentsWriterPerThread>)
      requires Valid()
      modifies this
      ensures Valid()
      ensures w.Some? <==> exists x :: x in old(freeList) && x !in old(held)
      ensures w.Some? ==>
        w.value in old(freeList) && w.value !in old(held) &&
        freeList == old(freeList) - {w.value} && held == old(held) + {w.value}
      ensures w.None? ==> freeList == old(freeList) && held == old(held)
      ensures dwpts == old(dwpts) && takenWriterPermits == old(takenWriterPermits) && closed == old(closed)
    {
      if x :| x in freeList && x !in held {
        freeList := freeList - {x};
        held := held + {x};
        w := Some(x);
      } else {
        w := None;
      }
    }

    /**
     * `getAndLock`: a free writer whose lock could be taken, or else a new
     * writer; either way registered, locked by this call and off the free
     * list.  Creating one waits for the permits, so that case needs them.
     */
    method GetAndLock() returns (w: DocumentsWriterPerThread)
      requires Valid()
      requires (exists x :: x in freeList && x !in held) || takenWriterPermits == 0
      modifies this
      ensures Valid() && w in dwpts && w !in freeList
      ensures w !in old(held) && held == old(held) + {w}
      ensures (exists x :: x in old(freeList) && x !in old(held)) ==>
        w in old(freeList) && freeList == old(freeList) - {w} && dwpts == old(dwpts)
      ensures !(exists x :: x in old(freeList) && x !in old(held)) ==>
        fresh(w) && freeList == old(freeList) && dwpts == old(dwpts) + {w}
      ensures takenWriterPermits == old(takenWriterPermits) && closed == old(closed)
    {
      var polled := Poll();
      if polled.Some? {
        w := polled.value;
      } else {
        w := NewWriter();
      }
    }

    /**
     * `marksAsFreeAndUnlock`: a registered writer goes on the free list
     * with its current RAM estimate, and its lock is released.
     */
    method MarksAsFreeAndUnlock(state: DocumentsWriterPerThread)
      requires Valid() && state in dwpts
      modifies this
      ensures Valid()
      ensures freeList == old(freeList)[state := state.ramBytesUsed] && held == old(held) - {state}
      ensures dwpts == old(dwpts) && takenWriterPermits == old(takenWriterPermits) && closed == old(closed)
    {
      var ramBytesUsed := state.ramBytesUsed;
      freeList := freeList[state := ramBytesUsed];
      held := held - {state};
    }

    /** `iterator`: a copy of the registered writers, each once, in some order. */
    method Iterator() returns (r: seq<DocumentsWriterPerThread>)
      ensures forall w :: w in r <==> w in dwpts
      ensures Unique(r)
    {
      r := [];
      var rest := dwpts;
      while rest != {}
        invariant rest <= dwpts
        invariant forall w :: w in r <==> w in dwpts && w !in rest
        invariant Unique(r)
        decreases |rest|
      {
        var w :| w in rest;
        r := r + [w];
        rest := rest - {w};
      }
    }

    /** `filterAndLock`: run over a copy of the registered writers. */
    method FilterAndLock(test: DocumentsWriterPerThread -> bool) returns (list: seq<DocumentsWriterPerThread>)
      requires Valid()
      modifies this
      ensures Valid()
      ensures forall w :: w in list <==> w in dwpts && test(w)
      ensures Unique(list)
      ensures held == old(held) + set w | w in list
      ensures dwpts == old(dwpts) && freeList == old(freeList)
      ensures takenWriterPermits == old(takenWriterPermits) && closed == old(closed)
    {
      var snapshot := Iterator();
      list := FilterAndLockFrom(snapshot, test);
      KeptMembers(snapshot, test, dwpts);
      KeptDistinct(snapshot, test, dwpts);
      assert Dropped(snapshot, test, dwpts) == {};
      assert held == old(held) + set w | w in list;
    }

    /**
     * The loop of `filterAndLock` over `snapshot`, a copy taken at some
     * point: each writer that passes the test is locked, then kept if it is
     * still registered and unlocked again if it was taken out meanwhile.
     */
    method FilterAndLockFrom(snapshot: seq<DocumentsWriterPerThread>, test: DocumentsWriterPerThread -> bool)
      returns (list: seq<DocumentsWriterPerThread>)
      requires Valid()
      modifies this
      ensures Valid()
      ensures list == Kept(snapshot, test, dwpts)
      ensures held == LockedAfter(old(held), snapshot, test, dwpts)
      ensures dwpts == old(dwpts) && freeList == old(freeList)
      ensures takenWriterPermits == old(takenWriterPermits) && closed == old(closed)
    {
      list := [];
      var i := 0;
      while i < |snapshot|
        invariant 0 <= i <= |snapshot|
        invariant list == Kept(snapshot[..i], test, dwpts)
        invariant held == LockedAfter(old(held), snapshot[..i], test, dwpts)
        invariant dwpts == old(dwpts) && freeList == old(freeList)
        invariant takenWriterPermits == old(takenWriterPermits) && closed == old(closed)
      {
        FilterPrefixSnoc(old(held), snapshot, i, test, dwpts);
        var kept := FilterOne(snapshot[i], test);
        if kept {
          list := list + [snapshot[i]];
        }
        i := i + 1;
      }
      assert snapshot[..i] == snapshot;
    }

    /**
     * One writer of `filterAndLock`'s loop: if it passes the test it is
     * locked, and it stays locked, and is kept, exactly when it is registered.
     */
    method FilterOne(perThread: DocumentsWriterPerThread, test: DocumentsWriterPerThread -> bool) returns (kept: bool)
      modifies this
      ensures kept <==> test(perThread) && perThread in dwpts
      ensures held == if !test(perThread) then old(held)
        else if kept then old(held) + {perThread} else old(held) - {perThread}
      ensures dwpts == old(dwpts) && freeList == old(freeList)
      ensures takenWriterPermits == old(takenWriterPermits) && closed == old(closed)
    {
      kept := false;
      if test(perThread) {
        held := held + {perThread};
        var registered := IsRegistered(perThread);
        if registered {
          kept := true;
        } else {
          held := held - {perThread};
        }
      }
    }

    /**
     * `checkout`: true exactly when the writer was registered; afterwards it
     * is neither registered nor on the free list, so a second checkout of
     * the same writer returns false.
     */
    method Checkout(perThread: DocumentsWriterPerThread) returns (removed: bool)
      requires Valid()
      modifies this
      ensures Valid()
      ensures removed <==> perThread in old(dwpts)
      ensures perThread !in dwpts && perThread !in freeList
      ensures dwpts == old(dwpts) - {perThread} && freeList == old(freeList) - {perThread}
      ensures held == old(held) && takenWriterPermits == old(takenWriterPermits) && closed == old(closed)
    {
      if perThread in dwpts {
        dwpts := dwpts - {perThread};
        freeList := freeList - {perThread};
        removed := true;
      } else {
        assert perThread !in freeList;
        removed := false;
      }
    }

    /** `isRegistered`: whether the writer is still part of the pool. */
    method IsRegistered(perThread: DocumentsWriterPerThread) returns (r: bool)
      ensures r <==> perThread in dwpts
    {
      r := perThread in dwpts;
    }

    /** `close`: the flag is set; nothing else in the pool reads it. */
    method Close()
      modifies this
      ensures closed
      ensures dwpts == old(dwpts) && freeList == old(freeList) && held == old(held)
      ensures takenWriterPermits == old(takenWriterPermits)
    {
      closed := true;
    }
  }
}
