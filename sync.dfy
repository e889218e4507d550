/** The Sync counter: a wait group built on a mutex and a one-slot channel.

    Add and Done update a counter under the mutex; the Done that brings the
    counter from 1 to 0 sends on the one-slot channel `csync`, and Wait receives
    from it. The lock below is the number of tokens in the mutex's semaphore:
    1 when the mutex is free, 0 while it is held. */
module SyncCounter {
  import opened Wrappers
  import Semaphore

  // ---------------------------------------------------------------------------
  // Abstract state and its transitions
  // ---------------------------------------------------------------------------

  /** cnt: the counter; inUse: set by the first Add; csync: values buffered in
      the one-slot channel; lock: tokens in the mutex. */
  datatype SyncState = SyncState(cnt: int, inUse: bool, csync: int, lock: int)

  predicate Inv(s: SyncState) {
    0 <= s.cnt && 0 <= s.csync <= 1 && 0 <= s.lock <= 1 && (s.cnt > 0 ==> s.inUse)
  }

  /** The state NewSync builds: counter 0, not in use, empty channel, free mutex. */
  function Initial(): (s: SyncState)
    ensures Inv(s) && s.lock == 1 && s.csync == 0 && s.cnt == 0 && !s.inUse
  {
    SyncState(0, false, 0, 1)
  }

  /** Add only waits for the mutex. */
  predicate CanAdd(s: SyncState) {
    s.lock > 0
  }

  /** Add: the counter goes up by one and the group is marked in use; the mutex
      is taken and given back. */
  function AfterAdd(s: SyncState): (t: SyncState)
    requires Inv(s) && CanAdd(s)
    ensures Inv(t) && t.cnt == s.cnt + 1 && t.inUse
    ensures t.csync == s.csync && t.lock == s.lock
  {
    s.(inUse := true, cnt := s.cnt + 1)
  }

  /** A Done that matches an earlier Add. */
  predicate MatchedDone(s: SyncState) {
    s.inUse && s.cnt >= 1
  }

  /** Done waits for the mutex and, when it is the last one, for room in csync. */
  predicate CanDone(s: SyncState) {
    s.lock > 0 && (MatchedDone(s) && s.cnt == 1 ==> s.csync == 0)
  }

  /** Done. A matched Done lowers the counter and, when the counter reaches 0,
      fills csync. An unmatched Done returns at once: as written it keeps the
      mutex it took (releasing == false); the corrected version gives it back
      (releasing == true). */
  function AfterDone(s: SyncState, releasing: bool): (t: SyncState)
    requires Inv(s) && CanDone(s)
    ensures Inv(t) && t.inUse == s.inUse
    ensures MatchedDone(s) ==> t.cnt == s.cnt - 1 && t.lock == s.lock
    ensures MatchedDone(s) ==> (t.csync == 1 <==> s.cnt == 1 || s.csync == 1)
    ensures !MatchedDone(s) ==> t.cnt == s.cnt && t.csync == s.csync
    ensures !MatchedDone(s) ==> (t.lock == 0 <==> !releasing)
  {
    if !MatchedDone(s) then
      if releasing then s else s.(lock := 0)
    else
      s.(cnt := s.cnt - 1, csync := if s.cnt == 1 then s.csync + 1 else s.csync)
  }

  /** Wait blocks until csync holds a value. */
  predicate CanSyncWait(s: SyncState) {
    s.csync > 0
  }

  /** Wait takes the value out of csync and changes nothing else. */
  function AfterSyncWait(s: SyncState): (t: SyncState)
    requires Inv(s) && CanSyncWait(s)
    ensures Inv(t) && t.csync == 0 && t.cnt == s.cnt && t.inUse == s.inUse && t.lock == s.lock
  {
    s.(csync := s.csync - 1)
  }

  // ---------------------------------------------------------------------------
  // Runs of calls
  // ---------------------------------------------------------------------------

  datatype SyncOp = AddCall | DoneCall | WaitCall

  /** One call; None when it would block. */
  function Step(s: SyncState, op: SyncOp, releasing: bool): (r: Option<SyncState>)
    requires Inv(s)
    ensures r.Some? ==> Inv(r.value)
  {
    match op
    case AddCall => if CanAdd(s) then Some(AfterAdd(s)) else None
    case DoneCall => if CanDone(s) then Some(AfterDone(s, releasing)) else None
    case WaitCall => if CanSyncWait(s) then Some(AfterSyncWait(s)) else None
  }

  /** Performs ops one after another; None when some call would block. */
  function Run(s: SyncState, ops: seq<SyncOp>, releasing: bool): (r: Option<SyncState>)
    requires Inv(s)
    ensures r.Some? ==> Inv(r.value)
    decreases |ops|
  {
    if ops == [] then Some(s)
    else match Step(s, ops[0], releasing)
      case None => None
      case Some(t) => Run(t, ops[1..], releasing)
  }

  /** Running a + b is running a, then b from where a stopped. */
  lemma {:induction false} RunAppend(s: SyncState, a: seq<SyncOp>, b: seq<SyncOp>, releasing: bool)
    requires Inv(s)
    ensures Run(s, a + b, releasing) ==
      if Run(s, a, releasing).Some? then Run(Run(s, a, releasing).value, b, releasing) else None
    decreases |a|
  {
    if a == [] {
      assert a + b == b;
    } else {
      assert (a + b)[0] == a[0] && (a + b)[1..] == a[1..] + b;
      if Step(s, a[0], releasing).Some? {
        RunAppend(Step(s, a[0], releasing).value, a[1..], b, releasing);
      }
    }
  }

  /** With the mutex free, n Adds never block and raise the counter by n. */
  lemma {:induction false} RunAdds(s: SyncState, n: nat, releasing: bool)
    requires Inv(s) && s.lock == 1
    ensures Run(s, Repeat(AddCall, n), releasing) ==
      Some(s.(cnt := s.cnt + n, inUse := s.inUse || n > 0))
    decreases n
  {
    if n > 0 {
      RunAdds(AfterAdd(s), n - 1, releasing);
    }
  }

  /** With the mutex free and csync empty, n matched Dones never block; the one
      that brings the counter to 0 fills csync. */
  lemma {:induction false} RunDones(s: SyncState, n: nat, releasing: bool)
    requires Inv(s) && s.lock == 1 && s.csync == 0 && n <= s.cnt
    ensures Run(s, Repeat(DoneCall, n), releasing) ==
      Some(s.(cnt := s.cnt - n, csync := if n > 0 && n == s.cnt then 1 else 0))
    decreases n
  {
    if n > 1 {
      RunDones(AfterDone(s, releasing), n - 1, releasing);
    } else if n == 1 {
      assert Repeat(DoneCall, 1)[1..] == [];
    }
  }

  /** The wait-group promise: after n Adds, Wait returns once all n Dones have
      run, and not after only n - 1 of them. Without any Add, Wait blocks. */
  lemma WaitAfterAllDones(n: nat, releasing: bool)
    requires n >= 1
    ensures Run(Initial(), Repeat(AddCall, n) + Repeat(DoneCall, n) + [WaitCall], releasing) ==
      Some(Initial().(inUse := true))
    ensures Run(Initial(), Repeat(AddCall, n) + Repeat(DoneCall, n - 1) + [WaitCall], releasing) == None
    ensures Run(Initial(), [WaitCall], releasing) == None
  {
    var s0 := Initial();
    var s1 := s0.(cnt := n, inUse := true);
    RunAdds(s0, n, releasing);
    RunDones(s1, n, releasing);
    RunDones(s1, n - 1, releasing);
    RunAppend(s0, Repeat(AddCall, n), Repeat(DoneCall, n), releasing);
    RunAppend(s0, Repeat(AddCall, n) + Repeat(DoneCall, n), [WaitCall], releasing);
    RunAppend(s0, Repeat(AddCall, n), Repeat(DoneCall, n - 1), releasing);
    RunAppend(s0, Repeat(AddCall, n) + Repeat(DoneCall, n - 1), [WaitCall], releasing);
  }

  /** While the mutex is held, only Wait calls can go through. */
  lemma {:induction false} LockedAdmitsOnlyWaits(s: SyncState, ops: seq<SyncOp>, releasing: bool)
    requires Inv(s) && s.lock == 0
    ensures Run(s, ops, releasing).Some? ==> forall i :: 0 <= i < |ops| ==> ops[i] == WaitCall
    decreases |ops|
  {
    if ops != [] && Run(s, ops, releasing).Some? {
      var t := Step(s, ops[0], releasing).value;
      LockedAdmitsOnlyWaits(t, ops[1..], releasing);
      assert forall i :: 1 <= i < |ops| ==> ops[i] == ops[1..][i - 1];
    }
  }

  /** As written, an unmatched Done, such as a Done on a fresh Sync, keeps the
      mutex: every later Add or Done blocks forever. */
  lemma UnmatchedDoneBlocksLaterCalls(s: SyncState, ops: seq<SyncOp>)
    requires Inv(s) && s.lock == 1 && !MatchedDone(s)
    ensures Step(s, DoneCall, false) == Some(s.(lock := 0))
    ensures Run(s, [DoneCall] + ops, false).Some? ==> forall i :: 0 <= i < |ops| ==> ops[i] == WaitCall
  {
    assert ([DoneCall] + ops)[1..] == ops;
    LockedAdmitsOnlyWaits(s.(lock := 0), ops, false);
  }

  /** With the corrected Done the mutex is free again after every run, so one
      more Add always goes through. */
  lemma {:induction false} ReleasingKeepsMutexFree(s: SyncState, ops: seq<SyncOp>)
    requires Inv(s) && s.lock == 1
    ensures Run(s, ops, true).Some? ==> Run(s, ops, true).value.lock == 1
    ensures Run(s, ops, true).Some? ==> Run(s, ops + [AddCall], true).Some?
    decreases |ops|
  {
    if ops != [] && Run(s, ops, true).Some? {
      ReleasingKeepsMutexFree(Step(s, ops[0], true).value, ops[1..]);
    }
    RunAppend(s, ops, [AddCall], true);
  }

  // ---------------------------------------------------------------------------
  // The Sync object
  // ---------------------------------------------------------------------------

  class Sync {
    const syncmutex: Semaphore.Mutex
    /** values buffered in the one-slot channel */
    var csync: int
    var cnt: int
    var inUse: bool

    function State(): SyncState
      reads this, syncmutex, syncmutex.s
    {
      SyncState(cnt, inUse, csync, syncmutex.s.tokens)
    }

    ghost predicate Valid()
      reads this, syncmutex, syncmutex.s
    {
      syncmutex.Valid() && syncmutex.s.valid && Inv(State())
    }

    /** NewSync: a fresh mutex, an empty one-slot channel and a zero counter.
        The clamped maxthreads is not stored anywhere. */
    constructor NewSync(maxthreads: int)
      ensures Valid() && State() == Initial()
      ensures fresh(syncmutex) && fresh(syncmutex.s)
    {
      syncmutex := new Semaphore.Mutex.Createmutex();
      csync, cnt, inUse := 0, 0, false;
    }

    /** Add: under the mutex, mark the group in use and count one more. */
    method Add()
      requires Valid() && CanAdd(State())
      modifies this, syncmutex.s
      ensures Valid() && State() == AfterAdd(old(State()))
    {
      var _ := syncmutex.Enter();
      if !inUse {
        inUse := true;
      }
      cnt := cnt + 1;
      var _ := syncmutex.Leave();
    }

    /** Done as written: an unmatched call returns while still holding the mutex. */
    method Done()
      requires Valid() && CanDone(State())
      modifies this, syncmutex.s
      ensures Valid() && State() == AfterDone(old(State()), false)
    {
      var _ := syncmutex.Enter();
      if !inUse || cnt < 1 {
        return;
      }
      if cnt == 1 {
        csync := csync + 1;
      }
      cnt := cnt - 1;
      var _ := syncmutex.Leave();
    }

    /** Done corrected: an unmatched call gives the mutex back before returning. */
    method DoneReleasing()
      requires Valid() && CanDone(State())
      modifies this, syncmutex.s
      ensures Valid() && State() == AfterDone(old(State()), true)
    {
      var _ := syncmutex.Enter();
      if !inUse || cnt < 1 {
        var _ := syncmutex.Leave();
        return;
      }
      if cnt == 1 {
        csync := csync + 1;
      }
      cnt := cnt - 1;
      var _ := syncmutex.Leave();
    }

    /** Wait: receive from csync. */
    method Wait()
      requires Valid() && CanSyncWait(State())
      modifies this
      ensures Valid() && State() == AfterSyncWait(old(State()))
    {
      csync := csync - 1;
    }
  }
}
