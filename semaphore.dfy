/** Counting semaphores and mutexes of the gosem package.

    A semaphore is a Go buffered channel of unit tokens with a fixed capacity: a
    receive takes a token and blocks on an empty channel, a send adds one and
    blocks on a full channel. The model keeps the number of buffered tokens as a
    counter. The channel is closed exactly when `valid` is false, since Close is
    the only operation that changes either. Blocking is modelled as an enabling
    condition (a `requires` clause) on otherwise sequential operations. */
module Semaphore {
  import opened Wrappers

  // ---------------------------------------------------------------------------
  // Abstract state and its transitions
  // ---------------------------------------------------------------------------

  /** capacity: buffer size of the channel; tokens: values buffered in it;
      ic: the initial count that Reset refills to; valid: false once closed. */
  datatype SemState = SemState(capacity: int, tokens: int, ic: int, valid: bool)

  /** The bounds every reachable semaphore state keeps. */
  predicate Inv(s: SemState) {
    1 <= s.capacity && 0 <= s.ic <= s.capacity && 0 <= s.tokens <= s.capacity
  }

  /** State built by Createsem (and Csem): capacity clamped to at least 1, initial
      count clamped into [0, capacity], that many tokens pre-filled. */
  function Created(capacity: int, ic: int): (s: SemState)
    ensures Inv(s) && s.valid && s.tokens == s.ic
    ensures capacity >= 1 ==> s.capacity == capacity
    ensures capacity < 1 ==> s.capacity == 1
    ensures 0 <= ic <= s.capacity ==> s.ic == ic
    ensures ic < 0 ==> s.ic == 0
    ensures ic > s.capacity ==> s.ic == s.capacity
  {
    var c := if capacity <= 0 then 1 else capacity;
    var n := if ic < 0 then 0 else ic;
    var n' := if n > c then c else n;
    SemState(c, n', n', true)
  }

  /** A receive does not block when a token is buffered, or when the channel is
      closed (a receive on a closed, drained channel returns at once). */
  predicate CanWait(s: SemState) {
    s.tokens > 0 || !s.valid
  }

  /** Wait/P: take a buffered token if there is one; otherwise (closed) nothing changes. */
  function AfterWait(s: SemState): (t: SemState)
    requires Inv(s) && CanWait(s)
    ensures Inv(t)
    ensures t.capacity == s.capacity && t.ic == s.ic && t.valid == s.valid
    ensures s.tokens > 0 ==> t.tokens == s.tokens - 1
    ensures s.tokens == 0 ==> t == s
  {
    if s.tokens > 0 then s.(tokens := s.tokens - 1) else s
  }

  /** A send blocks on a full channel and panics on a closed one. */
  predicate CanSignal(s: SemState) {
    s.valid && s.tokens < s.capacity
  }

  /** Signal/V: one more buffered token. */
  function AfterSignal(s: SemState): (t: SemState)
    requires Inv(s) && CanSignal(s)
    ensures Inv(t) && t.tokens == s.tokens + 1
    ensures t.capacity == s.capacity && t.ic == s.ic && t.valid == s.valid
  {
    s.(tokens := s.tokens + 1)
  }

  /** _flushChannel: receive until the channel is empty. */
  function AfterFlush(s: SemState): (t: SemState)
    requires Inv(s) && s.valid
    ensures Inv(t) && t.tokens == 0
    ensures t.capacity == s.capacity && t.ic == s.ic && t.valid
  {
    s.(tokens := 0)
  }

  /** n consecutive sends on an open channel that has room for them. */
  function AfterFill(s: SemState, n: int): (t: SemState)
    requires Inv(s) && s.valid && 0 <= n && s.tokens + n <= s.capacity
    ensures Inv(t) && t.tokens == s.tokens + n
    ensures t.capacity == s.capacity && t.ic == s.ic && t.valid
  {
    s.(tokens := s.tokens + n)
  }

  /** Reset: flush, then refill with the initial count. */
  function AfterReset(s: SemState): (t: SemState)
    requires Inv(s) && s.valid
    ensures Inv(t) && t.tokens == s.ic
    ensures t.capacity == s.capacity && t.ic == s.ic && t.valid
  {
    AfterFill(AfterFlush(s), s.ic)
  }

  /** Mutex.Reset: flush, then put back exactly one token. */
  function AfterMutexReset(s: SemState): (t: SemState)
    requires Inv(s) && s.valid
    ensures Inv(t) && t.tokens == 1
    ensures t.capacity == s.capacity && t.ic == s.ic && t.valid
  {
    AfterFill(AfterFlush(s), 1)
  }

  /** Close: a valid semaphore becomes invalid; an invalid one is left alone. */
  function AfterClose(s: SemState): (t: SemState)
    requires Inv(s)
    ensures Inv(t) && !t.valid
    ensures t.capacity == s.capacity && t.ic == s.ic && t.tokens == s.tokens
  {
    if s.valid then s.(valid := false) else s
  }

  // ---------------------------------------------------------------------------
  // Properties of the transitions
  // ---------------------------------------------------------------------------

  /** Enter followed by Leave (Wait then Signal) restores the state exactly. */
  lemma WaitThenSignal(s: SemState)
    requires Inv(s) && s.valid && s.tokens > 0
    ensures CanSignal(AfterWait(s)) && AfterSignal(AfterWait(s)) == s
  {
  }

  /** Signal followed by Wait restores the state exactly. */
  lemma SignalThenWait(s: SemState)
    requires Inv(s) && CanSignal(s)
    ensures CanWait(AfterSignal(s)) && AfterWait(AfterSignal(s)) == s
  {
  }

  /** A second Close changes nothing. */
  lemma CloseIdempotent(s: SemState)
    requires Inv(s)
    ensures AfterClose(AfterClose(s)) == AfterClose(s)
  {
  }

  /** After Close no Wait blocks: it reports false, consumes a leftover token if
      there is one and otherwise changes nothing. */
  lemma WaitAfterClose(s: SemState)
    requires Inv(s)
    ensures CanWait(AfterClose(s))
    ensures !AfterWait(AfterClose(s)).valid
    ensures s.tokens > 0 ==> AfterWait(AfterClose(s)).tokens == s.tokens - 1
    ensures s.tokens == 0 ==> AfterWait(AfterClose(s)) == AfterClose(s)
  {
  }

  /** Reset forgets the prior token count: two states that differ only in their
      tokens reset to the same state, and resetting a fresh semaphore is a no-op. */
  lemma ResetForgetsTokens(s: SemState, k: int)
    requires Inv(s) && s.valid && 0 <= k <= s.capacity
    ensures AfterReset(s.(tokens := k)) == AfterReset(s)
    ensures AfterReset(Created(s.capacity, s.ic)) == Created(s.capacity, s.ic)
  {
  }

  /** On a mutex (initial count 1) the mutex reset and the semaphore reset agree. */
  lemma MutexResetIsReset(s: SemState)
    requires Inv(s) && s.valid && s.ic == 1
    ensures AfterMutexReset(s) == AfterReset(s)
  {
  }

  // ---------------------------------------------------------------------------
  // Runs of acquire and release calls
  // ---------------------------------------------------------------------------

  /** One call of a run: Wait/P/Enter or Signal/V/Leave. */
  datatype SemOp = Acquire | Release

  function Delta(op: SemOp): int {
    if op == Release then 1 else -1
  }

  /** Releases minus acquires. */
  function Balance(ops: seq<SemOp>): int {
    if ops == [] then 0 else Delta(ops[0]) + Balance(ops[1..])
  }

  /** Performs ops one after another; None when some call would block. */
  function Run(s: SemState, ops: seq<SemOp>): Option<SemState>
    requires Inv(s)
    decreases |ops|
  {
    if ops == [] then Some(s)
    else match ops[0]
      case Acquire => if CanWait(s) then Run(AfterWait(s), ops[1..]) else None
      case Release => if CanSignal(s) then Run(AfterSignal(s), ops[1..]) else None
  }

  /** Every prefix of ops leaves the token count within [0, capacity]. */
  ghost predicate WithinBounds(s: SemState, ops: seq<SemOp>) {
    forall i :: 0 <= i <= |ops| ==> 0 <= s.tokens + Balance(ops[..i]) <= s.capacity
  }

  lemma {:induction false} WithinBoundsUnfold(s: SemState, ops: seq<SemOp>)
    requires ops != []
    ensures WithinBounds(s, ops) <==>
      (0 <= s.tokens && s.tokens <= s.capacity &&
       WithinBounds(s.(tokens := s.tokens + Delta(ops[0])), ops[1..]))
  {
    var s' := s.(tokens := s.tokens + Delta(ops[0]));
    forall i | 0 <= i < |ops|
      ensures Balance(ops[..i + 1]) == Delta(ops[0]) + Balance(ops[1..][..i])
    {
      assert ops[..i + 1][1..] == ops[1..][..i];
    }
    if WithinBounds(s, ops) {
      assert ops[..0] == [];
      forall i | 0 <= i <= |ops[1..]|
        ensures 0 <= s'.tokens + Balance(ops[1..][..i]) <= s'.capacity
      {
        assert 0 <= s.tokens + Balance(ops[..i + 1]) <= s.capacity;
      }
    }
    if 0 <= s.tokens <= s.capacity && WithinBounds(s', ops[1..]) {
      forall i | 0 <= i <= |ops|
        ensures 0 <= s.tokens + Balance(ops[..i]) <= s.capacity
      {
        if i == 0 {
          assert ops[..0] == [];
        } else {
          assert 0 <= s'.tokens + Balance(ops[1..][..i - 1]) <= s'.capacity;
        }
      }
    }
  }

  /** On an open semaphore a run of calls never blocks exactly when the count
      between calls stays within [0, capacity], and it then ends with the count
      moved by the balance of releases over acquires. */
  lemma {:induction false} RunIffWithinBounds(s: SemState, ops: seq<SemOp>)
    requires Inv(s) && s.valid
    ensures Run(s, ops).Some? <==> WithinBounds(s, ops)
    ensures Run(s, ops).Some? ==> Run(s, ops).value == s.(tokens := s.tokens + Balance(ops))
    decreases |ops|
  {
    if ops == [] {
      assert ops[..0] == [];
    } else {
      WithinBoundsUnfold(s, ops);
      var s' := s.(tokens := s.tokens + Delta(ops[0]));
      if 0 <= s'.tokens <= s'.capacity {
        assert Inv(s');
        RunIffWithinBounds(s', ops[1..]);
      } else {
        assert ops[..1] == [ops[0]];
        assert !(0 <= s.tokens + Balance(ops[..1]) <= s.capacity);
      }
    }
  }

  /** Running a + b is running a, then b from where a stopped. */
  lemma {:induction false} RunAppend(s: SemState, a: seq<SemOp>, b: seq<SemOp>)
    requires Inv(s)
    ensures Run(s, a).Some? ==> Inv(Run(s, a).value)
    ensures Run(s, a + b) == if Run(s, a).Some? then Run(Run(s, a).value, b) else None
    decreases |a|
  {
    if a == [] {
      assert a + b == b;
    } else {
      assert (a + b)[0] == a[0] && (a + b)[1..] == a[1..] + b;
      if a[0] == Acquire && CanWait(s) {
        RunAppend(AfterWait(s), a[1..], b);
      } else if a[0] == Release && CanSignal(s) {
        RunAppend(AfterSignal(s), a[1..], b);
      }
    }
  }

  /** n releases on an open semaphore succeed exactly when n tokens fit. */
  lemma {:induction false} RunReleases(s: SemState, n: nat)
    requires Inv(s) && s.valid
    ensures Run(s, Repeat(Release, n)) ==
      if s.tokens + n <= s.capacity then Some(s.(tokens := s.tokens + n)) else None
    decreases n
  {
    if n > 0 && s.tokens < s.capacity {
      RunReleases(AfterSignal(s), n - 1);
    }
  }

  /** n acquires on an open semaphore succeed exactly when n tokens are buffered. */
  lemma {:induction false} RunAcquires(s: SemState, n: nat)
    requires Inv(s) && s.valid
    ensures Run(s, Repeat(Acquire, n)) ==
      if n <= s.tokens then Some(s.(tokens := s.tokens - n)) else None
    decreases n
  {
    if n > 0 && s.tokens > 0 {
      RunAcquires(AfterWait(s), n - 1);
    }
  }

  /** A fresh semaphore with no initial tokens: after n releases (n up to the
      capacity) n acquires go through and bring it back to its initial state,
      while one acquire more blocks until one more release. */
  lemma ReleasesThenAcquires(capacity: int, n: nat)
    requires 1 <= capacity && n <= capacity
    ensures Run(Created(capacity, 0), Repeat(Release, n) + Repeat(Acquire, n)) == Some(Created(capacity, 0))
    ensures Run(Created(capacity, 0), Repeat(Release, n) + Repeat(Acquire, n + 1)) == None
    ensures Run(Created(capacity, 0), Repeat(Release, n) + Repeat(Acquire, n) + [Release, Acquire]) ==
      Some(Created(capacity, 0))
  {
    var s := Created(capacity, 0);
    RunAppend(s, Repeat(Release, n) + Repeat(Acquire, n), [Release, Acquire]);
    RunReleases(s, n);
    RunAppend(s, Repeat(Release, n), Repeat(Acquire, n));
    RunAppend(s, Repeat(Release, n), Repeat(Acquire, n + 1));
    RunAcquires(s.(tokens := n), n);
    RunAcquires(s.(tokens := n), n + 1);
  }

  // ---------------------------------------------------------------------------
  // The semaphore object
  // ---------------------------------------------------------------------------

  class Sem {
    const capacity: int
    const ic: int
    /** the number of unit values buffered in the channel `sch` */
    var tokens: int
    var valid: bool

    function State(): SemState
      reads this
    {
      SemState(capacity, tokens, ic, valid)
    }

    ghost predicate Valid()
      reads this
    {
      Inv(State())
    }

    /** Createsem: clamp the arguments, then send ic tokens one at a time. */
    constructor Createsem(capacity: int, ic: int)
      ensures Valid() && State() == Created(capacity, ic)
    {
      var c, n := capacity, ic;
      if c <= 0 {
        c := 1;
      }
      if n < 0 {
        n := 0;
      }
      if n > c {
        n := c;
      }
      this.capacity := c;
      this.ic := n;
      tokens := 0;
      valid := true;
      new;
      Fill(n);
    }

    /** Csem: the same constructor under its name in the second semaphore package. */
    static method Csem(capacity: int, ic: int) returns (s: Sem)
      ensures fresh(s) && s.Valid() && s.State() == Created(capacity, ic)
    {
      s := new Sem.Createsem(capacity, ic);
    }

    /** A semaphore that starts with no tokens. */
    static method CreateReadSemaphore(capacity: int) returns (s: Sem)
      ensures fresh(s) && s.Valid() && s.State() == Created(capacity, 0)
      ensures s.tokens == 0
    {
      s := new Sem.Createsem(capacity, 0);
    }

    /** A semaphore that starts full; a non-positive capacity gives capacity 1
        and no tokens, because the initial count is clamped to 0 first. */
    static method CreateWriteSemaphore(capacity: int) returns (s: Sem)
      ensures fresh(s) && s.Valid() && s.State() == Created(capacity, capacity)
      ensures capacity >= 1 ==> s.capacity == capacity && s.tokens == capacity
      ensures capacity < 1 ==> s.capacity == 1 && s.tokens == 0
    {
      s := new Sem.Createsem(capacity, capacity);
    }

    /** The refill loop: n sends, none of which blocks. */
    method Fill(n: int)
      requires Valid() && valid && 0 <= n && tokens + n <= capacity
      modifies this
      ensures Valid() && State() == AfterFill(old(State()), n)
    {
      var i := 0;
      while i < n
        invariant 0 <= i <= n
        invariant tokens == old(tokens) + i && valid
      {
        tokens := tokens + 1;
        i := i + 1;
      }
    }

    /** Close: flip valid (and close the channel) only the first time. */
    method Close()
      requires Valid()
      modifies this
      ensures Valid() && State() == AfterClose(old(State()))
    {
      if valid {
        valid := false;
      }
    }

    /** _flushChannel: receive while a token is buffered, return at the first
        empty select. On a closed channel the receive is always ready and the
        loop never ends, hence `requires valid`. */
    method FlushChannel()
      requires Valid() && valid
      modifies this
      ensures Valid() && State() == AfterFlush(old(State()))
    {
      while true
        invariant Valid() && valid
        decreases tokens
      {
        if tokens > 0 {
          tokens := tokens - 1;
        } else {
          return;
        }
      }
    }

    /** Reset: drain the pool, then refill it with the initial count. */
    method Reset()
      requires Valid() && valid
      modifies this
      ensures Valid() && State() == AfterReset(old(State()))
    {
      FlushChannel();
      Fill(ic);
    }

    /** Signal: send one token; report validity. */
    method Signal() returns (r: bool)
      requires Valid() && CanSignal(State())
      modifies this
      ensures Valid() && State() == AfterSignal(old(State())) && r == valid
    {
      tokens := tokens + 1;
      r := valid;
    }

    /** V is a synonym of Signal. */
    method V() returns (r: bool)
      requires Valid() && CanSignal(State())
      modifies this
      ensures Valid() && State() == AfterSignal(old(State())) && r == valid
    {
      r := Signal();
    }

    /** Wait: receive one token (or the zero value of a closed, drained channel);
        report validity. */
    method Wait() returns (r: bool)
      requires Valid() && CanWait(State())
      modifies this
      ensures Valid() && State() == AfterWait(old(State())) && r == valid
    {
      if tokens > 0 {
        tokens := tokens - 1;
      }
      r := valid;
    }

    /** P is a synonym of Wait. */
    method P() returns (r: bool)
      requires Valid() && CanWait(State())
      modifies this
      ensures Valid() && State() == AfterWait(old(State())) && r == valid
    {
      r := Wait();
    }
  }

  // ---------------------------------------------------------------------------
  // The mutex object
  // ---------------------------------------------------------------------------

  /** A mutex is a semaphore of capacity 1 and initial count 1. */
  class Mutex {
    const s: Sem

    ghost predicate Valid()
      reads this, s
    {
      s.Valid() && s.capacity == 1 && s.ic == 1
    }

    constructor Createmutex()
      ensures Valid() && fresh(s) && s.State() == Created(1, 1)
      ensures s.tokens == 1 && s.valid
    {
      s := new Sem.Createsem(1, 1);
    }

    /** Cmutex: the same constructor under its name in the second semaphore package. */
    static method Cmutex() returns (m: Mutex)
      ensures fresh(m) && fresh(m.s) && m.Valid() && m.s.State() == Created(1, 1)
    {
      m := new Mutex.Createmutex();
    }

    /** Enter: Wait on the inner semaphore. */
    method Enter() returns (r: bool)
      requires Valid() && CanWait(s.State())
      modifies s
      ensures Valid() && s.State() == AfterWait(old(s.State())) && r == s.valid
    {
      r := s.Wait();
    }

    /** Leave: Signal on the inner semaphore. */
    method Leave() returns (r: bool)
      requires Valid() && CanSignal(s.State())
      modifies s
      ensures Valid() && s.State() == AfterSignal(old(s.State())) && r == s.valid
    {
      r := s.Signal();
    }

    /** Close: close the inner semaphore, once. */
    method Close()
      requires Valid()
      modifies s
      ensures Valid() && s.State() == AfterClose(old(s.State()))
    {
      s.Close();
    }

    /** Reset: drain the inner channel, then send exactly one token. */
    method Reset()
      requires Valid() && s.valid
      modifies s
      ensures Valid() && s.State() == AfterMutexReset(old(s.State()))
      ensures s.tokens == 1
    {
      s.FlushChannel();
      s.Fill(1);
    }
  }
}
