/** The broadcast (fan-out) queue.

    A QU owns a registry from instance ids to subscriber queues. Fanout writes
    one item into every subscriber's own ring buffer; each subscriber reads its
    items back in order with Read. A subscriber's buffer is guarded by two
    semaphores: SemW counts free slots and SemR filled ones. */
module Queue {
  import opened Semaphore
  import RingBuffer

  /** One subscriber: its slot array, write cursor, read cursor and semaphores. */
  class SubQueue {
    const queue: array<int>
    const size: int
    const instance: int
    const semW: Sem
    const semR: Sem
    var head: int
    var tail: int

    /** every item Fanout has written into this subscriber, in order */
    ghost var Delivered: seq<int>
    /** every item Read has returned, in order */
    ghost var Taken: seq<int>
    ghost const Repr: set<object>

    /** The ring buffer as a value; SemR's count is the number of filled slots. */
    ghost function Ring(): RingBuffer.Ring
      reads this, queue, semR
    {
      RingBuffer.Ring(queue[..], head, tail, semR.tokens)
    }

    /** SemR + SemW == Size, cursors in [0, Size), Head - Tail agrees with
        SemR modulo Size, and FIFO: what was delivered is what was taken
        followed by what is still buffered. */
    ghost predicate Valid()
      reads this, Repr
      ensures Valid() ==> this in Repr
    {
      Repr == {this, queue, semW, semR} && semW != semR &&
      queue.Length == size &&
      semW.Valid() && semR.Valid() && semW.valid && semR.valid &&
      semW.capacity == size && semR.capacity == size &&
      RingBuffer.Valid(Ring()) &&
      semR.tokens + semW.tokens == size &&
      Delivered == Taken + RingBuffer.Contents(Ring())
    }

    /** The items buffered for this subscriber, oldest first. */
    ghost function Contents(): seq<int>
      reads this, Repr
      requires Valid()
    {
      RingBuffer.Contents(Ring())
    }

    /** The subscriber record that Subscribe builds: a zeroed slot array, both
        cursors at 0, SemW full and SemR empty. */
    constructor (size: int, instance: int)
      requires size > 0
      ensures Valid() && fresh(Repr)
      ensures this.size == size && this.instance == instance && head == 0 && tail == 0
      ensures semW.State() == Created(size, size) && semR.State() == Created(size, 0)
      ensures semW.tokens == size && semR.tokens == 0
      ensures Delivered == [] && Taken == [] && Contents() == []
    {
      this.size := size;
      this.instance := instance;
      queue := new int[size](_ => 0);
      head, tail := 0, 0;
      var w := Sem.Csem(size, size);
      var r := Sem.Csem(size, 0);
      semW, semR := w, r;
      Delivered, Taken := [], [];
      Repr := {this, queue, w, r};
    }

    /** Read: wait for a filled slot, take the item at the read cursor together
        with the cursor, advance the cursor and free the slot. */
    method Read() returns (item: int, index: int)
      requires Valid() && semR.tokens > 0
      modifies this, semR, semW
      ensures Valid()
      ensures Taken == old(Taken) + [item] && Delivered == old(Delivered)
      ensures item == old(Contents())[0] && item == Delivered[|old(Taken)|]
      ensures index == old(tail) && item == queue[index]
      ensures Contents() == old(Contents())[1..]
      ensures tail == (old(tail) + 1) % size && head == old(head)
      ensures semR.tokens == old(semR.tokens) - 1 && semW.tokens == old(semW.tokens) + 1
    {
      ghost var before := Ring();
      var _ := semR.Wait();
      item, index := queue[tail], tail;
      tail := (tail + 1) % size;
      var _ := semW.Signal();
      Taken := Taken + [item];
      assert Ring() == RingBuffer.Read(before).2;
    }

    /** Next: advance the read cursor, without touching the semaphores. It
        needs only a positive size and a cursor that is not negative, so it can
        be called again and again; but on a valid subscriber of more than one
        slot it breaks the agreement between the cursors and SemR. */
    method Next()
      requires size > 0 && 0 <= tail
      modifies this
      ensures tail == (old(tail) + 1) % size && 0 <= tail < size && head == old(head)
      ensures Delivered == old(Delivered) && Taken == old(Taken)
      ensures old(Valid()) && size > 1 ==> !RingBuffer.Valid(Ring())
    {
      if Valid() {
        ghost var n := semR.tokens;
        RingBuffer.ModOnce(tail + 1, size);
        RingBuffer.ModOnce(tail + n, size);
        RingBuffer.ModOnce((tail + 1) % size + n, size);
      }
      tail := (tail + 1) % size;
    }

    /** GetIndex: the read cursor, in any state. On a valid subscriber it is
        the slot of the oldest buffered item, the one the next Read returns. */
    method GetIndex() returns (index: int)
      ensures index == tail
      ensures Valid() ==> 0 <= index < size
      ensures Valid() && semR.tokens > 0 ==> queue[index] == Contents()[0]
    {
      index := tail;
    }

    /** The body of Fanout's loop for this subscriber: wait for a free slot,
        store the item at the write cursor, advance it, signal a filled slot. */
    method Deliver(item: int)
      requires Valid() && semW.tokens > 0
      modifies Repr
      ensures Valid()
      ensures queue[old(head)] == item
      ensures head == (old(head) + 1) % size && tail == old(tail)
      ensures semW.tokens == old(semW.tokens) - 1 && semR.tokens == old(semR.tokens) + 1
      ensures Contents() == old(Contents()) + [item]
      ensures Delivered == old(Delivered) + [item] && Taken == old(Taken)
    {
      ghost var before := Ring();
      var _ := semW.Wait();
      queue[head] := item;
      head := (head + 1) % size;
      var _ := semR.Signal();
      Delivered := Delivered + [item];
      assert Ring() == RingBuffer.Write(before, item);
    }
  }

  /** The registry of subscribers. */
  class QU {
    var consmap: map<int, SubQueue>
    var cinstance: int
    const size: int
    ghost var Repr: set<object>

    /** Every entry is a valid subscriber of the registry's size, keyed by its
        own instance id, below cinstance, and no two entries share an object. */
    ghost predicate Valid()
      reads this, Repr
      ensures Valid() ==> this in Repr
    {
      this in Repr && size > 0 && 0 <= cinstance &&
      (forall k :: k in consmap ==>
        0 <= k < cinstance &&
        consmap[k] in Repr && consmap[k].Repr <= Repr && this !in consmap[k].Repr &&
        consmap[k].instance == k && consmap[k].size == size && consmap[k].Valid()) &&
      (forall j, k :: j in consmap && k in consmap && j != k ==> consmap[j].Repr !! consmap[k].Repr)
    }

    /** InitQueue: an empty registry whose subscribers will have `size` slots. */
    constructor InitQueue(size: int)
      requires size > 0
      ensures Valid() && fresh(Repr)
      ensures consmap == map[] && cinstance == 0 && this.size == size
    {
      consmap := map[];
      cinstance := 0;
      this.size := size;
      Repr := {this};
    }

    /** Subscribe: register a new subscriber under the next instance id. */
    method Subscribe() returns (sq: SubQueue)
      requires Valid()
      modifies this
      ensures Valid() && fresh(sq.Repr) && Repr == old(Repr) + sq.Repr
      ensures old(cinstance) !in old(consmap)
      ensures consmap == old(consmap)[old(cinstance) := sq] && cinstance == old(cinstance) + 1
      ensures sq.instance == old(cinstance) && sq.size == size && sq.head == 0 && sq.tail == 0
      ensures sq.semW.State() == Created(size, size) && sq.semR.State() == Created(size, 0)
      ensures sq.semW.tokens == size && sq.semR.tokens == 0
      ensures sq.Delivered == [] && sq.Taken == []
    {
      sq := new SubQueue(size, cinstance);
      consmap := consmap[cinstance := sq];
      cinstance := cinstance + 1;
      Repr := Repr + sq.Repr;
    }

    /** Close: unregister the entry with the subscriber's instance id. */
    method Close(sq: SubQueue)
      requires Valid()
      modifies this
      ensures Valid() && Repr == old(Repr) && cinstance == old(cinstance)
      ensures consmap == old(consmap) - {sq.instance}
    {
      consmap := consmap - {sq.instance};
    }

    /** The per-subscriber state Fanout touches, by instance id. */
    ghost function Snaps(): map<int, Snapshot>
      reads this, set j | j in consmap :: consmap[j], set j | j in consmap :: consmap[j].semW
    {
      map j | j in consmap :: Snap(consmap[j])
    }

    /** One step of Fanout: deliver the item to entry k; every other entry
        keeps its items, cursors and free-slot count. */
    method DeliverAt(k: int, item: int)
      requires Valid() && k in consmap && consmap[k].semW.tokens > 0
      modifies consmap[k].Repr
      ensures Valid() && consmap == old(consmap) && cinstance == old(cinstance)
      ensures Snaps() == old(Snaps())[k := Bumped(old(Snaps())[k], item, size)]
    {
      var sq := consmap[k];
      assert forall j :: j in consmap && j != k ==> consmap[j].Repr !! sq.Repr;
      label before:
      sq.Deliver(item);
      forall j | j in consmap && j != k
        ensures consmap[j].Valid() && Snap(consmap[j]) == old(Snap(consmap[j]))
      {
        Untouched@before(consmap[j]);
      }
      UpdateAt(old(Snaps()), Snaps(), k, Bumped(old(Snaps())[k], item, size));
    }

    /** Fanout: deliver the item to the entries 0 .. n-1 in turn; afterwards
        every subscriber has the item appended to what it was delivered, its
        write cursor advanced and one free slot fewer, its read side untouched. */
    method Fanout(item: int)
      requires Valid()
      requires forall k :: k in consmap <==> 0 <= k < |consmap|
      requires forall k :: k in consmap ==> consmap[k].semW.tokens > 0
      modifies set k, o | k in consmap && o in consmap[k].Repr :: o
      ensures Valid() && Repr == old(Repr)
      ensures consmap == old(consmap) && cinstance == old(cinstance)
      ensures forall k :: k in consmap ==> Snap(consmap[k]) == Bumped(old(Snap(consmap[k])), item, size)
    {
      ghost var snap := Snaps();
      var k := 0;
      while k < |consmap|
        invariant 0 <= k <= |consmap|
        invariant Valid() && Repr == old(Repr)
        invariant consmap == old(consmap) && cinstance == old(cinstance)
        invariant Snaps() == Progress(snap, k, item, size)
      {
        assert Snaps()[k] == snap[k];
        ProgressStep(snap, k, item, size);
        DeliverAt(k, item);
        k := k + 1;
      }
      forall j | j in consmap
        ensures Snap(consmap[j]) == Bumped(old(Snap(consmap[j])), item, size)
      {
        assert Snaps()[j] == Progress(snap, k, item, size)[j];
      }
    }

    /** The broadcaster's loop: publish the items one after another. Every
        subscriber present throughout receives all of them, in order. */
    method Broadcast(items: seq<int>)
      requires Valid()
      requires forall k :: k in consmap <==> 0 <= k < |consmap|
      requires forall k :: k in consmap ==> consmap[k].semW.tokens >= |items|
      modifies set k, o | k in consmap && o in consmap[k].Repr :: o
      ensures Valid() && Repr == old(Repr)
      ensures consmap == old(consmap) && cinstance == old(cinstance)
      ensures forall k :: k in consmap ==> Snap(consmap[k]) == BumpedAll(old(Snap(consmap[k])), items, size)
      ensures forall k :: k in consmap ==>
        Snap(consmap[k]).delivered == old(Snap(consmap[k])).delivered + items &&
        Snap(consmap[k]).taken == old(Snap(consmap[k])).taken
    {
      ghost var snap := Snaps();
      var i := 0;
      while i < |items|
        invariant 0 <= i <= |items|
        invariant Valid() && Repr == old(Repr)
        invariant consmap == old(consmap) && cinstance == old(cinstance)
        invariant forall k :: k in consmap ==> Snap(consmap[k]) == BumpedAll(snap[k], items[..i], size)
        invariant forall k :: k in consmap ==> consmap[k].semW.tokens >= |items| - i
      {
        Fanout(items[i]);
        assert items[..i + 1][..i] == items[..i];
        i := i + 1;
      }
      assert items[..i] == items;
    }
  }

  /** A subscriber none of whose objects changed is still valid and has the
      same items, cursors and free-slot count. */
  twostate lemma Untouched(sq: SubQueue)
    requires old(sq.Valid()) && unchanged(sq.Repr)
    ensures sq.Valid() && Snap(sq) == old(Snap(sq))
  {
  }

  /** What Fanout changes in one subscriber. */
  datatype Snapshot = Snapshot(delivered: seq<int>, taken: seq<int>, head: int, tail: int, free: int)

  ghost function Snap(sq: SubQueue): Snapshot
    reads sq, sq.semW
  {
    Snapshot(sq.Delivered, sq.Taken, sq.head, sq.tail, sq.semW.tokens)
  }

  /** A subscriber's state after one more item is written into it. */
  function Bumped(s: Snapshot, item: int, size: int): Snapshot
    requires size > 0
  {
    Snapshot(s.delivered + [item], s.taken, (s.head + 1) % size, s.tail, s.free - 1)
  }

  /** A subscriber's state after the items are written into it, oldest first. */
  function BumpedAll(s: Snapshot, items: seq<int>, size: int): (r: Snapshot)
    requires size > 0
    ensures r.delivered == s.delivered + items && r.taken == s.taken && r.tail == s.tail
    ensures r.free == s.free - |items|
  {
    if |items| == 0 then assert s.delivered + items == s.delivered; s
    else
      var init := items[..|items| - 1];
      assert (s.delivered + init) + [items[|items| - 1]] == s.delivered + items;
      Bumped(BumpedAll(s, init, size), items[|items| - 1], size)
  }

  /** Writing the items one by one appends them all to what was delivered,
      advances the (reduced) write cursor by their number modulo the size and
      takes as many free slots; the read side is untouched. */
  lemma {:induction false} BumpedAllAppends(s: Snapshot, items: seq<int>, size: int)
    requires 0 <= s.head < size
    ensures BumpedAll(s, items, size) ==
      Snapshot(s.delivered + items, s.taken, (s.head + |items|) % size, s.tail, s.free - |items|)
  {
    if |items| == 0 {
      ModUnique(s.head, size, 0, s.head);
      assert s.delivered + items == s.delivered;
    } else {
      var init := items[..|items| - 1];
      BumpedAllAppends(s, init, size);
      assert (s.delivered + init) + [items[|items| - 1]] == s.delivered + items;
      ModSucc(s.head + |init|, size);
      assert BumpedAll(s, items, size) == Bumped(BumpedAll(s, init, size), items[|items| - 1], size);
    }
  }

  /** Advancing a cursor that is already reduced is the same as reducing once. */
  lemma ModSucc(a: int, n: int)
    requires n > 0
    ensures (a % n + 1) % n == (a + 1) % n
  {
    var q, r := a / n, a % n;
    if r + 1 < n {
      ModUnique(r + 1, n, 0, r + 1);
      ModUnique(a + 1, n, q, r + 1);
    } else {
      ModUnique(r + 1, n, 1, 0);
      ModUnique(a + 1, n, q + 1, 0);
    }
  }

  /** The remainder is the unique r in [0, n) with a == n * q + r. */
  lemma ModUnique(a: int, n: int, q: int, r: int)
    requires n > 0 && 0 <= r < n && a == n * q + r
    ensures a % n == r
  {
    var q' := a / n;
    if q' > q {
      MulAtLeast(n, q' - q);
      assert false;
    } else if q' < q {
      MulAtLeast(n, q - q');
      assert false;
    }
  }

  lemma MulAtLeast(n: int, d: int)
    requires n > 0 && d >= 1
    ensures n * d >= n
  {
    if d > 1 {
      MulAtLeast(n, d - 1);
      assert n * d == n * (d - 1) + n;
    }
  }

  /** The registry's state after Fanout has served the entries below k. */
  function Progress(s: map<int, Snapshot>, k: int, item: int, size: int): map<int, Snapshot>
    requires size > 0
  {
    map j | j in s :: if j < k then Bumped(s[j], item, size) else s[j]
  }

  /** Serving entry k moves Fanout's progress from k to k + 1. */
  lemma ProgressStep(s: map<int, Snapshot>, k: int, item: int, size: int)
    requires size > 0 && k in s
    ensures Progress(s, k + 1, item, size) ==
      Progress(s, k, item, size)[k := Bumped(Progress(s, k, item, size)[k], item, size)]
  {
    var p := Progress(s, k, item, size);
    assert Progress(s, k + 1, item, size).Keys == p[k := Bumped(p[k], item, size)].Keys;
  }

  /** A map that differs from m at most at key k, where it holds v, is m[k := v]. */
  lemma UpdateAt(m: map<int, Snapshot>, m': map<int, Snapshot>, k: int, v: Snapshot)
    requires m'.Keys == m.Keys && k in m' && m'[k] == v
    requires forall j :: j in m' && j != k ==> m'[j] == m[j]
    ensures m' == m[k := v]
  {
    assert m'.Keys == m[k := v].Keys;
    forall j | j in m'
      ensures m'[j] == m[k := v][j]
    {
    }
  }
}
