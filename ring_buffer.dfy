/** The per-subscriber ring buffer of the broadcast queue, as a value.

    A subscriber owns a fixed-size slot array, a write cursor `head` (advanced by
    Fanout), a read cursor `tail` (advanced by Read), both taken modulo the size,
    and two semaphores: SemR counts filled slots and SemW free ones. `filled`
    below is the SemR count; the SemW count is the size minus it. */
module RingBuffer {
  import opened Wrappers

  datatype Ring = Ring(buf: seq<int>, head: int, tail: int, filled: int)

  /** The cursors lie in [0, size), the filled count in [0, size], and the write
      cursor is exactly `filled` slots after the read cursor. */
  predicate Valid(r: Ring) {
    |r.buf| > 0 && 0 <= r.tail < |r.buf| && 0 <= r.filled <= |r.buf| &&
    r.head == (r.tail + r.filled) % |r.buf|
  }

  /** The n slots of buf that start at index `from` and wrap around. */
  function Items(buf: seq<int>, from: int, n: nat): (s: seq<int>)
    requires 0 <= from < |buf|
    ensures |s| == n
    decreases n
  {
    if n == 0 then [] else [buf[from]] + Items(buf, (from + 1) % |buf|, n - 1)
  }

  /** The items buffered for the subscriber, oldest first. */
  function Contents(r: Ring): seq<int>
    requires Valid(r)
  {
    Items(r.buf, r.tail, r.filled)
  }

  lemma ModOnce(a: int, n: int)
    requires n > 0 && 0 <= a < 2 * n
    ensures a % n == if a < n then a else a - n
  {
  }

  /** Writing x just past the buffered window extends the window by x. */
  lemma {:induction false} ItemsWrite(buf: seq<int>, t: int, n: int, x: int)
    requires 0 <= t < |buf| && 0 <= n < |buf|
    ensures Items(buf[(t + n) % |buf| := x], t, n + 1) == Items(buf, t, n) + [x]
    decreases n
  {
    var size := |buf|;
    var h := (t + n) % size;
    var b := buf[h := x];
    ModOnce(t + n, size);
    if n == 0 {
      assert h == t;
      assert Items(b, t, 1) == [b[t]] + Items(b, (t + 1) % size, 0);
    } else {
      var t' := (t + 1) % size;
      ModOnce(t + 1, size);
      ModOnce(t' + (n - 1), size);
      assert (t' + (n - 1)) % size == h;
      ItemsWrite(buf, t', n - 1, x);
      assert t != h;
      calc {
        Items(b, t, n + 1);
        [b[t]] + Items(b, t', n);
        [buf[t]] + (Items(buf, t', n - 1) + [x]);
        Items(buf, t, n) + [x];
      }
    }
  }

  /** The buffer of a new subscriber: a zeroed slot array, both cursors at 0. */
  function Empty(size: int): (r: Ring)
    requires size > 0
    ensures Valid(r) && |r.buf| == size && r.head == 0 && r.tail == 0 && r.filled == 0
    ensures Contents(r) == []
  {
    Ring(seq(size, _ => 0), 0, 0, 0)
  }

  /** One Fanout delivery: store x at the write cursor and advance it. Enabled
      only while a slot is free (SemW > 0). */
  function Write(r: Ring, x: int): (r': Ring)
    requires Valid(r) && r.filled < |r.buf|
    ensures Valid(r') && |r'.buf| == |r.buf|
    ensures r'.buf == r.buf[r.head := x] && r'.head == (r.head + 1) % |r.buf|
    ensures r'.tail == r.tail && r'.filled == r.filled + 1
    ensures Contents(r') == Contents(r) + [x]
  {
    ModOnce(r.tail + r.filled, |r.buf|);
    ModOnce(r.tail + r.filled + 1, |r.buf|);
    ModOnce(r.head + 1, |r.buf|);
    ItemsWrite(r.buf, r.tail, r.filled, x);
    Ring(r.buf[r.head := x], (r.head + 1) % |r.buf|, r.tail, r.filled + 1)
  }

  /** One Read: the item at the read cursor and the cursor itself; the cursor
      advances. Enabled only while an item is buffered (SemR > 0). */
  function Read(r: Ring): (res: (int, int, Ring))
    requires Valid(r) && r.filled > 0
    ensures res.0 == Contents(r)[0] && res.1 == r.tail
    ensures Valid(res.2) && res.2.buf == r.buf && res.2.head == r.head
    ensures res.2.tail == (r.tail + 1) % |r.buf| && res.2.filled == r.filled - 1
    ensures Contents(res.2) == Contents(r)[1..]
  {
    var size := |r.buf|;
    var t' := (r.tail + 1) % size;
    ModOnce(r.tail + 1, size);
    ModOnce(r.tail + r.filled, size);
    ModOnce(t' + (r.filled - 1), size);
    (r.buf[r.tail], r.tail, Ring(r.buf, r.head, t', r.filled - 1))
  }

  /** The first read after subscribing returns the first delivered item, from slot 0. */
  lemma FirstReadAfterSubscribe(size: int, x: int)
    requires size > 0
    ensures Read(Write(Empty(size), x)).0 == x
    ensures Read(Write(Empty(size), x)).1 == 0
  {
  }

  // ---------------------------------------------------------------------------
  // Runs of deliveries and reads on one subscriber
  // ---------------------------------------------------------------------------

  /** Fanout(item) reaching this subscriber, or one Read by it. */
  datatype Step = Publish(item: int) | Consume

  /** The items delivered by the Publish steps, in order. */
  function Published(steps: seq<Step>): (items: seq<int>)
    ensures |items| <= |steps|
  {
    if steps == [] then []
    else match steps[0]
      case Publish(x) => [x] + Published(steps[1..])
      case Consume => Published(steps[1..])
  }

  /** Performs the steps one after another; None when some step would block,
      otherwise the final buffer and the items read, in order. */
  function Replay(r: Ring, steps: seq<Step>): (res: Option<(Ring, seq<int>)>)
    requires Valid(r)
    ensures res.Some? ==> Valid(res.value.0) && |res.value.0.buf| == |r.buf|
    decreases |steps|
  {
    if steps == [] then Some((r, []))
    else match steps[0]
      case Publish(x) =>
        if r.filled < |r.buf| then Replay(Write(r, x), steps[1..]) else None
      case Consume =>
        if r.filled > 0 then
          var (item, _, r') := Read(r);
          match Replay(r', steps[1..])
          case None => None
          case Some((f, out)) => Some((f, [item] + out))
        else None
  }

  /** FIFO: what was buffered plus what was delivered equals what was read plus
      what is still buffered. */
  lemma {:induction false} ReplayIsFifo(r: Ring, steps: seq<Step>)
    requires Valid(r)
    ensures Replay(r, steps).Some? ==>
      Contents(r) + Published(steps) == Replay(r, steps).value.1 + Contents(Replay(r, steps).value.0)
    decreases |steps|, 1
  {
    if steps != [] && Replay(r, steps).Some? {
      if steps[0].Publish? {
        FifoPublish(r, steps);
      } else {
        FifoConsume(r, steps);
      }
    }
  }

  /** ReplayIsFifo when the first step is a delivery. */
  lemma {:induction false} FifoPublish(r: Ring, steps: seq<Step>)
    requires Valid(r) && steps != [] && steps[0].Publish? && Replay(r, steps).Some?
    ensures Contents(r) + Published(steps) == Replay(r, steps).value.1 + Contents(Replay(r, steps).value.0)
    decreases |steps|, 0
  {
    var x, rest := steps[0].item, steps[1..];
    var r' := Write(r, x);
    assert Replay(r, steps) == Replay(r', rest);
    assert Published(steps) == [x] + Published(rest);
    ReplayIsFifo(r', rest);
    calc {
      Contents(r) + Published(steps);
      (Contents(r) + [x]) + Published(rest);
      Contents(r') + Published(rest);
    }
  }

  /** ReplayIsFifo when the first step is a read. */
  lemma {:induction false} FifoConsume(r: Ring, steps: seq<Step>)
    requires Valid(r) && steps != [] && steps[0].Consume? && Replay(r, steps).Some?
    ensures Contents(r) + Published(steps) == Replay(r, steps).value.1 + Contents(Replay(r, steps).value.0)
    decreases |steps|, 0
  {
    var rest := steps[1..];
    var (item, _, r') := Read(r);
    var tail := Replay(r', rest);
    assert tail.Some?;
    var (f, out) := tail.value;
    assert Replay(r, steps).value == (f, [item] + out);
    assert Published(steps) == Published(rest);
    assert Contents(r) == [item] + Contents(r');
    ReplayIsFifo(r', rest);
    Regroup([item], Contents(r'), Published(rest), out, Contents(f));
  }

  /** Moving a common prefix across an equation of concatenations. */
  lemma Regroup(a: seq<int>, b: seq<int>, c: seq<int>, d: seq<int>, e: seq<int>)
    requires b + c == d + e
    ensures (a + b) + c == (a + d) + e
  {
    calc {
      (a + b) + c;
      a + (b + c);
      a + (d + e);
      (a + d) + e;
    }
  }

  /** A subscriber that starts empty reads a prefix of what was fanned out to
      it, in the same order, and the rest is exactly what is still buffered. */
  lemma SubscriberReadsPrefix(size: int, steps: seq<Step>)
    requires size > 0
    ensures Replay(Empty(size), steps).Some? ==>
      var (f, out) := Replay(Empty(size), steps).value;
      out + Contents(f) == Published(steps) && out <= Published(steps) &&
      f.filled == |Published(steps)| - |out| <= size
  {
    ReplayIsFifo(Empty(size), steps);
  }

  /** Publishes minus reads. */
  function Backlog(steps: seq<Step>): int {
    if steps == [] then 0 else (if steps[0].Publish? then 1 else -1) + Backlog(steps[1..])
  }

  /** Every prefix of steps keeps the number of buffered items within [0, size]. */
  ghost predicate FlowWithin(r: Ring, steps: seq<Step>) {
    forall i :: 0 <= i <= |steps| ==> 0 <= r.filled + Backlog(steps[..i]) <= |r.buf|
  }

  lemma {:induction false} FlowWithinUnfold(r: Ring, steps: seq<Step>, r': Ring)
    requires steps != [] && |r'.buf| == |r.buf|
    requires r'.filled == r.filled + (if steps[0].Publish? then 1 else -1)
    ensures FlowWithin(r, steps) <==>
      (0 <= r.filled <= |r.buf| && FlowWithin(r', steps[1..]))
  {
    forall i | 0 <= i < |steps|
      ensures Backlog(steps[..i + 1]) == (if steps[0].Publish? then 1 else -1) + Backlog(steps[1..][..i])
    {
      assert steps[..i + 1][1..] == steps[1..][..i];
    }
    if FlowWithin(r, steps) {
      assert steps[..0] == [];
      forall i | 0 <= i <= |steps[1..]|
        ensures 0 <= r'.filled + Backlog(steps[1..][..i]) <= |r'.buf|
      {
        assert 0 <= r.filled + Backlog(steps[..i + 1]) <= |r.buf|;
      }
    }
    if 0 <= r.filled <= |r.buf| && FlowWithin(r', steps[1..]) {
      forall i | 0 <= i <= |steps|
        ensures 0 <= r.filled + Backlog(steps[..i]) <= |r.buf|
      {
        if i == 0 {
          assert steps[..0] == [];
        } else {
          assert 0 <= r'.filled + Backlog(steps[1..][..i - 1]) <= |r'.buf|;
        }
      }
    }
  }

  /** Flow control: a run blocks exactly when some prefix would overfill the
      buffer (a delivery waits on SemW) or read from an empty one (a read waits
      on SemR). */
  lemma {:induction false} ReplayIffFlowWithin(r: Ring, steps: seq<Step>)
    requires Valid(r)
    ensures Replay(r, steps).Some? <==> FlowWithin(r, steps)
    decreases |steps|
  {
    if steps == [] {
      assert steps[..0] == [];
    } else {
      match steps[0]
      case Publish(x) =>
        if r.filled < |r.buf| {
          FlowWithinUnfold(r, steps, Write(r, x));
          ReplayIffFlowWithin(Write(r, x), steps[1..]);
        } else {
          var over := r.(filled := r.filled + 1);
          FlowWithinUnfold(r, steps, over);
          assert steps[1..][..0] == [];
          assert !FlowWithin(over, steps[1..]);
        }
      case Consume =>
        if r.filled > 0 {
          var r' := Read(r).2;
          FlowWithinUnfold(r, steps, r');
          ReplayIffFlowWithin(r', steps[1..]);
          assert Replay(r, steps).Some? == Replay(r', steps[1..]).Some?;
        } else {
          var under := r.(filled := r.filled - 1);
          FlowWithinUnfold(r, steps, under);
          assert steps[1..][..0] == [];
          assert !FlowWithin(under, steps[1..]);
        }
    }
  }

  /** Per-subscriber capacity 2: two deliveries go through and a third blocks. */
  lemma CapacityTwoBlocksThirdDelivery(x: int, y: int, z: int)
    ensures Replay(Empty(2), [Publish(x), Publish(y)]).Some?
    ensures Replay(Empty(2), [Publish(x), Publish(y), Publish(z)]) == None
  {
    var w2 := Write(Write(Empty(2), x), y);
    var steps := [Publish(x), Publish(y), Publish(z)];
    assert Replay(w2, steps[2..]) == None;
    assert Replay(w2, steps[..2][2..]).Some?;
  }

  /** Per-subscriber capacity 2: after two deliveries a Read returns the first
      item from slot 0, and the third delivery then goes through. */
  lemma CapacityTwoReadUnblocks(x: int, y: int, z: int)
    ensures Read(Write(Write(Empty(2), x), y)).0 == x
    ensures Read(Write(Write(Empty(2), x), y)).1 == 0
    ensures Replay(Empty(2), [Publish(x), Publish(y), Consume, Publish(z)]).Some?
  {
    var w2 := Write(Write(Empty(2), x), y);
    var r := Read(w2).2;
    var steps := [Publish(x), Publish(y), Consume, Publish(z)];
    assert Replay(Write(r, z), steps[4..]).Some?;
    assert Replay(r, steps[3..]) == Replay(Write(r, z), steps[4..]);
    assert Replay(w2, steps[2..]).Some?;
  }
}
