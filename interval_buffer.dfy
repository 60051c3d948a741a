/**
 The circular buffer of the most recent accepted beat intervals, as a value:
 ten slots, a write cursor and a flag that turns on the first time the cursor
 wraps. Slots [0, Count()) are the populated ones; Window() lists them from the
 oldest interval to the newest.
 */
module IntervalBuffer {

  const BeatWindow: nat := 10

  /** Accepted intervals lie strictly between 300 ms and 2000 ms. */
  predicate ValidInterval(interval: int) {
    300 < interval < 2000
  }

  predicate AllValid(w: seq<int>) {
    forall i :: 0 <= i < |w| ==> ValidInterval(w[i])
  }

  function Sum(w: seq<int>): int {
    if w == [] then 0 else Sum(w[..|w| - 1]) + w[|w| - 1]
  }

  /** The last n elements of h (all of h when it is shorter). */
  function LastN(h: seq<int>, n: nat): (r: seq<int>)
    ensures |r| == if |h| < n then |h| else n
  {
    if |h| <= n then h else h[|h| - n..]
  }

  datatype Ring = Ring(slots: seq<int>, index: nat, filled: bool) {

    /** The shape the fixed-size buffer always has. */
    predicate Shaped() {
      |slots| == BeatWindow && index < BeatWindow
    }

    /**
     What the buffer keeps: the populated slots hold valid intervals, and
     before the first wrap the slots from the cursor on are still zero.
     */
    ghost predicate Valid() {
      && Shaped()
      && AllValid(slots[..Count()])
      && (!filled ==> forall i :: index <= i < BeatWindow ==> slots[i] == 0)
    }

    /** The number of populated slots, the averaging denominator. */
    function Count(): nat {
      if filled then BeatWindow else index
    }

    /** The populated slots, oldest first. */
    function Window(): (w: seq<int>)
      requires Shaped()
      ensures |w| == Count()
    {
      if filled then slots[index..] + slots[..index] else slots[..index]
    }

    /** Stores one interval at the cursor and advances it modulo ten. */
    function Push(interval: int): (r: Ring)
      requires Shaped()
      ensures r.Shaped()
      ensures r.index == (index + 1) % BeatWindow
      ensures r.filled <==> filled || r.index == 0
      ensures r.Count() > 0
    {
      var next := (index + 1) % BeatWindow;
      Ring(slots[index := interval], next, filled || next == 0)
    }
  }

  const Empty: Ring := Ring(seq(BeatWindow, _ => 0), 0, false)

  /** The buffer after storing every interval of h, in order, into r. */
  function PushAll(r: Ring, h: seq<int>): (r': Ring)
    requires r.Shaped()
    ensures r'.Shaped()
  {
    if h == [] then r else PushAll(r, h[..|h| - 1]).Push(h[|h| - 1])
  }

  lemma EmptyIsValid()
    ensures Empty.Valid() && Empty.Window() == [] && Empty.Count() == 0
  {
  }

  lemma {:induction false} SumAppend(a: seq<int>, b: seq<int>)
    ensures Sum(a + b) == Sum(a) + Sum(b)
  {
    if b == [] {
      assert a + b == a;
    } else {
      assert (a + b)[..|a + b| - 1] == a + b[..|b| - 1];
      SumAppend(a, b[..|b| - 1]);
    }
  }

  /** Every valid interval is in 301..1999, so a sum of n of them is as well, times n. */
  lemma {:induction false} SumBounds(w: seq<int>)
    requires AllValid(w)
    ensures 301 * |w| <= Sum(w) <= 1999 * |w|
  {
    if w != [] {
      SumBounds(w[..|w| - 1]);
    }
  }

  /** Pushing keeps the populated slots valid and the unpopulated ones zero. */
  lemma PushValid(r: Ring, interval: int)
    requires r.Valid() && ValidInterval(interval)
    ensures r.Push(interval).Valid()
  {
    var r' := r.Push(interval);
    forall i | 0 <= i < r'.Count()
      ensures ValidInterval(r'.slots[i])
    {
      if i != r.index {
        assert i < r.Count();
        assert r.slots[..r.Count()][i] == r.slots[i];
      }
      assert r'.slots[..r'.Count()][i] == r'.slots[i];
    }
  }

  /** The window and the populated slots are the same intervals, so they have the same sum. */
  lemma WindowOfPopulated(r: Ring)
    requires r.Shaped()
    ensures |r.Window()| == r.Count()
    ensures Sum(r.Window()) == Sum(r.slots[..r.Count()])
    ensures AllValid(r.slots[..r.Count()]) <==> AllValid(r.Window())
  {
    if r.filled {
      var s, k := r.slots, r.index;
      SumAppend(s[k..], s[..k]);
      SumAppend(s[..k], s[k..]);
      assert s[..k] + s[k..] == s;
      assert s[..r.Count()] == s;
      var w := r.Window();
      assert forall i :: 0 <= i < |s| ==> s[i] == if i < k then w[BeatWindow - k + i] else w[i - k];
    }
  }

  /**
   After a push the window is the old window with the new interval appended,
   cut back to the ten most recent: the oldest interval is overwritten first.
   */
  lemma PushWindow(r: Ring, interval: int)
    requires r.Shaped()
    ensures r.Push(interval).Window() == LastN(r.Window() + [interval], BeatWindow)
  {
    if r.filled {
      PushWindowFull(r, interval);
    } else {
      PushWindowFilling(r, interval);
    }
  }

  /** Before the first wrap the window grows by the new interval. */
  lemma PushWindowFilling(r: Ring, interval: int)
    requires r.Shaped() && !r.filled
    ensures r.Push(interval).Window() == r.Window() + [interval]
  {
    var s, k := r.slots, r.index;
    var s' := s[k := interval];
    var p := r.Push(interval);
    assert p.slots == s';
    assert s'[..k + 1] == s[..k] + [interval];
    if k + 1 < BeatWindow {
      assert p.index == k + 1 && !p.filled;
    } else {
      assert p.index == 0 && p.filled;
      assert p.Window() == s'[0..] + s'[..0] == s';
    }
  }

  /** Once wrapped, the new interval replaces the oldest one. */
  lemma PushWindowFull(r: Ring, interval: int)
    requires r.Shaped() && r.filled
    ensures r.Push(interval).Window() == (r.Window() + [interval])[1..]
  {
    var s, k := r.slots, r.index;
    var p := r.Push(interval);
    assert p.slots == s[k := interval] && p.filled;
    RotateWrite(s, k, interval);
    if k + 1 < BeatWindow {
      assert p.index == k + 1;
    } else {
      assert p.index == 0;
      assert p.Window() == p.slots == p.slots[k + 1..] + p.slots[..k + 1];
    }
  }

  /**
   Overwriting the oldest element of the rotation starting at k turns it into
   the rotation starting at k + 1.
   */
  lemma RotateWrite(s: seq<int>, k: nat, x: int)
    requires k < |s|
    ensures (s[k..] + s[..k] + [x])[1..] == s[k := x][k + 1..] + s[k := x][..k + 1]
  {
    var s' := s[k := x];
    assert s[k..] + s[..k] + [x] == s[k..] + (s[..k] + [x]);
    DropFirst(s[k..], s[..k] + [x]);
    assert s[k..][1..] == s[k + 1..] == s'[k + 1..];
    assert s'[..k + 1] == s[..k] + [x];
  }

  /** Dropping the head of a concatenation drops it from the first part. */
  lemma DropFirst(a: seq<int>, b: seq<int>)
    requires a != []
    ensures (a + b)[1..] == a[1..] + b
  {
  }

  /** The last n of a sequence with a suffix of at least n elements are the last n of that suffix. */
  lemma LastNSuffix(x: seq<int>, y: seq<int>, n: nat)
    requires n <= |y|
    ensures LastN(x + y, n) == LastN(y, n)
  {
    if |x + y| > n {
      assert (x + y)[|x + y| - n..] == y[|y| - n..];
    }
  }

  /** Cutting to the last n before appending, and again after, is the same as cutting once. */
  lemma LastNAppend(h: seq<int>, a: seq<int>, n: nat)
    ensures LastN(LastN(h, n) + a, n) == LastN(h + a, n)
  {
    if |h| > n {
      var m := |h| - n;
      assert h + a == h[..m] + (h[m..] + a);
      LastNSuffix(h[..m], h[m..] + a, n);
    }
  }

  /**
   Storing a history of intervals into the empty buffer leaves exactly the ten
   most recent of them in the window, oldest first, all valid when the history was.
   */
  lemma {:induction false} PushAllWindow(h: seq<int>)
    requires AllValid(h)
    ensures PushAll(Empty, h).Valid()
    ensures PushAll(Empty, h).Window() == LastN(h, BeatWindow)
  {
    if h == [] {
      EmptyIsValid();
    } else {
      var h', x := h[..|h| - 1], h[|h| - 1];
      assert AllValid(h');
      PushAllWindow(h');
      PushValid(PushAll(Empty, h'), x);
      PushWindow(PushAll(Empty, h'), x);
      LastNAppend(h', [x], BeatWindow);
      assert h' + [x] == h;
    }
  }
}
