// Circular buffer: pushing never fails, it replaces the oldest bytes.
module CircularBuffer {

  // The last n elements.
  function LastN<T>(s: seq<T>, n: nat): (r: seq<T>)
    ensures |r| == if |s| < n then |s| else n
  {
    if |s| <= n then s else s[|s| - n..]
  }

  // What was dropped once stays dropped.
  lemma LastNAppend<T>(s: seq<T>, t: seq<T>, n: nat)
    ensures LastN(LastN(s, n) + t, n) == LastN(s + t, n)
  {
  }

  lemma LastNStart<T>(s: seq<T>, t: seq<T>, n: nat)
    requires |s| <= n
    ensures LastN(s + t[..0], n) == s
  {
  }

  lemma LastNOneMore<T>(s: seq<T>, t: seq<T>, i: nat, n: nat, q: seq<T>)
    requires i < |t| && q == LastN(s + t[..i], n)
    ensures LastN(q + [t[i]], n) == LastN(s + t[..i + 1], n)
  {
    LastNAppend(s + t[..i], [t[i]], n);
    assert s + t[..i] + [t[i]] == s + t[..i + 1];
  }

  // ------------------------------------------------------------------------
  // Runs over a queue of at most n elements.

  datatype Op = Push(src: seq<char>) | Pop(len: nat)

  // The queue, all bytes pushed, all bytes popped, and the bytes dropped.
  datatype Run = Run(queue: seq<char>, pushed: seq<char>, popped: seq<char>, dropped: nat)

  function Min(a: nat, b: nat): nat {
    if a < b then a else b
  }

  function Do(r: Run, n: nat, op: Op): Run {
    match op
    case Push(src) =>
      Run(LastN(r.queue + src, n), r.pushed + src, r.popped, r.dropped + |r.queue + src| - |LastN(r.queue + src, n)|)
    case Pop(len) =>
      var k := Min(len, |r.queue|);
      Run(r.queue[k..], r.pushed, r.popped + r.queue[..k], r.dropped)
  }

  function DoAll(n: nat, ops: seq<Op>): Run {
    if ops == [] then Run([], [], [], 0) else Do(DoAll(n, ops[..|ops| - 1]), n, ops[|ops| - 1])
  }

  // The queue holds the newest bytes, nothing is invented, and exactly the
  // dropped bytes are missing.
  predicate IsSuffix(r: Run, n: nat) {
    && |r.queue| <= n && |r.queue| <= |r.pushed|
    && r.queue == r.pushed[|r.pushed| - |r.queue|..]
    && |r.pushed| == |r.popped| + r.dropped + |r.queue|
  }

  lemma PushKeepsSuffix(p: Run, n: nat, src: seq<char>)
    requires IsSuffix(p, n)
    ensures IsSuffix(Do(p, n, Push(src)), n)
  {
    var older, all := p.pushed[..|p.pushed| - |p.queue|], p.queue + src;
    SuffixOfAppend(older, all, |LastN(all, n)|);
    assert p.pushed + src == older + all;
  }

  lemma SuffixOfAppend<T>(s: seq<T>, t: seq<T>, k: nat)
    requires k <= |t|
    ensures (s + t)[|s| + |t| - k..] == t[|t| - k..]
  {
  }

  lemma PopKeepsSuffix(p: Run, n: nat, len: nat)
    requires IsSuffix(p, n)
    ensures IsSuffix(Do(p, n, Pop(len)), n)
  {
  }

  // This holds after any interleaving.
  lemma {:induction false} QueueIsSuffix(n: nat, ops: seq<Op>)
    ensures IsSuffix(DoAll(n, ops), n)
  {
    if ops != [] {
      var p := DoAll(n, ops[..|ops| - 1]);
      QueueIsSuffix(n, ops[..|ops| - 1]);
      match ops[|ops| - 1]
      case Push(src) => PushKeepsSuffix(p, n, src);
      case Pop(len) => PopKeepsSuffix(p, n, len);
    }
  }

  // One operation that drops nothing moves bytes from the queue to what was
  // popped, or appends to the queue.
  lemma DoIsFifo(p: Run, n: nat, op: Op)
    requires p.popped + p.queue == p.pushed && Do(p, n, op).dropped == p.dropped
    ensures Do(p, n, op).popped + Do(p, n, op).queue == Do(p, n, op).pushed
  {
    match op
    case Push(src) => assert p.popped + (p.queue + src) == p.popped + p.queue + src;
    case Pop(len) =>
      var k := Min(len, |p.queue|);
      assert p.popped + p.queue[..k] + p.queue[k..] == p.popped + p.queue;
  }

  lemma DroppedGrows(p: Run, n: nat, op: Op)
    ensures Do(p, n, op).dropped >= p.dropped
  {
  }

  lemma {:induction false} NothingDropped(n: nat, ops: seq<Op>)
    requires DoAll(n, ops).dropped == 0
    ensures DoAll(n, ops).popped + DoAll(n, ops).queue == DoAll(n, ops).pushed
  {
    if ops != [] {
      var init, op := ops[..|ops| - 1], ops[|ops| - 1];
      var p := DoAll(n, init);
      DroppedGrows(p, n, op);
      NothingDropped(n, init);
      DoIsFifo(p, n, op);
    }
  }

  // First in, first out, as long as nothing is dropped.
  lemma {:induction false} FifoUnlessDropped(n: nat, ops: seq<Op>)
    ensures DoAll(n, ops).popped + DoAll(n, ops).queue == DoAll(n, ops).pushed <==> DoAll(n, ops).dropped == 0
  {
    var r := DoAll(n, ops);
    QueueIsSuffix(n, ops);
    assert |r.popped + r.queue| == |r.pushed| - r.dropped;
    if r.dropped == 0 {
      NothingDropped(n, ops);
    }
  }

  // ------------------------------------------------------------------------
  // A ring inside an array.

  function Wrap(i: nat, n: nat): (j: nat)
    requires i < n + n
    ensures j < n
  {
    if i < n then i else i - n
  }

  // The n elements of a ring from position top on.
  function Ring(d: seq<char>, top: nat, n: nat): (r: seq<char>)
    requires top < |d| && n <= |d|
    ensures |r| == n
  {
    if n == 0 then [] else Ring(d, top, n - 1) + [d[Wrap(top + n - 1, |d|)]]
  }

  lemma {:induction false} RingAt(d: seq<char>, top: nat, n: nat)
    requires top < |d| && n <= |d|
    ensures forall i | 0 <= i < n :: Ring(d, top, n)[i] == d[Wrap(top + i, |d|)]
  {
    if n > 0 {
      RingAt(d, top, n - 1);
    }
  }

  // Writing behind the newest element; in a full ring that is the oldest one.
  lemma RingGrows(d: seq<char>, top: nat, n: nat, c: char)
    requires top < |d| && n < |d|
    ensures Ring(d[Wrap(top + n, |d|) := c], top, n + 1) == LastN(Ring(d, top, n) + [c], |d|)
  {
    var d', r := d[Wrap(top + n, |d|) := c], Ring(d, top, n);
    RingAt(d, top, n);
    RingAt(d', top, n + 1);
    forall i | 0 <= i < n + 1 ensures Ring(d', top, n + 1)[i] == (r + [c])[i] {
    }
  }

  lemma {:induction false} RingIndex(d: seq<char>, top: nat, n: nat, i: nat)
    requires top < |d| && i < n <= |d|
    ensures Ring(d, top, n)[i] == d[Wrap(top + i, |d|)]
  {
    RingAt(d, top, n);
  }

  // In a full ring every other element moves down by one.
  lemma {:induction false} RingMovesAt(d: seq<char>, top: nat, c: char, i: nat)
    requires top < |d| && i + 1 < |d|
    ensures Ring(d[top := c], Wrap(top + 1, |d|), |d|)[i] == Ring(d, top, |d|)[i + 1]
  {
    RingIndex(d, top, |d|, i + 1);
    RingIndex(d[top := c], Wrap(top + 1, |d|), |d|, i);
    WrapStep(top, i, |d|);
  }

  lemma {:induction false} RingMoves(d: seq<char>, top: nat, c: char)
    requires top < |d|
    ensures Ring(d[top := c], Wrap(top + 1, |d|), |d|) == LastN(Ring(d, top, |d|) + [c], |d|)
  {
    var n := |d|;
    var r, r' := Ring(d, top, n), Ring(d[top := c], Wrap(top + 1, n), n);
    forall i | 0 <= i < n - 1 ensures r'[i] == r[i + 1] {
      RingMovesAt(d, top, c, i);
    }
    RingIndex(d[top := c], Wrap(top + 1, n), n, n - 1);
    assert Wrap(Wrap(top + 1, n) + (n - 1), n) == top;
    LastNOfFull(r, r', c);
  }

  lemma WrapStep(top: nat, i: nat, n: nat)
    requires top < n && i + 1 < n
    ensures Wrap(Wrap(top + 1, n) + i, n) == Wrap(top + (i + 1), n) != top
  {
  }

  lemma LastNOfFull(r: seq<char>, r': seq<char>, c: char)
    requires |r'| == |r| > 0 && r'[|r| - 1] == c
    requires forall i | 0 <= i < |r| - 1 :: r'[i] == r[i + 1]
    ensures r' == LastN(r + [c], |r|)
  {
    assert LastN(r + [c], |r|) == r[1..] + [c];
  }

  // Either way: the ring after writing c behind the newest element.
  lemma RingPut(d: seq<char>, top: nat, n: nat, c: char)
    requires top < |d| && n <= |d|
    ensures var tail := Wrap(top + n, |d|);
            var top', n' := if n < |d| then top else Wrap(top + 1, |d|), if n < |d| then n + 1 else n;
            && Ring(d[tail := c], top', n') == LastN(Ring(d, top, n) + [c], |d|)
            && Wrap(top' + n', |d|) == Wrap(tail + 1, |d|)
  {
    if n < |d| {
      RingGrows(d, top, n, c);
    } else {
      RingMoves(d, top, c);
    }
  }

  lemma {:induction false} RingDrop(d: seq<char>, top: nat, n: nat, k: nat)
    requires top < |d| && k <= n <= |d|
    ensures Ring(d, Wrap(top + k, |d|), n - k) == Ring(d, top, n)[k..]
    ensures Wrap(Wrap(top + k, |d|) + (n - k), |d|) == Wrap(top + n, |d|)
  {
    forall i | 0 <= i < n - k ensures Ring(d, Wrap(top + k, |d|), n - k)[i] == Ring(d, top, n)[k..][i] {
      RingIndex(d, top, n, k + i);
      RingIndex(d, Wrap(top + k, |d|), n - k, i);
      WrapSum(top, k, i, |d|);
    }
    WrapSum(top, k, n - k, |d|);
  }

  lemma WrapSum(top: nat, k: nat, i: nat, n: nat)
    requires top < n && k + i <= n
    ensures Wrap(Wrap(top + k, n) + i, n) == Wrap(top + (k + i), n)
  {
  }

  class Circbuf {
    const data: array<char>
    var top: nat
    var tail: nat
    var size: nat

    ghost predicate Valid()
      reads this
    {
      && top < data.Length && size <= data.Length
      && tail == Wrap(top + size, data.Length)
    }

    ghost function Contents(): (s: seq<char>)
      requires Valid()
      reads this, data
      ensures |s| == size
    {
      Ring(data[..], top, size)
    }

    constructor (totalsize: nat)
      requires totalsize > 0
      ensures Valid() && fresh(data) && data.Length == totalsize && Contents() == []
    {
      data := new char[totalsize];
      top, tail, size := 0, 0, 0;
    }

    method Put(c: char)
      requires Valid()
      modifies this, data
      ensures Valid() && Contents() == LastN(old(Contents()) + [c], data.Length)
    {
      ghost var d := data[..];
      RingPut(d, top, size, c);
      var p := tail;
      tail := tail + 1;
      if tail == data.Length {
        tail := 0;
      }
      if size < data.Length {
        size := size + 1;
      } else {
        top := top + 1;
        if top == data.Length {
          top := 0;
        }
      }
      data[p] := c;
      assert data[..] == d[p := c];
    }

    method PutNext(src: seq<char>, len: nat, ghost was: seq<char>)
      requires Valid() && len < |src| && Contents() == LastN(was + src[..len], data.Length)
      modifies this, data
      ensures Valid() && Contents() == LastN(was + src[..len + 1], data.Length)
    {
      LastNOneMore(was, src, len, data.Length, Contents());
      Put(src[len]);
    }

    method Push(src: seq<char>) returns (len: nat)
      requires Valid()
      modifies this, data
      ensures Valid() && len == |src| && Contents() == LastN(old(Contents()) + src, data.Length)
    {
      len := 0;
      ghost var was := Contents();
      LastNStart(was, src, data.Length);
      while len < |src|
        invariant len <= |src| && Valid()
        invariant Contents() == LastN(was + src[..len], data.Length)
      {
        PutNext(src, len, was);
        len := len + 1;
      }
      assert src[..len] == src;
    }

    // Copies the oldest bytes out; p is the position behind them.
    method CopyOut(dest: array<char>, taken: nat) returns (p: nat)
      requires Valid() && taken <= size && taken <= dest.Length && dest != data
      modifies dest
      ensures p == Wrap(top + taken, data.Length)
      ensures dest[..taken] == Contents()[..taken] && dest[taken..] == old(dest[taken..])
    {
      ghost var q := Contents();
      p := top;
      var i := 0;
      while i < taken
        invariant i <= taken && p == Wrap(top + i, data.Length)
        invariant forall k | 0 <= k < i :: dest[k] == q[k]
        invariant forall k | taken <= k < dest.Length :: dest[k] == old(dest[k])
      {
        RingAt(data[..], top, size);
        dest[i] := data[p];
        p := p + 1;
        if p == data.Length {
          p := 0;
        }
        i := i + 1;
      }
    }

    // Takes out up to len of the oldest bytes.
    method Pop(dest: array<char>, len: nat) returns (taken: nat)
      requires Valid() && len <= dest.Length && dest != data
      modifies this, dest
      ensures Valid() && taken == if len <= old(size) then len else old(size)
      ensures dest[..taken] == old(Contents())[..taken] && dest[taken..] == old(dest[taken..])
      ensures Contents() == old(Contents())[taken..]
    {
      taken := if len > size then size else len;
      var p := CopyOut(dest, taken);
      RingDrop(data[..], top, size, taken);
      top := p;
      size := size - taken;
    }

    // One push or pop; popped is what came out.
    method RunOne(op: Op, ghost r: Run) returns (popped: seq<char>)
      requires Valid() && r.queue == Contents()
      modifies this, data
      ensures Valid() && Contents() == Do(r, data.Length, op).queue
      ensures r.popped + popped == Do(r, data.Length, op).popped
    {
      popped := [];
      match op
      case Push(src) =>
        var _ := Push(src);
      case Pop(len) =>
        var dest := new char[len];
        var taken := Pop(dest, len);
        popped := dest[..taken];
    }

    // Any interleaving of pushes and pops on an empty buffer.
    method RunAll(ops: seq<Op>) returns (popped: seq<char>)
      requires Valid() && Contents() == []
      modifies this, data
      ensures Valid() && Contents() == DoAll(data.Length, ops).queue && popped == DoAll(data.Length, ops).popped
    {
      popped := [];
      var k := 0;
      while k < |ops|
        invariant k <= |ops| && Valid()
        invariant Contents() == DoAll(data.Length, ops[..k]).queue && popped == DoAll(data.Length, ops[..k]).popped
      {
        assert ops[..k + 1][..k] == ops[..k];
        var more := RunOne(ops[k], DoAll(data.Length, ops[..k]));
        popped := popped + more;
        k := k + 1;
      }
      assert ops[..k] == ops;
    }
  }
}
