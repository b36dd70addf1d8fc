/** The circular byte queue of ringbuffer/RingBuffer.h. */
module RingBuffer {
  import opened Bytes
  import opened Sequences

  /** size_t. */
  const WORD: nat := 0x1_0000_0000

  // ---------------------------------------------------------------- what it stands for

  /** A bounded queue, oldest byte first, after a push: with `overwrite` it keeps the newest bytes, otherwise it takes
      the longest prefix that fits. */
  function Pushed(size: nat, overwrite: bool, q: seq<Byte>, data: seq<Byte>): (r: seq<Byte>)
    requires |q| <= size
    ensures |r| == Min(size, |q| + |data|)
  {
    if overwrite then Last(size, q + data) else q + data[..Min(|data|, size - |q|)]
  }

  /** When a push as written does that: an overwriting push must not overflow a buffer that is not full yet. A push of
      one byte never does. */
  predicate PushGuard(size: nat, overwrite: bool, filled: nat, n: nat) {
    !overwrite || filled + n <= size || filled == size
  }

  datatype Op = Push(data: seq<Byte>) | Pop(want: nat)

  /** A run of the bounded queue: the queue afterwards, and all that was popped. */
  function RunQueue(size: nat, overwrite: bool, q: seq<Byte>, ops: seq<Op>): (r: (seq<Byte>, seq<Byte>))
    requires |q| <= size
    ensures |r.0| <= size
    decreases |ops|
  {
    if ops == [] then (q, [])
    else
      match ops[0]
      case Push(data) => RunQueue(size, overwrite, Pushed(size, overwrite, q, data), ops[1..])
      case Pop(want) =>
        var n := Min(want, |q|);
        var (q', out) := RunQueue(size, overwrite, q[n..], ops[1..]);
        (q', q[..n] + out)
  }

  /** Everything that was offered for pushing. */
  function Offered(ops: seq<Op>): seq<Byte> {
    if ops == [] then [] else (match ops[0] case Push(data) => data case Pop(_) => []) + Offered(ops[1..])
  }

  /** With overwriting, the buffer always holds the newest bytes that were pushed, whatever was popped in between. */
  lemma {:induction false} HoldsNewest(size: nat, q: seq<Byte>, past: seq<Byte>, ops: seq<Op>)
    requires |q| <= size && q == Last(|q|, past)
    ensures var r := RunQueue(size, true, q, ops).0; r == Last(|r|, past + Offered(ops))
    decreases |ops|
  {
    hide Last;
    if ops == [] {
      assert past + [] == past;
    } else {
      match ops[0] {
        case Push(data) =>
          LastPush(size, q, past, data);
          HoldsNewest(size, Pushed(size, true, q, data), past + data, ops[1..]);
          assert (past + data) + Offered(ops[1..]) == past + Offered(ops);
        case Pop(want) =>
          LastPop(q, past, Min(want, |q|));
          HoldsNewest(size, q[Min(want, |q|)..], past, ops[1..]);
          assert [] + Offered(ops[1..]) == Offered(ops[1..]);
      }
    }
  }

  /** What a run without overwriting accepts of the bytes it is offered. */
  function Accepted(size: nat, q: seq<Byte>, ops: seq<Op>): seq<Byte>
    requires |q| <= size
    decreases |ops|
  {
    if ops == [] then []
    else
      match ops[0]
      case Push(data) =>
        data[..Min(|data|, size - |q|)] + Accepted(size, Pushed(size, false, q, data), ops[1..])
      case Pop(want) => Accepted(size, q[Min(want, |q|)..], ops[1..])
  }

  /** Without overwriting, no byte that was accepted is lost, doubled or reordered: what was popped and what is still
      there are exactly the accepted bytes. */
  lemma {:induction false} NothingLost(size: nat, q: seq<Byte>, ops: seq<Op>)
    requires |q| <= size
    ensures var (q', out) := RunQueue(size, false, q, ops); out + q' == q + Accepted(size, q, ops)
    decreases |ops|
  {
    if ops == [] {
    } else {
      var rest := ops[1..];
      match ops[0] {
        case Push(data) =>
          var q1 := Pushed(size, false, q, data);
          NothingLost(size, q1, rest);
          assert q1 + Accepted(size, q1, rest) == q + (data[..Min(|data|, size - |q|)] + Accepted(size, q1, rest));
        case Pop(want) =>
          var n := Min(want, |q|);
          NothingLost(size, q[n..], rest);
          var (q', out) := RunQueue(size, false, q[n..], rest);
          assert (q[..n] + out) + q' == q[..n] + (out + q') == q + Accepted(size, q[n..], rest);
      }
    }
  }

  // ---------------------------------------------------------------- positions

  /** `(i + 1) % m_size`. */
  function Next(size: nat, i: nat): (r: nat)
    requires i < size
    ensures r < size && r == (i + 1) % size
  {
    if i + 1 == size then 0 else i + 1
  }

  lemma ModStep(size: nat, a: nat)
    requires size > 0
    ensures Next(size, a % size) == (a + 1) % size
  {
    var q, r := a / size, a % size;
    assert a + 1 == size * q + (r + 1);
    if r + 1 == size {
      assert a + 1 == size * (q + 1) + 0;
      ModUnique(size, a + 1, q + 1, 0);
    } else {
      ModUnique(size, a + 1, q, r + 1);
    }
  }

  lemma ModUnique(size: nat, a: nat, q: nat, r: nat)
    requires size > 0 && a == size * q + r && r < size
    ensures a % size == r
  {
    var d := a / size - q;
    assert size * d == r - a % size;
    assert 0 < size * d + size && size * d < size;
  }

  /** The position `n` bytes before `tail`. */
  function Back(size: nat, tail: nat, n: nat): (r: nat)
    requires tail < size && n <= size
    ensures r < size && (n == 0 || n == size ==> r == tail)
  {
    if n <= tail then tail - n else tail + size - n
  }

  /** All the bytes of the array, the one that is overwritten next first. */
  function Rotation(b: seq<Byte>, tail: nat): (r: seq<Byte>)
    requires tail <= |b|
    ensures |r| == |b|
  {
    b[tail..] + b[..tail]
  }

  lemma RotationStore(b: seq<Byte>, tail: nat, x: Byte)
    requires tail < |b|
    ensures Rotation(b[tail := x], Next(|b|, tail)) == Rotation(b, tail)[1..] + [x]
  {
  }

  lemma RotationAt(b: seq<Byte>, tail: nat, n: nat)
    requires tail < |b| && 0 < n <= |b|
    ensures b[Back(|b|, tail, n)] == Rotation(b, tail)[|b| - n]
  {
  }

  lemma BackStep(size: nat, tail: nat, n: nat)
    requires tail < size && 0 < n <= size
    ensures (Back(size, tail, n) + 1) % size == Back(size, tail, n - 1)
    ensures Back(size, tail, n - 1) == tail <==> n == 1
  {
    assert Next(size, Back(size, tail, n)) == Back(size, tail, n - 1);
  }

  lemma BackAdvance(size: nat, tail: nat, n: nat, l: nat)
    requires tail < size && n + l <= size
    ensures Back(size, (tail + n) % size, l + n) == Back(size, tail, l)
  {
    if tail + n < size {
      ModUnique(size, tail + n, 0, tail + n);
    } else {
      ModUnique(size, tail + n, 1, tail + n - size);
    }
  }

  /** Bytes written after `rot`, seen from a buffer that held `q`. */
  lemma LastWritten(size: nat, rot: seq<Byte>, q: seq<Byte>, data: seq<Byte>)
    requires |rot| == size && |q| + |data| <= size && q == Last(|q|, rot)
    ensures Last(|q| + |data|, Last(size, rot + data)) == q + data
  {
  }

  lemma LastStep(size: nat, rot: seq<Byte>, data: seq<Byte>, i: nat)
    requires |rot| == size > 0 && i < |data|
    ensures Last(size, rot + data[..i])[1..] + [data[i]] == Last(size, rot + data[..i + 1])
  {
  }

  lemma LastFrom(n: nat, s: seq<Byte>)
    requires n <= |s|
    ensures Last(n, s) == s[|s| - n..]
  {
  }

  lemma LastFull(size: nat, s: seq<Byte>)
    requires |s| == size
    ensures Last(size, s) == s
  {
  }

  lemma LastShort(size: nat, s: seq<Byte>)
    requires |s| <= size
    ensures Last(size, s) == s
  {
  }

  lemma LastNothing(size: nat, rot: seq<Byte>, bytes: seq<Byte>)
    requires |rot| == size
    ensures Last(size, rot + bytes[..0]) == rot
  {
    assert rot + bytes[..0] == rot;
  }

  // ---------------------------------------------------------------- the buffer

  class RingBuffer {
    const data: array<Byte>
    const overwrite: bool
    var head: nat
    var tail: nat
    var len: nat

    ghost predicate Valid()
      reads this
    {
      && 0 < data.Length < WORD
      && tail < data.Length && len <= data.Length && head == Back(data.Length, tail, len)
    }

    /** The bytes that were pushed last, oldest first. */
    ghost function Contents(): (q: seq<Byte>)
      requires Valid()
      reads this, data
      ensures |q| == len
    {
      Last(len, Rotation(data[..], tail))
    }

    constructor (size: nat, overwrite: bool)
      requires 0 < size < WORD
      ensures Valid() && Contents() == [] && fresh(data) && data.Length == size && this.overwrite == overwrite
    {
      data := new Byte[size](_ => 0);
      this.overwrite := overwrite;
      head, tail, len := 0, 0, 0;
    }

    /** push(): it refines the bounded queue iff it does not overflow a buffer that is partly filled. When it does,
        `m_len` keeps its value. */
    method Push(bytes: seq<Byte>) returns (n: nat)
      requires Valid()
      modifies this, data
      ensures n == if overwrite then |bytes| else Min(|bytes|, data.Length - old(len))
      ensures Valid() && Contents() == Pushed(data.Length, overwrite, old(Contents()), bytes)
        <==> PushGuard(data.Length, overwrite, old(len), |bytes|)
      ensures !PushGuard(data.Length, overwrite, old(len), |bytes|) ==> len == old(len) && head == tail < data.Length
    {
      hide Last, Rotation;
      var size, count := data.Length, |bytes|;
      ghost var rot, tail0, filled, q := Rotation(data[..], tail), tail, len, Contents();
      if len + count > size {
        if overwrite {
          // the oldest byte is now the one behind the last write
          head := (count + tail) % size;
        } else {
          // only what fits
          count := size - len;
          len := len + count;
        }
      } else {
        len := len + count;
      }
      ghost var head0, len0 := head, len;
      var i := 0;
      LastNothing(size, rot, bytes);
      ModUnique(size, tail, 0, tail);
      while i < count
        invariant i <= count <= |bytes| && tail < size && tail == (tail0 + i) % size
        invariant Rotation(data[..], tail) == Last(size, rot + bytes[..i])
        invariant head == head0 && len == len0
      {
        RotationStore(data[..], tail, bytes[i]);
        LastStep(size, rot, bytes, i);
        ModStep(size, tail0 + i);
        data[tail] := bytes[i];
        i := i + 1;
        tail := (tail + 1) % size;
      }
      n := i;
      if filled + count <= size {
        BackAdvance(size, tail0, count, filled);
        LastWritten(size, rot, q, bytes[..count]);
        LastShort(size, q + bytes[..count]);
        assert count == |bytes| ==> bytes[..count] == bytes;
      } else {
        assert bytes[..count] == bytes;
        LastFull(size, rot);
        LastFull(size, Last(size, rot + bytes));
      }
    }

    /** The loop of pop(): it stops when the head meets the tail, `avail` bytes further on. */
    method Drain(buff: array<Byte>, want: nat, ghost avail: nat) returns (n: nat)
      requires tail < data.Length && 0 < avail <= data.Length && head == Back(data.Length, tail, avail)
      requires want <= buff.Length && buff != data
      modifies `head, buff
      ensures n == Min(want, avail) && head == Back(data.Length, tail, avail - n)
      ensures buff[..n] == Rotation(data[..], tail)[data.Length - avail..][..n] && buff[n..] == old(buff[n..])
    {
      hide Back, Rotation;
      ghost var view := Rotation(data[..], tail)[data.Length - avail..];
      n := 0;
      while n < want
        invariant n <= want && n < avail && head == Back(data.Length, tail, avail - n)
        invariant forall k :: 0 <= k < n ==> buff[k] == view[k]
        invariant forall k :: n <= k < buff.Length ==> buff[k] == old(buff[..])[k]
      {
        RotationAt(data[..], tail, avail - n);
        buff[n] := data[head];
        BackStep(data.Length, tail, avail - n);
        n := n + 1;
        head := (head + 1) % data.Length;
        if head == tail {
          break;
        }
      }
    }

    /** pop() into the first bytes of `buff`. It takes the oldest bytes iff there is one or none is wanted: a pop from
        an empty buffer returns whatever the array holds, and takes `m_len` below zero. */
    method Pop(buff: array<Byte>, want: nat) returns (n: nat)
      requires Valid() && want <= buff.Length && buff != data
      modifies this, buff
      ensures data[..] == old(data[..]) && tail == old(tail) < data.Length
      ensures n == Min(want, if old(len) > 0 then old(len) else data.Length)
      ensures buff[n..] == old(buff[n..])
      ensures Valid() && Contents() == old(Contents())[Min(want, old(len))..] && n == Min(want, old(len))
        <==> old(len) > 0 || want == 0
      ensures old(len) > 0 ==> buff[..n] == old(Contents())[..n]
      ensures old(len) == 0 ==> buff[..n] == Rotation(data[..], tail)[..n] && len == (WORD - n) % WORD
    {
      hide Back, Rotation, Last;
      ghost var rot, q := Rotation(data[..], tail), Contents();
      ghost var avail := if len > 0 then len else data.Length;
      LastFrom(len, rot);
      n := Drain(buff, want, avail);
      if len > 0 || want == 0 {
        LastPop(q, rot, n);
      }
      len := (len + WORD - n) % WORD;
    }
  }
}
