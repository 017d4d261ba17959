/** `RingBuffer` as a refinement of a bounded first-in first-out queue of bytes. */
module RingBuffers {
  import opened Bytes
  import opened Sequences
  import opened Wrappers

  // ---------- The abstract queue ----------

  /** The operations; string pushes and vector pushes behave alike, as do `popInto` and `pop(n)`. */
  datatype Op =
    | PushByte(b: Byte) | PushBytes(bs: seq<Byte>) | PushInto(bs: seq<Byte>)
    | PopByte | PopBytes(n: nat) | PeekByte | PeekBytes(n: nat) | Clear

  datatype Result = Result(queue: seq<Byte>, out: Outcome<seq<Byte>>)

  /** What one operation does to a queue bounded by `cap`. A call that throws changes nothing. */
  function QueueStep(cap: nat, q: seq<Byte>, op: Op): Result
  {
    match op
    case PushByte(b) =>
      if |q| == cap then Result(q, OutOfRange) else Result(q + [b], Ok([]))
    case PushBytes(bs) =>
      if |q| == cap || |q| + |bs| > cap then Result(q, OutOfRange) else Result(q + bs, Ok([]))
    case PushInto(bs) =>
      if |q| + |bs| > cap then Result(q, OutOfRange) else Result(q + bs, Ok([]))
    case PopByte =>
      if q == [] then Result(q, OutOfRange) else Result(q[1..], Ok(q[..1]))
    case PopBytes(n) =>
      if n > |q| then Result(q, OutOfRange) else Result(q[n..], Ok(q[..n]))
    case PeekByte =>
      if q == [] then Result(q, OutOfRange) else Result(q, Ok(q[..1]))
    case PeekBytes(n) =>
      if q == [] || n > |q| then Result(q, OutOfRange) else Result(q, Ok(q[..n]))
    case Clear => Result([], Ok([]))
  }

  function QueueRun(cap: nat, q: seq<Byte>, ops: seq<Op>): (seq<Byte>, seq<Outcome<seq<Byte>>>)
    decreases |ops|
  {
    if ops == [] then (q, [])
    else
      var r := QueueStep(cap, q, ops[0]);
      var (q', outs) := QueueRun(cap, r.queue, ops[1..]);
      (q', [r.out] + outs)
  }

  /** Bytes that an operation with the given outcome put in. */
  function Inserted(op: Op, out: Outcome<seq<Byte>>): seq<Byte>
  {
    if !out.Ok? then []
    else match op
      case PushByte(b) => [b]
      case PushBytes(bs) => bs
      case PushInto(bs) => bs
      case _ => []
  }

  /** Bytes that an operation with the given outcome took out. */
  function Removed(op: Op, out: Outcome<seq<Byte>>): seq<Byte>
  {
    if (op.PopByte? || op.PopBytes?) && out.Ok? then out.value else []
  }

  function PushedBytes(ops: seq<Op>, outs: seq<Outcome<seq<Byte>>>): seq<Byte>
    requires |ops| == |outs|
  {
    if ops == [] then [] else Inserted(ops[0], outs[0]) + PushedBytes(ops[1..], outs[1..])
  }

  function PoppedBytes(ops: seq<Op>, outs: seq<Outcome<seq<Byte>>>): seq<Byte>
    requires |ops| == |outs|
  {
    if ops == [] then [] else Removed(ops[0], outs[0]) + PoppedBytes(ops[1..], outs[1..])
  }

  lemma {:induction false} OneOutcomeEach(cap: nat, q: seq<Byte>, ops: seq<Op>)
    ensures |QueueRun(cap, q, ops).1| == |ops|
    decreases |ops|
  {
    if ops != [] {
      OneOutcomeEach(cap, QueueStep(cap, q, ops[0]).queue, ops[1..]);
    }
  }

  /**
   Conservation over every operation sequence without `clear`: what was there and what was pushed is
   what was popped followed by what is there, in order, and the bound holds throughout.
   */
  lemma {:induction false} NothingLostOrReordered(cap: nat, q: seq<Byte>, ops: seq<Op>)
    requires |q| <= cap && Clear !in ops
    ensures var (q', outs) := QueueRun(cap, q, ops);
            && |outs| == |ops| && |q'| <= cap
            && q + PushedBytes(ops, outs) == PoppedBytes(ops, outs) + q'
    decreases |ops|
  {
    OneOutcomeEach(cap, q, ops);
    if ops == [] {
      assert q + [] == [] + q;
    } else {
      var r := QueueStep(cap, q, ops[0]);
      StepConserves(cap, q, ops[0]);
      NothingLostOrReordered(cap, r.queue, ops[1..]);
      var (q', outs) := QueueRun(cap, r.queue, ops[1..]);
      var all := QueueRun(cap, q, ops).1;
      assert all[0] == r.out && all[1..] == outs;
      Chain(q, Inserted(ops[0], r.out), PushedBytes(ops[1..], outs),
            Removed(ops[0], r.out), PoppedBytes(ops[1..], outs), r.queue, q');
    }
  }

  lemma Chain(q: seq<Byte>, i: seq<Byte>, i': seq<Byte>, o: seq<Byte>, o': seq<Byte>, m: seq<Byte>, q': seq<Byte>)
    requires q + i == o + m && m + i' == o' + q'
    ensures q + (i + i') == (o + o') + q'
  {
    SeqAssoc(q, i, i');
    SeqAssoc(o, m, i');
    SeqAssoc(o, o', q');
  }

  lemma StepConserves(cap: nat, q: seq<Byte>, op: Op)
    requires |q| <= cap && op != Clear
    ensures var r := QueueStep(cap, q, op);
            |r.queue| <= cap && q + Inserted(op, r.out) == Removed(op, r.out) + r.queue
  {
    match op
    case PopByte => assert q != [] ==> q == q[..1] + q[1..];
    case PopBytes(n) => assert n <= |q| ==> q == q[..n] + q[n..];
    case _ =>
  }

  /** The operations that succeeded, and their outcomes. */
  function Successful(ops: seq<Op>, outs: seq<Outcome<seq<Byte>>>): (seq<Op>, seq<Outcome<seq<Byte>>>)
    requires |ops| == |outs|
  {
    if ops == [] then ([], [])
    else
      var (os, rs) := Successful(ops[1..], outs[1..]);
      if outs[0].Ok? then ([ops[0]] + os, [outs[0]] + rs) else (os, rs)
  }

  /**
   Calls that throw leave no trace: over every operation sequence, leaving them out gives the same
   final contents and the same outcomes for all the others.
   */
  lemma {:induction false} ThrowingLeavesNoTrace(cap: nat, q: seq<Byte>, ops: seq<Op>)
    ensures var (q', outs) := QueueRun(cap, q, ops);
            && |outs| == |ops|
            && QueueRun(cap, q, Successful(ops, outs).0) == (q', Successful(ops, outs).1)
    decreases |ops|
  {
    OneOutcomeEach(cap, q, ops);
    if ops != [] {
      var r := QueueStep(cap, q, ops[0]);
      ThrowingLeavesNoTrace(cap, r.queue, ops[1..]);
      var (q', outs) := QueueRun(cap, r.queue, ops[1..]);
      var all := QueueRun(cap, q, ops).1;
      assert all[0] == r.out && all[1..] == outs;
      var (os, rs) := Successful(ops[1..], outs);
      if r.out.Ok? {
        assert ([ops[0]] + os)[0] == ops[0] && ([ops[0]] + os)[1..] == os;
      } else {
        assert r.queue == q;
      }
    }
  }

  /** `peek(n)` returns what `pop(n)` would, except that it refuses to peek nothing at nothing. */
  lemma PeekIsPop(cap: nat, q: seq<Byte>, n: nat)
    ensures QueueStep(cap, q, PeekBytes(n)).out == QueueStep(cap, q, PopBytes(n)).out
            <==> !(q == [] && n == 0)
  {
  }

  /** `peek()` returns what `pop()` would, which is what `pop(1)` would, and takes nothing. */
  lemma PeekByteIsPop(cap: nat, q: seq<Byte>)
    ensures QueueStep(cap, q, PeekByte) == Result(q, QueueStep(cap, q, PopByte).out)
    ensures QueueStep(cap, q, PopByte) == QueueStep(cap, q, PopBytes(1))
  {
  }

  function Singles(bs: seq<Byte>): (ops: seq<Op>)
    ensures |ops| == |bs|
  {
    seq(|bs|, i requires 0 <= i < |bs| => PushByte(bs[i]))
  }

  /** Single pushes all succeed exactly when there is room. */
  lemma {:induction false} SinglePushes(cap: nat, q: seq<Byte>, bs: seq<Byte>)
    requires |q| <= cap
    ensures var (q', outs) := QueueRun(cap, q, Singles(bs));
            && ((forall i :: 0 <= i < |outs| ==> outs[i].Ok?) <==> |q| + |bs| <= cap)
            && (|q| + |bs| <= cap ==> q' == q + bs)
    decreases |bs|
  {
    if bs == [] {
      assert q + bs == q;
    } else {
      assert Singles(bs)[0] == PushByte(bs[0]) && Singles(bs)[1..] == Singles(bs[1..]);
      var r := QueueStep(cap, q, PushByte(bs[0]));
      SinglePushes(cap, r.queue, bs[1..]);
      var (q', outs) := QueueRun(cap, r.queue, Singles(bs[1..]));
      var all := QueueRun(cap, q, Singles(bs)).1;
      assert all == [r.out] + outs;
      if |q| + |bs| <= cap {
        assert q + [bs[0]] + bs[1..] == q + bs;
        assert forall i :: 0 <= i < |all| ==> all[i].Ok?;
      } else if !r.out.Ok? {
        assert !all[0].Ok?;
        assert QueueRun(cap, q, Singles(bs)).1[0] == all[0];
      } else {
        var i :| 0 <= i < |outs| && !outs[i].Ok?;
        assert all[i + 1] == outs[i];
      }
    }
  }

  /**
   A bulk push against the single pushes of its bytes: it leaves what they leave whenever it
   succeeds, and it refuses where they all succeed exactly when nothing is pushed on a full buffer.
   The raw push succeeds exactly when all of them do.
   */
  lemma BulkPushIsIterated(cap: nat, q: seq<Byte>, bs: seq<Byte>)
    requires |q| <= cap
    ensures var (q', outs) := QueueRun(cap, q, Singles(bs));
            var all := forall i :: 0 <= i < |outs| ==> outs[i].Ok?;
            var bulk, raw := QueueStep(cap, q, PushBytes(bs)), QueueStep(cap, q, PushInto(bs));
            && (bulk.out.Ok? ==> all && bulk.queue == q')
            && (all && !bulk.out.Ok? <==> |q| == cap && bs == [])
            && (raw.out.Ok? <==> all) && (raw.out.Ok? ==> raw.queue == q')
  {
    SinglePushes(cap, q, bs);
  }

  function Pops(n: nat): (ops: seq<Op>)
    ensures |ops| == n
  {
    seq(n, _ => PopByte)
  }

  /** Single pops take the oldest bytes and all succeed exactly when there are enough. */
  lemma {:induction false} SinglePops(cap: nat, q: seq<Byte>, n: nat)
    ensures var (q', outs) := QueueRun(cap, q, Pops(n));
            && |outs| == n && (AllOk(outs) <==> n <= |q|)
            && (n <= |q| ==> q' == q[n..] && PoppedBytes(Pops(n), outs) == q[..n])
    decreases n
  {
    if n > 0 {
      assert Pops(n)[0] == PopByte && Pops(n)[1..] == Pops(n - 1);
      var r := QueueStep(cap, q, PopByte);
      SinglePops(cap, r.queue, n - 1);
      var outs := QueueRun(cap, r.queue, Pops(n - 1)).1;
      var all := QueueRun(cap, q, Pops(n)).1;
      assert all == [r.out] + outs && all[1..] == outs;
      AllOkCons(r.out, outs);
      if n <= |q| {
        assert q[1..][n - 1..] == q[n..];
        assert q[..1] + q[1..][..n - 1] == q[..n];
      }
    }
  }

  predicate AllOk(outs: seq<Outcome<seq<Byte>>>)
  {
    forall i :: 0 <= i < |outs| ==> outs[i].Ok?
  }

  lemma AllOkCons(out: Outcome<seq<Byte>>, outs: seq<Outcome<seq<Byte>>>)
    ensures AllOk([out] + outs) <==> out.Ok? && AllOk(outs)
  {
    var all := [out] + outs;
    assert all[0] == out;
    assert forall i :: 0 <= i < |outs| ==> all[i + 1] == outs[i];
  }

  /** A bulk pop succeeds exactly when that many single pops all do, and then does what they do. */
  lemma BulkPopIsIterated(cap: nat, q: seq<Byte>, n: nat)
    ensures var (q', outs) := QueueRun(cap, q, Pops(n));
            var bulk := QueueStep(cap, q, PopBytes(n));
            && |outs| == n && (bulk.out.Ok? <==> forall i :: 0 <= i < |outs| ==> outs[i].Ok?)
            && (bulk.out.Ok? ==> q' == bulk.queue && PoppedBytes(Pops(n), outs) == bulk.out.value)
  {
    SinglePops(cap, q, n);
  }

  // ---------- The array ----------

  /** Index of the `i`-th byte after `tail` in a ring of `n` slots. */
  function Slot(n: nat, tail: nat, i: nat): nat
    requires tail < n && i <= n
  {
    if tail + i < n then tail + i else tail + i - n
  }

  lemma SlotIsModular(n: nat, tail: nat, i: nat)
    requires tail < n && i <= n
    ensures Slot(n, tail, i) == (tail + i) % n
  {
    RemainderUnique(tail + i, n, if tail + i < n then 0 else 1);
  }

  lemma RemainderUnique(x: nat, n: nat, q: nat)
    requires q <= 1 && q * n <= x < q * n + n
    ensures x % n == x - q * n
  {
    var k, r := x / n, x % n;
    assert x == k * n + r && 0 <= r < n;
    if k > q {
      TimesMonotone(q + 1, k, n);
    }
  }

  lemma TimesMonotone(a: nat, b: nat, n: nat)
    requires a <= b
    ensures a * n <= b * n
  {
  }

  function Window(data: seq<Byte>, tail: nat, size: nat): (r: seq<Byte>)
    requires size <= |data| && (|data| > 0 ==> tail < |data|)
    ensures |r| == size
  {
    seq(size, i requires 0 <= i < size => data[Slot(|data|, tail, i)])
  }

  lemma WindowPush(data: seq<Byte>, tail: nat, size: nat, b: Byte)
    requires size < |data| && tail < |data|
    ensures Window(data[Slot(|data|, tail, size) := b], tail, size + 1) == Window(data, tail, size) + [b]
  {
  }

  lemma WindowPop(data: seq<Byte>, tail: nat, size: nat)
    requires 0 < size <= |data| && tail < |data|
    ensures Window(data, tail, size)[0] == data[tail]
    ensures Window(data, Slot(|data|, tail, 1), size - 1) == Window(data, tail, size)[1..]
  {
  }

  lemma TakeOver(taken: seq<Byte>, kept: seq<Byte>, b: Byte)
    requires kept != []
    ensures (taken + kept)[|taken| := b] == taken + [b] + kept[1..]
  {
  }

  class RingBuffer {
    const buffer: array<Byte>
    var head: nat
    var tail: nat
    var size: nat

    ghost predicate Valid()
      reads this
    {
      var n := buffer.Length;
      && size <= n
      && (n == 0 ==> head == 0 && tail == 0)
      && (n > 0 ==> tail < n && head == Slot(n, tail, size))
    }

    /** The bytes held, oldest first. */
    ghost function Contents(): seq<Byte>
      requires Valid()
      reads this, buffer
    {
      Window(buffer[..], tail, size)
    }

    constructor (capacity: nat)
      ensures Valid() && fresh(buffer) && buffer.Length == capacity && Contents() == []
    {
      buffer := new Byte[capacity];
      head, tail, size := 0, 0, 0;
    }

    method IsFull() returns (full: bool)
      requires Valid()
      ensures full <==> |Contents()| == buffer.Length
    {
      full := buffer.Length == size;
    }

    method CapacityAvailable() returns (n: nat)
      requires Valid()
      ensures n == buffer.Length - |Contents()|
    {
      n := buffer.Length - size;
    }

    /** The three lines every push repeats. */
    method Store(b: Byte)
      requires Valid() && size < buffer.Length
      modifies this`head, this`size, buffer
      ensures Valid() && Contents() == old(Contents()) + [b]
    {
      WindowPush(buffer[..], tail, size, b);
      ghost var before, n := buffer[..], buffer.Length;
      buffer[head] := b;
      assert buffer[..] == before[head := b];
      SlotIsModular(n, head, 1);
      head := (head + 1) % buffer.Length;
      size := size + 1;
    }

    /** The three lines every pop repeats. */
    method Fetch() returns (b: Byte)
      requires Valid() && size > 0
      modifies this`tail, this`size
      ensures Valid() && old(Contents()) == [b] + Contents()
    {
      WindowPop(buffer[..], tail, size);
      SlotIsModular(buffer.Length, tail, 1);
      b := buffer[tail];
      tail := (tail + 1) % buffer.Length;
      size := size - 1;
      assert old(Contents()) == [old(Contents())[0]] + old(Contents())[1..];
    }

    method StoreAll(bytes: seq<Byte>)
      requires Valid() && size + |bytes| <= buffer.Length
      modifies this`head, this`size, buffer
      ensures Valid() && Contents() == old(Contents()) + bytes
    {
      var i := 0;
      while i < |bytes|
        invariant 0 <= i <= |bytes| && Valid()
        invariant Contents() == old(Contents()) + bytes[..i]
      {
        Store(bytes[i]);
        assert bytes[..i] + [bytes[i]] == bytes[..i + 1];
        SeqAssoc(old(Contents()), bytes[..i], [bytes[i]]);
        i := i + 1;
      }
      assert bytes[..i] == bytes;
    }

    method PushByte(b: Byte) returns (out: Outcome<seq<Byte>>)
      requires Valid()
      modifies this`head, this`size, buffer
      ensures Valid()
      ensures Result(Contents(), out) == QueueStep(buffer.Length, old(Contents()), Op.PushByte(b))
    {
      var full := IsFull();
      if full {
        return OutOfRange;
      }
      Store(b);
      out := Ok([]);
    }

    method PushBytes(bytes: seq<Byte>) returns (out: Outcome<seq<Byte>>)
      requires Valid()
      modifies this`head, this`size, buffer
      ensures Valid()
      ensures Result(Contents(), out) == QueueStep(buffer.Length, old(Contents()), Op.PushBytes(bytes))
    {
      var full := IsFull();
      if full {
        return OutOfRange;
      }
      if |bytes| > buffer.Length - size {
        return OutOfRange;
      }
      StoreAll(bytes);
      out := Ok([]);
    }

    method PushInto(bytes: seq<Byte>) returns (out: Outcome<seq<Byte>>)
      requires Valid()
      modifies this`head, this`size, buffer
      ensures Valid()
      ensures Result(Contents(), out) == QueueStep(buffer.Length, old(Contents()), Op.PushInto(bytes))
    {
      var room := CapacityAvailable();
      if room < |bytes| {
        return OutOfRange;
      }
      StoreAll(bytes);
      out := Ok([]);
    }

    method PopByte() returns (out: Outcome<seq<Byte>>)
      requires Valid()
      modifies this`tail, this`size
      ensures Valid()
      ensures Result(Contents(), out) == QueueStep(buffer.Length, old(Contents()), Op.PopByte)
    {
      if size == 0 {
        return OutOfRange;
      }
      var b := Fetch();
      out := Ok([b]);
      assert old(Contents())[..1] == [b] && old(Contents())[1..] == Contents();
    }

    method PopBytes(n: nat) returns (out: Outcome<seq<Byte>>)
      requires Valid()
      modifies this`tail, this`size
      ensures Valid()
      ensures Result(Contents(), out) == QueueStep(buffer.Length, old(Contents()), Op.PopBytes(n))
    {
      if n > size {
        return OutOfRange;
      }
      var bytes := FetchAll(n);
      out := Ok(bytes);
      assert old(Contents())[..n] == bytes && old(Contents())[n..] == Contents();
    }

    method FetchAll(n: nat) returns (bytes: seq<Byte>)
      requires Valid() && n <= size
      modifies this`tail, this`size
      ensures Valid() && |bytes| == n && old(Contents()) == bytes + Contents()
    {
      bytes := [];
      var i := 0;
      while i < n
        invariant 0 <= i <= n && Valid() && |bytes| == i && size + i == old(size)
        invariant old(Contents()) == bytes + Contents()
      {
        ghost var before := bytes;
        var b := Fetch();
        bytes := bytes + [b];
        SeqAssoc(before, [b], Contents());
        i := i + 1;
      }
    }

    /** `popInto`: the bytes go to the front of the caller's memory, the rest of which is kept. */
    method PopInto(data: array<Byte>, n: nat) returns (ok: bool)
      requires Valid() && data != buffer && n <= data.Length
      modifies this`tail, this`size, data
      ensures Valid() && ok == (n <= old(size))
      ensures !ok ==> Contents() == old(Contents()) && data[..] == old(data[..])
      ensures ok ==> Contents() == old(Contents())[n..]
      ensures ok ==> data[..] == old(Contents())[..n] + old(data[..])[n..]
    {
      if n > size {
        return false;
      }
      ghost var taken: seq<Byte>, kept := [], data[..];
      var i := 0;
      while i < n
        invariant 0 <= i <= n && Valid() && size + i == old(size) && |taken| == i
        invariant old(Contents()) == taken + Contents()
        invariant kept == old(data[..])[i..] && data[..] == taken + kept
      {
        var b := Fetch();
        SeqAssoc(taken, [b], Contents());
        TakeOver(taken, kept, b);
        data[i] := b;
        taken, kept := taken + [b], kept[1..];
        i := i + 1;
      }
      ok := true;
      assert old(Contents())[..n] == taken && old(Contents())[n..] == Contents();
    }

    method PeekByte() returns (out: Outcome<seq<Byte>>)
      requires Valid()
      ensures Result(Contents(), out) == QueueStep(buffer.Length, Contents(), Op.PeekByte)
    {
      if size == 0 {
        return OutOfRange;
      }
      WindowPop(buffer[..], tail, size);
      out := Ok([buffer[tail]]);
      assert Contents()[..1] == [buffer[tail]];
    }

    method PeekBytes(n: nat) returns (out: Outcome<seq<Byte>>)
      requires Valid()
      ensures Result(Contents(), out) == QueueStep(buffer.Length, Contents(), Op.PeekBytes(n))
    {
      if size == 0 {
        return OutOfRange;
      }
      if n > size {
        return OutOfRange;
      }
      var bytes: seq<Byte> := [];
      var idx, i := tail, 0;
      while i < n
        invariant 0 <= i <= n && idx == Slot(buffer.Length, tail, i)
        invariant bytes == Contents()[..i]
      {
        assert buffer[idx] == Contents()[i];
        bytes := bytes + [buffer[idx]];
        SlotIsModular(buffer.Length, idx, 1);
        idx := (idx + 1) % buffer.Length;
        i := i + 1;
      }
      out := Ok(bytes);
    }

    method Clear()
      modifies this`head, this`tail, this`size
      ensures Valid() && Contents() == []
    {
      head, tail, size := 0, 0, 0;
    }

    method Perform(op: Op) returns (out: Outcome<seq<Byte>>)
      requires Valid()
      modifies this, buffer
      ensures Valid()
      ensures Result(Contents(), out) == QueueStep(buffer.Length, old(Contents()), op)
    {
      match op
      case PushByte(b) => out := PushByte(b);
      case PushBytes(bs) => out := PushBytes(bs);
      case PushInto(bs) => out := PushInto(bs);
      case PopByte => out := PopByte();
      case PopBytes(n) => out := PopBytes(n);
      case PeekByte => out := PeekByte();
      case PeekBytes(n) => out := PeekBytes(n);
      case Clear => Clear(); out := Ok([]);
    }

    /** Over every operation sequence the ring buffer and the bounded queue give the same outcomes. */
    method PerformAll(ops: seq<Op>) returns (outs: seq<Outcome<seq<Byte>>>)
      requires Valid()
      modifies this, buffer
      ensures Valid()
      ensures (Contents(), outs) == QueueRun(buffer.Length, old(Contents()), ops)
    {
      outs := [];
      var i := 0;
      assert ops[0..] == ops;
      ghost var start := QueueRun(buffer.Length, Contents(), ops);
      assert [] + start.1 == start.1;
      while i < |ops|
        invariant 0 <= i <= |ops| && Valid()
        invariant var (q, later) := QueueRun(buffer.Length, Contents(), ops[i..]);
                  QueueRun(buffer.Length, old(Contents()), ops) == (q, outs + later)
      {
        ghost var before, q := outs, Contents();
        assert ops[i..][0] == ops[i] && ops[i..][1..] == ops[i + 1..];
        var out := Perform(ops[i]);
        outs := outs + [out];
        SeqAssoc(before, [out], QueueRun(buffer.Length, Contents(), ops[i + 1..]).1);
        i := i + 1;
      }
      assert ops[i..] == [] && outs + [] == outs;
    }
  }
}
