/** `Pool` as a slot allocator with explicit object lifetimes. */
module Pools {
  import opened Bytes

  /**
   A `Pool::Object`: whether its `_pool_ptr` is set, its index, the value in its storage, and the
   number of constructor calls minus destructor calls made on that storage.
   */
  datatype Slot<T> = Slot(owned: bool, idx: int, value: T, live: int)

  function Destroyed<T>(s: Slot<T>): Slot<T>
  {
    s.(live := s.live - 1)
  }

  function Constructed<T>(s: Slot<T>, v: T): Slot<T>
  {
    s.(live := s.live + 1, value := v)
  }

  /** `Object()` constructs a default value in place. */
  function NewSlot<T>(default: T): Slot<T>
  {
    Slot(false, 0, default, 1)
  }

  predicate Distinct(s: seq<int>)
  {
    forall i, j :: 0 <= i < j < |s| ==> s[i] != s[j]
  }

  /** Free stack without duplicates or strays; a slot is on it exactly when it is unowned. */
  ghost predicate Linked<T(!new)>(objects: seq<Slot<T>>, available: seq<int>)
  {
    && Distinct(available)
    && (forall k :: 0 <= k < |available| ==> 0 <= available[k] < |objects|)
    && (forall i :: 0 <= i < |objects| ==> objects[i].idx == i)
    && (forall i :: 0 <= i < |objects| ==> (i in available <==> !objects[i].owned))
  }

  predicate AllLive<T>(objects: seq<Slot<T>>)
  {
    forall i :: 0 <= i < |objects| ==> objects[i].live == 1
  }

  predicate AllDead<T>(objects: seq<Slot<T>>)
  {
    forall i :: 0 <= i < |objects| ==> objects[i].live == 0
  }

  /** A well-linked pool with one live value in each slot. */
  ghost predicate Sound<T(!new)>(objects: seq<Slot<T>>, available: seq<int>)
  {
    Linked(objects, available) && AllLive(objects)
  }

  ghost function Outstanding<T>(objects: seq<Slot<T>>): set<int>
  {
    set i | 0 <= i < |objects| && objects[i].owned
  }

  lemma {:induction false} DistinctCount(s: seq<int>)
    requires Distinct(s)
    ensures |set x | x in s| == |s|
  {
    if s != [] {
      PopMembers(s);
      var rest, last := s[..|s| - 1], s[|s| - 1];
      DistinctCount(rest);
      assert (set x | x in s) == (set x | x in rest) + {last};
    }
  }

  ghost function Range(n: nat): (r: set<int>)
    ensures |r| == n && forall i :: i in r <==> 0 <= i < n
  {
    if n == 0 then {} else Range(n - 1) + {n - 1}
  }

  /** Slots are conserved: those handed out and those on the free stack add up to the pool. */
  lemma SlotsConserved<T(!new)>(objects: seq<Slot<T>>, available: seq<int>)
    requires Linked(objects, available)
    ensures |Outstanding(objects)| + |available| == |objects|
  {
    var free := set x | x in available;
    DistinctCount(available);
    assert Outstanding(objects) + free == Range(|objects|) && Outstanding(objects) !! free;
  }

  // ---------- resize ----------

  function DestroyAll<T>(objects: seq<Slot<T>>): (r: seq<Slot<T>>)
    ensures |r| == |objects|
  {
    seq(|objects|, i requires 0 <= i < |objects| => Destroyed(objects[i]))
  }

  /** Indices pushed on the free stack when these `Object`s are destroyed: the owned ones release. */
  function ReleasedBy<T>(dying: seq<Slot<T>>): seq<int>
  {
    if dying == [] then []
    else (if dying[0].owned then [dying[0].idx] else []) + ReleasedBy(dying[1..])
  }

  /**
   `std::vector::resize` on the slots. Dropped slots are destroyed; a growing vector that reallocates
   copies its slots and destroys the originals.
   */
  function VectorResize<T>(objects: seq<Slot<T>>, n: nat, reallocates: bool, default: T): (r: (seq<Slot<T>>, seq<int>))
    ensures |r.0| == n
  {
    if n <= |objects| then (objects[..n], ReleasedBy(objects[n..]))
    else (objects + seq(n - |objects|, _ => NewSlot(default)), if reallocates then ReleasedBy(objects) else [])
  }

  /** `static_cast<int>` of a `size_t`. */
  function AsInt(n: nat): int
  {
    if n % TWO_32 < 0x8000_0000 then n % TWO_32 else n % TWO_32 - TWO_32
  }

  /** Slots that the numbering loop reaches: all of them only below 2^31. */
  function Reached(n: nat): (m: nat)
    ensures m <= n && (m == n <==> n < 0x8000_0000)
  {
    if AsInt(n) < 0 then 0 else AsInt(n)
  }

  function Renumbered<T>(objects: seq<Slot<T>>, m: nat): (r: seq<Slot<T>>)
    ensures |r| == |objects|
  {
    seq(|objects|, i requires 0 <= i < |objects| => if i < m then objects[i].(idx := i) else objects[i])
  }

  function UpTo(n: nat): (r: seq<int>)
    ensures |r| == n
  {
    seq(n, i => i)
  }

  function Resized<T>(objects: seq<Slot<T>>, n: nat, reallocates: bool, default: T): (seq<Slot<T>>, seq<int>)
  {
    var (slots, stack) := VectorResize(DestroyAll(objects), n, reallocates, default);
    (Renumbered(slots, Reached(n)), stack + UpTo(Reached(n)))
  }

  predicate NoneOwned<T>(objects: seq<Slot<T>>)
  {
    forall i :: 0 <= i < |objects| ==> !objects[i].owned
  }

  lemma {:induction false} ReleasedByNone<T>(dying: seq<Slot<T>>)
    ensures ReleasedBy(dying) == [] <==> NoneOwned(dying)
  {
    if dying != [] {
      ReleasedByNone(dying[1..]);
      if NoneOwned(dying[1..]) && !dying[0].owned {
        assert forall i :: 1 <= i < |dying| ==> dying[i] == dying[1..][i - 1];
      }
    }
  }

  /** A dying slot puts its index on the free stack exactly when it is handed out. */
  lemma {:induction false} ReleasedExactly<T>(dying: seq<Slot<T>>, i: int)
    ensures i in ReleasedBy(dying) <==> exists k :: 0 <= k < |dying| && dying[k].owned && dying[k].idx == i
  {
    if dying != [] {
      var tail := dying[1..];
      ReleasedExactly(tail, i);
      assert forall k :: 0 <= k < |tail| ==> tail[k] == dying[k + 1];
      if k :| 0 <= k < |dying| && dying[k].owned && dying[k].idx == i {
        assert k > 0 ==> tail[k - 1] == dying[k];
      }
    }
  }

  /**
   What `resize` does to each slot: one that survives keeps its owner and its value, which is dead; a new
   one is free and holds a default value.
   */
  lemma ResizeSlots<T>(objects: seq<Slot<T>>, n: nat, reallocates: bool, default: T, k: nat)
    requires k < n
    ensures var slots := Resized(objects, n, reallocates, default).0;
            && |slots| == n && (n < 0x8000_0000 ==> slots[k].idx == k)
            && slots[k].owned == (k < |objects| && objects[k].owned)
            && slots[k].value == (if k < |objects| then objects[k].value else default)
            && slots[k].live == if k < |objects| then objects[k].live - 1 else 1
  {
  }

  lemma ResizeEmpty<T>(n: nat, reallocates: bool, default: T)
    ensures var (slots, stack) := Resized([], n, reallocates, default);
            && |slots| == n && stack == UpTo(Reached(n)) && NoneOwned(slots)
            && forall i :: 0 <= i < n ==> slots[i] == Slot(false, if i < Reached(n) then i else 0, default, 1)
  {
    var none: seq<Slot<T>> := [];
    assert DestroyAll(none) == [] && ReleasedBy(none) == [];
    assert none[..0] == [] && none[0..] == [];
  }

  lemma ResizeEmptySound<T(!new)>(n: nat, reallocates: bool, default: T)
    ensures var (slots, stack) := Resized([], n, reallocates, default);
            (Linked(slots, stack) <==> n < 0x8000_0000) && (Linked(slots, stack) ==> Sound(slots, stack))
  {
    ResizeEmpty(n, reallocates, default);
    var (slots, stack) := Resized([], n, reallocates, default);
    var m := Reached(n);
    if m == n {
      forall i | 0 <= i < n
        ensures i in stack
      {
        assert stack[i] == i;
      }
    } else if m == 0 {
      assert 0 !in stack && !slots[0].owned;
    } else {
      assert slots[m].idx != m;
    }
  }

  lemma ResizeToNothing<T(!new)>(objects: seq<Slot<T>>, reallocates: bool, default: T)
    requires objects != []
    ensures var (slots, stack) := Resized(objects, 0, reallocates, default);
            Sound(slots, stack) <==> NoneOwned(objects)
  {
    var dying := DestroyAll(objects);
    assert dying[0..] == dying;
    ReleasedByNone(dying);
    var (slots, stack) := Resized(objects, 0, reallocates, default);
    assert stack == ReleasedBy(dying);
    assert NoneOwned(dying) <==> NoneOwned(objects) by {
      assert forall i :: 0 <= i < |objects| ==> dying[i].owned == objects[i].owned;
    }
    if stack != [] {
      assert !(0 <= stack[0] < |slots|);
    }
  }

  /**
   `resize` is public and may be called again; the header only warns that existing objects are
   destroyed. It leaves a sound pool exactly when there was no slot before and the size fits an `int`,
   or when all slots are given up and none is handed out: a surviving slot keeps storage whose value
   has been destroyed, a dying owned slot pushes a stale index, and from 2^31 slots on the numbering
   loop stops short.
   */
  lemma ResizeSoundExactly<T(!new)>(objects: seq<Slot<T>>, available: seq<int>, n: nat, reallocates: bool, default: T)
    requires Sound(objects, available)
    ensures var (slots, stack) := Resized(objects, n, reallocates, default);
            Sound(slots, stack)
            <==> (objects == [] && n < 0x8000_0000) || (n == 0 && NoneOwned(objects))
  {
    if objects == [] {
      ResizeEmptySound(n, reallocates, default);
    } else if n == 0 {
      ResizeToNothing(objects, reallocates, default);
    } else {
      var (slots, stack) := Resized(objects, n, reallocates, default);
      assert slots[0].live == 0;
    }
  }

  /** A pool of one free slot, resized to one slot, holds a slot whose value is dead. */
  lemma ResizeKillsValue<T(!new)>(v: T)
    ensures Sound([Slot(false, 0, v, 1)], [0])
    ensures var (slots, stack) := Resized([Slot(false, 0, v, 1)], 1, false, v);
            slots == [Slot(false, 0, v, 0)] && !Sound(slots, stack)
  {
    var (slots, stack) := Resized([Slot(false, 0, v, 1)], 1, false, v);
    assert slots[0] == Slot(false, 0, v, 0);
  }

  /** An empty pool given 2^31 slots has none it could hand out. */
  lemma TooManySlotsAreUnreachable<T(!new)>(v: T)
    ensures var (slots, stack) := Resized([], 0x8000_0000, true, v);
            |slots| == 0x8000_0000 && stack == [] && !Sound(slots, stack)
  {
    ResizeEmpty(0x8000_0000, true, v);
    ResizeEmptySound(0x8000_0000, true, v);
  }

  // ---------- acquire and release ----------

  /** `acquire`: the top slot is claimed and its value destroyed before the constructor is called. */
  function AfterAcquire<T>(objects: seq<Slot<T>>, available: seq<int>, value: T, constructs: bool)
    : (seq<Slot<T>>, seq<int>)
  {
    if available == [] then (objects, available)
    else
      var i := available[|available| - 1];
      if !(0 <= i < |objects|) then (objects, available)
      else
        var claimed := Destroyed(objects[i].(owned := true));
        (objects[i := if constructs then Constructed(claimed, value) else claimed], available[..|available| - 1])
  }

  function AfterRelease<T>(objects: seq<Slot<T>>, available: seq<int>, i: nat): (seq<Slot<T>>, seq<int>)
  {
    if i < |objects| && objects[i].owned then
      (objects[i := objects[i].(owned := false)], available + [objects[i].idx])
    else (objects, available)
  }

  /** `constructs` says whether the constructor returns; `i` is the slot of the object given back. */
  datatype Op<T> = Acquire(value: T, constructs: bool) | Release(i: nat)

  function After<T>(objects: seq<Slot<T>>, available: seq<int>, op: Op<T>): (seq<Slot<T>>, seq<int>)
  {
    match op
    case Acquire(value, constructs) => AfterAcquire(objects, available, value, constructs)
    case Release(i) => AfterRelease(objects, available, i)
  }

  function AfterAll<T>(objects: seq<Slot<T>>, available: seq<int>, ops: seq<Op<T>>): (seq<Slot<T>>, seq<int>)
    decreases |ops|
  {
    if ops == [] then (objects, available)
    else
      var (slots, stack) := After(objects, available, ops[0]);
      AfterAll(slots, stack, ops[1..])
  }

  predicate Throws<T>(available: seq<int>, op: Op<T>)
  {
    op.Acquire? && !op.constructs && available != []
  }

  /** How many constructors were called and threw. */
  function Thrown<T>(objects: seq<Slot<T>>, available: seq<int>, ops: seq<Op<T>>): nat
    decreases |ops|
  {
    if ops == [] then 0
    else
      var (slots, stack) := After(objects, available, ops[0]);
      (if Throws(available, ops[0]) then 1 else 0) + Thrown(slots, stack, ops[1..])
  }

  lemma PopMembers(s: seq<int>)
    requires s != [] && Distinct(s)
    ensures Distinct(s[..|s| - 1])
    ensures forall k :: k in s[..|s| - 1] <==> k in s && k != s[|s| - 1]
  {
    var rest, last := s[..|s| - 1], s[|s| - 1];
    assert s == rest + [last];
    assert forall j :: 0 <= j < |rest| ==> rest[j] == s[j];
  }

  lemma LinkedPop<T(!new)>(objects: seq<Slot<T>>, available: seq<int>, slot: Slot<T>)
    requires Linked(objects, available) && available != []
    requires slot.owned && slot.idx == available[|available| - 1]
    ensures !objects[slot.idx].owned && Linked(objects[slot.idx := slot], available[..|available| - 1])
  {
    PopMembers(available);
    var i, slots := slot.idx, objects[slot.idx := slot];
    assert i in available;
    assert forall k :: 0 <= k < |slots| ==> slots[k] == if k == i then slot else objects[k];
  }

  lemma LinkedPush<T(!new)>(objects: seq<Slot<T>>, available: seq<int>, i: nat)
    requires Linked(objects, available) && i < |objects| && objects[i].owned
    ensures Linked(objects[i := objects[i].(owned := false)], available + [i])
  {
    var more := available + [i];
    assert forall k :: k in more <==> k in available || k == i;
  }

  /** No call breaks the links, not even an `acquire` whose constructor throws. */
  lemma LinkedStep<T(!new)>(objects: seq<Slot<T>>, available: seq<int>, op: Op<T>)
    requires Linked(objects, available)
    ensures var (slots, stack) := After(objects, available, op);
            Linked(slots, stack) && |slots| == |objects|
  {
    var (slots, stack) := After(objects, available, op);
    if op.Acquire? && available != [] {
      LinkedPop(objects, available, slots[available[|available| - 1]]);
    } else if op.Release? && op.i < |objects| && objects[op.i].owned {
      LinkedPush(objects, available, op.i);
    }
  }

  /** Constructor calls minus destructor calls over all the storage. */
  function Lives<T>(objects: seq<Slot<T>>): int
  {
    if objects == [] then 0 else objects[0].live + Lives(objects[1..])
  }

  lemma {:induction false} LivesUpdate<T>(objects: seq<Slot<T>>, i: nat, s: Slot<T>)
    requires i < |objects|
    ensures Lives(objects[i := s]) == Lives(objects) - objects[i].live + s.live
  {
    if i == 0 {
      assert objects[i := s][1..] == objects[1..];
    } else {
      LivesUpdate(objects[1..], i - 1, s);
      assert objects[i := s][1..] == objects[1..][i - 1 := s];
    }
  }

  lemma {:induction false} LivesOfSound<T>(objects: seq<Slot<T>>)
    requires AllLive(objects)
    ensures Lives(objects) == |objects|
  {
    if objects != [] {
      LivesOfSound(objects[1..]);
    }
  }

  lemma {:induction false} LivesDestroyed<T>(objects: seq<Slot<T>>)
    ensures Lives(DestroyAll(objects)) == Lives(objects) - |objects|
  {
    if objects != [] {
      LivesDestroyed(objects[1..]);
      assert DestroyAll(objects)[1..] == DestroyAll(objects[1..]);
    }
  }

  lemma LivesStep<T(!new)>(objects: seq<Slot<T>>, available: seq<int>, op: Op<T>)
    requires Linked(objects, available)
    ensures var slots := After(objects, available, op).0;
            && Lives(slots) == Lives(objects) - (if Throws(available, op) then 1 else 0)
            && (AllLive(objects) ==> (AllLive(slots) <==> !Throws(available, op)))
  {
    var slots := After(objects, available, op).0;
    if op.Acquire? && available != [] {
      var i := available[|available| - 1];
      LivesUpdate(objects, i, slots[i]);
    } else if op.Release? && op.i < |objects| {
      LivesUpdate(objects, op.i, slots[op.i]);
    }
  }

  /** Over any calls the links hold, and each constructor that threw leaves one destruction too many. */
  lemma {:induction false} RunBalance<T(!new)>(objects: seq<Slot<T>>, available: seq<int>, ops: seq<Op<T>>)
    requires Linked(objects, available)
    ensures var (slots, stack) := AfterAll(objects, available, ops);
            && Linked(slots, stack) && |slots| == |objects|
            && Lives(slots) == Lives(objects) - Thrown(objects, available, ops)
            && (Thrown(objects, available, ops) == 0 && AllLive(objects) ==> AllLive(slots))
    decreases |ops|
  {
    if ops != [] {
      LinkedStep(objects, available, ops[0]);
      LivesStep(objects, available, ops[0]);
      var (slots, stack) := After(objects, available, ops[0]);
      RunBalance(slots, stack, ops[1..]);
    }
  }

  /** A sound pool is sound after any calls exactly when no constructor threw on the way. */
  lemma SoundRunExactly<T(!new)>(objects: seq<Slot<T>>, available: seq<int>, ops: seq<Op<T>>)
    requires Sound(objects, available)
    ensures var (slots, stack) := AfterAll(objects, available, ops);
            Sound(slots, stack) <==> Thrown(objects, available, ops) == 0
  {
    RunBalance(objects, available, ops);
    LivesOfSound(objects);
    var slots := AfterAll(objects, available, ops).0;
    if AllLive(slots) {
      LivesOfSound(slots);
    }
  }

  /**
   A pool's whole life, from its constructor through any calls to its destructor: every value that was
   constructed is destroyed exactly once if and only if no constructor threw; each one that did leaves
   storage that is destroyed once more than it was constructed.
   */
  lemma DestructionsBalanceExactly<T(!new)>(n: nat, default: T, ops: seq<Op<T>>)
    requires n < 0x8000_0000
    ensures var (objects, available) := Resized([], n, true, default);
            var (slots, stack) := AfterAll(objects, available, ops);
            var thrown := Thrown(objects, available, ops);
            && Lives(DestroyAll(slots)) + thrown == 0
            && (AllDead(DestroyAll(slots)) <==> thrown == 0)
  {
    ResizeEmptySound(n, true, default);
    ResizeEmpty(n, true, default);
    var (objects, available) := Resized([], n, true, default);
    var (slots, stack) := AfterAll(objects, available, ops);
    RunBalance(objects, available, ops);
    SoundRunExactly(objects, available, ops);
    LivesOfSound(objects);
    LivesDestroyed(slots);
    DeadIffLived(slots);
  }

  lemma DeadIffLived<T>(objects: seq<Slot<T>>)
    ensures AllDead(DestroyAll(objects)) <==> AllLive(objects)
  {
    var dead := DestroyAll(objects);
    assert forall i :: 0 <= i < |objects| ==> dead[i].live == objects[i].live - 1;
  }

  /** One slot whose constructor throws: its storage is destroyed twice for one construction. */
  lemma DeadSlotDestroyedAgain<T(!new)>(v: T)
    ensures var (slots, stack) := After([Slot(false, 0, v, 1)], [0], Op.Acquire(v, false));
            && slots == [Slot(true, 0, v, 0)] && stack == []
            && DestroyAll(slots) == [Slot(true, 0, v, -1)]
  {
    var objects := [Slot(false, 0, v, 1)];
    assert objects[0 := Slot(true, 0, v, 0)] == [Slot(true, 0, v, 0)] && [0][..0] == [];
    assert DestroyAll([Slot(true, 0, v, 0)])[0] == Slot(true, 0, v, -1);
  }

  /** What `acquire` gives: an exception without a free slot, an object, or the constructor's exception. */
  datatype Acquired = NoSlot | Handed(slot: nat) | ConstructorThrew

  // ---------- The class ----------

  class Pool<T(!new)> {
    var objects: seq<Slot<T>>
    var available: seq<int>

    ghost predicate Valid()
      reads this
    {
      Linked(objects, available)
    }

    constructor (n: nat, default: T)
      ensures |objects| == n && NoneOwned(objects)
      ensures Valid() <==> n < 0x8000_0000
      ensures Valid() ==> AllLive(objects)
    {
      objects, available := [], [];
      new;
      ResizeEmpty(n, true, default);
      ResizeEmptySound(n, true, default);
      Resize(n, true, default);
    }

    method Resize(n: nat, reallocates: bool, default: T)
      modifies this
      ensures (objects, available) == Resized(old(objects), n, reallocates, default)
    {
      var i := 0;
      while i < |objects|
        invariant 0 <= i <= |objects| == |old(objects)|
        invariant forall k :: 0 <= k < |objects| ==>
                    objects[k] == if k < i then Destroyed(old(objects)[k]) else old(objects)[k]
      {
        objects := objects[i := Destroyed(objects[i])];
        i := i + 1;
      }
      assert objects == DestroyAll(old(objects));
      while available != []
        invariant objects == DestroyAll(old(objects))
        decreases |available|
      {
        available := available[..|available| - 1];
      }
      ghost var slots := VectorResize(objects, n, reallocates, default).0;
      ghost var stack := VectorResize(objects, n, reallocates, default).1;
      var resized := VectorResize(objects, n, reallocates, default);
      objects, available := resized.0, resized.1;
      i := 0;
      while i < AsInt(n)
        invariant 0 <= i <= Reached(n) <= n == |objects|
        invariant forall k :: 0 <= k < n ==> objects[k] == if k < i then slots[k].(idx := k) else slots[k]
        invariant available == stack + UpTo(i)
      {
        objects := objects[i := objects[i].(idx := i)];
        available := available + [i];
        assert UpTo(i + 1) == UpTo(i) + [i];
        i := i + 1;
      }
      assert objects == Renumbered(slots, Reached(n));
    }

    /**
     Hands out the slot released last; fails exactly when every slot is handed out. When the
     constructor throws, the slot is lost: claimed, off the stack, and its value dead.
     */
    method Acquire(value: T, constructs: bool) returns (r: Acquired)
      requires Valid()
      modifies this
      ensures Valid() && |objects| == |old(objects)|
      ensures (objects, available) == AfterAcquire(old(objects), old(available), value, constructs)
      ensures r == NoSlot <==> forall i :: 0 <= i < |old(objects)| ==> old(objects)[i].owned
      ensures r == NoSlot ==> objects == old(objects) && available == old(available)
      ensures r != NoSlot ==> old(available) != [] && (r.Handed? <==> constructs)
      ensures r.Handed? ==>
                && old(available) == available + [r.slot]
                && r.slot < |objects| && !old(objects)[r.slot].owned
                && objects == old(objects)[r.slot := Slot(true, r.slot, value, old(objects)[r.slot].live)]
      ensures r == ConstructorThrew ==>
                var i := old(available)[|old(available)| - 1];
                && 0 <= i < |objects| && available == old(available)[..|old(available)| - 1]
                && objects == old(objects)[i := Destroyed(old(objects)[i].(owned := true))]
      ensures old(AllLive(objects)) ==> (AllLive(objects) <==> r != ConstructorThrew)
    {
      LinkedStep(objects, available, Op.Acquire(value, constructs));
      LivesStep(objects, available, Op.Acquire(value, constructs));
      if available == [] {
        return NoSlot;
      }
      var i := available[|available| - 1];
      assert i in available;
      available := available[..|available| - 1];
      var handle := objects[i].(owned := true);
      handle := Destroyed(handle);
      if !constructs {
        objects := objects[i := handle];
        return ConstructorThrew;
      }
      handle := Constructed(handle, value);
      objects := objects[i := handle];
      r := Handed(i);
    }

    /** Gives a slot back; a slot that is not handed out is left alone. */
    method Release(i: nat)
      requires Valid() && i < |objects|
      modifies this
      ensures Valid() && (objects, available) == AfterRelease(old(objects), old(available), i)
      ensures !old(objects)[i].owned ==> objects == old(objects) && available == old(available)
      ensures old(objects)[i].owned ==>
                available == old(available) + [i] && objects == old(objects)[i := old(objects)[i].(owned := false)]
    {
      LinkedStep(objects, available, Op.Release(i));
      if !objects[i].owned {
        return;
      }
      available := available + [objects[i].idx];
      objects := objects[i := objects[i].(owned := false)];
    }

    /** Any calls, with constructors that may throw: the slots stay alive exactly when none does. */
    method PerformAll(ops: seq<Op<T>>)
      requires Valid()
      modifies this
      ensures Valid() && (objects, available) == AfterAll(old(objects), old(available), ops)
      ensures old(AllLive(objects)) ==>
                (AllLive(objects) <==> Thrown(old(objects), old(available), ops) == 0)
    {
      if AllLive(objects) {
        SoundRunExactly(objects, available, ops);
      }
      var i := 0;
      assert ops[0..] == ops;
      while i < |ops|
        invariant 0 <= i <= |ops| && Valid()
        invariant AfterAll(objects, available, ops[i..]) == AfterAll(old(objects), old(available), ops)
      {
        assert ops[i..][0] == ops[i] && ops[i..][1..] == ops[i + 1..];
        match ops[i] {
          case Acquire(value, constructs) =>
            var r := Acquire(value, constructs);
          case Release(k) =>
            if k < |objects| {
              Release(k);
            }
        }
        i := i + 1;
      }
      assert ops[i..] == [];
      RunBalance(old(objects), old(available), ops);
    }

    /** The destructor destroys the value of every slot, whether it is alive or not. */
    method Destroy()
      modifies this
      ensures available == [] && objects == DestroyAll(old(objects))
      ensures AllDead(objects) <==> old(AllLive(objects))
    {
      DeadIffLived(objects);
      var i := 0;
      while i < |objects|
        invariant 0 <= i <= |objects| == |old(objects)|
        invariant forall k :: 0 <= k < |objects| ==>
                    objects[k] == if k < i then Destroyed(old(objects)[k]) else old(objects)[k]
      {
        objects := objects[i := Destroyed(objects[i])];
        i := i + 1;
      }
      while available != []
        invariant |objects| == |old(objects)|
        invariant forall k :: 0 <= k < |objects| ==> objects[k] == Destroyed(old(objects)[k])
        decreases |available|
      {
        available := available[..|available| - 1];
      }
    }
  }
}
