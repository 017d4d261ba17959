/**
 `Memento::Snapshot`: the same fields as a `DataBuffer`, but the templated `>>` returns the snapshot
 by value. In `s >> a >> b` the second read therefore works on a copy of `s` when `a` has a fixed
 size, and on `s` itself when `a` is a string.
 */
module Mementos {
  import opened Bytes
  import opened Fields
  import opened Sequences
  import opened Wrappers

  /** Where a chain of reads leaves the cursor of the snapshot it was started on. */
  function NamedCursor(buf: seq<Byte>, cur: nat, shapes: seq<Shape>): (c: nat)
    requires cur <= |buf| < VECTOR_LIMIT
    ensures cur <= c <= |buf|
    decreases |shapes|
  {
    if shapes == [] then cur
    else
      var first := ReadAt(buf, cur, shapes[0]);
      if first.outcome.Ok? && shapes[0].TextOf? then NamedCursor(buf, first.cursor, shapes[1..])
      else first.cursor
  }

  /** Only strings, except possibly for the last field. */
  predicate StringsThenOne(shapes: seq<Shape>)
  {
    forall i :: 0 <= i < |shapes| - 1 ==> shapes[i].TextOf?
  }

  /** `sizeof` is never zero. */
  predicate Sized(shapes: seq<Shape>)
  {
    forall i :: 0 <= i < |shapes| ==> shapes[i].FixedOf? ==> shapes[i].width > 0
  }

  lemma {:induction false} ReadingAdvances(buf: seq<Byte>, cur: nat, shapes: seq<Shape>)
    requires cur <= |buf| < VECTOR_LIMIT && Sized(shapes) && shapes != []
    requires ReadAllAt(buf, cur, shapes).outcome.Ok?
    ensures ReadAllAt(buf, cur, shapes).cursor > cur
  {
    var first := ReadAt(buf, cur, shapes[0]);
    assert first.cursor > cur;
  }

  /**
   A successful chain leaves its snapshot where one cursor would be exactly when all its fields but
   the last are strings; otherwise a later statement on the same snapshot reads from too early.
   */
  lemma {:induction false} ChainCursorExact(buf: seq<Byte>, cur: nat, shapes: seq<Shape>)
    requires cur <= |buf| < VECTOR_LIMIT && Sized(shapes)
    requires ReadAllAt(buf, cur, shapes).outcome.Ok?
    ensures NamedCursor(buf, cur, shapes) <= ReadAllAt(buf, cur, shapes).cursor
    ensures NamedCursor(buf, cur, shapes) == ReadAllAt(buf, cur, shapes).cursor <==> StringsThenOne(shapes)
    decreases |shapes|
  {
    if shapes != [] {
      var first, tail := ReadAt(buf, cur, shapes[0]), shapes[1..];
      assert forall i :: 0 <= i < |tail| ==> tail[i] == shapes[i + 1];
      assert StringsThenOne(shapes) <==> (tail == [] || (shapes[0].TextOf? && StringsThenOne(tail)));
      ChainCursorExact(buf, first.cursor, tail);
      if tail != [] {
        ReadingAdvances(buf, first.cursor, tail);
      }
    }
  }

  /** The strings at the front of a chain, and the first other field if there is one. */
  function ReadOnNamed(shapes: seq<Shape>): (k: nat)
    ensures k <= |shapes|
  {
    if shapes == [] then 0 else if shapes[0].TextOf? then 1 + ReadOnNamed(shapes[1..]) else 1
  }

  /** Successful or not, a chain leaves its snapshot where reading just those fields leaves a cursor. */
  lemma {:induction false} NamedCursorReads(buf: seq<Byte>, cur: nat, shapes: seq<Shape>)
    requires cur <= |buf| < VECTOR_LIMIT
    ensures NamedCursor(buf, cur, shapes) == ReadAllAt(buf, cur, shapes[..ReadOnNamed(shapes)]).cursor
    decreases |shapes|
  {
    if shapes != [] {
      var first, k := ReadAt(buf, cur, shapes[0]), ReadOnNamed(shapes);
      assert shapes[..k][0] == shapes[0] && shapes[..k][1..] == shapes[1..][..k - 1];
      NamedCursorReads(buf, first.cursor, shapes[1..]);
    }
  }

  /** Two one-byte fields read in one chain, then one more read: it returns the second byte again. */
  lemma TwoFixedFieldsReadAgain(a: Byte, b: Byte)
    ensures var buf, two := [a, b], [FixedOf(1), FixedOf(1)];
            && ReadAllAt(buf, 0, two) == Read(Ok([Fixed([a]), Fixed([b])]), 2)
            && NamedCursor(buf, 0, two) == 1
            && ReadAt(buf, NamedCursor(buf, 0, two), FixedOf(1)).outcome == Ok(Fixed([b]))
  {
    var buf, one: seq<Shape> := [a, b], [FixedOf(1)];
    var first, second: Field := Fixed([a]), Fixed([b]);
    assert buf[0..1] == [a] && buf[1..2] == [b];
    assert ReadAt(buf, 0, FixedOf(1)) == Read(Ok(first), 1);
    assert ReadAt(buf, 1, FixedOf(1)) == Read(Ok(second), 2);
    var none: seq<Field> := [];
    assert [FixedOf(1)] + [] == one && [FixedOf(1)] + one == [FixedOf(1), FixedOf(1)];
    assert [second] + none == [second] && [first] + [second] == [first, second];
    ReadAllCons(buf, 1, FixedOf(1), second, 2, [], none, 2);
    ReadAllCons(buf, 0, FixedOf(1), first, 1, one, [second], 2);
  }

  class Snapshot {
    var buffer: seq<Byte>
    var cursor: nat

    ghost predicate Valid()
      reads this
    {
      cursor <= |buffer| < VECTOR_LIMIT
    }

    constructor ()
      ensures Valid() && buffer == [] && cursor == 0
    {
      buffer, cursor := [], 0;
    }

    constructor Copy(other: Snapshot)
      ensures buffer == other.buffer && cursor == other.cursor
    {
      buffer, cursor := other.buffer, other.cursor;
    }

    method Reset()
      requires Valid()
      modifies this`cursor
      ensures Valid() && cursor == 0
    {
      cursor := 0;
    }

    /** Both `<<` operators, chained: they return the snapshot itself. */
    method WriteAll(fs: seq<Field>)
      requires Valid() && AllStorable(fs) && |buffer| + |EncodeAll(fs)| < VECTOR_LIMIT
      modifies this`buffer
      ensures Valid() && buffer == old(buffer) + EncodeAll(fs)
      decreases |fs|
    {
      if fs == [] {
        assert buffer + [] == buffer;
        return;
      }
      SeqAssoc(buffer, Encode(fs[0]), EncodeAll(fs[1..]));
      match fs[0] {
        case Fixed(bytes) =>
          buffer := buffer + bytes;
        case Text(chars) =>
          SeqAssoc(buffer, EncodeSize(|chars|), chars);
          buffer := buffer + EncodeSize(|chars|);
          buffer := buffer + chars;
      }
      WriteAll(fs[1..]);
    }

    /** The templated `>>`: advances this snapshot, returns a copy of it. */
    method ReadFixed(width: nat) returns (r: Outcome<seq<Byte>>, copy: Snapshot)
      requires Valid()
      modifies this`cursor
      ensures Valid() && Read(r, cursor) == ReadFixedAt(buffer, old(cursor), width)
      ensures fresh(copy) && copy.buffer == buffer && copy.cursor == cursor
    {
      if width + cursor > |buffer| {
        r := OutOfRange;
      } else {
        r := Ok(buffer[cursor..cursor + width]);
        cursor := cursor + width;
      }
      copy := new Snapshot.Copy(this);
    }

    /** The string `>>`: returns this snapshot. */
    method ReadText() returns (r: Outcome<seq<Byte>>)
      requires Valid()
      modifies this`cursor
      ensures Valid() && Read(r, cursor) == ReadTextAt(buffer, old(cursor))
    {
      var sizeBytes, ignored := ReadFixed(SIZE_BYTES);
      if !sizeBytes.Ok? {
        return sizeBytes;
      }
      var size := DecodeSize(sizeBytes.value);
      TextReadExact(buffer, old(cursor));
      if (size + cursor) % TWO_64 > |buffer| {
        return OutOfRange;
      }
      if cursor + size > |buffer| {
        return Undefined;
      }
      r := Ok(buffer[cursor..cursor + size]);
      cursor := cursor + size;
    }

    /**
     The expression `s >> f0 >> f1 >> ...`: reading through the returned copies yields the same fields
     as one cursor would, while the cursor of `s` itself may stop short.
     */
    method Chain(shapes: seq<Shape>) returns (r: Outcome<seq<Field>>)
      requires Valid()
      modifies this`cursor
      ensures Valid()
      ensures r == ReadAllAt(buffer, old(cursor), shapes).outcome
      ensures cursor == NamedCursor(buffer, old(cursor), shapes)
      decreases |shapes|
    {
      if shapes == [] {
        return Ok([]);
      }
      var first: Outcome<Field>;
      var others: Outcome<seq<Field>>;
      match shapes[0] {
        case FixedOf(w) =>
          var b, copy := ReadFixed(w);
          if !b.Ok? {
            return OutOfRange;
          }
          first := Ok(Fixed(b.value));
          others := copy.Chain(shapes[1..]);
        case TextOf =>
          var b := ReadText();
          if !b.Ok? {
            return if b.OutOfRange? then OutOfRange else Undefined;
          }
          first := Ok(Text(b.value));
          others := Chain(shapes[1..]);
      }
      r := others.Map(fs => [first.value] + fs);
    }
  }

  /** `save` of an object whose `_saveToSnapshot` writes `fs`. */
  method Save(fs: seq<Field>) returns (snap: Snapshot)
    requires AllStorable(fs) && |EncodeAll(fs)| < VECTOR_LIMIT
    ensures fresh(snap) && snap.Valid() && snap.buffer == EncodeAll(fs) && snap.cursor == 0
  {
    snap := new Snapshot();
    snap.WriteAll(fs);
  }

  /** `load` of an object whose `_loadFromSnapshot` reads one chain; the snapshot is not touched. */
  method Load(state: Snapshot, shapes: seq<Shape>) returns (r: Outcome<seq<Field>>)
    requires state.Valid()
    ensures r == ReadAllAt(state.buffer, 0, shapes).outcome
  {
    var tmp := new Snapshot.Copy(state);
    tmp.Reset();
    r := tmp.Chain(shapes);
  }

  /** A saved object can be restored, and restored again from the same snapshot. */
  method SaveAndRestoreTwice(fs: seq<Field>) returns (once: seq<Field>, twice: seq<Field>)
    requires AllStorable(fs) && |EncodeAll(fs)| < VECTOR_LIMIT
    ensures once == fs && twice == fs
  {
    var snap := Save(fs);
    FieldRoundTrip(snap.buffer, 0, fs);
    var r := Load(snap, ShapesOf(fs));
    once := r.value;
    r := Load(snap, ShapesOf(fs));
    twice := r.value;
  }
}
