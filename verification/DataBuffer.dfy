/** The `DataBuffer` class: a growing byte vector read through a cursor. */
module DataBuffers {
  import opened Bytes
  import opened Fields
  import opened Sequences
  import opened Wrappers

  class DataBuffer {
    var buffer: seq<Byte>
    var cursor: nat

    ghost predicate Valid()
      reads this
    {
      cursor <= |buffer| < VECTOR_LIMIT
    }

    /** The bytes that have not been read yet; all that `size` and `data` look at. */
    ghost function Unread(): seq<Byte>
      requires Valid()
      reads this
    {
      buffer[cursor..]
    }

    constructor ()
      ensures Valid() && buffer == [] && cursor == 0
    {
      buffer, cursor := [], 0;
    }

    method Size() returns (n: nat)
      requires Valid()
      ensures n == |Unread()|
    {
      n := |buffer| - cursor;
    }

    method Data() returns (bytes: seq<Byte>)
      requires Valid()
      ensures bytes == Unread()
    {
      bytes := buffer[cursor..];
    }

    /**
     `append(data, len)`, where `data` points to the first of the bytes `source`. A vector without
     elements has the null pointer as its `data()`, so an empty source is the null case of the guard.
     */
    method Append(source: seq<Byte>, len: SizeT) returns (r: Outcome<()>)
      requires Valid() && |buffer| + |source| < VECTOR_LIMIT
      modifies this
      ensures Valid() && cursor == old(cursor)
      ensures r == (if source != [] && len > |source| then Undefined else Ok(()))
      ensures r.Ok? && source != [] ==>
                buffer == old(buffer) + source[..len] && Unread() == old(Unread()) + source[..len]
      ensures source == [] || r.Undefined? ==> buffer == old(buffer)
    {
      if len == 0 || source == [] {
        assert source != [] ==> buffer + source[..len] == buffer && Unread() + source[..len] == Unread();
        return Ok(());
      }
      if len > |source| {
        return Undefined;
      }
      buffer := buffer + source[..len];
      r := Ok(());
    }

    /** Both `<<` operators. */
    method Write(f: Field)
      requires Valid() && Storable(f) && |buffer| + |Encode(f)| < VECTOR_LIMIT
      modifies this
      ensures Valid() && cursor == old(cursor)
      ensures buffer == old(buffer) + Encode(f)
    {
      match f
      case Fixed(bytes) =>
        buffer := buffer + bytes;
      case Text(chars) =>
        buffer := buffer + EncodeSize(|chars|);
        buffer := buffer + chars;
        SeqAssoc(old(buffer), EncodeSize(|chars|), chars);
    }

    /** The templated `>>`. */
    method ReadFixed(width: nat) returns (r: Outcome<seq<Byte>>)
      requires Valid()
      modifies this`cursor
      ensures Valid()
      ensures Read(r, cursor) == ReadFixedAt(buffer, old(cursor), width)
      ensures old(cursor) + width <= |buffer| ==> cursor == old(cursor) + width && r == Ok(buffer[old(cursor)..cursor])
      ensures old(cursor) + width > |buffer| ==> cursor == old(cursor) && r == OutOfRange
    {
      if width + cursor > |buffer| {
        return OutOfRange;
      }
      r := Ok(buffer[cursor..cursor + width]);
      cursor := cursor + width;
    }

    /** The string `>>`. */
    method ReadText() returns (r: Outcome<seq<Byte>>)
      requires Valid()
      modifies this`cursor
      ensures Valid()
      ensures Read(r, cursor) == ReadTextAt(buffer, old(cursor))
      ensures r.Ok? ==> 8 <= cursor - old(cursor) && r.value == buffer[old(cursor) + 8..cursor]
      ensures !r.Ok? ==> cursor == if old(cursor) + 8 <= |buffer| then old(cursor) + 8 else old(cursor)
    {
      var sizeBytes := ReadFixed(SIZE_BYTES);
      if !sizeBytes.Ok? {
        return sizeBytes;
      }
      var size := DecodeSize(sizeBytes.value);
      TextReadExact(buffer, old(cursor));
      if (size + cursor) % TWO_64 > |buffer| {
        return OutOfRange;
      }
      if cursor + size > |buffer| {
        return Undefined;
      }
      r := Ok(buffer[cursor..cursor + size]);
      cursor := cursor + size;
    }

    method Read1(shape: Shape) returns (r: Outcome<Field>)
      requires Valid()
      modifies this`cursor
      ensures Valid()
      ensures Read(r, cursor) == ReadAt(buffer, old(cursor), shape)
    {
      match shape
      case FixedOf(w) =>
        var b := ReadFixed(w);
        r := b.Map(v => Fixed(v));
      case TextOf =>
        var b := ReadText();
        r := b.Map(v => Text(v));
    }

    method IncreaseCursor(amount: SizeT) returns (r: Outcome<()>)
      requires Valid()
      modifies this`cursor
      ensures Valid()
      ensures old(cursor) + amount <= |buffer| ==> r == Ok(()) && cursor == old(cursor) + amount
      ensures |buffer| < old(cursor) + amount < TWO_64 ==> r == OutOfRange && cursor == old(cursor)
      ensures old(cursor) + amount >= TWO_64 ==> r == Ok(()) && cursor == old(cursor) + amount - TWO_64
    {
      var sum := (cursor + amount) % TWO_64;
      assert sum == if cursor + amount < TWO_64 then cursor + amount else cursor + amount - TWO_64;
      if sum > |buffer| {
        return OutOfRange;
      }
      cursor := sum;
      r := Ok(());
    }

    method DecreaseCursor(amount: SizeT) returns (r: Outcome<()>)
      requires Valid()
      modifies this`cursor
      ensures Valid()
      ensures amount <= old(cursor) ==> r == Ok(()) && cursor == old(cursor) - amount
      ensures amount > old(cursor) ==> r == OutOfRange && cursor == old(cursor)
    {
      if amount > cursor {
        return OutOfRange;
      }
      cursor := cursor - amount;
      r := Ok(());
    }

    method Reset()
      requires Valid()
      modifies this`cursor
      ensures Valid() && cursor == 0
    {
      cursor := 0;
    }

    method Clear()
      modifies this
      ensures Valid() && buffer == [] && cursor == 0
    {
      buffer, cursor := [], 0;
    }

    /** `b << f0 << f1 << ...` */
    method WriteAll(fs: seq<Field>)
      requires Valid() && AllStorable(fs) && |buffer| + |EncodeAll(fs)| < VECTOR_LIMIT
      modifies this
      ensures Valid() && cursor == old(cursor)
      ensures buffer == old(buffer) + EncodeAll(fs)
    {
      var i := 0;
      while i < |fs|
        invariant 0 <= i <= |fs|
        invariant cursor == old(cursor)
        invariant |buffer| + |EncodeAll(fs[i..])| < VECTOR_LIMIT
        invariant Valid()
        invariant buffer + EncodeAll(fs[i..]) == old(buffer) + EncodeAll(fs)
      {
        ghost var before := buffer;
        assert fs[i..][0] == fs[i] && fs[i..][1..] == fs[i + 1..];
        Write(fs[i]);
        SeqAssoc(before, Encode(fs[i]), EncodeAll(fs[i + 1..]));
        i := i + 1;
      }
      assert fs[|fs|..] == [];
    }

    /** `b >> f0 >> f1 >> ...`, leaving at the first exception. */
    method ReadAll(shapes: seq<Shape>) returns (r: Outcome<seq<Field>>)
      requires Valid()
      modifies this`cursor
      ensures Valid()
      ensures Read(r, cursor) == ReadAllAt(buffer, old(cursor), shapes)
      decreases |shapes|
    {
      if shapes == [] {
        return Ok([]);
      }
      var first := Read1(shapes[0]);
      match first
      case OutOfRange => r := OutOfRange;
      case Undefined => r := Undefined;
      case Ok(f) =>
        var others := ReadAll(shapes[1..]);
        r := others.Map(fs => [f] + fs);
    }
  }

  /** Everything written to a fresh buffer comes back, first in first out. */
  method WriteThenRead(fs: seq<Field>) returns (back: seq<Field>)
    requires AllStorable(fs) && |EncodeAll(fs)| < VECTOR_LIMIT
    ensures back == fs
  {
    var b := new DataBuffer();
    b.WriteAll(fs);
    FieldRoundTrip(b.buffer, 0, fs);
    var r := b.ReadAll(ShapesOf(fs));
    back := r.value;
  }
}
