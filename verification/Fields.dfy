/**
 Heterogeneous fields as `DataBuffer` and `Memento::Snapshot` store them: a fixed-size value is its
 raw bytes, a string is its length as a `size_t` followed by its characters. Reading is described
 by a cursor into a byte sequence.
 */
module Fields {
  import opened Bytes
  import opened Sequences
  import opened Wrappers

  datatype Field = Fixed(bytes: seq<Byte>) | Text(chars: seq<Byte>)

  /** What a reader asks for: a value of a known `sizeof`, or a string. */
  datatype Shape = FixedOf(width: nat) | TextOf

  /** A read's outcome and where it leaves the cursor. */
  datatype Read<T> = Read(outcome: Outcome<T>, cursor: nat)

  predicate Storable(f: Field)
  {
    f.Text? ==> |f.chars| < VECTOR_LIMIT
  }

  predicate AllStorable(fs: seq<Field>)
  {
    forall i :: 0 <= i < |fs| ==> Storable(fs[i])
  }

  function ShapeOf(f: Field): Shape
  {
    match f
    case Fixed(bytes) => FixedOf(|bytes|)
    case Text(_) => TextOf
  }

  function ShapesOf(fs: seq<Field>): (r: seq<Shape>)
    ensures |r| == |fs|
  {
    if fs == [] then [] else [ShapeOf(fs[0])] + ShapesOf(fs[1..])
  }

  function Encode(f: Field): seq<Byte>
    requires Storable(f)
  {
    match f
    case Fixed(bytes) => bytes
    case Text(chars) => EncodeSize(|chars|) + chars
  }

  /** The layout in memory: a fixed-size value as it is; a string behind its length in eight bytes. */
  lemma FieldLayout(f: Field)
    requires Storable(f)
    ensures match f
            case Fixed(bytes) => Encode(f) == bytes
            case Text(chars) =>
              && |Encode(f)| == 8 + |chars|
              && Encode(f)[..8] == EncodeSize(|chars|) && Encode(f)[8..] == chars
  {
  }

  function EncodeAll(fs: seq<Field>): seq<Byte>
    requires AllStorable(fs)
  {
    if fs == [] then [] else Encode(fs[0]) + EncodeAll(fs[1..])
  }

  function ReadFixedAt(buf: seq<Byte>, cur: nat, width: nat): (r: Read<seq<Byte>>)
    requires cur <= |buf|
    ensures cur <= r.cursor <= |buf|
  {
    if width + cur > |buf| then Read(OutOfRange, cur)
    else Read(Ok(buf[cur..cur + width]), cur + width)
  }

  /** A string read: the length first, then the characters; the length stays consumed on failure. */
  function ReadTextAt(buf: seq<Byte>, cur: nat): (r: Read<seq<Byte>>)
    requires cur <= |buf| < VECTOR_LIMIT
    ensures cur <= r.cursor <= |buf|
  {
    if SIZE_BYTES + cur > |buf| then Read(OutOfRange, cur)
    else
      var n := DecodeSize(buf[cur..cur + SIZE_BYTES]);
      var start := cur + SIZE_BYTES;
      if (n + start) % TWO_64 > |buf| then Read(OutOfRange, start)
      else if n + start >= TWO_64 then Read(Undefined, start)
      else Read(Ok(buf[start..start + n]), start + n)
  }

  function ReadAt(buf: seq<Byte>, cur: nat, shape: Shape): (r: Read<Field>)
    requires cur <= |buf| < VECTOR_LIMIT
    ensures cur <= r.cursor <= |buf|
  {
    match shape
    case FixedOf(w) =>
      var r := ReadFixedAt(buf, cur, w);
      Read(r.outcome.Map(b => Fixed(b)), r.cursor)
    case TextOf =>
      var r := ReadTextAt(buf, cur);
      Read(r.outcome.Map(b => Text(b)), r.cursor)
  }

  /** Read fields one after the other through one cursor, stopping at the first read that fails. */
  function ReadAllAt(buf: seq<Byte>, cur: nat, shapes: seq<Shape>): (r: Read<seq<Field>>)
    requires cur <= |buf| < VECTOR_LIMIT
    ensures cur <= r.cursor <= |buf|
    decreases |shapes|
  {
    if shapes == [] then Read(Ok([]), cur)
    else
      var first := ReadAt(buf, cur, shapes[0]);
      match first.outcome
      case OutOfRange => Read(OutOfRange, first.cursor)
      case Undefined => Read(Undefined, first.cursor)
      case Ok(f) =>
        var others := ReadAllAt(buf, first.cursor, shapes[1..]);
        match others.outcome
        case OutOfRange => Read(OutOfRange, others.cursor)
        case Undefined => Read(Undefined, others.cursor)
        case Ok(fs) => Read(Ok([f] + fs), others.cursor)
  }

  /** A read that is not out of range succeeds exactly when the length sum does not wrap. */
  lemma TextReadExact(buf: seq<Byte>, cur: nat)
    requires cur + SIZE_BYTES <= |buf| < VECTOR_LIMIT
    ensures var n := DecodeSize(buf[cur..cur + SIZE_BYTES]);
            var start := cur + SIZE_BYTES;
            var r := ReadTextAt(buf, cur).outcome;
            && (r.Ok? <==> start + n <= |buf|)
            && (r.Undefined? <==> start + n >= TWO_64)
  {
    var n := DecodeSize(buf[cur..cur + SIZE_BYTES]);
    var start := cur + SIZE_BYTES;
    if n + start >= TWO_64 {
      assert (n + start) % TWO_64 == n + start - TWO_64;
    } else {
      assert (n + start) % TWO_64 == n + start;
    }
  }

  lemma ReadEncoded(buf: seq<Byte>, cur: nat, f: Field)
    requires Storable(f) && cur <= |buf| < VECTOR_LIMIT
    requires cur + |Encode(f)| <= |buf| && buf[cur..cur + |Encode(f)|] == Encode(f)
    ensures ReadAt(buf, cur, ShapeOf(f)) == Read(Ok(f), cur + |Encode(f)|)
  {
    match f
    case Fixed(_) =>
    case Text(chars) =>
      var e := Encode(f);
      assert e[..SIZE_BYTES] == EncodeSize(|chars|) && e[SIZE_BYTES..] == chars;
      assert buf[cur..cur + SIZE_BYTES] == buf[cur..cur + |e|][..SIZE_BYTES];
      assert buf[cur + SIZE_BYTES..cur + |e|] == buf[cur..cur + |e|][SIZE_BYTES..];
      SizeCodec(|chars|, EncodeSize(|chars|));
  }

  lemma ReadIsEncoded(buf: seq<Byte>, cur: nat, shape: Shape)
    requires cur <= |buf| < VECTOR_LIMIT
    requires ReadAt(buf, cur, shape).outcome.Ok?
    ensures var r := ReadAt(buf, cur, shape);
            Storable(r.outcome.value) && ShapeOf(r.outcome.value) == shape
            && Encode(r.outcome.value) == buf[cur..r.cursor]
  {
    if shape.TextOf? {
      TextReadIsEncoded(buf, cur);
    }
  }

  lemma TextReadIsEncoded(buf: seq<Byte>, cur: nat)
    requires cur <= |buf| < VECTOR_LIMIT && ReadTextAt(buf, cur).outcome.Ok?
    ensures var r := ReadTextAt(buf, cur);
            Storable(Text(r.outcome.value)) && Encode(Text(r.outcome.value)) == buf[cur..r.cursor]
  {
    var header := buf[cur..cur + SIZE_BYTES];
    var start, n := cur + SIZE_BYTES, DecodeSize(header);
    TextReadExact(buf, cur);
    assert ReadTextAt(buf, cur) == Read(Ok(buf[start..start + n]), start + n);
    SizeCodec(0, header);
    assert buf[cur..start + n] == header + buf[start..start + n];
  }

  /** The bytes `e` stand in the buffer at position `cur`. */
  predicate HoldsAt(buf: seq<Byte>, cur: nat, e: seq<Byte>)
  {
    cur + |e| <= |buf| && forall i :: 0 <= i < |e| ==> e[i] == buf[cur + i]
  }

  lemma HoldsSplit(buf: seq<Byte>, cur: nat, a: seq<Byte>, b: seq<Byte>)
    requires HoldsAt(buf, cur, a + b)
    ensures HoldsAt(buf, cur, a) && HoldsAt(buf, cur + |a|, b)
  {
    assert forall i :: 0 <= i < |a| ==> a[i] == (a + b)[i];
    assert forall i :: 0 <= i < |b| ==> b[i] == (a + b)[|a| + i];
  }

  lemma HoldsSlice(buf: seq<Byte>, cur: nat, e: seq<Byte>)
    requires HoldsAt(buf, cur, e)
    ensures buf[cur..cur + |e|] == e
  {
  }

  /**
   Heterogeneous round trip: any list of fields, wherever it was written in the buffer, is read
   back in the order it was written, and the cursor ends right behind it.
   */
  lemma {:induction false} FieldRoundTrip(buf: seq<Byte>, cur: nat, fs: seq<Field>)
    requires AllStorable(fs) && cur <= |buf| < VECTOR_LIMIT
    requires HoldsAt(buf, cur, EncodeAll(fs))
    ensures ReadAllAt(buf, cur, ShapesOf(fs)) == Read(Ok(fs), cur + |EncodeAll(fs)|)
    decreases |fs|
  {
    if fs == [] {
    } else {
      var a, b := Encode(fs[0]), EncodeAll(fs[1..]);
      assert EncodeAll(fs) == a + b;
      HoldsSplit(buf, cur, a, b);
      var mid := cur + |a|;
      FieldRoundTrip(buf, mid, fs[1..]);
      RoundTripStep(buf, cur, mid, fs, mid + |b|);
    }
  }

  lemma RoundTripStep(buf: seq<Byte>, cur: nat, mid: nat, fs: seq<Field>, end: nat)
    requires AllStorable(fs) && fs != [] && cur <= mid <= |buf| < VECTOR_LIMIT
    requires HoldsAt(buf, cur, Encode(fs[0])) && mid == cur + |Encode(fs[0])|
    requires ReadAllAt(buf, mid, ShapesOf(fs[1..])) == Read(Ok(fs[1..]), end)
    ensures ReadAllAt(buf, cur, ShapesOf(fs)) == Read(Ok(fs), end)
  {
    HoldsSlice(buf, cur, Encode(fs[0]));
    ReadEncoded(buf, cur, fs[0]);
    ReadAllCons(buf, cur, ShapeOf(fs[0]), fs[0], mid, ShapesOf(fs[1..]), fs[1..], end);
    FrontAndRest(fs);
  }

  lemma FrontAndRest(fs: seq<Field>)
    requires fs != []
    ensures [fs[0]] + fs[1..] == fs
  {
  }

  lemma ReadAllCons(buf: seq<Byte>, cur: nat, shape: Shape, f: Field, mid: nat,
                    shapes: seq<Shape>, fs: seq<Field>, end: nat)
    requires cur <= mid <= |buf| < VECTOR_LIMIT
    requires ReadAt(buf, cur, shape) == Read(Ok(f), mid) && ReadAllAt(buf, mid, shapes) == Read(Ok(fs), end)
    ensures ReadAllAt(buf, cur, [shape] + shapes) == Read(Ok([f] + fs), end)
  {
    assert ([shape] + shapes)[1..] == shapes;
  }

  /** Conversely, whatever fields a successful read returns, the bytes it consumed are theirs. */
  lemma {:induction false} ReadAllIsEncoded(buf: seq<Byte>, cur: nat, shapes: seq<Shape>)
    requires cur <= |buf| < VECTOR_LIMIT
    requires ReadAllAt(buf, cur, shapes).outcome.Ok?
    ensures var r := ReadAllAt(buf, cur, shapes);
            AllStorable(r.outcome.value) && ShapesOf(r.outcome.value) == shapes
            && EncodeAll(r.outcome.value) == buf[cur..r.cursor]
    decreases |shapes|
  {
    if shapes != [] {
      var first := ReadAt(buf, cur, shapes[0]);
      ReadIsEncoded(buf, cur, shapes[0]);
      ReadAllIsEncoded(buf, first.cursor, shapes[1..]);
      var others := ReadAllAt(buf, first.cursor, shapes[1..]);
      EncodedCons(first.outcome.value, others.outcome.value, buf, cur, first.cursor, others.cursor);
    }
  }

  /** Reading two lists of fields in a row is reading both as one; a failure in the first is final. */
  lemma {:induction false} ReadAllAppend(buf: seq<Byte>, cur: nat, a: seq<Shape>, b: seq<Shape>)
    requires cur <= |buf| < VECTOR_LIMIT
    ensures var r := ReadAllAt(buf, cur, a);
            ReadAllAt(buf, cur, a + b)
            == if r.outcome.Ok? then
                 var r' := ReadAllAt(buf, r.cursor, b);
                 Read(r'.outcome.Map(fs => r.outcome.value + fs), r'.cursor)
               else r
    decreases |a|
  {
    if a == [] {
      var r := ReadAllAt(buf, cur, b);
      assert a + b == b;
      assert r.outcome.Ok? ==> [] + r.outcome.value == r.outcome.value;
    } else {
      assert (a + b)[0] == a[0] && (a + b)[1..] == a[1..] + b;
      var first := ReadAt(buf, cur, a[0]);
      if first.outcome.Ok? {
        ReadAllAppend(buf, first.cursor, a[1..], b);
        var r := ReadAllAt(buf, first.cursor, a[1..]);
        if r.outcome.Ok? {
          var r' := ReadAllAt(buf, r.cursor, b);
          if r'.outcome.Ok? {
            SeqAssoc([first.outcome.value], r.outcome.value, r'.outcome.value);
          }
        }
      }
    }
  }

  lemma EncodedCons(f: Field, fs: seq<Field>, buf: seq<Byte>, a: nat, b: nat, c: nat)
    requires Storable(f) && AllStorable(fs) && a <= b <= c <= |buf|
    requires Encode(f) == buf[a..b] && EncodeAll(fs) == buf[b..c]
    ensures AllStorable([f] + fs) && EncodeAll([f] + fs) == buf[a..c]
    ensures ShapesOf([f] + fs) == [ShapeOf(f)] + ShapesOf(fs)
  {
    assert ([f] + fs)[0] == f && ([f] + fs)[1..] == fs;
    assert buf[a..c] == buf[a..b] + buf[b..c];
  }
}
