/**
 The transfer format `[type:int][size:size_t][payload]` and the meaning of the decode loop on a
 string of unread bytes. Everything here is about byte sequences; the classes in Message.dfy,
 Client.dfy and Server.dfy are proved against it.
 */
module Framing {
  import opened Bytes
  import opened Iteration
  import opened Sequences
  import opened Wrappers

  const HEADER: int := INT_BYTES + SIZE_BYTES

  /** The announced size whose sum with the header length is exactly 2^64. */
  const STUCK_SIZE: SizeT := 0xFFFF_FFFF_FFFF_FFF4

  datatype Msg = Msg(mtype: Int32, payload: seq<Byte>)

  /** A payload that fits in a `std::vector`; every `Message` object satisfies it. */
  predicate Fits(m: Msg)
  {
    |m.payload| < VECTOR_LIMIT
  }

  predicate AllFit(ms: seq<Msg>)
  {
    forall i :: 0 <= i < |ms| ==> Fits(ms[i])
  }

  function Serialize(m: Msg): (s: seq<Byte>)
    requires Fits(m)
    ensures |s| == HEADER + |m.payload|
  {
    EncodeInt(m.mtype) + EncodeSize(|m.payload|) + m.payload
  }

  /** The layout on the wire: four bytes of type, eight of size, then the payload. */
  lemma FrameLayout(m: Msg)
    requires Fits(m)
    ensures var s := Serialize(m);
            && |s| == 12 + |m.payload|
            && s[..4] == EncodeInt(m.mtype) && s[4..12] == EncodeSize(|m.payload|) && s[12..] == m.payload
  {
  }

  function SerializeAll(ms: seq<Msg>): seq<Byte>
    requires AllFit(ms)
  {
    if ms == [] then [] else Serialize(ms[0]) + SerializeAll(ms[1..])
  }

  function TypeField(s: seq<Byte>): Int32
    requires |s| >= HEADER
  {
    DecodeInt(s[..INT_BYTES])
  }

  function SizeField(s: seq<Byte>): SizeT
    requires |s| >= HEADER
  {
    DecodeSize(s[INT_BYTES..HEADER])
  }

  /** The test of `isComplet` on the unread bytes, with the 64-bit sum wrapping as in the source. */
  predicate IsComplete(s: seq<Byte>)
  {
    |s| >= HEADER && |s| >= (HEADER + SizeField(s)) % TWO_64
  }

  /** The header announces a size whose sum with the header length does not fit in a `size_t`. */
  predicate Wraps(s: seq<Byte>)
  {
    |s| >= HEADER && HEADER + SizeField(s) >= TWO_64
  }

  /**
   The frames in front of the first wrapping header: the messages, the bytes behind them, and whether
   those bytes start with a wrapping header. `Loop` below says what the source does at that header.
   */
  datatype Decoded = Decoded(msgs: seq<Msg>, rest: seq<Byte>, wrapped: bool)

  function Prepend(ms: seq<Msg>, d: Decoded): Decoded
  {
    Decoded(ms + d.msgs, d.rest, d.wrapped)
  }

  function Decode(s: seq<Byte>): (d: Decoded)
    ensures d.wrapped ==> Wraps(d.rest)
    decreases |s|
  {
    if !IsComplete(s) then Decoded([], s, false)
    else if Wraps(s) then Decoded([], s, true)
    else
      var n := SizeField(s);
      Prepend([Msg(TypeField(s), s[HEADER..HEADER + n])], Decode(s[HEADER + n..]))
  }

  /** `isComplet` answers "one whole frame is buffered" exactly on the headers that do not wrap. */
  lemma CompletenessTestExact(s: seq<Byte>)
    requires |s| >= HEADER
    ensures Wraps(s) ==> IsComplete(s)
    ensures !Wraps(s) ==> (IsComplete(s) <==> |s| >= HEADER + SizeField(s))
    ensures |s| < VECTOR_LIMIT ==>
              (Wraps(s) <==> IsComplete(s) != (|s| >= HEADER + SizeField(s)))
  {
    var n := SizeField(s);
    if Wraps(s) {
      assert (HEADER + n) % TWO_64 == HEADER + n - TWO_64;
    } else {
      assert (HEADER + n) % TWO_64 == HEADER + n;
    }
  }

  // ---------- One frame ----------

  lemma SplitFrame(t: seq<Byte>, n: seq<Byte>, p: seq<Byte>, r: seq<Byte>)
    requires |t| == INT_BYTES && |n| == SIZE_BYTES
    ensures var s := t + n + p + r;
            && s[..INT_BYTES] == t && s[INT_BYTES..HEADER] == n
            && s[HEADER..HEADER + |p|] == p && s[HEADER + |p|..] == r
  {
  }

  lemma FrameFields(m: Msg, r: seq<Byte>)
    requires Fits(m)
    ensures var s := Serialize(m) + r;
            && |s| >= HEADER && TypeField(s) == m.mtype && SizeField(s) == |m.payload|
            && s[HEADER..HEADER + |m.payload|] == m.payload && s[HEADER + |m.payload|..] == r
            && IsComplete(s) && !Wraps(s)
  {
    var s := Serialize(m) + r;
    SplitFrame(EncodeInt(m.mtype), EncodeSize(|m.payload|), m.payload, r);
    IntCodec(m.mtype, EncodeInt(m.mtype));
    SizeCodec(|m.payload|, EncodeSize(|m.payload|));
    CompletenessTestExact(s);
  }

  lemma DecodeFrame(m: Msg, r: seq<Byte>)
    requires Fits(m)
    ensures Decode(Serialize(m) + r) == Prepend([m], Decode(r))
  {
    FrameFields(m, r);
  }

  lemma CutFrame(s: seq<Byte>, n: nat)
    requires HEADER + n <= |s|
    ensures s == s[..INT_BYTES] + s[INT_BYTES..HEADER] + s[HEADER..HEADER + n] + s[HEADER + n..]
  {
  }

  lemma FrameOfBytes(s: seq<Byte>)
    requires IsComplete(s) && !Wraps(s) && |s| < VECTOR_LIMIT
    ensures var n := SizeField(s);
            && HEADER + n <= |s|
            && Fits(Msg(TypeField(s), s[HEADER..HEADER + n]))
            && s == Serialize(Msg(TypeField(s), s[HEADER..HEADER + n])) + s[HEADER + n..]
  {
    var n := SizeField(s);
    CompletenessTestExact(s);
    IntCodec(TypeField(s), s[..INT_BYTES]);
    SizeCodec(n, s[INT_BYTES..HEADER]);
    CutFrame(s, n);
  }

  // ---------- Whole streams ----------

  /**
   Exactness on arbitrary bytes: re-serialising what was decoded and appending what was left gives
   back the input, and the loop only stops where no further whole frame can be taken.
   */
  lemma {:induction false} DecodeExact(s: seq<Byte>)
    requires |s| < VECTOR_LIMIT
    ensures DecodesTo(s, Decode(s))
    decreases |s|
  {
    if IsComplete(s) && !Wraps(s) {
      FrameOfBytes(s);
      var n := SizeField(s);
      DecodeExact(s[HEADER + n..]);
      DecodesCons(Msg(TypeField(s), s[HEADER..HEADER + n]), s[HEADER + n..], Decode(s[HEADER + n..]));
    }
  }

  ghost predicate DecodesTo(s: seq<Byte>, d: Decoded)
  {
    && AllFit(d.msgs)
    && SerializeAll(d.msgs) + d.rest == s
    && (if d.wrapped then Wraps(d.rest) else !IsComplete(d.rest))
    && |s| >= HEADER * |d.msgs| + |d.rest|
  }

  lemma DecodesCons(m: Msg, s: seq<Byte>, d: Decoded)
    requires Fits(m) && DecodesTo(s, d)
    ensures DecodesTo(Serialize(m) + s, Prepend([m], d))
  {
    SerializeCons(m, d.msgs, d.rest);
  }

  lemma SerializeCons(m: Msg, ms: seq<Msg>, r: seq<Byte>)
    requires Fits(m) && AllFit(ms)
    ensures AllFit([m] + ms)
    ensures SerializeAll([m] + ms) + r == Serialize(m) + (SerializeAll(ms) + r)
  {
    assert ([m] + ms)[0] == m && ([m] + ms)[1..] == ms;
    SeqAssoc(Serialize(m), SerializeAll(ms), r);
  }

  /** Frames at the front of a stream are decoded as sent, whatever bytes follow them. */
  lemma {:induction false} DecodeFrames(ms: seq<Msg>, r: seq<Byte>)
    requires AllFit(ms)
    ensures Decode(SerializeAll(ms) + r) == Prepend(ms, Decode(r))
  {
    if ms == [] {
      assert SerializeAll(ms) + r == r;
      assert ms + Decode(r).msgs == Decode(r).msgs;
    } else {
      SeqAssoc(Serialize(ms[0]), SerializeAll(ms[1..]), r);
      DecodeFrame(ms[0], SerializeAll(ms[1..]) + r);
      DecodeFrames(ms[1..], r);
      SeqAssoc([ms[0]], ms[1..], Decode(r).msgs);
      assert [ms[0]] + ms[1..] == ms;
    }
  }

  lemma DecodeSerialized(ms: seq<Msg>)
    requires AllFit(ms)
    ensures Decode(SerializeAll(ms)) == Decoded(ms, [], false)
  {
    DecodeFrames(ms, []);
    assert SerializeAll(ms) + [] == SerializeAll(ms);
    assert ms + [] == ms;
  }

  /**
   Decoding in two instalments is decoding once: the second instalment continues from the bytes
   the first one left.
   */
  lemma DecodeAppend(a: seq<Byte>, b: seq<Byte>)
    requires |a| < VECTOR_LIMIT
    ensures var d := Decode(a);
            Decode(a + b) == Prepend(d.msgs, Decode(d.rest + b))
  {
    DecodeExact(a);
    var d := Decode(a);
    SeqAssoc(SerializeAll(d.msgs), d.rest, b);
    DecodeFrames(d.msgs, d.rest + b);
  }

  /** Once the loop has met a wrapping header, no later bytes get it past that header. */
  lemma WrappedForever(s: seq<Byte>, b: seq<Byte>)
    requires Wraps(s)
    ensures Decode(s + b) == Decoded([], s + b, true)
  {
    HeaderFixed(s, b);
    CompletenessTestExact(s + b);
  }

  lemma HeaderFixed(a: seq<Byte>, b: seq<Byte>)
    requires |a| >= HEADER
    ensures SizeField(a + b) == SizeField(a) && TypeField(a + b) == TypeField(a)
  {
    assert (a + b)[..INT_BYTES] == a[..INT_BYTES];
    assert (a + b)[INT_BYTES..HEADER] == a[INT_BYTES..HEADER];
  }

  lemma PrefixIsDecoded(s: seq<Byte>, ms: seq<Msg>)
    requires AllFit(ms) && SerializeAll(ms) <= s
    ensures ms <= Decode(s).msgs
  {
    var r := s[|SerializeAll(ms)|..];
    assert s == SerializeAll(ms) + r;
    DecodeFrames(ms, r);
  }

  lemma DecodedIsPrefix(s: seq<Byte>, ms: seq<Msg>)
    requires |s| < VECTOR_LIMIT && AllFit(ms) && ms <= Decode(s).msgs
    ensures SerializeAll(ms) <= s
  {
    DecodeExact(s);
    var d := Decode(s);
    assert d.msgs == ms + d.msgs[|ms|..];
    SerializeAppend(ms, d.msgs[|ms|..]);
    SeqAssoc(SerializeAll(ms), SerializeAll(d.msgs[|ms|..]), d.rest);
  }

  /** The decoded list is the longest list of messages whose serialisation is a prefix of `s`. */
  lemma DecodeLongestPrefix(s: seq<Byte>, ms: seq<Msg>)
    requires |s| < VECTOR_LIMIT && AllFit(ms)
    ensures SerializeAll(ms) <= s <==> ms <= Decode(s).msgs
  {
    if SerializeAll(ms) <= s {
      PrefixIsDecoded(s, ms);
    }
    if ms <= Decode(s).msgs {
      DecodedIsPrefix(s, ms);
    }
  }

  lemma {:induction false} SerializeAppend(a: seq<Msg>, b: seq<Msg>)
    requires AllFit(a) && AllFit(b)
    ensures SerializeAll(a + b) == SerializeAll(a) + SerializeAll(b)
  {
    if a == [] {
      assert a + b == b;
    } else {
      SerializeAppend(a[1..], b);
      assert (a + b)[0] == a[0] && (a + b)[1..] == a[1..] + b;
      SeqAssoc(Serialize(a[0]), SerializeAll(a[1..]), SerializeAll(b));
    }
  }

  // ---------- The decode loop as the source runs it ----------

  /** One turn: nothing complete, a message taken, or a copy that leaves its buffer. */
  datatype Turn = Stop | Take(msg: Msg, rest: seq<Byte>) | Fault

  /**
   The header is read, `appendBytes` copies the announced size unless nothing is buffered behind the
   header, and the cursor advances by a 64-bit sum that may wrap.
   */
  function LoopTurn(s: seq<Byte>): Turn
  {
    if !IsComplete(s) then Stop
    else
      var n, data := SizeField(s), s[HEADER..];
      if data != [] && n > |data| then Fault
      else Take(Msg(TypeField(s), if data == [] then [] else data[..n]), s[(HEADER + n) % TWO_64..])
  }

  /** The bytes that a turn leaves to the next one, if it takes a message. */
  function NextBytes(s: seq<Byte>): Option<seq<Byte>>
  {
    match LoopTurn(s)
    case Take(_, r) => Some(r)
    case _ => None
  }

  /** The loop makes at least `k` turns that take a message. */
  ghost predicate RunsFor(s: seq<Byte>, k: nat)
  {
    Endures(NextBytes, s, k)
  }

  /** How the loop ends: with bytes left over, in a faulty copy, or never. */
  datatype LoopEnd = Stops(msgs: seq<Msg>, rest: seq<Byte>) | Faults(msgs: seq<Msg>) | Diverges

  function Onto(ms: seq<Msg>, l: LoopEnd): LoopEnd
  {
    match l
    case Stops(msgs, rest) => Stops(ms + msgs, rest)
    case Faults(msgs) => Faults(ms + msgs)
    case Diverges => Diverges
  }

  /**
   The whole loop. At a wrapping header with bytes behind it the copy faults. With nothing behind it
   the source queues an empty message and steps back inside the header, or not at all for 2^64 - 12.
   */
  function Loop(s: seq<Byte>): LoopEnd
  {
    var d := Decode(s);
    if !d.wrapped then Stops(d.msgs, d.rest)
    else if |d.rest| > HEADER then Faults(d.msgs)
    else if HEADER + SizeField(d.rest) == TWO_64 then Diverges
    else Stops(d.msgs + [Msg(TypeField(d.rest), [])], d.rest[HEADER + SizeField(d.rest) - TWO_64..])
  }

  lemma OntoAppend(a: seq<Msg>, b: seq<Msg>, l: LoopEnd)
    ensures Onto(a, Onto(b, l)) == Onto(a + b, l)
  {
    if !l.Diverges? {
      SeqAssoc(a, b, l.msgs);
    }
  }

  lemma LoopPrepend(ms: seq<Msg>, s: seq<Byte>, r: seq<Byte>)
    requires Decode(s) == Prepend(ms, Decode(r))
    ensures Loop(s) == Onto(ms, Loop(r))
  {
    var d := Decode(r);
    if d.wrapped {
      SeqAssoc(ms, d.msgs, [Msg(TypeField(d.rest), [])]);
    }
  }

  lemma TurnAtFrame(s: seq<Byte>)
    requires IsComplete(s) && !Wraps(s) && |s| < VECTOR_LIMIT
    ensures var n := SizeField(s);
            && HEADER + n <= |s|
            && LoopTurn(s) == Take(Msg(TypeField(s), s[HEADER..HEADER + n]), s[HEADER + n..])
  {
    CompletenessTestExact(s);
    var n := SizeField(s);
    assert s[HEADER..] == [] ==> n == 0;
    assert s[HEADER..][..n] == s[HEADER..HEADER + n];
    assert (HEADER + n) % TWO_64 == HEADER + n;
  }

  lemma TurnAtWrap(s: seq<Byte>)
    requires Wraps(s) && |s| < VECTOR_LIMIT
    ensures LoopTurn(s) == if |s| > HEADER then Fault
                           else Take(Msg(TypeField(s), []), s[HEADER + SizeField(s) - TWO_64..])
  {
    CompletenessTestExact(s);
    var n := SizeField(s);
    assert (HEADER + n) % TWO_64 == HEADER + n - TWO_64;
  }

  /** The loop is its first turn followed by the loop on what that turn leaves, on all bytes. */
  lemma LoopUnfolds(s: seq<Byte>)
    requires |s| < VECTOR_LIMIT
    ensures Loop(s) == match LoopTurn(s)
                       case Stop => Stops([], s)
                       case Fault => Faults([])
                       case Take(m, r) => Onto([m], Loop(r))
  {
    if IsComplete(s) && !Wraps(s) {
      TurnAtFrame(s);
      var n := SizeField(s);
      LoopPrepend([Msg(TypeField(s), s[HEADER..HEADER + n])], s, s[HEADER + n..]);
    } else if Wraps(s) {
      CompletenessTestExact(s);
      TurnAtWrap(s);
      if |s| == HEADER {
        LoopAtLoneHeader(s);
      }
    }
  }

  lemma LoopAtLoneHeader(s: seq<Byte>)
    requires Wraps(s) && |s| == HEADER
    ensures Loop(s) == Onto([Msg(TypeField(s), [])], Loop(s[HEADER + SizeField(s) - TWO_64..]))
  {
    CompletenessTestExact(s);
    var k := HEADER + SizeField(s) - TWO_64;
    assert Decode(s) == Decoded([], s, true);
    if k == 0 {
      assert s[0..] == s;
    } else {
      assert Decode(s[k..]) == Decoded([], s[k..], false);
    }
  }

  predicate NeverEnding(s: seq<Byte>)
  {
    |s| < VECTOR_LIMIT && Loop(s).Diverges?
  }

  predicate Ending(s: seq<Byte>)
  {
    |s| < VECTOR_LIMIT && !Loop(s).Diverges?
  }

  function TurnsLeft(s: seq<Byte>): nat
  {
    if Loop(s).Diverges? then 0 else |Loop(s).msgs|
  }

  lemma TurnKeepsEnding(s: seq<Byte>)
    ensures NeverEnding(s) ==> NextBytes(s).Some? && NeverEnding(NextBytes(s).value)
    ensures Ending(s) && NextBytes(s).Some? ==>
              Ending(NextBytes(s).value) && TurnsLeft(NextBytes(s).value) < TurnsLeft(s)
  {
    if |s| < VECTOR_LIMIT {
      LoopUnfolds(s);
    }
  }

  /** The closed form diverges exactly when the loop makes more turns than any bound. */
  lemma DivergesMeansForever(s: seq<Byte>)
    requires |s| < VECTOR_LIMIT
    ensures Loop(s).Diverges? <==> forall k: nat :: RunsFor(s, k)
  {
    forall x
      ensures NeverEnding(x) ==> NextBytes(x).Some? && NeverEnding(NextBytes(x).value)
      ensures Ending(x) && NextBytes(x).Some? ==>
                Ending(NextBytes(x).value) && TurnsLeft(NextBytes(x).value) < TurnsLeft(x)
    {
      TurnKeepsEnding(x);
    }
    if NeverEnding(s) {
      forall k: nat
        ensures RunsFor(s, k)
      {
        EnduresForever(NextBytes, NeverEnding, s, k);
      }
    } else {
      EndsWithinRank(NextBytes, Ending, TurnsLeft, s);
      assert !RunsFor(s, TurnsLeft(s) + 1);
    }
  }

  /** The four bytes of a type and the eight of a size. */
  function Header(t: Int32, n: SizeT): (h: seq<Byte>)
    ensures |h| == HEADER
  {
    EncodeInt(t) + EncodeSize(n)
  }

  lemma HeaderFields(t: Int32, n: SizeT, r: seq<Byte>)
    ensures TypeField(Header(t, n) + r) == t && SizeField(Header(t, n) + r) == n
  {
    var s := Header(t, n) + r;
    assert s[..INT_BYTES] == EncodeInt(t) && s[INT_BYTES..HEADER] == EncodeSize(n);
    IntCodec(t, EncodeInt(t));
    SizeCodec(n, EncodeSize(n));
  }

  lemma HeaderOfBytes(s: seq<Byte>)
    requires |s| >= HEADER
    ensures s == Header(TypeField(s), SizeField(s)) + s[HEADER..]
  {
    IntCodec(TypeField(s), s[..INT_BYTES]);
    SizeCodec(SizeField(s), s[INT_BYTES..HEADER]);
  }

  lemma LoopAtHeader(ms: seq<Msg>, t: Int32, n: SizeT, r: seq<Byte>)
    requires AllFit(ms) && HEADER + n >= TWO_64
    ensures var s := SerializeAll(ms) + (Header(t, n) + r);
            Decode(s) == Decoded(ms, Header(t, n) + r, true)
  {
    var h := Header(t, n) + r;
    HeaderFields(t, n, r);
    CompletenessTestExact(h);
    DecodeFrames(ms, h);
    assert ms + [] == ms;
  }

  /** `s` is whole frames, then a header announcing `n` bytes, then `r`. */
  ghost predicate HeaderAt(s: seq<Byte>, ms: seq<Msg>, t: Int32, n: SizeT, r: seq<Byte>)
  {
    AllFit(ms) && s == SerializeAll(ms) + (Header(t, n) + r)
  }

  lemma HeaderReached(s: seq<Byte>) returns (ms: seq<Msg>, t: Int32, n: SizeT, r: seq<Byte>)
    requires |s| < VECTOR_LIMIT && Decode(s).wrapped
    ensures HeaderAt(s, ms, t, n, r) && Decode(s).rest == Header(t, n) + r
    ensures HEADER + n >= TWO_64 && n == SizeField(Decode(s).rest)
  {
    DecodeExact(s);
    var h := Decode(s).rest;
    HeaderOfBytes(h);
    ms, t, n, r := Decode(s).msgs, TypeField(h), SizeField(h), h[HEADER..];
  }

  lemma HeaderFound(s: seq<Byte>, ms: seq<Msg>, t: Int32, n: SizeT, r: seq<Byte>)
    requires HeaderAt(s, ms, t, n, r) && HEADER + n >= TWO_64
    ensures Decode(s) == Decoded(ms, Header(t, n) + r, true) && SizeField(Decode(s).rest) == n
  {
    LoopAtHeader(ms, t, n, r);
    HeaderFields(t, n, r);
  }

  lemma DivergesWhere(s: seq<Byte>)
    requires |s| < VECTOR_LIMIT
    ensures Loop(s).Diverges?
            <==> exists ms: seq<Msg>, t: Int32 :: HeaderAt(s, ms, t, STUCK_SIZE, [])
  {
    if Loop(s).Diverges? {
      var ms, t, n, r := HeaderReached(s);
      assert r == [];
    }
    if ms: seq<Msg>, t: Int32 :| HeaderAt(s, ms, t, STUCK_SIZE, []) {
      HeaderFound(s, ms, t, STUCK_SIZE, []);
    }
  }

  /**
   The decode loop never ends exactly on streams of whole frames followed by a lone header that
   announces 2^64 - 12 bytes.
   */
  lemma DivergesExactly(s: seq<Byte>)
    requires |s| < VECTOR_LIMIT
    ensures (forall k: nat :: RunsFor(s, k))
            <==> exists ms: seq<Msg>, t: Int32 :: HeaderAt(s, ms, t, STUCK_SIZE, [])
  {
    DivergesWhere(s);
    DivergesMeansForever(s);
  }

  /** The simplest stream on which it never ends is that header alone. */
  lemma StuckOnHeader(ms: seq<Msg>, t: Int32)
    requires AllFit(ms)
    ensures Loop(SerializeAll(ms) + Header(t, STUCK_SIZE)).Diverges?
    ensures Loop(Header(t, STUCK_SIZE)).Diverges?
  {
    var h := Header(t, STUCK_SIZE);
    assert h + [] == h && SerializeAll([]) + h == h;
    HeaderFields(t, STUCK_SIZE, []);
    LoopAtHeader(ms, t, STUCK_SIZE, []);
    LoopAtHeader([], t, STUCK_SIZE, []);
  }

  /** The copy leaves its buffer exactly when a wrapping header has bytes behind it. */
  lemma FaultsExactly(s: seq<Byte>)
    requires |s| < VECTOR_LIMIT
    ensures Loop(s).Faults?
            <==> exists ms: seq<Msg>, t: Int32, n: SizeT, r: seq<Byte> ::
                   HeaderAt(s, ms, t, n, r) && HEADER + n >= TWO_64 && r != []
  {
    if Loop(s).Faults? {
      var ms, t, n, r := HeaderReached(s);
    }
    if ms: seq<Msg>, t: Int32, n: SizeT, r: seq<Byte> :|
      HeaderAt(s, ms, t, n, r) && HEADER + n >= TWO_64 && r != []
    {
      HeaderFound(s, ms, t, n, r);
    }
  }

  /** A lone header announcing 2^64 - 1 bytes passes the completeness test without one of them. */
  lemma CompleteWithoutItsPayload(t: Int32)
    ensures IsComplete(Header(t, TWO_64 - 1)) && |Header(t, TWO_64 - 1)| < HEADER + (TWO_64 - 1)
  {
    HeaderFields(t, TWO_64 - 1, []);
    assert Header(t, TWO_64 - 1) + [] == Header(t, TWO_64 - 1);
    CompletenessTestExact(Header(t, TWO_64 - 1));
  }

  /**
   A lone header announcing any other wrapping size is answered with an empty message, and the cursor
   ends inside the header.
   */
  lemma LoneHeaderInventsMessage(t: Int32, n: SizeT)
    requires STUCK_SIZE < n
    ensures Loop(Header(t, n)) == Stops([Msg(t, [])], Header(t, n)[HEADER + n - TWO_64..])
  {
    var h := Header(t, n);
    assert h + [] == h && SerializeAll([]) + h == h;
    HeaderFields(t, n, []);
    LoopAtHeader([], t, n, []);
    LoopOfWrapped(h, [], h);
  }

  /** The loop where decoding stops at a lone wrapping header that does not bring it to a standstill. */
  lemma LoopOfWrapped(s: seq<Byte>, ms: seq<Msg>, h: seq<Byte>)
    requires Decode(s) == Decoded(ms, h, true) && |h| == HEADER && Wraps(h) && SizeField(h) != STUCK_SIZE
    ensures Loop(s) == Stops(ms + [Msg(TypeField(h), [])], h[HEADER + SizeField(h) - TWO_64..])
  {
  }

  /** That message was never sent: its frame is not the header. */
  lemma InventedWasNotSent(t: Int32, n: SizeT)
    requires n > 0
    ensures Serialize(Msg(t, [])) != Header(t, n)
  {
    var m := Msg(t, []);
    FrameFields(m, []);
    HeaderFields(t, n, []);
    assert Serialize(m) + [] == Serialize(m) && Header(t, n) + [] == Header(t, n);
  }
}
