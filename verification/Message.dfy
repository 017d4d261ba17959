/**
 `Message` and the decode loop that `Client::_receiveMessage` and `Server::_receiveClientMsg` share.
 */
module Messages {
  import opened Bytes
  import opened DataBuffers
  import opened Fields
  import opened Framing
  import opened Sequences
  import opened Wrappers

  class Message {
    var mtype: Int32
    const buffer: DataBuffer

    constructor (t: Int32)
      ensures mtype == t && fresh(buffer)
      ensures buffer.Valid() && buffer.buffer == [] && buffer.cursor == 0
    {
      mtype := t;
      buffer := new DataBuffer();
    }

    method AppendBytes(source: seq<Byte>, len: SizeT) returns (r: Outcome<()>)
      requires buffer.Valid() && |buffer.buffer| + |source| < VECTOR_LIMIT
      modifies buffer
      ensures buffer.Valid() && buffer.cursor == old(buffer.cursor)
      ensures r == (if source != [] && len > |source| then Undefined else Ok(()))
      ensures r.Ok? && source != [] ==>
                && buffer.buffer == old(buffer.buffer) + source[..len]
                && buffer.Unread() == old(buffer.Unread()) + source[..len]
      ensures source == [] || r.Undefined? ==> buffer.buffer == old(buffer.buffer)
    {
      r := buffer.Append(source, len);
    }

    /** Peeks at the header by reading it and stepping back; no read fails and nothing moves. */
    method IsComplet() returns (complete: bool)
      requires buffer.Valid()
      modifies buffer`cursor
      ensures buffer.Valid() && buffer.cursor == old(buffer.cursor)
      ensures complete == IsComplete(buffer.Unread())
    {
      var avail := buffer.Size();
      if avail < HEADER {
        return false;
      }
      var t := buffer.ReadFixed(INT_BYTES);
      var n := buffer.ReadFixed(SIZE_BYTES);
      ghost var s := old(buffer.Unread());
      assert n.value == s[INT_BYTES..HEADER];
      var messageSize := DecodeSize(n.value);
      var back := buffer.DecreaseCursor(HEADER);
      avail := buffer.Size();
      complete := avail >= (HEADER + messageSize) % TWO_64;
    }

    /** The wire image holds the type and whatever part of the payload has not been read. */
    method GetSerializedData() returns (bytes: seq<Byte>)
      requires buffer.Valid()
      ensures bytes == Serialize(Msg(mtype, buffer.Unread()))
    {
      var size := buffer.Size();
      var data := buffer.Data();
      bytes := EncodeInt(mtype);
      bytes := bytes + EncodeSize(size);
      bytes := bytes + data;
    }
  }

  /** Reads the type and the announced size. */
  method TakeHeader(m: Message) returns (msgType: Int32, dataSize: SizeT)
    requires m.buffer.Valid() && |m.buffer.Unread()| >= HEADER
    modifies m.buffer`cursor
    ensures m.buffer.Valid() && m.buffer.cursor == old(m.buffer.cursor) + HEADER
    ensures m.buffer.Unread() == old(m.buffer.Unread())[HEADER..]
    ensures msgType == TypeField(old(m.buffer.Unread())) && dataSize == SizeField(old(m.buffer.Unread()))
  {
    ghost var s := m.buffer.Unread();
    var t := m.buffer.ReadFixed(INT_BYTES);
    assert t.value == s[..INT_BYTES];
    msgType := DecodeInt(t.value);
    var n := m.buffer.ReadFixed(SIZE_BYTES);
    assert n.value == s[INT_BYTES..HEADER];
    dataSize := DecodeSize(n.value);
  }

  /** One turn of the decode loop on a buffer that `IsComplet` has just accepted. */
  method TakeFrame(m: Message) returns (r: Outcome<Msg>)
    requires m.buffer.Valid() && IsComplete(m.buffer.Unread())
    modifies m.buffer`cursor
    ensures m.buffer.Valid()
    ensures var turn := LoopTurn(old(m.buffer.Unread()));
            if turn.Take? then
              && r == Ok(turn.msg) && m.buffer.Unread() == turn.rest
              && m.buffer.cursor == old(m.buffer.cursor) + |old(m.buffer.Unread())| - |turn.rest|
            else r == Undefined
  {
    ghost var s := m.buffer.Unread();
    ghost var start := m.buffer.cursor;
    var msgType, dataSize := TakeHeader(m);
    CursorSum(s, dataSize);
    r := CopyPayload(msgType, m.buffer, dataSize);
    if r.Undefined? {
      return;
    }
    var moved := m.buffer.IncreaseCursor(dataSize);
    assert m.buffer.cursor == start + (HEADER + dataSize) % TWO_64;
    assert m.buffer.Unread() == s[(HEADER + dataSize) % TWO_64..];
  }

  /** The new message: `n` bytes from behind the header, unless nothing is buffered there. */
  method CopyPayload(msgType: Int32, from: DataBuffer, n: SizeT) returns (r: Outcome<Msg>)
    requires from.Valid()
    ensures var data := from.Unread();
            r == if data != [] && n > |data| then Undefined
                 else Ok(Msg(msgType, if data == [] then [] else data[..n]))
  {
    var data := from.Data();
    var newMsg := new Message(msgType);
    var copied := newMsg.AppendBytes(data, n);
    if copied.Undefined? {
      return Undefined;
    }
    assert newMsg.buffer.buffer == if data == [] then [] else data[..n];
    var payload := newMsg.buffer.Data();
    r := Ok(Msg(newMsg.mtype, payload));
  }

  lemma CursorSum(s: seq<Byte>, n: SizeT)
    requires IsComplete(s) && n == SizeField(s)
    ensures (HEADER + n) % TWO_64 == if Wraps(s) then HEADER + n - TWO_64 else HEADER + n
    ensures !Wraps(s) ==> HEADER + n <= |s|
  {
    CompletenessTestExact(s);
  }

  /** How the decode loop ended; `Endless` stands for not ending. */
  datatype Ending = Finished | Faulted | Endless

  /**
   The decode loop. A turn that leaves the cursor where it was is followed by the same turn for ever;
   the method then returns and says so.
   */
  method DrainFrames(m: Message) returns (out: seq<Msg>, end: Ending)
    requires m.buffer.Valid()
    modifies m.buffer`cursor
    ensures m.buffer.Valid()
    ensures match Loop(old(m.buffer.Unread()))
            case Stops(msgs, rest) => end == Finished && out == msgs && m.buffer.Unread() == rest
            case Faults(msgs) => end == Faulted && out == msgs
            case Diverges => end == Endless
  {
    out := [];
    ghost var l := Loop(m.buffer.Unread());
    assert l == Onto([], l);
    var complete := m.IsComplet();
    while complete
      invariant m.buffer.Valid()
      invariant complete == IsComplete(m.buffer.Unread())
      invariant l == Onto(out, Loop(m.buffer.Unread()))
      decreases |m.buffer.Unread()|
    {
      out, end := NextTurn(m, out);
      if end != Finished {
        return;
      }
      complete := m.IsComplet();
    }
    TurnOnto(out, m.buffer.Unread());
    end := Finished;
  }

  /** One turn, with the message pushed behind those taken before; `Finished` means go on. */
  method NextTurn(m: Message, out: seq<Msg>) returns (out': seq<Msg>, end: Ending)
    requires m.buffer.Valid() && IsComplete(m.buffer.Unread())
    modifies m.buffer`cursor
    ensures m.buffer.Valid()
    ensures var l := Onto(out, Loop(old(m.buffer.Unread())));
            match end
            case Finished => l == Onto(out', Loop(m.buffer.Unread()))
            case Faulted => l == Faults(out')
            case Endless => l == Diverges
    ensures end == Finished ==> |m.buffer.Unread()| < |old(m.buffer.Unread())|
  {
    TurnOnto(out, m.buffer.Unread());
    var cursor := m.buffer.cursor;
    var frame := TakeFrame(m);
    if frame.Undefined? {
      return out, Faulted;
    }
    if m.buffer.cursor == cursor {
      return out, Endless;
    }
    out', end := out + [frame.value], Finished;
  }

  /** The loop after the messages `out`, by its next turn. */
  lemma TurnOnto(out: seq<Msg>, s: seq<Byte>)
    requires |s| < VECTOR_LIMIT
    ensures match LoopTurn(s)
            case Stop => Onto(out, Loop(s)) == Stops(out, s)
            case Fault => Onto(out, Loop(s)) == Faults(out)
            case Take(m, r) =>
              Onto(out, Loop(s)) == Onto(out + [m], Loop(r)) && (|r| == |s| ==> Loop(s).Diverges?)
  {
    LoopUnfolds(s);
    assert out + [] == out;
    var turn := LoopTurn(s);
    if turn.Take? {
      OntoAppend(out, [turn.msg], Loop(turn.rest));
      if |turn.rest| == |s| {
        OnlyDivergenceStandsStill(s);
      }
    }
  }

  lemma OnlyDivergenceStandsStill(s: seq<Byte>)
    requires |s| < VECTOR_LIMIT && LoopTurn(s).Take? && |LoopTurn(s).rest| == |s|
    ensures Loop(s).Diverges?
  {
    CompletenessTestExact(s);
    if !Wraps(s) {
      TurnAtFrame(s);
    } else {
      TurnAtWrap(s);
    }
  }
}
