/** `Client`: reassembly of frames from arbitrary `recv` chunks, and dispatch to the actions. */
module Clients {
  import opened Bytes
  import opened Framing
  import opened Messages
  import opened Sequences

  const MAX_READ_BUFFER: int := 16000

  /** How the `recv` loop of one `_receiveMessage` call ended. */
  datatype RecvEnd = WouldBlock | PeerClosed | ConnectionLost | OtherError

  /** How the `select` loop of `update` was left: by a time-out, or in a round that lost the peer. */
  datatype UpdateEnd = NotReady | Terminated(chunks: seq<seq<Byte>>, end: RecvEnd) {
    predicate Arrives()
    {
      Terminated? ==> end != WouldBlock && Arrived(chunks)
    }

    function Bytes(): seq<Byte>
    {
      if Terminated? then Concat(chunks) else []
    }
  }

  /**
   How a call ended: normally, with the exception of `_networkError`, with the exception of an action,
   in a faulty copy, or not at all.
   */
  datatype Status = Done | Raised | ActionThrew | LeftBuffer | NeverReturns

  type Handler = nat

  predicate Arrived(chunks: seq<seq<Byte>>)
  {
    forall i :: 0 <= i < |chunks| ==> 0 < |chunks[i]| <= MAX_READ_BUFFER
  }

  /** Actions run for one message: those registered for its type, in registration order. */
  function Actions(triggers: map<Int32, seq<Handler>>, m: Msg): seq<(Handler, Msg)>
  {
    if m.mtype !in triggers then []
    else seq(|triggers[m.mtype]|, i requires 0 <= i < |triggers[m.mtype]| => (triggers[m.mtype][i], m))
  }

  /** The table after `defineAction(t, h)`. */
  function Defined(triggers: map<Int32, seq<Handler>>, t: Int32, h: Handler): map<Int32, seq<Handler>>
  {
    triggers[t := (if t in triggers then triggers[t] else []) + [h]]
  }

  /** The law between `defineAction` and dispatch: the new action runs last, for its own type only. */
  lemma DefinedRunsLast(triggers: map<Int32, seq<Handler>>, t: Int32, h: Handler, m: Msg)
    ensures Actions(map[], m) == []
    ensures Actions(triggers[t := (if t in triggers then triggers[t] else []) + [h]], m)
         == Actions(triggers, m) + (if m.mtype == t then [(h, m)] else [])
    ensures Actions(Defined(triggers, t, h), m) == Actions(triggers, m) + (if m.mtype == t then [(h, m)] else [])
  {
  }

  function DefinedAll(triggers: map<Int32, seq<Handler>>, regs: seq<(Int32, Handler)>): map<Int32, seq<Handler>>
    decreases |regs|
  {
    if regs == [] then triggers else DefinedAll(Defined(triggers, regs[0].0, regs[0].1), regs[1..])
  }

  /** The calls that a message deserves by the registrations alone: those of its type, in order. */
  function CallsFor(regs: seq<(Int32, Handler)>, m: Msg): seq<(Handler, Msg)>
  {
    if regs == [] then []
    else (if regs[0].0 == m.mtype then [(regs[0].1, m)] else []) + CallsFor(regs[1..], m)
  }

  function CallsForAll(regs: seq<(Int32, Handler)>, ms: seq<Msg>): seq<(Handler, Msg)>
  {
    if ms == [] then [] else CallsFor(regs, ms[0]) + CallsForAll(regs, ms[1..])
  }

  lemma {:induction false} ActionsAreRegistrations(triggers: map<Int32, seq<Handler>>, regs: seq<(Int32, Handler)>,
                                                   m: Msg)
    ensures Actions(DefinedAll(triggers, regs), m) == Actions(triggers, m) + CallsFor(regs, m)
    decreases |regs|
  {
    if regs == [] {
      assert Actions(triggers, m) + [] == Actions(triggers, m);
    } else {
      var (t, h) := regs[0];
      DefinedRunsLast(triggers, t, h, m);
      ActionsAreRegistrations(Defined(triggers, t, h), regs[1..], m);
      SeqAssoc(Actions(triggers, m), if m.mtype == t then [(h, m)] else [], CallsFor(regs[1..], m));
    }
  }

  /**
   After any calls of `defineAction` on a client without actions, dispatching any messages calls, message
   by message, every action registered for its type, once for each registration and in their order.
   */
  lemma {:induction false} DispatchIsRegistrations(regs: seq<(Int32, Handler)>, ms: seq<Msg>)
    ensures Dispatch(DefinedAll(map[], regs), ms) == CallsForAll(regs, ms)
  {
    if ms != [] {
      ActionsAreRegistrations(map[], regs, ms[0]);
      assert Actions(map[], ms[0]) + CallsFor(regs, ms[0]) == CallsFor(regs, ms[0]);
      DispatchIsRegistrations(regs, ms[1..]);
    }
  }

  function Dispatch(triggers: map<Int32, seq<Handler>>, ms: seq<Msg>): seq<(Handler, Msg)>
  {
    if ms == [] then [] else Actions(triggers, ms[0]) + Dispatch(triggers, ms[1..])
  }

  lemma {:induction false} DispatchAppend(triggers: map<Int32, seq<Handler>>, a: seq<Msg>, b: seq<Msg>)
    ensures Dispatch(triggers, a + b) == Dispatch(triggers, a) + Dispatch(triggers, b)
  {
    if a == [] {
      assert a + b == b;
    } else {
      DispatchAppend(triggers, a[1..], b);
      assert (a + b)[0] == a[0] && (a + b)[1..] == a[1..] + b;
      SeqAssoc(Actions(triggers, a[0]), Dispatch(triggers, a[1..]), Dispatch(triggers, b));
    }
  }

  /**
   One dispatch of the queue when `completes` calls of actions return before one throws: the calls
   started, and the queue afterwards, which an exception leaves as it was.
   */
  function Attempt(triggers: map<Int32, seq<Handler>>, queue: seq<Msg>, completes: nat)
    : (seq<(Handler, Msg)>, seq<Msg>)
  {
    var calls := Dispatch(triggers, queue);
    if completes < |calls| then (calls[..completes + 1], queue) else (calls, [])
  }

  /** What one `update` adds to the queue, and how many calls of actions it completes. */
  datatype Delivery = Delivery(msgs: seq<Msg>, completes: nat)

  /** A sequence of dispatches: all calls started, and the queue left at the end. */
  function Deliveries(triggers: map<Int32, seq<Handler>>, queue: seq<Msg>, ds: seq<Delivery>)
    : (seq<(Handler, Msg)>, seq<Msg>)
    decreases |ds|
  {
    if ds == [] then ([], queue)
    else
      var (log, kept) := Attempt(triggers, queue + ds[0].msgs, ds[0].completes);
      var (later, last) := Deliveries(triggers, kept, ds[1..]);
      (log + later, last)
  }

  function ReceivedBy(ds: seq<Delivery>): seq<Msg>
  {
    if ds == [] then [] else ds[0].msgs + ReceivedBy(ds[1..])
  }

  predicate NoneThrows(triggers: map<Int32, seq<Handler>>, queue: seq<Msg>, ds: seq<Delivery>)
    decreases |ds|
  {
    ds == [] ||
    (&& ds[0].completes >= |Dispatch(triggers, queue + ds[0].msgs)|
     && NoneThrows(triggers, [], ds[1..]))
  }

  /** Calls started by dispatches that threw; all of them are started again later. */
  function Repeats(triggers: map<Int32, seq<Handler>>, queue: seq<Msg>, ds: seq<Delivery>): nat
    decreases |ds|
  {
    if ds == [] then 0
    else
      var (log, kept) := Attempt(triggers, queue + ds[0].msgs, ds[0].completes);
      (if ds[0].completes < |Dispatch(triggers, queue + ds[0].msgs)| then |log| else 0)
      + Repeats(triggers, kept, ds[1..])
  }

  lemma {:induction false} RepeatsIffThrows(triggers: map<Int32, seq<Handler>>, queue: seq<Msg>, ds: seq<Delivery>)
    ensures Repeats(triggers, queue, ds) == 0 <==> NoneThrows(triggers, queue, ds)
    decreases |ds|
  {
    if ds != [] && ds[0].completes >= |Dispatch(triggers, queue + ds[0].msgs)| {
      RepeatsIffThrows(triggers, [], ds[1..]);
    }
  }

  /** Started calls balance: what was received, plus what was started in vain, minus what is queued. */
  lemma {:induction false} CallsBalance(triggers: map<Int32, seq<Handler>>, queue: seq<Msg>, ds: seq<Delivery>)
    ensures var (log, last) := Deliveries(triggers, queue, ds);
            |log| + |Dispatch(triggers, last)|
            == |Dispatch(triggers, queue + ReceivedBy(ds))| + Repeats(triggers, queue, ds)
    decreases |ds|
  {
    if ds == [] {
      assert queue + [] == queue;
    } else {
      var q := queue + ds[0].msgs;
      var (log, kept) := Attempt(triggers, q, ds[0].completes);
      CallsBalance(triggers, kept, ds[1..]);
      SeqAssoc(queue, ds[0].msgs, ReceivedBy(ds[1..]));
      DispatchAppend(triggers, q, ReceivedBy(ds[1..]));
      DispatchAppend(triggers, kept, ReceivedBy(ds[1..]));
    }
  }

  lemma {:induction false} UndisturbedDeliveries(triggers: map<Int32, seq<Handler>>, queue: seq<Msg>, ds: seq<Delivery>)
    requires NoneThrows(triggers, queue, ds) && (ds == [] ==> queue == [])
    ensures Deliveries(triggers, queue, ds) == (Dispatch(triggers, queue + ReceivedBy(ds)), [])
    decreases |ds|
  {
    if ds == [] {
      assert queue + [] == [];
    } else {
      UndisturbedDeliveries(triggers, [], ds[1..]);
      assert [] + ReceivedBy(ds[1..]) == ReceivedBy(ds[1..]);
      SeqAssoc(queue, ds[0].msgs, ReceivedBy(ds[1..]));
      DispatchAppend(triggers, queue + ds[0].msgs, ReceivedBy(ds[1..]));
    }
  }

  /**
   Exactly once, exactly: when the queue has been emptied in the end, every message received has run
   each of its actions once, in order, if and only if no action threw on the way.
   */
  lemma ActionsRunOnceExactly(triggers: map<Int32, seq<Handler>>, ds: seq<Delivery>)
    requires Deliveries(triggers, [], ds).1 == []
    ensures Deliveries(triggers, [], ds).0 == Dispatch(triggers, ReceivedBy(ds)) <==> NoneThrows(triggers, [], ds)
  {
    assert [] + ReceivedBy(ds) == ReceivedBy(ds);
    CallsBalance(triggers, [], ds);
    RepeatsIffThrows(triggers, [], ds);
    if NoneThrows(triggers, [], ds) {
      UndisturbedDeliveries(triggers, [], ds);
    }
  }

  /** One action, one message, one exception: the action is started twice. */
  lemma ThrowingActionRunsAgain(t: Int32, h: Handler, p: seq<Byte>)
    ensures var m := Msg(t, p);
            Deliveries(map[t := [h]], [], [Delivery([m], 0), Delivery([], 1)]) == ([(h, m), (h, m)], [])
  {
    var m, triggers := Msg(t, p), map[t := [h]];
    var ds := [Delivery([m], 0), Delivery([], 1)];
    var call := [(h, m)];
    assert Dispatch(triggers, [m]) == call by {
      assert [m][1..] == [] && Actions(triggers, m) == call && call + [] == call;
    }
    assert Attempt(triggers, [m], 0) == (call, [m]) by {
      assert call[..1] == call;
    }
    assert Deliveries(triggers, [m], [Delivery([], 1)]) == (call, []) by {
      assert [m] + [] == [m] && [Delivery([], 1)][1..] == [];
    }
    assert ds[1..] == [Delivery([], 1)] && [] + [m] == [m];
    assert Deliveries(triggers, [], ds) == (call + call, []);
    assert call + call == [(h, m), (h, m)];
  }

  predicate AllArrived(rounds: seq<seq<seq<Byte>>>)
  {
    forall i :: 0 <= i < |rounds| ==> Arrived(rounds[i])
  }

  /** The bytes of a list of `_receiveMessage` calls, each a list of chunks. */
  function RoundBytes(rounds: seq<seq<seq<Byte>>>): seq<Byte>
  {
    Concat(Concat(rounds))
  }

  /** The frames in all the bytes of the rounds; nothing is decoded before the first round. */
  function DecodeRounds(unread: seq<Byte>, rounds: seq<seq<seq<Byte>>>): Decoded
  {
    if rounds == [] then Decoded([], unread, false) else Decode(unread + RoundBytes(rounds))
  }

  /** What the source does: each round runs the decode loop on what the rounds before it left. */
  function LoopRounds(unread: seq<Byte>, rounds: seq<seq<seq<Byte>>>): LoopEnd
    decreases |rounds|
  {
    if rounds == [] then Stops([], unread)
    else
      var l := Loop(unread + Concat(rounds[0]));
      if l.Stops? then Onto(l.msgs, LoopRounds(l.rest, rounds[1..])) else l
  }

  function StatusOf(l: LoopEnd): Status
  {
    match l
    case Stops(_, _) => Done
    case Faults(_) => LeftBuffer
    case Diverges => NeverReturns
  }

  lemma RoundBytesCons(rounds: seq<seq<seq<Byte>>>)
    requires rounds != []
    ensures RoundBytes(rounds) == Concat(rounds[0]) + RoundBytes(rounds[1..])
  {
    ConcatAppend(rounds[0], Concat(rounds[1..]));
  }

  lemma DecodeInTwo(a: seq<Byte>, b: seq<Byte>, c: seq<Byte>)
    requires |a| + |b| < VECTOR_LIMIT
    ensures var d := Decode(a + b);
            && Decode(a + (b + c)) == Prepend(d.msgs, Decode(d.rest + c))
            && (d.wrapped ==> Decode(a + (b + c)).wrapped)
  {
    SeqAssoc(a, b, c);
    DecodeAppend(a + b, c);
    DecodeExact(a + b);
    if Decode(a + b).wrapped {
      WrappedForever(Decode(a + b).rest, c);
    }
  }

  lemma FirstRound(unread: seq<Byte>, rounds: seq<seq<seq<Byte>>>)
    requires rounds != [] && |unread| + |RoundBytes(rounds)| < VECTOR_LIMIT
    requires !DecodeRounds(unread, rounds).wrapped
    ensures |Concat(rounds[0])| + |RoundBytes(rounds[1..])| == |RoundBytes(rounds)|
    ensures var d := Decode(unread + Concat(rounds[0]));
            && !d.wrapped && |d.rest| <= |unread| + |Concat(rounds[0])|
            && DecodeRounds(unread, rounds) == Prepend(d.msgs, DecodeRounds(d.rest, rounds[1..]))
  {
    RoundBytesCons(rounds);
    DecodeInTwo(unread, Concat(rounds[0]), RoundBytes(rounds[1..]));
    var d := Decode(unread + Concat(rounds[0]));
    DecodeExact(unread + Concat(rounds[0]));
    if rounds[1..] == [] {
      assert d.rest + RoundBytes(rounds[1..]) == d.rest;
    }
  }

  /**
   Running the decode loop round by round is decoding all the bytes at once, on every stream in which
   no wrapping header is reached.
   */
  lemma {:induction false} RoundsAreOneDecoding(unread: seq<Byte>, rounds: seq<seq<seq<Byte>>>)
    requires |unread| + |RoundBytes(rounds)| < VECTOR_LIMIT
    requires !DecodeRounds(unread, rounds).wrapped
    ensures var d := DecodeRounds(unread, rounds);
            LoopRounds(unread, rounds) == Stops(d.msgs, d.rest)
    decreases |rounds|
  {
    if rounds != [] {
      FirstRound(unread, rounds);
      var d := Decode(unread + Concat(rounds[0]));
      RoundsAreOneDecoding(d.rest, rounds[1..]);
    }
  }

  lemma {:induction false} RoundsWithoutBytes(unread: seq<Byte>, rounds: seq<seq<seq<Byte>>>)
    requires RoundBytes(rounds) == [] && !IsComplete(unread)
    ensures LoopRounds(unread, rounds) == Stops([], unread)
    decreases |rounds|
  {
    if rounds != [] {
      RoundBytesCons(rounds);
      assert unread + Concat(rounds[0]) == unread;
      RoundsWithoutBytes(unread, rounds[1..]);
    }
  }

  /** A wrapping header reached in a stream that does not fault has nothing behind it. */
  lemma NothingBehindWrap(a: seq<Byte>, b: seq<Byte>)
    requires |a| + |b| < VECTOR_LIMIT && Decode(a).wrapped && !Loop(a + b).Faults?
    ensures b == [] && a + b == a
    ensures Loop(a).Stops? ==> !IsComplete(Loop(a).rest)
  {
    var d := Decode(a);
    DecodeAppend(a, b);
    WrappedForever(d.rest, b);
    CompletenessTestExact(d.rest);
  }

  lemma FirstRoundOf(unread: seq<Byte>, b: seq<Byte>, c: seq<Byte>)
    requires |unread| + |b| < VECTOR_LIMIT && !Decode(unread + b).wrapped
    ensures var l := Loop(unread + b);
            && l.Stops? && !IsComplete(l.rest) && |l.rest| <= |unread| + |b|
            && Loop(unread + (b + c)) == Onto(l.msgs, Loop(l.rest + c))
  {
    DecodeExact(unread + b);
    DecodeInTwo(unread, b, c);
    LoopPrepend(Decode(unread + b).msgs, unread + (b + c), Decode(unread + b).rest + c);
  }

  /** Unless the stream faults, running the loop round by round is running it once on all the bytes. */
  lemma {:induction false} RoundsAreOneLoop(unread: seq<Byte>, rounds: seq<seq<seq<Byte>>>)
    requires |unread| + |RoundBytes(rounds)| < VECTOR_LIMIT && !IsComplete(unread)
    requires !Loop(unread + RoundBytes(rounds)).Faults?
    ensures LoopRounds(unread, rounds) == Loop(unread + RoundBytes(rounds))
    decreases |rounds|
  {
    if rounds == [] {
      assert unread + RoundBytes(rounds) == unread;
    } else {
      var b, c := Concat(rounds[0]), RoundBytes(rounds[1..]);
      RoundBytesCons(rounds);
      if Decode(unread + b).wrapped {
        SeqAssoc(unread, b, c);
        NothingBehindWrap(unread + b, c);
        LastBytesRound(unread, rounds);
      } else {
        FirstRoundOf(unread, b, c);
        RoundsAreOneLoop(Loop(unread + b).rest, rounds[1..]);
      }
    }
  }

  lemma LastBytesRound(unread: seq<Byte>, rounds: seq<seq<seq<Byte>>>)
    requires rounds != [] && RoundBytes(rounds[1..]) == []
    requires var l := Loop(unread + Concat(rounds[0])); l.Stops? ==> !IsComplete(l.rest)
    ensures LoopRounds(unread, rounds) == Loop(unread + Concat(rounds[0]))
  {
    var l := Loop(unread + Concat(rounds[0]));
    if l.Stops? {
      RoundsWithoutBytes(l.rest, rounds[1..]);
      assert l.msgs + [] == l.msgs;
    }
  }

  lemma TwoRounds(a: seq<Byte>, r: seq<Byte>)
    ensures RoundBytes([[a], [r]]) == a + r
    ensures var l := Loop(a);
            LoopRounds([], [[a], [r]]) == if l.Stops? then Onto(l.msgs, LoopRounds(l.rest, [[r]])) else l
  {
    var rounds := [[a], [r]];
    assert rounds[0] == [a] && rounds[1..] == [[r]];
    OneChunk(a);
    OneChunk(r);
    RoundBytesCons(rounds);
    assert [] + a == a;
  }

  /** A stream ending in a wrapping header queues one message more than the frames, or never ends. */
  lemma LoopBehindHeader(ms: seq<Msg>, t: Int32, n: SizeT)
    requires AllFit(ms) && HEADER + n >= TWO_64
    ensures var l := Loop(SerializeAll(ms) + Header(t, n));
            l.Diverges? || (l.Stops? && |l.msgs| == |ms| + 1)
  {
    assert Header(t, n) + [] == Header(t, n);
    LoopAtHeader(ms, t, n, []);
  }

  lemma OntoNeverShorter(ms: seq<Msg>, l: LoopEnd, k: nat)
    requires |ms| > k
    ensures forall few: seq<Msg> :: |few| == k ==> Onto(ms, l) != Faults(few)
  {
  }

  /** Cut right behind a wrapping header, a faulting stream invents a message or never ends instead. */
  lemma FaultDependsOnCut(s: seq<Byte>, ms: seq<Msg>, t: Int32, n: SizeT, r: seq<Byte>)
    requires HeaderAt(s, ms, t, n, r) && HEADER + n >= TWO_64 && r != []
    ensures var a := SerializeAll(ms) + Header(t, n);
            RoundBytes([[a], [r]]) == s && LoopRounds([], [[a], [r]]) != Loop(s)
  {
    var a := SerializeAll(ms) + Header(t, n);
    HeaderFound(s, ms, t, n, r);
    assert Loop(s) == Faults(ms);
    SeqAssoc(SerializeAll(ms), Header(t, n), r);
    LoopBehindHeader(ms, t, n);
    TwoRounds(a, r);
    var l := Loop(a);
    if l.Stops? {
      OntoNeverShorter(l.msgs, LoopRounds(l.rest, [[r]]), |ms|);
    }
  }

  lemma OneChunk(s: seq<Byte>)
    ensures Concat([s]) == s && RoundBytes([[s]]) == s
  {
    ConcatSnoc([], [s]);
    ConcatSnoc([], s);
    assert [] + [[s]] == [[s]] && [] + [s] == [s] && [] + s == s;
  }

  /**
   Chunk independence, exactly: all ways of cutting the stream `s` into calls and chunks behave like
   one run of the loop on all its bytes, if and only if no wrapping header in `s` has bytes behind it.
   */
  lemma ChunkingIrrelevantExactly(s: seq<Byte>)
    requires |s| < VECTOR_LIMIT
    ensures (forall rounds :: RoundBytes(rounds) == s ==> LoopRounds([], rounds) == Loop(s))
            <==> !exists ms: seq<Msg>, t: Int32, n: SizeT, r: seq<Byte> ::
                   HeaderAt(s, ms, t, n, r) && HEADER + n >= TWO_64 && r != []
  {
    FaultsExactly(s);
    if ms: seq<Msg>, t: Int32, n: SizeT, r: seq<Byte> :|
      HeaderAt(s, ms, t, n, r) && HEADER + n >= TWO_64 && r != []
    {
      FaultDependsOnCut(s, ms, t, n, r);
    } else {
      forall rounds | RoundBytes(rounds) == s
        ensures LoopRounds([], rounds) == Loop(s)
      {
        assert [] + s == s;
        RoundsAreOneLoop([], rounds);
      }
    }
  }

  /** The same wrapping header and the byte behind it: one call faults, two calls invent a message. */
  lemma ChunkingMattersAtWrap(t: Int32, b: Byte)
    ensures var h := Header(t, TWO_64 - 1);
            && RoundBytes([[h + [b]]]) == RoundBytes([[h], [[b]]]) == h + [b]
            && LoopRounds([], [[h + [b]]]) == Faults([])
            && LoopRounds([], [[h], [[b]]]) == Stops([Msg(t, [])], h[11..] + [b])
  {
    var h := Header(t, TWO_64 - 1);
    assert h + [] == h && [] + h == h && SerializeAll([]) + (h + [b]) == h + [b] && [] + (h + [b]) == h + [b];
    LoopAtHeader([], t, TWO_64 - 1, [b]);
    LoneHeaderInventsMessage(t, TWO_64 - 1);
    CutOnce(h + [b]);
    CutTwice(h, [b]);
  }

  lemma CutOnce(s: seq<Byte>)
    requires Loop(s).Faults?
    ensures RoundBytes([[s]]) == s && LoopRounds([], [[s]]) == Loop(s)
  {
    OneChunk(s);
    assert [[s]][0] == [s] && [] + s == s;
  }

  lemma CutTwice(a: seq<Byte>, b: seq<Byte>)
    requires Loop(a).Stops? && !IsComplete(Loop(a).rest + b)
    ensures RoundBytes([[a], [b]]) == a + b
    ensures LoopRounds([], [[a], [b]]) == Stops(Loop(a).msgs, Loop(a).rest + b)
  {
    var l := Loop(a);
    TwoRounds(a, b);
    OneChunk(b);
    assert [[b]][1..] == [];
    assert LoopRounds(l.rest, [[b]]) == Stops([] + [], l.rest + b);
    assert l.msgs + [] == l.msgs;
  }

  lemma {:induction false} LoopRoundsAppend(unread: seq<Byte>, a: seq<seq<seq<Byte>>>, b: seq<seq<seq<Byte>>>)
    ensures var l := LoopRounds(unread, a);
            LoopRounds(unread, a + b) == if l.Stops? then Onto(l.msgs, LoopRounds(l.rest, b)) else l
    decreases |a|
  {
    if a == [] {
      assert a + b == b;
      assert LoopRounds(unread, b) == Onto([], LoopRounds(unread, b));
    } else {
      assert (a + b)[0] == a[0] && (a + b)[1..] == a[1..] + b;
      var l := Loop(unread + Concat(a[0]));
      if l.Stops? {
        LoopRoundsAppend(l.rest, a[1..], b);
        var k := LoopRounds(l.rest, a[1..]);
        if k.Stops? {
          OntoAppend(l.msgs, k.msgs, LoopRounds(k.rest, b));
        }
      }
    }
  }

  /** The deliveries of a list of updates, given how many calls of actions each one completes. */
  function Batches(unread: seq<Byte>, updates: seq<seq<seq<seq<Byte>>>>, completes: seq<nat>): seq<Delivery>
    requires |updates| == |completes|
    decreases |updates|
  {
    if updates == [] then []
    else
      var l := LoopRounds(unread, updates[0]);
      if l.Stops? then
        [Delivery(l.msgs, completes[0])] + Batches(l.rest, updates[1..], completes[1..])
      else []
  }

  lemma {:induction false} BatchesReceiveAll(unread: seq<Byte>, updates: seq<seq<seq<seq<Byte>>>>, completes: seq<nat>)
    requires |updates| == |completes| && LoopRounds(unread, Concat(updates)).Stops?
    ensures ReceivedBy(Batches(unread, updates, completes)) == LoopRounds(unread, Concat(updates)).msgs
    decreases |updates|
  {
    if updates != [] {
      LoopRoundsAppend(unread, updates[0], Concat(updates[1..]));
      var l := LoopRounds(unread, updates[0]);
      BatchesReceiveAll(l.rest, updates[1..], completes[1..]);
      var later := Batches(l.rest, updates[1..], completes[1..]);
      assert ([Delivery(l.msgs, completes[0])] + later)[1..] == later;
    }
  }

  lemma BatchesCons(triggers: map<Int32, seq<Handler>>, log: seq<(Handler, Msg)>, queue: seq<Msg>,
                    unread: seq<Byte>, updates: seq<seq<seq<seq<Byte>>>>, completes: seq<nat>)
    requires |updates| == |completes| && updates != [] && LoopRounds(unread, updates[0]).Stops?
    ensures var l := LoopRounds(unread, updates[0]);
            var (part, kept) := Attempt(triggers, queue + l.msgs, completes[0]);
            var all := Deliveries(triggers, queue, Batches(unread, updates, completes));
            var later := Deliveries(triggers, kept, Batches(l.rest, updates[1..], completes[1..]));
            log + all.0 == (log + part) + later.0 && all.1 == later.1
  {
    var l := LoopRounds(unread, updates[0]);
    var ds := Batches(l.rest, updates[1..], completes[1..]);
    assert ([Delivery(l.msgs, completes[0])] + ds)[1..] == ds;
    var (part, kept) := Attempt(triggers, queue + l.msgs, completes[0]);
    SeqAssoc(log, part, Deliveries(triggers, kept, ds).0);
  }

  /**
   The bytes that arrive in the round in which the peer closes are not decoded. On a connection that
   reaches no wrapping header, the messages queued are those of all the bytes received exactly when
   these last bytes complete no frame.
   */
  lemma ClosingRoundIsNotDecoded(unread: seq<Byte>, rounds: seq<seq<seq<Byte>>>, last: seq<Byte>)
    requires |unread| + |RoundBytes(rounds)| + |last| < VECTOR_LIMIT
    requires !Decode(unread + (RoundBytes(rounds) + last)).wrapped
    ensures var l := LoopRounds(unread, rounds);
            && l.Stops?
            && Decode(unread + (RoundBytes(rounds) + last)).msgs == l.msgs + Decode(l.rest + last).msgs
            && (l.msgs == Decode(unread + (RoundBytes(rounds) + last)).msgs <==> Decode(l.rest + last).msgs == [])
  {
    if rounds == [] {
      assert RoundBytes(rounds) + last == last;
    } else {
      DecodeInTwo(unread, RoundBytes(rounds), last);
    }
    RoundsAreOneDecoding(unread, rounds);
    var l := LoopRounds(unread, rounds);
    assert l.msgs + [] == l.msgs;
  }

  /** A message and the end of the connection in one round: that connection never queues the message. */
  lemma MessageBeforeCloseIsLost(m: Msg)
    requires Fits(m) && |Serialize(m)| < VECTOR_LIMIT
    ensures LoopRounds([], []) == Stops([], []) && Decode([] + Serialize(m)).msgs == [m]
  {
    assert [m][1..] == [] && SerializeAll([m]) == Serialize(m) + [] == Serialize(m) == [] + Serialize(m);
    DecodeSerialized([m]);
  }

  lemma ArrivedSplit(a: seq<seq<seq<Byte>>>, b: seq<seq<seq<Byte>>>)
    requires AllArrived(a + b)
    ensures AllArrived(a) && AllArrived(b)
    ensures RoundBytes(a + b) == RoundBytes(a) + RoundBytes(b)
  {
    assert forall i :: 0 <= i < |a| ==> (a + b)[i] == a[i];
    assert forall i :: 0 <= i < |b| ==> (a + b)[|a| + i] == b[i];
    ConcatAppend(a, b);
    ConcatAppend(Concat(a), Concat(b));
  }

  /** The received bytes are the frames delivered so far followed by the unread bytes. */
  ghost predicate Accounted(stream: seq<Byte>, delivered: seq<Msg>, unread: seq<Byte>)
  {
    AllFit(delivered) && stream == SerializeAll(delivered) + unread
  }

  lemma AccountedStep(stream: seq<Byte>, delivered: seq<Msg>, unread: seq<Byte>, b: seq<Byte>)
    requires Accounted(stream, delivered, unread) && |unread + b| < VECTOR_LIMIT
    ensures var d := Decode(unread + b); Accounted(stream + b, delivered + d.msgs, d.rest)
  {
    DecodeExact(unread + b);
    var d := Decode(unread + b);
    SerializeAppend(delivered, d.msgs);
    SeqAssoc(SerializeAll(delivered), unread, b);
    SeqAssoc(SerializeAll(delivered), SerializeAll(d.msgs), d.rest);
  }

  class Client {
    const tmpMsg: Message
    var msgs: seq<Msg>
    var connected: bool
    var triggers: map<Int32, seq<Handler>>

    /** Every message the decode loop has produced so far, over all connections. */
    ghost var delivered: seq<Msg>

    ghost predicate Valid()
      reads this, tmpMsg.buffer
    {
      tmpMsg.buffer.Valid()
    }

    /** The bytes in front of the cursor are exactly the frames delivered so far. */
    ghost predicate Exact()
      requires Valid()
      reads this, tmpMsg.buffer
    {
      Accounted(Stream(), delivered, tmpMsg.buffer.Unread())
    }

    /** Bytes received over all connections of this client; the buffer is never trimmed. */
    ghost function Stream(): seq<Byte>
      reads tmpMsg.buffer
    {
      tmpMsg.buffer.buffer
    }

    constructor ()
      ensures Valid() && Exact() && fresh(tmpMsg) && fresh(tmpMsg.buffer)
      ensures Stream() == [] && msgs == [] && delivered == [] && !connected && triggers == map[]
    {
      tmpMsg := new Message(0);
      msgs, connected, triggers, delivered := [], false, map[], [];
    }

    /**
     `connect`, given whether the foreign calls succeed. Bytes left from an earlier connection stay
     where they are either way.
     */
    method Connect(succeeds: bool) returns (status: Status)
      requires Valid()
      modifies this`connected
      ensures Valid() && connected == succeeds && status == (if succeeds then Done else Raised)
    {
      connected := false;
      if !succeeds {
        return Raised;
      }
      connected := true;
      status := Done;
    }

    method DefineAction(t: Int32, action: Handler)
      requires Valid()
      modifies this`triggers
      ensures Valid()
      ensures triggers == old(triggers)[t := (if t in old(triggers) then old(triggers)[t] else []) + [action]]
    {
      triggers := triggers[t := (if t in triggers then triggers[t] else []) + [action]];
    }

    method DefineActions(regs: seq<(Int32, Handler)>)
      requires Valid()
      modifies this`triggers
      ensures Valid() && triggers == DefinedAll(old(triggers), regs)
    {
      var i := 0;
      assert regs[0..] == regs;
      while i < |regs|
        invariant 0 <= i <= |regs| && Valid()
        invariant DefinedAll(triggers, regs[i..]) == DefinedAll(old(triggers), regs)
      {
        assert regs[i..][0] == regs[i] && regs[i..][1..] == regs[i + 1..];
        DefineAction(regs[i].0, regs[i].1);
        i := i + 1;
      }
      assert regs[i..] == [];
    }

    /** The `recv` loop. */
    method Accumulate(chunks: seq<seq<Byte>>)
      requires Valid() && Arrived(chunks) && |Stream()| + |Concat(chunks)| < VECTOR_LIMIT
      modifies tmpMsg.buffer
      ensures Valid() && tmpMsg.buffer.cursor == old(tmpMsg.buffer.cursor)
      ensures Stream() == old(Stream()) + Concat(chunks)
      ensures tmpMsg.buffer.Unread() == old(tmpMsg.buffer.Unread()) + Concat(chunks)
    {
      var i := 0;
      while i < |chunks|
        invariant 0 <= i <= |chunks|
        invariant tmpMsg.buffer.cursor == old(tmpMsg.buffer.cursor)
        invariant |Stream()| + |Concat(chunks[i..])| < VECTOR_LIMIT
        invariant Valid()
        invariant Stream() + Concat(chunks[i..]) == old(Stream()) + Concat(chunks)
      {
        ghost var before := Stream();
        assert chunks[i..][0] == chunks[i] && chunks[i..][1..] == chunks[i + 1..];
        var appended := tmpMsg.AppendBytes(chunks[i], |chunks[i]|);
        assert chunks[i][..|chunks[i]|] == chunks[i];
        SeqAssoc(before, chunks[i], Concat(chunks[i + 1..]));
        i := i + 1;
      }
      assert chunks[|chunks|..] == [];
    }

    method ReceiveMessage(chunks: seq<seq<Byte>>, end: RecvEnd) returns (status: Status)
      requires Valid() && connected
      requires Arrived(chunks) && |Stream()| + |Concat(chunks)| < VECTOR_LIMIT
      modifies this`msgs, this`connected, this`delivered, tmpMsg.buffer
      ensures Valid() && Stream() == old(Stream()) + Concat(chunks)
      ensures connected == (end == WouldBlock)
      ensures end == WouldBlock ==>
                var l := Loop(old(tmpMsg.buffer.Unread()) + Concat(chunks));
                && status == StatusOf(l)
                && (status == Done <==> l.Stops?) && (status == LeftBuffer <==> l.Faults?)
                && (!l.Diverges? ==> msgs == old(msgs) + l.msgs && delivered == old(delivered) + l.msgs)
                && (l.Stops? ==> tmpMsg.buffer.Unread() == l.rest)
      ensures end != WouldBlock ==>
                && msgs == old(msgs) && delivered == old(delivered)
                && tmpMsg.buffer.Unread() == old(tmpMsg.buffer.Unread()) + Concat(chunks)
                && status == (if end == OtherError then Raised else Done)
    {
      Accumulate(chunks);
      if end != WouldBlock {
        connected := false;
        return if end == OtherError then Raised else Done;
      }
      var out, ending := DrainFrames(tmpMsg);
      if ending == Endless {
        return NeverReturns;
      }
      msgs := msgs + out;
      delivered := delivered + out;
      status := if ending == Faulted then LeftBuffer else Done;
    }

    /** The `select` loop of `update`: one `_receiveMessage` call per round. */
    method ReceiveRounds(rounds: seq<seq<seq<Byte>>>) returns (status: Status)
      requires Valid() && connected
      requires AllArrived(rounds) && |Stream()| + |RoundBytes(rounds)| < VECTOR_LIMIT
      modifies this`msgs, this`connected, this`delivered, tmpMsg.buffer
      ensures Valid() && connected
      ensures var l := LoopRounds(old(tmpMsg.buffer.Unread()), rounds);
              && status == StatusOf(l)
              && (l.Stops? ==>
                    && Stream() == old(Stream()) + RoundBytes(rounds)
                    && msgs == old(msgs) + l.msgs && delivered == old(delivered) + l.msgs
                    && tmpMsg.buffer.Unread() == l.rest)
    {
      ghost var got: seq<Msg> := [];
      ghost var c := Course(rounds, Stream(), LoopRounds(tmpMsg.buffer.Unread(), rounds));
      CourseBegins(c, tmpMsg.buffer.Unread());
      var i := 0;
      while i < |rounds|
        invariant 0 <= i <= |rounds| && Valid() && connected
        invariant OnCourse(c, i, got, Stream(), tmpMsg.buffer.Unread())
        invariant msgs == old(msgs) + got && delivered == old(delivered) + got
      {
        ghost var first := Loop(tmpMsg.buffer.Unread() + Concat(rounds[i]));
        OnCourseNext(c, i, got, Stream(), tmpMsg.buffer.Unread());
        status := ReceiveMessage(rounds[i], WouldBlock);
        if status != Done {
          return;
        }
        SeqAssoc(old(msgs), got, first.msgs);
        SeqAssoc(old(delivered), got, first.msgs);
        got := got + first.msgs;
        i := i + 1;
      }
      status := Done;
      CourseEnds(c, got, Stream(), tmpMsg.buffer.Unread());
    }

    /**
     Exactness over any rounds whose bytes reach no wrapping header: the queue grows by the decoded
     messages, and the bytes in front of the cursor stay exactly the frames delivered.
     */
    method ReceiveExactly(rounds: seq<seq<seq<Byte>>>) returns (status: Status)
      requires Valid() && Exact() && connected
      requires AllArrived(rounds) && |Stream()| + |RoundBytes(rounds)| < VECTOR_LIMIT
      requires !DecodeRounds(tmpMsg.buffer.Unread(), rounds).wrapped
      modifies this`msgs, this`connected, this`delivered, tmpMsg.buffer
      ensures Valid() && Exact() && connected && status == Done
      ensures Stream() == old(Stream()) + RoundBytes(rounds)
      ensures var d := DecodeRounds(old(tmpMsg.buffer.Unread()), rounds);
              msgs == old(msgs) + d.msgs && tmpMsg.buffer.Unread() == d.rest
    {
      RoundsAreOneDecoding(tmpMsg.buffer.Unread(), rounds);
      if rounds != [] {
        AccountedStep(Stream(), delivered, tmpMsg.buffer.Unread(), RoundBytes(rounds));
      } else {
        assert Stream() + [] == Stream() && delivered + [] == delivered;
      }
      status := ReceiveRounds(rounds);
    }

    /**
     Chunk independence of the object: a client that starts with nothing unread and receives the
     serialisation of `ms`, cut in any way, queues exactly `ms` and has nothing unread.
     */
    method ReceiveStream(rounds: seq<seq<seq<Byte>>>, ghost ms: seq<Msg>) returns (status: Status)
      requires Valid() && Exact() && connected && tmpMsg.buffer.Unread() == [] && msgs == []
      requires AllArrived(rounds) && |Stream()| + |RoundBytes(rounds)| < VECTOR_LIMIT
      requires AllFit(ms) && RoundBytes(rounds) == SerializeAll(ms)
      modifies this`msgs, this`connected, this`delivered, tmpMsg.buffer
      ensures Valid() && Exact() && connected && status == Done
      ensures msgs == ms && tmpMsg.buffer.Unread() == []
    {
      StreamDecodes(ms, rounds);
      status := ReceiveExactly(rounds);
      assert [] + ms == ms;
    }

    /**
     The dispatch loop at the end of `update`, whose actions may throw: `completes` calls return before
     one does. An exception skips the line that empties the queue.
     */
    method RunActions(completes: nat) returns (log: seq<(Handler, Msg)>, threw: bool)
      requires Valid()
      modifies this`msgs
      ensures Valid() && (log, msgs) == Attempt(triggers, old(msgs), completes)
      ensures log <= Dispatch(triggers, old(msgs))
      ensures |log| == if threw then completes + 1 else |Dispatch(triggers, old(msgs))|
      ensures msgs == if threw then old(msgs) else []
      ensures threw == (completes < |Dispatch(triggers, old(msgs))|)
    {
      ghost var calls := Dispatch(triggers, msgs);
      log, threw := [], false;
      var i := 0;
      assert msgs[0..] == msgs;
      while i < |msgs|
        invariant 0 <= i <= |msgs| && msgs == old(msgs) && |log| <= completes && !threw
        invariant log + Dispatch(triggers, msgs[i..]) == calls
      {
        ghost var before := log;
        assert msgs[i..][0] == msgs[i] && msgs[i..][1..] == msgs[i + 1..];
        log, threw := RunMessage(msgs[i], log, completes);
        CallsPrefix(before, Actions(triggers, msgs[i]), Dispatch(triggers, msgs[i + 1..]), completes);
        if threw {
          return;
        }
        i := i + 1;
      }
      assert msgs[|msgs|..] == [] && log + [] == log;
      msgs := [];
    }

    /**
     Registrations and dispatch together: after any calls of `defineAction`, every queued message calls
     the actions registered for its type, in registration order, up to the first that throws.
     */
    method DefineAndRun(regs: seq<(Int32, Handler)>, completes: nat)
      returns (log: seq<(Handler, Msg)>, threw: bool)
      requires Valid() && triggers == map[]
      modifies this`triggers, this`msgs
      ensures Valid() && threw == (completes < |CallsForAll(regs, old(msgs))|)
      ensures log == if threw then CallsForAll(regs, old(msgs))[..completes + 1] else CallsForAll(regs, old(msgs))
      ensures msgs == if threw then old(msgs) else []
    {
      DefineActions(regs);
      DispatchIsRegistrations(regs, msgs);
      log, threw := RunActions(completes);
    }

    /** The inner loop: the actions of one message, until one throws. */
    method RunMessage(m: Msg, log: seq<(Handler, Msg)>, completes: nat)
      returns (log': seq<(Handler, Msg)>, threw: bool)
      requires |log| <= completes
      ensures threw == (completes < |log + Actions(triggers, m)|)
      ensures log' == if threw then (log + Actions(triggers, m))[..completes + 1] else log + Actions(triggers, m)
    {
      log', threw := log, false;
      if m.mtype in triggers {
        var handlers := triggers[m.mtype];
        var j := 0;
        while j < |handlers|
          invariant 0 <= j <= |handlers| && |log'| <= completes
          invariant log' == log + Actions(triggers, m)[..j]
        {
          log' := log' + [(handlers[j], m)];
          if |log'| > completes {
            assert log' == (log + Actions(triggers, m))[..completes + 1];
            return log', true;
          }
          j := j + 1;
        }
      }
      assert log' == log + Actions(triggers, m);
    }

    /**
     `update`: the receive rounds, an optional last round that loses the connection, the actions, of
     which `completes` calls return before one throws.
     */
    method Update(rounds: seq<seq<seq<Byte>>>, finish: UpdateEnd, completes: nat)
      returns (status: Status, log: seq<(Handler, Msg)>)
      requires Valid() && finish.Arrives()
      requires AllArrived(rounds)
      requires |Stream()| + |RoundBytes(rounds)| + |finish.Bytes()| < VECTOR_LIMIT
      modifies this`msgs, this`connected, this`delivered, tmpMsg.buffer
      ensures Valid()
      ensures !old(connected) ==>
                && status == Done && log == []
                && Stream() == old(Stream()) && msgs == old(msgs) && delivered == old(delivered)
      ensures old(connected) ==>
                var l := LoopRounds(old(tmpMsg.buffer.Unread()), rounds);
                && (!l.Stops? ==> status == StatusOf(l))
                && (l.Stops? ==>
                      && connected == finish.NotReady?
                      && Stream() == old(Stream()) + RoundBytes(rounds) + finish.Bytes()
                      && delivered == old(delivered) + l.msgs
                      && tmpMsg.buffer.Unread() == l.rest + finish.Bytes())
                && (l.Stops? && finish.Terminated? && finish.end == OtherError ==>
                      status == Raised && log == [] && msgs == old(msgs) + l.msgs)
                && (l.Stops? && !(finish.Terminated? && finish.end == OtherError) ==>
                      && (log, msgs) == Attempt(triggers, old(msgs) + l.msgs, completes)
                      && status == (if completes < |Dispatch(triggers, old(msgs) + l.msgs)| then ActionThrew else Done))
    {
      log := [];
      if !connected {
        return Done, [];
      }
      status := ReceiveRounds(rounds);
      if status != Done {
        return;
      }
      if finish.Terminated? {
        status := ReceiveMessage(finish.chunks, finish.end);
        if status == Raised {
          return;
        }
      } else {
        assert Stream() == old(Stream()) + RoundBytes(rounds) + [];
        assert tmpMsg.buffer.Unread() == tmpMsg.buffer.Unread() + [];
      }
      var threw;
      log, threw := RunActions(completes);
      status := if threw then ActionThrew else Done;
    }

    /** An `update` that ends in a time-out. */
    method QuietUpdate(rounds: seq<seq<seq<Byte>>>, completes: nat)
      returns (status: Status, log: seq<(Handler, Msg)>)
      requires Valid() && connected
      requires AllArrived(rounds) && |Stream()| + |RoundBytes(rounds)| < VECTOR_LIMIT
      modifies this`msgs, this`connected, this`delivered, tmpMsg.buffer
      ensures Valid()
      ensures var l := LoopRounds(old(tmpMsg.buffer.Unread()), rounds);
              if l.Stops? then
                && (status == Done || status == ActionThrew)
                && connected && |Stream()| == |old(Stream())| + |RoundBytes(rounds)|
                && (log, msgs) == Attempt(triggers, old(msgs) + l.msgs, completes)
                && tmpMsg.buffer.Unread() == l.rest
              else status == StatusOf(l)
    {
      ghost var l := LoopRounds(tmpMsg.buffer.Unread(), rounds);
      assert l.Stops? ==> l.rest + [] == l.rest;
      status, log := Update(rounds, NotReady, completes);
    }

    /** The last `update` of a connection that the peer closes or the network drops. */
    method ClosingUpdate(rounds: seq<seq<seq<Byte>>>, finish: UpdateEnd, completes: nat)
      returns (status: Status, log: seq<(Handler, Msg)>)
      requires Valid() && connected && finish.Terminated? && finish.Arrives()
      requires AllArrived(rounds)
      requires |Stream()| + |RoundBytes(rounds)| + |finish.Bytes()| < VECTOR_LIMIT
      requires !Decode(tmpMsg.buffer.Unread() + (RoundBytes(rounds) + finish.Bytes())).wrapped
      modifies this`msgs, this`connected, this`delivered, tmpMsg.buffer
      ensures Valid() && !connected
      ensures var l := LoopRounds(old(tmpMsg.buffer.Unread()), rounds);
              var all := Decode(old(tmpMsg.buffer.Unread()) + (RoundBytes(rounds) + finish.Bytes()));
              && l.Stops? && delivered == old(delivered) + l.msgs
              && (finish.end != OtherError ==> (log, msgs) == Attempt(triggers, old(msgs) + l.msgs, completes))
              && (delivered == old(delivered) + all.msgs <==> Decode(l.rest + finish.Bytes()).msgs == [])
    {
      ClosingRoundIsNotDecoded(tmpMsg.buffer.Unread(), rounds, finish.Bytes());
      status, log := Update(rounds, finish, completes);
      ghost var all := Decode(old(tmpMsg.buffer.Unread()) + (RoundBytes(rounds) + finish.Bytes()));
      if delivered == old(delivered) + all.msgs {
        assert |delivered| == |old(delivered)| + |all.msgs|;
      }
    }

    /** The `i`th update of a planned session. */
    method PlannedUpdate(rounds: seq<seq<seq<Byte>>>, completes: nat,
                         ghost p: Plan, ghost i: nat, ghost log: seq<(Handler, Msg)>)
      returns (status: Status, part: seq<(Handler, Msg)>)
      requires Valid() && connected && i < |p.updates| == |p.completes|
      requires rounds == p.updates[i] && completes == p.completes[i]
      requires OnPlan(triggers, p, i, log, msgs, tmpMsg.buffer.Unread(), |Stream()|)
      modifies this`msgs, this`connected, this`delivered, tmpMsg.buffer
      ensures Valid()
      ensures if status == Done || status == ActionThrew then
                connected && OnPlan(triggers, p, i + 1, log + part, msgs, tmpMsg.buffer.Unread(), |Stream()|)
              else status == StatusOf(p.end)
    {
      PlanGoesOn(triggers, p, i, log, msgs, tmpMsg.buffer.Unread(), |Stream()|);
      status, part := QuietUpdate(rounds, completes);
    }

    /**
     A whole session on one open connection, cut into `update` calls, `_receiveMessage` calls and
     `recv` chunks in any way, with actions that may throw: the calls started and the queue are those
     of the deliveries, and the unread bytes those of all the rounds together.
     */
    method Session(updates: seq<seq<seq<seq<Byte>>>>, completes: seq<nat>)
      returns (status: Status, log: seq<(Handler, Msg)>)
      requires Valid() && connected && |updates| == |completes|
      requires AllArrived(Concat(updates))
      requires |Stream()| + |RoundBytes(Concat(updates))| < VECTOR_LIMIT
      modifies this`msgs, this`connected, this`delivered, tmpMsg.buffer
      ensures Valid()
      ensures var unread := old(tmpMsg.buffer.Unread());
              var l := LoopRounds(unread, Concat(updates));
              && status == StatusOf(l)
              && (l.Stops? ==>
                    && connected && tmpMsg.buffer.Unread() == l.rest
                    && (log, msgs) == Deliveries(triggers, old(msgs), Batches(unread, updates, completes)))
    {
      log, status := [], Done;
      ghost var p := Plan(updates, completes, LoopRounds(tmpMsg.buffer.Unread(), Concat(updates)),
                          Deliveries(triggers, msgs, Batches(tmpMsg.buffer.Unread(), updates, completes)));
      assert updates[0..] == updates && completes[0..] == completes && [] + p.goal.0 == p.goal.0;
      var i := 0;
      while i < |updates|
        invariant 0 <= i <= |updates| && Valid() && connected
        invariant OnPlan(triggers, p, i, log, msgs, tmpMsg.buffer.Unread(), |Stream()|)
      {
        var part;
        status, part := PlannedUpdate(updates[i], completes[i], p, i, log);
        if status != Done && status != ActionThrew {
          return;
        }
        log := log + part;
        i := i + 1;
      }
      status := Done;
      PlanEnds(triggers, p, log, msgs, tmpMsg.buffer.Unread(), |Stream()|);
    }

    /**
     End to end: the serialisation of `ms`, cut in any way into chunks, calls and updates. If no action
     throws, exactly the actions of `ms` run, in order; and if the queue is empty in the end, they have
     run exactly once only if none threw.
     */
    method SessionOfStream(updates: seq<seq<seq<seq<Byte>>>>, completes: seq<nat>, ghost ms: seq<Msg>)
      returns (status: Status, log: seq<(Handler, Msg)>)
      requires Valid() && connected && msgs == [] && tmpMsg.buffer.Unread() == []
      requires AllArrived(Concat(updates)) && |updates| == |completes|
      requires |Stream()| + |RoundBytes(Concat(updates))| < VECTOR_LIMIT
      requires AllFit(ms) && RoundBytes(Concat(updates)) == SerializeAll(ms)
      modifies this`msgs, this`connected, this`delivered, tmpMsg.buffer
      ensures Valid() && connected && status == Done && tmpMsg.buffer.Unread() == []
      ensures var ds := Batches([], updates, completes);
              && ReceivedBy(ds) == ms
              && (NoneThrows(triggers, [], ds) ==> msgs == [] && log == Dispatch(triggers, ms))
              && (msgs == [] ==> (log == Dispatch(triggers, ms) <==> NoneThrows(triggers, [], ds)))
    {
      StreamDecodes(ms, Concat(updates));
      RoundsAreOneDecoding([], Concat(updates));
      BatchesReceiveAll([], updates, completes);
      ghost var ds := Batches([], updates, completes);
      if NoneThrows(triggers, [], ds) {
        UndisturbedDeliveries(triggers, [], ds);
        assert [] + ms == ms;
      }
      if Deliveries(triggers, [], ds).1 == [] {
        ActionsRunOnceExactly(triggers, ds);
      }
      status, log := Session(updates, completes);
    }
  }

  lemma CallsPrefix<T>(log: seq<T>, part: seq<T>, later: seq<T>, completes: nat)
    requires |log| <= completes
    ensures log + (part + later) == (log + part) + later
    ensures completes < |log + part| ==> (log + (part + later))[..completes + 1] == (log + part)[..completes + 1]
  {
  }

  /** Two ends that differ at most in the messages queued on the way. */
  predicate SameEnd(l: LoopEnd, k: LoopEnd)
  {
    match l
    case Stops(_, rest) => k.Stops? && k.rest == rest
    case Faults(_) => k.Faults?
    case Diverges => k.Diverges?
  }

  /** The rounds of an `update`, the bytes received before them, and how their loops end. */
  datatype Course = Course(rounds: seq<seq<seq<Byte>>>, start: seq<Byte>, end: LoopEnd)

  /** Before the `i`th round, with the messages `got` so far, the rounds to come lead to that end. */
  predicate OnCourse(c: Course, i: nat, got: seq<Msg>, stream: seq<Byte>, unread: seq<Byte>)
  {
    && i <= |c.rounds|
    && |stream| + |RoundBytes(c.rounds[i..])| < VECTOR_LIMIT
    && stream + RoundBytes(c.rounds[i..]) == c.start + RoundBytes(c.rounds)
    && c.end == Onto(got, LoopRounds(unread, c.rounds[i..]))
  }

  lemma CourseBegins(c: Course, unread: seq<Byte>)
    requires |c.start| + |RoundBytes(c.rounds)| < VECTOR_LIMIT && c.end == LoopRounds(unread, c.rounds)
    ensures OnCourse(c, 0, [], c.start, unread)
  {
    assert c.rounds[0..] == c.rounds && c.end == Onto([], c.end);
  }

  lemma OnCourseNext(c: Course, i: nat, got: seq<Msg>, stream: seq<Byte>, unread: seq<Byte>)
    requires OnCourse(c, i, got, stream, unread) && i < |c.rounds|
    ensures |stream| + |Concat(c.rounds[i])| < VECTOR_LIMIT
    ensures var l := Loop(unread + Concat(c.rounds[i]));
            if l.Stops? then OnCourse(c, i + 1, got + l.msgs, stream + Concat(c.rounds[i]), l.rest)
            else StatusOf(c.end) == StatusOf(l)
  {
    var todo := c.rounds[i..];
    assert todo[0] == c.rounds[i] && todo[1..] == c.rounds[i + 1..];
    RoundBytesCons(todo);
    SeqAssoc(stream, Concat(c.rounds[i]), RoundBytes(todo[1..]));
    var l := Loop(unread + Concat(c.rounds[i]));
    if l.Stops? {
      OntoAppend(got, l.msgs, LoopRounds(l.rest, todo[1..]));
    }
  }

  lemma CourseEnds(c: Course, got: seq<Msg>, stream: seq<Byte>, unread: seq<Byte>)
    requires OnCourse(c, |c.rounds|, got, stream, unread)
    ensures c.end == Stops(got, unread) && stream == c.start + RoundBytes(c.rounds)
  {
    assert got + [] == got && stream + [] == stream;
  }

  /** The updates of a session, and what it must end in: the bytes, and the calls and the queue. */
  datatype Plan = Plan(updates: seq<seq<seq<seq<Byte>>>>, completes: seq<nat>,
                       end: LoopEnd, goal: (seq<(Handler, Msg)>, seq<Msg>))

  /** From the `i`th update on, the plan leads to that end, with room for all its bytes. */
  predicate OnPlan(triggers: map<Int32, seq<Handler>>, p: Plan, i: nat,
                   log: seq<(Handler, Msg)>, queue: seq<Msg>, unread: seq<Byte>, received: nat)
  {
    && i <= |p.updates| == |p.completes|
    && var rounds := Concat(p.updates[i..]);
       var later := Deliveries(triggers, queue, Batches(unread, p.updates[i..], p.completes[i..]));
       && AllArrived(rounds) && received + |RoundBytes(rounds)| < VECTOR_LIMIT
       && SameEnd(p.end, LoopRounds(unread, rounds)) && p.goal == (log + later.0, later.1)
  }

  lemma PlanEnds(triggers: map<Int32, seq<Handler>>, p: Plan,
                 log: seq<(Handler, Msg)>, queue: seq<Msg>, unread: seq<Byte>, received: nat)
    requires OnPlan(triggers, p, |p.updates|, log, queue, unread, received)
    ensures p.goal == (log, queue) && p.end.Stops? && p.end.rest == unread
  {
    assert log + [] == log;
  }

  lemma PlanGoesOn(triggers: map<Int32, seq<Handler>>, p: Plan, i: nat,
                   log: seq<(Handler, Msg)>, queue: seq<Msg>, unread: seq<Byte>, received: nat)
    requires OnPlan(triggers, p, i, log, queue, unread, received) && i < |p.updates|
    ensures AllArrived(p.updates[i]) && received + |RoundBytes(p.updates[i])| < VECTOR_LIMIT
    ensures var l := LoopRounds(unread, p.updates[i]);
            if l.Stops? then
              var (part, kept) := Attempt(triggers, queue + l.msgs, p.completes[i]);
              OnPlan(triggers, p, i + 1, log + part, kept, l.rest, received + |RoundBytes(p.updates[i])|)
            else StatusOf(p.end) == StatusOf(l)
  {
    var todo, rates := p.updates[i..], p.completes[i..];
    var later := Concat(p.updates[i + 1..]);
    assert todo[0] == p.updates[i] && todo[1..] == p.updates[i + 1..];
    assert rates[0] == p.completes[i] && rates[1..] == p.completes[i + 1..];
    ArrivedSplit(todo[0], later);
    LoopRoundsAppend(unread, todo[0], later);
    if LoopRounds(unread, todo[0]).Stops? {
      BatchesCons(triggers, log, queue, unread, todo, rates);
    }
  }

  lemma StreamDecodes(ms: seq<Msg>, rounds: seq<seq<seq<Byte>>>)
    requires AllFit(ms) && RoundBytes(rounds) == SerializeAll(ms)
    ensures DecodeRounds([], rounds) == Decoded(ms, [], false)
  {
    DecodeSerialized(ms);
    assert [] + RoundBytes(rounds) == RoundBytes(rounds);
    if rounds == [] && ms != [] {
      assert false;
    }
  }

  /**
   Chunk independence: however the serialisation of `ms` is cut into chunks and the chunks grouped
   into calls, running the decode loop call by call queues exactly `ms` and keeps nothing.
   */
  lemma ChunkIndependence(ms: seq<Msg>, rounds: seq<seq<seq<Byte>>>)
    requires AllFit(ms) && |SerializeAll(ms)| < VECTOR_LIMIT && RoundBytes(rounds) == SerializeAll(ms)
    ensures LoopRounds([], rounds) == Stops(ms, [])
  {
    StreamDecodes(ms, rounds);
    RoundsAreOneDecoding([], rounds);
  }

  lemma PrefixDecodes(ms: seq<Msg>, s: seq<Byte>)
    requires AllFit(ms) && |SerializeAll(ms)| < VECTOR_LIMIT && s <= SerializeAll(ms)
    ensures !Decode(s).wrapped && Decode(s).msgs <= ms
  {
    var t := SerializeAll(ms)[|s|..];
    assert s + t == SerializeAll(ms);
    DecodeSerialized(ms);
    DecodeAppend(s, t);
    DecodeExact(s);
    if Decode(s).wrapped {
      WrappedForever(Decode(s).rest, t);
    }
  }

  /**
   At every intermediate point, when only a prefix of the stream has arrived, the messages queued
   are exactly those whose frames have arrived in full.
   */
  lemma PrefixDelivery(ms: seq<Msg>, rounds: seq<seq<seq<Byte>>>, k: nat)
    requires AllFit(ms) && |SerializeAll(ms)| < VECTOR_LIMIT && k <= |ms|
    requires RoundBytes(rounds) <= SerializeAll(ms)
    ensures var l := LoopRounds([], rounds);
            && l.Stops? && l.msgs <= ms
            && (k <= |l.msgs| <==> |SerializeAll(ms[..k])| <= |RoundBytes(rounds)|)
  {
    var s := RoundBytes(rounds);
    assert [] + s == s;
    PrefixDecodes(ms, s);
    RoundsAreOneDecoding([], rounds);
    assert ms == ms[..k] + ms[k..];
    SerializeAppend(ms[..k], ms[k..]);
    DecodeLongestPrefix(s, ms[..k]);
  }

  /** The next connection delivers `ms` when `leftover` was unread before it. */
  ghost predicate DeliversAfter(leftover: seq<Byte>, ms: seq<Msg>)
    requires AllFit(ms)
  {
    var l := Loop(leftover + SerializeAll(ms));
    l.Stops? && l.msgs == ms
  }

  /**
   `connect` keeps the unread bytes of the previous connection. The next connection delivers its
   messages whatever they are exactly when nothing was left unread.
   */
  lemma ReconnectExact(leftover: seq<Byte>)
    requires |leftover| + HEADER < VECTOR_LIMIT
    ensures (forall ms: seq<Msg> :: AllFit(ms) ==> DeliversAfter(leftover, ms)) <==> leftover == []
  {
    if leftover == [] {
      forall ms: seq<Msg> | AllFit(ms)
        ensures DeliversAfter(leftover, ms)
      {
        DecodeSerialized(ms);
        assert leftover + SerializeAll(ms) == SerializeAll(ms);
      }
    } else {
      var m := Msg(if leftover[0] == 0 then 1 else 0, []);
      FirstByte(m);
      StaleByteSpoils(leftover, m);
    }
  }

  lemma FirstByte(m: Msg)
    requires Fits(m) && 0 <= m.mtype < 256
    ensures Serialize(m)[0] == m.mtype
  {
  }

  lemma StaleByteSpoils(leftover: seq<Byte>, m: Msg)
    requires Fits(m) && leftover != [] && leftover[0] != Serialize(m)[0]
    requires |leftover| + |Serialize(m)| < VECTOR_LIMIT
    ensures AllFit([m]) && !DeliversAfter(leftover, [m])
  {
    var s := leftover + SerializeAll([m]);
    assert SerializeAll([m]) == Serialize(m) + SerializeAll([m][1..]);
    assert SerializeAll([m])[0] == Serialize(m)[0] && s[0] == leftover[0];
    DecodeExact(s);
    if Decode(s).msgs == [m] {
      DecodedIsPrefix(s, [m]);
    }
  }
}
