/** `Server`: per-`recv` decoding, the client tables, and the dispatch to the tasks. */
module Servers {
  import opened Bytes
  import opened Framing
  import opened Messages
  import opened Sequences

  const NB_CONNECTION: int := 1000
  const READ_BUFFER_SIZE: int := 4096
  const INT_MAX: int := 0x7FFF_FFFF

  // ---------- Decoding: every recv chunk on its own ----------

  /** Messages decoded from a list of chunks when the partial buffer is cleared after each one. */
  datatype Batch = Batch(msgs: seq<Msg>, end: Ending)

  function DecodeChunks(chunks: seq<seq<Byte>>): Batch
  {
    if chunks == [] then Batch([], Finished)
    else
      match Loop(chunks[0])
      case Faults(msgs) => Batch(msgs, Faulted)
      case Diverges => Batch([], Endless)
      case Stops(msgs, _) =>
        var b := DecodeChunks(chunks[1..]);
        Batch(msgs + b.msgs, b.end)
  }

  /** The chunk is a sequence of whole frames. */
  ghost predicate Aligned(chunk: seq<Byte>)
  {
    exists fs: seq<Msg> :: AllFit(fs) && chunk == SerializeAll(fs)
  }

  ghost predicate AllAligned(chunks: seq<seq<Byte>>)
  {
    forall i :: 0 <= i < |chunks| ==> Aligned(chunks[i])
  }

  lemma AlignedLeavesNothing(chunk: seq<Byte>)
    requires |chunk| < VECTOR_LIMIT
    ensures Aligned(chunk) <==> Decode(chunk).rest == []
  {
    DecodeExact(chunk);
    if Aligned(chunk) {
      var fs: seq<Msg> :| AllFit(fs) && chunk == SerializeAll(fs);
      DecodeSerialized(fs);
    }
    if Decode(chunk).rest == [] {
      assert SerializeAll(Decode(chunk).msgs) + [] == SerializeAll(Decode(chunk).msgs);
    }
  }

  /** The messages decoded from one chunk against its bytes. */
  lemma LoneChunk(c: seq<Byte>)
    requires |c| < VECTOR_LIMIT && !Loop(c).Diverges?
    ensures AllFit(Loop(c).msgs) && |SerializeAll(Loop(c).msgs)| <= |c|
    ensures SerializeAll(Loop(c).msgs) == c <==> Aligned(c)
    ensures Aligned(c) ==> Loop(c) == Stops(Decode(c).msgs, [])
  {
    var d := Decode(c);
    DecodeExact(c);
    AlignedLeavesNothing(c);
    if d.wrapped && |d.rest| == HEADER {
      InventedIsNotTheHeader(d.msgs, d.rest);
    } else if d.rest == [] {
      assert SerializeAll(d.msgs) + [] == SerializeAll(d.msgs);
    }
  }

  lemma InventedIsNotTheHeader(ms: seq<Msg>, h: seq<Byte>)
    requires AllFit(ms) && Wraps(h) && |h| == HEADER
    ensures var m := Msg(TypeField(h), []);
            && AllFit(ms + [m]) && |SerializeAll(ms + [m])| == |SerializeAll(ms) + h|
            && SerializeAll(ms + [m]) != SerializeAll(ms) + h
  {
    var m := Msg(TypeField(h), []);
    SerializeAppend(ms, [m]);
    assert [m][1..] == [] && SerializeAll([m]) == Serialize(m) + [] == Serialize(m);
    FrameFields(m, []);
    assert Serialize(m) + [] == Serialize(m);
    var n := |SerializeAll(ms)|;
    assert (SerializeAll(ms) + h)[n..] == h && (SerializeAll(ms) + Serialize(m))[n..] == Serialize(m);
  }

  /** The bytes of a batch's messages against the bytes received. */
  ghost predicate Accounts(chunks: seq<seq<Byte>>, b: Batch)
  {
    && AllFit(b.msgs)
    && |SerializeAll(b.msgs)| <= |Concat(chunks)|
    && (SerializeAll(b.msgs) == Concat(chunks) <==> AllAligned(chunks))
    && (AllAligned(chunks) ==> b.end == Finished)
  }

  /** The messages never weigh more than the bytes, and are the bytes exactly on whole frames. */
  lemma {:induction false} ChunkConservation(chunks: seq<seq<Byte>>)
    requires |Concat(chunks)| < VECTOR_LIMIT
    ensures Accounts(chunks, DecodeChunks(chunks))
  {
    if chunks != [] {
      var l := Loop(chunks[0]);
      ChunkConservation(chunks[1..]);
      AlignedCons(chunks);
      if l.Diverges? {
        AlignedLeavesNothing(chunks[0]);
      } else {
        LoneChunk(chunks[0]);
        if l.Faults? {
          FaultyChunkIsShort(chunks);
        } else {
          AccountsCons(chunks, l.msgs, DecodeChunks(chunks[1..]));
        }
      }
    }
  }

  lemma FaultyChunkIsShort(chunks: seq<seq<Byte>>)
    requires chunks != [] && |chunks[0]| < VECTOR_LIMIT && Loop(chunks[0]).Faults?
    ensures AllFit(Loop(chunks[0]).msgs) && |SerializeAll(Loop(chunks[0]).msgs)| < |chunks[0]|
  {
    DecodeExact(chunks[0]);
  }

  lemma AccountsCons(chunks: seq<seq<Byte>>, ms: seq<Msg>, b: Batch)
    requires chunks != [] && AllFit(ms) && Accounts(chunks[1..], b)
    requires |SerializeAll(ms)| <= |chunks[0]| && (SerializeAll(ms) == chunks[0] <==> Aligned(chunks[0]))
    requires AllAligned(chunks) <==> Aligned(chunks[0]) && AllAligned(chunks[1..])
    ensures Accounts(chunks, Batch(ms + b.msgs, b.end))
  {
    SerializeAppend(ms, b.msgs);
    SplitEqual(SerializeAll(ms), SerializeAll(b.msgs), chunks[0], Concat(chunks[1..]));
  }

  lemma SplitEqual(a: seq<Byte>, b: seq<Byte>, c: seq<Byte>, d: seq<Byte>)
    requires |a| <= |c| && |b| <= |d|
    ensures a + b == c + d <==> a == c && b == d
  {
    if a + b == c + d {
      assert |a| == |c|;
      assert (a + b)[..|a|] == a && (c + d)[..|a|] == c;
      assert (a + b)[|a|..] == b && (c + d)[|a|..] == d;
    }
  }

  lemma AlignedCons(chunks: seq<seq<Byte>>)
    requires chunks != []
    ensures AllAligned(chunks) <==> Aligned(chunks[0]) && AllAligned(chunks[1..])
  {
    if Aligned(chunks[0]) && AllAligned(chunks[1..]) {
      forall i | 0 <= i < |chunks|
        ensures Aligned(chunks[i])
      {
        assert i > 0 ==> chunks[i] == chunks[1..][i - 1];
      }
    }
    if AllAligned(chunks) {
      assert forall i :: 0 <= i < |chunks[1..]| ==> chunks[1..][i] == chunks[i + 1];
    }
  }

  /**
   Unlike the client, the server reproduces a sent list of messages only on some cuttings of it:
   exactly those in which every `recv` returned whole frames.
   */
  lemma ServerExactOnAlignedChunks(ms: seq<Msg>, chunks: seq<seq<Byte>>)
    requires AllFit(ms) && Concat(chunks) == SerializeAll(ms) && |Concat(chunks)| < VECTOR_LIMIT
    ensures DecodeChunks(chunks).msgs == ms <==> AllAligned(chunks)
    ensures AllAligned(chunks) ==> DecodeChunks(chunks) == Batch(Decode(Concat(chunks)).msgs, Finished)
  {
    ChunkConservation(chunks);
    DecodeSerialized(ms);
    if AllAligned(chunks) {
      DecodeSerialized(DecodeChunks(chunks).msgs);
    }
  }

  lemma {:induction false} WeighsAtMost(ms: seq<Msg>, i: nat)
    requires AllFit(ms) && i < |ms|
    ensures |Serialize(ms[i])| <= |SerializeAll(ms)|
  {
    if i > 0 {
      WeighsAtMost(ms[1..], i - 1);
    }
  }

  /** A message whose frame is longer than the read buffer is never decoded, however it is cut. */
  lemma {:induction false} OversizedNeverDecoded(chunks: seq<seq<Byte>>, i: nat)
    requires forall k :: 0 <= k < |chunks| ==> |chunks[k]| <= READ_BUFFER_SIZE
    requires i < |DecodeChunks(chunks).msgs|
    ensures HEADER + |DecodeChunks(chunks).msgs[i].payload| <= READ_BUFFER_SIZE
    decreases |chunks|
  {
    var l := Loop(chunks[0]);
    LoneChunk(chunks[0]);
    if i < |l.msgs| {
      WeighsAtMost(l.msgs, i);
    } else {
      assert forall k :: 0 <= k < |chunks[1..]| ==> chunks[1..][k] == chunks[k + 1];
      OversizedNeverDecoded(chunks[1..], i - |l.msgs|);
    }
  }

  /** So a sender that exceeds the buffer is never heard in full, while the client decodes any size. */
  lemma OversizedStreamIsNotReproduced(ms: seq<Msg>, chunks: seq<seq<Byte>>, i: nat)
    requires AllFit(ms) && Concat(chunks) == SerializeAll(ms) && |Concat(chunks)| < VECTOR_LIMIT
    requires forall k :: 0 <= k < |chunks| ==> |chunks[k]| <= READ_BUFFER_SIZE
    requires i < |ms| && HEADER + |ms[i].payload| > READ_BUFFER_SIZE
    ensures DecodeChunks(chunks).msgs != ms && !AllAligned(chunks) && Decode(Concat(chunks)).msgs == ms
  {
    ServerExactOnAlignedChunks(ms, chunks);
    DecodeSerialized(ms);
    if DecodeChunks(chunks).msgs == ms {
      OversizedNeverDecoded(chunks, i);
    }
  }

  lemma ShortChunkDecodesNothing(c: seq<Byte>)
    requires |c| < HEADER
    ensures Loop(c) == Stops([], c)
  {
  }

  /** A frame split over two `recv` calls that each return less than a header is lost. */
  lemma SplitFrameIsLost(m: Msg, k: nat)
    requires Fits(m) && k < HEADER && |Serialize(m)| - k < HEADER && k <= |Serialize(m)|
    ensures var s := Serialize(m);
            Concat([s[..k], s[k..]]) == SerializeAll([m]) && DecodeChunks([s[..k], s[k..]]).msgs == []
  {
    var s := Serialize(m);
    var chunks := [s[..k], s[k..]];
    var last := chunks[1..];
    assert last == [s[k..]] && last[1..] == [];
    ConcatSnoc([s[..k]], s[k..]);
    ConcatSnoc([], s[..k]);
    assert [] + [s[..k]] == [s[..k]] && [s[..k]] + [s[k..]] == chunks;
    assert Concat(chunks) == s;
    assert SerializeAll([m]) == s + SerializeAll([m][1..]);
    ShortChunkDecodesNothing(s[..k]);
    ShortChunkDecodesNothing(s[k..]);
    assert DecodeChunks(last) == Batch([], Finished);
  }

  /** The smallest instance: an empty message cut in the middle of its header. */
  lemma SplitEmptyMessageIsLost(t: Int32)
    ensures var s := Serialize(Msg(t, []));
            Concat([s[..6], s[6..]]) == SerializeAll([Msg(t, [])]) && DecodeChunks([s[..6], s[6..]]).msgs == []
  {
    SplitFrameIsLost(Msg(t, []), 6);
  }

  function Tagged(fd: int, ms: seq<Msg>): (r: seq<(int, Msg)>)
    ensures |r| == |ms|
  {
    seq(|ms|, i requires 0 <= i < |ms| => (fd, ms[i]))
  }

  lemma TaggedAppend(fd: int, a: seq<Msg>, b: seq<Msg>)
    ensures Tagged(fd, a + b) == Tagged(fd, a) + Tagged(fd, b)
  {
  }

  /** Queueing one chunk's messages and then the later ones is queueing the whole batch. */
  lemma QueueCons(queue: seq<(int, Msg)>, fd: int, chunks: seq<seq<Byte>>)
    requires chunks != [] && Loop(chunks[0]).Stops?
    ensures DecodeChunks(chunks).end == DecodeChunks(chunks[1..]).end
    ensures queue + Tagged(fd, DecodeChunks(chunks).msgs)
         == (queue + Tagged(fd, Loop(chunks[0]).msgs)) + Tagged(fd, DecodeChunks(chunks[1..]).msgs)
  {
    var ms, b := Loop(chunks[0]).msgs, DecodeChunks(chunks[1..]);
    TaggedAppend(fd, ms, b.msgs);
    SeqAssoc(queue, Tagged(fd, ms), Tagged(fd, b.msgs));
  }

  // ---------- Runs over several descriptors ----------

  /** A ready descriptor served: the chunks `recv` returned and whether it ended in "would block". */
  datatype Served = Served(fd: int, chunks: seq<seq<Byte>>, open: bool)

  function QueueOf(events: seq<Served>): seq<(int, Msg)>
  {
    if events == [] then []
    else Tagged(events[0].fd, DecodeChunks(events[0].chunks).msgs) + QueueOf(events[1..])
  }

  /** All chunks of one descriptor, in order. */
  function ChunksOf(fd: int, events: seq<Served>): seq<seq<Byte>>
  {
    if events == [] then []
    else (if events[0].fd == fd then events[0].chunks else []) + ChunksOf(fd, events[1..])
  }

  /** The part of a queue that came from one descriptor. */
  function Projected(fd: int, queue: seq<(int, Msg)>): seq<Msg>
  {
    if queue == [] then []
    else (if queue[0].0 == fd then [queue[0].1] else []) + Projected(fd, queue[1..])
  }

  predicate AllFinish(events: seq<Served>)
  {
    forall i :: 0 <= i < |events| ==> DecodeChunks(events[i].chunks).end == Finished
  }

  lemma {:induction false} ProjectedAppend(fd: int, a: seq<(int, Msg)>, b: seq<(int, Msg)>)
    ensures Projected(fd, a + b) == Projected(fd, a) + Projected(fd, b)
  {
    if a == [] {
      assert a + b == b;
    } else {
      ProjectedAppend(fd, a[1..], b);
      assert (a + b)[0] == a[0] && (a + b)[1..] == a[1..] + b;
      SeqAssoc(if a[0].0 == fd then [a[0].1] else [], Projected(fd, a[1..]), Projected(fd, b));
    }
  }

  lemma {:induction false} ProjectedTagged(fd: int, g: int, ms: seq<Msg>)
    ensures Projected(fd, Tagged(g, ms)) == if fd == g then ms else []
  {
    if ms != [] {
      ProjectedTagged(fd, g, ms[1..]);
      assert Tagged(g, ms)[0] == (g, ms[0]) && Tagged(g, ms)[1..] == Tagged(g, ms[1..]);
      assert [ms[0]] + ms[1..] == ms;
    }
  }

  lemma {:induction false} DecodeChunksAppend(a: seq<seq<Byte>>, b: seq<seq<Byte>>)
    requires DecodeChunks(a).end == Finished
    ensures DecodeChunks(a + b) == Batch(DecodeChunks(a).msgs + DecodeChunks(b).msgs, DecodeChunks(b).end)
  {
    if a == [] {
      assert a + b == b;
    } else {
      DecodeChunksAppend(a[1..], b);
      assert (a + b)[0] == a[0] && (a + b)[1..] == a[1..] + b;
      SeqAssoc(Loop(a[0]).msgs, DecodeChunks(a[1..]).msgs, DecodeChunks(b).msgs);
    }
  }

  /**
   Descriptors do not disturb each other: over any sequence of events on any descriptors, the queued
   messages of one descriptor are the decoding of its own chunks.
   */
  lemma {:induction false} DescriptorsIndependent(fd: int, events: seq<Served>)
    requires AllFinish(events)
    ensures DecodeChunks(ChunksOf(fd, events)) == Batch(Projected(fd, QueueOf(events)), Finished)
  {
    if events != [] {
      var e := events[0];
      assert forall i :: 0 <= i < |events[1..]| ==> events[1..][i] == events[i + 1];
      DescriptorsIndependent(fd, events[1..]);
      ProjectedAppend(fd, Tagged(e.fd, DecodeChunks(e.chunks).msgs), QueueOf(events[1..]));
      ProjectedTagged(fd, e.fd, DecodeChunks(e.chunks).msgs);
      DecodeChunksAppend(if e.fd == fd then e.chunks else [], ChunksOf(fd, events[1..]));
    }
  }

  lemma QueueProjects(queue: seq<(int, Msg)>, events: seq<Served>)
    requires AllFinish(events)
    ensures forall fd :: Projected(fd, queue + QueueOf(events))
                      == Projected(fd, queue) + DecodeChunks(ChunksOf(fd, events)).msgs
  {
    forall fd
      ensures Projected(fd, queue + QueueOf(events))
           == Projected(fd, queue) + DecodeChunks(ChunksOf(fd, events)).msgs
    {
      DescriptorsIndependent(fd, events);
      ProjectedAppend(fd, queue, QueueOf(events));
    }
  }

  /** The descriptors whose connection ended in some event. */
  function Closed(events: seq<Served>): set<int>
  {
    set i | 0 <= i < |events| && !events[i].open :: events[i].fd
  }

  lemma ClosedNext(events: seq<Served>, i: nat)
    requires i < |events|
    ensures Closed(events[..i + 1]) == Closed(events[..i]) + (if events[i].open then {} else {events[i].fd})
  {
    var upTo, before := events[..i + 1], events[..i];
    assert forall k :: 0 <= k < i ==> upTo[k] == before[k];
    assert upTo[i] == events[i];
    forall fd | fd in Closed(before)
      ensures fd in Closed(upTo)
    {
      var k :| 0 <= k < i && !before[k].open && before[k].fd == fd;
      assert !upTo[k].open;
    }
    assert !events[i].open ==> upTo[i].fd in Closed(upTo);
  }

  lemma RemoveNext(clients: map<int, nat>, closed: set<int>, fd: int)
    ensures (clients - closed) - {fd} == clients - (closed + {fd})
    ensures clients - (closed + {}) == clients - closed
  {
    assert closed + {} == closed;
  }

  /** Only connected descriptors are served; one that was not left open is gone afterwards. */
  predicate InPlay(fds: set<int>, events: seq<Served>)
    decreases |events|
  {
    events == [] ||
    (&& events[0].fd in fds
     && (forall i :: 0 <= i < |events[0].chunks| ==> |events[0].chunks[i]| < VECTOR_LIMIT)
     && InPlay(if events[0].open then fds else fds - {events[0].fd}, events[1..]))
  }

  /** A run begun with the clients `before` and the queue `queue`, when `i` events have been served. */
  predicate ServedUpTo(before: map<int, nat>, queue: seq<(int, Msg)>, events: seq<Served>, i: nat,
                       clients: map<int, nat>, msgs: seq<(int, Msg)>)
  {
    && i <= |events| && InPlay(clients.Keys, events[i..])
    && clients == before - Closed(events[..i]) && Closed(events[..i]) <= before.Keys
    && (AllFinish(events) <==> AllFinish(events[i..]))
    && msgs + QueueOf(events[i..]) == queue + QueueOf(events)
  }

  lemma ServedNone(clients: map<int, nat>, queue: seq<(int, Msg)>, events: seq<Served>)
    requires InPlay(clients.Keys, events)
    ensures ServedUpTo(clients, queue, events, 0, clients, queue)
  {
    assert events[0..] == events && Closed(events[..0]) == {} && clients - {} == clients;
  }

  lemma ServedNext(before: map<int, nat>, queue: seq<(int, Msg)>, events: seq<Served>, i: nat,
                   clients: map<int, nat>, msgs: seq<(int, Msg)>)
    requires ServedUpTo(before, queue, events, i, clients, msgs) && i < |events|
    ensures events[i].fd in clients
    ensures forall k :: 0 <= k < |events[i].chunks| ==> |events[i].chunks[k]| < VECTOR_LIMIT
    ensures var e := events[i];
            if DecodeChunks(e.chunks).end == Finished then
              ServedUpTo(before, queue, events, i + 1, if e.open then clients else clients - {e.fd},
                         msgs + Tagged(e.fd, DecodeChunks(e.chunks).msgs))
            else !AllFinish(events)
  {
    var todo, e := events[i..], events[i];
    assert todo[0] == e && todo[1..] == events[i + 1..];
    assert forall k :: 0 < k < |todo| ==> todo[k] == todo[1..][k - 1];
    assert (clients - {e.fd}).Keys == clients.Keys - {e.fd};
    SeqAssoc(msgs, Tagged(e.fd, DecodeChunks(e.chunks).msgs), QueueOf(todo[1..]));
    ClosedNext(events, i);
    RemoveNext(before, Closed(events[..i]), e.fd);
  }

  lemma ServedAll(before: map<int, nat>, queue: seq<(int, Msg)>, events: seq<Served>,
                  clients: map<int, nat>, msgs: seq<(int, Msg)>)
    requires ServedUpTo(before, queue, events, |events|, clients, msgs)
    ensures AllFinish(events) && msgs == queue + QueueOf(events)
    ensures clients == before - Closed(events) && Closed(events) <= before.Keys
  {
    assert events[..|events|] == events && msgs + [] == msgs;
  }

  // ---------- Dispatch ----------

  type Task = nat

  /** The calls for a queue: messages without a task or whose client is gone by now are skipped. */
  function TaskCalls(tasks: map<Int32, Task>, clients: map<int, nat>, queue: seq<(int, Msg)>): seq<(Task, nat, Msg)>
  {
    if queue == [] then []
    else
      var (fd, m) := queue[0];
      (if m.mtype in tasks && fd in clients then [(tasks[m.mtype], clients[fd], m)] else [])
      + TaskCalls(tasks, clients, queue[1..])
  }

  /** The calls that name one client. */
  function CallsOf(id: nat, calls: seq<(Task, nat, Msg)>): seq<(Task, Msg)>
  {
    if calls == [] then []
    else (if calls[0].1 == id then [(calls[0].0, calls[0].2)] else []) + CallsOf(id, calls[1..])
  }

  /** The tasks for one client's messages, in order. */
  function TasksOn(tasks: map<Int32, Task>, ms: seq<Msg>): seq<(Task, Msg)>
  {
    if ms == [] then []
    else (if ms[0].mtype in tasks then [(tasks[ms[0].mtype], ms[0])] else []) + TasksOn(tasks, ms[1..])
  }

  /** The last `defineAction` for a type decides, and it touches no other type. */
  lemma LastTaskRuns(tasks: map<Int32, Task>, t: Int32, h: Task, m: Msg)
    ensures TasksOn(map[], [m]) == []
    ensures TasksOn(tasks[t := h], [m]) == if m.mtype == t then [(h, m)] else TasksOn(tasks, [m])
  {
    assert [m][1..] == [];
  }

  lemma {:induction false} TasksOnAppend(tasks: map<Int32, Task>, a: seq<Msg>, b: seq<Msg>)
    ensures TasksOn(tasks, a + b) == TasksOn(tasks, a) + TasksOn(tasks, b)
  {
    if a == [] {
      assert a + b == b;
    } else {
      TasksOnAppend(tasks, a[1..], b);
      assert (a + b)[0] == a[0] && (a + b)[1..] == a[1..] + b;
      SeqAssoc(if a[0].mtype in tasks then [(tasks[a[0].mtype], a[0])] else [],
               TasksOn(tasks, a[1..]), TasksOn(tasks, b));
    }
  }

  lemma CallsOfOne(id: nat, c: (Task, nat, Msg))
    ensures CallsOf(id, [c]) == if c.1 == id then [(c.0, c.2)] else []
  {
    assert [c][1..] == [];
  }

  lemma {:induction false} CallsOfAppend(id: nat, a: seq<(Task, nat, Msg)>, b: seq<(Task, nat, Msg)>)
    ensures CallsOf(id, a + b) == CallsOf(id, a) + CallsOf(id, b)
  {
    if a == [] {
      assert a + b == b;
    } else {
      CallsOfAppend(id, a[1..], b);
      assert (a + b)[0] == a[0] && (a + b)[1..] == a[1..] + b;
      SeqAssoc(if a[0].1 == id then [(a[0].0, a[0].2)] else [], CallsOf(id, a[1..]), CallsOf(id, b));
    }
  }

  predicate DistinctIds(clients: map<int, nat>)
  {
    forall fd, fd' :: fd in clients && fd' in clients && clients[fd] == clients[fd'] ==> fd == fd'
  }

  /** A client's calls are the tasks of the messages from its own descriptor. */
  lemma {:induction false} CallsProject(tasks: map<Int32, Task>, clients: map<int, nat>,
                                        queue: seq<(int, Msg)>, fd: int)
    requires DistinctIds(clients) && fd in clients
    ensures CallsOf(clients[fd], TaskCalls(tasks, clients, queue)) == TasksOn(tasks, Projected(fd, queue))
  {
    if queue != [] {
      CallsProject(tasks, clients, queue[1..], fd);
      var (g, m) := queue[0];
      var later := TaskCalls(tasks, clients, queue[1..]);
      if m.mtype in tasks && g in clients {
        CallsOfAppend(clients[fd], [(tasks[m.mtype], clients[g], m)], later);
        CallsOfOne(clients[fd], (tasks[m.mtype], clients[g], m));
      } else {
        assert [] + later == later;
      }
      if g == fd {
        assert ([m] + Projected(fd, queue[1..]))[1..] == Projected(fd, queue[1..]);
      } else {
        assert [] + Projected(fd, queue[1..]) == Projected(fd, queue[1..]);
      }
    }
  }

  lemma {:induction false} NoCallsFor(tasks: map<Int32, Task>, clients: map<int, nat>,
                                      queue: seq<(int, Msg)>, id: nat)
    requires forall fd :: fd in clients ==> clients[fd] != id
    ensures CallsOf(id, TaskCalls(tasks, clients, queue)) == []
  {
    if queue != [] {
      NoCallsFor(tasks, clients, queue[1..], id);
      var (g, m) := queue[0];
      var later := TaskCalls(tasks, clients, queue[1..]);
      if m.mtype in tasks && g in clients {
        CallsOfAppend(id, [(tasks[m.mtype], clients[g], m)], later);
        CallsOfOne(id, (tasks[m.mtype], clients[g], m));
      } else {
        assert [] + later == later;
      }
    }
  }

  /** The calls for a client are the tasks of all its messages, or nothing if its connection ended. */
  predicate ServedOrForgotten(tasks: map<Int32, Task>, id: nat, fd: int, events: seq<Served>,
                              calls: seq<(Task, nat, Msg)>)
  {
    CallsOf(id, calls)
    == if exists i :: 0 <= i < |events| && !events[i].open && events[i].fd == fd then []
       else TasksOn(tasks, DecodeChunks(ChunksOf(fd, events)).msgs)
  }

  /**
   What one `update` runs for a client it began with: the tasks of everything the client's chunks decode
   to, if its connection did not end meanwhile; otherwise nothing, however much had been queued for it.
   */
  lemma ClientServedOrForgotten(tasks: map<Int32, Task>, before: map<int, nat>, clients: map<int, nat>,
                                queue: seq<(int, Msg)>, events: seq<Served>, fd: int)
    requires AllFinish(events) && DistinctIds(before) && fd in before
    requires clients == before - Closed(events) && queue == QueueOf(events)
    ensures ServedOrForgotten(tasks, before[fd], fd, events, TaskCalls(tasks, clients, queue))
  {
    if i :| 0 <= i < |events| && !events[i].open && events[i].fd == fd {
      assert events[i].fd in Closed(events);
      assert forall g :: g in clients ==> clients[g] == before[g] && g != fd;
      NoCallsFor(tasks, clients, queue, before[fd]);
    } else {
      assert fd !in Closed(events);
      CallsProject(tasks, clients, queue, fd);
      DescriptorsIndependent(fd, events);
    }
  }

  lemma EachServedOrForgotten(tasks: map<Int32, Task>, before: map<int, nat>, clients: map<int, nat>,
                              queue: seq<(int, Msg)>, events: seq<Served>, calls: seq<(Task, nat, Msg)>)
    requires AllFinish(events) && DistinctIds(before)
    requires clients == before - Closed(events) && queue == [] + QueueOf(events)
    requires calls == TaskCalls(tasks, clients, queue)
    ensures forall fd :: fd in before ==> ServedOrForgotten(tasks, before[fd], fd, events, calls)
  {
    assert [] + QueueOf(events) == QueueOf(events);
    forall fd | fd in before
      ensures ServedOrForgotten(tasks, before[fd], fd, events, calls)
    {
      ClientServedOrForgotten(tasks, before, clients, queue, events, fd);
    }
  }

  /** One client sends a whole frame and closes before the server looks: its task is never run. */
  lemma MessageThenCloseIsForgotten(m: Msg, fd: int, id: nat, h: Task)
    requires Fits(m) && |Serialize(m)| < VECTOR_LIMIT
    ensures var events := [Served(fd, [Serialize(m)], false)];
            && DecodeChunks(events[0].chunks) == Batch([m], Finished)
            && TaskCalls(map[m.mtype := h], map[fd := id] - Closed(events), QueueOf(events)) == []
  {
    var events := [Served(fd, [Serialize(m)], false)];
    assert [m][1..] == [] && SerializeAll([m]) == Serialize(m) + [] == Serialize(m);
    DecodeSerialized([m]);
    assert [Serialize(m)][1..] == [] && [m] + [] == [m];
    assert events[0].fd in Closed(events);
    QueueOfOneFrame(m, fd);
    assert [(fd, m)][1..] == [];
  }

  lemma CallsByDescriptor(tasks: map<Int32, Task>, clients: map<int, nat>, queue: seq<(int, Msg)>,
                          events: seq<Served>, calls: seq<(Task, nat, Msg)>)
    requires AllFinish(events) && DistinctIds(clients) && queue == [] + QueueOf(events)
    requires calls == TaskCalls(tasks, clients, queue)
    ensures forall fd :: fd in clients ==>
              CallsOf(clients[fd], calls) == TasksOn(tasks, DecodeChunks(ChunksOf(fd, events)).msgs)
    ensures forall id: nat :: (forall fd :: fd in clients ==> clients[fd] != id) ==> CallsOf(id, calls) == []
  {
    assert [] + QueueOf(events) == QueueOf(events);
    forall fd | fd in clients
      ensures CallsOf(clients[fd], calls) == TasksOn(tasks, DecodeChunks(ChunksOf(fd, events)).msgs)
    {
      CallsProject(tasks, clients, queue, fd);
      DescriptorsIndependent(fd, events);
    }
    forall id: nat | forall fd :: fd in clients ==> clients[fd] != id
      ensures CallsOf(id, calls) == []
    {
      NoCallsFor(tasks, clients, queue, id);
    }
  }

  lemma NextTask(tasks: map<Int32, Task>, clients: map<int, nat>, queue: seq<(int, Msg)>, i: nat,
                 calls: seq<(Task, nat, Msg)>)
    requires i < |queue|
    ensures var (fd, m) := queue[i];
            var call := if m.mtype in tasks && fd in clients then [(tasks[m.mtype], clients[fd], m)] else [];
            (calls + call) + TaskCalls(tasks, clients, queue[i + 1..]) == calls + TaskCalls(tasks, clients, queue[i..])
  {
    var (fd, m) := queue[i];
    var call := if m.mtype in tasks && fd in clients then [(tasks[m.mtype], clients[fd], m)] else [];
    assert queue[i..][0] == queue[i] && queue[i..][1..] == queue[i + 1..];
    SeqAssoc(calls, call, TaskCalls(tasks, clients, queue[i + 1..]));
  }

  // ---------- Descriptors that are used again ----------

  /** What the serving loop meets: a ready client, or a new connection. */
  datatype Turn = Serve(e: Served) | Accept(fd: int)

  function ClientsAfter(clients: map<int, nat>, next: nat, turns: seq<Turn>): map<int, nat>
    decreases |turns|
  {
    if turns == [] then clients
    else match turns[0]
      case Serve(e) => ClientsAfter(if e.open then clients else clients - {e.fd}, next, turns[1..])
      case Accept(fd) =>
        if |clients| >= NB_CONNECTION then ClientsAfter(clients, next, turns[1..])
        else ClientsAfter(clients[fd := next], next + 1, turns[1..])
  }

  /** Only connected descriptors are served, `accept` gives unused ones, and the ids do not run out. */
  predicate TurnsInPlay(socket: int, clients: map<int, nat>, next: nat, turns: seq<Turn>)
    decreases |turns|
  {
    turns == [] ||
    match turns[0]
    case Serve(e) =>
      && e.fd in clients && (forall i :: 0 <= i < |e.chunks| ==> |e.chunks[i]| < VECTOR_LIMIT)
      && TurnsInPlay(socket, if e.open then clients else clients - {e.fd}, next, turns[1..])
    case Accept(fd) =>
      && fd > 2 && fd !in clients && fd != socket && next < INT_MAX
      && if |clients| >= NB_CONNECTION then TurnsInPlay(socket, clients, next, turns[1..])
         else TurnsInPlay(socket, clients[fd := next], next + 1, turns[1..])
  }

  function ServesOf(turns: seq<Turn>): seq<Served>
  {
    if turns == [] then []
    else (if turns[0].Serve? then [turns[0].e] else []) + ServesOf(turns[1..])
  }

  predicate IdsBelow(clients: map<int, nat>, next: nat)
  {
    forall fd :: fd in clients ==> clients[fd] < next
  }

  predicate NeverCloses(fd: int, turns: seq<Turn>)
  {
    forall i :: 0 <= i < |turns| && turns[i].Serve? && turns[i].e.fd == fd ==> turns[i].e.open
  }

  lemma {:induction false} GoneForGood(clients: map<int, nat>, next: nat, turns: seq<Turn>, fd: int, id: nat)
    requires id < next && (fd in clients ==> clients[fd] != id)
    ensures fd in ClientsAfter(clients, next, turns) ==> ClientsAfter(clients, next, turns)[fd] != id
    decreases |turns|
  {
    if turns != [] {
      match turns[0]
      case Serve(e) => GoneForGood(if e.open then clients else clients - {e.fd}, next, turns[1..], fd, id);
      case Accept(g) =>
        if |clients| >= NB_CONNECTION {
          GoneForGood(clients, next, turns[1..], fd, id);
        } else {
          GoneForGood(clients[g := next], next + 1, turns[1..], fd, id);
        }
    }
  }

  /**
   A descriptor still stands for the client it stood for if and only if its connection never ended: one
   that is closed and handed out again stands for another client, however soon.
   */
  lemma {:induction false} SameClientExactly(socket: int, clients: map<int, nat>, next: nat, turns: seq<Turn>, fd: int)
    requires TurnsInPlay(socket, clients, next, turns) && IdsBelow(clients, next) && fd in clients
    ensures var end := ClientsAfter(clients, next, turns);
            fd in end && end[fd] == clients[fd] <==> NeverCloses(fd, turns)
    decreases |turns|
  {
    if turns != [] {
      NeverClosesCons(fd, turns);
      match turns[0]
      case Serve(e) =>
        if e.fd == fd && !e.open {
          GoneForGood(clients - {fd}, next, turns[1..], fd, clients[fd]);
        } else {
          SameClientExactly(socket, if e.open then clients else clients - {e.fd}, next, turns[1..], fd);
        }
      case Accept(g) =>
        if |clients| >= NB_CONNECTION {
          SameClientExactly(socket, clients, next, turns[1..], fd);
        } else {
          SameClientExactly(socket, clients[g := next], next + 1, turns[1..], fd);
        }
    }
  }

  lemma SameClients(socket: int, clients: map<int, nat>, next: nat, turns: seq<Turn>, end: map<int, nat>)
    requires TurnsInPlay(socket, clients, next, turns) && IdsBelow(clients, next)
    requires end == ClientsAfter(clients, next, turns)
    ensures forall fd :: fd in clients ==> (fd in end && end[fd] == clients[fd] <==> NeverCloses(fd, turns))
  {
    forall fd | fd in clients
      ensures fd in end && end[fd] == clients[fd] <==> NeverCloses(fd, turns)
    {
      SameClientExactly(socket, clients, next, turns, fd);
    }
  }

  lemma NeverClosesCons(fd: int, turns: seq<Turn>)
    requires turns != []
    ensures NeverCloses(fd, turns)
            <==> (turns[0].Serve? && turns[0].e.fd == fd ==> turns[0].e.open) && NeverCloses(fd, turns[1..])
  {
    assert forall i :: 0 < i < |turns| ==> turns[i] == turns[1..][i - 1];
  }

  /**
   A client sends a frame and closes, and the next connection gets its descriptor: the task for the
   frame runs under the id of the newcomer.
   */
  lemma NewcomerInheritsMessage(m: Msg, fd: int, id: nat, h: Task)
    requires Fits(m) && |Serialize(m)| < VECTOR_LIMIT && id + 1 < INT_MAX && fd > 2
    ensures var turns := [Serve(Served(fd, [Serialize(m)], false)), Accept(fd)];
            var end := ClientsAfter(map[fd := id], id + 1, turns);
            && TurnsInPlay(-1, map[fd := id], id + 1, turns) && end == map[fd := id + 1]
            && TaskCalls(map[m.mtype := h], end, QueueOf(ServesOf(turns))) == [(h, id + 1, m)]
  {
    var e := Served(fd, [Serialize(m)], false);
    var turns, last := [Serve(e), Accept(fd)], [Accept(fd)];
    assert turns[1..] == last && last[1..] == [];
    var none := map[fd := id] - {fd};
    assert none == map[] && none[fd := id + 1] == map[fd := id + 1];
    assert TurnsInPlay(-1, none, id + 1, last);
    assert ClientsAfter(none, id + 1, last) == map[fd := id + 1];
    assert ServesOf(last) == [] && ServesOf(turns) == [e] + ServesOf(last);
    assert [e] + [] == [e];
    QueueOfOneFrame(m, fd);
    assert [(fd, m)][1..] == [] && [(h, id + 1, m)] + [] == [(h, id + 1, m)];
  }

  /** What turns lead to: whether they may happen, whether all end, the clients and the queue. */
  datatype Outlook = Outlook(inPlay: bool, finish: bool, clients: map<int, nat>, queue: seq<(int, Msg)>)

  function OutlookOf(socket: int, clients: map<int, nat>, next: nat, msgs: seq<(int, Msg)>, turns: seq<Turn>): Outlook
  {
    Outlook(TurnsInPlay(socket, clients, next, turns), AllFinish(ServesOf(turns)),
            ClientsAfter(clients, next, turns), msgs + QueueOf(ServesOf(turns)))
  }

  lemma ServesOfServe(e: Served, turns: seq<Turn>)
    ensures ServesOf([Serve(e)] + turns) == [e] + ServesOf(turns)
    ensures QueueOf(ServesOf([Serve(e)] + turns))
         == Tagged(e.fd, DecodeChunks(e.chunks).msgs) + QueueOf(ServesOf(turns))
    ensures AllFinish(ServesOf([Serve(e)] + turns))
            <==> DecodeChunks(e.chunks).end == Finished && AllFinish(ServesOf(turns))
  {
    assert ([Serve(e)] + turns)[1..] == turns;
    var rest := ServesOf(turns);
    var all := [e] + rest;
    assert all[1..] == rest && forall i :: 0 < i < |all| ==> all[i] == rest[i - 1];
  }

  lemma ServesOfAccept(fd: int, turns: seq<Turn>)
    ensures ServesOf([Accept(fd)] + turns) == ServesOf(turns)
  {
    assert ([Accept(fd)] + turns)[1..] == turns && [] + ServesOf(turns) == ServesOf(turns);
  }

  lemma OutlookAtEnd(socket: int, clients: map<int, nat>, next: nat, msgs: seq<(int, Msg)>)
    ensures OutlookOf(socket, clients, next, msgs, []) == Outlook(true, true, clients, msgs)
  {
    assert msgs + [] == msgs;
  }

  lemma OutlookServes(socket: int, clients: map<int, nat>, next: nat, msgs: seq<(int, Msg)>,
                      turns: seq<Turn>, i: nat)
    requires i < |turns| && turns[i].Serve? && OutlookOf(socket, clients, next, msgs, turns[i..]).inPlay
    ensures var e, o := turns[i].e, OutlookOf(socket, clients, next, msgs, turns[i..]);
            && e.fd in clients && (forall k :: 0 <= k < |e.chunks| ==> |e.chunks[k]| < VECTOR_LIMIT)
            && if DecodeChunks(e.chunks).end == Finished then
                 OutlookOf(socket, if e.open then clients else clients - {e.fd}, next,
                           msgs + Tagged(e.fd, DecodeChunks(e.chunks).msgs), turns[i + 1..]) == o
               else !o.finish
  {
    var e, todo, rest := turns[i].e, turns[i..], turns[i + 1..];
    assert todo == [Serve(e)] + rest && todo[1..] == rest;
    ServesOfServe(e, rest);
    SeqAssoc(msgs, Tagged(e.fd, DecodeChunks(e.chunks).msgs), QueueOf(ServesOf(rest)));
  }

  lemma OutlookAccepts(socket: int, clients: map<int, nat>, next: nat, msgs: seq<(int, Msg)>,
                       turns: seq<Turn>, i: nat)
    requires i < |turns| && turns[i].Accept? && OutlookOf(socket, clients, next, msgs, turns[i..]).inPlay
    ensures var fd, o := turns[i].fd, OutlookOf(socket, clients, next, msgs, turns[i..]);
            && fd > 2 && fd !in clients && fd != socket && next < INT_MAX
            && o == if |clients| >= NB_CONNECTION then OutlookOf(socket, clients, next, msgs, turns[i + 1..])
                    else OutlookOf(socket, clients[fd := next], next + 1, msgs, turns[i + 1..])
  {
    var fd, todo, rest := turns[i].fd, turns[i..], turns[i + 1..];
    assert todo == [Accept(fd)] + rest && todo[1..] == rest;
    ServesOfAccept(fd, rest);
  }

  lemma QueueOfOneFrame(m: Msg, fd: int)
    requires Fits(m) && |Serialize(m)| < VECTOR_LIMIT
    ensures QueueOf([Served(fd, [Serialize(m)], false)]) == [(fd, m)]
  {
    var events := [Served(fd, [Serialize(m)], false)];
    assert [m][1..] == [] && SerializeAll([m]) == Serialize(m) + [] == Serialize(m);
    DecodeSerialized([m]);
    assert [Serialize(m)][1..] == [] && events[1..] == [];
    assert DecodeChunks([Serialize(m)]).msgs == [m] + [] == [m];
    assert Tagged(fd, [m]) == [(fd, m)] && [(fd, m)] + [] == [(fd, m)];
  }

  // ---------- Tables ----------

  /** The two tables are mutually inverse, ids come from the issue list, the limit is respected. */
  ghost predicate Coherent(clients: map<int, nat>, toFd: map<nat, int>, issued: seq<int>)
  {
    && |clients| <= NB_CONNECTION
    && (forall fd :: fd in clients ==> fd > 2 && clients[fd] in toFd && toFd[clients[fd]] == fd)
    && (forall id :: id in toFd ==>
          id < |issued| && issued[id] == toFd[id] && toFd[id] in clients && clients[toFd[id]] == id)
  }

  lemma IdsDistinct(clients: map<int, nat>, toFd: map<nat, int>, issued: seq<int>)
    requires Coherent(clients, toFd, issued)
    ensures DistinctIds(clients)
  {
  }

  lemma CoherentAdd(clients: map<int, nat>, toFd: map<nat, int>, issued: seq<int>, fd: int)
    requires Coherent(clients, toFd, issued) && |clients| < NB_CONNECTION
    requires fd > 2 && fd !in clients
    ensures Coherent(clients[fd := |issued|], toFd[|issued| := fd], issued + [fd])
  {
  }

  lemma CoherentRemove(clients: map<int, nat>, toFd: map<nat, int>, issued: seq<int>, fd: int)
    requires Coherent(clients, toFd, issued) && fd in clients
    ensures Coherent(clients - {fd}, toFd - {clients[fd]}, issued)
  {
    assert clients == (clients - {fd})[fd := clients[fd]];
  }

  /** Between calls no partial bytes are kept, and only for known clients. */
  ghost predicate NothingPartial(partialMsgs: map<int, seq<Byte>>, clients: map<int, nat>)
  {
    forall fd :: fd in partialMsgs ==> fd in clients && partialMsgs[fd] == []
  }

  /**
   What `update` looks at: the listening socket and the clients, all within the scanned range up to
   `maxFd`. A server without a listening socket has no clients.
   */
  ghost predicate Watches(socket: int, maxFd: int, active: set<int>, clients: map<int, nat>)
  {
    && (socket >= 0 ==> socket !in clients && active == {socket} + clients.Keys)
    && (socket >= 0 ==> forall fd :: fd in active ==> fd <= maxFd)
    && (socket < 0 ==> clients == map[])
  }

  lemma WatchesOnlySocket(sock: int, clients: map<int, nat>)
    requires sock >= 0 && sock !in clients
    ensures Watches(sock, sock, {sock}, clients) <==> clients == map[]
  {
    if Watches(sock, sock, {sock}, clients) {
      assert clients.Keys == ({sock} + clients.Keys) - {sock} == {};
    }
    if clients == map[] {
      assert {sock} + clients.Keys == {sock};
    }
  }

  lemma WatchesAdd(socket: int, maxFd: int, active: set<int>, clients: map<int, nat>, fd: int, id: nat)
    requires Watches(socket, maxFd, active, clients) && socket >= 0 && fd != socket
    ensures Watches(socket, if maxFd < fd then fd else maxFd, active + {fd}, clients[fd := id])
  {
    assert clients[fd := id].Keys == clients.Keys + {fd};
  }

  lemma WatchesRemove(socket: int, maxFd: int, active: set<int>, clients: map<int, nat>, fd: int)
    requires Watches(socket, maxFd, active, clients) && fd in clients
    ensures Watches(socket, maxFd, active - {fd}, clients - {fd})
  {
    assert (clients - {fd}).Keys == clients.Keys - {fd};
  }

  lemma ClosedIsGone(before: map<int, nat>, events: seq<Served>,
                     socket: int, maxFd: int, active: set<int>, clients: map<int, nat>,
                     partialMsgs: map<int, seq<Byte>>)
    requires clients == before - Closed(events) && Closed(events) <= before.Keys
    requires Watches(socket, maxFd, active, clients) && NothingPartial(partialMsgs, clients)
    requires if socket >= 0 then socket !in before else before == map[]
    ensures forall i :: 0 <= i < |events| && !events[i].open ==>
              events[i].fd !in clients && events[i].fd !in active && events[i].fd !in partialMsgs
  {
    forall i | 0 <= i < |events| && !events[i].open
      ensures events[i].fd !in clients && events[i].fd !in active && events[i].fd !in partialMsgs
    {
      assert events[i].fd in Closed(events);
    }
  }

  lemma PartialAdd(partialMsgs: map<int, seq<Byte>>, clients: map<int, nat>, fd: int, id: nat)
    requires NothingPartial(partialMsgs, clients)
    ensures NothingPartial(partialMsgs, clients[fd := id])
  {
  }

  lemma ClearUnknown(clients: map<int, nat>, partialMsgs: map<int, seq<Byte>>, fd: int)
    requires NothingPartial(partialMsgs, clients) && fd !in clients
    ensures clients - {fd} == clients && partialMsgs - {fd} == partialMsgs
  {
  }

  /**
   `Live` keeps the client and `Gone` makes `update` clear it; the decode loop may also leave its
   buffer or never end.
   */
  datatype Reception = Live | Gone | LeftBuffer | NeverReturns

  /** `Overflow` is the increment of `_next_id` past the largest `int`. */
  datatype Admission = Admitted | Refused | Overflow

  class Server {
    var socket: int
    var maxFd: int
    var nextId: nat
    var clients: map<int, nat>
    var clientsToFd: map<nat, int>
    var active: set<int>
    var partialMsgs: map<int, seq<Byte>>
    var msgs: seq<(int, Msg)>
    var tasks: map<Int32, Task>

    /** Descriptor given to each id ever issued; an id is an index into this list. */
    ghost var issued: seq<int>

    ghost predicate Valid()
      reads this
    {
      && |issued| == nextId <= INT_MAX
      && Coherent(clients, clientsToFd, issued)
      && NothingPartial(partialMsgs, clients)
      && Watches(socket, maxFd, active, clients)
    }

    /** The watched set is not initialised before `start`; it holds whatever `garbage` says. */
    constructor (garbage: set<int>)
      ensures Valid() && socket == -1 && maxFd == -1 && nextId == 0 && msgs == [] && active == garbage
      ensures clients == map[] && tasks == map[]
    {
      socket, maxFd, nextId, clients, clientsToFd := -1, -1, 0, map[], map[];
      active, partialMsgs, msgs, issued, tasks := garbage, map[], [], [], map[];
    }

    /**
     `start`, given the result of `socket` and whether `bind` and `listen` worked. Starting again
     without `stop` forgets to watch the clients it still holds, or its listening socket.
     */
    method Start(sock: int, ok: bool) returns (started: bool)
      requires Valid() && (sock >= 0 ==> sock > 2 && sock !in clients)
      modifies this
      ensures issued == old(issued) && nextId == old(nextId) && started == (sock >= 0 && ok)
      ensures sock < 0 ==>
                && socket == sock && clients == old(clients) && clientsToFd == old(clientsToFd)
                && active == old(active) && (Valid() <==> old(clients) == map[])
      ensures sock >= 0 && !ok ==> Valid() && clients == map[] && socket == -1
      ensures started ==>
                && socket == maxFd == sock && active == {sock}
                && clients == old(clients) && clientsToFd == old(clientsToFd)
                && (Valid() <==> old(clients) == map[])
    {
      if sock < 0 {
        socket := sock;
        return false;
      }
      if !ok {
        socket := sock;
        Stop();
        return false;
      }
      Listen(sock);
      started := true;
    }

    /** The lines of `start` that set the watched range, once the socket is bound. */
    method Listen(sock: int)
      requires Valid() && sock > 2 && sock !in clients
      modifies this`socket, this`maxFd, this`active
      ensures socket == maxFd == sock && active == {sock}
      ensures Valid() <==> clients == map[]
    {
      socket, maxFd, active := sock, sock, {sock};
      WatchesOnlySocket(sock, clients);
    }

    /** `_acceptNewConnection`, given the result of `accept`. */
    method AcceptNewConnection(connfd: int) returns (r: Admission)
      requires Valid() && socket >= 0
      requires connfd >= 0 ==> connfd > 2 && connfd !in clients && connfd != socket
      modifies this`maxFd, this`active, this`clients, this`clientsToFd, this`issued, this`nextId
      ensures r != Overflow ==> Valid()
      ensures r == Refused <==> connfd < 0 || |old(clients)| >= NB_CONNECTION
      ensures r == Overflow <==> connfd >= 0 && |old(clients)| < NB_CONNECTION && old(nextId) == INT_MAX
      ensures r == Admitted ==>
                && clients == old(clients)[connfd := old(nextId)]
                && clientsToFd == old(clientsToFd)[old(nextId) := connfd]
                && issued == old(issued) + [connfd] && nextId == old(nextId) + 1
                && active == old(active) + {connfd} && maxFd == (if old(maxFd) < connfd then connfd else old(maxFd))
      ensures r == Refused ==>
                && clients == old(clients) && clientsToFd == old(clientsToFd) && issued == old(issued)
                && nextId == old(nextId) && active == old(active) && maxFd == old(maxFd)
    {
      if connfd < 0 {
        return Refused;
      }
      if |clients| >= NB_CONNECTION {
        return Refused;
      }
      Register(connfd);
      if nextId == INT_MAX {
        return Overflow;
      }
      nextId := nextId + 1;
      r := Admitted;
    }

    /** The lines of `_acceptNewConnection` that enter the descriptor everywhere. */
    method Register(connfd: int)
      requires Valid() && socket >= 0 && |clients| < NB_CONNECTION
      requires connfd > 2 && connfd !in clients && connfd != socket
      modifies this`maxFd, this`active, this`clients, this`clientsToFd, this`issued
      ensures clients == old(clients)[connfd := nextId] && clientsToFd == old(clientsToFd)[nextId := connfd]
      ensures issued == old(issued) + [connfd] && active == old(active) + {connfd}
      ensures maxFd == if old(maxFd) < connfd then connfd else old(maxFd)
      ensures Coherent(clients, clientsToFd, issued)
      ensures NothingPartial(partialMsgs, clients) && Watches(socket, maxFd, active, clients)
    {
      CoherentAdd(clients, clientsToFd, issued, connfd);
      WatchesAdd(socket, maxFd, active, clients, connfd, nextId);
      PartialAdd(partialMsgs, clients, connfd, nextId);
      Watch(connfd);
      Enter(connfd);
    }

    method Watch(connfd: int)
      modifies this`maxFd, this`active
      ensures active == old(active) + {connfd}
      ensures maxFd == if old(maxFd) < connfd then connfd else old(maxFd)
    {
      if maxFd < connfd {
        maxFd := connfd;
      }
      active := active + {connfd};
    }

    method Enter(connfd: int)
      modifies this`clients, this`clientsToFd, this`issued
      ensures clients == old(clients)[connfd := nextId] && clientsToFd == old(clientsToFd)[nextId := connfd]
      ensures issued == old(issued) + [connfd]
    {
      clients := clients[connfd := nextId];
      clientsToFd := clientsToFd[nextId := connfd];
      issued := issued + [connfd];
    }

    /** `_clearClient`. */
    method ClearClient(fd: int)
      requires Valid()
      modifies this`active, this`clients, this`clientsToFd, this`partialMsgs
      ensures Valid()
      ensures clients == old(clients) - {fd}
      ensures fd in old(clients) ==> clientsToFd == old(clientsToFd) - {old(clients)[fd]}
      ensures fd !in old(clients) ==> clientsToFd == old(clientsToFd)
      ensures active == if fd in old(clients) then old(active) - {fd} else old(active)
      ensures fd !in partialMsgs && partialMsgs == old(partialMsgs) - {fd}
    {
      if fd !in clients {
        ClearUnknown(clients, partialMsgs, fd);
        return;
      }
      var clientId := clients[fd];
      CoherentRemove(clients, clientsToFd, issued, fd);
      WatchesRemove(socket, maxFd, active, clients, fd);
      if fd > 2 {
        active := active - {fd};
      }
      clients := clients - {fd};
      clientsToFd := clientsToFd - {clientId};
      partialMsgs := partialMsgs - {fd};
    }

    /** `stop`. */
    method Stop()
      requires |issued| == nextId <= INT_MAX
      modifies this
      ensures Valid() && socket < 0 && (old(socket) >= 0 ==> socket == -1)
      ensures issued == old(issued) && nextId == old(nextId)
      ensures clients == map[] && clientsToFd == map[] && partialMsgs == map[] && msgs == [] && active == {}
    {
      if socket >= 0 {
        socket := -1;
      }
      clients, clientsToFd, partialMsgs, msgs, active := map[], map[], map[], [], {};
    }

    /** One turn of the `recv` loop: append, decode, clear the partial buffer. */
    method DecodeChunk(fd: int, chunk: seq<Byte>) returns (out: seq<Msg>, end: Ending)
      requires Valid() && fd in clients && |chunk| < VECTOR_LIMIT
      modifies this`partialMsgs
      ensures Valid()
      ensures match Loop(chunk)
              case Stops(ms, _) => end == Finished && out == ms
              case Faults(ms) => end == Faulted && out == ms
              case Diverges => end == Endless
    {
      if fd !in partialMsgs {
        partialMsgs := partialMsgs[fd := []];
      }
      var m := new Message(0);
      var loaded := m.AppendBytes(partialMsgs[fd], |partialMsgs[fd]|);
      var appended := m.AppendBytes(chunk, |chunk|);
      assert chunk[..|chunk|] == chunk;
      assert m.buffer.Unread() == chunk;
      out, end := DrainFrames(m);
      partialMsgs := partialMsgs[fd := []];
    }

    /** `_receiveClientMsg` for a ready descriptor; `open` says whether `recv` ended in "would block". */
    method ReceiveClientMsg(fd: int, chunks: seq<seq<Byte>>, open: bool) returns (r: Reception)
      requires Valid() && fd in clients
      requires forall i :: 0 <= i < |chunks| ==> |chunks[i]| < VECTOR_LIMIT
      modifies this`msgs, this`partialMsgs
      ensures Valid() && (r == Live || r == Gone <==> DecodeChunks(chunks).end == Finished)
      ensures r == LeftBuffer <==> DecodeChunks(chunks).end == Faulted
      ensures DecodeChunks(chunks).end == Finished ==> (r == Live <==> open)
      ensures r != NeverReturns ==> msgs == old(msgs) + Tagged(fd, DecodeChunks(chunks).msgs)
    {
      var i := 0;
      assert chunks[0..] == chunks;
      while i < |chunks|
        invariant 0 <= i <= |chunks| && Valid()
        invariant msgs + Tagged(fd, DecodeChunks(chunks[i..]).msgs)
               == old(msgs) + Tagged(fd, DecodeChunks(chunks).msgs)
        invariant DecodeChunks(chunks[i..]).end == DecodeChunks(chunks).end
      {
        assert chunks[i..][0] == chunks[i] && chunks[i..][1..] == chunks[i + 1..];
        if Loop(chunks[i]).Stops? {
          QueueCons(msgs, fd, chunks[i..]);
        }
        var out, end := DecodeChunk(fd, chunks[i]);
        if end == Endless {
          return NeverReturns;
        }
        msgs := msgs + Tagged(fd, out);
        if end == Faulted {
          return LeftBuffer;
        }
        i := i + 1;
      }
      assert chunks[i..] == [] && msgs + Tagged(fd, []) == msgs;
      r := if open then Live else Gone;
    }

    /** The part of `update` that serves one ready client descriptor. */
    method ServeReady(fd: int, chunks: seq<seq<Byte>>, open: bool) returns (r: Reception)
      requires Valid() && fd in clients
      requires forall i :: 0 <= i < |chunks| ==> |chunks[i]| < VECTOR_LIMIT
      modifies this`active, this`clients, this`clientsToFd, this`partialMsgs, this`msgs
      ensures Valid()
      ensures r == Live || r == Gone <==> DecodeChunks(chunks).end == Finished
      ensures r == LeftBuffer <==> DecodeChunks(chunks).end == Faulted
      ensures r != NeverReturns ==> msgs == old(msgs) + Tagged(fd, DecodeChunks(chunks).msgs)
      ensures DecodeChunks(chunks).end == Finished ==> (fd in clients <==> open) && (r == Live <==> open)
      ensures clients == if fd in clients then old(clients) else old(clients) - {fd}
      ensures clientsToFd == if fd in clients then old(clientsToFd) else old(clientsToFd) - {old(clients)[fd]}
      ensures fd !in clients ==> fd !in partialMsgs && fd !in active
    {
      r := ReceiveClientMsg(fd, chunks, open);
      if r == Gone {
        ClearClient(fd);
      }
    }

    /** Any run of the serving loop: the queue grows by each event's messages, in order. */
    method ServeAll(events: seq<Served>) returns (finished: bool)
      requires Valid() && InPlay(clients.Keys, events)
      modifies this`active, this`clients, this`clientsToFd, this`partialMsgs, this`msgs
      ensures Valid() && finished == AllFinish(events)
      ensures finished ==> msgs == old(msgs) + QueueOf(events)
      ensures finished ==>
                && clients == old(clients) - (set i | 0 <= i < |events| && !events[i].open :: events[i].fd)
                && forall i :: 0 <= i < |events| && !events[i].open ==>
                     events[i].fd !in clients && events[i].fd !in active && events[i].fd !in partialMsgs
    {
      ServedNone(clients, msgs, events);
      var i := 0;
      while i < |events|
        invariant 0 <= i <= |events| && Valid()
        invariant ServedUpTo(old(clients), old(msgs), events, i, clients, msgs)
      {
        var served := ServeNext(events[i], old(clients), old(msgs), events, i);
        if !served {
          return false;
        }
        i := i + 1;
      }
      finished := true;
      ServedAll(old(clients), old(msgs), events, clients, msgs);
      ClosedIsGone(old(clients), events, socket, maxFd, active, clients, partialMsgs);
    }

    /** The `i`th event of a run. */
    method ServeNext(e: Served, ghost before: map<int, nat>, ghost queue: seq<(int, Msg)>,
                     ghost events: seq<Served>, ghost i: nat) returns (served: bool)
      requires Valid() && i < |events| && e == events[i]
      requires ServedUpTo(before, queue, events, i, clients, msgs)
      modifies this`active, this`clients, this`clientsToFd, this`partialMsgs, this`msgs
      ensures Valid()
      ensures if served then ServedUpTo(before, queue, events, i + 1, clients, msgs) else !AllFinish(events)
    {
      ServedNext(before, queue, events, i, clients, msgs);
      var r := ServeReady(e.fd, e.chunks, e.open);
      served := r == Live || r == Gone;
    }

    /** Over any such run, what one descriptor queued is the decoding of its own chunks. */
    method ServeEachAlone(events: seq<Served>) returns (finished: bool)
      requires Valid() && InPlay(clients.Keys, events)
      modifies this
      ensures Valid() && finished == AllFinish(events)
      ensures finished ==>
                forall fd :: Projected(fd, msgs)
                          == Projected(fd, old(msgs)) + DecodeChunks(ChunksOf(fd, events)).msgs
    {
      finished := ServeAll(events);
      if finished {
        QueueProjects(old(msgs), events);
      }
    }

    /** `defineAction`: one task for each type, the last one given. */
    method DefineAction(t: Int32, task: Task)
      requires Valid()
      modifies this`tasks
      ensures Valid() && tasks == old(tasks)[t := task]
    {
      tasks := tasks[t := task];
    }

    method RunTask(e: (int, Msg), calls: seq<(Task, nat, Msg)>) returns (calls': seq<(Task, nat, Msg)>)
      ensures calls' == calls + (if e.1.mtype in tasks && e.0 in clients then
                                   [(tasks[e.1.mtype], clients[e.0], e.1)] else [])
    {
      calls' := calls;
      if e.1.mtype in tasks {
        if e.0 in clients {
          calls' := calls + [(tasks[e.1.mtype], clients[e.0], e.1)];
        }
      }
    }

    /** The dispatch loop at the end of `update`. */
    method RunTasks() returns (calls: seq<(Task, nat, Msg)>)
      requires Valid()
      modifies this`msgs
      ensures Valid() && calls == TaskCalls(tasks, clients, old(msgs)) && msgs == []
    {
      calls := [];
      var i := 0;
      assert msgs[0..] == msgs;
      while i < |msgs|
        invariant 0 <= i <= |msgs| && msgs == old(msgs)
        invariant calls + TaskCalls(tasks, clients, msgs[i..]) == TaskCalls(tasks, clients, msgs)
      {
        NextTask(tasks, clients, msgs, i, calls);
        calls := RunTask(msgs[i], calls);
        i := i + 1;
      }
      assert msgs[i..] == [] && calls + [] == calls;
      msgs := [];
    }

    /**
     A whole `update` in which no connection is accepted: each client it began with has the tasks of
     all its messages run, in order and under its id, unless its connection ended on the way.
     */
    method UpdateWithoutAccepting(events: seq<Served>) returns (finished: bool, calls: seq<(Task, nat, Msg)>)
      requires Valid() && InPlay(clients.Keys, events) && msgs == []
      modifies this`active, this`clients, this`clientsToFd, this`partialMsgs, this`msgs
      ensures Valid() && finished == AllFinish(events)
      ensures finished ==> msgs == []
      ensures finished ==>
                forall fd :: fd in old(clients) ==>
                  ServedOrForgotten(tasks, old(clients)[fd], fd, events, calls)
    {
      calls := [];
      IdsDistinct(clients, clientsToFd, issued);
      finished := ServeAll(events);
      if finished {
        ghost var queue := msgs;
        calls := RunTasks();
        EachServedOrForgotten(tasks, old(clients), clients, queue, events, calls);
      }
    }

    /** The serving loop with new connections in between. */
    method ServeTurns(turns: seq<Turn>) returns (finished: bool)
      requires Valid() && socket >= 0 && TurnsInPlay(socket, clients, nextId, turns)
      modifies this`active, this`clients, this`clientsToFd, this`partialMsgs, this`msgs,
               this`maxFd, this`nextId, this`issued
      ensures Valid() && finished == AllFinish(ServesOf(turns))
      ensures finished ==> clients == ClientsAfter(old(clients), old(nextId), turns)
      ensures finished ==> msgs == old(msgs) + QueueOf(ServesOf(turns))
    {
      finished := ServeLoop(turns, OutlookOf(socket, clients, nextId, msgs, turns));
    }

    method ServeLoop(turns: seq<Turn>, ghost o: Outlook) returns (finished: bool)
      requires Valid() && socket >= 0 && o.inPlay && OutlookOf(socket, clients, nextId, msgs, turns) == o
      modifies this`active, this`clients, this`clientsToFd, this`partialMsgs, this`msgs,
               this`maxFd, this`nextId, this`issued
      ensures Valid() && finished == o.finish
      ensures finished ==> clients == o.clients && msgs == o.queue
    {
      var i := 0;
      assert turns[0..] == turns;
      while i < |turns|
        invariant 0 <= i <= |turns| && Valid()
        invariant OutlookOf(socket, clients, nextId, msgs, turns[i..]) == o
      {
        var served := TakeTurn(turns, i, o);
        if !served {
          return false;
        }
        i := i + 1;
      }
      finished := true;
      assert turns[i..] == [];
      OutlookAtEnd(socket, clients, nextId, msgs);
    }

    method TakeTurn(turns: seq<Turn>, i: nat, ghost o: Outlook) returns (served: bool)
      requires Valid() && socket >= 0 && i < |turns| && o.inPlay
      requires OutlookOf(socket, clients, nextId, msgs, turns[i..]) == o
      modifies this`active, this`clients, this`clientsToFd, this`partialMsgs, this`msgs,
               this`maxFd, this`nextId, this`issued
      ensures Valid()
      ensures if served then OutlookOf(socket, clients, nextId, msgs, turns[i + 1..]) == o else !o.finish
    {
      match turns[i]
      case Serve(e) => served := TakeServe(turns, i, o);
      case Accept(fd) =>
        TakeAccept(turns, i, o);
        served := true;
    }

    method TakeServe(turns: seq<Turn>, i: nat, ghost o: Outlook) returns (served: bool)
      requires Valid() && i < |turns| && turns[i].Serve? && o.inPlay
      requires OutlookOf(socket, clients, nextId, msgs, turns[i..]) == o
      modifies this`active, this`clients, this`clientsToFd, this`partialMsgs, this`msgs
      ensures Valid()
      ensures if served then OutlookOf(socket, clients, nextId, msgs, turns[i + 1..]) == o else !o.finish
    {
      OutlookServes(socket, clients, nextId, msgs, turns, i);
      var r := ServeReady(turns[i].e.fd, turns[i].e.chunks, turns[i].e.open);
      served := r == Live || r == Gone;
    }

    method TakeAccept(turns: seq<Turn>, i: nat, ghost o: Outlook)
      requires Valid() && socket >= 0 && i < |turns| && turns[i].Accept? && o.inPlay
      requires OutlookOf(socket, clients, nextId, msgs, turns[i..]) == o
      modifies this`maxFd, this`active, this`clients, this`clientsToFd, this`issued, this`nextId
      ensures Valid() && OutlookOf(socket, clients, nextId, msgs, turns[i + 1..]) == o
    {
      OutlookAccepts(socket, clients, nextId, msgs, turns, i);
      var r := AcceptNewConnection(turns[i].fd);
    }

    /**
     A whole `update`, new connections included: each client at its end has the tasks run of everything
     that came over its descriptor, whoever sent it, and nobody else has any. A client from before is
     still there if and only if its connection never ended.
     */
    method Update(turns: seq<Turn>) returns (finished: bool, calls: seq<(Task, nat, Msg)>)
      requires Valid() && socket >= 0 && TurnsInPlay(socket, clients, nextId, turns) && msgs == []
      modifies this`active, this`clients, this`clientsToFd, this`partialMsgs, this`msgs,
               this`maxFd, this`nextId, this`issued
      ensures Valid() && finished == AllFinish(ServesOf(turns))
      ensures finished ==> msgs == [] && clients == ClientsAfter(old(clients), old(nextId), turns)
      ensures finished ==>
                && (forall fd :: fd in clients ==>
                      CallsOf(clients[fd], calls) == TasksOn(tasks, DecodeChunks(ChunksOf(fd, ServesOf(turns))).msgs))
                && (forall id: nat :: (forall fd :: fd in clients ==> clients[fd] != id) ==> CallsOf(id, calls) == [])
      ensures finished ==>
                forall fd :: fd in old(clients) ==>
                  (fd in clients && clients[fd] == old(clients)[fd] <==> NeverCloses(fd, turns))
    {
      calls := [];
      finished := ServeTurns(turns);
      if finished {
        ghost var queue := msgs;
        calls := RunTasks();
        IdsDistinct(clients, clientsToFd, issued);
        CallsByDescriptor(tasks, clients, queue, ServesOf(turns), calls);
        SameClients(socket, old(clients), old(nextId), turns, clients);
      }
    }
  }
}
