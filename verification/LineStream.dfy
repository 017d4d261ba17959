/**
 The output side of `ThreadSafeIOStream`: insertions are collected until a newline shows up, then
 printed line by line, each line behind the prefix.
 */
module LineStreams {
  import opened Sequences

  const NL: char := '\n'

  /** What goes to the console: a prefix, or text that was inserted. */
  datatype Piece = Mark(prefix: string) | Text(text: string)

  /**
   An insertion; a stream manipulator, given by the text it prints (a newline for `std::endl`, nothing
   for `std::flush`); a change of prefix.
   */
  datatype Event = Insert(text: string) | Manipulate(text: string) | SetPrefix(prefix: string)

  /** Position of the first newline at or after `from`, or the length of `s` if there is none. */
  function Find(s: string, from: nat): (i: nat)
    requires from <= |s|
    ensures from <= i <= |s| && (i < |s| ==> s[i] == NL)
    ensures forall k :: from <= k < i ==> s[k] != NL
    decreases |s| - from
  {
    if from == |s| || s[from] == NL then from else Find(s, from + 1)
  }

  /** The printing loop on a line buffer: whole lines with a prefix, then the remainder without. */
  function Lines(prefix: string, s: string): seq<Piece>
    decreases |s|
  {
    var i := Find(s, 0);
    if i < |s| then [Mark(prefix), Text(s[..i + 1])] + Lines(prefix, s[i + 1..])
    else if s == "" then [] else [Text(s)]
  }

  /** One event: what it prints and the line buffer it leaves. */
  function Step(prefix: string, buffer: string, e: Event): (seq<Piece>, string)
  {
    match e
    case Insert(text) =>
      var line := buffer + text;
      if NL !in line then ([], line) else (Lines(prefix, line), "")
    case Manipulate(text) =>
      if buffer != "" then ([Mark(prefix), Text(buffer + text)], "")
      else if text != "" then ([Text(text)], "")
      else ([], "")
    case SetPrefix(_) => ([], buffer)
  }

  function NextPrefix(prefix: string, e: Event): string
  {
    if e.SetPrefix? then e.prefix else prefix
  }

  function Run(prefix: string, buffer: string, events: seq<Event>): (seq<Piece>, string)
    decreases |events|
  {
    if events == [] then ([], buffer)
    else
      var (out, b) := Step(prefix, buffer, events[0]);
      var (later, b') := Run(NextPrefix(prefix, events[0]), b, events[1..]);
      (out + later, b')
  }

  // ---------- Nothing is lost ----------

  /** The console text without the prefixes. */
  function Plain(ps: seq<Piece>): string
  {
    if ps == [] then "" else PlainOf(ps[0]) + Plain(ps[1..])
  }

  function PlainOf(p: Piece): string
  {
    if p.Text? then p.text else ""
  }

  function Marks(ps: seq<Piece>): nat
  {
    if ps == [] then 0 else (if ps[0].Mark? then 1 else 0) + Marks(ps[1..])
  }

  function Newlines(s: string): nat
  {
    if s == "" then 0 else (if s[0] == NL then 1 else 0) + Newlines(s[1..])
  }

  function Inserted(events: seq<Event>): string
  {
    if events == [] then "" else TextOf(events[0]) + Inserted(events[1..])
  }

  function TextOf(e: Event): string
  {
    match e
    case Insert(t) => t
    case Manipulate(t) => t
    case SetPrefix(_) => ""
  }

  lemma {:induction false} PlainAppend(a: seq<Piece>, b: seq<Piece>)
    ensures Plain(a + b) == Plain(a) + Plain(b)
  {
    if a == [] {
      assert a + b == b;
    } else {
      PlainAppend(a[1..], b);
      assert (a + b)[0] == a[0] && (a + b)[1..] == a[1..] + b;
      SeqAssoc(PlainOf(a[0]), Plain(a[1..]), Plain(b));
    }
  }

  lemma {:induction false} MarksAppend(a: seq<Piece>, b: seq<Piece>)
    ensures Marks(a + b) == Marks(a) + Marks(b)
  {
    if a == [] {
      assert a + b == b;
    } else {
      MarksAppend(a[1..], b);
      assert (a + b)[0] == a[0] && (a + b)[1..] == a[1..] + b;
    }
  }

  lemma PlainSingle(t: string)
    ensures Plain([Text(t)]) == t && Marks([Text(t)]) == 0
  {
    assert [Text(t)][1..] == [];
    assert t + "" == t;
  }

  lemma {:induction false} NewlinesAppend(a: string, b: string)
    ensures Newlines(a + b) == Newlines(a) + Newlines(b)
  {
    if a == "" {
      assert a + b == b;
    } else {
      NewlinesAppend(a[1..], b);
      assert (a + b)[1..] == a[1..] + b;
    }
  }

  lemma {:induction false} NoNewlines(s: string)
    requires NL !in s
    ensures Newlines(s) == 0
  {
    if s != "" {
      assert s[0] in s && forall c :: c in s[1..] ==> c in s;
      NoNewlines(s[1..]);
    }
  }

  lemma PlainPair(p: string, t: string)
    ensures Plain([Mark(p), Text(t)]) == t && Marks([Mark(p), Text(t)]) == 1
  {
    var ps := [Mark(p), Text(t)];
    assert ps[1..] == [Text(t)];
    PlainSingle(t);
    assert Plain(ps) == "" + Plain(ps[1..]);
  }

  lemma OneNewline(s: string, i: nat)
    requires i < |s| && i == Find(s, 0)
    ensures Newlines(s) == 1 + Newlines(s[i + 1..])
  {
    assert s == s[..i] + ([NL] + s[i + 1..]);
    NewlinesAppend(s[..i], [NL] + s[i + 1..]);
    NoNewlines(s[..i]);
    assert ([NL] + s[i + 1..])[1..] == s[i + 1..];
  }

  /** The loop prints exactly the line buffer. */
  lemma {:induction false} LinesConserve(prefix: string, s: string)
    ensures Plain(Lines(prefix, s)) == s
    decreases |s|
  {
    var i := Find(s, 0);
    if i < |s| {
      LinesConserve(prefix, s[i + 1..]);
      PlainCons(prefix, s[..i + 1], Lines(prefix, s[i + 1..]));
      Cut(s, i + 1);
    } else if s != "" {
      PlainSingle(s);
    }
  }

  lemma PlainCons(prefix: string, t: string, ps: seq<Piece>)
    ensures Plain([Mark(prefix), Text(t)] + ps) == t + Plain(ps)
  {
    PlainAppend([Mark(prefix), Text(t)], ps);
    PlainPair(prefix, t);
  }

  lemma Cut(s: string, i: nat)
    requires i <= |s|
    ensures s[..i] + s[i..] == s
  {
  }

  /** It prints one prefix for every newline in it. */
  lemma {:induction false} LinesMark(prefix: string, s: string)
    ensures Marks(Lines(prefix, s)) == Newlines(s)
    decreases |s|
  {
    var i := Find(s, 0);
    if i < |s| {
      LinesMark(prefix, s[i + 1..]);
      MarksAppend([Mark(prefix), Text(s[..i + 1])], Lines(prefix, s[i + 1..]));
      PlainPair(prefix, s[..i + 1]);
      OneNewline(s, i);
    } else if s != "" {
      assert NL !in s;
      NoNewlines(s);
      PlainSingle(s);
    }
  }

  lemma StepConserves(prefix: string, buffer: string, e: Event)
    requires NL !in buffer
    ensures var (out, b) := Step(prefix, buffer, e);
            && NL !in b
            && Plain(out) + b == buffer + TextOf(e)
            && (e.Insert? ==> Marks(out) == Newlines(e.text))
  {
    match e
    case Insert(text) =>
      var line := buffer + text;
      NewlinesAppend(buffer, text);
      NoNewlines(buffer);
      if NL in line {
        LinesConserve(prefix, line);
        LinesMark(prefix, line);
        assert Plain(Lines(prefix, line)) + "" == line;
      } else {
        NoNewlines(line);
      }
    case Manipulate(text) =>
      PlainPair(prefix, buffer + text);
      PlainSingle(text);
    case SetPrefix(_) =>
      assert "" + buffer == buffer + "";
  }

  /**
   Over every sequence of insertions, manipulators and prefix changes: the text printed without
   prefixes, followed by the line buffer, is all the text inserted.
   */
  lemma {:induction false} NothingLost(prefix: string, buffer: string, events: seq<Event>)
    requires NL !in buffer
    ensures var (out, b) := Run(prefix, buffer, events);
            NL !in b && Plain(out) + b == buffer + Inserted(events)
    decreases |events|
  {
    if events == [] {
      assert "" + buffer == buffer + "";
    } else {
      var (out, b) := Step(prefix, buffer, events[0]);
      var next := NextPrefix(prefix, events[0]);
      var (later, b') := Run(next, b, events[1..]);
      StepConserves(prefix, buffer, events[0]);
      NothingLost(next, b, events[1..]);
      PlainAppend(out, later);
      Splice(Plain(out), b, buffer, TextOf(events[0]), Plain(later), b', Inserted(events[1..]));
    }
  }

  lemma Splice(out: string, b: string, buffer: string, t: string, later: string, b': string, ts: string)
    requires out + b == buffer + t && later + b' == b + ts
    ensures (out + later) + b' == buffer + (t + ts)
  {
    SeqAssoc(out, later, b');
    SeqAssoc(out, b, ts);
    SeqAssoc(buffer, t, ts);
  }

  // ---------- When every line has its prefix ----------

  /** The console shows whole lines only, each behind exactly one prefix. */
  predicate WellPrefixed(ps: seq<Piece>)
  {
    ps == [] ||
    (&& |ps| >= 2 && ps[0].Mark? && ps[1].Text? && OneLine(ps[1].text) && WellPrefixed(ps[2..]))
  }

  predicate OneLine(s: string)
  {
    s != "" && s[|s| - 1] == NL && NL !in s[..|s| - 1]
  }

  /**
   An insertion that completes a line ends in a newline; a manipulator completes a line that was
   begun, or prints nothing.
   */
  predicate Clean(buffer: string, e: Event)
  {
    match e
    case Insert(text) => var line := buffer + text; NL !in line || line[|line| - 1] == NL
    case Manipulate(text) => if buffer == "" then text == "" else OneLine(buffer + text)
    case SetPrefix(_) => true
  }

  predicate AllClean(prefix: string, buffer: string, events: seq<Event>)
    decreases |events|
  {
    events == [] ||
    (&& Clean(buffer, events[0])
     && AllClean(NextPrefix(prefix, events[0]), Step(prefix, buffer, events[0]).1, events[1..]))
  }

  lemma ConsPair(p: Piece, q: Piece, ps: seq<Piece>)
    ensures WellPrefixed([p, q] + ps) <==> p.Mark? && q.Text? && OneLine(q.text) && WellPrefixed(ps)
  {
    assert ([p, q] + ps)[2..] == ps;
  }

  /** What follows a line buffer's output is judged on its own if and only if the buffer ended a line. */
  lemma {:induction false} LinesThen(prefix: string, s: string, ps: seq<Piece>)
    ensures WellPrefixed(Lines(prefix, s) + ps)
            <==> (s == "" || s[|s| - 1] == NL) && WellPrefixed(ps)
    decreases |s|
  {
    var i := Find(s, 0);
    if i < |s| {
      LinesThen(prefix, s[i + 1..], ps);
      LineThen(prefix, s[..i + 1], Lines(prefix, s[i + 1..]), ps);
      assert s[..i + 1][..i] == s[..i];
    } else if s == "" {
      assert [] + ps == ps;
    } else {
      assert s[|s| - 1] != NL && ([Text(s)] + ps)[0] == Text(s);
    }
  }

  lemma LineThen(prefix: string, t: string, a: seq<Piece>, b: seq<Piece>)
    requires OneLine(t)
    ensures WellPrefixed(([Mark(prefix), Text(t)] + a) + b) <==> WellPrefixed(a + b)
  {
    ConsPair(Mark(prefix), Text(t), a + b);
    SeqAssoc([Mark(prefix), Text(t)], a, b);
  }

  lemma StepThen(prefix: string, buffer: string, e: Event, ps: seq<Piece>)
    requires NL !in buffer
    ensures WellPrefixed(Step(prefix, buffer, e).0 + ps) <==> Clean(buffer, e) && WellPrefixed(ps)
  {
    match e
    case Insert(text) =>
      var line := buffer + text;
      if NL in line {
        LinesThen(prefix, line, ps);
      } else {
        assert [] + ps == ps;
      }
    case Manipulate(text) =>
      if buffer != "" {
        ConsPair(Mark(prefix), Text(buffer + text), ps);
      } else if text != "" {
        assert ([Text(text)] + ps)[0] == Text(text);
      } else {
        assert [] + ps == ps;
      }
    case SetPrefix(_) =>
      assert [] + ps == ps;
  }

  /** On a begun line `std::endl` is clean and `std::flush` is not; on an empty buffer the reverse. */
  lemma EndlAndFlush(buffer: string)
    requires NL !in buffer
    ensures Clean(buffer, Manipulate([NL])) <==> buffer != ""
    ensures Clean(buffer, Manipulate("")) <==> buffer == ""
  {
    assert (buffer + [NL])[..|buffer|] == buffer;
    assert buffer + "" == buffer;
  }

  /**
   The class promises a prefix on each output line. Over every sequence of events the console shows
   that exactly when every event is clean: an incomplete tail printed after a newline, a flush in the
   middle of a line, or an `endl` on an empty buffer breaks it.
   */
  lemma {:induction false} PrefixedExactlyWhenClean(prefix: string, buffer: string, events: seq<Event>)
    requires NL !in buffer
    ensures WellPrefixed(Run(prefix, buffer, events).0) <==> AllClean(prefix, buffer, events)
    decreases |events|
  {
    if events != [] {
      var (out, b) := Step(prefix, buffer, events[0]);
      StepConserves(prefix, buffer, events[0]);
      var next := NextPrefix(prefix, events[0]);
      StepThen(prefix, buffer, events[0], Run(next, b, events[1..]).0);
      PrefixedExactlyWhenClean(next, b, events[1..]);
    }
  }

  lemma FindInLine(t: string, u: string)
    requires OneLine(t)
    ensures Find(t + u, 0) == |t| - 1
  {
    var s := t + u;
    assert s[|t| - 1] == NL;
    forall k | 0 <= k < |t| - 1
      ensures s[k] != NL
    {
      assert t[..|t| - 1][k] == s[k];
    }
  }

  lemma LinesOfLine(prefix: string, t: string, u: string)
    requires OneLine(t)
    ensures Lines(prefix, t + u) == [Mark(prefix), Text(t)] + Lines(prefix, u)
  {
    FindInLine(t, u);
    assert (t + u)[..|t|] == t && (t + u)[|t|..] == u;
  }

  lemma LinesOfTail(prefix: string, u: string)
    requires NL !in u
    ensures Lines(prefix, u) == if u == "" then [] else [Text(u)]
  {
  }

  lemma LineInserted(prefix: string, t: string)
    requires OneLine(t)
    ensures Step(prefix, "", Insert(t)) == ([Mark(prefix), Text(t)], "")
  {
    LinesOfLine(prefix, t, "");
    LinesOfTail(prefix, "");
    assert t + "" == t && "" + t == t && t[|t| - 1] == NL;
    assert [Mark(prefix), Text(t)] + [] == [Mark(prefix), Text(t)];
  }

  lemma LineAndTailInserted(prefix: string, t: string, u: string)
    requires OneLine(t) && u != "" && NL !in u
    ensures Step(prefix, "", Insert(t + u)) == ([Mark(prefix), Text(t), Text(u)], "")
  {
    LinesOfLine(prefix, t, u);
    LinesOfTail(prefix, u);
    assert [Mark(prefix), Text(t)] + [Text(u)] == [Mark(prefix), Text(t), Text(u)];
    assert (t + u)[|t| - 1] == NL && "" + (t + u) == t + u;
  }

  /**
   A line and a tail inserted together, then the rest of the tail's line: the tail reaches the console
   bare, and the prefix meant for its line lands in the middle of it.
   */
  lemma TailLosesItsPrefix(prefix: string, line: string, tail: string, rest: string)
    requires OneLine(line) && tail != "" && NL !in tail && OneLine(rest)
    ensures Run(prefix, "", [Insert(line + tail), Insert(rest)]).0
         == [Mark(prefix), Text(line), Text(tail), Mark(prefix), Text(rest)]
  {
    var events := [Insert(line + tail), Insert(rest)];
    var last := events[1..];
    assert last == [Insert(rest)] && last[1..] == [];
    LineAndTailInserted(prefix, line, tail);
    LineInserted(prefix, rest);
    var first, second := [Mark(prefix), Text(line), Text(tail)], [Mark(prefix), Text(rest)];
    assert Run(prefix, "", last) == (second + [], "");
    assert Run(prefix, "", events).0 == first + second;
  }

  // ---------- Which prefix ----------

  /** The text of the last change of prefix among `events`; without one, the prefix at the start. */
  function LastPrefix(start: string, events: seq<Event>): string
    decreases |events|
  {
    if events == [] then start
    else
      var e := events[|events| - 1];
      if e.SetPrefix? then e.prefix else LastPrefix(start, events[..|events| - 1])
  }

  predicate AllMarks(ps: seq<Piece>, prefix: string)
  {
    forall i :: 0 <= i < |ps| && ps[i].Mark? ==> ps[i].prefix == prefix
  }

  lemma {:induction false} LinesMarks(prefix: string, s: string)
    ensures AllMarks(Lines(prefix, s), prefix)
    decreases |s|
  {
    var i := Find(s, 0);
    if i < |s| {
      LinesMarks(prefix, s[i + 1..]);
    }
  }

  lemma StepMarks(prefix: string, buffer: string, e: Event)
    ensures AllMarks(Step(prefix, buffer, e).0, prefix)
  {
    if e.Insert? {
      LinesMarks(prefix, buffer + e.text);
    }
  }

  lemma {:induction false} LastPrefixCons(start: string, e: Event, es: seq<Event>)
    ensures LastPrefix(start, [e] + es) == LastPrefix(NextPrefix(start, e), es)
    decreases |es|
  {
    var all := [e] + es;
    if es == [] {
      assert all[..0] == [];
    } else {
      LastPrefixCons(start, e, es[..|es| - 1]);
      assert all[|all| - 1] == es[|es| - 1] && all[..|all| - 1] == [e] + es[..|es| - 1];
    }
  }

  lemma LastPrefixSnoc(start: string, es: seq<Event>, e: Event)
    ensures LastPrefix(start, es + [e]) == if e.SetPrefix? then e.prefix else LastPrefix(start, es)
  {
    assert (es + [e])[..|es|] == es;
  }

  /** What one more event prints after any others goes behind the prefix that was set last. */
  lemma {:induction false} MarksHoldLastPrefix(prefix: string, buffer: string, events: seq<Event>, e: Event)
    ensures var before, all := Run(prefix, buffer, events).0, Run(prefix, buffer, events + [e]).0;
            before <= all && AllMarks(all[|before|..], LastPrefix(prefix, events))
    decreases |events|
  {
    if events == [] {
      assert ([] + [e])[1..] == [] && [] + [e] == [e];
      var out := Step(prefix, buffer, e).0;
      StepMarks(prefix, buffer, e);
      assert Run(prefix, buffer, [e]).0 == out + [] == out;
    } else {
      var first, rest := events[0], events[1..];
      var (out, b) := Step(prefix, buffer, first);
      MarksHoldLastPrefix(NextPrefix(prefix, first), b, rest, e);
      RunUnfolds(prefix, buffer, events, e);
      LastPrefixCons(prefix, first, rest);
      assert [first] + rest == events;
      SplitBehind(out, Run(NextPrefix(prefix, first), b, rest).0, Run(NextPrefix(prefix, first), b, rest + [e]).0);
    }
  }

  lemma RunUnfolds(prefix: string, buffer: string, events: seq<Event>, e: Event)
    requires events != []
    ensures var (out, b) := Step(prefix, buffer, events[0]);
            var next := NextPrefix(prefix, events[0]);
            && Run(prefix, buffer, events).0 == out + Run(next, b, events[1..]).0
            && Run(prefix, buffer, events + [e]).0 == out + Run(next, b, events[1..] + [e]).0
  {
    assert (events + [e])[0] == events[0] && (events + [e])[1..] == events[1..] + [e];
  }

  lemma SplitBehind(out: seq<Piece>, a: seq<Piece>, b: seq<Piece>)
    requires a <= b
    ensures out + a <= out + b && (out + b)[|out + a|..] == b[|a|..]
  {
  }

  /** On a stream whose prefix is never changed, every line printed behind a prefix has that one. */
  lemma {:induction false} OnePrefixThroughout(prefix: string, buffer: string, events: seq<Event>)
    requires forall i :: 0 <= i < |events| ==> !events[i].SetPrefix?
    ensures AllMarks(Run(prefix, buffer, events).0, prefix)
    decreases |events|
  {
    if events != [] {
      StepMarks(prefix, buffer, events[0]);
      OnePrefixThroughout(prefix, Step(prefix, buffer, events[0]).1, events[1..]);
    }
  }

  /** The use in the documentation: a prefix, a text and `std::endl` print one prefixed line. */
  lemma DocumentedUse(p: string, t: string)
    requires t != "" && NL !in t
    ensures Run("", "", [SetPrefix(p), Insert(t), Manipulate([NL])]) == ([Mark(p), Text(t + [NL])], "")
  {
    var events := [SetPrefix(p), Insert(t), Manipulate([NL])];
    var two := events[1..];
    var one := two[1..];
    assert two == [Insert(t), Manipulate([NL])] && one == [Manipulate([NL])] && one[1..] == [];
    assert "" + t == t && Step(p, "", Insert(t)) == ([], t) && Step("", "", SetPrefix(p)) == ([], "");
    var out := [Mark(p), Text(t + [NL])];
    assert out + [] == out && [] + out == out;
    assert Run(p, t, one) == (out, "");
    assert Run(p, "", two) == (out, "");
  }

  // ---------- Several threads, one console ----------

  /** The stream is `thread_local`: each thread collects and prefixes on its own. */
  datatype Stream = Stream(prefix: string, buffer: string)

  datatype Call = Call(thread: nat, event: Event)

  /** A piece on the console, with the thread that printed it and the number of the call it did so in. */
  datatype Printed = Printed(thread: nat, call: nat, piece: Piece)

  /** A thread's stream is constructed empty at its first use. */
  function StreamOf(streams: map<nat, Stream>, id: nat): Stream
  {
    if id in streams then streams[id] else Stream("", "")
  }

  function AfterCall(streams: map<nat, Stream>, c: Call): map<nat, Stream>
  {
    var s := StreamOf(streams, c.thread);
    streams[c.thread := Stream(NextPrefix(s.prefix, c.event), Step(s.prefix, s.buffer, c.event).1)]
  }

  function Stamp(id: nat, k: nat, ps: seq<Piece>): (r: seq<Printed>)
    ensures |r| == |ps|
  {
    seq(|ps|, i requires 0 <= i < |ps| => Printed(id, k, ps[i]))
  }

  function PrintedNow(streams: map<nat, Stream>, c: Call, k: nat): seq<Printed>
  {
    var s := StreamOf(streams, c.thread);
    Stamp(c.thread, k, Step(s.prefix, s.buffer, c.event).0)
  }

  /** The console under any interleaving: a call prints all it prints while it holds the mutex. */
  function Console(streams: map<nat, Stream>, calls: seq<Call>): seq<Printed>
  {
    ConsoleFrom(streams, calls, 0)
  }

  /** The same when `k` calls have been made before. */
  function ConsoleFrom(streams: map<nat, Stream>, calls: seq<Call>, k: nat): seq<Printed>
    decreases |calls|
  {
    if calls == [] then []
    else PrintedNow(streams, calls[0], k) + ConsoleFrom(AfterCall(streams, calls[0]), calls[1..], k + 1)
  }

  function EventsOf(id: nat, calls: seq<Call>): seq<Event>
  {
    if calls == [] then []
    else (if calls[0].thread == id then [calls[0].event] else []) + EventsOf(id, calls[1..])
  }

  function PrintedBy(id: nat, ps: seq<Printed>): seq<Piece>
  {
    if ps == [] then []
    else (if ps[0].thread == id then [ps[0].piece] else []) + PrintedBy(id, ps[1..])
  }

  function Pieces(ps: seq<Printed>): (r: seq<Piece>)
    ensures |r| == |ps|
  {
    seq(|ps|, i requires 0 <= i < |ps| => ps[i].piece)
  }

  /** What thread `id` has last set its prefix to when `k` calls have been made: its own calls tell. */
  function DuePrefix(streams: map<nat, Stream>, calls: seq<Call>, id: nat, k: nat): string
  {
    LastPrefix(StreamOf(streams, id).prefix, EventsOf(id, if k <= |calls| then calls[..k] else calls))
  }

  /** Whole lines only, each behind the prefix that the thread printing the line has set last. */
  predicate WholeLines(streams: map<nat, Stream>, calls: seq<Call>, ps: seq<Printed>)
  {
    ps == [] ||
    (&& |ps| >= 2 && ps[0].thread == ps[1].thread
     && ps[0].piece == Mark(DuePrefix(streams, calls, ps[0].thread, ps[0].call))
     && ps[1].piece.Text? && OneLine(ps[1].piece.text)
     && WholeLines(streams, calls, ps[2..]))
  }

  predicate Collecting(streams: map<nat, Stream>)
  {
    forall id :: id in streams ==> NL !in streams[id].buffer
  }

  lemma {:induction false} PrintedByAppend(id: nat, a: seq<Printed>, b: seq<Printed>)
    ensures PrintedBy(id, a + b) == PrintedBy(id, a) + PrintedBy(id, b)
  {
    if a == [] {
      assert a + b == b;
    } else {
      PrintedByAppend(id, a[1..], b);
      assert (a + b)[0] == a[0] && (a + b)[1..] == a[1..] + b;
      SeqAssoc(if a[0].thread == id then [a[0].piece] else [], PrintedBy(id, a[1..]), PrintedBy(id, b));
    }
  }

  lemma {:induction false} PrintedByStamp(id: nat, other: nat, k: nat, ps: seq<Piece>)
    ensures PrintedBy(id, Stamp(other, k, ps)) == if id == other then ps else []
  {
    if ps != [] {
      PrintedByStamp(id, other, k, ps[1..]);
      assert Stamp(other, k, ps)[1..] == Stamp(other, k, ps[1..]);
      assert [ps[0]] + ps[1..] == ps;
    }
  }

  lemma FirstCallPrints(streams: map<nat, Stream>, calls: seq<Call>, k: nat, id: nat)
    requires calls != []
    ensures var s, later := StreamOf(streams, id), ConsoleFrom(AfterCall(streams, calls[0]), calls[1..], k + 1);
            var out := if calls[0].thread == id then Step(s.prefix, s.buffer, calls[0].event).0 else [];
            PrintedBy(id, ConsoleFrom(streams, calls, k)) == out + PrintedBy(id, later)
  {
    var c, s := calls[0], StreamOf(streams, calls[0].thread);
    PrintedByAppend(id, PrintedNow(streams, c, k), ConsoleFrom(AfterCall(streams, c), calls[1..], k + 1));
    PrintedByStamp(id, c.thread, k, Step(s.prefix, s.buffer, c.event).0);
  }

  lemma {:induction false} IndependentFrom(streams: map<nat, Stream>, calls: seq<Call>, k: nat, id: nat)
    ensures var s := StreamOf(streams, id);
            PrintedBy(id, ConsoleFrom(streams, calls, k)) == Run(s.prefix, s.buffer, EventsOf(id, calls)).0
    decreases |calls|
  {
    if calls != [] {
      var s, after, es := StreamOf(streams, id), AfterCall(streams, calls[0]), EventsOf(id, calls[1..]);
      var later := PrintedBy(id, ConsoleFrom(after, calls[1..], k + 1));
      FirstCallPrints(streams, calls, k, id);
      IndependentFrom(after, calls[1..], k + 1, id);
      if calls[0].thread == id {
        RunFirst(s, calls[0].event, es);
      } else {
        assert [] + es == es && StreamOf(after, id) == s && [] + later == later;
      }
    }
  }

  /** Seen alone, a thread's output is that of its own calls: the others change nothing in it. */
  lemma ThreadsIndependent(streams: map<nat, Stream>, calls: seq<Call>, id: nat)
    ensures var s := StreamOf(streams, id);
            PrintedBy(id, Console(streams, calls)) == Run(s.prefix, s.buffer, EventsOf(id, calls)).0
  {
    IndependentFrom(streams, calls, 0, id);
  }

  lemma RunFirst(s: Stream, e: Event, es: seq<Event>)
    ensures var (out, b) := Step(s.prefix, s.buffer, e);
            && Run(s.prefix, s.buffer, [e] + es).0 == out + Run(NextPrefix(s.prefix, e), b, es).0
            && (AllClean(s.prefix, s.buffer, [e] + es)
                <==> Clean(s.buffer, e) && AllClean(NextPrefix(s.prefix, e), b, es))
  {
    assert ([e] + es)[1..] == es;
  }

  lemma {:induction false} EventsOfSnoc(id: nat, calls: seq<Call>, c: Call)
    ensures EventsOf(id, calls + [c]) == EventsOf(id, calls) + (if c.thread == id then [c.event] else [])
  {
    if calls == [] {
      assert [] + [c] == [c] && [c][1..] == [];
    } else {
      EventsOfSnoc(id, calls[1..], c);
      assert (calls + [c])[0] == calls[0] && (calls + [c])[1..] == calls[1..] + [c];
      SeqAssoc(if calls[0].thread == id then [calls[0].event] else [], EventsOf(id, calls[1..]),
               if c.thread == id then [c.event] else []);
    }
  }

  /** When `k` of the calls have been made, every stream holds the prefix due to its thread. */
  ghost predicate InStep(start: map<nat, Stream>, calls: seq<Call>, k: nat, streams: map<nat, Stream>)
  {
    k <= |calls| && forall id :: StreamOf(streams, id).prefix == DuePrefix(start, calls, id, k)
  }

  lemma DueNext(start: map<nat, Stream>, calls: seq<Call>, id: nat, k: nat)
    requires k < |calls|
    ensures var due := DuePrefix(start, calls, id, k);
            DuePrefix(start, calls, id, k + 1) == if calls[k].thread == id then NextPrefix(due, calls[k].event) else due
  {
    assert calls[..k + 1] == calls[..k] + [calls[k]];
    EventsOfSnoc(id, calls[..k], calls[k]);
    if calls[k].thread == id {
      LastPrefixSnoc(StreamOf(start, id).prefix, EventsOf(id, calls[..k]), calls[k].event);
    } else {
      assert EventsOf(id, calls[..k]) + [] == EventsOf(id, calls[..k]);
    }
  }

  lemma InStepNext(start: map<nat, Stream>, calls: seq<Call>, k: nat, streams: map<nat, Stream>)
    requires InStep(start, calls, k, streams) && k < |calls|
    ensures InStep(start, calls, k + 1, AfterCall(streams, calls[k]))
  {
    forall id
      ensures StreamOf(AfterCall(streams, calls[k]), id).prefix == DuePrefix(start, calls, id, k + 1)
    {
      DueNext(start, calls, id, k);
    }
  }

  lemma InStepAtFirst(start: map<nat, Stream>, calls: seq<Call>)
    ensures InStep(start, calls, 0, start)
  {
    assert calls[..0] == [];
  }

  /** A prefix on the console is the one due to its thread at that call. */
  predicate MarkIsDue(start: map<nat, Stream>, calls: seq<Call>, p: Printed)
  {
    && p.call < |calls| && calls[p.call].thread == p.thread
    && (p.piece.Mark? ==> p.piece.prefix == DuePrefix(start, calls, p.thread, p.call))
  }

  lemma {:induction false} MarksAreDueFrom(start: map<nat, Stream>, calls: seq<Call>, k: nat, streams: map<nat, Stream>)
    requires InStep(start, calls, k, streams)
    ensures forall p :: p in ConsoleFrom(streams, calls[k..], k) ==> MarkIsDue(start, calls, p)
    decreases |calls| - k
  {
    if k < |calls| {
      var s := StreamOf(streams, calls[k].thread);
      assert calls[k..][0] == calls[k] && calls[k..][1..] == calls[k + 1..];
      InStepNext(start, calls, k, streams);
      MarksAreDueFrom(start, calls, k + 1, AfterCall(streams, calls[k]));
      StepMarks(s.prefix, s.buffer, calls[k].event);
      assert forall p :: p in PrintedNow(streams, calls[k], k) ==> MarkIsDue(start, calls, p);
    }
  }

  /**
   Every prefix on the console, clean or not, is the text its thread has set last, computed from that
   thread's calls alone.
   */
  lemma EveryMarkIsDue(streams: map<nat, Stream>, calls: seq<Call>, p: Printed)
    requires p in Console(streams, calls)
    ensures p.call < |calls| && calls[p.call].thread == p.thread
    ensures p.piece.Mark? ==>
              p.piece.prefix == LastPrefix(StreamOf(streams, p.thread).prefix, EventsOf(p.thread, calls[..p.call]))
  {
    InStepAtFirst(streams, calls);
    assert calls[0..] == calls;
    MarksAreDueFrom(streams, calls, 0, streams);
    assert MarkIsDue(streams, calls, p);
  }

  lemma {:induction false} WholeMeansPrefixed(start: map<nat, Stream>, calls: seq<Call>, ps: seq<Printed>)
    requires WholeLines(start, calls, ps)
    ensures WellPrefixed(Pieces(ps))
    decreases |ps|
  {
    if ps != [] {
      WholeMeansPrefixed(start, calls, ps[2..]);
      assert Pieces(ps)[2..] == Pieces(ps[2..]);
    }
  }

  lemma {:induction false} StampThen(start: map<nat, Stream>, calls: seq<Call>, id: nat, k: nat,
                                     out: seq<Piece>, ps: seq<Printed>)
    requires WellPrefixed(out) && AllMarks(out, DuePrefix(start, calls, id, k))
    ensures WholeLines(start, calls, Stamp(id, k, out) + ps) <==> WholeLines(start, calls, ps)
    decreases |out|
  {
    var all := Stamp(id, k, out) + ps;
    if out == [] {
      assert all == ps;
    } else {
      StampThen(start, calls, id, k, out[2..], ps);
      assert all[2..] == Stamp(id, k, out[2..]) + ps;
      assert all[0] == Printed(id, k, out[0]) && all[1] == Printed(id, k, out[1]);
    }
  }

  lemma WholeMeansClean(start: map<nat, Stream>, calls: seq<Call>, s: Stream, c: Call, k: nat, ps: seq<Printed>)
    requires NL !in s.buffer
    requires WholeLines(start, calls, Stamp(c.thread, k, Step(s.prefix, s.buffer, c.event).0) + ps)
    ensures Clean(s.buffer, c.event)
  {
    var out := Step(s.prefix, s.buffer, c.event).0;
    WholeMeansPrefixed(start, calls, Stamp(c.thread, k, out) + ps);
    assert Pieces(Stamp(c.thread, k, out) + ps) == out + Pieces(ps);
    StepThen(s.prefix, s.buffer, c.event, Pieces(ps));
  }

  lemma CallThen(start: map<nat, Stream>, calls: seq<Call>, k: nat, streams: map<nat, Stream>, ps: seq<Printed>)
    requires InStep(start, calls, k, streams) && Collecting(streams) && k < |calls|
    ensures WholeLines(start, calls, PrintedNow(streams, calls[k], k) + ps)
            <==> Clean(StreamOf(streams, calls[k].thread).buffer, calls[k].event) && WholeLines(start, calls, ps)
  {
    var c, s := calls[k], StreamOf(streams, calls[k].thread);
    var out := Step(s.prefix, s.buffer, c.event).0;
    if WholeLines(start, calls, PrintedNow(streams, c, k) + ps) {
      WholeMeansClean(start, calls, s, c, k, ps);
    }
    if Clean(s.buffer, c.event) {
      StepThen(s.prefix, s.buffer, c.event, []);
      StepMarks(s.prefix, s.buffer, c.event);
      assert out + [] == out;
      StampThen(start, calls, c.thread, k, out, ps);
    }
  }

  /** Alone, the thread's calls are clean: each one in the state its own calls before it left. */
  predicate CleanAlone(streams: map<nat, Stream>, calls: seq<Call>, id: nat)
  {
    var s := StreamOf(streams, id);
    AllClean(s.prefix, s.buffer, EventsOf(id, calls))
  }

  lemma CleanAloneStep(streams: map<nat, Stream>, calls: seq<Call>, id: nat)
    requires calls != []
    ensures CleanAlone(streams, calls, id)
            <==> && (calls[0].thread == id ==> Clean(StreamOf(streams, id).buffer, calls[0].event))
                 && CleanAlone(AfterCall(streams, calls[0]), calls[1..], id)
  {
    if calls[0].thread == id {
      RunFirst(StreamOf(streams, id), calls[0].event, EventsOf(id, calls[1..]));
    } else {
      assert [] + EventsOf(id, calls[1..]) == EventsOf(id, calls[1..]);
    }
  }

  lemma CollectingAfter(streams: map<nat, Stream>, c: Call)
    requires Collecting(streams)
    ensures Collecting(AfterCall(streams, c))
  {
    var s := StreamOf(streams, c.thread);
    StepConserves(s.prefix, s.buffer, c.event);
  }

  lemma {:induction false} InterleavingFrom(start: map<nat, Stream>, calls: seq<Call>, k: nat,
                                            streams: map<nat, Stream>)
    requires InStep(start, calls, k, streams) && Collecting(streams)
    ensures WholeLines(start, calls, ConsoleFrom(streams, calls[k..], k))
            <==> forall id :: CleanAlone(streams, calls[k..], id)
    decreases |calls| - k
  {
    if k < |calls| {
      var todo, after := calls[k..], AfterCall(streams, calls[k]);
      assert todo[0] == calls[k] && todo[1..] == calls[k + 1..];
      CollectingAfter(streams, calls[k]);
      InStepNext(start, calls, k, streams);
      InterleavingFrom(start, calls, k + 1, after);
      CallThen(start, calls, k, streams, ConsoleFrom(after, todo[1..], k + 1));
      EachCleanStep(streams, todo);
    }
  }

  lemma EachCleanStep(streams: map<nat, Stream>, calls: seq<Call>)
    requires calls != []
    ensures (forall id :: CleanAlone(streams, calls, id))
            <==> && Clean(StreamOf(streams, calls[0].thread).buffer, calls[0].event)
                 && forall id :: CleanAlone(AfterCall(streams, calls[0]), calls[1..], id)
  {
    forall id
      ensures CleanAlone(streams, calls, id)
              <==> && (calls[0].thread == id ==> Clean(StreamOf(streams, id).buffer, calls[0].event))
                   && CleanAlone(AfterCall(streams, calls[0]), calls[1..], id)
    {
      CleanAloneStep(streams, calls, id);
    }
  }

  /**
   Threads do not garble each other: under any interleaving of any threads' calls the console shows
   whole lines, each behind the prefix its own thread has set last, exactly when every thread's calls
   are clean by themselves.
   */
  lemma InterleavingExactly(streams: map<nat, Stream>, calls: seq<Call>)
    requires Collecting(streams)
    ensures WholeLines(streams, calls, Console(streams, calls)) <==> forall id :: CleanAlone(streams, calls, id)
  {
    InStepAtFirst(streams, calls);
    assert calls[0..] == calls;
    InterleavingFrom(streams, calls, 0, streams);
  }

  /** The schedule is irrelevant: what each thread prints, and whether lines stay whole, is its own. */
  lemma ScheduleIrrelevant(streams: map<nat, Stream>, a: seq<Call>, b: seq<Call>)
    requires Collecting(streams) && forall id :: EventsOf(id, a) == EventsOf(id, b)
    ensures WholeLines(streams, a, Console(streams, a)) <==> WholeLines(streams, b, Console(streams, b))
    ensures forall id :: PrintedBy(id, Console(streams, a)) == PrintedBy(id, Console(streams, b))
  {
    InterleavingExactly(streams, a);
    InterleavingExactly(streams, b);
    assert forall id :: CleanAlone(streams, a, id) == CleanAlone(streams, b, id);
    forall id
      ensures PrintedBy(id, Console(streams, a)) == PrintedBy(id, Console(streams, b))
    {
      ThreadsIndependent(streams, a, id);
      ThreadsIndependent(streams, b, id);
    }
  }

  // ---------- The class ----------

  lemma FoundIffPresent(s: string)
    ensures Find(s, 0) < |s| <==> NL in s
  {
  }

  /** One turn of the loop, seen from the cursor. */
  lemma NextLines(prefix: string, line: string, cursor: nat, pos: nat, left: seq<Piece>) returns (r: seq<Piece>)
    requires cursor <= |line| && pos == Find(line, cursor) && pos < |line|
    requires left == Lines(prefix, line[cursor..])
    ensures r == Lines(prefix, line[pos + 1..])
    ensures left == [Mark(prefix), Text(line[cursor..pos] + [NL])] + r
  {
    var t, u := line[cursor..pos] + [NL], line[pos + 1..];
    assert line[cursor..] == t + u;
    assert t[..|t| - 1] == line[cursor..pos];
    LinesOfLine(prefix, t, u);
    r := Lines(prefix, u);
  }

  /** The end of the loop: what is left has no newline. */
  lemma LoopEnd(out: seq<Piece>, prefix: string, line: string, cursor: nat)
    requires cursor <= |line| && Find(line, cursor) == |line|
    ensures out + Lines(prefix, line[cursor..]) == if cursor == |line| then out else out + [Text(line[cursor..])]
  {
    LinesOfTail(prefix, line[cursor..]);
    assert out + [] == out;
  }

  class ThreadSafeIOStream {
    var buffer: string
    var prefix: string
    /** Everything this stream has sent to the console. */
    var console: seq<Piece>

    constructor ()
      ensures buffer == "" && prefix == "" && console == []
    {
      buffer, prefix, console := "", "", [];
    }

    method SetPrefix(p: string)
      modifies this`prefix
      ensures prefix == p
    {
      prefix := p;
    }

    /** The templated `<<`. */
    method Insert(value: string)
      modifies this`buffer, this`console
      ensures console == old(console) + Step(prefix, old(buffer), Event.Insert(value)).0
      ensures buffer == Step(prefix, old(buffer), Event.Insert(value)).1
    {
      buffer := buffer + value;
      var pos := Find(buffer, 0);
      FoundIffPresent(buffer);
      if pos == |buffer| {
        assert console + [] == console;
        return;
      }
      PrintLines(buffer);
      buffer := "";
    }

    /** The loop over the newlines of the collected text, and the tail behind the last one. */
    method PrintLines(line: string)
      modifies this`console
      ensures console == old(console) + Lines(prefix, line)
    {
      ghost var left := Lines(prefix, line);
      var cursor := 0;
      var pos := Find(line, cursor);
      assert line[cursor..] == line;
      while pos < |line|
        invariant 0 <= cursor <= |line| && pos == Find(line, cursor)
        invariant left == Lines(prefix, line[cursor..])
        invariant console + left == old(console) + Lines(prefix, line)
      {
        left := PrintNext(line, cursor, pos, left);
        cursor := pos + 1;
        pos := Find(line, cursor);
      }
      PrintTail(line, cursor);
    }

    method PrintNext(line: string, cursor: nat, pos: nat, ghost left: seq<Piece>) returns (ghost later: seq<Piece>)
      requires cursor <= |line| && pos == Find(line, cursor) && pos < |line|
      requires left == Lines(prefix, line[cursor..])
      modifies this`console
      ensures later == Lines(prefix, line[pos + 1..]) && console + later == old(console) + left
    {
      later := NextLines(prefix, line, cursor, pos, left);
      SeqAssoc(console, [Mark(prefix), Text(line[cursor..pos] + [NL])], later);
      console := console + [Mark(prefix), Text(line[cursor..pos] + [NL])];
    }

    method PrintTail(line: string, cursor: nat)
      requires cursor <= |line| && Find(line, cursor) == |line|
      modifies this`console
      ensures console == old(console) + Lines(prefix, line[cursor..])
    {
      LoopEnd(console, prefix, line, cursor);
      if cursor < |line| {
        console := console + [Text(line[cursor..])];
      }
    }

    /** `<<` of a manipulator: flush the buffer behind a prefix if there is any, then its own text. */
    method Manipulate(text: string)
      modifies this`buffer, this`console
      ensures console == old(console) + Step(prefix, old(buffer), Event.Manipulate(text)).0
      ensures buffer == Step(prefix, old(buffer), Event.Manipulate(text)).1
      ensures buffer == "" && (old(buffer) != "" ==>
                console == old(console) + [Mark(prefix), Text(old(buffer) + text)])
    {
      if buffer != "" {
        console := console + [Mark(prefix), Text(buffer + text)];
        buffer := "";
      } else if text != "" {
        console := console + [Text(text)];
      } else {
        assert console + [] == console;
      }
    }

    /** Any sequence of calls prints what the specification prints. */
    method Play(events: seq<Event>)
      modifies this
      ensures console == old(console) + Run(old(prefix), old(buffer), events).0
      ensures buffer == Run(old(prefix), old(buffer), events).1
      decreases |events|
    {
      if events == [] {
        assert console + [] == console;
        return;
      }
      match events[0] {
        case Insert(t) => Insert(t);
        case Manipulate(t) => Manipulate(t);
        case SetPrefix(p) =>
          assert console + [] == console;
          SetPrefix(p);
      }
      ghost var next := NextPrefix(old(prefix), events[0]);
      SeqAssoc(old(console), Step(old(prefix), old(buffer), events[0]).0, Run(next, buffer, events[1..]).0);
      Play(events[1..]);
    }
  }
}
