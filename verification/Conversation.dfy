/**
  Conversations: a client that issues commands and a server that answers them. As
  long as nobody closes the connection and the socket works, the context lives, and
  every answer reaches the callback of its command.
 */
module Conversations {
  import opened Bytes
  import opened Resp
  import Streams
  import opened Callbacks
  import opened Async
  import opened AsyncRuns
  import opened Encodings
  import Outputs

  /** The bytes that the events bring. */
  function Fed(events: seq<Event>): ByteString {
    if events == [] then []
    else
      var last := events[|events| - 1];
      Fed(events[..|events| - 1]) + if last.Readable? && last.input.Data? then last.input.chunk else []
  }

  /** The socket is connected, and neither reading nor writing fails. */
  predicate Healthy(e: Event) {
    || e.Issue?
    || (e.Readable? && e.attempt == Established && (e.input.Data? || e.input.ReadAgain?))
    || (e.Writable? && e.attempt == Established && e.output != Outputs.Failed)
  }

  /** The server sends replies, and none before its command. */
  ghost predicate Answers(events: seq<Event>) {
    var s := ParseStream(Fed(events));
    !s.status.Failed? && |s.replies| <= |IssuedBy(events)|
  }

  ghost predicate Served(events: seq<Event>) {
    forall i :: 0 <= i <= |events| ==> Answers(events[..i])
  }

  predicate OnlyCommands(actions: seq<Action>) {
    forall i :: 0 <= i < |actions| ==> actions[i].Command?
  }

  ghost predicate NeverCloses(script: nat -> seq<Action>) {
    forall n :: OnlyCommands(script(n))
  }

  lemma {:induction false} CommandsKeepOpen(p: Pipe, actions: seq<Action>)
    requires OnlyCommands(actions) && !p.Closing()
    ensures var q := DoAll(p, actions); !q.Closing() && |q.queue| == |p.queue| + |actions|
    decreases |actions|
  {
    if actions != [] {
      CommandsKeepOpen(p, actions[..|actions| - 1]);
    }
  }

  /** Every reply that is ready has a callback, and the context stays open. */
  lemma {:induction false} FateLives(p: Pipe, calls: nat, script: nat -> seq<Action>, ready: Stream)
    requires NeverCloses(script) && !p.Closing() && |ready.replies| <= |p.queue| && !ready.status.Failed?
    ensures var end := Fate(p, calls, script, ready, false);
            end.Lives? && !end.pipe.Closing() && |end.pipe.queue| >= |p.queue| - |ready.replies|
    decreases |ready.replies|
  {
    if ready.replies != [] {
      var rest := p.(queue := p.queue[1..]);
      assert OnlyCommands(script(calls));
      CommandsKeepOpen(rest, script(calls));
      match Answer(p, calls, script, ready.replies[0])
      case Stop(_) =>
      case On(next, c) => FateLives(next, c, script, Stream(ready.replies[1..], ready.status));
    }
  }

  /** The state of a conversation after the events. */
  ghost predicate Goes(w: World, events: seq<Event>) {
    && w.World? && !w.pipe.Closing() && !w.wire.err && w.wire.fed == Fed(events)
    && w.got == |ParseStream(Fed(events)).replies|
    && |w.pipe.queue| + w.got >= |IssuedBy(events)|
  }

  lemma ReadLives(w: World, events: seq<Event>, input: ReadResult, script: nat -> seq<Action>)
    requires NeverCloses(script) && Goes(w, events) && (input.Data? || input.ReadAgain?)
    requires Answers(events + [Readable(Established, input)])
    ensures Goes(Read(w, Established, input, script), events + [Readable(Established, input)])
  {
    hide ParseStream, IssuedBy, NeverCloses, Fate;
    var more := events + [Readable(Established, input)];
    var chunk := if input.Data? then input.chunk else [];
    OneMore(events, Readable(Established, input));
    assert Fed(more) == Fed(events) + chunk;
    StreamGrows(Fed(events), chunk);
    assert IssuedBy(more) == IssuedBy(events) + [];
    var wire := Receive(w.wire, Established, input);
    assert wire.fed == Fed(more);
    FateLives(w.pipe, w.calls, script, Ready(wire.fed, w.got));
  }

  lemma OneMore(events: seq<Event>, e: Event)
    ensures (events + [e])[..|events|] == events
    ensures Fed(events + [e]) == Fed(events) + if e.Readable? && e.input.Data? then e.input.chunk else []
    ensures IssuedBy(events + [e]) == IssuedBy(events) + if e.Issue? then [Issued(e.cb, e.cmd, false)] else []
  {
    assert (events + [e])[..|events|] == events;
  }

  lemma StepLives(w: World, events: seq<Event>, e: Event, script: nat -> seq<Action>)
    requires NeverCloses(script) && Goes(w, events) && Healthy(e) && Answers(events + [e])
    ensures Goes(AsyncRuns.Advance(w, e, script), events + [e])
  {
    hide ParseStream, IssuedBy, NeverCloses, Fate, Read, Fed;
    OneMore(events, e);
    if e.Readable? {
      ReadLives(w, events, e.input, script);
    } else {
      assert Fed(events + [e]) == Fed(events);
    }
  }

  /** The context lives. */
  lemma {:induction false} StaysAlive(events: seq<Event>, script: nat -> seq<Action>)
    requires NeverCloses(script) && Served(events) && forall i :: 0 <= i < |events| ==> Healthy(events[i])
    ensures Goes(AdvanceAll(NOTHING, events, script), events)
    decreases |events|
  {
    hide ParseStream, NeverCloses, AsyncRuns.Advance, Healthy;
    if events == [] {
      NothingToDeliver();
    } else {
      var front, last := events[..|events| - 1], events[|events| - 1];
      forall i | 0 <= i <= |front|
        ensures Answers(front[..i])
      {
        assert front[..i] == events[..i];
      }
      StaysAlive(front, script);
      assert events[..|events|] == events == front + [last];
      StepLives(AdvanceAll(NOTHING, front, script), front, last, script);
    }
  }

  lemma OpenBooked(ac: AsyncContext, events: seq<Event>)
    requires Booked(ac, events) && IsOpen(ac)
    ensures Outer(ac.accepted) == IssuedBy(events) && Inner(ac.accepted) == Scripts(ac.script, ac.calls)
    ensures ac.sent + ac.obuf == BytesOf(ac.accepted)
  {
    hide Outer, Inner, Scripts, BytesOf, IssuedBy;
    NobodyOutside();
    assert [] + IssuedBy(events) == IssuedBy(events);
  }

  lemma OpenAnswered(ac: AsyncContext, ws: seq<Wire>)
    requires Accounted(ac) && !ac.freed && AllSent(ws, 8) && ac.fed == EncodeAll(ws)
    ensures |ac.delivered| == |ws| <= |ac.accepted| && ac.replies.Queue() == TakersOf(ac.accepted)[|ws|..]
    ensures forall k :: 0 <= k < |ws| ==> ac.delivered[k] == Delivery(ac.accepted[k].cb, Some(Meaning(ws[k])))
  {
    hide ParseStream, EncodeAll, Meaning, TakersOf, WithFunction;
    StreamParses(ws, []);
    NothingToDeliver();
    assert EncodeAll(ws) + [] == EncodeAll(ws);
    assert Meanings(ws) + [] == Meanings(ws);
    forall k | 0 <= k < |ws|
      ensures Meanings(ws)[k] == Meaning(ws[k])
    {
      MeaningAt(ws, k);
    }
  }

  /** A conversation: the k-th answer of the server is what the callback of the k-th
      command gets, and all commands issued have been accepted. */
  method Converse(script: nat -> seq<Action>, events: seq<Event>, ghost ws: seq<Wire>) returns (ac: AsyncContext)
    requires RegularActions(script) && NeverCloses(script) && Volume(events) < INT_LIMIT
    requires forall i :: 0 <= i < |events| ==> IsAllowed(events[i]) && Healthy(events[i])
    requires Fed(events) == EncodeAll(ws) && AllSent(ws, 8) && Served(events)
    ensures IsLive(ac) && !ac.Closing() && !ac.err && ac.fed == EncodeAll(ws)
    ensures |ac.delivered| == |ws| <= |ac.accepted| && ac.replies.Queue() == TakersOf(ac.accepted)[|ws|..]
    ensures forall k :: 0 <= k < |ws| ==> ac.delivered[k] == Delivery(ac.accepted[k].cb, Some(Meaning(ws[k])))
    ensures Outer(ac.accepted) == IssuedBy(events) && Inner(ac.accepted) == Scripts(script, ac.calls)
    ensures ac.sent + ac.obuf == BytesOf(ac.accepted)
  {
    hide AsyncContext.Valid, RegularActions, Healthy, IsAllowed, Served, NeverCloses, AllSent, Booked, Accounted;
    hide AsyncContext.Stuck, ParseStream, AdvanceAll, CarryAll, EncodeAll, Fed, Quiet, Silent;
    StaysAlive(events, script);
    var n;
    ac, n := Life(script, events);
    assert events[..|events|] == events;
    OpenBooked(ac, events);
    OpenAnswered(ac, ws);
  }
}
