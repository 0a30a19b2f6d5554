/**
  Whole lives of an asynchronous context: any sequence of commands, disconnects,
  frees, and events on the socket, with callbacks that act on the context.

  What a run does is said twice. World is an exact account, event by event, on
  values. Accounted says what it comes to: which commands have been accepted, which
  bytes have been sent, and which callback got which reply.
 */
module AsyncRuns {
  import opened Bytes
  import opened Resp
  import opened Streams
  import opened Readers
  import opened Callbacks
  import opened Async
  import Outputs

  datatype Event =
    | Issue(cb: Callback, cmd: ByteString)
    | AskDisconnect
    | AskFree
    | Readable(attempt: ConnectResult, input: ReadResult)
    | Writable(attempt: ConnectResult, output: Outputs.WriteResult)

  predicate IsAllowed(e: Event) {
    e.Issue? ==> IsRegular(e.cmd)
  }

  function Size(e: Event): nat {
    if e.Readable? then SizeOf(e.input) else 0
  }

  function Volume(events: seq<Event>): nat {
    if events == [] then 0 else Volume(events[..|events| - 1]) + Size(events[|events| - 1])
  }

  // ---------- The account on values ----------

  /** A context between two events: what is in its pipe, the number of functions
      run, the connection, the bytes sent, and the number of replies delivered. Or
      the way it has ended. */
  datatype World =
    | World(pipe: Pipe, calls: nat, wire: Socket, sent: ByteString, got: nat)
    | Closed
    | Broken

  /** The replies that are complete after the bytes `fed`, but for the first n. */
  ghost function Ready(fed: ByteString, n: nat): Stream {
    var s := ParseStream(fed);
    Stream(if n <= |s.replies| then s.replies[n..] else [], s.status)
  }

  /** The socket cannot accept more bytes than it is offered. */
  function Taken(output: Outputs.WriteResult, obuf: ByteString): nat {
    if !output.Wrote? then 0 else if output.n <= |obuf| then output.n else |obuf|
  }

  ghost function Read(w: World, attempt: ConnectResult, input: ReadResult, script: nat -> seq<Action>): World
    requires w.World?
  {
    var c := Connect(w.wire, attempt);
    if !c.connected then if attempt == InProgress then w.(wire := c) else Closed
    else if c.err || input.Eof? || input.ReadFailed? then Closed
    else
      var wire := Receive(w.wire, attempt, input);
      match Fate(w.pipe, w.calls, script, Ready(wire.fed, w.got), false)
      case Lives(pipe, calls) => World(pipe, calls, wire, w.sent, |ParseStream(wire.fed).replies|)
      case Freed => Closed
      case Aborts => Broken
  }

  ghost function Write(w: World, attempt: ConnectResult, output: Outputs.WriteResult): World
    requires w.World?
  {
    var c := Connect(w.wire, attempt);
    if !c.connected then if attempt == InProgress then w.(wire := c) else Closed
    else if c.err || (w.pipe.obuf != [] && output == Outputs.Failed) then Closed
    else
      var n := Taken(output, w.pipe.obuf);
      w.(wire := c, sent := w.sent + w.pipe.obuf[..n], pipe := w.pipe.(obuf := w.pipe.obuf[n..]))
  }

  ghost function Advance(w: World, e: Event, script: nat -> seq<Action>): World {
    if !w.World? then w
    else
      match e
      case Issue(cb, cmd) => w.(pipe := Async.Issue(w.pipe, cb, cmd, false))
      case AskDisconnect => if w.pipe.queue == [] then Closed else w.(pipe := w.pipe.(disconnecting := true))
      case AskFree => Closed
      case Readable(attempt, input) => Read(w, attempt, input, script)
      case Writable(attempt, output) => Write(w, attempt, output)
  }

  ghost function AdvanceAll(w: World, events: seq<Event>, script: nat -> seq<Action>): World {
    if events == [] then w
    else Advance(AdvanceAll(w, events[..|events| - 1], script), events[|events| - 1], script)
  }

  /** A new context. */
  const NOTHING := World(Pipe([], [], [], false, false), 0, Socket(false, false, []), [], 0)

  lemma AdvanceStep(w: World, events: seq<Event>, i: nat, script: nat -> seq<Action>)
    requires i < |events|
    ensures AdvanceAll(w, events[..i + 1], script) == Advance(AdvanceAll(w, events[..i], script), events[i], script)
  {
    assert events[..i + 1][..i] == events[..i];
  }

  /** What has ended stays as it is. */
  lemma {:induction false} Over(w: World, events: seq<Event>, i: nat, script: nat -> seq<Action>)
    requires i <= |events| && !AdvanceAll(w, events[..i], script).World?
    ensures AdvanceAll(w, events, script) == AdvanceAll(w, events[..i], script)
    decreases |events|
  {
    if i == |events| {
      assert events[..i] == events;
    } else {
      var front := events[..|events| - 1];
      assert front[..i] == events[..i];
      Over(w, front, i, script);
    }
  }

  lemma {:induction false} VolumePrefix(events: seq<Event>, i: nat)
    requires i < |events|
    ensures Volume(events[..i + 1]) == Volume(events[..i]) + Size(events[i]) <= Volume(events)
    decreases |events|
  {
    assert events[..i + 1][..i] == events[..i];
    if i + 1 == |events| {
      assert events[..i + 1] == events;
    } else {
      var front := events[..|events| - 1];
      VolumePrefix(front, i);
      assert front[..i + 1] == events[..i + 1] && front[..i] == events[..i];
    }
  }

  /** What an event does to the connection and the bytes read. */
  function Carry(s: Socket, e: Event): Socket {
    match e
    case Readable(attempt, input) => Receive(s, attempt, input)
    case Writable(attempt, _) => Connect(s, attempt)
    case _ => s
  }

  function CarryAll(s: Socket, events: seq<Event>): Socket {
    if events == [] then s else Carry(CarryAll(s, events[..|events| - 1]), events[|events| - 1])
  }

  lemma CarryStep(s: Socket, events: seq<Event>, i: nat)
    requires i < |events|
    ensures CarryAll(s, events[..i + 1]) == Carry(CarryAll(s, events[..i]), events[i])
  {
    assert events[..i + 1][..i] == events[..i];
  }

  // ---------- Contexts ----------

  /** Every reply that has come in has been given to a callback. */
  ghost predicate AllDelivered(ac: AsyncContext)
    reads ac
  {
    ParseStream(ac.fed) == Stream(ac.got, Waiting)
  }

  /** A context goes on, or has been released, or an assertion has failed. */
  ghost predicate Sound(ac: AsyncContext)
    reads ac, ac.replies, ac.replies.nodes, ac.reader, ac.reader.Repr
  {
    if ac.aborted then ac.Stuck()
    else if ac.freed then ac.Settled()
    else ac.Valid() && AllDelivered(ac)
  }

  ghost predicate IsLive(ac: AsyncContext)
    reads ac
  {
    !ac.aborted && !ac.freed
  }

  ghost function WorldOf(ac: AsyncContext): World
    reads ac, ac.replies
  {
    if ac.aborted then Broken
    else if ac.freed then Closed
    else World(ac.Piped(), ac.calls, ac.Wire(), ac.sent, |ac.got|)
  }

  /** The replies that a read event completes, seen from the reader. */
  lemma WhatIsReady(ac: AsyncContext, chunk: ByteString)
    requires ac.Valid() && AllDelivered(ac)
    ensures ac.reader.View().err == None
    ensures StreamAfter(ac.reader.View(), chunk) == Ready(ac.fed + chunk, |ac.got|)
  {
    hide ParseStream, After, Reader.Valid, AsyncContext.InOrder, AsyncContext.Answered, RegularActions;
    var v := ac.reader.View();
    assert ac.fed + [] == ac.fed;
    assert ParseStream(ac.fed + []) == Prepend(ac.got, StreamAfter(v, []));
    assert ParseStream(ac.fed + chunk) == Prepend(ac.got, StreamAfter(v, chunk));
  }

  /** An event at a live context. */
  ghost predicate Handles(ac: AsyncContext, e: Event)
    reads ac, ac.replies, ac.replies.nodes, ac.reader, ac.reader.Repr
  {
    ac.Valid() && AllDelivered(ac) && IsAllowed(e) && ac.reader.len + Size(e) < INT_LIMIT
  }

  method HandleReadable(ac: AsyncContext, attempt: ConnectResult, input: ReadResult)
    requires Handles(ac, Readable(attempt, input))
    modifies ac, ac.replies, ac.replies.nodes, ac.reader.Repr
    ensures Sound(ac) && WorldOf(ac) == Read(old(WorldOf(ac)), attempt, input, ac.script)
    ensures old(ac.connected) && (old(ac.err) || input.Eof? || input.ReadFailed?) ==> ac.Released()
    ensures ac.fed == Receive(old(ac.Wire()), attempt, input).fed
    ensures IsLive(ac) ==> ac.Wire() == Receive(old(ac.Wire()), attempt, input)
    ensures (IsLive(ac) ==> ac.Grown(SizeOf(input))) && ac.StaysOpen() && ac.Followed()
  {
    hide AsyncContext.Answered, AsyncContext.Separate, AsyncContext.InOrder, Reader.Valid, Explains, RegularActions;
    hide ParseStream, NeverDisconnects, Fate, StreamAfter, Outer;
    WhatIsReady(ac, if input.Data? then input.chunk else []);
    assert ac.fed + [] == ac.fed;
    ac.HandleRead(attempt, input);
  }

  method HandleWritable(ac: AsyncContext, attempt: ConnectResult, output: Outputs.WriteResult)
    requires Handles(ac, Writable(attempt, output))
    modifies ac, ac.replies, ac.replies.nodes
    ensures Sound(ac) && WorldOf(ac) == Write(old(WorldOf(ac)), attempt, output)
    ensures old(ac.connected) && !old(ac.err) && output.Wrote? ==> Sends(ac, output.n)
    ensures ac.fed == old(ac.fed) && (IsLive(ac) ==> ac.Wire() == Connect(old(ac.Wire()), attempt))
    ensures (IsLive(ac) ==> ac.Grown(0)) && ac.StaysOpen()
    ensures ac.accepted == old(ac.accepted) && ac.Followed()
  {
    hide Sound, AsyncContext.Valid, AllDelivered, AsyncContext.Grown, AsyncContext.StaysOpen, AsyncContext.Followed;
    StartsLive(ac);
    var accepted := if output.Wrote? && output.n > |ac.obuf| then Outputs.Wrote(|ac.obuf|) else output;
    WriteOut(ac, attempt, accepted);
  }

  /** The case that the socket takes no more than it is offered. */
  method WriteOut(ac: AsyncContext, attempt: ConnectResult, output: Outputs.WriteResult)
    requires Handles(ac, Writable(attempt, output)) && (output.Wrote? ==> output.n <= |ac.obuf|)
    modifies ac, ac.replies, ac.replies.nodes
    ensures Sound(ac) && WorldOf(ac) == Write(old(WorldOf(ac)), attempt, output)
    ensures old(ac.connected) && !old(ac.err) && output.Wrote? ==> Sends(ac, output.n)
    ensures ac.fed == old(ac.fed) && (IsLive(ac) ==> ac.Wire() == Connect(old(ac.Wire()), attempt))
    ensures (IsLive(ac) ==> ac.Grown(0)) && ac.StaysOpen()
    ensures ac.accepted == old(ac.accepted) && ac.Followed()
  {
    hide AsyncContext.Valid, AsyncContext.Settled, AsyncContext.Released, CallbackList.Queue;
    hide Sound, NeverDisconnects, Outer, ParseStream, Write;
    StartsLive(ac);
    WriteCases(WorldOf(ac), attempt, output);
    ac.HandleWrite(attempt, output);
    OneOfTwo(ac);
  }

  lemma WriteCases(w: World, attempt: ConnectResult, output: Outputs.WriteResult)
    requires w.World? && (output.Wrote? ==> output.n <= |w.pipe.obuf|)
    ensures var c := Connect(w.wire, attempt);
            Write(w, attempt, output)
            == if !c.connected then if attempt == InProgress then w.(wire := c) else Closed
               else if c.err || (w.pipe.obuf != [] && output == Outputs.Failed) then Closed
               else if !output.Wrote? then w.(wire := c)
               else World(w.pipe.(obuf := w.pipe.obuf[output.n..]), w.calls, c, w.sent + w.pipe.obuf[..output.n], w.got)
  {
    assert w.pipe.obuf[0..] == w.pipe.obuf && w.sent + w.pipe.obuf[..0] == w.sent;
  }

  lemma StartsLive(ac: AsyncContext)
    requires ac.Valid()
    ensures WorldOf(ac).World?
  {
  }

  lemma OneOfTwo(ac: AsyncContext)
    requires !ac.aborted && (ac.Settled() || ac.Valid()) && (!ac.freed ==> AllDelivered(ac))
    ensures Sound(ac)
  {
    hide ParseStream, AsyncContext.InOrder, AsyncContext.Answered, AsyncContext.Separate, Explains, Reader.Valid;
  }

  /** The commands that events bring to an open context. */
  function IssuedBy(events: seq<Event>): seq<Issued> {
    if events == [] then []
    else
      var last := events[|events| - 1];
      IssuedBy(events[..|events| - 1]) + if last.Issue? then [Issued(last.cb, last.cmd, false)] else []
  }

  twostate predicate Unmoved(ac: AsyncContext)
    reads ac, ac.replies
  {
    && IsLive(ac) && ac.accepted == old(ac.accepted) && ac.obuf == old(ac.obuf)
    && ac.replies.Queue() == old(ac.replies.Queue())
  }

  /** An event has been handled as the account on values says. */
  twostate predicate Handled(ac: AsyncContext, e: Event)
    reads ac, ac.replies, ac.replies.nodes, ac.reader, ac.reader.Repr
  {
    && Sound(ac) && WorldOf(ac) == Advance(old(WorldOf(ac)), e, ac.script)
    && ac.fed == Carry(old(ac.Wire()), e).fed
    && (IsLive(ac) ==> ac.Grown(Size(e)) && ac.Wire() == Carry(old(ac.Wire()), e))
    && (e != AskDisconnect ==> ac.StaysOpen())
    && Outer(ac.accepted) == Outer(old(ac.accepted)) + (if old(ac.Closing()) then [] else IssuedBy([e]))
    && (old(ac.Closing()) && !ac.freed ==> ac.Closing())
  }

  method HandleIssue(ac: AsyncContext, cb: Callback, cmd: ByteString)
    requires Handles(ac, Issue(cb, cmd))
    modifies ac, ac.replies, ac.replies.nodes, ac.reader.Repr
    ensures Handled(ac, Issue(cb, cmd))
    ensures if old(ac.Closing()) then Unmoved(ac)
            else
              && IsLive(ac) && ac.accepted == old(ac.accepted) + [Issued(cb, cmd, false)]
              && ac.replies.Queue() == old(ac.replies.Queue()) + [cb] && ac.obuf == old(ac.obuf) + cmd
  {
    hide AsyncContext.Separate, Reader.Valid, Explains, RegularActions, RunsOf, CallbackList.Valid;
    hide ParseStream, NeverDisconnects, IsRegular, TakersOf, BytesOf, Inner, Outer, Scripts;
    assert IssuedBy([Issue(cb, cmd)]) == [Issued(cb, cmd, false)];
    assert Outer(ac.accepted) + [] == Outer(ac.accepted);
    Accept(ac.accepted, Issued(cb, cmd, false));
    var ok := ac.AsyncCommand(cb, cmd);
  }

  method HandleClose(ac: AsyncContext, e: Event)
    requires Handles(ac, e) && (e.AskDisconnect? || e.AskFree?)
    modifies ac, ac.replies, ac.replies.nodes, ac.reader.Repr
    ensures Handled(ac, e)
    ensures if e.AskFree? || old(ac.replies.Queue()) == [] then ac.Released() else Unmoved(ac) && ac.disconnecting
  {
    hide AsyncContext.Separate, Reader.Valid, Explains, RegularActions, RunsOf, CallbackList.Valid;
    hide ParseStream, NeverDisconnects, TakersOf, BytesOf, Inner, Outer, Scripts;
    assert IssuedBy([e]) == [];
    assert Outer(ac.accepted) + [] == Outer(ac.accepted);
    if e.AskFree? {
      ac.AsyncFree();
    } else {
      ac.AsyncDisconnect();
    }
  }

  lemma NothingIssued(ac: AsyncContext, e: Event)
    requires ac.Valid() && !e.Issue?
    ensures WorldOf(ac).World? && Outer(ac.accepted) + IssuedBy([e]) == Outer(ac.accepted)
  {
    assert IssuedBy([e]) == [];
  }

  method HandleRead(ac: AsyncContext, e: Event)
    requires Handles(ac, e) && e.Readable?
    modifies ac, ac.replies, ac.replies.nodes, ac.reader.Repr
    ensures Handled(ac, e)
    ensures old(ac.connected) && (old(ac.err) || e.input.Eof? || e.input.ReadFailed?) ==> ac.Released()
  {
    hide Sound, AsyncContext.Valid, NeverDisconnects, Read, Outer, IssuedBy, AllDelivered, AsyncContext.Released;
    NothingIssued(ac, e);
    HandleReadable(ac, e.attempt, e.input);
  }

  method HandleWrite(ac: AsyncContext, e: Event)
    requires Handles(ac, e) && e.Writable?
    modifies ac, ac.replies, ac.replies.nodes, ac.reader.Repr
    ensures Handled(ac, e)
    ensures old(ac.connected) && !old(ac.err) && e.output.Wrote? ==> Sends(ac, e.output.n)
  {
    hide Sound, AsyncContext.Valid, NeverDisconnects, Write, Outer, IssuedBy, AllDelivered, Sends;
    NothingIssued(ac, e);
    HandleWritable(ac, e.attempt, e.output);
  }

  /** The socket has taken n bytes, or all there were. */
  twostate predicate Sends(ac: AsyncContext, n: nat)
    reads ac, ac.replies
  {
    var k := if n <= |old(ac.obuf)| then n else |old(ac.obuf)|;
    && IsLive(ac) && ac.obuf == old(ac.obuf)[k..] && ac.sent == old(ac.sent) + old(ac.obuf)[..k]
    && ac.accepted == old(ac.accepted) && ac.replies.Queue() == old(ac.replies.Queue())
  }

  /** One event: as the account on values says, and in the terms of the context. */
  method Handle(ac: AsyncContext, e: Event)
    requires Handles(ac, e)
    modifies ac, ac.replies, ac.replies.nodes, ac.reader.Repr
    ensures Handled(ac, e)
    ensures e.Issue? && !old(ac.Closing()) ==>
              && IsLive(ac) && ac.accepted == old(ac.accepted) + [Issued(e.cb, e.cmd, false)]
              && ac.replies.Queue() == old(ac.replies.Queue()) + [e.cb] && ac.obuf == old(ac.obuf) + e.cmd
    ensures e.Issue? && old(ac.Closing()) ==> Unmoved(ac)
    ensures e.AskFree? || (e.AskDisconnect? && old(ac.replies.Queue()) == []) ==> ac.Released()
    ensures e.AskDisconnect? && old(ac.replies.Queue()) != [] ==> Unmoved(ac) && ac.disconnecting
    ensures e.Readable? && old(ac.connected) && (old(ac.err) || e.input.Eof? || e.input.ReadFailed?) ==> ac.Released()
    ensures e.Writable? && old(ac.connected) && !old(ac.err) && e.output.Wrote? ==> Sends(ac, e.output.n)
  {
    hide Handles, Handled, Unmoved, Sends, AsyncContext.Released;
    match e {
      case Issue(cb, cmd) => HandleIssue(ac, cb, cmd);
      case AskDisconnect => HandleClose(ac, e);
      case AskFree => HandleClose(ac, e);
      case Readable(_, _) => HandleRead(ac, e);
      case Writable(_, _) => HandleWrite(ac, e);
    }
  }

  ghost predicate Quiet(script: nat -> seq<Action>, events: seq<Event>) {
    NeverDisconnects(script) && AskDisconnect !in events
  }

  /** The commands accepted from outside, beyond those accepted before: all that
      the events brought until the context was closed, and none later. */
  ghost predicate Issues(accepted: seq<Issued>, before: seq<Issued>, events: seq<Event>, open: bool) {
    var issued := Outer(before) + IssuedBy(events);
    && Outer(before) <= Outer(accepted) <= issued
    && (open ==> Outer(accepted) == issued)
  }

  ghost predicate IsOpen(ac: AsyncContext)
    reads ac
  {
    !ac.Closing() && !ac.freed
  }

  lemma IssuesGrow(before: seq<Issued>, events: seq<Event>, n: nat)
    requires n < |events|
    ensures IssuedBy(events[..n + 1]) == IssuedBy(events[..n]) + IssuedBy([events[n]])
    ensures Outer(before) + IssuedBy(events[..n + 1])
         == Outer(before) + IssuedBy(events[..n]) + IssuedBy([events[n]])
  {
    hide Outer;
    assert events[..n + 1][..n] == events[..n];
    assert [events[n]][..0] == [];
    assert IssuedBy([events[n]])
        == IssuedBy([]) + if events[n].Issue? then [Issued(events[n].cb, events[n].cmd, false)] else [];
  }

  /** The context is where the events have brought it from the given state. */
  ghost predicate Follows(ac: AsyncContext, w: World, wire: Socket, before: seq<Issued>, events: seq<Event>)
    reads ac, ac.replies
  {
    && WorldOf(ac) == AdvanceAll(w, events, ac.script)
    && ac.fed == CarryAll(wire, events).fed && (IsLive(ac) ==> ac.Wire() == CarryAll(wire, events))
    && Issues(ac.accepted, before, events, IsOpen(ac))
  }

  /** The next event of a run. */
  method RunOne(ac: AsyncContext, ghost w: World, ghost wire: Socket, ghost before: seq<Issued>,
                events: seq<Event>, n: nat)
    requires n < |events| && Handles(ac, events[n]) && Follows(ac, w, wire, before, events[..n])
    modifies ac, ac.replies, ac.replies.nodes, ac.reader.Repr
    ensures Sound(ac) && Follows(ac, w, wire, before, events[..n + 1])
    ensures IsLive(ac) ==> ac.Grown(Size(events[n]))
    ensures events[n] != AskDisconnect ==> ac.StaysOpen()
    ensures old(IsOpen(ac)) ==> Issues(ac.accepted, before, events[..n + 1], true)
  {
    assert IsLive(ac);
    hide Handles, Sound, Advance, Carry, Outer, IssuedBy, Issues, NeverDisconnects;
    hide AsyncContext.Valid, AsyncContext.Released;
    CarryStep(wire, events, n);
    AdvanceStep(w, events, n, ac.script);
    ghost var was, open := ac.accepted, IsOpen(ac);
    Handle(ac, events[n]);
    NextIssue(ac.accepted, before, was, open, events, n);
    LessOpen(ac.accepted, before, events[..n + 1], open, IsOpen(ac));
  }

  /** Any sequence of events. It ends early only when the context has ended, and
      then the later events change nothing. */
  method Run(ac: AsyncContext, events: seq<Event>) returns (n: nat)
    requires ac.Valid() && AllDelivered(ac) && ac.reader.len + Volume(events) < INT_LIMIT
    requires forall i :: 0 <= i < |events| ==> IsAllowed(events[i])
    modifies ac, ac.replies, ac.replies.nodes, ac.reader.Repr
    ensures Sound(ac) && n <= |events| && (n < |events| ==> !IsLive(ac))
    ensures WorldOf(ac) == AdvanceAll(old(WorldOf(ac)), events, ac.script)
    ensures ac.fed == CarryAll(old(ac.Wire()), events[..n]).fed
    ensures Issues(ac.accepted, old(ac.accepted), events[..n], IsOpen(ac))
    ensures Quiet(ac.script, events) && !ac.freed ==> ac.disconnecting == old(ac.disconnecting)
    ensures Quiet(ac.script, events) && old(IsOpen(ac)) ==>
              Outer(ac.accepted) == Outer(old(ac.accepted)) + IssuedBy(events[..n])
  {
    hide Sound, AllDelivered, NeverDisconnects, AsyncContext.Valid, Carry, IsRegular, Advance, Outer, IssuedBy, Issues;
    hide Follows, AdvanceAll, CarryAll;
    n := 0;
    StartsFollowing(ac, events);
    while n < |events| && !ac.aborted && !ac.freed
      invariant n <= |events| && Sound(ac)
      invariant Follows(ac, old(WorldOf(ac)), old(ac.Wire()), old(ac.accepted), events[..n])
      invariant IsLive(ac) ==> ac.Grown(Volume(events[..n]))
      invariant Quiet(ac.script, events) && !ac.freed ==> ac.disconnecting == old(ac.disconnecting)
      invariant Quiet(ac.script, events) && old(IsOpen(ac)) ==> Issues(ac.accepted, old(ac.accepted), events[..n], true)
      decreases |events| - n
    {
      VolumePrefix(events, n);
      SoundLives(ac);
      RunOne(ac, old(WorldOf(ac)), old(ac.Wire()), old(ac.accepted), events, n);
      n := n + 1;
    }
    if Quiet(ac.script, events) && old(IsOpen(ac)) {
      AllIssued(ac.accepted, old(ac.accepted), events[..n]);
    }
    FollowedToEnd(ac, old(WorldOf(ac)), old(ac.Wire()), old(ac.accepted), events, n);
  }

  lemma StartsFollowing(ac: AsyncContext, events: seq<Event>)
    requires ac.Valid() && AllDelivered(ac)
    ensures Sound(ac) && Follows(ac, WorldOf(ac), ac.Wire(), ac.accepted, events[..0])
    ensures Issues(ac.accepted, ac.accepted, events[..0], true)
  {
    hide Outer, IssuedBy, Issues;
    StartsSound(ac);
    NoIssues(ac.accepted, IsOpen(ac));
    NoIssues(ac.accepted, true);
  }

  /** The run has reached the end of the events, or the context has ended. */
  lemma FollowedToEnd(ac: AsyncContext, w: World, wire: Socket, before: seq<Issued>, events: seq<Event>, n: nat)
    requires n <= |events| && Follows(ac, w, wire, before, events[..n]) && (n < |events| ==> !IsLive(ac))
    ensures WorldOf(ac) == AdvanceAll(w, events, ac.script)
    ensures ac.fed == CarryAll(wire, events[..n]).fed
    ensures Issues(ac.accepted, before, events[..n], IsOpen(ac))
  {
    hide Outer, IssuedBy, Issues, AdvanceAll, CarryAll;
    assert events[..|events|] == events;
    if !IsLive(ac) {
      Over(w, events, n, ac.script);
    }
  }

  lemma NextIssue(accepted: seq<Issued>, before: seq<Issued>, was: seq<Issued>, open: bool, events: seq<Event>, n: nat)
    requires n < |events| && Issues(was, before, events[..n], open)
    requires Outer(accepted) == Outer(was) + if open then IssuedBy([events[n]]) else []
    ensures Issues(accepted, before, events[..n + 1], open)
  {
    hide Outer;
    IssuesGrow(before, events, n);
  }

  lemma LessOpen(accepted: seq<Issued>, before: seq<Issued>, events: seq<Event>, open: bool, open': bool)
    requires Issues(accepted, before, events, open) && (open' ==> open)
    ensures Issues(accepted, before, events, open')
  {
  }

  lemma AllIssued(accepted: seq<Issued>, before: seq<Issued>, events: seq<Event>)
    requires Issues(accepted, before, events, true)
    ensures Outer(accepted) == Outer(before) + IssuedBy(events)
  {
  }

  lemma NoIssues(accepted: seq<Issued>, open: bool)
    ensures Issues(accepted, accepted, [], open)
  {
    hide Outer;
    assert Outer(accepted) + [] == Outer(accepted);
  }

  lemma StartsSound(ac: AsyncContext)
    requires ac.Valid() && AllDelivered(ac)
    ensures Sound(ac)
  {
  }

  lemma SoundLives(ac: AsyncContext)
    requires Sound(ac) && IsLive(ac)
    ensures ac.Valid() && AllDelivered(ac) && !ac.freeing
  {
  }

  // ---------- What it comes to ----------

  /** The history of a context that goes on: the k-th reply of the stream has gone to
      the callback of the k-th accepted command, and the later callbacks wait. */
  lemma Progress(ac: AsyncContext)
    requires ac.Valid() && AllDelivered(ac)
    ensures var n := |ParseStream(ac.fed).replies|;
            && |ac.delivered| == n <= |ac.accepted| && ac.replies.Queue() == TakersOf(ac.accepted)[n..]
            && forall k :: 0 <= k < n ==>
                 ac.delivered[k] == Delivery(ac.accepted[k].cb, Some(ParseStream(ac.fed).replies[k]))
  {
    hide ParseStream, RunsOf, Explains, Reader.Valid, BytesOf, Inner, Outer, Scripts;
    var done := CallbacksOf(ac.delivered);
    assert done + [] == done;
    assert (done + ac.replies.Queue())[|done|..] == ac.replies.Queue();
  }

  /** When nobody has disconnected, an assertion fails only for a reply that no
      command asked for: all callbacks have been answered, and it is no error. */
  lemma Surplus(ac: AsyncContext)
    requires ac.Stuck() && !ac.disconnecting
    ensures var replies := ParseStream(ac.fed).replies;
            |ac.accepted| == |ac.got| < |replies| && !replies[|ac.accepted|].ErrorReply?
  {
    hide ParseStream, BytesOf, Inner, Outer, Scripts;
    assert CallbacksOf(ac.delivered) + [] + [] == CallbacksOf(ac.delivered);
  }

  /** What a context has done with its accepted commands. The k-th reply of the
      stream has gone to the callback of the k-th of them. As long as the context
      goes on the other callbacks wait; when it is released they have been called
      with NULL, and exactly the functions of the accepted callbacks have been run. */
  ghost predicate Accounted(ac: AsyncContext)
    reads ac, ac.replies
  {
    var replies := ParseStream(ac.fed).replies;
    var n := |ac.got|;
    && n <= |ac.accepted| && n <= |replies| && n <= |ac.delivered| <= |ac.accepted|
    && (forall k :: 0 <= k < n ==> ac.delivered[k] == Delivery(ac.accepted[k].cb, Some(replies[k])))
    && if ac.freed then
         && |ac.delivered| == |ac.accepted| && CallbacksOf(ac.ran) == WithFunction(TakersOf(ac.accepted))
         && forall k :: n <= k < |ac.accepted| ==> ac.delivered[k] == Delivery(ac.accepted[k].cb, None)
       else
         n == |replies| == |ac.delivered| && ac.replies.Queue() == TakersOf(ac.accepted)[n..]
  }

  /** Which commands have been accepted, and where their bytes are. From outside all
      that the events brought until the context was closed, and from callbacks
      likewise; the bytes sent and those in the output buffer are the commands in
      the order of their callbacks. */
  ghost predicate Booked(ac: AsyncContext, events: seq<Event>)
    reads ac
  {
    && Issues(ac.accepted, [], events, IsOpen(ac)) && ac.Scripted()
    && ac.sent + ac.obuf == BytesOf(ac.accepted)
  }

  ghost predicate Silent(script: nat -> seq<Action>) {
    forall n, i :: 0 <= i < |script(n)| ==> !script(n)[i].Command?
  }

  /** The life of a context from its creation on. It goes on or is released, and
      every accepted command is accounted for; or an assertion fails, and without
      a disconnect only for a reply that no command asked for. When nobody
      disconnects every command issued is accepted, in order. */
  method Life(script: nat -> seq<Action>, events: seq<Event>) returns (ac: AsyncContext, n: nat)
    requires RegularActions(script) && Volume(events) < INT_LIMIT
    requires forall i :: 0 <= i < |events| ==> IsAllowed(events[i])
    ensures n <= |events| && (n < |events| ==> !IsLive(ac))
    ensures WorldOf(ac) == AdvanceAll(NOTHING, events, script)
    ensures ac.fed == CarryAll(Socket(false, false, []), events[..n]).fed
    ensures if ac.aborted then ac.Stuck() else Accounted(ac)
    ensures ac.script == script && Booked(ac, events[..n])
    ensures Quiet(script, events) ==> Outer(ac.accepted) == IssuedBy(events[..n])
    ensures Quiet(script, events) && Silent(script) ==> ac.accepted == IssuedBy(events[..n])
    ensures ac.aborted && Quiet(script, events) ==>
              var replies := ParseStream(ac.fed).replies;
              |ac.accepted| < |replies| && !replies[|ac.accepted|].ErrorReply?
  {
    hide AsyncContext.Valid, AsyncContext.Settled, ParseStream, Accounted, Quiet, RegularActions, Silent;
    hide Carry, Advance, IsRegular, Reader.Valid, Inner, Outer, BytesOf, TakersOf, Scripts, IssuedBy, Issues;
    var reader := new Reader();
    ac := new AsyncContext(reader, script);
    NothingToDeliver();
    assert WorldOf(ac) == NOTHING && IsOpen(ac);
    n := Run(ac, events);
    assert Outer([]) + IssuedBy(events[..n]) == IssuedBy(events[..n]) by { NobodyOutside(); }
    SoundBooked(ac);
    if Silent(script) && Quiet(script, events) {
      SilentScripts(script, ac.calls);
      OnlyOuter(ac.accepted);
    }
    if ac.aborted {
      if Quiet(script, events) {
        Surplus(ac);
      }
    } else if ac.freed {
      ReleasedAccounted(ac);
    } else {
      LiveAccounted(ac);
    }
  }

  lemma NobodyOutside()
    ensures Outer([]) == []
  {
  }

  lemma SoundBooked(ac: AsyncContext)
    requires Sound(ac)
    ensures ac.Scripted() && ac.sent + ac.obuf == BytesOf(ac.accepted)
  {
    hide ParseStream, Explains, Reader.Valid, CallbackList.Valid, RegularActions, BytesOf, Inner, Scripts;
  }

  lemma {:induction false} SilentScripts(script: nat -> seq<Action>, calls: nat)
    requires Silent(script)
    ensures Scripts(script, calls) == []
  {
    if calls > 0 {
      SilentScripts(script, calls - 1);
      SilentCommands(script(calls - 1));
    }
  }

  lemma {:induction false} SilentCommands(actions: seq<Action>)
    requires forall i :: 0 <= i < |actions| ==> !actions[i].Command?
    ensures CommandsOf(actions) == []
    decreases |actions|
  {
    if actions != [] {
      SilentCommands(actions[..|actions| - 1]);
    }
  }

  lemma {:induction false} OnlyOuter(accepted: seq<Issued>)
    requires Inner(accepted) == []
    ensures Outer(accepted) == accepted
    decreases |accepted|
  {
    if accepted != [] {
      var front, last := accepted[..|accepted| - 1], accepted[|accepted| - 1];
      assert |Inner(accepted)| == |Inner(front)| + if last.inner then 1 else 0;
      OnlyOuter(front);
      assert Outer(accepted) == front + [last] == accepted;
    }
  }

  lemma NothingToDeliver()
    ensures ParseStream([]) == Stream([], Waiting)
  {
  }

  lemma ReleasedAccounted(ac: AsyncContext)
    requires ac.freed && ac.Settled()
    ensures Accounted(ac)
  {
    hide ParseStream, RunsOf, WithFunction, BytesOf, Inner, Outer, Scripts;
    ac.Settlement();
  }

  lemma LiveAccounted(ac: AsyncContext)
    requires ac.Valid() && AllDelivered(ac)
    ensures Accounted(ac)
  {
    hide ParseStream, RunsOf, WithFunction, Explains, Reader.Valid, BytesOf, Inner, Outer, Scripts;
    Progress(ac);
  }

  /** A free ends every context, whatever events come before and after it. */
  lemma FreeEnds(events: seq<Event>, i: nat, script: nat -> seq<Action>)
    requires i < |events| && events[i].AskFree?
    ensures !AdvanceAll(NOTHING, events, script).World?
  {
    AdvanceStep(NOTHING, events, i, script);
    Over(NOTHING, events, i + 1, script);
  }

  /** A read event after which no more replies are complete. The context goes on as
      it was, unless a disconnect is due: that closes it, or fails an assertion when
      callbacks wait. */
  lemma NothingCameIn(w: World, script: nat -> seq<Action>)
    requires w.World? && w.wire.connected && !w.wire.err
    requires ParseStream(w.wire.fed).status == Waiting && w.got == |ParseStream(w.wire.fed).replies|
    ensures AdvanceAll(w, [Readable(Established, ReadAgain)], script)
         == if !w.pipe.disconnecting || w.pipe.obuf != [] then w else if w.pipe.queue == [] then Closed else Broken
  {
    hide ParseStream;
    var events := [Readable(Established, ReadAgain)];
    assert events[..0] == [] && events[..1] == events;
    AdvanceStep(w, events, 0, script);
  }

  /** The clean disconnect does not wait for replies: a command is written, the user
      asks to disconnect, and a read event that brings nothing fails the assertion
      of __redisAsyncDisconnect. */
  lemma CleanDisconnectAborts(script: nat -> seq<Action>, cb: Callback, cmd: ByteString)
    ensures var events := [Issue(cb, cmd), Writable(Established, Outputs.Wrote(|cmd|)),
                           AskDisconnect, Readable(Established, ReadAgain)];
            AdvanceAll(NOTHING, events, script) == Broken
  {
    hide ParseStream;
    var events := [Issue(cb, cmd), Writable(Established, Outputs.Wrote(|cmd|)),
                   AskDisconnect, Readable(Established, ReadAgain)];
    NothingToDeliver();
    assert events[..0] == [] && events[..4] == events;
    AdvanceStep(NOTHING, events, 0, script);
    AdvanceStep(NOTHING, events, 1, script);
    AdvanceStep(NOTHING, events, 2, script);
    AdvanceStep(NOTHING, events, 3, script);
    assert cmd[|cmd|..] == [] && [] + cmd == cmd;
  }
}
