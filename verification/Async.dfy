/**
  The asynchronous context: regular commands, their callbacks, and the ways it ends.

  What a user callback does is an arbitrary script of commands, disconnects and
  frees. The ghost fields keep the history: all accepted commands, the bytes the
  socket has taken, every callback taken from the queue with the reply it was taken
  for, the functions run, the bytes read, and the replies given to callbacks.
 */
module Async {
  import opened Bytes
  import opened Resp
  import opened Streams
  import opened ReplyObjects
  import opened Readers
  import opened Callbacks
  import opened Arguments
  import Outputs

  /** What a callback function may do with the context. */
  datatype Action = Command(cb: Callback, cmd: ByteString) | Disconnect | Free

  /** An accepted command; `inner` when a callback has issued it. */
  datatype Issued = Issued(cb: Callback, cmd: ByteString, inner: bool)

  ghost function TakersOf(accepted: seq<Issued>): (r: seq<Callback>)
    ensures |r| == |accepted| && forall i :: 0 <= i < |r| ==> r[i] == accepted[i].cb
  {
    Map((i: Issued) => i.cb, accepted)
  }

  /** The bytes of all commands, in order. */
  ghost function BytesOf(accepted: seq<Issued>): ByteString {
    if accepted == [] then [] else BytesOf(accepted[..|accepted| - 1]) + accepted[|accepted| - 1].cmd
  }

  ghost function Inner(accepted: seq<Issued>): seq<Issued> {
    if accepted == [] then []
    else
      var last := accepted[|accepted| - 1];
      Inner(accepted[..|accepted| - 1]) + if last.inner then [last] else []
  }

  ghost function Outer(accepted: seq<Issued>): seq<Issued> {
    if accepted == [] then []
    else
      var last := accepted[|accepted| - 1];
      Outer(accepted[..|accepted| - 1]) + if last.inner then [] else [last]
  }

  lemma Accept(accepted: seq<Issued>, i: Issued)
    ensures TakersOf(accepted + [i]) == TakersOf(accepted) + [i.cb]
    ensures BytesOf(accepted + [i]) == BytesOf(accepted) + i.cmd
    ensures Inner(accepted + [i]) == Inner(accepted) + if i.inner then [i] else []
    ensures Outer(accepted + [i]) == Outer(accepted) + if i.inner then [] else [i]
  {
    assert (accepted + [i])[..|accepted|] == accepted;
    assert TakersOf(accepted + [i]) == TakersOf(accepted) + [i.cb];
  }

  /** The commands that a callback function issues, if the context is open. */
  ghost function CommandsOf(actions: seq<Action>): seq<Issued> {
    if actions == [] then []
    else
      var last := actions[|actions| - 1];
      CommandsOf(actions[..|actions| - 1]) + if last.Command? then [Issued(last.cb, last.cmd, true)] else []
  }

  /** Those of the first `calls` functions. */
  ghost function Scripts(script: nat -> seq<Action>, calls: nat): seq<Issued> {
    if calls == 0 then [] else Scripts(script, calls - 1) + CommandsOf(script(calls - 1))
  }

  /** A callback taken from the queue, with its reply or NULL. */
  datatype Delivery = Delivery(cb: Callback, reply: Option<Reply>)

  /** What the socket answers to a read. */
  datatype ReadResult = Data(chunk: ByteString) | ReadAgain | Eof | ReadFailed

  /** What becomes of the connection attempt of a context that is not connected. */
  datatype ConnectResult = Established | InProgress | Refused

  /** The state of the connection, and the bytes that came in. */
  datatype Socket = Socket(connected: bool, err: bool, fed: ByteString)

  /** redisCheckSocketError leaves an error behind also while the attempt goes on. */
  function Connect(s: Socket, answer: ConnectResult): Socket {
    if s.connected then s
    else if answer == Established then s.(connected := true)
    else s.(err := true)
  }

  function SizeOf(input: ReadResult): nat {
    if input.Data? then |input.chunk| else 0
  }

  function Receive(s: Socket, answer: ConnectResult, input: ReadResult): Socket {
    var c := Connect(s, answer);
    if c.connected && !c.err && input.Data? then c.(fed := c.fed + input.chunk) else c
  }

  ghost function CallbacksOf(log: seq<Delivery>): (r: seq<Callback>)
    ensures |r| == |log| && forall i :: 0 <= i < |r| ==> r[i] == log[i].cb
  {
    Map((d: Delivery) => d.cb, log)
  }

  /** Callbacks without a function are taken from the queue, but nothing is run. */
  ghost function RunsOf(log: seq<Delivery>): seq<Delivery> {
    if log == [] then []
    else
      var last := log[|log| - 1];
      RunsOf(log[..|log| - 1]) + if last.cb.fn.Some? then [last] else []
  }

  ghost function WithFunction(cbs: seq<Callback>): seq<Callback> {
    if cbs == [] then []
    else
      var last := cbs[|cbs| - 1];
      WithFunction(cbs[..|cbs| - 1]) + if last.fn.Some? then [last] else []
  }

  lemma LogStep(log: seq<Delivery>, d: Delivery, queue: seq<Callback>)
    ensures CallbacksOf(log + [d]) + [] + queue == CallbacksOf(log) + [d.cb] + queue
    ensures RunsOf(log + [d]) == RunsOf(log) + if d.cb.fn.Some? then [d] else []
  {
    assert CallbacksOf(log + [d]) == CallbacksOf(log) + [d.cb];
    assert (log + [d])[..|log|] == log;
  }

  /** The callbacks run are those taken from the queue that have a function. */
  lemma {:induction false} RunsFollow(log: seq<Delivery>)
    ensures CallbacksOf(RunsOf(log)) == WithFunction(CallbacksOf(log))
  {
    if log != [] {
      var front := log[..|log| - 1];
      RunsFollow(front);
      assert CallbacksOf(log)[..|log| - 1] == CallbacksOf(front);
    }
  }

  /** The queue, drained with NULL replies. */
  ghost function Drained(queue: seq<Callback>): (r: seq<Delivery>)
    ensures |r| == |queue|
    ensures forall i :: 0 <= i < |r| ==> r[i] == Delivery(queue[i], None)
  {
    Map((cb: Callback) => Delivery(cb, None), queue)
  }

  lemma DrainStep(log: seq<Delivery>, queue: seq<Callback>)
    requires queue != []
    ensures log + Drained(queue) == log + [Delivery(queue[0], None)] + Drained(queue[1..])
  {
    assert Drained(queue) == [Delivery(queue[0], None)] + Drained(queue[1..]);
  }

  lemma DrainEnd(log: seq<Delivery>)
    ensures log + Drained([]) == log
  {
  }

  lemma FirstTaken(done: seq<Callback>, queue: seq<Callback>)
    requires queue != []
    ensures done + [] + queue == done + [queue[0]] + queue[1..]
  {
  }

  predicate IsRegular(cmd: ByteString) {
    NextArgument(cmd, 0).Some? && KindOf(cmd) == Regular
  }

  ghost predicate RegularActions(script: nat -> seq<Action>) {
    forall n, i :: 0 <= i < |script(n)| && script(n)[i].Command? ==> IsRegular(script(n)[i].cmd)
  }

  /** What a callback function can change: the accepted commands, the waiting
      callbacks, the output, and the two flags that close the context. */
  datatype Pipe =
    Pipe(accepted: seq<Issued>, queue: seq<Callback>, obuf: ByteString, disconnecting: bool, freeing: bool)
  {
    predicate Closing() {
      disconnecting || freeing
    }
  }

  /** A command, issued by a callback or not. */
  ghost function Issue(p: Pipe, cb: Callback, cmd: ByteString, inner: bool): Pipe {
    if p.Closing() then p
    else p.(accepted := p.accepted + [Issued(cb, cmd, inner)], queue := p.queue + [cb], obuf := p.obuf + cmd)
  }

  ghost function Do(p: Pipe, a: Action): Pipe {
    match a
    case Command(cb, cmd) => Issue(p, cb, cmd, true)
    case Disconnect => p.(disconnecting := true)
    case Free => p.(freeing := true)
  }

  ghost function DoAll(p: Pipe, actions: seq<Action>): Pipe {
    if actions == [] then p else Do(DoAll(p, actions[..|actions| - 1]), actions[|actions| - 1])
  }

  /** How the handling of replies ends. */
  datatype End = Lives(pipe: Pipe, calls: nat) | Freed | Aborts

  datatype Next = Stop(end: End) | On(pipe: Pipe, calls: nat)

  /** One reply that is ready, when `calls` functions have been run before. */
  ghost function Answer(p: Pipe, calls: nat, script: nat -> seq<Action>, reply: Reply): Next {
    if p.queue == [] then Stop(if reply.ErrorReply? then Freed else Aborts)
    else
      var rest := p.(queue := p.queue[1..]);
      if p.queue[0].fn == None then On(rest, calls)
      else
        var after := DoAll(rest, script(calls));
        if after.freeing then Stop(Freed) else On(after, calls + 1)
  }

  /** All the replies that are ready; `status` is what follows them, and `err`
      tells whether the context has seen an error before. */
  ghost function Fate(p: Pipe, calls: nat, script: nat -> seq<Action>, ready: Stream, err: bool): End
    decreases |ready.replies|
  {
    if ready.replies == [] then
      if ready.status.Failed? then Freed
      else if p.disconnecting && p.obuf == [] then
        if p.queue == [] || err then Freed else Aborts
      else Lives(p, calls)
    else
      match Answer(p, calls, script, ready.replies[0])
      case Stop(end) => end
      case On(next, c) => Fate(next, c, script, Stream(ready.replies[1..], ready.status), err)
  }

  lemma FateStep(p: Pipe, calls: nat, script: nat -> seq<Action>, r: Reply, later: Stream, err: bool)
    ensures var next := Answer(p, calls, script, r);
            Fate(p, calls, script, Prepend([r], later), err)
            == if next.Stop? then next.end else Fate(next.pipe, next.calls, script, later, err)
  {
    assert ([r] + later.replies)[1..] == later.replies;
  }

  lemma FateOfFailure(p: Pipe, calls: nat, script: nat -> seq<Action>, status: Status, err: bool)
    requires status.Failed?
    ensures Fate(p, calls, script, Stream([], status), err) == Freed
  {
  }

  predicate NoDisconnect(actions: seq<Action>) {
    forall i :: 0 <= i < |actions| ==> !actions[i].Disconnect?
  }

  ghost predicate NeverDisconnects(script: nat -> seq<Action>) {
    forall n :: NoDisconnect(script(n))
  }

  /** Callbacks only add to the queue. */
  lemma {:induction false} DoAllGrows(p: Pipe, actions: seq<Action>)
    ensures p.queue <= DoAll(p, actions).queue
    ensures NoDisconnect(actions) ==> DoAll(p, actions).disconnecting == p.disconnecting
    decreases |actions|
  {
    if actions != [] {
      DoAllGrows(p, actions[..|actions| - 1]);
    }
  }

  /** The context is closed by the actions that say so, and by no others. */
  lemma {:induction false} DoAllCloses(p: Pipe, actions: seq<Action>)
    ensures DoAll(p, actions).disconnecting <==> p.disconnecting || Disconnect in actions
    ensures DoAll(p, actions).freeing <==> p.freeing || Free in actions
    decreases |actions|
  {
    if actions != [] {
      var front, last := actions[..|actions| - 1], actions[|actions| - 1];
      assert actions == front + [last];
      DoAllCloses(p, front);
    }
  }

  /** The first k actions, which are commands. */
  ghost function FirstCommands(actions: seq<Action>, k: nat): (r: seq<Issued>)
    requires k <= |actions| && forall i :: 0 <= i < k ==> actions[i].Command?
    ensures |r| == k && forall i :: 0 <= i < k ==> r[i] == Issued(actions[i].cb, actions[i].cmd, true)
  {
    seq(k, i requires 0 <= i < k => Issued(actions[i].cb, actions[i].cmd, true))
  }

  /** What a callback adds to an open context, when its first k actions are commands and
      the next one, if any, is not: these commands are accepted, and nothing later. */
  lemma {:induction false} DoAllMeans(p: Pipe, actions: seq<Action>, k: nat)
    requires !p.Closing() && k <= |actions| && forall i :: 0 <= i < k ==> actions[i].Command?
    requires k < |actions| ==> !actions[k].Command?
    ensures var q, done := DoAll(p, actions), FirstCommands(actions, k);
            && q.accepted == p.accepted + done
            && q.queue == p.queue + TakersOf(done) && q.obuf == p.obuf + BytesOf(done)
            && (q.Closing() <==> k < |actions|)
    decreases |actions|
  {
    hide TakersOf, BytesOf, FirstCommands;
    if actions == [] {
      assert FirstCommands(actions, k) == [];
      NothingAccepted();
      assert p.accepted + [] == p.accepted && p.queue + [] == p.queue && p.obuf + [] == p.obuf;
    } else {
      var front, last := actions[..|actions| - 1], actions[|actions| - 1];
      DoAllMeans(p, front, if k < |actions| then k else k - 1);
      if k < |actions| {
        assert FirstCommands(actions, k) == FirstCommands(front, k);
      } else {
        FirstCommandsStep(actions);
      }
    }
  }

  lemma FirstCommandsStep(actions: seq<Action>)
    requires actions != [] && forall i :: 0 <= i < |actions| ==> actions[i].Command?
    ensures var front, last := actions[..|actions| - 1], actions[|actions| - 1];
            var done, i := FirstCommands(front, |front|), Issued(last.cb, last.cmd, true);
            && FirstCommands(actions, |actions|) == done + [i]
            && TakersOf(done + [i]) == TakersOf(done) + [i.cb] && BytesOf(done + [i]) == BytesOf(done) + i.cmd
  {
    hide TakersOf, BytesOf, Inner, Outer;
    var last := actions[|actions| - 1];
    Accept(FirstCommands(actions[..|actions| - 1], |actions| - 1), Issued(last.cb, last.cmd, true));
  }

  lemma NothingAccepted()
    ensures TakersOf([]) == [] && BytesOf([]) == []
  {
  }

  /** The commands of a callback are accepted up to the first that closes the context. */
  lemma {:induction false} DoAllScripts(p: Pipe, actions: seq<Action>)
    ensures var q := DoAll(p, actions);
            && p.accepted <= q.accepted && Outer(q.accepted) == Outer(p.accepted)
            && Inner(q.accepted) <= Inner(p.accepted) + CommandsOf(actions)
            && (p.Closing() ==> q.Closing() && q.accepted == p.accepted)
            && (!q.Closing() ==> Inner(q.accepted) == Inner(p.accepted) + CommandsOf(actions))
    decreases |actions|
  {
    hide Inner, Outer;
    if actions == [] {
      assert Inner(p.accepted) + [] == Inner(p.accepted);
    } else {
      var front, last := actions[..|actions| - 1], actions[|actions| - 1];
      var q := DoAll(p, front);
      DoAllScripts(p, front);
      MoreCommands(Inner(p.accepted), front, last);
      if last.Command? {
        Accept(q.accepted, Issued(last.cb, last.cmd, true));
      }
    }
  }

  lemma MoreCommands(before: seq<Issued>, front: seq<Action>, last: Action)
    ensures CommandsOf(front + [last])
         == CommandsOf(front) + if last.Command? then [Issued(last.cb, last.cmd, true)] else []
    ensures before + CommandsOf(front + [last])
         == before + CommandsOf(front) + if last.Command? then [Issued(last.cb, last.cmd, true)] else []
  {
    assert (front + [last])[..|front|] == front;
  }

  /** One more function has been run. */
  lemma ScriptsGrow(p: Pipe, script: nat -> seq<Action>, calls: nat)
    requires Inner(p.accepted) <= Scripts(script, calls)
    requires !p.Closing() ==> Inner(p.accepted) == Scripts(script, calls)
    ensures var q := DoAll(p, script(calls));
            && Inner(q.accepted) <= Scripts(script, calls + 1)
            && (!q.Closing() ==> Inner(q.accepted) == Scripts(script, calls + 1))
  {
    hide Inner, Outer, CommandsOf, DoAll;
    DoAllScripts(p, script(calls));
  }

  lemma AnswerKeepsOpen(p: Pipe, calls: nat, script: nat -> seq<Action>, r: Reply)
    ensures var next := Answer(p, calls, script, r);
            && (NeverDisconnects(script) && next.On? ==> next.pipe.disconnecting == p.disconnecting)
            && (next.Stop? ==> !next.end.Lives?)
  {
    if p.queue != [] {
      DoAllGrows(p.(queue := p.queue[1..]), script(calls));
    }
  }

  /** Nothing fails when nobody disconnects and every reply has its command. */
  lemma {:induction false} FateIsSafe(p: Pipe, calls: nat, script: nat -> seq<Action>, ready: Stream, err: bool)
    requires !p.disconnecting && NeverDisconnects(script) && |ready.replies| <= |p.queue|
    ensures Fate(p, calls, script, ready, err) != Aborts
    decreases |ready.replies|
  {
    if ready.replies != [] {
      var rest := p.(queue := p.queue[1..]);
      assert NoDisconnect(script(calls));
      DoAllGrows(rest, script(calls));
      var later := Stream(ready.replies[1..], ready.status);
      match Answer(p, calls, script, ready.replies[0])
      case Stop(_) =>
      case On(next, c) => FateIsSafe(next, c, script, later, err);
    }
  }

  class AsyncContext {
    const replies: CallbackList
    const reader: Reader
    const script: nat -> seq<Action>
    // flags
    var connected: bool
    var disconnecting: bool
    var freeing: bool
    var inCallback: bool
    /** c->err is set. */
    var err: bool
    var obuf: ByteString
    /** The number of callback functions run so far. */
    var calls: nat
    /** The context has been released, or an assertion of the C code has failed. */
    var freed: bool
    var aborted: bool

    ghost var accepted: seq<Issued>
    ghost var sent: ByteString
    ghost var delivered: seq<Delivery>
    ghost var ran: seq<Delivery>
    ghost var fed: ByteString
    ghost var got: seq<Reply>

    /** Every accepted callback has been taken from the queue or is still in it,
        in order; `taken` is one that is being delivered. The bytes of the accepted
        commands, in the same order, have been sent or are in the output buffer. */
    ghost predicate InOrder(taken: seq<Callback>)
      reads `accepted, `sent, `obuf, `delivered, replies, replies.nodes
    {
      && replies.Valid()
      && TakersOf(accepted) == CallbacksOf(delivered) + taken + replies.Queue()
      && sent + obuf == BytesOf(accepted)
    }

    /** The commands of the callbacks run so far have been accepted, in order, until
        the context was closed, and none of them later. */
    ghost predicate Scripted()
      reads this
    {
      && Inner(accepted) <= Scripts(script, calls)
      && (!Closing() ==> Inner(accepted) == Scripts(script, calls))
    }

    /** Exactly the callbacks taken that have a function have been run. */
    ghost predicate Recorded()
      reads this
    {
      ran == RunsOf(delivered) && Scripted()
    }

    /** New commands have come from callbacks only, and a context that goes on has
        not been opened again. */
    twostate predicate Followed()
      reads this
    {
      && old(accepted) <= accepted && Outer(accepted) == Outer(old(accepted))
      && (old(Closing()) && !freed ==> Closing())
    }

    ghost predicate Alive()
      reads this
    {
      !freed && !aborted && !inCallback
    }

    ghost function Piped(): Pipe
      reads this, replies
    {
      Pipe(accepted, replies.Queue(), obuf, disconnecting, freeing)
    }

    /** Commands are not accepted any more. */
    predicate Closing()
      reads this
    {
      disconnecting || freeing
    }

    /** redisAsyncInitialize */
    constructor (reader: Reader, script: nat -> seq<Action>)
      requires reader.Valid() && reader.View() == INITIAL && RegularActions(script)
      ensures Valid() && this.reader == reader && this.script == script
      ensures accepted == [] && sent == [] && obuf == [] && calls == 0 && fed == [] && got == []
      ensures !disconnecting && !freeing && !err && !connected && !freed && !aborted
      ensures fresh(replies) && replies.nodes == []
    {
      replies := new CallbackList();
      this.reader, this.script := reader, script;
      connected, disconnecting, freeing, inCallback := false, false, false, false;
      err, obuf, calls, freed, aborted := false, [], 0, false, false;
      accepted, sent, delivered, ran, fed, got := [], [], [], [], [], [];
      new;
      InitialExplains();
    }

    /** The k-th reply given to a callback went to the k-th accepted one; those
        behind them, if any, got NULL. */
    ghost predicate Answered()
      reads this
    {
      && |got| <= |delivered|
      && (forall k :: 0 <= k < |delivered| ==> delivered[k].reply == if k < |got| then Some(got[k]) else None)
      && got <= ParseStream(fed).replies
      && Recorded()
    }

    /** The reader's objects are its own. */
    ghost predicate Separate()
      reads this, reader, replies
    {
      this !in reader.Repr && replies !in reader.Repr && forall n :: n in replies.nodes ==> n !in reader.Repr
    }

    /** Between two events of a live context: it is not to be freed, every reply
        handed out by the reader has been given to a callback, and the reader holds
        what is missing from the meaning of the stream. */
    ghost predicate Valid()
      reads this, replies, replies.nodes, reader, reader.Repr
    {
      && Alive() && !freeing && InOrder([]) && Answered() && |got| == |delivered|
      && Separate() && reader.Valid() && Explains(fed, got, reader.View())
      && RegularActions(script)
    }

    /** A released context: nothing is left in the queue. */
    ghost predicate Settled()
      reads this, replies, replies.nodes
    {
      freed && !aborted && InOrder([]) && Answered() && replies.Queue() == []
    }

    /** redisAsyncCommand for a regular command. */
    method AsyncCommand(cb: Callback, cmd: ByteString) returns (ok: bool)
      requires replies.Valid() && IsRegular(cmd)
      modifies `obuf, `accepted, replies, replies.nodes
      ensures replies.Valid() && ok == !Closing()
      ensures ok ==>
                && obuf == old(obuf) + cmd && accepted == old(accepted) + [Issued(cb, cmd, inCallback)]
                && replies.Queue() == old(replies.Queue()) + [cb]
      ensures !ok ==> obuf == old(obuf) && accepted == old(accepted) && replies.nodes == old(replies.nodes)
      ensures forall taken :: old(InOrder(taken)) ==> InOrder(taken)
      ensures !inCallback && old(Scripted()) ==> Scripted()
      ensures old(Valid()) ==> Valid()
      ensures NodesGrow()
    {
      hide Explains, Reader.Valid, RegularActions, ParseStream, RunsOf, CallbackList.Valid, KindOf, NextArgument;
      hide TakersOf, BytesOf, Inner, Outer, Scripts;
      if disconnecting || freeing {
        return false;
      }
      ghost var queue := replies.Queue();
      Accept(accepted, Issued(cb, cmd, inCallback));
      assert sent + (obuf + cmd) == sent + obuf + cmd;
      forall taken: seq<Callback>
        ensures CallbacksOf(delivered) + taken + (queue + [cb]) == CallbacksOf(delivered) + taken + queue + [cb]
      {
      }
      var first := NextArgument(cmd, 0);
      assert first != None;
      assert KindOf(cmd) == Regular;
      replies.Push(cb);
      obuf := obuf + cmd;
      accepted := accepted + [Issued(cb, cmd, inCallback)];
      ok := true;
    }

    /** redisAsyncFree. Inside a callback the context is only marked; otherwise it
        is released at once. */
    method AsyncFree()
      requires replies.Valid() && !freed && RegularActions(script)
      requires !inCallback ==> Alive() && InOrder([]) && Recorded()
      modifies this, replies, replies.nodes
      ensures old(inCallback) ==> freeing && KeptExcept() && disconnecting == old(disconnecting) && SameQueue()
      ensures !old(inCallback) ==> Released()
      ensures old(Valid()) ==> Settled()
      decreases if inCallback then 0 else 4
    {
      hide Explains, Reader.Valid, RegularActions, InOrder, ParseStream, RunsOf, CallbackList.Valid;
      freeing := true;
      if !inCallback {
        FreeContext();
      }
    }

    /** redisAsyncDisconnect. Outside a callback it acts only when nothing is
        outstanding, so the assertion of the clean disconnect holds. */
    method AsyncDisconnect()
      requires replies.Valid() && !freed && RegularActions(script)
      requires !inCallback ==> Alive() && InOrder([]) && Recorded()
      modifies this, replies, replies.nodes
      ensures old(inCallback) ==> disconnecting && KeptExcept() && freeing == old(freeing) && SameQueue()
      ensures !old(inCallback) && old(replies.Queue()) == [] ==> Released()
      ensures !old(inCallback) && old(replies.Queue()) != [] ==>
                disconnecting && KeptExcept() && freeing == old(freeing) && SameQueue()
      ensures old(Valid()) ==> Settled() || Valid()
      decreases if inCallback then 0 else 4
    {
      hide Explains, Reader.Valid, RegularActions, InOrder, ParseStream, RunsOf, CallbackList.Valid;
      EmptyQueue();
      disconnecting := true;
      if !inCallback && replies.head == null {
        DisconnectNow();
      }
    }

    /** Nothing but the closing flags has changed. */
    twostate predicate KeptExcept()
      reads this
    {
      unchanged(`connected, `inCallback, `err, `obuf, `calls, `freed, `aborted,
                `accepted, `sent, `delivered, `ran, `fed, `got)
    }

    /** The nodes of the queue are old ones, or new ones of its own. */
    twostate predicate NodesGrow()
      reads replies
    {
      forall i :: 0 <= i < |replies.nodes| ==> replies.nodes[i] in old(replies.nodes) || fresh(replies.nodes[i])
    }

    twostate predicate SameQueue()
      reads replies, replies.nodes
    {
      replies.Valid() && replies.nodes == old(replies.nodes)
    }

    /** The context has been released: every callback that was outstanding has been
        called with NULL, in order, and no command has been accepted meanwhile. */
    twostate predicate Released()
      reads this, replies, replies.nodes
    {
      && freed && !aborted && InOrder([]) && replies.Queue() == []
      && accepted == old(accepted) && delivered == old(delivered) + Drained(old(replies.Queue()))
      && Recorded() && fed == old(fed) && got == old(got)
    }

    /** One thing that a callback function does. */
    method Perform(a: Action)
      requires inCallback && !freed && !aborted && RegularActions(script) && InOrder([])
      requires a.Command? ==> IsRegular(a.cmd)
      modifies this, replies, replies.nodes
      ensures inCallback && !freed && !aborted && InOrder([]) && GrewOnly()
      ensures Piped() == Do(old(Piped()), a)
      decreases 1, 0
    {
      hide IsRegular, RegularActions, CallbackList.Valid, RunsOf, TakersOf, BytesOf, Inner, Outer, Scripts;
      match a {
        case Command(cb, cmd) =>
          Accept(accepted, Issued(cb, cmd, true));
          var ok := AsyncCommand(cb, cmd);
        case Disconnect => AsyncDisconnect();
        case Free => AsyncFree();
      }
    }

    /** What a callback may change: it may add commands, unless the context is
        closing, and it may close the context. */
    twostate predicate GrewOnly()
      reads this, replies, replies.nodes
    {
      && unchanged(`connected, `err, `sent, `delivered, `fed, `got, `ran, `calls)
      && (old(disconnecting) ==> disconnecting) && (old(freeing) ==> freeing)
      && Followed()
      && (old(Closing()) ==> accepted == old(accepted) && replies.nodes == old(replies.nodes))
      && NodesGrow()
    }

    /** __redisRunCallback, for the delivery just logged. */
    method RunCallback(cb: Callback, ghost reply: Option<Reply>)
      requires Alive() && RegularActions(script) && InOrder([]) && Scripted()
      requires RunsOf(delivered) == ran + if cb.fn.Some? then [Delivery(cb, reply)] else []
      modifies this, replies, replies.nodes
      ensures Alive() && InOrder([]) && Recorded()
      ensures unchanged(`connected, `err, `sent, `delivered, `fed, `got)
      ensures (old(disconnecting) ==> disconnecting) && (old(freeing) ==> freeing)
      ensures Followed()
      ensures old(Closing()) ==> accepted == old(accepted) && replies.nodes == old(replies.nodes)
      ensures NodesGrow()
      ensures cb.fn == None ==>
                replies.nodes == old(replies.nodes) && Piped() == old(Piped()) && calls == old(calls)
      ensures cb.fn != None ==> Piped() == DoAll(old(Piped()), script(old(calls))) && calls == old(calls) + 1
      decreases 1, 2
    {
      hide CallbackList.Valid, RunsOf, RegularActions, DoAll, TakersOf, BytesOf, Inner, Outer, Scripts, CommandsOf;
      if cb.fn != None {
        inCallback := true;
        var actions := script(calls);
        RunActions(actions);
        ScriptsGrow(old(Piped()), script, calls);
        inCallback := false;
        calls := calls + 1;
        ran := ran + [Delivery(cb, reply)];
      } else {
        assert ran + [] == ran;
      }
    }

    /** What the function does, one action after the other. */
    method RunActions(actions: seq<Action>)
      requires inCallback && !freed && !aborted && RegularActions(script) && InOrder([])
      requires actions == script(calls)
      modifies this, replies, replies.nodes
      ensures inCallback && !freed && !aborted && InOrder([]) && GrewOnly()
      ensures Piped() == DoAll(old(Piped()), actions)
      decreases 1, 1
    {
      hide IsRegular, CallbackList.Valid, InOrder, Outer, Do;
      for i := 0 to |actions|
        invariant inCallback && !freed && !aborted && InOrder([]) && GrewOnly()
        invariant Piped() == DoAll(old(Piped()), actions[..i])
      {
        assert actions[i].Command? ==> IsRegular(actions[i].cmd);
        assert actions[..i + 1][..i] == actions[..i];
        Perform(actions[i]);
      }
      assert actions[..|actions|] == actions;
    }

    /** A callback has been taken from the queue. */
    ghost method Log(cb: Callback, reply: Option<Reply>)
      requires InOrder([cb]) && ran == RunsOf(delivered)
      modifies `delivered
      ensures InOrder([]) && delivered == old(delivered) + [Delivery(cb, reply)]
      ensures RunsOf(delivered) == ran + if cb.fn.Some? then [Delivery(cb, reply)] else []
    {
      hide CallbackList.Valid, RunsOf;
      ghost var d := Delivery(cb, reply);
      LogStep(delivered, d, replies.Queue());
      delivered := delivered + [d];
    }

    /** Takes the first callback from the queue. */
    method Shift() returns (cb: Option<Callback>)
      requires InOrder([])
      modifies replies
      ensures replies.Valid()
      ensures old(replies.Queue()) == [] ==>
                && cb == None && InOrder([]) && replies.Queue() == [] && replies.nodes == old(replies.nodes)
      ensures old(replies.Queue()) != [] ==>
                && cb == Some(old(replies.Queue())[0]) && InOrder([cb.value])
                && replies.Queue() == old(replies.Queue())[1..] && replies.nodes == old(replies.nodes)[1..]
    {
      hide CallbackList.Valid;
      ghost var queue := replies.Queue();
      if queue != [] {
        FirstTaken(CallbacksOf(delivered), queue);
      }
      cb := replies.Shift();
    }

    /** The context is closing, and has `rest` still to call; cb is the first of them. */
    ghost predicate Draining(cb: Option<Callback>, rest: seq<Callback>)
      reads this, replies, replies.nodes
    {
      && Alive() && Recorded()
      && if cb == None then rest == [] == replies.Queue() && InOrder([])
         else Closing() && rest != [] && cb.value == rest[0] && replies.Queue() == rest[1..] && InOrder([cb.value])
    }

    /** One round of the drain. */
    method CallWithNull(cb: Callback, ghost rest: seq<Callback>) returns (next: Option<Callback>)
      requires Draining(Some(cb), rest) && RegularActions(script)
      modifies this, replies, replies.nodes
      ensures Draining(next, rest[1..])
      ensures delivered == old(delivered) + [Delivery(cb, None)]
      ensures unchanged(`connected, `err, `fed, `got, `accepted, `sent)
      ensures forall i :: 0 <= i < |replies.nodes| ==> replies.nodes[i] in old(replies.nodes)
      decreases 1, 3
    {
      hide CallbackList.Valid, RunsOf, RegularActions, TakersOf, BytesOf, Inner, Outer, Scripts;
      Log(cb, None);
      RunCallback(cb, None);
      next := Shift();
    }

    /** __redisAsyncFree: calls what is outstanding with NULL. It terminates,
        because a closing context accepts no command. */
    method FreeContext()
      requires Alive() && RegularActions(script) && InOrder([]) && Recorded()
      requires Closing() || replies.Queue() == []
      modifies this, replies, replies.nodes
      ensures Released()
      decreases 2
    {
      hide CallbackList.Valid, RunsOf, RegularActions, InOrder, Drained;
      ghost var rest := replies.Queue();
      var cb := Shift();
      while cb.Some?
        invariant Draining(cb, rest)
        invariant unchanged(`connected, `err, `fed, `got, `accepted, `sent)
        invariant delivered + Drained(rest) == old(delivered) + Drained(old(replies.Queue()))
        invariant forall i :: 0 <= i < |replies.nodes| ==> replies.nodes[i] in old(replies.nodes)
        decreases |rest|
      {
        DrainStep(delivered, rest);
        cb := CallWithNull(cb.value, rest);
        rest := rest[1..];
      }
      DrainEnd(delivered);
      freed := true;
    }

    /** __redisAsyncDisconnect. Without an error nothing may be outstanding: the C
        code asserts it, and stops if it is not so. */
    method DisconnectNow()
      requires Alive() && RegularActions(script) && InOrder([]) && Recorded()
      modifies this, replies, replies.nodes
      ensures aborted == (!old(err) && old(replies.Queue()) != [])
      ensures !aborted ==> Released()
      ensures aborted ==> !freed && SameQueue() && InOrder([])
      ensures aborted ==> Recorded()
      ensures aborted ==> unchanged(`disconnecting, `err, `obuf, `accepted, `sent, `delivered, `fed, `got)
      decreases 3
    {
      hide CallbackList.Valid, RunsOf, RegularActions, TakersOf, BytesOf, Inner, Outer, Scripts;
      EmptyQueue();
      if !err {
        if replies.head != null {
          aborted := true;
          return;
        }
      } else {
        disconnecting := true;
      }
      FreeContext();
    }

    /** redisGetReply on a context that does not block. */
    method NextReply() returns (ok: bool, reply: ReplyObject?)
      requires Separate() && reader.Valid() && Explains(fed, got, reader.View())
      modifies reader.Repr
      ensures Separate() && reader.Valid() && fresh(reader.Repr - old(reader.Repr)) && reader.len <= old(reader.len)
      ensures ok == (reader.View().err == None)
      ensures StreamAfter(old(reader.View()), [])
           == if reply != null then Prepend([reply.tree], StreamAfter(reader.View(), []))
              else Stream([], StatusOf(reader.View()))
      ensures Explains(fed, if reply == null then got else got + [reply.tree], reader.View())
      ensures ok && reply == null ==> After(reader.View(), []) == More
      ensures reply != null ==>
                && ok && |reader.View().unread| < |old(reader.View()).unread|
                && (reply.kind == REPLY_ERROR <==> reply.tree.ErrorReply?)
    {
      hide Explains, Reader.Valid, Resume, ParseStream, StreamAfter;
      ghost var v := reader.View();
      ok, reply := reader.GetReply();
      ghost var out := if reply == null then None else Some(reply.tree);
      GetExplains(fed, got, v, out, reader.View());
      GetReady(v, out, reader.View());
      assert reply == null ==> [] + StreamAfter(reader.View(), []).replies == StreamAfter(reader.View(), []).replies;
      assert got + [] == got;
      assert v.unread + [] == v.unread;
      ResumeConsumes(v.frames, v.ty, v.unread);
      if ok && reply == null {
        assert After(reader.View(), []) == After(v, []);
      }
    }

    /** The reader may have handed out `extra`, which no callback has got yet. */
    ghost predicate Holding(extra: seq<Reply>)
      reads this, replies, replies.nodes, reader, reader.Repr
    {
      && Alive() && !freeing && InOrder([]) && Answered() && |got| == |delivered|
      && Separate() && reader.Valid() && Explains(fed, got + extra, reader.View())
      && RegularActions(script)
    }

    /** The first callback in the queue gets the reply. */
    method Deliver(cb: Callback, reply: ReplyObject)
      requires Alive() && InOrder([cb]) && Answered() && |got| == |delivered| && RegularActions(script)
      requires got + [reply.tree] <= ParseStream(fed).replies
      modifies this, replies, replies.nodes
      ensures Alive() && InOrder([]) && Answered() && got == old(got) + [reply.tree]
      ensures |got| == |delivered|
      ensures Piped() == if cb.fn == None then old(Piped()) else DoAll(old(Piped()), script(old(calls)))
      ensures calls == old(calls) + if cb.fn == None then 0 else 1
      ensures unchanged(`connected, `err, `fed, `sent) && Followed()
      ensures old(Closing()) ==> Closing() && accepted == old(accepted)
      ensures NodesGrow()
    {
      hide CallbackList.Valid, RunsOf, RegularActions, InOrder, ParseStream;
      Log(cb, Some(reply.tree));
      got := got + [reply.tree];
      RunCallback(cb, Some(reply.tree));
    }

    /** Nothing can be done any more: either the context is to be closed cleanly
        and there are callbacks that wait, or none waits and there is a reply that
        is not an error. */
    ghost predicate Stuck()
      reads this, replies, replies.nodes
    {
      && !freed && InOrder([]) && Recorded() && |got| == |delivered|
      && if replies.Queue() != [] then disconnecting && obuf == [] && !err
         else |got| < |ParseStream(fed).replies| && !ParseStream(fed).replies[|got|].ErrorReply?
    }

    /** A reply that no callback waits for. Outside pub/sub and monitor mode it is
        either an error, which closes the connection, or fails an assertion. */
    method Unexpected(reply: ReplyObject)
      requires Alive() && InOrder([]) && Answered() && |got| == |delivered| && RegularActions(script)
      requires replies.Queue() == [] && got + [reply.tree] <= ParseStream(fed).replies
      requires reply.kind == REPLY_ERROR <==> reply.tree.ErrorReply?
      modifies this, replies, replies.nodes
      ensures aborted == !reply.tree.ErrorReply? && fed == old(fed) && accepted == old(accepted)
      ensures if aborted then Stuck() && disconnecting == old(disconnecting) else Settled()
      ensures replies.Queue() == []
    {
      hide CallbackList.Valid, RunsOf, RegularActions, ParseStream;
      if reply.kind == REPLY_ERROR {
        err := true;
        DisconnectNow();
        return;
      }
      assert (got + [reply.tree])[|got|] == reply.tree;
      aborted := true;
    }

    /** One round of the loop of redisProcessCallbacks, for the reply just read.
        What comes of it is said by Answer. */
    method Dispatch(reply: ReplyObject) returns (again: bool)
      requires Holding([reply.tree]) && (reply.kind == REPLY_ERROR <==> reply.tree.ErrorReply?)
      modifies this, replies, replies.nodes
      ensures again ==> Valid() && connected == old(connected) && err == old(err) && sent == old(sent)
      ensures !again ==> if aborted then Stuck() && disconnecting == old(disconnecting) else Settled()
      ensures match Answer(old(Piped()), old(calls), script, reply.tree)
              case Stop(end) => !again && (aborted <==> end == Aborts)
              case On(p, c) => again && Piped() == p && calls == c
      ensures fed == old(fed) && reader.View() == old(reader.View()) && Followed()
      ensures aborted == (old(replies.Queue()) == [] && !reply.tree.ErrorReply?)
      ensures NodesGrow()
    {
      hide CallbackList.Valid, RunsOf, RegularActions, InOrder, ParseStream, Explains, Reader.Valid;
      hide DoAll, Outer, Inner, Scripts;
      ReadSoFar(fed, got + [reply.tree], reader.View());
      var cb := Shift();
      if cb == None {
        Unexpected(reply);
        return false;
      }
      Deliver(cb.value, reply);
      if cb.value.fn != None && freeing {
        FreeContext();
        return false;
      }
      again := true;
    }

    /** The state after an event: the context goes on, or it has been released with
        every callback answered, or an assertion of the C code has failed. The
        last happens if and only if the context is stuck. */
    ghost predicate Outcome()
      reads this, replies, replies.nodes, reader, reader.Repr
    {
      (aborted <==> Stuck()) && (aborted || Settled() || Valid())
    }

    /** A context that goes on after n bytes has grown by new objects only. */
    twostate predicate Grown(n: nat)
      reads this, replies, reader
    {
      reader.len <= old(reader.len) + n && fresh(reader.Repr - old(reader.Repr)) && NodesGrow()
    }

    twostate predicate Undisturbed()
      reads this, replies, reader
    {
      connected == old(connected) && err == old(err) && sent == old(sent) && Grown(0)
    }

    /** Callbacks that do not disconnect leave the flag alone. */
    twostate predicate StaysOpen()
      reads this
    {
      !freed && NeverDisconnects(script) ==> disconnecting == old(disconnecting)
    }

    /** Every reply of the stream has been delivered, and no disconnect is due. */
    ghost predicate CaughtUp()
      reads this
    {
      ParseStream(fed) == Stream(got, Waiting) && !(disconnecting && obuf == [])
    }

    /** No reply is ready: the cue to disconnect, if that has been asked for. */
    method NoReply()
      requires Valid() && reader.View().err == None && After(reader.View(), []) == More
      modifies this, replies, replies.nodes
      ensures Outcome() && fed == old(fed) && accepted == old(accepted)
      ensures !aborted && !freed ==> CaughtUp() && Undisturbed()
      ensures !freed ==> disconnecting == old(disconnecting)
      ensures EndsAs(Fate(old(Piped()), old(calls), script, Stream([], Waiting), old(err)))
    {
      hide CallbackList.Valid, RunsOf, RegularActions, InOrder, ParseStream, Explains, Reader.Valid, After;
      AllRead(fed, got, reader.View());
      if disconnecting && obuf == [] {
        DisconnectNow();
      }
    }

    ghost predicate EndsAs(end: End)
      reads this, replies
    {
      && (aborted <==> end == Aborts) && (freed <==> end == Freed)
      && (end.Lives? ==> Piped() == end.pipe && calls == end.calls)
    }

    ghost function FateNow(): End
      requires Valid()
      reads this, replies, replies.nodes, reader, reader.Repr
    {
      Fate(Piped(), calls, script, StreamAfter(reader.View(), []), err)
    }

    /** The error of the reader becomes that of the context, and ends it. */
    method Fail()
      requires Alive() && InOrder([]) && Answered() && RegularActions(script)
      modifies this, replies, replies.nodes
      ensures !aborted && freed && Settled() && accepted == old(accepted) && fed == old(fed)
    {
      hide CallbackList.Valid, RunsOf, RegularActions, ParseStream, TakersOf, BytesOf, Inner, Outer, Scripts;
      err := true;
      DisconnectNow();
    }

    /** The body of the loop of redisProcessCallbacks, and what follows the loop
        when it ends there. */
    method ProcessOne() returns (again: bool)
      requires Valid()
      modifies this, replies, replies.nodes, reader.Repr
      ensures fed == old(fed) && Followed() && StaysOpen()
      ensures again ==> Valid() && Undisturbed() && FateNow() == old(FateNow())
      ensures again ==> |reader.View().unread| < |old(reader.View()).unread|
      ensures !again ==> Outcome() && EndsAs(old(FateNow()))
      ensures !again && !aborted && !freed ==> CaughtUp() && Undisturbed()
    {
      hide CallbackList.Valid, RunsOf, RegularActions, InOrder, ParseStream, Explains, Reader.Valid, After;
      hide StreamAfter, Fate, Answer, CaughtUp, NeverDisconnects;
      var ok, reply := NextReply();
      if !ok {
        FateOfFailure(Piped(), calls, script, StatusOf(reader.View()), err);
        Fail();
        return false;
      }
      if reply == null {
        NoReply();
        return false;
      }
      FateStep(Piped(), calls, script, reply.tree, StreamAfter(reader.View(), []), err);
      AnswerKeepsOpen(Piped(), calls, script, reply.tree);
      again := Dispatch(reply);
    }

    /** redisProcessCallbacks. How it ends is known before: it follows from the
        waiting callbacks, the replies that are ready and what the callbacks do. */
    method ProcessCallbacks()
      requires Valid()
      modifies this, replies, replies.nodes, reader.Repr
      ensures Outcome() && fed == old(fed) && Followed() && StaysOpen()
      ensures EndsAs(old(FateNow()))
      ensures !aborted && !freed ==> CaughtUp() && Undisturbed()
    {
      hide InOrder, Answered, Separate, Reader.Valid, Explains, RegularActions;
      hide Outcome, FateNow, EndsAs, CaughtUp, NeverDisconnects;
      var again := true;
      while again
        invariant fed == old(fed) && Followed() && StaysOpen()
        invariant again ==> Valid() && Undisturbed() && FateNow() == old(FateNow())
        invariant !again ==> Outcome() && EndsAs(old(FateNow()))
        invariant !again && !aborted && !freed ==> CaughtUp() && Undisturbed()
        decreases if again then 1 + |reader.View().unread| else 0
      {
        again := ProcessOne();
      }
    }

    /** redisBufferRead: new bytes go to the reader. */
    method BufferRead(input: ReadResult) returns (ok: bool)
      requires Valid()
      requires input.Data? && reader.err == None ==> reader.len + |input.chunk| < INT_LIMIT
      modifies `err, `fed, reader.Repr
      ensures Valid() && fresh(reader.Repr - old(reader.Repr))
      ensures reader.len <= old(reader.len) + SizeOf(input)
      ensures ok == (!old(err) && (input.ReadAgain? || (input.Data? && old(reader.View()).err == None)))
      ensures err == (old(err) || !ok)
      ensures if input.Data? && !old(err) then FeedSpec(old(reader.View()), input.chunk, reader.View())
              else reader.View() == old(reader.View())
      ensures fed == old(fed) + if input.Data? && !old(err) then input.chunk else []
    {
      hide Explains, Reader.Valid, RegularActions, InOrder, ParseStream, RunsOf, Inner, Scripts;
      assert fed + [] == fed;
      if err {
        return false;
      }
      match input {
        case ReadAgain =>
          ok := true;
        case Eof =>
          err, ok := true, false;
        case ReadFailed =>
          err, ok := true, false;
        case Data(chunk) =>
          ghost var v := reader.View();
          ok := reader.Feed(chunk);
          FeedExplains(fed, got, v, chunk, reader.View());
          fed := fed + chunk;
          ReadSoFar(fed, got, reader.View());
          if !ok {
            err := true;
          }
      }
    }

    ghost function Wire(): Socket
      reads this
    {
      Socket(connected, err, fed)
    }

    /** __redisAsyncHandleConnect */
    method HandleConnect(answer: ConnectResult) returns (ok: bool)
      requires Valid() && !connected
      modifies this, replies, replies.nodes
      ensures ok == (answer != Refused) && !aborted && fed == old(fed) && accepted == old(accepted)
      ensures ok ==> Valid() && Wire() == Connect(old(Wire()), answer)
      ensures ok ==> connected == (answer == Established) && err == (old(err) || answer == InProgress)
      ensures ok ==> unchanged(`obuf, `calls, `accepted, `sent, `delivered, `ran, `got, `disconnecting, `freeing)
      ensures ok ==> unchanged(replies) && unchanged(replies.nodes)
      ensures !ok ==> Released() && Settled()
    {
      hide Explains, Reader.Valid, RegularActions, ParseStream, RunsOf, CallbackList.Valid;
      hide TakersOf, BytesOf, Inner, Scripts;
      if answer != Established {
        err := true;
        if answer == InProgress {
          return true;
        }
        DisconnectNow();
        return false;
      }
      connected := true;
      ok := true;
    }

    /** How a read event will end: this depends on the connection, on what is read,
        and on the replies that are complete then. */
    ghost function EndOfRead(answer: ConnectResult, input: ReadResult): End
      requires Valid()
      reads this, replies, replies.nodes, reader, reader.Repr
    {
      var c := Connect(Wire(), answer);
      if !c.connected then if answer == InProgress then Lives(Piped(), calls) else Freed
      else if c.err || input.Eof? || input.ReadFailed? || (input.Data? && reader.View().err.Some?) then Freed
      else Fate(Piped(), calls, script, StreamAfter(reader.View(), if input.Data? then input.chunk else []), false)
    }

    /** redisAsyncHandleRead */
    method HandleRead(answer: ConnectResult, input: ReadResult)
      requires Valid()
      requires input.Data? && reader.err == None ==> reader.len + |input.chunk| < INT_LIMIT
      modifies this, replies, replies.nodes, reader.Repr
      ensures (Outcome() || (Valid() && !connected)) && Followed() && StaysOpen()
      ensures EndsAs(old(EndOfRead(answer, input)))
      ensures old(connected) && (old(err) || input.Eof? || input.ReadFailed?) ==> Released()
      ensures fed == Receive(old(Wire()), answer, input).fed
      ensures !aborted && !freed ==>
                && Wire() == Receive(old(Wire()), answer, input) && sent == old(sent) && Grown(SizeOf(input))
                && if connected then CaughtUp() else got == old(got)
    {
      hide Explains, Reader.Valid, RegularActions, InOrder, ParseStream, RunsOf, CallbackList.Valid;
      hide StreamAfter, Fate, CaughtUp, NeverDisconnects, BytesOf, Inner, Outer, Scripts;
      if !connected {
        var ok := HandleConnect(answer);
        if !ok || !connected {
          return;
        }
      }
      HandleInput(input);
    }

    /** The part of redisAsyncHandleRead for a connected context. */
    method HandleInput(input: ReadResult)
      requires Valid() && connected
      requires input.Data? && reader.err == None ==> reader.len + |input.chunk| < INT_LIMIT
      modifies this, replies, replies.nodes, reader.Repr
      ensures Outcome() && Followed() && StaysOpen()
      ensures EndsAs(old(EndOfRead(Established, input)))
      ensures old(err) || input.Eof? || input.ReadFailed? ==> Released()
      ensures fed == Receive(old(Wire()), Established, input).fed
      ensures !aborted && !freed ==>
                && Wire() == Receive(old(Wire()), Established, input)
                && sent == old(sent) && Grown(SizeOf(input)) && CaughtUp()
    {
      hide Explains, Reader.Valid, RegularActions, InOrder, ParseStream, RunsOf, CallbackList.Valid;
      hide StreamAfter, Fate, CaughtUp, NeverDisconnects, BytesOf, Inner, Outer, Scripts;
      ghost var v := reader.View();
      var ok := BufferRead(input);
      if !ok {
        DisconnectNow();
        return;
      }
      if input.Data? {
        FeedMovesBytes(v, input.chunk, []);
        assert input.chunk + [] == input.chunk;
      }
      ProcessCallbacks();
    }

    /** redisAsyncHandleWrite */
    method HandleWrite(answer: ConnectResult, output: Outputs.WriteResult)
      requires Valid() && (output.Wrote? ==> output.n <= |obuf|)
      modifies this, replies, replies.nodes
      ensures !aborted && (Settled() || Valid()) && accepted == old(accepted) && fed == old(fed)
      ensures var c := Connect(old(Wire()), answer);
              freed == if c.connected then c.err || (old(obuf) != [] && output == Outputs.Failed) else answer == Refused
      ensures freed ==> Released()
      ensures !freed ==>
                && Wire() == Connect(old(Wire()), answer)
                && obuf == (if connected && output.Wrote? then old(obuf)[output.n..] else old(obuf))
                && sent == (if connected && output.Wrote? then old(sent) + old(obuf)[..output.n] else old(sent))
                && SameQueue() && unchanged(`disconnecting, `freeing, `got, `calls)
                && Piped() == old(Piped()).(obuf := obuf)
    {
      hide Explains, Reader.Valid, RegularActions, ParseStream, RunsOf, CallbackList.Valid;
      if !connected {
        var ok := HandleConnect(answer);
        if !ok || !connected {
          return;
        }
      }
      HandleOutput(output);
    }

    /** The part of redisAsyncHandleWrite for a connected context. */
    method HandleOutput(output: Outputs.WriteResult)
      requires Valid() && connected && (output.Wrote? ==> output.n <= |obuf|)
      modifies this, replies, replies.nodes
      ensures !aborted && (Settled() || Valid()) && accepted == old(accepted) && fed == old(fed)
      ensures freed == (old(err) || (old(obuf) != [] && output == Outputs.Failed)) && (freed ==> Released())
      ensures !freed ==> obuf == if output.Wrote? then old(obuf)[output.n..] else old(obuf)
      ensures !freed ==> sent == if output.Wrote? then old(sent) + old(obuf)[..output.n] else old(sent)
      ensures !freed ==> SameQueue() && unchanged(`connected, `disconnecting, `freeing, `err, `got, `calls)
    {
      hide Explains, Reader.Valid, RegularActions, ParseStream, RunsOf, CallbackList.Valid;
      hide TakersOf, BytesOf, Inner, Outer, Scripts;
      assert obuf[0..] == obuf && sent + obuf[..0] == sent;
      if err {
        DisconnectNow();
        return;
      }
      if |obuf| > 0 {
        match output {
          case TryAgain =>
          case Failed =>
            err := true;
            DisconnectNow();
          case Wrote(n) =>
            assert sent + obuf[..n] + obuf[n..] == sent + obuf;
            sent := sent + obuf[..n];
            obuf := obuf[n..];
        }
      }
    }

    /** What a released context has done: the k-th reply of the stream went to the
        callback of the k-th accepted command, those that were outstanding were
        called with NULL, every accepted callback exactly once and in order. */
    lemma Settlement()
      requires Settled()
      ensures |delivered| == |accepted| && |got| <= |accepted| && |got| <= |ParseStream(fed).replies|
      ensures forall k :: 0 <= k < |accepted| ==>
                delivered[k] == Delivery(accepted[k].cb, if k < |got| then Some(ParseStream(fed).replies[k]) else None)
      ensures ran == RunsOf(delivered) && CallbacksOf(ran) == WithFunction(TakersOf(accepted))
    {
      hide ParseStream, RunsOf, WithFunction;
      assert CallbacksOf(delivered) + [] + [] == CallbacksOf(delivered);
      RunsFollow(delivered);
    }

    lemma EmptyQueue()
      requires replies.Valid()
      ensures replies.head == null <==> replies.Queue() == []
    {
    }
  }

  /** A reader that waits has handed out everything there is. */
  lemma AllRead(fed: ByteString, got: seq<Reply>, v: View)
    requires WellFormed(v) && v.err == None && Explains(fed, got, v) && After(v, []) == More
    ensures ParseStream(fed) == Stream(got, Waiting)
  {
    assert fed + [] == fed;
    assert ParseStream(fed + []) == Prepend(got, StreamAfter(v, []));
  }

  lemma ReadSoFar(fed: ByteString, got: seq<Reply>, v: View)
    requires WellFormed(v) && Explains(fed, got, v)
    ensures got <= ParseStream(fed).replies
  {
    assert fed + [] == fed;
    assert ParseStream(fed + []) == Prepend(got, StreamAfter(v, []));
  }
}
