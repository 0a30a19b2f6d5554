/**
  Readers in use. Whatever calls are made on a reader object, they are a run in the
  sense of Streams, so its theorems are about the objects.
 */
module ReaderRuns {
  import opened Bytes
  import opened Resp
  import opened Streams
  import opened ReplyObjects
  import opened Readers
  import opened Encodings
  import opened Format
  import opened RoundTrip

  /** A call of redisReaderFeed or of redisReaderGetReply. */
  datatype Call = Offer(chunk: ByteString) | Ask

  function Offered(calls: seq<Call>): ByteString {
    if calls == [] then []
    else
      var last := calls[|calls| - 1];
      Offered(calls[..|calls| - 1]) + if last.Offer? then last.chunk else []
  }

  function Concat(chunks: seq<ByteString>): ByteString {
    if chunks == [] then [] else Concat(chunks[..|chunks| - 1]) + chunks[|chunks| - 1]
  }

  /** What has happened so far, and the states in between. */
  datatype Trace = Trace(events: seq<Event>, states: seq<View>)

  ghost function Last(t: Trace): View
    requires t.states != []
  {
    t.states[|t.states| - 1]
  }

  ghost function Extended(t: Trace, e: Event, v: View): Trace {
    Trace(t.events + [e], t.states + [v])
  }

  lemma RunGrows(t: Trace, e: Event, v: View)
    requires IsRun(t.events, t.states) && Step(Last(t), e, v)
    ensures var t' := Extended(t, e, v); IsRun(t'.events, t'.states) && Last(t') == v
    ensures FedBy(t.events + [e]) == FedBy(t.events) + if e.Feed? then e.chunk else []
    ensures GotBy(t.events + [e]) == GotBy(t.events) + if e.Get? then OutputOf(e.out) else []
  {
    hide Step;
    assert (t.events + [e])[..|t.events|] == t.events;
    var t' := Extended(t, e, v);
    forall i | 0 <= i < |t'.events|
      ensures Step(t'.states[i], t'.events[i], t'.states[i + 1])
    {
      assert i < |t.events| ==> Step(t.states[i], t.events[i], t.states[i + 1]);
    }
  }

  /** The reply object is complete, stands for r, and is not touched any more. */
  ghost predicate Handed(reader: Reader, o: ReplyObject, r: Reply)
    reads reader, o, o.owned
  {
    o.Complete() && o in o.owned && o.tree == r && o.owned !! reader.Repr
  }

  ghost predicate AllHanded(reader: Reader, got: seq<ReplyObject>, replies: seq<Reply>)
    reads reader, got, set k, x | 0 <= k < |got| && x in got[k].owned :: x
  {
    |got| == |replies| && forall k :: 0 <= k < |got| ==> Handed(reader, got[k], replies[k])
  }

  /** The reader is in the last state of the trace. */
  ghost predicate Tracks(reader: Reader, t: Trace)
    reads reader, reader.Repr
  {
    reader.Valid() && IsRun(t.events, t.states) && Last(t) == reader.View()
  }

  method Start() returns (reader: Reader, ghost t: Trace)
    ensures fresh(reader) && fresh(reader.Repr) && reader.len == 0
    ensures Tracks(reader, t) && t.events == []
  {
    reader := new Reader();
    t := Trace([], [INITIAL]);
  }

  /** One more chunk. */
  method Feed(reader: Reader, chunk: ByteString, ghost t: Trace) returns (ghost t': Trace)
    requires Tracks(reader, t) && reader.len + |chunk| < INT_LIMIT
    modifies reader.Repr
    ensures Tracks(reader, t') && fresh(reader.Repr - old(reader.Repr)) && reader.len <= old(reader.len) + |chunk|
    ensures t'.events == t.events + [Event.Feed(chunk)]
    ensures FedBy(t'.events) == FedBy(t.events) + chunk && GotBy(t'.events) == GotBy(t.events)
  {
    hide Reader.Valid, IsRun, FeedSpec, WellFormed, FedBy, GotBy;
    ghost var v := reader.View();
    var ok := reader.Feed(chunk);
    ghost var e := Event.Feed(chunk);
    RunGrows(t, e, reader.View());
    t' := Extended(t, e, reader.View());
  }

  /** One more reply, if there is one. */
  method Get(reader: Reader, ghost t: Trace) returns (out: ReplyObject?, ghost t': Trace)
    requires Tracks(reader, t)
    modifies reader.Repr
    ensures Tracks(reader, t') && fresh(reader.Repr - old(reader.Repr)) && reader.len <= old(reader.len)
    ensures t'.events == t.events + [Event.Get(if out == null then None else Some(out.tree))]
    ensures FedBy(t'.events) == FedBy(t.events)
    ensures GotBy(t'.events) == GotBy(t.events) + if out == null then [] else [out.tree]
    ensures out != null ==> Handed(reader, out, out.tree)
    ensures |Last(t').unread| <= |Last(t).unread| - if out == null then 0 else 1
  {
    hide Reader.Valid, IsRun, FedBy, GotBy, Resume;
    ghost var v := reader.View();
    var ok;
    ok, out := reader.GetReply();
    ghost var e := Event.Get(if out == null then None else Some(out.tree));
    RunGrows(t, e, reader.View());
    t' := Extended(t, e, reader.View());
    if out != null {
      assert v.unread + [] == v.unread;
      ResumeConsumes(v.frames, v.ty, v.unread);
    }
  }

  /** The same, with the objects handed out before. */
  method FeedMore(reader: Reader, chunk: ByteString, ghost t: Trace, ghost got: seq<ReplyObject>)
    returns (ghost t': Trace)
    requires Tracks(reader, t) && reader.len + |chunk| < INT_LIMIT && AllHanded(reader, got, GotBy(t.events))
    modifies reader.Repr
    ensures Tracks(reader, t') && fresh(reader.Repr - old(reader.Repr)) && reader.len <= old(reader.len) + |chunk|
    ensures t'.events == t.events + [Event.Feed(chunk)] && FedBy(t'.events) == FedBy(t.events) + chunk
    ensures AllHanded(reader, got, GotBy(t'.events))
  {
    hide Tracks, FedBy, GotBy, ReplyObject.Complete;
    t' := Feed(reader, chunk, t);
    forall k | 0 <= k < |got|
      ensures Handed(reader, got[k], GotBy(t.events)[k])
    {
      assert old(Handed(reader, got[k], GotBy(t.events)[k]));
    }
  }

  method GetMore(reader: Reader, ghost t: Trace, got: seq<ReplyObject>)
    returns (got': seq<ReplyObject>, more: bool, ghost t': Trace)
    requires Tracks(reader, t) && AllHanded(reader, got, GotBy(t.events))
    modifies reader.Repr
    ensures Tracks(reader, t') && fresh(reader.Repr - old(reader.Repr)) && reader.len <= old(reader.len)
    ensures |t'.events| == |t.events| + 1 && t.events <= t'.events && t'.events[|t.events|].Get?
    ensures FedBy(t'.events) == FedBy(t.events) && AllHanded(reader, got', GotBy(t'.events))
    ensures |Last(t').unread| <= |Last(t).unread| - if more then 1 else 0
    ensures !more ==> t'.events[|t.events|] == Event.Get(None)
  {
    hide Tracks, FedBy, GotBy, ReplyObject.Complete;
    var out;
    out, t' := Get(reader, t);
    forall k | 0 <= k < |got|
      ensures Handed(reader, got[k], GotBy(t.events)[k])
    {
      assert old(Handed(reader, got[k], GotBy(t.events)[k]));
    }
    got', more := got, out != null;
    if out != null {
      got' := got + [out];
    }
  }

  /** Any sequence of calls on a new reader is a run, as long as less than 2^31
      bytes are fed; the objects handed out stand for the replies of the run. */
  method Drive(calls: seq<Call>)
    returns (reader: Reader, got: seq<ReplyObject>, ghost t: Trace)
    requires |Offered(calls)| < INT_LIMIT
    ensures Tracks(reader, t) && FedBy(t.events) == Offered(calls) && AllHanded(reader, got, GotBy(t.events))
    ensures |t.events| == |calls|
    ensures forall i :: 0 <= i < |calls| ==>
              if calls[i].Offer? then t.events[i] == Event.Feed(calls[i].chunk) else t.events[i].Get?
  {
    hide Tracks, FedBy, GotBy, ReplyObject.Complete;
    reader, t := Start();
    got := [];
    NothingYet();
    for i := 0 to |calls|
      invariant fresh(reader) && fresh(reader.Repr)
      invariant Tracks(reader, t) && FedBy(t.events) == Offered(calls[..i])
      invariant reader.len <= |Offered(calls[..i])| && AllHanded(reader, got, GotBy(t.events))
      invariant |t.events| == i
      invariant forall k :: 0 <= k < i ==>
                  if calls[k].Offer? then t.events[k] == Event.Feed(calls[k].chunk) else t.events[k].Get?
    {
      OfferedPrefix(calls, i);
      match calls[i]
      case Offer(chunk) =>
        t := FeedMore(reader, chunk, t, got);
      case Ask =>
        var more;
        got, more, t := GetMore(reader, t, got);
    }
    assert calls[..|calls|] == calls;
  }

  /** Asks until there is no reply left. */
  method Drain(reader: Reader, ghost t: Trace, got: seq<ReplyObject>)
    returns (got': seq<ReplyObject>, ghost t': Trace)
    requires Tracks(reader, t) && AllHanded(reader, got, GotBy(t.events))
    modifies reader.Repr
    ensures Tracks(reader, t') && fresh(reader.Repr - old(reader.Repr)) && reader.len <= old(reader.len)
    ensures t'.events != [] && t'.events[|t'.events| - 1] == Event.Get(None)
    ensures FedBy(t'.events) == FedBy(t.events) && AllHanded(reader, got', GotBy(t'.events))
  {
    hide Reader.Valid, FedBy, GotBy, AllHanded;
    var more;
    got', more, t' := GetMore(reader, t, got);
    while more
      invariant Tracks(reader, t') && fresh(reader.Repr - old(reader.Repr)) && reader.len <= old(reader.len)
      invariant t'.events != [] && (!more ==> t'.events[|t'.events| - 1] == Event.Get(None))
      invariant FedBy(t'.events) == FedBy(t.events) && AllHanded(reader, got', GotBy(t'.events))
      decreases |Last(t').unread|, more
    {
      got', more, t' := GetMore(reader, t', got');
    }
  }

  /** The loop of a client: feeds the chunks one after the other, and takes all
      replies after each of them. In the end it has the replies and the status of
      the whole stream. */
  method ReadAll(chunks: seq<ByteString>)
    returns (reader: Reader, got: seq<ReplyObject>, ghost t: Trace)
    requires |Concat(chunks)| < INT_LIMIT
    ensures Tracks(reader, t) && FedBy(t.events) == Concat(chunks) && AllHanded(reader, got, GotBy(t.events))
    ensures t.events != [] && t.events[|t.events| - 1] == Event.Get(None)
    ensures ParseStream(Concat(chunks)) == Stream(GotBy(t.events), StatusOf(reader.View()))
  {
    hide FedBy, GotBy, AllHanded, ParseStream, Step, Reader.Valid;
    reader, t := Start();
    NothingYet();
    assert AllHanded(reader, [], GotBy(t.events)) by { NobodyHanded(reader); }
    got, t := Drain(reader, t, []);
    for i := 0 to |chunks|
      invariant fresh(reader) && fresh(reader.Repr)
      invariant Tracks(reader, t) && FedBy(t.events) == Concat(chunks[..i])
      invariant reader.len <= |Concat(chunks[..i])| && AllHanded(reader, got, GotBy(t.events))
      invariant t.events != [] && t.events[|t.events| - 1] == Event.Get(None)
    {
      ConcatPrefix(chunks, i);
      t := FeedMore(reader, chunks[i], t, got);
      got, t := Drain(reader, t, got);
    }
    assert chunks[..|chunks|] == chunks;
    ChunkIndependence(t.events, t.states);
  }

  lemma NobodyHanded(reader: Reader)
    ensures AllHanded(reader, [], [])
  {
  }

  lemma {:induction false} ConcatPrefix(chunks: seq<ByteString>, i: nat)
    requires i < |chunks|
    ensures Concat(chunks[..i + 1]) == Concat(chunks[..i]) + chunks[i]
    ensures |Concat(chunks[..i + 1])| <= |Concat(chunks)|
    decreases |chunks|
  {
    assert chunks[..i + 1][..i] == chunks[..i];
    if i + 1 == |chunks| {
      assert chunks[..i + 1] == chunks;
    } else {
      var front := chunks[..|chunks| - 1];
      ConcatPrefix(front, i);
      assert front[..i + 1] == chunks[..i + 1];
    }
  }

  /** A text that ends between two replies, in any chunks. */
  method ReadText(ghost text: ByteString, ghost replies: seq<Reply>, chunks: seq<ByteString>)
    returns (reader: Reader, got: seq<ReplyObject>)
    requires Holds(text, replies) && Concat(chunks) == text && |text| < INT_LIMIT
    ensures reader.Valid() && reader.View() == INITIAL && AllHanded(reader, got, replies)
  {
    hide FedBy, GotBy, AllHanded, Holds, ParseStream, Step, Reader.Valid;
    ghost var t;
    reader, got, t := ReadAll(chunks);
    TextRoundTrip(text, replies, t.events, t.states);
  }

  /** Printed commands come back from a reader object in any chunks: one complete
      array object for each command, and the reader is as good as new. */
  method ReadCommands(ghost cmds: seq<seq<ByteString>>, chunks: seq<ByteString>)
    returns (reader: Reader, got: seq<ReplyObject>)
    requires AllPrintable(cmds) && Concat(chunks) == Commands(cmds) && |Commands(cmds)| < INT_LIMIT
    ensures reader.Valid() && reader.View() == INITIAL && AllHanded(reader, got, Echoes(cmds))
  {
    PipelineHolds(cmds);
    reader, got := ReadText(Commands(cmds), Echoes(cmds), chunks);
  }

  /** What a server sends comes back in any chunks: one complete object for each
      reply, of the right type, and the reader is as good as new. */
  method ReadReplies(ghost ws: seq<Wire>, chunks: seq<ByteString>)
    returns (reader: Reader, got: seq<ReplyObject>)
    requires AllSent(ws, 8) && Concat(chunks) == EncodeAll(ws) && |EncodeAll(ws)| < INT_LIMIT
    ensures reader.Valid() && reader.View() == INITIAL && AllHanded(reader, got, Meanings(ws))
    ensures |got| == |ws| && forall k :: 0 <= k < |ws| ==> got[k].kind == Code(ws[k])
  {
    hide Reader.Valid, AllSent, EncodeAll, Code, ReplyObject.Complete;
    RepliesHold(ws);
    reader, got := ReadText(EncodeAll(ws), Meanings(ws), chunks);
    forall k | 0 <= k < |ws|
      ensures got[k].kind == Code(ws[k])
    {
      assert Handed(reader, got[k], Meanings(ws)[k]);
      MeaningAt(ws, k);
      KindOfMeaning(got[k], ws[k]);
    }
  }

  lemma KindOfMeaning(o: ReplyObject, w: Wire)
    requires o.Complete() && o.tree == Meaning(w)
    ensures o.kind == Code(w)
  {
  }

  /** From the strings handed to the formatter to the reply object of a server that
      echoes the command, in any chunks: the object holds exactly the strings. */
  method EchoCommand(argv: seq<ByteString>, argvlen: Option<seq<nat>>, cut: ByteString -> seq<ByteString>)
    returns (reader: Reader, reply: ReplyObject)
    requires Printable(argv) && |Command(argv)| < INT_LIMIT
    requires argvlen.Some? ==>
               |argvlen.value| == |argv| && forall j :: 0 <= j < |argv| ==> argvlen.value[j] == |argv[j]|
    requires argvlen.None? ==> forall j :: 0 <= j < |argv| ==> 0 !in argv[j]
    requires forall s :: Concat(cut(s)) == s
    ensures reader.Valid() && reader.View() == INITIAL
    ensures reply.kind == 2 && reply.elements == |argv| <= |reply.element|
    ensures forall j :: 0 <= j < |argv| ==>
              var o := reply.element[j]; o != null && o.kind == 1 && o.str == argv[j]
  {
    hide Reader.Valid, Printable, Command, ReplyObject.Complete;
    var cmd, totlen;
    ghost var args;
    cmd, totlen, args := FormatCommandArgv(argv, argvlen);
    var text := cmd[..totlen];
    assert Commands([args]) == text by { OneCommand(args); }
    var got;
    reader, got := ReadCommands([args], cut(text));
    assert Handed(reader, got[0], Echoes([args])[0]);
    reply := got[0];
    EchoObject(reply, args);
  }

  lemma OneCommand(args: seq<ByteString>)
    ensures Commands([args]) == Command(args)
  {
    hide Command;
    assert [args][1..] == [];
    assert Command(args) + [] == Command(args);
  }

  lemma StringObject(o: ReplyObject, text: ByteString)
    requires o.Complete() && o.tree == StringReply(text)
    ensures o.kind == 1 && o.str == text
  {
  }

  lemma EchoObject(o: ReplyObject, args: seq<ByteString>)
    requires o.Complete() && o.tree == Echo(args)
    ensures o.kind == 2 && o.elements == |args| <= |o.element|
    ensures forall j :: 0 <= j < |args| ==> var e := o.element[j]; e != null && e.kind == 1 && e.str == args[j]
  {
    forall j | 0 <= j < |args|
      ensures var e := o.element[j]; e != null && e.kind == 1 && e.str == args[j]
    {
      assert o.HasChild(j, AsStrings(args)[j]);
      StringObject(o.element[j], args[j]);
    }
  }

  lemma NothingYet()
    ensures FedBy([]) == [] && GotBy([]) == []
  {
  }

  lemma {:induction false} OfferedPrefix(calls: seq<Call>, i: nat)
    requires i < |calls|
    ensures Offered(calls[..i + 1]) == Offered(calls[..i]) + if calls[i].Offer? then calls[i].chunk else []
    ensures |Offered(calls[..i + 1])| <= |Offered(calls)|
    decreases |calls|
  {
    assert calls[..i + 1][..i] == calls[..i];
    if i + 1 == |calls| {
      assert calls[..i + 1] == calls;
    } else {
      var front := calls[..|calls| - 1];
      OfferedPrefix(front, i);
      assert front[..i + 1] == calls[..i + 1];
    }
  }
}
