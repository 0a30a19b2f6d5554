/** What the formatter prints, and what a server sends, the reader reads back. */
module RoundTrip {
  import opened Bytes
  import opened Numbers
  import opened Format
  import opened Resp
  import opened Streams
  import opened Encodings

  // ---------- Commands ----------

  /** The reply that a server echoing a command would send. */
  function Echo(args: seq<ByteString>): Reply {
    ArrayReply(|args|, AsStrings(args))
  }

  function AsStrings(args: seq<ByteString>): (r: seq<Reply>)
    ensures |r| == |args|
  {
    Map((a: ByteString) => StringReply(a), args)
  }

  /** The number of arguments is an int, their sizes fit 64-bit numbers. */
  predicate Printable(args: seq<ByteString>) {
    |args| < INT_LIMIT && forall i :: 0 <= i < |args| ==> |args[i]| < TWO63
  }

  ghost predicate AllPrintable(cmds: seq<seq<ByteString>>) {
    forall i :: 0 <= i < |cmds| ==> Printable(cmds[i])
  }

  function AsBulks(args: seq<ByteString>): (ws: seq<Wire>)
    ensures |ws| == |args|
  {
    Map((a: ByteString) => Wire.Bulk(a, 13, 10), args)
  }

  lemma {:induction false} BulksFront(args: seq<ByteString>)
    requires args != []
    ensures Bulks(args) == Format.Bulk(args[0]) + Bulks(args[1..])
    decreases |args|
  {
    hide Format.Bulk;
    if |args| == 1 {
      assert Bulks([]) == [];
      assert args[..0] == [] && args[1..] == [];
      assert Format.Bulk(args[0]) + [] == Format.Bulk(args[0]) == [] + Format.Bulk(args[0]);
    } else {
      var n := |args| - 1;
      BulksFront(args[..n]);
      assert args[..n][1..] == args[1..][..n - 1];
    }
  }

  lemma {:induction false} BulksEncoded(args: seq<ByteString>, room: nat)
    requires forall i :: 0 <= i < |args| ==> |args[i]| < TWO63
    ensures Bulks(args) == EncodeAll(AsBulks(args)) && Meanings(AsBulks(args)) == AsStrings(args)
    ensures AllSent(AsBulks(args), room)
    decreases |args|
  {
    if args == [] {
    } else {
      BulksFront(args);
      BulksEncoded(args[1..], room);
      assert AsBulks(args)[1..] == AsBulks(args[1..]);
      assert AsStrings(args) == [StringReply(args[0])] + AsStrings(args[1..]);
    }
  }

  /** A command is an array that holds a bulk string for each argument. */
  lemma CommandIsEncoding(args: seq<ByteString>)
    requires Printable(args)
    ensures Command(args) == Encode(Array(AsBulks(args)))
    ensures Meaning(Array(AsBulks(args))) == Echo(args) && IsSent(Array(AsBulks(args)), 8)
  {
    hide Decimal, Bulks;
    BulksEncoded(args, 7);
  }

  /** Reading a printed command, whatever follows it, gives one array that holds
      exactly the arguments, and consumes exactly the command. */
  lemma CommandParses(args: seq<ByteString>, rest: ByteString)
    requires Printable(args)
    ensures ParseItem(Command(args) + rest, 0) == Done(Echo(args), rest)
  {
    CommandIsEncoding(args);
    EncodingParses(Array(AsBulks(args)), 0, rest);
  }

  function Commands(cmds: seq<seq<ByteString>>): ByteString {
    if cmds == [] then [] else Command(cmds[0]) + Commands(cmds[1..])
  }

  function Echoes(cmds: seq<seq<ByteString>>): (r: seq<Reply>)
    ensures |r| == |cmds|
    ensures forall i :: 0 <= i < |cmds| ==> r[i] == Echo(cmds[i])
  {
    seq(|cmds|, i requires 0 <= i < |cmds| => Echo(cmds[i]))
  }

  lemma EchoFirst(cmds: seq<seq<ByteString>>, s: Stream)
    requires cmds != []
    ensures Prepend([Echo(cmds[0])], Prepend(Echoes(cmds[1..]), s)) == Prepend(Echoes(cmds), s)
  {
    hide Echo;
    assert [Echo(cmds[0])] + Echoes(cmds[1..]) == Echoes(cmds);
    assert [Echo(cmds[0])] + (Echoes(cmds[1..]) + s.replies) == Echoes(cmds) + s.replies;
  }

  /** A pipeline of commands is read back command by command. */
  lemma {:induction false} PipelineParses(cmds: seq<seq<ByteString>>, rest: ByteString)
    requires AllPrintable(cmds)
    ensures ParseStream(Commands(cmds) + rest) == Prepend(Echoes(cmds), ParseStream(rest))
  {
    hide Command, Echo, Echoes, Printable, ParseItem;
    if cmds == [] {
      assert Commands(cmds) + rest == rest;
    } else {
      var later := Commands(cmds[1..]) + rest;
      assert Commands(cmds) + rest == Command(cmds[0]) + later;
      assert Printable(cmds[0]);
      CommandParses(cmds[0], later);
      PipelineParses(cmds[1..], rest);
      EchoFirst(cmds, ParseStream(rest));
    }
  }

  // ---------- Texts that end between two replies ----------

  /** The text holds exactly these replies, whatever follows it. */
  ghost predicate Holds(text: ByteString, replies: seq<Reply>) {
    forall f: ByteString :: ParseStream(text + f) == Prepend(replies, ParseStream(f))
  }

  /** An empty simple string, used to tell reader states apart. */
  const PROBE: ByteString := [PLUS, CR, LF]

  lemma {:induction false} PlugGivesArray(frames: Frames, r: Reply, s: ByteString)
    requires frames != [] && Plug(frames, r, s).Done?
    ensures Plug(frames, r, s).reply.ArrayReply?
    decreases |frames|
  {
    var outer, top := frames[..|frames| - 1], frames[|frames| - 1];
    var done := top.done + [r];
    if |done| == top.count {
      if outer != [] {
        PlugGivesArray(outer, ArrayReply(top.count, done), s);
      }
    } else {
      var o := ParseElements(top.count, done, s, |frames|);
      ElementsGiveArray(top.count, done, s, |frames|);
      if outer != [] {
        PlugGivesArray(outer, o.reply, o.rest);
      }
    }
  }

  lemma {:induction false} ElementsGiveArray(count: nat, done: seq<Reply>, s: ByteString, depth: nat)
    requires |done| < count
    ensures var o := ParseElements(count, done, s, depth); o.Done? ==> o.reply.ArrayReply?
    decreases |s|
  {
    var o := ParseItem(s, depth);
    if o.Done? && |done| + 1 < count {
      ElementsGiveArray(count, done + [o.reply], o.rest, depth);
    }
  }

  /** The only state that waits for input and reads the probe as the probe is the
      initial one: nothing open, no type byte consumed, no byte left over. */
  lemma ProbeFindsInitial(v: View)
    requires WellFormed(v) && v.err == None && After(v, []) == More
    requires After(v, PROBE).Done? && After(v, PROBE).reply == StatusReply([])
    ensures v == INITIAL
  {
    var s := v.unread + PROBE;
    assert v.unread + [] == v.unread;
    if v.frames != [] {
      var o := if v.ty.None? then ParseItem(s, |v.frames|) else ParseTyped(v.ty.value, s, |v.frames|);
      PlugGivesArray(v.frames, o.reply, o.rest);
    } else if v.ty.Some? {
      StatusLine(v.ty.value, v.unread);
    } else if v.unread != [] {
      assert s[0] == v.unread[0] && s[1..] == v.unread[1..] + PROBE;
      StatusLine(TypeOf(v.unread[0]).value, v.unread[1..]);
    }
  }

  lemma ArrayGivesNoStatus(count: int, s: ByteString)
    ensures var o := ParseArray(count, s, 0); o.Done? ==> !o.reply.StatusReply?
  {
    hide ToInt, ToSize;
    if count > 0 && ToInt(count) > 0 {
      ElementsGiveArray(ToInt(count), [], s, 1);
    }
  }

  lemma StatusLine(t: int, line: ByteString)
    requires IsReadType(t)
    requires var o := ParseTyped(t, line + PROBE, 0); o.Done? && o.reply == StatusReply([])
    ensures !ParseTyped(t, line, 0).More?
  {
    var s := line + PROBE;
    var n := Newline(s).value;
    NewlineFound(s);
    if t == REPLY_ARRAY {
      ArrayGivesNoStatus(ReadNumber(s[..n]), s[n + 2..]);
    }
    assert t == REPLY_STATUS && s[..n] == [];
    assert n == |s[..n]| == 0;
    assert s[|line|] == PLUS;
    NewlineUnique(line, 0);
  }

  /** What a state explains by the text alone, it has yet to read. */
  lemma TailOf(text: ByteString, replies: seq<Reply>, v: View, f: ByteString)
    requires Holds(text, replies)
    requires WellFormed(v) && Explains(text, replies, v)
    ensures StreamAfter(v, f) == ParseStream(f)
  {
    hide ParseStream, StreamAfter, Prepend, WellFormed;
    assert ParseStream(text + f) == Prepend(replies, ParseStream(f));
    SameTail(replies, StreamAfter(v, f), ParseStream(f));
  }

  /** A state that has all of the replies of the text behind it. */
  lemma NothingLeft(text: ByteString, replies: seq<Reply>, v: View)
    requires Holds(text, replies)
    requires WellFormed(v) && v.err == None && Explains(text, replies, v)
    ensures v == INITIAL
  {
    hide ParseStream, ParseItem, After, Holds, Explains, WellFormed;
    TailOf(text, replies, v, []);
    TailOf(text, replies, v, PROBE);
    EmptyStream();
    ProbeStream();
    assert StreamAfter(v, PROBE).replies[0] == StatusReply([]);
    ProbeFindsInitial(v);
  }

  /** The round trip through any cuts: when the reader has been fed the text, it has
      handed out exactly its replies, in order, and is back in its initial state
      with every byte consumed. */
  lemma TextRoundTrip(text: ByteString, replies: seq<Reply>, events: seq<Event>, states: seq<View>)
    requires Holds(text, replies) && IsRun(events, states) && FedBy(events) == text
    requires events != [] && events[|events| - 1] == Get(None)
    ensures GotBy(events) == replies && states[|events|] == INITIAL
  {
    hide ParseStream, Explains, Step, FedBy, GotBy, WellFormed;
    assert ParseStream(text + []) == Prepend(replies, ParseStream([]));
    assert text + [] == text && replies + [] == replies;
    EmptyStream();
    ChunkIndependence(events, states);
    RunExplained(events, states);
    NothingLeft(text, replies, states[|events|]);
  }

  lemma PipelineHolds(cmds: seq<seq<ByteString>>)
    requires AllPrintable(cmds)
    ensures Holds(Commands(cmds), Echoes(cmds))
  {
    hide ParseStream, Commands, Echoes, AllPrintable;
    forall f: ByteString
      ensures ParseStream(Commands(cmds) + f) == Prepend(Echoes(cmds), ParseStream(f))
    {
      PipelineParses(cmds, f);
    }
  }

  /** A printed pipeline comes back as its argument lists. */
  lemma PipelineRoundTrip(cmds: seq<seq<ByteString>>, events: seq<Event>, states: seq<View>)
    requires AllPrintable(cmds)
    requires IsRun(events, states) && FedBy(events) == Commands(cmds)
    requires events != [] && events[|events| - 1] == Get(None)
    ensures GotBy(events) == Echoes(cmds) && states[|events|] == INITIAL
  {
    hide Commands, Echoes, AllPrintable, Step, FedBy, GotBy, Holds;
    PipelineHolds(cmds);
    TextRoundTrip(Commands(cmds), Echoes(cmds), events, states);
  }

  lemma RepliesHold(ws: seq<Wire>)
    requires AllSent(ws, 8)
    ensures Holds(EncodeAll(ws), Meanings(ws))
  {
    hide ParseStream, EncodeAll, Meanings;
    forall f: ByteString
      ensures ParseStream(EncodeAll(ws) + f) == Prepend(Meanings(ws), ParseStream(f))
    {
      StreamParses(ws, f);
    }
  }

  /** What a server sends comes back as what it means. */
  lemma RepliesRoundTrip(ws: seq<Wire>, events: seq<Event>, states: seq<View>)
    requires AllSent(ws, 8)
    requires IsRun(events, states) && FedBy(events) == EncodeAll(ws)
    requires events != [] && events[|events| - 1] == Get(None)
    ensures GotBy(events) == Meanings(ws) && states[|events|] == INITIAL
  {
    hide EncodeAll, Meanings, AllSent, Step, FedBy, GotBy, Holds;
    RepliesHold(ws);
    TextRoundTrip(EncodeAll(ws), Meanings(ws), events, states);
  }

  lemma SameTail(got: seq<Reply>, s: Stream, t: Stream)
    requires Prepend(got, s) == Prepend(got, t)
    ensures s == t
  {
    assert (got + s.replies)[|got|..] == s.replies && (got + t.replies)[|got|..] == t.replies;
  }

  lemma EmptyStream()
    ensures ParseStream([]) == Stream([], Waiting)
  {
  }

  lemma ProbeStream()
    ensures ParseStream(PROBE).replies == [StatusReply([])]
  {
    var line := PROBE[1..];
    assert NewlineAt(line, 0);
    NewlineUnique(line, 0);
    assert ParseItem(PROBE, 0) == Done(StatusReply([]), []);
  }
}
