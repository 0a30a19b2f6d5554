/**
  Runs of the reader. A run is any interleaving of feeding chunks and asking for
  replies. Whatever the cuts, the replies handed out and the final status are
  those of the grammar on the whole stream.
 */
module Streams {
  import opened Bytes
  import opened Numbers
  import opened Resp

  /** What a reader state amounts to: the open arrays, the type of the item
      being read if its type byte is consumed, the unread bytes, the error. */
  datatype View = View(frames: Frames, ty: Option<int>, unread: ByteString, err: Option<ParseError>)

  ghost predicate WellFormed(v: View) {
    && |v.frames| <= MAX_DEPTH
    && (v.ty.Some? ==> IsReadType(v.ty.value) && !(v.ty.value == REPLY_ARRAY && |v.frames| == MAX_DEPTH))
    && (v.err.Some? ==> v.frames == [] && v.ty == None && v.unread == [])
  }

  const INITIAL := View([], None, [], None)

  /** What the current reply turns out to be once the bytes f have followed. */
  ghost function After(v: View, f: ByteString): Outcome
    requires WellFormed(v)
  {
    Resume(v.frames, v.ty, v.unread + f)
  }

  /** Two states that no future input can tell apart. */
  ghost predicate SameFuture(v: View, v': View)
    requires WellFormed(v) && WellFormed(v')
  {
    forall f: ByteString :: After(v', f) == After(v, f)
  }

  /** redisReaderFeed */
  ghost predicate FeedSpec(v: View, chunk: ByteString, v': View) {
    v' == if v.err.Some? then v else v.(unread := v.unread + chunk)
  }

  predicate IsSuffix(t: ByteString, s: ByteString) {
    |t| <= |s| && t == s[|s| - |t|..]
  }

  /** redisReaderGetReply */
  ghost predicate GetSpec(v: View, out: Option<Reply>, v': View)
    requires WellFormed(v) && WellFormed(v')
  {
    if v.err.Some? then v' == v && out == None
    else
      match After(v, [])
      case Done(r, rest) => out == Some(r) && v' == INITIAL.(unread := rest)
      case Bad(e) => out == None && v' == INITIAL.(err := Some(e))
      case More =>
        out == None && v'.err == None && SameFuture(v, v') && IsSuffix(v'.unread, v.unread)
  }

  // ---------- Properties of partial states ----------

  lemma {:induction false} PlugStable(frames: Frames, r: Reply, s: ByteString, t: ByteString)
    requires !Plug(frames, r, s).More?
    ensures Plug(frames, r, s + t) == Extend(Plug(frames, r, s), t)
    decreases |frames|
  {
    if frames != [] {
      var outer, top := frames[..|frames| - 1], frames[|frames| - 1];
      var done := top.done + [r];
      if |done| == top.count {
        PlugStable(outer, ArrayReply(top.count, done), s, t);
      } else {
        ElementsStable(top.count, done, s, t, |frames|);
        var o := ParseElements(top.count, done, s, |frames|);
        if o.Done? {
          PlugStable(outer, o.reply, o.rest, t);
        }
      }
    }
  }

  lemma ResumeStable(frames: Frames, ty: Option<int>, s: ByteString, t: ByteString)
    requires ty.Some? ==> IsReadType(ty.value)
    requires !Resume(frames, ty, s).More?
    ensures Resume(frames, ty, s + t) == Extend(Resume(frames, ty, s), t)
  {
    var o := if ty.None? then ParseItem(s, |frames|) else ParseTyped(ty.value, s, |frames|);
    if ty.None? {
      ItemStable(s, t, |frames|);
    } else {
      TypedStable(ty.value, s, t, |frames|);
    }
    if o.Done? {
      PlugStable(frames, o.reply, o.rest, t);
    }
  }

  lemma {:induction false} PlugShrinks(frames: Frames, r: Reply, s: ByteString)
    ensures Plug(frames, r, s).Done? ==> |Plug(frames, r, s).rest| <= |s|
    decreases |frames|
  {
    if frames != [] {
      var outer, top := frames[..|frames| - 1], frames[|frames| - 1];
      var done := top.done + [r];
      if |done| == top.count {
        PlugShrinks(outer, ArrayReply(top.count, done), s);
      } else {
        var o := ParseElements(top.count, done, s, |frames|);
        if o.Done? {
          PlugShrinks(outer, o.reply, o.rest);
        }
      }
    }
  }

  /** Every reply costs unread bytes. */
  lemma ResumeConsumes(frames: Frames, ty: Option<int>, s: ByteString)
    requires ty.Some? ==> IsReadType(ty.value)
    ensures Resume(frames, ty, s).Done? ==> |Resume(frames, ty, s).rest| < |s|
  {
    var o := if ty.None? then ParseItem(s, |frames|) else ParseTyped(ty.value, s, |frames|);
    if o.Done? {
      PlugShrinks(frames, o.reply, o.rest);
    }
  }

  // ---------- Steps of the reader that do not change the future ----------

  lemma SameFutureReflexive(v: View)
    requires WellFormed(v)
    ensures SameFuture(v, v)
  {
  }

  lemma FutureOfWaiting(v: View, w: View)
    requires WellFormed(v) && WellFormed(w) && SameFuture(v, w) && After(w, []) == More
    ensures After(v, []) == More
  {
    assert After(w, []) == After(v, []);
  }

  lemma SameFutureTransitive(u: View, v: View, w: View)
    requires WellFormed(u) && WellFormed(v) && WellFormed(w)
    requires SameFuture(u, v) && SameFuture(v, w)
    ensures SameFuture(u, w)
  {
    forall f: ByteString
      ensures After(w, f) == After(u, f)
    {
      assert After(v, f) == After(u, f);
    }
  }

  /** Consuming the type byte. */
  lemma TypeByteRead(v: View, t: int, v': View)
    requires WellFormed(v) && v.ty == None && v.unread != []
    requires TypeOf(v.unread[0]) == Some(t)
    requires v' == v.(ty := Some(t), unread := v.unread[1..])
    ensures if t == REPLY_ARRAY && |v.frames| == MAX_DEPTH then After(v, []) == Bad(TooDeep)
            else SameFuture(v, v')
  {
    forall f: ByteString
      ensures After(v, f) == Resume(v'.frames, v'.ty, v'.unread + f)
    {
      assert (v.unread + f)[1..] == v'.unread + f;
    }
    assert v'.unread + [] == v'.unread;
  }

  /** Without a type byte the reader has to wait; a byte that is no type is an error. */
  lemma TypeByteMissing(v: View)
    requires WellFormed(v) && v.ty == None
    ensures v.unread == [] ==> After(v, []) == More
    ensures v.unread != [] && TypeOf(v.unread[0]) == None ==> After(v, []) == Bad(BadTypeByte(v.unread[0]))
  {
    assert v.unread + [] == v.unread;
  }

  /** Completing an item. */
  lemma ItemRead(v: View, r: Reply, rest: ByteString, v': View)
    requires WellFormed(v) && v.ty.Some?
    requires ParseTyped(v.ty.value, v.unread, |v.frames|) == Done(r, rest)
    requires v' == View(Advance(v.frames, r), None, rest, None)
    ensures v'.frames == [] ==> After(v, []) == Done(Completed(v.frames, r), rest)
    ensures v'.frames != [] ==> SameFuture(v, v')
  {
    forall f: ByteString
      ensures After(v, f) == Plug(v.frames, r, rest + f)
    {
      TypedStable(v.ty.value, v.unread, f, |v.frames|);
    }
    if v'.frames == [] {
      assert After(v, []) == Plug(v.frames, r, rest + []);
      assert rest + [] == rest;
      AdvancePlug(v.frames, r, rest);
    } else {
      forall f: ByteString
        ensures After(v', f) == After(v, f)
      {
        AdvancePlug(v.frames, r, rest + f);
      }
    }
  }

  /** A reader without unread bytes has to wait. */
  lemma NothingUnread(v: View)
    requires WellFormed(v) && v.unread == []
    ensures After(v, []) == More
  {
    if v.ty == None {
      TypeByteMissing(v);
    } else {
      LineMissing(v);
    }
  }

  /** An item without its line break has to wait. */
  lemma LineMissing(v: View)
    requires WellFormed(v) && v.ty.Some? && Newline(v.unread) == None
    ensures After(v, []) == More
  {
    assert v.unread + [] == v.unread;
  }

  /** Reading a simple string, an error or an integer. */
  lemma LineRead(v: View, n: nat, r: Reply, v': View)
    requires WellFormed(v) && v.ty.Some? && IsLineType(v.ty.value) && Newline(v.unread) == Some(n)
    requires r == LineReply(v.ty.value, v.unread[..n])
    requires v' == View(Advance(v.frames, r), None, v.unread[n + 2..], None)
    ensures v'.frames == [] ==> After(v, []) == Done(Completed(v.frames, r), v'.unread)
    ensures v'.frames != [] ==> SameFuture(v, v')
  {
    ItemRead(v, r, v'.unread, v');
  }

  /** A bulk string whose payload is incomplete has to wait. */
  lemma PayloadMissing(v: View, n: nat)
    requires WellFormed(v) && v.ty == Some(REPLY_STRING) && Newline(v.unread) == Some(n)
    requires ParsePayload(ReadNumber(v.unread[..n]), v.unread[n + 2..]) == More
    ensures After(v, []) == More
  {
    assert v.unread + [] == v.unread;
  }

  /** Reading a bulk string. */
  lemma BulkRead(v: View, n: nat, r: Reply, v': View)
    requires WellFormed(v) && v.ty == Some(REPLY_STRING) && Newline(v.unread) == Some(n)
    requires ParsePayload(ReadNumber(v.unread[..n]), v.unread[n + 2..]) == Done(r, v'.unread)
    requires v' == View(Advance(v.frames, r), None, v'.unread, None)
    ensures v'.frames == [] ==> After(v, []) == Done(Completed(v.frames, r), v'.unread)
    ensures v'.frames != [] ==> SameFuture(v, v')
  {
    ItemRead(v, r, v'.unread, v');
  }

  /** Reading the header of an array without elements. */
  lemma EmptyArrayRead(v: View, n: nat, r: Reply, v': View)
    requires WellFormed(v) && v.ty == Some(REPLY_ARRAY) && Newline(v.unread) == Some(n)
    requires var count := ReadNumber(v.unread[..n]);
             count <= 0 && r == if count == -1 then NilReply else ArrayReply(ToSize(ToInt(count)), [])
    requires v' == View(Advance(v.frames, r), None, v.unread[n + 2..], None)
    ensures v'.frames == [] ==> After(v, []) == Done(Completed(v.frames, r), v'.unread)
    ensures v'.frames != [] ==> SameFuture(v, v')
  {
    ItemRead(v, r, v'.unread, v');
  }

  /** Reading the header of an array whose count is cut to 0 or less. */
  lemma NoRoomRead(v: View, n: nat)
    requires WellFormed(v) && v.ty == Some(REPLY_ARRAY) && Newline(v.unread) == Some(n)
    requires ReadNumber(v.unread[..n]) > 0 >= ToInt(ReadNumber(v.unread[..n]))
    ensures After(v, []) == Bad(NoRoom)
  {
    hide ReadNumber, ToInt;
    assert v.unread + [] == v.unread;
    NewlineFound(v.unread);
    assert ParseTyped(REPLY_ARRAY, v.unread, |v.frames|) == Bad(NoRoom);
  }

  /** Reading the header of an array that has elements. */
  lemma HeaderRead(v: View, n: nat, count: nat, v': View)
    requires WellFormed(v) && v.ty == Some(REPLY_ARRAY) && Newline(v.unread) == Some(n)
    requires ReadNumber(v.unread[..n]) > 0 && ToInt(ReadNumber(v.unread[..n])) == count > 0
    requires v' == View(v.frames + [Frame(count, [])], None, v.unread[n + 2..], None)
    ensures SameFuture(v, v')
  {
    hide ReadNumber, Newline;
    NewlineFound(v.unread);
    var rest := v.unread[n + 2..];
    forall f: ByteString
      ensures After(v', f) == After(v, f)
    {
      NewlineStable(v.unread, f);
      assert (v.unread + f)[..n] == v.unread[..n] && (v.unread + f)[n + 2..] == rest + f;
      assert ParseTyped(REPLY_ARRAY, v.unread + f, |v.frames|)
          == ParseElements(count, [], rest + f, |v.frames| + 1);
      PushFrame(v.frames, Frame(count, []), rest + f);
    }
  }

  // ---------- The history of a run ----------

  ghost function Prepend(got: seq<Reply>, s: Stream): Stream {
    Stream(got + s.replies, s.status)
  }

  /** All the replies that follow from a state when the bytes f are still to come. */
  ghost function StreamAfter(v: View, f: ByteString): Stream
    requires WellFormed(v)
  {
    if v.err.Some? then Stream([], Failed(v.err.value))
    else
      match After(v, f)
      case Done(r, rest) => Prepend([r], ParseStream(rest))
      case More => Stream([], Waiting)
      case Bad(e) => Stream([], Failed(e))
  }

  /** After the bytes `fed` were offered and the replies `got` handed out, the
      state holds what is missing from the meaning of the stream, whatever
      the bytes f that follow. */
  ghost predicate Explains(fed: ByteString, got: seq<Reply>, v: View)
    requires WellFormed(v)
  {
    forall f: ByteString :: ParseStream(fed + f) == Prepend(got, StreamAfter(v, f))
  }

  lemma FreshStream(v: View, f: ByteString)
    requires v == INITIAL.(unread := v.unread)
    ensures StreamAfter(v, f) == ParseStream(v.unread + f)
  {
    var s := v.unread + f;
    if ParseItem(s, 0).Done? {
      assert Plug([], ParseItem(s, 0).reply, ParseItem(s, 0).rest) == ParseItem(s, 0);
    }
  }

  lemma InitialExplains()
    ensures Explains([], [], INITIAL)
  {
    forall f: ByteString
      ensures ParseStream([] + f) == Prepend([], StreamAfter(INITIAL, f))
    {
      FreshStream(INITIAL, f);
    }
  }

  lemma FeedMovesBytes(v: View, chunk: ByteString, f: ByteString)
    requires WellFormed(v) && v.err == None
    ensures StreamAfter(v.(unread := v.unread + chunk), f) == StreamAfter(v, chunk + f)
  {
    assert v.unread + (chunk + f) == v.unread + chunk + f;
  }

  lemma FeedExplains(fed: ByteString, got: seq<Reply>, v: View, chunk: ByteString, v': View)
    requires WellFormed(v) && WellFormed(v')
    requires Explains(fed, got, v) && FeedSpec(v, chunk, v')
    ensures Explains(fed + chunk, got, v')
  {
    forall f: ByteString
      ensures ParseStream(fed + chunk + f) == Prepend(got, StreamAfter(v', f))
    {
      assert fed + chunk + f == fed + (chunk + f);
      assert ParseStream(fed + (chunk + f)) == Prepend(got, StreamAfter(v, chunk + f));
      if v.err == None {
        FeedMovesBytes(v, chunk, f);
      }
    }
  }

  lemma GetExplains(fed: ByteString, got: seq<Reply>, v: View, out: Option<Reply>, v': View)
    requires WellFormed(v) && WellFormed(v')
    requires Explains(fed, got, v) && GetSpec(v, out, v')
    ensures Explains(fed, got + OutputOf(out), v')
  {
    if v.err.Some? {
      assert got + OutputOf(out) == got;
      return;
    }
    forall f: ByteString
      ensures ParseStream(fed + f) == Prepend(got + OutputOf(out), StreamAfter(v', f))
    {
      assert ParseStream(fed + f) == Prepend(got, StreamAfter(v, f));
      assert v.unread + [] == v.unread;
      if After(v, []).More? {
        assert After(v', f) == After(v, f);
        assert got + OutputOf(out) == got;
      } else {
        ResumeStable(v.frames, v.ty, v.unread, f);
        if out.Some? {
          FreshStream(v', f);
          assert got + [out.value] + ParseStream(v'.unread + f).replies
              == got + ([out.value] + ParseStream(v'.unread + f).replies);
        }
      }
    }
  }

  /** The reply handed out is the first of those that were ready. */
  lemma GetReady(v: View, out: Option<Reply>, v': View)
    requires WellFormed(v) && WellFormed(v') && GetSpec(v, out, v')
    ensures StreamAfter(v, []) == Prepend(OutputOf(out), StreamAfter(v', []))
    ensures out == None ==> StreamAfter(v', []) == Stream([], StatusOf(v'))
  {
    if v.err == None {
      if out.Some? {
        FreshStream(v', []);
        assert v'.unread + [] == v'.unread;
      } else if v'.err == None {
        assert After(v', []) == After(v, []);
      }
    }
  }

  ghost function OutputOf(out: Option<Reply>): seq<Reply> {
    if out.Some? then [out.value] else []
  }

  ghost function StatusOf(v: View): Status {
    if v.err.Some? then Failed(v.err.value) else Waiting
  }

  // ---------- Runs ----------

  datatype Event = Feed(chunk: ByteString) | Get(out: Option<Reply>)

  ghost predicate Step(v: View, e: Event, v': View) {
    && WellFormed(v) && WellFormed(v')
    && match e
       case Feed(chunk) => FeedSpec(v, chunk, v')
       case Get(out) => GetSpec(v, out, v')
  }

  ghost predicate IsRun(events: seq<Event>, states: seq<View>) {
    && |states| == |events| + 1
    && states[0] == INITIAL
    && forall i :: 0 <= i < |events| ==> Step(states[i], events[i], states[i + 1])
  }

  ghost function FedBy(events: seq<Event>): ByteString {
    if events == [] then []
    else
      var last := events[|events| - 1];
      FedBy(events[..|events| - 1]) + if last.Feed? then last.chunk else []
  }

  ghost function GotBy(events: seq<Event>): seq<Reply> {
    if events == [] then []
    else
      var last := events[|events| - 1];
      GotBy(events[..|events| - 1]) + if last.Get? then OutputOf(last.out) else []
  }

  lemma {:induction false} RunExplained(events: seq<Event>, states: seq<View>)
    requires IsRun(events, states)
    ensures WellFormed(states[|events|])
    ensures Explains(FedBy(events), GotBy(events), states[|events|])
    decreases |events|
  {
    if events == [] {
      InitialExplains();
    } else {
      var n := |events| - 1;
      RunExplained(events[..n], states[..n + 1]);
      assert Step(states[n], events[n], states[n + 1]);
      var fed, got := FedBy(events[..n]), GotBy(events[..n]);
      match events[n] {
        case Feed(chunk) =>
          FeedExplains(fed, got, states[n], chunk, states[n + 1]);
          assert GotBy(events) == got;
        case Get(out) =>
          GetExplains(fed, got, states[n], out, states[n + 1]);
          assert FedBy(events) == fed;
      }
    }
  }

  // ---------- Conservation of input ----------

  lemma SuffixTransitive(a: ByteString, b: ByteString, c: ByteString)
    requires IsSuffix(a, b) && IsSuffix(b, c)
    ensures IsSuffix(a, c)
  {
  }

  lemma LineEnd(s: ByteString, n: nat)
    requires n + 2 <= |s|
    ensures IsSuffix(s[n + 2..], s)
  {
  }

  /** What an item leaves is the end of what it was given. */
  lemma {:induction false} ItemSuffix(s: ByteString, depth: nat)
    ensures ParseItem(s, depth).Done? ==> IsSuffix(ParseItem(s, depth).rest, s)
    decreases |s|, 1
  {
    if s != [] && TypeOf(s[0]).Some? {
      TypedSuffix(TypeOf(s[0]).value, s[1..], depth);
    }
  }

  lemma {:induction false} TypedSuffix(t: int, s: ByteString, depth: nat)
    requires IsReadType(t)
    ensures ParseTyped(t, s, depth).Done? ==> IsSuffix(ParseTyped(t, s, depth).rest, s)
    decreases |s|, 0
  {
    hide Newline, ReadNumber, ToInt, ToSize, LineReply, IsSuffix;
    if ParseTyped(t, s, depth).Done? {
      NewlineFound(s);
      var n := Newline(s).value;
      var rest := s[n + 2..];
      LineEnd(s, n);
      if t == REPLY_STRING {
        PayloadSuffix(ReadNumber(s[..n]), rest);
        SuffixTransitive(ParsePayload(ReadNumber(s[..n]), rest).rest, rest, s);
      } else if t == REPLY_ARRAY {
        ArraySuffix(ReadNumber(s[..n]), rest, depth);
        SuffixTransitive(ParseArray(ReadNumber(s[..n]), rest, depth).rest, rest, s);
      }
    }
  }

  lemma PayloadSuffix(len: int, s: ByteString)
    ensures ParsePayload(len, s).Done? ==> IsSuffix(ParsePayload(len, s).rest, s)
  {
  }

  lemma {:induction false} ArraySuffix(count: int, s: ByteString, depth: nat)
    ensures ParseArray(count, s, depth).Done? ==> IsSuffix(ParseArray(count, s, depth).rest, s)
    decreases |s|, 3
  {
    hide ToInt, ToSize;
    if count > 0 && ToInt(count) > 0 {
      ElementsSuffix(ToInt(count), [], s, depth + 1);
    }
  }

  lemma {:induction false} ElementsSuffix(count: nat, done: seq<Reply>, s: ByteString, depth: nat)
    requires |done| < count
    ensures var o := ParseElements(count, done, s, depth); o.Done? ==> IsSuffix(o.rest, s)
    decreases |s|, 2
  {
    ItemSuffix(s, depth);
    var o := ParseItem(s, depth);
    if o.Done? && |done| + 1 < count {
      ElementsSuffix(count, done + [o.reply], o.rest, depth);
    }
  }

  lemma {:induction false} PlugSuffix(frames: Frames, r: Reply, s: ByteString)
    ensures Plug(frames, r, s).Done? ==> IsSuffix(Plug(frames, r, s).rest, s)
    decreases |frames|
  {
    if frames != [] && Plug(frames, r, s).Done? {
      var outer, top := frames[..|frames| - 1], frames[|frames| - 1];
      var done := top.done + [r];
      if |done| == top.count {
        PlugSuffix(outer, ArrayReply(top.count, done), s);
      } else {
        var o := ParseElements(top.count, done, s, |frames|);
        ElementsSuffix(top.count, done, s, |frames|);
        PlugSuffix(outer, o.reply, o.rest);
        SuffixTransitive(Plug(frames, r, s).rest, o.rest, s);
      }
    }
  }

  lemma ResumeSuffix(frames: Frames, ty: Option<int>, s: ByteString)
    requires ty.Some? ==> IsReadType(ty.value)
    ensures Resume(frames, ty, s).Done? ==> IsSuffix(Resume(frames, ty, s).rest, s)
  {
    if ty == None {
      ItemSuffix(s, |frames|);
    } else {
      TypedSuffix(ty.value, s, |frames|);
    }
    var o := if ty == None then ParseItem(s, |frames|) else ParseTyped(ty.value, s, |frames|);
    if Resume(frames, ty, s).Done? {
      PlugSuffix(frames, o.reply, o.rest);
      SuffixTransitive(Resume(frames, ty, s).rest, o.rest, s);
    }
  }

  /** As long as there is no error, the unread bytes are the last of the bytes fed. */
  lemma {:induction false} RunConserves(events: seq<Event>, states: seq<View>)
    requires IsRun(events, states)
    ensures states[|events|].err == None ==> IsSuffix(states[|events|].unread, FedBy(events))
    decreases |events|
  {
    hide Resume, SameFuture;
    if events != [] {
      var n := |events| - 1;
      RunConserves(events[..n], states[..n + 1]);
      var v, v' := states[n], states[n + 1];
      assert Step(v, events[n], v');
      if v'.err == None && events[n].Get? {
        assert v.unread + [] == v.unread;
        ResumeSuffix(v.frames, v.ty, v.unread);
        SuffixTransitive(v'.unread, v.unread, FedBy(events));
      }
    }
  }

  // ---------- The theorems ----------

  /** At every point of every run, the replies handed out so far are the first
      replies of the stream, and no further input changes them. */
  lemma {:induction false} RepliesArePrefix(events: seq<Event>, states: seq<View>, future: ByteString)
    requires IsRun(events, states)
    ensures GotBy(events) <= ParseStream(FedBy(events) + future).replies
  {
    RunExplained(events, states);
  }

  /** Chunk independence: once the reader has no more to give, the replies and
      the status are those of the whole stream read in one go. */
  lemma {:induction false} ChunkIndependence(events: seq<Event>, states: seq<View>)
    requires IsRun(events, states)
    requires events != [] && events[|events| - 1] == Get(None)
    ensures ParseStream(FedBy(events)) == Stream(GotBy(events), StatusOf(states[|events|]))
  {
    RunExplained(events, states);
    var n := |events| - 1;
    var v, v' := states[n], states[n + 1];
    assert Step(v, events[n], v');
    assert FedBy(events) + [] == FedBy(events);
    assert ParseStream(FedBy(events) + []) == Prepend(GotBy(events), StreamAfter(v', []));
    if v'.err.None? {
      assert After(v', []) == After(v, []);
    }
  }

  /** Two ways of cutting the same bytes give the same result. */
  lemma {:induction false} CutsDoNotMatter(e1: seq<Event>, s1: seq<View>, e2: seq<Event>, s2: seq<View>)
    requires IsRun(e1, s1) && e1 != [] && e1[|e1| - 1] == Get(None)
    requires IsRun(e2, s2) && e2 != [] && e2[|e2| - 1] == Get(None)
    requires FedBy(e1) == FedBy(e2)
    ensures GotBy(e1) == GotBy(e2) && StatusOf(s1[|e1|]) == StatusOf(s2[|e2|])
  {
    ChunkIndependence(e1, s1);
    ChunkIndependence(e2, s2);
  }
}
