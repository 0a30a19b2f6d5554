/**
  The protocol as a grammar: what a whole byte stream means, read in one go.

  This is the reference against which the resumable reader is proved. It is
  recursive in the structure of replies and knows nothing of cursors, task
  stacks or buffers. It follows the client where the client is looser than the
  protocol document: see ReadNumber for numbers, and ParseTyped for negative
  lengths and for the unchecked two bytes after a bulk payload.
 */
module Resp {
  import opened Bytes
  import opened Numbers

  const REPLY_STRING := 1
  const REPLY_ARRAY := 2
  const REPLY_INTEGER := 3
  const REPLY_NIL := 4
  const REPLY_STATUS := 5
  const REPLY_ERROR := 6

  /** Arrays may be open at stack indices 0 to 7; one more is refused. */
  const MAX_DEPTH: nat := 8

  /** An array keeps the declared count beside its elements. A count below -1 is
      accepted: it is stored as a size_t, and there are no elements. */
  datatype Reply =
    | StringReply(str: ByteString)
    | ArrayReply(elements: nat, element: seq<Reply>)
    | IntegerReply(integer: int)
    | NilReply
    | StatusReply(str: ByteString)
    | ErrorReply(str: ByteString)

  /** NoRoom is no error of the C code, see ParseArray. */
  datatype ParseError = BadTypeByte(byte: Byte) | TooDeep | NoRoom

  /** The result of reading one item: a reply and the bytes after it, a wish for
      more bytes, or a protocol error. */
  datatype Outcome =
    | Done(reply: Reply, rest: ByteString)
    | More
    | Bad(error: ParseError)

  function TypeOf(b: Byte): Option<int> {
    if b == MINUS then Some(REPLY_ERROR)
    else if b == PLUS then Some(REPLY_STATUS)
    else if b == COLON then Some(REPLY_INTEGER)
    else if b == DOLLAR then Some(REPLY_STRING)
    else if b == STAR then Some(REPLY_ARRAY)
    else None
  }

  predicate IsLineType(t: int) {
    t == REPLY_ERROR || t == REPLY_STATUS || t == REPLY_INTEGER
  }

  predicate IsReadType(t: int) {
    IsLineType(t) || t == REPLY_STRING || t == REPLY_ARRAY
  }

  predicate NewlineAt(s: ByteString, i: int) {
    0 <= i < |s| - 1 && s[i] == CR && s[i + 1] == LF
  }

  /** The position of the first CRLF. */
  function Newline(s: ByteString): (r: Option<nat>)
    ensures r.Some? ==> NewlineAt(s, r.value) && forall i :: 0 <= i < r.value ==> !NewlineAt(s, i)
    ensures r.None? ==> forall i :: 0 <= i < |s| ==> !NewlineAt(s, i)
  {
    if |s| < 2 then None
    else if NewlineAt(s, 0) then Some(0)
    else
      var tail := s[1..];
      assert forall i :: 0 < i < |s| ==> NewlineAt(s, i) == NewlineAt(tail, i - 1);
      match Newline(tail)
      case None => None
      case Some(n) => Some(n + 1)
  }

  function LineReply(t: int, line: ByteString): Reply
    requires IsLineType(t)
  {
    if t == REPLY_INTEGER then IntegerReply(ReadNumber(line))
    else if t == REPLY_STATUS then StatusReply(line)
    else ErrorReply(line)
  }

  /** One item, starting at its type byte, inside `depth` open arrays. */
  function ParseItem(s: ByteString, depth: nat): (o: Outcome)
    ensures o.Done? ==> |o.rest| < |s|
    decreases |s|, 1
  {
    if s == [] then More
    else
      match TypeOf(s[0])
      case None => Bad(BadTypeByte(s[0]))
      case Some(t) => ParseTyped(t, s[1..], depth)
  }

  /** One item whose type byte has been read. */
  function ParseTyped(t: int, s: ByteString, depth: nat): (o: Outcome)
    requires IsReadType(t)
    ensures o.Done? ==> |o.rest| < |s|
    decreases |s|, 0
  {
    if t == REPLY_ARRAY && depth == MAX_DEPTH then Bad(TooDeep)
    else
      match Newline(s)
      case None => More
      case Some(n) =>
        var line, rest := s[..n], s[n + 2..];
        if IsLineType(t) then
          Done(LineReply(t, line), rest)
        else if t == REPLY_STRING then
          ParsePayload(ReadNumber(line), rest)
        else
          ParseArray(ReadNumber(line), rest, depth)
  }

  /** The payload of a bulk string: `len` bytes and two more, whatever they are. */
  function ParsePayload(len: int, s: ByteString): (o: Outcome)
    ensures o.Done? ==> |o.rest| <= |s|
  {
    if len < 0 then Done(NilReply, s)
    else if len + 2 <= |s| then Done(StringReply(s[..len]), s[len + 2..])
    else More
  }

  /** The elements of an array, after its header line. The sign is that of the
      64-bit count, the number of elements is the count cast to int. When a positive
      count is cast to 0 or less, the C code opens an array that has no room: its
      next element would be stored through a null pointer, and the assertion
      that the index is below the number of elements would fail. Its behaviour is
      undefined from there, and reading stops. */
  function ParseArray(count: int, s: ByteString, depth: nat): (o: Outcome)
    ensures o.Done? ==> |o.rest| <= |s|
    decreases |s|, 3
  {
    if count == -1 then Done(NilReply, s)
    else if count <= 0 then Done(ArrayReply(ToSize(ToInt(count)), []), s)
    else if ToInt(count) <= 0 then Bad(NoRoom)
    else ParseElements(ToInt(count), [], s, depth + 1)
  }

  /** Which positive counts have room, and what they are cut to. */
  lemma CountIsCut(count: int, s: ByteString, depth: nat)
    requires count > 0
    ensures ParseArray(count, s, depth)
         == if 0 < count % TWO32 < TWO31 then ParseArray(count % TWO32, s, depth) else Bad(NoRoom)
  {
    assert ToInt(count) == if count % TWO32 < TWO31 then count % TWO32 else count % TWO32 - TWO32;
  }

  /** The elements of an array from the |done|-th on; `depth` counts the array itself. */
  function ParseElements(count: nat, done: seq<Reply>, s: ByteString, depth: nat): (o: Outcome)
    requires |done| < count
    ensures o.Done? ==> |o.rest| < |s|
    decreases |s|, 2
  {
    match ParseItem(s, depth)
    case Done(r, rest) =>
      if |done| + 1 == count then Done(ArrayReply(count, done + [r]), rest)
      else ParseElements(count, done + [r], rest, depth)
    case other => other
  }

  datatype Status = Waiting | Failed(error: ParseError)

  datatype Stream = Stream(replies: seq<Reply>, status: Status)

  /** All the replies of a stream, and how it ends. */
  function ParseStream(s: ByteString): Stream
    decreases |s|
  {
    match ParseItem(s, 0)
    case Done(r, rest) =>
      var tail := ParseStream(rest);
      Stream([r] + tail.replies, tail.status)
    case More => Stream([], Waiting)
    case Bad(e) => Stream([], Failed(e))
  }

  // ---------- Stability: a verdict does not change when more bytes arrive ----------

  /** The outcome of the same parse with more bytes behind it. */
  function Extend(o: Outcome, t: ByteString): Outcome {
    match o
    case Done(r, rest) => Done(r, rest + t)
    case other => other
  }

  lemma NewlineUnique(s: ByteString, n: nat)
    requires NewlineAt(s, n) && forall i :: 0 <= i < n ==> !NewlineAt(s, i)
    ensures Newline(s) == Some(n)
  {
  }

  lemma NewlineFound(s: ByteString)
    requires Newline(s).Some?
    ensures Newline(s).value + 2 <= |s| && s[Newline(s).value] == CR
  {
  }

  lemma NewlineStable(s: ByteString, t: ByteString)
    requires Newline(s).Some?
    ensures Newline(s + t) == Newline(s)
  {
    var n := Newline(s).value;
    assert forall i :: 0 <= i <= n ==> NewlineAt(s + t, i) == NewlineAt(s, i);
    NewlineUnique(s + t, n);
  }

  lemma {:induction false} ItemStable(s: ByteString, t: ByteString, depth: nat)
    requires !ParseItem(s, depth).More?
    ensures ParseItem(s + t, depth) == Extend(ParseItem(s, depth), t)
    decreases |s|, 1
  {
    assert (s + t)[0] == s[0] && (s + t)[1..] == s[1..] + t;
    var ty := TypeOf(s[0]);
    if ty.Some? {
      TypedStable(ty.value, s[1..], t, depth);
    }
  }

  lemma {:induction false} TypedStable(ty: int, s: ByteString, t: ByteString, depth: nat)
    requires IsReadType(ty) && !ParseTyped(ty, s, depth).More?
    ensures ParseTyped(ty, s + t, depth) == Extend(ParseTyped(ty, s, depth), t)
    decreases |s|, 0
  {
    hide ReadNumber, LineReply, Newline, ParsePayload, ParseArray;
    if ty == REPLY_ARRAY && depth == MAX_DEPTH {
      return;
    }
    NewlineStable(s, t);
    NewlineFound(s);
    var n := Newline(s).value;
    var line, rest := s[..n], s[n + 2..];
    assert (s + t)[..n] == line && (s + t)[n + 2..] == rest + t;
    if ty == REPLY_STRING {
      PayloadStable(ReadNumber(line), rest, t);
    } else if ty == REPLY_ARRAY {
      ArrayStable(ReadNumber(line), rest, t, depth);
    }
  }

  lemma PayloadStable(len: int, s: ByteString, t: ByteString)
    requires !ParsePayload(len, s).More?
    ensures ParsePayload(len, s + t) == Extend(ParsePayload(len, s), t)
  {
    if len >= 0 {
      assert (s + t)[..len] == s[..len] && (s + t)[len + 2..] == s[len + 2..] + t;
    }
  }

  lemma {:induction false} ArrayStable(count: int, s: ByteString, t: ByteString, depth: nat)
    requires !ParseArray(count, s, depth).More?
    ensures ParseArray(count, s + t, depth) == Extend(ParseArray(count, s, depth), t)
    decreases |s|, 3
  {
    if count > 0 && ToInt(count) > 0 {
      ElementsStable(ToInt(count), [], s, t, depth + 1);
    }
  }

  lemma {:induction false} ElementsStable(count: nat, done: seq<Reply>, s: ByteString, t: ByteString, depth: nat)
    requires |done| < count
    requires !ParseElements(count, done, s, depth).More?
    ensures ParseElements(count, done, s + t, depth) == Extend(ParseElements(count, done, s, depth), t)
    decreases |s|, 2
  {
    ItemStable(s, t, depth);
    match ParseItem(s, depth)
    case Done(r, rest) =>
      if |done| + 1 < count {
        ElementsStable(count, done + [r], rest, t, depth);
      }
    case _ =>
  }

  // ---------- Partial states: a stack of open arrays ----------

  /** An array whose header was read and whose first |done| elements are complete. */
  datatype Frame = Frame(count: nat, done: seq<Reply>)

  type Frames = f: seq<Frame> | forall i :: 0 <= i < |f| ==> |f[i].done| < f[i].count witness []

  /** What reading the rest of the stream yields for the current reply, when the
      arrays in `frames` are open and the type of the next item is known or not. */
  function Resume(frames: Frames, ty: Option<int>, s: ByteString): Outcome
    requires ty.Some? ==> IsReadType(ty.value)
  {
    var o := if ty.None? then ParseItem(s, |frames|) else ParseTyped(ty.value, s, |frames|);
    match o
    case Done(r, rest) => Plug(frames, r, rest)
    case other => other
  }

  /** The same, when the item just read is r. */
  function Plug(frames: Frames, r: Reply, s: ByteString): Outcome
    decreases |frames|
  {
    if frames == [] then Done(r, s)
    else
      var outer, top := frames[..|frames| - 1], frames[|frames| - 1];
      if |top.done| + 1 == top.count then
        Plug(outer, ArrayReply(top.count, top.done + [r]), s)
      else
        match ParseElements(top.count, top.done + [r], s, |frames|)
        case Done(a, rest) => Plug(outer, a, rest)
        case other => other
  }

  /** Opening an array is pushing a frame. */
  lemma PushFrame(frames: Frames, f: Frame, s: ByteString)
    requires |f.done| < f.count
    ensures Resume(frames + [f], None, s) ==
            match ParseElements(f.count, f.done, s, |frames| + 1)
            case Done(a, rest) => Plug(frames, a, rest)
            case other => other
  {
    assert (frames + [f])[..|frames|] == frames;
  }

  /** The open arrays after the item r: every array that r completes is closed,
      and the innermost remaining one gains an element. Empty when r completes
      the root reply. */
  function Advance(frames: Frames, r: Reply): (f: Frames)
    ensures |f| <= |frames|
    decreases |frames|
  {
    if frames == [] then []
    else
      var outer, top := frames[..|frames| - 1], frames[|frames| - 1];
      if |top.done| + 1 < top.count then outer + [Frame(top.count, top.done + [r])]
      else Advance(outer, ArrayReply(top.count, top.done + [r]))
  }

  /** The root reply, when r completes every open array. */
  function Completed(frames: Frames, r: Reply): Reply
    decreases |frames|
  {
    if frames == [] then r
    else
      var top := frames[|frames| - 1];
      Completed(frames[..|frames| - 1], ArrayReply(top.count, top.done + [r]))
  }

  /** Closing arrays with Advance means the same as reading on. */
  lemma {:induction false} AdvancePlug(frames: Frames, r: Reply, s: ByteString)
    ensures Plug(frames, r, s) ==
            if Advance(frames, r) == [] then Done(Completed(frames, r), s)
            else Resume(Advance(frames, r), None, s)
    decreases |frames|
  {
    if frames != [] {
      var outer, top := frames[..|frames| - 1], frames[|frames| - 1];
      var done := top.done + [r];
      if |done| < top.count {
        PushFrame(outer, Frame(top.count, done), s);
      } else {
        AdvancePlug(outer, ArrayReply(top.count, done), s);
      }
    }
  }

  // ---------- More input only adds replies ----------

  /** The replies of a stream stay the first replies of every longer stream, and
      a protocol error is final. */
  lemma {:induction false} StreamGrows(s: ByteString, t: ByteString)
    ensures ParseStream(s).replies <= ParseStream(s + t).replies
    ensures ParseStream(s).status.Failed? ==> ParseStream(s + t) == ParseStream(s)
    decreases |s|
  {
    if !ParseItem(s, 0).More? {
      ItemStable(s, t, 0);
      if ParseItem(s, 0).Done? {
        StreamGrows(ParseItem(s, 0).rest, t);
      }
    }
  }
}
