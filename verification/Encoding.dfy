/**
  Replies as a server writes them, byte by byte. The bytes are spelled out here and
  owe nothing to the grammar, which is proved to read them back.
 */
module Encodings {
  import opened Bytes
  import opened Numbers
  import opened Resp
  import opened Streams

  /** What a server can write. A nil comes in two forms, and the two bytes after the
      payload of a bulk string should be a line end but may be anything. */
  datatype Wire =
    | Status(text: ByteString)
    | Error(text: ByteString)
    | Integer(n: int)
    | Bulk(payload: ByteString, x: Byte, y: Byte)
    | NilBulk
    | NilArray
    | Array(items: seq<Wire>)

  const EOL: ByteString := [13, 10]

  /** The bytes of a reply. */
  function Encode(w: Wire): (s: ByteString)
    ensures s != []
    decreases w
  {
    match w
    case Status(text) => [43] + text + EOL
    case Error(text) => [45] + text + EOL
    case Integer(n) => [58] + Numeral(n) + EOL
    case Bulk(payload, x, y) => [36] + Numeral(|payload|) + EOL + payload + [x, y]
    case NilBulk => [36, 45, 49, 13, 10]
    case NilArray => [42, 45, 49, 13, 10]
    case Array(items) => [42] + Numeral(|items|) + EOL + EncodeAll(items)
  }

  function EncodeAll(ws: seq<Wire>): ByteString
    decreases ws
  {
    if ws == [] then [] else Encode(ws[0]) + EncodeAll(ws[1..])
  }

  /** The reply that the bytes stand for. */
  function Meaning(w: Wire): Reply
    decreases w
  {
    match w
    case Status(text) => StatusReply(text)
    case Error(text) => ErrorReply(text)
    case Integer(n) => IntegerReply(n)
    case Bulk(payload, _, _) => StringReply(payload)
    case NilBulk => NilReply
    case NilArray => NilReply
    case Array(items) => ArrayReply(|items|, Meanings(items))
  }

  function Meanings(ws: seq<Wire>): (rs: seq<Reply>)
    ensures |rs| == |ws|
    decreases ws
  {
    if ws == [] then [] else [Meaning(ws[0])] + Meanings(ws[1..])
  }

  lemma {:induction false} MeaningAt(ws: seq<Wire>, k: nat)
    requires k < |ws|
    ensures Meanings(ws)[k] == Meaning(ws[k])
    decreases |ws|
  {
    if k > 0 {
      MeaningAt(ws[1..], k - 1);
    }
  }

  /** The type number of the reply object. */
  function Code(w: Wire): int {
    match w
    case Bulk(_, _, _) => 1
    case Array(_) => 2
    case Integer(_) => 3
    case NilBulk => 4
    case NilArray => 4
    case Status(_) => 5
    case Error(_) => 6
  }

  predicate IsLine(text: ByteString) {
    forall i :: 0 <= i < |text| - 1 ==> !(text[i] == 13 && text[i + 1] == 10)
  }

  /** Lines hold no line end, numbers and lengths fit, and at most `room` arrays are
      nested. */
  predicate IsSent(w: Wire, room: nat)
    decreases w
  {
    match w
    case Status(text) => IsLine(text)
    case Error(text) => IsLine(text)
    case Integer(n) => IsInt64(n)
    case Bulk(payload, _, _) => |payload| < TWO63
    case NilBulk => true
    case NilArray => room > 0
    case Array(items) => room > 0 && |items| < INT_LIMIT && AllSent(items, room - 1)
  }

  predicate AllSent(ws: seq<Wire>, room: nat)
    decreases ws
  {
    ws == [] || (IsSent(ws[0], room) && AllSent(ws[1..], room))
  }

  lemma LineFound(text: ByteString, rest: ByteString)
    requires IsLine(text)
    ensures var s := text + EOL + rest;
            Newline(s) == Some(|text|) && s[..|text|] == text && s[|text| + 2..] == rest
  {
    var s := text + EOL + rest;
    assert s[|text|] == 13 && s[|text| + 1] == 10;
    forall i | 0 <= i < |text|
      ensures !NewlineAt(s, i)
    {
      assert s[i] == text[i];
      assert i + 1 < |text| ==> s[i + 1] == text[i + 1];
    }
    NewlineUnique(s, |text|);
  }

  lemma NumberFound(n: int, rest: ByteString)
    requires IsInt64(n)
    ensures var s, k := Numeral(n) + EOL + rest, |Numeral(n)|;
            Newline(s) == Some(k) && ReadNumber(s[..k]) == n && s[k + 2..] == rest
  {
    hide Decimal, Newline, ReadNumber;
    ReadNumeral(n);
    LineFound(Numeral(n), rest);
  }

  lemma TextParses(b: Byte, text: ByteString, depth: nat, rest: ByteString)
    requires (b == 43 || b == 45) && IsLine(text)
    ensures ParseItem([b] + text + EOL + rest, depth)
         == Done(if b == 43 then StatusReply(text) else ErrorReply(text), rest)
  {
    hide Newline, ReadNumber;
    assert ([b] + text + EOL + rest)[1..] == text + EOL + rest;
    LineFound(text, rest);
  }

  lemma IntegerParses(n: int, depth: nat, rest: ByteString)
    requires IsInt64(n)
    ensures ParseItem([58] + Numeral(n) + EOL + rest, depth) == Done(IntegerReply(n), rest)
  {
    hide Numeral, Newline, ReadNumber;
    assert ([58] + Numeral(n) + EOL + rest)[1..] == Numeral(n) + EOL + rest;
    NumberFound(n, rest);
  }

  lemma LengthParses(n: int, depth: nat, rest: ByteString)
    requires IsInt64(n)
    ensures ParseItem([36] + Numeral(n) + EOL + rest, depth) == ParsePayload(n, rest)
  {
    hide Numeral, Newline, ReadNumber, ParsePayload;
    assert ([36] + Numeral(n) + EOL + rest)[1..] == Numeral(n) + EOL + rest;
    NumberFound(n, rest);
  }

  lemma CountParses(n: int, depth: nat, rest: ByteString)
    requires IsInt64(n) && depth < 8
    ensures ParseItem([42] + Numeral(n) + EOL + rest, depth) == ParseArray(n, rest, depth)
  {
    hide Numeral, Newline, ReadNumber, ParseArray;
    assert ([42] + Numeral(n) + EOL + rest)[1..] == Numeral(n) + EOL + rest;
    NumberFound(n, rest);
  }

  lemma BulkParses(payload: ByteString, x: Byte, y: Byte, depth: nat, rest: ByteString)
    requires |payload| < TWO63
    ensures ParseItem(Encode(Bulk(payload, x, y)) + rest, depth) == Done(StringReply(payload), rest)
  {
    hide Numeral, ParseItem;
    var head, tail := [36] + Numeral(|payload|) + EOL, payload + [x, y] + rest;
    assert Encode(Bulk(payload, x, y)) + rest == head + tail;
    LengthParses(|payload|, depth, tail);
    assert tail[..|payload|] == payload && tail[|payload| + 2..] == rest;
  }

  lemma NilParses(w: Wire, depth: nat, rest: ByteString)
    requires w.NilBulk? || (w.NilArray? && depth < 8)
    ensures ParseItem(Encode(w) + rest, depth) == Done(NilReply, rest)
  {
    hide ParseItem, ParseElements;
    assert Numeral(-1) == [45, 49];
    if w.NilBulk? {
      assert Encode(w) + rest == [36] + Numeral(-1) + EOL + rest;
      LengthParses(-1, depth, rest);
    } else {
      assert Encode(w) + rest == [42] + Numeral(-1) + EOL + rest;
      CountParses(-1, depth, rest);
    }
  }

  lemma HeaderParses(items: seq<Wire>, depth: nat, rest: ByteString)
    requires depth < 8 && |items| < INT_LIMIT
    ensures ParseItem(Encode(Array(items)) + rest, depth) == ParseArray(|items|, EncodeAll(items) + rest, depth)
  {
    hide Numeral, EncodeAll, ParseArray, ParseItem;
    var head, tail := [42] + Numeral(|items|) + EOL, EncodeAll(items) + rest;
    assert Encode(Array(items)) + rest == head + tail;
    CountParses(|items|, depth, tail);
  }

  /** Reading the bytes of a reply gives the reply, inside up to 8 nested arrays, and
      leaves what follows. */
  lemma {:induction false} EncodingParses(w: Wire, depth: nat, rest: ByteString)
    requires depth <= 8 && IsSent(w, 8 - depth)
    ensures ParseItem(Encode(w) + rest, depth) == Done(Meaning(w), rest)
    decreases w, 1
  {
    hide ParseItem, ParseArray, Numeral, EncodeAll;
    match w
    case Status(text) => TextParses(43, text, depth, rest);
    case Error(text) => TextParses(45, text, depth, rest);
    case Integer(n) => IntegerParses(n, depth, rest);
    case Bulk(payload, x, y) => BulkParses(payload, x, y, depth, rest);
    case NilBulk => NilParses(w, depth, rest);
    case NilArray => NilParses(w, depth, rest);
    case Array(items) =>
      HeaderParses(items, depth, rest);
      ArrayParses(items, depth, rest);
  }

  lemma {:induction false} ArrayParses(items: seq<Wire>, depth: nat, rest: ByteString)
    requires depth < 8 && |items| < INT_LIMIT && AllSent(items, 8 - depth - 1)
    ensures ParseArray(|items|, EncodeAll(items) + rest, depth) == Done(ArrayReply(|items|, Meanings(items)), rest)
    decreases items, 2
  {
    if items == [] {
      assert EncodeAll(items) + rest == rest;
    } else {
      ItemsParse(items, [], |items|, depth + 1, rest);
      assert [] + Meanings(items) == Meanings(items);
    }
  }

  lemma FirstEncoded(ws: seq<Wire>, rest: ByteString)
    requires ws != []
    ensures EncodeAll(ws) + rest == Encode(ws[0]) + (EncodeAll(ws[1..]) + rest)
    ensures |ws| == 1 ==> EncodeAll(ws[1..]) + rest == rest
  {
    hide Encode;
    var later := EncodeAll(ws[1..]);
    assert EncodeAll(ws) == Encode(ws[0]) + later;
    Associative(Encode(ws[0]), later, rest);
    assert |ws| == 1 ==> later == [] && [] + rest == rest;
  }

  lemma Associative<T>(a: seq<T>, b: seq<T>, c: seq<T>)
    ensures a + b + c == a + (b + c)
  {
  }

  lemma FirstMeaning(ws: seq<Wire>, done: seq<Reply>)
    requires ws != []
    ensures done + Meanings(ws) == done + [Meaning(ws[0])] + Meanings(ws[1..])
    ensures |ws| == 1 ==> done + Meanings(ws) == done + [Meaning(ws[0])]
  {
    hide Meaning;
    var later := Meanings(ws[1..]);
    assert Meanings(ws) == [Meaning(ws[0])] + later;
    Associative(done, [Meaning(ws[0])], later);
    assert |ws| == 1 ==> later == [] && done + [Meaning(ws[0])] + [] == done + [Meaning(ws[0])];
  }

  lemma {:induction false} ItemsParse(ws: seq<Wire>, done: seq<Reply>, count: nat, depth: nat, rest: ByteString)
    requires ws != [] && |done| + |ws| == count && depth <= 8 && AllSent(ws, 8 - depth)
    ensures ParseElements(count, done, EncodeAll(ws) + rest, depth)
         == Done(ArrayReply(count, done + Meanings(ws)), rest)
    decreases ws, 0
  {
    hide Encode, Meaning, ParseItem, IsSent;
    var first, later := Meaning(ws[0]), EncodeAll(ws[1..]) + rest;
    FirstEncoded(ws, rest);
    FirstMeaning(ws, done);
    EncodingParses(ws[0], depth, later);
    if |ws| > 1 {
      ItemsParse(ws[1..], done + [first], count, depth, rest);
    }
  }

  /** A stream of replies is read back reply by reply. */
  lemma {:induction false} StreamParses(ws: seq<Wire>, rest: ByteString)
    requires AllSent(ws, 8)
    ensures ParseStream(EncodeAll(ws) + rest) == Prepend(Meanings(ws), ParseStream(rest))
    decreases |ws|
  {
    hide Encode, Meaning, ParseItem, IsSent, ParseStream;
    if ws == [] {
      assert EncodeAll(ws) + rest == rest;
      assert [] + ParseStream(rest).replies == ParseStream(rest).replies;
    } else {
      var later := EncodeAll(ws[1..]) + rest;
      FirstEncoded(ws, rest);
      EncodingParses(ws[0], 0, later);
      OneParses(EncodeAll(ws) + rest, Meaning(ws[0]), later);
      StreamParses(ws[1..], rest);
      PrependBoth([Meaning(ws[0])], Meanings(ws[1..]), ParseStream(rest));
    }
  }

  lemma PrependBoth(x: seq<Reply>, y: seq<Reply>, s: Stream)
    ensures Prepend(x, Prepend(y, s)) == Prepend(x + y, s)
  {
    assert x + (y + s.replies) == x + y + s.replies;
  }

  lemma OneParses(s: ByteString, r: Reply, later: ByteString)
    requires ParseItem(s, 0) == Done(r, later)
    ensures ParseStream(s) == Prepend([r], ParseStream(later))
  {
    hide ParseItem;
  }

  // ---------- What is refused, and what is read loosely ----------

  /** An array inside eight open arrays is refused at its type byte. */
  lemma NinthLevelRefused(s: ByteString)
    ensures ParseItem([42] + s, 8) == Bad(TooDeep)
  {
    assert ([42] + s)[1..] == s;
  }

  /** Any byte but the five type bytes is refused. */
  lemma OtherBytesRefused(b: Byte, s: ByteString, depth: nat)
    requires b !in {36, 42, 43, 45, 58}
    ensures ParseItem([b] + s, depth) == Bad(BadTypeByte(b))
  {
  }

  /** A number that does not consist of digits, but for a sign in front, reads as -1. */
  lemma NoNumber(text: ByteString, k: nat)
    requires CR !in text && k < |text| && !(48 <= text[k] <= 57)
    requires k == 0 ==> text[k] != 43 && text[k] != 45
    ensures ReadNumber(text) == -1
  {
    hide Value;
    UpToCRPrefix(text, |text|);
    assert text[..|text|] == text;
    var digits := WithoutSign(text);
    assert !IsDigit(digits[if |digits| < |text| then k - 1 else k]);
  }

  /** A plus sign in front changes nothing. */
  lemma PlusSign(n: nat)
    requires IsInt64(n)
    ensures ReadNumber([43] + Numeral(n)) == n
  {
    var text: ByteString := [43] + Numeral(n);
    UpToCRPrefix(text, |text|);
    assert text[..|text|] == text && text[1..] == Decimal(n);
    DecimalValue(n);
  }

  /** A bulk string of any negative length is nil. */
  lemma NegativeLength(n: int, rest: ByteString, depth: nat)
    requires -TWO63 <= n < 0
    ensures ParseItem([36] + Numeral(n) + EOL + rest, depth) == Done(NilReply, rest)
  {
    hide Numeral, ParseItem;
    LengthParses(n, depth, rest);
  }

  /** An array of a negative count other than -1 has no elements, and a huge size. */
  lemma NegativeCount(n: int, rest: ByteString, depth: nat)
    requires -TWO31 <= n < -1 && depth < 8
    ensures ParseItem([42] + Numeral(n) + EOL + rest, depth) == Done(ArrayReply(n + 0x1_0000_0000_0000_0000, []), rest)
  {
    hide Numeral, ParseItem, ParseElements;
    CountParses(n, depth, rest);
    assert ToInt(n) == n && ToSize(n) == n + TWO64;
  }
}
