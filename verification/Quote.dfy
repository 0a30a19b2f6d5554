/** Quoting strings (sdscatrepr) and splitting a line into arguments (sdssplitargs). */
module Quote {
  import opened Bytes

  // ---------- Printing ----------

  function HexDigit(n: nat): Byte
    requires n < 16
  {
    if n < 10 then ZERO + n else LOWER_A + (n - 10)
  }

  /** The representation of one byte between double quotes. */
  function Escape(b: Byte): (s: ByteString)
    ensures 1 <= |s| <= 4
  {
    if b == BACKSLASH || b == QUOTE then [BACKSLASH, b]
    else if b == LF then [BACKSLASH, LOWER_N]
    else if b == CR then [BACKSLASH, LOWER_R]
    else if b == TAB then [BACKSLASH, LOWER_T]
    else if b == BEL then [BACKSLASH, LOWER_A]
    else if b == BACKSPACE then [BACKSLASH, LOWER_B]
    else if IsPrint(b) then [b]
    else [BACKSLASH, LOWER_X, HexDigit(b / 16), HexDigit(b % 16)]
  }

  function EscapeAll(p: ByteString): ByteString {
    if p == [] then [] else Escape(p[0]) + EscapeAll(p[1..])
  }

  function Quoted(p: ByteString): ByteString {
    [QUOTE] + EscapeAll(p) + [QUOTE]
  }

  lemma {:induction false} EscapeAllAppend(p: ByteString, b: Byte)
    ensures EscapeAll(p + [b]) == EscapeAll(p) + Escape(b)
  {
    if p == [] {
      assert [b][1..] == [];
      assert EscapeAll([b]) == Escape(b) + EscapeAll([]) == Escape(b);
    } else {
      assert (p + [b])[1..] == p[1..] + [b];
      EscapeAllAppend(p[1..], b);
    }
  }

  /** sdscatrepr */
  method CatRepr(s: ByteString, p: ByteString) returns (r: ByteString)
    ensures r == s + Quoted(p)
  {
    hide EscapeAll;
    r := s + [QUOTE];
    assert EscapeAll([]) == [] by { NoEscapes(); }
    for i := 0 to |p|
      invariant r == s + [QUOTE] + EscapeAll(p[..i])
    {
      var b := p[i];
      assert p[..i + 1] == p[..i] + [b];
      EscapeAllAppend(p[..i], b);
      if b == BACKSLASH || b == QUOTE {
        r := r + [BACKSLASH, b];
      } else if b == LF {
        r := r + [BACKSLASH, LOWER_N];
      } else if b == CR {
        r := r + [BACKSLASH, LOWER_R];
      } else if b == TAB {
        r := r + [BACKSLASH, LOWER_T];
      } else if b == BEL {
        r := r + [BACKSLASH, LOWER_A];
      } else if b == BACKSPACE {
        r := r + [BACKSLASH, LOWER_B];
      } else if IsPrint(b) {
        r := r + [b];
      } else {
        r := r + [BACKSLASH, LOWER_X, HexDigit(b / 16), HexDigit(b % 16)];
      }
    }
    assert p[..|p|] == p;
    r := r + [QUOTE];
  }

  lemma NoEscapes()
    ensures EscapeAll([]) == []
  {
  }

  // ---------- Splitting ----------

  /** is_hex_digit */
  predicate IsHexDigit(c: Byte) {
    IsDigit(c) || LOWER_A <= c <= LOWER_A + 5 || 65 <= c <= 70
  }

  /** hex_digit_to_int */
  function HexValue(c: Byte): (n: nat)
    ensures n < 16
  {
    if IsDigit(c) then c - ZERO
    else if LOWER_A <= c <= LOWER_A + 5 then c - LOWER_A + 10
    else if 65 <= c <= 70 then c - 65 + 10
    else 0
  }

  /** The byte that a backslash and c stand for. */
  function Unescape(c: Byte): Byte {
    if c == LOWER_N then LF
    else if c == LOWER_R then CR
    else if c == LOWER_T then TAB
    else if c == LOWER_B then BACKSPACE
    else if c == LOWER_A then BEL
    else c
  }

  /** Outside quotes, in double quotes (inq), in single quotes (insq). */
  datatype Mode = Plain | Double | Single

  /** A token and what follows it, or quotes that do not close properly. */
  datatype Token = Token(text: ByteString, rest: ByteString) | Unbalanced

  predicate EndsToken(c: Byte) {
    c == SPACE || c == LF || c == CR || c == TAB || c == NUL
  }

  /** A closing quote must be followed by a space or by nothing. */
  function CloseQuote(s: ByteString, cur: ByteString): Token {
    if At(s, 1) != NUL && !IsSpace(At(s, 1)) then Unbalanced else Token(cur, Skip(s, 1))
  }

  function Skip(s: ByteString, n: nat): ByteString {
    if n <= |s| then s[n..] else []
  }

  predicate IsHexEscape(s: ByteString) {
    At(s, 0) == BACKSLASH && At(s, 1) == LOWER_X && IsHexDigit(At(s, 2)) && IsHexDigit(At(s, 3))
  }

  /** The rest of a token, of which `cur` has been read. */
  function ReadToken(s: ByteString, mode: Mode, cur: ByteString): (t: Token)
    ensures t.Token? ==> |t.rest| <= |s|
    decreases |s|
  {
    match mode
    case Double =>
      if IsHexEscape(s) then ReadToken(Skip(s, 4), Double, cur + [HexValue(At(s, 2)) * 16 + HexValue(At(s, 3))])
      else if At(s, 0) == BACKSLASH && At(s, 1) != NUL then ReadToken(Skip(s, 2), Double, cur + [Unescape(At(s, 1))])
      else if At(s, 0) == QUOTE then CloseQuote(s, cur)
      else if At(s, 0) == NUL then Unbalanced
      else ReadToken(Skip(s, 1), Double, cur + [At(s, 0)])
    case Single =>
      if At(s, 0) == BACKSLASH && At(s, 1) == APOSTROPHE then ReadToken(Skip(s, 2), Single, cur + [APOSTROPHE])
      else if At(s, 0) == APOSTROPHE then CloseQuote(s, cur)
      else if At(s, 0) == NUL then Unbalanced
      else ReadToken(Skip(s, 1), Single, cur + [At(s, 0)])
    case Plain =>
      if EndsToken(At(s, 0)) then Token(cur, if At(s, 0) == NUL then s else Skip(s, 1))
      else if At(s, 0) == QUOTE then ReadToken(Skip(s, 1), Double, cur)
      else if At(s, 0) == APOSTROPHE then ReadToken(Skip(s, 1), Single, cur)
      else ReadToken(Skip(s, 1), Plain, cur + [At(s, 0)])
  }

  function SkipBlanks(s: ByteString): (r: ByteString)
    ensures |r| <= |s| && !IsSpace(At(r, 0))
  {
    if IsSpace(At(s, 0)) then SkipBlanks(s[1..]) else s
  }

  lemma TokenShrinks(s: ByteString)
    requires At(s, 0) != NUL && !IsSpace(At(s, 0))
    ensures var t := ReadToken(s, Plain, []); t.Token? ==> |t.rest| < |s|
  {
  }

  /** The arguments on a line; none if quotes are unbalanced. */
  function Split(s: ByteString): Option<seq<ByteString>>
    decreases |s|
  {
    var line := SkipBlanks(s);
    if At(line, 0) == NUL then Some([])
    else
      TokenShrinks(line);
      match ReadToken(line, Plain, [])
      case Unbalanced => None
      case Token(text, rest) =>
        match Split(rest)
        case None => None
        case Some(more) => Some([text] + more)
  }

  lemma SuffixAt(line: ByteString, p: nat, n: nat)
    requires p <= |line|
    ensures At(line[p..], n) == At(line, p + n)
    ensures Skip(line[p..], n) == Skip(line, p + n)
  {
  }

  lemma CloseQuoteAt(line: ByteString, p: nat, cur: ByteString)
    requires p < |line|
    ensures CloseQuote(line[p..], cur)
         == if At(line, p + 1) != NUL && !IsSpace(At(line, p + 1)) then Unbalanced else Token(cur, line[p + 1..])
  {
    SuffixAt(line, p, 1);
  }

  datatype Progress = Going | Done | Error

  /** How one round of the inner loop of sdssplitargs relates to the token. */
  ghost predicate Round(line: ByteString, p: nat, mode: Mode, cur: ByteString,
                        r: Progress, p': nat, mode': Mode, cur': ByteString) {
    && p <= p' <= |line|
    && match r
       case Error => ReadToken(line[p..], mode, cur) == Unbalanced
       case Done => ReadToken(line[p..], mode, cur) == Token(cur', line[p'..])
       case Going => p < p' && ReadToken(line[p..], mode, cur) == ReadToken(line[p'..], mode', cur')
  }

  /** The case inq. */
  method InDouble(line: ByteString, start: nat, cur: ByteString) returns (r: Progress, p: nat, current: ByteString)
    requires start <= |line|
    ensures Round(line, start, Double, cur, r, p, Double, current)
  {
    hide CloseQuote, HexValue, Unescape;
    SuffixAt(line, start, 0);
    SuffixAt(line, start, 1);
    SuffixAt(line, start, 2);
    SuffixAt(line, start, 3);
    SuffixAt(line, start, 4);
    p, current, r := start, cur, Going;
    if At(line, p) == BACKSLASH && At(line, p + 1) == LOWER_X
       && IsHexDigit(At(line, p + 2)) && IsHexDigit(At(line, p + 3)) {
      current := current + [HexValue(At(line, p + 2)) * 16 + HexValue(At(line, p + 3))];
      p := p + 3;
    } else if At(line, p) == BACKSLASH && At(line, p + 1) != NUL {
      p := p + 1;
      current := current + [Unescape(At(line, p))];
    } else if At(line, p) == QUOTE {
      CloseQuoteAt(line, p, current);
      if At(line, p + 1) != NUL && !IsSpace(At(line, p + 1)) {
        return Error, p, current;
      }
      r := Done;
    } else if At(line, p) == NUL {
      return Error, p, current;
    } else {
      current := current + [At(line, p)];
    }
    if At(line, p) != NUL {
      p := p + 1;
    }
  }

  /** The case insq. */
  method InSingle(line: ByteString, start: nat, cur: ByteString) returns (r: Progress, p: nat, current: ByteString)
    requires start <= |line|
    ensures Round(line, start, Single, cur, r, p, Single, current)
  {
    hide CloseQuote;
    SuffixAt(line, start, 0);
    SuffixAt(line, start, 1);
    SuffixAt(line, start, 2);
    p, current, r := start, cur, Going;
    if At(line, p) == BACKSLASH && At(line, p + 1) == APOSTROPHE {
      p := p + 1;
      current := current + [APOSTROPHE];
    } else if At(line, p) == APOSTROPHE {
      CloseQuoteAt(line, p, current);
      if At(line, p + 1) != NUL && !IsSpace(At(line, p + 1)) {
        return Error, p, current;
      }
      r := Done;
    } else if At(line, p) == NUL {
      return Error, p, current;
    } else {
      current := current + [At(line, p)];
    }
    if At(line, p) != NUL {
      p := p + 1;
    }
  }

  /** Outside quotes. */
  method InPlain(line: ByteString, start: nat, cur: ByteString)
    returns (r: Progress, p: nat, mode: Mode, current: ByteString)
    requires start <= |line|
    ensures Round(line, start, Plain, cur, r, p, mode, current)
  {
    SuffixAt(line, start, 0);
    SuffixAt(line, start, 1);
    p, current, r, mode := start, cur, Going, Plain;
    if EndsToken(At(line, p)) {
      r := Done;
    } else if At(line, p) == QUOTE {
      mode := Double;
    } else if At(line, p) == APOSTROPHE {
      mode := Single;
    } else {
      current := current + [At(line, p)];
    }
    if At(line, p) != NUL {
      p := p + 1;
    }
  }

  /** The inner loop of sdssplitargs: one token from position p on. */
  method NextToken(line: ByteString, start: nat) returns (ok: bool, current: ByteString, p: nat)
    requires start < |line|
    ensures start <= p <= |line|
    ensures var t := ReadToken(line[start..], Plain, []);
            if ok then t == Token(current, line[p..]) else t == Unbalanced
  {
    hide ReadToken;
    var mode, r := Plain, Going;
    current, p := [], start;
    while r == Going
      invariant start <= p <= |line| && r != Error
      invariant var t := ReadToken(line[start..], Plain, []);
                if r == Done then t == Token(current, line[p..]) else t == ReadToken(line[p..], mode, current)
      decreases r == Going, |line| - p
    {
      if mode == Double {
        r, p, current := InDouble(line, p, current);
      } else if mode == Single {
        r, p, current := InSingle(line, p, current);
      } else {
        r, p, mode, current := InPlain(line, p, current);
      }
      if r == Error {
        return false, current, p;
      }
    }
    ok := true;
  }

  function Prepend(vector: seq<ByteString>, more: Option<seq<ByteString>>): Option<seq<ByteString>> {
    if more == None then None else Some(vector + more.value)
  }

  lemma SplitStep(line: ByteString, vector: seq<ByteString>)
    requires At(line, 0) != NUL && !IsSpace(At(line, 0))
    ensures match ReadToken(line, Plain, [])
            case Unbalanced => Split(line) == None
            case Token(text, rest) =>
              |rest| < |line| && Prepend(vector, Split(line)) == Prepend(vector + [text], Split(rest))
  {
    TokenShrinks(line);
    var t := ReadToken(line, Plain, []);
    if t.Token? && Split(t.rest).Some? {
      var more := Split(t.rest).value;
      assert vector + ([t.text] + more) == vector + [t.text] + more;
    }
  }

  /** sdssplitargs */
  method SplitArgs(line: ByteString) returns (argv: Option<seq<ByteString>>)
    ensures argv == Split(line)
  {
    hide ReadToken, Split;
    var p, vector: seq<ByteString> := 0, [];
    assert line[0..] == line;
    assert Split(line) == Prepend(vector, Split(line)) by {
      assert Split(line).Some? ==> vector + Split(line).value == Split(line).value;
    }
    while true
      invariant p <= |line|
      invariant Split(line) == Prepend(vector, Split(line[p..]))
      decreases |line| - p
    {
      while At(line, p) != NUL && IsSpace(At(line, p))
        invariant p <= |line|
        invariant Split(line) == Prepend(vector, Split(line[p..]))
        decreases |line| - p
      {
        SplitAfterBlank(line[p..]);
        assert line[p..][1..] == line[p + 1..];
        p := p + 1;
      }
      if At(line, p) == NUL {
        SplitEnd(line[p..]);
        assert vector + [] == vector;
        return Some(vector);
      }
      SplitStep(line[p..], vector);
      var ok, current;
      ok, current, p := NextToken(line, p);
      if !ok {
        return None;
      }
      vector := vector + [current];
    }
  }

  lemma SplitEnd(s: ByteString)
    requires At(s, 0) == NUL
    ensures Split(s) == Some([])
  {
  }

  // ---------- Splitting undoes quoting ----------

  /** Between double quotes, each escaped byte reads as that byte. */
  lemma {:induction false} ReadEscaped(p: ByteString, rest: ByteString, cur: ByteString)
    requires At(rest, 0) == NUL || IsSpace(At(rest, 0))
    ensures ReadToken(EscapeAll(p) + [QUOTE] + rest, Double, cur) == Token(cur + p, rest)
    decreases |p|
  {
    if p == [] {
      var s := EscapeAll(p) + [QUOTE] + rest;
      assert s == [QUOTE] + rest;
      assert At(s, 1) == At(rest, 0) && Skip(s, 1) == rest && cur + p == cur;
    } else {
      var tail := EscapeAll(p[1..]) + [QUOTE] + rest;
      assert EscapeAll(p) + [QUOTE] + rest == Escape(p[0]) + tail;
      ReadEscape(p[0], tail, cur);
      ReadEscaped(p[1..], rest, cur + [p[0]]);
      assert cur + [p[0]] + p[1..] == cur + p;
    }
  }

  lemma ReadEscape(b: Byte, tail: ByteString, cur: ByteString)
    ensures ReadToken(Escape(b) + tail, Double, cur) == ReadToken(tail, Double, cur + [b])
  {
    var e := Escape(b);
    var s := e + tail;
    assert Skip(s, |e|) == tail;
    assert forall i :: 0 <= i < |e| ==> At(s, i) == e[i];
    if |e| == 4 {
      HexRoundTrip(b);
    }
  }

  lemma HexRoundTrip(b: Byte)
    ensures IsHexDigit(HexDigit(b / 16)) && IsHexDigit(HexDigit(b % 16))
    ensures HexValue(HexDigit(b / 16)) * 16 + HexValue(HexDigit(b % 16)) == b
  {
  }

  lemma ReadQuoted(p: ByteString, rest: ByteString)
    requires At(rest, 0) == NUL || IsSpace(At(rest, 0))
    ensures ReadToken(Quoted(p) + rest, Plain, []) == Token(p, rest)
  {
    var s := Quoted(p) + rest;
    assert s[1..] == EscapeAll(p) + [QUOTE] + rest;
    assert Skip(s, 1) == s[1..];
    ReadEscaped(p, rest, []);
    assert [] + p == p;
  }

  /** The quoted forms, with a space between any two. */
  function QuotedLine(args: seq<ByteString>): ByteString {
    if args == [] then []
    else if |args| == 1 then Quoted(args[0])
    else Quoted(args[0]) + [SPACE] + QuotedLine(args[1..])
  }

  /** Splitting a line of quoted strings gives the strings back, whatever bytes they hold. */
  lemma {:induction false} SplitUndoesQuote(args: seq<ByteString>)
    ensures Split(QuotedLine(args)) == Some(args)
    decreases |args|
  {
    hide ReadToken, Quoted;
    if args != [] {
      var line := QuotedLine(args);
      var rest := if |args| == 1 then [] else [SPACE] + QuotedLine(args[1..]);
      assert line == Quoted(args[0]) + rest;
      assert At(line, 0) == QUOTE by { QuotedStart(args[0], rest); }
      ReadQuoted(args[0], rest);
      SplitUndoesQuote(args[1..]);
      if |args| == 1 {
        assert args[1..] == [] && QuotedLine([]) == [];
      } else {
        assert rest[1..] == QuotedLine(args[1..]);
        SplitAfterBlank(rest);
      }
      assert [args[0]] + args[1..] == args;
    }
  }

  lemma QuotedStart(p: ByteString, rest: ByteString)
    ensures At(Quoted(p) + rest, 0) == QUOTE
  {
  }

  lemma SplitAfterBlank(s: ByteString)
    requires IsSpace(At(s, 0))
    ensures Split(s) == Split(s[1..])
  {
  }

  /** One quoted string is one argument. */
  lemma SplitUndoesCatRepr(p: ByteString)
    ensures Split(Quoted(p)) == Some([p])
  {
    SplitUndoesQuote([p]);
  }
}
