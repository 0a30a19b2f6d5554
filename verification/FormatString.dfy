/**
  redisvFormatCommand: literal characters, %s, %b, %% and the conversions that are
  left to printf.

  The reference splits the format into words first and fills the words in
  afterwards, so the boundaries of the arguments cannot depend on what is filled in.
 */
module FormatString {
  import opened Bytes
  import opened Numbers
  import opened Format

  /** An argument of the variable argument list: a C string, a range of bytes, or
      the text that printf makes of a number. */
  datatype VarArg = Text(s: ByteString) | Binary(b: ByteString, size: nat) | Printed(s: ByteString)

  /** A piece of the format. A skipped slot takes a value and prints nothing; Bad is
      an unknown conversion, and Cut one that the end of the format cuts off. */
  datatype Token = Blank | Char(b: Byte) | TextSlot | BinarySlot | PrintedSlot | SkippedSlot | Bad | Cut

  predicate IsSlot(t: Token) {
    t == TextSlot || t == BinarySlot || t == PrintedSlot || t == SkippedSlot
  }

  predicate IsEnd(t: Token) {
    t == Bad || t == Cut
  }

  // ---------- Conversions ----------

  /** The size of the buffer a conversion is copied to, less 2. */
  const MAX_CONVERSION: nat := 14

  /** "diouxX" */
  predicate IsIntConversion(b: Byte) {
    b in {100, 105, 111, 117, 120, 88}
  }

  /** "eEfFgGaA" */
  predicate IsDoubleConversion(b: Byte) {
    b in {101, 69, 102, 70, 103, 71, 97, 65}
  }

  function SkipOne(f: ByteString, p: nat, b: Byte): (q: nat)
    requires b != NUL
    ensures p <= q && (p <= |f| ==> q <= |f|)
  {
    if At(f, p) == b then p + 1 else p
  }

  function SkipDigits(f: ByteString, p: nat): (q: nat)
    ensures p <= q && (p <= |f| ==> q <= |f|)
    ensures !IsDigit(At(f, q)) && forall i :: p <= i < q ==> IsDigit(At(f, i))
    decreases if p < |f| then |f| - p else 0
  {
    if IsDigit(At(f, p)) then SkipDigits(f, p + 1) else p
  }

  /** The flags, each at most once and in this order, the width and the precision. */
  function SkipModifiers(f: ByteString, p: nat): (q: nat)
    ensures p <= q && (p <= |f| ==> q <= |f|)
  {
    var flags := SkipOne(f, SkipOne(f, SkipOne(f, SkipOne(f, SkipOne(f, p, HASH), ZERO), MINUS), SPACE), PLUS);
    var width := SkipDigits(f, flags);
    if At(f, width) == DOT then SkipDigits(f, width + 1) else width
  }

  /** Where a conversion ends, by its last character. */
  datatype Conversion = Ends(last: nat) | Unknown

  function Sized(f: ByteString, q: nat): Conversion {
    if IsIntConversion(At(f, q)) then Ends(q) else Unknown
  }

  /** The conversion whose modifiers start at p. strchr also finds the NUL at the
      end of its string, so the end of the format is taken for an int conversion. */
  function ConversionAt(f: ByteString, p: nat): (c: Conversion)
    requires p <= |f|
    ensures c.Ends? ==> p <= c.last <= |f|
  {
    ConversionEnd(f, SkipModifiers(f, p))
  }

  /** The same behind the modifiers. */
  function ConversionEnd(f: ByteString, q: nat): (c: Conversion)
    requires q <= |f|
    ensures c.Ends? ==> q <= c.last <= |f|
  {
    if At(f, q) == NUL || IsIntConversion(f[q]) || IsDoubleConversion(f[q]) then Ends(q)
    else if f[q] == LOWER_H then Sized(f, if At(f, q + 1) == LOWER_H then q + 2 else q + 1)
    else if f[q] == LOWER_L then Sized(f, if At(f, q + 1) == LOWER_L then q + 2 else q + 1)
    else Unknown
  }

  datatype Step = Step(token: Token, next: nat)

  /** The token at position c, and where the next one starts. The text of a
      conversion that is too long is not printed, and only its first two
      characters are passed over. When the end of the format is taken for a
      conversion, reading goes on behind it. */
  function StepAt(f: ByteString, c: nat): (s: Step)
    requires c < |f|
    ensures c < s.next <= |f|
  {
    if f[c] != PERCENT || At(f, c + 1) == NUL then
      Step(if f[c] == SPACE then Blank else Char(f[c]), c + 1)
    else if f[c + 1] == LOWER_S then Step(TextSlot, c + 2)
    else if f[c + 1] == LOWER_B then Step(BinarySlot, c + 2)
    else if f[c + 1] == PERCENT then Step(Char(PERCENT), c + 2)
    else
      match ConversionAt(f, c + 1)
      case Unknown => Step(Bad, |f|)
      case Ends(q) =>
        if q + 1 - c >= MAX_CONVERSION then Step(SkippedSlot, c + 2)
        else if At(f, q) == NUL then Step(Cut, |f|)
        else Step(PrintedSlot, q + 1)
  }

  /** The format from position c on as a sequence of tokens. */
  function TokensFrom(f: ByteString, c: nat): (ts: seq<Token>)
    requires c <= |f|
    decreases |f| - c
  {
    if At(f, c) == NUL then []
    else
      var s := StepAt(f, c);
      [s.token] + if IsEnd(s.token) then [] else TokensFrom(f, s.next)
  }

  function Tokens(f: ByteString): seq<Token> {
    TokensFrom(f, 0)
  }

  /** No conversion is cut off. The caller has to see to that. */
  predicate Supported(f: ByteString) {
    Cut !in Tokens(f)
  }

  // ---------- The reference: words first, values second ----------

  /** The length of the first word. */
  function WordLength(ts: seq<Token>): (n: nat)
    ensures n <= |ts|
    ensures forall i :: 0 <= i < n ==> ts[i] != Blank
    ensures n < |ts| ==> ts[n] == Blank
  {
    if ts == [] || ts[0] == Blank then 0 else 1 + WordLength(ts[1..])
  }

  /** The words between the blanks. */
  function Words(ts: seq<Token>): seq<seq<Token>>
    decreases |ts|
  {
    if ts == [] then []
    else if ts[0] == Blank then Words(ts[1..])
    else [ts[..WordLength(ts)]] + Words(ts[WordLength(ts)..])
  }

  /** The number of values a piece of the format takes. */
  function Slots(ts: seq<Token>): nat {
    if ts == [] then 0 else (if IsSlot(ts[0]) then 1 else 0) + Slots(ts[1..])
  }

  /** The values fit the slots: %s takes a C string, %b a pointer and a size. */
  predicate Fits(ts: seq<Token>, args: seq<VarArg>) {
    if ts == [] then true
    else if ts[0] == TextSlot then args != [] && args[0].Text? && Fits(ts[1..], args[1..])
    else if ts[0] == BinarySlot then
      args != [] && args[0].Binary? && args[0].size <= |args[0].b| && Fits(ts[1..], args[1..])
    else if IsSlot(ts[0]) then args != [] && args[0].Printed? && Fits(ts[1..], args[1..])
    else Fits(ts[1..], args)
  }

  /** What a slot prints. */
  function ValueOf(t: Token, a: VarArg): ByteString {
    if t == SkippedSlot then []
    else
      match a
      case Text(s) => CString(s)
      case Binary(b, size) => if size <= |b| then b[..size] else b
      case Printed(s) => CString(s)
  }

  /** One word with its values filled in. */
  function FillWord(word: seq<Token>, args: seq<VarArg>): ByteString {
    if word == [] then []
    else
      match word[0]
      case Char(b) => [b] + FillWord(word[1..], args)
      case Blank => FillWord(word[1..], args)
      case Bad => []
      case Cut => []
      case _ => if args == [] then [] else ValueOf(word[0], args[0]) + FillWord(word[1..], args[1..])
  }

  /** All words; each takes its values from where the words before it stop. */
  function FillWords(words: seq<seq<Token>>, args: seq<VarArg>): (r: seq<ByteString>)
    ensures |r| == |words|
  {
    if words == [] then []
    else
      var n := Slots(words[0]);
      [FillWord(words[0], args)] + FillWords(words[1..], if n <= |args| then args[n..] else [])
  }

  // ---------- What the loop does: one token after the other ----------

  /** The arguments still to come, when `cur` is the argument being built. */
  function Assemble(ts: seq<Token>, args: seq<VarArg>, cur: ByteString, touched: bool): seq<ByteString>
    requires Fits(ts, args)
    decreases |ts|
  {
    if ts == [] then
      if touched then [cur] else []
    else
      match ts[0]
      case Blank => if touched then [cur] + Assemble(ts[1..], args, [], false) else Assemble(ts[1..], args, cur, false)
      case Char(b) => Assemble(ts[1..], args, cur + [b], true)
      case Bad => []
      case Cut => []
      case _ => Assemble(ts[1..], args[1..], cur + ValueOf(ts[0], args[0]), true)
  }

  lemma {:induction false} AssembleIsFill(ts: seq<Token>, args: seq<VarArg>)
    requires Fits(ts, args) && Bad !in ts && Cut !in ts
    ensures Assemble(ts, args, [], false) == FillWords(Words(ts), args)
    decreases |ts|, 1
  {
    if ts != [] {
      if ts[0] == Blank {
        AssembleIsFill(ts[1..], args);
      } else {
        AssembleWord(ts, args, []);
        if IsSlot(ts[0]) {
          assert Assemble(ts, args, [], true) == Assemble(ts, args, [], false);
        }
        assert [] + FillWord(ts[..WordLength(ts)], args) == FillWord(ts[..WordLength(ts)], args);
      }
    }
  }

  /** Inside a word the current argument only grows, up to the next blank. */
  lemma {:induction false} AssembleWord(ts: seq<Token>, args: seq<VarArg>, cur: ByteString)
    requires Fits(ts, args) && Bad !in ts && Cut !in ts
    ensures var n := WordLength(ts);
            && Slots(ts[..n]) <= |args| && Fits(ts[n..], args[Slots(ts[..n])..])
            && Assemble(ts, args, cur, true)
               == [cur + FillWord(ts[..n], args)] + FillWords(Words(ts[n..]), args[Slots(ts[..n])..])
    decreases |ts|, 0
  {
    hide ValueOf;
    var n := WordLength(ts);
    if n == 0 {
      assert cur + FillWord(ts[..0], args) == cur;
      assert ts[0..] == ts && args[0..] == args;
      if ts != [] {
        AssembleIsFill(ts[1..], args);
      }
    } else {
      var word := ts[..n];
      assert word[1..] == ts[1..][..n - 1];
      assert ts[1..][n - 1..] == ts[n..];
      if ts[0].Char? {
        var next := cur + [ts[0].b];
        AssembleWord(ts[1..], args, next);
        assert cur + FillWord(word, args) == next + FillWord(word[1..], args);
      } else {
        var next := cur + ValueOf(ts[0], args[0]);
        AssembleWord(ts[1..], args[1..], next);
        assert cur + FillWord(word, args) == next + FillWord(word[1..], args[1..]);
        assert args[1..][Slots(word[1..])..] == args[Slots(word)..];
      }
    }
  }

  /** The arguments that a format and its values denote. */
  function Arguments(format: ByteString, args: seq<VarArg>): seq<ByteString> {
    FillWords(Words(Tokens(format)), args)
  }

  lemma {:induction false} ArgumentBoundaries(words: seq<seq<Token>>, args: seq<VarArg>, j: nat)
    requires j < |words|
    ensures FillWords(words, args)[j] == FillWord(words[j], DropValues(args, SlotsBefore(words, j)))
  {
    if j > 0 {
      var n := Slots(words[0]);
      ArgumentBoundaries(words[1..], DropValues(args, n), j - 1);
      assert DropValues(DropValues(args, n), SlotsBefore(words[1..], j - 1)) == DropValues(args, SlotsBefore(words, j));
    }
  }

  /** The boundaries of the arguments depend on the format alone: there is one
      argument for each word, filled from the values that belong to its slots. */
  lemma ArgumentsFollowFormat(format: ByteString, args: seq<VarArg>, j: nat)
    requires j < |Words(Tokens(format))|
    ensures var words := Words(Tokens(format));
            && |Arguments(format, args)| == |words|
            && Arguments(format, args)[j] == FillWord(words[j], DropValues(args, SlotsBefore(words, j)))
  {
    ArgumentBoundaries(Words(Tokens(format)), args, j);
  }

  function DropValues(args: seq<VarArg>, n: nat): seq<VarArg> {
    if n <= |args| then args[n..] else []
  }

  /** The number of values that the first j words take. */
  function SlotsBefore(words: seq<seq<Token>>, j: nat): nat
    requires j <= |words|
  {
    if j == 0 then 0 else Slots(words[0]) + SlotsBefore(words[1..], j - 1)
  }

  lemma AssembleStep(t: Token, ts: seq<Token>, args: seq<VarArg>, cur: ByteString, touched: bool)
    requires Fits([t] + ts, args)
    ensures t == Blank ==>
              && Fits(ts, args)
              && Assemble([t] + ts, args, cur, touched)
                 == if touched then [cur] + Assemble(ts, args, [], false) else Assemble(ts, args, cur, false)
    ensures t.Char? ==>
              && Fits(ts, args)
              && Assemble([t] + ts, args, cur, touched) == Assemble(ts, args, cur + [t.b], true)
    ensures IsSlot(t) ==>
              && args != [] && Fits(ts, args[1..])
              && (t == TextSlot <==> args[0].Text?) && (t == BinarySlot <==> args[0].Binary?)
              && (args[0].Binary? ==> args[0].size <= |args[0].b|)
              && Assemble([t] + ts, args, cur, touched) == Assemble(ts, args[1..], cur + ValueOf(t, args[0]), true)
  {
    assert ([t] + ts)[1..] == ts;
  }

  method ScanOne(format: ByteString, p: nat, b: Byte) returns (q: nat)
    requires b != NUL
    ensures q == SkipOne(format, p, b)
  {
    q := p;
    if At(format, q) == b {
      q := q + 1;
    }
  }

  /** The flags, the width and the precision. */
  method ScanModifiers(format: ByteString, p: nat) returns (q: nat)
    requires p <= |format|
    ensures q == SkipModifiers(format, p)
  {
    hide SkipDigits, SkipOne;
    q := ScanOne(format, p, HASH);
    q := ScanOne(format, q, ZERO);
    q := ScanOne(format, q, MINUS);
    q := ScanOne(format, q, SPACE);
    q := ScanOne(format, q, PLUS);
    q := ScanDigits(format, q);
    if At(format, q) == DOT {
      q := ScanDigits(format, q + 1);
    }
  }

  /** The scan for a conversion: where its last character is, or none. */
  method ScanConversion(format: ByteString, p: nat) returns (last: Option<nat>)
    requires p <= |format|
    ensures last == match ConversionAt(format, p) case Ends(q) => Some(q) case Unknown => None
  {
    hide SkipModifiers, IsIntConversion, IsDoubleConversion;
    var q := ScanModifiers(format, p);
    if At(format, q) == NUL || IsIntConversion(At(format, q)) || IsDoubleConversion(At(format, q)) {
      return Some(q);
    }
    if At(format, q) == LOWER_H && At(format, q + 1) == LOWER_H {
      q := q + 2;
    } else if At(format, q) == LOWER_H {
      q := q + 1;
    } else if At(format, q) == LOWER_L && At(format, q + 1) == LOWER_L {
      q := q + 2;
    } else if At(format, q) == LOWER_L {
      q := q + 1;
    } else {
      return None;
    }
    last := if IsIntConversion(At(format, q)) then Some(q) else None;
  }

  method ScanDigits(format: ByteString, p: nat) returns (q: nat)
    requires p <= |format|
    ensures q == SkipDigits(format, p)
  {
    q := p;
    while IsDigit(At(format, q))
      invariant p <= q <= |format| && SkipDigits(format, q) == SkipDigits(format, p)
      decreases |format| - q
    {
      q := q + 1;
    }
  }

  /** Appending a value, when there is one. */
  method Interpolate(slot: Token, value: VarArg, curarg: ByteString) returns (newarg: ByteString)
    requires value.Binary? ==> value.size <= |value.b|
    ensures newarg == curarg + ValueOf(slot, value)
  {
    newarg := curarg;
    if slot == SkippedSlot {
      return;
    }
    var arg := match value
      case Text(s) => CString(s)
      case Binary(b, size) => b[..size]
      case Printed(s) => CString(s);
    if |arg| > 0 {
      newarg := curarg + arg;
    }
  }

  /** What the characters at c mean: the cases of redisvFormatCommand. */
  method ReadToken(format: ByteString, c: nat) returns (step: Step)
    requires c < |format| && StepAt(format, c).token != Cut
    ensures step == StepAt(format, c)
  {
    if format[c] != PERCENT || At(format, c + 1) == NUL {
      return Step(if format[c] == SPACE then Blank else Char(format[c]), c + 1);
    }
    if format[c + 1] == LOWER_S {
      return Step(TextSlot, c + 2);
    } else if format[c + 1] == LOWER_B {
      return Step(BinarySlot, c + 2);
    } else if format[c + 1] == PERCENT {
      return Step(Char(PERCENT), c + 2);
    }
    var last := ScanConversion(format, c + 1);
    if last == None {
      return Step(Bad, |format|);
    }
    step := if last.value + 1 - c < MAX_CONVERSION then Step(PrintedSlot, last.value + 1)
            else Step(SkippedSlot, c + 2);
  }

  lemma TokenStep(f: ByteString, c: nat)
    requires c < |f| && f[c] != NUL && Cut !in TokensFrom(f, c)
    ensures var s := StepAt(f, c);
            && s.token != Cut
            && if s.token == Bad then TokensFrom(f, c) == [Bad]
               else
                 && TokensFrom(f, c) == [s.token] + TokensFrom(f, s.next)
                 && Cut !in TokensFrom(f, s.next)
                 && (Bad in TokensFrom(f, c) <==> Bad in TokensFrom(f, s.next))
  {
    var s := StepAt(f, c);
    assert TokensFrom(f, c)[0] == s.token;
    if !IsEnd(s.token) {
      assert TokensFrom(f, c) == [s.token] + TokensFrom(f, s.next);
    }
  }

  /** An argument is complete: at a space, and at the end of the format. */
  method EndArgument(curargv: seq<ByteString>, curarg: ByteString, touched: bool, totlen: nat)
    returns (newargv: seq<ByteString>, newlen: nat)
    requires totlen == |Bulks(curargv)|
    ensures newargv == (if touched then curargv + [curarg] else curargv) && newlen == |Bulks(newargv)|
  {
    hide Decimal, Bulk, Bulks;
    newargv, newlen := curargv, totlen;
    if touched {
      var size := BulkLen(|curarg|);
      MoreBulks(curargv, curarg);
      newargv, newlen := curargv + [curarg], totlen + size;
    }
  }

  /** A character or a value goes to the end of the argument. */
  method Extend(token: Token, args: seq<VarArg>, used: nat, curarg: ByteString)
    returns (newarg: ByteString, newused: nat)
    requires token.Char? || IsSlot(token)
    requires IsSlot(token) ==> used < |args| && (args[used].Binary? ==> args[used].size <= |args[used].b|)
    ensures token.Char? ==> newarg == curarg + [token.b] && newused == used
    ensures IsSlot(token) ==> newarg == curarg + ValueOf(token, args[used]) && newused == used + 1
  {
    hide ValueOf;
    if token.Char? {
      newarg, newused := curarg + [token.b], used;
    } else {
      newarg := Interpolate(token, args[used], curarg);
      newused := used + 1;
    }
  }

  /** Before the token at position c: what has been collected and what is still to
      come are all the arguments. */
  ghost predicate Collecting(format: ByteString, args: seq<VarArg>, c: nat, used: nat,
                             curargv: seq<ByteString>, curarg: ByteString, touched: bool)
  {
    && c <= |format| && used <= |args|
    && Supported(format) && Cut !in TokensFrom(format, c) && (Bad in TokensFrom(format, c) <==> Bad in Tokens(format))
    && Fits(TokensFrom(format, c), args[used..]) && Fits(Tokens(format), args)
    && (!touched ==> curarg == [])
    && Assemble(Tokens(format), args, [], false)
       == curargv + Assemble(TokensFrom(format, c), args[used..], curarg, touched)
  }

  lemma CollectToken(format: ByteString, args: seq<VarArg>, c: nat, used: nat,
                     curargv: seq<ByteString>, curarg: ByteString, touched: bool)
    requires Collecting(format, args, c, used, curargv, curarg, touched) && At(format, c) != NUL
    ensures var s := StepAt(format, c);
            && s.token != Cut && (s.token == Bad ==> Bad in Tokens(format))
            && (s.token == Blank ==>
                  Collecting(format, args, s.next, used, if touched then curargv + [curarg] else curargv, [], false))
            && (s.token.Char? ==> Collecting(format, args, s.next, used, curargv, curarg + [s.token.b], true))
            && (IsSlot(s.token) ==>
                  && used < |args| && (args[used].Binary? ==> args[used].size <= |args[used].b|)
                  && Collecting(format, args, s.next, used + 1, curargv, curarg + ValueOf(s.token, args[used]), true))
  {
    hide TokensFrom, Assemble, Fits, ValueOf, StepAt;
    TokenStep(format, c);
    var s := StepAt(format, c);
    if s.token != Bad {
      var later := TokensFrom(format, s.next);
      AssembleStep(s.token, later, args[used..], curarg, touched);
      if s.token == Blank {
        var more := Assemble(later, args[used..], [], false);
        assert curargv + ([curarg] + more) == curargv + [curarg] + more;
      } else if IsSlot(s.token) {
        assert args[used..][1..] == args[used + 1..];
      }
    }
  }

  lemma Collected(format: ByteString, args: seq<VarArg>, c: nat, used: nat,
                  curargv: seq<ByteString>, curarg: ByteString, touched: bool)
    requires Collecting(format, args, c, used, curargv, curarg, touched) && At(format, c) == NUL
    ensures Bad !in Tokens(format)
    ensures Arguments(format, args) == if touched then curargv + [curarg] else curargv
  {
    hide TokensFrom, Assemble, Fits, FillWords, Words;
    NoTokens(format, c);
    AssembleEnd(args[used..], curarg, touched);
    assert curargv + [] == curargv;
    AssembleIsFill(Tokens(format), args);
  }

  /** The arguments that the format denotes, or none for a bad conversion. */
  method CollectArguments(format: ByteString, args: seq<VarArg>)
    returns (argv: Option<seq<ByteString>>, totlen: nat)
    requires Supported(format) && Fits(Tokens(format), args)
    ensures argv == if Bad in Tokens(format) then None else Some(Arguments(format, args))
    ensures argv.Some? ==> totlen == |Bulks(argv.value)|
  {
    hide Decimal, Bulk, Bulks, TokensFrom, Assemble, Fits, FillWords, Words, ValueOf, StepAt, Collecting;
    assert Bulks([]) == [] by { NoBulks(); }
    var curargv: seq<ByteString>, curarg: ByteString, touched := [], [], false;
    var c, used := 0, 0;
    totlen := 0;
    StartCollecting(format, args);
    while At(format, c) != NUL
      invariant Collecting(format, args, c, used, curargv, curarg, touched) && totlen == |Bulks(curargv)|
      invariant c <= |format|
      decreases |format| - c
    {
      CollectToken(format, args, c, used, curargv, curarg, touched);
      var step := ReadToken(format, c);
      if step.token == Bad {
        return None, 0;
      }
      if step.token == Blank {
        curargv, totlen := EndArgument(curargv, curarg, touched, totlen);
        curarg, touched := [], false;
      } else {
        curarg, used := Extend(step.token, args, used, curarg);
        touched := true;
      }
      c := step.next;
    }
    Collected(format, args, c, used, curargv, curarg, touched);
    curargv, totlen := EndArgument(curargv, curarg, touched, totlen);
    argv := Some(curargv);
  }

  lemma StartCollecting(format: ByteString, args: seq<VarArg>)
    requires Supported(format) && Fits(Tokens(format), args)
    ensures Collecting(format, args, 0, 0, [], [], false)
  {
    hide TokensFrom, Assemble, Fits;
    assert args[0..] == args;
  }

  /** redisvFormatCommand. The asserted length is the one computed while the
      arguments were collected; an unknown conversion gives -1 and no command. */
  method FormatCommand(format: ByteString, args: seq<VarArg>) returns (cmd: array?<Byte>, totlen: int)
    requires Supported(format) && Fits(Tokens(format), args)
    ensures Bad in Tokens(format) ==> cmd == null && totlen == -1
    ensures Bad !in Tokens(format) ==>
              && cmd != null && fresh(cmd) && cmd.Length == totlen + 1 > 0
              && cmd[..totlen] == Command(Arguments(format, args)) && cmd[totlen] == NUL
  {
    hide Decimal, Bulk, Bulks, TokensFrom, Fits, Command, FillWords, Words;
    var argv, size := CollectArguments(format, args);
    if argv == None {
      return null, -1;
    }
    var digits := IntLen(|argv.value|);
    CommandLength(argv.value);
    totlen := size + 1 + digits + 2;
    cmd := Build(argv.value, totlen);
  }

  lemma NoTokens(f: ByteString, c: nat)
    requires c <= |f| && At(f, c) == NUL
    ensures TokensFrom(f, c) == []
  {
  }

  lemma NoBulks()
    ensures Bulks([]) == []
  {
  }

  lemma AssembleEnd(args: seq<VarArg>, cur: ByteString, touched: bool)
    ensures Fits([], args) && Assemble([], args, cur, touched) == if touched then [cur] else []
  {
  }

  lemma CommandLength(args: seq<ByteString>)
    ensures |Command(args)| == 1 + |Decimal(|args|)| + 2 + |Bulks(args)|
  {
  }
}
