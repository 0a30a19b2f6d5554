/**
  What formats mean. A format is put together here from pieces, byte by byte, and
  each piece says what it prints; redisvFormatCommand is proved to print that.
 */
module FormatWords {
  import opened Bytes
  import opened Numbers
  import opened Format
  import opened FormatString

  /** A conversion that is left to printf. The size is none, h, hh, l or ll. */
  datatype Spec = Spec(
    hash: bool, zero: bool, minus: bool, space: bool, plus: bool,
    width: ByteString, precision: Option<ByteString>, size: nat, conv: Byte)

  datatype Piece =
    | Lit(text: ByteString)
    | Percent
    | Str(s: ByteString)
    | Bin(b: ByteString, n: nat)
    | Num(spec: Spec, printed: ByteString)
    | Long(spec: Spec, printed: ByteString)
    | LastPercent

  function Flag(on: bool, b: Byte): ByteString {
    if on then [b] else []
  }

  function SizeText(size: nat): ByteString {
    if size == 1 then [104] else if size == 2 then [104, 104]
    else if size == 3 then [108] else if size == 4 then [108, 108] else []
  }

  function EndText(s: Spec): (r: ByteString)
    ensures r != []
  {
    SizeText(s.size) + [s.conv]
  }

  function PrecisionText(s: Spec): (r: ByteString)
    ensures r != []
  {
    (if s.precision.Some? then [46] + s.precision.value else []) + EndText(s)
  }

  function WidthText(s: Spec): (r: ByteString)
    ensures r != []
  {
    s.width + PrecisionText(s)
  }

  function PlusText(s: Spec): (r: ByteString)
    ensures r != []
  {
    Flag(s.plus, 43) + WidthText(s)
  }

  function SpaceText(s: Spec): (r: ByteString)
    ensures r != []
  {
    Flag(s.space, 32) + PlusText(s)
  }

  function MinusText(s: Spec): (r: ByteString)
    ensures r != []
  {
    Flag(s.minus, 45) + SpaceText(s)
  }

  function ZeroText(s: Spec): (r: ByteString)
    ensures r != []
  {
    Flag(s.zero, 48) + MinusText(s)
  }

  /** The characters behind the percent sign. */
  function SpecText(s: Spec): (r: ByteString)
    ensures r != []
  {
    Flag(s.hash, 35) + ZeroText(s)
  }

  predicate AreDigits(d: ByteString) {
    forall i :: 0 <= i < |d| ==> 48 <= d[i] <= 57
  }

  /** A zero at the start of the width is the flag. The last character is none that
      belongs to the modifiers. */
  predicate IsModified(s: Spec) {
    && AreDigits(s.width) && (s.width != [] ==> s.width[0] != 48)
    && (s.precision.Some? ==> AreDigits(s.precision.value))
    && s.size <= 4
    && (s.size == 0 ==> s.conv !in {0, 32, 35, 43, 45, 46, 104, 108} && !(48 <= s.conv <= 57))
    && (s.size == 1 ==> s.conv != 104) && (s.size == 3 ==> s.conv != 108)
  }

  /** diouxX with any size, eEfFgGaA without one */
  predicate IsKnown(s: Spec) {
    || s.conv in {100, 105, 111, 117, 120, 88}
    || (s.size == 0 && s.conv in {101, 69, 102, 70, 103, 71, 97, 65})
  }

  predicate IsSpec(s: Spec) {
    IsModified(s) && IsKnown(s)
  }

  predicate IsPlain(text: ByteString) {
    0 !in text && 32 !in text && 37 !in text
  }

  /** Literals hold no percent sign and no space, C strings no NUL. A conversion
      is printed when it has, with its percent sign, fewer than 14 characters. */
  predicate IsPiece(p: Piece) {
    match p
    case Lit(text) => text != [] && IsPlain(text)
    case Percent => true
    case Str(s) => 0 !in s
    case Bin(b, n) => n <= |b|
    case Num(spec, printed) => IsSpec(spec) && |SpecText(spec)| < 13 && 0 !in printed
    case Long(spec, printed) => IsSpec(spec) && |SpecText(spec)| >= 13 && IsPlain(SpecText(spec)[1..])
    case LastPercent => true
  }

  function TextOf(p: Piece): ByteString {
    match p
    case Lit(text) => text
    case Percent => [37, 37]
    case Str(_) => [37, 115]
    case Bin(_, _) => [37, 98]
    case Num(spec, _) => [37] + SpecText(spec)
    case Long(spec, _) => [37] + SpecText(spec)
    case LastPercent => [37]
  }

  function ValuesOf(p: Piece): seq<VarArg> {
    match p
    case Lit(_) => []
    case Percent => []
    case Str(s) => [Text(s)]
    case Bin(b, n) => [Binary(b, n)]
    case Num(_, printed) => [Printed(printed)]
    case Long(_, printed) => [Printed(printed)]
    case LastPercent => []
  }

  /** What the piece prints. Of a conversion that is too long nothing is printed but
      its own text from the second character on. */
  function PrintOf(p: Piece): ByteString
    requires IsPiece(p)
  {
    match p
    case Lit(text) => text
    case Percent => [37]
    case Str(s) => s
    case Bin(b, n) => b[..n]
    case Num(_, printed) => printed
    case Long(spec, _) => SpecText(spec)[1..]
    case LastPercent => [37]
  }

  // ---------- Conversions ----------

  lemma Regroup(x: ByteString, y: ByteString, z: ByteString)
    ensures x + y + z == x + (y + z)
  {
  }

  /** A flag is passed over; `rest` and `more` follow. */
  lemma FlagSkipped(f: ByteString, p: nat, on: bool, b: Byte, rest: ByteString, more: ByteString)
    requires b != 0 && p <= |f| && f[p..] == Flag(on, b) + rest + more
    requires rest != [] && (on || rest[0] != b)
    ensures var q := SkipOne(f, p, b); q == p + |Flag(on, b)| <= |f| && f[q..] == rest + more
  {
    Regroup(Flag(on, b), rest, more);
    var n := |Flag(on, b)|;
    assert f[p] == f[p..][0];
    assert f[p..][n..] == rest + more;
    assert f[p + n..] == f[p..][n..];
  }

  lemma {:induction false} DigitsSkipped(f: ByteString, p: nat, d: ByteString, rest: ByteString, more: ByteString)
    requires p <= |f| && f[p..] == d + rest + more && AreDigits(d)
    requires rest != [] && !(48 <= rest[0] <= 57)
    ensures SkipDigits(f, p) == p + |d| <= |f| && f[p + |d|..] == rest + more
    decreases |d|
  {
    assert f[p] == f[p..][0];
    if d == [] {
      assert [] + rest + more == rest + more;
    } else {
      assert d + rest + more == [d[0]] + (d[1..] + rest + more);
      assert f[p + 1..] == f[p..][1..] == d[1..] + rest + more;
      DigitsSkipped(f, p + 1, d[1..], rest, more);
    }
  }

  lemma FirstCharacters(s: Spec)
    requires IsModified(s)
    ensures EndText(s)[0] !in {0, 32, 35, 43, 45, 46} && !(48 <= EndText(s)[0] <= 57)
    ensures PrecisionText(s)[0] !in {0, 32, 35, 43, 45} && !(48 <= PrecisionText(s)[0] <= 57)
    ensures WidthText(s)[0] !in {0, 32, 35, 43, 45, 48}
    ensures PlusText(s)[0] !in {0, 32, 35, 45, 48} && SpaceText(s)[0] !in {0, 35, 45, 48}
    ensures MinusText(s)[0] !in {0, 35, 48} && ZeroText(s)[0] !in {0, 35}
  {
    hide EndText;
    assert EndText(s)[0] !in {0, 32, 35, 43, 45, 46} && !(48 <= EndText(s)[0] <= 57) by { FirstOfEnd(s); }
  }

  lemma FirstOfEnd(s: Spec)
    requires IsModified(s)
    ensures EndText(s)[0] !in {0, 32, 35, 43, 45, 46} && !(48 <= EndText(s)[0] <= 57)
  {
  }

  /** The flags are passed over. */
  lemma FlagsSkipped(f: ByteString, p: nat, s: Spec, more: ByteString) returns (q: nat)
    requires IsModified(s) && p <= |f| && f[p..] == SpecText(s) + more
    ensures q == SkipOne(f, SkipOne(f, SkipOne(f, SkipOne(f, SkipOne(f, p, 35), 48), 45), 32), 43)
    ensures q + |WidthText(s)| == p + |SpecText(s)| && q <= |f| && f[q..] == WidthText(s) + more
  {
    hide SkipOne, WidthText;
    FirstCharacters(s);
    FlagSkipped(f, p, s.hash, 35, ZeroText(s), more);
    var p1 := SkipOne(f, p, 35);
    FlagSkipped(f, p1, s.zero, 48, MinusText(s), more);
    var p2 := SkipOne(f, p1, 48);
    FlagSkipped(f, p2, s.minus, 45, SpaceText(s), more);
    var p3 := SkipOne(f, p2, 45);
    FlagSkipped(f, p3, s.space, 32, PlusText(s), more);
    var p4 := SkipOne(f, p3, 32);
    FlagSkipped(f, p4, s.plus, 43, WidthText(s), more);
    q := SkipOne(f, p4, 43);
  }

  /** The precision is passed over. */
  lemma PrecisionSkipped(f: ByteString, p: nat, s: Spec, more: ByteString)
    requires IsModified(s) && p <= |f| && f[p..] == PrecisionText(s) + more
    ensures var q := if At(f, p) == 46 then SkipDigits(f, p + 1) else p;
            && q + |EndText(s)| == p + |PrecisionText(s)| && q <= |f| && f[q..] == EndText(s) + more
  {
    hide SkipDigits, EndText;
    FirstOfEnd(s);
    var e := EndText(s);
    assert At(f, p) == f[p..][0] == PrecisionText(s)[0];
    if s.precision.Some? {
      var d := s.precision.value;
      assert PrecisionText(s) == [46] + d + e;
      assert [46] + d + e + more == [46] + (d + e + more);
      assert f[p..][1..] == d + e + more;
      assert f[p + 1..] == f[p..][1..];
      DigitsSkipped(f, p + 1, d, e, more);
    } else {
      assert PrecisionText(s) == e;
    }
  }

  /** The flags, the width and the precision are passed over. */
  lemma ModifiersSkipped(f: ByteString, p: nat, s: Spec, more: ByteString)
    requires IsModified(s) && p <= |f| && f[p..] == SpecText(s) + more
    ensures var q := SkipModifiers(f, p);
            && q + |EndText(s)| == p + |SpecText(s)| && q <= |f| && f[q..] == EndText(s) + more
  {
    hide SkipOne, SkipDigits, EndText, PrecisionText, SpecText;
    FirstCharacters(s);
    var flags := FlagsSkipped(f, p, s, more);
    DigitsSkipped(f, flags, s.width, PrecisionText(s), more);
    PrecisionSkipped(f, SkipDigits(f, flags), s, more);
  }

  /** The size and the last character decide. */
  lemma EndReads(f: ByteString, q: nat, s: Spec, more: ByteString)
    requires IsModified(s) && q <= |f| && f[q..] == EndText(s) + more
    ensures q + |EndText(s)| <= |f| && f[q + |EndText(s)| - 1] == s.conv
    ensures ConversionEnd(f, q) == if IsKnown(s) then Ends(q + |EndText(s)| - 1) else Unknown
  {
    var e := EndText(s);
    assert forall i :: 0 <= i < |e| ==> f[q + i] == f[q..][i] == e[i];
    if s.size == 0 {
      assert e == [s.conv];
    } else if s.size == 1 || s.size == 3 {
      assert e == [SizeText(s.size)[0], s.conv];
    } else {
      assert e == [SizeText(s.size)[0], SizeText(s.size)[0], s.conv];
    }
  }

  /** A conversion ends with its last character. */
  lemma SpecEnds(f: ByteString, p: nat, s: Spec, more: ByteString)
    requires IsSpec(s) && p <= |f| && f[p..] == SpecText(s) + more
    ensures ConversionAt(f, p) == Ends(p + |SpecText(s)| - 1)
    ensures p + |SpecText(s)| <= |f| && f[p + |SpecText(s)| - 1] != 0
  {
    hide SkipModifiers, SpecText, EndText, ConversionEnd;
    ModifiersSkipped(f, p, s, more);
    EndReads(f, SkipModifiers(f, p), s, more);
  }

  /** Any other last character makes the conversion unknown. */
  lemma SpecUnknown(f: ByteString, p: nat, s: Spec, more: ByteString)
    requires IsModified(s) && !IsKnown(s) && p <= |f| && f[p..] == SpecText(s) + more
    ensures ConversionAt(f, p) == Unknown
  {
    hide SkipModifiers, SpecText, EndText, ConversionEnd;
    ModifiersSkipped(f, p, s, more);
    EndReads(f, SkipModifiers(f, p), s, more);
  }

  // ---------- Pieces ----------

  /** Reading on at c is reading on at d, with `vals` taken and `printed` appended to
      the argument that is being built. */
  ghost predicate Goes(f: ByteString, c: nat, vals: seq<VarArg>, printed: ByteString, d: nat,
                       args: seq<VarArg>, cur: ByteString, touched: bool)
    requires c <= |f| && d <= |f|
  {
    && (Bad in TokensFrom(f, c) <==> Bad in TokensFrom(f, d))
    && (Cut in TokensFrom(f, c) <==> Cut in TokensFrom(f, d))
    && (Fits(TokensFrom(f, d), args) ==>
          && Fits(TokensFrom(f, c), vals + args)
          && Assemble(TokensFrom(f, c), vals + args, cur, touched)
             == Assemble(TokensFrom(f, d), args, cur + printed, true))
  }

  lemma GoesOn(f: ByteString, c: nat, vals: seq<VarArg>, printed: ByteString, d: nat,
               vals': seq<VarArg>, printed': ByteString, e: nat, args: seq<VarArg>, cur: ByteString, touched: bool)
    requires c <= |f| && d <= |f| && e <= |f|
    requires Goes(f, c, vals, printed, d, vals' + args, cur, touched)
    requires Goes(f, d, vals', printed', e, args, cur + printed, true)
    ensures Goes(f, c, vals + vals', printed + printed', e, args, cur, touched)
  {
    hide TokensFrom, Fits, Assemble;
    assert vals + vals' + args == vals + (vals' + args);
    Regroup(cur, printed, printed');
  }

  lemma NextToken(f: ByteString, c: nat)
    requires c < |f| && f[c] != 0 && !IsEnd(StepAt(f, c).token)
    ensures var s := StepAt(f, c);
            && TokensFrom(f, c) == [s.token] + TokensFrom(f, s.next)
            && (Bad in TokensFrom(f, c) <==> Bad in TokensFrom(f, s.next))
            && (Cut in TokensFrom(f, c) <==> Cut in TokensFrom(f, s.next))
  {
    hide StepAt;
    var s := StepAt(f, c);
    assert TokensFrom(f, c) == [s.token] + TokensFrom(f, s.next);
  }

  lemma CharGoes(f: ByteString, c: nat, b: Byte, args: seq<VarArg>, cur: ByteString, touched: bool)
    requires c < |f| && f[c] != 0 && StepAt(f, c).token == Char(b)
    ensures Goes(f, c, [], [b], StepAt(f, c).next, args, cur, touched)
  {
    hide TokensFrom, StepAt;
    NextToken(f, c);
    var ts := TokensFrom(f, StepAt(f, c).next);
    assert [] + args == args && ([Char(b)] + ts)[1..] == ts;
    if Fits(ts, args) {
      AssembleStep(Char(b), ts, args, cur, touched);
    }
  }

  lemma SlotGoes(f: ByteString, c: nat, v: VarArg, args: seq<VarArg>, cur: ByteString, touched: bool)
    requires c < |f| && f[c] != 0 && IsSlot(StepAt(f, c).token)
    requires var t := StepAt(f, c).token; (t == TextSlot <==> v.Text?) && (t == BinarySlot <==> v.Binary?)
    requires v.Binary? ==> v.size <= |v.b|
    ensures Goes(f, c, [v], ValueOf(StepAt(f, c).token, v), StepAt(f, c).next, args, cur, touched)
  {
    hide TokensFrom, StepAt, ValueOf;
    NextToken(f, c);
    var t, ts := StepAt(f, c).token, TokensFrom(f, StepAt(f, c).next);
    assert ([v] + args)[1..] == args && ([t] + ts)[1..] == ts;
    if Fits(ts, args) {
      AssembleStep(t, ts, [v] + args, cur, touched);
    }
  }

  lemma {:induction false} PlainGoes(f: ByteString, c: nat, text: ByteString, more: ByteString,
                                     args: seq<VarArg>, cur: ByteString, touched: bool)
    requires c <= |f| && f[c..] == text + more && text != [] && IsPlain(text)
    ensures c + |text| <= |f|
    ensures Goes(f, c, [], text, c + |text|, args, cur, touched)
    decreases |text|
  {
    hide Goes;
    assert f[c] == f[c..][0] == text[0] && text[0] in text;
    assert StepAt(f, c) == Step(Char(text[0]), c + 1);
    CharGoes(f, c, text[0], [] + args, cur, touched);
    if |text| == 1 {
      assert text == [text[0]] && [] + args == args;
    } else {
      assert f[c + 1..] == f[c..][1..] == text[1..] + more;
      assert forall b :: b in text[1..] ==> b in text;
      PlainGoes(f, c + 1, text[1..], more, args, cur + [text[0]], true);
      GoesOn(f, c, [], [text[0]], c + 1, [], text[1..], c + |text|, args, cur, touched);
      var none: seq<VarArg> := [];
      assert [text[0]] + text[1..] == text && none + none == none;
    }
  }

  /** The characters behind a percent sign are no s, b or percent sign. */
  lemma FirstOfSpec(s: Spec)
    requires IsModified(s) && (s.size == 0 ==> s.conv !in {37, 98, 115})
    ensures SpecText(s)[0] !in {0, 37, 98, 115}
  {
    assert EndText(s)[0] !in {0, 37, 98, 115};
  }

  lemma WholeCString(s: ByteString)
    requires 0 !in s
    ensures CString(s) == s
  {
    assert |CString(s)| == |s|;
  }

  lemma SpecStep(f: ByteString, c: nat, s: Spec, more: ByteString)
    requires IsSpec(s) && c <= |f| && f[c..] == [37] + SpecText(s) + more
    ensures c + 1 + |SpecText(s)| <= |f| && f[c] == 37
    ensures StepAt(f, c)
         == if |SpecText(s)| < 13 then Step(PrintedSlot, c + 1 + |SpecText(s)|) else Step(SkippedSlot, c + 2)
  {
    hide SpecText, ConversionAt;
    FirstOfSpec(s);
    Regroup([37], SpecText(s), more);
    assert f[c..][1..] == SpecText(s) + more == f[c + 1..];
    assert f[c] == f[c..][0] && f[c + 1] == f[c + 1..][0];
    SpecEnds(f, c + 1, s, more);
  }

  lemma NumGoes(f: ByteString, c: nat, spec: Spec, printed: ByteString, more: ByteString,
                args: seq<VarArg>, cur: ByteString, touched: bool)
    requires IsSpec(spec) && |SpecText(spec)| < 13 && 0 !in printed
    requires c <= |f| && f[c..] == [37] + SpecText(spec) + more
    ensures c + 1 + |SpecText(spec)| <= |f|
    ensures Goes(f, c, [Printed(printed)], printed, c + 1 + |SpecText(spec)|, args, cur, touched)
  {
    hide Goes, SpecText, IsSpec, StepAt;
    SpecStep(f, c, spec, more);
    WholeCString(printed);
    SlotGoes(f, c, Printed(printed), args, cur, touched);
  }

  /** Only two characters of a conversion that is too long are passed over. */
  lemma LongGoes(f: ByteString, c: nat, spec: Spec, printed: ByteString, more: ByteString,
                 args: seq<VarArg>, cur: ByteString, touched: bool)
    requires IsSpec(spec) && |SpecText(spec)| >= 13 && IsPlain(SpecText(spec)[1..])
    requires c <= |f| && f[c..] == [37] + SpecText(spec) + more
    ensures c + 1 + |SpecText(spec)| <= |f|
    ensures Goes(f, c, [Printed(printed)], SpecText(spec)[1..], c + 1 + |SpecText(spec)|, args, cur, touched)
  {
    hide Goes, SpecText, IsSpec, StepAt, IsPlain, TokensFrom;
    SpecStep(f, c, spec, more);
    var tail, v, none: seq<VarArg> := SpecText(spec)[1..], Printed(printed), [];
    assert none + args == args && [v] + none == [v] && [] + tail == tail && cur + [] == cur;
    assert f[c + 2..] == f[c..][2..] == tail + more;
    SlotGoes(f, c, v, none + args, cur, touched);
    PlainGoes(f, c + 2, tail, more, args, cur + [], true);
    GoesOn(f, c, [v], [], c + 2, none, tail, c + 1 + |SpecText(spec)|, args, cur, touched);
  }

  lemma ShortGoes(f: ByteString, c: nat, p: Piece, more: ByteString, args: seq<VarArg>, cur: ByteString, touched: bool)
    requires IsPiece(p) && (p.Percent? || p.Str? || p.Bin? || p.LastPercent?)
    requires c <= |f| && f[c..] == TextOf(p) + more
    requires p == LastPercent ==> At(more, 0) == 0
    ensures c + |TextOf(p)| <= |f|
    ensures Goes(f, c, ValuesOf(p), PrintOf(p), c + |TextOf(p)|, args, cur, touched)
  {
    hide Goes;
    assert f[c] == f[c..][0] == 37;
    assert At(f, c + 1) == At(f[c..], 1);
    if p.Str? {
      WholeCString(p.s);
      SlotGoes(f, c, Text(p.s), args, cur, touched);
    } else if p.Bin? {
      SlotGoes(f, c, Binary(p.b, p.n), args, cur, touched);
    } else {
      CharGoes(f, c, 37, args, cur, touched);
    }
  }

  /** Each piece takes its values and prints what it means. */
  lemma PieceGoes(f: ByteString, c: nat, p: Piece, more: ByteString, args: seq<VarArg>, cur: ByteString, touched: bool)
    requires IsPiece(p) && c <= |f| && f[c..] == TextOf(p) + more
    requires p == LastPercent ==> At(more, 0) == 0
    ensures c + |TextOf(p)| <= |f|
    ensures Goes(f, c, ValuesOf(p), PrintOf(p), c + |TextOf(p)|, args, cur, touched)
  {
    hide Goes, SpecText, IsSpec, IsPlain;
    match p {
      case Lit(text) => PlainGoes(f, c, text, more, args, cur, touched);
      case Num(spec, printed) => NumGoes(f, c, spec, printed, more, args, cur, touched);
      case Long(spec, printed) => LongGoes(f, c, spec, printed, more, args, cur, touched);
      case _ => ShortGoes(f, c, p, more, args, cur, touched);
    }
  }

  // ---------- Words ----------

  /** Words are lists of pieces, none empty. `gaps` counts the spaces before each word
      and at the end. */
  function WordText(word: seq<Piece>): ByteString {
    if word == [] then [] else TextOf(word[0]) + WordText(word[1..])
  }

  function WordValues(word: seq<Piece>): seq<VarArg> {
    if word == [] then [] else ValuesOf(word[0]) + WordValues(word[1..])
  }

  predicate IsWord(word: seq<Piece>) {
    forall p :: p in word ==> IsPiece(p)
  }

  function WordPrint(word: seq<Piece>): ByteString
    requires IsWord(word)
  {
    if word == [] then [] else PrintOf(word[0]) + WordPrint(word[1..])
  }

  /** A single percent sign prints itself at the end of the format only. */
  predicate EndsWell(word: seq<Piece>, last: bool) {
    forall i :: 0 <= i < |word| && word[i] == LastPercent ==> i == |word| - 1 && last
  }

  lemma {:induction false} WordGoes(f: ByteString, c: nat, word: seq<Piece>, more: ByteString,
                                    args: seq<VarArg>, cur: ByteString, touched: bool)
    requires word != [] && IsWord(word) && EndsWell(word, At(more, 0) == 0)
    requires c <= |f| && f[c..] == WordText(word) + more
    ensures c + |WordText(word)| <= |f|
    ensures Goes(f, c, WordValues(word), WordPrint(word), c + |WordText(word)|, args, cur, touched)
    decreases |word|
  {
    hide Goes, TextOf, ValuesOf, PrintOf, IsPiece;
    var p, rest := word[0], word[1..];
    var d := c + |TextOf(p)|;
    Regroup(TextOf(p), WordText(rest), more);
    if rest == [] {
      assert WordText(rest) + more == more;
      assert ValuesOf(p) + WordValues(rest) == ValuesOf(p) && PrintOf(p) + WordPrint(rest) == PrintOf(p);
      PieceGoes(f, c, p, more, args, cur, touched);
    } else {
      PieceGoes(f, c, p, WordText(rest) + more, WordValues(rest) + args, cur, touched);
      assert f[d..] == f[c..][|TextOf(p)|..] == WordText(rest) + more;
      assert EndsWell(rest, At(more, 0) == 0) by {
        assert forall i :: 0 <= i < |rest| ==> rest[i] == word[i + 1];
      }
      WordGoes(f, d, rest, more, args, cur + PrintOf(p), true);
      GoesOn(f, c, ValuesOf(p), PrintOf(p), d, WordValues(rest), WordPrint(rest), d + |WordText(rest)|,
             args, cur, touched);
    }
  }

  function Spaces(n: nat): ByteString {
    seq(n, _ => 32)
  }

  /** Spaces end the argument that is being built, and do nothing else. */
  lemma {:induction false} SpacesGo(f: ByteString, c: nat, n: nat, more: ByteString,
                                    args: seq<VarArg>, cur: ByteString, touched: bool)
    requires c <= |f| && f[c..] == Spaces(n) + more && (touched || cur == [])
    ensures c + n <= |f|
    ensures var d := c + n;
            && (Bad in TokensFrom(f, c) <==> Bad in TokensFrom(f, d))
            && (Cut in TokensFrom(f, c) <==> Cut in TokensFrom(f, d))
            && (Fits(TokensFrom(f, d), args) ==>
                  && Fits(TokensFrom(f, c), args)
                  && Assemble(TokensFrom(f, c), args, cur, touched)
                     == if touched && n > 0 then [cur] + Assemble(TokensFrom(f, d), args, [], false)
                        else Assemble(TokensFrom(f, d), args, cur, touched))
    decreases n
  {
    hide TokensFrom, Fits, Assemble;
    if n > 0 {
      assert f[c] == f[c..][0] == 32;
      assert Spaces(n) == [32] + Spaces(n - 1);
      Regroup([32], Spaces(n - 1), more);
      assert f[c + 1..] == f[c..][1..] == Spaces(n - 1) + more;
      assert StepAt(f, c) == Step(Blank, c + 1);
      NextToken(f, c);
      SpacesGo(f, c + 1, n - 1, more, args, [], false);
      if Fits(TokensFrom(f, c + n), args) {
        assert Fits([Blank] + TokensFrom(f, c + 1), args) by { BlankFits(TokensFrom(f, c + 1), args); }
        AssembleStep(Blank, TokensFrom(f, c + 1), args, cur, touched);
      }
    }
  }

  lemma BlankFits(ts: seq<Token>, args: seq<VarArg>)
    requires Fits(ts, args)
    ensures Fits([Blank] + ts, args)
  {
    assert ([Blank] + ts)[1..] == ts;
  }

  // ---------- Formats ----------

  /** Words are kept apart by at least one space. `last` says that the format ends here. */
  predicate IsFormat(words: seq<seq<Piece>>, gaps: seq<nat>, last: bool) {
    && |gaps| == |words| + 1
    && (forall j :: 0 <= j < |words| ==> words[j] != [] && IsWord(words[j])
                                         && EndsWell(words[j], j == |words| - 1 && gaps[|words|] == 0 && last))
    && (forall j :: 0 < j < |words| ==> gaps[j] > 0)
  }

  function FormatText(words: seq<seq<Piece>>, gaps: seq<nat>): ByteString
    requires |gaps| == |words| + 1
  {
    if words == [] then Spaces(gaps[0])
    else Spaces(gaps[0]) + (WordText(words[0]) + FormatText(words[1..], gaps[1..]))
  }

  function FormatValues(words: seq<seq<Piece>>): seq<VarArg> {
    if words == [] then [] else WordValues(words[0]) + FormatValues(words[1..])
  }

  /** One argument for each word. */
  function FormatPrints(words: seq<seq<Piece>>): (r: seq<ByteString>)
    requires forall j :: 0 <= j < |words| ==> IsWord(words[j])
    ensures |r| == |words| && forall j :: 0 <= j < |r| ==> r[j] == WordPrint(words[j])
  {
    seq(|words|, j requires 0 <= j < |words| => WordPrint(words[j]))
  }

  /** The format from position c on, when `cur` is the argument being built and the
      format goes on at its end with tokens that print nothing. */
  ghost predicate Reads(f: ByteString, c: nat, words: seq<seq<Piece>>, end: nat, done: seq<ByteString>,
                        cur: ByteString, touched: bool)
    requires c <= |f| && end <= |f| && forall j :: 0 <= j < |words| ==> IsWord(words[j])
  {
    && (Bad in TokensFrom(f, c) <==> Bad in TokensFrom(f, end))
    && (Cut in TokensFrom(f, c) <==> Cut in TokensFrom(f, end))
    && (TokensFrom(f, end) == [] ==>
          && Fits(TokensFrom(f, c), FormatValues(words))
          && Assemble(TokensFrom(f, c), FormatValues(words), cur, touched) == done + FormatPrints(words))
  }

  lemma PrintsFirst(words: seq<seq<Piece>>)
    requires words != [] && forall j :: 0 <= j < |words| ==> IsWord(words[j])
    ensures FormatPrints(words) == [WordPrint(words[0])] + FormatPrints(words[1..])
  {
    hide WordPrint;
  }

  /** The words behind the first one. */
  lemma FormatRest(words: seq<seq<Piece>>, gaps: seq<nat>, last: bool)
    requires IsFormat(words, gaps, last) && words != []
    ensures words[0] != [] && IsWord(words[0]) && IsFormat(words[1..], gaps[1..], last)
    ensures EndsWell(words[0], |words| == 1 && gaps[1] == 0 && last) && (|words| > 1 ==> gaps[1] > 0)
  {
    hide EndsWell, IsWord;
    var rest, gaps' := words[1..], gaps[1..];
    assert forall j :: 0 <= j < |rest| ==> rest[j] == words[j + 1] && gaps'[j] == gaps[j + 1];
    assert gaps'[|rest|] == gaps[|words|];
  }

  lemma LastWord(words: seq<seq<Piece>>, gaps: seq<nat>, last: bool, tail: ByteString)
    requires IsFormat(words, gaps, last) && words != [] && (last ==> At(tail, 0) == 0)
    ensures EndsWell(words[0], At(FormatText(words[1..], gaps[1..]) + tail, 0) == 0)
  {
    hide IsWord;
    FormatRest(words, gaps, last);
    if |words| == 1 && gaps[1] == 0 {
      assert FormatText(words[1..], gaps[1..]) + tail == tail;
    }
  }

  /** Each word becomes one argument. */
  lemma {:induction false} FormatGoes(f: ByteString, c: nat, words: seq<seq<Piece>>, gaps: seq<nat>, last: bool,
                                      tail: ByteString, cur: ByteString, touched: bool)
    requires IsFormat(words, gaps, last) && (last ==> At(tail, 0) == 0)
    requires c <= |f| && f[c..] == FormatText(words, gaps) + tail
    requires if touched then words == [] || gaps[0] > 0 else cur == []
    ensures c + |FormatText(words, gaps)| <= |f|
    ensures Reads(f, c, words, c + |FormatText(words, gaps)|, if touched then [cur] else [], cur, touched)
    decreases |words|
  {
    hide TokensFrom, Fits, Assemble, WordText, WordValues, WordPrint, FormatPrints, Goes, EndsWell;
    if words == [] {
      SpacesGo(f, c, gaps[0], tail, [], cur, touched);
      AssembleEnd([], [], false);
      AssembleEnd([], cur, touched);
      assert FormatPrints(words) == [];
      if touched {
        assert [cur] + [] == [cur];
      }
    } else {
      FirstWordGoes(f, c, words, gaps, last, tail, cur, touched);
      var rest, gaps' := words[1..], gaps[1..];
      FormatRest(words, gaps, last);
      var e := c + gaps[0] + |WordText(words[0])|;
      FormatGoes(f, e, rest, gaps', last, tail, WordPrint(words[0]), true);
      PrintsFirst(words);
    }
  }

  /** The spaces before a word, and the word. */
  lemma GapAndWord(f: ByteString, c: nat, gap: nat, word: seq<Piece>, text: ByteString,
                   args: seq<VarArg>, cur: ByteString, touched: bool)
    requires word != [] && IsWord(word) && EndsWell(word, At(text, 0) == 0)
    requires c <= |f| && f[c..] == Spaces(gap) + (WordText(word) + text)
    requires if touched then gap > 0 else cur == []
    ensures var e := c + gap + |WordText(word)|;
            && e <= |f| && f[e..] == text
            && (Bad in TokensFrom(f, c) <==> Bad in TokensFrom(f, e))
            && (Cut in TokensFrom(f, c) <==> Cut in TokensFrom(f, e))
            && (Fits(TokensFrom(f, e), args) ==>
                  && Fits(TokensFrom(f, c), WordValues(word) + args)
                  && Assemble(TokensFrom(f, c), WordValues(word) + args, cur, touched)
                     == (if touched then [cur] else []) + Assemble(TokensFrom(f, e), args, WordPrint(word), true))
  {
    hide TokensFrom, Fits, Assemble, WordText, WordValues, WordPrint, EndsWell, IsWord;
    var d := c + gap;
    SpacesGo(f, c, gap, WordText(word) + text, WordValues(word) + args, cur, touched);
    assert f[d..] == f[c..][gap..] == WordText(word) + text;
    WordGoes(f, d, word, text, args, [], false);
    var e := d + |WordText(word)|;
    assert f[e..] == f[d..][|WordText(word)|..] == text;
    assert [] + WordPrint(word) == WordPrint(word);
  }

  lemma FirstWordGoes(f: ByteString, c: nat, words: seq<seq<Piece>>, gaps: seq<nat>, last: bool,
                      tail: ByteString, cur: ByteString, touched: bool)
    requires IsFormat(words, gaps, last) && (last ==> At(tail, 0) == 0) && words != []
    requires c <= |f| && f[c..] == FormatText(words, gaps) + tail
    requires if touched then gaps[0] > 0 else cur == []
    ensures var e := c + gaps[0] + |WordText(words[0])|;
            && e <= |f| && f[e..] == FormatText(words[1..], gaps[1..]) + tail
            && (Bad in TokensFrom(f, c) <==> Bad in TokensFrom(f, e))
            && (Cut in TokensFrom(f, c) <==> Cut in TokensFrom(f, e))
            && (Fits(TokensFrom(f, e), FormatValues(words[1..])) ==>
                  && Fits(TokensFrom(f, c), FormatValues(words))
                  && Assemble(TokensFrom(f, c), FormatValues(words), cur, touched)
                     == (if touched then [cur] else [])
                        + Assemble(TokensFrom(f, e), FormatValues(words[1..]), WordPrint(words[0]), true))
  {
    hide TokensFrom, Fits, Assemble, WordText, WordValues, WordPrint, EndsWell, IsWord, Spaces;
    FormatRest(words, gaps, last);
    LastWord(words, gaps, last, tail);
    var text := FormatText(words[1..], gaps[1..]) + tail;
    assert FormatText(words, gaps) + tail == Spaces(gaps[0]) + (WordText(words[0]) + text);
    GapAndWord(f, c, gaps[0], words[0], text, FormatValues(words[1..]), cur, touched);
  }

  /** A format of such words means one argument for each, whatever stands behind a NUL
      at its end. */
  lemma FormatMeans(words: seq<seq<Piece>>, gaps: seq<nat>, tail: ByteString)
    requires IsFormat(words, gaps, true) && At(tail, 0) == 0
    ensures var f := FormatText(words, gaps) + tail;
            && Supported(f) && Bad !in Tokens(f) && Fits(Tokens(f), FormatValues(words))
            && Arguments(f, FormatValues(words)) == FormatPrints(words)
  {
    hide IsWord, EndsWell, FormatText, FormatPrints, TokensFrom, Fits, Assemble;
    var f := FormatText(words, gaps) + tail;
    var end := |FormatText(words, gaps)|;
    assert f[0..] == f;
    FormatGoes(f, 0, words, gaps, true, tail, [], false);
    assert f[end..] == tail;
    assert At(f, end) == 0;
    NoTokens(f, end);
    AssembleIsFill(Tokens(f), FormatValues(words));
  }

  /** A conversion with another last character makes the whole format bad, after any
      such words. */
  lemma UnknownIsBad(words: seq<seq<Piece>>, gaps: seq<nat>, s: Spec, more: ByteString)
    requires IsFormat(words, gaps, false)
    requires IsModified(s) && !IsKnown(s) && (s.size == 0 ==> s.conv !in {37, 98, 115})
    ensures var f := FormatText(words, gaps) + ([37] + SpecText(s) + more);
            Supported(f) && Bad in Tokens(f)
  {
    hide IsWord, EndsWell, FormatText, SpecText, TokensFrom, IsModified, IsKnown, ConversionAt;
    var tail := [37] + SpecText(s) + more;
    var f := FormatText(words, gaps) + tail;
    var c := |FormatText(words, gaps)|;
    assert f[0..] == f && f[c..] == tail;
    FormatGoes(f, 0, words, gaps, false, tail, [], false);
    Regroup([37], SpecText(s), more);
    assert f[c + 1..] == tail[1..] == SpecText(s) + more;
    assert f[c] == f[c..][0] && f[c + 1] == f[c + 1..][0] == SpecText(s)[0];
    FirstOfSpec(s);
    SpecUnknown(f, c + 1, s, more);
    assert StepAt(f, c) == Step(Bad, |f|);
    BadToken(f, c);
  }

  lemma BadToken(f: ByteString, c: nat)
    requires c < |f| && f[c] != 0 && StepAt(f, c).token == Bad
    ensures TokensFrom(f, c) == [Bad]
  {
    hide StepAt;
  }

  /** redisvFormatCommand makes of a format the command of what its words print. */
  method FormatPieces(words: seq<seq<Piece>>, gaps: seq<nat>, tail: ByteString) returns (cmd: array<Byte>, totlen: nat)
    requires IsFormat(words, gaps, true) && At(tail, 0) == 0
    ensures fresh(cmd) && cmd.Length == totlen + 1 && cmd[totlen] == 0
    ensures cmd[..totlen] == Command(FormatPrints(words))
  {
    hide IsWord, EndsWell, FormatText, FormatPrints, TokensFrom, Fits, Command;
    FormatMeans(words, gaps, tail);
    var r;
    r, totlen := FormatCommand(FormatText(words, gaps) + tail, FormatValues(words));
    cmd := r;
  }
}
