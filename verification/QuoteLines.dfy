/**
  What the lines given to sdssplitargs mean. A line is put together here byte by byte,
  and each word says what it stands for; splitting the line is proved to give that.
 */
module QuoteLines {
  import opened Bytes
  import opened Quote

  /** What can stand between double quotes: a character, two hex digits behind \x, or
      a character behind a backslash. */
  datatype Atom = Raw(b: Byte) | Hex(high: Byte, low: Byte) | Slash(c: Byte)

  predicate IsHex(c: Byte) {
    48 <= c <= 57 || 97 <= c <= 102 || 65 <= c <= 70
  }

  function HexOf(c: Byte): (n: nat)
    requires IsHex(c)
    ensures n < 16
  {
    if c <= 57 then c - 48 else if c <= 70 then c - 55 else c - 87
  }

  function AtomText(a: Atom): ByteString {
    match a
    case Raw(b) => [b]
    case Hex(high, low) => [92, 120, high, low]
    case Slash(c) => [92, c]
  }

  predicate IsAtom(a: Atom) {
    match a
    case Raw(b) => b !in {0, 34, 92}
    case Hex(high, low) => IsHex(high) && IsHex(low)
    case Slash(c) => c != 0
  }

  function AtomValue(a: Atom): Byte
    requires IsAtom(a)
  {
    match a
    case Raw(b) => b
    case Hex(high, low) => HexOf(high) * 16 + HexOf(low)
    case Slash(c) =>
      if c == 110 then 10 else if c == 114 then 13 else if c == 116 then 9
      else if c == 98 then 8 else if c == 97 then 7 else c
  }

  function AtomsText(atoms: seq<Atom>): ByteString {
    if atoms == [] then [] else AtomText(atoms[0]) + AtomsText(atoms[1..])
  }

  /** \x stands for the letter x when no two hex digits follow. */
  predicate IsAtoms(atoms: seq<Atom>) {
    atoms != [] ==>
      && IsAtom(atoms[0]) && IsAtoms(atoms[1..])
      && (atoms[0] == Slash(120) ==>
            var text := AtomsText(atoms[1..]);
            !(|text| >= 2 && IsHex(text[0]) && IsHex(text[1])))
  }

  function AtomsValue(atoms: seq<Atom>): ByteString
    requires IsAtoms(atoms)
  {
    if atoms == [] then [] else [AtomValue(atoms[0])] + AtomsValue(atoms[1..])
  }

  /** Between single quotes only the apostrophe is escaped. */
  function SingleText(s: ByteString): ByteString {
    if s == [] then [] else (if s[0] == 39 then [92, 39] else [s[0]]) + SingleText(s[1..])
  }

  /** How a word ends: as it began, or with a quoted part. */
  datatype End = Bare | Quotes(atoms: seq<Atom>) | Apostrophes(text: ByteString)

  datatype Word = Word(bare: ByteString, end: End)

  /** isspace() */
  predicate IsBlank(c: Byte) {
    c == 32 || 9 <= c <= 13
  }

  /** The blanks that end a word without quotes. */
  predicate IsBreak(c: Byte) {
    c in {9, 10, 13, 32}
  }

  /** The two other blanks, the vertical tab and the form feed, can be in a word but
      not at its start. */
  predicate IsBare(s: ByteString) {
    && (forall i :: 0 <= i < |s| ==> s[i] !in {0, 9, 10, 13, 32, 34, 39})
    && (s != [] ==> !IsBlank(s[0]))
  }

  /** A backslash at the end of a text in single quotes would escape the closing quote. */
  predicate IsWord(w: Word) {
    && IsBare(w.bare) && (w.end == Bare ==> w.bare != [])
    && (w.end.Quotes? ==> IsAtoms(w.end.atoms))
    && (w.end.Apostrophes? ==> 0 !in w.end.text && (w.end.text != [] ==> w.end.text[|w.end.text| - 1] != 92))
  }

  function EndText(e: End): ByteString {
    match e
    case Bare => []
    case Quotes(atoms) => [34] + AtomsText(atoms) + [34]
    case Apostrophes(text) => [39] + SingleText(text) + [39]
  }

  function WordText(w: Word): ByteString {
    w.bare + EndText(w.end)
  }

  function WordValue(w: Word): ByteString
    requires IsWord(w)
  {
    match w.end
    case Bare => w.bare
    case Quotes(atoms) => w.bare + AtomsValue(atoms)
    case Apostrophes(text) => w.bare + text
  }

  // ---------- Reading a word ----------

  lemma Regroup(x: ByteString, y: ByteString, z: ByteString)
    ensures x + y + z == x + (y + z)
  {
  }

  lemma RawReads(b: Byte, more: ByteString, cur: ByteString)
    requires b !in {0, 34, 92}
    ensures ReadToken([b] + more, Double, cur) == ReadToken(more, Double, cur + [b])
  {
    assert Skip([b] + more, 1) == more;
  }

  lemma HexReads(high: Byte, low: Byte, more: ByteString, cur: ByteString)
    requires IsHex(high) && IsHex(low)
    ensures ReadToken([92, 120, high, low] + more, Double, cur)
         == ReadToken(more, Double, cur + [HexOf(high) * 16 + HexOf(low)])
  {
    var s := [92, 120, high, low] + more;
    assert Skip(s, 4) == more;
    assert IsHexEscape(s) && HexValue(high) == HexOf(high) && HexValue(low) == HexOf(low);
  }

  lemma SlashReads(c: Byte, more: ByteString, cur: ByteString)
    requires c != 0 && (c == 120 ==> !(IsHex(At(more, 0)) && IsHex(At(more, 1))))
    ensures ReadToken([92, c] + more, Double, cur) == ReadToken(more, Double, cur + [AtomValue(Slash(c))])
  {
    var s := [92, c] + more;
    assert Skip(s, 2) == more;
    assert At(s, 2) == At(more, 0) && At(s, 3) == At(more, 1);
    assert !IsHexEscape(s);
    assert Unescape(c) == AtomValue(Slash(c));
  }

  lemma AtomReads(a: Atom, more: ByteString, cur: ByteString)
    requires IsAtom(a) && (a == Slash(120) ==> !(IsHex(At(more, 0)) && IsHex(At(more, 1))))
    ensures ReadToken(AtomText(a) + more, Double, cur) == ReadToken(more, Double, cur + [AtomValue(a)])
  {
    hide ReadToken;
    match a {
      case Raw(b) => RawReads(b, more, cur);
      case Hex(high, low) => HexReads(high, low, more, cur);
      case Slash(c) => SlashReads(c, more, cur);
    }
  }

  lemma {:induction false} AtomsRead(atoms: seq<Atom>, more: ByteString, cur: ByteString)
    requires IsAtoms(atoms) && !IsHex(At(more, 0))
    ensures ReadToken(AtomsText(atoms) + more, Double, cur) == ReadToken(more, Double, cur + AtomsValue(atoms))
    decreases |atoms|
  {
    hide ReadToken, AtomText, AtomValue, IsAtom;
    if atoms == [] {
      assert AtomsText(atoms) + more == more && cur + AtomsValue(atoms) == cur;
    } else {
      var text := AtomsText(atoms[1..]);
      var v := AtomValue(atoms[0]);
      Regroup(AtomText(atoms[0]), text, more);
      assert |text| >= 2 ==> At(text + more, 0) == text[0] && At(text + more, 1) == text[1];
      assert |text| == 1 ==> At(text + more, 1) == At(more, 0);
      assert |text| == 0 ==> text + more == more;
      AtomReads(atoms[0], text + more, cur);
      AtomsRead(atoms[1..], more, cur + [v]);
      Regroup(cur, [v], AtomsValue(atoms[1..]));
    }
  }

  lemma {:induction false} SingleReads(s: ByteString, more: ByteString, cur: ByteString)
    requires 0 !in s && (s != [] && s[|s| - 1] == 92 ==> At(more, 0) != 39)
    ensures ReadToken(SingleText(s) + more, Single, cur) == ReadToken(more, Single, cur + s)
    decreases |s|
  {
    if s == [] {
      assert SingleText(s) + more == more && cur + s == cur;
    } else {
      var rest, first: ByteString := s[1..], if s[0] == 39 then [92, 39] else [s[0]];
      assert forall b :: b in rest ==> b in s;
      var tail := SingleText(rest) + more;
      var all := first + tail;
      Regroup(first, SingleText(rest), more);
      assert Skip(all, |first|) == tail;
      assert s[0] in s;
      assert rest != [] ==> At(tail, 0) == SingleText(rest)[0] != 39;
      assert rest == [] ==> tail == more;
      assert At(all, |first|) == At(tail, 0);
      SingleReads(rest, more, cur + [s[0]]);
      assert cur + [s[0]] + rest == cur + s;
    }
  }

  lemma {:induction false} BareReads(s: ByteString, more: ByteString, cur: ByteString)
    requires forall i :: 0 <= i < |s| ==> s[i] !in {0, 9, 10, 13, 32, 34, 39}
    ensures ReadToken(s + more, Plain, cur) == ReadToken(more, Plain, cur + s)
    decreases |s|
  {
    if s == [] {
      assert s + more == more && cur + s == cur;
    } else {
      assert Skip(s + more, 1) == s[1..] + more;
      BareReads(s[1..], more, cur + [s[0]]);
      assert cur + [s[0]] + s[1..] == cur + s;
    }
  }

  /** A word can be followed by this: a NUL, or a blank that ends it. */
  predicate Follows(w: Word, rest: ByteString) {
    At(rest, 0) == 0 || (if w.end.Bare? then IsBreak(At(rest, 0)) else IsBlank(At(rest, 0)))
  }

  lemma QuoteCloses(rest: ByteString, cur: ByteString)
    requires At(rest, 0) == 0 || IsBlank(At(rest, 0))
    ensures ReadToken([34] + rest, Double, cur) == Quote.Token(cur, rest)
    ensures ReadToken([39] + rest, Single, cur) == Quote.Token(cur, rest)
  {
    assert Skip([34] + rest, 1) == rest && Skip([39] + rest, 1) == rest;
    assert At([34] + rest, 1) == At(rest, 0) == At([39] + rest, 1);
  }

  lemma QuoteOpens(q: Byte, more: ByteString, cur: ByteString)
    requires q == 34 || q == 39
    ensures ReadToken([q] + more, Plain, cur) == ReadToken(more, if q == 34 then Double else Single, cur)
  {
    assert Skip([q] + more, 1) == more;
  }

  /** A word is read as what it stands for, up to where it ends. */
  lemma WordReads(w: Word, rest: ByteString)
    requires IsWord(w) && Follows(w, rest)
    ensures ReadToken(WordText(w) + rest, Plain, [])
         == Quote.Token(WordValue(w), if w.end.Bare? && At(rest, 0) != 0 then rest[1..] else rest)
  {
    hide IsBare, IsAtoms, AtomsText, SingleText;
    Regroup(w.bare, EndText(w.end), rest);
    assert forall i :: 0 <= i < |w.bare| ==> w.bare[i] !in {0, 9, 10, 13, 32, 34, 39} by { BareCharacters(w.bare); }
    BareReads(w.bare, EndText(w.end) + rest, []);
    assert [] + w.bare == w.bare;
    if w.end.Bare? {
      assert EndText(w.end) + rest == rest;
      BareEnds(rest, w.bare);
    } else if w.end.Quotes? {
      QuotesRead(w.end.atoms, rest, w.bare);
    } else {
      ApostrophesRead(w.end.text, rest, w.bare);
    }
  }

  lemma BareCharacters(s: ByteString)
    requires IsBare(s)
    ensures forall i :: 0 <= i < |s| ==> s[i] !in {0, 9, 10, 13, 32, 34, 39}
  {
  }

  lemma BareEnds(rest: ByteString, cur: ByteString)
    requires At(rest, 0) == 0 || IsBreak(At(rest, 0))
    ensures ReadToken(rest, Plain, cur) == Quote.Token(cur, if At(rest, 0) != 0 then rest[1..] else rest)
  {
  }

  lemma QuotesRead(atoms: seq<Atom>, rest: ByteString, cur: ByteString)
    requires IsAtoms(atoms) && (At(rest, 0) == 0 || IsBlank(At(rest, 0)))
    ensures ReadToken(EndText(Quotes(atoms)) + rest, Plain, cur) == Quote.Token(cur + AtomsValue(atoms), rest)
  {
    hide ReadToken, AtomsText, AtomsValue, IsAtoms;
    var text := AtomsText(atoms);
    assert [34] + text + [34] + rest == [34] + (text + ([34] + rest));
    QuoteOpens(34, text + ([34] + rest), cur);
    AtomsRead(atoms, [34] + rest, cur);
    QuoteCloses(rest, cur + AtomsValue(atoms));
  }

  lemma ApostrophesRead(s: ByteString, rest: ByteString, cur: ByteString)
    requires 0 !in s && (s != [] ==> s[|s| - 1] != 92) && (At(rest, 0) == 0 || IsBlank(At(rest, 0)))
    ensures ReadToken(EndText(Apostrophes(s)) + rest, Plain, cur) == Quote.Token(cur + s, rest)
  {
    hide ReadToken, SingleText;
    var text := SingleText(s);
    assert [39] + text + [39] + rest == [39] + (text + ([39] + rest));
    QuoteOpens(39, text + ([39] + rest), cur);
    SingleReads(s, [39] + rest, cur);
    QuoteCloses(rest, cur + s);
  }

  // ---------- Lines ----------

  /** `gaps` are the blanks before each word and at the end of the line. */
  predicate IsLine(words: seq<Word>, gaps: seq<ByteString>) {
    && |gaps| == |words| + 1
    && (forall j :: 0 <= j < |words| ==> IsWord(words[j]))
    && (forall j :: 0 <= j < |gaps| ==> AreBlanks(gaps[j]))
    && (forall j :: 0 < j < |words| ==> gaps[j] != [])
    && (forall j :: 0 < j < |gaps| ==> gaps[j] != [] ==> Follows(words[j - 1], gaps[j]))
  }

  predicate AreBlanks(gap: ByteString) {
    forall i :: 0 <= i < |gap| ==> IsBlank(gap[i])
  }

  function LineText(words: seq<Word>, gaps: seq<ByteString>): ByteString
    requires |gaps| == |words| + 1
  {
    if words == [] then gaps[0]
    else gaps[0] + (WordText(words[0]) + LineText(words[1..], gaps[1..]))
  }

  function LineValues(words: seq<Word>): (r: seq<ByteString>)
    requires forall j :: 0 <= j < |words| ==> IsWord(words[j])
    ensures |r| == |words| && forall j :: 0 <= j < |r| ==> r[j] == WordValue(words[j])
  {
    seq(|words|, j requires 0 <= j < |words| => WordValue(words[j]))
  }

  lemma {:induction false} GapSkipped(gap: ByteString, more: ByteString)
    requires AreBlanks(gap)
    ensures Split(gap + more) == Split(more)
    decreases |gap|
  {
    hide Split;
    if gap == [] {
      assert gap + more == more;
    } else {
      SplitAfterBlank(gap + more);
      assert (gap + more)[1..] == gap[1..] + more;
      GapSkipped(gap[1..], more);
    }
  }

  lemma WordStarts(w: Word, rest: ByteString)
    requires IsWord(w)
    ensures WordText(w) != [] && At(WordText(w) + rest, 0) == WordText(w)[0] != 0 && !IsBlank(WordText(w)[0])
  {
    hide IsAtoms, AtomsText, SingleText;
  }

  /** The first word is the first argument. */
  lemma WordSplits(w: Word, rest: ByteString)
    requires IsWord(w) && Follows(w, rest)
    ensures Split(WordText(w) + rest) == Prepend([WordValue(w)], Split(rest))
  {
    hide ReadToken, Split, IsWord, WordText, WordValue;
    WordStarts(w, rest);
    WordReads(w, rest);
    SplitStep(WordText(w) + rest, []);
    assert [] + [WordValue(w)] == [WordValue(w)];
    PrependNothing(Split(WordText(w) + rest));
    if At(rest, 0) != 0 {
      SplitAfterBlank(rest);
    }
  }

  lemma PrependNothing(more: Option<seq<ByteString>>)
    ensures Prepend([], more) == more
  {
    if more.Some? {
      assert [] + more.value == more.value;
    }
  }

  lemma LineRest(words: seq<Word>, gaps: seq<ByteString>)
    requires IsLine(words, gaps) && words != []
    ensures IsWord(words[0]) && AreBlanks(gaps[0]) && IsLine(words[1..], gaps[1..])
    ensures gaps[1] != [] ==> Follows(words[0], gaps[1])
    ensures |words| > 1 ==> gaps[1] != []
  {
    hide IsWord, AreBlanks, Follows;
    var rest, gaps' := words[1..], gaps[1..];
    assert forall j :: 0 <= j < |rest| ==> rest[j] == words[j + 1] && gaps'[j] == gaps[j + 1];
    assert gaps'[|rest|] == gaps[|words|];
    assert forall j :: 0 < j < |gaps'| ==> gaps'[j] == gaps[j + 1] && rest[j - 1] == words[j];
  }

  lemma FollowsLine(words: seq<Word>, gaps: seq<ByteString>, tail: ByteString)
    requires IsLine(words, gaps) && words != []
    requires gaps[|words|] == [] ==> Follows(words[|words| - 1], tail)
    ensures Follows(words[0], LineText(words[1..], gaps[1..]) + tail)
  {
    hide IsWord, WordText;
    LineRest(words, gaps);
    var text := LineText(words[1..], gaps[1..]) + tail;
    if gaps[1] == [] {
      assert text == tail;
    } else {
      assert At(text, 0) == gaps[1][0];
    }
  }

  /** The words of a line are its first arguments, whatever comes next. */
  lemma {:induction false} LineReads(words: seq<Word>, gaps: seq<ByteString>, tail: ByteString)
    requires IsLine(words, gaps)
    requires words != [] && gaps[|words|] == [] ==> Follows(words[|words| - 1], tail)
    ensures Split(LineText(words, gaps) + tail) == Prepend(LineValues(words), Split(tail))
    decreases |words|
  {
    hide Split, IsWord, WordText, WordValue, Follows, AreBlanks;
    if words == [] {
      GapSkipped(gaps[0], tail);
      assert LineValues(words) == [];
      PrependNothing(Split(tail));
    } else {
      LineRest(words, gaps);
      FollowsLine(words, gaps, tail);
      var text := LineText(words[1..], gaps[1..]) + tail;
      assert LineText(words, gaps) + tail == gaps[0] + (WordText(words[0]) + text);
      GapSkipped(gaps[0], WordText(words[0]) + text);
      WordSplits(words[0], text);
      LineReads(words[1..], gaps[1..], tail);
      assert LineValues(words) == [WordValue(words[0])] + LineValues(words[1..]);
      PrependTwice([WordValue(words[0])], LineValues(words[1..]), Split(tail));
    }
  }

  lemma PrependTwice(x: seq<ByteString>, y: seq<ByteString>, more: Option<seq<ByteString>>)
    ensures Prepend(x, Prepend(y, more)) == Prepend(x + y, more)
  {
    if more.Some? {
      assert x + (y + more.value) == x + y + more.value;
    }
  }

  /** A line of such words splits into what they stand for, whatever stands behind a NUL
      at its end. */
  lemma LineMeans(words: seq<Word>, gaps: seq<ByteString>, tail: ByteString)
    requires IsLine(words, gaps) && At(tail, 0) == 0
    ensures Split(LineText(words, gaps) + tail) == Some(LineValues(words))
  {
    hide IsWord, AreBlanks, Split, LineText, LineValues;
    LineReads(words, gaps, tail);
    SplitEnd(tail);
    assert LineValues(words) + [] == LineValues(words);
  }

  // ---------- Quotes that do not close ----------

  /** Quotes that do not close properly: the line ends in them, where a last backslash
      escapes nothing, or something other than a blank comes behind the closing quote. */
  datatype Fault =
    | InQuotes(atoms: seq<Atom>, end: ByteString)
    | InApostrophes(text: ByteString, end: ByteString)
    | BehindQuote(part: End, next: ByteString)

  predicate IsFault(f: Fault) {
    match f
    case InQuotes(atoms, end) => IsAtoms(atoms) && (At(end, 0) == 0 || (At(end, 0) == 92 && At(end, 1) == 0))
    case InApostrophes(text, end) => 0 !in text && At(end, 0) == 0
    case BehindQuote(part, next) => !part.Bare? && IsWord(Word([], part)) && At(next, 0) != 0 && !IsBlank(At(next, 0))
  }

  function FaultText(f: Fault): ByteString {
    match f
    case InQuotes(atoms, end) => [34] + (AtomsText(atoms) + end)
    case InApostrophes(text, end) => [39] + (SingleText(text) + end)
    case BehindQuote(part, next) => EndText(part) + next
  }

  lemma QuoteMissing(end: ByteString, cur: ByteString)
    ensures At(end, 0) == 0 || (At(end, 0) == 92 && At(end, 1) == 0) ==> ReadToken(end, Double, cur) == Unbalanced
    ensures At(end, 0) == 0 ==> ReadToken(end, Single, cur) == Unbalanced
  {
    if At(end, 0) == 92 {
      assert At(Skip(end, 1), 0) == At(end, 1);
    }
  }

  lemma QuoteFollowed(next: ByteString, cur: ByteString)
    requires At(next, 0) != 0 && !IsBlank(At(next, 0))
    ensures ReadToken([34] + next, Double, cur) == Unbalanced
    ensures ReadToken([39] + next, Single, cur) == Unbalanced
  {
    assert At([34] + next, 1) == At(next, 0) == At([39] + next, 1);
  }

  /** Something other than a blank behind a closing quote. */
  lemma PartReads(part: End, next: ByteString, cur: ByteString)
    requires !part.Bare? && IsWord(Word([], part)) && At(next, 0) != 0 && !IsBlank(At(next, 0))
    ensures ReadToken(EndText(part) + next, Plain, cur) == Unbalanced
  {
    hide ReadToken, AtomsText, AtomsValue, SingleText, IsAtoms, IsBare;
    match part {
      case Quotes(atoms) =>
        var more := AtomsText(atoms) + ([34] + next);
        assert EndText(part) + next == [34] + more;
        QuoteOpens(34, more, cur);
        AtomsRead(atoms, [34] + next, cur);
        QuoteFollowed(next, cur + AtomsValue(atoms));
      case Apostrophes(text) =>
        var more := SingleText(text) + ([39] + next);
        assert EndText(part) + next == [39] + more;
        QuoteOpens(39, more, cur);
        SingleReads(text, [39] + next, cur);
        QuoteFollowed(next, cur + text);
    }
  }

  lemma FaultReads(f: Fault, cur: ByteString)
    requires IsFault(f)
    ensures ReadToken(FaultText(f), Plain, cur) == Unbalanced
  {
    hide ReadToken, AtomsText, AtomsValue, SingleText, IsAtoms, IsBare, EndText, IsWord;
    match f {
      case InQuotes(atoms, end) =>
        QuoteOpens(34, AtomsText(atoms) + end, cur);
        AtomsRead(atoms, end, cur);
        QuoteMissing(end, cur + AtomsValue(atoms));
      case InApostrophes(text, end) =>
        QuoteOpens(39, SingleText(text) + end, cur);
        SingleReads(text, end, cur);
        QuoteMissing(end, cur + text);
      case BehindQuote(part, next) => PartReads(part, next, cur);
    }
  }

  lemma FaultStarts(f: Fault)
    ensures IsFault(f) ==> At(FaultText(f), 0) in {34, 39}
  {
  }

  /** One such fault, after any words and behind any bare start, and the line is refused
      as a whole. */
  lemma LineFails(words: seq<Word>, gaps: seq<ByteString>, bare: ByteString, f: Fault)
    requires IsLine(words, gaps) && IsBare(bare) && IsFault(f)
    requires words != [] ==> gaps[|words|] != []
    ensures Split(LineText(words, gaps) + (bare + FaultText(f))) == None
  {
    hide IsWord, Follows, AreBlanks, Split, LineText, LineValues, ReadToken, IsFault, FaultText;
    var tail := bare + FaultText(f);
    FaultStarts(f);
    assert At(tail, 0) == if bare == [] then At(FaultText(f), 0) else bare[0];
    BareReads(bare, FaultText(f), []);
    FaultReads(f, [] + bare);
    SplitStep(tail, []);
    LineReads(words, gaps, tail);
  }

  lemma {:induction false} SingleAppend(s: ByteString, b: Byte)
    ensures SingleText(s + [b]) == SingleText(s) + (if b == 39 then [92, 39] else [b])
    decreases |s|
  {
    if s == [] {
      assert [b][1..] == [];
    } else {
      assert (s + [b])[1..] == s[1..] + [b];
      SingleAppend(s[1..], b);
    }
  }

  lemma SingleCloses(s: ByteString)
    requires 0 !in s && (s != [] ==> s[|s| - 1] != 92)
    ensures Split([39] + SingleText(s) + [39]) == Some([s])
  {
    hide SingleText, Split;
    var w := Word([], Apostrophes(s));
    var text := [39] + SingleText(s) + [39];
    assert WordText(w) == text && WordValue(w) == s;
    assert text + [] == text;
    WordSplits(w, []);
    SplitEnd([]);
    assert [s] + [] == [s];
  }

  lemma SingleStaysOpen(s: ByteString)
    requires 0 !in s
    ensures Split([39] + SingleText(s + [92]) + [39]) == None
  {
    hide SingleText, Split, LineValues;
    SingleAppend(s, 92);
    SingleAppend(s, 39);
    var f := InApostrophes(s + [39], []);
    var text := [39] + SingleText(s + [92]) + [39];
    assert FaultText(f) == text;
    assert LineText([], [[]]) + ([] + text) == text;
    LineFails([], [[]], [], f);
  }

  /** A string between single quotes comes back exactly when it does not end with a
      backslash; one at the end escapes the closing quote. */
  lemma SingleComesBack(s: ByteString)
    requires 0 !in s
    ensures var ends := s != [] && s[|s| - 1] == 92;
            Split([39] + SingleText(s) + [39]) == if ends then None else Some([s])
  {
    hide SingleText, Split;
    if s != [] && s[|s| - 1] == 92 {
      assert s == s[..|s| - 1] + [92];
      SingleStaysOpen(s[..|s| - 1]);
    } else {
      SingleCloses(s);
    }
  }

  // ---------- Quoting ----------

  function LowerHex(n: nat): Byte
    requires n < 16
  {
    if n < 10 then 48 + n else 87 + n
  }

  /** How sdscatrepr writes a byte. */
  function Canonical(b: Byte): Atom {
    if b == 92 || b == 34 then Slash(b)
    else if b == 10 then Slash(110) else if b == 13 then Slash(114) else if b == 9 then Slash(116)
    else if b == 7 then Slash(97) else if b == 8 then Slash(98)
    else if 32 <= b <= 126 then Raw(b)
    else Hex(LowerHex(b / 16), LowerHex(b % 16))
  }

  /** The quoted form is one atom for each byte, and each atom stands for its byte. */
  lemma {:induction false} QuotedForm(s: ByteString)
    ensures var atoms := Map(Canonical, s);
            && Quoted(s) == [34] + AtomsText(atoms) + [34]
            && IsAtoms(atoms) && AtomsValue(atoms) == s
  {
    EscapedForm(s);
  }

  lemma {:induction false} EscapedForm(s: ByteString)
    ensures var atoms := Map(Canonical, s);
            EscapeAll(s) == AtomsText(atoms) && IsAtoms(atoms) && AtomsValue(atoms) == s
  {
    hide Canonical, Escape, AtomText, IsAtom, AtomValue;
    var atoms := Map(Canonical, s);
    if s != [] {
      assert Map(Canonical, s[1..]) == atoms[1..];
      EscapedForm(s[1..]);
      CanonicalForm(s[0]);
    }
  }

  lemma CanonicalForm(b: Byte)
    ensures var a := Canonical(b);
            Escape(b) == AtomText(a) && IsAtom(a) && a != Slash(120) && AtomValue(a) == b
  {
  }

  /** sdssplitargs on a line of such words. */
  method SplitLine(words: seq<Word>, gaps: seq<ByteString>, tail: ByteString) returns (argv: seq<ByteString>)
    requires IsLine(words, gaps) && At(tail, 0) == 0
    ensures |argv| == |words| && forall j :: 0 <= j < |argv| ==> argv[j] == WordValue(words[j])
  {
    hide IsWord, AreBlanks, Follows, LineText, WordValue, Split;
    LineMeans(words, gaps, tail);
    var r := SplitArgs(LineText(words, gaps) + tail);
    argv := r.value;
  }
}
