/** Taking a formatted command apart again: nextArgument and the registration of subscriptions. */
module Arguments {
  import opened Bytes
  import opened Numbers
  import opened Format
  import opened Dicts

  /** strchr: the first position from p on that holds b, before the NUL. */
  function StrChr(s: ByteString, p: nat, b: Byte): (r: Option<nat>)
    requires b != NUL
    ensures r.Some? ==> p <= r.value < |s| && s[r.value] == b
    decreases if p < |s| then |s| - p else 0
  {
    if At(s, p) == NUL then None
    else if s[p] == b then Some(p)
    else StrChr(s, p + 1, b)
  }

  /** The digits at p, added to the value read before. */
  function StrToDigits(s: ByteString, p: nat, v: nat): nat
    decreases if p < |s| then |s| - p else 0
  {
    if p < |s| && IsDigit(s[p]) then StrToDigits(s, p + 1, v * 10 + (s[p] - ZERO)) else v
  }

  /** strtol in base 10: blanks, a sign, digits. */
  function StrToL(s: ByteString, p: nat): int
    decreases if p < |s| then |s| - p else 0
  {
    if IsSpace(At(s, p)) then StrToL(s, p + 1)
    else if At(s, p) == MINUS then 0 - StrToDigits(s, p + 1, 0)
    else if At(s, p) == PLUS then StrToDigits(s, p + 1, 0)
    else StrToDigits(s, p, 0)
  }

  /** An argument: its first byte, its length, and where the next one is. */
  datatype Argument = Argument(start: nat, len: int, next: int)

  /** nextArgument. The C code asserts that a carriage return follows the length. */
  function NextArgument(cmd: ByteString, start: nat): Option<Argument> {
    var p := if At(cmd, start) == DOLLAR then Some(start) else StrChr(cmd, start, DOLLAR);
    if p == None then None
    else
      var len := StrToL(cmd, p.value + 1);
      var cr := StrChr(cmd, p.value, CR);
      if cr == None then None
      else Some(Argument(cr.value + 2, len, cr.value + 2 + len + 2))
  }

  /** Where the j-th argument of a formatted command starts; the first call starts at 0. */
  function ArgumentStart(args: seq<ByteString>, j: nat): nat
    requires j <= |args|
  {
    if j == 0 then 0 else |Header(|args|)| + |Bulks(args[..j])|
  }

  lemma {:induction false} StrChrFirst(s: ByteString, p: nat, q: nat, b: Byte)
    requires b != NUL && p <= q < |s| && s[q] == b
    requires forall i :: p <= i < q ==> s[i] != b && s[i] != NUL
    ensures StrChr(s, p, b) == Some(q)
    decreases q - p
  {
    if p < q {
      StrChrFirst(s, p + 1, q, b);
    }
  }

  lemma {:induction false} ReadDigits(s: ByteString, p: nat, d: ByteString, k: nat)
    requires p + |d| < |s| && s[p..p + |d|] == d && AllDigits(d) && !IsDigit(s[p + |d|]) && k <= |d|
    ensures StrToDigits(s, p + k, Value(d[..k])) == Value(d)
    decreases |d| - k
  {
    if k == |d| {
      assert d[..k] == d;
    } else {
      assert s[p..p + |d|][k] == d[k];
      assert d[..k + 1][..k] == d[..k];
      ReadDigits(s, p, d, k + 1);
    }
  }

  lemma Halves(s: ByteString, p: nat, x: ByteString, y: ByteString)
    requires p + |x| + |y| <= |s| && s[p..p + |x| + |y|] == x + y
    ensures s[p..p + |x|] == x && s[p + |x|..p + |x| + |y|] == y
  {
    var whole := s[p..p + |x| + |y|];
    assert whole[..|x|] == x && whole[|x|..] == y;
    assert s[p..p + |x|] == whole[..|x|] && s[p + |x|..p + |x| + |y|] == whole[|x|..];
  }

  /** strtol reads back a printed number that a carriage return ends. */
  lemma ReadLength(s: ByteString, p: nat, n: nat)
    requires p + |Decimal(n)| < |s| && s[p..p + |Decimal(n)|] == Decimal(n) && s[p + |Decimal(n)|] == CR
    ensures StrToL(s, p) == n
  {
    var d := Decimal(n);
    DecimalValue(n);
    assert s[p..p + |d|][0] == d[0] == s[p];
    NoDigits(d[..0]);
    hide Value, StrToDigits;
    ReadDigits(s, p, d, 0);
  }

  /** The parts of a bulk string inside a command. */
  lemma BulkSlices(cmd: ByteString, p: nat, a: ByteString)
    requires p + |Bulk(a)| <= |cmd| && cmd[p..p + |Bulk(a)|] == Bulk(a)
    ensures var q := p + 1 + |Decimal(|a|)|;
            && p + |Bulk(a)| == q + 2 + |a| + 2
            && cmd[p..p + 1] == [DOLLAR] && cmd[p + 1..q] == Decimal(|a|) && cmd[q..q + 2] == CRLF
            && cmd[q + 2..q + 2 + |a|] == a && cmd[q + 2 + |a|..q + 2 + |a| + 2] == CRLF
  {
    hide Decimal;
    var d, mark: ByteString := Decimal(|a|), [DOLLAR];
    Halves(cmd, p, mark + d + CRLF + a, CRLF);
    Halves(cmd, p, mark + d + CRLF, a);
    Halves(cmd, p, mark + d, CRLF);
    Halves(cmd, p, mark, d);
  }

  /** Its length is at p + 1, a carriage return at q, its bytes from q + 2 on. */
  lemma BulkInside(cmd: ByteString, p: nat, a: ByteString)
    requires p + |Bulk(a)| <= |cmd| && cmd[p..p + |Bulk(a)|] == Bulk(a)
    ensures var q := p + 1 + |Decimal(|a|)|;
            && p + |Bulk(a)| == q + 2 + |a| + 2 && cmd[p] == DOLLAR && cmd[q] == CR
            && cmd[p + 1..q] == Decimal(|a|)
            && (forall i :: p <= i < q ==> cmd[i] != CR && cmd[i] != NUL)
            && cmd[q + 2..q + 2 + |a|] == a && cmd[q + 2..q + 2 + |a| + 2] == a + CRLF
  {
    hide Decimal, Bulk;
    BulkSlices(cmd, p, a);
    var d := Decimal(|a|);
    var q := p + 1 + |d|;
    assert cmd[p] == cmd[p..p + 1][0] && cmd[q] == cmd[q..q + 2][0];
    forall i | p <= i < q
      ensures cmd[i] != CR && cmd[i] != NUL
    {
      assert i > p ==> cmd[p + 1..q][i - p - 1] == d[i - p - 1];
    }
    Together(cmd, q + 2, q + 2 + |a|, q + 2 + |a| + 2);
  }

  lemma Together(s: ByteString, i: nat, j: nat, k: nat)
    requires i <= j <= k <= |s|
    ensures s[i..j] + s[j..k] == s[i..k]
  {
  }

  /** At a bulk string, nextArgument finds its bytes and its end. */
  lemma ArgumentAt(cmd: ByteString, p: nat, a: ByteString)
    requires p + |Bulk(a)| <= |cmd| && cmd[p..p + |Bulk(a)|] == Bulk(a)
    ensures var s := p + 1 + |Decimal(|a|)| + 2;
            && NextArgument(cmd, p) == Some(Argument(s, |a|, p + |Bulk(a)|))
            && cmd[s..s + |a|] == a
  {
    hide Bulk, StrToL, StrChr, Decimal;
    BulkInside(cmd, p, a);
    StrChrFirst(cmd, p, p + 1 + |Decimal(|a|)|, CR);
    ReadLength(cmd, p + 1, |a|);
  }

  lemma NoDigits(d: ByteString)
    requires d == []
    ensures Value(d) == 0
  {
  }

  /** What (P)SUBSCRIBE, (P)UNSUBSCRIBE and MONITOR are recognised by. */
  datatype Kind = Subscribe(patterns: bool) | Unsubscribe | Monitor | Regular

  function ToLower(b: Byte): Byte {
    if 65 <= b <= 90 then b + 32 else b
  }

  /** strncasecmp with the length of the word, which is in lower case. */
  predicate EqualsNoCase(s: ByteString, p: nat, word: string)
    requires forall k :: 0 <= k < |word| ==> 0 < word[k] as int < 256
  {
    forall k :: 0 <= k < |word| ==> ToLower(At(s, p + k)) == word[k] as int
  }

  /** The case distinction of __redisAsyncCommand. */
  function KindOf(cmd: ByteString): Kind {
    match NextArgument(cmd, 0)
    case None => Regular
    case Some(first) =>
      var hasnext := first.next >= 0 && At(cmd, first.next) == DOLLAR;
      var pvariant := ToLower(At(cmd, first.start)) == LOWER_P;
      var name := if pvariant then first.start + 1 else first.start;
      if hasnext && EqualsNoCase(cmd, name, "subscribe\r\n") then Subscribe(pvariant)
      else if EqualsNoCase(cmd, name, "unsubscribe\r\n") then Unsubscribe
      else if EqualsNoCase(cmd, name, "monitor\r\n") then Monitor
      else Regular
  }

  lemma CommandSlice(args: seq<ByteString>, j: nat)
    requires j < |args|
    ensures var p := |Header(|args|)| + |Bulks(args[..j])|;
            && p + |Bulk(args[j])| == |Header(|args|)| + |Bulks(args[..j + 1])| <= |Command(args)|
            && Command(args)[p..p + |Bulk(args[j])|] == Bulk(args[j])
  {
    hide Bulk, Decimal;
    BulksStep(args, j);
    BulksPrefix(args, j + 1);
    var h, all := Header(|args|), Bulks(args);
    var before, b := Bulks(args[..j]), Bulk(args[j]);
    assert all[..|before + b|] == before + b;
    assert (h + all)[|h| + |before|..|h| + |before| + |b|] == all[|before|..|before| + |b|] == b;
  }

  /** Repeated calls of nextArgument on a formatted command give exactly its
      arguments, in order and whatever bytes they hold, and then nothing. */
  lemma ArgumentsEnumerated(args: seq<ByteString>, j: nat)
    requires j <= |args|
    ensures j < |args| ==>
              var a := NextArgument(Command(args), ArgumentStart(args, j));
              && a.Some? && a.value.len == |args[j]| && a.value.next == ArgumentStart(args, j + 1)
              && a.value.start + |args[j]| <= |Command(args)|
              && Command(args)[a.value.start..a.value.start + |args[j]|] == args[j]
    ensures j == |args| > 0 ==> NextArgument(Command(args), ArgumentStart(args, j)) == None
  {
    hide Decimal, Bulk, StrToL;
    var cmd := Command(args);
    if j < |args| {
      var p := |Header(|args|)| + |Bulks(args[..j])|;
      CommandSlice(args, j);
      ArgumentAt(cmd, p, args[j]);
      if j == 0 {
        FirstArgument(args);
      }
    } else if j > 0 {
      assert args[..j] == args;
      assert At(cmd, |cmd|) == NUL;
    }
  }

  lemma HeaderPlain(args: seq<ByteString>)
    ensures 0 < |Header(|args|)| <= |Command(args)|
    ensures forall i :: 0 <= i < |Header(|args|)| ==> Command(args)[i] != DOLLAR && Command(args)[i] != NUL
  {
    hide Decimal, Bulks;
    assert forall i :: 0 <= i < |Header(|args|)| ==> Command(args)[i] == Header(|args|)[i];
  }

  lemma BulksNone(args: seq<ByteString>)
    ensures |Bulks(args[..0])| == 0
  {
  }

  /** The first call skips the header. */
  lemma FirstArgument(args: seq<ByteString>)
    requires args != []
    ensures NextArgument(Command(args), 0) == NextArgument(Command(args), |Header(|args|)|)
  {
    hide Bulk, Bulks, Header, Command, StrToL, StrChr;
    var cmd, n := Command(args), |Header(|args|)|;
    BulksNone(args);
    CommandSlice(args, 0);
    BulkInside(cmd, n, args[0]);
    HeaderPlain(args);
    StrChrFirst(cmd, 0, n, DOLLAR);
  }

  /** The name is the word in any case, or begins with it and a line end. */
  predicate Named(name: ByteString, word: string) {
    && |word| <= |name|
    && (forall k :: 0 <= k < |word| ==> name[k] == word[k] as int || name[k] == word[k] as int - 32)
    && (|name| == |word| || (|word| + 2 <= |name| && name[|word|] == 13 && name[|word| + 1] == 10))
  }

  predicate IsWord(word: string) {
    forall k :: 0 <= k < |word| ==> 'a' <= word[k] <= 'z'
  }

  /** The comparison with a word and a line end runs into the line end that
      follows the name, so it depends on the name alone. */
  lemma ComparesName(cmd: ByteString, start: nat, name: ByteString, word: string)
    requires IsWord(word) && start + |name| + 2 <= |cmd|
    requires forall k :: 0 <= k < |name| ==> cmd[start + k] == name[k]
    requires cmd[start + |name|] == CR && cmd[start + |name| + 1] == LF
    ensures EqualsNoCase(cmd, start, word + "\r\n") <==> Named(name, word)
  {
    var line := word + "\r\n";
    var m := |word|;
    if |name| < m {
      assert ToLower(At(cmd, start + |name|)) != line[|name|] as int;
    } else {
      assert line[m] == '\r' && line[m + 1] == '\n';
      assert forall k :: 0 <= k < m ==> line[k] == word[k] && At(cmd, start + k) == name[k];
      assert EqualsNoCase(cmd, start, line) ==> Named(name, word) by {
        if EqualsNoCase(cmd, start, line) {
          assert ToLower(At(cmd, start + m)) == line[m] as int;
          assert ToLower(At(cmd, start + (m + 1))) == line[m + 1] as int;
          assert forall k :: 0 <= k < m ==> ToLower(At(cmd, start + k)) == line[k] as int;
        }
      }
    }
  }

  /** A p in front of the name. */
  lemma NamedBehindP(name: ByteString, word: string)
    requires name != [] && IsWord(word)
    ensures Named(name, "p" + word) <==> ToLower(name[0]) == LOWER_P && Named(name[1..], word)
  {
    var long := "p" + word;
    assert forall k :: 0 <= k < |word| ==> long[k + 1] == word[k];
    assert ToLower(name[0]) == LOWER_P && Named(name[1..], word) ==> Named(name, long) by {
      assert forall k :: 0 < k < |name| ==> name[k] == name[1..][k - 1];
    }
    assert Named(name, long) ==> ToLower(name[0]) == long[0] as int;
    assert Named(name, long) ==> forall k :: 0 <= k < |word| ==> ToLower(name[1..][k]) == long[k + 1] as int;
  }

  /** How a formatted command is treated depends only on the name in its first
      argument, and on whether it has others. (P)SUBSCRIBE needs another argument;
      MONITOR is recognised behind a p too. */
  lemma KindOfCommand(args: seq<ByteString>)
    requires args != []
    ensures NextArgument(Command(args), 0).Some?
    ensures KindOf(Command(args)) ==
            if |args| > 1 && Named(args[0], "subscribe") then Subscribe(false)
            else if |args| > 1 && Named(args[0], "psubscribe") then Subscribe(true)
            else if Named(args[0], "unsubscribe") || Named(args[0], "punsubscribe") then Unsubscribe
            else if Named(args[0], "monitor") || Named(args[0], "pmonitor") then Monitor
            else Regular
  {
    hide Decimal, Bulk, Bulks, Command, NextArgument, EqualsNoCase, Named;
    var cmd, name := Command(args), args[0];
    ArgumentsEnumerated(args, 0);
    var first := NextArgument(cmd, 0).value;
    NameLine(args);
    var line := name + CRLF;
    forall k | 0 <= k < |line|
      ensures cmd[first.start + k] == line[k]
    {
      assert cmd[first.start..first.start + |line|][k] == line[k];
    }
    assert cmd[first.start + |name|] == line[|name|] == CR && cmd[first.start + |name| + 1] == line[|name| + 1] == LF;
    assert forall k :: 0 <= k < |name| ==> line[k] == name[k];
    assert At(cmd, first.start) == if name == [] then CR else name[0];
    NamesApart(name);
    if name != [] && ToLower(name[0]) == LOWER_P {
      ComparesNames(cmd, first.start + 1, name[1..]);
    } else {
      ComparesNames(cmd, first.start, name);
    }
  }

  lemma ComparesNames(cmd: ByteString, start: nat, name: ByteString)
    requires start + |name| + 2 <= |cmd|
    requires forall k :: 0 <= k < |name| ==> cmd[start + k] == name[k]
    requires cmd[start + |name|] == CR && cmd[start + |name| + 1] == LF
    ensures EqualsNoCase(cmd, start, "subscribe\r\n") <==> Named(name, "subscribe")
    ensures EqualsNoCase(cmd, start, "unsubscribe\r\n") <==> Named(name, "unsubscribe")
    ensures EqualsNoCase(cmd, start, "monitor\r\n") <==> Named(name, "monitor")
  {
    hide EqualsNoCase, Named;
    ComparesName(cmd, start, name, "subscribe");
    ComparesName(cmd, start, name, "unsubscribe");
    ComparesName(cmd, start, name, "monitor");
    assert "subscribe" + "\r\n" == "subscribe\r\n";
    assert "unsubscribe" + "\r\n" == "unsubscribe\r\n";
    assert "monitor" + "\r\n" == "monitor\r\n";
  }

  /** The names with the p are exactly those of the names without. */
  lemma NamesApart(name: ByteString)
    ensures var p := name != [] && ToLower(name[0]) == LOWER_P;
            && (Named(name, "psubscribe") <==> p && Named(name[1..], "subscribe"))
            && (Named(name, "punsubscribe") <==> p && Named(name[1..], "unsubscribe"))
            && (Named(name, "pmonitor") <==> p && Named(name[1..], "monitor"))
            && (p ==> !Named(name, "subscribe") && !Named(name, "unsubscribe") && !Named(name, "monitor"))
  {
    if name != [] {
      assert "p" + "subscribe" == "psubscribe";
      assert "p" + "unsubscribe" == "punsubscribe";
      assert "p" + "monitor" == "pmonitor";
      FirstLetter(name, "subscribe");
      FirstLetter(name, "unsubscribe");
      FirstLetter(name, "monitor");
      hide Named;
      NamedBehindP(name, "subscribe");
      NamedBehindP(name, "unsubscribe");
      NamedBehindP(name, "monitor");
    }
  }

  lemma FirstLetter(name: ByteString, word: string)
    requires word != [] && name != [] && IsWord(word)
    ensures Named(name, word) ==> ToLower(name[0]) == word[0] as int
  {
  }

  /** Where the name is, and what follows it. */
  lemma NameLine(args: seq<ByteString>)
    requires args != [] && NextArgument(Command(args), 0).Some?
    ensures var cmd, a := Command(args), NextArgument(Command(args), 0).value;
            && a.start + |args[0]| + 2 <= |cmd|
            && cmd[a.start..a.start + |args[0]| + 2] == args[0] + CRLF
            && a.next >= 0 && (At(cmd, a.next) == DOLLAR <==> |args| > 1)
  {
    hide Decimal, NextArgument, Bulk, Bulks, Header, Command;
    var cmd, p := Command(args), |Header(|args|)|;
    BulksNone(args);
    CommandSlice(args, 0);
    FirstArgument(args);
    ArgumentAt(cmd, p, args[0]);
    BulkInside(cmd, p, args[0]);
    if |args| > 1 {
      CommandSlice(args, 1);
      BulkInside(cmd, p + |Bulks(args[..1])|, args[1]);
    } else {
      assert args[..1] == args;
      CommandEnd(args);
    }
  }

  lemma CommandEnd(args: seq<ByteString>)
    ensures |Command(args)| == |Header(|args|)| + |Bulks(args)|
  {
  }

  /** The map with the same new value for each of the names. */
  function Bind<V>(m: map<ByteString, V>, names: seq<ByteString>, v: V): map<ByteString, V> {
    if names == [] then m else Bind(m, names[..|names| - 1], v)[names[|names| - 1] := v]
  }

  /** A name that is bound maps to the new value, any other keeps its value. */
  lemma {:induction false} BindMeans<V>(m: map<ByteString, V>, names: seq<ByteString>, v: V, k: ByteString)
    ensures k in names ==> k in Bind(m, names, v) && Bind(m, names, v)[k] == v
    ensures k !in names ==>
              (k in Bind(m, names, v) <==> k in m) && (k in m ==> Bind(m, names, v)[k] == m[k])
  {
    if names != [] {
      BindMeans(m, names[..|names| - 1], v, k);
    }
  }

  /** The loop of __redisAsyncCommand that registers the callback of a
      (P)SUBSCRIBE for every name in the command. */
  method Register<V>(ghost args: seq<ByteString>, cmd: ByteString, p: nat, callbacks: Dict<ByteString, V>, cb: V)
    requires args != [] && cmd == Command(args) && p == ArgumentStart(args, 1)
    requires callbacks.Valid() && callbacks.size <= SIZE_LIMIT
    requires 2 * (callbacks.used + |args|) <= SIZE_LIMIT
    modifies callbacks, callbacks.table, callbacks.entries
    ensures callbacks.Valid()
    ensures callbacks.contents == Bind(old(callbacks.contents), args[1..], cb)
  {
    hide Dict.Valid, NextArgument, Command, ArgumentStart;
    ghost var j := 1;
    ghost var before := callbacks.contents;
    ArgumentsEnumerated(args, 1);
    assert args[1..1] == [];
    var a := NextArgument(cmd, p);
    while a != None
      invariant 1 <= j <= |args| && a == NextArgument(cmd, ArgumentStart(args, j))
      invariant callbacks.Valid() && callbacks.size <= SIZE_LIMIT
      invariant callbacks.used + |args| - j <= old(callbacks.used) + |args|
      invariant callbacks.contents == Bind(before, args[1..j], cb)
      invariant fresh(callbacks.entries - old(callbacks.entries))
      invariant callbacks.table == old(callbacks.table) || fresh(callbacks.table)
      decreases |args| - j
    {
      ArgumentsEnumerated(args, j);
      var name := cmd[a.value.start..a.value.start + a.value.len];
      var added := callbacks.Replace(name, cb);
      ghost var names := args[1..j + 1];
      assert names == args[1..j] + [args[j]];
      assert names[..|names| - 1] == args[1..j];
      j := j + 1;
      ArgumentsEnumerated(args, j);
      a := NextArgument(cmd, a.value.next);
    }
    ArgumentsEnumerated(args, j);
    assert args[1..j] == args[1..];
  }
}
