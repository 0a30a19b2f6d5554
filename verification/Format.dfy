/** Printing commands: redisFormatCommandArgv and redisvFormatCommand. */
module Format {
  import opened Bytes
  import opened Numbers

  /** One argument as a bulk string. */
  function Bulk(a: ByteString): ByteString {
    [DOLLAR] + Decimal(|a|) + CRLF + a + CRLF
  }

  function Bulks(args: seq<ByteString>): ByteString {
    if args == [] then [] else Bulks(args[..|args| - 1]) + Bulk(args[|args| - 1])
  }

  /** The header that announces the number of arguments. */
  function Header(argc: nat): ByteString {
    [STAR] + Decimal(argc) + CRLF
  }

  /** A command with these arguments. */
  function Command(args: seq<ByteString>): ByteString {
    Header(|args|) + Bulks(args)
  }

  lemma {:induction false} BulksPrefix(args: seq<ByteString>, j: nat)
    requires j <= |args|
    ensures Bulks(args[..j]) <= Bulks(args)
    decreases |args|
  {
    if j == |args| {
      assert args[..j] == args;
    } else {
      var front := args[..|args| - 1];
      assert front[..j] == args[..j];
      BulksPrefix(front, j);
    }
  }

  lemma BulksStep(args: seq<ByteString>, j: nat)
    requires j < |args|
    ensures Bulks(args[..j + 1]) == Bulks(args[..j]) + Bulk(args[j])
    ensures |Bulks(args[..j])| + |Bulk(args[j])| <= |Bulks(args)|
  {
    assert args[..j + 1][..j] == args[..j];
    BulksPrefix(args, j + 1);
  }

  /** bulklen */
  method BulkLen(len: nat) returns (n: nat)
    ensures forall a: ByteString {:trigger Bulk(a)} :: |a| == len ==> n == |Bulk(a)|
  {
    var digits := IntLen(len);
    n := 1 + digits + 2 + len + 2;
  }

  /** memcpy: writes text at pos. */
  method Copy(cmd: array<Byte>, pos: nat, text: ByteString) returns (next: nat)
    requires pos + |text| <= cmd.Length
    modifies cmd
    ensures next == pos + |text| && cmd[..next] == old(cmd[..pos]) + text
  {
    next := pos + |text|;
    forall i | 0 <= i < |text| {
      cmd[pos + i] := text[i];
    }
    assert forall i :: 0 <= i < |text| ==> cmd[pos + i] == text[i];
    assert forall i :: 0 <= i < pos ==> cmd[..next][i] == old(cmd[..pos])[i];
  }

  /** sprintf of "<mark><number>CRLF": the NUL it adds must have room too. */
  method PrintNumber(cmd: array<Byte>, pos: nat, mark: Byte, n: nat) returns (next: nat)
    requires pos + 1 + |Decimal(n)| + 2 < cmd.Length
    modifies cmd
    ensures next == pos + 1 + |Decimal(n)| + 2
    ensures cmd[..next] == old(cmd[..pos]) + ([mark] + Decimal(n) + CRLF)
  {
    next := Copy(cmd, pos, [mark] + Decimal(n) + CRLF);
    ghost var done := cmd[..next];
    cmd[next] := NUL;
    assert cmd[..next] == done;
  }

  /** The second half of both formatters: the command is written into a block of
      the size computed before, and fills it exactly. */
  method Build(args: seq<ByteString>, totlen: nat) returns (cmd: array<Byte>)
    requires totlen == |Command(args)|
    ensures fresh(cmd) && cmd.Length == totlen + 1
    ensures cmd[..totlen] == Command(args) && cmd[totlen] == NUL
  {
    hide Decimal, Bulk;
    cmd := new Byte[totlen + 1](_ => NUL);
    assert cmd[..0] == [];
    assert |Command(args)| == |Header(|args|)| + |Bulks(args)|;
    var pos := PrintNumber(cmd, 0, STAR, |args|);
    assert args[..0] == [];
    for j := 0 to |args|
      invariant pos == |Header(|args|)| + |Bulks(args[..j])| <= totlen
      invariant cmd[..pos] == Header(|args|) + Bulks(args[..j])
    {
      BulksStep(args, j);
      pos := WriteBulk(cmd, pos, args[j]);
      assert Header(|args|) + Bulks(args[..j]) + Bulk(args[j])
          == Header(|args|) + Bulks(args[..j + 1]);
    }
    assert args[..|args|] == args;
    assert pos == totlen;
    ghost var done := cmd[..pos];
    cmd[pos] := NUL;
    assert cmd[..pos] == done;
  }

  /** The body of the loop: one argument. */
  method WriteBulk(cmd: array<Byte>, start: nat, arg: ByteString) returns (pos: nat)
    requires start + |Bulk(arg)| < cmd.Length
    modifies cmd
    ensures pos == start + |Bulk(arg)|
    ensures cmd[..pos] == old(cmd[..start]) + Bulk(arg)
  {
    ghost var before := cmd[..start];
    pos := PrintNumber(cmd, start, DOLLAR, |arg|);
    pos := Copy(cmd, pos, arg);
    assert cmd[..pos] == before + ([DOLLAR] + Decimal(|arg|) + CRLF) + arg;
    ghost var soFar := cmd[..pos];
    cmd[pos] := CR;
    cmd[pos + 1] := LF;
    pos := pos + 2;
    assert cmd[..pos] == soFar + CRLF;
    assert soFar + CRLF == before + Bulk(arg);
  }

  /** What the lengths given to redisFormatCommandArgv say of its strings. */
  predicate HasLengths(argv: seq<ByteString>, argvlen: Option<seq<nat>>) {
    argvlen.Some? ==> |argvlen.value| == |argv| && forall j :: 0 <= j < |argv| ==> argvlen.value[j] <= |argv[j]|
  }

  /** redisFormatCommandArgv. The block is filled with a command for the strings
      handed in: as many bytes of each as its length says, or those before its first
      NUL when there are no lengths. */
  method FormatCommandArgv(argv: seq<ByteString>, argvlen: Option<seq<nat>>)
    returns (cmd: array<Byte>, totlen: nat, ghost args: seq<ByteString>)
    requires HasLengths(argv, argvlen)
    ensures fresh(cmd) && cmd.Length == totlen + 1
    ensures cmd[..totlen] == Command(args) && cmd[totlen] == 0
    ensures |args| == |argv| && forall j :: 0 <= j < |argv| ==> args[j] <= argv[j]
    ensures argvlen.Some? ==> forall j :: 0 <= j < |argv| ==> |args[j]| == argvlen.value[j]
    ensures argvlen.None? ==> forall j :: 0 <= j < |argv| ==>
              0 !in args[j] && (args[j] == argv[j] || argv[j][|args[j]|] == 0)
    ensures argvlen.Some? && (forall j :: 0 <= j < |argv| ==> argvlen.value[j] == |argv[j]|) ==> args == argv
    ensures argvlen.None? && (forall j :: 0 <= j < |argv| ==> 0 !in argv[j]) ==> args == argv
  {
    hide Decimal, Bulk, CString;
    var list: seq<ByteString> := [];
    var digits := IntLen(|argv|);
    totlen := 1 + digits + 2;
    for j := 0 to |argv|
      invariant |list| == j && forall k :: 0 <= k < j ==> IsArgument(argv, argvlen, k, list[k])
      invariant totlen == |Header(|argv|)| + |Bulks(list)|
    {
      var arg := if argvlen.Some? then argv[j][..argvlen.value[j]] else CString(argv[j]);
      var size := BulkLen(|arg|);
      assert size == |Bulk(arg)|;
      MoreBulks(list, arg);
      totlen := totlen + size;
      list := list + [arg];
    }
    args := list;
    forall j | 0 <= j < |argv|
      ensures args[j] <= argv[j]
      ensures argvlen.Some? ==> |args[j]| == argvlen.value[j]
      ensures argvlen.None? ==> 0 !in args[j] && (args[j] == argv[j] || argv[j][|args[j]|] == 0)
    {
      assert IsArgument(argv, argvlen, j, list[j]);
    }
    WholeStrings(argv, args);
    cmd := Build(list, totlen);
  }

  predicate IsArgument(argv: seq<ByteString>, argvlen: Option<seq<nat>>, j: nat, arg: ByteString)
    requires j < |argv| && HasLengths(argv, argvlen)
  {
    && arg <= argv[j]
    && if argvlen.Some? then |arg| == argvlen.value[j] else 0 !in arg && (|arg| == |argv[j]| || argv[j][|arg|] == 0)
  }

  lemma MoreBulks(list: seq<ByteString>, arg: ByteString)
    ensures Bulks(list + [arg]) == Bulks(list) + Bulk(arg)
  {
    assert (list + [arg])[..|list|] == list;
  }

  /** Prefixes as long as the strings are the strings. */
  lemma WholeStrings(argv: seq<ByteString>, args: seq<ByteString>)
    requires |args| == |argv| && forall j :: 0 <= j < |argv| ==> args[j] <= argv[j]
    ensures (forall j :: 0 <= j < |argv| ==> |args[j]| == |argv[j]|) ==> args == argv
    ensures (forall j :: 0 <= j < |argv| ==> args[j] == argv[j]) ==> args == argv
  {
    if forall j :: 0 <= j < |argv| ==> |args[j]| == |argv[j]| {
      forall j | 0 <= j < |argv|
        ensures args[j] == argv[j]
      {
        assert args[j] <= argv[j] && |args[j]| == |argv[j]|;
      }
    }
  }
}
