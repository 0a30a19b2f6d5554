/** Splitting at a separator (sdssplitlen) and joining (sdsjoinsds). */
module SplitJoin {
  import opened Bytes

  predicate MatchAt(s: ByteString, sep: ByteString, i: nat) {
    i + |sep| <= |s| && s[i..i + |sep|] == sep
  }

  predicate Contains(s: ByteString, sep: ByteString) {
    exists i :: 0 <= i <= |s| && MatchAt(s, sep, i)
  }

  /** The first occurrence of the separator at or after position i. */
  function FirstMatch(s: ByteString, sep: ByteString, i: nat): (r: Option<nat>)
    requires sep != [] && i <= |s|
    ensures r.Some? ==> i <= r.value && MatchAt(s, sep, r.value) && forall k :: i <= k < r.value ==> !MatchAt(s, sep, k)
    ensures r.None? ==> forall k :: i <= k <= |s| ==> !MatchAt(s, sep, k)
    decreases |s| - i
  {
    if MatchAt(s, sep, i) then Some(i)
    else if i == |s| then None
    else FirstMatch(s, sep, i + 1)
  }

  /** The pieces between the occurrences of the separator, found from the left,
      of the part of s from `start` on. */
  function Pieces(s: ByteString, sep: ByteString, start: nat): (r: seq<ByteString>)
    requires sep != [] && start <= |s|
    ensures r != []
    decreases |s| - start
  {
    match FirstMatch(s, sep, start)
    case None => [s[start..]]
    case Some(i) => [s[start..i]] + Pieces(s, sep, i + |sep|)
  }

  function Join(tokens: seq<ByteString>, sep: ByteString): ByteString {
    if tokens == [] then []
    else if |tokens| == 1 then tokens[0]
    else tokens[0] + sep + Join(tokens[1..], sep)
  }

  /** The result of sdssplitlen: null for an empty separator. */
  function Split(s: ByteString, sep: ByteString): Option<seq<ByteString>> {
    if sep == [] then None else if s == [] then Some([]) else Some(Pieces(s, sep, 0))
  }

  lemma JoinOne(t: ByteString, sep: ByteString)
    ensures Join([t], sep) == t
  {
  }

  lemma JoinCons(t: ByteString, rest: seq<ByteString>, sep: ByteString)
    requires rest != []
    ensures Join([t] + rest, sep) == t + sep + Join(rest, sep)
  {
    assert ([t] + rest)[1..] == rest;
  }

  lemma MatchedSlice(s: ByteString, sep: ByteString, i: nat)
    requires MatchAt(s, sep, i)
    ensures i + |sep| <= |s| && s[i..i + |sep|] == sep
  {
  }

  lemma Reassemble(s: ByteString, i: nat, j: nat, k: nat)
    requires i <= j <= k <= |s|
    ensures s[i..j] + s[j..k] + s[k..] == s[i..]
  {
  }

  lemma {:induction false} JoinPieces(s: ByteString, sep: ByteString, start: nat)
    requires sep != [] && start <= |s|
    ensures Join(Pieces(s, sep, start), sep) == s[start..]
    decreases |s| - start
  {
    hide MatchAt, FirstMatch, Join;
    var m := FirstMatch(s, sep, start);
    if m.Some? {
      var i := m.value;
      MatchedSlice(s, sep, i);
      JoinPieces(s, sep, i + |sep|);
      JoinCons(s[start..i], Pieces(s, sep, i + |sep|), sep);
      Reassemble(s, start, i, i + |sep|);
    } else {
      JoinOne(s[start..], sep);
    }
  }

  /** Joining the tokens gives the string back, for every string and separator. */
  lemma JoinUndoesSplit(s: ByteString, sep: ByteString)
    requires sep != []
    ensures Split(s, sep).Some? && Join(Split(s, sep).value, sep) == s
  {
    if s != [] {
      JoinPieces(s, sep, 0);
      assert s[0..] == s;
    }
  }

  lemma SliceMatch(s: ByteString, sep: ByteString, start: nat, end: nat, i: nat)
    requires start <= end <= |s| && MatchAt(s[start..end], sep, i)
    ensures MatchAt(s, sep, start + i) && start + i + |sep| <= end
  {
    var part := s[start..end];
    assert forall k :: i <= k < i + |sep| ==> part[k] == s[start + k];
    assert part[i..i + |sep|] == s[start + i..start + i + |sep|];
  }

  lemma {:induction false} PiecesAreFree(s: ByteString, sep: ByteString, start: nat)
    requires sep != [] && start <= |s|
    ensures forall k :: 0 <= k < |Pieces(s, sep, start)| ==> !Contains(Pieces(s, sep, start)[k], sep)
    decreases |s| - start
  {
    var m := FirstMatch(s, sep, start);
    var end := if m.Some? then m.value else |s|;
    forall i | 0 <= i <= end - start
      ensures !MatchAt(s[start..end], sep, i)
    {
      if MatchAt(s[start..end], sep, i) {
        SliceMatch(s, sep, start, end, i);
      }
    }
    assert s[start..|s|] == s[start..];
    if m.Some? {
      PiecesAreFree(s, sep, end + |sep|);
    }
  }

  /** No token contains the separator. */
  lemma TokensAreFree(s: ByteString, sep: ByteString, k: nat)
    requires sep != [] && k < |Split(s, sep).value|
    ensures !Contains(Split(s, sep).value[k], sep)
  {
    if s != [] {
      PiecesAreFree(s, sep, 0);
    }
  }

  /** Behind each token but the last one the separator occurs for the first time, and
      not at all in the last one. */
  predicate AreCut(tokens: seq<ByteString>, sep: ByteString) {
    && (forall k, i :: 0 <= k < |tokens| - 1 && 0 <= i < |tokens[k]| ==> !MatchAt(tokens[k] + sep, sep, i))
    && (tokens != [] ==> !Contains(tokens[|tokens| - 1], sep))
  }

  /** One token. */
  lemma LastOfJoin(before: ByteString, t: ByteString, sep: ByteString)
    requires sep != [] && !Contains(t, sep)
    ensures Pieces(before + t, sep, |before|) == [t]
  {
    hide MatchAt, Pieces;
    var s, n := before + t, |before|;
    assert s[n..] == t;
    forall k | n <= k <= |s| - |sep|
      ensures !MatchAt(s, sep, k)
    {
      if MatchAt(s, sep, k) {
        SuffixMatch(s, sep, n, k);
      }
    }
    LastPiece(s, sep, n);
  }

  /** A token and what follows. */
  lemma FirstOfJoin(before: ByteString, t: ByteString, sep: ByteString, rest: ByteString)
    requires sep != [] && forall i :: 0 <= i < |t| ==> !MatchAt(t + sep, sep, i)
    ensures Pieces(before + t + sep + rest, sep, |before|)
         == [t] + Pieces(before + t + sep + rest, sep, |before + t + sep|)
  {
    hide MatchAt, Pieces;
    var s, n := before + t + sep + rest, |before|;
    MatchBetween(before + t, sep, rest);
    forall k | n <= k < n + |t|
      ensures !MatchAt(s, sep, k)
    {
      if MatchAt(s, sep, k) {
        MatchInside(before, t, sep, rest, k);
      }
    }
    assert s[n..n + |t|] == t;
    NextPiece(s, sep, n, n + |t|, []);
    assert [] + Pieces(s, sep, n) == Pieces(s, sep, n) && [] + [t] == [t];
  }

  lemma {:induction false} PiecesOfJoin(before: ByteString, tokens: seq<ByteString>, sep: ByteString)
    requires sep != [] && tokens != [] && AreCut(tokens, sep)
    ensures Pieces(before + Join(tokens, sep), sep, |before|) == tokens
    decreases |tokens|
  {
    hide MatchAt, Pieces, Contains;
    var t := tokens[0];
    if |tokens| == 1 {
      LastOfJoin(before, t, sep);
      assert tokens == [t];
    } else {
      var rest := Join(tokens[1..], sep);
      assert before + Join(tokens, sep) == before + t + sep + rest;
      FirstOfJoin(before, t, sep, rest);
      assert AreCut(tokens[1..], sep);
      PiecesOfJoin(before + t + sep, tokens[1..], sep);
      assert tokens == [t] + tokens[1..];
    }
  }

  lemma SuffixMatch(s: ByteString, sep: ByteString, n: nat, k: nat)
    requires n <= k <= |s| && MatchAt(s, sep, k)
    ensures MatchAt(s[n..], sep, k - n)
  {
    assert s[n..][k - n..k - n + |sep|] == s[k..k + |sep|];
  }

  lemma MatchBetween(x: ByteString, sep: ByteString, y: ByteString)
    ensures MatchAt(x + sep + y, sep, |x|)
  {
    assert (x + sep + y)[|x|..|x| + |sep|] == sep;
  }

  lemma MatchInside(x: ByteString, t: ByteString, sep: ByteString, y: ByteString, k: nat)
    requires |x| <= k < |x| + |t| && MatchAt(x + t + sep + y, sep, k)
    ensures MatchAt(t + sep, sep, k - |x|)
  {
    assert (t + sep)[k - |x|..k - |x| + |sep|] == (x + t + sep + y)[k..k + |sep|];
  }

  lemma {:induction false} PiecesAreCut(s: ByteString, sep: ByteString, start: nat)
    requires sep != [] && start <= |s|
    ensures AreCut(Pieces(s, sep, start), sep)
    decreases |s| - start
  {
    hide MatchAt;
    PiecesAreFree(s, sep, start);
    var m := FirstMatch(s, sep, start);
    if m.Some? {
      MatchedSlice(s, sep, m.value);
      var t, more := s[start..m.value], Pieces(s, sep, m.value + |sep|);
      PiecesAreCut(s, sep, m.value + |sep|);
      assert t + sep == s[start..m.value + |sep|];
      forall i | 0 <= i < |t|
        ensures !MatchAt(t + sep, sep, i)
      {
        if MatchAt(t + sep, sep, i) {
          SliceMatch(s, sep, start, m.value + |sep|, i);
        }
      }
      assert forall k :: 0 < k < |more| + 1 ==> ([t] + more)[k] == more[k - 1];
    }
  }

  /** The tokens are the only ones that are cut where the separator first occurs and
      that join to the string; the empty string has none. */
  lemma SplitExactly(s: ByteString, sep: ByteString, tokens: seq<ByteString>)
    requires sep != []
    ensures Split(s, sep) == Some(tokens)
       <==> if s == [] then tokens == [] else tokens != [] && Join(tokens, sep) == s && AreCut(tokens, sep)
  {
    hide AreCut, Pieces, Join;
    assert [] + s == s;
    if s != [] {
      JoinUndoesSplit(s, sep);
      PiecesAreCut(s, sep, 0);
      if tokens != [] && Join(tokens, sep) == s && AreCut(tokens, sep) {
        PiecesOfJoin([], tokens, sep);
      }
    }
  }

  /** sdssplitlen. The token array starts with 5 slots and doubles. */
  method SplitLen(s: ByteString, sep: ByteString) returns (tokens: array?<ByteString>, count: nat)
    ensures if sep == [] then tokens == null else tokens != null && count <= tokens.Length
    ensures tokens != null ==> Split(s, sep) == Some(tokens[..count])
  {
    hide Pieces, FirstMatch, MatchAt;
    var len, seplen := |s|, |sep|;
    if seplen < 1 {
      return null, 0;
    }
    var slots, elements, start := 5, 0, 0;
    var vector := new ByteString[slots](_ => []);
    tokens := vector;
    if len == 0 {
      assert vector[..0] == [];
      return tokens, 0;
    }
    var j := 0;
    assert vector[..elements] + Pieces(s, sep, 0) == Pieces(s, sep, 0);
    while j < len - (seplen - 1)
      invariant start <= j && start <= len && elements < slots == vector.Length
      invariant fresh(vector)
      invariant forall k :: start <= k < j ==> !MatchAt(s, sep, k)
      invariant Pieces(s, sep, 0) == vector[..elements] + Pieces(s, sep, start)
      decreases len - j
    {
      if slots < elements + 2 {
        vector := Grow(vector, elements, slots * 2);
        slots := slots * 2;
      }
      if (seplen == 1 && s[j] == sep[0]) || s[j..j + seplen] == sep {
        assert seplen == 1 ==> s[j..j + 1] == [s[j]] && sep == [sep[0]];
        assert MatchAt(s, sep, j) by { MatchHere(s, sep, j); }
        NextPiece(s, sep, start, j, vector[..elements]);
        Store(vector, elements, s[start..j]);
        elements := elements + 1;
        start := j + seplen;
        j := j + seplen - 1;
      } else {
        NoMatchHere(s, sep, j);
      }
      j := j + 1;
    }
    LastPiece(s, sep, start);
    assert s[start..len] == s[start..];
    Store(vector, elements, s[start..len]);
    elements := elements + 1;
    tokens, count := vector, elements;
  }

  /** tokens[elements] = token */
  method Store(tokens: array<ByteString>, elements: nat, token: ByteString)
    requires elements < tokens.Length
    modifies tokens
    ensures tokens[..elements + 1] == old(tokens[..elements]) + [token]
  {
    tokens[elements] := token;
  }

  lemma MatchHere(s: ByteString, sep: ByteString, j: nat)
    requires j + |sep| <= |s| && s[j..j + |sep|] == sep
    ensures MatchAt(s, sep, j)
  {
  }

  lemma NoMatchHere(s: ByteString, sep: ByteString, j: nat)
    requires j + |sep| <= |s| && s[j..j + |sep|] != sep
    ensures !MatchAt(s, sep, j)
  {
  }

  lemma NextPiece(s: ByteString, sep: ByteString, start: nat, j: nat, before: seq<ByteString>)
    requires sep != [] && start <= j && MatchAt(s, sep, j)
    requires forall k :: start <= k < j ==> !MatchAt(s, sep, k)
    ensures before + Pieces(s, sep, start) == before + [s[start..j]] + Pieces(s, sep, j + |sep|)
  {
    assert j + |sep| <= |s|;
    hide MatchAt;
    assert Pieces(s, sep, start) == [s[start..j]] + Pieces(s, sep, j + |sep|);
  }

  lemma LastPiece(s: ByteString, sep: ByteString, start: nat)
    requires sep != [] && start <= |s|
    requires forall k :: start <= k <= |s| - |sep| ==> !MatchAt(s, sep, k)
    ensures Pieces(s, sep, start) == [s[start..]]
  {
  }

  /** s_realloc of the token array. */
  method Grow(tokens: array<ByteString>, used: nat, slots: nat) returns (more: array<ByteString>)
    requires used <= tokens.Length <= slots
    ensures fresh(more) && more.Length == slots && more[..used] == tokens[..used]
  {
    more := new ByteString[slots](_ => []);
    forall i | 0 <= i < used {
      more[i] := tokens[i];
    }
  }

  /** The separator stands between neighbours, and nowhere else. */
  lemma {:induction false} JoinConcat(x: seq<ByteString>, y: seq<ByteString>, sep: ByteString)
    requires x != [] && y != []
    ensures Join(x + y, sep) == Join(x, sep) + sep + Join(y, sep)
    decreases |x|
  {
    if |x| == 1 {
      assert x == [x[0]];
      JoinCons(x[0], y, sep);
    } else {
      assert (x + y)[1..] == x[1..] + y;
      JoinConcat(x[1..], y, sep);
      var a, b := Join(x[1..], sep), Join(y, sep);
      assert x[0] + sep + (a + sep + b) == x[0] + sep + a + sep + b;
    }
  }

  /** sdsjoinsds */
  method JoinSds(argv: seq<ByteString>, sep: ByteString) returns (join: ByteString)
    ensures join == Join(argv, sep)
  {
    join := [];
    for j := 0 to |argv|
      invariant join == if 0 < j < |argv| then Join(argv[..j], sep) + sep else Join(argv[..j], sep)
    {
      assert argv[..j + 1] == argv[..j] + [argv[j]];
      if j > 0 {
        JoinConcat(argv[..j], [argv[j]], sep);
      }
      join := join + argv[j];
      if j != |argv| - 1 {
        join := join + sep;
      }
    }
    assert argv[..|argv|] == argv;
  }
}
