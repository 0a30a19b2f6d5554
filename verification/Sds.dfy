/**
  Dynamic strings: a header whose width depends on the capacity, and a buffer
  that keeps a NUL after the content.

  The C string pointer that every call may replace is the object here; `data` is
  the memory after the header. A value stored in a header field is cut to the
  field's width, as in C; that nothing is ever lost by this is proved.
 */
module Strings {
  import opened Bytes

  const TYPE_5 := 0
  const TYPE_8 := 1
  const TYPE_16 := 2
  const TYPE_32 := 3
  const TYPE_64 := 4

  const MAX_PREALLOC: nat := 1024 * 1024

  /** Sizes are far from the end of the address space. */
  const SIZE_LIMIT: nat := 0x4000_0000_0000_0000

  /** The number of values a length field of this type can hold. */
  function Width(kind: int): (w: nat)
    ensures w >= 32
  {
    if kind == TYPE_5 then 32
    else if kind == TYPE_8 then 0x100
    else if kind == TYPE_16 then 0x1_0000
    else if kind == TYPE_32 then 0x1_0000_0000
    else 0x1_0000_0000_0000_0000
  }

  /** Storing n in a length field: the high bits are lost. */
  function Stored(n: nat, kind: int): (r: nat)
    ensures r == n % Width(kind) && (n < Width(kind) ==> r == n)
  {
    if kind == TYPE_5 then n % 32
    else if kind == TYPE_8 then n % 0x100
    else if kind == TYPE_16 then n % 0x1_0000
    else if kind == TYPE_32 then n % 0x1_0000_0000
    else n % 0x1_0000_0000_0000_0000
  }

  /** sdsReqType */
  function ReqType(size: nat): (kind: int)
    ensures TYPE_5 <= kind <= TYPE_64
    ensures size < SIZE_LIMIT ==> size < Width(kind)
  {
    if size < 32 then TYPE_5
    else if size < 0xff then TYPE_8
    else if size < 0xffff then TYPE_16
    else if size < 0xffff_ffff then TYPE_32
    else TYPE_64
  }

  /** The type of a string that is going to be appended to: type 5 cannot
      remember free space. */
  function GrowType(size: nat): (kind: int)
    ensures TYPE_8 <= kind <= TYPE_64
    ensures size < SIZE_LIMIT ==> size < Width(kind)
  {
    if ReqType(size) == TYPE_5 then TYPE_8 else ReqType(size)
  }

  lemma GrowTypeMonotone(m: nat, n: nat)
    requires m <= n
    ensures GrowType(m) <= GrowType(n)
  {
  }

  /** The header type by the range that the size is in. */
  predicate Fitting(kind: int, size: nat) {
    && (kind == 0 <==> size < 32) && (kind == 1 <==> 32 <= size < 255) && (kind == 2 <==> 255 <= size < 65535)
    && (kind == 3 <==> 65535 <= size < 4294967295) && (kind == 4 <==> 4294967295 <= size)
  }

  /** An index counted from the end when negative, and not before the start. */
  function FromEnd(index: int, size: nat): nat {
    if index >= 0 then index else if size + index < 0 then 0 else size + index
  }

  /** The characters start to end, both included; -1 is the last one. */
  function RangeOf(s: ByteString, start: int, end: int): ByteString {
    var lo, hi := FromEnd(start, |s|), FromEnd(end, |s|);
    var last := if hi >= |s| then |s| - 1 else hi;
    if lo <= last then s[lo..last + 1] else []
  }

  lemma RangeMeans(s: ByteString, start: int, end: int)
    ensures var n := |s|;
            var lo := if start >= 0 then start else if n + start < 0 then 0 else n + start;
            var hi := if end >= 0 then end else if n + end < 0 then 0 else n + end;
            RangeOf(s, start, end) == if lo > hi || lo >= n then [] else if hi >= n then s[lo..] else s[lo..hi + 1]
  {
  }

  class Sds {
    var kind: int
    var len: nat
    var alloc: nat
    var data: array<Byte>
    /** Content bytes moved by sdsMakeRoomFor so far. */
    ghost var copied: nat

    ghost predicate Valid()
      reads this, data
    {
      && TYPE_5 <= kind <= TYPE_64
      && len <= Alloc() < SIZE_LIMIT
      && Alloc() < Width(kind)
      && (kind != TYPE_5 ==> kind == GrowType(alloc))
      && Alloc() < data.Length
      && data[len] == NUL
    }

    function Alloc(): nat
      reads this
    {
      if kind == TYPE_5 then len else alloc
    }

    function Avail(): int
      reads this
    {
      if kind == TYPE_5 then 0 else alloc - len
    }

    ghost function Contents(): (s: ByteString)
      requires Valid()
      reads this, data
      ensures |s| == len
    {
      data[..len]
    }

    /** Every byte has been moved at most once on average, and at most half of
        the buffer is free. */
    ghost predicate Amortised()
      reads this
    {
      copied <= Alloc() <= 2 * len
    }

    method SetLen(n: nat)
      modifies `len
      ensures len == Stored(n, kind)
    {
      len := Stored(n, kind);
    }

    method SetAlloc(n: nat)
      modifies `alloc
      ensures alloc == if kind == TYPE_5 then old(alloc) else Stored(n, kind)
    {
      if kind != TYPE_5 {
        alloc := Stored(n, kind);
      }
    }

    /** sdsnewlen; sdsempty is the case of no bytes. */
    constructor (init: ByteString)
      requires |init| < SIZE_LIMIT
      ensures Valid() && fresh(data)
      ensures Contents() == init && Alloc() == |init| && Amortised()
      ensures init == [] ==> kind == 1
      ensures init != [] ==> Fitting(kind, |init|)
    {
      var t := ReqType(|init|);
      if t == TYPE_5 && |init| == 0 {
        t := TYPE_8;
      }
      kind := t;
      len := Stored(|init|, t);
      alloc := if t == TYPE_5 then 0 else Stored(|init|, t);
      data := new Byte[|init| + 1](i => if 0 <= i < |init| then init[i] else NUL);
      copied := 0;
      new;
      assert data[..len] == init;
    }

    /** sdsMakeRoomFor: same string, at least addlen bytes free behind it. */
    method MakeRoomFor(addlen: nat)
      requires Valid() && 2 * (len + addlen) + MAX_PREALLOC < SIZE_LIMIT
      modifies this
      ensures Valid() && (data == old(data) || fresh(data))
      ensures Contents() == old(Contents())
      ensures Avail() >= addlen
      ensures kind >= old(kind)
      ensures old(Avail()) >= addlen ==> copied == old(copied) && Alloc() == old(Alloc()) && kind == old(kind)
      ensures old(Avail()) < addlen ==> copied == old(copied) + len
      ensures old(Avail()) < addlen ==>
                Alloc() == if len + addlen < 0x10_0000 then 2 * (len + addlen) else len + addlen + 0x10_0000
      ensures old(Avail()) < addlen ==> if Alloc() < 32 then kind == 1 else Fitting(kind, Alloc())
    {
      var avail := Avail();
      if avail >= addlen {
        return;
      }
      var newlen := len + addlen;
      if newlen < MAX_PREALLOC {
        newlen := newlen * 2;
      } else {
        newlen := newlen + MAX_PREALLOC;
      }
      var t := ReqType(newlen);
      if t == TYPE_5 {
        t := TYPE_8;
      }
      Enlarge(newlen, t);
    }

    /** The second half of sdsMakeRoomFor: a larger block, with another header when
        the type changes. */
    method Enlarge(newlen: nat, t: int)
      requires Valid() && len < newlen < SIZE_LIMIT && t == GrowType(newlen) && Alloc() <= newlen
      modifies this
      ensures Valid() && fresh(data) && Contents() == old(Contents()) && len == old(len)
      ensures kind == t >= old(kind) && kind != TYPE_5 && alloc == newlen && copied == old(copied) + len
    {
      var oldlen, oldtype := len, kind;
      GrowTypeMonotone(Alloc(), newlen);
      Reallocate(newlen + 1);
      if oldtype != t {
        kind := t;
        SetLen(oldlen);
      }
      SetAlloc(newlen);
      copied := copied + oldlen;
    }

    /** Moves the content and its NUL to a block of the given size. */
    method Reallocate(size: nat)
      requires Valid() && len < size
      modifies `data
      ensures fresh(data) && data.Length == size
      ensures forall i :: 0 <= i <= len ==> data[i] == old(data[i])
    {
      var block := new Byte[size](_ => NUL);
      forall i | 0 <= i <= len {
        block[i] := data[i];
      }
      data := block;
    }

    /** sdsRemoveFreeSpace: same string, no free space. */
    method RemoveFreeSpace()
      requires Valid()
      modifies this
      ensures Valid() && fresh(data)
      ensures Contents() == old(Contents())
      ensures Alloc() == len && data.Length == len + 1 && Fitting(kind, len)
    {
      var oldlen, oldtype := len, kind;
      var t := ReqType(oldlen);
      Reallocate(oldlen + 1);
      if oldtype != t {
        kind := t;
        SetLen(oldlen);
      }
      SetAlloc(oldlen);
    }

    /** memcpy into the buffer. */
    method Write(at: nat, t: ByteString)
      requires at + |t| <= data.Length
      modifies data
      ensures forall i :: 0 <= i < |t| ==> data[at + i] == t[i]
      ensures forall i :: 0 <= i < at || at + |t| <= i < data.Length ==> data[i] == old(data[i])
    {
      forall i | 0 <= i < |t| {
        data[at + i] := t[i];
      }
    }

    /** The second half of sdscatlen: the bytes and a NUL go behind the content. */
    method Fill(t: ByteString)
      requires Valid() && (t == [] || Avail() >= |t|)
      modifies `len, data
      ensures Valid() && Contents() == old(Contents()) + t && len == old(len) + |t|
      ensures kind != TYPE_5 ==> Alloc() == old(Alloc())
      ensures t == [] ==> Alloc() == old(Alloc())
    {
      ghost var before := Contents();
      var curlen := len;
      Write(curlen, t);
      SetLen(curlen + |t|);
      data[curlen + |t|] := NUL;
      assert forall i :: 0 <= i < |t| ==> data[..len][curlen + i] == t[i];
      assert forall i :: 0 <= i < curlen ==> data[..len][i] == before[i];
      assert Contents() == before + t;
    }

    /** sdscatlen: appends. */
    method CatLen(t: ByteString)
      requires Valid() && 2 * (len + |t|) + MAX_PREALLOC < SIZE_LIMIT
      modifies this, data
      ensures Valid() && (data == old(data) || fresh(data))
      ensures Contents() == old(Contents()) + t
      ensures kind >= old(kind)
      ensures old(Amortised()) && len < MAX_PREALLOC ==> Amortised()
    {
      hide Contents;
      MakeRoomFor(|t|);
      assert kind == TYPE_5 ==> t == [];
      Fill(t);
    }

    /** sdscpylen: replaces the content. */
    method CpyLen(t: ByteString)
      requires Valid() && 2 * |t| + MAX_PREALLOC < SIZE_LIMIT
      modifies this, data
      ensures Valid() && (data == old(data) || fresh(data))
      ensures Contents() == t
    {
      if Alloc() < |t| {
        MakeRoomFor(|t| - len);
      }
      Write(0, t);
      data[|t|] := NUL;
      SetLen(|t|);
      assert Contents() == t;
    }

    /** sdsclear: empties the string and keeps the buffer. */
    method Clear()
      requires Valid()
      modifies `len, data
      ensures Valid() && Contents() == [] && (kind != TYPE_5 ==> Avail() == old(Alloc()))
    {
      SetLen(0);
      data[0] := NUL;
    }

    /** sdsrange: keeps the characters start to end, in place. */
    method Range(start: int, end: int)
      requires Valid() && len < INT_LIMIT
      modifies `len, data
      ensures Valid()
      ensures Contents() == RangeOf(old(Contents()), start, end)
      ensures var s, n := old(Contents()), old(len);
              var lo := if start >= 0 then start else if n + start < 0 then 0 else n + start;
              var hi := if end >= 0 then end else if n + end < 0 then 0 else n + end;
              Contents() == if lo > hi || lo >= n then [] else if hi >= n then s[lo..] else s[lo..hi + 1]
    {
      hide RangeOf, Valid, Contents;
      ghost var before := Contents();
      RangeMeans(before, start, end);
      if len == 0 {
        return;
      }
      var first, newlen := RangeBounds(start, end, before);
      Keep(first, newlen);
    }

    /** The second half of sdsrange: the characters kept move to the front. */
    method Keep(first: nat, newlen: nat)
      requires Valid() && (newlen != 0 ==> first + newlen <= len)
      modifies `len, data
      ensures Valid()
      ensures Contents() == if newlen == 0 then [] else old(Contents())[first..first + newlen]
    {
      ghost var before := Contents();
      if first != 0 && newlen != 0 {
        forall i | 0 <= i < newlen {
          data[i] := data[first + i];
        }
      }
      data[newlen] := NUL;
      SetLen(newlen);
      assert forall i :: 0 <= i < newlen ==> data[i] == before[first + i];
    }

    /** The index arithmetic of sdsrange. */
    method RangeBounds(start: int, end: int, ghost s: ByteString) returns (first: nat, newlen: nat)
      requires |s| == len > 0
      ensures newlen != 0 ==> first + newlen <= len
      ensures RangeOf(s, start, end) == if newlen == 0 then [] else s[first..first + newlen]
    {
      var last := end;
      var from := start;
      if from < 0 {
        from := len + from;
        if from < 0 { from := 0; }
      }
      if last < 0 {
        last := len + last;
        if last < 0 { last := 0; }
      }
      var size: int := if from > last then 0 else last - from + 1;
      if size != 0 {
        if from >= len {
          size := 0;
        } else if last >= len {
          last := len - 1;
          size := if from > last then 0 else last - from + 1;
        }
      } else {
        from := 0;
      }
      first, newlen := from, size;
    }
  }
}
