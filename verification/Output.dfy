/** The output buffer of a context: redisBufferWrite and __redisAppendCommand. */
module Outputs {
  import opened Bytes
  import opened Strings

  /** What the socket answers to a write. */
  datatype WriteResult = Wrote(n: nat) | TryAgain | Failed

  /** What happens to the output buffer: a command is appended, or the socket
      accepts the first n bytes. */
  datatype Event = Append(cmd: ByteString) | Accept(n: nat)

  /** The bytes that a history leaves in the buffer; none if the socket took more
      than it was offered. */
  function Pending(events: seq<Event>): Option<ByteString> {
    if events == [] then Some([])
    else
      match Pending(events[..|events| - 1])
      case None => None
      case Some(buf) =>
        match events[|events| - 1]
        case Append(cmd) => Some(buf + cmd)
        case Accept(n) => if n <= |buf| then Some(buf[n..]) else None
  }

  function Appended(events: seq<Event>): ByteString {
    if events == [] then []
    else
      var last := events[|events| - 1];
      Appended(events[..|events| - 1]) + if last.Append? then last.cmd else []
  }

  function Accepted(events: seq<Event>): nat {
    if events == [] then 0
    else
      var last := events[|events| - 1];
      Accepted(events[..|events| - 1]) + if last.Accept? then last.n else 0
  }

  lemma RangeRest(s: ByteString, n: nat)
    requires 0 < n < |s|
    ensures RangeOf(s, n, -1) == s[n..]
  {
  }

  lemma HistoryGrows(events: seq<Event>, e: Event)
    requires Pending(events).Some? && (e.Accept? ==> e.n <= |Pending(events).value|)
    ensures Pending(events + [e])
         == Some(if e.Append? then Pending(events).value + e.cmd else Pending(events).value[e.n..])
  {
    assert (events + [e])[..|events|] == events;
  }

  /** Over any history, the accepted bytes are the first ones of the appended
      commands, and the buffer holds exactly the others. */
  lemma {:induction false} OutputConserved(events: seq<Event>)
    requires Pending(events).Some?
    ensures Accepted(events) <= |Appended(events)|
    ensures Pending(events).value == Appended(events)[Accepted(events)..]
    decreases |events|
  {
    if events != [] {
      var front, last := events[..|events| - 1], events[|events| - 1];
      OutputConserved(front);
      var all, k := Appended(front), Accepted(front);
      match last
      case Append(cmd) =>
        assert Appended(events) == all + cmd && Accepted(events) == k;
        assert (all + cmd)[k..] == all[k..] + cmd;
      case Accept(n) =>
        assert Appended(events) == all + [] == all && Accepted(events) == k + n;
        assert all[k..][n..] == all[k + n..];
    }
  }

  class Output {
    var err: bool
    var obuf: Sds
    ghost var history: seq<Event>

    /** The buffer holds what its history leaves. */
    ghost predicate Valid()
      reads this, obuf, obuf.data
    {
      obuf.Valid() && obuf.len < INT_LIMIT && Pending(history) == Some(obuf.Contents())
    }

    constructor ()
      ensures Valid() && fresh(obuf) && fresh(obuf.data)
      ensures !err && history == []
    {
      err := false;
      obuf := new Sds([]);
      history := [];
    }

    /** __redisAppendCommand */
    method AppendCommand(cmd: ByteString)
      requires Valid() && obuf.len + |cmd| < INT_LIMIT
      modifies this, obuf, obuf.data
      ensures Valid() && obuf == old(obuf) && (obuf.data == old(obuf.data) || fresh(obuf.data))
      ensures history == old(history) + [Append(cmd)] && err == old(err)
    {
      hide Sds.Valid, Sds.Contents, Sds.Amortised, Pending;
      HistoryGrows(history, Append(cmd));
      obuf.CatLen(cmd);
      history := history + [Append(cmd)];
    }

    /** redisBufferWriteDone: n bytes have been accepted; the rest stays. */
    method BufferWriteDone(nwritten: nat) returns (done: bool)
      requires Valid() && nwritten <= obuf.len
      modifies this, obuf, obuf.data
      ensures Valid() && (obuf == old(obuf) || fresh(obuf)) && (obuf.data == old(obuf.data) || fresh(obuf.data))
      ensures done == (obuf.Contents() == []) && err == old(err)
      ensures history == old(history) + [Accept(nwritten)]
    {
      hide Sds.Valid, Sds.Contents, RangeOf, Pending;
      ghost var text := obuf.Contents();
      HistoryGrows(history, Accept(nwritten));
      assert text[0..] == text && text[|text|..] == [];
      if nwritten > 0 {
        if nwritten == obuf.len {
          obuf := new Sds([]);
        } else {
          RangeRest(text, nwritten);
          obuf.Range(nwritten, -1);
        }
      }
      history := history + [Accept(nwritten)];
      done := obuf.len == 0;
    }

    /** redisBufferWrite, for every answer of the socket. */
    method BufferWrite(answer: WriteResult) returns (ok: bool, done: bool)
      requires Valid() && (answer.Wrote? ==> answer.n <= obuf.len)
      modifies this, obuf, obuf.data
      ensures Valid() && (obuf == old(obuf) || fresh(obuf)) && (obuf.data == old(obuf.data) || fresh(obuf.data))
      ensures history ==
              old(history) + if !old(err) && old(obuf.len) > 0 && answer.Wrote? then [Accept(answer.n)] else []
      ensures ok == !err && (ok ==> done == (obuf.Contents() == []))
      ensures err == (old(err) || (old(obuf.len) > 0 && answer == Failed))
    {
      if err {
        return false, false;
      }
      if obuf.len > 0 {
        match answer {
          case TryAgain =>
          case Failed =>
            err := true;
            return false, false;
          case Wrote(n) =>
            var empty := BufferWriteDone(n);
        }
      }
      done := obuf.len == 0;
      ok := true;
    }

    /** Accepted bytes and buffer together are what was appended. */
    lemma Conserved()
      requires Valid()
      ensures Accepted(history) <= |Appended(history)|
      ensures Appended(history)[..Accepted(history)] + obuf.Contents() == Appended(history)
    {
      OutputConserved(history);
    }
  }
}
