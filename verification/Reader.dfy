/** The reply objects that the default functions of the reader build. */
module ReplyObjects {
  import opened Bytes
  import opened Numbers
  import opened Resp

  /** A reply on the heap. Elements of an array are null until they are read. */
  class ReplyObject {
    var kind: int
    var str: ByteString
    var integer: int
    var elements: nat
    var element: seq<ReplyObject?>
    /** The value this object stands for once it is complete. */
    ghost var tree: Reply
    /** This object and all the objects below it. */
    ghost var owned: set<ReplyObject>

    /** The object and everything below it is filled in, and represents `tree`. */
    ghost predicate Complete()
      reads this, owned
      decreases owned
    {
      && this in owned
      && match tree
         case StringReply(s) => kind == REPLY_STRING && str == s
         case StatusReply(s) => kind == REPLY_STATUS && str == s
         case ErrorReply(s) => kind == REPLY_ERROR && str == s
         case IntegerReply(n) => kind == REPLY_INTEGER && integer == n
         case NilReply => kind == REPLY_NIL
         case ArrayReply(n, children) =>
           && kind == REPLY_ARRAY && elements == n && |children| <= |element|
           && (forall k :: 0 <= k < |children| ==> HasChild(k, children[k]))
           && forall k :: |children| <= k < |element| ==> element[k] == null
    }

    ghost predicate HasChild(k: nat, r: Reply)
      requires k < |element| && this in owned
      reads this, owned
      decreases owned, 0
    {
      var c := element[k];
      && c != null && c in owned && c.owned <= owned - {this}
      && c.Complete() && c.tree == r
    }

    /** An array whose elements before |done| are complete; element |done| is
        `next`, and the later ones are null. */
    ghost predicate Filled(f: Frame, next: ReplyObject?)
      reads this, owned
    {
      && this in owned
      && kind == REPLY_ARRAY && elements == f.count == |element|
      && |f.done| < f.count
      && (forall k :: 0 <= k < |f.done| ==> HasChild(k, f.done[k]))
      && element[|f.done|] == next
      && forall k :: |f.done| < k < |element| ==> element[k] == null
    }

    /** The item in the next slot is complete, and more are to come. */
    ghost method Extend(f: Frame, item: ReplyObject)
      requires Filled(f, item) && item.Complete() && this !in item.owned
      requires |f.done| + 1 < f.count
      modifies this`owned
      ensures owned == old(owned) + item.owned
      ensures Filled(Frame(f.count, f.done + [item.tree]), null)
      ensures item.Complete() && item.tree == old(item.tree)
    {
      forall k | 0 <= k < |f.done|
        ensures element[k] != null && this !in element[k].owned
      {
        assert HasChild(k, f.done[k]);
      }
      owned := owned + item.owned;
      forall k | 0 <= k <= |f.done|
        ensures HasChild(k, (f.done + [item.tree])[k])
      {
        if k < |f.done| {
          assert old(HasChild(k, f.done[k]));
        }
      }
    }

    /** The item in the last slot is complete. */
    ghost method Close(f: Frame, item: ReplyObject)
      requires Filled(f, item) && item.Complete() && this !in item.owned
      requires |f.done| + 1 == f.count
      modifies this`owned, this`tree
      ensures owned == old(owned) + item.owned
      ensures Complete() && tree == ArrayReply(f.count, f.done + [old(item.tree)])
    {
      var children := f.done + [item.tree];
      forall k | 0 <= k < |f.done|
        ensures element[k] != null && this !in element[k].owned
      {
        assert HasChild(k, f.done[k]);
      }
      owned := owned + item.owned;
      tree := ArrayReply(f.count, children);
      forall k | 0 <= k < |children|
        ensures HasChild(k, children[k])
      {
        if k < |f.done| {
          assert old(HasChild(k, f.done[k]));
        }
      }
    }

    /** parent->element[idx] = item, for the first element that is still null. */
    method SetElement(ghost f: Frame, idx: int, item: ReplyObject)
      requires Filled(f, null) && idx == |f.done|
      modifies this`element
      ensures Filled(f, item)
    {
      forall k | 0 <= k < |f.done|
        ensures element[k] != null && this !in element[k].owned
      {
        assert HasChild(k, f.done[k]);
      }
      element := element[idx := item];
      forall k | 0 <= k < |f.done|
        ensures HasChild(k, f.done[k])
      {
        assert old(HasChild(k, f.done[k]));
      }
    }

    /** createStringObject */
    constructor String(t: int, text: ByteString)
      requires t == REPLY_STRING || t == REPLY_STATUS || t == REPLY_ERROR
      ensures Complete() && owned == {this}
      ensures tree == if t == REPLY_STRING then StringReply(text)
                      else if t == REPLY_STATUS then StatusReply(text) else ErrorReply(text)
    {
      kind, str, integer, elements, element := t, text, 0, 0, [];
      tree := if t == REPLY_STRING then StringReply(text)
              else if t == REPLY_STATUS then StatusReply(text) else ErrorReply(text);
      owned := {this};
    }

    /** createIntegerObject */
    constructor Integer(value: int)
      ensures Complete() && owned == {this} && tree == IntegerReply(value)
    {
      kind, str, integer, elements, element := REPLY_INTEGER, [], value, 0, [];
      tree, owned := IntegerReply(value), {this};
    }

    /** createNilObject */
    constructor Nil()
      ensures Complete() && owned == {this} && tree == NilReply
    {
      kind, str, integer, elements, element := REPLY_NIL, [], 0, 0, [];
      tree, owned := NilReply, {this};
    }

    /** createArrayObject: room for `count` elements, all null. */
    constructor Array(count: int)
      requires count < INT_LIMIT
      ensures owned == {this}
      ensures Complete() && tree == ArrayReply(ToSize(count), [])
      ensures count > 0 ==> Filled(Frame(count, []), null)
    {
      kind, str, integer := REPLY_ARRAY, [], 0;
      elements, element := ToSize(count), if count > 0 then seq(count, _ => null) else [];
      tree, owned := ArrayReply(ToSize(count), []), {this};
    }
  }
}

/** The resumable reader. */
module Readers {
  import opened Bytes
  import opened Numbers
  import opened Resp
  import opened ReplyObjects
  import opened Streams
  import opened Strings

  const UNSET := -1
  const STACK_SIZE: nat := 9
  const READER_MAX_BUF: nat := 1024 * 16

  /** redisReadTask; the parent is the index of a stack slot. */
  datatype ReadTask = ReadTask(typ: int, elements: int, idx: int, obj: ReplyObject?, parent: Option<nat>)

  class Reader {
    /** err and errstr */
    var err: Option<ParseError>
    var buf: Sds?
    var pos: nat
    var len: nat
    var maxbuf: nat
    var rstack: array<ReadTask>
    var ridx: int
    var reply: ReplyObject?

    /** The open arrays, from the root down: their values and their objects. */
    ghost var frames: Frames
    ghost var open: seq<ReplyObject>
    ghost var Repr: set<object>

    /** The buffer: consumed bytes, then unread ones. */
    ghost predicate Buffered()
      reads this, Repr
    {
      && this in Repr && rstack in Repr && rstack.Length == STACK_SIZE
      && buf != null && buf in Repr && buf.data in Repr
      && buf.Valid() && pos <= len == buf.len < INT_LIMIT
    }

    /** The objects of the open arrays, linked from the root down, each with the
        elements read so far; `item` is in the slot of the current item. */
    ghost predicate Linked(item: ReplyObject?)
      reads this, Repr
    {
      && |open| == |frames| <= MAX_DEPTH
      && (forall i :: 0 <= i < |open| - 1 ==> Inner(i))
      && (open != [] ==> Level(|open| - 1, item))
      && (forall i, j :: 0 <= i < |open| && 0 <= j < |open| && i != j ==> Apart(i, j))
    }

    ghost predicate Inner(i: nat)
      requires i + 1 < |open| == |frames|
      reads this, Repr
    {
      Level(i, open[i + 1])
    }

    ghost predicate Level(i: nat, next: ReplyObject?)
      requires i < |open| == |frames|
      reads this, Repr
    {
      open[i] in Repr && open[i].owned <= Repr && open[i].Filled(frames[i], next)
    }

    ghost predicate Apart(i: nat, j: nat)
      requires i < |open| && j < |open|
      reads this, Repr
    {
      open[i] in Repr && open[j] !in open[i].owned
    }

    /** The task stack: one task for each open array, and the current one. */
    ghost predicate Tasks()
      reads this, rstack
    {
      && rstack.Length == STACK_SIZE && |open| == |frames| <= MAX_DEPTH
      && (ridx == |frames| || (ridx == -1 && frames == []))
      && (forall i :: 0 <= i < |frames| ==> Opened(i))
      && (ridx >= 0 ==> rstack[0].parent == None)
      && (ridx >= 0 && rstack[ridx].typ != UNSET ==> IsReadType(rstack[ridx].typ))
    }

    /** Slot i holds an open array, and slot i + 1 the element of it being read. */
    ghost predicate Opened(i: nat)
      requires i < |frames| == |open| <= MAX_DEPTH && rstack.Length == STACK_SIZE
      reads this, rstack
    {
      && rstack[i].typ == REPLY_ARRAY && rstack[i].elements == frames[i].count && rstack[i].obj == open[i]
      && rstack[i + 1].idx == |frames[i].done| && rstack[i + 1].parent == Some(i)
    }

    /** Between two items. */
    ghost predicate Ready()
      reads this, Repr
    {
      AtItem() && !TooDeepNow()
    }

    ghost predicate AtItem()
      reads this, Repr
    {
      && err == None && Buffered() && Linked(null) && Tasks()
      && reply == if open == [] then null else open[0]
    }

    /** An array is announced although the stack is full; the reader refuses it at once. */
    ghost predicate TooDeepNow()
      requires rstack.Length == STACK_SIZE
      reads this, rstack
    {
      ridx == MAX_DEPTH && rstack[ridx].typ == REPLY_ARRAY
    }

    ghost predicate Valid()
      reads this, Repr
    {
      && this in Repr && rstack in Repr
      && (err == None ==> Ready())
      && (err.Some? ==>
            buf == null && pos == len == 0 && ridx == -1 && reply == null
            && frames == [] && open == [] && rstack.Length == STACK_SIZE)
    }

    ghost function Unread(): ByteString
      requires Buffered()
      reads this, Repr
    {
      buf.Contents()[pos..]
    }

    ghost function View(): (v: View)
      requires Valid()
      reads this, Repr
      ensures WellFormed(v)
    {
      if err.Some? then INITIAL.(err := err)
      else Streams.View.View(frames, CurrentType(), Unread(), None)
    }

    ghost function CurrentType(): Option<int>
      requires rstack.Length == STACK_SIZE && ridx < STACK_SIZE
      reads this, rstack
    {
      if ridx < 0 || rstack[ridx].typ == UNSET then None else Some(rstack[ridx].typ)
    }

    /** What the invariant says of the fields: below the current task there are only
        open arrays, each the parent of the next; an array's elements are complete
        before the index being read, and null behind it. So the assertions of
        moveToNextTask and of the create functions cannot fail. */
    lemma StackShape(i: nat)
      requires Valid() && 1 <= i <= ridx
      ensures ridx < STACK_SIZE && rstack.Length == STACK_SIZE
      ensures var parent, cur := rstack[i - 1], rstack[i];
              && parent.typ == REPLY_ARRAY && cur.parent == Some(i - 1) && parent.obj != null
              && parent.obj.kind == REPLY_ARRAY && 0 <= cur.idx < parent.elements == |parent.obj.element|
              && (forall k :: 0 <= k < cur.idx ==> parent.obj.element[k] != null && parent.obj.element[k].Complete())
              && (forall k :: cur.idx < k < parent.elements ==> parent.obj.element[k] == null)
              && parent.obj.element[cur.idx] == (if i < ridx then rstack[i].obj else null)
    {
      hide ReplyObject.Complete;
      assert Opened(i - 1);
      assert if i < ridx then Inner(i - 1) && Opened(i) else Level(i - 1, null);
      var o := open[i - 1];
      forall k | 0 <= k < |frames[i - 1].done|
        ensures o.element[k] != null && o.element[k].Complete()
      {
        assert o.HasChild(k, frames[i - 1].done[k]);
      }
    }

    /** redisReaderCreate */
    constructor ()
      ensures Valid() && fresh(Repr)
      ensures View() == INITIAL && len == 0
    {
      err := None;
      var empty := new Sds([]);
      buf := empty;
      pos, len, maxbuf := 0, 0, READER_MAX_BUF;
      var tasks := new ReadTask[STACK_SIZE](_ => ReadTask(0, 0, 0, null, None));
      rstack, ridx, reply := tasks, -1, null;
      frames, open := [], [];
      Repr := {this, empty, empty.data, tasks};
    }

    /** Changes outside the reply objects leave them linked as they were. */
    twostate lemma StillLinked(item: ReplyObject?)
      requires old(Linked(item))
      requires frames == old(frames) && open == old(open) && old(Repr) <= Repr
      requires forall o: ReplyObject :: o in old(Repr) ==> unchanged(o)
      ensures Linked(item)
    {
      forall i | 0 <= i < |open| - 1
        ensures Inner(i)
      {
        assert old(Inner(i));
      }
      forall i, j | 0 <= i < |open| && 0 <= j < |open| && i != j
        ensures Apart(i, j)
      {
        assert old(Apart(i, j));
      }
    }

    lemma OpenObjects(item: ReplyObject?)
      requires Linked(item)
      ensures forall j :: 0 <= j < |open| ==> open[j] in Repr && open[j].owned <= Repr
    {
      forall j | 0 <= j < |open|
        ensures open[j] in Repr && open[j].owned <= Repr
      {
        assert j < |open| - 1 ==> Inner(j);
      }
    }

    /** Changes outside the buffer keep the unread bytes. */
    twostate lemma StillBuffered()
      requires old(Buffered()) && old(Repr) <= Repr
      requires buf == old(buf) && pos == old(pos) && len == old(len) && rstack == old(rstack)
      requires unchanged(old(buf)) && unchanged(old(buf.data))
      ensures Buffered() && Unread() == old(Unread())
    {
    }

    twostate lemma StillTasks()
      requires old(Tasks()) && frames == old(frames) && open == old(open)
      requires rstack == old(rstack) && ridx == old(ridx) && unchanged(rstack)
      ensures Tasks()
    {
      forall i | 0 <= i < |frames|
        ensures Opened(i)
      {
        assert old(Opened(i));
      }
    }

    /** redisReaderFeed */
    method Feed(chunk: ByteString) returns (ok: bool)
      requires Valid()
      requires err == None ==> len + |chunk| < INT_LIMIT
      modifies Repr
      ensures Valid() && fresh(Repr - old(Repr))
      ensures ok == old(err).None? && len <= old(len) + |chunk|
      ensures FeedSpec(old(View()), chunk, View())
    {
      if err.Some? {
        return false;
      }
      if |chunk| >= 1 {
        Fill(chunk);
        StillLinked(null);
        StillTasks();
      } else {
        assert Unread() + chunk == Unread();
      }
      ok := true;
    }

    static lemma DropAppend(s: ByteString, n: nat, t: ByteString)
      requires n <= |s|
      ensures (s + t)[n..] == s[n..] + t
    {
    }

    /** Copies a chunk behind the unread bytes, into a new buffer when the old
        one is empty and large. */
    method Fill(chunk: ByteString)
      requires Buffered() && len + |chunk| < INT_LIMIT
      modifies `buf, `pos, `len, `Repr, buf, buf.data
      ensures Buffered() && old(Repr) <= Repr && fresh(Repr - old(Repr))
      ensures Unread() == old(Unread()) + chunk && len == old(len) + |chunk|
    {
      hide Sds.Valid, Sds.Contents, Sds.Amortised;
      ghost var unread := Unread();
      if len == 0 && maxbuf != 0 && buf.Avail() > maxbuf {
        var empty := new Sds([]);
        buf, pos := empty, 0;
        Repr := Repr + {empty, empty.data};
      }
      assert buf.Contents()[pos..] == unread;
      DropAppend(buf.Contents(), pos, chunk);
      buf.CatLen(chunk);
      Repr := Repr + {buf.data};
      len := buf.len;
    }

    /** Changing one open array leaves those above it as they were. */
    twostate lemma LowerLevels(n: nat)
      requires old(|open| == |frames|) && n < |old(open)|
      requires forall i :: 0 <= i < n ==> old(Inner(i))
      requires forall i, j :: 0 <= i < n && 0 <= j < |old(open)| && i != j ==> old(Apart(i, j))
      requires n <= |open| == |frames|
      requires open <= old(open) && frames[..n] == old(frames)[..n]
      requires old(Repr) <= Repr
      requires forall o: ReplyObject :: o in old(Repr) ==> o == old(open)[n] || unchanged(o)
      ensures forall i :: 0 <= i < n && i + 1 < |open| ==> Inner(i)
      ensures |open| == n > 0 ==> Level(n - 1, old(open)[n])
      ensures forall i, j :: 0 <= i < n && 0 <= j < |open| && i != j ==> Apart(i, j)
    {
      forall i | 0 <= i < n
        ensures if i + 1 < |open| then Inner(i) else Level(i, old(open)[n])
      {
        assert old(Inner(i));
        assert old(Apart(i, n));
        assert frames[i] == frames[..n][i] == old(frames)[..n][i];
      }
      forall i, j | 0 <= i < n && 0 <= j < |open| && i != j
        ensures Apart(i, j)
      {
        assert old(Inner(i));
        assert |open| <= |old(open)|;
        assert old(Apart(i, j));
        assert old(Apart(i, n));
      }
    }

    /** What the create functions do for a task with a parent: the new object goes
        into the parent's element. */
    method Link(item: ReplyObject)
      requires this in Repr && Linked(null) && Tasks() && ridx >= 0
      requires item !in Repr && item.owned == {item}
      modifies this`Repr, open
      ensures Repr == old(Repr) + {item}
      ensures Linked(item) && Tasks() && unchanged(item)
      ensures forall j :: 0 <= j < |open| ==> open[j] != item && item !in open[j].owned
    {
      OpenObjects(null);
      var task := rstack[ridx];
      assert ridx > 0 ==> Opened(ridx - 1);
      Repr := Repr + {item};
      if task.parent.Some? {
        var n := task.parent.value;
        var parent := rstack[n].obj;
        assert old(Level(n, null));
        assert rstack[n].typ == REPLY_ARRAY && parent.kind == REPLY_ARRAY;
        parent.SetElement(frames[n], task.idx, item);
        LowerLevels(n);
        forall j | 0 <= j < n
          ensures Apart(n, j)
        {
          assert old(Apart(n, j));
        }
      }
      StillTasks();
    }

    /** A complete object in the slot of the current item. */
    ghost predicate HoldsItem(item: ReplyObject)
      reads this, Repr
    {
      && Linked(item) && item in Repr && item.owned <= Repr && item.Complete()
      && forall j :: 0 <= j < |open| ==> open[j] !in item.owned
    }

    /** The item completes the innermost open array, which becomes the item. */
    ghost method CloseTop(item: ReplyObject) returns (next: ReplyObject)
      requires HoldsItem(item) && frames != []
      requires |frames[|frames| - 1].done| + 1 == frames[|frames| - 1].count
      modifies `frames, `open, open
      ensures frames == old(frames)[..|old(frames)| - 1] && open == old(open)[..|old(open)| - 1]
      ensures HoldsItem(next) && next == old(open)[|old(open)| - 1]
      ensures var top := old(frames)[|old(frames)| - 1];
              next.tree == ArrayReply(top.count, top.done + [old(item.tree)])
      ensures old(Tasks()) ==> forall i :: 0 <= i < |frames| ==> Opened(i)
    {
      var n := |open| - 1;
      next := open[n];
      next.Close(frames[n], item);
      frames, open := frames[..n], open[..n];
      LowerLevels(n);
      forall j | 0 <= j < n
        ensures open[j] !in next.owned
      {
        assert old(Apart(n, j));
      }
      forall i | old(Tasks()) && 0 <= i < n
        ensures Opened(i)
      {
        assert old(Opened(i));
      }
    }

    /** The item is one more element of the innermost open array. */
    ghost method ExtendTop(item: ReplyObject)
      requires HoldsItem(item) && frames != []
      requires |frames[|frames| - 1].done| + 1 < frames[|frames| - 1].count
      modifies `frames, open
      ensures Linked(null) && open == old(open)
      ensures var n := |old(frames)| - 1; var top := old(frames)[n];
              frames == old(frames)[..n] + [Frame(top.count, top.done + [old(item.tree)])]
      ensures old(Tasks()) ==> forall i :: 0 <= i < |frames| - 1 ==> Opened(i)
    {
      var n := |open| - 1;
      var top := open[n];
      var f := Frame(frames[n].count, frames[n].done + [item.tree]);
      top.Extend(frames[n], item);
      frames := frames[..n] + [f];
      LowerLevels(n);
      forall j | 0 <= j < n
        ensures Apart(n, j)
      {
        assert old(Apart(n, j));
      }
      forall i | old(Tasks()) && 0 <= i < n
        ensures Opened(i)
      {
        assert old(Opened(i));
      }
    }

    /** moveToNextTask, when the current item is complete. The asserts of the C
        code are the first assertion and the last. */
    method MoveToNextTask(ghost item: ReplyObject) returns (ghost root: ReplyObject)
      requires HoldsItem(item) && Tasks() && ridx >= 0
      modifies `ridx, `frames, `open, rstack, open
      ensures Linked(null) && Tasks()
      ensures frames == Advance(old(frames), old(item.tree))
      ensures ridx == if frames == [] then -1 else |frames|
      ensures ridx >= 0 ==> rstack[ridx].typ == UNSET && open[0] == old(open)[0]
      ensures frames == [] ==> HoldsItem(root) && root.tree == Completed(old(frames), old(item.tree))
      ensures frames == [] ==> root == if old(open) == [] then item else old(open)[0]
    {
      hide ReplyObject.HasChild, ReplyObject.Complete, Inner, Apart;
      root := item;
      while ridx >= 0
        invariant ridx == |frames| && HoldsItem(root) && Tasks()
        invariant open <= old(open)
        invariant root == if |open| == |old(open)| then item else old(open)[|open|]
        invariant Advance(frames, root.tree) == Advance(old(frames), old(item.tree))
        invariant Completed(frames, root.tree) == Completed(old(frames), old(item.tree))
        decreases ridx
      {
        if ridx == 0 {
          ridx := ridx - 1;
          return;
        }
        var cur, prv := rstack[ridx], rstack[ridx - 1];
        assert Opened(ridx - 1) && Level(ridx - 1, root);
        assert prv.typ == REPLY_ARRAY;
        if cur.idx == prv.elements - 1 {
          root := CloseElement(root);
        } else {
          assert cur.idx < prv.elements;
          NextElement(cur, root);
          return;
        }
      }
    }

    /** The else branch of moveToNextTask: the slot is reset for the next element. */
    method NextElement(cur: ReadTask, ghost item: ReplyObject)
      requires HoldsItem(item) && Tasks() && ridx == |frames| > 0 && cur == rstack[ridx]
      requires |frames[|frames| - 1].done| + 1 < frames[|frames| - 1].count
      modifies `frames, rstack, open
      ensures Linked(null) && Tasks() && open == old(open) && |frames| == |old(frames)|
      ensures frames == Advance(old(frames), old(item.tree))
      ensures rstack[ridx].typ == UNSET
    {
      assert Opened(ridx - 1);
      ExtendTop(item);
      label Extended:
      rstack[ridx] := cur.(typ := UNSET, elements := -1, idx := cur.idx + 1);
      forall i | 0 <= i < |frames|
        ensures Opened(i)
      {
        assert i < |frames| - 1 ==> old@Extended(Opened(i));
      }
      StillLinked@Extended(null);
    }

    /** Its other branch: the task below is the current one again. */
    method CloseElement(ghost item: ReplyObject) returns (ghost next: ReplyObject)
      requires HoldsItem(item) && Tasks() && ridx == |frames| > 0
      requires |frames[|frames| - 1].done| + 1 == frames[|frames| - 1].count
      modifies `ridx, `frames, `open, open
      ensures HoldsItem(next) && Tasks() && ridx == |frames|
      ensures frames == old(frames)[..|old(frames)| - 1]
      ensures open == old(open)[..|old(open)| - 1] && next == old(open)[|old(open)| - 1]
      ensures var top := old(frames)[|old(frames)| - 1];
              next.tree == ArrayReply(top.count, top.done + [old(item.tree)])
    {
      assert Opened(ridx - 1);
      next := CloseTop(item);
      label Closed:
      ridx := ridx - 1;
      StillLinked@Closed(next);
      forall i | 0 <= i < |frames|
        ensures Opened(i)
      {
        assert old@Closed(Opened(i));
      }
    }

    /** readBytes(r, 1) */
    method ReadByte() returns (b: Option<Byte>)
      requires Ready()
      modifies `pos
      ensures Ready()
      ensures if old(Unread()) == [] then b == None && pos == old(pos)
              else b == Some(old(Unread())[0]) && pos == old(pos) + 1 && Unread() == old(Unread())[1..]
    {
      hide Level, Inner, Apart, Opened;
      b := None;
      if len - pos >= 1 {
        b := Some(buf.data[pos]);
        pos := pos + 1;
        StillLinked(null);
        StillTasks();
      }
    }

    /** readLine: skips the line and gives its start and length. */
    method ReadLine() returns (line: Option<(nat, nat)>)
      requires Ready()
      modifies `pos
      ensures Ready()
      ensures line == None ==> Newline(old(Unread())) == None && pos == old(pos)
      ensures line.Some? ==>
                var (p, n) := line.value;
                && p == old(pos) && pos == p + n + 2 <= len
                && Newline(old(Unread())) == Some(n)
                && Unread() == old(Unread())[n + 2..]
                && buf.data[p..p + n] == old(Unread())[..n] && buf.data[p + n] == CR
    {
      hide Level, Inner, Apart, Opened, Newline;
      ghost var unread := Unread();
      var s := FindLine();
      if s == None {
        return None;
      }
      var n := s.value;
      line := Some((pos, n));
      NewlineFound(unread);
      assert unread[n] == buf.data[pos + n];
      pos := pos + n + 2;
      StillLinked(null);
      StillTasks();
    }

    /** A whole reply has been read and waits to be handed out. */
    ghost predicate Finished()
      reads this, Repr
    {
      && err == None && Buffered() && ridx == -1 && frames == [] && open == []
      && reply != null && reply in Repr && reply.owned <= Repr && reply.Complete()
    }

    /** The bytes in the buffer are the same, and the cursor has not moved back. */
    twostate predicate SameBuffer()
      requires old(Buffered())
      reads this, Repr
    {
      Buffered() && buf == old(buf) && len == old(len) && pos >= old(pos) && buf.Contents() == old(buf.Contents())
    }

    /** After one step from the state v: either the same future, or the reply that
        v had coming is complete. */
    ghost predicate Reached(v: View)
      requires WellFormed(v) && this in Repr
      reads this, Repr
    {
      if ridx == -1 then Finished() && After(v, []) == Done(reply.tree, Unread())
      else Ready() && SameFuture(v, View())
    }

    /** What the process functions do with a complete object: store it in its
        parent, make it the reply if it is the root, and move on. */
    method FinishItem(item: ReplyObject, ghost v: View)
      requires Ready() && ridx >= 0 && WellFormed(v)
      requires item !in Repr && item.owned == {item} && item.Complete()
      requires var v' := Streams.View.View(Advance(frames, item.tree), None, Unread(), None);
               if v'.frames == [] then After(v, []) == Done(Completed(frames, item.tree), Unread())
               else SameFuture(v, v')
      modifies `Repr, `ridx, `frames, `open, `reply, rstack, open
      ensures Repr == old(Repr) + {item}
      ensures err == None && SameBuffer() && pos == old(pos)
      ensures Reached(v)
    {
      hide ReplyObject.Filled, ReplyObject.Complete, ReplyObject.HasChild;
      hide Level, Inner, Apart, Opened, Advance, Completed, After, SameFuture, Sds.Valid;
      Link(item);
      label Linked:
      if ridx == 0 {
        reply := item;
      }
      StillLinked@Linked(item);
      StillTasks@Linked();
      ghost var root := MoveToNextTask(item);
      StillBuffered();
    }

    /** The outcome of one step of the parse loop from the state v. A failed step
        needs more bytes, or met a protocol error. */
    ghost predicate Stepped(v: View, ok: bool)
      requires WellFormed(v) && this in Repr
      reads this, Repr
    {
      if err.Some? then
        !ok && Valid() && After(v, []) == Bad(err.value)
      else
        Reached(v) && (ok || (ridx >= 0 && After(View(), []) == More))
    }

    /** createIntegerObject or createStringObject for the line just read. */
    method NewLineObject(t: int, p: nat, n: nat) returns (item: ReplyObject)
      requires Buffered() && IsLineType(t) && p + n < buf.data.Length && buf.data[p + n] == CR
      ensures fresh(item) && item.owned == {item} && item.Complete()
      ensures item.tree == LineReply(t, buf.data[p..p + n])
    {
      if t == REPLY_INTEGER {
        var value := ReadLongLong(buf.data, p, p + n);
        item := new ReplyObject.Integer(value);
      } else {
        item := new ReplyObject.String(t, buf.data[p..p + n]);
      }
    }

    /** processLineItem */
    method ProcessLineItem() returns (ok: bool)
      requires Ready() && ridx >= 0 && IsLineType(rstack[ridx].typ)
      modifies Repr
      ensures this in Repr && fresh(Repr - old(Repr))
      ensures Stepped(old(View()), ok)
      ensures err == None && SameBuffer() && (ok ==> pos > old(pos))
    {
      hide ReplyObject.Filled, ReplyObject.HasChild, ReplyObject.Complete;
      hide Level, Inner, Apart, Opened, Linked, Finished;
      hide Advance, Completed, After, SameFuture, Newline, LineReply;
      ghost var v := View();
      OpenObjects(null);
      var line := ReadLine();
      if line == None {
        LineMissing(v);
        SameFutureReflexive(v);
        return false;
      }
      var (p, n) := line.value;
      var item := NewLineObject(rstack[ridx].typ, p, n);
      LineRead(v, n, item.tree, Streams.View.View(Advance(frames, item.tree), None, Unread(), None));
      FinishItem(item, v);
      ok := true;
    }

    method FindLine() returns (n: Option<nat>)
      requires Buffered()
      ensures n == Newline(Unread())
    {
      hide Newline;
      assert Unread() == buf.data[pos..pos + (len - pos)];
      n := SeekNewline(buf.data, pos, len - pos);
    }

    /** The payload behind the first n unread bytes. */
    method PayloadText(n: nat, size: nat) returns (text: ByteString)
      requires Buffered() && n + size + 2 <= |Unread()|
      ensures var rest := Unread()[n..]; text == rest[..size] && rest[size + 2..] == Unread()[n + size + 2..]
    {
      text := buf.data[pos + n..pos + n + size];
      assert forall k :: 0 <= k < size ==> text[k] == Unread()[n + k];
    }

    /** The object for a bulk item whose header line has n bytes, and the number of
        bytes the item takes; null when its payload is not there yet. */
    method NewBulkObject(n: nat) returns (item: ReplyObject?, bytelen: nat)
      requires Buffered() && Newline(Unread()) == Some(n)
      ensures n + 2 <= |Unread()|
      ensures var o := ParsePayload(ReadNumber(Unread()[..n]), Unread()[n + 2..]);
              if item == null then o == More
              else
                && fresh(item) && item.owned == {item} && item.Complete()
                && 0 < bytelen <= len - pos && o == Done(item.tree, Unread()[bytelen..])
    {
      hide Newline, ReadNumber;
      ghost var unread := Unread();
      NewlineFound(unread);
      var p := pos;
      assert unread[n] == buf.data[p + n] && unread[..n] == buf.data[p..p + n];
      bytelen := n + 2;
      var size := ReadLongLong(buf.data, p, p + n);
      if size < 0 {
        item := new ReplyObject.Nil();
      } else {
        bytelen := bytelen + size + 2;
        item := null;
        if p + bytelen <= len {
          var text := PayloadText(n + 2, size);
          item := new ReplyObject.String(REPLY_STRING, text);
        }
      }
    }

    /** processBulkItem */
    method ProcessBulkItem() returns (ok: bool)
      requires Ready() && ridx >= 0 && rstack[ridx].typ == REPLY_STRING
      modifies Repr
      ensures this in Repr && fresh(Repr - old(Repr))
      ensures Stepped(old(View()), ok)
      ensures err == None && SameBuffer() && (ok ==> pos > old(pos))
    {
      hide ReplyObject.Filled, ReplyObject.HasChild, ReplyObject.Complete;
      hide Level, Inner, Apart, Opened, Linked, Finished;
      hide Advance, Completed, After, SameFuture, Newline, ParsePayload, ReadNumber, Sds.Valid;
      ghost var v := View();
      OpenObjects(null);
      var s := FindLine();
      if s == None {
        LineMissing(v);
        SameFutureReflexive(v);
        return false;
      }
      var item, bytelen := NewBulkObject(s.value);
      if item == null {
        PayloadMissing(v, s.value);
        SameFutureReflexive(v);
        return false;
      }
      Skip(bytelen);
      BulkRead(v, s.value, item.tree, Streams.View.View(Advance(frames, item.tree), None, Unread(), None));
      FinishItem(item, v);
      ok := true;
    }

    method Skip(n: nat)
      requires Ready() && n <= len - pos
      modifies `pos
      ensures Ready() && pos == old(pos) + n && Unread() == old(Unread())[n..]
    {
      hide Level, Inner, Apart, Opened;
      pos := pos + n;
      StillLinked(null);
      StillTasks();
    }

    /** __redisReaderSetError: the buffer, the reply and the stack are dropped. */
    method SetError(e: ParseError)
      requires this in Repr && rstack in Repr && rstack.Length == STACK_SIZE
      modifies this
      ensures Valid() && err == Some(e) && View() == INITIAL.(err := Some(e))
      ensures Repr == old(Repr) && rstack == old(rstack)
    {
      reply := null;
      buf, pos, len := null, 0, 0;
      ridx := -1;
      err := Some(e);
      frames, open := [], [];
    }

    /** A new, empty array in the slot of the current item becomes the innermost
        open array. */
    ghost method OpenArray(item: ReplyObject, count: nat)
      requires Linked(item) && |open| < MAX_DEPTH
      requires item in Repr && item.owned == {item} && item.Filled(Frame(count, []), null)
      requires forall j :: 0 <= j < |open| ==> open[j] != item && item !in open[j].owned
      modifies `frames, `open
      ensures frames == old(frames) + [Frame(count, [])] && open == old(open) + [item]
      ensures Linked(null)
    {
      var n := |open|;
      frames, open := frames + [Frame(count, [])], open + [item];
      forall i | 0 <= i < n
        ensures Inner(i)
      {
        assert if i < n - 1 then old(Inner(i)) else old(Level(i, item));
      }
      forall i, j | 0 <= i <= n && 0 <= j <= n && i != j
        ensures Apart(i, j)
      {
        assert i < n ==> if i < n - 1 then old(Inner(i)) else old(Level(i, item));
        assert i < n && j < n ==> old(Apart(i, j));
      }
    }

    /** The task of a new array becomes the parent of the task above it. */
    method PushTask(item: ReplyObject, count: nat)
      requires Linked(item) && Tasks() && 0 <= ridx < MAX_DEPTH && rstack[ridx].typ == REPLY_ARRAY
      requires item in Repr && item.owned == {item} && item.Filled(Frame(count, []), null)
      requires forall j :: 0 <= j < |open| ==> open[j] != item && item !in open[j].owned
      modifies `ridx, `frames, `open, rstack
      ensures Linked(null) && Tasks() && ridx == old(ridx) + 1 && rstack[ridx].typ == UNSET
      ensures frames == old(frames) + [Frame(count, [])] && open == old(open) + [item]
    {
      hide ReplyObject.HasChild, ReplyObject.Complete, ReplyObject.Filled, Level, Inner, Apart;
      OpenArray(item, count);
      label Opened:
      var cur := rstack[ridx];
      rstack[ridx] := cur.(elements := count, obj := item);
      ridx := ridx + 1;
      rstack[ridx] := ReadTask(UNSET, UNSET, 0, null, Some(ridx - 1));
      StillLinked@Opened(null);
      forall i | 0 <= i < |frames|
        ensures Opened(i)
      {
        assert i < |frames| - 1 ==> old(Opened(i));
      }
    }

    /** processMultiBulkItem; v is the state before, unless the stack is full. */
    method ProcessMultiBulkItem(ghost v: View) returns (ok: bool)
      requires AtItem() && ridx >= 0 && rstack[ridx].typ == REPLY_ARRAY && WellFormed(v)
      requires if ridx == MAX_DEPTH then After(v, []) == Bad(TooDeep) else View() == v
      modifies Repr
      ensures this in Repr && fresh(Repr - old(Repr))
      ensures Stepped(v, ok)
      ensures err == None ==> SameBuffer() && (ok ==> pos > old(pos))
    {
      hide ReplyObject.HasChild, ReplyObject.Complete, ReplyObject.Filled;
      hide Level, Inner, Apart, Opened, Linked, Finished;
      hide Advance, Completed, After, SameFuture, Newline, ReadNumber;
      if ridx == MAX_DEPTH {
        SetError(TooDeep);
        return false;
      }
      var line := ReadLine();
      if line == None {
        LineMissing(v);
        SameFutureReflexive(v);
        return false;
      }
      var (p, n) := line.value;
      var elements := ReadLongLong(buf.data, p, p + n);
      if elements <= 0 {
        EmptyArray(v, n, elements);
      } else if ToInt(elements) > 0 {
        StartArray(v, n, elements);
      } else {
        NoRoomRead(v, n);
        SetError(NoRoom);
        return false;
      }
      ok := true;
    }

    /** A nil array, or one without elements. */
    method EmptyArray(ghost v: View, ghost n: nat, elements: int)
      requires Ready() && ridx >= 0 && elements <= 0
      requires WellFormed(v) && v.ty == Some(REPLY_ARRAY) && v.frames == frames
      requires Newline(v.unread) == Some(n) && ReadNumber(v.unread[..n]) == elements
      requires Unread() == v.unread[n + 2..]
      modifies Repr
      ensures this in Repr && fresh(Repr - old(Repr))
      ensures Reached(v) && err == None && SameBuffer() && pos == old(pos)
    {
      hide ReplyObject.HasChild, ReplyObject.Complete, ReplyObject.Filled;
      hide Level, Inner, Apart, Opened, Linked, Finished;
      hide Advance, Completed, After, SameFuture, Newline, ReadNumber;
      OpenObjects(null);
      var item: ReplyObject;
      if elements == -1 {
        item := new ReplyObject.Nil();
      } else {
        item := new ReplyObject.Array(ToInt(elements));
      }
      EmptyArrayRead(v, n, item.tree, Streams.View.View(Advance(frames, item.tree), None, Unread(), None));
      FinishItem(item, v);
    }

    /** An array with elements: it is linked to its parent at once, and filled later. */
    method StartArray(ghost v: View, ghost n: nat, elements: nat)
      requires Ready() && 0 <= ridx < MAX_DEPTH && rstack[ridx].typ == REPLY_ARRAY
      requires elements > 0 && ToInt(elements) > 0
      requires WellFormed(v) && v.ty == Some(REPLY_ARRAY) && v.frames == frames
      requires Newline(v.unread) == Some(n) && ReadNumber(v.unread[..n]) == elements
      requires Unread() == v.unread[n + 2..]
      modifies Repr
      ensures this in Repr && fresh(Repr - old(Repr))
      ensures Reached(v) && err == None && SameBuffer() && pos == old(pos)
    {
      hide ReplyObject.HasChild, ReplyObject.Complete, ReplyObject.Filled;
      hide Level, Inner, Apart, Opened, After, SameFuture, Newline, ReadNumber, Sds.Valid;
      OpenObjects(null);
      var count := ToInt(elements);
      var item := new ReplyObject.Array(count);
      Link(item);
      PushTask(item, count);
      label Pushed:
      if ridx == 1 {
        reply := item;
      }
      StillLinked@Pushed(null);
      StillTasks@Pushed();
      StillBuffered();
      assert AtItem() && Ready();
      HeaderRead(v, n, count, Streams.View.View(frames, None, Unread(), None));
    }

    /** Reading the type byte is one half of a step; what follows is the other. */
    lemma SteppedFrom(v: View, w: View, ok: bool)
      requires WellFormed(v) && WellFormed(w) && this in Repr
      requires SameFuture(v, w) && Stepped(w, ok)
      ensures Stepped(v, ok)
    {
      hide Linked, Tasks, Finished, After;
      assert After(w, []) == After(v, []);
      if err == None && ridx != -1 {
        SameFutureTransitive(v, w, View());
      }
    }

    /** The type byte of the current item, which may turn out to be an array too deep. */
    method SetType(t: int)
      requires Ready() && ridx >= 0 && IsReadType(t)
      modifies rstack
      ensures AtItem() && SameBuffer() && Unread() == old(Unread())
      ensures rstack[ridx].typ == t
    {
      hide Level, Inner, Apart;
      rstack[ridx] := rstack[ridx].(typ := t);
      StillLinked(null);
      forall i | 0 <= i < |frames|
        ensures Opened(i)
      {
        assert old(Opened(i));
      }
    }

    /** The first half of processItem: the type byte, unless it is known already. */
    method ReadType() returns (ok: bool)
      requires Ready() && ridx >= 0 && rstack[ridx].typ < 0
      modifies this, rstack
      ensures this in Repr && Repr == old(Repr) && rstack == old(rstack)
      ensures !ok ==> Stepped(old(View()), false)
      ensures err == None ==> SameBuffer() && ridx == old(ridx)
      ensures ok ==>
                && AtItem() && IsReadType(rstack[ridx].typ) && pos > old(pos)
                && if TooDeepNow() then After(old(View()), []) == Bad(TooDeep)
                   else SameFuture(old(View()), View())
    {
      hide Level, Inner, Apart, Linked, After, SameFuture;
      ghost var v := View();
      TypeByteMissing(v);
      SameFutureReflexive(v);
      var b := ReadByte();
      if b == None {
        return false;
      }
      var t := TypeOf(b.value);
      if t == None {
        SetError(BadTypeByte(b.value));
        return false;
      }
      SetType(t.value);
      TypeByteRead(v, t.value, Streams.View.View(frames, t, Unread(), None));
      ok := true;
    }

    /** processItem */
    method ProcessItem() returns (ok: bool)
      requires Ready() && ridx >= 0
      modifies Repr
      ensures this in Repr && fresh(Repr - old(Repr))
      ensures Stepped(old(View()), ok)
      ensures err == None ==> SameBuffer() && (ok ==> pos > old(pos))
    {
      hide Level, Inner, Apart, Opened, Linked, Finished, Reached;
      hide After, SameFuture;
      ghost var v := View();
      SameFutureReflexive(v);
      if rstack[ridx].typ < 0 {
        ok := ReadType();
        if !ok {
          return;
        }
      }
      ghost var w := if TooDeepNow() then v else View();
      var t := rstack[ridx].typ;
      if IsLineType(t) {
        ok := ProcessLineItem();
      } else if t == REPLY_STRING {
        ok := ProcessBulkItem();
      } else {
        ok := ProcessMultiBulkItem(w);
      }
      SteppedFrom(v, w, ok);
    }

    /** The root task of a new reply. */
    method StartReply()
      requires Ready() && ridx == -1
      modifies `ridx, rstack
      ensures Ready() && ridx == 0 && View() == old(View())
    {
      hide Level, Inner, Apart;
      rstack[0] := ReadTask(UNSET, UNSET, -1, null, None);
      ridx := 0;
      StillLinked(null);
    }

    lemma RidxRange()
      requires Ready()
      ensures -1 <= ridx < STACK_SIZE
    {
    }

    /** One step of the parse loop, seen from the state v where the loop began. */
    method NextItem(ghost v: View) returns (ok: bool)
      requires this in Repr && WellFormed(v) && err == None && Reached(v) && ridx >= 0
      modifies Repr
      ensures this in Repr && fresh(Repr - old(Repr)) && Stepped(v, ok)
      ensures err == None ==> SameBuffer() && (ok ==> pos > old(pos))
    {
      hide Level, Inner, Apart, Opened, Linked, Tasks, Finished, After, SameFuture, Sds.Valid, Sds.Contents;
      ghost var w := View();
      ok := ProcessItem();
      SteppedFrom(v, w, ok);
    }

    lemma NoStepYet()
      requires Ready() && ridx >= 0
      ensures Reached(View()) && Stepped(View(), true)
    {
      hide Linked, Tasks, After;
      SameFutureReflexive(View());
    }

    lemma GoesOn(v: View)
      requires WellFormed(v) && this in Repr && Stepped(v, true)
      ensures err == None && Reached(v)
    {
    }

    lemma LoopEnds(v: View, going: bool)
      requires WellFormed(v) && this in Repr && Stepped(v, going) && !(going && ridx >= 0)
      ensures if err.Some? then Valid() && After(v, []) == Bad(err.value)
              else Reached(v) && (ridx != -1 ==> After(View(), []) == More)
    {
      hide Linked, After, SameFuture;
      if err == None && ridx != -1 {
        RidxRange();
      }
    }

    /** The parse loop: ends with a whole reply, or for want of bytes, or with an error. */
    method ProcessItems()
      requires Ready() && ridx >= 0
      modifies Repr
      ensures this in Repr && fresh(Repr - old(Repr))
      ensures if err.Some? then Valid() && After(old(View()), []) == Bad(err.value)
              else
                && SameBuffer() && Reached(old(View()))
                && (ridx != -1 ==> After(View(), []) == More)
    {
      ghost var v := View();
      NoStepYet();
      hide Linked, Tasks, Finished, After, SameFuture, Sds.Valid, Sds.Contents, Reached, Stepped;
      var going := true;
      while going && ridx >= 0
        invariant this in Repr && fresh(Repr - old(Repr)) && Stepped(v, going)
        invariant err == None ==> SameBuffer()
        decreases going, len - pos
      {
        GoesOn(v);
        going := NextItem(v);
        if going {
          GoesOn(v);
        }
      }
      LoopEnds(v, going);
    }

    /** Drops the consumed bytes when there are many. */
    method Discard()
      requires Buffered()
      modifies `pos, `len, buf, buf.data
      ensures Buffered() && Unread() == old(Unread()) && len <= old(len)
    {
      if pos >= 1024 {
        ghost var before := buf.Contents();
        buf.Range(pos, -1);
        assert RangeOf(before, pos, -1) == before[pos..];
        pos := 0;
        len := buf.len;
        assert buf.Contents()[0..] == buf.Contents();
      }
    }

    /** The end of redisReaderGetReply: a finished reply leaves the reader. */
    method Deliver() returns (out: ReplyObject?)
      requires if ridx == -1 then Finished() else Ready()
      modifies `pos, `len, `reply, `Repr, buf, buf.data
      ensures Valid() && err == None && Repr <= old(Repr) && len <= old(len)
      ensures old(ridx) != -1 ==> out == null && View() == old(View())
      ensures old(ridx) == -1 ==>
                && out == old(reply) && out.tree == old(reply.tree) && View() == INITIAL.(unread := old(Unread()))
                && out.Complete() && out.owned !! Repr
    {
      hide Level, Inner, Apart, Opened, ReplyObject.Complete;
      Discard();
      if ridx == -1 {
        out := reply;
        reply := null;
        Repr := {this, rstack, buf, buf.data};
      } else {
        out := null;
        StillLinked(null);
        StillTasks();
      }
    }

    static lemma LaterUnread(s: ByteString, i: nat, j: nat)
      requires i <= j <= |s|
      ensures IsSuffix(s[j..], s[i..])
    {
    }

    /** redisReaderGetReply */
    method GetReply() returns (ok: bool, out: ReplyObject?)
      requires Valid()
      modifies Repr
      ensures Valid() && fresh(Repr - old(Repr)) && ok == err.None? && len <= old(len)
      ensures GetSpec(old(View()), if out == null then None else Some(out.tree), View())
      ensures out != null ==> out.Complete() && out.owned !! Repr
    {
      hide Level, Inner, Apart, Opened, Linked, Tasks, After, SameFuture, IsSuffix;
      hide ReplyObject.Complete, Sds.Valid, Sds.Contents;
      out := null;
      if err.Some? {
        return false, null;
      }
      ghost var v := View();
      if len == 0 {
        NothingUnread(v);
        SameFutureReflexive(v);
        LaterUnread(buf.Contents(), pos, pos);
        return true, null;
      }
      RidxRange();
      if ridx == -1 {
        StartReply();
      }
      ghost var all, start := buf.Contents(), pos;
      ProcessItems();
      if err.Some? {
        return false, null;
      }
      LaterUnread(all, start, pos);
      if ridx != -1 {
        FutureOfWaiting(v, View());
      }
      out := Deliver();
      ok := true;
    }
  }

  /** seekNewline: the offset of the first CRLF among the `len` bytes at s. The
      byte behind them is the NUL that every dynamic string keeps. */
  method SeekNewline(data: array<Byte>, s: nat, len: nat) returns (r: Option<nat>)
    requires s + len < data.Length && data[s + len] == NUL
    ensures r == Newline(data[s..s + len])
  {
    ghost var text := data[s..s + len];
    var pos, last := 0, len - 1;
    while pos < last
      invariant 0 <= pos && (len > 0 ==> pos <= len)
      invariant forall i :: 0 <= i < pos ==> !NewlineAt(text, i)
    {
      while pos < last && data[s + pos] != CR
        invariant 0 <= pos <= last
        invariant forall i :: 0 <= i < pos ==> !NewlineAt(text, i)
      {
        assert text[pos] == data[s + pos];
        pos := pos + 1;
      }
      if data[s + pos] != CR {
        return None;
      }
      if data[s + pos + 1] == LF {
        assert NewlineAt(text, pos);
        NewlineUnique(text, pos);
        return Some(pos);
      }
      pos := pos + 1;
    }
    r := None;
  }
}
