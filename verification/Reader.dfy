/** The reader of read.c: a buffer with a cursor, a nine-slot task stack and a half-built reply tree,
    all updated in place. Every operation is proved to do what ReaderMachine says. */
module Reader {
  import opened Bytes
  import opened Numbers
  import opened Resp
  import M = ReaderMachine

  const REPLY_STRING := 1
  const REPLY_ARRAY := 2
  const REPLY_INTEGER := 3
  const REPLY_NIL := 4
  const REPLY_STATUS := 5
  const REPLY_ERROR := 6
  const STACK_SIZE := 9
  const COMPACT_AT := 1024

  /** `redisReply`: a node of the reply tree. */
  class ReplyObject {
    var typ: int
    var integer: int
    var str: seq<byte>
    var elements: int
    var element: seq<ReplyObject?>

    constructor (typ: int, integer: int, str: seq<byte>, elements: int)
      ensures this.typ == typ && this.integer == integer && this.str == str && this.elements == elements
      ensures |element| == (if elements > 0 then elements else 0)
      ensures forall j :: 0 <= j < |element| ==> element[j] == null
    {
      this.typ, this.integer, this.str, this.elements := typ, integer, str, elements;
      this.element := seq(if elements > 0 then elements else 0, _ => null);
    }
  }

  /** The object `o` is the complete tree of `t`, built from objects of `done` only. */
  ghost predicate Holds(o: ReplyObject, t: Reply, done: set<ReplyObject>)
    reads done
    decreases t
  {
    o in done &&
    match t
    case Status(text) => o.typ == REPLY_STATUS && o.str == text
    case Error(text) => o.typ == REPLY_ERROR && o.str == text
    case Integer(v) => o.typ == REPLY_INTEGER && o.integer == v
    case Bulk(data) => o.typ == REPLY_STRING && o.str == data
    case Nil => o.typ == REPLY_NIL
    case Hollow(n) => o.typ == REPLY_ARRAY && o.elements == n && o.element == []
    case Array(items) =>
      o.typ == REPLY_ARRAY && o.elements == |items| == |o.element| &&
      forall j :: 0 <= j < |items| ==> o.element[j] != null && Holds(o.element[j], items[j], done)
  }

  /** An array under construction: the slots before the cursor hold complete trees, the cursor slot
      holds `link`, later slots are empty. */
  ghost predicate FrameHolds(o: ReplyObject, f: M.Frame, link: ReplyObject?, done: set<ReplyObject>)
    reads o, done
  {
    && o !in done && o.typ == REPLY_ARRAY && o.elements == f.count == |o.element| && |f.items| < f.count
    && (forall j :: 0 <= j < |f.items| ==> o.element[j] != null && Holds(o.element[j], f.items[j], done))
    && o.element[|f.items|] == link
    && (forall j :: |f.items| < j < f.count ==> o.element[j] == null)
  }

  /** What the cursor slot of the k-th open array holds: the next open array, or `link` in the innermost. */
  ghost function LinkAt(objs: seq<ReplyObject>, k: nat, link: ReplyObject?): ReplyObject? {
    if k + 1 < |objs| then objs[k + 1] else link
  }

  /** The open arrays, outermost first, each linked into the cursor slot of the one before. */
  ghost predicate Spine(objs: seq<ReplyObject>, open: seq<M.Frame>, link: ReplyObject?, done: set<ReplyObject>)
    reads objs, done
  {
    && |objs| == |open|
    && (forall i, j :: 0 <= i < j < |objs| ==> objs[i] != objs[j])
    && (forall k :: 0 <= k < |objs| ==> FrameHolds(objs[k], open[k], LinkAt(objs, k, link), done))
  }

  lemma SpineEmpty(done: set<ReplyObject>)
    ensures forall link :: Spine([], [], link, done)
  {
  }

  lemma {:induction false} HoldsMono(o: ReplyObject, t: Reply, done: set<ReplyObject>, more: set<ReplyObject>)
    requires Holds(o, t, done) && done <= more
    ensures Holds(o, t, more)
    decreases t
  {
    if t.Array? {
      forall j | 0 <= j < |t.items|
        ensures Holds(o.element[j], t.items[j], more)
      {
        HoldsMono(o.element[j], t.items[j], done, more);
      }
    }
  }

  lemma FrameMono(o: ReplyObject, f: M.Frame, link: ReplyObject?, done: set<ReplyObject>, more: set<ReplyObject>)
    requires FrameHolds(o, f, link, done) && done <= more && o !in more
    ensures FrameHolds(o, f, link, more)
  {
    forall j | 0 <= j < |f.items|
      ensures Holds(o.element[j], f.items[j], more)
    {
      HoldsMono(o.element[j], f.items[j], done, more);
    }
  }

  lemma SpineMono(objs: seq<ReplyObject>, open: seq<M.Frame>, link: ReplyObject?,
                  done: set<ReplyObject>, more: set<ReplyObject>)
    requires Spine(objs, open, link, done) && done <= more
    requires forall k :: 0 <= k < |objs| ==> objs[k] !in more
    ensures Spine(objs, open, link, more)
  {
    forall k | 0 <= k < |objs|
      ensures FrameHolds(objs[k], open[k], LinkAt(objs, k, link), more)
    {
      FrameMono(objs[k], open[k], LinkAt(objs, k, link), done, more);
    }
  }

  lemma SpineGrows(objs: seq<ReplyObject>, open: seq<M.Frame>, link: ReplyObject?, done: set<ReplyObject>,
                   o: ReplyObject)
    requires Spine(objs, open, link, done) && o !in objs
    ensures Spine(objs, open, link, done + {o})
  {
    forall k | 0 <= k < |objs|
      ensures objs[k] !in done + {o}
    {
      assert FrameHolds(objs[k], open[k], LinkAt(objs, k, link), done);
    }
    SpineMono(objs, open, link, done, done + {o});
  }

  lemma LeafHolds(o: ReplyObject, t: Reply, done: set<ReplyObject>)
    requires o in done && IsLeaf(o.typ, o.integer, o.str, o.elements, t)
    requires |o.element| == (if o.elements > 0 then o.elements else 0)
    ensures Holds(o, t, done)
  {
  }

  /** The array whose last slot was just filled is itself complete. */
  lemma FrameCloses(o: ReplyObject, f: M.Frame, c: ReplyObject, v: Reply, done: set<ReplyObject>)
    requires FrameHolds(o, f, c, done) && Holds(c, v, done) && |f.items| + 1 == f.count
    ensures Holds(o, Array(f.items + [v]), done + {o})
  {
    var items := f.items + [v];
    forall j | 0 <= j < |items|
      ensures o.element[j] != null && Holds(o.element[j], items[j], done + {o})
    {
      HoldsMono(o.element[j], items[j], done, done + {o});
    }
  }

  lemma SpineCloses(objs: seq<ReplyObject>, open: seq<M.Frame>, c: ReplyObject, v: Reply, done: set<ReplyObject>)
    requires open != [] && Spine(objs, open, c, done) && Holds(c, v, done)
    requires var f := open[|open| - 1]; |f.items| + 1 == f.count
    ensures var n := |open| - 1;
      && Holds(objs[n], Array(open[n].items + [v]), done + {objs[n]})
      && Spine(objs[..n], open[..n], objs[n], done + {objs[n]})
  {
    var n := |open| - 1;
    assert FrameHolds(objs[n], open[n], LinkAt(objs, n, c), done);
    FrameCloses(objs[n], open[n], c, v, done);
    assert Spine(objs[..n], open[..n], objs[n], done) by {
      forall k | 0 <= k < n
        ensures FrameHolds(objs[..n][k], open[..n][k], LinkAt(objs[..n], k, objs[n]), done)
      {
        assert FrameHolds(objs[k], open[k], LinkAt(objs, k, c), done);
      }
    }
    forall k | 0 <= k < n
      ensures objs[..n][k] !in done + {objs[n]}
    {
      assert FrameHolds(objs[k], open[k], LinkAt(objs, k, c), done);
    }
    SpineMono(objs[..n], open[..n], objs[n], done, done + {objs[n]});
  }

  /** The array takes the value of its cursor slot and moves the cursor on. */
  lemma SpineAdvances(objs: seq<ReplyObject>, open: seq<M.Frame>, c: ReplyObject, v: Reply, done: set<ReplyObject>)
    requires open != [] && Spine(objs, open, c, done) && Holds(c, v, done)
    requires var f := open[|open| - 1]; |f.items| + 1 < f.count
    ensures var n := |open| - 1;
      Spine(objs, open[..n] + [M.Frame(open[n].count, open[n].items + [v])], null, done)
  {
    var n := |open| - 1;
    var open' := open[..n] + [M.Frame(open[n].count, open[n].items + [v])];
    assert FrameHolds(objs[n], open[n], LinkAt(objs, n, c), done);
    forall k | 0 <= k < |objs|
      ensures FrameHolds(objs[k], open'[k], LinkAt(objs, k, null), done)
    {
      if k < n {
        assert FrameHolds(objs[k], open[k], LinkAt(objs, k, c), done);
      }
    }
  }

  function KindOfCode(typ: int): Option<Kind> {
    if typ == REPLY_ERROR then Some(KError)
    else if typ == REPLY_STATUS then Some(KStatus)
    else if typ == REPLY_INTEGER then Some(KInteger)
    else if typ == REPLY_STRING then Some(KBulk)
    else if typ == REPLY_ARRAY then Some(KArray)
    else None
  }

  /** `redisReadTask`; `parent` is the stack index of the parent task, -1 for none. */
  datatype ReadTask = ReadTask(typ: int, elements: int, idx: int, obj: ReplyObject?, parent: int)

  /** The tasks below `ridx` are the open arrays, and each child's idx is its parent's cursor. */
  ghost predicate Tasks(ts: seq<ReadTask>, ridx: int, objs: seq<ReplyObject>, open: seq<M.Frame>) {
    && |ts| == STACK_SIZE && -1 <= ridx <= 8
    && |objs| == |open| == (if ridx < 0 then 0 else ridx)
    && (ridx >= 0 ==> ts[0].parent == -1)
    && (forall k :: 0 <= k < ridx ==>
          && ts[k].typ == REPLY_ARRAY && ts[k].elements == open[k].count && ts[k].obj == objs[k])
    && (forall k :: 0 < k <= ridx ==> ts[k].parent == k - 1 && ts[k].idx == |open[k - 1].items|)
  }

  lemma TasksPop(ts: seq<ReadTask>, ridx: int, objs: seq<ReplyObject>, open: seq<M.Frame>)
    requires Tasks(ts, ridx, objs, open) && ridx >= 0
    ensures ridx > 0 ==> Tasks(ts, ridx - 1, objs[..ridx - 1], open[..ridx - 1])
    ensures ridx == 0 ==> Tasks(ts, -1, objs, open)
  {
  }

  lemma TasksTop(ts: seq<ReadTask>, ridx: int, objs: seq<ReplyObject>, open: seq<M.Frame>)
    requires Tasks(ts, ridx, objs, open) && ridx >= 0
    ensures |ts| == STACK_SIZE && ridx <= 8 && |objs| == |open| == ridx
    ensures ridx > 0 ==>
      && ts[ridx - 1].typ == REPLY_ARRAY && ts[ridx - 1].elements == open[ridx - 1].count
      && ts[ridx - 1].obj == objs[ridx - 1]
      && ts[ridx].parent == ridx - 1 && ts[ridx].idx == |open[ridx - 1].items|
    ensures ridx == 0 ==> ts[0].parent == -1
  {
    if ridx > 0 {
      var k := ridx - 1;
      assert ts[k].typ == REPLY_ARRAY && ts[k + 1].parent == k;
    }
  }

  lemma TasksRetype(ts: seq<ReadTask>, ridx: int, objs: seq<ReplyObject>, open: seq<M.Frame>, typ: int)
    requires Tasks(ts, ridx, objs, open) && 0 <= ridx
    ensures Tasks(ts[ridx := ts[ridx].(typ := typ)], ridx, objs, open)
  {
  }

  function CodeOf(kind: Kind): (r: int)
    ensures KindOfCode(r) == Some(kind)
  {
    match kind
    case KError => REPLY_ERROR
    case KStatus => REPLY_STATUS
    case KInteger => REPLY_INTEGER
    case KBulk => REPLY_STRING
    case KArray => REPLY_ARRAY
  }

  function Advanced(t: ReadTask): ReadTask {
    t.(typ := -1, elements := -1, idx := t.idx + 1)
  }

  lemma TasksAdvance(ts: seq<ReadTask>, ridx: int, objs: seq<ReplyObject>, open: seq<M.Frame>, v: Reply)
    requires Tasks(ts, ridx, objs, open) && ridx > 0
    ensures Tasks(ts[ridx := Advanced(ts[ridx])], ridx, objs,
                  open[..ridx - 1] + [M.Frame(open[ridx - 1].count, open[ridx - 1].items + [v])])
  {
  }

  /** The stack after an array opened at `ridx`. */
  ghost function Pushed(ts: seq<ReadTask>, ridx: nat, o: ReplyObject, count: nat): seq<ReadTask>
    requires |ts| == STACK_SIZE && ridx < 8
  {
    ts[ridx := ts[ridx].(elements := count, obj := o)][ridx + 1 := ReadTask(-1, -1, 0, null, ridx)]
  }

  lemma TasksPush(ts: seq<ReadTask>, ridx: int, objs: seq<ReplyObject>, open: seq<M.Frame>, o: ReplyObject, count: nat)
    requires Tasks(ts, ridx, objs, open) && 0 <= ridx < 8 && ts[ridx].typ == REPLY_ARRAY
    ensures Tasks(Pushed(ts, ridx, o, count), ridx + 1, objs + [o], open + [M.Frame(count, [])])
  {
  }

  lemma OpenPush(open: seq<M.Frame>, count: nat)
    requires M.ValidOpen(open) && |open| < 8 && count > 0
    ensures M.ValidOpen(open + [M.Frame(count, [])])
  {
  }

  lemma SpinePush(objs: seq<ReplyObject>, open: seq<M.Frame>, o: ReplyObject, count: nat, done: set<ReplyObject>)
    requires Spine(objs, open, o, done) && o !in objs && FrameHolds(o, M.Frame(count, []), null, done)
    ensures Spine(objs + [o], open + [M.Frame(count, [])], null, done)
  {
    var objs', open' := objs + [o], open + [M.Frame(count, [])];
    forall k | 0 <= k < |objs'|
      ensures FrameHolds(objs'[k], open'[k], LinkAt(objs', k, null), done)
    {
      if k < |objs| {
        assert FrameHolds(objs[k], open[k], LinkAt(objs, k, o), done);
      }
    }
  }

  lemma FrameCount(o: ReplyObject, count: nat, done: set<ReplyObject>)
    requires FrameHolds(o, M.Frame(count, []), null, done)
    ensures count > 0
  {
  }

  lemma CursorInRange(open: seq<M.Frame>)
    requires M.ValidOpen(open) && open != []
    ensures |open[|open| - 1].items| < open[|open| - 1].count
  {
  }

  lemma DeliverStep(open: seq<M.Frame>, v: Reply, rest: seq<byte>)
    requires M.ValidOpen(open)
    ensures open == [] ==> M.Deliver(open, v, rest) == M.Finished(M.Machine([], None, rest, None), v)
    ensures open != [] ==>
      var n := |open| - 1;
      var items := open[n].items + [v];
      M.ValidOpen(open[..n]) &&
      (|items| < open[n].count ==> M.ValidOpen(open[..n] + [M.Frame(open[n].count, items)])) &&
      M.Deliver(open, v, rest) ==
        if |items| == open[n].count then M.Deliver(open[..n], Array(items), rest)
        else M.Progress(M.Machine(open[..n] + [M.Frame(open[n].count, items)], None, rest, None))
  {
  }

  /** The first CRLF of the `len` bytes at `start`: the double loop of `seekNewline`. */
  method SeekNewline(buf: seq<byte>, start: nat) returns (r: int)
    requires start <= |buf|
    ensures match Newline(buf[start..])
            case None => r == -1
            case Some(at) => r == start + at && r + 2 <= |buf| && buf[r] == CR
  {
    var pos := 0;
    var last := |buf| - start - 1;
    ghost var s := buf[start..];
    while pos < last
      invariant 0 <= pos && (last >= 0 ==> pos <= last)
      invariant forall k :: 0 <= k < pos ==> !CrlfAt(s, k)
      decreases last - pos
    {
      while pos < last && buf[start + pos] != CR
        invariant pos <= last
        invariant forall k :: 0 <= k < pos ==> !CrlfAt(s, k)
      {
        pos := pos + 1;
      }
      if pos == last {
        return -1;
      } else if buf[start + pos + 1] == LF {
        assert CrlfAt(s, pos);
        NewlineIs(s, pos);
        return start + pos;
      } else {
        assert !CrlfAt(s, pos);
        pos := pos + 1;
      }
    }
    return -1;
  }

  /** The item that starts at `pos`, in terms of buffer positions, once its first CRLF is at `at`. */
  lemma ItemAt(kind: Kind, buf: seq<byte>, pos: nat, at: nat, depth: nat)
    requires pos <= at && at + 2 <= |buf| && Newline(buf[pos..]) == Some(at - pos)
    ensures kind == KBulk ==>
      var n := ReadLongLong(buf[pos..at]);
      ReadItem(kind, buf[pos..], depth) ==
        var h := at + 2 - pos;
        if n < 0 then Complete(Nil, h)
        else if at + 2 + n + 2 <= |buf| then Complete(Bulk(buf[pos..][h..h + n]), h + n + 2)
        else Short
    ensures kind == KArray && depth != MAX_DEPTH ==>
      var n := ReadLongLong(buf[pos..at]);
      ReadItem(kind, buf[pos..], depth) ==
        if n > 0 then Opens(n, at + 2 - pos)
        else Complete(if n == -1 then Nil else if n == 0 then Array([]) else Hollow(n), at + 2 - pos)
  {
    var s := buf[pos..];
    assert s[..at - pos] == buf[pos..at];
    var n := ReadLongLong(buf[pos..at]);
  }

  lemma BulkMissing(m: M.Machine)
    requires M.Valid(m) && m.err.None? && m.kind == Some(KBulk) && Newline(m.unread).None?
    ensures M.StepTyped(m) == M.Stuck(m)
  {
  }

  /** What becomes of a bulk item whose header line has arrived. */
  lemma BulkOutcome(m: M.Machine, buf: seq<byte>, pos: nat, at: nat)
    requires M.Valid(m) && m.err.None? && m.kind == Some(KBulk)
    requires pos <= at && at + 2 <= |buf| && m.unread == buf[pos..] && Newline(buf[pos..]) == Some(at - pos)
    ensures var n, h := ReadLongLong(buf[pos..at]), at + 2 - pos;
      M.StepTyped(m) ==
        if n < 0 then M.Deliver(m.open, Nil, m.unread[h..])
        else if at + 2 + n + 2 <= |buf| then M.Deliver(m.open, Bulk(m.unread[h..h + n]), m.unread[h + n + 2..])
        else M.Stuck(m)
  {
    hide M.Deliver, ReadItem, ReadLongLong, Newline;
    ItemAt(KBulk, buf, pos, at, |m.open|);
  }

  lemma NinthArray(s: seq<byte>)
    ensures ReadItem(KArray, s, MAX_DEPTH) == Refused(TooDeep)
  {
  }

  lemma EmptyIsIdle(m: M.Machine)
    requires M.Valid(m) && m.err.None? && m.unread == [] && !(m.kind == Some(KArray) && |m.open| == MAX_DEPTH)
    ensures M.Run(m) == M.Idle(m)
  {
  }

  lemma NoLineYet(kind: Kind, s: seq<byte>, depth: nat)
    requires Newline(s).None? && !(kind == KArray && depth == MAX_DEPTH)
    ensures ReadItem(kind, s, depth) == Short
  {
  }

  class RedisReader {
    var err: Option<ReadError>
    var buf: seq<byte>
    var pos: nat
    var len: nat
    var maxbuf: nat
    const rstack: array<ReadTask>
    var ridx: int
    var reply: ReplyObject?

    /** The values of the open arrays, their objects, and the finished objects below them. */
    ghost var open: seq<M.Frame>
    ghost var objs: seq<ReplyObject>
    ghost var done: set<ReplyObject>

    /** Buffer and stack, with `link` in the innermost cursor slot. */
    ghost predicate Linked(link: ReplyObject?)
      reads this, rstack, objs, done
    {
      && rstack.Length == STACK_SIZE
      && pos <= len == |buf|
      && -1 <= ridx <= 8 && |objs| == |open| == (if ridx < 0 then 0 else ridx)
      && Tasks(rstack[..], ridx, objs, open) && M.ValidOpen(open)
      && Spine(objs, open, link, done)
      && (ridx > 0 ==> reply == objs[0])
    }

    ghost predicate Valid()
      reads this, rstack, objs, done
    {
      && Linked(null)
      && (ridx >= 0 ==> rstack[ridx].typ in {-1, REPLY_STRING, REPLY_ARRAY, REPLY_INTEGER, REPLY_STATUS, REPLY_ERROR})
      && (ridx <= 0 ==> reply == null)
      && (ridx == 8 ==> rstack[8].typ != REPLY_ARRAY)
      && (err.Some? ==> ridx == -1 && pos == len)
    }

    /** The abstract machine this reader is in. */
    ghost function State(): M.Machine
      requires rstack.Length == STACK_SIZE && ridx <= 8 && pos <= |buf|
      reads this, rstack
    {
      M.Machine(open, if ridx < 0 then None else KindOfCode(rstack[ridx].typ), buf[pos..], err)
    }

    /** `redisReaderCreateWithFunctions`. */
    constructor ()
      ensures Valid() && State() == M.FRESH && objs == [] && fresh(rstack)
    {
      err, buf, pos, len, maxbuf := None, [], 0, 0, 1024 * 16;
      rstack := new ReadTask[STACK_SIZE](_ => ReadTask(0, 0, 0, null, -1));
      ridx, reply := -1, null;
      open, objs, done := [], [], {};
    }

    /** The innermost array is complete: it becomes a value of the array around it. */
    ghost method CloseTop(c: ReplyObject, v: Reply) returns (c': ReplyObject, v': Reply)
      requires ridx > 0 && Linked(c) && Holds(c, v, done) && |open| == |objs| == ridx
      requires |open[ridx - 1].items| + 1 == open[ridx - 1].count
      modifies this`open, this`objs, this`done
      ensures open == old(open)[..ridx - 1] && objs == old(objs)[..ridx - 1] && M.ValidOpen(open)
      ensures Tasks(rstack[..], ridx - 1, objs, open) && Spine(objs, open, c', done) && Holds(c', v', done)
      ensures c' == old(objs)[ridx - 1]
      ensures M.Deliver(open, v', buf[pos..]) == M.Deliver(old(open), v, buf[pos..])
    {
      hide Holds, Spine, M.Deliver, Tasks;
      DeliverStep(open, v, buf[pos..]);
      SpineCloses(objs, open, c, v, done);
      TasksPop(rstack[..], ridx, objs, open);
      c', v' := objs[ridx - 1], Array(open[ridx - 1].items + [v]);
      done, objs, open := done + {c'}, objs[..ridx - 1], open[..ridx - 1];
    }

    /** The innermost array has room left: its cursor moves to the next slot. */
    method AdvanceTop(ghost c: ReplyObject, ghost v: Reply)
      requires ridx > 0 && Linked(c) && Holds(c, v, done)
      requires |open[ridx - 1].items| + 1 < open[ridx - 1].count
      modifies this`open, rstack
      ensures Linked(null) && rstack[ridx].typ == -1
      ensures M.Deliver(old(open), v, buf[pos..]) == M.Progress(M.Machine(open, None, buf[pos..], None))
    {
      hide Holds, Spine, M.Deliver, M.ValidOpen, Tasks;
      DeliverStep(open, v, buf[pos..]);
      SpineAdvances(objs, open, c, v, done);
      TasksAdvance(rstack[..], ridx, objs, open, v);
      ghost var ts := rstack[..];
      rstack[ridx] := rstack[ridx].(typ := -1, elements := -1, idx := rstack[ridx].idx + 1);
      assert rstack[..] == ts[ridx := Advanced(ts[ridx])];
      open := open[..ridx - 1] + [M.Frame(open[ridx - 1].count, open[ridx - 1].items + [v])];
    }

    /** `moveToNextTask`, after the object `c` of value `v` was linked at the top of the stack. */
    method MoveToNextTask(ghost c: ReplyObject, ghost v: Reply) returns (ghost root: ReplyObject, ghost value: Reply)
      requires ridx >= 0 && Linked(c) && Holds(c, v, done)
      modifies this`ridx, this`open, this`objs, this`done, rstack
      ensures Linked(null) && |objs| <= |old(objs)| && objs == old(objs)[..|objs|]
      ensures root == if old(ridx) == 0 then c else old(objs)[0]
      ensures match M.Deliver(old(open), v, buf[pos..])
              case Progress(m) => ridx >= 0 && open == m.open && rstack[ridx].typ == -1 && ridx == |open| > 0
              case Finished(m, t) => ridx == -1 && value == t && Holds(root, t, done)
              case _ => false
    {
      hide Holds, Spine, M.Deliver, M.ValidOpen, Tasks;
      root, value := c, v;
      TasksTop(rstack[..], ridx, objs, open);
      SpineEmpty(done);
      ghost var rest := buf[pos..];
      while ridx >= 0
        invariant 0 <= ridx <= old(ridx) && |objs| == |open| == ridx && objs == old(objs)[..ridx]
        invariant rstack[..] == old(rstack[..])
        invariant Linked(root)
        invariant Holds(root, value, done)
        invariant ridx == 0 ==> root == if old(ridx) == 0 then c else old(objs)[0]
        invariant M.Deliver(open, value, rest) == M.Deliver(old(open), v, rest)
        decreases ridx
      {
        TasksTop(rstack[..], ridx, objs, open);
        if ridx == 0 {
          DeliverStep(open, value, rest);
          TasksPop(rstack[..], ridx, objs, open);
          SpineEmpty(done);
          ridx := ridx - 1;
          return;
        }
        var cur, prv := rstack[ridx], rstack[ridx - 1];
        assert prv.typ == REPLY_ARRAY;
        CursorInRange(open);
        if cur.idx == prv.elements - 1 {
          root, value := CloseTop(root, value);
          ridx := ridx - 1;
        } else {
          assert cur.idx < prv.elements;
          AdvanceTop(root, value);
          root := old(objs)[0];
          return;
        }
      }
    }

    /** The linking half of the `create*Object` builders: the new object goes into the cursor slot of
        the parent task's array. */
    method Adopt(o: ReplyObject)
      requires ridx >= 0 && Linked(null) && o !in objs && o !in done
      modifies objs
      ensures Linked(o)
    {
      hide Holds, Tasks, M.ValidOpen;
      TasksTop(rstack[..], ridx, objs, open);
      var cur := rstack[ridx];
      if cur.parent >= 0 {
        var p := rstack[cur.parent].obj;
        assert FrameHolds(objs[ridx - 1], open[ridx - 1], LinkAt(objs, ridx - 1, null), done);
        assert p.typ == REPLY_ARRAY;
        p.element := p.element[cur.idx := o];
        assert FrameHolds(p, open[ridx - 1], o, done);
        forall k | 0 <= k < |objs|
          ensures FrameHolds(objs[k], open[k], LinkAt(objs, k, o), done)
        {
          if k < ridx - 1 {
            assert old(FrameHolds(objs[k], open[k], LinkAt(objs, k, null), done));
          }
        }
      }
    }

    /** A reply without elements: created, adopted, complete. */
    method CreateLeaf(typ: int, integer: int, str: seq<byte>, elements: int, ghost t: Reply) returns (o: ReplyObject)
      requires ridx >= 0 && Linked(null) && IsLeaf(typ, integer, str, elements, t)
      modifies objs, this`done
      ensures Linked(o) && Holds(o, t, done) && fresh(o)
    {
      hide Holds, Spine, Tasks;
      o := new ReplyObject(typ, integer, str, elements);
      Adopt(o);
      SpineGrows(objs, open, o, done, o);
      LeafHolds(o, t, done + {o});
      done := done + {o};
    }

    /** How the reader relates to what one `processItem` of the machine yields. */
    ghost predicate Did(out: M.Outcome, ok: bool)
      reads this, rstack, objs, done
    {
      match out
      case Progress(m) => ok && ridx >= 0 && Valid() && State() == m
      case Finished(m, t) =>
        ok && ridx == -1 && Linked(null) && State() == m && reply != null && Holds(reply, t, done)
      case Stuck(m) => !ok && ridx >= 0 && Valid() && State() == m
      case Failed(m) => !ok && ridx == -1 && Valid() && State() == m
    }

    /** `__redisReaderSetError`: the partial reply, the buffer and the task stack are dropped. */
    method SetError(e: ReadError)
      requires Linked(null)
      modifies this
      ensures Valid() && State() == M.Failure(e) && ridx == -1 && objs == []
    {
      hide Holds, Spine;
      reply := null;
      buf, pos, len := [], 0, 0;
      ridx := -1;
      err := Some(e);
      SpineEmpty({});
      open, objs, done := [], [], {};
    }

    /** An item that is a whole reply: its bytes are consumed, its object created, adopted and delivered. */
    method TakeLeaf(size: nat, typ: int, integer: int, str: seq<byte>, elements: int, ghost t: Reply)
      requires ridx >= 0 && Linked(null) && err.None? && pos + size <= len && IsLeaf(typ, integer, str, elements, t)
      modifies this, rstack, objs
      ensures Did(M.Deliver(old(open), t, old(buf[pos..])[size..]), true)
      ensures forall x :: x in objs ==> x in old(objs)
    {
      hide Holds, Spine, Tasks, IsLeaf, M.Deliver, M.ValidOpen;
      ghost var rest := buf[pos..][size..];
      pos := pos + size;
      assert buf[pos..] == rest;
      var o := CreateLeaf(typ, integer, str, elements, t);
      if ridx == 0 {
        reply := o;
      }
      ghost var root, value := MoveToNextTask(o, t);
    }

    /** `processLineItem`: status, error and integer replies. */
    method ProcessLineItem() returns (ok: bool)
      requires Valid() && ridx >= 0 && err.None?
      requires rstack[ridx].typ in {REPLY_STATUS, REPLY_ERROR, REPLY_INTEGER}
      modifies this, rstack, objs
      ensures Did(M.StepTyped(old(State())), ok)
      ensures forall x :: x in objs ==> x in old(objs)
    {
      hide Holds, Spine, Tasks, M.Deliver, M.ValidOpen, ReadLongLong;
      var cur := rstack[ridx];
      var at := SeekNewline(buf, pos);
      if at < 0 {
        return false;
      }
      ghost var unread := buf[pos..];
      assert unread[..at - pos] == buf[pos..at];
      if cur.typ == REPLY_INTEGER {
        var v := ReadLongLongAt(buf, pos, at);
        TakeLeaf(at + 2 - pos, REPLY_INTEGER, v, [], 0, Integer(v));
      } else {
        var text := buf[pos..at];
        TakeLeaf(at + 2 - pos, cur.typ, 0, text, 0, if cur.typ == REPLY_STATUS then Status(text) else Error(text));
      }
      ok := true;
    }

    /** `processBulkItem`: nothing is consumed until the whole item has arrived. */
    method ProcessBulkItem() returns (ok: bool)
      requires Valid() && ridx >= 0 && err.None? && rstack[ridx].typ == REPLY_STRING
      modifies this, rstack, objs
      ensures Did(M.StepTyped(old(State())), ok)
      ensures forall x :: x in objs ==> x in old(objs)
    {
      hide Holds, Spine, Tasks, M.Deliver, M.ValidOpen, M.StepTyped, ReadLongLong, ReadItem, Newline;
      ghost var m := State();
      var at := SeekNewline(buf, pos);
      if at < 0 {
        BulkMissing(m);
        return false;
      }
      BulkOutcome(m, buf, pos, at);
      var bytelen := at - pos + 2;
      var n := ReadLongLongAt(buf, pos, at);
      if n < 0 {
        TakeLeaf(bytelen, REPLY_NIL, 0, [], 0, Nil);
        return true;
      }
      if pos + bytelen + n + 2 > len {
        return false;
      }
      TakeBulk(bytelen, n);
      ok := true;
    }

    /** A bulk string that has arrived: header of `bytelen` bytes, `n` bytes of data and the line end behind them. */
    method TakeBulk(bytelen: nat, n: nat)
      requires ridx >= 0 && Linked(null) && err.None? && pos + bytelen + n + 2 <= len
      modifies this, rstack, objs
      ensures var s := old(buf[pos..]);
        Did(M.Deliver(old(open), Bulk(s[bytelen..bytelen + n]), s[bytelen + n + 2..]), true)
      ensures forall x :: x in objs ==> x in old(objs)
    {
      hide Holds, Spine, Tasks, M.Deliver, M.ValidOpen;
      var data := buf[pos + bytelen..pos + bytelen + n];
      assert data == buf[pos..][bytelen..bytelen + n];
      TakeLeaf(bytelen + n + 2, REPLY_STRING, 0, data, 0, Bulk(data));
    }

    /** `createArrayObject` for a non-empty array: adopted, with all its slots empty. */
    method CreateArray(count: nat) returns (o: ReplyObject)
      requires ridx >= 0 && Linked(null) && count > 0
      modifies objs
      ensures Linked(o) && FrameHolds(o, M.Frame(count, []), null, done) && fresh(o)
    {
      hide Holds, Spine, Tasks, M.ValidOpen;
      o := new ReplyObject(REPLY_ARRAY, 0, [], count);
      Adopt(o);
    }

    /** The array becomes the innermost open one and a task for its first element is pushed. */
    method PushTask(o: ReplyObject, count: nat)
      requires 0 <= ridx < 8 && Linked(o) && FrameHolds(o, M.Frame(count, []), null, done)
      requires rstack[ridx].typ == REPLY_ARRAY && o !in objs
      modifies this`ridx, this`open, this`objs, this`reply, rstack
      ensures Linked(null) && ridx == old(ridx) + 1 && rstack[ridx].typ == -1
      ensures open == old(open) + [M.Frame(count, [])] && objs == old(objs) + [o]
    {
      hide Holds, Spine, Tasks, M.ValidOpen, FrameHolds;
      FrameCount(o, count, done);
      SpinePush(objs, open, o, count, done);
      TasksPush(rstack[..], ridx, objs, open, o, count);
      OpenPush(open, count);
      ghost var ts := rstack[..];
      rstack[ridx] := rstack[ridx].(elements := count, obj := o);
      rstack[ridx + 1] := ReadTask(-1, -1, 0, null, ridx);
      assert rstack[..] == Pushed(ts, ridx, o, count);
      if ridx == 0 {
        reply := o;
      }
      open, objs := open + [M.Frame(count, [])], objs + [o];
      ridx := ridx + 1;
    }

    /** An array header: the bytes are consumed, and the array is created and opened. */
    method OpenArray(size: nat, count: nat)
      requires Linked(null) && 0 <= ridx < 8 && err.None? && rstack[ridx].typ == REPLY_ARRAY && count > 0
      requires pos + size <= len
      modifies this`pos, this`ridx, this`open, this`objs, this`reply, rstack, objs
      ensures Valid() && ridx >= 0
      ensures State() == M.Machine(old(open) + [M.Frame(count, [])], None, old(buf[pos..])[size..], None)
      ensures forall x :: x in objs ==> x in old(objs) || fresh(x)
    {
      hide Holds, Spine, Tasks, M.ValidOpen;
      assert buf[pos + size..] == buf[pos..][size..];
      pos := pos + size;
      var o := CreateArray(count);
      PushTask(o, count);
    }

    /** `processMultiBulkItem`. */
    method ProcessMultiBulkItem() returns (ok: bool)
      requires Linked(null) && ridx >= 0 && err.None? && rstack[ridx].typ == REPLY_ARRAY
      requires ridx == 0 ==> reply == null
      modifies this, rstack, objs
      ensures Did(M.StepTyped(old(State())), ok)
      ensures forall x :: x in objs ==> x in old(objs) || fresh(x)
    {
      hide Holds, Spine, Tasks, M.Deliver, M.ValidOpen, ReadLongLong, ReadItem, Newline;
      if ridx == 8 {
        NinthArray(buf[pos..]);
        SetError(TooDeep);
        return false;
      }
      var at := SeekNewline(buf, pos);
      if at < 0 {
        NoLineYet(KArray, buf[pos..], ridx);
        return false;
      }
      ItemAt(KArray, buf, pos, at, ridx);
      var elements := ReadLongLongAt(buf, pos, at);
      var size := at + 2 - pos;
      if elements == -1 {
        TakeLeaf(size, REPLY_NIL, 0, [], 0, Nil);
      } else if elements > 0 {
        OpenArray(size, elements);
      } else {
        TakeLeaf(size, REPLY_ARRAY, 0, [], elements, if elements == 0 then Array([]) else Hollow(elements));
      }
      ok := true;
    }

    /** The type-byte half of `processItem`: the type is remembered, or missing, or the byte is no type. */
    method ReadType() returns (ok: bool, bad: Option<ReadError>)
      requires Valid() && ridx >= 0 && err.None? && rstack[ridx].typ < 0
      modifies this`pos, rstack
      ensures Linked(null) && open == old(open)
      ensures var m := old(State());
        if m.unread == [] then !ok && bad.None? && Valid() && State() == m
        else
          var kind := KindOf(m.unread[0]);
          if kind.None? then !ok && bad == Some(BadTypeByte(m.unread[0]))
          else
            && ok && bad.None? && rstack[ridx].typ == CodeOf(kind.value)
            && State() == m.(kind := kind, unread := m.unread[1..])
    {
      hide Holds, Spine, Tasks, M.ValidOpen;
      ok, bad := false, None;
      if len - pos < 1 {
        return;
      }
      var b := buf[pos];
      assert buf[pos + 1..] == buf[pos..][1..];
      pos := pos + 1;
      var typ :=
        if b == MINUS then REPLY_ERROR
        else if b == PLUS then REPLY_STATUS
        else if b == COLON then REPLY_INTEGER
        else if b == DOLLAR then REPLY_STRING
        else if b == STAR then REPLY_ARRAY
        else -1;
      if typ < 0 {
        bad := Some(BadTypeByte(b));
        return;
      }
      TasksRetype(rstack[..], ridx, objs, open, typ);
      ghost var ts := rstack[..];
      rstack[ridx] := rstack[ridx].(typ := typ);
      assert rstack[..] == ts[ridx := ts[ridx].(typ := typ)];
      ok := true;
    }

    /** `processItem`. */
    method ProcessItem() returns (ok: bool)
      requires Valid() && ridx >= 0 && err.None?
      modifies this, rstack, objs
      ensures Did(M.Step(old(State())), ok)
      ensures forall x :: x in objs ==> x in old(objs) || fresh(x)
    {
      hide Holds, Spine, Tasks, M.StepTyped;
      if rstack[ridx].typ < 0 {
        var bad;
        ok, bad := ReadType();
        if bad.Some? {
          SetError(bad.value);
          return;
        }
        if !ok {
          return;
        }
      }
      if rstack[ridx].typ == REPLY_STRING {
        ok := ProcessBulkItem();
      } else if rstack[ridx].typ == REPLY_ARRAY {
        ok := ProcessMultiBulkItem();
      } else {
        ok := ProcessLineItem();
      }
    }

    /** `redisReaderFeed`; `avail` is the spare room of the buffer's allocation. */
    method Feed(chunk: seq<byte>, avail: nat) returns (ok: bool)
      requires Valid()
      modifies this`buf, this`pos, this`len
      ensures Valid() && State() == M.Feed(old(State()), chunk)
      ensures ok == err.None?
    {
      hide Holds, Spine, Tasks;
      if err.Some? {
        return false;
      }
      if |chunk| >= 1 {
        if len == 0 && maxbuf != 0 && avail > maxbuf {
          buf := [];
          pos := 0;
        }
        assert (buf + chunk)[pos..] == buf[pos..] + chunk;
        buf := buf + chunk;
        len := |buf|;
      } else {
        assert buf[pos..] + chunk == buf[pos..];
      }
      ok := true;
    }

    /** The first item of a reply gets the bottom task. */
    method StartTask()
      requires Valid() && ridx == -1 && err.None?
      modifies this`ridx, rstack
      ensures Valid() && ridx == 0 && State() == old(State())
    {
      rstack[0] := ReadTask(-1, -1, -1, null, -1);
      ridx := 0;
    }

    /** How the reader relates to what a whole run of the machine yields. */
    ghost predicate Ran(got: M.Got, value: Reply)
      reads this, rstack, objs, done
    {
      match got
      case Emit(m, t) =>
        ridx == -1 && Linked(null) && State() == m && value == t && reply != null && Holds(reply, t, done)
      case Idle(m) => ridx >= 0 && Valid() && State() == m
      case Err(m) => ridx == -1 && Valid() && State() == m
    }

    /** The item loop of `redisReaderGetReply`; it ends because every successful item consumes bytes. */
    method ProcessItems() returns (ghost value: Reply)
      requires Valid() && ridx >= 0 && err.None?
      modifies this, rstack, objs
      ensures Ran(M.Run(old(State())), value)
      ensures forall x :: x in objs ==> x in old(objs) || fresh(x)
    {
      hide Holds, Spine, Tasks, M.Step, M.Run, M.ValidOpen;
      value := Nil;
      ghost var start := State();
      while ridx >= 0
        invariant forall x :: x in objs ==> x in old(objs) || fresh(x)
        invariant ridx >= 0 ==> Valid() && err.None? && M.Run(State()) == M.Run(start)
        invariant ridx < 0 ==> Ran(M.Run(start), value)
        decreases ridx >= 0, |buf| - pos
      {
        ghost var m := State();
        M.RunStep(m);
        assert forall i :: 0 <= i < |objs| ==> objs[i] in old(objs) || fresh(objs[i]);
        var ok := ProcessItem();
        ghost var out := M.Step(m);
        if !ok {
          break;
        }
        if out.Finished? {
          value := out.reply;
        }
      }
    }

    /** Discards the consumed part of the buffer once it is at least 1k. */
    method Compact()
      requires Linked(null)
      modifies this`buf, this`pos, this`len
      ensures Linked(null) && State() == old(State())
    {
      hide Holds, Spine, Tasks;
      if pos >= COMPACT_AT {
        assert buf[pos..][0..] == buf[pos..];
        buf := buf[pos..];
        pos := 0;
        len := |buf|;
      }
    }

    /** `redisReaderGetReply`: the reply is complete, built from objects the reader no longer refers to. */
    method GetReply() returns (ok: bool, r: ReplyObject?, ghost parts: set<ReplyObject>)
      requires Valid()
      modifies this, rstack, objs
      ensures Valid()
      ensures forall x :: x in objs ==> x in old(objs) || fresh(x)
      ensures State() == M.GetReply(old(State())).m
      ensures match M.GetReply(old(State()))
              case Emit(m, t) => ok && r != null && Holds(r, t, parts) && objs == []
              case Idle(m) => ok && r == null
              case Err(m) => !ok && r == null
    {
      hide Holds, Spine, Tasks, M.Step, M.Run;
      r, parts := null, {};
      if err.Some? {
        return false, null, {};
      }
      if len == 0 {
        EmptyIsIdle(State());
        return true, null, {};
      }
      if ridx == -1 {
        StartTask();
      }
      ghost var value := ProcessItems();
      if err.Some? {
        return false, null, {};
      }
      Compact();
      if ridx == -1 {
        r, parts := HandOver(value);
      }
      ok := true;
    }

    /** The complete reply leaves the reader. */
    method HandOver(ghost t: Reply) returns (r: ReplyObject, ghost parts: set<ReplyObject>)
      requires ridx == -1 && Linked(null) && err.None? && reply != null && Holds(reply, t, done)
      modifies this`reply, this`done
      ensures Valid() && State() == old(State()) && Holds(r, t, parts) && objs == []
    {
      hide Holds, Spine, Tasks;
      r := reply;
      reply := null;
      parts := done;
      SpineEmpty({});
      done := {};
    }
  }

  ghost predicate IsLeaf(typ: int, integer: int, str: seq<byte>, elements: int, t: Reply) {
    match t
    case Status(text) => typ == REPLY_STATUS && str == text
    case Error(text) => typ == REPLY_ERROR && str == text
    case Integer(v) => typ == REPLY_INTEGER && integer == v
    case Bulk(data) => typ == REPLY_STRING && str == data
    case Nil => typ == REPLY_NIL
    case Hollow(n) => typ == REPLY_ARRAY && elements == n && n <= 0
    case Array(items) => typ == REPLY_ARRAY && elements == 0 && items == []
  }

  ghost predicate AllHold(rs: seq<ReplyObject>, ts: seq<Reply>, parts: seq<set<ReplyObject>>)
    reads set i, x | 0 <= i < |parts| && x in parts[i] :: x
  {
    |rs| == |ts| == |parts| && forall i :: 0 <= i < |rs| ==> Holds(rs[i], ts[i], parts[i])
  }

  /** The replies `rs` taken so far, followed by those the reader still holds, are those of the stream `s`, and the
      reader shares no object with them. */
  ghost predicate History(reader: RedisReader, s: seq<byte>, rs: seq<ReplyObject>, values: seq<Reply>,
                          parts: seq<set<ReplyObject>>)
    requires reader.Valid()
    reads reader, reader.rstack, reader.objs, reader.done, set i, x | 0 <= i < |parts| && x in parts[i] :: x
  {
    && (var d := M.Drain(reader.State());
        M.Drain(M.Feed(M.FRESH, s)) == M.Drained(values + d.replies, d.m))
    && AllHold(rs, values, parts)
    && forall i, x :: 0 <= i < |parts| && x in parts[i] ==> x !in reader.objs
  }

  lemma HistoryStarts(reader: RedisReader)
    requires reader.Valid() && reader.State() == M.FRESH
    ensures History(reader, [], [], [], [])
  {
    hide M.Drain, Holds;
    M.DrainFresh();
    assert M.Feed(M.FRESH, []) == M.FRESH;
  }

  /** The reader is asked for one reply. */
  method AskOnce(reader: RedisReader, rs: seq<ReplyObject>,
                 ghost s: seq<byte>, ghost values: seq<Reply>, ghost parts: seq<set<ReplyObject>>)
    returns (more: bool, rs': seq<ReplyObject>, ghost values': seq<Reply>, ghost parts': seq<set<ReplyObject>>)
    requires reader.Valid() && History(reader, s, rs, values, parts)
    modifies reader, reader.rstack, reader.objs
    ensures reader.Valid() && History(reader, s, rs', values', parts')
    ensures forall x :: x in reader.objs ==> x in old(reader.objs) || fresh(x)
    ensures more ==> |reader.State().unread| < |old(reader.State()).unread|
    ensures !more ==> M.Drain(reader.State()) == M.Drained([], reader.State())
  {
    hide Holds, M.Drain, M.GetReply, Spine, Tasks;
    M.AskBehaves(s, values, reader.State());
    ghost var got := M.GetReply(reader.State());
    if !got.Emit? {
      M.IdleIsDrained(reader.State());
    }
    var ok, r, foot := reader.GetReply();
    forall i | 0 <= i < |rs|
      ensures Holds(rs[i], values[i], parts[i])
    {
      assert old(Holds(rs[i], values[i], parts[i]));
      assert forall x :: x in parts[i] ==> x !in old(reader.objs);
      assert unchanged(parts[i]);
    }
    more, rs', values', parts' := r != null, rs, values, parts;
    if r != null {
      rs', parts', values' := rs + [r], parts + [foot], values + [got.reply];
    }
  }

  /** What a caller does with a reader; `avail` is the spare room of the buffer when the chunk arrives. */
  datatype Use = Give(chunk: seq<byte>, avail: nat) | Ask

  function BytesGiven(uses: seq<Use>): seq<byte> {
    if uses == [] then []
    else BytesGiven(uses[..|uses| - 1]) + (if uses[|uses| - 1].Give? then uses[|uses| - 1].chunk else [])
  }

  /** One use of the reader. */
  method UseOnce(reader: RedisReader, use: Use, rs: seq<ReplyObject>,
                 ghost s: seq<byte>, ghost values: seq<Reply>, ghost parts: seq<set<ReplyObject>>)
    returns (rs': seq<ReplyObject>, ghost values': seq<Reply>, ghost parts': seq<set<ReplyObject>>)
    requires reader.Valid() && History(reader, s, rs, values, parts)
    modifies reader, reader.rstack, reader.objs
    ensures reader.Valid()
    ensures History(reader, s + if use.Give? then use.chunk else [], rs', values', parts')
    ensures forall x :: x in reader.objs ==> x in old(reader.objs) || fresh(x)
  {
    hide Holds, M.Drain, Spine, Tasks;
    if use.Give? {
      M.FeedBehaves(s, use.chunk, values, reader.State());
      var ok := reader.Feed(use.chunk, use.avail);
      rs', values', parts' := rs, values, parts;
    } else {
      assert s + [] == s;
      var more;
      more, rs', values', parts' := AskOnce(reader, rs, s, values, parts);
    }
  }

  /** The reader is asked until it has no reply left. */
  method TakeRest(reader: RedisReader, rs: seq<ReplyObject>,
                  ghost s: seq<byte>, ghost values: seq<Reply>, ghost parts: seq<set<ReplyObject>>)
    returns (rs': seq<ReplyObject>, ghost values': seq<Reply>, ghost parts': seq<set<ReplyObject>>)
    requires reader.Valid() && History(reader, s, rs, values, parts)
    modifies reader, reader.rstack, reader.objs
    ensures reader.Valid() && AllHold(rs', values', parts')
    ensures M.Drain(M.Feed(M.FRESH, s)) == M.Drained(values', reader.State())
  {
    hide Holds, M.Drain, Spine, Tasks;
    rs', values', parts' := rs, values, parts;
    var more := true;
    while more
      invariant reader.Valid() && forall x :: x in reader.objs ==> x in old(reader.objs) || fresh(x)
      invariant History(reader, s, rs', values', parts')
      invariant !more ==> M.Drain(reader.State()) == M.Drained([], reader.State())
      decreases more, |reader.State().unread|
    {
      assert forall i :: 0 <= i < |reader.objs| ==> reader.objs[i] in old(reader.objs) || fresh(reader.objs[i]);
      more, rs', values', parts' := AskOnce(reader, rs', s, values', parts');
    }
  }

  /** The uses of a reader one after the other. */
  method UseAll(reader: RedisReader, uses: seq<Use>)
    returns (rs: seq<ReplyObject>, ghost values: seq<Reply>, ghost parts: seq<set<ReplyObject>>)
    requires reader.Valid() && History(reader, [], [], [], [])
    modifies reader, reader.rstack, reader.objs
    ensures reader.Valid() && History(reader, BytesGiven(uses), rs, values, parts)
    ensures forall x :: x in reader.objs ==> x in old(reader.objs) || fresh(x)
  {
    hide History, RedisReader.Valid;
    rs, values, parts := [], [], [];
    for n := 0 to |uses|
      invariant reader.Valid() && forall x :: x in reader.objs ==> x in old(reader.objs) || fresh(x)
      invariant History(reader, BytesGiven(uses[..n]), rs, values, parts)
    {
      assert uses[..n + 1][..n] == uses[..n];
      assert forall i :: 0 <= i < |reader.objs| ==> reader.objs[i] in old(reader.objs) || fresh(reader.objs[i]);
      rs, values, parts := UseOnce(reader, uses[n], rs, BytesGiven(uses[..n]), values, parts);
    }
    assert uses[..|uses|] == uses;
  }

  /** Incremental use of a reader: any interleaving of chunks and requests, drained at its end. However the stream
      is cut and whenever the reader is asked, the objects handed out are the trees the grammar finds in the whole
      stream, and the reader fails exactly when the grammar does. */
  method ReadStream(uses: seq<Use>) returns (rs: seq<ReplyObject>, failed: bool, ghost parts: seq<set<ReplyObject>>)
    ensures AllHold(rs, ParseStream(BytesGiven(uses)).replies, parts)
    ensures failed == ParseStream(BytesGiven(uses)).tail.Broken?
  {
    hide Holds, ParseStream, M.Drain, Spine, Tasks, BytesGiven;
    var reader := new RedisReader();
    hide History;
    HistoryStarts(reader);
    ghost var values;
    rs, values, parts := UseAll(reader, uses);
    assert forall x :: x in reader.objs ==> fresh(x);
    forall i | 0 <= i < |reader.objs|
      ensures fresh(reader.objs[i])
    {
      assert reader.objs[i] in reader.objs;
    }
    rs, values, parts := TakeRest(reader, rs, BytesGiven(uses), values, parts);
    M.DrainParses(BytesGiven(uses));
    failed := reader.err.Some?;
  }
}
