/** The reader as a pure state machine: open arrays, a remembered type byte and the unread bytes. */
module ReaderMachine {
  import opened Bytes
  import opened Resp

  /** An array whose header was read: `count` elements declared, `items` of them complete. */
  datatype Frame = Frame(count: nat, items: seq<Reply>)

  datatype Machine = Machine(open: seq<Frame>, kind: Option<Kind>, unread: seq<byte>, err: Option<ReadError>)

  const FRESH := Machine([], None, [], None)

  predicate ValidOpen(open: seq<Frame>) {
    |open| <= MAX_DEPTH && forall k :: 0 <= k < |open| ==> |open[k].items| < open[k].count
  }

  /** `__redisReaderSetError`: the stack, the buffer and the reply in progress are dropped. */
  function Failure(e: ReadError): Machine {
    Machine([], None, [], Some(e))
  }

  predicate Valid(m: Machine) {
    ValidOpen(m.open) && (m.err.Some? ==> m == Failure(m.err.value))
  }

  /** The result of one `processItem`: more items follow, a reply is complete, bytes are missing, or an error. */
  datatype Outcome =
    | Progress(m: Machine)
    | Finished(m: Machine, reply: Reply)
    | Stuck(m: Machine)
    | Failed(m: Machine)

  /** `moveToNextTask`: hand a complete value to the innermost open array, closing every array it fills. */
  function Deliver(open: seq<Frame>, reply: Reply, rest: seq<byte>): (r: Outcome)
    requires ValidOpen(open)
    ensures r.Progress? || r.Finished?
    ensures r.m.unread == rest && r.m.kind == None && r.m.err == None && Valid(r.m)
    ensures r.Finished? ==> r.m.open == []
    decreases |open|
  {
    if open == [] then Finished(Machine([], None, rest, None), reply)
    else
      var outer := open[..|open| - 1];
      var top := open[|open| - 1];
      var items := top.items + [reply];
      if |items| == top.count then Deliver(outer, Array(items), rest)
      else Progress(Machine(outer + [Frame(top.count, items)], None, rest, None))
  }

  /** Reading the item once its type is known. */
  function StepTyped(m: Machine): (r: Outcome)
    requires Valid(m) && m.kind.Some? && m.err.None?
    ensures Valid(r.m)
    ensures r.Progress? || r.Finished? ==> |r.m.unread| < |m.unread| && r.m.err == None && r.m.kind == None
    ensures r.Finished? ==> r.m.open == []
    ensures r.Stuck? ==> r.m == m
    ensures r.Failed? <==> r.m.err.Some?
  {
    match ReadItem(m.kind.value, m.unread, |m.open|)
    case Complete(reply, n) => Deliver(m.open, reply, m.unread[n..])
    case Opens(count, n) => Progress(Machine(m.open + [Frame(count, [])], None, m.unread[n..], None))
    case Short => Stuck(m)
    case Refused(e) => Failed(Failure(e))
  }

  /** `processItem`. */
  function Step(m: Machine): (r: Outcome)
    requires Valid(m) && m.err.None?
    ensures Valid(r.m)
    ensures r.Progress? || r.Finished? ==> |r.m.unread| < |m.unread| && r.m.err == None && r.m.kind == None
    ensures r.Finished? ==> r.m.open == []
    ensures r.Failed? <==> r.m.err.Some?
    ensures |r.m.unread| <= |m.unread|
  {
    if m.kind.Some? then StepTyped(m)
    else if m.unread == [] then Stuck(m)
    else if KindOf(m.unread[0]).None? then Failed(Failure(BadTypeByte(m.unread[0])))
    else StepTyped(m.(kind := KindOf(m.unread[0]), unread := m.unread[1..]))
  }

  /** `redisReaderGetReply`: a reply, no reply yet, or an error. */
  datatype Got = Emit(m: Machine, reply: Reply) | Idle(m: Machine) | Err(m: Machine)

  function Run(m: Machine): (r: Got)
    requires Valid(m) && m.err.None?
    ensures Valid(r.m)
    ensures r.Emit? ==> |r.m.unread| < |m.unread| && r.m.open == [] && r.m.kind == None
    ensures r.Err? <==> r.m.err.Some?
    decreases |m.unread|
  {
    match Step(m)
    case Progress(m') => Run(m')
    case Finished(m', reply) => Emit(m', reply)
    case Stuck(m') => Idle(m')
    case Failed(m') => Err(m')
  }

  function GetReply(m: Machine): (r: Got)
    requires Valid(m)
    ensures Valid(r.m)
    ensures r.Emit? ==> |r.m.unread| < |m.unread|
    ensures r.Err? <==> r.m.err.Some?
  {
    if m.err.Some? then Err(m) else Run(m)
  }

  /** `redisReaderFeed`: a reader in error takes no more bytes. */
  function Feed(m: Machine, x: seq<byte>): (r: Machine)
    ensures Valid(m) ==> Valid(r)
  {
    if m.err.Some? then m else m.(unread := m.unread + x)
  }

  datatype Drained = Drained(replies: seq<Reply>, m: Machine)

  /** Asking for replies until there is none. */
  function Drain(m: Machine): (r: Drained)
    requires Valid(m)
    ensures Valid(r.m)
    decreases |m.unread|
  {
    match GetReply(m)
    case Emit(m', reply) =>
      var d := Drain(m');
      Drained([reply] + d.replies, d.m)
    case Idle(m') => Drained([], m')
    case Err(m') => Drained([], m')
  }

  // ---------- chunk independence ----------

  lemma {:induction false} DeliverFeed(open: seq<Frame>, reply: Reply, rest: seq<byte>, x: seq<byte>)
    requires ValidOpen(open)
    ensures Deliver(open, reply, rest + x)
            == (match Deliver(open, reply, rest)
                case Progress(m) => Progress(Feed(m, x))
                case Finished(m, t) => Finished(Feed(m, x), t)
                case Stuck(m) => Stuck(m)
                case Failed(m) => Failed(m))
    decreases |open|
  {
    if open != [] {
      var top := open[|open| - 1];
      var items := top.items + [reply];
      if |items| == top.count {
        DeliverFeed(open[..|open| - 1], Array(items), rest, x);
      }
    }
  }

  lemma StepTypedFeed(m: Machine, x: seq<byte>)
    requires Valid(m) && m.kind.Some? && m.err.None? && !StepTyped(m).Stuck?
    ensures var a, b := StepTyped(m), StepTyped(Feed(m, x));
      && (a.Progress? ==> b == Progress(Feed(a.m, x)))
      && (a.Finished? ==> b == Finished(Feed(a.m, x), a.reply))
      && (a.Failed? ==> b == a)
  {
    hide Deliver, ReadItem;
    var item := ReadItem(m.kind.value, m.unread, |m.open|);
    ReadItemExtends(m.kind.value, m.unread, |m.open|, x);
    if item.Complete? {
      assert (m.unread + x)[item.size..] == m.unread[item.size..] + x;
      DeliverFeed(m.open, item.reply, m.unread[item.size..], x);
    } else if item.Opens? {
      assert (m.unread + x)[item.size..] == m.unread[item.size..] + x;
    }
  }

  /** One item: bytes that arrive later change nothing already decided, and a stuck item resumes. */
  lemma StepFeed(m: Machine, x: seq<byte>)
    requires Valid(m) && m.err.None?
    ensures var a, b := Step(m), Step(Feed(m, x));
      && (a.Progress? ==> b == Progress(Feed(a.m, x)))
      && (a.Finished? ==> b == Finished(Feed(a.m, x), a.reply))
      && (a.Failed? ==> b == a)
      && (a.Stuck? ==> b == Step(Feed(a.m, x)))
  {
    hide StepTyped;
    if m.kind.Some? {
      if !StepTyped(m).Stuck? {
        StepTypedFeed(m, x);
      }
    } else if m.unread != [] {
      assert (m.unread + x)[1..] == m.unread[1..] + x;
      if KindOf(m.unread[0]).Some? {
        var m1 := m.(kind := KindOf(m.unread[0]), unread := m.unread[1..]);
        assert Feed(m1, x) == Feed(m, x).(kind := m1.kind, unread := (m.unread + x)[1..]);
        if !StepTyped(m1).Stuck? {
          StepTypedFeed(m1, x);
        }
      }
    }
  }

  lemma {:induction false} RunFeed(m: Machine, x: seq<byte>)
    requires Valid(m) && m.err.None?
    ensures var a, b := Run(m), Run(Feed(m, x));
      && (a.Emit? ==> b == Emit(Feed(a.m, x), a.reply))
      && (a.Err? ==> b == a)
      && (a.Idle? ==> b == Run(Feed(a.m, x)))
    decreases |m.unread|
  {
    hide Step;
    StepFeed(m, x);
    var a := Step(m);
    if a.Progress? {
      RunFeed(a.m, x);
    } else if a.Stuck? {
      RunSame(Feed(m, x), Feed(a.m, x));
    }
  }

  lemma RunSame(m: Machine, m': Machine)
    requires Valid(m) && m.err.None? && Valid(m') && m'.err.None?
    requires Step(m) == Step(m')
    ensures Run(m) == Run(m')
  {
  }

  lemma DrainUnfold(m: Machine)
    requires Valid(m)
    ensures match GetReply(m)
            case Emit(m', reply) => Drain(m) == Drained([reply] + Drain(m').replies, Drain(m').m)
            case Idle(m') => Drain(m) == Drained([], m')
            case Err(m') => Drain(m) == Drained([], m')
  {
  }

  /** Asking for a reply before the bytes `x` arrive only moves that reply to the front. */
  lemma AskThenFeed(m: Machine, x: seq<byte>)
    requires Valid(m)
    ensures var got := GetReply(m);
      var later := Drain(Feed(got.m, x));
      Drain(Feed(m, x)) == (if got.Emit? then Drained([got.reply] + later.replies, later.m) else later)
  {
    hide Run, Drain;
    if m.err.None? {
      RunFeed(m, x);
      var got := Run(m);
      DrainUnfold(Feed(m, x));
      DrainUnfold(Feed(got.m, x));
      if got.Idle? {
        assert GetReply(Feed(m, x)) == GetReply(Feed(got.m, x));
      }
    }
  }

  /** What a caller does with a reader. */
  datatype Op = FeedOp(chunk: seq<byte>) | GetOp

  function BytesFed(ops: seq<Op>): seq<byte> {
    if ops == [] then []
    else (if ops[0].FeedOp? then ops[0].chunk else []) + BytesFed(ops[1..])
  }

  /** Runs `ops`, collecting the replies handed out on the way. */
  function Exec(m: Machine, ops: seq<Op>): (r: Drained)
    requires Valid(m)
    ensures Valid(r.m)
    decreases |ops|
  {
    if ops == [] then Drained([], m)
    else if ops[0].FeedOp? then Exec(Feed(m, ops[0].chunk), ops[1..])
    else
      var got := GetReply(m);
      var later := Exec(got.m, ops[1..]);
      Drained((if got.Emit? then [got.reply] else []) + later.replies, later.m)
  }

  /** All replies of a schedule that is drained at its end. */
  function ExecAll(m: Machine, ops: seq<Op>): Drained
    requires Valid(m)
  {
    var e := Exec(m, ops);
    var d := Drain(e.m);
    Drained(e.replies + d.replies, d.m)
  }

  lemma FeedFeed(m: Machine, x: seq<byte>, y: seq<byte>)
    ensures Feed(Feed(m, x), y) == Feed(m, x + y)
  {
    if m.err.None? {
      assert (m.unread + x) + y == m.unread + (x + y);
    }
  }

  lemma {:induction false} ExecIsOneFeed(m: Machine, ops: seq<Op>)
    requires Valid(m)
    ensures ExecAll(m, ops) == Drain(Feed(m, BytesFed(ops)))
    decreases |ops|
  {
    hide Drain, GetReply;
    if ops == [] {
      assert Feed(m, []) == m by { assert m.unread + [] == m.unread; }
    } else if ops[0].FeedOp? {
      ExecIsOneFeed(Feed(m, ops[0].chunk), ops[1..]);
      FeedFeed(m, ops[0].chunk, BytesFed(ops[1..]));
    } else {
      var got := GetReply(m);
      ExecIsOneFeed(got.m, ops[1..]);
      AskThenFeed(m, BytesFed(ops[1..]));
      assert BytesFed(ops) == BytesFed(ops[1..]);
      var later := ExecAll(got.m, ops[1..]);
      if got.Emit? {
        assert ExecAll(m, ops).replies == [got.reply] + later.replies;
      } else {
        assert ExecAll(m, ops).replies == later.replies;
      }
    }
  }

  /** Chunk independence: any interleaving of feeds and asks, drained at the end, hands out the replies
      of one single feed, in order, and ends in the very same state, or in the same error. */
  lemma ChunkIndependence(ops: seq<Op>)
    ensures ExecAll(FRESH, ops) == Drain(Feed(FRESH, BytesFed(ops)))
  {
    ExecIsOneFeed(FRESH, ops);
  }

  // ---------- the machine implements the grammar ----------

  /** What a run does after a value was delivered. */
  function Resume(o: Outcome): Got
    requires (o.Progress? || o.Finished?) && Valid(o.m) && o.m.err.None?
  {
    if o.Progress? then Run(o.m) else Emit(o.m, if o.Finished? then o.reply else Nil)
  }

  lemma RunStep(m: Machine)
    requires Valid(m) && m.err.None?
    ensures match Step(m)
            case Progress(m') => Run(m) == Run(m')
            case Finished(m', reply) => Run(m) == Emit(m', reply)
            case Stuck(m') => Run(m) == Idle(m')
            case Failed(m') => Run(m) == Err(m')
  {
  }

  /** From a fresh item, the machine does what the reference parser says of the unread bytes. */
  lemma {:induction false} RunParses(m: Machine)
    requires Valid(m) && m.err.None? && m.kind.None?
    ensures match ParseReply(m.unread, |m.open|)
            case Ok(t, n) => Run(m) == Resume(Deliver(m.open, t, m.unread[n..]))
            case More => Run(m).Idle?
            case Bad(e) => Run(m).Err? && Run(m).m.err == Some(e)
    decreases |m.unread|, 0
  {
    hide Run, ReadItem, Deliver, ParseMany;
    RunStep(m);
    var s := m.unread;
    if s != [] && KindOf(s[0]).Some? {
      var item := ReadItem(KindOf(s[0]).value, s[1..], |m.open|);
      if item.Complete? {
        assert s[1..][item.size..] == s[item.size + 1..];
      } else if item.Opens? {
        assert s[1..][item.size..] == s[item.size + 1..];
        var m1 := Machine(m.open + [Frame(item.count, [])], None, s[item.size + 1..], None);
        assert Step(m) == Progress(m1);
        RunParsesMany(m1);
        assert m1.open[..|m1.open| - 1] == m.open;
        var list := ParseMany(m1.unread, item.count, |m1.open|);
        if list.AllOk? {
          assert [] + list.items == list.items;
          assert m1.unread[list.size..] == s[item.size + 1 + list.size..];
        }
      }
    }
  }

  /** With an array open, the machine fills and closes it as the reference parser reads its elements. */
  lemma {:induction false} RunParsesMany(m: Machine)
    requires Valid(m) && m.err.None? && m.kind.None? && m.open != []
    ensures var top := m.open[|m.open| - 1];
      match ParseMany(m.unread, top.count - |top.items|, |m.open|)
      case AllOk(ts, n) =>
        Run(m) == Resume(Deliver(m.open[..|m.open| - 1], Array(top.items + ts), m.unread[n..]))
      case ListMore => Run(m).Idle?
      case ListBad(e) => Run(m).Err? && Run(m).m.err == Some(e)
    decreases |m.unread|, 1
  {
    hide Run, ParseReply, ParseMany, Deliver;
    RunParses(m);
    var s := m.unread;
    var outer, top := m.open[..|m.open| - 1], m.open[|m.open| - 1];
    ParseManyUnfold(s, top.count - |top.items|, |m.open|);
    var p := ParseReply(s, |m.open|);
    if p.Ok? {
      var rest := s[p.size..];
      var items := top.items + [p.reply];
      DeliverUnfold(m.open, p.reply, rest);
      if |items| == top.count {
        ParseNone(rest, |m.open|);
        assert [p.reply] + [] == [p.reply];
      } else {
        var m1 := Machine(outer + [Frame(top.count, items)], None, rest, None);
        RunParsesMany(m1);
        assert m1.open[..|m1.open| - 1] == outer;
        var list := ParseMany(rest, top.count - |items|, |m.open|);
        if list.AllOk? {
          Regroup(top.items, [p.reply], list.items);
          assert rest[list.size..] == s[p.size + list.size..];
        }
      }
    }
  }

  lemma DeliverUnfold(open: seq<Frame>, reply: Reply, rest: seq<byte>)
    requires ValidOpen(open) && open != []
    ensures var outer, top := open[..|open| - 1], open[|open| - 1];
      var items := top.items + [reply];
      Deliver(open, reply, rest) ==
        if |items| == top.count then Deliver(outer, Array(items), rest)
        else Progress(Machine(outer + [Frame(top.count, items)], None, rest, None))
  {
  }

  lemma ParseNone(s: seq<byte>, depth: nat)
    ensures ParseMany(s, 0, depth) == AllOk([], 0)
  {
  }

  lemma ParseManyUnfold(s: seq<byte>, count: nat, depth: nat)
    requires count > 0
    ensures match ParseReply(s, depth)
            case More => ParseMany(s, count, depth) == ListMore
            case Bad(e) => ParseMany(s, count, depth) == ListBad(e)
            case Ok(reply, n) =>
              var rest := ParseMany(s[n..], count - 1, depth);
              ParseMany(s, count, depth) == if rest.AllOk? then AllOk([reply] + rest.items, n + rest.size) else rest
  {
    hide ParseReply;
  }

  /** A fresh reader fed `s` hands out exactly the replies the grammar finds in `s`, and fails exactly
      when and how the grammar does. */
  lemma {:induction false} DrainParses(s: seq<byte>)
    ensures var d, p := Drain(Feed(FRESH, s)), ParseStream(s);
      && d.replies == p.replies
      && d.m.err == (if p.tail.Broken? then Some(p.tail.error) else None)
    decreases |s|
  {
    hide Run, ParseReply, Drain;
    var m := Feed(FRESH, s);
    assert [] + s == s;
    RunParses(m);
    DrainUnfold(m);
    var p := ParseReply(s, 0);
    if p.Ok? {
      DrainParses(s[p.size..]);
      assert [] + s[p.size..] == s[p.size..];
    }
  }

  /** RESP round trip through the machine, for every way of cutting the bytes: exactly the encoded
      replies come out, in order, and no byte is left over. */
  lemma ReaderRoundTrip(ts: seq<Reply>, ops: seq<Op>)
    requires forall i :: 0 <= i < |ts| ==> Encodable(ts[i]) && Fits(ts[i], MAX_DEPTH)
    requires BytesFed(ops) == EncodeAll(ts)
    ensures ExecAll(FRESH, ops) == Drained(ts, FRESH)
  {
    hide Run, ParseReply, Drain, Exec;
    var s := EncodeAll(ts);
    ChunkIndependence(ops);
    DrainConsumes(ts, []);
    assert s + [] == s;
    assert Feed(FRESH, []) == FRESH;
    DrainFresh();
    assert ts + [] == ts;
  }

  lemma DrainFresh()
    ensures Drain(FRESH) == Drained([], FRESH)
  {
  }

  /** Draining encoded replies followed by `rest` is draining `rest` after handing those replies out. */
  lemma {:induction false} DrainConsumes(ts: seq<Reply>, rest: seq<byte>)
    requires forall i :: 0 <= i < |ts| ==> Encodable(ts[i]) && Fits(ts[i], MAX_DEPTH)
    ensures var d, e := Drain(Feed(FRESH, EncodeAll(ts) + rest)), Drain(Feed(FRESH, rest));
      d.replies == ts + e.replies && d.m == e.m
  {
    hide EncodeAll, Encode, Encodable, Fits, Drain;
    if ts == [] {
      NothingEncoded(rest);
      assert [] + Drain(Feed(FRESH, rest)).replies == Drain(Feed(FRESH, rest)).replies;
    } else {
      DrainHead(ts, rest);
      DrainConsumes(ts[1..], rest);
      Reassemble(ts, Drain(Feed(FRESH, rest)).replies);
    }
  }

  lemma NothingEncoded(rest: seq<byte>)
    ensures EncodeAll([]) + rest == rest
  {
  }

  lemma Reassemble(ts: seq<Reply>, more: seq<Reply>)
    requires ts != []
    ensures [ts[0]] + (ts[1..] + more) == ts + more
  {
  }

  /** The first of some encoded replies is handed out first. */
  lemma DrainHead(ts: seq<Reply>, rest: seq<byte>)
    requires ts != [] && Encodable(ts[0]) && Fits(ts[0], MAX_DEPTH)
    ensures var d := Drain(Feed(FRESH, EncodeAll(ts[1..]) + rest));
      Drain(Feed(FRESH, EncodeAll(ts) + rest)) == Drained([ts[0]] + d.replies, d.m)
  {
    hide ParseReply, Drain, Encode, EncodeAll, Encodable, Fits, Feed;
    var tail := EncodeAll(ts[1..]) + rest;
    EncodeAllCons(ts, rest);
    ReplyRoundTrip(ts[0], tail, 0);
    DrainCons(EncodeAll(ts) + rest, ts[0], |Encode(ts[0])|, tail);
  }

  lemma DrainCons(s: seq<byte>, t: Reply, n: nat, tail: seq<byte>)
    requires ParseReply(s, 0) == Ok(t, n) && s[n..] == tail
    ensures var d := Drain(Feed(FRESH, tail));
      Drain(Feed(FRESH, s)) == Drained([t] + d.replies, d.m)
  {
    hide Run, ParseReply, Drain;
    var m := Feed(FRESH, s);
    assert [] + s == s && [] + tail == tail;
    RunParses(m);
    DrainUnfold(m);
  }

  /** An array under eight array ancestors is fatal: however the rest of the stream is cut, no reply comes out
      any more and the reader ends in that error. */
  lemma NinthLevelIsFatal(m: Machine, ops: seq<Op>)
    requires Valid(m) && m.err.None? && m.kind.None? && |m.open| == MAX_DEPTH
    requires m.unread + BytesFed(ops) != [] && (m.unread + BytesFed(ops))[0] == STAR
    ensures ExecAll(m, ops) == Drained([], Failure(TooDeep))
  {
    hide Exec, BytesFed;
    ExecIsOneFeed(m, ops);
    var n := Feed(m, BytesFed(ops));
    assert Run(n) == Err(Failure(TooDeep));
    DrainUnfold(n);
  }

  // ---------- incremental use ----------

  /** Draining before the bytes `x` arrive, and again after, hands out what one drain at the end does. */
  lemma {:induction false} DrainThenFeed(m: Machine, x: seq<byte>)
    requires Valid(m)
    ensures var d := Drain(m);
      var later := Drain(Feed(d.m, x));
      Drain(Feed(m, x)) == Drained(d.replies + later.replies, later.m)
    decreases |m.unread|
  {
    hide GetReply, Drain;
    AskThenFeed(m, x);
    DrainUnfold(m);
    var got := GetReply(m);
    var d := Drain(m);
    if got.Emit? {
      DrainThenFeed(got.m, x);
      var rest := Drain(got.m);
      var later := Drain(Feed(d.m, x));
      assert [got.reply] + (rest.replies + later.replies) == d.replies + later.replies;
    } else {
      assert d.replies + Drain(Feed(d.m, x)).replies == Drain(Feed(d.m, x)).replies;
    }
  }

  /** One more chunk for a reader whose drained history is `before`. */
  lemma NextChunk(s: seq<byte>, x: seq<byte>, before: Drained)
    requires Valid(before.m) && Drain(Feed(FRESH, s)) == before
    ensures var later := Drain(Feed(before.m, x));
      Drain(Feed(FRESH, s + x)) == Drained(before.replies + later.replies, later.m)
  {
    hide Drain;
    FeedFeed(FRESH, s, x);
    var m := Feed(FRESH, s);
    DrainThenFeed(m, x);
  }

  /** One more chunk for a reader some of whose replies, `given`, have been handed out. */
  lemma FeedBehaves(a: seq<byte>, x: seq<byte>, given: seq<Reply>, reader: Machine)
    requires Valid(reader)
    requires var d := Drain(reader);
      Drain(Feed(FRESH, a)) == Drained(given + d.replies, d.m)
    ensures var d := Drain(Feed(reader, x));
      Drain(Feed(FRESH, a + x)) == Drained(given + d.replies, d.m)
  {
    hide Drain, Valid, Feed, FRESH, Step, Run, GetReply;
    var d := Drain(reader);
    NextChunk(a, x, Drained(given + d.replies, d.m));
    DrainThenFeed(reader, x);
    Regroup(given, d.replies, Drain(Feed(d.m, x)).replies);
  }

  /** A reader asked once more: the reply it hands out joins those handed out before. */
  lemma AskBehaves(s: seq<byte>, given: seq<Reply>, reader: Machine)
    requires Valid(reader)
    requires var d := Drain(reader);
      Drain(Feed(FRESH, s)) == Drained(given + d.replies, d.m)
    ensures var got := GetReply(reader);
      var given' := if got.Emit? then given + [got.reply] else given;
      Drain(Feed(FRESH, s)) == Drained(given' + Drain(got.m).replies, Drain(got.m).m)
  {
    hide Drain, Valid, Feed, FRESH, Step, Run, GetReply;
    DrainUnfold(reader);
    var got := GetReply(reader);
    if got.Emit? {
      Regroup(given, [got.reply], Drain(got.m).replies);
    } else {
      IdleIsDrained(reader);
    }
  }

  lemma Regroup(a: seq<Reply>, b: seq<Reply>, c: seq<Reply>)
    ensures (a + b) + c == a + (b + c)
  {
  }

  /** After a request that found no reply, there is none to drain. */
  lemma IdleIsDrained(m: Machine)
    requires Valid(m) && !GetReply(m).Emit?
    ensures Drain(GetReply(m).m) == Drained([], GetReply(m).m)
  {
    hide Run;
    var got := GetReply(m);
    if got.Idle? {
      RunFeed(m, []);
      assert m.unread + [] == m.unread && got.m.unread + [] == got.m.unread;
      assert Feed(m, []) == m && Feed(got.m, []) == got.m;
    }
  }
}
