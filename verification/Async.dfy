/** The asynchronous engine of async.c: commands, replies, disconnection and teardown of one context,
    under callbacks that call back into the engine. */
module Async {
  import opened Bytes
  import opened Resp
  import M = ReaderMachine
  import L = CallbackList
  import C = Command

  const ERR_IO := 1
  const ERR_OTHER := 2
  const ERR_EOF := 3
  const ERR_PROTOCOL := 4

  /** What application code does with a context. */
  datatype Action = Send(cb: L.Callback, argv: seq<seq<byte>>) | Free | Disconnect

  /** A callback that has left the queue, with the reply it was due (None is the NULL reply). */
  datatype Settled = Settled(cb: L.Callback, reply: Option<Reply>)

  datatype SocketRead = Bytes(data: seq<byte>) | ReadAgain | Eof | ReadFailed
  /** `Room(n)`: the socket takes up to `n` bytes. */
  datatype SocketWrite = Room(n: nat) | WriteAgain | WriteFailed
  datatype SocketCheck = Established | InProgress | Refused

  function Callbacks(s: seq<Settled>): (r: seq<L.Callback>)
    ensures |r| == |s| && forall i :: 0 <= i < |s| ==> r[i] == s[i].cb
  {
    seq(|s|, i requires 0 <= i < |s| => s[i].cb)
  }

  /** The callbacks that are functions: those that have to run. */
  function Runnable(s: seq<Settled>): seq<Settled> {
    if s == [] then []
    else Runnable(s[..|s| - 1]) + (if s[|s| - 1].cb.fn != 0 then [s[|s| - 1]] else [])
  }

  lemma RunnableSnoc(s: seq<Settled>, x: Settled)
    ensures Runnable(s + [x]) == Runnable(s) + (if x.cb.fn != 0 then [x] else [])
  {
    assert (s + [x])[..|s + [x]| - 1] == s;
  }

  predicate Sendable(argv: seq<seq<byte>>) {
    C.IsRegular(C.InMemory(argv))
  }

  predicate ScriptOk(script: seq<Action>) {
    forall i :: 0 <= i < |script| && script[i].Send? ==> Sendable(script[i].argv)
  }

  /** A connection: no check made, a check found it in progress, established, or lost with its context. */
  datatype Link = Fresh | Pending | Up | Lost

  /** What a check makes of a connection; on an established one none is made. */
  function NextLink(link: Link, check: SocketCheck): Link {
    if link.Up? || link.Lost? then link
    else
      match check
      case Established => if link.Fresh? then Up else Lost
      case InProgress => Pending
      case Refused => Lost
  }

  /** How many of `len` buffered bytes a write takes. */
  function Taken(res: SocketWrite, len: nat): (n: nat)
    ensures n <= len && (res.Room? ==> n <= res.n && (n == len || n == res.n)) && (!res.Room? ==> n == 0)
  {
    if res.Room? then (if res.n < len then res.n else len) else 0
  }

  predicate OnlySends(script: seq<Action>) {
    forall i :: 0 <= i < |script| ==> script[i].Send?
  }

  /** A connect callback that only sends never releases the context. */
  lemma {:induction false} SendingNeverFrees(script: seq<Action>, idle: bool, closing: bool)
    requires OnlySends(script)
    ensures !ScriptFrees(script, idle, closing)
    decreases |script|
  {
    if script != [] {
      assert script[0].Send?;
      SendingNeverFrees(script[1..], idle && closing, closing);
    }
  }

  /** Whether actions run outside a callback end in the release of the context: a free always does, a
      disconnect does when nothing is pending, and an accepted command makes something pending. */
  predicate ScriptFrees(script: seq<Action>, idle: bool, closing: bool) {
    script != [] &&
    match script[0]
    case Free => true
    case Disconnect => idle || ScriptFrees(script[1..], idle, true)
    case Send(_, _) => ScriptFrees(script[1..], idle && closing, closing)
  }

  class AsyncContext {
    // c->flags
    var connected: bool
    var disconnecting: bool
    var freeing: bool
    var inCallback: bool
    // c->err, ac->err
    var cerr: int
    var err: int
    var obuf: seq<byte>
    var reader: M.Machine
    const replies: L.CallbackList
    /** `ac->sub.channels != NULL`: teardown has not passed its point of no return. */
    var hasChannels: bool
    /** `redisFree` was called on the context. */
    var released: bool

    /** The application: what the n-th run of a reply callback does, and the connection callbacks. */
    const behave: nat -> seq<Action>
    var turn: nat
    const onConnect: Option<seq<Action>>
    const onDisconnect: Option<seq<Action>>

    /** Everything that was accepted, everything that left the queue, everything that was run. */
    ghost var pushed: seq<L.Callback>
    ghost var settled: seq<Settled>
    ghost var runs: seq<Settled>
    /** The bytes that reached the reader, and the replies dispatched so far. */
    ghost var received: seq<byte>
    ghost var answers: seq<Reply>
    /** The bytes accepted and written, and the disconnect statuses reported. */
    ghost var accepted: seq<byte>
    ghost var written: seq<byte>
    ghost var disconnects: seq<bool>

    ghost predicate Closing()
      reads this
    {
      disconnecting || freeing
    }

    ghost predicate Valid()
      reads this, replies, replies.Repr
    {
      && replies.Valid() && this !in replies.Repr
      && M.Valid(reader)
      && (forall n :: ScriptOk(behave(n)))
      && (onConnect.Some? ==> ScriptOk(onConnect.value))
      && (onDisconnect.Some? ==> ScriptOk(onDisconnect.value))
      && (!hasChannels ==> replies.contents == [] && Closing())
      && (released ==> !hasChannels)
      && |disconnects| == (if !hasChannels && onDisconnect.Some? && connected then 1 else 0)
      && (FreedByReply() ==> freeing)
    }

    /** One of the reply callbacks run so far freed the context. */
    ghost predicate FreedByReply()
      reads this
    {
      exists n :: 0 <= n < turn && Free in behave(n)
    }

    /** The status the disconnect callback was given, if one is set and the context was connected. */
    ghost predicate Reported(status: bool)
      reads this
    {
      disconnects == if onDisconnect.Some? && connected then [status] else []
    }

    /** A clean disconnect has nothing left to wait for. */
    ghost predicate Finished()
      reads this, replies
    {
      disconnecting && obuf == [] && replies.contents == []
    }

    /** Conservation: what was pushed is what was settled followed by what is pending; the settled ones got
        the replies in order and, in teardown only, NULL; all bytes accepted were written or are buffered. */
    ghost predicate Conserved()
      reads this, replies, replies.Repr
    {
      && pushed == Callbacks(settled) + replies.contents
      && |answers| <= |settled|
      && (forall k :: 0 <= k < |answers| ==> settled[k].reply == Some(answers[k]))
      && (forall k :: |answers| <= k < |settled| ==> settled[k].reply == None)
      && (|answers| < |settled| ==> Closing())
      && written + obuf == accepted
    }

    ghost predicate Consistent()
      reads this, replies, replies.Repr
    {
      Valid() && Conserved() && runs == Runnable(settled)
    }

    /** `redisAsyncInitialize`. */
    constructor (behave: nat -> seq<Action>, onConnect: Option<seq<Action>>, onDisconnect: Option<seq<Action>>)
      requires forall n :: ScriptOk(behave(n))
      requires onConnect.Some? ==> ScriptOk(onConnect.value)
      requires onDisconnect.Some? ==> ScriptOk(onDisconnect.value)
      ensures Ready() && fresh(replies.Repr) && !connected && !Closing() && cerr == 0
      ensures pushed == [] && answers == [] && replies.contents == [] && reader == M.FRESH
      ensures received == accepted == written == obuf == []
      ensures this.behave == behave && this.onConnect == onConnect && this.onDisconnect == onDisconnect
    {
      hide M.Drain, ScriptOk, Callbacks;
      connected, disconnecting, freeing, inCallback := false, false, false, false;
      cerr, err, obuf, reader, turn := 0, 0, [], M.FRESH, 0;
      replies := new L.CallbackList();
      hasChannels, released := true, false;
      this.behave, this.onConnect, this.onDisconnect := behave, onConnect, onDisconnect;
      pushed, settled, runs, answers, accepted, written, disconnects := [], [], [], [], [], [], [];
      received := [];
      new;
      M.DrainFresh();
    }

    /** `__redisAsyncCommand` for a regular command: refused once the context is closing. */
    method AsyncCommand(cb: L.Callback, argv: seq<seq<byte>>) returns (ok: bool)
      requires Consistent() && !released && Sendable(argv)
      modifies this`obuf, this`pushed, this`accepted, replies.Repr
      ensures Consistent() && fresh(replies.Repr - old(replies.Repr))
      ensures ok == !Closing()
      ensures replies.contents == old(replies.contents) + (if ok then [cb] else [])
      ensures pushed == old(pushed) + (if ok then [cb] else [])
      ensures accepted == old(accepted) + (if ok then C.Format(argv) else [])
      ensures obuf == old(obuf) + (if ok then C.Format(argv) else [])
    {
      hide C.Format, C.IsRegular;
      if disconnecting || freeing {
        return false;
      }
      replies.Push(cb);
      obuf := obuf + C.Format(argv);
      pushed := pushed + [cb];
      accepted := accepted + C.Format(argv);
      ok := true;
    }

    /** The reader, what it was fed and what was dispatched from it are as before, and nothing was written. */
    twostate predicate SameInput()
      reads this
    {
      reader == old(reader) && received == old(received) && answers == old(answers) && written == old(written)
    }

    /** Nothing happened but flags set and, before closing, commands queued. */
    twostate predicate Kept()
      reads this, replies, replies.Repr
    {
      KeptButErr() && err == old(err)
    }

    twostate predicate KeptButErr()
      reads this, replies, replies.Repr
    {
      && settled == old(settled) && runs == old(runs) && SameInput()
      && cerr == old(cerr) && connected == old(connected) && turn == old(turn)
      && released == old(released) && hasChannels == old(hasChannels) && inCallback == old(inCallback)
      && written == old(written) && disconnects == old(disconnects)
      && (old(Closing()) ==> Closing() && replies.contents == old(replies.contents) && pushed == old(pushed))
      && old(replies.contents) <= replies.contents && (err == old(err) || err == cerr)
      && (old(freeing) ==> freeing) && (old(disconnecting) ==> disconnecting)
    }

    /** No reply callback calls back into the engine. */
    ghost predicate Quiet() {
      forall n :: behave(n) == []
    }

    lemma QuietNeverFrees()
      ensures Quiet() ==> !FreedByReply()
    {
    }

    /** What is queued, buffered and flagged is as before. */
    twostate predicate Untouched()
      reads this, replies, replies.Repr
    {
      && pushed == old(pushed) && accepted == old(accepted) && obuf == old(obuf)
      && replies.contents == old(replies.contents)
      && freeing == old(freeing) && disconnecting == old(disconnecting)
    }

    /** The body of a reply callback: it may send, free and disconnect, and none of these releases the context. */
    method RunInCallback(script: seq<Action>)
      requires Consistent() && !released && inCallback && ScriptOk(script)
      modifies this, replies.Repr
      ensures Consistent() && fresh(replies.Repr - old(replies.Repr)) && Kept()
      ensures script == [] ==> Untouched()
      ensures freeing == (old(freeing) || Free in script)
      decreases hasChannels, 2
    {
      hide Runnable, M.Valid, Callbacks;
      for i := 0 to |script|
        invariant Consistent() && fresh(replies.Repr - old(replies.Repr)) && Kept()
        invariant script == [] ==> Untouched()
        invariant freeing == (old(freeing) || Free in script[..i])
      {
        assert script[..i + 1] == script[..i] + [script[i]];
        Act(script[i]);
      }
      assert script[..|script|] == script;
    }

    /** `__redisRunCallback`, on the callback settled last. */
    method RunCallback(cb: L.Callback, ghost reply: Option<Reply>)
      requires Valid() && Conserved() && !released && !inCallback
      requires settled != [] && settled[|settled| - 1] == Settled(cb, reply)
      requires runs == Runnable(settled[..|settled| - 1])
      modifies this, replies.Repr
      ensures Consistent() && fresh(replies.Repr - old(replies.Repr))
      ensures cb.fn == 0 ==> runs == old(runs)
      ensures cb.fn != 0 ==> runs == old(runs) + [Settled(cb, reply)]
      ensures settled == old(settled) && SameInput() && cerr == old(cerr)
      ensures !released && !inCallback && hasChannels == old(hasChannels) && connected == old(connected)
      ensures err == old(err)
      ensures (old(freeing) ==> freeing) && (old(disconnecting) ==> disconnecting)
      ensures written == old(written) && disconnects == old(disconnects)
      ensures old(Closing()) ==> Closing() && replies.contents == old(replies.contents) && pushed == old(pushed)
      ensures Quiet() ==> Untouched()
      ensures (freeing ==> old(freeing) || FreedByReply()) && (old(FreedByReply()) ==> FreedByReply())
      decreases hasChannels, 3
    {
      hide Valid, Conserved, Runnable;
      assert settled == settled[..|settled| - 1] + [Settled(cb, reply)];
      RunnableSnoc(settled[..|settled| - 1], Settled(cb, reply));
      if cb.fn != 0 {
        Enter(cb, reply);
        RunInCallback(behave(turn));
        Exit();
      }
    }

    /** The callback starts: its body runs with the IN_CALLBACK flag set. */
    method Enter(cb: L.Callback, ghost reply: Option<Reply>)
      requires Valid() && Conserved() && runs + [Settled(cb, reply)] == Runnable(settled)
      modifies this`runs, this`inCallback
      ensures Consistent() && inCallback && runs == old(runs) + [Settled(cb, reply)] && ScriptOk(behave(turn))
    {
      hide Runnable, M.Valid, Callbacks;
      runs := runs + [Settled(cb, reply)];
      inCallback := true;
    }

    method Exit()
      requires Consistent() && (Free in behave(turn) ==> freeing)
      modifies this`inCallback, this`turn
      ensures Consistent() && !inCallback && turn == old(turn) + 1
      ensures FreedByReply() == (old(FreedByReply()) || Free in behave(old(turn)))
    {
      hide Runnable, M.Valid, Callbacks;
      inCallback := false;
      turn := turn + 1;
    }

    /** `__redisShiftCallback` on the reply queue, recording what the callback is due. */
    method TakePending(ghost reply: Option<Reply>) returns (ok: bool, cb: L.Callback)
      requires Consistent() && (reply.None? ==> Closing()) && (reply.Some? ==> |answers| == |settled|)
      modifies replies.Repr, this`settled, this`answers
      ensures Valid() && Conserved() && replies.Repr == old(replies.Repr)
      ensures ok == (old(replies.contents) != [])
      ensures !ok ==> Consistent() && settled == old(settled) && answers == old(answers) && replies.contents == []
      ensures ok ==> settled == old(settled) + [Settled(cb, reply)] && runs == Runnable(settled[..|settled| - 1])
      ensures ok ==> answers == old(answers) + (if reply.Some? then [reply.value] else [])
      ensures ok ==> |replies.contents| == |old(replies.contents)| - 1
    {
      hide Runnable, M.Valid;
      ok, cb := replies.Shift();
      if ok {
        assert Callbacks(settled + [Settled(cb, reply)]) == Callbacks(settled) + [cb];
        assert (settled + [Settled(cb, reply)])[..|settled|] == settled;
        settled := settled + [Settled(cb, reply)];
        if reply.Some? {
          answers := answers + [reply.value];
        }
      }
    }

    /** The drain of `__redisAsyncFree`: every pending callback gets the NULL reply; since the context is
        closing none of them can queue another, so the queue shrinks. */
    method DrainPending()
      requires Consistent() && !released && !inCallback && Closing()
      modifies this, replies.Repr
      ensures Consistent() && fresh(replies.Repr - old(replies.Repr))
      ensures replies.contents == [] && pushed == old(pushed) && Closing()
      ensures SameInput() && cerr == old(cerr) && connected == old(connected)
      ensures err == old(err) && (old(freeing) ==> freeing) && (old(disconnecting) ==> disconnecting)
      ensures !released && !inCallback && hasChannels == old(hasChannels) && disconnects == old(disconnects)
      ensures !old(hasChannels) ==> Kept() && freeing == old(freeing) && disconnecting == old(disconnecting)
      ensures (freeing ==> old(freeing) || FreedByReply()) && (old(FreedByReply()) ==> FreedByReply())
      ensures old(replies.contents) == [] ==> turn == old(turn)
      decreases hasChannels, 4
    {
      hide Runnable, M.Valid, Conserved;
      while true
        invariant Consistent() && fresh(replies.Repr - old(replies.Repr)) && Closing() && pushed == old(pushed)
        invariant SameInput() && cerr == old(cerr) && connected == old(connected)
        invariant !released && !inCallback && hasChannels == old(hasChannels) && disconnects == old(disconnects)
        invariant err == old(err) && (old(freeing) ==> freeing) && (old(disconnecting) ==> disconnecting)
        invariant !hasChannels ==> Kept() && freeing == old(freeing) && disconnecting == old(disconnecting)
        invariant (freeing ==> old(freeing) || FreedByReply()) && (old(FreedByReply()) ==> FreedByReply())
        invariant old(replies.contents) == [] ==> turn == old(turn) && replies.contents == []
        decreases |replies.contents|
      {
        var ok, cb := TakePending(None);
        if !ok {
          return;
        }
        RunCallback(cb, None);
      }
    }

    /** `__redisAsyncFree`. A second entry, from the disconnect callback, finds the channels gone and returns. */
    method AsyncFreeImpl()
      requires Consistent() && !released && !inCallback && Closing()
      modifies this, replies.Repr
      ensures Consistent() && fresh(replies.Repr - old(replies.Repr))
      ensures released == old(hasChannels) && !hasChannels && !inCallback && replies.contents == []
      ensures connected == old(connected)
      ensures pushed == old(pushed) && SameInput()
      ensures (old(freeing) ==> freeing) && (old(disconnecting) ==> disconnecting)
      ensures old(hasChannels) ==> Reported(old(freeing) || old(err) == 0 || FreedByReply())
      ensures (old(FreedByReply()) ==> FreedByReply()) && cerr == old(cerr) && (err == old(err) || err == cerr)
      ensures old(replies.contents) == [] ==> turn == old(turn)
      ensures !old(hasChannels) ==> Kept() && freeing == old(freeing) && disconnecting == old(disconnecting)
      decreases hasChannels, 5
    {
      hide Valid, Conserved, Consistent, ScriptOk;
      DrainPending();
      FreedIsFreeing();
      if !hasChannels {
        return;
      }
      CloseChannels();
      if onDisconnect.Some? && connected {
        RunOutside(onDisconnect.value);
      }
      Release();
    }

    /** The point of no return of a teardown, with the status for the disconnect callback. */
    method CloseChannels()
      requires Consistent() && hasChannels && Closing() && replies.contents == []
      modifies this`hasChannels, this`disconnects
      ensures Consistent() && !hasChannels && Reported(freeing || err == 0)
      ensures onDisconnect.Some? ==> ScriptOk(onDisconnect.value)
    {
      hide Runnable, M.Valid, Callbacks;
      hasChannels := false;
      if onDisconnect.Some? && connected {
        disconnects := disconnects + [freeing || err == 0];
      }
    }

    method Release()
      requires Consistent() && !hasChannels
      modifies this`released
      ensures Consistent() && released
    {
      hide Runnable, M.Valid, Callbacks;
      released := true;
    }

    lemma FreedIsFreeing()
      requires Consistent()
      ensures FreedByReply() ==> freeing
    {
    }

    /** `redisAsyncFree`: inside a callback it only sets the flag. */
    method RedisAsyncFree()
      requires Consistent() && !released
      modifies this, replies.Repr
      ensures Consistent() && fresh(replies.Repr - old(replies.Repr)) && freeing
      ensures old(inCallback) || !old(hasChannels) ==> Kept() && replies.contents == old(replies.contents)
      ensures !old(inCallback) && old(hasChannels) ==> released && replies.contents == [] && !inCallback
      ensures released ==> Reported(true)
      ensures pushed == old(pushed) && SameInput() && connected == old(connected)
      decreases hasChannels, if inCallback then 0 else 7
    {
      hide Runnable, M.Valid, Callbacks;
      freeing := true;
      if !inCallback {
        AsyncFreeImpl();
      }
    }

    /** `__redisAsyncDisconnect`: the assertion on clean disconnects holds. */
    method AsyncDisconnectImpl()
      requires Consistent() && !released && !inCallback
      requires cerr == 0 ==> replies.contents == [] && Closing()
      modifies this, replies.Repr
      ensures Consistent() && fresh(replies.Repr - old(replies.Repr))
      ensures released == old(hasChannels) && !hasChannels && !inCallback && replies.contents == []
      ensures connected == old(connected)
      ensures pushed == old(pushed) && SameInput()
      ensures (old(freeing) ==> freeing) && (old(disconnecting) ==> disconnecting)
      ensures !old(hasChannels) ==> KeptButErr() && freeing == old(freeing)
      ensures err == cerr == old(cerr)
      ensures old(hasChannels) ==> Reported(old(freeing) || old(cerr) == 0 || FreedByReply())
      ensures old(replies.contents) == [] ==> turn == old(turn)
      decreases hasChannels, 6
    {
      hide Runnable, M.Valid, Callbacks;
      err := cerr;
      if err == 0 {
        var ok, cb := replies.Shift();
        assert !ok;
      } else {
        disconnecting := true;
      }
      AsyncFreeImpl();
    }

    /** `redisAsyncDisconnect`: immediate only outside callbacks with nothing pending. */
    method RedisAsyncDisconnect()
      requires Consistent() && !released
      modifies this, replies.Repr
      ensures Consistent() && fresh(replies.Repr - old(replies.Repr)) && disconnecting
      ensures old(inCallback) ==> Kept() && replies.contents == old(replies.contents)
      ensures !old(hasChannels) || old(replies.contents) != [] ==>
        KeptButErr() && replies.contents == old(replies.contents)
      ensures !old(inCallback) && old(hasChannels) && old(replies.contents) == [] ==>
        released && !inCallback && replies.contents == []
      ensures !released ==> freeing == old(freeing)
      ensures released ==> Reported(old(freeing) || old(cerr) == 0)
      ensures pushed == old(pushed) && SameInput() && connected == old(connected)
      decreases hasChannels, if inCallback then 0 else 7
    {
      hide Runnable, M.Valid, Callbacks;
      disconnecting := true;
      var empty := replies.IsEmpty();
      if !inCallback && empty {
        AsyncDisconnectImpl();
      }
    }

    /** One action of the application. */
    method Act(action: Action)
      requires Consistent() && !released && (action.Send? ==> Sendable(action.argv))
      modifies this, replies.Repr
      ensures Consistent() && fresh(replies.Repr - old(replies.Repr)) && inCallback == old(inCallback)
      ensures SameInput() && connected == old(connected)
      ensures old(inCallback) ==> Kept()
      ensures !released ==> KeptButErr()
      ensures released == (!old(inCallback) && old(hasChannels) &&
                           (action.Free? || (action.Disconnect? && old(replies.contents) == [])))
      ensures released ==> replies.contents == []
      ensures !released && action.Send? ==> (replies.contents == []) == (old(replies.contents) == [] && old(Closing()))
      ensures !released && action.Send? ==> Closing() == old(Closing())
      ensures !released && !action.Send? ==> replies.contents == old(replies.contents) && Closing()
      ensures !released ==> freeing == (old(freeing) || action.Free?)
      ensures released ==> Reported(old(freeing) || action.Free? || old(cerr) == 0)
      decreases hasChannels, if inCallback then 1 else 8
    {
      hide Conserved, Sendable, ScriptOk;
      assert this !in replies.Repr;
      hide Valid, Consistent;
      match action
      case Send(cb, argv) => var ok := AsyncCommand(cb, argv);
      case Free => RedisAsyncFree();
      case Disconnect => RedisAsyncDisconnect();
    }

    /** Application code outside reply callbacks. */
    method RunOutside(script: seq<Action>)
      requires Consistent() && !released && !inCallback && ScriptOk(script)
      modifies this, replies.Repr
      ensures Consistent() && fresh(replies.Repr - old(replies.Repr)) && !inCallback
      ensures SameInput() && connected == old(connected)
      ensures !old(hasChannels) ==> KeptButErr()
      ensures old(hasChannels) ==> released == ScriptFrees(script, old(replies.contents) == [], old(Closing()))
      ensures old(hasChannels) && !released ==> KeptButErr() && freeing == old(freeing)
      ensures released ==> replies.contents == []
      ensures old(hasChannels) && released && old(cerr) == 0 ==> Reported(true)
      decreases hasChannels, 9, |script|
    {
      hide Runnable, M.Valid, Callbacks;
      if script != [] {
        Act(script[0]);
        if !released {
          RunOutside(script[1..]);
        }
      }
    }

    /** Outside callbacks: nothing settled without its reply, no callback running, not freed, teardown not begun. */
    ghost predicate Steady()
      reads this, replies, replies.Repr
    {
      Consistent() && !released && hasChannels && !inCallback && !freeing && |answers| == |settled|
    }

    /** The replies dispatched, followed by those the reader still holds. */
    ghost function Due(): seq<Reply>
      requires M.Valid(reader)
      reads this
    {
      answers + M.Drain(reader).replies
    }

    /** The replies dispatched and those the reader still holds are those of the bytes received. */
    ghost predicate Traced()
      reads this
    {
      M.Valid(reader) && M.Drain(M.Feed(M.FRESH, received)) == M.Drained(Due(), M.Drain(reader).m)
    }

    /** Every reply complete in the bytes received has been dispatched, and no error is among them. */
    ghost predicate Caught()
      reads this, replies, replies.Repr
    {
      && Steady() && Traced() && M.Drain(reader).replies == []
      && reader.err.None? && M.Drain(reader).m.err.None?
    }

    /** Between events. An error is left behind only by a connect check that found the connect in progress. */
    ghost predicate Ready()
      reads this, replies, replies.Repr
    {
      Caught() && (connected ==> cerr == 0)
    }

    /** Where the connection stands, between events. */
    ghost function Link(): Link
      reads this
    {
      if connected then Up else if cerr == 0 then Fresh else Pending
    }

    lemma TracedParses()
      requires Traced()
      ensures Due() == ParseStream(received).replies
      ensures M.Drain(reader).m.err.Some? == ParseStream(received).tail.Broken?
    {
      M.DrainParses(received);
    }

    /** What was queued, and what is buffered and flagged, is as before. */
    twostate predicate Still()
      reads this
    {
      && pushed == old(pushed) && obuf == old(obuf)
      && freeing == old(freeing) && disconnecting == old(disconnecting)
    }

    /** One reply of `redisProcessCallbacks`: to the oldest pending callback; with none pending, an error
        reply closes the connection and any other is a failed assertion. */
    method Dispatch(reply: Reply) returns (stop: bool, aborted: bool)
      requires Steady()
      modifies this, replies.Repr
      ensures Consistent() && fresh(replies.Repr - old(replies.Repr)) && !inCallback
      ensures reader == old(reader) && received == old(received) && connected == old(connected)
      ensures !released ==> Steady() && cerr == old(cerr)
      ensures aborted == (old(replies.contents) == [] && !reply.Error?)
      ensures stop == (aborted || released) && (old(replies.contents) == [] ==> stop)
      ensures released ==> replies.contents == [] && !aborted
      ensures answers == old(answers) + if old(replies.contents) == [] then [] else [reply]
      ensures aborted ==> replies.contents == []
      ensures written == old(written)
      ensures Quiet() && !released ==> Still()
      ensures old(replies.contents) != [] ==> released == FreedByReply()
      ensures released ==> Reported(FreedByReply())
    {
      hide M.Drain, Runnable, M.Valid, Callbacks;
      var ok, cb := TakePending(Some(reply));
      if !ok {
        if reply.Error? {
          Fail(ERR_OTHER);
          return true, false;
        }
        return true, true;
      }
      if cb.fn != 0 {
        RunCallback(cb, Some(reply));
        if freeing {
          AsyncFreeImpl();
          return true, false;
        }
      } else {
        RunnableSnoc(settled[..|settled| - 1], Settled(cb, Some(reply)));
        assert settled == settled[..|settled| - 1] + [Settled(cb, Some(reply))];
      }
      return false, false;
    }

    /** One request to the reader. */
    method NextReply() returns (got: M.Got)
      requires Steady() && Traced()
      modifies this`reader
      ensures Steady() && reader == got.m && M.Valid(reader)
      ensures got.Emit? ==>
        && |reader.unread| < |old(reader).unread| && old(Due()) == answers + [got.reply] + M.Drain(reader).replies
        && M.Drain(M.Feed(M.FRESH, received)) == M.Drained(old(Due()), M.Drain(reader).m)
      ensures !got.Emit? ==> Traced() && Due() == old(Due()) == answers && M.Drain(reader).replies == []
      ensures got.Idle? ==> reader.err.None? && M.Drain(reader).m.err.None?
      ensures got.Err? ==> M.Drain(old(reader)).m.err.Some?
      ensures M.Drain(reader).m == M.Drain(old(reader)).m
    {
      hide M.Drain, M.GetReply, Runnable, Callbacks;
      M.DrainUnfold(reader);
      M.AskBehaves(received, answers, reader);
      got := M.GetReply(reader);
      if !got.Emit? {
        M.IdleIsDrained(reader);
      }
      reader := got.m;
    }

    /** An error on the connection ends it. */
    method Fail(code: int)
      requires Steady() && code != 0
      modifies this, replies.Repr
      ensures Consistent() && fresh(replies.Repr - old(replies.Repr))
      ensures released && !inCallback && replies.contents == []
      ensures SameInput() && connected == old(connected)
      ensures Reported(FreedByReply()) && err == code
      ensures old(replies.contents) == [] ==> turn == old(turn)
    {
      hide Runnable, M.Valid, Callbacks;
      cerr := code;
      AsyncDisconnectImpl();
    }

    /** `redisProcessCallbacks`: every complete reply goes to the oldest pending callback, in order. `aborted`
        reports the assertion that fails on a reply nobody asked for. */
    method ProcessCallbacks() returns (aborted: bool)
      requires Steady() && Traced() && cerr == 0
      modifies this, replies.Repr
      ensures Consistent() && fresh(replies.Repr - old(replies.Repr)) && !inCallback
      ensures received == old(received) && connected == old(connected)
      ensures released ==> replies.contents == [] && !aborted
      ensures !released ==> Steady()
      ensures answers <= old(Due())
      ensures !released && !aborted ==> answers == old(Due()) && Ready() && !Finished()
      ensures released ==>
        Reported(FreedByReply() || (answers == old(Due()) && M.Drain(old(reader)).m.err.None?))
      ensures aborted ==> |answers| < |old(Due())| && replies.contents == [] && !old(Due())[|answers|].Error?
      ensures old(replies.contents) == [] && |old(answers)| < |old(Due())| ==>
        aborted == !old(Due())[|old(answers)|].Error?
      ensures written == old(written)
      ensures Quiet() && !released ==> Still()
      ensures Quiet() && !old(Closing()) && (released || aborted) ==>
        M.Drain(old(reader)).m.err.Some? || |old(pushed)| < |old(Due())|
    {
      hide M.Drain, Runnable, M.Valid, Callbacks, Conserved, Valid, Quiet;
      while true
        invariant Steady() && Traced() && fresh(replies.Repr - old(replies.Repr)) && Due() == old(Due())
        invariant received == old(received) && connected == old(connected) && cerr == 0
        invariant old(replies.contents) == [] ==> replies.contents == [] && answers == old(answers)
        invariant written == old(written) && M.Drain(reader).m == M.Drain(old(reader)).m && (Quiet() ==> Still())
        decreases |reader.unread|
      {
        var got := NextReply();
        match got {
          case Err(_) =>
            Fail(ERR_PROTOCOL);
            return false;
          case Idle(_) =>
            QueueValid();
            var empty := replies.IsEmpty();
            if disconnecting && obuf == [] && empty {
              AsyncDisconnectImpl();
            }
            return false;
          case Emit(_, reply) =>
            AnsweredAll();
            var stop;
            stop, aborted := Dispatch(reply);
            QuietNeverFrees();
            if stop {
              return;
            }
        }
      }
    }

    lemma QueueValid()
      requires Consistent()
      ensures replies.Valid()
    {
    }

    /** With none pending, everything pushed was answered. */
    lemma AnsweredAll()
      requires Steady()
      ensures replies.contents == [] ==> |answers| == |pushed|
    {
    }

    /** `__redisAsyncHandleConnect`, at the first event on the socket. `go` says that the handler goes on with
        the event; `misuse` that the code goes on to use a context its connect callback released. A check that finds
        the connect in progress leaves its error behind. */
    method HandleConnect(check: SocketCheck) returns (go: bool, misuse: bool)
      requires Ready() && !connected
      modifies this, replies.Repr
      ensures Consistent() && fresh(replies.Repr - old(replies.Repr)) && !inCallback && SameInput()
      ensures released ==> replies.contents == []
      ensures misuse == (!check.InProgress? && onConnect.Some? &&
                         ScriptFrees(onConnect.value, old(replies.contents) == [], old(Closing())))
      ensures misuse ==> released
      ensures misuse && old(cerr) == 0 ==> Reported(true)
      ensures released && !misuse ==> disconnects == [] && !connected
      ensures !misuse ==> (released == check.Refused?) && go == connected == check.Established?
      ensures !released ==> Caught() && cerr == if check.InProgress? then ERR_IO else old(cerr)
      ensures !released && (check.InProgress? || onConnect.None?) ==> Untouched()
    {
      hide M.Drain, Runnable, M.Valid, Callbacks, ScriptFrees;
      if !check.Established? {
        cerr := ERR_IO;
      }
      if check.InProgress? {
        return false, false;
      }
      if check.Established? {
        connected := true;
      }
      if onConnect.Some? {
        RunOutside(onConnect.value);
        if released {
          return true, true;
        }
      }
      if check.Refused? {
        AsyncDisconnectImpl();
        return false, false;
      }
      return true, false;
    }

    /** `redisBufferRead`. */
    method BufferRead(res: SocketRead) returns (ok: bool)
      requires Steady() && Traced()
      modifies this`cerr, this`reader, this`received
      ensures Steady() && Traced() && (cerr != 0) == !ok
      ensures ok == (old(cerr) == 0 && (res.ReadAgain? || (res.Bytes? && old(reader).err.None?)))
      ensures !ok ==>
        cerr == (if old(cerr) != 0 then old(cerr) else if res.Eof? then ERR_EOF
                 else if res.Bytes? then ERR_PROTOCOL else ERR_IO)
      ensures received == old(received) + (if ok && res.Bytes? then res.data else [])
    {
      hide Runnable, Callbacks, M.Drain;
      if cerr != 0 {
        return false;
      }
      match res
      case ReadAgain => ok := true;
      case ReadFailed => cerr := ERR_IO; ok := false;
      case Eof => cerr := ERR_EOF; ok := false;
      case Bytes(data) =>
        ok := reader.err.None?;
        if ok {
          M.FeedBehaves(received, data, answers, reader);
          reader := M.Feed(reader, data);
          received := received + data;
        } else {
          cerr := ERR_PROTOCOL;
        }
    }

    /** The bytes that the socket took have left the front of the buffer. */
    twostate predicate WroteSome(res: SocketWrite)
      reads this
    {
      var n := Taken(res, |old(obuf)|);
      written == old(written) + old(obuf)[..n] && obuf == old(obuf)[n..]
    }

    /** `redisBufferWrite`: what was written leaves the front of the buffer. */
    method BufferWrite(res: SocketWrite) returns (ok: bool, done: bool)
      requires Steady()
      modifies this`cerr, this`obuf, this`written
      ensures Steady() && (cerr != 0) == !ok && accepted == old(accepted)
      ensures old(Caught()) ==> Caught()
      ensures ok == (old(cerr) == 0 && (old(obuf) == [] || !res.WriteFailed?)) && (ok ==> done == (obuf == []))
      ensures ok ==> WroteSome(res)
      ensures !ok ==> written == old(written) && obuf == old(obuf)
      ensures !ok ==> cerr == if old(cerr) != 0 then old(cerr) else ERR_IO
    {
      hide Runnable, Callbacks, M.Drain;
      if cerr != 0 {
        return false, false;
      }
      if |obuf| > 0 {
        match res
        case WriteAgain =>
        case WriteFailed =>
          cerr := ERR_IO;
          return false, false;
        case Room(room) =>
          var n := if room < |obuf| then room else |obuf|;
          assert (written + obuf[..n]) + obuf[n..] == written + obuf;
          written := written + obuf[..n];
          obuf := obuf[n..];
      }
      return true, obuf == [];
    }

    /** `redisAsyncHandleRead`. The bytes reach the reader when the connection is, or turns out to be, established
        and no earlier check has left an error; every reply complete in the bytes received so far is dispatched,
        unless the context ends. */
    method HandleRead(check: SocketCheck, res: SocketRead) returns (misuse: bool, aborted: bool)
      requires Ready()
      modifies this, replies.Repr
      ensures Consistent() && fresh(replies.Repr - old(replies.Repr)) && !inCallback
      ensures released ==> replies.contents == []
      ensures !released ==> Steady()
      ensures misuse == (!old(connected) && !check.InProgress? && onConnect.Some? &&
                         ScriptFrees(onConnect.value, old(replies.contents) == [], old(Closing())))
      ensures misuse ==> released && received == old(received)
      ensures !misuse ==> connected == (old(connected) || check.Established?)
      ensures !misuse ==>
        received == old(received) + (if connected && old(cerr) == 0 && res.Bytes? then res.data else [])
      ensures !misuse && NextLink(old(Link()), check).Lost? ==> released
      ensures !misuse && connected && (res.Eof? || res.ReadFailed?) ==>
        released && (old(cerr) == 0 ==> err == if res.Eof? then ERR_EOF else ERR_IO)
      ensures !old(connected) && check.InProgress? ==> !released && !aborted
      ensures !released && !aborted ==> Ready() && Link() == NextLink(old(Link()), check) && AllAnswered()
      ensures !released && !aborted && connected ==> !Finished()
      ensures released && !misuse ==>
        Reported(FreedByReply() || (old(cerr) == 0 && (res.ReadAgain? || res.Bytes?) && AllAnswered()))
      ensures misuse && old(cerr) == 0 ==> Reported(true)
      ensures answers <= ParseStream(received).replies
      ensures aborted ==> Spurious()
      ensures old(replies.contents) == [] && (old(connected) || onConnect.None?) ==>
        var all := ParseStream(received).replies;
        |old(answers)| < |all| ==> aborted == !all[|old(answers)|].Error?
      ensures Quiet() && old(connected) && !released ==> Still() && written == old(written)
      ensures Quiet() && old(connected) && !old(Closing()) && res.Bytes? && (released || aborted) ==>
        var p := ParseStream(received);
        p.tail.Broken? || |old(pushed)| < |p.replies|
    {
      hide M.Drain, M.Valid, Runnable, ScriptFrees, Valid, Conserved, Traced, Due, ParseStream;
      misuse, aborted := false, false;
      NothingDue();
      if !connected {
        var go;
        go, misuse := HandleConnect(check);
        if misuse || !go {
          return;
        }
      }
      aborted := ReadNow(res);
    }

    lemma NothingDue()
      requires Caught()
      ensures AllAnswered()
    {
      hide M.Drain, M.Valid, ParseStream;
      TracedParses();
    }

    /** The rest of the readable event on an established connection. */
    method ReadNow(res: SocketRead) returns (aborted: bool)
      requires Caught() && connected
      modifies this, replies.Repr
      ensures Consistent() && fresh(replies.Repr - old(replies.Repr)) && !inCallback && connected
      ensures received == old(received) + (if old(cerr) == 0 && res.Bytes? then res.data else [])
      ensures answers <= ParseStream(received).replies && written == old(written)
      ensures released ==> replies.contents == [] && !aborted
      ensures released ==>
        Reported(FreedByReply() || (old(cerr) == 0 && (res.ReadAgain? || res.Bytes?) && AllAnswered()))
      ensures old(cerr) != 0 || res.Eof? || res.ReadFailed? ==>
        released && err == if old(cerr) != 0 then old(cerr) else if res.Eof? then ERR_EOF else ERR_IO
      ensures !released ==> Steady() && (aborted || (Ready() && AllAnswered() && !Finished()))
      ensures aborted ==> Spurious()
      ensures old(replies.contents) == [] ==>
        var all := ParseStream(received).replies;
        |old(answers)| < |all| ==> aborted == !all[|old(answers)|].Error?
      ensures Quiet() && !released ==> Still()
      ensures Quiet() && !old(Closing()) && res.Bytes? && old(cerr) == 0 && (released || aborted) ==>
        var p := ParseStream(received);
        p.tail.Broken? || |old(pushed)| < |p.replies|
    {
      hide Conserved, M.Drain, Runnable, M.Valid, ParseStream;
      aborted := false;
      NothingDue();
      var ok := BufferRead(res);
      TracedParses();
      if !ok {
        assert received == old(received);
        AsyncDisconnectImpl();
      } else {
        aborted := ProcessCallbacks();
      }
    }

    /** The bytes received are well formed so far, and each of their complete replies has been dispatched. */
    ghost predicate AllAnswered()
      reads this
    {
      answers == ParseStream(received).replies && !ParseStream(received).tail.Broken?
    }

    /** The next reply of the bytes received is no error, and no callback waits for it. */
    ghost predicate Spurious()
      reads this, replies
    {
      var all := ParseStream(received).replies;
      replies.contents == [] && |answers| < |all| && !all[|answers|].Error?
    }

    /** `redisAsyncHandleWrite`. The bytes accepted but not yet written lose what the socket takes, also those that
        the connect callback has just added. */
    method HandleWrite(check: SocketCheck, res: SocketWrite) returns (misuse: bool)
      requires Ready()
      modifies this, replies.Repr
      ensures Consistent() && fresh(replies.Repr - old(replies.Repr)) && !inCallback
      ensures reader == old(reader) && received == old(received) && answers == old(answers)
      ensures released ==> replies.contents == []
      ensures misuse == (!old(connected) && !check.InProgress? && onConnect.Some? &&
                         ScriptFrees(onConnect.value, old(replies.contents) == [], old(Closing())))
      ensures misuse ==> released && written == old(written)
      ensures !misuse ==> connected == (old(connected) || check.Established?)
      ensures !misuse && NextLink(old(Link()), check).Lost? ==> released && written == old(written)
      ensures !old(connected) && check.InProgress? ==> !released
      ensures !released ==> Ready() && Link() == NextLink(old(Link()), check)
      ensures !released && connected ==>
        && old(written) <= accepted
        && var due := accepted[|old(written)|..];
           var n := Taken(res, |due|);
           written == old(written) + due[..n] && obuf == due[n..]
      ensures !released && connected && res.WriteFailed? ==> obuf == []
      ensures !released && !connected ==> written == old(written) && obuf == old(obuf)
      ensures (old(connected) || onConnect.None?) && !released ==>
        && pushed == old(pushed) && accepted == old(accepted)
        && freeing == old(freeing) && disconnecting == old(disconnecting)
      ensures released ==> misuse || NextLink(old(Link()), check).Lost? || res.WriteFailed?
      ensures released && (misuse ==> old(cerr) == 0) ==> Reported(FreedByReply() || misuse)
    {
      hide M.Drain, M.Valid, Runnable, ScriptFrees, Valid, Conserved, Traced;
      misuse := false;
      if !connected {
        var go;
        go, misuse := HandleConnect(check);
        if misuse || !go {
          return;
        }
      }
      Unwritten();
      WriteNow(res);
    }

    /** The bytes accepted and not written are those buffered. */
    lemma Unwritten()
      requires Consistent()
      ensures written <= accepted && accepted[|written|..] == obuf
    {
    }

    /** The rest of the writable event on an established connection. */
    method WriteNow(res: SocketWrite)
      requires Caught() && connected
      modifies this, replies.Repr
      ensures Consistent() && fresh(replies.Repr - old(replies.Repr)) && !inCallback && connected
      ensures reader == old(reader) && received == old(received) && answers == old(answers)
      ensures released == !(old(cerr) == 0 && (old(obuf) == [] || !res.WriteFailed?))
      ensures released ==> replies.contents == [] && written == old(written) && Reported(FreedByReply())
      ensures released && old(cerr) == 0 ==> err == ERR_IO
      ensures !released ==>
        && Ready() && pushed == old(pushed) && accepted == old(accepted)
        && freeing == old(freeing) && disconnecting == old(disconnecting) && WroteSome(res)
    {
      hide M.Drain, M.Valid, Runnable, Valid, Conserved, Traced, Due, WroteSome;
      var ok, done := BufferWrite(res);
      if !ok {
        AsyncDisconnectImpl();
      }
    }
  }

  /** What can happen to a context: application calls and socket events. */
  datatype Event =
    | App(action: Action)
    | Readable(check: SocketCheck, input: SocketRead)
    | Writable(check: SocketCheck, output: SocketWrite)

  /** Where the connection stands after some events. */
  function LinkAfter(link: Link, events: seq<Event>): Link {
    if events == [] then link
    else
      var last := events[|events| - 1];
      var before := LinkAfter(link, events[..|events| - 1]);
      if last.App? then before else NextLink(before, last.check)
  }

  /** The bytes that arrive on the established connection. */
  function Input(link: Link, events: seq<Event>): seq<byte> {
    if events == [] then []
    else
      var last := events[|events| - 1];
      Input(link, events[..|events| - 1]) +
      (if last.Readable? && last.input.Bytes? && LinkAfter(link, events).Up? then last.input.data else [])
  }

  lemma InputSnoc(link: Link, events: seq<Event>, n: nat)
    requires n < |events|
    ensures LinkAfter(link, events[..n + 1]) ==
      if events[n].App? then LinkAfter(link, events[..n]) else NextLink(LinkAfter(link, events[..n]), events[n].check)
    ensures Input(link, events[..n + 1]) == Input(link, events[..n]) +
      (if events[n].Readable? && events[n].input.Bytes? && LinkAfter(link, events[..n + 1]).Up?
       then events[n].input.data else [])
  {
    assert events[..n + 1][..n] == events[..n];
  }

  /** The check of the first event on the socket finds the connection established. */
  ghost predicate EstablishedAtOnce(events: seq<Event>) {
    exists i :: 0 <= i < |events| && !events[i].App? && events[i].check.Established? &&
                forall j :: 0 <= j < i ==> events[j].App?
  }

  /** A new connection carries bytes exactly if the very first check on it finds it established: a check that finds
      it in progress leaves an error, which the event that completes the connection then takes for its own. */
  lemma {:induction false} UsableIff(events: seq<Event>)
    ensures LinkAfter(Fresh, events).Up? <==> EstablishedAtOnce(events)
    ensures LinkAfter(Fresh, events).Fresh? <==> forall j :: 0 <= j < |events| ==> events[j].App?
    ensures Input(Fresh, events) != [] ==> EstablishedAtOnce(events)
    decreases |events|
  {
    if events != [] {
      var n := |events| - 1;
      var p := events[..n];
      UsableIff(p);
      assert forall j :: 0 <= j < n ==> p[j] == events[j];
      if EstablishedAtOnce(events) && !EstablishedAtOnce(p) {
        var i :| 0 <= i < |events| && !events[i].App? && events[i].check.Established? &&
                 forall j :: 0 <= j < i ==> events[j].App?;
        assert i == n;
      }
    }
  }

  /** Whether the disconnect callback is told of no error, when `event` ends the context: the application asked for
      it or freed the context, or a readable event brought the last reply awaited. After an end of file, a failed
      read or write, a reply to no command or bytes that are no reply it is told of an error, unless a callback that
      gets its NULL reply frees the context. */
  ghost predicate ReportsOk(ac: AsyncContext, event: Event, link: Link, misuse: bool)
    reads ac
  {
    match event
    case App(_) => true
    case Readable(_, input) =>
      misuse || ac.FreedByReply() || (link.Up? && (input.ReadAgain? || input.Bytes?) && ac.AllAnswered())
    case Writable(_, _) => misuse || ac.FreedByReply()
  }

  /** An event after which the connection has failed. */
  predicate Fails(event: Event) {
    (event.Readable? && (event.input.Eof? || event.input.ReadFailed?)) || (event.Writable? && event.output.WriteFailed?)
  }

  /** One event of a run. */
  method OneEvent(ac: AsyncContext, event: Event) returns (aborted: bool, misuse: bool)
    requires ac.Ready() && (event.App? && event.action.Send? ==> Sendable(event.action.argv))
    modifies ac, ac.replies.Repr
    ensures ac.Consistent() && fresh(ac.replies.Repr - old(ac.replies.Repr))
    ensures !ac.released ==> ac.Steady() && !misuse
    ensures !ac.released && !aborted ==> ac.Ready()
    ensures ac.released ==> ac.replies.contents == []
    ensures misuse ==> ac.received == old(ac.received) && ac.onConnect.Some? && !OnlySends(ac.onConnect.value)
    ensures misuse ==> !event.App?
    ensures var link := if event.App? then old(ac.Link()) else NextLink(old(ac.Link()), event.check);
      && (ac.released && !(misuse && link.Lost?) ==> ac.Reported(ReportsOk(ac, event, link, misuse)))
      && (!ac.released && link.Up? && Fails(event) ==> event.Writable? && ac.obuf == [])
      && (!ac.released && !aborted && link.Up? && event.Readable? ==> !ac.Finished())
    ensures !ac.released && !aborted ==> ac.AllAnswered()
    ensures !misuse ==>
      && var link := if event.App? then old(ac.Link()) else NextLink(old(ac.Link()), event.check);
      && (!ac.released && !aborted ==> ac.Link() == link)
      && (link.Lost? ==> ac.released)
      && ac.received == old(ac.received) +
           (if event.Readable? && event.input.Bytes? && link.Up? then event.input.data else [])
    ensures ac.answers <= ParseStream(ac.received).replies
    ensures aborted ==> ac.Spurious()
  {
    hide M.Drain, Runnable, M.Valid, Callbacks, ScriptFrees, ParseStream, AsyncContext.Conserved;
    aborted, misuse := false, false;
    ac.NothingDue();
    assert ac.received + [] == ac.received;
    if ac.onConnect.Some? && OnlySends(ac.onConnect.value) {
      SendingNeverFrees(ac.onConnect.value, ac.replies.contents == [], ac.Closing());
    }
    match event
    case App(action) => ac.Act(action);
    case Readable(check, input) => misuse, aborted := ac.HandleRead(check, input);
    case Writable(check, output) => misuse := ac.HandleWrite(check, output);
  }

  /** A whole run of a context, ended after `n` events by its release, by a failed assertion or by misuse.
      Throughout, every accepted callback is settled or pending in push order, and each settled function has run
      exactly once: the first ones with the replies that the bytes received so far spell, position by position, and
      the others, in teardown only, with NULL. Unless the run ended, every complete reply has been handed out. After
      the release no callback is pending, and the disconnect callback has run once if the context was connected. */
  method RunContext(ac: AsyncContext, events: seq<Event>) returns (aborted: bool, misuse: bool, n: nat)
    requires ac.Ready()
    requires forall i :: 0 <= i < |events| && events[i].App? && events[i].action.Send? ==>
      Sendable(events[i].action.argv)
    modifies ac, ac.replies.Repr
    ensures ac.Consistent() && n <= |events|
    ensures !ac.released && !aborted ==> n == |events| && ac.Ready() && ac.Link() == LinkAfter(old(ac.Link()), events)
    ensures !misuse && LinkAfter(old(ac.Link()), events[..n]).Lost? ==> ac.released
    ensures !misuse ==> ac.received == old(ac.received) + Input(old(ac.Link()), events[..n])
    ensures misuse ==> n > 0 && ac.received == old(ac.received) + Input(old(ac.Link()), events[..n - 1])
    ensures ac.answers <= ParseStream(ac.received).replies
    ensures !ac.released && !aborted ==> ac.AllAnswered()
    ensures n > 0 ==>
      var link, last := LinkAfter(old(ac.Link()), events[..n]), events[n - 1];
      && (ac.released && !(misuse && link.Lost?) ==> ac.Reported(ReportsOk(ac, last, link, misuse)))
      && (!ac.released && link.Up? && Fails(last) ==> last.Writable? && ac.obuf == [])
      && (!ac.released && !aborted && link.Up? && last.Readable? ==> !ac.Finished())
    ensures aborted ==> ac.Spurious()
    ensures misuse ==> ac.released && ac.onConnect.Some? && !OnlySends(ac.onConnect.value)
    ensures ac.released ==> ac.replies.contents == [] && ac.pushed == Callbacks(ac.settled)
    ensures |ac.disconnects| == if ac.released && ac.onDisconnect.Some? && ac.connected then 1 else 0
  {
    hide M.Drain, Runnable, M.Valid, ScriptFrees, ParseStream, Input, LinkAfter, Sendable;
    aborted, misuse, n := false, false, 0;
    ac.TracedParses();
    InputNone(ac.Link(), events);
    while n < |events| && !ac.released && !aborted
      invariant n <= |events|
      invariant ac.Consistent() && fresh(ac.replies.Repr - old(ac.replies.Repr))
      invariant !ac.released ==> ac.Steady() && !misuse
      invariant !ac.released && !aborted ==>
        ac.Ready() && ac.Link() == LinkAfter(old(ac.Link()), events[..n])
      invariant !misuse && LinkAfter(old(ac.Link()), events[..n]).Lost? ==> ac.released
      invariant ac.released ==> ac.replies.contents == []
      invariant !misuse ==> ac.received == old(ac.received) + Input(old(ac.Link()), events[..n])
      invariant misuse ==> n > 0 && ac.received == old(ac.received) + Input(old(ac.Link()), events[..n - 1])
      invariant ac.answers <= ParseStream(ac.received).replies
      invariant aborted ==> ac.Spurious()
      invariant misuse ==> ac.onConnect.Some? && !OnlySends(ac.onConnect.value)
      invariant !ac.released && !aborted ==> ac.AllAnswered()
      invariant n > 0 ==>
        var link, last := LinkAfter(old(ac.Link()), events[..n]), events[n - 1];
        && (ac.released && !(misuse && link.Lost?) ==> ac.Reported(ReportsOk(ac, last, link, misuse)))
        && (!ac.released && link.Up? && Fails(last) ==> last.Writable? && ac.obuf == [])
        && (!ac.released && !aborted && link.Up? && last.Readable? ==> !ac.Finished())
    {
      InputSnoc(old(ac.Link()), events, n);
      aborted, misuse := OneEvent(ac, events[n]);
      n := n + 1;
    }
    if !ac.released && !aborted {
      ac.TracedParses();
      assert events[..n] == events;
    }
    assert ac.released ==> Callbacks(ac.settled) + [] == Callbacks(ac.settled);
  }

  lemma InputNone(link: Link, events: seq<Event>)
    ensures LinkAfter(link, events[..0]) == link && Input(link, events[..0]) == []
  {
  }

  // ---------- what can go wrong ----------

  /** A connect callback that frees: the event that completes the connection goes on with a released context. */
  method ConnectCallbackCanRelease() returns (ac: AsyncContext, misuse: bool)
    ensures fresh(ac) && ac.onConnect == Some([Free]) && misuse && ac.released
  {
    ac := new AsyncContext(_ => [], Some([Free]), None);
    misuse := ac.HandleWrite(Established, WriteAgain);
  }

  /** A connection whose first check comes too early: when it is established at last, and bytes arrive on it, the
      context is released without having received any. */
  method EarlyCheckLosesConnection(x: seq<byte>) returns (ac: AsyncContext)
    ensures fresh(ac) && ac.connected && ac.released && ac.received == []
  {
    hide M.Drain, M.Valid, ParseStream;
    ac := new AsyncContext(_ => [], None, None);
    var misuse := ac.HandleWrite(InProgress, WriteAgain);
    var aborted;
    misuse, aborted := ac.HandleRead(Established, Bytes(x));
  }

  /** A reply to no command: unless it is an error reply, the assertion of `redisProcessCallbacks` fails. */
  method SpuriousReplyAborts(t: Reply) returns (ac: AsyncContext, aborted: bool)
    requires Encodable(t) && Fits(t, MAX_DEPTH)
    ensures fresh(ac) && ac.received == Encode(t) && aborted == !t.Error?
    ensures aborted ==> ac.answers == [] && ac.Spurious()
  {
    hide M.Drain, M.Valid, ParseStream, Encode, Encodable, Fits, AsyncContext.Consistent, AsyncContext.Traced;
    ac := new AsyncContext(_ => [], None, None);
    ParsesAlone(t);
    var misuse;
    misuse, aborted := ac.HandleRead(Established, Bytes(Encode(t)));
    assert [] + Encode(t) == Encode(t);
  }

  lemma ParsesAlone(t: Reply)
    requires Encodable(t) && Fits(t, MAX_DEPTH)
    ensures ParseStream(Encode(t)).replies == [t]
  {
    hide ParseStream, Encode;
    StreamRoundTrip([t], []);
    EmptyStream();
    assert EncodeAll([t]) + [] == Encode(t);
    assert [t] + [] == [t];
  }
}
