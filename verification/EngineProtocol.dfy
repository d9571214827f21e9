/** The asynchronous engine carries out the steps of the protocol: with `replyCallback` as its callback, what one call
    of `taskDeal` and one event on the socket do to a context is what the protocol's steps do to its state. */
module EngineProtocol {
  import opened Bytes
  import opened Resp
  import M = ReaderMachine
  import C = Command
  import A = Async
  import L = CallbackList
  import opened Multiplex
  import R = ReplyMatching

  /** `replyCallback` with a request record. */
  function CallbackOf(i: Id): L.Callback {
    L.Callback(1, i)
  }

  function CallbacksOf(ids: seq<Id>): (r: seq<L.Callback>)
    ensures |r| == |ids| && forall k :: 0 <= k < |ids| ==> r[k] == CallbackOf(ids[k])
  {
    seq(|ids|, k requires 0 <= k < |ids| => CallbackOf(ids[k]))
  }

  /** An established connection between events, whose callbacks do not call back. */
  ghost predicate Working(ac: A.AsyncContext)
    reads ac, ac.replies, ac.replies.Repr
  {
    ac.Ready() && ac.connected && !ac.Closing() && ac.Quiet()
  }

  /** A state of the protocol before any error on the connection. */
  ghost predicate Running(s: State) {
    && R.Inv(s) && s.up && (s.loop.Idle? || s.loop.Handling?)
    && forall i :: 0 <= i < |s.reqs| ==> A.Sendable(s.reqs[i].argv)
  }

  /** What was pushed, dispatched, received, written and buffered agrees with the protocol. */
  ghost predicate Agree(s: State, pushed: seq<L.Callback>, answers: seq<Reply>, received: seq<byte>,
                        written: seq<byte>, obuf: seq<byte>)
    requires Running(s)
  {
    && pushed == CallbacksOf(s.sent) && answers == R.Given(s) && received == Output(s)[..s.read]
    && written == s.wire && obuf == s.obuf
  }

  ghost predicate Joined(ac: A.AsyncContext, s: State)
    reads ac, ac.replies, ac.replies.Repr
  {
    Working(ac) && Running(s) && Agree(s, ac.pushed, ac.answers, ac.received, ac.written, ac.obuf)
  }

  /** The callbacks pending in the context are those of the requests in the protocol's queue. */
  lemma QueuesAgree(ac: A.AsyncContext, s: State)
    requires Joined(ac, s)
    ensures ac.replies.contents == CallbacksOf(s.queue)
  {
    hide Running, Working, R.Given, Output;
    QueueIsTail(s);
    PendingAre(ac);
    RunningGives(s);
    assert CallbacksOf(s.sent)[s.answered..] == CallbacksOf(s.queue);
  }

  /** The callbacks that have run, with the replies they got: each with the record of one request, in the order the
      requests were sent, and with the server's answer to the command of that request. */
  lemma SettledAreAnswered(ac: A.AsyncContext, s: State)
    requires Joined(ac, s)
    ensures |ac.settled| == s.answered <= |s.sent| == |s.log|
    ensures forall k :: 0 <= k < s.answered ==>
      ac.settled[k] == A.Settled(CallbackOf(s.sent[k]), Some(AnswerTo(s, k)))
  {
    hide Running, Working, Output, AnswerTo;
    QueueIsTail(s);
    InvParts(s);
    RunningGives(s);
    SettledAre(ac);
    assert forall k :: 0 <= k < s.answered ==> ac.settled[k].cb == ac.pushed[k] == CallbackOf(s.sent[k]);
  }

  lemma SettledAre(ac: A.AsyncContext)
    requires Working(ac)
    ensures |ac.settled| == |ac.answers| <= |ac.pushed|
    ensures forall k :: 0 <= k < |ac.settled| ==>
      ac.settled[k].cb == ac.pushed[k] && ac.settled[k].reply == Some(ac.answers[k])
  {
  }

  lemma PendingAre(ac: A.AsyncContext)
    requires Working(ac)
    ensures |ac.answers| <= |ac.pushed| && ac.replies.contents == ac.pushed[|ac.answers|..]
  {
  }

  lemma QueueIsTail(s: State)
    requires Running(s)
    ensures s.answered <= |s.sent| && s.queue == s.sent[s.answered..]
  {
  }

  lemma RunningGives(s: State)
    requires Running(s)
    ensures s.heard <= |s.wire| && s.read <= |Output(s)| && s.answered <= |s.log|
    ensures forall j :: 0 <= j < |s.cmdList| ==> s.cmdList[j] < |s.reqs|
  {
  }

  lemma FlushRuns(s: State, k: nat, s': State)
    requires Running(s) && s.loop.Idle? && k <= |s.obuf|
    requires s' == s.(wire := s.wire + s.obuf[..k], obuf := s.obuf[k..])
    ensures Takes(s, Flush(k), s') && Running(s')
  {
    hide R.Inv, A.Sendable, Output, M.GetReply, M.Valid, C.FormatAll, Submit, DropAll, Find, LastAt;
    RunningGives(s);
    assert Takes(s, Flush(k), s');
    hide Apply, Enabled;
    R.InvStep(s, Flush(k));
  }

  lemma SameGiven(s: State, s': State)
    requires s'.server == s.server && s'.log == s.log && s'.answered == s.answered <= |s.log|
    ensures R.Given(s') == R.Given(s)
  {
    R.AnswersSame(s, s');
  }

  // ---------- writing ----------

  /** A writable event is a `Flush` of what the socket takes. */
  method Write(ac: A.AsyncContext, room: nat, ghost s: State) returns (ghost s': State, ghost k: nat)
    requires Joined(ac, s) && s.loop.Idle?
    modifies ac, ac.replies.Repr
    ensures Takes(s, Flush(k), s') && Joined(ac, s')
  {
    k := A.Taken(A.Room(room), |s.obuf|);
    s' := s.(wire := s.wire + s.obuf[..k], obuf := s.obuf[k..]);
    FlushAgrees(s, k, ac.pushed, ac.answers, ac.received);
    hide Running, Working, Takes;
    WriteSome(ac, room);
  }

  method WriteSome(ac: A.AsyncContext, room: nat)
    requires Working(ac)
    modifies ac, ac.replies.Repr
    ensures Working(ac) && ac.pushed == old(ac.pushed) && ac.answers == old(ac.answers)
    ensures ac.received == old(ac.received)
    ensures var k := A.Taken(A.Room(room), |old(ac.obuf)|);
      ac.written == old(ac.written) + old(ac.obuf)[..k] && ac.obuf == old(ac.obuf)[k..]
  {
    ac.Unwritten();
    hide A.ScriptFrees, A.AsyncContext.Consistent, A.AsyncContext.Traced, M.Drain;
    var misuse := ac.HandleWrite(A.Established, A.Room(room));
  }

  lemma FlushAgrees(s: State, k: nat, pushed: seq<L.Callback>, answers: seq<Reply>, received: seq<byte>)
    requires Running(s) && s.loop.Idle? && k <= |s.obuf| && Agree(s, pushed, answers, received, s.wire, s.obuf)
    ensures var s' := s.(wire := s.wire + s.obuf[..k], obuf := s.obuf[k..]);
      Takes(s, Flush(k), s') && Running(s') && Agree(s', pushed, answers, received, s'.wire, s'.obuf)
  {
    hide Takes, Running, R.Given, CallbacksOf;
    RunningGives(s);
    var s' := s.(wire := s.wire + s.obuf[..k], obuf := s.obuf[k..]);
    FlushRuns(s, k, s');
    assert s'.wire[..s.heard] == s.wire[..s.heard];
    assert Output(s') == Output(s);
    SameGiven(s, s');
  }

  // ---------- submitting ----------

  /** The requests that one call of `taskDeal` takes out of cmd_list, with their commands. */
  ghost predicate Dealt(s: State, ids: seq<Id>, argvs: seq<seq<seq<byte>>>) {
    && s.loop.Handling? && ids == s.cmdList[..Min(s.loop.n, |s.cmdList|)]
    && |argvs| == |ids| && forall j :: 0 <= j < |ids| ==> ids[j] < |s.reqs| && argvs[j] == s.reqs[ids[j]].argv
  }

  /** One call of `taskDeal` is the protocol's `TaskDeal`: the commands that it takes out of cmd_list are accepted. */
  method Deal(ac: A.AsyncContext, ids: seq<Id>, argvs: seq<seq<seq<byte>>>, ghost s: State) returns (ghost s': State)
    requires Joined(ac, s) && Dealt(s, ids, argvs)
    modifies ac, ac.replies.Repr
    ensures Takes(s, TaskDeal, s') && Joined(ac, s')
  {
    hide Running, Working, Takes, A.Sendable, C.FormatAll, Output, R.Given, CallbacksOf;
    s' := DealAgrees(s, ids, argvs, ac.answers, ac.received);
    DealSendable(s, ids, argvs);
    Send(ac, ids, argvs);
    CallbacksConcat(s.sent, ids);
  }

  lemma StillUp(s: State)
    requires Running(s)
    ensures s.up
  {
    hide R.Inv, A.Sendable;
  }

  lemma DealSendable(s: State, ids: seq<Id>, argvs: seq<seq<seq<byte>>>)
    requires Running(s) && Dealt(s, ids, argvs)
    ensures |argvs| == |ids|
    ensures forall j :: 0 <= j < |ids| ==> A.Sendable(argvs[j])
  {
    hide R.Inv, A.Sendable;
  }

  lemma CallbacksConcat(a: seq<Id>, b: seq<Id>)
    ensures CallbacksOf(a + b) == CallbacksOf(a) + CallbacksOf(b)
  {
  }

  method Send(ac: A.AsyncContext, ids: seq<Id>, argvs: seq<seq<seq<byte>>>)
    requires Working(ac) && |argvs| == |ids| && forall j :: 0 <= j < |ids| ==> A.Sendable(argvs[j])
    modifies ac, ac.replies.Repr
    ensures Working(ac) && ac.answers == old(ac.answers) && ac.received == old(ac.received)
    ensures ac.written == old(ac.written) && ac.pushed == old(ac.pushed) + CallbacksOf(ids)
    ensures ac.obuf == old(ac.obuf) + C.FormatAll(argvs)
  {
    hide A.Sendable, A.AsyncContext.Consistent, M.Drain, C.Format, C.FormatAll;
    NoneFormatted(argvs);
    for j := 0 to |ids|
      invariant Working(ac) && fresh(ac.replies.Repr - old(ac.replies.Repr))
      invariant ac.answers == old(ac.answers) && ac.received == old(ac.received) && ac.written == old(ac.written)
      invariant ac.pushed == old(ac.pushed) + CallbacksOf(ids[..j])
      invariant ac.obuf == old(ac.obuf) + C.FormatAll(argvs[..j])
    {
      Apart(ac);
      var ok := ac.AsyncCommand(CallbackOf(ids[j]), argvs[j]);
      assert CallbacksOf(ids[..j + 1]) == CallbacksOf(ids[..j]) + [CallbackOf(ids[j])];
      FormatNext(argvs, j);
    }
    assert ids[..|ids|] == ids && argvs[..|ids|] == argvs;
  }

  lemma Apart(ac: A.AsyncContext)
    requires ac.Consistent()
    ensures ac !in ac.replies.Repr
  {
  }

  lemma NoneFormatted(argvs: seq<seq<seq<byte>>>)
    ensures C.FormatAll(argvs[..0]) == []
  {
  }

  lemma FormatNext(argvs: seq<seq<seq<byte>>>, j: nat)
    requires j < |argvs|
    ensures C.FormatAll(argvs[..j + 1]) == C.FormatAll(argvs[..j]) + C.Format(argvs[j])
  {
    assert argvs[..j + 1] == argvs[..j] + [argvs[j]];
    C.FormatAllAppend(argvs[..j], [argvs[j]]);
    assert C.FormatAll([argvs[j]]) == C.Format(argvs[j]) + C.FormatAll([]);
  }

  lemma DealAgrees(s: State, ids: seq<Id>, argvs: seq<seq<seq<byte>>>, answers: seq<Reply>, received: seq<byte>)
    returns (s': State)
    requires Running(s) && Dealt(s, ids, argvs)
    requires Agree(s, CallbacksOf(s.sent), answers, received, s.wire, s.obuf)
    ensures Takes(s, TaskDeal, s') && Running(s')
    ensures Agree(s', CallbacksOf(s.sent + ids), answers, received, s.wire, s.obuf + C.FormatAll(argvs))
  {
    hide Running, Takes, CallbacksOf, R.Given, C.FormatAll;
    s' := DealRuns(s);
    StillUp(s);
    DealEffect(s, s', ids, argvs);
    RunningGives(s);
    RunningGives(s');
    assert Output(s') == Output(s);
    GivenGrows(s, s');
  }

  lemma DealEffect(s: State, s': State, ids: seq<Id>, argvs: seq<seq<seq<byte>>>)
    requires Takes(s, TaskDeal, s') && s.up && Dealt(s, ids, argvs)
    ensures s'.sent == s.sent + ids && s'.log == s.log + argvs && s'.obuf == s.obuf + C.FormatAll(argvs)
    ensures s'.wire == s.wire && s'.heard == s.heard && s'.read == s.read && s'.answered == s.answered
    ensures s'.server == s.server
  {
    hide A.Sendable, Output, M.GetReply, M.Valid, C.FormatAll;
    assert Argvs(s.reqs, ids) == argvs;
  }

  lemma DealRuns(s: State) returns (s': State)
    requires Running(s) && s.loop.Handling?
    ensures Takes(s, TaskDeal, s') && Running(s')
  {
    hide R.Inv, A.Sendable, Output, M.GetReply, M.Valid, C.FormatAll, DropAll, Find, LastAt, Argvs;
    RunningGives(s);
    s' := Apply(s, TaskDeal);
    assert s'.up && s'.loop.Idle? && s'.reqs == s.reqs;
    hide Apply, Enabled;
    R.InvStep(s, TaskDeal);
  }

  lemma GivenGrows(s: State, s': State)
    requires s'.server == s.server && s.log <= s'.log && s'.answered == s.answered <= |s.log|
    ensures R.Given(s') == R.Given(s)
  {
    forall k | 0 <= k < s.answered
      ensures AnswerTo(s', k) == AnswerTo(s, k)
    {
      assert s'.log[..k + 1] == s.log[..k + 1];
    }
  }

  // ---------- reading ----------

  /** A readable event is a `Receive` of what has arrived, and then a `Dispatch` of every complete reply: neither the
      release of the context nor the failed assertion on a spurious reply can come of it. */
  method Read(ac: A.AsyncContext, data: seq<byte>, ghost s: State, ghost k: nat)
    returns (ghost steps: seq<Step>, ghost s': State)
    requires Joined(ac, s) && s.loop.Idle? && s.read + k <= |Output(s)| && data == Output(s)[s.read..s.read + k]
    modifies ac, ac.replies.Repr
    ensures steps != [] && steps[0] == Receive(k) && forall j :: 0 < j < |steps| ==> steps[j] == Dispatch
    ensures R.IsRun(s, steps) && s' == R.Exec(s, steps) && Joined(ac, s')
  {
    ghost var s1 := ReceiveRuns(s, k);
    ghost var more;
    more, s' := DispatchAll(s1);
    steps := [Receive(k)] + more;
    RunFrom(s, Receive(k), s1, more);
    ReadAgrees(s, s1, s', k);
    hide Running, Working, Takes, R.IsRun, R.Exec, R.Given, Output, ParseStream, CallbacksOf;
    ReadSome(ac, data);
  }

  /** The steps of a readable event change only these parts of the state. */
  ghost predicate OnlyReads(s: State, s': State) {
    s' == s.(reqs := s'.reqs, queue := s'.queue, read := s'.read, reader := s'.reader, answered := s'.answered)
  }

  lemma ReceiveRuns(s: State, k: nat) returns (s1: State)
    requires Running(s) && s.loop.Idle? && s.read + k <= |Output(s)|
    ensures Takes(s, Receive(k), s1) && Running(s1) && OnlyReads(s, s1) && s1.read == s.read + k
  {
    hide R.Inv, A.Sendable, Output, M.GetReply, M.Valid, C.FormatAll, Submit, DropAll, Find, LastAt;
    RunningGives(s);
    s1 := Apply(s, Receive(k));
    assert OnlyReads(s, s1) && s1.reqs == s.reqs && s1.read == s.read + k;
    hide Apply, Enabled;
    R.InvStep(s, Receive(k));
  }

  /** As long as the reader has a reply, it is dispatched. */
  lemma DispatchAll(s: State) returns (steps: seq<Step>, s': State)
    requires Running(s) && s.loop.Idle?
    ensures R.IsRun(s, steps) && s' == R.Exec(s, steps) && forall j :: 0 <= j < |steps| ==> steps[j] == Dispatch
    ensures Running(s') && s'.loop.Idle? && OnlyReads(s, s') && s'.read == s.read
    ensures M.Valid(s'.reader) && !M.GetReply(s'.reader).Emit?
    decreases |s.reader.unread|
  {
    hide R.Inv, A.Sendable, Takes, R.IsRun, R.Exec, M.GetReply, M.Valid;
    ReaderIs(s);
    if M.GetReply(s.reader).Emit? {
      var s1 := DispatchRuns(s);
      var more;
      more, s' := DispatchAll(s1);
      steps := [Dispatch] + more;
      RunFrom(s, Dispatch, s1, more);
    } else {
      steps, s' := [], s;
      NoRun(s);
    }
  }

  lemma NoRun(s: State)
    ensures R.IsRun(s, []) && R.Exec(s, []) == s
  {
  }

  lemma ReaderIs(s: State)
    requires Running(s)
    ensures M.Valid(s.reader)
  {
  }

  lemma DispatchRuns(s: State) returns (s1: State)
    requires Running(s) && s.loop.Idle? && M.Valid(s.reader) && M.GetReply(s.reader).Emit?
    ensures Takes(s, Dispatch, s1) && Running(s1) && s1.loop.Idle? && OnlyReads(s, s1) && s1.read == s.read
    ensures |s1.reader.unread| < |s.reader.unread|
  {
    hide R.Inv, A.Sendable, Output, M.GetReply, M.Valid, C.FormatAll, Apply, Enabled;
    CanDispatch(s);
    s1 := DispatchEffect(s);
    R.InvStep(s, Dispatch);
  }

  lemma DispatchEffect(s: State) returns (s1: State)
    requires Enabled(s, Dispatch) && M.GetReply(s.reader).Emit?
    requires forall j :: 0 <= j < |s.cmdList| ==> s.cmdList[j] < |s.reqs|
    ensures s1 == Apply(s, Dispatch) && OnlyReads(s, s1) && s1.read == s.read && |s1.reqs| == |s.reqs|
    ensures forall i :: 0 <= i < |s.reqs| ==> s1.reqs[i].argv == s.reqs[i].argv
    ensures |s1.reader.unread| < |s.reader.unread|
  {
    hide M.Run;
    s1 := Apply(s, Dispatch);
  }

  lemma CanDispatch(s: State)
    requires Running(s) && s.loop.Idle? && M.Valid(s.reader) && M.GetReply(s.reader).Emit?
    ensures Enabled(s, Dispatch) && forall j :: 0 <= j < |s.cmdList| ==> s.cmdList[j] < |s.reqs|
  {
    hide Running, Enabled, R.Sent, R.Streaming, R.GoodServer, M.GetReply, M.Valid, Output;
    RunningGives(s);
    QueueIsTail(s);
    InvParts(s);
    Emitted(s);
    assert s.queue[0] == s.sent[s.answered];
    DispatchEnabled(s);
  }

  lemma DispatchEnabled(s: State)
    requires s.loop.Idle? && M.Valid(s.reader) && s.queue != [] && s.queue[0] < |s.reqs|
    ensures Enabled(s, Dispatch)
  {
  }

  lemma Emitted(s: State)
    requires R.Sent(s) && R.Streaming(s) && R.GoodServer(s.server) && M.Valid(s.reader) && M.GetReply(s.reader).Emit?
    ensures s.answered < |s.log|
  {
    hide R.Sent, R.Streaming, R.GoodServer, M.GetReply, M.Valid, AnswerTo;
    R.EmitIsAnswer(s);
  }

  lemma InvParts(s: State)
    requires Running(s)
    ensures R.Sent(s) && R.Streaming(s) && R.GoodServer(s.server) && |s.log| == |s.sent|
    ensures forall k :: 0 <= k < |s.sent| ==> s.sent[k] < |s.reqs|
  {
  }

  lemma RunFrom(s: State, step: Step, s1: State, more: seq<Step>)
    requires Takes(s, step, s1) && R.IsRun(s1, more)
    ensures R.IsRun(s, [step] + more) && R.Exec(s, [step] + more) == R.Exec(s1, more)
  {
    hide Enabled, Apply;
    assert ([step] + more)[0] == step && ([step] + more)[1..] == more;
  }

  /** What has been received is whole commands' answers and at most one cut short; all whole ones are dispatched. */
  lemma ReadAgrees(s: State, s1: State, s': State, k: nat)
    requires Running(s) && Running(s1) && Running(s') && OnlyReads(s, s1) && OnlyReads(s1, s')
    requires s.read + k == s1.read == s'.read <= |Output(s)| && M.Valid(s'.reader) && !M.GetReply(s'.reader).Emit?
    ensures OnlyReads(s, s') && Output(s)[..s.read] + Output(s)[s.read..s.read + k] == Output(s')[..s'.read]
    ensures var p := ParseStream(Output(s')[..s'.read]);
      !p.tail.Broken? && |p.replies| <= |s'.sent| && R.Given(s') == p.replies
  {
    hide Running, Output, R.Given, R.Sent, R.Streaming, R.GoodServer, M.Valid, M.GetReply, ParseStream;
    InvParts(s');
    RunningGives(s');
    SameOutput(s, s');
    WholeReplies(s');
  }

  lemma SameOutput(s: State, s': State)
    requires OnlyReads(s, s') && s.heard <= |s.wire|
    ensures Output(s') == Output(s)
  {
  }

  lemma WholeReplies(s: State)
    requires R.Sent(s) && R.Streaming(s) && R.GoodServer(s.server) && M.Valid(s.reader) && !M.GetReply(s.reader).Emit?
    requires s.heard <= |s.wire| && s.read <= |Output(s)| && s.answered <= |s.log| == |s.sent|
    ensures var p := ParseStream(Output(s)[..s.read]);
      !p.tail.Broken? && |p.replies| <= |s.sent| && R.Given(s) == p.replies
  {
    hide R.Sent, AnswerTo, M.GetReply, M.Valid, M.Drain, EncodeAll, ParseStream, R.GoodServer, Encodable, Fits, R.Given;
    R.SaidIs(s);
    PrefixOfEncoding(R.Said(s), s.read);
    M.DrainParses(Output(s)[..s.read]);
    M.DrainUnfold(s.reader);
    assert R.Given(s) + [] == R.Given(s);
  }

  method ReadSome(ac: A.AsyncContext, data: seq<byte>)
    requires Working(ac)
    requires var p := ParseStream(ac.received + data); !p.tail.Broken? && |p.replies| <= |ac.pushed|
    modifies ac, ac.replies.Repr
    ensures Working(ac) && ac.pushed == old(ac.pushed) && ac.obuf == old(ac.obuf) && ac.written == old(ac.written)
    ensures ac.received == old(ac.received) + data && ac.answers == ParseStream(ac.received).replies
  {
    hide A.ScriptFrees, A.AsyncContext.Consistent, M.Drain, ParseStream;
    var misuse, aborted := ac.HandleRead(A.Established, A.Bytes(data));
    assert !ac.released && !aborted;
    ac.TracedParses();
  }

  // ---------- callers, server and start ----------

  /** Steps of callers and of the server, and the read of the pipe: none touches the context. */
  predicate Elsewhere(step: Step) {
    CallerStep(step) || step.ReadPipe? || step.Hear?
  }

  lemma ElsewhereAgrees(s: State, step: Step, s': State, pushed: seq<L.Callback>, answers: seq<Reply>,
                        received: seq<byte>)
    requires Running(s) && Takes(s, step, s') && Elsewhere(step)
    requires Agree(s, pushed, answers, received, s.wire, s.obuf)
    ensures Running(s') && Agree(s', pushed, answers, received, s'.wire, s'.obuf)
    ensures s'.wire == s.wire && s'.obuf == s.obuf
  {
    hide R.Inv, A.Sendable, Apply, Enabled, R.Given, Output, CallbacksOf;
    R.InvStep(s, step);
    ElsewhereEffect(s, step, s');
    RunningGives(s);
    RunningGives(s');
    hide Running;
    OutputStays(s, s');
    SameGiven(s, s');
  }

  lemma ElsewhereEffect(s: State, step: Step, s': State)
    requires Takes(s, step, s') && Elsewhere(step) && s.up && (s.loop.Idle? || s.loop.Handling?)
    requires forall i :: 0 <= i < |s.reqs| ==> A.Sendable(s.reqs[i].argv)
    ensures s'.server == s.server && s'.log == s.log && s'.sent == s.sent && s'.answered == s.answered
    ensures s'.wire == s.wire && s'.obuf == s.obuf && s'.read == s.read && s.heard <= s'.heard
    ensures s'.up && (s'.loop.Idle? || s'.loop.Handling?)
    ensures forall i :: 0 <= i < |s'.reqs| ==> A.Sendable(s'.reqs[i].argv)
  {
    if step.Unlink? {
      UnlinkEffect(s, step.i);
    } else if step.CheckStatus? {
      CheckEffect(s, step.i);
    }
    hide A.Sendable, Output, M.GetReply, M.Valid, C.FormatAll, Find, Remove, LastAt;
  }

  /** What has been received does not change when the server says more. */
  lemma OutputStays(s: State, s': State)
    requires s.heard <= s'.heard <= |s'.wire| && s'.wire == s.wire && s'.server == s.server
    requires s'.read == s.read <= |Output(s)|
    ensures s'.read <= |Output(s')| && Output(s')[..s'.read] == Output(s)[..s.read]
  {
    hide ParseStream, EncodeAll;
    var a, b := s.wire[..s.heard], s'.wire[..s'.heard];
    assert b == a + b[|a|..];
    ParseStreamExtends(a, b[|a|..]);
    var ca, cb := ParseStream(a).replies, ParseStream(b).replies;
    R.AnswersPrefix(s.server, ca, cb);
    var more := Answers(s.server, cb)[|ca|..];
    assert Answers(s.server, cb) == Answers(s.server, ca) + more;
    EncodeAllAppend(Answers(s.server, ca), more);
  }

  /** A new connection, established at its first event, is the protocol's initial state. */
  method Start(ghost server: seq<Reply> -> Reply) returns (ac: A.AsyncContext)
    requires R.GoodServer(server)
    ensures fresh(ac) && Joined(ac, R.Init(server))
  {
    hide Running, Working, A.AsyncContext.Consistent;
    InitRuns(server);
    ac := Connected();
  }

  method Connected() returns (ac: A.AsyncContext)
    ensures fresh(ac) && Working(ac) && ac.pushed == [] && ac.answers == []
    ensures ac.received == ac.written == ac.obuf == []
  {
    hide A.AsyncContext.Ready, A.AsyncContext.Consistent, A.AsyncContext.Reported, A.AsyncContext.FreedByReply;
    hide A.AsyncContext.Quiet, A.ScriptFrees;
    ac := Unconnected();
    var misuse := ac.HandleWrite(A.Established, A.WriteAgain);
  }

  method Unconnected() returns (ac: A.AsyncContext)
    ensures fresh(ac) && fresh(ac.replies.Repr) && ac.Ready() && ac.Quiet() && ac.onConnect.None?
    ensures !ac.connected && !ac.Closing() && ac.cerr == 0 && ac.pushed == [] && ac.answers == []
    ensures ac.received == ac.accepted == ac.written == ac.obuf == []
  {
    hide A.AsyncContext.Ready;
    ac := new A.AsyncContext(_ => [], None, None);
  }

  lemma InitRuns(server: seq<Reply> -> Reply)
    requires R.GoodServer(server)
    ensures Running(R.Init(server)) && Agree(R.Init(server), [], [], [], [], [])
  {
    hide R.GoodServer, R.Inv;
    R.InitInv(server);
    RunningGives(R.Init(server));
  }
}
