/** Safety of the multiplexing protocol over whole runs: every byte accepted is written in order, every reply a
    caller gets answers its own command, no wake-up is lost, and who frees which request record. */
module ReplyMatching {
  import opened Bytes
  import opened Resp
  import M = ReaderMachine
  import C = Command
  import opened Multiplex

  // ---------- wake-ups ----------

  /** Callers that have enqueued but not yet written their wake-up byte. */
  function Unwritten(reqs: seq<Req>): nat {
    if reqs == [] then 0
    else Unwritten(reqs[..|reqs| - 1]) + (if reqs[|reqs| - 1].phase == Queued then 1 else 0)
  }

  lemma {:induction false} UnwrittenUpdate(reqs: seq<Req>, i: nat, r: Req)
    requires i < |reqs|
    ensures Unwritten(reqs[i := r])
            == Unwritten(reqs) - (if reqs[i].phase == Queued then 1 else 0) + (if r.phase == Queued then 1 else 0)
    decreases |reqs|
  {
    var n := |reqs| - 1;
    if i < n {
      UnwrittenUpdate(reqs[..n], i, r);
      assert reqs[i := r][..n] == reqs[..n][i := r];
    } else {
      assert reqs[i := r][..n] == reqs[..n];
    }
  }

  lemma {:induction false} UnwrittenSame(a: seq<Req>, b: seq<Req>)
    requires |a| == |b| && forall i :: 0 <= i < |a| ==> (b[i].phase == Queued) == (a[i].phase == Queued)
    ensures Unwritten(b) == Unwritten(a)
    decreases |a|
  {
    if a != [] {
      UnwrittenSame(a[..|a| - 1], b[..|b| - 1]);
    }
  }

  lemma UnwrittenAppend(reqs: seq<Req>, r: Req)
    ensures Unwritten(reqs + [r]) == Unwritten(reqs) + (if r.phase == Queued then 1 else 0)
  {
    assert (reqs + [r])[..|reqs + [r]| - 1] == reqs;
  }

  /** Queued commands never exceed the wake-ups on their way. */
  predicate Woken(s: State) {
    |s.cmdList| <= s.pipe + Unwritten(s.reqs) + (if s.loop.Handling? then s.loop.n else 0)
  }

  lemma WokenStep(s: State, step: Step)
    requires Ownership(s) && Woken(s) && Enabled(s, step)
    ensures Woken(Apply(s, step))
  {
    LoopAlive(s);
    hide Unwritten, Ownership, Apply, Enabled;
    match step
    case Unlink(i) => WokenUnlink(s, i);
    case CheckStatus(i) => WokenCheck(s, i);
    case TaskDeal => WokenDeal(s);
    case _ => WokenPlain(s, step);
  }

  lemma WokenPlain(s: State, step: Step)
    requires Woken(s) && Enabled(s, step) && !step.Unlink? && !step.CheckStatus? && !step.TaskDeal?
    requires forall j :: 0 <= j < |s.cmdList| ==> s.cmdList[j] < |s.reqs|
    requires s.loop.Gone? ==> s.cmdList == []
    ensures Woken(Apply(s, step))
  {
    hide Unwritten, Output, M.GetReply, M.Valid, Multiplex.A.Sendable, DropAll;
    var s' := Apply(s, step);
    match step
    case Arrive(argv, addr) => UnwrittenAppend(s.reqs, s'.reqs[|s.reqs|]);
    case Enqueue(i) => UnwrittenUpdate(s.reqs, i, s'.reqs[i]);
    case WriteByte(i) => UnwrittenUpdate(s.reqs, i, s'.reqs[i]);
    case Pick(i) => UnwrittenUpdate(s.reqs, i, s'.reqs[i]);
    case Leave(i) => UnwrittenUpdate(s.reqs, i, s'.reqs[i]);
    case Dispatch =>
      if M.GetReply(s.reader).Emit? {
        UnwrittenUpdate(s.reqs, s.queue[0], s'.reqs[s.queue[0]]);
      }
    case DrainOne => UnwrittenUpdate(s.reqs, s.queue[0], s'.reqs[s.queue[0]]);
    case _ =>
  }

  lemma WokenUnlink(s: State, i: Id)
    requires Ownership(s) && Enabled(s, Unlink(i)) && forall j :: 0 <= j < |s.cmdList| ==> s.cmdList[j] < |s.reqs|
    ensures Woken(s) ==> Woken(Apply(s, Unlink(i)))
  {
    UnlinkEffect(s, i);
    var s', t := Apply(s, Unlink(i)), Find(s.reqs, s.cmdList, s.reqs[i].addr);
    if t.Some? {
      RemoveIs(s.cmdList, t.value);
    }
    assert |s'.cmdList| <= |s.cmdList| && s'.pipe == s.pipe && s'.loop == s.loop;
    hide Apply, Ownership, Find, Unwritten;
    UnwrittenSame(s.reqs, s'.reqs);
  }

  lemma WokenCheck(s: State, i: Id)
    requires Enabled(s, CheckStatus(i)) && forall j :: 0 <= j < |s.cmdList| ==> s.cmdList[j] < |s.reqs|
    ensures Woken(s) ==> Woken(Apply(s, CheckStatus(i)))
  {
    CheckEffect(s, i);
    var s' := Apply(s, CheckStatus(i));
    assert s'.pipe == s.pipe;
    hide Apply, Unwritten, LastAt;
    UnwrittenSame(s.reqs, s'.reqs);
  }

  lemma WokenDeal(s: State)
    requires Enabled(s, TaskDeal) && Woken(s) && forall j :: 0 <= j < |s.cmdList| ==> s.cmdList[j] < |s.reqs|
    requires !s.up ==> s.loop.Closing? || s.loop.Gone?
    ensures Woken(Apply(s, TaskDeal))
  {
    hide Submit, Unwritten;
    WokenSubmit(s, s.loop.n);
  }

  lemma WokenSubmit(s: State, n: nat)
    requires forall j :: 0 <= j < |s.cmdList| ==> s.cmdList[j] < |s.reqs|
    ensures Submit(s, n).reqs == s.reqs && Submit(s, n).pipe == s.pipe && Submit(s, n).loop == Idle
    ensures |Submit(s, n).cmdList| <= if |s.cmdList| > n then |s.cmdList| - n else 0
  {
    hide C.FormatAll;
  }

  /** With no byte in the pipe, no caller about to write one and the loop idle, no command is stranded. */
  lemma NoLostWakeUp(s: State)
    requires Ownership(s) && Woken(s)
    requires s.pipe == 0 && !s.loop.Handling? && forall i :: 0 <= i < |s.reqs| ==> s.reqs[i].phase != Queued
    ensures s.cmdList == []
  {
    NoneUnwritten(s.reqs);
  }

  lemma {:induction false} NoneUnwritten(reqs: seq<Req>)
    requires forall i :: 0 <= i < |reqs| ==> reqs[i].phase != Queued
    ensures Unwritten(reqs) == 0
    decreases |reqs|
  {
    if reqs != [] {
      NoneUnwritten(reqs[..|reqs| - 1]);
    }
  }

  // ---------- bytes ----------

  /** What the server may answer: replies the protocol can carry. */
  ghost predicate GoodServer(server: seq<Reply> -> Reply) {
    forall h :: Encodable(server(h)) && Fits(server(h), MAX_DEPTH)
  }

  /** `log` holds the commands sent, in order; the bytes written followed by those buffered spell exactly them. */
  predicate Sent(s: State) {
    && |s.log| == |s.sent|
    && (forall k :: 0 <= k < |s.sent| ==> s.sent[k] < |s.reqs| && s.log[k] == s.reqs[s.sent[k]].argv)
    && s.wire + s.obuf == C.FormatAll(s.log)
    && s.heard <= |s.wire|
  }

  /** The commands the server has heard are the first ones sent. */
  lemma HeardCommands(s: State)
    requires Sent(s)
    ensures var cmds := ParseStream(s.wire[..s.heard]).replies;
      |cmds| <= |s.log| && cmds == C.Commands(s.log[..|cmds|])
  {
    hide ParseStream, C.FormatAll, EncodeAll, Encodable, Fits;
    var all := C.Commands(s.log);
    C.FormatAllIsEncoding(s.log);
    assert s.wire[..s.heard] == (s.wire + s.obuf)[..s.heard];
    PrefixOfEncoding(all, s.heard);
    var cmds := ParseStream(s.wire[..s.heard]).replies;
    assert cmds == all[..|cmds|];
    assert C.Commands(s.log[..|cmds|]) == all[..|cmds|];
  }

  /** The replies the server has sent so far. */
  function Said(s: State): seq<Reply>
    requires s.heard <= |s.wire|
  {
    Answers(s.server, ParseStream(s.wire[..s.heard]).replies)
  }

  lemma SaidIs(s: State)
    requires Sent(s) && GoodServer(s.server)
    ensures |Said(s)| <= |s.log|
    ensures forall k :: 0 <= k < |Said(s)| ==>
      Said(s)[k] == AnswerTo(s, k) && Encodable(Said(s)[k]) && Fits(Said(s)[k], MAX_DEPTH)
  {
    hide ParseStream, Encodable, Fits;
    HeardCommands(s);
    var cmds := ParseStream(s.wire[..s.heard]).replies;
    forall k | 0 < k <= |cmds|
      ensures cmds[..k] == C.Commands(s.log[..k])
    {
      assert s.log[..|cmds|][..k] == s.log[..k];
    }
  }

  /** The answers dispatched so far. */
  function Given(s: State): (r: seq<Reply>)
    requires s.answered <= |s.log|
    ensures |r| == s.answered && forall k :: 0 <= k < |r| ==> r[k] == AnswerTo(s, k)
  {
    seq(s.answered, k requires 0 <= k < s.answered => AnswerTo(s, k))
  }

  /** The reader is where the bytes received leave it after the dispatched replies were taken. */
  predicate Streaming(s: State) {
    && s.heard <= |s.wire| && s.read <= |Output(s)| && s.answered <= |s.log| && M.Valid(s.reader)
    && var d := M.Drain(s.reader);
       M.Drain(M.Feed(M.FRESH, Output(s)[..s.read])) == M.Drained(Given(s) + d.replies, d.m)
  }

  /** The next reply out of the reader is the answer to the oldest unanswered command. */
  lemma EmitIsAnswer(s: State)
    requires Sent(s) && Streaming(s) && GoodServer(s.server) && M.GetReply(s.reader).Emit?
    ensures s.answered < |s.log| && M.GetReply(s.reader).reply == AnswerTo(s, s.answered)
  {
    hide ParseStream, M.Drain, EncodeAll, Sent, Encodable, Fits, AnswerTo, M.GetReply;
    SaidIs(s);
    PrefixOfEncoding(Said(s), s.read);
    M.DrainParses(Output(s)[..s.read]);
    M.DrainUnfold(s.reader);
    var got := M.GetReply(s.reader);
    var all := Given(s) + M.Drain(s.reader).replies;
    assert all <= Said(s);
    assert all[s.answered] == got.reply;
  }

  lemma StreamingReceive(s: State, k: nat)
    requires Streaming(s) && Enabled(s, Receive(k)) && Ownership(s)
    ensures Streaming(Apply(s, Receive(k)))
  {
    hide ParseStream, M.Drain, EncodeAll, Ownership, AnswerTo;
    LoopAlive(s);
    var s' := Apply(s, Receive(k));
    var out := Output(s);
    var x := out[s.read..s.read + k];
    assert Output(s') == out;
    assert out[..s.read + k] == out[..s.read] + x;
    M.FeedBehaves(out[..s.read], x, Given(s), s.reader);
    AnswersSame(s, s');
    assert Given(s') == Given(s);
  }

  lemma StreamingDispatch(s: State)
    requires Sent(s) && Streaming(s) && GoodServer(s.server) && Enabled(s, Dispatch) && Ownership(s)
    ensures Streaming(Apply(s, Dispatch))
  {
    hide ParseStream, M.Drain, EncodeAll, Ownership, AnswerTo, M.GetReply, Sent;
    LoopAlive(s);
    var s' := Apply(s, Dispatch);
    var got := M.GetReply(s.reader);
    assert Output(s') == Output(s);
    M.DrainUnfold(s.reader);
    AnswersSame(s, s');
    if got.Emit? {
      EmitIsAnswer(s);
      assert Given(s') == Given(s) + [got.reply];
      assert Given(s) + M.Drain(s.reader).replies == Given(s') + M.Drain(got.m).replies;
    } else {
      M.IdleIsDrained(s.reader);
      assert Given(s') == Given(s);
    }
  }

  lemma AnswersSame(s: State, s': State)
    requires s'.server == s.server && s'.log == s.log
    ensures forall k :: 0 <= k < |s.log| ==> AnswerTo(s', k) == AnswerTo(s, k)
  {
  }

  /** What the server hears or the client sends only adds to the server's output. */
  lemma StreamingGrows(s: State, s': State)
    requires Sent(s) && Sent(s') && Streaming(s)
    requires s'.server == s.server && s'.read == s.read && s'.reader == s.reader && s'.answered == s.answered
    requires s.log <= s'.log && s.wire[..s.heard] <= s'.wire[..s'.heard]
    ensures Streaming(s')
  {
    hide ParseStream, M.Drain, EncodeAll, C.FormatAll;
    var a, b := s.wire[..s.heard], s'.wire[..s'.heard];
    assert b == a + b[|a|..];
    ParseStreamExtends(a, b[|a|..]);
    var ca, cb := ParseStream(a).replies, ParseStream(b).replies;
    AnswersPrefix(s.server, ca, cb);
    var more := Answers(s.server, cb)[|ca|..];
    assert Answers(s.server, cb) == Answers(s.server, ca) + more;
    EncodeAllAppend(Answers(s.server, ca), more);
    assert Output(s) <= Output(s');
    assert Output(s')[..s.read] == Output(s)[..s.read];
    assert Given(s') == Given(s) by {
      forall k | 0 <= k < s.answered
        ensures AnswerTo(s', k) == AnswerTo(s, k)
      {
        assert s'.log[..k + 1] == s.log[..k + 1];
      }
    }
  }

  lemma AnswersPrefix(server: seq<Reply> -> Reply, a: seq<Reply>, b: seq<Reply>)
    requires a <= b
    ensures Answers(server, a) == Answers(server, b)[..|a|]
  {
    forall k | 0 < k <= |a|
      ensures a[..k] == b[..k]
    {
    }
  }

  // ---------- replies ----------

  /** `t` is the server's answer to the command of request `i`, already dispatched. */
  ghost predicate IsAnswer(s: State, i: Id, t: Reply) {
    exists k :: 0 <= k < s.answered && k < |s.log| && k < |s.sent| && s.sent[k] == i && t == AnswerTo(s, k)
  }

  /** Every reply stored in a record or taken by a caller answers that caller's own command. */
  ghost predicate Replied(s: State) {
    forall i :: 0 <= i < |s.reqs| ==>
      && (s.reqs[i].reply.Some? ==> IsAnswer(s, i, s.reqs[i].reply.value))
      && (s.reqs[i].got.Some? ==> IsAnswer(s, i, s.reqs[i].got.value))
  }

  /** While the connection works, the queue holds exactly the commands not yet answered. */
  predicate Counted(s: State) {
    s.answered + |s.queue| <= |s.sent| && (s.loop.Idle? || s.loop.Handling? ==> s.answered + |s.queue| == |s.sent|)
  }

  ghost predicate Inv(s: State) {
    Ownership(s) && Woken(s) && Sent(s) && Streaming(s) && Counted(s) && Replied(s) && GoodServer(s.server)
  }

  lemma AnswerKept(s: State, s': State, i: Id, t: Reply)
    requires IsAnswer(s, i, t) && s'.server == s.server && s.answered <= s'.answered
    requires s.log <= s'.log && s.sent <= s'.sent
    ensures IsAnswer(s', i, t)
  {
    var k :| 0 <= k < s.answered && k < |s.log| && k < |s.sent| && s.sent[k] == i && t == AnswerTo(s, k);
    assert s'.log[..k + 1] == s.log[..k + 1];
    assert s'.sent[k] == i;
  }

  /** A step that stores no new reply. */
  lemma RepliedKept(s: State, s': State)
    requires Replied(s) && s'.server == s.server && s.answered <= s'.answered && s.log <= s'.log && s.sent <= s'.sent
    requires NoNewReply(s, s')
    ensures Replied(s')
  {
    hide IsAnswer;
    forall i | 0 <= i < |s'.reqs|
      ensures s'.reqs[i].reply.Some? ==> IsAnswer(s', i, s'.reqs[i].reply.value)
      ensures s'.reqs[i].got.Some? ==> IsAnswer(s', i, s'.reqs[i].got.value)
    {
      if s'.reqs[i].reply.Some? {
        AnswerKept(s, s', i, s'.reqs[i].reply.value);
      }
      if s'.reqs[i].got.Some? {
        AnswerKept(s, s', i, s'.reqs[i].got.value);
      }
    }
  }

  /** The one step that stores a reply stores the answer to the command at the head of the queue. */
  lemma RepliedDispatch(s: State)
    requires Inv(s) && Enabled(s, Dispatch) && M.GetReply(s.reader).Emit?
    ensures Replied(Apply(s, Dispatch))
  {
    hide IsAnswer, AnswerTo, Streaming, Woken, M.GetReply, M.Valid;
    LoopAlive(s);
    EmitIsAnswer(s);
    var s' := Apply(s, Dispatch);
    var i := s.queue[0];
    assert s.sent[s.answered] == i;
    forall j | 0 <= j < |s'.reqs|
      ensures s'.reqs[j].reply.Some? ==> IsAnswer(s', j, s'.reqs[j].reply.value)
      ensures s'.reqs[j].got.Some? ==> IsAnswer(s', j, s'.reqs[j].got.value)
    {
      if s.reqs[j].got.Some? {
        AnswerKept(s, s', j, s.reqs[j].got.value);
      }
      if s.reqs[j].reply.Some? {
        AnswerKept(s, s', j, s.reqs[j].reply.value);
      }
      if j == i {
        NewAnswer(s, s', i);
      }
    }
  }

  lemma NewAnswer(s: State, s': State, i: Id)
    requires s'.server == s.server && s'.log == s.log && s'.sent == s.sent && s'.answered == s.answered + 1
    requires s.answered < |s.log| && s.answered < |s.sent| && s.sent[s.answered] == i
    ensures IsAnswer(s', i, AnswerTo(s, s.answered))
  {
    assert AnswerTo(s', s.answered) == AnswerTo(s, s.answered);
  }

  // ---------- every step, every run ----------

  /** Steps that leave the byte streams and the log alone. */
  ghost predicate SameTraffic(s: State, s': State) {
    && s'.server == s.server && s'.log == s.log && s'.sent == s.sent && s'.answered == s.answered
    && s'.wire == s.wire && s'.obuf == s.obuf && s'.heard == s.heard && s'.read == s.read && s'.reader == s.reader
    && |s.reqs| <= |s'.reqs| && forall i :: 0 <= i < |s.reqs| ==> s'.reqs[i].argv == s.reqs[i].argv
  }

  lemma TrafficKept(s: State, s': State)
    requires Sent(s) && Streaming(s) && SameTraffic(s, s')
    ensures Sent(s') && Streaming(s')
  {
    hide C.FormatAll, Streaming;
    StreamingGrows(s, s');
  }

  predicate RecordStep(step: Step) {
    !(step.TaskDeal? || step.Flush? || step.Hear? || step.Receive? || step.Dispatch?)
  }

  /** No reply is stored; a caller may copy its own. */
  predicate NoNewReply(s: State, s': State) {
    && |s.reqs| <= |s'.reqs|
    && (forall i :: 0 <= i < |s.reqs| ==>
          && (s'.reqs[i].reply == s.reqs[i].reply || s'.reqs[i].reply == None)
          && (s'.reqs[i].got == s.reqs[i].got || s'.reqs[i].got == s.reqs[i].reply))
    && (forall i :: |s.reqs| <= i < |s'.reqs| ==> s'.reqs[i].reply == None && s'.reqs[i].got == None)
  }

  predicate TimeOutStep(step: Step) {
    step.Unlink? || step.CheckStatus?
  }

  lemma RecordTraffic(s: State, step: Step)
    requires Ownership(s) && Counted(s) && Enabled(s, step) && RecordStep(step)
    ensures SameTraffic(s, Apply(s, step)) && Counted(Apply(s, step))
  {
    LoopAlive(s);
    hide Ownership, Apply, Enabled;
    if TimeOutStep(step) {
      TimeOutTraffic(s, step);
    } else {
      PlainTraffic(s, step);
    }
  }

  lemma PlainTraffic(s: State, step: Step)
    requires Counted(s) && Enabled(s, step) && RecordStep(step) && !TimeOutStep(step)
    requires forall j :: 0 <= j < |s.cmdList| ==> s.cmdList[j] < |s.reqs|
    ensures SameTraffic(s, Apply(s, step)) && Counted(Apply(s, step))
  {
    hide Multiplex.A.Sendable, Output, M.GetReply, M.Valid, C.FormatAll;
  }

  lemma RecordReplies(s: State, step: Step)
    requires Ownership(s) && Enabled(s, step) && RecordStep(step)
    ensures NoNewReply(s, Apply(s, step))
  {
    LoopAlive(s);
    hide Ownership, Apply, Enabled, NoNewReply;
    if TimeOutStep(step) {
      TimeOutTraffic(s, step);
    } else {
      PlainReplies(s, step);
    }
  }

  lemma PlainReplies(s: State, step: Step)
    requires Enabled(s, step) && RecordStep(step) && !TimeOutStep(step)
    requires forall j :: 0 <= j < |s.cmdList| ==> s.cmdList[j] < |s.reqs|
    ensures NoNewReply(s, Apply(s, step))
  {
    hide Multiplex.A.Sendable, Output, M.GetReply, M.Valid, C.FormatAll;
  }

  /** The time-out branch takes records out of cmd_list and frees them, and no more. */
  lemma TimeOutTraffic(s: State, step: Step)
    requires Enabled(s, step) && TimeOutStep(step) && forall j :: 0 <= j < |s.cmdList| ==> s.cmdList[j] < |s.reqs|
    ensures SameTraffic(s, Apply(s, step)) && NoNewReply(s, Apply(s, step))
    ensures Counted(s) ==> Counted(Apply(s, step))
  {
    if step.Unlink? {
      UnlinkEffect(s, step.i);
    } else {
      CheckEffect(s, step.i);
    }
    var s' := Apply(s, step);
    hide Apply, Enabled, Find, LastAt, Remove, SameAddrs;
    SameRecords(s, s');
  }

  /** Only records and cmd_list change, and of the records nothing that a command or a reply is kept in. */
  lemma SameRecords(s: State, s': State)
    requires |s'.reqs| == |s.reqs| && s' == s.(reqs := s'.reqs, cmdList := s'.cmdList)
    requires forall j :: 0 <= j < |s.reqs| ==>
      s'.reqs[j].argv == s.reqs[j].argv && s'.reqs[j].reply == s.reqs[j].reply && s'.reqs[j].got == s.reqs[j].got
    ensures SameTraffic(s, s') && NoNewReply(s, s') && (Counted(s) ==> Counted(s'))
  {
  }

  lemma InvRecordStep(s: State, step: Step)
    requires Inv(s) && Enabled(s, step) && RecordStep(step)
    ensures Inv(Apply(s, step))
  {
    hide Ownership, Woken, Sent, Streaming, Replied, Counted, GoodServer, Enabled, Apply, RecordStep, NoNewReply;
    LoopAlive(s);
    var s' := Apply(s, step);
    OwnershipStep(s, step);
    WokenStep(s, step);
    RecordTraffic(s, step);
    RecordReplies(s, step);
    TrafficKept(s, s');
    RepliedKept(s, s');
  }

  lemma InvTaskDeal(s: State)
    requires Inv(s) && Enabled(s, TaskDeal)
    ensures Inv(Apply(s, TaskDeal))
  {
    hide Ownership, Woken, Streaming, Replied, GoodServer, C.FormatAll;
    LoopAlive(s);
    var s' := Apply(s, TaskDeal);
    OwnershipStep(s, TaskDeal);
    WokenStep(s, TaskDeal);
    if s.up {
      var k := Min(s.loop.n, |s.cmdList|);
      var argvs := Argvs(s.reqs, s.cmdList[..k]);
      C.FormatAllAppend(s.log, argvs);
      assert s.wire + (s.obuf + C.FormatAll(argvs)) == (s.wire + s.obuf) + C.FormatAll(argvs);
      assert Sent(s');
    }
    StreamingGrows(s, s');
    RepliedKept(s, s');
  }

  lemma InvTransport(s: State, step: Step)
    requires Inv(s) && Enabled(s, step) && (step.Flush? || step.Hear?)
    ensures Inv(Apply(s, step))
  {
    hide Ownership, Woken, Streaming, Replied, GoodServer, C.FormatAll;
    LoopAlive(s);
    var s' := Apply(s, step);
    OwnershipStep(s, step);
    WokenStep(s, step);
    if step.Flush? {
      assert (s.wire + s.obuf[..step.k]) + s.obuf[step.k..] == s.wire + s.obuf;
    }
    assert Sent(s');
    assert s.wire[..s.heard] <= s'.wire[..s'.heard];
    StreamingGrows(s, s');
    RepliedKept(s, s');
  }

  lemma InvArrival(s: State, step: Step)
    requires Inv(s) && Enabled(s, step) && (step.Receive? || step.Dispatch?)
    ensures Inv(Apply(s, step))
  {
    hide Ownership, Woken, Streaming, Replied, GoodServer, C.FormatAll, M.GetReply, Output, M.Valid;
    LoopAlive(s);
    var s' := Apply(s, step);
    OwnershipStep(s, step);
    WokenStep(s, step);
    if step.Receive? {
      StreamingReceive(s, step.k);
      RepliedKept(s, s');
    } else {
      StreamingDispatch(s);
      if M.GetReply(s.reader).Emit? {
        RepliedDispatch(s);
      } else {
        RepliedKept(s, s');
      }
    }
  }

  /** Every step of every participant keeps the invariant. */
  lemma InvStep(s: State, step: Step)
    requires Inv(s) && Enabled(s, step)
    ensures Inv(Apply(s, step))
  {
    hide Inv, Enabled, Apply;
    if RecordStep(step) {
      InvRecordStep(s, step);
    } else if step.TaskDeal? {
      InvTaskDeal(s);
    } else if step.Flush? || step.Hear? {
      InvTransport(s, step);
    } else {
      InvArrival(s, step);
    }
  }

  /** A connection just established. */
  function Init(server: seq<Reply> -> Reply): State {
    State(server, [], [], [], true, Idle, 0, [], [], 0, 0, M.FRESH, [], [], 0)
  }

  lemma InitInv(server: seq<Reply> -> Reply)
    requires GoodServer(server)
    ensures Inv(Init(server))
  {
    hide GoodServer, M.Drain, ParseStream;
    var s := Init(server);
    EmptyStream();
    assert s.wire[..0] == [];
    assert Output(s) == [];
    assert Output(s)[..0] == [];
    M.DrainFresh();
    assert M.Feed(M.FRESH, []) == M.FRESH;
    assert Given(s) + [] == [];
  }

  /** The steps can be taken one after the other. */
  predicate IsRun(s: State, steps: seq<Step>)
    decreases |steps|
  {
    steps == [] ||
    (&& Enabled(s, steps[0])
     && (forall j :: 0 <= j < |s.cmdList| ==> s.cmdList[j] < |s.reqs|)
     && IsRun(Apply(s, steps[0]), steps[1..]))
  }

  function Exec(s: State, steps: seq<Step>): State
    requires IsRun(s, steps)
    decreases |steps|
  {
    if steps == [] then s else Exec(Apply(s, steps[0]), steps[1..])
  }

  lemma {:induction false} RunInv(s: State, steps: seq<Step>)
    requires Inv(s) && IsRun(s, steps)
    ensures Inv(Exec(s, steps))
    decreases |steps|
  {
    hide Inv, Enabled, Apply;
    if steps != [] {
      InvStep(s, steps[0]);
      RunInv(Apply(s, steps[0]), steps[1..]);
    }
  }

  ghost predicate Reachable(s: State) {
    exists server, steps :: GoodServer(server) && IsRun(Init(server), steps) && s == Exec(Init(server), steps)
  }

  lemma ReachableInv(s: State)
    requires Reachable(s)
    ensures Inv(s)
  {
    hide Inv, GoodServer, IsRun, Exec;
    var server, steps :| GoodServer(server) && IsRun(Init(server), steps) && s == Exec(Init(server), steps);
    InitInv(server);
    RunInv(Init(server), steps);
  }

  lemma ReachableOwned(s: State, i: Id)
    requires Reachable(s) && i < |s.reqs|
    ensures Lists(s) && Owned(s, i)
  {
    hide Reachable, GoodServer, Streaming, Replied, Woken, Owned;
    ReachableInv(s);
  }

  // ---------- the theorems ----------

  /** Reply matching: in every reachable state, a reply a caller has is the server's answer to the command that
      caller sent, whatever other callers did and however many of them timed out. */
  lemma CallersGetTheirOwnReply(s: State, i: Id)
    requires Reachable(s) && i < |s.reqs| && s.reqs[i].got.Some?
    ensures exists k :: 0 <= k < |s.log| && k < |s.sent| && s.sent[k] == i && s.log[k] == s.reqs[i].argv &&
                        s.reqs[i].got.value == s.server(C.Commands(s.log[..k + 1]))
  {
    ReachableInv(s);
    var t := s.reqs[i].got.value;
    assert IsAnswer(s, i, t);
    var k :| 0 <= k < s.answered && k < |s.log| && k < |s.sent| && s.sent[k] == i && t == AnswerTo(s, k);
  }

  /** Bytes written followed by bytes buffered are the accepted commands, in the order they were accepted. */
  lemma BytesAreTheCommands(s: State)
    requires Reachable(s)
    ensures s.wire + s.obuf == C.FormatAll(s.log)
    ensures |s.log| == |s.sent|
    ensures forall k :: 0 <= k < |s.sent| ==> s.sent[k] < |s.reqs| && s.log[k] == s.reqs[s.sent[k]].argv
  {
    hide GoodServer, Streaming, Replied, Woken, Ownership;
    ReachableInv(s);
  }

  /** A reply never arrives with no callback waiting for it. */
  lemma NoSpuriousReply(s: State)
    requires Reachable(s) && s.loop.Idle?
    ensures M.Valid(s.reader) && Enabled(s, Dispatch)
    ensures M.GetReply(s.reader).Emit? ==> s.answered < |s.sent| && s.queue != [] && s.queue[0] == s.sent[s.answered]
  {
    hide Reachable, Streaming, Replied, Woken, AnswerTo, M.GetReply, GoodServer, M.Valid;
    ReachableInv(s);
    ReaderValid(s);
    if M.GetReply(s.reader).Emit? {
      EmitIsAnswer(s);
    }
  }

  lemma ReaderValid(s: State)
    requires Streaming(s)
    ensures M.Valid(s.reader)
  {
  }

  /** No queued command is stranded when every wake-up has been handled. */
  lemma NothingStranded(s: State)
    requires Reachable(s) && s.pipe == 0 && !s.loop.Handling?
    requires forall i :: 0 <= i < |s.reqs| ==> s.reqs[i].phase != Queued
    ensures s.cmdList == []
  {
    hide GoodServer, Streaming, Replied;
    ReachableInv(s);
    NoLostWakeUp(s);
  }

  lemma {:induction false} RunSnoc(s: State, steps: seq<Step>, step: Step)
    requires IsRun(s, steps)
    requires var t := Exec(s, steps); Enabled(t, step) && forall j :: 0 <= j < |t.cmdList| ==> t.cmdList[j] < |t.reqs|
    ensures IsRun(s, steps + [step]) && Exec(s, steps + [step]) == Apply(Exec(s, steps), step)
    decreases |steps|
  {
    hide Enabled, Apply;
    if steps == [] {
      assert steps + [step] == [step] && [step][1..] == [];
    } else {
      assert (steps + [step])[0] == steps[0] && (steps + [step])[1..] == steps[1..] + [step];
      RunSnoc(Apply(s, steps[0]), steps[1..], step);
    }
  }

  lemma ReachStep(s: State, step: Step)
    requires Reachable(s) && Enabled(s, step)
    requires forall j :: 0 <= j < |s.cmdList| ==> s.cmdList[j] < |s.reqs|
    ensures Reachable(Apply(s, step))
  {
    hide GoodServer, IsRun, Exec, Enabled, Apply;
    var server, steps :| GoodServer(server) && IsRun(Init(server), steps) && s == Exec(Init(server), steps);
    RunSnoc(Init(server), steps, step);
  }

  lemma Take(s: State, step: Step) returns (s': State)
    requires Reachable(s) && Enabled(s, step)
    requires forall j :: 0 <= j < |s.cmdList| ==> s.cmdList[j] < |s.reqs|
    ensures Reachable(s') && s' == Apply(s, step)
  {
    ReachStep(s, step);
    s' := Apply(s, step);
  }

  lemma InitReachable(server: seq<Reply> -> Reply)
    requires GoodServer(server)
    ensures Reachable(Init(server))
  {
    var steps: seq<Step> := [];
    assert IsRun(Init(server), steps) && Exec(Init(server), steps) == Init(server);
  }

  /** The loop writes the first command, and the server's answer to it is received. */
  lemma Exchange(s: State) returns (s': State)
    requires Reachable(s) && s.up && s.loop.Idle? && |s.log| == 1
    requires s.wire == [] && s.heard == s.read == s.answered == 0 && s.reader == M.FRESH
    requires forall j :: 0 <= j < |s.cmdList| ==> s.cmdList[j] < |s.reqs|
    ensures var t := s.server(C.Commands(s.log));
      && Reachable(s') && Encodable(t) && Fits(t, MAX_DEPTH)
      && s' == s.(wire := s'.wire, obuf := s'.obuf, heard := s'.heard, read := s'.read,
                  reader := M.Feed(M.FRESH, EncodeAll([t])))
  {
    SentSo(s);
    hide GoodServer, Reachable, C.FormatAll, EncodeAll, Output, Encodable, Fits, Multiplex.A.Sendable, M.Valid;
    var a := Take(s, Flush(|s.obuf|));
    assert a.wire == s.obuf == C.FormatAll(s.log);
    var b := Take(a, Hear(|a.wire|));
    OneAnswer(s, b, s.server(C.Commands(s.log)));
    assert Output(b)[0..|Output(b)|] == Output(b);
    s' := Take(b, Receive(|Output(b)|));
  }

  lemma SentSo(s: State)
    requires Reachable(s)
    ensures s.wire + s.obuf == C.FormatAll(s.log) && GoodServer(s.server)
  {
    ReachableInv(s);
    hide Ownership, Woken, Streaming, Counted, Replied, GoodServer, C.FormatAll;
  }

  /** The loop writes the first command, and the server answers it. */
  lemma Serve(s: State) returns (s': State)
    requires Reachable(s) && s.up && s.loop.Idle? && |s.log| == 1 && s.reqs != [] && s.queue == [0]
    requires s.wire == [] && s.heard == s.read == s.answered == 0 && s.reader == M.FRESH
    requires forall j :: 0 <= j < |s.cmdList| ==> s.cmdList[j] < |s.reqs|
    ensures Reachable(s') && s'.up && s'.loop.Idle? && s'.cmdList == s.cmdList && s'.log == s.log && s'.queue == []
    ensures s'.pipe == s.pipe
    ensures s'.reqs == s.reqs[0 := Deliver(s.reqs[0], Some(s.server(C.Commands(s.log))))]
  {
    hide GoodServer, Reachable, M.GetReply, C.FormatAll, EncodeAll, Output, M.Valid, Deliver, Encodable, Fits;
    var c := Exchange(s);
    OneReply(s.server(C.Commands(s.log)));
    s' := Take(c, Dispatch);
  }

  lemma OneAnswer(s: State, b: State, t: Reply)
    requires |s.log| == 1 && b.server == s.server && t == s.server(C.Commands(s.log)) && GoodServer(s.server)
    requires b.heard == |b.wire| && b.wire == C.FormatAll(s.log)
    ensures Output(b) == EncodeAll([t]) && Encodable(t) && Fits(t, MAX_DEPTH)
  {
    hide C.FormatAll, ParseStream, Encodable, Fits, EncodeAll;
    C.CommandsParseBack(s.log, []);
    EmptyStream();
    assert C.FormatAll(s.log) + [] == C.FormatAll(s.log) == b.wire[..b.heard];
    var cmds := C.Commands(s.log);
    assert cmds + [] == cmds && cmds[..1] == cmds;
    assert Answers(b.server, cmds) == [t];
  }

  lemma OneReply(t: Reply)
    requires Encodable(t) && Fits(t, MAX_DEPTH)
    ensures var reader := M.Feed(M.FRESH, EncodeAll([t]));
      M.Valid(reader) && M.GetReply(reader).Emit? && M.GetReply(reader).reply == t
  {
    hide EncodeAll, Encodable, Fits, M.GetReply, M.Drain;
    M.DrainConsumes([t], []);
    M.DrainFresh();
    assert M.Feed(M.FRESH, []) == M.FRESH;
    assert EncodeAll([t]) + [] == EncodeAll([t]) && [t] + [] == [t];
    var reader := M.Feed(M.FRESH, EncodeAll([t]));
    M.DrainUnfold(reader);
    var d, got := M.Drain(reader), M.GetReply(reader);
    assert |d.replies| == 1 && d.replies[0] == t;
    if got.Emit? {
      assert d.replies == [got.reply] + M.Drain(got.m).replies;
    }
  }

  /** A caller can get a reply. */
  lemma CallerIsAnswered(server: seq<Reply> -> Reply, argv: seq<seq<byte>>) returns (s: State)
    requires GoodServer(server) && Multiplex.A.Sendable(argv)
    ensures Reachable(s) && |s.reqs| == 1 && s.reqs[0].phase == Done(Returned)
    ensures s.reqs[0].got == Some(server(C.Commands([argv])))
  {
    hide GoodServer, Reachable, Output, M.GetReply, Multiplex.A.Sendable;
    s := Submitted(server, argv);
    s := Serve(s);
    s := Take(s, Pick(0));
    s := Take(s, Leave(0));
  }

  /** The first command has reached the output buffer. */
  lemma Submitted(server: seq<Reply> -> Reply, argv: seq<seq<byte>>) returns (s: State)
    requires GoodServer(server) && Multiplex.A.Sendable(argv)
    ensures Reachable(s) && s.server == server && s.up && s.loop == Idle && s.cmdList == [] && s.queue == [0]
    ensures s.log == [argv] && s.wire == [] && s.heard == s.read == s.answered == 0 && s.reader == M.FRESH
    ensures s.reqs == [Req(argv, 0, Waiting, 2, None, None, false, 0, 0)] && s.pipe == 0
  {
    hide GoodServer, Reachable, Output, C.FormatAll, M.GetReply, Multiplex.A.Sendable;
    InitReachable(server);
    s := Init(server);
    s := Take(s, Arrive(argv, 0));
    s := Take(s, Enqueue(0));
    s := Take(s, WriteByte(0));
    s := Take(s, ReadPipe);
    s := Take(s, TaskDeal);
  }
}
