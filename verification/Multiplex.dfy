/** Many blocking callers over one connection (the xRedis part of hiredis.c over async.c), as a state machine.
    A step is one locked region, one event of the loop thread, one reply callback, or one access of a caller
    to a shared request record; callers, loop, socket and server interleave freely. */
module Multiplex {
  import opened Bytes
  import opened Resp
  import M = ReaderMachine
  import C = Command
  import A = Async

  type Id = nat

  /** Where a caller stands in `__xRedisCommand`. */
  datatype Phase =
    | Created                 // record allocated, lock not yet taken
    | Queued                  // in cmd_list, wake-up byte not yet written
    | Waiting                 // waiting for the semaphore or its timeout
    | Picked                  // has read the reply field
    | Left                    // dropped its reference, others remain: the time-out branch
    | Unlinked(took: Option<Id>)  // has searched cmd_list for the address of its record
    | Done(fate: Fate)

  /** How a call ended: refused, normally, or out of the time-out branch, with the record that it took out of
      cmd_list, if any, and the connection then seen `up` or not. */
  datatype Fate = TurnedAway | Returned | TimedOut(took: Option<Id>, up: bool)

  /** `cmdInfo`, with its caller: address, reference count, reply field, the caller's copy; whether another caller
      took it out of cmd_list; how often it was freed by its own caller or the engine, and by other callers. */
  datatype Req = Req(argv: seq<seq<byte>>, addr: nat, phase: Phase, refs: int, reply: Option<Reply>,
                     got: Option<Reply>, lost: bool, freed: nat, hit: nat)

  /** The loop thread: between events, in `taskDeal` with `n` wake-ups in hand, draining callbacks after an
      error, past the disconnect callback, or with the context freed. */
  datatype Loop = Idle | Handling(n: nat) | Draining | Closing | Gone

  datatype State = State(
    server: seq<Reply> -> Reply,
    reqs: seq<Req>,
    cmdList: seq<Id>,
    queue: seq<Id>,
    up: bool,
    loop: Loop,
    pipe: nat,
    obuf: seq<byte>,
    wire: seq<byte>,
    heard: nat,
    read: nat,
    reader: M.Machine,
    sent: seq<Id>,
    log: seq<seq<seq<byte>>>,
    answered: nat)

  const MAX_WAKEUPS: nat := 1024

  // ---------- the server ----------

  /** The server answers the k-th command it hears, knowing those before it. */
  function Answers(server: seq<Reply> -> Reply, cmds: seq<Reply>): (r: seq<Reply>)
    ensures |r| == |cmds| && forall k :: 0 <= k < |cmds| ==> r[k] == server(cmds[..k + 1])
  {
    seq(|cmds|, k requires 0 <= k < |cmds| => server(cmds[..k + 1]))
  }

  /** The bytes the server has sent: the encoded answers to the commands complete in what it heard. */
  function Output(s: State): seq<byte>
    requires s.heard <= |s.wire|
  {
    EncodeAll(Answers(s.server, ParseStream(s.wire[..s.heard]).replies))
  }

  /** The server's answer to the k-th command that was sent. */
  function AnswerTo(s: State, k: nat): Reply
    requires k < |s.log|
  {
    s.server(C.Commands(s.log[..k + 1]))
  }

  // ---------- steps ----------

  datatype Step =
    | Arrive(argv: seq<seq<byte>>, addr: nat)
    | Enqueue(i: Id)
    | WriteByte(i: Id)
    | Pick(i: Id)
    | Leave(i: Id)
    | Unlink(i: Id)
    | CheckStatus(i: Id)
    | ReadPipe
    | TaskDeal
    | DiscardWakeUps
    | Flush(k: nat)
    | Hear(k: nat)
    | Receive(k: nat)
    | Dispatch
    | Fail
    | DrainOne
    | Disconnected
    | Release

  predicate InPhase(s: State, i: Id, phase: Phase) {
    i < |s.reqs| && s.reqs[i].phase == phase
  }

  predicate Enabled(s: State, step: Step) {
    match step
    case Arrive(argv, addr) =>
      && s.up && A.Sendable(argv)
      && forall j :: 0 <= j < |s.reqs| && s.reqs[j].addr == addr ==> s.reqs[j].freed + s.reqs[j].hit > 0
    case Enqueue(i) => InPhase(s, i, Created)
    case WriteByte(i) => InPhase(s, i, Queued)
    case Pick(i) => InPhase(s, i, Waiting)
    case Leave(i) => InPhase(s, i, Picked)
    case Unlink(i) => InPhase(s, i, Left)
    case CheckStatus(i) => i < |s.reqs| && s.reqs[i].phase.Unlinked?
    case ReadPipe => s.loop.Idle?
    case TaskDeal => s.loop.Handling?
    case DiscardWakeUps => s.loop.Gone?
    case Flush(k) => s.loop.Idle? && k <= |s.obuf|
    case Hear(k) => s.heard + k <= |s.wire|
    case Receive(k) => s.loop.Idle? && s.heard <= |s.wire| && s.read + k <= |Output(s)|
    case Dispatch =>
      && s.loop.Idle? && M.Valid(s.reader)
      && (M.GetReply(s.reader).Emit? ==> s.queue != [] && s.queue[0] < |s.reqs|)
    case Fail => s.loop.Idle?
    case DrainOne => s.loop.Draining? && s.queue != [] && s.queue[0] < |s.reqs|
    case Disconnected => s.loop.Draining? && s.queue == []
    case Release => s.loop.Closing?
  }

  function SetReq(s: State, i: Id, r: Req): State
    requires i < |s.reqs|
  {
    s.(reqs := s.reqs[i := r])
  }

  /** The reference dropped by whoever gives the record up; the last one frees it. */
  function Drop(r: Req): Req {
    r.(refs := r.refs - 1, freed := if r.refs - 1 <= 0 then r.freed + 1 else r.freed)
  }

  /** `replyCallback` on a record. */
  function Deliver(r: Req, reply: Option<Reply>): Req {
    if r.refs - 1 <= 0 then Drop(r) else Drop(r).(reply := reply)
  }

  /** `disconnectedCallback` on the records still in cmd_list. */
  function DropAll(reqs: seq<Req>, ids: seq<Id>): (r: seq<Req>)
    ensures |r| == |reqs|
  {
    seq(|reqs|, i requires 0 <= i < |reqs| => if i in ids then Drop(reqs[i]) else reqs[i])
  }

  function Remove(ids: seq<Id>, i: Id): seq<Id> {
    if ids == [] then []
    else if ids[0] == i then ids[1..]
    else [ids[0]] + Remove(ids[1..], i)
  }

  function Min(a: nat, b: nat): nat {
    if a < b then a else b
  }

  /** The record in cmd_list with the given address, as `listSearchKey` finds it. */
  function Find(reqs: seq<Req>, ids: seq<Id>, addr: nat): (r: Option<Id>)
    requires forall j :: 0 <= j < |ids| ==> ids[j] < |reqs|
    ensures r.Some? ==> r.value in ids && r.value < |reqs| && reqs[r.value].addr == addr
    ensures r.None? ==> forall j :: 0 <= j < |ids| ==> reqs[ids[j]].addr != addr
  {
    if ids == [] then None
    else if reqs[ids[0]].addr == addr then Some(ids[0])
    else Find(reqs, ids[1..], addr)
  }

  /** The last of the first `n` records with the address of record `i`. */
  function LastAt(reqs: seq<Req>, i: Id, n: nat): (r: Id)
    requires i < n <= |reqs|
    ensures i <= r < n && reqs[r].addr == reqs[i].addr
    ensures forall k :: r < k < n ==> reqs[k].addr != reqs[i].addr
  {
    if reqs[n - 1].addr == reqs[i].addr then n - 1 else LastAt(reqs, i, n - 1)
  }

  /** `free` through the pointer of caller `i`: it frees what was last allocated at that address. */
  function FreeAt(s: State, i: Id): State
    requires i < |s.reqs|
  {
    var v := LastAt(s.reqs, i, |s.reqs|);
    if v == i then SetReq(s, i, s.reqs[i].(freed := s.reqs[i].freed + 1))
    else SetReq(s, v, s.reqs[v].(hit := s.reqs[v].hit + 1))
  }

  /** The commands of the given records. */
  function Argvs(reqs: seq<Req>, ids: seq<Id>): (r: seq<seq<seq<byte>>>)
    requires forall j :: 0 <= j < |ids| ==> ids[j] < |reqs|
    ensures |r| == |ids| && forall j :: 0 <= j < |ids| ==> r[j] == reqs[ids[j]].argv
  {
    seq(|ids|, j requires 0 <= j < |ids| => reqs[ids[j]].argv)
  }

  /** `taskDeal` in the locked region: up to `n` records move from cmd_list to the reply queue, and their
      commands to the output buffer. */
  function Submit(s: State, n: nat): State
    requires forall j :: 0 <= j < |s.cmdList| ==> s.cmdList[j] < |s.reqs|
  {
    var k := Min(n, |s.cmdList|);
    var ids := s.cmdList[..k];
    var argvs := Argvs(s.reqs, ids);
    s.(cmdList := s.cmdList[k..], queue := s.queue + ids, sent := s.sent + ids, log := s.log + argvs,
       obuf := s.obuf + C.FormatAll(argvs), loop := Idle)
  }

  function Apply(s: State, step: Step): State
    requires Enabled(s, step)
    requires forall j :: 0 <= j < |s.cmdList| ==> s.cmdList[j] < |s.reqs|
  {
    match step
    case Arrive(argv, addr) => s.(reqs := s.reqs + [Req(argv, addr, Created, 1, None, None, false, 0, 0)])
    case Enqueue(i) =>
      if s.up then
        SetReq(s, i, s.reqs[i].(phase := Queued, refs := s.reqs[i].refs + 1)).(cmdList := s.cmdList + [i])
      else
        SetReq(s, i, s.reqs[i].(phase := Done(TurnedAway), refs := s.reqs[i].refs + 1, freed := s.reqs[i].freed + 1))
    case WriteByte(i) => SetReq(s, i, s.reqs[i].(phase := Waiting)).(pipe := s.pipe + 1)
    case Pick(i) => SetReq(s, i, s.reqs[i].(phase := Picked, got := s.reqs[i].reply))
    case Leave(i) =>
      SetReq(s, i, Drop(s.reqs[i]).(phase := if s.reqs[i].refs - 1 <= 0 then Done(Returned) else Left))
    case Unlink(i) =>
      var t := Find(s.reqs, s.cmdList, s.reqs[i].addr);
      var a := SetReq(s, i, s.reqs[i].(phase := Unlinked(t)));
      if t.None? then a
      else
        var b := a.(cmdList := Remove(a.cmdList, t.value));
        if t.value == i then b else SetReq(b, t.value, b.reqs[t.value].(lost := true))
    case CheckStatus(i) =>
      var a := SetReq(s, i, s.reqs[i].(phase := Done(TimedOut(s.reqs[i].phase.took, s.up))));
      if s.up then a else FreeAt(a, i)
    case ReadPipe =>
      var n := Min(s.pipe, MAX_WAKEUPS);
      s.(pipe := s.pipe - n, loop := Handling(if n < 1 then MAX_WAKEUPS else n))
    case TaskDeal => if s.up then Submit(s, s.loop.n) else s.(loop := Idle)
    case DiscardWakeUps => s.(pipe := s.pipe - Min(s.pipe, MAX_WAKEUPS))
    case Flush(k) => s.(wire := s.wire + s.obuf[..k], obuf := s.obuf[k..])
    case Hear(k) => s.(heard := s.heard + k)
    case Receive(k) => s.(reader := M.Feed(s.reader, Output(s)[s.read..s.read + k]), read := s.read + k)
    case Dispatch =>
      var got := M.GetReply(s.reader);
      if got.Emit? then
        var i := s.queue[0];
        var s' := SetReq(s, i, Deliver(s.reqs[i], Some(got.reply)));
        s'.(queue := s.queue[1..], reader := got.m, answered := s.answered + 1)
      else s.(reader := got.m)
    case Fail => s.(loop := Draining)
    case DrainOne =>
      var i := s.queue[0];
      SetReq(s, i, Deliver(s.reqs[i], None)).(queue := s.queue[1..])
    case Disconnected => s.(reqs := DropAll(s.reqs, s.cmdList), cmdList := [], up := false, loop := Closing)
    case Release => s.(loop := Gone)
  }

  /** The step is possible and leads to `s'`. */
  ghost predicate Takes(s: State, step: Step, s': State) {
    Enabled(s, step) && (forall j :: 0 <= j < |s.cmdList| ==> s.cmdList[j] < |s.reqs|) && s' == Apply(s, step)
  }

  // ---------- ownership of request records ----------

  predicate Distinct(ids: seq<Id>) {
    forall j, k :: 0 <= j < k < |ids| ==> ids[j] != ids[k]
  }

  /** The engine's lists: known ids, none twice; the reply queue is the tail of what was sent. */
  predicate Lists(s: State) {
    && (forall j :: 0 <= j < |s.cmdList| ==> s.cmdList[j] < |s.reqs|)
    && (forall j :: 0 <= j < |s.sent| ==> s.sent[j] < |s.reqs| && s.sent[j] !in s.cmdList)
    && Distinct(s.cmdList) && Distinct(s.sent)
    && |s.queue| <= |s.sent| && s.queue == s.sent[|s.sent| - |s.queue|..]
    && (!s.up ==> s.cmdList == [] && s.queue == [] && (s.loop.Closing? || s.loop.Gone?))
    && (s.up ==> !s.loop.Closing? && !s.loop.Gone?)
  }

  /** The engine still holds its reference. */
  predicate Held(s: State, i: Id) {
    i in s.cmdList || i in s.queue
  }

  /** No later record has the address. */
  predicate Latest(s: State, i: Id)
    requires i < |s.reqs|
  {
    forall k :: i < k < |s.reqs| ==> s.reqs[k].addr != s.reqs[i].addr
  }

  /** Where a record is in the engine. */
  datatype Place = Place(cmd: bool, queued: bool, sent: bool)

  function PlaceOf(s: State, i: Id): Place {
    Place(i in s.cmdList, i in s.queue, i in s.sent)
  }

  /** The engine's reference has not been dropped: the engine holds it, or another caller has taken the record away. */
  predicate Kept(r: Req, p: Place) {
    p.cmd || p.queued || r.lost
  }

  /** The engine's reference is the only one left while it is kept; without it the record was freed once. */
  predicate EngineOwned(r: Req, p: Place) {
    if Kept(r, p) then r.refs == 1 && r.freed == 0 else r.refs == 0 && r.freed == 1
  }

  /** Who owns record `i`, by the phase of its caller. */
  predicate OwnedBy(r: Req, i: Id, p: Place, up: bool, latest: bool) {
    && (r.lost ==> !p.cmd && !p.queued && !p.sent)
    && match r.phase
       case Created => r.refs == 1 && r.freed == 0 && !Kept(r, p) && !p.sent
       case Queued => r.freed == 0 && r.refs == (if Kept(r, p) then 2 else 1)
       case Waiting => r.freed == 0 && r.refs == (if Kept(r, p) then 2 else 1)
       case Picked => r.freed == 0 && r.refs == (if Kept(r, p) then 2 else 1)
       case Left => EngineOwned(r, p)
       case Unlinked(took) =>
         if took == Some(i) then r.refs == 1 && r.freed == 0 && !Kept(r, p) && !p.sent
         else !p.cmd && EngineOwned(r, p)
       case Done(fate) =>
         !p.cmd &&
         match fate
         case TurnedAway => r.freed == 1 && !r.lost && !p.sent
         case Returned => r.freed == 1 && r.refs == 0 && !Kept(r, p)
         case TimedOut(took, seen) =>
           if took == Some(i) then !Kept(r, p) && !p.sent && r.freed == (if seen then 0 else 1)
           else if seen then EngineOwned(r, p)
           else !up && r.freed == if !r.lost && latest then 2 else 1
  }

  predicate Owned(s: State, i: Id)
    requires i < |s.reqs|
  {
    OwnedBy(s.reqs[i], i, PlaceOf(s, i), s.up, Latest(s, i))
  }

  predicate Records(s: State) {
    Lists(s) && forall i :: 0 <= i < |s.reqs| ==> Owned(s, i)
  }

  // ---------- addresses that are used again ----------

  /** The record that a caller in the time-out branch took out of cmd_list. */
  function Took(r: Req): Option<Id> {
    match r.phase
    case Unlinked(took) => took
    case Done(TimedOut(took, _)) => took
    case _ => None
  }

  /** The caller has freed, through its pointer, memory that was its record's no more. */
  predicate FreedInVain(s: State, j: Id)
    requires j < |s.reqs|
  {
    var r := s.reqs[j];
    r.phase.Done? && r.phase.fate.TimedOut? && !r.phase.fate.up && r.phase.fate.took != Some(j) && !r.lost
  }

  predicate SameAddr(s: State, i: Id, j: Id)
    requires i < |s.reqs| && j < |s.reqs|
  {
    s.reqs[i].addr == s.reqs[j].addr
  }

  /** Caller `j` has freed the record of another one, `i`. */
  predicate Hits(s: State, j: Id, i: Id)
    requires i < |s.reqs| && j < |s.reqs|
  {
    j != i && SameAddr(s, j, i) && FreedInVain(s, j)
  }

  /** Of two records at one address, the earlier one was freed first. */
  predicate Reused(s: State) {
    forall i, j :: 0 <= i < j < |s.reqs| && SameAddr(s, i, j) ==> s.reqs[i].freed > 0
  }

  /** While the connection is up, no caller frees another's record. */
  predicate NoHits(s: State) {
    s.up ==> forall i :: 0 <= i < |s.reqs| ==> s.reqs[i].hit == 0
  }

  /** A caller takes out its own record, or a later one at the address of its own. */
  predicate TakesKnown(s: State) {
    forall j :: 0 <= j < |s.reqs| && Took(s.reqs[j]).Some? ==> TookKnown(s, j, Took(s.reqs[j]).value)
  }

  predicate LossesKnown(s: State) {
    forall i :: 0 <= i < |s.reqs| && s.reqs[i].lost ==> Taken(s, i)
  }

  /** A record freed by another caller is the last one at an address through which some caller has freed in vain. */
  predicate HitsKnown(s: State) {
    forall i :: 0 <= i < |s.reqs| && s.reqs[i].hit > 0 ==> Latest(s, i) && IsHit(s, i)
  }

  predicate VainKnown(s: State) {
    forall j :: 0 <= j < |s.reqs| && FreedInVain(s, j) && !Latest(s, j) ==> s.reqs[LastAt(s.reqs, j, |s.reqs|)].hit > 0
  }

  predicate Tracks(s: State) {
    Reused(s) && NoHits(s) && TakesKnown(s) && LossesKnown(s) && HitsKnown(s) && VainKnown(s)
  }

  predicate TookKnown(s: State, j: Id, x: Id)
    requires j < |s.reqs|
  {
    x == j || (j < x < |s.reqs| && SameAddr(s, j, x) && s.reqs[x].lost)
  }

  /** Some other caller has taken the record out of cmd_list. */
  predicate Taken(s: State, i: Id) {
    exists j :: 0 <= j < |s.reqs| && j != i && Took(s.reqs[j]) == Some(i)
  }

  /** Some other caller has freed the record. */
  predicate IsHit(s: State, i: Id)
    requires i < |s.reqs|
  {
    exists j :: 0 <= j < |s.reqs| && Hits(s, j, i)
  }

  predicate Ownership(s: State) {
    Records(s) && Tracks(s)
  }

  // ---------- every step keeps the records ----------

  lemma {:induction false} RemoveIs(ids: seq<Id>, i: Id)
    requires Distinct(ids)
    ensures Distinct(Remove(ids, i)) && |Remove(ids, i)| <= |ids|
    ensures forall x :: x in Remove(ids, i) <==> x in ids && x != i
  {
    if ids != [] && ids[0] != i {
      RemoveIs(ids[1..], i);
      var tail := Remove(ids[1..], i);
      assert ids == [ids[0]] + ids[1..];
      assert forall k :: 0 <= k < |tail| ==> tail[k] in tail && tail[k] in ids[1..];
      assert ids[0] !in ids[1..];
    } else if ids != [] {
      assert ids == [ids[0]] + ids[1..];
    }
  }

  /** A record that did not change, at the place where it was. */
  predicate Still(s: State, s': State, j: Id)
    requires j < |s.reqs| == |s'.reqs|
  {
    s'.reqs[j] == s.reqs[j] && PlaceOf(s', j) == PlaceOf(s, j)
  }

  predicate SameAddrs(s: State, s': State) {
    |s'.reqs| == |s.reqs| && forall j :: 0 <= j < |s.reqs| ==> s'.reqs[j].addr == s.reqs[j].addr
  }

  lemma LatestSame(s: State, s': State)
    requires SameAddrs(s, s')
    ensures forall i :: 0 <= i < |s.reqs| ==> Latest(s', i) == Latest(s, i)
    ensures forall i :: 0 <= i < |s.reqs| ==> LastAt(s'.reqs, i, |s.reqs|) == LastAt(s.reqs, i, |s.reqs|)
  {
    forall i | 0 <= i < |s.reqs|
      ensures LastAt(s'.reqs, i, |s.reqs|) == LastAt(s.reqs, i, |s.reqs|)
    {
      LastAtSame(s.reqs, s'.reqs, i, |s.reqs|);
    }
  }

  lemma {:induction false} LastAtSame(a: seq<Req>, b: seq<Req>, i: Id, n: nat)
    requires i < n <= |a| == |b| && forall j :: 0 <= j < |a| ==> b[j].addr == a[j].addr
    ensures LastAt(b, i, n) == LastAt(a, i, n)
    decreases n
  {
    if a[n - 1].addr != a[i].addr {
      LastAtSame(a, b, i, n - 1);
    }
  }

  /** The lists are the same, and no record has come. */
  lemma ListsSame(s: State, s': State)
    requires Lists(s) && |s'.reqs| == |s.reqs| && s'.loop == s.loop
    requires s'.cmdList == s.cmdList && s'.queue == s.queue && s'.sent == s.sent && s'.up == s.up
    ensures Lists(s') && forall j :: PlaceOf(s', j) == PlaceOf(s, j)
  {
  }

  /** One record leaves cmd_list. */
  lemma ListsWithout(s: State, s': State, x: Id)
    requires Lists(s) && |s'.reqs| == |s.reqs| && s'.loop == s.loop && x in s.cmdList
    requires s'.cmdList == Remove(s.cmdList, x) && s'.queue == s.queue && s'.sent == s.sent && s'.up == s.up
    ensures Lists(s') && PlaceOf(s', x) == Place(false, false, false)
    ensures forall j :: j != x ==> PlaceOf(s', j) == PlaceOf(s, j)
  {
    RemoveIs(s.cmdList, x);
    assert forall j :: 0 <= j < |s'.cmdList| ==> s'.cmdList[j] in s'.cmdList;
  }

  /** Records change only where their ownership is shown. */
  lemma RecordsChange(s: State, s': State, changed: set<Id>)
    requires Records(s) && Lists(s') && SameAddrs(s, s') && s'.up == s.up
    requires forall j :: 0 <= j < |s.reqs| && j !in changed ==> Still(s, s', j)
    requires forall j :: j in changed && j < |s'.reqs| ==> Owned(s', j)
    ensures Records(s')
  {
    hide OwnedBy, Lists, Latest;
    LatestSame(s, s');
    forall j | 0 <= j < |s'.reqs|
      ensures Owned(s', j)
    {
      if j !in changed {
        assert Owned(s, j) && Still(s, s', j);
      }
    }
  }

  /** Steps that touch neither the lists nor any record. */
  lemma RecordsIdle(s: State, s': State)
    requires Records(s)
    requires s'.reqs == s.reqs && s'.cmdList == s.cmdList && s'.queue == s.queue && s'.sent == s.sent && s'.up == s.up
    requires s.up ==> !s'.loop.Closing? && !s'.loop.Gone?
    requires !s.up ==> s'.loop.Closing? || s'.loop.Gone?
    ensures Records(s')
  {
    RecordsChange(s, s', {});
  }

  lemma OwnershipArrive(s: State, argv: seq<seq<byte>>, addr: nat)
    requires Ownership(s) && Enabled(s, Arrive(argv, addr))
    ensures Records(Apply(s, Arrive(argv, addr)))
  {
    hide A.Sendable, Tracks, OwnedBy;
    var s' := Apply(s, Arrive(argv, addr));
    var n := |s.reqs|;
    assert forall j :: 0 <= j < |s.cmdList| ==> s.cmdList[j] < n;
    assert n !in s.cmdList && n !in s.sent && n !in s.queue;
    NewOwned(s'.reqs[n], n, PlaceOf(s', n), s'.up, Latest(s', n));
    forall i | 0 <= i < n
      ensures Owned(s', i)
    {
      assert Owned(s, i);
      StaysOwned(s.reqs[i], i, PlaceOf(s, i), s.up, Latest(s, i), Latest(s', i));
    }
  }

  lemma NewOwned(r: Req, i: Id, p: Place, up: bool, latest: bool)
    requires r.phase == Created && r.refs == 1 && r.freed == 0 && !r.lost && p == Place(false, false, false)
    ensures OwnedBy(r, i, p, up, latest)
  {
  }

  /** While the connection is up, it does not matter whether the address is used again. */
  lemma StaysOwned(r: Req, i: Id, p: Place, up: bool, latest: bool, latest': bool)
    requires OwnedBy(r, i, p, up, latest) && up
    ensures OwnedBy(r, i, p, up, latest')
  {
  }

  lemma OwnershipEnqueue(s: State, i: Id)
    requires Ownership(s) && Enabled(s, Enqueue(i))
    ensures Records(Apply(s, Enqueue(i)))
  {
    hide Tracks;
    var s' := Apply(s, Enqueue(i));
    assert Owned(s, i);
    assert Owned(s', i);
    RecordsChange(s, s', {i});
  }

  /** What the search of a timed-out caller finds: its own record exactly if it is still in cmd_list, and otherwise a
      later record at the same address, or nothing. */
  lemma FindIs(s: State, i: Id)
    requires Ownership(s) && InPhase(s, i, Left)
    ensures var t := Find(s.reqs, s.cmdList, s.reqs[i].addr);
      && (t == Some(i) <==> i in s.cmdList)
      && (t.Some? && t.value != i ==>
            i < t.value < |s.reqs| && SameAddr(s, i, t.value) && s.reqs[i].freed > 0 && t.value in s.cmdList)
  {
    hide Latest, NoHits, TakesKnown, LossesKnown, HitsKnown, VainKnown;
    var t := Find(s.reqs, s.cmdList, s.reqs[i].addr);
    assert Owned(s, i);
    if t.Some? {
      var x := t.value;
      assert Owned(s, x) && s.reqs[x].freed == 0;
      assert SameAddr(s, i, x) && SameAddr(s, x, i);
      if x < i {
        assert false;
      }
    }
  }

  lemma OwnershipUnlink(s: State, i: Id)
    requires Ownership(s) && Enabled(s, Unlink(i))
    ensures Records(Apply(s, Unlink(i)))
  {
    FindIs(s, i);
    LoopAlive(s);
    UnlinkEffect(s, i);
    var t := Find(s.reqs, s.cmdList, s.reqs[i].addr);
    if t.None? {
      MissOwned(s, Apply(s, Unlink(i)), i);
    } else {
      TakeOwned(s, Apply(s, Unlink(i)), i, t.value);
    }
  }

  lemma MissOwned(s: State, s': State, i: Id)
    requires Records(s) && SameAddrs(s, s') && s' == s.(reqs := s'.reqs) && i < |s.reqs| && s.reqs[i].phase == Left
    requires i !in s.cmdList && s'.reqs[i] == s.reqs[i].(phase := Unlinked(None))
    requires forall j :: 0 <= j < |s.reqs| && j != i ==> s'.reqs[j] == s.reqs[j]
    ensures Records(s')
  {
    hide Latest, OwnedBy, Lists;
    assert Owned(s, i);
    LatestSame(s, s');
    ListsSame(s, s');
    LeftOwned(s.reqs[i], s'.reqs[i], i, PlaceOf(s, i), PlaceOf(s', i), s.up, Latest(s, i), None);
    RecordsChange(s, s', {i});
  }

  lemma TakeOwned(s: State, s': State, i: Id, x: Id)
    requires Records(s) && SameAddrs(s, s') && i < |s.reqs| && x < |s.reqs| && s.reqs[i].phase == Left
    requires x in s.cmdList && s'.cmdList == Remove(s.cmdList, x) && (x == i <==> i in s.cmdList)
    requires s'.queue == s.queue && s'.sent == s.sent && s'.up == s.up && s'.loop == s.loop
    requires s'.reqs[i] == s.reqs[i].(phase := Unlinked(Some(x)))
    requires x != i ==> s'.reqs[x] == s.reqs[x].(lost := true)
    requires forall j :: 0 <= j < |s.reqs| && j != i && j != x ==> s'.reqs[j] == s.reqs[j]
    ensures Records(s')
  {
    hide Latest, Remove, OwnedBy, Lists;
    assert Owned(s, i) && Owned(s, x);
    LatestSame(s, s');
    InCmdList(s, x);
    ListsWithout(s, s', x);
    LeftOwned(s.reqs[i], s'.reqs[i], i, PlaceOf(s, i), PlaceOf(s', i), s.up, Latest(s, i), Some(x));
    if x != i {
      LosesOwned(s.reqs[x], x, PlaceOf(s, x), s.up, Latest(s, x));
    }
    RecordsChange(s, s', {i, x});
  }

  /** What the search of a time-out branch does to the records. */
  lemma UnlinkEffect(s: State, i: Id)
    requires Enabled(s, Unlink(i)) && forall j :: 0 <= j < |s.cmdList| ==> s.cmdList[j] < |s.reqs|
    ensures var s', t := Apply(s, Unlink(i)), Find(s.reqs, s.cmdList, s.reqs[i].addr);
      && SameAddrs(s, s') && s' == s.(reqs := s'.reqs, cmdList := s'.cmdList)
      && s'.cmdList == (if t.None? then s.cmdList else Remove(s.cmdList, t.value))
      && (forall j :: 0 <= j < |s.reqs| && j != i && t != Some(j) ==> s'.reqs[j] == s.reqs[j])
      && s'.reqs[i] == s.reqs[i].(phase := Unlinked(t))
      && (t.Some? && t.value != i ==> s'.reqs[t.value] == s.reqs[t.value].(lost := true))
  {
  }

  lemma InCmdList(s: State, x: Id)
    requires Lists(s) && x in s.cmdList
    ensures PlaceOf(s, x) == Place(true, false, false)
  {
  }

  lemma LeftOwned(r: Req, r': Req, i: Id, p: Place, p': Place, up: bool, latest: bool, t: Option<Id>)
    requires OwnedBy(r, i, p, up, latest) && r.phase == Left && (p.cmd ==> !p.sent && !p.queued)
    requires r' == r.(phase := Unlinked(t)) && (t == Some(i) <==> p.cmd) && p' == p.(cmd := false)
    ensures OwnedBy(r', i, p', up, latest)
  {
  }

  lemma LosesOwned(r: Req, i: Id, p: Place, up: bool, latest: bool)
    requires OwnedBy(r, i, p, up, latest) && p.cmd && !p.queued && !p.sent
    ensures OwnedBy(r.(lost := true), i, p.(cmd := false), up, latest)
  {
  }

  lemma ListsSubmit(s: State, n: nat)
    requires Lists(s) && s.up
    ensures Lists(Submit(s, n))
    ensures forall i :: Held(Submit(s, n), i) == Held(s, i)
    ensures forall i :: i in s.sent ==> i in Submit(s, n).sent
    ensures forall i :: i in Submit(s, n).sent ==> i in s.sent || i in s.cmdList
    ensures forall i :: i in Submit(s, n).cmdList ==> i in s.cmdList
  {
    hide C.FormatAll, Argvs;
    var s' := Submit(s, n);
    var ids := s.cmdList[..Min(n, |s.cmdList|)];
    assert s.cmdList == ids + s'.cmdList && s'.queue == s.queue + ids && s'.sent == s.sent + ids;
    hide Submit;
    ListsMove(s.cmdList, ids, s'.cmdList, s.sent);
    assert s'.sent[|s'.sent| - |s'.queue|..] == s.sent[|s.sent| - |s.queue|..] + ids;
  }

  /** The first ids of cmd_list join those sent. */
  lemma ListsMove(cmds: seq<Id>, ids: seq<Id>, rest: seq<Id>, sent: seq<Id>)
    requires cmds == ids + rest && Distinct(cmds) && Distinct(sent)
    requires forall j :: 0 <= j < |sent| ==> sent[j] !in cmds
    ensures Distinct(rest) && Distinct(sent + ids)
    ensures forall j :: 0 <= j < |sent + ids| ==> (sent + ids)[j] !in rest
  {
    assert forall j :: 0 <= j < |rest| ==> rest[j] == cmds[|ids| + j];
    assert forall j :: 0 <= j < |ids| ==> ids[j] == cmds[j] && ids[j] in cmds;
  }

  lemma OwnershipSubmit(s: State, n: nat)
    requires Ownership(s) && s.up
    ensures Records(Submit(s, n))
  {
    LoopAlive(s);
    ListsSubmit(s, n);
    hide C.FormatAll, Argvs, Lists, Tracks, OwnedBy;
    var s' := Submit(s, n);
    assert s'.reqs == s.reqs && s'.up == s.up;
    LatestSame(s, s');
    forall i | 0 <= i < |s'.reqs|
      ensures Owned(s', i)
    {
      assert Owned(s, i);
      assert Held(s', i) == Held(s, i);
      SubmitOwned(s.reqs[i], i, PlaceOf(s, i), PlaceOf(s', i), s.up, Latest(s, i));
    }
  }

  lemma SubmitOwned(r: Req, i: Id, p: Place, p': Place, up: bool, latest: bool)
    requires OwnedBy(r, i, p, up, latest) && (p'.cmd || p'.queued) == (p.cmd || p.queued)
    requires (p'.cmd ==> p.cmd) && (p'.sent ==> p.sent || p.cmd)
    ensures OwnedBy(r, i, p', up, latest)
  {
  }

  /** The record at the head of the reply queue takes its reply and leaves the queue. */
  lemma OwnershipDeliver(s: State, reply: Option<Reply>, s': State)
    requires Ownership(s) && s.queue != [] && s.queue[0] < |s.reqs|
    requires s'.reqs == s.reqs[s.queue[0] := Deliver(s.reqs[s.queue[0]], reply)] && s'.queue == s.queue[1..]
    requires s'.cmdList == s.cmdList && s'.sent == s.sent && s'.up == s.up && s'.loop == s.loop
    ensures Records(s')
  {
    hide Tracks, Latest, OwnedBy;
    var i := s.queue[0];
    var at := |s.sent| - |s.queue|;
    assert s.queue == [i] + s'.queue;
    assert s.sent[at] == i;
    assert s'.queue == s.sent[at + 1..];
    assert i !in s'.queue && i in s.sent;
    assert Owned(s, i);
    LatestSame(s, s');
    DeliverOwned(s.reqs[i], i, PlaceOf(s, i), s.up, Latest(s, i), reply);
    RecordsChange(s, s', {i});
  }

  lemma DeliverOwned(r: Req, i: Id, p: Place, up: bool, latest: bool, reply: Option<Reply>)
    requires OwnedBy(r, i, p, up, latest) && p.queued && !p.cmd && p.sent && up
    ensures OwnedBy(Deliver(r, reply), i, p.(queued := false), up, latest)
  {
  }

  lemma OwnershipDisconnected(s: State)
    requires Ownership(s) && Enabled(s, Disconnected)
    ensures Records(Apply(s, Disconnected))
  {
    hide Tracks, Latest, OwnedBy;
    var s' := Apply(s, Disconnected);
    LatestSame(s, s');
    forall i | 0 <= i < |s'.reqs|
      ensures Owned(s', i)
    {
      assert Owned(s, i);
      DisconnectedOwned(s.reqs[i], i, PlaceOf(s, i), s.up, Latest(s, i));
    }
  }

  lemma DisconnectedOwned(r: Req, i: Id, p: Place, up: bool, latest: bool)
    requires OwnedBy(r, i, p, up, latest) && !p.queued && (p.cmd ==> !p.sent) && up
    ensures OwnedBy(if p.cmd then Drop(r) else r, i, p.(cmd := false), false, latest)
  {
  }

  lemma OwnershipCaller(s: State, step: Step, i: Id)
    requires Ownership(s) && Enabled(s, step)
    requires step in {WriteByte(i), Pick(i), Leave(i)}
    ensures Records(Apply(s, step))
  {
    LoopAlive(s);
    assert Owned(s, i);
    var s' := Apply(s, step);
    assert s' == s.(reqs := s.reqs[i := s'.reqs[i]], pipe := s'.pipe);
    hide Tracks, Latest, OwnedBy, Ownership;
    CallerOwned(s.reqs[i], i, PlaceOf(s, i), s.up, Latest(s, i));
    OneChanges(s, s', i);
  }

  lemma OneChanges(s: State, s': State, i: Id)
    requires Records(s) && i < |s.reqs| == |s'.reqs| && s' == s.(reqs := s.reqs[i := s'.reqs[i]], pipe := s'.pipe)
    requires s'.reqs[i].addr == s.reqs[i].addr && OwnedBy(s'.reqs[i], i, PlaceOf(s, i), s.up, Latest(s, i))
    ensures Records(s')
  {
    hide OwnedBy, Latest;
    ListsSame(s, s');
    LatestSame(s, s');
    RecordsChange(s, s', {i});
  }

  lemma CallerOwned(r: Req, i: Id, p: Place, up: bool, latest: bool)
    requires OwnedBy(r, i, p, up, latest)
    ensures r.phase == Queued ==> OwnedBy(r.(phase := Waiting), i, p, up, latest)
    ensures r.phase == Waiting ==> OwnedBy(r.(phase := Picked, got := r.reply), i, p, up, latest)
    ensures r.phase == Picked ==>
      OwnedBy(Drop(r).(phase := if r.refs - 1 <= 0 then Done(Returned) else Left), i, p, up, latest)
  {
  }

  /** A record that has not been freed is the last one at its address. */
  lemma UnfreedIsLatest(s: State, i: Id)
    requires Reused(s) && i < |s.reqs| && s.reqs[i].freed == 0
    ensures Latest(s, i) && LastAt(s.reqs, i, |s.reqs|) == i
  {
    forall k | i < k < |s.reqs|
      ensures s.reqs[k].addr != s.reqs[i].addr
    {
      assert SameAddr(s, i, k) == (s.reqs[i].addr == s.reqs[k].addr);
    }
    LastIsLatest(s, i);
  }

  /** What the end of a time-out branch does to the records. */
  lemma CheckEffect(s: State, i: Id)
    requires Enabled(s, CheckStatus(i)) && forall j :: 0 <= j < |s.cmdList| ==> s.cmdList[j] < |s.reqs|
    ensures var s', v := Apply(s, CheckStatus(i)), LastAt(s.reqs, i, |s.reqs|);
      var d := s.reqs[i].(phase := Done(TimedOut(s.reqs[i].phase.took, s.up)));
      && SameAddrs(s, s') && s' == s.(reqs := s'.reqs)
      && (forall j :: 0 <= j < |s.reqs| && j != i && j != v ==> s'.reqs[j] == s.reqs[j])
      && s'.reqs[i] == (if s.up || v != i then d else d.(freed := d.freed + 1))
      && (v != i ==> s'.reqs[v] == if s.up then s.reqs[v] else s.reqs[v].(hit := s.reqs[v].hit + 1))
  {
    var d := s.reqs[i].(phase := Done(TimedOut(s.reqs[i].phase.took, s.up)));
    LastAtSame(s.reqs, s.reqs[i := d], i, |s.reqs|);
  }

  lemma OwnershipCheck(s: State, i: Id)
    requires Ownership(s) && Enabled(s, CheckStatus(i))
    ensures Records(Apply(s, CheckStatus(i)))
  {
    if s.reqs[i].freed == 0 {
      UnfreedIsLatest(s, i);
    }
    LoopAlive(s);
    DownIsEmpty(s, i);
    CheckEffect(s, i);
    LastIsLatest(s, i);
    CheckOwned(s, Apply(s, CheckStatus(i)), i, LastAt(s.reqs, i, |s.reqs|));
  }

  lemma CheckOwned(s: State, s': State, i: Id, v: Id)
    requires Records(s) && SameAddrs(s, s') && s' == s.(reqs := s'.reqs) && i < |s.reqs| && v < |s.reqs|
    requires s.reqs[i].phase.Unlinked? && (v == i <==> Latest(s, i)) && (s.reqs[i].freed == 0 ==> Latest(s, i))
    requires !s.up ==> !PlaceOf(s, i).cmd && !PlaceOf(s, i).queued
    requires forall j :: 0 <= j < |s.reqs| && j != i && j != v ==> s'.reqs[j] == s.reqs[j]
    requires var d := s.reqs[i].(phase := Done(TimedOut(s.reqs[i].phase.took, s.up)));
      s'.reqs[i] == if s.up || v != i then d else d.(freed := d.freed + 1)
    requires v != i ==> s'.reqs[v] == if s.up then s.reqs[v] else s.reqs[v].(hit := s.reqs[v].hit + 1)
    ensures Records(s')
  {
    assert Lists(s);
    ListsSame(s, s');
    LatestSame(s, s');
    hide OwnedBy, Latest, Lists;
    assert Owned(s, i);
    CheckedOwned(s.reqs[i], s'.reqs[i], i, PlaceOf(s, i), s.up, Latest(s, i));
    if v != i {
      assert Owned(s, v);
      HitOwned(s.reqs[v], v, PlaceOf(s, v), s.up, Latest(s, v), s'.reqs[v].hit);
    }
    RecordsChange(s, s', {i, v});
  }

  lemma DownIsEmpty(s: State, i: Id)
    requires Lists(s)
    ensures !s.up ==> !PlaceOf(s, i).cmd && !PlaceOf(s, i).queued
  {
  }

  lemma LastIsLatest(s: State, i: Id)
    requires i < |s.reqs|
    ensures LastAt(s.reqs, i, |s.reqs|) == i <==> Latest(s, i)
    ensures Latest(s, LastAt(s.reqs, i, |s.reqs|))
  {
  }

  lemma CheckedOwned(r: Req, r': Req, i: Id, p: Place, up: bool, latest: bool)
    requires OwnedBy(r, i, p, up, latest) && r.phase.Unlinked? && (r.freed == 0 ==> latest)
    requires !up ==> !p.cmd && !p.queued
    requires var d := r.(phase := Done(TimedOut(r.phase.took, up)));
      r' == if up || !latest then d else d.(freed := d.freed + 1)
    ensures OwnedBy(r', i, p, up, latest)
  {
  }

  lemma HitOwned(r: Req, i: Id, p: Place, up: bool, latest: bool, hit: nat)
    requires OwnedBy(r, i, p, up, latest)
    ensures OwnedBy(r.(hit := hit), i, p, up, latest)
  {
  }

  /** Every step keeps who owns what. */
  lemma RecordsStep(s: State, step: Step)
    requires Ownership(s) && Enabled(s, step)
    ensures Records(Apply(s, step))
  {
    LoopAlive(s);
    assert Records(s);
    hide Ownership, Records, A.Sendable, M.GetReply, Output, Submit;
    match step
    case Arrive(argv, addr) => OwnershipArrive(s, argv, addr);
    case Enqueue(i) => OwnershipEnqueue(s, i);
    case WriteByte(i) => OwnershipCaller(s, step, i);
    case Pick(i) => OwnershipCaller(s, step, i);
    case Leave(i) => OwnershipCaller(s, step, i);
    case Unlink(i) => OwnershipUnlink(s, i);
    case CheckStatus(i) => OwnershipCheck(s, i);
    case TaskDeal => OwnershipSubmit(s, s.loop.n);
    case Dispatch =>
      if M.GetReply(s.reader).Emit? {
        OwnershipDeliver(s, Some(M.GetReply(s.reader).reply), Apply(s, step));
      } else {
        RecordsIdle(s, Apply(s, step));
      }
    case DrainOne => OwnershipDeliver(s, None, Apply(s, step));
    case Disconnected => OwnershipDisconnected(s);
    case _ => RecordsIdle(s, Apply(s, step));
  }

  // ---------- every step keeps the tracks ----------

  lemma ReusedKept(s: State, s': State)
    requires Reused(s) && SameAddrs(s, s') && forall i :: 0 <= i < |s.reqs| ==> s'.reqs[i].freed >= s.reqs[i].freed
    ensures Reused(s')
  {
    forall i, j | 0 <= i < j < |s'.reqs| && SameAddr(s', i, j)
      ensures s'.reqs[i].freed > 0
    {
      assert SameAddr(s, i, j);
    }
  }

  lemma TakesKept(s: State, s': State, i: Id)
    requires TakesKnown(s) && SameAddrs(s, s') && i < |s.reqs|
    requires forall j :: 0 <= j < |s.reqs| ==> s.reqs[j].lost ==> s'.reqs[j].lost
    requires forall j :: 0 <= j < |s.reqs| && j != i ==> Took(s'.reqs[j]) == Took(s.reqs[j])
    requires Took(s'.reqs[i]).Some? ==> TookKnown(s', i, Took(s'.reqs[i]).value)
    ensures TakesKnown(s')
  {
    forall j | 0 <= j < |s'.reqs| && Took(s'.reqs[j]).Some?
      ensures TookKnown(s', j, Took(s'.reqs[j]).value)
    {
      if j != i {
        assert TookKnown(s, j, Took(s.reqs[j]).value);
      }
    }
  }

  lemma LossesKept(s: State, s': State, i: Id)
    requires LossesKnown(s) && |s'.reqs| == |s.reqs| && i < |s.reqs|
    requires Took(s.reqs[i]).None? || Took(s'.reqs[i]) == Took(s.reqs[i])
    requires forall j :: 0 <= j < |s.reqs| && j != i ==> Took(s'.reqs[j]) == Took(s.reqs[j])
    requires forall j :: 0 <= j < |s.reqs| && s'.reqs[j].lost ==>
      s.reqs[j].lost || (j != i && Took(s'.reqs[i]) == Some(j))
    ensures LossesKnown(s')
  {
    forall x | 0 <= x < |s'.reqs| && s'.reqs[x].lost
      ensures Taken(s', x)
    {
      if s.reqs[x].lost {
        assert Taken(s, x);
        var j :| 0 <= j < |s.reqs| && j != x && Took(s.reqs[j]) == Some(x);
        assert Took(s'.reqs[j]) == Some(x);
      }
    }
  }

  lemma HitsKept(s: State, s': State, v: Id)
    requires HitsKnown(s) && SameAddrs(s, s') && v < |s.reqs|
    requires forall j :: 0 <= j < |s.reqs| && FreedInVain(s, j) ==> FreedInVain(s', j)
    requires forall j :: 0 <= j < |s.reqs| && j != v && s'.reqs[j].hit > 0 ==> s.reqs[j].hit > 0
    requires s'.reqs[v].hit > 0 ==> s.reqs[v].hit > 0 || (Latest(s, v) && IsHit(s', v))
    ensures HitsKnown(s')
  {
    hide Latest, FreedInVain;
    LatestSame(s, s');
    forall x | 0 <= x < |s'.reqs| && s'.reqs[x].hit > 0
      ensures Latest(s', x) && IsHit(s', x)
    {
      if s.reqs[x].hit > 0 {
        assert IsHit(s, x);
        var j :| 0 <= j < |s.reqs| && Hits(s, j, x);
        assert Hits(s', j, x);
      }
    }
  }

  lemma VainKept(s: State, s': State, i: Id)
    requires VainKnown(s) && SameAddrs(s, s') && i < |s.reqs|
    requires forall j :: 0 <= j < |s.reqs| && j != i && FreedInVain(s', j) ==> FreedInVain(s, j)
    requires forall j :: 0 <= j < |s.reqs| ==> s'.reqs[j].hit >= s.reqs[j].hit
    requires FreedInVain(s', i) ==> FreedInVain(s, i) || Latest(s, i) || s'.reqs[LastAt(s.reqs, i, |s.reqs|)].hit > 0
    ensures VainKnown(s')
  {
    hide Latest, FreedInVain;
    LatestSame(s, s');
  }

  /** A step in which no caller searches cmd_list or ends its time-out branch. */
  lemma TracksKept(s: State, s': State)
    requires Tracks(s) && SameAddrs(s, s') && (s'.up ==> s.up)
    requires forall i :: 0 <= i < |s.reqs| ==> TrackKept(s.reqs[i], s'.reqs[i])
    ensures Tracks(s')
  {
    if s.reqs != [] {
      forall i | 0 <= i < |s.reqs|
        ensures s'.reqs[i].freed >= s.reqs[i].freed && s'.reqs[i].lost == s.reqs[i].lost
        ensures s'.reqs[i].hit == s.reqs[i].hit && Took(s'.reqs[i]) == Took(s.reqs[i])
        ensures FreedInVain(s', i) == FreedInVain(s, i)
      {
        assert TrackKept(s.reqs[i], s'.reqs[i]);
      }
      hide TrackKept, Reused, TakesKnown, LossesKnown, HitsKnown, VainKnown, FreedInVain;
      ReusedKept(s, s');
      assert Took(s.reqs[0]).Some? ==> TookKnown(s, 0, Took(s.reqs[0]).value) by {
        TookFirst(s);
      }
      TakesKept(s, s', 0);
      LossesKept(s, s', 0);
      HitsKept(s, s', 0);
      VainKept(s, s', 0);
    }
  }

  lemma TookFirst(s: State)
    requires TakesKnown(s) && s.reqs != []
    ensures Took(s.reqs[0]).Some? ==> TookKnown(s, 0, Took(s.reqs[0]).value)
  {
  }

  predicate TrackKept(r: Req, r': Req) {
    && r'.addr == r.addr && r'.lost == r.lost && r'.hit == r.hit && r'.freed >= r.freed
    && (r'.phase == r.phase || (!InTimeOut(r.phase) && !InTimeOut(r'.phase)))
  }

  predicate InTimeOut(phase: Phase) {
    phase.Unlinked? || (phase.Done? && phase.fate.TimedOut?)
  }

  /** While the connection is up, no caller has freed in vain. */
  lemma UpNoVain(s: State)
    requires Records(s) && s.up
    ensures forall j :: 0 <= j < |s.reqs| ==> !FreedInVain(s, j)
  {
    forall j | 0 <= j < |s.reqs|
      ensures !FreedInVain(s, j)
    {
      assert Owned(s, j);
    }
  }

  lemma TracksArrive(s: State, argv: seq<seq<byte>>, addr: nat)
    requires Ownership(s) && Enabled(s, Arrive(argv, addr))
    ensures Tracks(Apply(s, Arrive(argv, addr)))
  {
    UpNoVain(s);
    hide A.Sendable, Records, FreedInVain;
    var s' := Apply(s, Arrive(argv, addr));
    var n := |s.reqs|;
    forall j | 0 <= j < |s'.reqs|
      ensures !FreedInVain(s', j)
    {
      if j < n {
        VainSame(s, s', j);
      } else {
        NewNotVain(s', j);
      }
    }
    forall i, j | 0 <= i < j < |s'.reqs| && SameAddr(s', i, j)
      ensures s'.reqs[i].freed > 0
    {
      assert j < n ==> SameAddr(s, i, j);
    }
    forall j | 0 <= j < |s'.reqs| && Took(s'.reqs[j]).Some?
      ensures TookKnown(s', j, Took(s'.reqs[j]).value)
    {
      assert TookKnown(s, j, Took(s.reqs[j]).value);
    }
    forall x | 0 <= x < |s'.reqs| && s'.reqs[x].lost
      ensures Taken(s', x)
    {
      assert Taken(s, x);
      var j :| 0 <= j < |s.reqs| && j != x && Took(s.reqs[j]) == Some(x);
      assert Took(s'.reqs[j]) == Some(x);
    }
  }

  lemma VainSame(s: State, s': State, j: Id)
    requires j < |s.reqs| && j < |s'.reqs| && s'.reqs[j] == s.reqs[j]
    ensures FreedInVain(s', j) == FreedInVain(s, j)
  {
  }

  lemma NewNotVain(s: State, j: Id)
    requires j < |s.reqs| && s.reqs[j].phase == Created
    ensures !FreedInVain(s, j)
  {
  }

  lemma TracksUnlink(s: State, i: Id)
    requires Ownership(s) && Enabled(s, Unlink(i))
    ensures Tracks(Apply(s, Unlink(i)))
  {
    LoopAlive(s);
    FindIs(s, i);
    UnlinkEffect(s, i);
    var t := Find(s.reqs, s.cmdList, s.reqs[i].addr);
    if t.Some? {
      assert Owned(s, t.value);
    }
    TakeTracks(s, Apply(s, Unlink(i)), i, t);
  }

  lemma TakeTracks(s: State, s': State, i: Id, t: Option<Id>)
    requires Tracks(s) && SameAddrs(s, s') && s'.up == s.up && i < |s.reqs| && s.reqs[i].phase == Left
    requires forall j :: 0 <= j < |s.reqs| && j != i && t != Some(j) ==> s'.reqs[j] == s.reqs[j]
    requires s'.reqs[i] == s.reqs[i].(phase := Unlinked(t))
    requires t.Some? && t.value != i ==>
      && i < t.value < |s.reqs| && SameAddr(s, i, t.value) && !s.reqs[t.value].phase.Done?
      && s'.reqs[t.value] == s.reqs[t.value].(lost := true)
    ensures Tracks(s')
  {
    forall j | 0 <= j < |s.reqs|
      ensures FreedInVain(s', j) == FreedInVain(s, j)
      ensures s'.reqs[j].freed == s.reqs[j].freed && s'.reqs[j].hit == s.reqs[j].hit
      ensures s.reqs[j].lost ==> s'.reqs[j].lost
      ensures j != i ==> Took(s'.reqs[j]) == Took(s.reqs[j])
      ensures s'.reqs[j].lost ==> s.reqs[j].lost || (j != i && t == Some(j))
    {
      UnlinkRecord(s, s', i, j, t);
    }
    assert Took(s'.reqs[i]) == t && Took(s.reqs[i]) == None;
    hide FreedInVain, Took, Latest, Reused, TakesKnown, LossesKnown, HitsKnown, VainKnown;
    ReusedKept(s, s');
    TakesKept(s, s', i);
    LossesKept(s, s', i);
    HitsKept(s, s', i);
    VainKept(s, s', i);
  }

  lemma UnlinkRecord(s: State, s': State, i: Id, j: Id, t: Option<Id>)
    requires |s'.reqs| == |s.reqs| && i < |s.reqs| && j < |s.reqs| && s.reqs[i].phase == Left
    requires j == i ==> s'.reqs[j] == s.reqs[j].(phase := Unlinked(t))
    requires j != i ==> s'.reqs[j] == if t == Some(j) then s.reqs[j].(lost := true) else s.reqs[j]
    requires t == Some(j) ==> !s.reqs[j].phase.Done?
    ensures FreedInVain(s', j) == FreedInVain(s, j)
    ensures s'.reqs[j].freed == s.reqs[j].freed && s'.reqs[j].hit == s.reqs[j].hit
    ensures s.reqs[j].lost ==> s'.reqs[j].lost
    ensures j != i ==> Took(s'.reqs[j]) == Took(s.reqs[j])
    ensures s'.reqs[j].lost ==> s.reqs[j].lost || (j != i && t == Some(j))
  {
  }

  lemma TracksCheck(s: State, i: Id)
    requires Ownership(s) && Enabled(s, CheckStatus(i))
    ensures Tracks(Apply(s, CheckStatus(i)))
  {
    LoopAlive(s);
    CheckEffect(s, i);
    CheckPointwise(s, i);
    CheckedVain(s, i);
    LastIsLatest(s, i);
    var s', v := Apply(s, CheckStatus(i)), LastAt(s.reqs, i, |s.reqs|);
    if v != i && !s.up {
      HitNow(s', i, v);
    }
    hide *;
    ReusedKept(s, s');
    TakesKept(s, s', i);
    LossesKept(s, s', i);
    HitsKept(s, s', v);
    VainKept(s, s', i);
    TracksAre(s');
  }

  lemma TracksAre(s: State)
    requires Reused(s) && NoHits(s) && TakesKnown(s) && LossesKnown(s) && HitsKnown(s) && VainKnown(s)
    ensures Tracks(s)
  {
  }

  /** The parts of a record that tell its track. */
  lemma CheckRecord(s: State, i: Id, j: Id)
    requires Enabled(s, CheckStatus(i)) && forall k :: 0 <= k < |s.cmdList| ==> s.cmdList[k] < |s.reqs|
    requires j < |s.reqs|
    ensures var s', v := Apply(s, CheckStatus(i)), LastAt(s.reqs, i, |s.reqs|);
      && |s'.reqs| == |s.reqs| && s'.up == s.up
      && s'.reqs[j].freed >= s.reqs[j].freed && s'.reqs[j].lost == s.reqs[j].lost
      && s'.reqs[j].hit >= s.reqs[j].hit && (j != v || s.up ==> s'.reqs[j].hit == s.reqs[j].hit)
      && Took(s'.reqs[j]) == Took(s.reqs[j])
      && (j != i ==> FreedInVain(s', j) == FreedInVain(s, j))
  {
    CheckEffect(s, i);
    hide Apply, LastAt;
    var s' := Apply(s, CheckStatus(i));
    if j != i {
      VainByPhase(s, s', j);
    }
  }

  lemma CheckPointwise(s: State, i: Id)
    requires Ownership(s) && Enabled(s, CheckStatus(i)) && forall j :: 0 <= j < |s.cmdList| ==> s.cmdList[j] < |s.reqs|
    ensures var s', v := Apply(s, CheckStatus(i)), LastAt(s.reqs, i, |s.reqs|);
      && Reused(s) && TakesKnown(s) && LossesKnown(s) && HitsKnown(s) && VainKnown(s) && NoHits(s')
      && |s'.reqs| == |s.reqs| && !FreedInVain(s, i)
      && (Took(s.reqs[i]).Some? ==> TookKnown(s', i, Took(s.reqs[i]).value))
      && (forall j :: 0 <= j < |s.reqs| ==>
            && s'.reqs[j].freed >= s.reqs[j].freed && s'.reqs[j].lost == s.reqs[j].lost
            && s'.reqs[j].hit >= s.reqs[j].hit && (j != v ==> s'.reqs[j].hit == s.reqs[j].hit)
            && Took(s'.reqs[j]) == Took(s.reqs[j]))
      && (forall j :: 0 <= j < |s.reqs| && j != i ==> FreedInVain(s', j) == FreedInVain(s, j))
  {
    CheckEffect(s, i);
    CheckRecord(s, i, i);
    NotYetVain(s, i);
    hide Apply, Enabled, Records, LastAt, Took, FreedInVain, TakesKnown, LossesKnown, HitsKnown, VainKnown, Reused;
    var s' := Apply(s, CheckStatus(i));
    assert SameAddrs(s, s');
    forall j | 0 <= j < |s.reqs|
      ensures s'.reqs[j].freed >= s.reqs[j].freed && s'.reqs[j].lost == s.reqs[j].lost
      ensures s'.reqs[j].hit >= s.reqs[j].hit
      ensures j != LastAt(s.reqs, i, |s.reqs|) || s.up ==> s'.reqs[j].hit == s.reqs[j].hit
      ensures Took(s'.reqs[j]) == Took(s.reqs[j]) && (j != i ==> FreedInVain(s', j) == FreedInVain(s, j))
    {
      CheckRecord(s, i, j);
    }
    TookStill(s, s', i);
  }

  lemma NotYetVain(s: State, i: Id)
    requires Enabled(s, CheckStatus(i))
    ensures !FreedInVain(s, i)
  {
  }

  lemma TookStill(s: State, s': State, i: Id)
    requires TakesKnown(s) && SameAddrs(s, s') && i < |s.reqs|
    requires forall j :: 0 <= j < |s.reqs| ==> s'.reqs[j].lost == s.reqs[j].lost
    ensures Took(s.reqs[i]).Some? ==> TookKnown(s', i, Took(s.reqs[i]).value)
  {
    assert Took(s.reqs[i]).Some? ==> TookKnown(s, i, Took(s.reqs[i]).value);
  }

  lemma VainByPhase(s: State, s': State, j: Id)
    requires j < |s.reqs| && j < |s'.reqs|
    requires s'.reqs[j].phase == s.reqs[j].phase && s'.reqs[j].lost == s.reqs[j].lost
    ensures FreedInVain(s', j) == FreedInVain(s, j) && Took(s'.reqs[j]) == Took(s.reqs[j])
  {
  }

  lemma HitNow(s: State, j: Id, x: Id)
    requires j < |s.reqs| && x < |s.reqs| && j != x && SameAddr(s, j, x) && FreedInVain(s, j)
    ensures IsHit(s, x)
  {
    assert Hits(s, j, x);
  }

  /** A caller whose address has been used again frees in vain. */
  lemma CheckedVain(s: State, i: Id)
    requires Ownership(s) && Enabled(s, CheckStatus(i))
    ensures !s.up && !Latest(s, i) ==> FreedInVain(Apply(s, CheckStatus(i)), i)
  {
    LoopAlive(s);
    CheckEffect(s, i);
    assert Owned(s, i);
    if s.reqs[i].freed == 0 {
      UnfreedIsLatest(s, i);
    }
  }

  lemma TracksStep(s: State, step: Step)
    requires Ownership(s) && Enabled(s, step)
    ensures Tracks(Apply(s, step))
  {
    LoopAlive(s);
    hide Records, A.Sendable, M.GetReply, Output, Submit;
    match step
    case Arrive(argv, addr) => TracksArrive(s, argv, addr);
    case Unlink(i) => TracksUnlink(s, i);
    case CheckStatus(i) => TracksCheck(s, i);
    case _ =>
      hide Tracks, Ownership, TrackKept;
      if step.Enqueue? || step.WriteByte? || step.Pick? || step.Leave? {
        TracksCaller(s, step);
      } else {
        TracksLoop(s, step);
      }
  }

  lemma TracksCaller(s: State, step: Step)
    requires Tracks(s) && Enabled(s, step) && (step.Enqueue? || step.WriteByte? || step.Pick? || step.Leave?)
    requires forall j :: 0 <= j < |s.cmdList| ==> s.cmdList[j] < |s.reqs|
    ensures Tracks(Apply(s, step))
  {
    hide Tracks;
    TracksKept(s, Apply(s, step));
  }

  predicate CallerStep(step: Step) {
    step.Arrive? || step.Enqueue? || step.WriteByte? || step.Pick? || step.Leave? || step.Unlink? || step.CheckStatus?
  }

  lemma TracksLoop(s: State, step: Step)
    requires Tracks(s) && Enabled(s, step) && !CallerStep(step)
    requires forall j :: 0 <= j < |s.cmdList| ==> s.cmdList[j] < |s.reqs|
    ensures Tracks(Apply(s, step))
  {
    hide Tracks, C.FormatAll, Argvs, M.GetReply, Output, M.Valid;
    TracksKept(s, Apply(s, step));
  }

  /** Every step keeps the ownership invariant. */
  lemma OwnershipStep(s: State, step: Step)
    requires Ownership(s) && Enabled(s, step)
    ensures Ownership(Apply(s, step))
  {
    LoopAlive(s);
    hide Ownership, Records, Tracks, Apply, Enabled;
    RecordsStep(s, step);
    TracksStep(s, step);
    OwnershipIs(Apply(s, step));
  }

  lemma OwnershipIs(s: State)
    requires Records(s) && Tracks(s)
    ensures Ownership(s)
  {
  }

  lemma LoopAlive(s: State)
    requires Ownership(s)
    ensures s.up ==> !s.loop.Closing? && !s.loop.Gone?
    ensures !s.up ==> (s.loop.Closing? || s.loop.Gone?) && s.cmdList == []
    ensures forall j :: 0 <= j < |s.cmdList| ==> s.cmdList[j] < |s.reqs|
  {
  }
}
