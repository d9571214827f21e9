/** Who frees which request record, and when: for a caller that times out, the record may be freed twice, never, or
    with another caller's record in its place. */
module RecordLifetimes {
  import opened Bytes
  import opened Resp
  import M = ReaderMachine
  import C = Command
  import opened Multiplex
  import R = ReplyMatching

  /** Whoever may still touch a record has not freed it: its caller until it drops its reference, and the engine while
      the record is in a list. No other caller has freed what the engine holds. A command waiting in cmd_list belongs
      to a caller that has not returned. */
  lemma RecordsAliveInUse(s: State, i: Id)
    requires R.Reachable(s) && i < |s.reqs|
    ensures s.reqs[i].phase in {Created, Queued, Waiting, Picked} ==> s.reqs[i].freed == 0
    ensures Held(s, i) ==> s.reqs[i].freed == 0 && s.reqs[i].hit == 0
    ensures i in s.cmdList ==> !s.reqs[i].phase.Done?
  {
    ReachableOwned(s, i);
    hide R.Reachable;
    if i in s.queue {
      assert i in s.sent;
    }
  }

  lemma ReachableOwned(s: State, i: Id)
    requires R.Reachable(s) && i < |s.reqs|
    ensures Ownership(s) && Lists(s) && Tracks(s) && Owned(s, i)
  {
    R.ReachableInv(s);
    hide R.Reachable, R.Streaming, R.Replied, R.Woken, R.Sent, R.GoodServer, Tracks, Lists, Owned;
    assert Owned(s, i);
  }

  /** Exactly when the record of a caller is freed twice by its own side: the caller frees in vain, that is, it timed
      out, did not find its own record in cmd_list, nor had another caller taken it away, and then saw the connection
      down; and no later record has the address. */
  lemma FreedTwiceIff(s: State, i: Id)
    requires R.Reachable(s) && i < |s.reqs|
    ensures s.reqs[i].freed <= 2
    ensures s.reqs[i].freed == 2 <==> FreedInVain(s, i) && Latest(s, i)
  {
    ReachableOwned(s, i);
    hide R.Reachable, Ownership, Lists, Tracks, Latest, OwnedBy;
    OwnFrees(s.reqs[i], i, PlaceOf(s, i), s.up, Latest(s, i));
  }

  lemma OwnFrees(r: Req, i: Id, p: Place, up: bool, latest: bool)
    requires OwnedBy(r, i, p, up, latest)
    ensures r.freed <= 2
    ensures r.freed == 2 <==>
      r.phase.Done? && r.phase.fate.TimedOut? && !r.phase.fate.up && r.phase.fate.took != Some(i) && !r.lost && latest
  {
  }

  /** Exactly when a record is freed by another caller: it is the last one at an address through which some other
      caller has freed in vain. */
  lemma HitIff(s: State, i: Id)
    requires R.Reachable(s) && i < |s.reqs|
    ensures s.reqs[i].hit > 0 <==> Latest(s, i) && exists j :: 0 <= j < |s.reqs| && Hits(s, j, i)
  {
    ReachableOwned(s, i);
    hide R.Reachable, FreedInVain;
    if Latest(s, i) && exists j :: 0 <= j < |s.reqs| && Hits(s, j, i) {
      var j :| 0 <= j < |s.reqs| && Hits(s, j, i);
      LastIs(s, j, i);
    }
  }

  lemma LastIs(s: State, j: Id, i: Id)
    requires i < |s.reqs| && j < |s.reqs| && Latest(s, i) && SameAddr(s, j, i) && j != i
    ensures !Latest(s, j) && LastAt(s.reqs, j, |s.reqs|) == i
  {
  }

  /** Exactly when a caller loses its record to another one, which searched cmd_list for the address of its own freed
      record; the command is then never sent. */
  lemma LostIff(s: State, i: Id)
    requires R.Reachable(s) && i < |s.reqs|
    ensures s.reqs[i].lost <==> exists j :: 0 <= j < |s.reqs| && j != i && Took(s.reqs[j]) == Some(i)
    ensures s.reqs[i].lost ==> i !in s.sent && i !in s.cmdList
  {
    ReachableOwned(s, i);
    hide R.Reachable;
    if exists j :: 0 <= j < |s.reqs| && j != i && Took(s.reqs[j]) == Some(i) {
      var j :| 0 <= j < |s.reqs| && j != i && Took(s.reqs[j]) == Some(i);
      assert TookKnown(s, j, i);
    }
  }

  /** Exactly when the record of a finished call is never freed by its own side: its caller timed out with the
      connection up, and either took the record out of cmd_list itself or had lost it to another caller. */
  lemma LeakedIff(s: State, i: Id)
    requires R.Reachable(s) && i < |s.reqs| && s.reqs[i].phase.Done? && !Held(s, i)
    ensures s.reqs[i].freed == 0 <==>
      var fate := s.reqs[i].phase.fate;
      fate.TimedOut? && fate.up && (fate.took == Some(i) || s.reqs[i].lost)
  {
    ReachableOwned(s, i);
    hide R.Reachable, Ownership, Lists, Tracks, Latest, OwnedBy;
    OwnLeaks(s.reqs[i], i, PlaceOf(s, i), s.up, Latest(s, i));
  }

  lemma OwnLeaks(r: Req, i: Id, p: Place, up: bool, latest: bool)
    requires OwnedBy(r, i, p, up, latest) && r.phase.Done? && !p.cmd && !p.queued
    ensures r.freed == 0 <==>
      r.phase.fate.TimedOut? && r.phase.fate.up && (r.phase.fate.took == Some(i) || r.lost)
  {
  }

  function Frees(r: Req): nat {
    r.freed + r.hit
  }

  /** The end of the time-out branch frees a record of another caller, or one freed before. */
  ghost predicate Misfrees(s: State, s': State, i: Id)
    requires |s'.reqs| == |s.reqs|
  {
    exists v :: 0 <= v < |s.reqs| && Frees(s'.reqs[v]) > Frees(s.reqs[v]) && (v != i || Frees(s.reqs[v]) > 0)
  }

  /** The guard of the failing branch: exactly when the connection is down, and the caller has neither taken its own
      record out of cmd_list nor lost it, or has had it freed by another. */
  lemma SecondFreeGuard(s: State, i: Id, s': State)
    requires R.Reachable(s) && Takes(s, CheckStatus(i), s')
    ensures |s'.reqs| == |s.reqs|
    ensures Misfrees(s, s', i) <==>
      !s.up && ((s.reqs[i].phase.took != Some(i) && !s.reqs[i].lost) || s.reqs[i].hit > 0)
  {
    ReachableOwned(s, i);
    CheckEffect(s, i);
    LastIsLatest(s, i);
    DownIsEmpty(s, i);
    if s.reqs[i].freed == 0 {
      UnfreedIsLatest(s, i);
    }
    hide R.Reachable, Takes, Tracks, Lists, Latest, Ownership;
    var v := LastAt(s.reqs, i, |s.reqs|);
    if !s.up {
      assert Frees(s'.reqs[v]) == Frees(s.reqs[v]) + 1;
    }
  }

  /** When nothing interrupts a caller between dropping its reference and returning, it frees at most its own record,
      once, and takes away no other. */
  lemma UninterruptedCallerIsSafe(s: State, i: Id, a: State, b: State, c: State)
    requires R.Reachable(s) && InPhase(s, i, Picked) && Takes(s, Leave(i), a)
    requires InPhase(a, i, Left) ==> Takes(a, Unlink(i), b) && Takes(b, CheckStatus(i), c)
    ensures i < |a.reqs| && (a.reqs[i].phase == Left || a.reqs[i].phase == Done(Returned))
    ensures a.reqs[i].phase.Done? ==> a.reqs[i].freed == 1
    ensures a.reqs[i].phase == Left ==>
      && |c.reqs| == |s.reqs| && c.reqs[i].freed == (if s.up then 0 else 1) && !FreedInVain(c, i)
      && forall j :: 0 <= j < |s.reqs| && j != i ==> c.reqs[j] == s.reqs[j]
  {
    ReachableOwned(s, i);
    UnfreedIsLatest(s, i);
    OwnershipStep(s, Leave(i));
    LeaveEffect(s, i, a);
    LatestSame(s, a);
    if a.reqs[i].phase == Left {
      LeftKept(s.reqs[i], a.reqs[i], i, PlaceOf(s, i), s.up, Latest(s, i));
      DownIsEmpty(s, i);
      hide R.Reachable, Ownership, Takes, Tracks, Lists, OwnedBy, Latest;
      RestIsSafe(a, i, b, c);
    }
  }

  lemma LeaveEffect(s: State, i: Id, a: State)
    requires InPhase(s, i, Picked) && Takes(s, Leave(i), a)
    ensures SameAddrs(s, a) && a == s.(reqs := a.reqs)
    ensures forall j :: 0 <= j < |s.reqs| && j != i ==> a.reqs[j] == s.reqs[j]
    ensures a.reqs[i] == Drop(s.reqs[i]).(phase := if s.reqs[i].refs - 1 <= 0 then Done(Returned) else Left)
  {
  }

  lemma LeftKept(r: Req, r': Req, i: Id, p: Place, up: bool, latest: bool)
    requires OwnedBy(r, i, p, up, latest) && r.phase == Picked && r' == Drop(r).(phase := r'.phase) && r.refs > 1
    ensures Kept(r', p) && r'.freed == 0
  {
  }

  lemma RestIsSafe(a: State, i: Id, b: State, c: State)
    requires Ownership(a) && InPhase(a, i, Left) && Latest(a, i) && a.reqs[i].freed == 0
    requires a.reqs[i].lost || a.up
    requires Kept(a.reqs[i], PlaceOf(a, i))
    requires Takes(a, Unlink(i), b) && Takes(b, CheckStatus(i), c)
    ensures |c.reqs| == |a.reqs| && c.reqs[i].freed == (if a.up then 0 else 1) && !FreedInVain(c, i)
    ensures forall j :: 0 <= j < |a.reqs| && j != i ==> c.reqs[j] == a.reqs[j]
  {
    FindIs(a, i);
    UnlinkEffect(a, i);
    CheckEffect(b, i);
    var t := Find(a.reqs, a.cmdList, a.reqs[i].addr);
    assert b.reqs[i] == a.reqs[i].(phase := Unlinked(t)) && b.up == a.up && SameAddrs(a, b);
    assert forall j :: 0 <= j < |a.reqs| && j != i ==> b.reqs[j] == a.reqs[j] by {
      OtherStays(a, i);
    }
    hide Ownership, Takes, Find;
    LatestSame(a, b);
    LastIsLatest(b, i);
    hide Latest, LastAt;
  }

  lemma OtherStays(a: State, i: Id)
    requires Ownership(a) && InPhase(a, i, Left) && Latest(a, i)
    ensures var t := Find(a.reqs, a.cmdList, a.reqs[i].addr);
      t.Some? ==> t.value == i
  {
    FindIs(a, i);
    hide Ownership, Find;
  }

  // ---------- runs ----------

  /** A single caller whose request times out in the reply queue. */
  lemma TimedOutCaller(server: seq<Reply> -> Reply, argv: seq<seq<byte>>) returns (s: State)
    requires R.GoodServer(server) && Multiplex.A.Sendable(argv)
    ensures R.Reachable(s) && s.server == server && s.up && s.loop == Idle && s.cmdList == [] && s.queue == [0]
    ensures s.log == [argv] && s.wire == [] && s.heard == s.read == s.answered == 0 && s.reader == M.FRESH
    ensures s.reqs == [Req(argv, 0, Left, 1, None, None, false, 0, 0)]
  {
    hide R.GoodServer, R.Reachable, Output, C.FormatAll, M.GetReply, Multiplex.A.Sendable;
    s := R.Submitted(server, argv);
    s := R.Take(s, Pick(0));
    s := R.Take(s, Leave(0));
  }

  /** The time-out branch is not safe against an error disconnect between its steps: with any server and any
      command there is a run in which the caller searches the list of a freed context (`mid`) and then frees its
      record a second time (`end`). */
  lemma TimeOutCanFreeTwice(server: seq<Reply> -> Reply, argv: seq<seq<byte>>) returns (mid: State, end: State)
    requires R.GoodServer(server) && Multiplex.A.Sendable(argv)
    ensures R.Reachable(mid) && mid.loop == Gone && Enabled(mid, Unlink(0))
    ensures R.Reachable(end) && |end.reqs| == 1 && end.reqs[0].freed == 2
  {
    hide R.GoodServer, R.Reachable, Output, M.GetReply, Multiplex.A.Sendable;
    mid := TimedOutCaller(server, argv);
    mid := R.Take(mid, Fail);
    mid := R.Take(mid, DrainOne);
    mid := R.Take(mid, Disconnected);
    mid := R.Take(mid, Release);
    end := R.Take(mid, Unlink(0));
    end := R.Take(end, CheckStatus(0));
  }

  /** A caller that times out before the loop thread has seen its command takes the record out of cmd_list and, the
      connection being up, leaves it to nobody. */
  lemma TimeOutCanLeak(server: seq<Reply> -> Reply, argv: seq<seq<byte>>) returns (s: State)
    requires R.GoodServer(server) && Multiplex.A.Sendable(argv)
    ensures R.Reachable(s) && |s.reqs| == 1 && s.reqs[0].phase == Done(TimedOut(Some(0), true))
    ensures s.reqs[0].freed == 0 && !Held(s, 0)
  {
    hide R.GoodServer, R.Reachable, Output, C.FormatAll, M.GetReply, Multiplex.A.Sendable;
    R.InitReachable(server);
    s := R.Init(server);
    s := R.Take(s, Arrive(argv, 0));
    s := R.Take(s, Enqueue(0));
    s := R.Take(s, WriteByte(0));
    s := R.Take(s, Pick(0));
    s := R.Take(s, Leave(0));
    s := R.Take(s, Unlink(0));
    s := R.Take(s, CheckStatus(0));
  }

  /** A caller times out, the late reply frees its record, another caller's record gets the address, and the search of
      the first caller takes that one out of cmd_list. */
  lemma AddressUsedAgain(server: seq<Reply> -> Reply, argv: seq<seq<byte>>, other: seq<seq<byte>>) returns (s: State)
    requires R.GoodServer(server) && Multiplex.A.Sendable(argv) && Multiplex.A.Sendable(other)
    ensures R.Reachable(s) && s.up && s.loop == Idle && s.cmdList == s.queue == [] && s.log == [argv]
    ensures |s.reqs| == 2 && s.reqs[0].phase == Unlinked(Some(1)) && s.reqs[0].addr == 0 && s.reqs[0].freed == 1
    ensures s.reqs[1] == Req(other, 0, Queued, 2, None, None, true, 0, 0)
  {
    hide R.GoodServer, R.Reachable, Output, C.FormatAll, M.GetReply, Multiplex.A.Sendable;
    s := TimedOutCaller(server, argv);
    s := R.Serve(s);
    s := R.Take(s, Arrive(other, 0));
    s := R.Take(s, Enqueue(1));
    assert Find(s.reqs, s.cmdList, s.reqs[0].addr) == Some(1);
    s := R.Take(s, Unlink(0));
  }

  /** The other caller's command is then never sent, and its record never freed. */
  lemma StaleSearchCanLeak(server: seq<Reply> -> Reply, argv: seq<seq<byte>>, other: seq<seq<byte>>) returns (s: State)
    requires R.GoodServer(server) && Multiplex.A.Sendable(argv) && Multiplex.A.Sendable(other)
    ensures R.Reachable(s) && |s.reqs| == 2 && s.log == [argv]
    ensures s.reqs[1].phase == Done(TimedOut(None, true)) && s.reqs[1].freed == s.reqs[1].hit == 0 && !Held(s, 1)
  {
    hide R.GoodServer, R.Reachable, Output, C.FormatAll, M.GetReply, Multiplex.A.Sendable;
    s := AddressUsedAgain(server, argv, other);
    s := R.Take(s, CheckStatus(0));
    s := R.Take(s, WriteByte(1));
    s := R.Take(s, Pick(1));
    s := R.Take(s, Leave(1));
    s := R.Take(s, Unlink(1));
    s := R.Take(s, CheckStatus(1));
  }

  /** Or, when the connection goes down first, the first caller frees the record that the other one still uses. */
  lemma StaleFreeCanHit(server: seq<Reply> -> Reply, argv: seq<seq<byte>>, other: seq<seq<byte>>) returns (s: State)
    requires R.GoodServer(server) && Multiplex.A.Sendable(argv) && Multiplex.A.Sendable(other)
    ensures R.Reachable(s) && |s.reqs| == 2 && s.reqs[1].phase == Queued && s.reqs[1].hit == 1
  {
    hide R.GoodServer, R.Reachable, Output, C.FormatAll, M.GetReply, Multiplex.A.Sendable;
    s := AddressUsedAgain(server, argv, other);
    s := R.Take(s, Fail);
    s := R.Take(s, Disconnected);
    s := R.Take(s, CheckStatus(0));
  }
}
