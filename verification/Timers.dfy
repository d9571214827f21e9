/** The time events of ae.c: an unsorted linked list of timers, and the pass that fires and unlinks them while
    the callbacks it runs create and delete timers. */
module Timers {

  const DELETED: int := -1
  const NOMORE: int := -1

  datatype Time = Time(sec: int, ms: int)

  /** `aeAddMillisecondsToNow`, with C's division toward zero. */
  function AddMilliseconds(now: Time, milliseconds: int): Time {
    var q := if milliseconds >= 0 then milliseconds / 1000 else -((-milliseconds) / 1000);
    var t := Time(now.sec + q, now.ms + (milliseconds - 1000 * q));
    if t.ms >= 1000 then Time(t.sec + 1, t.ms - 1000) else t
  }

  /** The sum is exact, and normalised for delays that are not negative. */
  lemma AddMillisecondsIsExact(now: Time, milliseconds: int)
    requires 0 <= now.ms < 1000
    ensures var t := AddMilliseconds(now, milliseconds);
      && 1000 * t.sec + t.ms == 1000 * now.sec + now.ms + milliseconds
      && t.ms < 1000 && (milliseconds >= 0 ==> 0 <= t.ms)
  {
  }

  /** The milliseconds of a time. */
  function Millis(t: Time): int {
    1000 * t.sec + t.ms
  }

  predicate Normal(t: Time) {
    0 <= t.ms < 1000
  }

  /** A timer is due once the clock reads its time or a later one. */
  lemma DueIsNotBefore(now: Time, when: Time)
    requires Normal(now) && Normal(when)
    ensures Due(now, when) <==> Millis(now) >= Millis(when)
  {
  }

  /** Earlier means fewer milliseconds. */
  lemma EarlierIsLess(a: Time, b: Time)
    requires Normal(a) && Normal(b)
    ensures Earlier(a, b) <==> Millis(a) < Millis(b)
  {
  }

  predicate Due(now: Time, when: Time) {
    now.sec > when.sec || (now.sec == when.sec && now.ms >= when.ms)
  }

  predicate Earlier(a: Time, b: Time) {
    a.sec < b.sec || (a.sec == b.sec && a.ms < b.ms)
  }

  class TimeEvent {
    var id: int
    var when: Time
    const hasFinalizer: bool
    var next: TimeEvent?

    constructor (id: int, when: Time, hasFinalizer: bool, next: TimeEvent?)
      ensures this.id == id && this.when == when && this.hasFinalizer == hasFinalizer && this.next == next
    {
      this.id, this.when, this.hasFinalizer, this.next := id, when, hasFinalizer, next;
    }
  }

  /** What a callback does with timers. */
  datatype Action = Create(milliseconds: int, hasFinalizer: bool) | Delete(id: int)

  function Creates(script: seq<Action>): nat {
    if script == [] then 0 else (if script[0].Create? then 1 else 0) + Creates(script[1..])
  }

  /** The ids a script deletes. */
  function Deletes(script: seq<Action>): set<int> {
    set i | 0 <= i < |script| && script[i].Delete? :: script[i].id
  }

  /** An id after some ids have been deleted. */
  function Marked(id: int, gone: set<int>): int {
    if id in gone then DELETED else id
  }

  /** How often the clock was read, and callbacks and finalizers were run. */
  datatype Counters = Counters(ticks: nat, calls: nat, finals: nat)

  /** The timers linked from `head`, in order. */
  ghost predicate ListOk(head: TimeEvent?, l: seq<TimeEvent>)
    reads (set x | x in l)`next
  {
    && head == First(l)
    && (forall i :: 0 <= i < |l| - 1 ==> l[i].next == l[i + 1])
    && (l != [] ==> l[|l| - 1].next == null)
    && (forall i, j :: 0 <= i < j < |l| ==> l[i] != l[j])
  }

  function First(l: seq<TimeEvent>): TimeEvent? {
    if l == [] then null else l[0]
  }

  /** No two live timers share an id, and all ids are below `bound`. */
  ghost predicate Ids(l: seq<TimeEvent>, bound: int)
    reads (set x | x in l)`id
  {
    && (forall i :: 0 <= i < |l| ==> DELETED <= l[i].id < bound)
    && (forall i, j :: 0 <= i < j < |l| && l[i].id == l[j].id ==> l[i].id == DELETED)
  }

  class EventLoop {
    var timeEventHead: TimeEvent?
    var timeEventNextId: nat
    var lastTime: int
    ghost var list: seq<TimeEvent>

    /** The application and the clock: what the n-th reading of the clock is, what the n-th callback and the n-th
        finalizer do, and what the n-th callback returns. */
    const clock: nat -> Time
    const proc: nat -> seq<Action>
    const retval: nat -> int
    const fin: nat -> seq<Action>
    var ticks: nat
    var calls: nat
    var finals: nat
    /** The timers whose callback, and whose finalizer, has run. */
    ghost var fired: seq<TimeEvent>
    ghost var finalized: seq<TimeEvent>

    ghost predicate Valid()
      reads this, (set x | x in list)`next, (set x | x in list)`id
    {
      ListOk(timeEventHead, list) && Ids(list, timeEventNextId)
    }

    /** The timers of `aeCreateEventLoop`. */
    constructor (now: int, clock: nat -> Time, proc: nat -> seq<Action>, retval: nat -> int, fin: nat -> seq<Action>)
      ensures Valid() && list == [] && timeEventNextId == 0 && lastTime == now && Counts() == Counters(0, 0, 0)
      ensures fired == finalized == []
      ensures this.clock == clock && this.proc == proc && this.retval == retval && this.fin == fin
    {
      this.clock, this.proc, this.retval, this.fin := clock, proc, retval, fin;
      timeEventHead, timeEventNextId, lastTime := null, 0, now;
      ticks, calls, finals := 0, 0, 0;
      list, fired, finalized := [], [], [];
    }

    /** `aeGetTime`. */
    method GetTime() returns (now: Time)
      modifies this`ticks
      ensures now == clock(old(ticks)) && ticks == old(ticks) + 1
    {
      now := clock(ticks);
      ticks := ticks + 1;
    }

    /** `aeCreateTimeEvent`: at the head of the list, under a new id. */
    method CreateTimeEvent(milliseconds: int, hasFinalizer: bool) returns (id: int)
      requires Valid()
      modifies this`timeEventHead, this`timeEventNextId, this`list, this`ticks
      ensures Valid() && id == old(timeEventNextId) && timeEventNextId == old(timeEventNextId) + 1
      ensures |list| == |old(list)| + 1 && list[1..] == old(list) && fresh(list[0]) && list[0].id == id
      ensures list[0].when == AddMilliseconds(clock(old(ticks)), milliseconds) && list[0].hasFinalizer == hasFinalizer
      ensures ticks == old(ticks) + 1
    {
      id := timeEventNextId;
      timeEventNextId := timeEventNextId + 1;
      var now := GetTime();
      var te := new TimeEvent(id, AddMilliseconds(now, milliseconds), hasFinalizer, timeEventHead);
      timeEventHead := te;
      list := [te] + list;
    }

    /** `aeDeleteTimeEvent`: the timer is only marked. */
    method DeleteTimeEvent(id: int) returns (ok: bool)
      requires Valid()
      modifies (set x | x in list)`id
      ensures Valid()
      ensures ok == exists i :: 0 <= i < |list| && old(list[i].id) == id
      ensures forall i :: 0 <= i < |list| ==> list[i].id == if old(list[i].id) == id then DELETED else old(list[i].id)
    {
      var te := timeEventHead;
      ghost var n := 0;
      while te != null
        invariant n <= |list| && te == (if n < |list| then list[n] else null)
        invariant forall i :: 0 <= i < |list| ==> list[i].id == old(list[i].id)
        invariant forall i :: 0 <= i < n ==> list[i].id != id
        decreases |list| - n
      {
        if te.id == id {
          te.id := DELETED;
          return true;
        }
        te, n := te.next, n + 1;
      }
      return false;
    }

    /** `aeSearchNearestTimer`: the timer to fire first, deleted ones included. */
    method SearchNearestTimer() returns (nearest: TimeEvent?)
      requires Valid()
      ensures nearest == null <==> list == []
      ensures nearest != null ==>
        nearest in list && forall i :: 0 <= i < |list| ==> !Earlier(list[i].when, nearest.when)
    {
      var te := timeEventHead;
      nearest := null;
      ghost var n := 0;
      while te != null
        invariant n <= |list| && te == (if n < |list| then list[n] else null)
        invariant nearest == null <==> n == 0
        invariant nearest != null ==> nearest in list && forall i :: 0 <= i < n ==> !Earlier(list[i].when, nearest.when)
        decreases |list| - n
      {
        if nearest == null || Earlier(te.when, nearest.when) {
          nearest := te;
        }
        te, n := te.next, n + 1;
      }
    }

    /** The timer calls of one callback: new timers go to the front, deleted ones are marked. */
    method RunActions(script: seq<Action>)
      requires Valid()
      modifies this`timeEventHead, this`timeEventNextId, this`list, this`ticks, (set x | x in list)`id
      ensures Valid() && timeEventNextId == old(timeEventNextId) + Creates(script)
      ensures |list| == Creates(script) + |old(list)| && ticks == old(ticks) + Creates(script)
      ensures list[Creates(script)..] == old(list)
      ensures forall i :: 0 <= i < Creates(script) ==> fresh(list[i])
      ensures forall x :: x in old(list) ==> x.id == Marked(old(x.id), Deletes(script))
      decreases |script|
    {
      hide ListOk, Ids, Deletes;
      DeletesNil();
      if script != [] {
        Act(script[0]);
        DeletesCons(script);
        RunActions(script[1..]);
      }
    }

    method Act(action: Action)
      requires Valid()
      modifies this`timeEventHead, this`timeEventNextId, this`list, this`ticks, (set x | x in list)`id
      ensures Valid() && timeEventNextId == old(timeEventNextId) + if action.Create? then 1 else 0
      ensures |list| == (if action.Create? then 1 else 0) + |old(list)|
      ensures ticks == old(ticks) + if action.Create? then 1 else 0
      ensures list[if action.Create? then 1 else 0..] == old(list) && (action.Create? ==> fresh(list[0]))
      ensures forall x :: x in old(list) ==> x.id == if action == Delete(old(x.id)) then DELETED else old(x.id)
    {
      hide ListOk, Ids;
      match action
      case Create(ms, f) => var id := CreateTimeEvent(ms, f);
      case Delete(id) => var ok := DeleteTimeEvent(id);
    }

    /** Unlinks `te` behind `prev`, as the pass does: without a predecessor the list is made to start after it. */
    method Unlink(prev: TimeEvent?, te: TimeEvent, ghost created: seq<TimeEvent>, ghost kept: seq<TimeEvent>,
                  ghost rest: seq<TimeEvent>)
      requires Valid() && list == created + kept + rest && rest != [] && te == rest[0]
      requires prev == if kept == [] then null else kept[|kept| - 1]
      modifies this`timeEventHead, this`list, (set x | x in kept)`next
      ensures Valid() && list == (if kept == [] then [] else created + kept) + rest[1..]
    {
      hide ListOk, Ids;
      ghost var l := list;
      ghost var at := |created| + |kept|;
      NextIs(timeEventHead, l, at);
      IdsWithout(l, at, timeEventNextId);
      if prev == null {
        ListTail(timeEventHead, l, at + 1);
        IdsTail(l, at + 1, timeEventNextId);
        timeEventHead := te.next;
        list := rest[1..];
        assert l[at + 1..] == rest[1..];
      } else {
        ListHead(timeEventHead, l);
        SkipAfter(timeEventHead, prev, te, l, at);
        list := created + kept + rest[1..];
        assert l[..at] + l[at + 1..] == list;
      }
    }

    /** The pass at `te`: timers created during the pass, timers it keeps, timers still to visit. */
    ghost predicate At(prev: TimeEvent?, te: TimeEvent?, created: seq<TimeEvent>, kept: seq<TimeEvent>,
                       rest: seq<TimeEvent>)
      reads this, (set x | x in list)`next, (set x | x in list)`id
    {
      Valid() && list == created + kept + rest && te == First(rest) && prev == Last(kept)
    }

    /** A timer found deleted: unlinked, then finalized. */
    method RemoveStep(prev: TimeEvent?, te: TimeEvent, ghost created: seq<TimeEvent>, ghost kept: seq<TimeEvent>,
                      ghost rest: seq<TimeEvent>)
      returns (next: TimeEvent?, ghost created': seq<TimeEvent>)
      requires At(prev, te, created, kept, rest) && te.id == DELETED
      modifies this, (set x | x in list)`next, (set x | x in list)`id
      ensures At(prev, next, created', kept, rest[1..])
      ensures var script := if te.hasFinalizer then fin(old(finals)) else [];
        && |created'| == (if kept == [] then 0 else |created|) + Creates(script)
        && (forall x :: x in kept || x in rest[1..] ==> x.id == Marked(old(x.id), Deletes(script)))
        && ticks == old(ticks) + Creates(script) && timeEventNextId == old(timeEventNextId) + Creates(script)
      ensures forall x :: x in created' ==> x in created || fresh(x)
      ensures fired == old(fired) && finalized == old(finalized) + (if te.hasFinalizer then [te] else [])
      ensures finals == old(finals) + (if te.hasFinalizer then 1 else 0) && calls == old(calls)
      ensures lastTime == old(lastTime)
    {
      hide ListOk, Ids, Deletes;
      DeletesNil();
      NextInRest(timeEventHead, list, created + kept, rest);
      next := te.next;
      Unlink(prev, te, created, kept, rest);
      created' := if kept == [] then [] else created;
      assert list == created' + kept + rest[1..];
      if te.hasFinalizer {
        finalized := finalized + [te];
        finals := finals + 1;
        created' := RunScript(fin(finals - 1), created', kept, rest[1..]);
      }
    }

    /** A live timer: fired when due, and then rescheduled or marked. */
    method FireStep(te: TimeEvent, ghost prev: TimeEvent?, ghost created: seq<TimeEvent>, ghost kept: seq<TimeEvent>,
                    ghost rest: seq<TimeEvent>)
      returns (next: TimeEvent?, ghost created': seq<TimeEvent>, v: Visit)
      requires At(prev, te, created, kept, rest) && te.id != DELETED
      modifies this, (set x | x in list)`id, te`when
      ensures v == Visit(te, old(te.id), old(te.when), clock(old(ticks)))
      ensures At(te, next, created', kept + [te], rest[1..])
      ensures fired == old(fired) + (if v.Fires() then [te] else []) && finalized == old(finalized)
      ensures Visited(v, old(Counts()), |created'| - |created|, timeEventNextId - old(timeEventNextId))
      ensures forall x :: x in kept || x in rest[1..] ==>
        x.id == Marked(old(x.id), Deletes(ScriptAt(v, old(Counts())))) && x.when == old(x.when)
      ensures forall x :: x in created' ==> x in created || fresh(x)
      ensures lastTime == old(lastTime)
    {
      hide ListOk, Ids, Deletes, Due, AddMilliseconds, Marked, Outcome, After;
      assert created + kept + rest == created + (kept + [te]) + rest[1..];
      ghost var c := Counts();
      var now := GetTime();
      v := Visit(te, te.id, te.when, now);
      if Due(now, te.when) {
        created' := Expire(te, created, kept, rest[1..], v, c);
      } else {
        created' := created;
        NotDue(v, c);
      }
      NextAfter(timeEventHead, list, created', kept, te, rest[1..]);
      next := te.next;
    }

    /** What a visit leaves behind: the counters, the timer visited, and how many timers it made. */
    ghost predicate Visited(v: Visit, c: Counters, created: int, ids: int)
      reads this, v.t
    {
      Counts() == After(v, c) && Outcome(v, c) && created == ids == Creates(ScriptAt(v, c))
    }

    /** A live timer that is not due. */
    lemma NotDue(v: Visit, c: Counters)
      requires !v.Removed() && !v.Fires() && v.t.id == v.id && v.t.when == v.when
      requires Counts() == c.(ticks := c.ticks + 1)
      ensures Visited(v, c, 0, 0) && Deletes(ScriptAt(v, c)) == {} && forall id :: Marked(id, {}) == id
    {
      DeletesNil();
    }

    /** A live timer that is due. */
    method Expire(te: TimeEvent, ghost created: seq<TimeEvent>, ghost kept: seq<TimeEvent>, ghost rest: seq<TimeEvent>,
                  ghost v: Visit, ghost c: Counters)
      returns (ghost created': seq<TimeEvent>)
      requires Valid() && list == created + (kept + [te]) + rest
      requires v.Fires() && v.t == te && v.id == te.id && v.when == te.when && Counts() == c.(ticks := c.ticks + 1)
      modifies this`timeEventHead, this`timeEventNextId, this`list, this`ticks, this`calls, this`fired
      modifies (set x | x in list)`id, te`when
      ensures Valid() && list == created' + (kept + [te]) + rest && fired == old(fired) + [te]
      ensures Visited(v, c, |created'| - |created|, timeEventNextId - old(timeEventNextId))
      ensures forall x :: x in kept || x in rest ==>
        x.id == Marked(old(x.id), Deletes(ScriptAt(v, c))) && x.when == old(x.when)
      ensures forall x :: x in created' ==> x in created || fresh(x)
    {
      hide ListOk, Ids, Deletes, AddMilliseconds, Marked, Due;
      fired := fired + [te];
      calls := calls + 1;
      created' := Callback(te, created, kept, rest);
    }

    ghost function Counts(): Counters
      reads this`ticks, this`calls, this`finals
    {
      Counters(ticks, calls, finals)
    }

    /** What the application does at a visit. */
    function ScriptAt(v: Visit, c: Counters): seq<Action> {
      if v.Fires() then proc(c.calls) else if v.Finalizes() then fin(c.finals) else []
    }

    /** The counters after a visit: the clock is read for every live timer, for every new one, and to reschedule. */
    function After(v: Visit, c: Counters): Counters {
      Counters(
        c.ticks + (if v.Removed() then 0 else 1) + Creates(ScriptAt(v, c)) +
          (if v.Fires() && retval(c.calls) != NOMORE then 1 else 0),
        c.calls + (if v.Fires() then 1 else 0),
        c.finals + (if v.Finalizes() then 1 else 0))
    }

    /** How a visit leaves the time of a timer that stays, and the id but for deletions. */
    predicate Outcome(v: Visit, c: Counters)
      reads v.t
    {
      if v.Fires() && retval(c.calls) == NOMORE then
        v.t.id == DELETED && v.t.when == v.when
      else
        && v.t.id == Marked(v.id, Deletes(ScriptAt(v, c)))
        && v.t.when == if v.Fires() then AddMilliseconds(clock(After(v, c).ticks - 1), retval(c.calls)) else v.when
    }

    /** A script runs in the middle of the pass. */
    method RunScript(script: seq<Action>, ghost created: seq<TimeEvent>, ghost kept: seq<TimeEvent>,
                     ghost rest: seq<TimeEvent>)
      returns (ghost created': seq<TimeEvent>)
      requires Valid() && list == created + kept + rest
      modifies this`timeEventHead, this`timeEventNextId, this`list, this`ticks, (set x | x in list)`id
      ensures Valid() && list == created' + kept + rest && timeEventNextId == old(timeEventNextId) + Creates(script)
      ensures |created'| == |created| + Creates(script) && ticks == old(ticks) + Creates(script)
      ensures forall x :: x in kept || x in rest ==> x.id == Marked(old(x.id), Deletes(script))
      ensures forall x :: x in created' ==> x in created || fresh(x)
    {
      hide ListOk, Ids, Deletes;
      ghost var l := list;
      RunActions(script);
      ghost var n := Creates(script);
      created' := list[..n] + created;
      assert list == list[..n] + list[n..];
      assert list == created' + kept + rest;
      assert forall x :: x in kept || x in rest ==> x in l;
    }

    /** The timer's callback runs; what it returns is the next delay, or the end of the timer. */
    method Callback(te: TimeEvent, ghost created: seq<TimeEvent>, ghost kept: seq<TimeEvent>,
                    ghost rest: seq<TimeEvent>)
      returns (ghost created': seq<TimeEvent>)
      requires Valid() && list == created + (kept + [te]) + rest && calls > 0
      modifies this`timeEventHead, this`timeEventNextId, this`list, this`ticks, (set x | x in list)`id, te`when
      ensures Valid() && list == created' + (kept + [te]) + rest
      ensures var script := proc(calls - 1);
        && timeEventNextId == old(timeEventNextId) + Creates(script)
        && |created'| == |created| + Creates(script)
        && (forall x :: x in kept || x in rest ==> x.id == Marked(old(x.id), Deletes(script)) && x.when == old(x.when))
        && ticks == old(ticks) + Creates(script) + (if retval(calls - 1) != NOMORE then 1 else 0)
        && te.id == (if retval(calls - 1) != NOMORE then Marked(old(te.id), Deletes(script)) else DELETED)
        && te.when == if retval(calls - 1) == NOMORE then old(te.when)
                      else AddMilliseconds(clock(ticks - 1), retval(calls - 1))
      ensures forall x :: x in created' ==> x in created || fresh(x)
    {
      hide ListOk, Ids, Deletes;
      created' := RunScript(proc(calls - 1), created, kept + [te], rest);
      Apart(timeEventHead, list, created', kept, te, rest);
      if retval(calls - 1) != NOMORE {
        var now := GetTime();
        te.when := AddMilliseconds(now, retval(calls - 1));
      } else {
        Mark(te);
      }
    }

    method Mark(te: TimeEvent)
      requires Valid() && te in list
      modifies te`id
      ensures Valid() && te.id == DELETED
    {
      te.id := DELETED;
    }

    /** After a clock that went backwards, every timer is made due. */
    method ResetWhenSkewed(now: int)
      requires Valid()
      modifies (set x | x in list)`when
      ensures Valid()
      ensures forall x :: x in list ==> x.when == if now < lastTime then Time(0, old(x.when).ms) else old(x.when)
    {
      if now < lastTime {
        var te := timeEventHead;
        ghost var n := 0;
        while te != null
          invariant n <= |list| && te == (if n < |list| then list[n] else null)
          invariant forall i :: 0 <= i < n ==> list[i].when == Time(0, old(list[i].when).ms)
          invariant forall i :: n <= i < |list| ==> list[i].when == old(list[i].when)
          decreases |list| - n
        {
          te.when := Time(0, te.when.ms);
          te, n := te.next, n + 1;
        }
      }
    }

    /** One round of the pass, on the next timer of the list. */
    method Round(prev: TimeEvent?, te: TimeEvent, ghost created: seq<TimeEvent>, ghost kept: seq<TimeEvent>,
                 ghost rest: seq<TimeEvent>)
      returns (prev': TimeEvent?, te': TimeEvent?, ghost created': seq<TimeEvent>, v: Visit)
      requires At(prev, te, created, kept, rest)
      modifies this, (set x | x in list)`next, (set x | x in list)`id, te`when
      ensures v.t == te && v.id == old(te.id) && v.when == old(te.when) && (v.Removed() || v.now == clock(old(ticks)))
      ensures At(prev', te', created', if v.Removed() then kept else kept + [te], rest[1..])
      ensures fired == old(fired) + (if v.Fires() then [te] else [])
      ensures finalized == old(finalized) + (if v.Finalizes() then [te] else [])
      ensures Counts() == After(v, old(Counts()))
      ensures v.Removed() || Outcome(v, old(Counts()))
      ensures var script := ScriptAt(v, old(Counts()));
        && |created'| == (if v.Removed() && kept == [] then 0 else |created|) + Creates(script)
        && timeEventNextId == old(timeEventNextId) + Creates(script)
        && forall x :: x in kept || x in rest[1..] ==>
             x.id == Marked(old(x.id), Deletes(script)) && x.when == old(x.when)
      ensures forall x :: x in created' ==> x in created || fresh(x)
      ensures lastTime == old(lastTime)
    {
      hide ListOk, Ids, Deletes;
      if te.id == DELETED {
        v := Visit(te, te.id, te.when, te.when);
        prev' := prev;
        te', created' := RemoveStep(prev, te, created, kept, rest);
      } else {
        te', created', v := FireStep(te, prev, created, kept, rest);
        prev' := te;
      }
    }

    /** The counters after some visits, the ids deleted during them, and the number of timers created. */
    function Counting(vs: seq<Visit>, c: Counters): Counters {
      if vs == [] then c else After(vs[|vs| - 1], Counting(vs[..|vs| - 1], c))
    }

    function Gone(vs: seq<Visit>, c: Counters): set<int> {
      if vs == [] then {} else
        var p := vs[..|vs| - 1];
        Gone(p, c) + Deletes(ScriptAt(vs[|vs| - 1], Counting(p, c)))
    }

    function Made(vs: seq<Visit>, c: Counters): nat {
      if vs == [] then 0 else
        var p := vs[..|vs| - 1];
        Made(p, c) + Creates(ScriptAt(vs[|vs| - 1], Counting(p, c)))
    }

    /** The visits meet the timers in order, each with the id that the deletions so far have left it. */
    ghost predicate Meets(vs: seq<Visit>, l: seq<TimeEvent>, ids: seq<int>, whens: seq<Time>, c: Counters)
      requires |vs| <= |l| == |ids| == |whens|
    {
      forall k :: 0 <= k < |vs| ==>
        && vs[k].t == l[k] && vs[k].when == whens[k] && vs[k].id == Marked(ids[k], Gone(vs[..k], c))
        && (vs[k].Removed() || vs[k].now == clock(Counting(vs[..k], c).ticks))
    }

    /** How a visit, and the deletions `gone` of the pass, leave a timer that stays: ended, rescheduled or
        untouched. */
    predicate SettledAt(v: Visit, id: int, d: Counters, gone: set<int>, id': int, when': Time) {
      if v.Fires() && retval(d.calls) == NOMORE then
        id' == DELETED && when' == v.when
      else
        && id' == Marked(id, gone)
        && when' == if v.Fires() then AddMilliseconds(clock(After(v, d).ticks - 1), retval(d.calls)) else v.when
    }

    ghost predicate Settled(vs: seq<Visit>, ids: seq<int>, c: Counters, ids': seq<int>, whens': seq<Time>)
      requires |vs| <= |ids| == |ids'| == |whens'|
    {
      forall k :: 0 <= k < |vs| && !vs[k].Removed() ==>
        SettledAt(vs[k], ids[k], Counting(vs[..k], c), Gone(vs, c), ids'[k], whens'[k])
    }

    /** A visit marks the other timers that it leaves in the list. */
    ghost predicate Marks(vs: seq<Visit>, v: Visit, s: Start, ids: seq<int>, whens: seq<Time>, ids': seq<int>,
                          whens': seq<Time>)
      requires |vs| < |s.l| == |ids| == |whens| == |ids'| == |whens'|
    {
      forall i :: 0 <= i < |ids| && i != |vs| && (i < |vs| ==> !vs[i].Removed()) ==>
        ids'[i] == Marked(ids[i], Deletes(ScriptAt(v, Counting(vs, s.c)))) && whens'[i] == whens[i]
    }

    lemma StaysSettled(v: Visit, id: int, d: Counters, gone: set<int>, more: set<int>, id': int, when': Time)
      requires SettledAt(v, id, d, gone, id', when')
      ensures SettledAt(v, id, d, gone + more, Marked(id', more), when')
    {
    }

    lemma SettlesNow(v: Visit, id: int, d: Counters, gone: set<int>)
      requires v.id == Marked(id, gone) && Outcome(v, d)
      ensures SettledAt(v, id, d, gone + Deletes(ScriptAt(v, d)), v.t.id, v.t.when)
    {
      hide Deletes, After, AddMilliseconds, ScriptAt;
    }

    lemma GoneSnoc(vs: seq<Visit>, v: Visit, c: Counters)
      ensures Gone(vs + [v], c) == Gone(vs, c) + Deletes(ScriptAt(v, Counting(vs, c)))
      ensures Made(vs + [v], c) == Made(vs, c) + Creates(ScriptAt(v, Counting(vs, c)))
    {
      hide Deletes;
      assert (vs + [v])[..|vs|] == vs;
    }

    lemma MeetsSnoc(vs: seq<Visit>, v: Visit, l: seq<TimeEvent>, ids: seq<int>, whens: seq<Time>, c: Counters)
      requires |vs| < |l| == |ids| == |whens| && Meets(vs, l, ids, whens, c)
      requires v.t == l[|vs|] && v.when == whens[|vs|] && v.id == Marked(ids[|vs|], Gone(vs, c))
      requires v.Removed() || v.now == clock(Counting(vs, c).ticks)
      ensures Meets(vs + [v], l, ids, whens, c)
    {
      hide Gone, Counting, Marked, Visit.Removed;
      var us := vs + [v];
      forall k | 0 <= k < |us|
        ensures us[..k] == if k < |vs| then vs[..k] else vs
      {
      }
    }

    lemma SettledSnoc(vs: seq<Visit>, v: Visit, s: Start, ids: seq<int>, whens: seq<Time>, ids': seq<int>,
                      whens': seq<Time>)
      requires |vs| < |s.l| == |ids| == |whens| == |ids'| == |whens'| && Settled(vs, s.ids, s.c, ids, whens)
      requires Marks(vs, v, s, ids, whens, ids', whens') && v.id == Marked(s.ids[|vs|], Gone(vs, s.c))
      requires v.Removed() || (Outcome(v, Counting(vs, s.c)) && v.t.id == ids'[|vs|] && v.t.when == whens'[|vs|])
      ensures Settled(vs + [v], s.ids, s.c, ids', whens')
    {
      hide SettledAt, Outcome, Counting, Gone, Marked, Deletes, ScriptAt, Visit.Removed;
      var us, more := vs + [v], Deletes(ScriptAt(v, Counting(vs, s.c)));
      GoneSnoc(vs, v, s.c);
      if !v.Removed() {
        SettlesNow(v, s.ids[|vs|], Counting(vs, s.c), Gone(vs, s.c));
        assert us[..|vs|] == vs;
      }
      forall k | 0 <= k < |us| && !us[k].Removed()
        ensures SettledAt(us[k], s.ids[k], Counting(us[..k], s.c), Gone(us, s.c), ids'[k], whens'[k])
      {
        if k < |vs| {
          assert us[..k] == vs[..k];
          StaysSettled(vs[k], s.ids[k], Counting(vs[..k], s.c), Gone(vs, s.c), more, ids[k], whens[k]);
        }
      }
    }

    /** The timers not yet met: only marked, by the deletions so far. */
    ghost predicate Waiting(vs: seq<Visit>, s: Start, ids': seq<int>, whens': seq<Time>)
      requires |vs| <= |s.l| == |ids'| == |whens'|
    {
      forall i :: |vs| <= i < |s.l| ==> ids'[i] == Marked(s.ids[i], Gone(vs, s.c)) && whens'[i] == s.whens[i]
    }

    lemma WaitingSnoc(vs: seq<Visit>, v: Visit, s: Start, ids: seq<int>, whens: seq<Time>, ids': seq<int>,
                      whens': seq<Time>)
      requires |vs| < |s.l| == |ids| == |whens| == |ids'| == |whens'| && Waiting(vs, s, ids, whens)
      requires Marks(vs, v, s, ids, whens, ids', whens')
      ensures Waiting(vs + [v], s, ids', whens')
    {
      hide Deletes, Gone, Counting, ScriptAt;
      GoneSnoc(vs, v, s.c);
    }

    /** The new timers are in the list, or were dropped, or `LostCount` still foresees it. */
    ghost predicate Accounted(vs: seq<Visit>, created: nat, none: bool, s: Start, ids': seq<int>)
      requires |vs| <= |s.l| == |ids'|
    {
      created + LostCount(s.ids, FinsOf(s.l), fin, s.c.finals, 0) == Made(vs, s.c) +
        if none then LostCount(ids'[|vs|..], FinsOf(s.l)[|vs|..], fin, Counting(vs, s.c).finals, created) else 0
    }

    lemma AccountedSnoc(vs: seq<Visit>, v: Visit, created: nat, created': nat, none: bool, s: Start, ids: seq<int>,
                        ids': seq<int>)
      requires |vs| < |s.l| == |ids| == |ids'| && v.t == s.l[|vs|] && v.id == ids[|vs|]
      requires Accounted(vs, created, none, s, ids)
      requires var script := ScriptAt(v, Counting(vs, s.c));
        && created' == (if v.Removed() && none then 0 else created) + Creates(script)
        && (forall i :: |vs| < i < |s.l| ==> ids'[i] == Marked(ids[i], Deletes(script)))
      ensures Accounted(vs + [v], created', none && v.Removed(), s, ids')
    {
      hide Deletes, Marked, MarkAll, Made, Gone, Counting, FinsOf, Creates, LostCount, ScriptAt, After;
      if v.Removed() {
        AtRemoval(v, Counting(vs, s.c));
      }
      GoneSnoc(vs, v, s.c);
      CountingSnoc(vs, v, s.c);
      var script, n, f := ScriptAt(v, Counting(vs, s.c)), |vs|, Counting(vs, s.c).finals;
      var tail, fins := ids[n..], FinsOf(s.l)[n..];
      TailMarked(ids, ids', n, Deletes(script));
      assert tail[0] == v.id && fins[0] == v.t.hasFinalizer && fins[1..] == FinsOf(s.l)[n + 1..];
      LostStep(tail, fins, fin, f, created);
    }

    lemma TailMarked(ids: seq<int>, ids': seq<int>, n: nat, gone: set<int>)
      requires n < |ids| == |ids'| && forall i :: n < i < |ids| ==> ids'[i] == Marked(ids[i], gone)
      ensures ids'[n + 1..] == MarkAll(ids[n..][1..], gone)
    {
      hide Marked;
    }

    lemma AtRemoval(v: Visit, c: Counters)
      requires v.Removed()
      ensures ScriptAt(v, c) == if v.t.hasFinalizer then fin(c.finals) else []
      ensures After(v, c).finals == if v.t.hasFinalizer then c.finals + 1 else c.finals
    {
    }

    /** The timers that a visit leaves in the list. */
    lemma Others(vs: seq<Visit>, s: Start, i: nat)
      requires |vs| < |s.l| && Meets(vs, s.l, s.ids, s.whens, s.c)
      requires i < |s.l| && i != |vs| && (i < |vs| ==> !vs[i].Removed())
      ensures s.l[i] in Kept(vs) || s.l[i] in s.l[|vs|..][1..]
    {
      hide Gone, Counting, Marked;
      if i < |vs| {
        KeptHas(vs, i);
      } else {
        assert s.l[|vs|..][1..][i - |vs| - 1] == s.l[i];
      }
    }

    /** The pass after some visits. */
    ghost predicate InPass(vs: seq<Visit>, prev: TimeEvent?, te: TimeEvent?, created: seq<TimeEvent>,
                           rest: seq<TimeEvent>, s: Start)
      reads this, list, s.l
    {
      && |vs| <= |s.l| && rest == s.l[|vs|..] && At(prev, te, created, Kept(vs), rest)
      && Meets(vs, s.l, s.ids, s.whens, s.c) && Settled(vs, s.ids, s.c, IdsOf(s.l), WhensOf(s.l, false))
      && Waiting(vs, s, IdsOf(s.l), WhensOf(s.l, false))
      && Counts() == Counting(vs, s.c) && Accounted(vs, |created|, Kept(vs) == [], s, IdsOf(s.l))
      && forall x :: x in Kept(vs) ==> x in s.l
    }

    method Turn(prev: TimeEvent?, te: TimeEvent, ghost created: seq<TimeEvent>, ghost rest: seq<TimeEvent>,
                ghost vs: seq<Visit>, ghost s: Start)
      returns (prev': TimeEvent?, te': TimeEvent?, ghost created': seq<TimeEvent>, v: Visit)
      requires InPass(vs, prev, te, created, rest, s) && rest != []
      modifies this, (set x | x in created), s.l
      ensures InPass(vs + [v], prev', te', created', rest[1..], s)
      ensures fired == old(fired) + (if v.Fires() then [te] else []) && v.t == te
      ensures finalized == old(finalized) + (if v.Finalizes() then [te] else [])
      ensures forall x :: x in created' ==> x in created || fresh(x)
      ensures timeEventNextId == old(timeEventNextId) + Creates(ScriptAt(v, Counting(vs, s.c)))
      ensures lastTime == old(lastTime)
    {
      hide Valid, Deletes, Visit.Removed, Visit.Fires, Visit.Finalizes, After, ScriptAt, Settled, Meets, Outcome;
      hide Accounted, Made, Gone, Counting, Kept, IdsOf, WhensOf;
      ghost var ids, whens, kept := IdsOf(s.l), WhensOf(s.l, false), Kept(vs);
      assert te == s.l[|vs|] && te.id == ids[|vs|] == Marked(s.ids[|vs|], Gone(vs, s.c)) && te.when == s.whens[|vs|];
      hide Waiting;
      prev', te', created', v := Round(prev, te, created, kept, rest);
      ghost var ids', whens' := IdsOf(s.l), WhensOf(s.l, false);
      forall i: nat | i < |s.l| && i != |vs| && (i < |vs| ==> !vs[i].Removed())
        ensures ids'[i] == Marked(ids[i], Deletes(ScriptAt(v, Counting(vs, s.c)))) && whens'[i] == whens[i]
      {
        Others(vs, s, i);
      }
      FiltersSnoc(vs, v);
      MeetsSnoc(vs, v, s.l, s.ids, s.whens, s.c);
      SettledSnoc(vs, v, s, ids, whens, ids', whens');
      WaitingSnoc(vs, v, s, ids, whens, ids', whens');
      AccountedSnoc(vs, v, |created|, |created'|, kept == [], s, ids, ids');
      CountingSnoc(vs, v, s.c);
      assert rest[1..] == s.l[|vs + [v]|..];
    }

    lemma CountingSnoc(vs: seq<Visit>, v: Visit, c: Counters)
      ensures Counting(vs + [v], c) == After(v, Counting(vs, c))
    {
      assert (vs + [v])[..|vs|] == vs;
    }

    lemma Begin(s: Start)
      requires Valid() && s.l == list && s.ids == IdsOf(list) && s.whens == WhensOf(list, false) && s.c == Counts()
      ensures InPass([], null, timeEventHead, [], list, s)
      ensures forall i :: 0 <= i < |s.ids| ==> s.ids[i] < timeEventNextId
    {
      hide ListOk, Ids, LostCount, IdsOf, WhensOf, FinsOf, Waiting, Accounted, Meets, Settled;
      BeginIds(list, timeEventNextId);
      BeginAt();
      hide At;
      BeginMeets(s);
      BeginWaiting(s);
      BeginAccounted(s);
    }

    lemma BeginAt()
      requires Valid()
      ensures At(null, timeEventHead, [], [], list)
    {
      ListHead(timeEventHead, list);
    }

    lemma BeginMeets(s: Start)
      ensures Meets([], s.l, s.ids, s.whens, s.c) && Settled([], s.ids, s.c, IdsOf(s.l), WhensOf(s.l, false))
    {
    }

    lemma BeginWaiting(s: Start)
      requires s.l == list && s.ids == IdsOf(list) && s.whens == WhensOf(list, false)
      ensures Waiting([], s, IdsOf(list), WhensOf(list, false))
    {
    }

    lemma BeginAccounted(s: Start)
      requires s.l == list && s.ids == IdsOf(list)
      ensures Accounted([], 0, true, s, IdsOf(list))
    {
    }

    lemma IdAtMost(vs: seq<Visit>, prev: TimeEvent?, te: TimeEvent, created: seq<TimeEvent>, rest: seq<TimeEvent>,
                   s: Start, bound: int)
      requires InPass(vs, prev, te, created, rest, s) && DELETED < bound
      requires forall i :: 0 <= i < |s.ids| ==> s.ids[i] < bound
      ensures te.id < bound && te in s.l && rest != [] && te == rest[0]
      ensures forall x :: x in list ==> x in created || x in s.l
    {
      hide Valid, Settled, Meets, Accounted, LostCount;
      assert te == s.l[|vs|];
    }

    lemma Finish(vs: seq<Visit>, prev: TimeEvent?, created: seq<TimeEvent>, rest: seq<TimeEvent>, s: Start)
      requires InPass(vs, prev, null, created, rest, s)
      ensures rest == [] && prev == Last(Kept(vs)) && |vs| == |s.l| && Meets(vs, s.l, s.ids, s.whens, s.c)
      ensures list == created + Kept(vs)
      ensures Settled(vs, s.ids, s.c, IdsOf(s.l), WhensOf(s.l, false))
      ensures |created| + LostCount(s.ids, FinsOf(s.l), fin, s.c.finals, 0) == Made(vs, s.c) && Valid()
    {
      hide ListOk, Ids, Settled, Meets, Waiting, Kept, Made, IdsOf, WhensOf, FinsOf, Counting;
      assert LostCount([], [], fin, finals, |created|) == 0;
      assert IdsOf(s.l)[|vs|..] == [] && FinsOf(s.l)[|vs|..] == [];
    }

    lemma MadeNone(c: Counters)
      ensures Made([], c) == 0
    {
    }

    /** The loop of the pass. The test against `maxId` is never met. */
    method Pass(maxId: int, ghost s: Start)
      returns (processed: nat, ghost vs: seq<Visit>, ghost created: seq<TimeEvent>)
      requires InPass([], null, timeEventHead, [], list, s) && DELETED <= maxId
      requires forall i :: 0 <= i < |s.ids| ==> s.ids[i] <= maxId
      modifies this, s.l
      ensures InPass(vs, Last(Kept(vs)), null, created, [], s) && (forall x :: x in created ==> fresh(x))
      ensures fired == old(fired) + Fired(vs) && processed == |Fired(vs)|
      ensures finalized == old(finalized) + Finalized(vs)
      ensures timeEventNextId == old(timeEventNextId) + Made(vs, s.c) && lastTime == old(lastTime)
    {
      hide *;
      var prev: TimeEvent?, te := null, timeEventHead;
      processed, vs, created := 0, [], [];
      ghost var rest := list;
      FiltersNil();
      MadeNone(s.c);
      while te != null
        invariant InPass(vs, prev, te, created, rest, s)
        invariant fired == old(fired) + Fired(vs) && finalized == old(finalized) + Finalized(vs)
        invariant processed == |Fired(vs)|
        invariant timeEventNextId == old(timeEventNextId) + Made(vs, s.c) && lastTime == old(lastTime)
        invariant forall x :: x in created ==> fresh(x)
        decreases |rest|
      {
        IdAtMost(vs, prev, te, created, rest, s, maxId + 1);
        if te.id > maxId {
          assert false;
        }
        var v: Visit;
        prev, te, created, v := Turn(prev, te, created, rest, vs, s);
        if v.Fires() {
          processed := processed + 1;
        }
        FiltersSnoc(vs, v);
        GoneSnoc(vs, v, s.c);
        vs, rest := vs + [v], rest[1..];
      }
      assert rest == [] && prev == Last(Kept(vs)) by {
        Finish(vs, prev, created, rest, s);
      }
    }

    /** `processTimeEvents`. The visits are exactly the timers that were in the list, in order; new ones wait. */
    method ProcessTimeEvents(now: int) returns (processed: nat, ghost vs: seq<Visit>, ghost created: seq<TimeEvent>)
      requires Valid()
      modifies this, set x | x in list
      ensures Valid() && lastTime == now && |vs| == |old(list)|
      ensures Meets(vs, old(list), old(IdsOf(list)), old(WhensOf(list, now < lastTime)), old(Counts()))
      ensures Settled(vs, old(IdsOf(list)), old(Counts()), IdsOf(old(list)), WhensOf(old(list), false))
      ensures fired == old(fired) + Fired(vs) && processed == |Fired(vs)|
      ensures finalized == old(finalized) + Finalized(vs)
      ensures list == created + Kept(vs) && (forall x :: x in created ==> fresh(x))
      ensures timeEventNextId == old(timeEventNextId) + Made(vs, old(Counts()))
      ensures |created| + LostCount(old(IdsOf(list)), old(FinsOf(list)), fin, old(finals), 0) == Made(vs, old(Counts()))
    {
      hide ListOk, Ids, Settled, Meets, InPass, Fired, Finalized, Kept, LostCount, Made, IdsOf, FinsOf, WhensOf;
      hide Visit.Removed;
      ghost var s := Start(list, IdsOf(list), WhensOf(list, now < lastTime), Counts());
      ResetWhenSkewed(now);
      lastTime := now;
      assert s.whens == WhensOf(list, false);
      Begin(s);
      processed, vs, created := Pass(timeEventNextId - 1, s);
      Finish(vs, Last(Kept(vs)), created, [], s);
    }
  }

  /** The list when a pass starts. */
  datatype StartState = Start(l: seq<TimeEvent>, ids: seq<int>, whens: seq<Time>, c: Counters)

  type Start = s: StartState | |s.l| == |s.ids| == |s.whens| witness Start([], [], [], Counters(0, 0, 0))

  function IdsOf(l: seq<TimeEvent>): (ids: seq<int>)
    reads (set x | x in l)`id
    ensures |ids| == |l| && forall i :: 0 <= i < |l| ==> ids[i] == l[i].id
  {
    if l == [] then [] else [l[0].id] + IdsOf(l[1..])
  }

  function FinsOf(l: seq<TimeEvent>): (fins: seq<bool>)
    ensures |fins| == |l| && forall i :: 0 <= i < |l| ==> fins[i] == l[i].hasFinalizer
  {
    seq(|l|, i requires 0 <= i < |l| => l[i].hasFinalizer)
  }

  /** The times of the timers; after a clock that went backwards, as they are reset. */
  function WhensOf(l: seq<TimeEvent>, skewed: bool): (whens: seq<Time>)
    reads (set x | x in l)`when
    ensures |whens| == |l|
    ensures forall i :: 0 <= i < |l| ==> whens[i] == if skewed then Time(0, l[i].when.ms) else l[i].when
  {
    if l == [] then [] else [if skewed then Time(0, l[0].when.ms) else l[0].when] + WhensOf(l[1..], skewed)
  }

  /** The timers that stay, that fire and that are finalized. */
  function Kept(vs: seq<Visit>): seq<TimeEvent> {
    if vs == [] then [] else Kept(vs[..|vs| - 1]) + (if vs[|vs| - 1].Removed() then [] else [vs[|vs| - 1].t])
  }

  function Fired(vs: seq<Visit>): seq<TimeEvent> {
    if vs == [] then [] else Fired(vs[..|vs| - 1]) + (if vs[|vs| - 1].Fires() then [vs[|vs| - 1].t] else [])
  }

  function Finalized(vs: seq<Visit>): seq<TimeEvent> {
    if vs == [] then [] else Finalized(vs[..|vs| - 1]) + (if vs[|vs| - 1].Finalizes() then [vs[|vs| - 1].t] else [])
  }

  lemma FiltersNil()
    ensures Fired([]) == Finalized([]) == []
  {
  }

  lemma FiltersSnoc(vs: seq<Visit>, v: Visit)
    ensures Kept(vs + [v]) == if v.Removed() then Kept(vs) else Kept(vs) + [v.t]
    ensures Fired(vs + [v]) == Fired(vs) + (if v.Fires() then [v.t] else [])
    ensures Finalized(vs + [v]) == Finalized(vs) + (if v.Finalizes() then [v.t] else [])
  {
    assert (vs + [v])[..|vs|] == vs;
  }

  lemma KeptHas(vs: seq<Visit>, k: nat)
    requires k < |vs| && !vs[k].Removed()
    ensures vs[k].t in Kept(vs)
    decreases |vs|
  {
    if k < |vs| - 1 {
      KeptHas(vs[..|vs| - 1], k);
    }
  }

  lemma FiredHas(vs: seq<Visit>, k: nat)
    requires k < |vs| && vs[k].Fires()
    ensures vs[k].t in Fired(vs)
    decreases |vs|
  {
    if k < |vs| - 1 {
      FiredHas(vs[..|vs| - 1], k);
    }
  }

  /** Timers met once each: a timer fires once if it was live and due when met, and otherwise not at all; it is
      finalized once, or kept once, in the same way. */
  lemma {:induction false} ExactlyOnce(vs: seq<Visit>, k: nat)
    requires k < |vs| && forall i, j :: 0 <= i < j < |vs| ==> vs[i].t != vs[j].t
    ensures multiset(Fired(vs))[vs[k].t] == if vs[k].Fires() then 1 else 0
    ensures multiset(Finalized(vs))[vs[k].t] == if vs[k].Finalizes() then 1 else 0
    ensures multiset(Kept(vs))[vs[k].t] == if vs[k].Removed() then 0 else 1
  {
    hide Fired, Finalized, Kept, Visit.Fires, Visit.Finalizes, Visit.Removed;
    var p, last := vs[..|vs| - 1], vs[|vs| - 1];
    assert vs == p + [last];
    FiltersSnoc(p, last);
    if k < |p| {
      ExactlyOnce(p, k);
      assert last.t != vs[k].t;
    } else {
      Absent(p, vs[k].t);
    }
  }

  lemma {:induction false} Absent(vs: seq<Visit>, x: TimeEvent)
    requires forall i :: 0 <= i < |vs| ==> vs[i].t != x
    ensures multiset(Fired(vs))[x] == multiset(Finalized(vs))[x] == multiset(Kept(vs))[x] == 0
  {
    if vs != [] {
      hide Fired, Finalized, Kept, Visit.Fires, Visit.Finalizes, Visit.Removed;
      var p, last := vs[..|vs| - 1], vs[|vs| - 1];
      assert vs == p + [last];
      FiltersSnoc(p, last);
      Absent(p, x);
    }
  }

  /** A live timer, set from a clock reading and a delay, fires in a pass exactly if by the reading at its visit the
      delay is over. */
  lemma FiresAfterDelay(loop: EventLoop, vs: seq<Visit>, l: seq<TimeEvent>, ids: seq<int>, whens: seq<Time>,
                        c: Counters, k: nat, reading: Time, delay: nat)
    requires |vs| <= |l| == |ids| == |whens| && loop.Meets(vs, l, ids, whens, c) && k < |vs| && !vs[k].Removed()
    requires whens[k] == AddMilliseconds(reading, delay) && Normal(reading) && forall n :: Normal(loop.clock(n))
    ensures vs[k].Fires() <==> Millis(loop.clock(loop.Counting(vs[..k], c).ticks)) >= Millis(reading) + delay
  {
    hide EventLoop.Counting, EventLoop.Gone, AddMilliseconds, Due;
    AddMillisecondsIsExact(reading, delay);
    DueIsNotBefore(vs[k].now, vs[k].when);
  }

  /** In a pass that finds the clock set back, every live timer fires, if by then the clock reads a second or more. */
  lemma SkewFires(loop: EventLoop, vs: seq<Visit>, l: seq<TimeEvent>, ids: seq<int>, whens: seq<Time>, c: Counters,
                  k: nat)
    requires |vs| <= |l| == |ids| == |whens| && loop.Meets(vs, l, ids, whens, c) && k < |vs| && !vs[k].Removed()
    requires whens[k].sec == 0 && loop.clock(loop.Counting(vs[..k], c).ticks).sec >= 1
    ensures vs[k].Fires() && vs[k].t == l[k] && vs[k].t in Fired(vs)
  {
    hide EventLoop.Counting, EventLoop.Gone, Fired;
    FiredHas(vs, k);
  }

  /** What a fired timer returned decides what becomes of it: it ends, or it is set anew from the last clock reading
      of its visit; the deletions of the pass are all that happens to its id. A timer not due keeps its time. */
  lemma Rescheduled(loop: EventLoop, vs: seq<Visit>, ids: seq<int>, c: Counters, ids': seq<int>, whens': seq<Time>,
                    k: nat)
    requires |vs| <= |ids| == |ids'| == |whens'| && loop.Settled(vs, ids, c, ids', whens')
    requires k < |vs| && !vs[k].Removed()
    ensures var delay := loop.retval(c.calls + |Fired(vs[..k])|);
      && (vs[k].Fires() && delay == NOMORE ==> ids'[k] == DELETED)
      && (vs[k].Fires() && delay != NOMORE ==>
            whens'[k] == AddMilliseconds(loop.clock(loop.Counting(vs[..k + 1], c).ticks - 1), delay))
      && (!vs[k].Fires() ==> whens'[k] == vs[k].when)
      && (!vs[k].Fires() || delay != NOMORE ==>
            ids'[k] == if ids[k] in loop.Gone(vs, c) then DELETED else ids[k])
  {
    hide Fired, EventLoop.Gone, AddMilliseconds, EventLoop.After, EventLoop.Counting, Visit.Fires, Visit.Removed;
    assert vs[..k + 1] == vs[..k] + [vs[k]];
    loop.CountingSnoc(vs[..k], vs[k], c);
    CallsCounted(loop, vs[..k], c);
  }

  /** Callbacks and finalizers are counted as they run. */
  lemma {:induction false} CallsCounted(loop: EventLoop, vs: seq<Visit>, c: Counters)
    ensures loop.Counting(vs, c).calls == c.calls + |Fired(vs)|
    ensures loop.Counting(vs, c).finals == c.finals + |Finalized(vs)|
  {
    hide Visit.Fires, Visit.Removed;
    if vs != [] {
      CallsCounted(loop, vs[..|vs| - 1], c);
    }
  }

  /** A new timer in a pass: it fires exactly if its delay is over, at the clock reading of its visit. */
  method CreateAndProcess(loop: EventLoop, delay: nat, hasFinalizer: bool, now: int)
    returns (ghost te: TimeEvent, processed: nat)
    requires loop.Valid() && now >= loop.lastTime && forall n :: Normal(loop.clock(n))
    modifies loop, set x | x in loop.list
    ensures loop.Valid() && fresh(te) && te.hasFinalizer == hasFinalizer
    ensures var created := old(loop.ticks);
      multiset(loop.fired)[te] ==
        if Millis(loop.clock(created + 1)) >= Millis(loop.clock(created)) + delay then 1 else 0
  {
    hide ListOk, Ids, EventLoop.Settled, EventLoop.Meets, Kept, Fired, Finalized, EventLoop.Made, LostCount, IdsOf;
    hide FinsOf, WhensOf, Millis, Due, AddMilliseconds, EventLoop.Gone, EventLoop.Counting;
    ghost var fired, c := loop.fired, Counters(loop.ticks + 1, loop.calls, loop.finals);
    var id := loop.CreateTimeEvent(delay, hasFinalizer);
    te := loop.list[0];
    ghost var l, ids, whens := loop.list, IdsOf(loop.list), WhensOf(loop.list, now < loop.lastTime);
    NewTimer(loop);
    ghost var vs, more;
    processed, vs, more := loop.ProcessTimeEvents(now);
    Visits(loop, vs, l, ids, whens, c);
    FiresAfterDelay(loop, vs, l, ids, whens, c, 0, loop.clock(old(loop.ticks)), delay);
    ExactlyOnce(vs, 0);
    assert te !in fired;
  }

  /** A timer in front of the list. */
  lemma NewTimer(loop: EventLoop)
    requires loop.Valid() && loop.list != [] && loop.list[0].id != DELETED
    ensures forall i, j :: 0 <= i < j < |loop.list| ==> loop.list[i] != loop.list[j]
    ensures IdsOf(loop.list)[0] != DELETED
  {
  }

  lemma Visits(loop: EventLoop, vs: seq<Visit>, l: seq<TimeEvent>, ids: seq<int>, whens: seq<Time>, c: Counters)
    requires |vs| <= |l| == |ids| == |whens| && loop.Meets(vs, l, ids, whens, c)
    ensures vs != [] ==> vs[0].id == ids[0] && loop.Counting(vs[..0], c) == c
    ensures forall i :: 0 <= i < |vs| ==> vs[i].t == l[i]
  {
    if vs != [] {
      assert vs[..0] == [];
    }
  }

  /** A pass that finds the clock set back. */
  method ProcessSkewed(loop: EventLoop, now: int) returns (processed: nat, ghost vs: seq<Visit>)
    requires loop.Valid() && now < loop.lastTime && forall n :: loop.clock(n).sec >= 1
    modifies loop, set x | x in loop.list
    ensures loop.Valid() && |vs| == |old(loop.list)| && loop.fired == old(loop.fired) + Fired(vs)
    ensures forall k :: 0 <= k < |vs| ==> vs[k].t == old(loop.list)[k] && (vs[k].Removed() || vs[k].t in Fired(vs))
  {
    hide ListOk, Ids, EventLoop.Settled, Kept, Fired, Finalized, EventLoop.Made, LostCount, IdsOf;
    hide FinsOf, WhensOf, Millis, Due, AddMilliseconds, EventLoop.Gone, EventLoop.Counting;
    ghost var l, ids, whens, c := loop.list, IdsOf(loop.list), WhensOf(loop.list, true), loop.Counts();
    ghost var more;
    processed, vs, more := loop.ProcessTimeEvents(now);
    forall k | 0 <= k < |vs|
      ensures vs[k].t == l[k] && (vs[k].Removed() || vs[k].t in Fired(vs))
    {
      Visits(loop, vs, l, ids, whens, c);
      if !vs[k].Removed() {
        SkewFires(loop, vs, l, ids, whens, c, k);
      }
    }
  }

  function MarkAll(ids: seq<int>, gone: set<int>): seq<int> {
    seq(|ids|, i requires 0 <= i < |ids| => Marked(ids[i], gone))
  }

  /** How many new timers the pass drops from the list. While every timer met was a deleted one, `prev` is still
      null, and unlinking the next deleted timer makes the list start after it: the `c` timers that the finalizer
      before it put in front go with it. */
  function LostCount(ids: seq<int>, fins: seq<bool>, fin: nat -> seq<Action>, n: nat, c: nat): nat
    requires |ids| == |fins|
    decreases |ids|
  {
    if ids == [] || ids[0] != DELETED then 0 else
      var script := if fins[0] then fin(n) else [];
      c + LostCount(MarkAll(ids[1..], Deletes(script)), fins[1..], fin, if fins[0] then n + 1 else n, Creates(script))
  }

  /** One timer met by the pass: its id and time when met, and the clock then (for a live timer). */
  datatype Visit = Visit(t: TimeEvent, id: int, when: Time, now: Time) {
    predicate Removed() { id == DELETED }
    predicate Fires() { id != DELETED && Due(now, when) }
    predicate Finalizes() { id == DELETED && t.hasFinalizer }
  }

  function Last(l: seq<TimeEvent>): TimeEvent? {
    if l == [] then null else l[|l| - 1]
  }

  lemma NextIs(head: TimeEvent?, l: seq<TimeEvent>, at: nat)
    requires ListOk(head, l) && at < |l|
    ensures l[at].next == First(l[at + 1..])
  {
    assert at < |l| - 1 ==> l[at].next == l[at + 1];
  }

  lemma NextInRest(head: TimeEvent?, l: seq<TimeEvent>, a: seq<TimeEvent>, rest: seq<TimeEvent>)
    requires ListOk(head, l) && l == a + rest && rest != []
    ensures rest[0].next == First(rest[1..])
  {
    NextIs(head, l, |a|);
    assert l[|a| + 1..] == rest[1..];
  }

  lemma NextAfter(head: TimeEvent?, l: seq<TimeEvent>, a: seq<TimeEvent>, k: seq<TimeEvent>, te: TimeEvent,
                  r: seq<TimeEvent>)
    requires ListOk(head, l) && l == a + (k + [te]) + r
    ensures te.next == First(r)
  {
    NextIs(head, l, |a| + |k|);
    assert l[|a| + |k| + 1..] == r;
  }

  lemma Apart(head: TimeEvent?, l: seq<TimeEvent>, a: seq<TimeEvent>, k: seq<TimeEvent>, te: TimeEvent,
              r: seq<TimeEvent>)
    requires ListOk(head, l) && l == a + (k + [te]) + r
    ensures te !in k && te !in r
  {
    var at := |a| + |k|;
    assert l[at] == te;
    assert forall i :: 0 <= i < |k| ==> k[i] == l[|a| + i];
    assert forall i :: 0 <= i < |r| ==> r[i] == l[at + 1 + i];
  }

  lemma BeginIds(l: seq<TimeEvent>, bound: int)
    requires Ids(l, bound)
    ensures forall i :: 0 <= i < |l| ==> IdsOf(l)[i] < bound
  {
  }

  lemma ListHead(head: TimeEvent?, l: seq<TimeEvent>)
    requires ListOk(head, l)
    ensures head == First(l)
  {
  }

  lemma ListTail(head: TimeEvent?, l: seq<TimeEvent>, k: nat)
    requires ListOk(head, l) && k <= |l|
    ensures ListOk(First(l[k..]), l[k..])
  {
    var t := l[k..];
    assert forall i :: 0 <= i < |t| ==> t[i] == l[k + i];
    assert forall i {:trigger t[i]} :: 0 <= i < |t| - 1 ==> l[k + i].next == l[k + i + 1];
  }

  lemma IdsTail(l: seq<TimeEvent>, k: nat, bound: int)
    requires Ids(l, bound) && k <= |l|
    ensures Ids(l[k..], bound)
  {
    var t := l[k..];
    assert forall i :: 0 <= i < |t| ==> t[i] == l[k + i];
  }

  lemma IdsWithout(l: seq<TimeEvent>, at: nat, bound: int)
    requires Ids(l, bound) && at < |l|
    ensures Ids(l[..at] + l[at + 1..], bound)
  {
    var t := l[..at] + l[at + 1..];
    assert forall i :: 0 <= i < |t| ==> t[i] == if i < at then l[i] else l[i + 1];
  }

  /** The link of the entry before `te` goes past it. */
  method SkipAfter(ghost head: TimeEvent?, prev: TimeEvent, te: TimeEvent, ghost l: seq<TimeEvent>, ghost at: nat)
    requires ListOk(head, l) && 0 < at < |l| && l[at] == te && l[at - 1] == prev
    modifies prev`next
    ensures ListOk(head, l[..at] + l[at + 1..])
  {
    ghost var t := l[..at] + l[at + 1..];
    assert at < |l| - 1 ==> te.next == l[at + 1];
    prev.next := te.next;
    assert forall i :: 0 <= i < |t| ==> t[i] == if i < at then l[i] else l[i + 1];
    assert forall i :: 0 <= i < |l| && i != at - 1 ==> l[i].next == old(l[i].next);
  }

  lemma DeletesNil()
    ensures Deletes([]) == {}
  {
  }

  lemma DeletesCons(script: seq<Action>)
    requires script != []
    ensures Deletes(script) == (if script[0].Delete? then {script[0].id} else {}) + Deletes(script[1..])
  {
    var d := Deletes(script);
    forall x | x in Deletes(script[1..])
      ensures x in d
    {
      var i :| 0 <= i < |script[1..]| && script[1..][i].Delete? && script[1..][i].id == x;
      assert script[i + 1].id == x;
    }
    forall x | x in d
      ensures x in (if script[0].Delete? then {script[0].id} else {}) + Deletes(script[1..])
    {
      var i :| 0 <= i < |script| && script[i].Delete? && script[i].id == x;
      if i > 0 {
        assert script[1..][i - 1].id == x;
      }
    }
  }

  lemma LostStep(ids: seq<int>, fins: seq<bool>, fin: nat -> seq<Action>, n: nat, c: nat)
    requires |ids| == |fins| > 0
    ensures ids[0] != DELETED ==> LostCount(ids, fins, fin, n, c) == 0
    ensures ids[0] == DELETED ==>
      var script := if fins[0] then fin(n) else [];
      LostCount(ids, fins, fin, n, c) ==
        c + LostCount(MarkAll(ids[1..], Deletes(script)), fins[1..], fin, if fins[0] then n + 1 else n, Creates(script))
  {
  }

  /** A run of finalizers puts timers in front of a list that still starts with a deleted one. */
  ghost predicate Loses(ids: seq<int>, fins: seq<bool>, fin: nat -> seq<Action>, n: nat)
    requires |ids| == |fins|
    decreases |ids|
  {
    && |ids| >= 2 && ids[0] == DELETED
    && var script := if fins[0] then fin(n) else [];
       && var marked := MarkAll(ids[1..], Deletes(script));
       && marked[0] == DELETED
       && (Creates(script) > 0 || Loses(marked, fins[1..], fin, if fins[0] then n + 1 else n))
  }

  /** The pass drops a new timer exactly when a finalizer of a deleted timer at the front of the list creates one
      while the timer behind is deleted too. */
  lemma {:induction false} LostIff(ids: seq<int>, fins: seq<bool>, fin: nat -> seq<Action>, n: nat, c: nat)
    requires |ids| == |fins|
    ensures LostCount(ids, fins, fin, n, c) > 0 <==>
      (c > 0 && ids != [] && ids[0] == DELETED) || Loses(ids, fins, fin, n)
    decreases |ids|
  {
    if ids != [] && ids[0] == DELETED {
      var script := if fins[0] then fin(n) else [];
      LostIff(MarkAll(ids[1..], Deletes(script)), fins[1..], fin, if fins[0] then n + 1 else n, Creates(script));
    }
  }

  /** Finalizers that create no timers lose none. */
  lemma {:induction false} QuietFinalizersLoseNothing(ids: seq<int>, fins: seq<bool>, fin: nat -> seq<Action>, n: nat)
    requires |ids| == |fins| && forall k :: k >= n ==> Creates(fin(k)) == 0
    ensures LostCount(ids, fins, fin, n, 0) == 0
    decreases |ids|
  {
    if ids != [] && ids[0] == DELETED {
      var script := if fins[0] then fin(n) else [];
      QuietFinalizersLoseNothing(MarkAll(ids[1..], Deletes(script)), fins[1..], fin, if fins[0] then n + 1 else n);
    }
  }

  /** Two deleted timers, and a finalizer of the first that creates a timer: the new timer is lost. */
  lemma FinalizerCanLoseTimer(fin: nat -> seq<Action>)
    requires fin(0) == [Create(5, false)]
    ensures LostCount([DELETED, DELETED], [true, false], fin, 0, 0) == 1
  {
    var script := fin(0);
    assert Creates(script) == 1 + Creates(script[1..]);
    assert MarkAll([DELETED, DELETED][1..], Deletes(script)) == [DELETED];
    assert [true, false][1..] == [false];
    assert MarkAll([DELETED][1..], Deletes([])) == [] == MarkAll([], {});
    assert LostCount([DELETED], [false], fin, 1, 1) == 1 + LostCount([], [], fin, 1, 0);
  }

  /** The same on a loop: two timers are deleted, the pass runs the finalizer of one of them, the timer which that
      finalizer creates under id 2 has not fired, and yet it is in the list no more. */
  method FinalizerLosesTimer(now: int, clock: nat -> Time, proc: nat -> seq<Action>, retval: nat -> int)
    returns (loop: EventLoop)
    ensures fresh(loop) && loop.Valid() && loop.timeEventNextId == 3 && loop.fired == [] && loop.list == []
  {
    hide ListOk, Ids, EventLoop.Settled, Kept, Fired, Finalized, EventLoop.Made, LostCount, IdsOf, FinsOf, WhensOf;
    loop := TwoDeletedTimers(now, clock, proc, retval);
    ghost var c := loop.Counts();
    FinalizerCanLoseTimer(loop.fin);
    ghost var vs, created;
    var processed;
    processed, vs, created := loop.ProcessTimeEvents(now);
    TwoRemoved(loop, vs, c);
  }

  method TwoDeletedTimers(now: int, clock: nat -> Time, proc: nat -> seq<Action>, retval: nat -> int)
    returns (loop: EventLoop)
    ensures fresh(loop) && loop.Valid() && loop.timeEventNextId == 2 && loop.fired == [] && loop.finals == 0
    ensures |loop.list| == 2 && IdsOf(loop.list) == [DELETED, DELETED] && FinsOf(loop.list) == [true, false]
    ensures (forall x :: x in loop.list ==> fresh(x)) && loop.fin(0) == [Create(5, false)]
  {
    hide ListOk, Ids;
    loop := new EventLoop(now, clock, proc, retval, _ => [Create(5, false)]);
    var a := loop.CreateTimeEvent(10, false);
    var b := loop.CreateTimeEvent(10, true);
    ghost var l := loop.list;
    assert |l| == 2 && l[1..][0] == l[1] && l[0].id == b && l[1].id == a && l[0].hasFinalizer && !l[1].hasFinalizer;
    DeleteBoth(loop, a, b);
  }

  method DeleteBoth(loop: EventLoop, a: int, b: int)
    requires loop.Valid() && |loop.list| == 2 && loop.list[0].id == b && loop.list[1].id == a
    modifies (set x | x in loop.list)`id
    ensures loop.Valid() && loop.list[0].id == loop.list[1].id == DELETED
  {
    hide EventLoop.Valid;
    var ok := loop.DeleteTimeEvent(a);
    ok := loop.DeleteTimeEvent(b);
  }

  /** Two deleted timers met in a pass, of which the first has a finalizer. */
  lemma TwoRemoved(loop: EventLoop, vs: seq<Visit>, c: Counters)
    requires |vs| == 2 && vs[0].Removed() && vs[1].Removed() && vs[0].t.hasFinalizer && !vs[1].t.hasFinalizer
    requires loop.fin(c.finals) == [Create(5, false)]
    ensures Kept(vs) == Fired(vs) == [] && loop.Made(vs, c) == 1
  {
    hide EventLoop.After;
    var p := vs[..1];
    assert p[..0] == [] && vs[..|vs| - 1] == p && p[..|p| - 1] == [];
    var script := loop.fin(c.finals);
    assert Creates(script) == 1 + Creates(script[1..]);
    assert loop.Made(p, c) == loop.Made([], c) + Creates(script);
    assert Kept(p) == Kept([]) && Fired(p) == Fired([]);
  }
}
