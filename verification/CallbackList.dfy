/** The singly linked queue of reply callbacks (async.c). */
module CallbackList {

  /** A registered callback; `fn` is 0 for the NULL function pointer. */
  datatype Callback = Callback(fn: nat, privdata: nat)

  class Node {
    var next: Node?
    var cb: Callback

    constructor (cb: Callback)
      ensures this.cb == cb && next == null
    {
      this.cb, next := cb, null;
    }
  }

  class CallbackList {
    var head: Node?
    var tail: Node?
    /** The callbacks in the queue, oldest first, and the nodes that hold them. */
    ghost var contents: seq<Callback>
    ghost var spine: seq<Node>
    ghost var Repr: set<object>

    ghost predicate Valid()
      reads this, Repr
    {
      && this in Repr
      && (forall i :: 0 <= i < |spine| ==> spine[i] in Repr)
      && |contents| == |spine| && (forall i :: 0 <= i < |spine| ==> spine[i].cb == contents[i])
      && (forall i, j :: 0 <= i < j < |spine| ==> spine[i] != spine[j])
      && (forall i :: 0 <= i < |spine| - 1 ==> spine[i].next == spine[i + 1])
      && (spine != [] ==> spine[|spine| - 1].next == null)
      && head == (if spine == [] then null else spine[0])
      && tail == (if spine == [] then null else spine[|spine| - 1])
    }

    constructor ()
      ensures Valid() && fresh(Repr) && contents == []
    {
      head, tail, spine, contents := null, null, [], [];
      Repr := {this};
    }

    /** `__redisPushCallback`. */
    method Push(source: Callback)
      requires Valid()
      modifies Repr
      ensures Valid() && fresh(Repr - old(Repr)) && contents == old(contents) + [source]
    {
      var cb := new Node(source);
      if head == null {
        head := cb;
      }
      if tail != null {
        tail.next := cb;
      }
      tail := cb;
      spine, contents := spine + [cb], contents + [source];
      Repr := Repr + {cb};
    }

    /** `__redisShiftCallback`; `ok` is false on an empty queue. */
    method Shift() returns (ok: bool, target: Callback)
      requires Valid()
      modifies Repr
      ensures Valid() && Repr == old(Repr)
      ensures ok == (old(contents) != [])
      ensures ok ==> target == old(contents)[0] && contents == old(contents)[1..]
      ensures !ok ==> contents == old(contents)
    {
      var cb := head;
      target := Callback(0, 0);
      ok := cb != null;
      if ok {
        assert |spine| > 1 ==> spine[0] != spine[|spine| - 1];
        head := cb.next;
        if cb == tail {
          tail := null;
        }
        target := cb.cb;
        spine, contents := spine[1..], contents[1..];
        assert forall i :: 0 <= i < |spine| ==> spine[i] == old(spine)[i + 1];
      }
    }

    /** Whether `head` is NULL. */
    method IsEmpty() returns (r: bool)
      requires Valid()
      ensures r == (contents == [])
    {
      r := head == null;
    }
  }
}
