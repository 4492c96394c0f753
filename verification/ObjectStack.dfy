/** The stack of created objects a b-CAP server keeps for a connection (bcap_server.c). */
module ObjectStack {
  import Wire

  const OBJECT_MAX := 1000

  /** A release function and the handle it is for. */
  datatype Entry = Entry(id: int, hObj: nat)

  /** VEC_OBJECT: prev leads to the earlier object, next to the later one. */
  class VecObject {
    const id: int
    const hObj: nat
    var prev: VecObject?
    var next: VecObject?

    constructor (id: int, hObj: nat)
      ensures this.id == id && this.hObj == hObj && prev == null && next == null
    {
      this.id, this.hObj, this.prev, this.next := id, hObj, null, null;
    }

    function Content(): Entry
    {
      Entry(id, hObj)
    }
  }

  function Contents(nodes: seq<VecObject>): (r: seq<Entry>)
    ensures |r| == |nodes|
    ensures forall i :: 0 <= i < |nodes| ==> r[i] == nodes[i].Content()
  {
    seq(|nodes|, i requires 0 <= i < |nodes| => nodes[i].Content())
  }

  lemma ContentsCut(nodes: seq<VecObject>, i: nat)
    requires i < |nodes|
    ensures Contents(nodes[..i] + nodes[i + 1..]) == Without(Contents(nodes), i)
  {
  }

  function Without(s: seq<Entry>, i: nat): seq<Entry>
    requires i < |s|
  {
    s[..i] + s[i + 1..]
  }

  /** The part of CONN_BCAP_SERVER that tracks created objects; nodes[0] is the latest. */
  class Stack {
    var numObject: nat
    var top: VecObject?
    ghost var nodes: seq<VecObject>

    ghost predicate Valid()
      reads this, nodes
    {
      && numObject == |nodes| <= OBJECT_MAX
      && top == (if nodes == [] then null else nodes[0])
      && (forall i, j :: 0 <= i < j < |nodes| ==> nodes[i] != nodes[j])
      && (forall i {:trigger nodes[i].next} :: 0 <= i < |nodes| ==>
            nodes[i].next == if i == 0 then null else nodes[i - 1])
      && (forall i {:trigger nodes[i].prev} :: 0 <= i < |nodes| ==>
            nodes[i].prev == if i + 1 == |nodes| then null else nodes[i + 1])
    }

    ghost function Content(): seq<Entry>
      reads this
    {
      Contents(nodes)
    }

    constructor ()
      ensures Valid() && Content() == [] && nodes == []
    {
      numObject, top, nodes := 0, null, [];
    }

    /** push_vector */
    method Push(obj: VecObject) returns (ok: bool)
      requires Valid() && obj !in nodes && obj.next == null
      modifies this, nodes, obj
      ensures Valid()
      ensures ok == (|old(Content())| < OBJECT_MAX)
      ensures Content() == if ok then [obj.Content()] + old(Content()) else old(Content())
      ensures nodes == if ok then [obj] + old(nodes) else old(nodes)
    {
      if numObject >= OBJECT_MAX {
        return false;
      }
      var prev := top;
      top := obj;
      obj.prev := prev;
      if prev != null {
        prev.next := obj;
      }
      numObject := numObject + 1;
      nodes := [obj] + nodes;
      ok := true;
    }

    /** pop_vector: the object at any index is unlinked, any other index leaves the stack alone. */
    method Pop(index: int) returns (obj: VecObject?)
      requires Valid()
      modifies this, nodes
      ensures Valid()
      ensures obj != null <==> 0 <= index < |old(nodes)|
      ensures obj != null ==>
                && obj == old(nodes)[index] && obj.prev == null && obj.next == null
                && nodes == old(nodes)[..index] + old(nodes)[index + 1..]
                && Content() == Without(old(Content()), index)
      ensures obj == null ==> nodes == old(nodes) && unchanged(this)
      ensures forall n :: n in nodes ==> n in old(nodes)
    {
      var cur := top;
      for i := 0 to numObject
        invariant unchanged(this) && unchanged(nodes)
        invariant cur == if i < |nodes| then nodes[i] else null
        invariant index < 0 || i <= index
      {
        if i == index {
          ContentsCut(nodes, i);
          Unlink(i, cur);
          return cur;
        }
        cur := cur.prev;
      }
      obj := null;
    }

    method Unlink(ghost i: nat, cur: VecObject)
      requires Valid() && i < |nodes| && cur == nodes[i]
      modifies this, nodes
      ensures Valid() && cur.prev == null && cur.next == null
      ensures nodes == old(nodes)[..i] + old(nodes)[i + 1..]
    {
      ghost var was := nodes;
      var next := cur.next;
      cur.next := null;
      var prev := cur.prev;
      cur.prev := null;
      if next == null {
        top := prev;
      } else {
        next.prev := prev;
      }
      if prev != null {
        prev.next := next;
      }
      numObject := numObject - 1;
      nodes := nodes[..i] + nodes[i + 1..];
      assert forall j :: 0 <= j < |nodes| ==> nodes[j] == if j < i then was[j] else was[j + 1];
    }

    /** search_vector: the latest object with this release function and handle, or -1 */
    method Search(id: int, hObj: nat) returns (index: int)
      requires Valid()
      ensures index == (var k := Wire.IndexOf(Content(), Entry(id, hObj)); if k < |Content()| then k else -1)
    {
      var cur := top;
      ghost var e, s := Entry(id, hObj), Content();
      for i := 0 to numObject
        invariant cur == if i < |nodes| then nodes[i] else null
        invariant forall j :: 0 <= j < i ==> s[j] != e
      {
        if cur.id == id && cur.hObj == hObj {
          assert s[i] == e;
          return i;
        }
        cur := cur.prev;
      }
      index := -1;
    }
  }
}
