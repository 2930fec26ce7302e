/** The intrusive doubly linked list of safe_list.hpp, on the heap, refining a sequence of hooks.  Every operation
    is the body of one mutex-held section. */
module Lists {

  class ListHook {
    var prev: ListHook?
    var next: ListHook?

    constructor ()
      ensures prev == null && next == null
    {
      prev := null;
      next := null;
    }

    /** Join the two neighbours and leave this hook unlinked. */
    method Unlink()
      requires prev != this && next != this && (prev != null ==> prev != next)
      modifies this, prev, next
      ensures prev == null && next == null
      ensures old(prev) != null ==> old(prev).next == old(next) && old(prev).prev == old(prev.prev)
      ensures old(next) != null ==> old(next).prev == old(prev) && old(next).next == old(next.next)
    {
      if prev != null {
        prev.next := next;
      }
      if next != null {
        next.prev := prev;
      }
      prev := null;
      next := null;
    }

    method LinkAfter(prevNode: ListHook)
      requires prevNode != this && prevNode.next != this && prevNode.next != prevNode
      modifies this, prevNode, prevNode.next
      ensures prev == prevNode && next == old(prevNode.next)
      ensures prevNode.next == this && prevNode.prev == old(prevNode.prev)
      ensures next != null ==> next.prev == this && next.next == old(prevNode.next.next)
    {
      prev := prevNode;
      next := prevNode.next;
      if prev != null {
        prev.next := this;
      }
      if next != null {
        next.prev := this;
      }
    }

    method LinkBefore(nextNode: ListHook)
      requires nextNode != this && nextNode.prev != this && nextNode.prev != nextNode
      modifies this, nextNode, nextNode.prev
      ensures next == nextNode && prev == old(nextNode.prev)
      ensures nextNode.prev == this && nextNode.next == old(nextNode.next)
      ensures prev != null ==> prev.next == this && prev.prev == old(nextNode.prev.prev)
    {
      prev := nextNode.prev;
      next := nextNode;
      if prev != null {
        prev.next := this;
      }
      if next != null {
        next.prev := this;
      }
    }
  }

  /** A 32-bit counter. */
  function Wrap32(n: int): nat {
    n % 0x1_0000_0000
  }

  lemma WrapOnce(n: int)
    ensures Wrap32(Wrap32(n) + 1) == Wrap32(n + 1) && Wrap32(Wrap32(n) - 1) == Wrap32(n - 1)
  {
  }

  lemma OneMore(n: int)
    ensures Wrap32(n) != Wrap32(n + 1)
  {
  }

  // ----- the sequence operations

  function Inserted<T>(s: seq<T>, k: nat, x: T): seq<T>
    requires k <= |s|
  {
    s[..k] + [x] + s[k..]
  }

  function Removed<T>(s: seq<T>, k: nat): seq<T>
    requires k < |s|
  {
    s[..k] + s[k + 1..]
  }

  lemma InsertedFirst<T>(s: seq<T>, x: T)
    ensures Inserted(s, 0, x) == [x] + s
  {
  }

  lemma InsertedEnds<T>(s: seq<T>, k: nat, x: T)
    requires k < |s|
    ensures |Inserted(s, k, x)| == |s| + 1
    ensures Inserted(s, k, x)[0] == (if k == 0 then x else s[0]) && Inserted(s, k, x)[|s|] == s[|s| - 1]
  {
  }

  lemma DistinctRemoved<T>(s: seq<T>, k: nat)
    requires Distinct(s) && k < |s|
    ensures Distinct(Removed(s, k)) && s[k] !in Removed(s, k)
  {
  }

  lemma DistinctInserted<T>(s: seq<T>, k: nat, x: T)
    requires Distinct(s) && k <= |s| && x !in s
    ensures Distinct(Inserted(s, k, x))
  {
  }

  predicate Distinct<T(==)>(s: seq<T>) {
    forall i, j :: 0 <= i < j < |s| ==> s[i] != s[j]
  }

  /** The links of hook `i` lead to its neighbours in the sequence; the ends are open. */
  ghost predicate LinkedAt(nodes: seq<ListHook>, i: nat)
    requires i < |nodes|
    reads nodes
  {
    && nodes[i].next == (if i + 1 < |nodes| then nodes[i + 1] else null)
    && nodes[i].prev == (if i > 0 then nodes[i - 1] else null)
  }

  /** So next and prev are mutually inverse and acyclic. */
  ghost predicate Linked(nodes: seq<ListHook>)
    reads nodes
  {
    Distinct(nodes) && forall i :: 0 <= i < |nodes| ==> LinkedAt(nodes, i)
  }

  lemma LinksAt(nodes: seq<ListHook>, k: nat)
    requires Linked(nodes) && k < |nodes|
    ensures LinkedAt(nodes, k)
  {
  }

  lemma SameIndex(nodes: seq<ListHook>, i: nat, j: nat)
    requires Linked(nodes) && i < |nodes| && j < |nodes| && nodes[i] == nodes[j]
    ensures i == j
  {
  }

  /** What the ends of the list are once hook `k` is out of it. */
  lemma RemovedEnds(nodes: seq<ListHook>, k: nat)
    requires Linked(nodes) && k < |nodes|
    ensures var rest, node := Removed(nodes, k), nodes[k];
            && |rest| == |nodes| - 1
            && (if node == nodes[0] then node.next else nodes[0]) == (if |rest| > 0 then rest[0] else null)
            && (if node == nodes[|nodes| - 1] then node.prev else nodes[|nodes| - 1])
            == (if |rest| > 0 then rest[|rest| - 1] else null)
  {
    LinksAt(nodes, k);
    if nodes[k] == nodes[|nodes| - 1] {
      SameIndex(nodes, k, |nodes| - 1);
    }
    if nodes[k] == nodes[0] {
      SameIndex(nodes, k, 0);
    }
  }

  lemma SingleLinked(nodes: seq<ListHook>)
    requires |nodes| == 1 && nodes[0].prev == null && nodes[0].next == null
    ensures Linked(nodes)
  {
  }

  /** unlink, seen from the sequence. */
  method UnlinkFrom(ghost nodes: seq<ListHook>, ghost k: nat, node: ListHook)
    requires Linked(nodes) && k < |nodes| && nodes[k] == node
    modifies nodes
    ensures Linked(Removed(nodes, k)) && node !in Removed(nodes, k) && node.prev == null && node.next == null
  {
    assert LinkedAt(nodes, k);
    node.Unlink();
    DistinctRemoved(nodes, k);
    ghost var rest := Removed(nodes, k);
    forall i | 0 <= i < k
      ensures LinkedAt(rest, i)
    {
      assert old(LinkedAt(nodes, i));
    }
    forall i | k <= i < |rest|
      ensures LinkedAt(rest, i)
    {
      assert old(LinkedAt(nodes, i + 1));
    }
  }

  /** A hook to link something in front of: hook `k` of the sequence, or one that was taken out of it before. */
  ghost predicate Place(nodes: seq<ListHook>, node: ListHook, k: nat)
    reads node
  {
    if k < |nodes| then nodes[k] == node else node !in nodes && node.prev == null && node.next == null
  }

  /** link_before, seen from the sequence: in front of a hook that was taken out, the sequence does not change. */
  method LinkInto(ghost nodes: seq<ListHook>, ghost k: nat, existingNode: ListHook, newNode: ListHook)
    requires Linked(nodes) && Place(nodes, existingNode, k) && newNode !in nodes && newNode != existingNode
    modifies nodes, newNode, existingNode
    ensures k < |nodes| ==> Linked(Inserted(nodes, k, newNode))
    ensures k >= |nodes| ==> Linked(nodes) && newNode.next == existingNode && existingNode.prev == newNode
  {
    if k < |nodes| {
      assert LinkedAt(nodes, k);
    }
    newNode.LinkBefore(existingNode);
    ghost var all := Inserted(nodes, if k < |nodes| then k else |nodes|, newNode);
    forall i | 0 <= i < k < |nodes|
      ensures LinkedAt(all, i)
    {
      assert old(LinkedAt(nodes, i));
    }
    forall i | k < i <= |nodes|
      ensures LinkedAt(all, i)
    {
      assert old(LinkedAt(nodes, i - 1));
    }
    if k < |nodes| {
      DistinctInserted(nodes, k, newNode);
      assert LinkedAt(all, k);
    }
  }

  /** link_after the last node, seen from the sequence. */
  method LinkLast(ghost nodes: seq<ListHook>, last: ListHook, newNode: ListHook)
    requires Linked(nodes) && |nodes| > 0 && nodes[|nodes| - 1] == last && newNode !in nodes
    modifies nodes, newNode
    ensures Linked(nodes + [newNode])
  {
    assert LinkedAt(nodes, |nodes| - 1);
    newNode.LinkAfter(last);
    ghost var all := nodes + [newNode];
    forall i | 0 <= i < |nodes|
      ensures LinkedAt(all, i)
    {
      assert old(LinkedAt(nodes, i));
    }
  }

  class SafeList {
    var mHead: ListHook?
    var mTail: ListHook?
    var mSize: nat
    ghost var nodes: seq<ListHook>

    /** Everything but the size. */
    ghost predicate Shaped()
      reads this, nodes
    {
      && Linked(nodes)
      && mHead == (if |nodes| > 0 then nodes[0] else null)
      && mTail == (if |nodes| > 0 then nodes[|nodes| - 1] else null)
    }

    ghost predicate Valid()
      reads this, nodes
    {
      Shaped() && mSize == Wrap32(|nodes|)
    }

    constructor ()
      ensures Valid() && nodes == []
    {
      mHead := null;
      mTail := null;
      mSize := 0;
      nodes := [];
    }

    predicate IsEmpty()
      reads this
    {
      mHead == null && mTail == null
    }

    method InsertBefore(existingNode: ListHook, newNode: ListHook, ghost k: nat)
      requires Shaped() && nodes != [] && k <= |nodes| && Place(nodes, existingNode, k)
      requires newNode !in nodes && existingNode != newNode
      modifies this`mHead, this`nodes, nodes, newNode, existingNode
      ensures Shaped()
      ensures nodes == if k < |old(nodes)| then Inserted(old(nodes), k, newNode) else old(nodes)
      ensures k < |old(nodes)| ==> |nodes| == |old(nodes)| + 1
    {
      hide Linked, Distinct, Inserted;
      if k < |nodes| {
        if nodes[k] == nodes[0] {
          SameIndex(nodes, k, 0);
        }
        InsertedEnds(nodes, k, newNode);
      }
      LinkInto(nodes, k, existingNode, newNode);
      if mHead == existingNode {
        mHead := newNode;
      }
      nodes := if k < |nodes| then Inserted(nodes, k, newNode) else nodes;
    }

    /** Insert a new node in front of an existing one, or into an empty list; anything else is refused.  In front of a
        node that is no longer in the list the new node is linked to that one, counted, and lost. */
    method Insert(existingNode: ListHook?, newNode: ListHook?, ghost k: nat) returns (ok: bool)
      requires Valid() && k <= |nodes| && (existingNode != null && nodes != [] ==> Place(nodes, existingNode, k))
      requires newNode != null ==> newNode !in nodes && newNode.prev == null && newNode.next == null
      requires newNode == null || existingNode != newNode
      modifies this, nodes, newNode, existingNode
      ensures Shaped() && ok == (newNode != null && (existingNode == null <==> old(nodes) == []))
      ensures nodes == if !ok then old(nodes)
                       else if old(nodes) == [] then [newNode]
                       else if k < |old(nodes)| then Inserted(old(nodes), k, newNode)
                       else old(nodes)
      ensures mSize == if ok then Wrap32(old(mSize) + 1) else old(mSize)
      ensures Valid() || (ok && old(nodes) != [] && k == |old(nodes)|)
    {
      hide Wrap32, Linked, Distinct;
      if newNode == null {
        return false;
      } else if (IsEmpty() && existingNode != null) || (!IsEmpty() && existingNode == null) {
        return false;
      }
      if IsEmpty() {
        mHead := newNode;
        mTail := newNode;
        nodes := [newNode];
        SingleLinked(nodes);
      } else {
        InsertBefore(existingNode, newNode, k);
      }
      WrapOnce(|old(nodes)|);
      mSize := Wrap32(mSize + 1);
      return true;
    }

    method TakeOut(node: ListHook, ghost k: nat)
      requires Shaped() && k < |nodes| && nodes[k] == node
      modifies this`mHead, this`mTail, this`nodes, nodes
      ensures Shaped() && nodes == Removed(old(nodes), k) && |nodes| == |old(nodes)| - 1
      ensures node !in nodes && node.prev == null && node.next == null
    {
      hide Linked, Distinct, Removed;
      RemovedEnds(nodes, k);
      if node == mTail {
        mTail := node.prev;
      }
      if node == mHead {
        mHead := node.next;
      }
      UnlinkFrom(nodes, k, node);
      nodes := Removed(nodes, k);
    }

    /** Take a node of the list out. */
    method Erase(node: ListHook?, ghost k: nat) returns (ok: bool)
      requires Valid() && (node != null ==> k < |nodes| && nodes[k] == node)
      modifies this, nodes
      ensures Valid() && ok == (node != null)
      ensures nodes == if ok then Removed(old(nodes), k) else old(nodes)
      ensures ok ==> node !in nodes && node.prev == null && node.next == null
    {
      if node == null {
        return false;
      }
      hide Wrap32, Linked, Distinct, Removed;
      TakeOut(node, k);
      WrapOnce(|old(nodes)|);
      mSize := Wrap32(mSize - 1);
      return true;
    }

    method PushBack(newNode: ListHook?) returns (ok: bool)
      requires Valid()
      requires newNode != null ==> newNode !in nodes && newNode.prev == null && newNode.next == null
      modifies this, nodes, newNode
      ensures Valid() && ok == (newNode != null)
      ensures nodes == if ok then old(nodes) + [newNode] else old(nodes)
    {
      if newNode == null {
        return false;
      }
      hide Wrap32, Linked, Distinct;
      if IsEmpty() {
        mHead := newNode;
        mTail := newNode;
        SingleLinked(nodes + [newNode]);
      } else {
        LinkLast(nodes, mTail, newNode);
        mTail := newNode;
      }
      nodes := nodes + [newNode];
      WrapOnce(|old(nodes)|);
      mSize := Wrap32(mSize + 1);
      return true;
    }

    /** The insert of a push_front that read `readHead` before it got the mutex, however the list changed in between. */
    method PushFrontFrom(readHead: ListHook?, newNode: ListHook?, ghost k: nat) returns (ok: bool)
      requires Valid() && k <= |nodes| && (readHead != null && nodes != [] ==> Place(nodes, readHead, k))
      requires newNode != null ==> newNode !in nodes && newNode.prev == null && newNode.next == null
      requires newNode == null || readHead != newNode
      modifies this, nodes, newNode, readHead
      ensures Shaped() && ok == (newNode != null && (readHead == null <==> old(nodes) == []))
      ensures mSize == if ok then Wrap32(old(mSize) + 1) else old(mSize)
      ensures nodes == if !ok || (old(nodes) != [] && k == |old(nodes)|) then old(nodes)
                       else Inserted(old(nodes), k, newNode)
      ensures Valid() || (ok && old(nodes) != [] && k == |old(nodes)|)
      // prepended exactly if the head that was read is the head still
      ensures newNode != null ==> (nodes == [newNode] + old(nodes) <==> readHead == old(mHead))
    {
      hide Linked;
      if nodes != [] && readHead == nodes[0] && k < |nodes| {
        SameIndex(nodes, k, 0);
      }
      ok := Insert(readHead, newNode, k);
      assert |nodes| > 0 && |old(nodes)| > 0 && readHead != old(mHead) ==> nodes[0] == old(nodes)[0];
    }

    /** push_front, and a pop_front of another thread between its read of the head and its insertion.  The new node gets
        into the list only if the list was empty.  If it held one node the insertion is refused; if it held more, the
        new node is lost, and counted. */
    method PushFrontPastPop(newNode: ListHook) returns (front: ListHook?, ok: bool)
      requires Valid() && newNode !in nodes && newNode.prev == null && newNode.next == null
      modifies this, nodes, newNode
      ensures Shaped() && (front == null <==> old(nodes) == [])
      ensures nodes == if old(nodes) == [] then [newNode] else old(nodes)[1..]
      ensures ok <==> |old(nodes)| != 1
      ensures Valid() <==> |old(nodes)| <= 1
      ensures newNode in nodes <==> old(nodes) == []
    {
      hide Wrap32, Linked, Distinct;
      var readHead := mHead;
      front := PopFront();
      assert forall i :: 0 <= i < |nodes| ==> nodes[i] == old(nodes)[i + 1];
      ghost var left := |nodes|;
      ok := PushFrontFrom(readHead, newNode, left);
      WrapOnce(left);
      OneMore(left);
    }

    /** push_front, and a push_back of another thread in between.  Into an empty list the new node is refused. */
    method PushFrontPastPush(other: ListHook, newNode: ListHook) returns (ok: bool)
      requires Valid() && newNode !in nodes && newNode.prev == null && newNode.next == null
      requires other !in nodes && other.prev == null && other.next == null && other != newNode
      modifies this, nodes, newNode, other
      ensures Valid() && ok == (old(nodes) != [])
      ensures nodes == if old(nodes) == [] then [other] else [newNode] + old(nodes) + [other]
    {
      hide Wrap32, Linked, Distinct;
      hide Inserted;
      var readHead := mHead;
      var pushed := PushBack(other);
      InsertedFirst(nodes, newNode);
      ok := PushFrontFrom(readHead, newNode, 0);
    }

    method PushFront(newNode: ListHook?) returns (ok: bool)
      requires Valid()
      requires newNode != null ==> newNode !in nodes && newNode.prev == null && newNode.next == null
      modifies this, nodes, newNode
      ensures Valid() && ok == (newNode != null)
      ensures nodes == if ok then [newNode] + old(nodes) else old(nodes)
    {
      ok := PushFrontFrom(mHead, newNode, 0);
    }

    /** What pop_front does once its wait is over: the first node, or null if the list is still empty. */
    method PopFront() returns (front: ListHook?)
      requires Valid()
      modifies this, nodes
      ensures Valid() && (front == null <==> old(nodes) == [])
      ensures front == null ==> nodes == []
      ensures front != null ==> old(nodes) == [front] + nodes && front !in nodes
      ensures front != null ==> front.prev == null && front.next == null
    {
      front := null;
      if !IsEmpty() {
        front := mHead;
        hide Wrap32, Linked, Distinct;
        LinksAt(nodes, 0);
        if nodes[0] == nodes[|nodes| - 1] {
          SameIndex(nodes, 0, |nodes| - 1);
        }
        mHead := mHead.next;
        mTail := if mTail == front then null else mTail;
        UnlinkFrom(nodes, 0, front);
        nodes := Removed(nodes, 0);
        WrapOnce(|old(nodes)|);
        mSize := Wrap32(mSize - 1);
      }
    }

    method PopBack() returns (back: ListHook?)
      requires Valid()
      modifies this, nodes
      ensures Valid() && (back == null <==> old(nodes) == [])
      ensures back == null ==> nodes == []
      ensures back != null ==> old(nodes) == nodes + [back] && back !in nodes
      ensures back != null ==> back.prev == null && back.next == null
    {
      back := null;
      if !IsEmpty() {
        back := mTail;
        hide Wrap32, Linked, Distinct;
        ghost var last := |nodes| - 1;
        LinksAt(nodes, last);
        if nodes[0] == nodes[last] {
          SameIndex(nodes, 0, last);
        }
        mTail := mTail.prev;
        mHead := if mHead == back then null else mHead;
        UnlinkFrom(nodes, last, back);
        nodes := Removed(nodes, last);
        WrapOnce(|old(nodes)|);
        mSize := Wrap32(mSize - 1);
      }
    }
  }

  /** An iterator: at a node of its list, or null, which is also what end() gives. */
  class Iterator {
    var mCurrent: ListHook?
    var mParent: SafeList?

    /** Standing at position `i` of the list; one past the last is the null iterator. */
    ghost predicate At(list: SafeList, i: nat)
      reads this, list
    {
      if i < |list.nodes| then mCurrent == list.nodes[i] && mParent == list
      else i == |list.nodes| && mCurrent == null && mParent == null
    }

    constructor (parent: SafeList?)
      ensures mCurrent == (if parent != null then parent.mHead else null)
      ensures mParent == if mCurrent != null then parent else null
    {
      var current := if parent != null then parent.mHead else null;
      mCurrent := current;
      mParent := if current != null then parent else null;
    }

    /** Prefix increment. */
    method Next(ghost list: SafeList, ghost i: nat)
      requires list.Valid() && At(list, i) && i < |list.nodes|
      modifies this
      ensures At(list, i + 1)
    {
      LinksAt(list.nodes, i);
      mCurrent := mCurrent.next;
      if mCurrent == null {
        mParent := null;
      }
    }

    /** Prefix decrement; before the first node there is only the null iterator again. */
    method Previous(ghost list: SafeList, ghost i: nat)
      requires list.Valid() && At(list, i) && i < |list.nodes|
      modifies this
      ensures if i > 0 then At(list, i - 1) else mCurrent == null && mParent == null
    {
      LinksAt(list.nodes, i);
      mCurrent := mCurrent.prev;
      if mCurrent == null {
        mParent := null;
      }
    }

    predicate Equals(other: Iterator)
      reads this, other
    {
      mCurrent == other.mCurrent && mParent == other.mParent
    }
  }

  /** Walking from begin() to end() visits every node once, in order. */
  method Traverse(list: SafeList) returns (visited: seq<ListHook>)
    requires list.Valid()
    ensures visited == list.nodes
  {
    visited := [];
    var it := new Iterator(list);
    var end := new Iterator(null);
    while !it.Equals(end)
      invariant fresh(it) && fresh(end) && it != end
      invariant |visited| <= |list.nodes| && visited == list.nodes[..|visited|]
      invariant it.At(list, |visited|) && end.mCurrent == null && end.mParent == null
      decreases |list.nodes| - |visited|
    {
      visited := visited + [it.mCurrent];
      it.Next(list, |visited| - 1);
    }
  }
}
