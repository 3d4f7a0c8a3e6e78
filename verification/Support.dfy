/** The intrusive singly linked list that every stage of the pipeline is built on. */
module Support {

  /** A list node. The payload is set when the node is allocated and never changes. */
  class ListElement<T> {
    const data: T
    var next: ListElement?<T>
    ghost var released: bool
    /** Where the list that holds the node has it. */
    ghost var position: nat

    constructor (data: T)
      ensures this.data == data && next == null && !released
    {
      this.data := data;
      next := null;
      released := false;
    }

    /** `free`: afterwards nothing is known of the node's fields. */
    method Release()
      requires !released
      modifies this
      ensures released
    {
      released := true;
    }
  }

  class ListHead<T> {
    var head: ListElement?<T>
    var tail: ListElement?<T>
    var size: nat
    /** The nodes of the list, in order. */
    ghost var spine: seq<ListElement<T>>
    /** Their payloads: the abstract value of the list. */
    ghost var contents: seq<T>

    /** Node `i` is live, is at no other position, and is followed by the node that `spine` says. */
    ghost predicate LinkedAt(i: nat)
      requires i < |spine| == |contents|
      reads this, spine
    {
      && !spine[i].released
      && spine[i].position == i
      && spine[i].data == contents[i]
      && spine[i].next == if i + 1 < |spine| then spine[i + 1] else null
    }

    /** An acyclic chain from `head` to `tail` of `size` live nodes. */
    ghost predicate Valid()
      reads this, spine
    {
      && size == |spine| == |contents|
      && head == (if |spine| == 0 then null else spine[0])
      && tail == (if |spine| == 0 then null else spine[|spine| - 1])
      && forall i :: 0 <= i < |spine| ==> LinkedAt(i)
    }

    /** The nodes as a set: what an operation on the list may change besides the list head. */
    ghost function Nodes(): set<ListElement<T>>
      reads this
    {
      set n | n in spine
    }

    /** The node that a walk has reached after `i` steps. */
    ghost function NodeAt(i: nat): ListElement?<T>
      requires i <= |spine|
      reads this
    {
      if i < |spine| then spine[i] else null
    }

    /** A walk along `next` goes through the contents in order. */
    lemma WalkStep(i: nat)
      requires Valid() && i < |spine|
      ensures |spine| == |contents|
      ensures spine[i].data == contents[i] && spine[i].next == NodeAt(i + 1)
    {
      assert LinkedAt(i);
    }

    lemma WalkStart()
      requires Valid()
      ensures |spine| == |contents| && head == NodeAt(0)
    {}

    /** `ms_list_init`. */
    constructor ()
      ensures Valid() && contents == [] && spine == []
    {
      head, tail, size := null, null, 0;
      spine, contents := [], [];
    }

    /** `ms_list_add`: appends, whatever the list held before. */
    method Add(toadd: ListElement<T>)
      requires Valid() && toadd !in spine && !toadd.released
      modifies this, spine, toadd
      ensures Valid()
      ensures spine == old(spine) + [toadd]
      ensures contents == old(contents) + [toadd.data]
    {
      if head == null {
        head := toadd;
        tail := toadd;
        toadd.next := null;
        size := size + 1;
      } else {
        if tail != null {
          tail.next := toadd;
          tail := toadd;
          toadd.next := null;
          size := size + 1;
        }
      }
      toadd.position := |spine|;
      spine, contents := spine + [toadd], contents + [toadd.data];
      forall i | 0 <= i < |spine|
        ensures LinkedAt(i)
      {
        if i < |spine| - 1 {
          assert old(LinkedAt(i)) && old(LinkedAt(|spine| - 1));
        }
      }
    }

    /** Allocates a node for `x` and appends it, as every `breakout_add_*` function does. */
    method Append(x: T)
      requires Valid()
      modifies this, Nodes()
      ensures Valid() && fresh(Nodes() - old(Nodes()))
      ensures contents == old(contents) + [x]
      ensures |spine| == |old(spine)| + 1 && spine[..|old(spine)|] == old(spine)
    {
      var n := new ListElement(x);
      Add(n);
    }

    /** `ms_list_free`: walks the chain, releases each node exactly once (a second release would
        break the precondition of `Release`) and leaves the list empty. */
    method Free()
      requires Valid()
      modifies this, Nodes()
      ensures Valid() && spine == [] && contents == []
      ensures forall n :: n in old(spine) ==> n.released
    {
      if size == 0 {
        return;
      }
      var pElement := head;
      ghost var i := 0;
      while pElement != null
        invariant 0 <= i <= |spine| == |contents| && spine == old(spine)
        invariant pElement == NodeAt(i)
        invariant forall k :: 0 <= k < i ==> spine[k].released
        invariant forall k :: i <= k < |spine| ==> LinkedAt(k)
        decreases |spine| - i
      {
        var pNext := pElement.next;
        assert LinkedAt(i);
        label Before:
        pElement.Release();
        forall k | i < k < |spine|
          ensures LinkedAt(k)
        {
          assert old@Before(LinkedAt(k));
        }
        pElement := pNext;
        i := i + 1;
      }
      head := null;
      tail := null;
      size := 0;
      spine, contents := [], [];
    }
  }
}
