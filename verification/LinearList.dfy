/** The doubly linked list. */
module LinearList {
  import opened Common

  /** `List_Node`; `freed` counts its deallocations. */
  class Node {
    var elem: Value
    var prev: Node?
    var next: Node?
    ghost var freed: nat

    constructor (elem: Value)
      ensures this.elem == elem && prev == null && next == null && freed == 0
    {
      this.elem := elem;
      prev, next, freed := null, null, 0;
    }

    /** `destroy` and `deallocate` */
    method Free()
      requires freed == 0
      modifies this`freed
      ensures freed == 1
    {
      freed := 1;
    }

    /** `clone`: copies this node, which is at position `i` of `s`, and all behind it.  The second result is
        what it stores through its `tail` parameter. */
    method Clone(before: Node?, ghost s: seq<Node>, ghost i: nat) returns (n: Node, last: Node, ghost t: seq<Node>)
      requires i < |s| && s[i] == this && Chained(s)
      ensures |t| == |s| - i && n == t[0] && last == t[|t| - 1]
      ensures forall j | 0 <= j < |t| :: fresh(t[j]) && t[j].freed == 0 && t[j].elem == s[i + j].elem
      ensures Chained(t) && Distinct(t)
      ensures forall j {:trigger t[j].prev} | 0 <= j < |t| :: t[j].prev == if j == 0 then before else t[j - 1]
      decreases |s| - i
    {
      n := new Node(elem);
      if before != null {
        n.prev := before;
      }
      if next != null {
        ghost var rest;
        n.next, last, rest := next.Clone(n, s, i + 1);
        t := [n] + rest;
      } else {
        last := n;
        t := [n];
      }
    }
  }

  function At(s: seq<Node>, i: int): Node? {
    if 0 <= i < |s| then s[i] else null
  }

  /** Each node points to the next, the last one nowhere. */
  ghost predicate Chained(s: seq<Node>)
    reads s
  {
    forall i {:trigger s[i].next} | 0 <= i < |s| :: s[i].next == At(s, i + 1)
  }

  ghost predicate Distinct(s: seq<Node>) {
    forall i, j | 0 <= i < j < |s| :: s[i] != s[j]
  }

  /** `List` */
  class List {
    var head: Node?
    var tail: Node?
    var size: nat
    ghost var nodes: seq<Node>

    /** The nodes are a doubly linked chain from head to tail, each there once and not freed. */
    ghost predicate Valid()
      reads this, nodes
    {
      && size == |nodes| && head == At(nodes, 0) && tail == At(nodes, |nodes| - 1)
      && (forall i | 0 <= i < |nodes| :: nodes[i].freed == 0)
      && Chained(nodes)
      && (forall i {:trigger nodes[i].prev} | 0 <= i < |nodes| :: nodes[i].prev == At(nodes, i - 1))
      && Distinct(nodes)
    }

    ghost function Contents(): (s: seq<Value>)
      reads this, nodes
      ensures |s| == |nodes|
    {
      seq(|nodes|, i requires 0 <= i < |nodes| reads this, nodes => nodes[i].elem)
    }

    constructor ()
      ensures Valid() && nodes == []
    {
      head, tail, size, nodes := null, null, 0, [];
    }

    /** The copy constructor: equal contents, and no node in common with anything. */
    constructor CopyOf(r: List)
      requires r.Valid()
      ensures Valid() && Contents() == r.Contents()
      ensures forall n | n in nodes :: fresh(n)
    {
      head, tail, size, nodes := null, null, r.size, [];
      new;
      if r.head != null {
        head, tail, nodes := r.head.Clone(null, r.nodes, 0);
      }
    }

    /** `push_back` */
    method PushBack(v: Value)
      requires Valid()
      modifies this, nodes
      ensures Valid() && Contents() == old(Contents()) + [v]
      ensures fresh(tail) && nodes == old(nodes) + [tail]
    {
      var ptr := new Node(v);
      label Made:
      PushNode(ptr);
      InsertedKeepsValid@Made(ptr, |old(nodes)|);
    }

    method PushNode(ptr: Node)
      requires Valid() && ptr !in nodes && ptr.freed == 0 && ptr.next == null && ptr.prev == null
      modifies this, nodes, ptr
      ensures Inserted(ptr, |old(nodes)|)
    {
      if head == null {
        head := ptr;
        tail := ptr;
      } else {
        tail.next := ptr;
        ptr.prev := tail;
        tail := ptr;
      }
      size := size + 1;
      nodes := nodes + [ptr];
    }

    /** `insert` before the node at position `k`, or at the end for the end iterator. */
    method Insert(pos: Node?, v: Value, ghost k: nat) returns (ptr: Node)
      requires Valid() && k <= |nodes| && pos == At(nodes, k)
      modifies this, nodes
      ensures Valid() && fresh(ptr) && nodes == old(nodes)[..k] + [ptr] + old(nodes)[k..]
      ensures Contents() == old(Contents())[..k] + [v] + old(Contents())[k..]
    {
      if pos == null {
        PushBack(v);
        ptr := tail;
      } else {
        ptr := new Node(v);
        label Made:
        LinkBefore(ptr, pos, k);
        InsertedKeepsValid@Made(ptr, k);
      }
    }

    method LinkBefore(ptr: Node, pos: Node, ghost k: nat)
      requires Valid() && k < |nodes| && pos == nodes[k]
      requires ptr !in nodes && ptr.freed == 0 && ptr.next == null && ptr.prev == null
      modifies this, nodes, ptr
      ensures Inserted(ptr, k)
    {
      ptr.next := pos;
      ptr.prev := pos.prev;
      if head == pos {
        head := ptr;
      } else {
        pos.prev.next := ptr;
      }
      pos.prev := ptr;
      size := size + 1;
      nodes := nodes[..k] + [ptr] + nodes[k..];
    }

    /** `ptr` is between its neighbours, in both directions. */
    twostate predicate Inserted(ptr: Node, new k: nat)
      requires k <= |old(nodes)|
      reads *
    {
      var was, len := old(nodes), |old(nodes)|;
      && nodes == was[..k] + [ptr] + was[k..] && ptr !in was && size == old(size) + 1
      && head == nodes[0] && tail == nodes[len]
      && ptr.freed == 0 && ptr.elem == old(ptr.elem) && ptr.next == At(was, k) && ptr.prev == At(was, k - 1)
      && (forall j | 0 <= j < len :: was[j].elem == old(was[j].elem) && was[j].freed == old(was[j].freed))
      && (forall j {:trigger was[j].next} | 0 <= j < len :: was[j].next == if j + 1 == k then ptr else At(was, j + 1))
      && (forall j {:trigger was[j].prev} | 0 <= j < len :: was[j].prev == if j == k then ptr else At(was, j - 1))
    }

    twostate lemma InsertedKeepsValid(ptr: Node, new k: nat)
      requires k <= |old(nodes)| && old(Valid()) && Inserted(ptr, k)
      ensures Valid() && Contents() == old(Contents())[..k] + [ptr.elem] + old(Contents())[k..]
    {
      var was := old(nodes);
      forall i | 0 <= i < |nodes|
        ensures nodes[i].next == At(nodes, i + 1) && nodes[i].prev == At(nodes, i - 1) && nodes[i].freed == 0
        ensures nodes[i].elem == (old(Contents())[..k] + [ptr.elem] + old(Contents())[k..])[i]
      {
        if i < k {
          assert nodes[i] == was[i];
        } else if i > k {
          assert nodes[i] == was[i - 1];
        }
      }
      StillDistinct(was, ptr, k);
    }

    static lemma StillDistinct(s: seq<Node>, n: Node, k: nat)
      requires k <= |s| && n !in s && Distinct(s)
      ensures Distinct(s[..k] + [n] + s[k..])
    {
    }

    /** `erase` of the node at position `k`; the result is the iterator to the node behind it. */
    method Erase(n: Node, ghost k: nat) returns (r: Node?)
      requires Valid() && k < |nodes| && nodes[k] == n
      modifies this, nodes
      ensures Valid() && nodes == old(nodes)[..k] + old(nodes)[k + 1..]
      ensures Contents() == old(Contents())[..k] + old(Contents())[k + 1..]
      ensures n.freed == 1 && r == At(nodes, k)
    {
      r := Unlink(n, k);
      ErasedKeepsValid(n, k);
    }

    method Unlink(n: Node, ghost k: nat) returns (r: Node?)
      requires Valid() && k < |nodes| && nodes[k] == n
      modifies this, nodes
      ensures Erased(n, k) && r == At(old(nodes), k + 1)
    {
      r := n.next;
      if n == head {
        head := n.next;
      }
      if n == tail {
        tail := n.prev;
      }
      if n.next != null {
        n.next.prev := n.prev;
      }
      if n.prev != null {
        n.prev.next := n.next;
      }
      n.Free();
      size := size - 1;
      nodes := nodes[..k] + nodes[k + 1..];
    }

    twostate predicate Erased(n: Node, new k: nat)
      requires k < |old(nodes)|
      reads *
    {
      var was, len := old(nodes), |old(nodes)|;
      && nodes == was[..k] + was[k + 1..] && was[k] == n && size == old(size) - 1 && n.freed == 1
      && head == At(nodes, 0) && tail == At(nodes, len - 2)
      && (forall j | 0 <= j < len && j != k :: was[j].elem == old(was[j].elem) && was[j].freed == old(was[j].freed))
      && (forall j {:trigger was[j].next} | 0 <= j < len && j != k ::
            was[j].next == At(was, if j + 1 == k then k + 1 else j + 1))
      && (forall j {:trigger was[j].prev} | 0 <= j < len && j != k ::
            was[j].prev == At(was, if j - 1 == k then k - 1 else j - 1))
    }

    twostate lemma ErasedKeepsValid(n: Node, new k: nat)
      requires k < |old(nodes)| && old(Valid()) && Erased(n, k)
      ensures Valid() && Contents() == old(Contents())[..k] + old(Contents())[k + 1..]
    {
      forall i | 0 <= i < |nodes|
        ensures nodes[i].next == At(nodes, i + 1) && nodes[i].prev == At(nodes, i - 1) && nodes[i].freed == 0
      {
        ErasedLink(n, k, i);
      }
      RestDistinct(old(nodes), k);
      ErasedContents(n, k);
    }

    twostate lemma ErasedLink(n: Node, new k: nat, new i: nat)
      requires k < |old(nodes)| && old(Valid()) && Erased(n, k) && i < |nodes|
      ensures nodes[i].next == At(nodes, i + 1) && nodes[i].prev == At(nodes, i - 1) && nodes[i].freed == 0
    {
      assert nodes[i] == old(nodes)[if i < k then i else i + 1];
    }

    twostate lemma ErasedContents(n: Node, new k: nat)
      requires k < |old(nodes)| && old(Valid()) && Erased(n, k)
      ensures Contents() == old(Contents())[..k] + old(Contents())[k + 1..]
    {
      forall i | 0 <= i < |nodes| ensures nodes[i].elem == old(Contents())[if i < k then i else i + 1] {
        assert nodes[i] == old(nodes)[if i < k then i else i + 1];
      }
    }

    static lemma RestDistinct(s: seq<Node>, k: nat)
      requires k < |s| && Distinct(s)
      ensures Distinct(s[..k] + s[k + 1..])
    {
    }

    /** `clear`, and the destructor. */
    method Clear()
      requires Valid()
      modifies this, nodes
      ensures Valid() && nodes == []
      ensures forall n | n in old(nodes) :: n.freed == 1
    {
      var ptr := head;
      ghost var i := 0;
      while head != null
        invariant nodes == old(nodes) && i <= |nodes| && ptr == head == At(nodes, i)
        invariant Chained(nodes)
        invariant forall j | 0 <= j < |nodes| :: nodes[j].freed == if j < i then 1 else 0
        decreases |nodes| - i
      {
        head := head.next;
        ptr.Free();
        ptr := head;
        i := i + 1;
      }
      size := 0;
      tail := null;
      nodes := [];
    }
  }
}
