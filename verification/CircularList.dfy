/** The circular list: a ring of nodes behind a head and a tail pointer. */
module CircularList {
  import opened Common

  /** `freed` counts the deallocations of the node. */
  class Node {
    var elem: Value
    var prev: Node?
    var next: Node?
    ghost var freed: nat

    constructor (elem: Value)
      ensures this.elem == elem && prev == null && next == null && freed == 0
    {
      this.elem := elem;
      prev, next, freed := null, null, 0;
    }

    /** `destroy` and `deallocate` */
    method Free()
      requires freed == 0
      modifies this`freed
      ensures freed == 1
    {
      freed := 1;
    }
  }

  /** `concurrent_circular_list`, used by one thread at a time. */
  class List {
    var head: Node?
    var tail: Node?
    var size: nat
    ghost var nodes: seq<Node>

    /** The positions behind and before `i` in a ring of `n`. */
    static function After(n: nat, i: nat): nat {
      if i + 1 < n then i + 1 else 0
    }

    static function Before(n: nat, i: nat): nat
      requires i < n
    {
      if i > 0 then i - 1 else n - 1
    }

    /** The nodes are a doubly linked ring from head to tail, each there once and not freed. */
    ghost predicate Valid()
      reads this, nodes
    {
      && size == |nodes|
      && (if nodes == [] then head == null && tail == null else head == nodes[0] && tail == nodes[|nodes| - 1])
      && (forall i | 0 <= i < |nodes| :: nodes[i].freed == 0)
      && (forall i {:trigger nodes[i].next} | 0 <= i < |nodes| :: nodes[i].next == nodes[After(|nodes|, i)])
      && (forall i {:trigger nodes[i].prev} | 0 <= i < |nodes| :: nodes[i].prev == nodes[Before(|nodes|, i)])
      && (forall i, j | 0 <= i < j < |nodes| :: nodes[i] != nodes[j])
    }

    ghost function Contents(): (s: seq<Value>)
      reads this, nodes
      ensures |s| == |nodes|
    {
      seq(|nodes|, i requires 0 <= i < |nodes| reads this, nodes => nodes[i].elem)
    }

    constructor ()
      ensures Valid() && nodes == []
    {
      head, tail, size, nodes := null, null, 0, [];
    }

    /** `push_back` */
    method PushBack(v: Value)
      requires Valid()
      modifies this, nodes
      ensures Valid() && Contents() == old(Contents()) + [v]
      ensures |nodes| == |old(nodes)| + 1 && nodes[..|old(nodes)|] == old(nodes) && fresh(tail)
    {
      var ptr := new Node(v);
      InsertNode(ptr);
    }

    /** `insert_node` */
    method InsertNode(ptr: Node)
      requires Valid() && ptr !in nodes && ptr.freed == 0
      modifies this, nodes, ptr
      ensures Valid() && nodes == old(nodes) + [ptr]
      ensures Contents() == old(Contents()) + [ptr.elem] && ptr.elem == old(ptr.elem)
    {
      LinkLast(ptr);
      LinkedKeepsValid(ptr);
    }

    method LinkLast(ptr: Node)
      requires Valid() && ptr !in nodes && ptr.freed == 0
      modifies this, nodes, ptr
      ensures Linked(ptr)
    {
      ptr.next := head;
      if head == null {
        ptr.next := ptr;
        ptr.prev := ptr;
        head, tail := ptr, ptr;
      } else {
        ptr.prev := tail;
        ptr.next := tail.next;
        tail.next.prev := ptr;
        tail.next := ptr;
        tail := ptr;
      }
      size := size + 1;
      nodes := nodes + [ptr];
    }

    twostate predicate Linked(ptr: Node)
      reads *
    {
      var was, len := old(nodes), |old(nodes)|;
      && nodes == was + [ptr] && ptr !in was && size == old(size) + 1
      && tail == ptr && ptr.freed == 0 && ptr.elem == old(ptr.elem)
      && head == nodes[0] && ptr.next == nodes[0] && ptr.prev == nodes[Before(len + 1, len)]
      && (forall j | 0 <= j < len :: was[j].elem == old(was[j].elem) && was[j].freed == old(was[j].freed))
      && (forall j {:trigger was[j].next} | 0 <= j < len :: was[j].next == nodes[j + 1])
      && (forall j {:trigger was[j].prev} | 0 <= j < len :: was[j].prev == nodes[Before(len + 1, j)])
    }

    twostate lemma LinkedKeepsValid(ptr: Node)
      requires old(Valid()) && Linked(ptr)
      ensures Valid() && Contents() == old(Contents()) + [ptr.elem]
    {
      ghost var was := old(nodes);
      forall i | 0 <= i < |nodes|
        ensures nodes[i].next == nodes[After(|nodes|, i)] && nodes[i].prev == nodes[Before(|nodes|, i)]
        ensures nodes[i].freed == 0
      {
        if i < |was| {
          assert nodes[i] == was[i];
        }
      }
      assert Contents() == old(Contents()) + [ptr.elem];
    }

    /** `erase` of the node at position `k`.  The result is the iterator to the next node in the ring, which
        for the last node left is the freed node itself. */
    method Erase(n: Node, ghost k: nat) returns (r: Node?)
      requires Valid() && k < |nodes| && nodes[k] == n
      modifies this, nodes
      ensures Valid() && nodes == old(nodes)[..k] + old(nodes)[k + 1..]
      ensures Contents() == old(Contents())[..k] + old(Contents())[k + 1..]
      ensures n.freed == 1
      ensures r == old(nodes)[After(|old(nodes)|, k)] && (r.freed == 0 <==> old(size) > 1)
    {
      r := Unlink(n, k);
      ErasedKeepsValid(n, k);
    }

    method Unlink(n: Node, ghost k: nat) returns (r: Node?)
      requires Valid() && k < |nodes| && nodes[k] == n
      modifies this, nodes
      ensures Erased(n, k) && r == old(n.next)
      ensures old(size) > 1 ==> r.freed == 0
    {
      ghost var was := nodes;
      ghost var len := |nodes|;
      Places(nodes, k);
      assert nodes[k].next == nodes[After(len, k)] && nodes[k].prev == nodes[Before(len, k)];
      r := Detach(n);
      nodes := nodes[..k] + nodes[k + 1..];
      if len > 1 {
        Ends(was, k);
      }
    }

    /** The statements of `erase`: the node's neighbours are linked, head and tail adjusted, the node freed. */
    method Detach(n: Node) returns (r: Node?)
      requires n.freed == 0 && n.prev != null && n.next != null && n.next.prev == n && n.prev.next == n
      requires head != null && tail != null && size > 0 && (n == n.prev <==> head == n && tail == n)
      modifies this`head, this`tail, this`size, n`freed, n.prev`next, n.next`prev
      ensures r == old(n.next) && n.freed == 1 && size == old(size) - 1
      ensures if old(n.prev) == n then n.next == n && n.prev == n && head == null && tail == null
              else
                && old(n.prev).next == old(n.next) && old(n.next).prev == old(n.prev)
                && head == (if old(head) == n then old(n.next) else old(head))
                && tail == (if old(tail) == n then old(n.prev) else old(tail))
    {
      r := n.next;
      n.next.prev := n.prev;
      if head == n || tail == n {
        r := n.next;
        if tail != n {
          head := head.next;
          head.prev := n.prev;
          head.prev.next := head;
        } else if head != n {
          tail := tail.prev;
          tail.next := n.next;
          n.next.prev := tail;
        } else {
          head, tail := null, null;
        }
        n.Free();
        size := size - 1;
      } else {
        n.prev.next := n.next;
        size := size - 1;
        n.Free();
      }
    }

    /** In a ring without duplicates nodes and positions tell the same. */
    static lemma Places(s: seq<Node>, k: nat)
      requires k < |s| && forall a, b | 0 <= a < b < |s| :: s[a] != s[b]
      ensures forall j | 0 <= j < |s| :: After(|s|, j) == k <==> s[j] == s[Before(|s|, k)]
      ensures forall j | 0 <= j < |s| :: Before(|s|, j) == k <==> s[j] == s[After(|s|, k)]
      ensures s[k] == s[Before(|s|, k)] <==> |s| == 1
    {
    }

    static lemma Ends(s: seq<Node>, k: nat)
      requires 1 < |s| && k < |s|
      ensures
        var t := s[..k] + s[k + 1..];
        && t[0] == s[if k == 0 then After(|s|, k) else 0]
        && t[|t| - 1] == s[if k == |s| - 1 then Before(|s|, k) else |s| - 1]
    {
    }

    /** The node at `k` is freed and its neighbours know each other. */
    twostate predicate Erased(n: Node, new k: nat)
      requires k < |old(nodes)|
      reads *
    {
      var was, len := old(nodes), |old(nodes)|;
      && nodes == was[..k] + was[k + 1..] && was[k] == n && size == old(size) - 1 && n.freed == 1
      && (if nodes == [] then head == null && tail == null else head == nodes[0] && tail == nodes[|nodes| - 1])
      && (forall j | 0 <= j < len && j != k :: was[j].elem == old(was[j].elem) && was[j].freed == old(was[j].freed))
      && (forall j {:trigger was[j].next} | 0 <= j < len && j != k ::
            was[j].next == was[if After(len, j) == k then After(len, k) else After(len, j)])
      && (forall j {:trigger was[j].prev} | 0 <= j < len && j != k ::
            was[j].prev == was[if Before(len, j) == k then Before(len, k) else Before(len, j)])
    }

    twostate lemma ErasedKeepsValid(n: Node, new k: nat)
      requires old(Valid()) && k < |old(nodes)| && Erased(n, k)
      ensures Valid() && Contents() == old(Contents())[..k] + old(Contents())[k + 1..]
    {
      forall i | 0 <= i < |nodes|
        ensures nodes[i].next == nodes[After(|nodes|, i)] && nodes[i].prev == nodes[Before(|nodes|, i)]
        ensures nodes[i].freed == 0
      {
        assert nodes[i] == old(nodes)[Was(k, i)];
        Neighbours(old(nodes), k, i);
      }
      StillDistinct(old(nodes), k);
      ErasedContents(n, k);
    }

    static lemma StillDistinct(s: seq<Node>, k: nat)
      requires k < |s| && forall a, b | 0 <= a < b < |s| :: s[a] != s[b]
      ensures var t := s[..k] + s[k + 1..]; forall a, b | 0 <= a < b < |t| :: t[a] != t[b]
    {
    }

    twostate lemma ErasedContents(n: Node, new k: nat)
      requires old(Valid()) && k < |old(nodes)| && Erased(n, k)
      ensures Contents() == old(Contents())[..k] + old(Contents())[k + 1..]
    {
      forall i | 0 <= i < |nodes| ensures nodes[i].elem == old(Contents())[Was(k, i)] {
        assert nodes[i] == old(nodes)[Was(k, i)];
      }
    }

    /** Where the node now at `i` was before the one at `k` went. */
    static function Was(k: nat, i: nat): nat {
      if i < k then i else i + 1
    }

    /** The neighbours in the smaller ring, in terms of the larger one. */
    static lemma Neighbours(s: seq<Node>, k: nat, i: nat)
      requires k < |s| && i < |s| - 1
      ensures
        var t, n, was := s[..k] + s[k + 1..], |s|, Was(k, i);
        && t[After(n - 1, i)] == s[if After(n, was) == k then After(n, k) else After(n, was)]
        && t[Before(n - 1, i)] == s[if Before(n, was) == k then Before(n, k) else Before(n, was)]
    {
    }

    /** `clear`: opens the ring and frees the nodes one after the other. */
    method Clear()
      requires Valid()
      modifies this, nodes
      ensures Valid() && nodes == []
      ensures forall n | n in old(nodes) :: n.freed == 1
    {
      var ptr := head;
      if ptr != null {
        if ptr.prev != null {
          ptr.prev.next := null;
        }
      }
      ghost var i := 0;
      while head != null
        invariant nodes == old(nodes) && i <= |nodes| && ptr == head
        invariant head == if i < |nodes| then nodes[i] else null
        invariant forall j {:trigger nodes[j].next} | 0 <= j < |nodes| ::
          nodes[j].next == if j + 1 < |nodes| then nodes[j + 1] else null
        invariant forall j | 0 <= j < |nodes| :: nodes[j].freed == if j < i then 1 else 0
        decreases |nodes| - i
      {
        head := head.next;
        ptr.Free();
        ptr := head;
        i := i + 1;
      }
      size := 0;
      tail := null;
      nodes := [];
    }

    // ----- What iterators see

    /** The node an iterator at `n` comes to after `k` steps. */
    ghost function Walk(n: Node, k: nat): Node?
      reads this, nodes
      requires n in nodes
    {
      if k == 0 then n
      else
        var m := Walk(n, k - 1);
        if m == null || m !in nodes then null else m.next
    }

    /** From the head it visits the contents in order, and after `size` steps it is at the head again. */
    lemma {:induction false} WalkGoesAround(k: nat)
      requires Valid() && 0 < |nodes| && k <= |nodes|
      ensures Walk(nodes[0], k) == if k < |nodes| then nodes[k] else nodes[0]
    {
      if k > 0 {
        WalkGoesAround(k - 1);
      }
    }

    /** Going forward and back, or back and forward, is going nowhere. */
    lemma Doubly(n: Node)
      requires Valid() && n in nodes
      ensures n.next != null && n.prev != null && n.next in nodes && n.prev in nodes
      ensures n.next.prev == n && n.prev.next == n
    {
      var i :| 0 <= i < |nodes| && nodes[i] == n;
      assert nodes[Before(|nodes|, i)] in nodes && nodes[After(|nodes|, i)] in nodes;
      assert After(|nodes|, Before(|nodes|, i)) == i && Before(|nodes|, After(|nodes|, i)) == i;
    }
  }
}
