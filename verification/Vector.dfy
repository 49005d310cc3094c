/** The growable array: raw slots, constructed objects, and the blocks they live in. */
module Vector {
  import opened Common

  /** A place for an object: raw storage, an object, or an object whose value was moved away. */
  datatype Slot = Raw | Live(value: Value) | Husk

  /** The allocator.  What it demands is the discipline of raw storage: an object is constructed where none
      is and destroyed where one is, and a block is returned once, with its size and without objects. */
  class Allocator {
    ghost var blocks: set<array<Slot>>   // handed out and not returned
    ghost var objects: int               // constructed and not destroyed
    ghost var moves: nat                 // objects moved from one slot to another

    constructor ()
      ensures blocks == {} && objects == 0 && moves == 0
    {
      blocks, objects, moves := {}, 0, 0;
    }

    method Allocate(n: nat) returns (b: array<Slot>)
      modifies this`blocks
      ensures fresh(b) && b.Length == n && blocks == old(blocks) + {b}
      ensures forall i | 0 <= i < n :: b[i] == Raw
    {
      b := new Slot[n](_ => Raw);
      blocks := blocks + {b};
    }

    method Deallocate(b: array<Slot>, n: nat)
      requires b in blocks && b.Length == n && forall i | 0 <= i < n :: b[i] == Raw
      modifies this`blocks
      ensures blocks == old(blocks) - {b}
    {
      blocks := blocks - {b};
    }

    method Construct(b: array<Slot>, i: nat, v: Value)
      requires b in blocks && i < b.Length && b[i] == Raw
      modifies this`objects, b
      ensures objects == old(objects) + 1 && b[i] == Live(v)
      ensures forall j | 0 <= j < b.Length && j != i :: b[j] == old(b[j])
    {
      b[i] := Live(v);
      objects := objects + 1;
    }

    method Destroy(b: array<Slot>, i: nat)
      requires b in blocks && i < b.Length && b[i] != Raw
      modifies this`objects, b
      ensures objects == old(objects) - 1 && b[i] == Raw
      ensures forall j | 0 <= j < b.Length && j != i :: b[j] == old(b[j])
    {
      b[i] := Raw;
      objects := objects - 1;
    }

    /** `vector_realloc_helper::call`: move construction. */
    method Relocate(dst: array<Slot>, i: nat, src: array<Slot>, j: nat)
      requires dst in blocks && src in blocks && i < dst.Length && j < src.Length
      requires dst[i] == Raw && src[j].Live?
      modifies this`objects, this`moves, dst, src
      ensures objects == old(objects) + 1 && moves == old(moves) + 1
      ensures dst[i] == old(src[j]) && src[j] == Husk
      ensures forall k | 0 <= k < dst.Length && k != i && (dst == src ==> k != j) :: dst[k] == old(dst[k])
      ensures forall k | 0 <= k < src.Length && k != j && (dst == src ==> k != i) :: src[k] == old(src[k])
    {
      dst[i] := src[j];
      src[j] := Husk;
      objects := objects + 1;
      moves := moves + 1;
    }

    /** The loop over `destroy` of every operation that shortens. */
    method DestroyRange(b: array<Slot>, from: nat, to: nat)
      requires b in blocks && from <= to <= b.Length && forall i | from <= i < to :: b[i] != Raw
      modifies this`objects, b
      ensures objects == old(objects) - (to - from)
      ensures forall i | from <= i < to :: b[i] == Raw
      ensures forall i | 0 <= i < b.Length && !(from <= i < to) :: b[i] == old(b[i])
    {
      for i := from to to
        invariant objects == old(objects) - (i - from)
        invariant forall j | from <= j < i :: b[j] == Raw
        invariant forall j | 0 <= j < b.Length && !(from <= j < i) :: b[j] == old(b[j])
      {
        Destroy(b, i);
      }
    }

    /** The loop over `vector_realloc_helper::call` into a new block. */
    method RelocateAll(dst: array<Slot>, src: array<Slot>, n: nat)
      requires dst in blocks && src in blocks && dst != src && n <= dst.Length && n <= src.Length
      requires forall i | 0 <= i < n :: src[i].Live?
      requires forall i | 0 <= i < dst.Length :: dst[i] == Raw
      modifies this`objects, this`moves, dst, src
      ensures objects == old(objects) + n && moves == old(moves) + n
      ensures forall i | 0 <= i < n :: dst[i] == old(src[i]) && src[i] == Husk
      ensures forall i | n <= i < dst.Length :: dst[i] == Raw
      ensures forall i | n <= i < src.Length :: src[i] == old(src[i])
    {
      for i := 0 to n
        invariant objects == old(objects) + i && moves == old(moves) + i
        invariant forall j | 0 <= j < i :: dst[j] == old(src[j]) && src[j] == Husk
        invariant forall j | i <= j < dst.Length :: dst[j] == Raw
        invariant forall j | i <= j < src.Length :: src[j] == old(src[j])
      {
        Relocate(dst, i, src, i);
      }
    }

    /** The loop of `erase`, which moves every object behind the gap one slot down. */
    method CloseGap(b: array<Slot>, gap: nat, n: nat)
      requires b in blocks && gap < n <= b.Length && b[gap] == Raw && forall i | gap < i < n :: b[i].Live?
      modifies this`objects, this`moves, b
      ensures objects == old(objects) && b[n - 1] == Raw
      ensures forall i | gap <= i < n - 1 :: b[i] == old(b[i + 1])
      ensures forall i | 0 <= i < b.Length && !(gap <= i < n) :: b[i] == old(b[i])
    {
      for i := gap + 1 to n
        invariant objects == old(objects) && b[i - 1] == Raw
        invariant forall j | gap <= j < i - 1 :: b[j] == old(b[j + 1])
        invariant forall j | 0 <= j < b.Length && !(gap <= j < i) :: b[j] == old(b[j])
      {
        Relocate(b, i - 1, b, i);
        Destroy(b, i);
      }
    }

    /** The loop over copy construction. */
    method CopyAll(dst: array<Slot>, src: array<Slot>, n: nat)
      requires dst in blocks && dst != src && n <= dst.Length && n <= src.Length
      requires forall i | 0 <= i < n :: src[i].Live?
      requires forall i | 0 <= i < dst.Length :: dst[i] == Raw
      modifies this`objects, dst
      ensures objects == old(objects) + n
      ensures forall i | 0 <= i < n :: dst[i] == src[i]
      ensures forall i | n <= i < dst.Length :: dst[i] == Raw
    {
      for i := 0 to n
        invariant objects == old(objects) + i
        invariant forall j | 0 <= j < i :: dst[j] == src[j]
        invariant forall j | i <= j < dst.Length :: dst[j] == Raw
      {
        Construct(dst, i, src[i].value);
      }
    }

    /** The loop of `resize` that appends copies of one value. */
    method FillRange(b: array<Slot>, from: nat, to: nat, v: Value)
      requires b in blocks && from <= to <= b.Length && forall i | from <= i < to :: b[i] == Raw
      modifies this`objects, b
      ensures objects == old(objects) + (to - from)
      ensures forall i | from <= i < to :: b[i] == Live(v)
      ensures forall i | 0 <= i < b.Length && !(from <= i < to) :: b[i] == old(b[i])
    {
      for i := from to to
        invariant objects == old(objects) + (i - from)
        invariant forall j | from <= j < i :: b[j] == Live(v)
        invariant forall j | 0 <= j < b.Length && !(from <= j < i) :: b[j] == old(b[j])
      {
        Construct(b, i, v);
      }
    }
  }

  /** The capacity `ensure_capacity` reallocates to. */
  function Grown(cap: nat, n: nat): nat {
    if cap >= n then cap else if cap * 2 > n then cap * 2 else n
  }

  /** The first `n` values, or all of them and as many copies of `v` as it takes. */
  function Resized(s: seq<Value>, n: nat, v: Value): seq<Value> {
    if n <= |s| then s[..n] else s + seq(n - |s|, _ => v)
  }

  /** `vector` */
  class Vector {
    const alloc: Allocator
    var data: array?<Slot>
    var size: nat
    var cap: nat

    /** The constructed slots are exactly the first `size`. */
    ghost predicate Valid()
      reads this, alloc, data
    {
      if data == null then size == 0 && cap == 0
      else
        && data in alloc.blocks && data.Length == cap && size <= cap
        && (forall i | 0 <= i < size :: data[i].Live?)
        && (forall i | size <= i < cap :: data[i] == Raw)
    }

    ghost function Contents(): (s: seq<Value>)
      requires Valid()
      reads this, alloc, data
      ensures |s| == size
    {
      if data == null then []
      else seq(size, i requires 0 <= i < size && Valid() && data != null reads this, alloc, data => data[i].value)
    }

    ghost function Block(): set<array<Slot>>
      reads this
    {
      if data == null then {} else {data}
    }

    constructor (alloc: Allocator)
      ensures Valid() && Contents() == [] && this.alloc == alloc && data == null
    {
      this.alloc := alloc;
      data, size, cap := null, 0, 0;
    }

    /** What an operation that keeps the block, replaces it by a new one or gives it up does to the
        allocator. */
    twostate predicate Exchanged(grown: int)
      reads this, alloc
    {
      && alloc.blocks == old(alloc.blocks) - old(Block()) + Block() && alloc.objects == old(alloc.objects) + grown
      && (data == null || data == old(data) || fresh(data))
    }

    /** `reallocate`, for a capacity that holds the contents, or for 0, which drops them. */
    method Reallocate(n: nat)
      requires Valid() && (n == 0 || n >= size)
      modifies this, alloc, data
      ensures Valid() && Exchanged(size - old(size)) && cap == n
      ensures Contents() == if n == 0 then [] else old(Contents())
      ensures data == null <==> n == 0 && old(data) != null
      ensures data != null ==> fresh(data)
      ensures alloc.moves == old(alloc.moves) + if n == 0 then 0 else old(size)
    {
      if data == null {
        data := alloc.Allocate(n);
        cap := n;
        return;
      }
      if n == 0 {
        Clear();
        alloc.Deallocate(data, cap);
        data := null;
        cap := 0;
        return;
      }
      var newData := alloc.Allocate(n);
      alloc.RelocateAll(newData, data, size);
      alloc.DestroyRange(data, 0, size);
      alloc.Deallocate(data, cap);
      data := newData;
      cap := n;
    }

    /** `clear` */
    method Clear()
      requires Valid()
      modifies this`size, alloc`objects, data
      ensures Valid() && Contents() == [] && data == old(data) && cap == old(cap)
      ensures alloc.objects == old(alloc.objects) - old(size)
    {
      if data != null {
        alloc.DestroyRange(data, 0, size);
        size := 0;
      }
    }

    /** `ensure_capacity` */
    method EnsureCapacity(n: nat)
      requires Valid() && n >= size
      modifies this, alloc, data
      ensures Valid() && Exchanged(0) && Contents() == old(Contents())
      ensures cap == Grown(old(cap), n) && (data == null ==> n == 0)
      ensures if n <= old(cap) then data == old(data) else fresh(data)
      ensures alloc.moves == old(alloc.moves) + if n <= old(cap) then 0 else old(size)
    {
      if cap < n {
        if cap > 0 {
          Reallocate(if cap * 2 > n then cap * 2 else n);
        } else {
          Reallocate(n);
        }
      }
    }

    /** `push_back` */
    method PushBack(v: Value)
      requires Valid()
      modifies this, alloc, data
      ensures Valid() && Exchanged(1) && Contents() == old(Contents()) + [v]
      ensures cap == Grown(old(cap), old(size) + 1)
      ensures alloc.moves == old(alloc.moves) + if old(size) < old(cap) then 0 else old(size)
    {
      EnsureCapacity(size + 1);
      alloc.Construct(data, size, v);
      size := size + 1;
    }

    /** `push_back` of a reference to the `i`th object of the vector itself.  It is still a reference to that
        object when it is read exactly if the vector was not full; otherwise the block it points into was
        returned, and the call ends there. */
    method PushBackElement(i: nat) returns (ok: bool)
      requires Valid() && i < size
      modifies this, alloc, data
      ensures ok <==> old(size) < old(cap)
      ensures Valid() && Exchanged(if ok then 1 else 0)
      ensures Contents() == old(Contents()) + if ok then [old(Contents())[i]] else []
      ensures !ok ==> old(data) !in alloc.blocks
    {
      var block := data;
      EnsureCapacity(size + 1);
      ok := data == block;
      if ok {
        alloc.Construct(data, size, block[i].value);
        size := size + 1;
      }
    }

    /** `pop_back` */
    method PopBack()
      requires Valid() && size > 0
      modifies this`size, alloc`objects, data
      ensures Valid() && Exchanged(-1) && Contents() == old(Contents())[..old(size) - 1]
      ensures cap == old(cap) && data == old(data)
    {
      alloc.Destroy(data, size - 1);
      size := size - 1;
    }

    /** `erase` */
    method Erase(off: nat)
      requires Valid() && off < size
      modifies this`size, alloc`objects, alloc`moves, data
      ensures Valid() && Exchanged(-1) && data == old(data) && cap == old(cap)
      ensures Contents() == old(Contents())[..off] + old(Contents())[off + 1..]
    {
      alloc.Destroy(data, off);
      alloc.CloseGap(data, off, size);
      size := size - 1;
    }

    /** `resize(n, v)`, and `resize(n)` with the value of the default constructor. */
    method Resize(n: nat, v: Value)
      requires Valid()
      modifies this, alloc, data
      ensures Valid() && Exchanged(n - old(size))
      ensures Contents() == Resized(old(Contents()), n, v)
      ensures cap == if n == 0 then 0 else Grown(old(cap), n)
    {
      if n > size {
        if n > cap {
          EnsureCapacity(n);
        }
        alloc.FillRange(data, size, n, v);
        size := n;
      } else if n > 0 {
        alloc.DestroyRange(data, n, size);
        size := n;
      } else if data != null {
        Drop();
      }
    }

    /** `resize(n, v)` with a reference to the `i`th object of the vector itself, which is read too late
        exactly if the block is too small. */
    method ResizeWithElement(n: nat, i: nat) returns (ok: bool)
      requires Valid() && i < size
      modifies this, alloc, data
      ensures ok <==> n <= old(cap)
      ensures Valid() && Exchanged(if ok then n - old(size) else 0)
      ensures Contents() == if ok then Resized(old(Contents()), n, old(Contents())[i]) else old(Contents())
      ensures !ok ==> old(data) !in alloc.blocks
    {
      ok := n <= cap;
      if ok {
        Resize(n, data[i].value);
      } else {
        EnsureCapacity(n);
      }
    }

    /** Objects and block are returned. */
    method Drop()
      requires Valid() && data != null
      modifies this, alloc, data
      ensures Valid() && Exchanged(size - old(size)) && size == 0 && data == null
    {
      Clear();
      alloc.Deallocate(data, cap);
      data := null;
      size, cap := 0, 0;
    }

    /** `reserve` */
    method Reserve(n: nat)
      requires Valid()
      modifies this, alloc, data
      ensures Valid() && Exchanged(0) && Contents() == old(Contents()) && cap == if n > old(cap) then n else old(cap)
      ensures n <= old(cap) ==> data == old(data)
    {
      if cap < n {
        Reallocate(n);
      }
    }

    /** `shrink_to_fit` */
    method ShrinkToFit()
      requires Valid()
      modifies this, alloc, data
      ensures Valid() && Exchanged(0) && Contents() == old(Contents()) && cap == size
      ensures old(cap) == old(size) ==> data == old(data)
    {
      if cap > size {
        Reallocate(size);
      }
    }

    /** The destructor. */
    method Destroy()
      requires Valid()
      modifies this, alloc, data
      ensures Valid() && Exchanged(size - old(size)) && size == 0 && data == null
    {
      if data != null {
        Drop();
      }
    }

    /** The copy constructor, on a vector without a block. */
    method CopyFrom(v: Vector)
      requires Valid() && data == null && v.Valid() && v.alloc == alloc && v != this
      modifies this, alloc
      ensures Valid() && Exchanged(size) && Contents() == v.Contents()
      ensures v.Valid() && v.Contents() == old(v.Contents())
    {
      if v.data != null {
        EnsureCapacity(v.size);
        if v.size > 0 {
          alloc.CopyAll(data, v.data, v.size);
        }
        size := v.size;
      }
    }

    /** Copy assignment.  It has no test for self-assignment: that empties the vector. */
    method Assign(v: Vector)
      requires Valid() && v.Valid() && v.alloc == alloc && (v == this || data == null || v.data != data)
      modifies this, alloc, data
      ensures Valid() && Exchanged(size - old(size))
      ensures Contents() == if v == this then [] else old(v.Contents())
      ensures v != this ==> v.Valid() && v.Contents() == old(v.Contents())
    {
      if v.data != null {
        Clear();
        EnsureCapacity(v.size);
        if v.size > 0 {
          alloc.CopyAll(data, v.data, v.size);
        }
        size := v.size;
      } else {
        Reallocate(0);
      }
    }

    /** Move assignment; to itself it empties the vector as well. */
    method MoveAssign(v: Vector)
      requires Valid() && v.Valid() && v.alloc == alloc && (v == this || data == null || v.data != data)
      modifies this, v, alloc, data
      ensures Valid() && Contents() == if v == this then [] else old(v.Contents())
      ensures v.Valid() && v.data == null
      ensures v != this ==> data == old(v.data)
      ensures alloc.objects == old(alloc.objects) - old(size) && alloc.blocks == old(alloc.blocks) - old(Block())
    {
      if data != null {
        Reallocate(0);
      }
      size := v.size;
      cap := v.cap;
      data := v.data;
      v.size, v.cap := 0, 0;
      v.data := null;
    }
  }

  // ----- Whole runs over several vectors

  ghost function Sizes(vs: seq<Vector>): int
    reads vs
  {
    if vs == [] then 0 else vs[0].size + Sizes(vs[1..])
  }

  ghost function Blocks(vs: seq<Vector>): set<array<Slot>>
    reads vs
  {
    set i | 0 <= i < |vs| && vs[i].data != null :: vs[i].data
  }

  ghost predicate Apart(vs: seq<Vector>)
    reads vs
  {
    forall i, j | 0 <= i < |vs| && 0 <= j < |vs| && i != j ::
      vs[i] != vs[j] && (vs[i].data != null ==> vs[i].data != vs[j].data)
  }

  /** Every object in existence is in the slots of one vector, and every block belongs to one. */
  ghost predicate Balanced(a: Allocator, vs: seq<Vector>)
    reads a, vs
  {
    Apart(vs) && a.objects == Sizes(vs) && a.blocks == Blocks(vs)
  }

  twostate predicate SameVector(v: Vector)
    reads v
  {
    v.size == old(v.size) && v.data == old(v.data)
  }

  twostate lemma {:induction false} NothingGrown(vs: seq<Vector>)
    requires forall i | 0 <= i < |vs| :: SameVector(vs[i])
    ensures Sizes(vs) == old(Sizes(vs))
  {
    if vs != [] {
      NothingGrown(vs[1..]);
    }
  }

  twostate lemma {:induction false} OneGrown(vs: seq<Vector>, new k: nat)
    requires k < |vs| && forall i | 0 <= i < |vs| && i != k :: SameVector(vs[i])
    ensures Sizes(vs) == old(Sizes(vs)) + vs[k].size - old(vs[k].size)
  {
    if k == 0 {
      NothingGrown(vs[1..]);
    } else {
      assert vs[1..][k - 1] == vs[k];
      OneGrown(vs[1..], k - 1);
    }
  }

  twostate lemma {:induction false} TwoGrown(vs: seq<Vector>, new k: nat, new j: nat)
    requires k < |vs| && j < |vs| && k != j
    requires forall i | 0 <= i < |vs| && i != k && i != j :: SameVector(vs[i])
    ensures Sizes(vs) == old(Sizes(vs)) + vs[k].size - old(vs[k].size) + vs[j].size - old(vs[j].size)
  {
    var rest := vs[1..];
    if k == 0 {
      assert rest[j - 1] == vs[j];
      OneGrown(rest, j - 1);
    } else if j == 0 {
      assert rest[k - 1] == vs[k];
      OneGrown(rest, k - 1);
    } else {
      assert rest[k - 1] == vs[k] && rest[j - 1] == vs[j];
      TwoGrown(rest, k - 1, j - 1);
    }
  }

  twostate lemma OneBlockChanged(vs: seq<Vector>, new k: nat)
    requires k < |vs| && old(Apart(vs)) && forall i | 0 <= i < |vs| && i != k :: SameVector(vs[i])
    ensures Blocks(vs) == old(Blocks(vs)) - old(vs[k].Block()) + vs[k].Block()
  {
    forall b | b in old(Blocks(vs)) && b !in old(vs[k].Block()) ensures b in Blocks(vs) {
      var i :| 0 <= i < |vs| && old(vs[i].data) == b;
      assert vs[i].data == b;
    }
  }

  twostate lemma BlockHandedOver(vs: seq<Vector>, new k: nat, new j: nat)
    requires k < |vs| && j < |vs| && k != j && old(Apart(vs))
    requires vs[k].data == old(vs[j].data) && vs[j].data == null
    requires forall i | 0 <= i < |vs| && i != k && i != j :: SameVector(vs[i])
    ensures Blocks(vs) == old(Blocks(vs)) - old(vs[k].Block())
  {
    forall b | b in old(Blocks(vs)) && b !in old(vs[k].Block()) ensures b in Blocks(vs) {
      var i :| 0 <= i < |vs| && old(vs[i].data) == b;
      assert vs[if i == j then k else i].data == b;
    }
  }

  /** Every operation on one vector keeps the balance. */
  twostate lemma BalanceKept(vs: seq<Vector>, new k: nat)
    requires k < |vs| && old(Balanced(vs[k].alloc, vs))
    requires vs[k].Exchanged(vs[k].size - old(vs[k].size))
    requires forall i | 0 <= i < |vs| && i != k :: SameVector(vs[i])
    ensures Balanced(vs[k].alloc, vs)
  {
    OneGrown(vs, k);
    OneBlockChanged(vs, k);
    forall i | 0 <= i < |vs| && i != k && vs[i].data != null ensures vs[i].data != vs[k].data {
      assert old(vs[i].data) != old(vs[k].data);
    }
  }

  /** Move assignment from `vs[j]` to `vs[k]` does. */
  twostate lemma BalanceMoved(vs: seq<Vector>, new k: nat, new j: nat)
    requires k < |vs| && j < |vs| && k != j && old(Balanced(vs[k].alloc, vs))
    requires vs[k].alloc.objects == old(vs[k].alloc.objects) - old(vs[k].size)
    requires vs[k].alloc.blocks == old(vs[k].alloc.blocks) - old(vs[k].Block())
    requires vs[k].data == old(vs[j].data) && vs[k].size == old(vs[j].size) && vs[j].data == null && vs[j].size == 0
    requires forall i | 0 <= i < |vs| && i != k && i != j :: SameVector(vs[i])
    ensures Balanced(vs[k].alloc, vs)
  {
    TwoGrown(vs, k, j);
    BlockHandedOver(vs, k, j);
  }

  /** When every vector is gone, every object was destroyed and every block returned. */
  lemma {:induction false} NothingLeaks(a: Allocator, vs: seq<Vector>)
    requires Balanced(a, vs) && forall i | 0 <= i < |vs| :: vs[i].data == null && vs[i].size == 0
    ensures a.objects == 0 && a.blocks == {}
  {
    AllGone(vs);
  }

  lemma {:induction false} AllGone(vs: seq<Vector>)
    requires forall i | 0 <= i < |vs| :: vs[i].data == null && vs[i].size == 0
    ensures Sizes(vs) == 0
  {
    if vs != [] {
      AllGone(vs[1..]);
    }
  }

  // ----- A program over several vectors, against sequences

  /** An operation on one vector. */
  datatype Op = Push(v: Value) | Pop | Erase(off: nat) | Resize(n: nat, v: Value) | Reserve(n: nat) | Shrink | Destroy

  /** One step of a program: an operation, or an assignment from another vector or the same one. */
  datatype Step = On(k: nat, op: Op) | Copy(k: nat, j: nat) | Move(k: nat, j: nat)

  predicate LegalOp(s: seq<Value>, op: Op) {
    (op.Pop? ==> |s| > 0) && (op.Erase? ==> op.off < |s|)
  }

  /** What it means for the contents. */
  function AppliedOp(s: seq<Value>, op: Op): seq<Value>
    requires LegalOp(s, op)
  {
    match op
    case Push(v) => s + [v]
    case Pop => s[..|s| - 1]
    case Erase(off) => s[..off] + s[off + 1..]
    case Resize(n, v) => Resized(s, n, v)
    case Reserve(_) => s
    case Shrink => s
    case Destroy => []
  }

  predicate Legal(ss: seq<seq<Value>>, st: Step) {
    st.k < |ss| && if st.On? then LegalOp(ss[st.k], st.op) else st.j < |ss|
  }

  /** Assigning a vector to itself empties it, in both ways. */
  function Applied(ss: seq<seq<Value>>, st: Step): seq<seq<Value>>
    requires Legal(ss, st)
  {
    match st
    case On(k, op) => ss[k := AppliedOp(ss[k], op)]
    case Copy(k, j) => ss[k := if k == j then [] else ss[j]]
    case Move(k, j) => if k == j then ss[k := []] else ss[k := ss[j]][j := []]
  }

  predicate LegalRun(ss: seq<seq<Value>>, steps: seq<Step>)
    decreases |steps|
  {
    steps == [] || (Legal(ss, steps[0]) && LegalRun(Applied(ss, steps[0]), steps[1..]))
  }

  function AppliedRun(ss: seq<seq<Value>>, steps: seq<Step>): seq<seq<Value>>
    requires LegalRun(ss, steps)
    decreases |steps|
  {
    if steps == [] then ss else AppliedRun(Applied(ss, steps[0]), steps[1..])
  }

  /** The vectors are valid, balanced, and hold `ss`. */
  ghost predicate Represents(a: Allocator, vs: seq<Vector>, ss: seq<seq<Value>>)
    reads a, vs, Blocks(vs)
  {
    && Balanced(a, vs) && |ss| == |vs|
    && forall i | 0 <= i < |vs| :: Holds(a, vs, i, ss[i])
  }

  ghost predicate Holds(a: Allocator, vs: seq<Vector>, i: nat, s: seq<Value>)
    requires i < |vs|
    reads a, vs, vs[i].data
  {
    vs[i].alloc == a && vs[i].Valid() && vs[i].Contents() == s
  }

  /** The other vectors, their blocks included, are as they were. */
  twostate predicate Undisturbed(v: Vector)
    reads v, v.data
  {
    SameVector(v) && v.cap == old(v.cap) && (v.data != null ==> unchanged(v.data))
  }

  twostate lemma StillHolds(vs: seq<Vector>, new i: nat, new s: seq<Value>)
    requires i < |vs| && Undisturbed(vs[i]) && old(Holds(vs[i].alloc, vs, i, s))
    requires vs[i].data != null ==> vs[i].data in vs[i].alloc.blocks
    ensures Holds(vs[i].alloc, vs, i, s)
  {
  }

  /** An operation on one vector of a program. */
  twostate lemma OneVectorChanged(vs: seq<Vector>, new k: nat, new ss: seq<seq<Value>>, new s: seq<Value>)
    requires k < |vs| && old(Represents(vs[k].alloc, vs, ss))
    requires vs[k].Exchanged(vs[k].size - old(vs[k].size)) && Holds(vs[k].alloc, vs, k, s)
    requires forall i | 0 <= i < |vs| && i != k :: Undisturbed(vs[i])
    ensures Represents(vs[k].alloc, vs, ss[k := s])
  {
    BalanceKept(vs, k);
    forall i | 0 <= i < |vs| && i != k ensures Holds(vs[k].alloc, vs, i, ss[i]) {
      assert old(Holds(vs[k].alloc, vs, i, ss[i]));
      StillHolds(vs, i, ss[i]);
    }
  }

  method Operate(v: Vector, op: Op)
    requires v.Valid() && LegalOp(v.Contents(), op)
    modifies v, v.alloc, v.data
    ensures v.Valid() && v.Exchanged(v.size - old(v.size)) && v.Contents() == AppliedOp(old(v.Contents()), op)
  {
    match op {
      case Push(x) => v.PushBack(x);
      case Pop => v.PopBack();
      case Erase(off) => v.Erase(off);
      case Resize(n, x) => v.Resize(n, x);
      case Reserve(n) => v.Reserve(n);
      case Shrink => v.ShrinkToFit();
      case Destroy => v.Destroy();
    }
  }

  /** One step of a program over several vectors: each of them holds what the step makes of it, and no
      object and no block is lost or returned twice. */
  method Perform(a: Allocator, vs: seq<Vector>, st: Step, ghost ss: seq<seq<Value>>)
    requires Represents(a, vs, ss) && Legal(ss, st)
    modifies a, vs, Blocks(vs)
    ensures Represents(a, vs, Applied(ss, st)) && fresh(Blocks(vs) - old(Blocks(vs)))
  {
    assert Holds(a, vs, st.k, ss[st.k]);
    match st {
      case On(k, op) =>
        Operate(vs[k], op);
        OneVectorChanged(vs, k, ss, AppliedOp(ss[k], op));
      case Copy(k, j) =>
        assert Holds(a, vs, j, ss[j]);
        vs[k].Assign(vs[j]);
        OneVectorChanged(vs, k, ss, if k == j then [] else ss[j]);
      case Move(k, j) =>
        assert Holds(a, vs, j, ss[j]);
        vs[k].MoveAssign(vs[j]);
        if k == j {
          OneVectorChanged(vs, k, ss, []);
        } else {
          TwoVectorsChanged(vs, k, j, ss);
        }
    }
  }

  twostate lemma TwoVectorsChanged(vs: seq<Vector>, new k: nat, new j: nat, new ss: seq<seq<Value>>)
    requires k < |vs| && j < |vs| && k != j && old(Represents(vs[k].alloc, vs, ss))
    requires vs[k].alloc.objects == old(vs[k].alloc.objects) - old(vs[k].size)
    requires vs[k].alloc.blocks == old(vs[k].alloc.blocks) - old(vs[k].Block())
    requires vs[k].data == old(vs[j].data) && vs[k].size == old(vs[j].size) && vs[j].data == null && vs[j].size == 0
    requires Holds(vs[k].alloc, vs, k, ss[j]) && Holds(vs[k].alloc, vs, j, [])
    requires forall i | 0 <= i < |vs| && i != k && i != j :: Undisturbed(vs[i])
    ensures Represents(vs[k].alloc, vs, ss[k := ss[j]][j := []])
  {
    BalanceMoved(vs, k, j);
    forall i | 0 <= i < |vs| && i != k && i != j ensures Holds(vs[k].alloc, vs, i, ss[i]) {
      assert old(Holds(vs[k].alloc, vs, i, ss[i]));
      StillHolds(vs, i, ss[i]);
    }
  }

  /** A whole program: the vectors hold at the end what the steps make of what they held before. */
  method RunProgram(a: Allocator, vs: seq<Vector>, steps: seq<Step>, ghost ss: seq<seq<Value>>)
    requires Represents(a, vs, ss) && LegalRun(ss, steps)
    modifies a, vs, Blocks(vs)
    ensures Represents(a, vs, AppliedRun(ss, steps)) && fresh(Blocks(vs) - old(Blocks(vs)))
  {
    ghost var now := ss;
    for i := 0 to |steps|
      invariant Represents(a, vs, now) && fresh(Blocks(vs) - old(Blocks(vs)))
      invariant LegalRun(now, steps[i..]) && AppliedRun(now, steps[i..]) == AppliedRun(ss, steps)
    {
      assert steps[i..][0] == steps[i] && steps[i..][1..] == steps[i + 1..];
      Perform(a, vs, steps[i], now);
      now := Applied(now, steps[i]);
    }
  }

  function Empties(n: nat): seq<seq<Value>> {
    seq(n, _ => [])
  }

  method NewVectors(n: nat) returns (a: Allocator, vs: seq<Vector>)
    ensures fresh(a) && fresh(set v | v in vs) && Blocks(vs) == {}
    ensures Represents(a, vs, Empties(n))
  {
    a := new Allocator();
    vs := [];
    for i := 0 to n
      invariant fresh(a) && fresh(set v | v in vs) && |vs| == i
      invariant a.blocks == {} && a.objects == 0
      invariant forall j | 0 <= j < i :: vs[j].alloc == a && vs[j].data == null && vs[j].size == 0 && vs[j].cap == 0
      invariant forall j, k | 0 <= j < i && 0 <= k < i && j != k :: vs[j] != vs[k]
    {
      var v := new Vector(a);
      vs := vs + [v];
    }
    AllGone(vs);
    assert Blocks(vs) == {};
  }

  /** The destruction of all vectors of a program: every object was destroyed and every block returned. */
  method DestroyAll(a: Allocator, vs: seq<Vector>, ghost ss: seq<seq<Value>>)
    requires Represents(a, vs, ss)
    modifies a, vs, Blocks(vs)
    ensures a.objects == 0 && a.blocks == {}
  {
    ghost var rest := ss;
    for i := 0 to |vs|
      invariant Represents(a, vs, rest) && fresh(Blocks(vs) - old(Blocks(vs)))
      invariant forall j | 0 <= j < i :: vs[j].data == null && vs[j].size == 0
    {
      label Before:
      assert Holds(a, vs, i, rest[i]);
      vs[i].Destroy();
      OneVectorChanged@Before(vs, i, rest, []);
      rest := rest[i := []];
    }
    NothingLeaks(a, vs);
  }

  /** From new vectors to their destruction, whatever happens in between. */
  method RunFromStartToEnd(n: nat, steps: seq<Step>) returns (a: Allocator)
    requires LegalRun(Empties(n), steps)
    ensures a.objects == 0 && a.blocks == {}
  {
    var vs;
    a, vs := NewVectors(n);
    RunProgram(a, vs, steps, Empties(n));
    DestroyAll(a, vs, AppliedRun(Empties(n), steps));
  }

  // ----- The cost of growing

  /** Size, capacity and moves so far of a vector that is only pushed to. */
  datatype Growth = Growth(size: nat, cap: nat, moves: nat) {
    /** What `push_back` does to them. */
    function Pushed(): Growth {
      Growth(size + 1, Grown(cap, size + 1), moves + if size < cap then 0 else size)
    }
  }

  function PushedTimes(g: Growth, n: nat): Growth {
    if n == 0 then g else PushedTimes(g, n - 1).Pushed()
  }

  /** Appending `n` objects to an empty vector moves fewer than `2 * n` objects in all. */
  lemma {:induction false} GrowingIsLinear(n: nat, moves: nat)
    requires n > 0
    ensures PushedTimes(Growth(0, 0, moves), n).moves - moves < 2 * n
  {
    GrowthInvariant(n, moves);
  }

  lemma {:induction false} GrowthInvariant(n: nat, moves: nat)
    requires n > 0
    ensures var g := PushedTimes(Growth(0, 0, moves), n);
      g.size == n && g.moves - moves < g.cap && n <= g.cap && g.cap < 2 * n
  {
    if n == 1 {
      assert PushedTimes(Growth(0, 0, moves), 0) == Growth(0, 0, moves);
    } else {
      GrowthInvariant(n - 1, moves);
    }
  }

  method PushNext(v: Vector, x: Value, ghost start: Growth, ghost n: nat)
    requires v.Valid() && Growth(v.size, v.cap, v.alloc.moves) == PushedTimes(start, n)
    modifies v, v.alloc, v.data
    ensures v.Valid() && v.Exchanged(1) && v.Contents() == old(v.Contents()) + [x]
    ensures Growth(v.size, v.cap, v.alloc.moves) == PushedTimes(start, n + 1)
  {
    v.PushBack(x);
  }

  /** `push_back` of one value after another; on a new vector fewer than two moves a value. */
  method AppendAll(v: Vector, xs: seq<Value>)
    requires v.Valid()
    modifies v, v.alloc, v.data
    ensures v.Valid() && v.Exchanged(|xs|) && v.Contents() == old(v.Contents()) + xs
    ensures old(v.data) == null && xs != [] ==> v.alloc.moves - old(v.alloc.moves) < 2 * |xs|
  {
    ghost var start, held := Growth(v.size, v.cap, v.alloc.moves), v.Contents();
    for i := 0 to |xs|
      invariant v.Valid() && v.Exchanged(i) && v.Contents() == held + xs[..i]
      invariant Growth(v.size, v.cap, v.alloc.moves) == PushedTimes(start, i)
    {
      PushNext(v, xs[i], start, i);
      assert held + xs[..i] + [xs[i]] == held + xs[..i + 1];
    }
    assert held + xs[..|xs|] == held + xs;
    if xs != [] {
      GrowingIsLinear(|xs|, start.moves);
    }
  }
}
