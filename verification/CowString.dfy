/** Copy-on-write strings: handles that share reference-counted buffers. */
module CowString {
  import opened Common
  import opened CharTraits

  const MAX_SIZE: nat := 4611686018427387897   // _S_max_size with a 64-bit size_t and one-byte characters
  const REP_SIZE := 24
  const PAGE_SIZE := 4096
  const MALLOC_HEADER := 32

  /** The capacity `_S_create` settles on: at least double when growing, and rounded up to whole pages. */
  function CreatedCapacity(requested: nat, current: nat): (c: nat)
    requires requested <= MAX_SIZE
    ensures requested <= c <= MAX_SIZE
    ensures requested > current ==> c >= 2 * current || c == MAX_SIZE
    ensures c <= (if requested < 2 * current then 2 * current else requested) + PAGE_SIZE
  {
    var c := if current < requested < 2 * current then 2 * current else requested;
    var adjusted := c + 1 + REP_SIZE + MALLOC_HEADER;
    if adjusted > PAGE_SIZE && c > current then
      var rounded := c + (PAGE_SIZE - adjusted % PAGE_SIZE);
      if rounded > MAX_SIZE then MAX_SIZE else rounded
    else c
  }

  /** A buffer that grows beyond a page fills whole pages, with its header and that of the allocation. */
  lemma GrownToWholePages(requested: nat, current: nat)
    requires requested <= MAX_SIZE
    ensures var c := CreatedCapacity(requested, current);
      var wanted := if current < requested < 2 * current then 2 * current else requested;
      if wanted <= current || wanted + 1 + REP_SIZE + MALLOC_HEADER <= PAGE_SIZE then c == wanted
      else c == MAX_SIZE || (wanted < c <= wanted + PAGE_SIZE && (c + 1 + REP_SIZE + MALLOC_HEADER) % PAGE_SIZE == 0)
  {
  }

  /** How a call ends: normally, with an exception, or not at all because a copy never ends. */
  datatype Outcome = Done | LengthError | RangeError | NeverReturns

  /** What it takes to create a buffer for `size` characters and to copy `copied` characters into it. */
  function Creating(size: nat, copied: nat): Outcome {
    if size > MAX_SIZE then LengthError else if copied < UINT_VALUES then Done else NeverReturns
  }

  /** `_Rep`: one buffer.  `handles` are the strings that use it, `destroyed` counts its deallocations. */
  class Rep {
    var length: nat
    const capacity: nat
    var refcount: int
    const data: array<Char>
    ghost var handles: set<Text>
    ghost var destroyed: nat

    /** `_S_create`; the contents and the length are still unset. */
    constructor Create(requested: nat, current: nat)
      requires requested <= MAX_SIZE
      ensures capacity == CreatedCapacity(requested, current) && refcount == 0 && length == 0
      ensures fresh(data) && data.Length == capacity + 1
      ensures handles == {} && destroyed == 0
    {
      capacity := CreatedCapacity(requested, current);
      data := new Char[CreatedCapacity(requested, current) + 1];
      length, refcount, handles, destroyed := 0, 0, {}, 0;
    }

    /** The storage of `_S_empty_rep`. */
    constructor Empty()
      ensures capacity == 0 && refcount == 0 && length == 0 && handles == {} && destroyed == 0
      ensures fresh(data) && data.Length == 1 && data[0] == 0
    {
      data := new Char[1](_ => 0);
      capacity, length, refcount, handles, destroyed := 0, 0, 0, {}, 0;
    }
  }

  /** `basic_string`: a handle on a buffer. */
  class Text {
    var rep: Rep

    constructor (rep: Rep)
      ensures this.rep == rep
    {
      this.rep := rep;
    }

    ghost function Value(): seq<Char>
      reads this, rep, rep.data
      requires rep.length <= rep.data.Length
    {
      rep.data[..rep.length]
    }
  }

  /** All strings of the program and all buffers ever created. */
  class Heap {
    ghost var texts: set<Text>
    ghost var reps: set<Rep>
    const empty: Rep

    ghost predicate RepOk(r: Rep)
      reads this, r, r.data, texts
    {
      && r.capacity <= MAX_SIZE && r.data.Length == r.capacity + 1 && r.length <= r.capacity
      && (forall s | s in r.handles :: s in texts && s.rep == r)
      && if r == empty then
           r.length == 0 && r.capacity == 0 && r.refcount == 0 && r.destroyed == 0 && r.data[0] == 0
         else if r.handles == {} then
           r.destroyed == 1
         else
           r.destroyed == 0 && r.refcount == |r.handles| - 1 && r.data[r.length] == 0
    }

    ghost predicate Valid()
      reads this, texts, reps, set r | r in reps :: r.data
    {
      && empty in reps
      && (forall r | r in reps :: RepOk(r))
      && (forall s | s in texts :: s.rep in reps && s in s.rep.handles)
      && (forall r, q | r in reps && q in reps && r != q :: r.data != q.data)
    }

    constructor ()
      ensures Valid() && texts == {} && reps == {empty}
    {
      empty := new Rep.Empty();
      texts := {};
      new;
      reps := {empty};
    }

    /** Everything a call may write besides the handle it works on. */
    ghost function Footprint(): set<object>
      reads this, reps
    {
      reps + set r | r in reps :: r.data
    }

    /** A call works on `s` alone: no other string can tell that it happened. */
    twostate predicate OthersKept(new s: Text)
      reads *
    {
      forall t | t in old(texts) && t != s ::
        t in texts && t.rep.length <= t.rep.data.Length && old(t.rep.length <= t.rep.data.Length)
        && t.Value() == old(t.Value())
    }

    twostate predicate SameRep(r: Rep)
      reads r
    {
      && r.length == old(r.length) && r.refcount == old(r.refcount)
      && r.handles == old(r.handles) && r.destroyed == old(r.destroyed)
    }

    /** All strings and all buffers are as before. */
    twostate predicate NothingChanged()
      reads *
    {
      && texts == old(texts) && reps == old(reps) && (forall t | t in texts :: t.rep == old(t.rep))
      && (forall r | r in reps :: SameRep(r) && unchanged(r.data))
    }

    twostate lemma NothingChangedKeepsValid(s: Text)
      requires old(Valid()) && s in old(texts) && NothingChanged()
      ensures Valid() && OthersKept(s) && s.Value() == old(s.Value())
    {
      forall r | r in reps ensures RepOk(r) {
        assert old(RepOk(r));
      }
      forall t | t in texts ensures t.rep in reps && t in t.rep.handles && t.Value() == old(t.Value()) {
        assert old(t.rep in reps && t in t.rep.handles);
      }
    }

    /** The contents of the buffer of `s`, and of no other, differ from before. */
    twostate predicate OnlyBufferChanged(s: Text)
      requires s in old(texts)
      reads *
    {
      && texts == old(texts) && reps == old(reps) && s.rep == old(s.rep)
      && (forall t | t in texts :: t.rep == old(t.rep))
      && (forall r | r in reps && r != s.rep :: SameRep(r) && unchanged(r.data))
      && s.rep.handles == old(s.rep.handles) && s.rep.destroyed == old(s.rep.destroyed)
    }

    twostate lemma BufferChangeKeepsValid(s: Text)
      requires old(Valid()) && s in old(texts) && OnlyBufferChanged(s)
      requires s.rep != empty && s.rep.handles == {s} && s.rep.refcount == 0
      requires s.rep.length <= s.rep.capacity && s.rep.data[s.rep.length] == 0
      ensures Valid() && OthersKept(s)
    {
    }

    /** `s` left the buffer `p` for the buffer `r`, which is new or already in use by other strings. */
    twostate predicate Switched(s: Text, new p: Rep, new r: Rep)
      requires s in old(texts)
      reads *
    {
      && texts == old(texts) && reps == old(reps) + {r} && p == old(s.rep) && p != r && s.rep == r
      && (forall t | t in texts && t != s :: t.rep == old(t.rep))
      && (forall q | q in old(reps) && q != p && q != r :: SameRep(q))
      && (forall q | q in old(reps) :: unchanged(q.data))
      && Left(p, s) && Joined(r, s)
    }

    twostate predicate Left(new p: Rep, new s: Text)
      reads this, p
    {
      && p in old(reps) && p.handles == old(p.handles) - {s} && p.length == old(p.length)
      && if p == empty then p.refcount == old(p.refcount) && p.destroyed == old(p.destroyed)
         else p.refcount == old(p.refcount) - 1
              && p.destroyed == old(p.destroyed) + (if old(p.refcount) <= 0 then 1 else 0)
    }

    twostate predicate Joined(new r: Rep, new s: Text)
      reads this, r, r.data
    {
      if r in old(reps) then
        && r.handles == old(r.handles) + {s} && s !in old(r.handles)
        && r.length == old(r.length) && r.destroyed == old(r.destroyed)
        && if r == empty then r.refcount == old(r.refcount)
           else old(r.handles) != {} && r.refcount == old(r.refcount) + 1
      else
        && fresh(r) && fresh(r.data) && r.handles == {s} && r.refcount == 0 && r.destroyed == 0
        && r.capacity <= MAX_SIZE && r.data.Length == r.capacity + 1 && r.length <= r.capacity && r.data[r.length] == 0
    }

    twostate lemma SwitchKeepsValid(s: Text, new p: Rep, new r: Rep)
      requires old(Valid()) && s in old(texts) && Switched(s, p, r)
      ensures Valid() && OthersKept(s)
    {
      SwitchedRepsOk(s, p, r);
      OtherRepsOk(s, p, r);
      OtherTextsKept(s, p, r);
      BuffersDistinct(s, p, r);
    }

    twostate lemma SwitchedRepsOk(s: Text, new p: Rep, new r: Rep)
      requires old(Valid()) && s in old(texts) && Switched(s, p, r)
      ensures RepOk(p) && RepOk(r)
    {
      assert old(RepOk(p) && s in p.handles);
      LeftRepOk(s, p);
      if r in old(reps) {
        assert old(RepOk(r));
      }
      JoinedRepOk(s, r);
    }

    twostate lemma OtherRepsOk(s: Text, new p: Rep, new r: Rep)
      requires old(Valid()) && s in old(texts) && Switched(s, p, r)
      ensures forall q | q in reps && q != p && q != r :: RepOk(q)
    {
      forall q | q in reps && q != p && q != r ensures RepOk(q) {
        assert old(RepOk(q));
      }
    }

    twostate lemma OtherTextsKept(s: Text, new p: Rep, new r: Rep)
      requires old(Valid()) && s in old(texts) && Switched(s, p, r)
      ensures forall t | t in texts :: t.rep in reps && t in t.rep.handles
      ensures OthersKept(s)
    {
      forall t | t in texts && t != s
        ensures t.rep in old(reps) && t in t.rep.handles
        ensures t.rep.length <= t.rep.data.Length && old(t.rep.length <= t.rep.data.Length)
        ensures t.Value() == old(t.Value())
      {
        assert old(t.rep in reps && t in t.rep.handles && RepOk(t.rep));
      }
    }

    twostate lemma SwitchedBuffersKept(s: Text, new p: Rep, new r: Rep)
      requires s in old(texts) && p in old(reps) && Switched(s, p, r) && fresh(r)
      ensures forall q | q in old(reps) :: q.length == old(q.length)
    {
    }

    twostate lemma BuffersDistinct(s: Text, new p: Rep, new r: Rep)
      requires old(Valid()) && s in old(texts) && Switched(s, p, r)
      ensures empty in reps && forall q, x | q in reps && x in reps && q != x :: q.data != x.data
    {
    }

    twostate lemma LeftRepOk(new s: Text, new p: Rep)
      requires p in old(reps) && old(RepOk(p)) && s in old(p.handles) && Left(p, s) && unchanged(p.data)
      requires forall u | u in old(p.handles) && u != s :: u in texts && u.rep == old(u.rep)
      ensures RepOk(p)
    {
      assert |old(p.handles) - {s}| == |old(p.handles)| - 1;
    }

    twostate lemma JoinedRepOk(new s: Text, new r: Rep)
      requires Joined(r, s) && s in texts && s.rep == r
      requires r in old(reps) ==> old(RepOk(r)) && unchanged(r.data)
      requires r in old(reps) ==> forall u | u in old(r.handles) :: u in texts && u.rep == old(u.rep)
      requires r == empty ==> r in old(reps)
      ensures RepOk(r)
    {
      if r in old(reps) {
        assert |old(r.handles) + {s}| == |old(r.handles)| + 1;
      }
    }

    /** A new string `t` uses `r`. */
    twostate predicate Added(new t: Text, new r: Rep)
      reads *
    {
      && fresh(t) && texts == old(texts) + {t} && t.rep == r && reps == old(reps) + {r} && Joined(r, t)
      && (forall u | u in old(texts) :: u.rep == old(u.rep))
      && (forall q | q in old(reps) && q != r :: SameRep(q))
      && (forall q | q in old(reps) :: unchanged(q.data))
    }

    twostate lemma AddKeepsValid(new t: Text, new r: Rep)
      requires old(Valid()) && Added(t, r)
      ensures Valid() && OthersKept(t)
    {
      AddedRepsOk(t, r);
      AddedTextsOk(t, r);
      AddedBuffersDistinct(t, r);
    }

    twostate lemma AddedBuffersDistinct(new t: Text, new r: Rep)
      requires old(Valid()) && Added(t, r)
      ensures empty in reps && forall q, x | q in reps && x in reps && q != x :: q.data != x.data
    {
    }

    twostate lemma AddedRepsOk(new t: Text, new r: Rep)
      requires old(Valid()) && Added(t, r)
      ensures forall q | q in reps :: RepOk(q)
    {
      if r in old(reps) {
        assert old(RepOk(r));
      }
      JoinedRepOk(t, r);
      forall q | q in reps && q != r ensures RepOk(q) {
        assert old(RepOk(q));
      }
    }

    twostate lemma AddedTextsOk(new t: Text, new r: Rep)
      requires old(Valid()) && Added(t, r)
      ensures forall u | u in texts :: u.rep in reps && u in u.rep.handles
      ensures OthersKept(t)
    {
      forall u | u in old(texts)
        ensures u.rep in reps && u in u.rep.handles
        ensures u.rep.length <= u.rep.data.Length && old(u.rep.length <= u.rep.data.Length)
        ensures u.Value() == old(u.Value())
      {
        assert old(u.rep in reps && u in u.rep.handles && RepOk(u.rep));
      }
    }

    /** The string `t`, which used `p`, is gone. */
    twostate predicate Removed(t: Text, new p: Rep)
      reads *
    {
      && t in old(texts) && texts == old(texts) - {t} && p == old(t.rep) && reps == old(reps) && Left(p, t)
      && (forall u | u in texts :: u.rep == old(u.rep))
      && (forall q | q in reps && q != p :: SameRep(q))
      && (forall q | q in reps :: unchanged(q.data))
    }

    twostate lemma RemoveKeepsValid(t: Text, new p: Rep)
      requires old(Valid()) && Removed(t, p)
      ensures Valid()
      ensures forall u | u in texts :: u.Value() == old(u.Value())
    {
      assert old(RepOk(p) && t in p.handles);
      LeftRepOk(t, p);
      forall q | q in reps && q != p ensures RepOk(q) {
        assert old(RepOk(q));
      }
      forall u | u in texts
        ensures u.rep in reps && u in u.rep.handles
        ensures u.rep.length <= u.rep.data.Length && u.Value() == old(u.Value())
      {
        assert old(u.rep in reps && u in u.rep.handles && RepOk(u.rep));
      }
    }

    // ----- The operations of the buffers

    /** `_M_dispose`, and with it `_M_destroy`. */
    method Dispose(r: Rep)
      modifies r`refcount, r`destroyed
      ensures if r == empty then unchanged(r)
              else
                && r.refcount == old(r.refcount) - 1
                && r.destroyed == old(r.destroyed) + (if old(r.refcount) <= 0 then 1 else 0)
    {
      if r != empty {
        var before := r.refcount;
        r.refcount := r.refcount - 1;
        if before <= 0 {
          r.destroyed := r.destroyed + 1;
        }
      }
    }

    /** `_M_refcopy` */
    method RefCopy(r: Rep)
      modifies r`refcount
      ensures r.refcount == old(r.refcount) + (if r == empty then 0 else 1)
    {
      if r != empty {
        r.refcount := r.refcount + 1;
      }
    }

    /** `_M_set_length_and_sharable` */
    method SetLengthAndSharable(r: Rep, n: nat)
      requires r != empty ==> n < r.data.Length
      modifies r`refcount, r`length, r.data
      ensures if r == empty then unchanged(r) && unchanged(r.data)
              else r.refcount == 0 && r.length == n && r.data[..] == old(r.data[..])[n := 0]
    {
      if r != empty {
        r.refcount := 0;
        r.length := n;
        r.data[n] := 0;
      }
    }

    /** `_M_clone`: a new buffer with the same text and room for `extra` characters more. */
    method Clone(r: Rep, extra: nat) returns (outcome: Outcome, c: Rep?)
      requires r.length <= r.capacity && r.data.Length == r.capacity + 1
      ensures outcome == Creating(r.length + extra, r.length)
      ensures c != null <==> outcome == Done
      ensures c != null ==> fresh(c) && fresh(c.data) && c.handles == {} && c.destroyed == 0 && c.refcount == 0
      ensures c != null ==> r.length + extra <= c.capacity <= MAX_SIZE && c.data.Length == c.capacity + 1
      ensures c != null ==> c.length == r.length && c.data[c.length] == 0 && c.data[..c.length] == r.data[..r.length]
    {
      var requested := r.length + extra;
      if requested > MAX_SIZE {
        return LengthError, null;
      }
      c := new Rep.Create(requested, r.capacity);
      if r.length > 0 {
        var ends := CopyChars(c.data, 0, r.data, 0, r.length);
        if !ends {
          return NeverReturns, null;
        }
      }
      c.refcount := 0;
      c.length := r.length;
      c.data[c.length] := 0;
      outcome := Done;
    }

    /** `s` gives up its buffer and uses `r`, which has already counted it. */
    method Switch(s: Text, r: Rep)
      requires s.rep != r
      modifies s, s.rep, r`handles
      ensures s.rep == r && r.handles == old(r.handles) + {s}
      ensures var p := old(s.rep);
        && p.handles == old(p.handles) - {s}
        && p.length == old(p.length)
        && if p == empty then p.refcount == old(p.refcount) && p.destroyed == old(p.destroyed)
           else p.refcount == old(p.refcount) - 1
                && p.destroyed == old(p.destroyed) + (if old(p.refcount) <= 0 then 1 else 0)
    {
      var p := s.rep;
      Dispose(p);
      s.rep := r;
      p.handles := p.handles - {s};
      r.handles := r.handles + {s};
    }

    // ----- The operations of the strings

    /** `assign(const basic_string&)` and copy assignment: afterwards both share one buffer. */
    method Assign(s: Text, t: Text)
      requires Valid() && s in texts && t in texts
      modifies s, Footprint()
      ensures Valid() && OthersKept(s) && texts == old(texts) && reps == old(reps)
      ensures s.Value() == old(t.Value()) && s.rep == t.rep
    {
      if s.rep != t.rep {
        ghost var p := s.rep;
        var r := t.rep;
        RepFacts(s);
        RepFacts(t);
        RefCopy(r);
        Switch(s, r);
        SwitchKeepsValid(s, p, r);
      }
    }

    lemma RepFacts(t: Text)
      requires Valid() && t in texts
      ensures t.rep in reps && t in t.rep.handles && RepOk(t.rep)
      ensures t.rep != empty ==> t.rep.refcount == |t.rep.handles| - 1 >= 0
      ensures t.rep != empty && t.rep.refcount == 0 ==> t.rep.handles == {t}
    {
      if t.rep != empty && t.rep.refcount == 0 {
        assert |t.rep.handles - {t}| == 0;
        assert t.rep.handles == {t} + (t.rep.handles - {t});
      }
    }

    /** Moves `s` to a clone of its buffer. */
    method Unshare(s: Text, extra: nat) returns (outcome: Outcome)
      requires Valid() && s in texts
      modifies this, s, s.rep
      ensures Valid() && OthersKept(s) && texts == old(texts)
      ensures outcome == Creating(old(s.rep.length) + extra, old(s.rep.length))
      ensures outcome != Done ==> s.rep == old(s.rep) && reps == old(reps)
      ensures outcome == Done ==> fresh(s.rep) && fresh(s.rep.data) && reps == old(reps) + {s.rep}
      ensures outcome == Done ==>
        s.rep.capacity >= old(s.rep.length) + extra && s.rep.refcount == 0 && s.rep != empty
      ensures s.Value() == old(s.Value()) && s.rep.length == old(s.rep.length)
      ensures forall r | r in old(reps) :: r.length == old(r.length)
    {
      assert RepOk(s.rep);
      outcome := CloneAndSwitch(s, extra);
      if outcome == Done {
        SwitchKeepsValid(s, old(s.rep), s.rep);
        SwitchedBuffersKept(s, old(s.rep), s.rep);
      } else {
        NothingChangedKeepsValid(s);
      }
    }

    /** What reserve does with `_M_clone`, `_M_dispose` and `_M_data`. */
    method CloneAndSwitch(s: Text, extra: nat) returns (outcome: Outcome)
      requires s in texts && s.rep in reps && s.rep.length <= s.rep.capacity && s.rep.data.Length == s.rep.capacity + 1
      modifies this`reps, s, s.rep
      ensures outcome == Creating(old(s.rep.length) + extra, old(s.rep.length))
      ensures outcome == Done ==> fresh(s.rep) && fresh(s.rep.data) && Switched(s, old(s.rep), s.rep)
      ensures outcome != Done ==> NothingChanged()
      ensures outcome == Done ==>
        s.rep.length == old(s.rep.length) && s.rep.data[..s.rep.length] == old(s.rep.data[..s.rep.length])
      ensures outcome == Done ==> s.rep.capacity >= old(s.rep.length) + extra
    {
      var r;
      outcome, r := Clone(s.rep, extra);
      if r != null {
        Switch(s, r);
        reps := reps + {r};
      }
    }

    /** `reserve`: afterwards `s` has a buffer of its own, or the empty one if nothing was asked for. */
    method Reserve(s: Text, wanted: nat) returns (outcome: Outcome)
      requires Valid() && s in texts
      modifies this, s, s.rep
      ensures Valid() && OthersKept(s) && texts == old(texts)
      ensures s.Value() == old(s.Value()) && s.rep.length == old(s.rep.length)
      ensures outcome == if wanted == old(s.rep.capacity) && old(s.rep.refcount) <= 0 then Done
                         else Creating(wanted, old(s.rep.length))
      ensures if s.rep == old(s.rep) then reps == old(reps)
              else fresh(s.rep) && fresh(s.rep.data) && reps == old(reps) + {s.rep}
      ensures outcome != Done ==> s.rep == old(s.rep)
      ensures outcome == Done ==> s.rep.capacity >= wanted && s.rep.refcount == 0 && (s.rep == empty ==> wanted == 0)
      ensures forall r | r in old(reps) :: r.length == old(r.length)
    {
      RepFacts(s);
      outcome := Done;
      if wanted != s.rep.capacity || s.rep.refcount > 0 {
        var room := if wanted < s.rep.length then s.rep.length else wanted;
        outcome := Unshare(s, room - s.rep.length);
      }
    }

    /** Copies `n` characters behind the text and makes them part of it. */
    method ExtendFrom(r: Rep, src: array<Char>, off: nat, n: nat) returns (ends: bool)
      requires r != empty && r.length + n <= r.capacity && r.data.Length == r.capacity + 1
      requires off + n <= src.Length && (src == r.data ==> off + n <= r.length + 1)
      modifies r`length, r`refcount, r.data
      ensures ends <==> n < UINT_VALUES
      ensures ends ==> r.length == old(r.length) + n && r.refcount == 0 && r.data[r.length] == 0
      ensures ends ==>
        var arriving := Received(old(src[off..off + n]), src == r.data && off + n == old(r.length) + 1);
        r.data[..r.length] == old(r.data[..r.length]) + arriving
    {
      var d := r.length;
      if src == r.data {
        if off + n <= d {
          SelfCopyIsPlain(r.data[..], d, off, n);
        } else if n > 0 {
          SelfCopyByOne(r.data[..], d, off, n);
        }
      }
      ends := CopyChars(r.data, d, src, off, n);
      if ends {
        SetLengthAndSharable(r, d + n);
      }
    }

    /** What arrives when `cs` is copied: a copy that reads the terminator of its own target sees the
        first character there instead. */
    static function Received(cs: seq<Char>, throughTerminator: bool): (r: seq<Char>)
      ensures |r| == |cs|
    {
      if throughTerminator && cs != [] then cs[..|cs| - 1] + [cs[0]] else cs
    }

    /** What the copy of `n` characters from `src` delivers to `s`. */
    ghost function Arriving(s: Text, src: array<Char>, off: nat, n: nat): seq<Char>
      requires off + n <= src.Length
      reads s, s.rep, src
    {
      Received(src[off..off + n], src == s.rep.data && off + n == s.rep.length + 1)
    }

    /** The common end of the appends: the buffer of `s` is its own and large enough. */
    method AppendInPlace(s: Text, src: array<Char>, off: nat, n: nat) returns (ends: bool)
      requires Valid() && s in texts && s.rep != empty && s.rep.refcount == 0
      requires s.rep.length + n <= s.rep.capacity
      requires off + n <= src.Length && (src == s.rep.data ==> off + n <= s.rep.length + 1)
      modifies s.rep, s.rep.data
      ensures ends <==> n < UINT_VALUES
      ensures ends ==> Valid() && OthersKept(s) && texts == old(texts) && s.rep == old(s.rep)
      ensures ends ==> s.Value() == old(s.Value()) + old(Arriving(s, src, off, n))
    {
      RepFacts(s);
      ends := ExtendFrom(s.rep, src, off, n);
      if ends {
        BufferChangeKeepsValid(s);
      }
    }

    /** Whether the buffer of `s` is its own and has room for `len` characters, or what getting one takes. */
    ghost function Room(s: Text, len: nat): Outcome
      reads s, s.rep
    {
      if len <= s.rep.capacity && s.rep.refcount <= 0 then Done else Creating(len, s.rep.length)
    }

    /** `s` uses the buffer it used, or a new one. */
    twostate predicate SameOrNewBuffer(s: Text)
      reads s, s.rep
    {
      s.rep == old(s.rep) || (fresh(s.rep) && fresh(s.rep.data))
    }

    /** What every append does first: reserve unless the buffer of `s` is its own and large enough. */
    method MakeRoom(s: Text, len: nat) returns (outcome: Outcome)
      requires Valid() && s in texts && len > 0
      modifies this, s, s.rep
      ensures Valid() && OthersKept(s) && texts == old(texts) && reps == old(reps) + {s.rep}
      ensures outcome == old(Room(s, len))
      ensures s.Value() == old(s.Value()) && s.rep.length == old(s.rep.length)
      ensures s.rep.data[..s.rep.length + 1] == old(s.rep.data[..s.rep.length + 1])
      ensures SameOrNewBuffer(s)
      ensures outcome == Done ==> s.rep.capacity >= len && s.rep.refcount == 0 && s.rep != empty
    {
      RepFacts(s);
      assert s.rep.data[..s.rep.length + 1] == s.Value() + [0];
      outcome := Done;
      if len > s.rep.capacity || s.rep.refcount > 0 {
        outcome := Reserve(s, len);
        RepFacts(s);
      }
      assert s.rep.data[..s.rep.length + 1] == s.Value() + [0];
    }

    /** MakeRoom, keeping track of a source that may move with the buffer of `s`. */
    method MakeRoomFor(s: Text, len: nat, src: array<Char>, off: nat, n: nat) returns (ok: bool, from: array<Char>)
      requires Valid() && s in texts && 0 < len <= MAX_SIZE && off + n <= src.Length
      requires src == s.rep.data ==> off + n <= s.rep.length + 1
      modifies this, s, s.rep
      ensures Valid() && OthersKept(s) && texts == old(texts) && reps == old(reps) + {s.rep}
      ensures s.Value() == old(s.Value()) && s.rep.length == old(s.rep.length)
      ensures ok <==> old(Room(s, len)) == Done
      ensures ok ==> s.rep.capacity >= len && s.rep.refcount == 0 && s.rep != empty
      ensures SameOrNewBuffer(s)
      ensures (from == s.rep.data <==> src == old(s.rep.data)) && off + n <= from.Length
      ensures Arriving(s, from, off, n) == old(Arriving(s, src, off, n))
    {
      RepFacts(s);
      var own := src == s.rep.data;
      var outcome := MakeRoom(s, len);
      ok := outcome == Done;
      RepFacts(s);
      from := if own then s.rep.data else src;
      if own {
        SliceOfSlice(from[..], s.rep.length + 1, off, off + n);
        SliceOfSlice(old(src[..]), old(s.rep.length) + 1, off, off + n);
      }
    }

    method AppendSome(s: Text, src: array<Char>, off: nat, n: nat) returns (ends: bool)
      requires Valid() && s in texts && n > 0 && s.rep.length + n <= MAX_SIZE && off + n <= src.Length
      requires src == s.rep.data ==> off + n <= s.rep.length + 1
      modifies this, s, s.rep, s.rep.data
      ensures ends <==> old(Room(s, s.rep.length + n)) == Done && n < UINT_VALUES
      ensures ends ==> Valid() && OthersKept(s) && texts == old(texts) && reps == old(reps) + {s.rep}
      ensures ends ==> SameOrNewBuffer(s)
      ensures ends ==> s.Value() == old(s.Value()) + old(Arriving(s, src, off, n))
    {
      var from;
      ends, from := MakeRoomFor(s, n + s.rep.length, src, off, n);
      if ends {
        ends := AppendInPlace(s, from, off, n);
      }
    }

    /** How appending `n` characters to `s` ends when `copied` of them are copied. */
    ghost function Appending(s: Text, n: nat, copied: nat): Outcome
      reads s, s.rep
    {
      if n == 0 then Done
      else if s.rep.length + n > MAX_SIZE then LengthError
      else if copied >= UINT_VALUES then NeverReturns
      else Room(s, s.rep.length + n)
    }

    /** `append(const Char_t*, size_type)`: the source may lie in any buffer, including that of `s`, up to
        and including its terminator.  The length error changes nothing. */
    method AppendChars(s: Text, src: array<Char>, off: nat, n: nat) returns (outcome: Outcome)
      requires Valid() && s in texts && off + n <= src.Length
      requires src == s.rep.data ==> off + n <= s.rep.length + 1
      modifies this, s, s.rep, s.rep.data
      ensures outcome == old(Appending(s, n, n))
      ensures outcome != NeverReturns ==> Valid() && OthersKept(s) && texts == old(texts)
      ensures outcome != NeverReturns ==> reps == old(reps) + {s.rep} && SameOrNewBuffer(s)
      ensures outcome != NeverReturns ==>
        s.Value() == old(s.Value()) + if outcome == Done then old(Arriving(s, src, off, n)) else []
    {
      if n == 0 {
        return Done;
      }
      RepFacts(s);
      if MAX_SIZE - s.rep.length < n {
        return LengthError;
      }
      var ends := AppendSome(s, src, off, n);
      outcome := if ends then Done else NeverReturns;
    }

    /** MakeRoom when `t`, possibly `s` itself, is read afterwards. */
    method MakeRoomForText(s: Text, t: Text, len: nat) returns (outcome: Outcome)
      requires Valid() && s in texts && t in texts && len > 0
      modifies this, s, s.rep
      ensures Valid() && OthersKept(s) && texts == old(texts) && reps == old(reps) + {s.rep}
      ensures outcome == old(Room(s, len))
      ensures s.Value() == old(s.Value()) && s.rep.length == old(s.rep.length)
      ensures t.rep.length <= t.rep.data.Length && t.Value() == old(t.Value()) && t.rep.length == old(t.rep.length)
      ensures SameOrNewBuffer(s)
      ensures outcome == Done ==> s.rep.capacity >= len && s.rep.refcount == 0 && s.rep != empty
    {
      RepFacts(t);
      outcome := MakeRoom(s, len);
      assert |t.Value()| == |old(t.Value())|;
    }

    method AppendTextInPlace(s: Text, t: Text) returns (ends: bool)
      requires Valid() && s in texts && t in texts && s.rep != empty && s.rep.refcount == 0
      requires s.rep.length + t.rep.length <= s.rep.capacity
      modifies s.rep, s.rep.data
      ensures ends <==> old(t.rep.length) < UINT_VALUES
      ensures ends ==> Valid() && OthersKept(s) && texts == old(texts) && s.rep == old(s.rep)
      ensures ends ==> s.Value() == old(s.Value()) + old(t.Value())
    {
      RepFacts(s);
      RepFacts(t);
      ends := AppendInPlace(s, t.rep.data, 0, t.rep.length);
    }

    /** `append(const basic_string&)`, also of `s` to itself. */
    method AppendText(s: Text, t: Text) returns (outcome: Outcome)
      requires Valid() && s in texts && t in texts
      modifies this, s, s.rep, s.rep.data
      ensures outcome == old(Appending(s, t.rep.length, t.rep.length))
      ensures outcome != NeverReturns ==> Valid() && OthersKept(s) && texts == old(texts)
      ensures outcome != NeverReturns ==> reps == old(reps) + {s.rep} && SameOrNewBuffer(s)
      ensures outcome != NeverReturns ==>
        s.Value() == old(s.Value()) + if outcome == Done then old(t.Value()) else []
    {
      RepFacts(s);
      RepFacts(t);
      if t.rep.length == 0 {
        return Done;
      }
      outcome := AppendSomeText(s, t);
    }

    method AppendSomeText(s: Text, t: Text) returns (outcome: Outcome)
      requires Valid() && s in texts && t in texts && t.rep.length > 0
      modifies this, s, s.rep, s.rep.data
      ensures outcome == old(Appending(s, t.rep.length, t.rep.length))
      ensures outcome != NeverReturns ==> Valid() && OthersKept(s) && texts == old(texts)
      ensures outcome != NeverReturns ==> reps == old(reps) + {s.rep} && SameOrNewBuffer(s)
      ensures outcome == Done ==> s.Value() == old(s.Value()) + old(t.Value())
      ensures outcome == LengthError ==> s.Value() == old(s.Value())
    {
      outcome := MakeRoomForText(s, t, s.rep.length + t.rep.length);
      if outcome == Done {
        var ends := AppendTextInPlace(s, t);
        outcome := if ends then Done else NeverReturns;
      }
    }

    /** `append(size_type, Char_t)` */
    method AppendFill(s: Text, n: nat, c: Char) returns (outcome: Outcome)
      requires Valid() && s in texts
      modifies this, s, s.rep, s.rep.data
      ensures outcome == old(Appending(s, n, 0))
      ensures Valid() && OthersKept(s) && texts == old(texts) && reps == old(reps) + {s.rep}
      ensures SameOrNewBuffer(s)
      ensures s.Value() == old(s.Value()) + if outcome == Done then seq(n, _ => c) else []
    {
      if n == 0 {
        return Done;
      }
      RepFacts(s);
      if MAX_SIZE - s.rep.length < n {
        return LengthError;
      }
      outcome := MakeRoom(s, s.rep.length + n);
      if outcome == Done {
        FillInPlace(s, n, c);
      }
    }

    method FillInPlace(s: Text, n: nat, c: Char)
      requires Valid() && s in texts && s.rep != empty && s.rep.refcount == 0
      requires s.rep.length + n <= s.rep.capacity
      modifies s.rep, s.rep.data
      ensures Valid() && OthersKept(s) && texts == old(texts) && s.rep == old(s.rep)
      ensures s.Value() == old(s.Value()) + seq(n, _ => c)
    {
      RepFacts(s);
      FillBehind(s.rep, n, c);
      BufferChangeKeepsValid(s);
    }

    method FillBehind(r: Rep, n: nat, c: Char)
      requires r != empty && r.length + n <= r.capacity && r.data.Length == r.capacity + 1
      modifies r`length, r`refcount, r.data
      ensures r.length == old(r.length) + n && r.refcount == 0 && r.data[r.length] == 0
      ensures r.data[..r.length] == old(r.data[..r.length]) + seq(n, _ => c)
    {
      AssignChars(r.data, r.length, n, c);
      SetLengthAndSharable(r, r.length + n);
    }

    /** Appending from the own buffer loses nothing unless the copy reads the terminator; then the last
        character arrives as the first one, so it is right exactly when the two agree. */
    lemma AppendThroughTerminator(cs: seq<Char>, throughTerminator: bool)
      requires throughTerminator ==> cs != [] && cs[|cs| - 1] == 0
      ensures Received(cs, throughTerminator) == cs <==> !throughTerminator || cs[0] == 0
    {
      if throughTerminator {
        assert Received(cs, true)[|cs| - 1] == cs[0];
        assert cs == cs[..|cs| - 1] + [cs[|cs| - 1]];
      }
    }

    /** The text around a gap of `len1`, copied with a gap of `len2`, and terminated. */
    method CopyBothSides(dst: array<Char>, src: array<Char>, pos: nat, len1: nat, len2: nat, length: nat)
      returns (ends: bool)
      requires dst != src && pos + len1 <= length <= src.Length && length - len1 + len2 < dst.Length
      modifies dst
      ensures ends <==> pos < UINT_VALUES && length - pos - len1 < UINT_VALUES
      ensures ends ==> dst[..pos] == src[..pos]
      ensures ends ==> dst[pos + len2..length - len1 + len2] == src[pos + len1..length]
      ensures ends ==> dst[length - len1 + len2] == 0
    {
      ends := true;
      if pos > 0 {
        ends := CopyChars(dst, 0, src, 0, pos);
      }
      if ends {
        assert dst[..pos] == src[..pos];
        ends := CopyBehindGap(dst, src, pos, pos + len2, pos + len1, length - pos - len1);
      }
    }

    method CopyBehindGap(dst: array<Char>, src: array<Char>, pos: nat, d: nat, s: nat, n: nat) returns (ends: bool)
      requires dst != src && pos <= d && d + n < dst.Length && s + n <= src.Length
      modifies dst
      ensures ends <==> n < UINT_VALUES
      ensures ends ==> dst[..pos] == old(dst[..pos]) && dst[d..d + n] == src[s..s + n] && dst[d + n] == 0
    {
      ends := true;
      if n > 0 {
        ends := CopyChars(dst, d, src, s, n);
      }
      if ends {
        dst[d + n] := 0;
      }
    }

    /** What it takes to create a buffer for `size` characters and to copy those before and behind a gap. */
    static function CreatingAroundGap(size: nat, before: nat, behind: nat): Outcome {
      Creating(size, if before < behind then behind else before)
    }

    /** `_M_mutate` when a new buffer is needed: the characters around the gap are copied into it. */
    method CopyAroundGap(p: Rep, pos: nat, len1: nat, len2: nat) returns (outcome: Outcome, r: Rep?)
      requires p.length <= p.capacity && p.data.Length == p.capacity + 1 && pos + len1 <= p.length
      ensures outcome == CreatingAroundGap(p.length - len1 + len2, pos, p.length - pos - len1)
      ensures r != null <==> outcome == Done
      ensures r != null ==> fresh(r) && fresh(r.data) && r.handles == {} && r.destroyed == 0 && r.refcount == 0
      ensures r != null ==> r.length == p.length - len1 + len2 <= r.capacity <= MAX_SIZE
      ensures r != null ==> r.data.Length == r.capacity + 1 && r.data[r.length] == 0
      ensures r != null ==>
        r.data[..pos] == p.data[..pos] && r.data[pos + len2..r.length] == p.data[pos + len1..p.length]
    {
      var nsize := p.length + len2 - len1;
      if nsize > MAX_SIZE {
        return LengthError, null;
      }
      r := new Rep.Create(nsize, p.capacity);
      var ends := CopyBothSides(r.data, p.data, pos, len1, len2, p.length);
      if !ends {
        return NeverReturns, null;
      }
      r.refcount, r.length := 0, nsize;
      outcome := Done;
    }

    /** The text of `s` around a gap is kept; the gap is now `len2` characters wide. */
    twostate predicate GapChanged(s: Text, pos: nat, len1: nat, len2: nat)
      reads s, s.rep, s.rep.data
    {
      && s.rep.length <= s.rep.data.Length && old(s.rep.length <= s.rep.data.Length)
      && pos + len1 <= old(s.rep.length) && s.rep.length == old(s.rep.length) - len1 + len2
      && s.Value()[..pos] == old(s.Value())[..pos] && s.Value()[pos + len2..] == old(s.Value())[pos + len1..]
    }

    twostate lemma GapKept(s: Text, new pos: nat, new len1: nat, new len2: nat)
      requires s.rep.length <= s.rep.data.Length && old(s.rep.length <= s.rep.data.Length)
      requires pos + len1 <= old(s.rep.length) && s.rep.length == old(s.rep.length) - len1 + len2
      requires s.rep.data[..pos] == old(s.rep.data[..pos])
      requires s.rep.data[pos + len2..s.rep.length] == old(s.rep.data[pos + len1..s.rep.length])
      ensures GapChanged(s, pos, len1, len2)
    {
      SliceOfPrefix(s.rep.data[..], s.rep.length, pos, pos + len2);
      SliceOfPrefix(old(s.rep.data[..]), old(s.rep.length), pos, pos + len1);
    }

    method SwitchAroundGap(s: Text, pos: nat, len1: nat, len2: nat) returns (outcome: Outcome)
      requires s in texts && s.rep in reps && s.rep.length <= s.rep.capacity && s.rep.data.Length == s.rep.capacity + 1
      requires pos + len1 <= s.rep.length
      modifies this`reps, s, s.rep
      ensures outcome == CreatingAroundGap(old(s.rep.length) - len1 + len2, pos, old(s.rep.length) - pos - len1)
      ensures outcome == Done ==> GapChanged(s, pos, len1, len2)
      ensures outcome == Done ==> Switched(s, old(s.rep), s.rep)
      ensures outcome != Done ==> NothingChanged()
    {
      var r;
      outcome, r := CopyAroundGap(s.rep, pos, len1, len2);
      if r != null {
        Switch(s, r);
        reps := reps + {r};
        GapKept(s, pos, len1, len2);
      }
    }

    method MutateIntoNew(s: Text, pos: nat, len1: nat, len2: nat) returns (outcome: Outcome)
      requires Valid() && s in texts && pos + len1 <= s.rep.length
      modifies this, s, s.rep
      ensures Valid() && OthersKept(s) && texts == old(texts) && reps == old(reps) + {s.rep}
      ensures SameOrNewBuffer(s)
      ensures outcome == CreatingAroundGap(old(s.rep.length) - len1 + len2, pos, old(s.rep.length) - pos - len1)
      ensures if outcome == Done then GapChanged(s, pos, len1, len2) else s.Value() == old(s.Value())
    {
      RepFacts(s);
      outcome := SwitchAroundGap(s, pos, len1, len2);
      if outcome == Done {
        SwitchKeepsValid(s, old(s.rep), s.rep);
      } else {
        NothingChangedKeepsValid(s);
      }
    }

    static lemma SliceOfSlice(a: seq<Char>, m: nat, i: nat, j: nat)
      requires i <= j <= m <= |a|
      ensures a[..m][i..j] == a[i..j]
    {
    }

    static lemma SliceOfPrefix(a: seq<Char>, n: nat, i: nat, j: nat)
      requires i <= n <= |a| && j <= n
      ensures a[..n][..i] == a[..i] && a[..n][j..] == a[j..n]
    {
    }

    static lemma SlicesOfMoved(a: seq<Char>, b: seq<Char>, pos: nat, d: nat, s: nat, n: nat)
      requires pos <= d && d + n <= |a| && s + n <= |a| && b == a[..d] + a[s..s + n] + a[d + n..]
      ensures b[..pos] == a[..pos] && b[d..d + n] == a[s..s + n]
    {
    }

    static lemma SlicesBefore(a: seq<Char>, b: seq<Char>, n: nat, i: nat, j: nat)
      requires n < |a| && b == a[n := 0] && i <= n && j <= n
      ensures b[..i] == a[..i] && b[j..n] == a[j..n]
    {
    }

    method MoveApart(a: array<Char>, pos: nat, d: nat, s: nat, n: nat)
      requires pos <= d && d + n <= a.Length && s + n <= a.Length
      modifies a
      ensures a[..pos] == old(a[..pos]) && a[d..d + n] == old(a[s..s + n])
    {
      ghost var was := a[..];
      MoveChars(a, d, s, n);
      SlicesOfMoved(was, a[..], pos, d, s, n);
    }

    method MoveTail(a: array<Char>, pos: nat, len1: nat, len2: nat, qty: nat)
      requires pos + len1 + qty <= a.Length && pos + len2 + qty <= a.Length
      modifies a
      ensures a[..pos] == old(a[..pos])
      ensures a[pos + len2..pos + len2 + qty] == old(a[pos + len1..pos + len1 + qty])
    {
      if qty > 0 && len1 != len2 {
        MoveApart(a, pos, pos + len2, pos + len1, qty);
      }
    }

    /** `_M_mutate` in place: the characters behind the gap are moved. */
    method MutateInPlace(r: Rep, pos: nat, len1: nat, len2: nat)
      requires r != empty && pos + len1 <= r.length && r.length - len1 + len2 <= r.capacity
      requires r.length <= r.capacity && r.data.Length == r.capacity + 1
      modifies r`length, r`refcount, r.data
      ensures r.length == old(r.length) - len1 + len2 && r.refcount == 0 && r.data[r.length] == 0
      ensures r.data[..pos] == old(r.data[..pos])
      ensures r.data[pos + len2..r.length] == old(r.data[pos + len1..r.length])
    {
      var size := r.length;
      var nsize, qty := size + len2 - len1, size - pos - len1;
      MoveTail(r.data, pos, len1, len2, qty);
      ghost var moved := r.data[..];
      SetLengthAndSharable(r, nsize);
      SlicesBefore(moved, r.data[..], nsize, pos, pos + len2);
    }

    /** How replacing `len1` characters of `s` by `len2` ends: in place, or in a new buffer. */
    ghost function Mutating(s: Text, pos: nat, len1: nat, len2: nat): Outcome
      requires pos + len1 <= s.rep.length
      reads s, s.rep
    {
      var size := s.rep.length - len1 + len2;
      if size <= s.rep.capacity && s.rep.refcount <= 0 then Done
      else CreatingAroundGap(size, pos, s.rep.length - pos - len1)
    }

    /** `_M_mutate`: `len2` unset characters replace the `len1` at `pos`. */
    method Mutate(s: Text, pos: nat, len1: nat, len2: nat) returns (outcome: Outcome)
      requires Valid() && s in texts && pos + len1 <= s.rep.length
      modifies this, s, s.rep, s.rep.data
      ensures Valid() && OthersKept(s) && texts == old(texts) && reps == old(reps) + {s.rep}
      ensures SameOrNewBuffer(s)
      ensures outcome == old(Mutating(s, pos, len1, len2))
      ensures if outcome == Done then GapChanged(s, pos, len1, len2) else s.Value() == old(s.Value())
    {
      RepFacts(s);
      outcome := Done;
      if s.rep.length + len2 - len1 > s.rep.capacity || s.rep.refcount > 0 {
        outcome := MutateIntoNew(s, pos, len1, len2);
      } else if s.rep != empty {
        MutateOwn(s, pos, len1, len2);
      }
    }

    method MutateOwn(s: Text, pos: nat, len1: nat, len2: nat)
      requires Valid() && s in texts && s.rep != empty && s.rep.refcount == 0
      requires pos + len1 <= s.rep.length && s.rep.length - len1 + len2 <= s.rep.capacity
      modifies s.rep, s.rep.data
      ensures Valid() && OthersKept(s) && texts == old(texts)
      ensures s.rep == old(s.rep) && GapChanged(s, pos, len1, len2)
    {
      RepFacts(s);
      MutateInPlace(s.rep, pos, len1, len2);
      BufferChangeKeepsValid(s);
      GapKept(s, pos, len1, len2);
    }

    /** `erase`, with the out-of-range error; shortening never exceeds the length. */
    method Erase(s: Text, index: nat, count: nat) returns (outcome: Outcome)
      requires Valid() && s in texts
      modifies this, s, s.rep, s.rep.data
      ensures Valid() && OthersKept(s) && texts == old(texts) && reps == old(reps) + {s.rep}
      ensures SameOrNewBuffer(s)
      ensures var n := |old(s.Value())|;
        outcome == if index > n then RangeError
                   else if old(s.rep.refcount) <= 0 then Done
                   else CreatingAroundGap(0, index, if index + count < n then n - index - count else 0)
      ensures var v := old(s.Value());
        s.Value() == if outcome != Done then v
                     else if index + count < |v| then v[..index] + v[index + count..] else v[..index]
    {
      RepFacts(s);
      if index > s.rep.length {
        return RangeError;
      }
      var limit := if count < s.rep.length - index then count else s.rep.length - index;
      outcome := EraseRange(s, index, limit);
      assert index + limit == |old(s.Value())| ==> old(s.Value())[index + limit..] == [];
    }

    method EraseRange(s: Text, index: nat, limit: nat) returns (outcome: Outcome)
      requires Valid() && s in texts && index + limit <= s.rep.length
      modifies this, s, s.rep, s.rep.data
      ensures Valid() && OthersKept(s) && texts == old(texts) && reps == old(reps) + {s.rep}
      ensures SameOrNewBuffer(s)
      ensures outcome == if old(s.rep.refcount) <= 0 then Done
                         else CreatingAroundGap(0, index, old(s.rep.length) - index - limit)
      ensures var v := old(s.Value());
        s.Value() == if outcome == Done then v[..index] + v[index + limit..] else v
    {
      RepFacts(s);
      outcome := Mutate(s, index, limit, 0);
      if outcome == Done {
        WithoutRange(old(s.Value()), s.Value(), index, limit);
      }
    }

    static lemma WithoutRange(v: seq<Char>, w: seq<Char>, index: nat, limit: nat)
      requires index + limit <= |v| && |w| == |v| - limit
      requires w[..index] == v[..index] && w[index..] == v[index + limit..]
      ensures w == v[..index] + v[index + limit..]
    {
      assert w == w[..index] + w[index..];
    }

    /** `swap`: the two handles exchange their buffers. */
    method Swap(s: Text, t: Text)
      requires Valid() && s in texts && t in texts
      modifies s, t, s.rep`handles, t.rep`handles
      ensures Valid() && texts == old(texts) && reps == old(reps)
      ensures s.Value() == old(t.Value()) && t.Value() == old(s.Value())
      ensures s.rep == old(t.rep) && t.rep == old(s.rep)
      ensures forall u | u in texts && u != s && u != t :: u.Value() == old(u.Value())
    {
      RepFacts(s);
      RepFacts(t);
      ExchangePointers(s, t);
      SwapKeepsValid(s, t);
    }

    method ExchangePointers(s: Text, t: Text)
      modifies s, t, s.rep`handles, t.rep`handles
      ensures s.rep == old(t.rep) && t.rep == old(s.rep)
      ensures if s.rep == t.rep then s.rep.handles == old(s.rep.handles)
              else s.rep.handles == old(t.rep.handles) - {t} + {s} && t.rep.handles == old(s.rep.handles) - {s} + {t}
    {
      var tmp := s.rep;
      s.rep := t.rep;
      t.rep := tmp;
      if s.rep != t.rep {
        s.rep.handles, t.rep.handles := s.rep.handles - {t} + {s}, t.rep.handles - {s} + {t};
      }
    }

    /** The handles of `s` and `t`, and nothing but the handles, were exchanged. */
    twostate predicate Swapped(s: Text, new t: Text)
      requires s in old(texts)
      reads *
    {
      && t in old(texts) && texts == old(texts) && reps == old(reps)
      && s.rep == old(t.rep) && t.rep == old(s.rep)
      && (forall u | u in texts && u != s && u != t :: u.rep == old(u.rep))
      && (forall r | r in reps && r != s.rep && r != t.rep :: r.handles == old(r.handles))
      && (forall r | r in reps ::
            r.length == old(r.length) && r.refcount == old(r.refcount)
            && r.destroyed == old(r.destroyed) && unchanged(r.data))
      && if s.rep == t.rep then s.rep.handles == old(s.rep.handles)
         else s.rep.handles == old(t.rep.handles) - {t} + {s} && t.rep.handles == old(s.rep.handles) - {s} + {t}
    }

    twostate lemma SwapKeepsValid(s: Text, new t: Text)
      requires old(Valid()) && s in old(texts) && Swapped(s, t)
      ensures Valid()
      ensures forall u | u in texts && u != s && u != t :: u.Value() == old(u.Value())
    {
      SwappedRepsOk(s, t);
      SwappedTextsOk(s, t);
      SwappedRestKept(s, t);
    }

    twostate lemma SwappedRestKept(s: Text, new t: Text)
      requires old(Valid()) && s in old(texts) && Swapped(s, t)
      ensures empty in reps && forall r, q | r in reps && q in reps && r != q :: r.data != q.data
      ensures forall u | u in texts && u != s && u != t ::
        u.rep == old(u.rep) && u.rep.length <= u.rep.data.Length && u.Value() == old(u.Value())
    {
      forall u | u in texts && u != s && u != t
        ensures u.rep == old(u.rep) && u.rep.length <= u.rep.data.Length && u.Value() == old(u.Value())
      {
        assert old(u.rep in reps && RepOk(u.rep));
      }
    }

    twostate lemma SwappedTextsOk(s: Text, new t: Text)
      requires old(Valid()) && s in old(texts) && Swapped(s, t)
      ensures forall u | u in texts :: u.rep in reps && u in u.rep.handles
    {
      forall u | u in texts ensures u.rep in reps && u in u.rep.handles {
        assert old(u.rep in reps && u in u.rep.handles);
      }
    }

    twostate lemma SwappedRepsOk(s: Text, new t: Text)
      requires old(Valid()) && s in old(texts) && Swapped(s, t)
      ensures forall r | r in reps :: RepOk(r)
    {
      UnswappedRepsOk(s, t);
      if s.rep != t.rep {
        ExchangingRepsOk(s, t);
      }
    }

    twostate lemma UnswappedRepsOk(s: Text, new t: Text)
      requires old(Valid()) && s in old(texts) && Swapped(s, t)
      ensures forall r | r in reps && (s.rep == t.rep || (r != s.rep && r != t.rep)) :: RepOk(r)
    {
      forall r | r in reps && (s.rep == t.rep || (r != s.rep && r != t.rep)) ensures RepOk(r) {
        assert old(RepOk(r));
      }
    }

    twostate lemma ExchangingRepsOk(s: Text, new t: Text)
      requires old(Valid()) && s in old(texts) && Swapped(s, t) && s.rep != t.rep
      ensures RepOk(s.rep) && RepOk(t.rep)
    {
      assert old(s.rep in reps && t.rep in reps && s in s.rep.handles && t in t.rep.handles);
      assert old(RepOk(s.rep) && RepOk(t.rep));
      ExchangedRepOk(s.rep, t, s);
      ExchangedRepOk(t.rep, s, t);
    }

    twostate lemma ExchangedRepOk(new r: Rep, new leaving: Text, coming: Text)
      requires r in old(reps) && old(RepOk(r)) && texts == old(texts)
      requires leaving in old(r.handles) && coming !in old(r.handles)
      requires coming in texts && coming.rep == r && r.handles == old(r.handles) - {leaving} + {coming}
      requires forall u | u in old(r.handles) && u != leaving :: u.rep == old(u.rep)
      requires r.length == old(r.length) && r.refcount == old(r.refcount)
      requires r.destroyed == old(r.destroyed) && unchanged(r.data)
      ensures RepOk(r)
    {
      assert |r.handles| == |old(r.handles)|;
    }

    // ----- Construction and destruction

    /** The default constructor: an empty string on the shared empty buffer. */
    method NewEmpty() returns (t: Text)
      requires Valid()
      modifies this, empty`handles
      ensures Valid() && fresh(t) && texts == old(texts) + {t} && reps == old(reps) && OthersKept(t)
      ensures t.Value() == []
    {
      t := EmptyHandle();
      assert RepOk(empty);
      AddKeepsValid(t, empty);
    }

    method EmptyHandle() returns (t: Text)
      requires empty in reps
      modifies this`texts, empty`handles
      ensures fresh(t) && Added(t, empty)
    {
      t := new Text(empty);
      texts := texts + {t};
      empty.handles := empty.handles + {t};
    }

    /** The copy constructor: both strings share one buffer. */
    method CopyOf(s: Text) returns (t: Text)
      requires Valid() && s in texts
      modifies this, s.rep
      ensures Valid() && fresh(t) && texts == old(texts) + {t} && reps == old(reps) && OthersKept(t)
      ensures t.Value() == old(s.Value()) && t.rep == s.rep && s.rep == old(s.rep)
    {
      RepFacts(s);
      t := CopyHandle(s);
      AddKeepsValid(t, t.rep);
    }

    method CopyHandle(s: Text) returns (t: Text)
      requires s in texts && s.rep in reps && s in s.rep.handles
      modifies this`texts, s.rep`refcount, s.rep`handles
      ensures fresh(t) && Added(t, s.rep)
    {
      RefCopy(s.rep);
      t := new Text(s.rep);
      texts := texts + {t};
      s.rep.handles := s.rep.handles + {t};
    }

    /** The move constructor: the new string takes the buffer over and leaves the empty one behind. */
    method MoveFrom(s: Text) returns (t: Text)
      requires Valid() && s in texts
      modifies this, s, s.rep, empty`handles
      ensures Valid() && fresh(t) && texts == old(texts) + {t} && reps == old(reps)
      ensures t.Value() == old(s.Value()) && s.Value() == [] && t.rep == old(s.rep)
      ensures forall u | u in old(texts) && u != s :: u.Value() == old(u.Value())
    {
      t := NewEmpty();
      Swap(s, t);
    }

    /** The destructor. */
    method Destroy(t: Text)
      requires Valid() && t in texts
      modifies this, t.rep
      ensures Valid() && texts == old(texts) - {t} && reps == old(reps)
      ensures forall u | u in texts :: u.Value() == old(u.Value())
    {
      RepFacts(t);
      Dispose(t.rep);
      texts := texts - {t};
      t.rep.handles := t.rep.handles - {t};
      RemoveKeepsValid(t, t.rep);
    }

    /** Whether `n` characters can be read into a buffer that starts with capacity `c` and grows as in
        `_S_construct`: every buffer that fills up before the end can still be copied. */
    static ghost predicate Readable(c: nat, n: nat): (r: bool)
      ensures n <= UINT_VALUES ==> r
      decreases n - c
    {
      n <= c || (c < UINT_VALUES && Readable(CreatedCapacity(c + 1, c), n))
    }

    /** A new buffer with `cs`, not yet terminated and used by nobody. */
    static ghost predicate Holds(r: Rep, cs: seq<Char>)
      reads r, r.data
    {
      && r.handles == {} && r.destroyed == 0 && r.refcount == 0 && r.length == 0
      && |cs| <= r.capacity <= MAX_SIZE && r.data.Length == r.capacity + 1 && r.data[..|cs|] == cs
    }

    /** Buffers that nobody uses, each deallocated once. */
    static ghost predicate Retired(rs: set<Rep>)
      reads rs
    {
      && (forall r | r in rs :: r.handles == {} && r.destroyed == 1)
      && (forall r | r in rs :: r.length <= r.capacity <= MAX_SIZE && r.data.Length == r.capacity + 1)
      && (forall r, q | r in rs && q in rs && r != q :: r.data != q.data)
    }

    /** `q` was created because a buffer in `retired` was full. */
    static ghost predicate Replaces(q: Rep, retired: set<Rep>) {
      exists p | p in retired :: p.capacity < MAX_SIZE && q.capacity == CreatedCapacity(p.capacity + 1, p.capacity)
    }

    /** None is missing: each buffer up to `r` has the first capacity or replaces one in `retired`. */
    static ghost predicate Complete(first: nat, r: Rep, retired: set<Rep>) {
      forall q {:trigger Replaces(q, retired)} | q in retired + {r} :: q.capacity == first || Replaces(q, retired)
    }

    /** How many characters `_S_construct` collects in its local array. */
    static function Collected(n: nat): nat {
      if n < 128 then n else 128
    }

    /** `_S_construct`: a buffer for a range of characters, collected in a local array first and grown one
        character at a time after that.  The buffers outgrown on the way are deallocated.  Null stands for a
        copy that never ends; the length error cannot occur before. */
    method Construct(src: seq<Char>) returns (r: Rep?, ghost retired: set<Rep>)
      ensures r == null <==> !Readable(128, |src|)
      ensures r != null ==> fresh(r) && fresh(r.data) && r.handles == {} && r.destroyed == 0 && r.refcount == 0
      ensures r != null ==> r.length == |src| <= r.capacity <= MAX_SIZE && r.data.Length == r.capacity + 1
      ensures r != null ==> r.data[..|src|] == src && r.data[|src|] == 0
      ensures r != null ==> Retired(retired) && (retired == {} <==> |src| <= 128)
      ensures r != null ==> Complete(Collected(|src|), r, retired)
      ensures r != null ==> forall q | q in retired :: fresh(q) && fresh(q.data) && q.data != r.data
    {
      var len;
      r, len := Collect(src);
      r, retired := GrowWhileReading(r, src, len);
      if r != null {
        SetNewLength(r, src);
      }
    }

    method SetNewLength(r: Rep, src: seq<Char>)
      requires Holds(r, src)
      modifies r`refcount, r`length, r.data
      ensures r.refcount == 0 && r.length == |src| && r.data[..|src|] == src && r.data[|src|] == 0
    {
      r.refcount, r.length := 0, |src|;
      r.data[|src|] := 0;
      assert r.data[..|src|] == src;
    }

    static lemma CompleteToo(first: nat, r: Rep, retired: set<Rep>, another: Rep)
      requires Complete(first, r, retired) && r.capacity < MAX_SIZE
      requires another.capacity == CreatedCapacity(r.capacity + 1, r.capacity)
      ensures Complete(first, another, retired + {r})
    {
      forall q | q in retired + {r} + {another} ensures q.capacity == first || Replaces(q, retired + {r}) {
        if q != another {
          assert q.capacity == first || Replaces(q, retired);
        } else {
          assert r in retired + {r};
        }
      }
    }

    static lemma RetiredToo(rs: set<Rep>, r: Rep)
      requires Retired(rs) && r.handles == {} && r.destroyed == 1
      requires r.length <= r.capacity <= MAX_SIZE && r.data.Length == r.capacity + 1
      requires forall q | q in rs :: q.data != r.data
      ensures Retired(rs + {r})
    {
    }

    /** The second loop of `_S_construct`. */
    method GrowWhileReading(first: Rep, src: seq<Char>, start: nat) returns (r: Rep?, ghost retired: set<Rep>)
      requires start <= |src| && first.capacity == start <= UINT_VALUES && Holds(first, src[..start])
      modifies first`destroyed, first.data
      ensures r == null <==> !Readable(start, |src|)
      ensures r != null ==> SinceThen(first, r) && Holds(r, src)
      ensures r != null ==> Retired(retired) && (retired == {} <==> |src| <= start) && Complete(start, r, retired)
      ensures r != null ==> forall q | q in retired :: SinceThen(first, q) && q.data != r.data
    {
      r, retired := first, {};
      var len := start;
      assert src[..|src|] == src;
      while len < |src|
        invariant 0 <= len <= |src|
        invariant r != null && SinceThen(first, r) && r !in retired && Retired(retired)
        invariant forall q | q in retired :: SinceThen(first, q) && q.data != r.data
        invariant len <= r.capacity <= 3 * UINT_VALUES && Holds(r, src[..len])
        invariant Readable(r.capacity, |src|) == Readable(start, |src|)
        invariant (if retired == {} then r.capacity == start else len > start) && Complete(start, r, retired)
      {
        if len == r.capacity {
          ghost var full := r;
          r := Larger(r, src[..len], start, retired);
          if r == null {
            return;
          }
          retired := retired + {full};
        }
        PutNext(r, src, len);
        len := len + 1;
      }
    }

    /** `r` is the buffer a construction began with, or one created since. */
    twostate predicate SinceThen(first: Rep, new r: Rep) {
      r == first || (fresh(r) && fresh(r.data))
    }

    /** The first part of `_S_construct`: up to 128 characters, and the first buffer. */
    method Collect(src: seq<Char>) returns (r: Rep, len: nat)
      ensures len == Collected(|src|)
      ensures fresh(r) && fresh(r.data) && r.capacity == len && Holds(r, src[..len])
    {
      var buf := new Char[128];
      len := 0;
      while len < |src| && len < buf.Length
        invariant 0 <= len <= |src| && len <= buf.Length
        invariant buf[..len] == src[..len]
      {
        buf[len] := src[len];
        len := len + 1;
      }
      r := new Rep.Create(len, 0);
      var ends := CopyChars(r.data, 0, buf, 0, len);
      assert r.data[..len] == buf[..len];
    }

    /** The next buffer of `_S_construct`, with the characters of the full one, which is deallocated. */
    method Larger(r: Rep, ghost cs: seq<Char>, ghost first: nat, ghost retired: set<Rep>)
      returns (another: Rep?)
      requires Holds(r, cs) && |cs| == r.capacity <= MAX_SIZE / 3
      requires r !in retired && Retired(retired) && forall q | q in retired :: q.data != r.data
      requires Complete(first, r, retired)
      modifies r`destroyed
      ensures another == null <==> r.capacity >= UINT_VALUES
      ensures another != null ==>
        && fresh(another) && fresh(another.data) && Holds(another, cs)
        && r.capacity < another.capacity <= 3 * UINT_VALUES
        && another.capacity == CreatedCapacity(r.capacity + 1, r.capacity)
      ensures another != null ==> Retired(retired + {r}) && Complete(first, another, retired + {r})
      ensures another != null ==> another !in retired + {r} && forall q | q in retired + {r} :: q.data != another.data
    {
      var len := r.capacity;
      another := new Rep.Create(len + 1, len);
      var ends := CopyChars(another.data, 0, r.data, 0, len);
      if !ends {
        return null;
      }
      assert another.data[..len] == r.data[..len];
      r.destroyed := r.destroyed + 1;
      RetiredToo(retired, r);
      CompleteToo(first, r, retired, another);
    }

    method PutNext(r: Rep, src: seq<Char>, len: nat)
      requires len < |src| && len < r.capacity && Holds(r, src[..len])
      modifies r.data
      ensures Holds(r, src[..len + 1])
    {
      r.data[len] := src[len];
      assert r.data[..len + 1] == src[..len + 1];
    }

    /** The constructor from a range of characters; null if it never returns. */
    method NewFrom(src: seq<Char>) returns (t: Text?, ghost retired: set<Rep>)
      requires Valid()
      modifies this
      ensures Valid() && (t == null <==> !Readable(128, |src|))
      ensures t == null ==> texts == old(texts) && reps == old(reps)
      ensures t != null ==> fresh(t) && texts == old(texts) + {t} && t.Value() == src && OthersKept(t)
      ensures t != null ==> fresh(t.rep) && fresh(t.rep.data) && t.rep !in retired
      ensures t != null ==> reps == old(reps) + {t.rep} + retired && fresh(retired)
      ensures t != null ==> (retired == {} <==> |src| <= 128) && Complete(Collected(|src|), t.rep, retired)
      ensures t != null ==> forall q | q in retired :: q.destroyed == 1
    {
      t, retired := NewUnrecorded(src);
      if t != null {
        Record(retired);
      }
    }

    method NewUnrecorded(src: seq<Char>) returns (t: Text?, ghost retired: set<Rep>)
      requires Valid()
      modifies this
      ensures Valid() && (t == null <==> !Readable(128, |src|))
      ensures t == null ==> texts == old(texts) && reps == old(reps)
      ensures t != null ==> fresh(t) && texts == old(texts) + {t} && t.Value() == src && OthersKept(t)
      ensures t != null ==> reps == old(reps) + {t.rep} && fresh(t.rep) && fresh(t.rep.data)
      ensures t != null ==> Retired(retired) && (retired == {} <==> |src| <= 128)
      ensures t != null ==> Complete(Collected(|src|), t.rep, retired)
      ensures t != null ==> forall q | q in retired :: fresh(q) && fresh(q.data) && q != t.rep && q.data != t.rep.data
    {
      t, retired := Wrap(src);
      if t != null {
        AddKeepsValid(t, t.rep);
      }
    }

    /** The retired buffers are among those ever created. */
    ghost method Record(retired: set<Rep>)
      requires Valid() && Retired(retired) && retired !! reps
      requires forall r, q | r in retired && q in reps :: r.data != q.data
      modifies this`reps
      ensures Valid() && reps == old(reps) + retired
    {
      reps := reps + retired;
      forall r | r in reps ensures RepOk(r) {
        assert r in old(reps) ==> old(RepOk(r));
      }
    }

    method Wrap(src: seq<Char>) returns (t: Text?, ghost retired: set<Rep>)
      modifies this
      ensures t == null <==> !Readable(128, |src|)
      ensures t == null ==> unchanged(this)
      ensures t != null ==> fresh(t) && fresh(t.rep) && fresh(t.rep.data) && Added(t, t.rep)
      ensures t != null ==> t.rep.length == |src| && t.rep.data[..|src|] == src
      ensures t != null ==> Retired(retired) && (retired == {} <==> |src| <= 128) && t.rep !in retired
      ensures t != null ==> Complete(Collected(|src|), t.rep, retired)
      ensures t != null ==> forall q | q in retired :: fresh(q) && fresh(q.data) && q.data != t.rep.data
    {
      var r;
      r, retired := Construct(src);
      if r == null {
        return null, {};
      }
      t := new Text(r);
      texts, reps := texts + {t}, reps + {r};
      r.handles := {t};
    }

    /** `compare`: zero exactly for equal texts, otherwise ordered by the first difference, a proper prefix
        coming first. */
    method CompareTexts(s: Text, t: Text) returns (r: int)
      requires Valid() && s in texts && t in texts
      ensures r == 0 <==> s.Value() == t.Value()
      ensures r < 0 <==> Precedes(s.Value(), t.Value())
      ensures -0x8000_0000 <= r <= INT_MAX
    {
      RepFacts(s);
      RepFacts(t);
      var a, b := s.rep.data[..s.rep.length], t.rep.data[..t.rep.length];
      var n := if |a| < |b| then |a| else |b|;
      r := Compare(a, b, n);
      if r == 0 {
        r := |a| - |b|;
        if r > 0x7fff_ffff {
          r := 0x7fff_ffff;
        } else if r < -0x8000_0000 {
          r := -0x8000_0000;
        }
        assert a[..n] == b[..n];
        EqualUpTo(a, b, n);
      } else {
        ghost var k: nat :| FirstDifference(a[..n], b[..n], k) && r == if a[k] < b[k] then -1 else 1;
        assert a[..n][..k] == a[..k] && b[..n][..k] == b[..k];
        DifferAt(a, b, k);
        assert a[k] == a[..n][k] && b[k] == b[..n][k];
      }
    }

    static ghost predicate Precedes(a: seq<Char>, b: seq<Char>) {
      b != [] && (a == [] || a[0] < b[0] || (a[0] == b[0] && Precedes(a[1..], b[1..])))
    }

    static lemma {:induction false} EqualUpTo(a: seq<Char>, b: seq<Char>, n: nat)
      requires n == (if |a| < |b| then |a| else |b|) && a[..n] == b[..n]
      ensures Precedes(a, b) <==> |a| < |b|
      ensures a == b <==> |a| == |b|
      decreases n
    {
      if n > 0 {
        assert a[..n][0] == b[..n][0];
        assert a[1..][..n - 1] == a[..n][1..] && b[1..][..n - 1] == b[..n][1..];
        EqualUpTo(a[1..], b[1..], n - 1);
      }
      if |a| == |b| {
        assert a == a[..n] && b == b[..n];
      }
    }

    static lemma {:induction false} DifferAt(a: seq<Char>, b: seq<Char>, k: nat)
      requires k < |a| && k < |b| && a[..k] == b[..k] && a[k] != b[k]
      ensures Precedes(a, b) <==> a[k] < b[k]
      decreases k
    {
      if k > 0 {
        assert a[..k][0] == b[..k][0];
        assert a[1..][..k - 1] == a[..k][1..] && b[1..][..k - 1] == b[..k][1..];
        DifferAt(a[1..], b[1..], k - 1);
      }
    }

    /** No buffer in use is ever deallocated, and the count is always the number of users less one. */
    lemma BuffersInUseAreAlive(t: Text)
      requires Valid() && t in texts
      ensures t.rep.destroyed == 0
      ensures t.rep != empty ==> t.rep.refcount == |set u | u in texts && u.rep == t.rep| - 1
      ensures t.rep.data[t.rep.length] == 0 && t.rep.length <= t.rep.capacity < t.rep.data.Length
    {
      RepFacts(t);
      assert t.rep.handles == set u | u in texts && u.rep == t.rep;
    }

    /** Once all strings are gone, every buffer has been deallocated exactly once. */
    lemma NothingLeaks(r: Rep)
      requires Valid() && texts == {} && r in reps && r != empty
      ensures r.destroyed == 1
    {
      assert RepOk(r);
      assert forall s | s in r.handles :: s in texts;
    }

    /** A string and a copy of it, which share a new buffer. */
    method NewPair(src: seq<Char>) returns (t: Text, u: Text, ghost retired: set<Rep>)
      requires Valid() && |src| < UINT_VALUES
      modifies this
      ensures Valid() && fresh({t, u}) && t != u && texts == old(texts) + {t, u}
      ensures fresh(t.rep) && fresh(t.rep.data) && u.rep == t.rep && t.Value() == u.Value() == src
      ensures reps == old(reps) + {t.rep} + retired && fresh(retired) && t.rep !in retired
      ensures retired == {} <==> |src| <= 128
    {
      t, retired := NewFrom(src);
      u := CopyOf(t);
    }

    /** Appending a string to itself, while another one shares its buffer. */
    method DoubleShared(t: Text, u: Text)
      requires Valid() && t in texts && u in texts && t != u && t.rep == u.rep && 0 < t.rep.length < UINT_VALUES
      modifies this, u, u.rep, u.rep.data
      ensures Valid() && texts == old(texts) && reps == old(reps) + {u.rep} && fresh(u.rep)
      ensures t.Value() == old(t.Value()) && u.Value() == old(t.Value() + t.Value())
    {
      RepFacts(t);
      assert u in t.rep.handles - {t};
      var outcome := AppendText(u, u);
      RepFacts(t);
      RepFacts(u);
      assert |u.Value()| != |t.Value()|;
    }

    /** Two strings that shared a buffer until the copy was appended to. */
    method NewUnsharedPair(src: seq<Char>) returns (t: Text, u: Text, ghost retired: set<Rep>)
      requires Valid() && 0 < |src| < UINT_VALUES
      modifies this
      ensures Valid() && t != u && texts == old(texts) + {t, u} && t.Value() == src && u.Value() == src + src
      ensures reps == old(reps) + {t.rep, u.rep} + retired && fresh(retired) && (retired == {} <==> |src| <= 128)
      ensures fresh({t, u}) && fresh({t.rep, u.rep}) && t.rep != u.rep && t.rep !in retired && u.rep !in retired
    {
      t, u, retired := NewPair(src);
      DoubleShared(t, u);
    }

    /** The destructors of the last two strings. */
    method DropBoth(t: Text, u: Text)
      requires Valid() && texts == {t, u} && t != u
      modifies this, t.rep, u.rep
      ensures Valid() && texts == {} && reps == old(reps)
      ensures forall r | r in reps && r != empty :: r.destroyed == 1
    {
      Destroy(t);
      Destroy(u);
      forall r | r in reps && r != empty ensures r.destroyed == 1 {
        NothingLeaks(r);
      }
    }

    /** A run from a program without strings: a string of any length that can be copied is constructed and
        copied, appending to the copy unshares the buffer, and both are destroyed.  Every buffer, also those
        outgrown while the first string was constructed, is deallocated once. */
    method CopyAppendDrop(src: seq<Char>)
      returns (ghost first: Rep, ghost second: Rep, ghost retired: set<Rep>)
      requires Valid() && texts == {} && 0 < |src| < UINT_VALUES
      modifies this
      ensures Valid() && texts == {} && reps == old(reps) + {first, second} + retired
      ensures fresh({first, second} + retired) && first != second && first !in retired && second !in retired
      ensures retired == {} <==> |src| <= 128
      ensures forall r | r in reps && r != empty :: r.destroyed == 1
    {
      var t, u;
      t, u, retired := NewUnsharedPair(src);
      first, second := t.rep, u.rep;
      DropBoth(t, u);
    }
  }
}
