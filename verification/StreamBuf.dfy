/** Stream buffers over a growing vector. */
module StreamBuf {
  import opened Common
  import Vector

  const EOF := -1

  function ToInt(c: Char): int {
    c % 256
  }

  function ToChar(i: int): Char {
    (i + 128) % 256 - 128
  }

  /** Every character survives the trip through int_type, and none of them is the end of file. */
  lemma IntTypeRoundTrip(c: Char)
    ensures ToChar(ToInt(c)) == c && ToInt(c) != EOF
  {
  }

  /** The capacity after the vector has grown by one element beyond `cap`. */
  function NextCapacity(cap: nat): nat {
    Vector.Grown(cap, cap + 1)
  }

  /** Whether `n` characters can be put at offset `p` of a put area that ends at `e` in a vector of capacity
      `cap`.  The pointer is moved by an int: whenever the area is full its offset has to fit one, and so has
      the length of a block that is put at once. */
  predicate Placed(p: nat, e: nat, cap: nat, n: nat, inBlocks: bool)
    requires p <= e <= cap
    decreases n
  {
    if n <= e - p then inBlocks ==> n <= INT_MAX
    else e <= INT_MAX && Placed(e + 1, NextCapacity(cap), NextCapacity(cap), n - (e - p) - 1, inBlocks)
  }

  /** Up to 2 GiB nothing goes wrong. */
  lemma {:induction false} SmallIsPlaced(p: nat, e: nat, cap: nat, n: nat, inBlocks: bool)
    requires p <= e <= cap && n <= INT_MAX && p + n <= INT_MAX + 1
    ensures Placed(p, e, cap, n, inBlocks)
    decreases n
  {
    if n <= e - p {
    } else {
      SmallIsPlaced(e + 1, NextCapacity(cap), NextCapacity(cap), n - (e - p) - 1, inBlocks);
    }
  }

  /** Moving the pointer by an offset reaches it exactly if it fits an int. */
  lemma BumpIsExact(n: nat)
    ensures Narrow(n) == n <==> n <= INT_MAX
  {
  }

  /** `basic_vector_streambuf`.  The put and the get pointers are a block and offsets into it: when the vector
      moves they point into the block it left, until they are set again. */
  class VectorStreambuf {
    var data: array<Char>      // the block of `vec`; its length is the capacity
    var size: nat
    var putBlock: array<Char>
    var pptr: int
    var pend: nat
    var getBlock: array<Char>
    var gptr: nat
    var gend: nat

    /** The pointers point into the vector, and the areas they bound are inside its elements. */
    ghost predicate Valid()
      reads this
    {
      && size <= data.Length && putBlock == data && getBlock == data
      && 0 <= pptr <= pend <= size && gptr <= gend <= size
    }

    /** What was put so far. */
    ghost function Written(): seq<Char>
      requires Valid()
      reads this, data
    {
      data[..pptr]
    }

    /** Whether `n` characters can be put one by one. */
    ghost predicate Fits(n: nat)
      reads this
    {
      0 <= pptr <= pend <= data.Length && Placed(pptr, pend, data.Length, n, false)
    }

    /** What is left to get. */
    ghost function Unread(): seq<Char>
      requires Valid()
      reads this, data
    {
      data[gptr..gend]
    }

    /** A constructor with the initial size; all of the buffer is both put and get area. */
    constructor (n: nat)
      ensures Valid() && fresh(data) && Written() == [] && size == data.Length == pend == gend == n && gptr == 0
    {
      var block := new Char[n](_ => 0);
      data, putBlock, getBlock, size := block, block, block, n;
      pptr, pend, gptr, gend := 0, n, 0, n;
    }

    /** The vector's `push_back` and growing `resize`, both of zeros. */
    method VecResize(n: nat)
      requires size <= data.Length && size <= n
      modifies this`data, this`size, data
      ensures size == n && data.Length == Vector.Grown(old(data.Length), n)
      ensures if n <= old(data.Length) then data == old(data) else fresh(data)
      ensures data[..old(size)] == old(data[..size])
      ensures forall i | old(size) <= i < n :: data[i] == 0
    {
      var block := data;
      if n > data.Length {
        block := new Char[Vector.Grown(data.Length, n)](_ => 0);
        CopyIn(block, 0, data[..size]);
      }
      ghost var kept := block[..size];
      for i := size to n
        invariant block[..size] == kept && size <= block.Length
        invariant forall j | size <= j < i :: block[j] == 0
        modifies block
      {
        block[i] := 0;
      }
      data, size := block, n;
    }

    /** `Traits::copy` of characters from outside the buffer. */
    static method CopyIn(block: array<Char>, at: nat, s: seq<Char>)
      requires at + |s| <= block.Length
      modifies block
      ensures block[..at] == old(block[..at]) && block[at..at + |s|] == s
      ensures forall i | at + |s| <= i < block.Length :: block[i] == old(block[i])
    {
      for i := 0 to |s|
        invariant block[..at] == old(block[..at]) && block[at..at + i] == s[..i]
        invariant forall j | at + i <= j < block.Length :: block[j] == old(block[j])
      {
        block[at + i] := s[i];
      }
    }

    /** `pbump` takes an int. */
    method Pbump(n: nat)
      modifies this`pptr
      ensures pptr == old(pptr) + Narrow(n)
    {
      pptr := pptr + Narrow(n);
    }

    /** `expand_put`.  While the vector has spare capacity the put area does not grow; when it has none, the
        areas are set to the whole new vector, and the put pointer to its old offset if that fits an int. */
    method ExpandPut()
      requires Valid()
      modifies this, data
      ensures data == old(data) || fresh(data)
      ensures old(size) <= size <= data.Length && data[..old(size)] == old(data[..size]) && gptr == old(gptr)
      ensures if old(size) < old(data.Length) then
                && pptr == old(pptr) && data == old(data) && size == old(size) + 1
                && pend == old(pend) && gend == old(gend)
              else
                && pptr == Narrow(old(pptr))
                && size == data.Length == pend == gend == NextCapacity(old(data.Length))
      ensures pptr == old(pptr) <==> old(size) < old(data.Length) || old(pptr) <= INT_MAX
      ensures Valid() <==> pptr >= 0
      ensures pptr == old(pptr) ==> Written() == old(Written())
    {
      if data.Length > size {
        VecResize(size + 1);
        return;
      }
      var gpOff, pOff := gptr, pptr;
      VecResize(size + 1);
      VecResize(data.Length);
      if gpOff > size {
        gpOff := size;
      }
      if pOff > size {
        pOff := size;
      }
      getBlock, gptr, gend := data, gpOff, size;
      putBlock, pptr, pend := data, 0, size;
      Pbump(pOff);
      BumpIsExact(pOff);
    }

    /** One more character was put, and nothing else happened to what was put or is left to get. */
    twostate predicate OneMorePut(c: Char)
      reads this, data
    {
      && old(Valid()) && Valid() && (data == old(data) || fresh(data)) && gptr == old(gptr)
      && Written() == old(Written()) + [c]
      && (old(size) == old(data.Length) ==> size == data.Length)
    }

    /** The put area is all of a larger vector. */
    twostate predicate Enlarged()
      reads this
    {
      size == data.Length == pend == NextCapacity(old(data.Length))
    }

    /** `overflow`: room is made until `sputc` finds some.  When the put pointer ends up elsewhere, `ok` is false
        and the model stops there. */
    method Overflow(c: int) returns (r: int, ok: bool)
      requires Valid()
      modifies this, data
      ensures ok <==> old(pptr) <= INT_MAX || (old(size) < old(data.Length) && (c == EOF || old(pptr) < old(pend)))
      ensures ok && c != EOF ==> OneMorePut(ToChar(c)) && (old(pptr) == old(pend) ==> Enlarged())
      ensures ok && c == EOF ==> Valid() && Written() == old(Written()) && gptr == old(gptr)
      ensures ok ==> r != EOF && (data == old(data) || fresh(data))
      decreases data.Length - size + 1, 0
    {
      var before := pptr;
      ExpandPut();
      ok := pptr == before;
      if ok && c != EOF {
        var put;
        put, ok := Sputc(ToChar(c));
      }
      r := 1;
    }

    /** `sputc`: a character is accepted exactly if there is room or the offset of the put pointer fits an int. */
    method Sputc(c: Char) returns (r: int, ok: bool)
      requires Valid()
      modifies this, data
      ensures ok <==> old(pptr) < old(pend) || old(pptr) <= INT_MAX
      ensures ok ==> OneMorePut(c) && r != EOF
      ensures ok ==> if old(pptr) < old(pend) then data == old(data) && pend == old(pend) else Enlarged()
      decreases if pptr < pend then 0 else data.Length - size + 1, 1
    {
      IntTypeRoundTrip(c);
      if pptr < pend {
        putBlock[pptr] := c;
        Pbump(1);
        r, ok := ToInt(c), true;
      } else {
        r, ok := Overflow(ToInt(c));
      }
    }

    /** `xsputn`, which `sputn` calls: block by block, with one `overflow` at each full put area. */
    method Sputn(s: seq<Char>) returns (ret: nat, ok: bool)
      requires Valid()
      modifies this, data
      ensures ok <==> Placed(old(pptr), old(pend), old(data.Length), |s|, true)
      ensures ok ==> Valid() && (data == old(data) || fresh(data))
      ensures ok ==> ret == |s| && Written() == old(Written()) + s && gptr == old(gptr)
    {
      ret, ok := 0, true;
      ghost var written, fits := Written(), Placed(pptr, pend, data.Length, |s|, true);
      while ret < |s|
        invariant Valid() && (data == old(data) || fresh(data)) && ret <= |s|
        invariant Written() == written + s[..ret] && gptr == old(gptr)
        invariant Placed(pptr, pend, data.Length, |s| - ret, true) == fits
      {
        ghost var was := ret;
        ret, ok := PutSome(s, ret);
        if !ok {
          return;
        }
        assert written + s[..was] + s[was..ret] == written + s[..ret];
      }
      assert written + s[..ret] == written + s;
    }

    /** One round of its loop: fills the put area, then lets it overflow with one character. */
    method PutSome(s: seq<Char>, start: nat) returns (ret: nat, ok: bool)
      requires Valid() && start < |s|
      modifies this, data
      ensures ok <==> if |s| - start <= old(pend) - old(pptr) then |s| - start <= INT_MAX else old(pend) <= INT_MAX
      ensures ok ==> Valid() && (data == old(data) || fresh(data)) && start < ret <= |s|
      ensures ok ==> Written() == old(Written()) + s[start..ret] && gptr == old(gptr)
      ensures ok ==> if |s| - start <= old(pend) - old(pptr) then ret == |s|
                     else
                       && ret - start == old(pend) - old(pptr) + 1 && pptr == old(pend) + 1
                       && pend == data.Length == NextCapacity(old(data.Length))
    {
      ret, ok := start, true;
      var bufLen := pend - pptr;
      if bufLen > 0 {
        var remain := |s| - ret;
        var len := if bufLen < remain then bufLen else remain;
        ok := PutBlock(s[ret..ret + len]);
        ret := ret + len;
      }
      if ok && ret < |s| {
        IntTypeRoundTrip(s[ret]);
        var c;
        c, ok := Overflow(ToInt(s[ret]));
        assert s[start..ret] + [s[ret]] == s[start..ret + 1];
        if c != EOF {
          ret := ret + 1;
        }
      }
    }

    /** A block within the put area.  From 2^31 characters on the bump misses their end, and from 2^32 on the
        copy itself does not end. */
    method PutBlock(s: seq<Char>) returns (ok: bool)
      requires Valid() && |s| <= pend - pptr
      modifies this`pptr, data
      ensures ok <==> |s| <= INT_MAX
      ensures ok ==> Valid() && Written() == old(Written()) + s && pptr == old(pptr) + |s|
    {
      CopyIn(putBlock, pptr, s);
      var end := pptr + |s|;
      BumpIsExact(|s|);
      Pbump(|s|);
      ok := pptr == end;
    }

    /** `str` */
    method Str() returns (s: seq<Char>)
      requires Valid()
      ensures s == Written()
    {
      s := putBlock[..pptr];
    }

    /** `redirect_out_to_in`: what was put can be got. */
    method RedirectOutToIn()
      requires Valid()
      modifies this
      ensures Valid() && Unread() == Written() == old(Written())
      ensures data == old(data) && size == old(size) && pptr == old(pptr) && pend == old(pend)
    {
      getBlock, gptr, gend := putBlock, 0, pptr;
    }

    /** `underflow` is not overridden. */
    method Underflow() returns (r: int)
      ensures r == EOF
    {
      r := EOF;
    }

    /** `sgetc` */
    method Sgetc() returns (r: int)
      requires Valid()
      ensures r == if Unread() == [] then EOF else ToInt(Unread()[0])
    {
      if gptr < gend {
        return ToInt(getBlock[gptr]);
      }
      r := Underflow();
    }

    /** `sbumpc` */
    method Sbumpc() returns (r: int)
      requires Valid()
      modifies this`gptr
      ensures Valid() && Written() == old(Written())
      ensures if old(Unread()) == [] then r == EOF && gptr == old(gptr)
              else r == ToInt(old(Unread())[0]) && Unread() == old(Unread())[1..]
    {
      if gptr < gend {
        r := ToInt(getBlock[gptr]);
        gptr := gptr + 1;
        return;
      }
      r := Underflow();
    }

    /** `snextc` */
    method Snextc() returns (r: int)
      requires Valid()
      modifies this`gptr
      ensures Valid() && Written() == old(Written())
      ensures if old(Unread()) == [] then r == EOF && gptr == old(gptr)
              else
                && Unread() == old(Unread())[1..]
                && r == if Unread() == [] then EOF else ToInt(Unread()[0])
    {
      var n := Sbumpc();
      if n != EOF {
        r := Sgetc();
      } else {
        r := EOF;
      }
    }
  }

  /** `__copy_streambufs`: everything left to get is put, and counted, as far as the put pointer is right. */
  method CopyStreambufs(src: VectorStreambuf, dst: VectorStreambuf) returns (ret: nat, ok: bool)
    requires src.Valid() && dst.Valid() && src != dst && src.data != dst.data
    modifies src`gptr, dst, dst.data
    ensures ok <==> old(dst.Fits(|src.Unread()|))
    ensures ok ==> src.Valid() && dst.Valid() && src.Unread() == [] && ret == |old(src.Unread())|
    ensures ok ==> dst.Written() == old(dst.Written()) + old(src.Unread()) && src.Written() == old(src.Written())
  {
    ret, ok := 0, true;
    ghost var left, all, written, srcWritten := src.Unread(), src.Unread(), dst.Written(), src.Written();
    ghost var fits := dst.Fits(|left|);
    var c := src.Sgetc();
    while c != EOF
      invariant src.Valid() && dst.Valid() && src.data == old(src.data)
      invariant dst.data == old(dst.data) || fresh(dst.data)
      invariant left == src.Unread() && src.Written() == srcWritten
      invariant dst.Written() + left == written + all && ret + |left| == |all|
      invariant c == if left == [] then EOF else ToInt(left[0])
      invariant ok && dst.Fits(|left|) == fits
      decreases |left|
    {
      OneMoved(dst.Written(), left);
      var accepted;
      accepted, c, ok := CopyOne(src, dst, c);
      if !ok || !accepted {
        break;
      }
      left := left[1..];
      ret := ret + 1;
    }
  }

  lemma OneMoved(before: seq<Char>, left: seq<Char>)
    requires left != []
    ensures before + left[..1] + left[1..] == before + left
  {
  }

  /** One round of its loop. */
  method CopyOne(src: VectorStreambuf, dst: VectorStreambuf, c: int) returns (accepted: bool, r: int, ok: bool)
    requires src.Valid() && dst.Valid() && src != dst && src.data != dst.data
    requires src.Unread() != [] && c == ToInt(src.Unread()[0])
    modifies src`gptr, dst, dst.data
    ensures !ok ==> !old(dst.Fits(|src.Unread()|))
    ensures ok ==> accepted && dst.Valid() && dst.Written() == old(dst.Written()) + old(src.Unread())[..1]
    ensures ok ==> dst.data == old(dst.data) || fresh(dst.data)
    ensures ok ==> src.Valid() && src.Unread() == old(src.Unread())[1..] && src.Written() == old(src.Written())
    ensures ok ==> dst.Fits(|src.Unread()|) == old(dst.Fits(|src.Unread()|))
    ensures ok ==> r == if src.Unread() == [] then EOF else ToInt(src.Unread()[0])
  {
    IntTypeRoundTrip(src.Unread()[0]);
    ghost var left := src.Unread();
    r, ok := dst.Sputc(ToChar(c));
    accepted := r != EOF;
    if !ok || !accepted {
      return;
    }
    assert src.Unread() == left;
    r := src.Snextc();
  }
}
