/** `strlen` and `strnlen`, which look for the terminator eight bytes at a time. */
module WordScan {
  import opened Common

  const ADDRESSES: int := 0x1_0000_0000_0000_0000
  const HIMAGIC: bv64 := 0x8080808080808080
  const LOMAGIC: bv64 := 0x0101010101010101

  /** A mapped stretch of memory.  It starts and ends on a word boundary, as pages do; nothing outside it can be
      read, nor can address 0. */
  datatype Region = Region(base: nat, bytes: seq<bv8>) {
    ghost predicate Valid() {
      0 < base && base % 8 == 0 && |bytes| % 8 == 0 && base + |bytes| <= ADDRESSES
    }

    predicate Mapped(p: int) {
      base <= p < base + |bytes|
    }

    function Byte(p: int): bv8
      requires Mapped(p)
    {
      bytes[p - base]
    }

    function Long(p: int): bv64
      requires Mapped(p) && Mapped(p + 7)
    {
      Word(Byte(p), Byte(p + 1), Byte(p + 2), Byte(p + 3), Byte(p + 4), Byte(p + 5), Byte(p + 6), Byte(p + 7))
    }

    /** No zero byte in `[p, q)`. */
    ghost predicate Clear(p: int, q: int)
      requires base <= p && q <= base + |bytes|
    {
      forall a :: p <= a < q ==> Byte(a) != 0
    }

    /** The word at `p` of a region is inside it when its first byte is. */
    lemma WordIsMapped(p: int)
      requires Valid() && Mapped(p) && p % 8 == 0
      ensures Mapped(p + 7)
    {
    }
  }

  function Word(a: bv8, b: bv8, c: bv8, d: bv8, e: bv8, f: bv8, g: bv8, h: bv8): bv64 {
    (a as bv64) | ((b as bv64) << 8) | ((c as bv64) << 16) | ((d as bv64) << 24) |
    ((e as bv64) << 32) | ((f as bv64) << 40) | ((g as bv64) << 48) | ((h as bv64) << 56)
  }

  predicate StrictTest(w: bv64) {
    (w - LOMAGIC) & !w & HIMAGIC != 0
  }

  predicate LooseTest(w: bv64) {
    (w - LOMAGIC) & HIMAGIC != 0
  }

  /** The test of `strlen` tells exactly whether the word holds a zero byte. */
  lemma StrictTestIsExact(a: bv8, b: bv8, c: bv8, d: bv8, e: bv8, f: bv8, g: bv8, h: bv8)
    ensures StrictTest(Word(a, b, c, d, e, f, g, h)) <==>
      a == 0 || b == 0 || c == 0 || d == 0 || e == 0 || f == 0 || g == 0 || h == 0
  {
  }

  /** The test of `strnlen` finds every zero byte too, and misfires exactly on bytes above 128. */
  lemma LooseTestMisfires(a: bv8, b: bv8, c: bv8, d: bv8, e: bv8, f: bv8, g: bv8, h: bv8)
    ensures LooseTest(Word(a, b, c, d, e, f, g, h)) <==>
      || a == 0 || b == 0 || c == 0 || d == 0 || e == 0 || f == 0 || g == 0 || h == 0
      || a > 0x80 || b > 0x80 || c > 0x80 || d > 0x80 || e > 0x80 || f > 0x80 || g > 0x80 || h > 0x80
  {
  }

  /** The chain of byte comparisons both functions have behind their test: the first zero byte of the word at
      `cp`, or 8. */
  method FirstZero(m: Region, cp: int) returns (k: int)
    requires m.Mapped(cp) && m.Mapped(cp + 7)
    ensures 0 <= k <= 8 && m.Clear(cp, cp + k)
    ensures k < 8 ==> m.Byte(cp + k) == 0
  {
    if m.Byte(cp) == 0 { return 0; }
    if m.Byte(cp + 1) == 0 { return 1; }
    if m.Byte(cp + 2) == 0 { return 2; }
    if m.Byte(cp + 3) == 0 { return 3; }
    if m.Byte(cp + 4) == 0 { return 4; }
    if m.Byte(cp + 5) == 0 { return 5; }
    if m.Byte(cp + 6) == 0 { return 6; }
    if m.Byte(cp + 7) == 0 { return 7; }
    return 8;
  }

  /** A word that fails a test has no zero byte. */
  lemma NothingMissed(m: Region, p: int)
    requires m.Mapped(p) && m.Mapped(p + 7)
    ensures !StrictTest(m.Long(p)) || !LooseTest(m.Long(p)) ==> m.Clear(p, p + 8)
  {
    StrictTestIsExact(m.Byte(p), m.Byte(p + 1), m.Byte(p + 2), m.Byte(p + 3),
                      m.Byte(p + 4), m.Byte(p + 5), m.Byte(p + 6), m.Byte(p + 7));
    LooseTestMisfires(m.Byte(p), m.Byte(p + 1), m.Byte(p + 2), m.Byte(p + 3),
                      m.Byte(p + 4), m.Byte(p + 5), m.Byte(p + 6), m.Byte(p + 7));
  }

  /** One round of the word loops, with either test: the test never hides a zero byte, and a misfire changes
      nothing.  8 means the loop goes on. */
  method ScanWord(m: Region, cp: int, strict: bool) returns (k: int)
    requires m.Valid() && m.Mapped(cp) && cp % 8 == 0
    ensures 0 <= k <= 8 && cp + 8 <= m.base + |m.bytes| && m.Clear(cp, cp + k)
    ensures k < 8 ==> m.Byte(cp + k) == 0
  {
    m.WordIsMapped(cp);
    var word := m.Long(cp);
    NothingMissed(m, cp);
    if if strict then StrictTest(word) else LooseTest(word) {
      k := FirstZero(m, cp);
    } else {
      k := 8;
    }
  }

  function Next(p: int, n: int): int {
    (p + n) % ADDRESSES
  }

  /** A scan that starts at `str` has seen no zero byte up to `reached`, and its pointer is there: at zero again
      if that is the end of the address space. */
  ghost predicate Passed(m: Region, str: int, reached: int, pointer: int) {
    && m.Valid() && m.base <= str <= reached <= m.base + |m.bytes|
    && m.Clear(str, reached) && pointer == if reached == ADDRESSES then 0 else reached
  }

  /** Such a pointer can be read from unless the scan is through with the stretch. */
  lemma PointerIsMapped(m: Region, str: int, reached: int, pointer: int)
    requires Passed(m, str, reached, pointer)
    ensures m.Mapped(pointer) <==> reached < m.base + |m.bytes|
    ensures m.Mapped(pointer) ==> pointer == reached
    ensures pointer % 8 == reached % 8
  {
    if reached == ADDRESSES {
      assert pointer == 0;
    } else {
      assert pointer == reached;
    }
  }

  /** One byte further. */
  lemma PassedByte(m: Region, str: int, reached: int)
    requires Passed(m, str, reached, reached) && m.Mapped(reached) && m.Byte(reached) != 0
    ensures Passed(m, str, reached + 1, Next(reached, 1))
  {
    NextOrZero(reached, 1);
  }

  lemma NextOrZero(p: int, n: nat)
    requires 0 <= p && p + n <= ADDRESSES
    ensures Next(p, n) == if p + n == ADDRESSES then 0 else p + n
  {
  }

  /** The first word boundary from `str` on. */
  function Boundary(str: int): int {
    str + (8 - str % 8) % 8
  }

  lemma BoundaryIsNear(str: int)
    ensures str <= Boundary(str) < str + 8 && Boundary(str) % 8 == 0
  {
  }

  /** The loop over single bytes up to the first word boundary, which stays inside the stretch. */
  method ScanToBoundary(m: Region, str: int) returns (charPtr: int, found: bool, ghost reached: int)
    requires m.Valid() && m.base <= str <= m.base + |m.bytes| && str < ADDRESSES
    ensures Passed(m, str, reached, charPtr) && reached < str + 8
    ensures if found then m.Mapped(charPtr) && charPtr == reached && m.Byte(charPtr) == 0 else reached % 8 == 0
  {
    charPtr, reached := str, str;
    BoundaryIsNear(str);
    while charPtr % 8 != 0
      invariant Passed(m, str, reached, charPtr)
      invariant reached <= Boundary(str)
      decreases m.base + |m.bytes| - reached
    {
      PointerIsMapped(m, str, reached, charPtr);
      if m.Byte(charPtr) == 0 {
        return charPtr, true, reached;
      }
      PassedByte(m, str, reached);
      charPtr, reached := Next(charPtr, 1), reached + 1;
    }
    PointerIsMapped(m, str, reached, charPtr);
    found := false;
  }

  /** One word further. */
  method PassWord(m: Region, str: int, longPtr: int, ghost reached: int, strict: bool) returns (k: int)
    requires Passed(m, str, reached, longPtr) && m.Mapped(longPtr) && reached % 8 == 0
    ensures 0 <= k <= 8 && longPtr == reached && m.Clear(str, reached + k) && reached + 8 <= m.base + |m.bytes|
    ensures if k < 8 then m.Byte(reached + k) == 0 else Passed(m, str, reached + 8, Next(longPtr, 8))
    ensures (reached + 8) % 8 == 0
  {
    PointerIsMapped(m, str, reached, longPtr);
    NextOrZero(longPtr, 8);
    k := ScanWord(m, longPtr, strict);
  }

  ghost predicate HasTerminator(m: Region, str: int)
    requires m.base <= str
  {
    exists p :: str <= p < m.base + |m.bytes| && m.Byte(p) == 0
  }

  /** `strlen`.  It may read past the terminator, but only inside the aligned word that holds it.  None stands
      for a read of unmapped memory, which happens exactly if there is no terminator. */
  method StrLen(m: Region, str: int) returns (r: Option<nat>)
    requires m.Valid() && m.base <= str <= m.base + |m.bytes| && str < ADDRESSES
    ensures r.Some? <==> HasTerminator(m, str)
    ensures r.Some? ==> m.Mapped(str + r.value) && m.Byte(str + r.value) == 0 && m.Clear(str, str + r.value)
  {
    var charPtr, found, reached := ScanToBoundary(m, str);
    if found {
      return Some(charPtr - str);
    }
    var longPtr := charPtr;
    while true
      invariant Passed(m, str, reached, longPtr) && reached % 8 == 0
      decreases m.base + |m.bytes| - reached
    {
      PointerIsMapped(m, str, reached, longPtr);
      if !m.Mapped(longPtr) {
        return None;
      }
      var cp := longPtr;
      var k := PassWord(m, str, longPtr, reached, true);
      if k < 8 {
        return Some(cp - str + k);
      }
      longPtr, reached := Next(longPtr, 8), reached + 8;
    }
  }

  /** What `strnlen` needs of its caller: a terminator, or `maxlen` readable bytes that stop short of the last
      word of the address space (the pointer behind that word is zero again and the loop goes on). */
  ghost predicate Bounded(m: Region, str: int, maxlen: int)
    requires m.base <= str
  {
    HasTerminator(m, str) || (str + maxlen <= m.base + |m.bytes| && str + maxlen <= ADDRESSES - 8)
  }

  function EndPtr(str: int, maxlen: int): int {
    var endPtr := (str + maxlen) % ADDRESSES;
    if endPtr < str then ADDRESSES - 1 else endPtr
  }

  lemma EndInReach(str: int, maxlen: int)
    requires 0 <= str < ADDRESSES && 0 <= maxlen < ADDRESSES
    ensures EndPtr(str, maxlen) == if str + maxlen < ADDRESSES then str + maxlen else ADDRESSES - 1
  {
  }

  lemma RunsOut(m: Region, str: int, maxlen: nat, reached: int, longPtr: int, endPtr: int)
    requires Passed(m, str, reached, longPtr) && !m.Mapped(longPtr) && longPtr < endPtr
    requires str < ADDRESSES && 0 < maxlen < ADDRESSES && endPtr == EndPtr(str, maxlen)
    requires reached == ADDRESSES ==> endPtr > ADDRESSES - 8
    ensures !Bounded(m, str, maxlen)
  {
    PointerIsMapped(m, str, reached, longPtr);
    EndInReach(str, maxlen);
  }

  lemma EndsBehind(m: Region, str: int, reached: int, longPtr: int, endPtr: int)
    requires Passed(m, str, reached, longPtr) && endPtr <= longPtr && 0 < endPtr
    requires reached == ADDRESSES ==> endPtr > ADDRESSES - 8
    ensures endPtr <= reached < ADDRESSES
  {
  }

  /** Where a scan may stop: at a zero byte, or on a boundary that is not before the end. */
  ghost predicate Stopped(m: Region, str: int, p: int, endPtr: int) {
    && m.base <= str <= p <= m.base + |m.bytes| && m.Clear(str, p)
    && ((endPtr <= p < ADDRESSES && p % 8 == 0) || (m.Mapped(p) && m.Byte(p) == 0))
  }

  /** However far the scan got, the clamp makes it the answer. */
  lemma Ends(m: Region, str: int, maxlen: nat, p: int, endPtr: int)
    requires m.Valid() && Stopped(m, str, p, endPtr)
    requires str < ADDRESSES && 0 < maxlen < ADDRESSES && endPtr == EndPtr(str, maxlen)
    ensures Bounded(m, str, maxlen)
    ensures
      var n := (if p > endPtr then endPtr else p) - str;
      && 0 <= n <= maxlen && str + n <= m.base + |m.bytes| && m.Clear(str, str + n)
      && (n < maxlen ==> m.Mapped(str + n) && m.Byte(str + n) == 0)
  {
    EndInReach(str, maxlen);
  }

  /** The word loop of `strnlen`; `ok` is false if it reads unmapped memory. */
  method ScanWords(m: Region, str: int, maxlen: nat, start: int, ghost from: int, endPtr: int)
    returns (ok: bool, charPtr: int, ghost reached: int)
    requires Passed(m, str, from, start) && from % 8 == 0 && (from == ADDRESSES ==> endPtr > ADDRESSES - 8)
    requires str < ADDRESSES && 0 < maxlen < ADDRESSES && endPtr == EndPtr(str, maxlen)
    ensures !ok ==> !Bounded(m, str, maxlen)
    ensures ok ==> Stopped(m, str, reached, endPtr)
    ensures ok ==> charPtr == reached || (charPtr == endPtr && endPtr <= reached)
  {
    var longPtr := start;
    charPtr, reached := start, from;
    while longPtr < endPtr
      invariant Passed(m, str, reached, longPtr) && reached % 8 == 0
      invariant reached == ADDRESSES ==> endPtr > ADDRESSES - 8
      invariant charPtr == longPtr || charPtr == endPtr
      decreases m.base + |m.bytes| - reached
    {
      PointerIsMapped(m, str, reached, longPtr);
      if !m.Mapped(longPtr) {
        RunsOut(m, str, maxlen, reached, longPtr, endPtr);
        return false, charPtr, reached;
      }
      var cp := longPtr;
      var k := PassWord(m, str, longPtr, reached, false);
      if k < 8 {
        return true, cp + k, reached + k;
      }
      longPtr, reached := Next(longPtr, 8), reached + 8;
      charPtr := endPtr;
    }
    EndInReach(str, maxlen);
    EndsBehind(m, str, reached, longPtr, endPtr);
    ok := true;
  }

  /** `strnlen`: the lesser of `maxlen` and the distance to the terminator.  None stands for a read of unmapped
      memory. */
  method StrNLen(m: Region, str: int, maxlen: nat) returns (r: Option<nat>)
    requires m.Valid() && m.base <= str <= m.base + |m.bytes| && str < ADDRESSES && maxlen < ADDRESSES
    ensures r.Some? <==> maxlen == 0 || Bounded(m, str, maxlen)
    ensures r.Some? ==> r.value <= maxlen && str + r.value <= m.base + |m.bytes| && m.Clear(str, str + r.value)
    ensures r.Some? && r.value < maxlen ==> m.Mapped(str + r.value) && m.Byte(str + r.value) == 0
  {
    EndInReach(str, maxlen);
    var endPtr := EndPtr(str, maxlen);
    if maxlen == 0 {
      return Some(0);
    }
    var charPtr, found, reached := ScanToBoundary(m, str);
    if !found {
      var ok;
      ok, charPtr, reached := ScanWords(m, str, maxlen, charPtr, reached, endPtr);
      if !ok {
        return None;
      }
    }
    Ends(m, str, maxlen, reached, endPtr);
    if charPtr > endPtr {
      charPtr := endPtr;
    }
    return Some(charPtr - str);
  }
}
