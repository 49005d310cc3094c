/** Copying and comparing memory in strides of eight, four and one bytes. */
module MemOps {
  import opened Common

  /** How many bytes the next step takes when `left` bytes are left. */
  function Stride(left: nat): (l: nat)
    requires left > 0
    ensures 1 <= l <= left
  {
    if left >= 8 then 8 else if left >= 4 then 4 else 1
  }

  /** One load and one store of a word. */
  method StoreWord(a: array<Byte>, d: nat, w: seq<Byte>)
    requires d + |w| <= a.Length
    modifies a
    ensures a[..] == old(a[..d]) + w + old(a[d + |w|..])
  {
    for i := 0 to |w|
      invariant a[..] == old(a[..d]) + w[..i] + old(a[d + i..])
    {
      a[d + i] := w[i];
    }
  }

  /** The bytes `[s, s + n)` of `was` are at `d`, and everything else is where it was. */
  ghost predicate Moved(now: seq<Byte>, was: seq<Byte>, d: nat, s: nat, n: nat)
    requires |now| == |was| && d + n <= |was| && s + n <= |was|
  {
    && (forall k {:trigger now[k]} | d <= k < d + n :: now[k] == was[k - d + s])
    && (forall k {:trigger now[k]} | 0 <= k < |was| && !(d <= k < d + n) :: now[k] == was[k])
  }

  /** `memcpy` within one buffer.  It is right when the ranges do not overlap, and also when the target
      starts at least one word before the source. */
  method MemCpy(a: array<Byte>, d: nat, s: nat, num: nat)
    requires d + num <= a.Length && s + num <= a.Length
    requires d + num <= s || s + num <= d || d + 8 <= s
    modifies a
    ensures Moved(a[..], old(a[..]), d, s, num)
  {
    var n, i := num, 0;
    while n >= 8
      invariant n + i == num && Moved(a[..], old(a[..]), d, s, i)
    {
      CopyWord(a, old(a[..]), d, s, i, 8);
      n, i := n - 8, i + 8;
    }
    while n >= 4
      invariant n + i == num && Moved(a[..], old(a[..]), d, s, i)
    {
      CopyWord(a, old(a[..]), d, s, i, 4);
      n, i := n - 4, i + 4;
    }
    while n > 0
      invariant n + i == num && Moved(a[..], old(a[..]), d, s, i)
    {
      CopyWord(a, old(a[..]), d, s, i, 1);
      n, i := n - 1, i + 1;
    }
  }

  method CopyWord(a: array<Byte>, ghost was: seq<Byte>, d: nat, s: nat, i: nat, l: nat)
    requires l <= 8 && d + i + l <= a.Length && s + i + l <= a.Length && |was| == a.Length
    requires d + i + l <= s || s + i + l <= d || d + 8 <= s
    requires Moved(a[..], was, d, s, i)
    modifies a
    ensures Moved(a[..], was, d, s, i + l)
  {
    StoreWord(a, d + i, a[s + i..s + i + l]);
  }

  /** `memmove` within one buffer: right for every overlap, unless the target starts less than a word before
      the source and there are more bytes than an int can count. */
  method MemMove(a: array<Byte>, d: nat, s: nat, num: nat) returns (defined: bool)
    requires d + num <= a.Length && s + num <= a.Length
    modifies a
    ensures defined <==> !(d < s < d + 8 && num > INT_MAX)
    ensures defined ==> Moved(a[..], old(a[..]), d, s, num)
  {
    defined := true;
    if d == s {
    } else if d > s {
      if d > s + num {
        MemCpy(a, d, s, num);
      } else {
        CopyBackward(a, d, s, num);
      }
    } else {
      var diff := s - d;
      if d + num < s {
        MemCpy(a, d, s, num);
      } else if diff < 8 {
        defined := CopyForward(a, d, s, num);
      } else {
        MemCpy(a, d, s, num);
      }
    }
  }

  method CopyBackward(a: array<Byte>, d: nat, s: nat, num: nat)
    requires s < d && d + num <= a.Length
    modifies a
    ensures Moved(a[..], old(a[..]), d, s, num)
  {
    var n: nat := num;
    while n != 0
      invariant n <= num && Moved(a[..], old(a[..]), d + n, s + n, num - n)
    {
      a[d + n - 1] := a[s + n - 1];
      n := n - 1;
    }
  }

  /** Its index is an int, which must not be incremented past its largest value. */
  method CopyForward(a: array<Byte>, d: nat, s: nat, num: nat) returns (defined: bool)
    requires d < s && s + num <= a.Length
    modifies a
    ensures defined <==> num <= INT_MAX
    ensures defined ==> Moved(a[..], old(a[..]), d, s, num)
  {
    var i := 0;
    while i < num
      invariant i <= num && i <= INT_MAX && Moved(a[..], old(a[..]), d, s, i)
    {
      a[d + i] := a[s + i];
      if i == INT_MAX {
        return false;
      }
      i := i + 1;
    }
    defined := true;
  }

  // ----- memcmp

  function Order(x: nat, y: nat): int {
    if x == y then 0 else if x < y then -1 else 1
  }

  /** `memcmp` from byte `k` on: stride by stride. */
  function CompareFrom(p: seq<Byte>, q: seq<Byte>, n: nat, k: nat): int
    requires k <= n <= |p| && n <= |q|
    decreases n - k
  {
    if k == n then 0
    else
      var l := Stride(n - k);
      var order := Order(LittleEndian(p[k..k + l]), LittleEndian(q[k..k + l]));
      if order != 0 then order else CompareFrom(p, q, n, k + l)
  }

  /** One of its loops. */
  method CompareWords(p: seq<Byte>, q: seq<Byte>, start: nat, left: nat, l: nat) returns (r: int, k: nat, n: nat)
    requires 0 < l && start + left <= |p| && start + left <= |q|
    requires left > 0 ==> Stride(left) <= l && (left >= l ==> Stride(left) == l)
    requires l == 8 || (l == 4 && left < 8) || (l == 1 && left < 4)
    ensures k + n == start + left && (r == 0 ==> n < l)
    ensures if r != 0 then CompareFrom(p, q, start + left, start) == r
            else CompareFrom(p, q, start + left, start) == CompareFrom(p, q, start + left, k)
  {
    k, n := start, left;
    while n >= l
      invariant k + n == start + left && n <= left
      invariant CompareFrom(p, q, start + left, start) == CompareFrom(p, q, start + left, k)
    {
      var x, y := LittleEndian(p[k..k + l]), LittleEndian(q[k..k + l]);
      if x != y {
        if x < y {
          return -1, k, n;
        } else {
          return 1, k, n;
        }
      }
      k, n := k + l, n - l;
    }
    r := 0;
  }

  /** `memcmp`; `same` says whether the two pointers are equal. */
  method MemCmp(p: seq<Byte>, q: seq<Byte>, num: nat, same: bool) returns (r: int)
    requires num <= |p| && num <= |q| && (same ==> p[..num] == q[..num])
    ensures r == CompareFrom(p, q, num, 0)
  {
    if same {
      EqualIsZero(p, q, num, 0);
      return 0;
    }
    var k, n;
    r, k, n := CompareWords(p, q, 0, num, 8);
    if r == 0 {
      r, k, n := CompareWords(p, q, k, n, 4);
      if r == 0 {
        r, k, n := CompareWords(p, q, k, n, 1);
      }
    }
  }

  /** It is zero exactly for equal memory. */
  lemma {:induction false} EqualIsZero(p: seq<Byte>, q: seq<Byte>, n: nat, k: nat)
    requires k <= n <= |p| && n <= |q|
    ensures CompareFrom(p, q, n, k) == 0 <==> p[k..n] == q[k..n]
    decreases n - k
  {
    if k < n {
      var l := Stride(n - k);
      EqualIsZero(p, q, n, k + l);
      LastByteDecides(p[k..k + l], q[k..k + l]);
      SliceSplit(p, q, k, k + l, n);
    }
  }

  lemma SliceSplit(p: seq<Byte>, q: seq<Byte>, a: nat, b: nat, c: nat)
    requires a <= b <= c <= |p| && c <= |q|
    ensures p[a..c] == q[a..c] <==> p[a..b] == q[a..b] && p[b..c] == q[b..c]
  {
    assert p[a..c] == p[a..b] + p[b..c] && q[a..c] == q[a..b] + q[b..c];
    assert p[a..c][..b - a] == p[a..b] && q[a..c][..b - a] == q[a..b];
    assert p[a..c][b - a..] == p[b..c] && q[a..c][b - a..] == q[b..c];
  }

  /** The last byte in which they differ. */
  ghost predicate LastDifference(v: seq<Byte>, w: seq<Byte>, i: nat) {
    i < |v| == |w| && v[i] != w[i] && v[i + 1..] == w[i + 1..]
  }

  /** Little-endian words compare like their last different bytes. */
  lemma {:induction false} LastByteDecides(v: seq<Byte>, w: seq<Byte>)
    requires |v| == |w|
    ensures LittleEndian(v) == LittleEndian(w) <==> v == w
    ensures forall i: nat | LastDifference(v, w, i) :: Order(LittleEndian(v), LittleEndian(w)) == Order(v[i], w[i])
  {
    if v != [] {
      LastByteDecides(v[1..], w[1..]);
      assert v == [v[0]] + v[1..] && w == [w[0]] + w[1..];
      forall i: nat | LastDifference(v, w, i)
        ensures Order(LittleEndian(v), LittleEndian(w)) == Order(v[i], w[i])
      {
        if i > 0 {
          assert v[1..][i..] == v[i + 1..] && w[1..][i..] == w[i + 1..];
          assert LastDifference(v[1..], w[1..], i - 1);
        }
      }
    }
  }

  /** Where the first stride with a difference begins. */
  ghost predicate FirstStride(p: seq<Byte>, q: seq<Byte>, n: nat, start: nat, k: nat)
    requires start <= n <= |p| && n <= |q|
    decreases n - start
  {
    start < n &&
    var l := Stride(n - start);
    if p[start..start + l] != q[start..start + l] then k == start else FirstStride(p, q, n, start + l, k)
  }

  lemma {:induction false} StrideDecides(p: seq<Byte>, q: seq<Byte>, n: nat, start: nat, k: nat)
    requires start <= n <= |p| && n <= |q| && FirstStride(p, q, n, start, k)
    ensures start <= k < n && p[start..k] == q[start..k]
    ensures var l := Stride(n - k);
      && p[k..k + l] != q[k..k + l]
      && CompareFrom(p, q, n, start) == Order(LittleEndian(p[k..k + l]), LittleEndian(q[k..k + l]))
    decreases n - start
  {
    var l := Stride(n - start);
    LastByteDecides(p[start..start + l], q[start..start + l]);
    if p[start..start + l] == q[start..start + l] {
      StrideDecides(p, q, n, start + l, k);
      SliceSplit(p, q, start, start + l, k);
    }
  }

  /** Whether two of `n` bytes are compared in one word: eight at a time from the start, then four if there are as
      many left, and the rest one by one. */
  predicate SameWord(n: nat, i: nat, j: nat) {
    || i == j
    || (i / 8 == j / 8 && i < n / 8 * 8 && j < n / 8 * 8)
    || (n / 8 * 8 <= i < n / 4 * 4 && n / 8 * 8 <= j < n / 4 * 4)
  }

  /** `first` is where the ranges differ first, and `last` is the last difference in the same word. */
  ghost predicate Differences(p: seq<Byte>, q: seq<Byte>, n: nat, first: nat, last: nat)
    requires n <= |p| && n <= |q|
  {
    && FirstDifference(p[..n], q[..n], first)
    && last < n && SameWord(n, first, last) && p[last] != q[last]
    && forall i | last < i < n && SameWord(n, first, i) :: p[i] == q[i]
  }

  /** Where a stride begins. */
  predicate Aligned(n: nat, k: nat) {
    k <= n && if n - k >= 4 then k % 8 == 0 else k >= n / 4 * 4
  }

  lemma EightBytes(k: nat, i: nat)
    requires k % 8 == 0
    ensures i / 8 == k / 8 <==> k <= i < k + 8
  {
  }

  lemma WholeWords(n: nat)
    ensures var e, f := n / 8 * 8, n / 4 * 4;
      e <= n < e + 8 && e % 8 == 0 && f == if n - e >= 4 then e + 4 else e
  {
    var q, r := n / 8, n % 8;
    if r >= 4 {
      QuarterOf(n, 2 * q + 1, r - 4);
    } else {
      QuarterOf(n, 2 * q, r);
    }
  }

  lemma QuarterOf(n: nat, q: nat, r: nat)
    requires n == 4 * q + r && r < 4
    ensures n / 4 == q
  {
  }

  lemma EightsBelow(n: nat, k: nat)
    requires k % 8 == 0 && k <= n
    ensures k <= n / 8 * 8 && (n - k >= 8 ==> k + 8 <= n / 8 * 8) && (n - k < 8 ==> k == n / 8 * 8)
  {
  }

  lemma {:induction false} StridesAreWords(n: nat, k: nat, i: nat, j: nat)
    requires Aligned(n, k) && k < n && k <= i < k + Stride(n - k) && j < n
    ensures SameWord(n, i, j) <==> k <= j < k + Stride(n - k)
    ensures Aligned(n, k + Stride(n - k))
  {
    WholeWords(n);
    if n - k >= 4 {
      EightsBelow(n, k);
      EightBytes(k, i);
      EightBytes(k, j);
    }
  }

  lemma PartOf(p: seq<Byte>, n: nat, i: nat, j: nat)
    requires i <= j <= n <= |p|
    ensures p[..n][i..j] == p[i..j]
  {
  }

  /** The stride that decides is the word of the first difference. */
  lemma {:induction false} WordDecides(p: seq<Byte>, q: seq<Byte>, n: nat, start: nat, first: nat) returns (k: nat)
    requires start <= n <= |p| && n <= |q| && Aligned(n, start) && start <= first
    requires FirstDifference(p[..n], q[..n], first)
    ensures FirstStride(p, q, n, start, k) && Aligned(n, k) && k <= first < k + Stride(n - k) <= n
    decreases n - start
  {
    var l := Stride(n - start);
    assert p[..n][first] == p[first] && q[..n][first] == q[first];
    assert p[..n][..first] == p[..first] && q[..n][..first] == q[..first];
    StridesAreWords(n, start, start, start);
    if first < start + l {
      k := start;
      assert p[start..start + l][first - start] == p[first] && q[start..start + l][first - start] == q[first];
    } else {
      PartOf(p, first, start, start + l);
      PartOf(q, first, start, start + l);
      k := WordDecides(p, q, n, start + l, first);
    }
  }

  /** Where two ranges differ there are such places. */
  lemma DifferencesExist(p: seq<Byte>, q: seq<Byte>, n: nat)
    requires n <= |p| && n <= |q| && p[..n] != q[..n]
    ensures exists first, last :: Differences(p, q, n, first, last)
  {
    var first := FirstDifferent(p[..n], q[..n]);
    var last := n - 1;
    while !SameWord(n, first, last) || p[last] == q[last]
      invariant first <= last < n
      invariant forall i | last < i < n && SameWord(n, first, i) :: p[i] == q[i]
      decreases last
    {
      last := last - 1;
    }
    assert Differences(p, q, n, first, last);
  }

  lemma FirstDifferent(v: seq<Byte>, w: seq<Byte>) returns (i: nat)
    requires |v| == |w| && v != w
    ensures FirstDifference(v, w, i)
  {
    i := 0;
    while v[i] == w[i]
      invariant i < |v| && v[..i] == w[..i] && v[i..] != w[i..]
      decreases |v| - i
    {
      assert v[i..] == [v[i]] + v[i + 1..] && w[i..] == [w[i]] + w[i + 1..];
      i := i + 1;
    }
  }

  lemma {:induction false} LastInStride(p: seq<Byte>, q: seq<Byte>, n: nat, first: nat, last: nat, k: nat)
    requires n <= |p| && n <= |q| && Differences(p, q, n, first, last)
    requires Aligned(n, k) && k <= first < k + Stride(n - k) <= n
    ensures k <= last < k + Stride(n - k)
    ensures LastDifference(p[k..k + Stride(n - k)], q[k..k + Stride(n - k)], last - k)
  {
    var l := Stride(n - k);
    StridesAreWords(n, k, first, last);
    var v, w := p[k..k + l], q[k..k + l];
    forall i | last - k < i < l ensures v[i] == w[i] {
      StridesAreWords(n, k, first, k + i);
    }
    assert v[last - k + 1..] == w[last - k + 1..];
  }

  lemma {:induction false} WordOrder(p: seq<Byte>, q: seq<Byte>, k: nat, l: nat, last: nat)
    requires k <= last < k + l <= |p| && k + l <= |q| && LastDifference(p[k..k + l], q[k..k + l], last - k)
    ensures Order(LittleEndian(p[k..k + l]), LittleEndian(q[k..k + l])) == if p[last] < q[last] then -1 else 1
  {
    LastByteDecides(p[k..k + l], q[k..k + l]);
    assert p[k..k + l][last - k] == p[last] && q[k..k + l][last - k] == q[last];
  }

  /** The sign is that of the last difference in the word of the first one.  The standard wants that of
      the first difference: the two agree exactly if both bytes differ in the same direction. */
  lemma {:induction false} SignIsRight(p: seq<Byte>, q: seq<Byte>, n: nat, first: nat, last: nat)
    requires n <= |p| && n <= |q| && Differences(p, q, n, first, last)
    ensures CompareFrom(p, q, n, 0) == if p[last] < q[last] then -1 else 1
    ensures CompareFrom(p, q, n, 0) == (if p[first] < q[first] then -1 else 1) <==>
      (p[first] < q[first] <==> p[last] < q[last])
  {
    assert p[..n][first] == p[first] && q[..n][first] == q[first];
    var k := WordDecides(p, q, n, 0, first);
    StrideDecides(p, q, n, 0, k);
    LastInStride(p, q, n, first, last, k);
    WordOrder(p, q, k, Stride(n - k), last);
  }

  /** Two ranges of four bytes whose order it gets wrong. */
  lemma FirstByteOutweighed()
    ensures CompareFrom([0, 1, 0, 0], [1, 0, 0, 0], 4, 0) == 1
    ensures FirstDifference([0, 1, 0, 0], [1, 0, 0, 0], 0)
  {
    var p: seq<Byte>, q: seq<Byte> := [0, 1, 0, 0], [1, 0, 0, 0];
    assert p[0..4] == p && q[0..4] == q && p[1..] == [1, 0, 0] && q[1..] == [0, 0, 0];
    LastByteDecides(p, q);
    assert LastDifference(p, q, 1);
  }
}
