/** The character-array primitives that the string class is built on. */
module CharTraits {
  import opened Common

  /** `a` after copying `n` characters forward, one by one, from index `s` to index `d` of itself. */
  ghost function SelfCopied(a: seq<Char>, d: nat, s: nat, n: nat): (r: seq<Char>)
    requires d + n <= |a| && s + n <= |a|
    ensures |r| == |a|
  {
    if n == 0 then a
    else
      var b := SelfCopied(a, d, s, n - 1);
      b[d + n - 1 := b[s + n - 1]]
  }

  /** When the source ends before the target begins, that is a plain copy. */
  lemma {:induction false} SelfCopyIsPlain(a: seq<Char>, d: nat, s: nat, n: nat)
    requires s + n <= d && d + n <= |a|
    ensures SelfCopied(a, d, s, n) == a[..d] + a[s..s + n] + a[d + n..]
  {
    if n > 0 {
      SelfCopyIsPlain(a, d, s, n - 1);
      PlainStep(a, d, s, n);
    } else {
      assert a[..d] + a[s..s] + a[d..] == a;
    }
  }

  lemma PlainStep(a: seq<Char>, d: nat, s: nat, n: nat)
    requires n > 0 && s + n <= d && d + n <= |a|
    ensures
      var b := a[..d] + a[s..s + n - 1] + a[d + n - 1..];
      b[d + n - 1 := b[s + n - 1]] == a[..d] + a[s..s + n] + a[d + n..]
  {
    assert a[s..s + n] == a[s..s + n - 1] + [a[s + n - 1]];
    assert a[d + n - 1..] == [a[d + n - 1]] + a[d + n..];
  }

  /** When the source ends one character inside the target, that character has been overwritten by the
      first one before it is read. */
  lemma SelfCopyByOne(a: seq<Char>, d: nat, s: nat, n: nat)
    requires n > 0 && s + n == d + 1 && d + n <= |a|
    ensures SelfCopied(a, d, s, n) == a[..d] + a[s..d] + [a[s]] + a[d + n..]
  {
    if n > 1 {
      SelfCopyIsPlain(a, d, s, n - 1);
    }
  }

  /** `b` is `a` with `cs` at `d`. */
  ghost predicate Overwritten(a: seq<Char>, b: seq<Char>, d: nat, cs: seq<Char>)
    requires d + |cs| <= |a|
  {
    && |b| == |a|
    && (forall k | 0 <= k < d || d + |cs| <= k < |a| :: b[k] == a[k])
    && (forall k | 0 <= k < |cs| :: b[d + k] == cs[k])
  }

  lemma OverwrittenIsSpliced(a: seq<Char>, b: seq<Char>, d: nat, cs: seq<Char>)
    requires d + |cs| <= |a| && Overwritten(a, b, d, cs)
    ensures b == a[..d] + cs + a[d + |cs|..]
  {
    forall k | 0 <= k < |a| ensures b[k] == (a[..d] + cs + a[d + |cs|..])[k] {
      assert d <= k < d + |cs| ==> b[d + (k - d)] == cs[k - d];
    }
  }

  /** `Char_Traits::copy`, or one assignment when there is one character.  It counts in an unsigned int: a
      copy of more characters than that can count starts over and never ends. */
  method CopyChars(dst: array<Char>, d: nat, src: array<Char>, s: nat, n: nat) returns (ends: bool)
    requires d + n <= dst.Length && s + n <= src.Length
    modifies dst
    ensures ends <==> n < UINT_VALUES
    ensures ends && dst != src ==> dst[..] == old(dst[..d]) + src[s..s + n] + old(dst[d + n..])
    ensures ends && dst == src ==> dst[..] == SelfCopied(old(dst[..]), d, s, n)
  {
    var i := 0;
    while i < n
      invariant 0 <= i <= n && i < UINT_VALUES
      invariant dst != src ==> Overwritten(old(dst[..]), dst[..], d, src[s..s + i])
      invariant dst == src ==> dst[..] == SelfCopied(old(dst[..]), d, s, i)
      decreases n - i
    {
      if i + 1 == UINT_VALUES {
        return false;
      }
      CopyOne(dst, d, src, s, i, old(dst[..]));
      i := i + 1;
    }
    if dst != src {
      OverwrittenIsSpliced(old(dst[..]), dst[..], d, src[s..s + n]);
    }
    ends := true;
  }

  /** One round of the copy. */
  method CopyOne(dst: array<Char>, d: nat, src: array<Char>, s: nat, i: nat, ghost was: seq<Char>)
    requires d + i < dst.Length && s + i < src.Length && |was| == dst.Length
    requires dst != src ==> Overwritten(was, dst[..], d, src[s..s + i])
    requires dst == src ==> dst[..] == SelfCopied(was, d, s, i)
    modifies dst
    ensures dst != src ==> Overwritten(was, dst[..], d, src[s..s + (i + 1)])
    ensures dst == src ==> dst[..] == SelfCopied(was, d, s, i + 1)
  {
    dst[d + i] := src[s + i];
  }

  /** `Char_Traits::assign` of a run of characters. */
  method AssignChars(a: array<Char>, d: nat, n: nat, c: Char)
    requires d + n <= a.Length
    modifies a
    ensures a[..] == old(a[..d]) + seq(n, _ => c) + old(a[d + n..])
  {
    for i := 0 to n
      invariant forall k | 0 <= k < d || d + i <= k < a.Length :: a[k] == old(a[k])
      invariant forall k | d <= k < d + i :: a[k] == c
    {
      a[d + i] := c;
    }
    OverwrittenIsSpliced(old(a[..]), a[..], d, seq(n, _ => c));
  }

  /** `Char_Traits::move` within one buffer: the target receives what the source held, however the two
      overlap. */
  method MoveChars(a: array<Char>, d: nat, s: nat, n: nat)
    requires d + n <= a.Length && s + n <= a.Length
    modifies a
    ensures a[..] == old(a[..d]) + old(a[s..s + n]) + old(a[d + n..])
  {
    if d + n < s || s + n < d || d < s {
      MoveUpward(a, d, s, n);
    } else if s < d {
      MoveDownward(a, d, s, n);
    }
    OverwrittenIsSpliced(old(a[..]), a[..], d, old(a[s..s + n]));
  }

  method MoveUpward(a: array<Char>, d: nat, s: nat, n: nat)
    requires d + n <= a.Length && s + n <= a.Length && (d + n < s || s + n < d || d < s)
    modifies a
    ensures forall k | 0 <= k < d || d + n <= k < a.Length :: a[k] == old(a[k])
    ensures forall k | d <= k < d + n :: a[k] == old(a[k - d + s])
  {
    var i := 0;
    while i < n
      invariant 0 <= i <= n
      invariant forall k | 0 <= k < d || d + i <= k < a.Length :: a[k] == old(a[k])
      invariant forall k | d <= k < d + i :: a[k] == old(a[k - d + s])
    {
      a[d + i] := a[s + i];
      i := i + 1;
    }
  }

  method MoveDownward(a: array<Char>, d: nat, s: nat, n: nat)
    requires s < d && d + n <= a.Length
    modifies a
    ensures forall k | 0 <= k < d || d + n <= k < a.Length :: a[k] == old(a[k])
    ensures forall k | d <= k < d + n :: a[k] == old(a[k - d + s])
  {
    var i: int := n - 1;
    while i > 0
      invariant i < n && (0 <= i || i == n - 1)
      invariant forall k | 0 <= k <= d + i || d + n <= k < a.Length :: a[k] == old(a[k])
      invariant forall k | d + i < k < d + n :: a[k] == old(a[k - d + s])
    {
      a[d + i] := a[s + i];
      i := i - 1;
    }
    if n > 0 {
      a[d] := a[s];
    }
  }

  /** `Char_Traits::compare`: the sign of the first difference. */
  method Compare(a: seq<Char>, b: seq<Char>, n: nat) returns (r: int)
    requires n <= |a| && n <= |b|
    ensures r == 0 <==> a[..n] == b[..n]
    ensures r != 0 ==> exists k: nat :: FirstDifference(a[..n], b[..n], k) && r == if a[k] < b[k] then -1 else 1
  {
    for i := 0 to n
      invariant a[..i] == b[..i]
    {
      if a[i] != b[i] {
        assert a[..n][..i] == a[..i] && b[..n][..i] == b[..i];
        assert FirstDifference(a[..n], b[..n], i);
        return if a[i] < b[i] then -1 else 1;
      }
    }
    r := 0;
  }

  /** `Char_Traits::find`: the first of `n` characters from `p` on that equals `c`, or -1. */
  method Find(a: seq<Char>, p: nat, n: nat, c: Char) returns (r: int)
    requires p + n <= |a|
    ensures r == -1 || (p <= r < p + n && a[r] == c)
    ensures forall k :: p <= k < (if r == -1 then p + n else r) ==> a[k] != c
  {
    for i := 0 to n
      invariant forall k :: p <= k < p + i ==> a[k] != c
    {
      if a[p + i] == c {
        return p + i;
      }
    }
    r := -1;
  }
}
