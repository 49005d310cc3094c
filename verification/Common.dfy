/** What several modules share. */
module Common {

  datatype Option<+T> = None | Some(value: T)

  /** A byte of memory. */
  type Byte = b: nat | b < 256

  /** Plain char, signed as on the target. */
  type Char = x: int | -128 <= x < 128

  const INT_MAX: nat := 0x7fff_ffff
  const UINT_VALUES: nat := 0x1_0000_0000

  type int32 = x: int | -0x8000_0000 <= x <= INT_MAX

  /** Conversion to a 32-bit int. */
  function Narrow(x: int): int32 {
    (x + 0x8000_0000) % UINT_VALUES - 0x8000_0000
  }

  /** Which is the one int that differs by a multiple of 2^32. */
  lemma NarrowIsCongruent(x: int, y: int32)
    ensures y == Narrow(x) <==> (x - y) % UINT_VALUES == 0
  {
    var q := (x + 0x8000_0000) / UINT_VALUES;
    assert x - Narrow(x) == UINT_VALUES * q;
    if (x - y) % UINT_VALUES == 0 {
      var d := (x - y) / UINT_VALUES - q;
      assert Narrow(x) - y == UINT_VALUES * d;
    }
  }

  /** The element type a container template is instantiated with. */
  type Value(!new)

  /** `v` and `w` differ at `i` and at no earlier index. */
  ghost predicate FirstDifference<T>(v: seq<T>, w: seq<T>, i: nat) {
    i < |v| && i < |w| && v[..i] == w[..i] && v[i] != w[i]
  }

  function Pow2(n: nat): (p: int)
    ensures p > 0
  {
    if n == 0 then 1 else 2 * Pow2(n - 1)
  }

  /** A word as the processor loads it: the first byte is the least significant. */
  function LittleEndian(w: seq<Byte>): nat {
    if w == [] then 0 else w[0] + 256 * LittleEndian(w[1..])
  }
}
