/** Printing numbers in decimal, and reading them. */
module Decimal {
  import opened Common

  // ----- Numerals

  function Pow10(k: nat): (p: nat)
    ensures p > 0
  {
    if k == 0 then 1 else 10 * Pow10(k - 1)
  }

  function Digit(d: nat): char {
    ((48 + d) % 256) as char
  }

  function Numeral(n: nat): (s: string)
    ensures s != []
  {
    if n < 10 then [Digit(n)] else Numeral(n / 10) + [Digit(n % 10)]
  }

  /** The text of an int. */
  function Text(n: int): string {
    if n < 0 then "-" + Numeral(-n) else Numeral(n)
  }

  predicate IsDigit(c: char) {
    '0' <= c <= '9'
  }

  predicate Digits(s: string) {
    forall i | 0 <= i < |s| :: IsDigit(s[i])
  }

  /** The number a string of digits stands for. */
  function ValueOf(s: string): nat
    requires Digits(s)
  {
    if s == [] then 0 else 10 * ValueOf(s[..|s| - 1]) + (s[|s| - 1] as int - 48)
  }

  lemma DigitAppended(s: string, d: nat)
    requires Digits(s) && d < 10
    ensures Digits(s + [Digit(d)]) && ValueOf(s + [Digit(d)]) == 10 * ValueOf(s) + d
  {
    var longer := s + [Digit(d)];
    assert longer[..|longer| - 1] == s && longer[|longer| - 1] as int == 48 + d;
  }

  lemma {:induction false} NumeralValue(n: nat)
    ensures Digits(Numeral(n)) && ValueOf(Numeral(n)) == n
  {
    if n < 10 {
      DigitAppended([], n);
      assert [] + [Digit(n)] == Numeral(n);
    } else {
      NumeralValue(n / 10);
      DigitAppended(Numeral(n / 10), n % 10);
    }
  }

  lemma {:induction false} NumeralLength(n: nat, k: nat)
    requires k > 0 && Pow10(k - 1) <= n < Pow10(k)
    ensures |Numeral(n)| == k
  {
    if k > 1 {
      NumeralLength(n / 10, k - 1);
    }
  }

  // ----- The printers

  /** What the printing loop writes for `n` when it starts at `base`: quotient after quotient. */
  function DigitsFrom(n: nat, base: nat): string
    decreases base
  {
    if base == 0 then [] else [Digit(n / base)] + DigitsFrom(n % base, base / 10)
  }

  /** The second half of both printers. */
  method WriteDigits(number: nat, start: nat, cstr: array<char>, off: nat, maxLen: nat) returns (ok: bool)
    requires off + maxLen <= cstr.Length && 0 < start && 0 < maxLen
    modifies cstr
    ensures ok <==> |DigitsFrom(number, start)| < maxLen
    ensures ok ==> cstr[off..off + |DigitsFrom(number, start)| + 1] == DigitsFrom(number, start) + ['\0']
    ensures forall j | 0 <= j < cstr.Length && !(off <= j < off + maxLen) :: cstr[j] == old(cstr[j])
  {
    var i := 0;
    var n, base := number, start;
    ghost var text := DigitsFrom(number, start);
    while base > 0
      invariant 0 <= i < maxLen
      invariant cstr[off..off + i] + DigitsFrom(n, base) == text
      invariant forall j | 0 <= j < cstr.Length && !(off <= j < off + maxLen) :: cstr[j] == old(cstr[j])
      decreases base
    {
      n, base := WriteDigit(n, base, cstr, off, i);
      i := i + 1;
      if i >= maxLen {
        return false;
      }
    }
    if i >= maxLen {
      return false;
    }
    Put(cstr, off, i, '\0');
    return true;
  }

  /** One round of its loop. */
  method WriteDigit(number: nat, start: nat, cstr: array<char>, off: nat, i: nat) returns (n: nat, base: nat)
    requires off + i < cstr.Length && start > 0
    modifies cstr
    ensures cstr[off..off + i + 1] + DigitsFrom(n, base) == old(cstr[off..off + i]) + DigitsFrom(number, start)
    ensures |DigitsFrom(number, start)| == 1 + |DigitsFrom(n, base)| && base < start
    ensures forall j | 0 <= j < cstr.Length && j != off + i :: cstr[j] == old(cstr[j])
  {
    var tmp, rest := DivideOff(number, start);
    n, base := rest, start / 10;
    OneDigit(cstr[off..off + i], number, start, tmp, n);
    Put(cstr, off, i, Digit(tmp));
  }

  method DivideOff(number: nat, start: nat) returns (tmp: nat, n: nat)
    requires start > 0
    ensures tmp == number / start && n == number % start
  {
    tmp := number / start;
    RestIsRemainder(number, start);
    n := number - tmp * start;
  }

  lemma RestIsRemainder(n: nat, base: nat)
    requires base > 0
    ensures n - n / base * base == n % base
  {
  }

  method Put(cstr: array<char>, off: nat, i: nat, c: char)
    requires off + i < cstr.Length
    modifies cstr
    ensures cstr[off..off + i + 1] == old(cstr[off..off + i]) + [c]
    ensures forall j | 0 <= j < cstr.Length && j != off + i :: cstr[j] == old(cstr[j])
  {
    cstr[off + i] := c;
  }

  lemma OneDigit(written: string, n: nat, base: nat, q: nat, rest: nat)
    requires base > 0 && q == n / base && rest == n % base
    ensures written + DigitsFrom(n, base) == (written + [Digit(q)]) + DigitsFrom(rest, base / 10)
    ensures |DigitsFrom(n, base)| == 1 + |DigitsFrom(rest, base / 10)|
  {
    Unfold(n, base, q, rest);
  }

  lemma Unfold(n: nat, base: nat, q: nat, rest: nat)
    requires base > 0 && q == n / base && rest == n % base
    ensures DigitsFrom(n, base) == [Digit(q)] + DigitsFrom(rest, base / 10)
  {
  }

  /** What a digit in front is worth. */
  lemma {:induction false} FirstValue(d: nat, s: string, worth: nat)
    requires d < 10 && Digits(s) && worth == d * Pow10(|s|)
    ensures Digits([Digit(d)] + s) && ValueOf([Digit(d)] + s) == worth + ValueOf(s)
    decreases |s|
  {
    var longer := [Digit(d)] + s;
    if s == [] {
      DigitAppended([], d);
      assert [] + [Digit(d)] == longer;
    } else {
      var front := s[..|s| - 1];
      TenTimes(d, Pow10(|s| - 1));
      FirstValue(d, front, worth / 10);
      assert longer[..|s|] == [Digit(d)] + front;
    }
  }

  lemma TenTimes(d: nat, p: nat)
    ensures d * (10 * p) == 10 * (d * p)
  {
  }

  /** From a power of ten that is large enough the loop writes digits that stand for the number. */
  lemma {:induction false} DigitsStandFor(n: nat, k: nat)
    requires n < Pow10(k + 1)
    ensures var s := DigitsFrom(n, Pow10(k)); |s| == k + 1 && Digits(s) && ValueOf(s) == n
  {
    var q, rest, text, worth := FirstStep(n, Pow10(k));
    if k == 0 {
      assert text == [];
    } else {
      DigitsStandFor(rest, k - 1);
    }
    FirstValue(q, text, worth);
  }

  lemma FirstStep(n: nat, p: nat) returns (q: nat, rest: nat, text: string, worth: nat)
    requires p > 0 && n < 10 * p
    ensures q < 10 && rest < p && worth == q * p && n == worth + rest
    ensures DigitsFrom(n, p) == [Digit(q)] + text && text == DigitsFrom(rest, p / 10)
  {
    q, rest := Division(n, p);
    worth := q * p;
    text := DigitsFrom(rest, p / 10);
    Unfold(n, p, q, rest);
  }

  lemma Division(n: nat, p: nat) returns (q: nat, rest: nat)
    requires p > 0 && n < 10 * p
    ensures q == n / p && rest == n % p && q < 10 && rest < p && n == q * p + rest
  {
    q, rest := n / p, n % p;
  }

  /** Digits of one length that stand for the same number are the same. */
  lemma {:induction false} SameDigits(s: string, t: string)
    requires Digits(s) && Digits(t) && |s| == |t| && ValueOf(s) == ValueOf(t)
    ensures s == t
    decreases |s|
  {
    if s == [] {
    } else {
      var n := |s| - 1;
      SameDigits(s[..n], t[..n]);
      assert s == s[..n] + [s[n]] && t == t[..n] + [t[n]];
    }
  }

  lemma QuotientUnique(a: nat, p: nat, q: nat, r: nat)
    requires p > 0 && a == q * p + r && r < p
    ensures a / p == q && a % p == r
  {
    var d := a / p - q;
    assert d * p == r - a % p;
    if d > 0 {
      MultipleGrows(d, p);
    } else if d < 0 {
      MultipleGrows(-d, p);
      NegatedMultiple(d, p);
    }
  }

  lemma MultipleGrows(x: nat, p: nat)
    requires x >= 1
    ensures x * p >= p
  {
    assert x * p == (x - 1) * p + p;
  }

  lemma NegatedMultiple(x: int, p: nat)
    ensures (-x) * p == -(x * p)
  {
  }

  /** From the right power of ten the loop writes the numeral. */
  lemma DigitsAreNumeral(n: nat, k: nat)
    requires Pow10(k) <= n < Pow10(k + 1) || (k == 0 && n == 0)
    ensures DigitsFrom(n, Pow10(k)) == Numeral(n)
  {
    DigitsStandFor(n, k);
    NumeralValue(n);
    if n > 0 {
      NumeralLength(n, k + 1);
    }
    SameDigits(DigitsFrom(n, Pow10(k)), Numeral(n));
  }

  lemma {:induction false} PowersGrow(j: nat, k: nat)
    requires j < k
    ensures 10 * Pow10(j) <= Pow10(k)
  {
    if j + 1 < k {
      PowersGrow(j, k - 1);
    }
  }

  /** However the loop starts, it writes as many characters as its start has digits. */
  lemma {:induction false} LoopLength(n: nat, base: nat, k: nat)
    requires base < Pow10(k)
    ensures |DigitsFrom(n, base)| <= k
    decreases k
  {
    if base > 0 {
      var rest := OneLess(n, base);
      LoopLength(rest, base / 10, k - 1);
    }
  }

  lemma OneLess(n: nat, base: nat) returns (rest: nat)
    requires base > 0
    ensures |DigitsFrom(n, base)| == 1 + |DigitsFrom(rest, base / 10)|
  {
    rest := n % base;
    Unfold(n, base, n / base, rest);
  }

  // ----- int

  /** What the base loop runs through in 32-bit unsigned arithmetic: the powers of ten, and what the wrapped
      multiplication makes of the next ones. */
  const BASES: seq<nat> := [10, 100, 1000, 10000, 100000, 1000000, 10000000, 100000000, 1000000000,
                            1410065408, 1215752192, 3567587328]

  lemma BasesWrap(k: nat)
    requires k < 11
    ensures BASES[k + 1] == BASES[k] * 10 % 0x1_0000_0000
  {
  }

  lemma {:induction false} BasesArePowers(k: nat)
    requires k < 9
    ensures BASES[k] == Pow10(k + 1)
  {
    if k > 0 {
      BasesArePowers(k - 1);
      BasesWrap(k - 1);
    }
  }

  /** Where the base loop ends: at the first of these numbers that is above `n`, from the `k`th on. */
  function FirstAbove(n: nat, k: nat): (r: nat)
    requires k <= 11 && n < 0x8000_0000
    ensures k <= r <= 11 && BASES[r] > n && forall i | k <= i < r :: BASES[i] <= n
    decreases 11 - k
  {
    if BASES[k] > n then k
    else
      assert BASES[11] > n;
      FirstAbove(n, k + 1)
  }

  function StartBase(n: nat): nat
    requires n < 0x8000_0000
  {
    BASES[FirstAbove(n, 0)] / 10
  }

  /** The base loop, and the division by ten after it. */
  method FindBase32(n: nat) returns (base: nat)
    requires 0 < n < 0x8000_0000
    ensures base == StartBase(n)
  {
    base := 10;
    ghost var k: nat := 0;
    while n / base != 0
      invariant k <= 11 && base == BASES[k] > 0 && FirstAbove(n, k) == FirstAbove(n, 0)
      decreases 12 - k
    {
      QuotientZero(n, base);
      BasesWrap(k);
      base := base * 10 % UINT_VALUES;
      k := k + 1;
    }
    QuotientZero(n, base);
    base := base / 10;
  }

  /** Up to nine digits that is the power of ten of the first digit; beyond, it has nine digits itself. */
  lemma StartBaseIsPower(n: nat) returns (k: nat)
    requires 0 < n < 0x8000_0000
    ensures 0 < StartBase(n) < 1_000_000_000
    ensures n < 1_000_000_000 ==> StartBase(n) == Pow10(k) <= n < Pow10(k + 1)
  {
    k := FirstAbove(n, 0);
    if n < 1_000_000_000 {
      assert BASES[8] > n;
      BasesArePowers(k);
      if k > 0 {
        BasesArePowers(k - 1);
      }
    }
  }

  /** What `c_int_to_str` prints. */
  function Printed(n: int): string
    requires -0x8000_0000 < n < 0x8000_0000
    decreases if n < 0 then 1 else 0
  {
    if n == 0 then "0" else if n < 0 then "-" + Printed(-n) else DigitsFrom(n, StartBase(n))
  }

  /** That is the number exactly if it has up to nine digits; for more digits it is shorter. */
  lemma PrintedIsRight(n: int)
    requires -0x8000_0000 < n < 0x8000_0000
    ensures Printed(n) == Text(n) <==> -1_000_000_000 < n < 1_000_000_000
    ensures !(-1_000_000_000 < n < 1_000_000_000) ==> |Printed(n)| < |Text(n)|
  {
    var m := if n < 0 then -n else n;
    if m > 0 {
      var k := StartBaseIsPower(m);
      if m < 1_000_000_000 {
        DigitsAreNumeral(m, k);
      } else {
        TooShort(m, StartBase(m));
      }
    } else {
      assert Numeral(0) == "0";
    }
  }

  lemma TooShort(n: nat, base: nat)
    requires 1_000_000_000 <= n < 0x8000_0000 && base < 1_000_000_000
    ensures |DigitsFrom(n, base)| < |Numeral(n)|
  {
    BasesArePowers(8);
    LoopLength(n, base, 9);
    assert Pow10(10) == 10 * Pow10(9);
    NumeralLength(n, 10);
  }

  /** The first number that comes out wrong. */
  lemma BillionIsPrintedWrong(n: int)
    requires n == 1_000_000_000
    ensures Printed(n) == "709186972"
  {
    assert BASES[8] == n && BASES[9] == 1_410_065_408;
    assert FirstAbove(n, 0) == 9;
    BillionFromWrappedBase(n, StartBase(n));
  }

  lemma BillionFromWrappedBase(n: nat, base: nat)
    requires n == 1_000_000_000 && base == 141006540
    ensures DigitsFrom(n, base) == "709186972"
  {
    BillionsLastDigits(9829, 1410);
    DigitThen(122629, 14100, 8, 9829, 1410, "6972");
    DigitThen(263635, 141006, 1, 122629, 14100, "86972");
    DigitThen(12954220, 1410065, 9, 263635, 141006, "186972");
    DigitThen(12954220, 14100654, 0, 12954220, 1410065, "9186972");
    DigitThen(n, base, 7, 12954220, 14100654, "09186972");
  }

  lemma BillionsLastDigits(n: nat, base: nat)
    requires n == 9829 && base == 1410
    ensures DigitsFrom(n, base) == "6972"
  {
    DigitThen(2, 1, 2, 0, 0, "");
    DigitThen(100, 14, 7, 2, 1, "2");
    DigitThen(1369, 141, 9, 100, 14, "72");
    DigitThen(n, base, 6, 1369, 141, "972");
  }

  lemma DigitThen(n: nat, base: nat, d: nat, rest: nat, next: nat, tail: string)
    requires base > 0 && n / base == d && n % base == rest && base / 10 == next && DigitsFrom(rest, next) == tail
    ensures DigitsFrom(n, base) == [Digit(d)] + tail
  {
    Unfold(n, base, d, rest);
  }

  /** `c_int_to_str` for a positive number. */
  method PositiveToStr(n: int, cstr: array<char>, off: nat, maxLen: nat) returns (ok: bool)
    requires 0 < n < 0x8000_0000 && off + maxLen <= cstr.Length && 2 <= maxLen
    modifies cstr
    ensures ok <==> |Printed(n)| + 1 <= maxLen
    ensures ok ==> cstr[off..off + |Printed(n)| + 1] == Printed(n) + ['\0']
    ensures forall j | 0 <= j < cstr.Length && !(off <= j < off + maxLen) :: cstr[j] == old(cstr[j])
  {
    var base := FindBase32(n);
    var _ := StartBaseIsPower(n);
    ok := WriteDigits(n, base, cstr, off, maxLen);
  }

  /** `c_int_to_str`.  INT_MIN has no negation.  It prints a text and a terminator exactly if they fit. */
  method IntToStr(n: int, cstr: array<char>, off: nat, maxLen: nat) returns (ok: bool)
    requires -0x8000_0000 < n < 0x8000_0000 && off + maxLen <= cstr.Length
    modifies cstr
    ensures ok <==> |Printed(n)| + 1 <= maxLen
    ensures ok ==> cstr[off..off + |Printed(n)| + 1] == Printed(n) + ['\0']
    ensures forall j | 0 <= j < cstr.Length && !(off <= j < off + maxLen) :: cstr[j] == old(cstr[j])
    decreases if n < 0 then 1 else 0
  {
    PrintedHasDigits(n);
    if maxLen < 2 {
      return false;
    }
    if n == 0 {
      Zero(cstr, off);
      return true;
    }
    if n < 0 {
      cstr[off] := '-';
      ok := IntToStr(-1 * n, cstr, off + 1, maxLen - 1);
      if ok {
        SignInFront(cstr, off, Printed(-n), Printed(n));
      }
      return;
    }
    ok := PositiveToStr(n, cstr, off, maxLen);
  }

  /** Both printers' zero. */
  method Zero(cstr: array<char>, off: nat)
    requires off + 2 <= cstr.Length
    modifies cstr
    ensures cstr[off..off + 2] == "0" + ['\0']
    ensures forall j | 0 <= j < cstr.Length && !(off <= j < off + 2) :: cstr[j] == old(cstr[j])
  {
    cstr[off] := '0';
    cstr[off + 1] := '\0';
  }

  lemma SignInFront(cstr: array<char>, off: nat, digits: string, text: string)
    requires off + |digits| + 2 <= cstr.Length && text == "-" + digits
    requires cstr[off] == '-' && cstr[off + 1..off + 1 + |digits| + 1] == digits + ['\0']
    ensures cstr[off..off + |text| + 1] == text + ['\0']
  {
    assert text + ['\0'] == "-" + (digits + ['\0']);
  }

  lemma PrintedHasDigits(n: int)
    requires -0x8000_0000 < n < 0x8000_0000
    ensures |Printed(n)| >= if n < 0 then 2 else 1
  {
    if n != 0 {
      var m := if n < 0 then -n else n;
      var _ := StartBaseIsPower(m);
      var _ := OneLess(m, StartBase(m));
    }
  }

  // ----- uint64_t

  const ULONG_VALUES := 0x1_0000_0000_0000_0000

  /** Where the base loop of `c_uint_to_str` leads from `base`, the wrapped `k`th power of ten: above `n`, or to
      zero, by which it then divides. */
  function StartBase64(n: nat, base: nat, k: nat): Option<nat>
    decreases 64 - k
  {
    if base == 0 || k > 64 then None
    else if n < base then Some(base / 10)
    else StartBase64(n, base * 10 % ULONG_VALUES, k + 1)
  }

  /** The loop itself.  After 64 rounds every bit has been shifted out. */
  method FindBase64(n: nat) returns (base: Option<nat>)
    requires 0 < n < ULONG_VALUES
    ensures base == StartBase64(n, 10, 1)
    ensures base.Some? ==> base.value > 0
  {
    var b: nat := 10;
    ghost var k: nat := 1;
    while true
      invariant 1 <= k <= 64 && b < ULONG_VALUES && (b == 10 || n >= 10)
      invariant b % Pow2(k) == 0 && StartBase64(n, b, k) == StartBase64(n, 10, 1)
      decreases 64 - k
    {
      if b == 0 {
        return None;
      }
      QuotientZero(n, b);
      if n / b == 0 {
        break;
      }
      if k == 64 {
        AllBitsGone(b);
      }
      OneBitMore(b, k);
      b := b * 10 % ULONG_VALUES;
      k := k + 1;
    }
    base := Some(b / 10);
  }

  lemma {:induction false} PowersOfTwo(j: nat, k: nat)
    ensures Pow2(j + k) == Pow2(j) * Pow2(k)
  {
    if j > 0 {
      PowersOfTwo(j - 1, k);
    }
  }

  lemma WidthIsPower()
    ensures Pow2(64) == ULONG_VALUES
  {
    assert Pow2(4) == 16;
    PowersOfTwo(4, 4);
    PowersOfTwo(8, 8);
    PowersOfTwo(16, 16);
    PowersOfTwo(32, 32);
  }

  lemma AllBitsGone(b: nat)
    requires 0 < b < ULONG_VALUES
    ensures b % Pow2(64) != 0
  {
    WidthIsPower();
  }

  lemma OneBitMore(b: nat, k: nat)
    requires k < 64 && b % Pow2(k) == 0
    ensures b * 10 % ULONG_VALUES % Pow2(k + 1) == 0
  {
    WidthIsPower();
    PowersOfTwo(63 - k, k + 1);
    TenfoldHasTwice(b, Pow2(k), Pow2(k + 1));
    RemainderKeepsFactor(b * 10, Pow2(k + 1), Pow2(63 - k), ULONG_VALUES);
  }

  lemma TenfoldHasTwice(b: nat, p: nat, twice: nat)
    requires p > 0 && twice == 2 * p && b % p == 0
    ensures b * 10 % twice == 0
  {
    var m := b / p;
    Regroup(b, p, m, twice);
    MultipleHasNoRest(twice, 5 * m);
  }

  lemma Regroup(b: nat, p: nat, m: nat, twice: nat)
    requires p > 0 && twice == 2 * p && m == b / p && b % p == 0
    ensures b * 10 == twice * (5 * m)
  {
    assert b == p * m;
    assert twice * (5 * m) == 10 * (p * m);
  }

  lemma MultipleHasNoRest(p: nat, m: nat)
    requires p > 0
    ensures p * m % p == 0
  {
    QuotientUnique(p * m, p, m, 0);
  }

  lemma RemainderKeepsFactor(x: nat, p: nat, q: nat, w: nat)
    requires p > 0 && q > 0 && w == q * p && w > 0 && x % p == 0
    ensures x % w % p == 0
  {
    var d, t, r := x / p, x / w, x % w;
    FactorOfRemainder(x, p, q, w, d, t, r);
    var e := d - q * t;
    if e < 0 {
      MultipleGrows(-e, p);
      NegatedMultiple(e, p);
    }
    MultipleHasNoRest(p, e);
  }

  lemma FactorOfRemainder(x: nat, p: nat, q: nat, w: nat, d: nat, t: nat, r: nat)
    requires w == q * p && x == w * t + r && x == p * d
    ensures r == p * (d - q * t)
  {
    assert w * t == p * (q * t);
  }

  lemma QuotientZero(n: nat, base: nat)
    requires base > 0
    ensures n / base == 0 <==> n < base
  {
  }

  lemma {:induction false} PowerSum(j: nat, k: nat)
    ensures Pow10(j + k) == Pow10(j) * Pow10(k)
  {
    if j > 0 {
      PowerSum(j - 1, k);
    }
  }

  lemma NineteenZeros()
    ensures Pow10(19) == 10_000_000_000_000_000_000 && Pow10(20) == 10 * Pow10(19)
  {
    BasesArePowers(8);
    PowerSum(9, 10);
    assert Pow10(10) == 10 * Pow10(9);
  }

  /** What `c_uint_to_str` prints; None if it divides by zero. */
  function PrintedU(n: nat): Option<string>
    requires n < ULONG_VALUES
  {
    if n == 0 then Some("0")
    else
      match StartBase64(n, 10, 1)
      case None => None
      case Some(base) => Some(DigitsFrom(n, base))
  }

  datatype Printing = Complete | NoRoom | DivisionByZero

  /** `c_uint_to_str`: prints a text and a terminator exactly if they fit. */
  method UintToStr(n: nat, cstr: array<char>, off: nat, maxLen: nat) returns (r: Printing)
    requires n < ULONG_VALUES && off + maxLen <= cstr.Length
    modifies cstr
    ensures r == if maxLen < 2 then NoRoom else if PrintedU(n).None? then DivisionByZero
                 else if |PrintedU(n).value| + 1 <= maxLen then Complete else NoRoom
    ensures r == Complete ==> cstr[off..off + |PrintedU(n).value| + 1] == PrintedU(n).value + ['\0']
    ensures forall j | 0 <= j < cstr.Length && !(off <= j < off + maxLen) :: cstr[j] == old(cstr[j])
  {
    if maxLen < 2 {
      return NoRoom;
    }
    if n == 0 {
      Zero(cstr, off);
      return Complete;
    }
    var base := FindBase64(n);
    if base.None? {
      return DivisionByZero;
    }
    var ok := WriteDigits(n, base.value, cstr, off, maxLen);
    r := if ok then Complete else NoRoom;
  }

  /** That is the number exactly below 10^19; from there on the powers of ten wrap. */
  lemma PrintedUIsRight(n: nat)
    requires n < ULONG_VALUES
    ensures PrintedU(n) == Some(Numeral(n)) <==> n < 10_000_000_000_000_000_000
  {
    NineteenZeros();
    if n == 0 {
      assert Numeral(0) == "0";
    } else if n < 10_000_000_000_000_000_000 {
      assert Pow10(0) == 1 && Pow10(1) == 10;
      var k := StartBaseIsPower64(n, 1);
      DigitsAreNumeral(n, k);
    } else if PrintedU(n).Some? {
      var base := StartBase64(n, 10, 1).value;
      StartBaseIsSmall(n, 10, 1);
      LoopLength(n, base, 19);
      NumeralLength(n, 20);
    }
  }

  lemma {:induction false} StartBaseIsPower64(n: nat, j: nat) returns (k: nat)
    requires 1 <= j <= 19 && Pow10(j - 1) <= n < 10_000_000_000_000_000_000
    ensures StartBase64(n, Pow10(j), j) == Some(Pow10(k)) && Pow10(k) <= n < Pow10(k + 1)
    decreases 19 - j
  {
    if n < Pow10(j) {
      k := j - 1;
    } else {
      NextPower64(n, j);
      k := StartBaseIsPower64(n, j + 1);
    }
  }

  lemma NextPower64(n: nat, j: nat)
    requires j <= 19 && Pow10(j) <= n < 10_000_000_000_000_000_000
    ensures j < 19 && Pow10(j) * 10 % ULONG_VALUES == Pow10(j + 1)
  {
    NineteenZeros();
    if j < 18 {
      PowersGrow(j + 1, 19);
    }
  }

  lemma {:induction false} StartBaseIsSmall(n: nat, base: nat, k: nat)
    requires base < ULONG_VALUES
    ensures StartBase64(n, base, k).Some? ==> StartBase64(n, base, k).value < 10_000_000_000_000_000_000
    decreases 64 - k
  {
    if base != 0 && k <= 64 && n >= base {
      StartBaseIsSmall(n, base * 10 % ULONG_VALUES, k + 1);
    }
  }

  /** The largest number makes it divide by zero. */
  lemma {:induction false} LargestDividesByZero(base: nat, k: nat)
    requires base < ULONG_VALUES
    ensures StartBase64(ULONG_VALUES - 1, base, k).None?
    decreases 64 - k
  {
    if base != 0 && k <= 64 {
      LargestDividesByZero(base * 10 % ULONG_VALUES, k + 1);
    }
  }

  // ----- strtol

  /** The number and what is stored through `endptr`, if anything; or the failure of an assertion; or an
      overflow of the 64-bit long, which is undefined. */
  datatype Outcome = Done(n: int, end: Option<nat>) | AssertFails | Overflows

  function CharAt(s: string, i: nat): char {
    if i < |s| then s[i] else '\0'
  }

  /** What the chain of comparisons makes of a character; None ends the number.  For letters it subtracts
      ten where it should add it. */
  function DigitOf(c: char): Option<int> {
    if c < '0' then None
    else if c as int - '0' as int < 10 then Some(c as int - '0' as int)
    else if c < 'A' then None
    else if c <= 'Z' then Some(c as int - ('A' as int + 10))
    else if c < 'a' then None
    else if c <= 'z' then Some(c as int - ('a' as int + 10))
    else None
  }

  /** The digit loop from position `i`, with `n` read so far. */
  function Scan(s: string, i: nat, n: nat, base: nat): Outcome
    decreases |s| - i
  {
    if i >= |s| then Done(n, Some(i))
    else
      match DigitOf(s[i])
      case None => Done(n, Some(i))
      case Some(c) =>
        if c < 0 then AssertFails
        else if c >= base then Done(n, Some(i))
        else if n * base + c >= 0x8000_0000_0000_0000 then Overflows
        else Scan(s, i + 1, n * base + c, base)
  }

  function Signed(o: Outcome, positive: bool): Outcome {
    if o.Done? && !positive then Done(-o.n, o.end) else o
  }

  function SignLength(s: string): nat {
    if |s| > 0 && (s[0] == '-' || s[0] == '+') then 1 else 0
  }

  /** `strtol` on a string without its terminator; None is the null pointer. */
  method StrToL(str: Option<string>, wanted: int) returns (r: Outcome)
    requires str.Some? ==> '\0' !in str.value
    ensures r == Parsed(str, wanted)
  {
    if str.None? {
      return Done(0, None);
    }
    var s := str.value;
    var i, len, positive, base := 0, |s|, true, wanted;
    if len > 0 {
      if s[0] == '-' {
        positive := false;
        i := i + 1;
        len := len - 1;
      } else if s[0] == '+' {
        i := i + 1;
        len := len - 1;
      }
    }
    if base == 0 {
      if len > 0 {
        if s[i] == '0' {
          if len > 1 && (s[i + 1] == 'x' || s[i + 1] == 'X') {
            base := 16;
            i := i + 2;
            len := len - 2;
          } else {
            base := 8;
            i := i + 1;
            len := len - 1;
          }
        }
      }
    }
    if base < 2 || base > 36 || len == 0 {
      return Done(0, None);
    }
    r := DigitLoop(s, i, base);
    if r.Done? && !positive {
      r := Done(r.n * -1, r.end);
    }
  }

  method DigitLoop(s: string, start: nat, base: nat) returns (r: Outcome)
    requires '\0' !in s && start <= |s|
    ensures r == Scan(s, start, 0, base)
  {
    var i: nat, n: nat := start, 0;
    while true
      invariant i <= |s| && Scan(s, i, n, base) == Scan(s, start, 0, base)
      decreases |s| - i
    {
      var digit := DigitOf(CharAt(s, i));
      if digit.None? {
        break;
      }
      var c := digit.value;
      if c < 0 {
        return AssertFails;
      }
      if c >= base {
        break;
      }
      var next := n * base + c;
      OneMoreDigit(s, i, n, base, c, next);
      if next >= 0x8000_0000_0000_0000 {
        return Overflows;
      }
      n := next;
      i := i + 1;
    }
    return Done(n, Some(i));
  }

  lemma OneMoreDigit(s: string, i: nat, n: nat, base: nat, c: nat, next: int)
    requires i < |s| && DigitOf(s[i]) == Some(c) && c < base && next == n * base + c
    ensures next >= 0
    ensures Scan(s, i, n, base) == if next >= 0x8000_0000_0000_0000 then Overflows else Scan(s, i + 1, next, base)
  {
  }

  /** The result in terms of the sign, the prefix and the digits. */
  function Parsed(str: Option<string>, wanted: int): Outcome {
    match str
    case None => Done(0, None)
    case Some(s) =>
      var i := SignLength(s);
      var auto := wanted == 0 && CharAt(s, i) == '0';
      var hex := auto && (CharAt(s, i + 1) == 'x' || CharAt(s, i + 1) == 'X');
      var base := if hex then 16 else if auto then 8 else wanted;
      var start := i + if hex then 2 else if auto then 1 else 0;
      if base < 2 || base > 36 || start >= |s| then Done(0, None)
      else Signed(Scan(s, start, 0, base), CharAt(s, 0) != '-')
  }

  /** The digit that a character is taken for: letters count from K on, which is 0. */
  function TakenFor(c: char): Option<nat> {
    if '0' <= c <= '9' then Some(c as int - '0' as int)
    else if 'K' <= c <= 'Z' then Some(c as int - 'K' as int)
    else if 'k' <= c <= 'z' then Some(c as int - 'k' as int)
    else None
  }

  /** The letters before K fail the assertion. */
  predicate Early(c: char) {
    'A' <= c <= 'J' || 'a' <= c <= 'j'
  }

  predicate Numeric(c: char, base: nat) {
    TakenFor(c).Some? && TakenFor(c).value < base
  }

  predicate AllNumeric(s: string, base: nat) {
    forall i | 0 <= i < |s| :: Numeric(s[i], base)
  }

  function ValueIn(s: string, base: nat): nat
    requires AllNumeric(s, base)
  {
    if s == [] then 0
    else
      var n := ValueIn(s[..|s| - 1], base);
      Product(n, base);
      n * base + TakenFor(s[|s| - 1]).value
  }

  lemma Product(n: nat, base: nat)
    ensures n * base >= 0 && (base > 0 ==> n * base >= n)
  {
  }

  lemma DigitIsTaken(c: char)
    ensures TakenFor(c).Some? ==> DigitOf(c) == Some(TakenFor(c).value)
    ensures Early(c) ==> DigitOf(c).Some? && DigitOf(c).value < 0
    ensures TakenFor(c).None? && !Early(c) ==> DigitOf(c).None?
  {
  }

  const LONG_MAX: nat := 0x7fff_ffff_ffff_ffff

  lemma ValueGrows(s: string, base: nat, k: nat)
    requires AllNumeric(s, base) && 0 < k <= |s| && base > 0
    ensures AllNumeric(s[..k], base) && AllNumeric(s[..k - 1], base)
    ensures ValueIn(s[..k], base) == ValueIn(s[..k - 1], base) * base + TakenFor(s[k - 1]).value
    ensures ValueIn(s[..k], base) >= ValueIn(s[..k - 1], base)
  {
    assert s[..k][..k - 1] == s[..k - 1];
    Product(ValueIn(s[..k - 1], base), base);
  }

  /** A run of digits is read as the number it stands for, up to the overflow. */
  lemma {:induction false} DigitsAreRead(s: string, from: nat, k: nat, digits: string, base: nat)
    requires AllNumeric(digits, base) && base > 0 && k <= |digits|
    requires from + |digits| <= |s| && s[from..from + |digits|] == digits
    ensures AllNumeric(digits[..k], base)
    ensures Scan(s, from, 0, base) ==
      if ValueIn(digits[..k], base) > LONG_MAX then Overflows else Scan(s, from + k, ValueIn(digits[..k], base), base)
  {
    if k > 0 {
      DigitsAreRead(s, from, k - 1, digits, base);
      ValueGrows(digits, base, k);
      assert s[from + k - 1] == digits[k - 1];
      DigitIsTaken(digits[k - 1]);
    }
  }

  /** How a string says what base it is in: not at all, or if that is left open by a leading 0x or 0. */
  predicate Announces(prefix: string, more: string, wanted: int, base: nat) {
    || (prefix == "" && wanted == base)
    || (prefix in {"0x", "0X"} && wanted == 0 && base == 16)
    || (prefix == "0" && wanted == 0 && base == 8 && CharAt(more, 0) != 'x' && CharAt(more, 0) != 'X')
  }

  lemma CharBehind(a: string, b: string, j: nat)
    ensures CharAt(a + b, |a| + j) == CharAt(b, j)
  {
  }

  lemma {:induction false} Head(sign: string, prefix: string, more: string)
    requires sign in {"", "+", "-"} && |prefix| <= 2 && more != []
    requires sign == "" ==> (prefix + more)[0] != '-' && (prefix + more)[0] != '+'
    ensures var s := sign + (prefix + more);
      && SignLength(s) == |sign| && (CharAt(s, 0) == '-' <==> sign == "-")
      && CharAt(s, |sign|) == (if prefix == [] then more[0] else prefix[0])
      && (|prefix| == 1 ==> CharAt(s, |sign| + 1) == more[0])
      && (|prefix| == 2 ==> CharAt(s, |sign| + 1) == prefix[1])
  {
    CharBehind(sign, prefix + more, 0);
    CharBehind(sign, prefix + more, 1);
  }

  lemma {:induction false} ParsedFrom(s: string, i: nat, prefix: string, more: string, wanted: int, base: nat)
    requires SignLength(s) == i && |s| == i + |prefix| + |more| && more != []
    requires 2 <= base <= 36 && Announces(prefix, more, wanted, base)
    requires CharAt(s, i) == if prefix == [] then more[0] else prefix[0]
    requires |prefix| == 1 ==> CharAt(s, i + 1) == more[0]
    requires |prefix| == 2 ==> CharAt(s, i + 1) == prefix[1]
    ensures Parsed(Some(s), wanted) == Signed(Scan(s, i + |prefix|, 0, base), CharAt(s, 0) != '-')
  {
  }

  lemma {:induction false} StartOfDigits(sign: string, prefix: string, more: string, wanted: int, base: nat)
    requires sign in {"", "+", "-"} && 2 <= base <= 36 && Announces(prefix, more, wanted, base) && more != []
    requires sign == "" && prefix == "" ==> more[0] != '-' && more[0] != '+'
    ensures var s := sign + (prefix + more);
      Parsed(Some(s), wanted) == Signed(Scan(s, |sign| + |prefix|, 0, base), sign != "-")
  {
    if prefix == [] {
      assert (prefix + more)[0] == more[0];
    } else {
      assert (prefix + more)[0] == prefix[0] == '0';
    }
    Head(sign, prefix, more);
    ParsedFrom(sign + (prefix + more), |sign|, prefix, more, wanted, base);
  }

  lemma {:induction false} Middle(a: string, b: string, c: string, d: string)
    ensures var s := a + (b + (c + d));
      && |s| == |a| + |b| + |c| + |d| && s[|a| + |b|..|a| + |b| + |c|] == c
      && (d != [] ==> s[|a| + |b| + |c|] == d[0])
  {
  }

  /** The number behind the sign. */
  function WithSign(sign: string, n: nat): int {
    if sign == "-" then -(n as int) else n
  }

  lemma {:induction false} ScanOfNumber(s: string, from: nat, digits: string, rest: string, base: nat)
    requires base > 0 && AllNumeric(digits, base) && (rest == [] || !Numeric(rest[0], base))
    requires |s| == from + |digits| + |rest| && s[from..from + |digits|] == digits
    requires rest != [] ==> s[from + |digits|] == rest[0]
    ensures Scan(s, from, 0, base) ==
        if ValueIn(digits, base) > LONG_MAX then Overflows
        else if rest != [] && Early(rest[0]) then AssertFails
        else Done(ValueIn(digits, base), Some(from + |digits|))
  {
    assert digits[..|digits|] == digits;
    DigitsAreRead(s, from, |digits|, digits, base);
    if rest != [] {
      DigitIsTaken(rest[0]);
    }
  }

  /** What `strtol` does, in every base: it reads the longest run of what it takes for digits, unless their number
      overflows or an early letter follows. */
  lemma {:induction false} NumberIsRead(sign: string, prefix: string, digits: string, rest: string,
                                         wanted: int, base: nat)
    requires sign in {"", "+", "-"} && 2 <= base <= 36 && Announces(prefix, digits + rest, wanted, base)
    requires AllNumeric(digits, base) && (rest == [] || !Numeric(rest[0], base)) && digits + rest != []
    requires sign == "" && prefix == "" ==> (digits + rest)[0] != '-' && (digits + rest)[0] != '+'
    ensures Parsed(Some(sign + (prefix + (digits + rest))), wanted) ==
        if ValueIn(digits, base) > LONG_MAX then Overflows
        else if rest != [] && Early(rest[0]) then AssertFails
        else Done(WithSign(sign, ValueIn(digits, base)), Some(|sign| + |prefix| + |digits|))
  {
    StartOfDigits(sign, prefix, digits + rest, wanted, base);
    Middle(sign, prefix, digits, rest);
    ScanOfNumber(sign + (prefix + (digits + rest)), |sign| + |prefix|, digits, rest, base);
  }

  /** The length of the run of digits that a string starts with. */
  function RunLength(s: string, base: nat): (k: nat)
    ensures k <= |s| && AllNumeric(s[..k], base) && (k < |s| ==> !Numeric(s[k], base))
  {
    if s == [] || !Numeric(s[0], base) then 0
    else
      var k := 1 + RunLength(s[1..], base);
      assert forall i | 0 < i < k :: s[i] == s[1..][i - 1];
      k
  }

  lemma NumericTogether(a: string, b: string, base: nat)
    requires AllNumeric(a, base) && AllNumeric(b, base)
    ensures AllNumeric(a + b, base)
  {
    forall i | 0 <= i < |a + b| ensures Numeric((a + b)[i], base) {
      assert (a + b)[i] == if i < |a| then a[i] else b[i - |a|];
    }
  }

  /** The characters that end a number of decimal digits as they should, ... */
  predicate EndsNumber(rest: string, base: nat) {
    rest == [] || !(('A' <= rest[0] <= 'Z' && rest[0] as int - 'A' as int < 10 + base)
                    || ('a' <= rest[0] <= 'z' && rest[0] as int - 'a' as int < 10 + base))
  }

  /** ... and no others: in every base a run of decimal digits that fits is read as its number, up to its end,
      exactly if what follows is not one of the first 10 + base letters, which from base 16 on are all. */
  lemma {:induction false} DecimalDigitsAreRead(sign: string, digits: string, rest: string, base: nat)
    requires sign in {"", "+", "-"} && 2 <= base <= 36 && digits != []
    requires forall i | 0 <= i < |digits| :: IsDigit(digits[i]) && digits[i] as int - '0' as int < base
    requires rest == [] || !(IsDigit(rest[0]) && rest[0] as int - '0' as int < base)
    requires AllNumeric(digits, base) && ValueIn(digits, base) <= LONG_MAX
    ensures var read := Done(WithSign(sign, ValueIn(digits, base)), Some(|sign| + |digits|));
      Parsed(Some(sign + (digits + rest)), base) == read <==> EndsNumber(rest, base)
  {
    var k := RunLength(rest, base);
    var whole := digits + rest[..k];
    NumericTogether(digits, rest[..k], base);
    assert whole + rest[k..] == digits + rest && [] + (digits + rest) == digits + rest;
    assert IsDigit((digits + rest)[0]);
    NumberIsRead(sign, [], whole, rest[k..], base, base);
    if k == 0 {
      assert whole == digits && rest[k..] == rest;
    } else {
      assert Numeric(rest[0], base);
    }
  }

  lemma {:induction false} ValueInTen(s: string)
    requires Digits(s)
    ensures AllNumeric(s, 10) && ValueIn(s, 10) == ValueOf(s)
  {
    if s != [] {
      ValueInTen(s[..|s| - 1]);
    }
  }

  lemma {:induction false} DecimalTextIsRead(sign: string, digits: string, s: string)
    requires sign in {"", "-"} && digits != [] && Digits(digits) && ValueOf(digits) <= LONG_MAX && s == sign + digits
    ensures Parsed(Some(s), 10) == Done(WithSign(sign, ValueOf(digits)), Some(|s|))
  {
    ValueInTen(digits);
    assert digits + [] == digits && IsDigit(digits[0]) && [] + digits == digits;
    NumberIsRead(sign, [], digits, [], 10, 10);
  }

  /** In base 10 `strtol` inverts both printers. */
  lemma {:induction false} PrintedIsRead(n: int)
    requires -0x8000_0000_0000_0000 < n < 0x8000_0000_0000_0000
    ensures Parsed(Some(Text(n)), 10) == Done(n, Some(|Text(n)|))
  {
    if n < 0 {
      NumeralValue(-n);
      DecimalTextIsRead("-", Numeral(-n), Text(n));
    } else {
      NumeralValue(n);
      DecimalTextIsRead("", Numeral(n), Text(n));
    }
  }

  lemma {:induction false} NoLeadingZero(n: nat)
    requires n > 0
    ensures Numeral(n)[0] != '0'
  {
    if n >= 10 {
      NoLeadingZero(n / 10);
    }
  }

  /** With base 0 it does not: it has no branch for plain decimal numbers, and reads them as 0. */
  lemma BaseZeroReadsNothing(n: int)
    ensures Parsed(Some(Text(n)), 0).Done? && Parsed(Some(Text(n)), 0).n == 0
  {
    if n == 0 {
      assert Text(n) == "0";
    } else {
      NoLeadingZero(if n < 0 then -n else n);
      NumeralValue(if n < 0 then -n else n);
    }
  }
}
