/** Searching for one string in another: `strstr` with its skip, and the string class's `find`. */
module SubstringSearch {
  import opened Common
  import CharTraits

  predicate OccursAt(hay: seq<Char>, needle: seq<Char>, i: nat) {
    i + |needle| <= |hay| && hay[i..i + |needle|] == needle
  }

  /** The first position from `i` on where the needle occurs. */
  function FirstFrom(hay: seq<Char>, needle: seq<Char>, i: nat): Option<nat>
    decreases |hay| - i
  {
    if i + |needle| > |hay| then None
    else if OccursAt(hay, needle, i) then Some(i)
    else FirstFrom(hay, needle, i + 1)
  }

  lemma {:induction false} FirstFromIsFirst(hay: seq<Char>, needle: seq<Char>, i: nat)
    ensures var r := FirstFrom(hay, needle, i);
      && (r.Some? ==> i <= r.value && OccursAt(hay, needle, r.value))
      && (forall k :: i <= k && (r.Some? ==> k < r.value) ==> !OccursAt(hay, needle, k))
    decreases |hay| - i
  {
    if i + |needle| <= |hay| && !OccursAt(hay, needle, i) {
      FirstFromIsFirst(hay, needle, i + 1);
    }
  }

  // ----- strstr

  /** How many characters of the needle the comparison at `i` finds equal. */
  function Matched(hay: seq<Char>, needle: seq<Char>, i: nat, j: nat): (m: nat)
    requires i + |needle| <= |hay| && j <= |needle|
    ensures j <= m <= |needle|
    ensures forall t | j <= t < m :: needle[t] == hay[i + t]
    ensures m < |needle| ==> hay[i + m] != needle[m]
    decreases |needle| - j
  {
    if j < |needle| && hay[i + j] == needle[j] then Matched(hay, needle, i, j + 1) else j
  }

  /** How a search ends.  Overflows: an int position would have to exceed its largest value. */
  datatype Outcome = Found(at: nat) | NotFound | Overflows

  /** The search from `i` on.  After a partial match of `j` characters it goes on `j` positions further.  Each
      character is looked at under an int index, and `i` and `j` are ints themselves. */
  function SkipSearch(hay: seq<Char>, needle: seq<Char>, i: nat): Outcome
    requires needle != []
    decreases |hay| - i
  {
    if i + |needle| > |hay| then NotFound
    else
      var j := Matched(hay, needle, i, 0);
      if j == |needle| then if i + j - 1 <= INT_MAX && j <= INT_MAX then Found(i) else Overflows
      else
        var next := i + if j == 0 then 1 else j;
        if next <= INT_MAX then SkipSearch(hay, needle, next) else Overflows
  }

  /** `strstr` on strings without their terminators; the result is a position in the hay. */
  method StrStr(hay: seq<Char>, needle: seq<Char>) returns (r: Outcome)
    ensures needle == [] ==> r == Found(0)
    ensures needle != [] ==> r == SkipSearch(hay, needle, 0)
  {
    var hlen, nlen := |hay|, |needle|;
    if nlen > hlen {
      return NotFound;
    }
    if nlen == 0 {
      return Found(0);
    }
    var i := 0;
    while i <= hlen - nlen
      invariant 0 <= i <= INT_MAX && SkipSearch(hay, needle, i) == SkipSearch(hay, needle, 0)
      decreases hlen - i
    {
      if hay[i] == needle[0] {
        var j, overflows := CompareAt(hay, needle, i);
        if overflows {
          return Overflows;
        }
        if j == nlen {
          return Found(i);
        } else {
          i := i + (j - 1);
        }
      }
      if i == INT_MAX {
        return Overflows;
      }
      i := i + 1;
    }
    r := NotFound;
  }

  /** Its inner loop. */
  method CompareAt(hay: seq<Char>, needle: seq<Char>, i: nat) returns (j: nat, overflows: bool)
    requires needle != [] && i + |needle| <= |hay| && i <= INT_MAX && hay[i] == needle[0]
    ensures var m := Matched(hay, needle, i, 0);
            && m > 0
            && (overflows <==> if m == |needle| then i + m - 1 > INT_MAX || m > INT_MAX else i + m > INT_MAX)
            && (!overflows ==> j == m)
  {
    j, overflows := 1, false;
    assert Matched(hay, needle, i, 0) == Matched(hay, needle, i, 1);
    while j < |needle|
      invariant 1 <= j <= |needle| && j <= INT_MAX && i + j - 1 <= INT_MAX
      invariant Matched(hay, needle, i, j) == Matched(hay, needle, i, 0)
    {
      if i + j > INT_MAX {
        return j, true;
      }
      if hay[i + j] != needle[j] {
        break;
      }
      if j == INT_MAX {
        return j, true;
      }
      j := j + 1;
    }
  }

  /** In a text whose length an int can hold no position overflows. */
  lemma {:induction false} ShortTextsDoNotOverflow(hay: seq<Char>, needle: seq<Char>, i: nat)
    requires needle != [] && |hay| <= INT_MAX
    ensures SkipSearch(hay, needle, i) != Overflows
    decreases |hay| - i
  {
    if i + |needle| <= |hay| {
      var j := Matched(hay, needle, i, 0);
      if j < |needle| {
        ShortTextsDoNotOverflow(hay, needle, i + if j == 0 then 1 else j);
      }
    }
  }

  /** A shift `d` under which the needle agrees with itself for a while and then, before its end, does not:
      a partial match of `j` characters may hide an occurrence `d` further on. */
  predicate HidesAt(needle: seq<Char>, d: nat, j: nat) {
    1 <= d < j < |needle| && j <= INT_MAX && needle[d..j] == needle[..j - d] && needle[j] != needle[j - d]
  }

  ghost predicate Hides(needle: seq<Char>) {
    exists d: nat, j: nat :: HidesAt(needle, d, j)
  }

  /** An occurrence inside a partial match repeats the match, and the character behind it. */
  lemma OverlapAgrees(hay: seq<Char>, needle: seq<Char>, i: nat, j: nat, k: nat)
    requires i <= k < i + j && j < |needle| && i + j < |hay| && forall t | 0 <= t < j :: needle[t] == hay[i + t]
    requires OccursAt(hay, needle, k)
    ensures needle[k - i..j] == needle[..j - (k - i)] && needle[j - (k - i)] == hay[i + j]
  {
    var d := k - i;
    forall t | 0 <= t <= j - d ensures needle[t] == hay[k + t] {
      assert hay[k..k + |needle|][t] == needle[t];
    }
    forall t | 0 <= t < j - d ensures needle[d + t] == needle[t] {
      assert needle[d + t] == hay[i + (d + t)];
    }
  }

  lemma OccurrenceHidden(hay: seq<Char>, needle: seq<Char>, i: nat, j: nat, k: nat)
    requires i < k < i + j <= INT_MAX && j < |needle| && i + j < |hay|
    requires forall t | 0 <= t < j :: needle[t] == hay[i + t]
    requires hay[i + j] != needle[j] && OccursAt(hay, needle, k)
    ensures Hides(needle)
  {
    OverlapAgrees(hay, needle, i, j, k);
    assert HidesAt(needle, k - i, j);
  }

  /** Without such a shift the skipped positions hold no occurrence. */
  lemma {:induction false} NothingSkipped(hay: seq<Char>, needle: seq<Char>, i: nat, j: nat, k: nat)
    requires i + |needle| <= |hay| && j == Matched(hay, needle, i, 0) < |needle|
    requires i <= k && (k == i || k < i + j <= INT_MAX) && !Hides(needle)
    ensures !OccursAt(hay, needle, k)
  {
    if k == i {
      Mismatch(hay, needle, i, j);
    } else if OccursAt(hay, needle, k) {
      OccurrenceHidden(hay, needle, i, j, k);
    }
  }

  lemma Mismatch(hay: seq<Char>, needle: seq<Char>, i: nat, j: nat)
    requires i + |needle| <= |hay| && j < |needle| && hay[i + j] != needle[j]
    ensures !OccursAt(hay, needle, i)
  {
    assert hay[i..i + |needle|][j] == hay[i + j];
  }

  lemma {:induction false} FirstIsFurther(hay: seq<Char>, needle: seq<Char>, i: nat, k: nat)
    requires i <= k && forall p :: i <= p < k ==> !OccursAt(hay, needle, p)
    ensures FirstFrom(hay, needle, i) == FirstFrom(hay, needle, k)
    decreases k - i
  {
    if i < k && i + |needle| <= |hay| {
      FirstIsFurther(hay, needle, i + 1, k);
    }
  }

  lemma {:induction false} SkipLosesNothing(hay: seq<Char>, needle: seq<Char>, i: nat, j: nat, next: nat)
    requires i + |needle| <= |hay| && j == Matched(hay, needle, i, 0) < |needle| && !Hides(needle)
    requires next == i + (if j == 0 then 1 else j) <= INT_MAX
    ensures FirstFrom(hay, needle, i) == FirstFrom(hay, needle, next)
  {
    forall p | i <= p < next ensures !OccursAt(hay, needle, p) {
      NothingSkipped(hay, needle, i, j, p);
    }
    FirstIsFurther(hay, needle, i, next);
  }

  /** The search from `i` on ends with the first occurrence, unless a position overflows. */
  predicate RightFrom(hay: seq<Char>, needle: seq<Char>, i: nat)
    requires needle != []
  {
    var r := SkipSearch(hay, needle, i);
    r == Overflows || r == match FirstFrom(hay, needle, i) case None => NotFound case Some(k) => Found(k)
  }

  lemma {:induction false} SkipIsFirst(hay: seq<Char>, needle: seq<Char>, i: nat)
    requires needle != [] && !Hides(needle)
    ensures RightFrom(hay, needle, i)
    decreases |hay| - i
  {
    if i + |needle| <= |hay| {
      var j := Matched(hay, needle, i, 0);
      var next := i + if j == 0 then 1 else j;
      if j < |needle| && next <= INT_MAX {
        SkipIsFirst(hay, needle, next);
        SkipIsRight(hay, needle, i, j, next);
      } else if j == |needle| {
        FullMatch(hay, needle, i);
      }
    }
  }

  lemma {:induction false} SkipIsRight(hay: seq<Char>, needle: seq<Char>, i: nat, j: nat, next: nat)
    requires i + |needle| <= |hay| && j == Matched(hay, needle, i, 0) < |needle| && !Hides(needle)
    requires next == i + (if j == 0 then 1 else j) <= INT_MAX && RightFrom(hay, needle, next)
    ensures RightFrom(hay, needle, i)
  {
    SkipLosesNothing(hay, needle, i, j, next);
    SearchSkips(hay, needle, i, j, next);
  }

  lemma {:induction false} SearchSkips(hay: seq<Char>, needle: seq<Char>, i: nat, j: nat, next: nat)
    requires i + |needle| <= |hay| && j == Matched(hay, needle, i, 0) < |needle|
    requires next == i + (if j == 0 then 1 else j) <= INT_MAX
    ensures SkipSearch(hay, needle, i) == SkipSearch(hay, needle, next)
  {
  }

  lemma FullMatch(hay: seq<Char>, needle: seq<Char>, i: nat)
    requires i + |needle| <= |hay| && Matched(hay, needle, i, 0) == |needle|
    ensures OccursAt(hay, needle, i)
  {
  }

  lemma {:induction false} MatchedUpTo(hay: seq<Char>, needle: seq<Char>, i: nat, start: nat, j: nat)
    requires i + |needle| <= |hay| && start <= j < |needle|
    requires forall t | start <= t < j :: hay[i + t] == needle[t]
    requires hay[i + j] != needle[j]
    ensures Matched(hay, needle, i, start) == j
    decreases j - start
  {
    if start < j {
      MatchedUpTo(hay, needle, i, start + 1, j);
    }
  }

  lemma HiddenPrefix(needle: seq<Char>, d: nat, j: nat)
    requires HidesAt(needle, d, j)
    ensures var hay := needle[..d] + needle;
      (forall t | 0 <= t < j :: hay[t] == needle[t]) && hay[j] != needle[j]
  {
    var hay := needle[..d] + needle;
    assert hay[j] == needle[j - d];
    forall t | 0 <= t < j ensures hay[t] == needle[t] {
      if t >= d {
        assert needle[d..j][t - d] == needle[..j - d][t - d];
      }
    }
  }

  /** With one, the needle behind its own first `d` characters is not found. */
  lemma SkipMisses(needle: seq<Char>, d: nat, j: nat)
    requires HidesAt(needle, d, j)
    ensures OccursAt(needle[..d] + needle, needle, d)
    ensures SkipSearch(needle[..d] + needle, needle, 0) == NotFound
  {
    var hay := needle[..d] + needle;
    assert hay[d..d + |needle|] == needle;
    HiddenPrefix(needle, d, j);
    MatchedUpTo(hay, needle, 0, 0, j);
    SkipOnce(hay, needle, j);
  }

  lemma SkipOnce(hay: seq<Char>, needle: seq<Char>, j: nat)
    requires |needle| <= |hay| < j + |needle| && 0 < j <= INT_MAX && j < |needle| && Matched(hay, needle, 0, 0) == j
    ensures SkipSearch(hay, needle, 0) == NotFound
  {
    assert SkipSearch(hay, needle, j) == NotFound;
  }

  /** So "aab" is not found in "aaab". */
  lemma AabIsMissed()
    ensures OccursAt([97, 97, 97, 98], [97, 97, 98], 1)
    ensures SkipSearch([97, 97, 97, 98], [97, 97, 98], 0) == NotFound
  {
    var needle: seq<Char> := [97, 97, 98];
    assert HidesAt(needle, 1, 2);
    SkipMisses(needle, 1, 2);
    assert needle[..1] + needle == [97, 97, 97, 98];
  }

  /** `strstr` finds the first occurrence in every hay, as far as its positions do not overflow, exactly if the
      needle has no such shift. */
  lemma StrStrIsRight(needle: seq<Char>)
    requires needle != []
    ensures (forall hay :: RightFrom(hay, needle, 0)) <==> !Hides(needle)
  {
    if Hides(needle) {
      var d: nat, j: nat :| HidesAt(needle, d, j);
      SkipMisses(needle, d, j);
      var hay := needle[..d] + needle;
      FirstFromIsFirst(hay, needle, 0);
      assert !RightFrom(hay, needle, 0);
    } else {
      forall hay ensures RightFrom(hay, needle, 0) {
        SkipIsFirst(hay, needle, 0);
      }
    }
  }

  /** What it finds is an occurrence in any case. */
  lemma {:induction false} FoundOccurs(hay: seq<Char>, needle: seq<Char>, i: nat)
    requires needle != [] && SkipSearch(hay, needle, i).Found?
    ensures i <= SkipSearch(hay, needle, i).at && OccursAt(hay, needle, SkipSearch(hay, needle, i).at)
    decreases |hay| - i
  {
    var j := Matched(hay, needle, i, 0);
    if j < |needle| {
      FoundOccurs(hay, needle, i + if j == 0 then 1 else j);
    } else {
      FullMatch(hay, needle, i);
    }
  }

  // ----- basic_string::find

  const SIZES: nat := 0x1_0000_0000_0000_0000   // the values of size_t

  /** What `find` does: it returns a position or npos, or it reads characters outside the text. */
  datatype FindResult = At(pos: nat) | Npos | ReadsOutside

  /** Whether the end of an occurrence at `from` wraps around to a place in the text. */
  predicate WrapsIntoText(text: seq<Char>, str: seq<Char>, from: nat) {
    from + |str| >= SIZES && (from + |str|) % SIZES <= |text|
  }

  /** `find`, for any `from` that a size_t can be.  It never finds the empty string, and it finds the first
      occurrence of any other unless the end wraps around; a search from npos for one character does. */
  method Find(text: seq<Char>, str: seq<Char>, from: nat) returns (r: FindResult)
    requires from < SIZES && |text| + |str| < SIZES
    ensures r == if str == [] then Npos
                 else if WrapsIntoText(text, str, from) then ReadsOutside
                 else match FirstFrom(text, str, from)
                      case Some(p) => At(p)
                      case None => Npos
  {
    var count := |str|;
    if count == 0 {
      return Npos;
    }
    var pos := from;
    while (pos + count) % SIZES <= |text|
      invariant from <= pos && FirstFrom(text, str, from) == FirstFrom(text, str, pos)
      invariant pos == from || pos <= |text|
      decreases |text| - pos
    {
      if pos > |text| {
        return ReadsOutside;
      }
      var found, next := FindRound(text, str, pos);
      if found {
        return At(next);
      }
      pos := next;
    }
    r := Npos;
  }

  /** One round: the next place of the first character, and whether the rest follows. */
  method FindRound(text: seq<Char>, str: seq<Char>, pos: nat) returns (found: bool, next: nat)
    requires str != [] && pos + |str| <= |text|
    ensures pos <= next <= |text|
    ensures if found then FirstFrom(text, str, pos) == Some(next)
            else next > pos && FirstFrom(text, str, pos) == FirstFrom(text, str, next)
  {
    var count := |str|;
    var tmp := CharTraits.Find(text, pos, |text| - pos - count + 1, str[0]);
    if tmp == -1 {
      NotBefore(text, str, pos, |text| - count + 1);
      return false, |text| - count + 1;
    }
    NotBefore(text, str, pos, tmp);
    var order := CharTraits.Compare(text[tmp..], str, count);
    assert text[tmp..][..count] == text[tmp..tmp + count] && str[..count] == str;
    if order == 0 {
      return true, tmp;
    }
    return false, tmp + 1;
  }

  /** No occurrence starts before the first character of the string does. */
  lemma NotBefore(text: seq<Char>, str: seq<Char>, pos: nat, next: nat)
    requires str != [] && pos <= next <= |text| - |str| + 1
    requires forall k :: pos <= k < next ==> text[k] != str[0]
    ensures FirstFrom(text, str, pos) == FirstFrom(text, str, next)
  {
    forall p | pos <= p < next ensures !OccursAt(text, str, p) {
      Mismatch(text, str, p, 0);
    }
    FirstIsFurther(text, str, pos, next);
  }
}
