/** Demangling of types made of a builtin and qualifiers. */
module Demangler {
  import opened Common

  const DEF_CAPACITY := 8

  /** `vector_str` and the vectors built like it: a block of slots that grows by a factor of 1.618. */
  class Growing<T(0)> {
    var size: nat
    var capacity: nat
    var container: array<T>

    ghost predicate Valid()
      reads this
    {
      size <= capacity == container.Length && DEF_CAPACITY <= capacity
    }

    ghost function Items(): (s: seq<T>)
      requires Valid()
      reads this, container
    {
      container[..size]
    }

    constructor ()
      ensures Valid() && fresh(container) && Items() == []
    {
      size, capacity := 0, DEF_CAPACITY;
      container := new T[DEF_CAPACITY];
    }

    /** `vector_str_grow`: a larger block with the same items. */
    method Grow()
      requires Valid()
      modifies this`capacity, this`container
      ensures Valid() && fresh(container) && Items() == old(Items()) && capacity > old(capacity)
    {
      var newCapacity := (capacity as real * 1.618).Floor;
      GrowsByFactor(capacity);
      var block := new T[newCapacity];
      for i := 0 to size
        invariant block[..i] == container[..i]
        modifies block
      {
        block[i] := container[i];
      }
      container, capacity := block, newCapacity;
    }

    static lemma GrowsByFactor(c: nat)
      requires c >= DEF_CAPACITY
      ensures (c as real * 1.618).Floor > c
    {
      assert c as real * 1.618 >= (c + 1) as real;
    }

    /** `vector_str_push` */
    method Push(item: T)
      requires Valid()
      modifies this, container
      ensures Valid() && Items() == old(Items()) + [item]
      ensures container == old(container) || fresh(container)
    {
      if size == capacity {
        Grow();
      }
      container[size] := item;
      size := size + 1;
    }
  }

  function Flat(parts: seq<string>): string {
    if parts == [] then [] else Flat(parts[..|parts| - 1]) + parts[|parts| - 1]
  }

  /** `vector_str_get_flat` and `vector_str_substr`: the items from `begin` on in one string. */
  method Substr(v: Growing<string>, begin: nat) returns (s: string)
    requires v.Valid() && begin <= v.size
    ensures s == Flat(v.Items()[begin..])
  {
    s := [];
    for i := begin to v.size
      invariant s == Flat(v.Items()[begin..i])
    {
      s := s + v.container[i];
      assert v.Items()[begin..i + 1][..i - begin] == v.Items()[begin..i];
    }
    assert v.Items()[begin..v.size] == v.Items()[begin..];
  }

  /** What `vector_str_find` looks for: an item that starts with the string. */
  predicate Known(items: seq<string>, s: string) {
    exists i :: 0 <= i < |items| && s <= items[i]
  }

  method Find(v: Growing<string>, s: string) returns (found: bool)
    requires v.Valid()
    ensures found <==> Known(v.Items(), s)
  {
    for i := 0 to v.size
      invariant !Known(v.Items()[..i], s)
    {
      if s <= v.container[i] {
        assert v.Items()[i] == v.container[i];
        return true;
      }
      assert v.Items()[..i + 1] == v.Items()[..i] + [v.container[i]];
    }
    assert v.Items()[..v.size] == v.Items();
    found := false;
  }

  // ----- The vocabulary

  datatype Qualifier = Pointer | Reference | Complex | Imaginary | Restrict | Volatile | Const

  function Code(q: Qualifier): char {
    match q
    case Pointer => 'P'
    case Reference => 'R'
    case Complex => 'C'
    case Imaginary => 'G'
    case Restrict => 'r'
    case Volatile => 'V'
    case Const => 'K'
  }

  function Spelling(q: Qualifier): (s: string)
    ensures s != []
  {
    match q
    case Pointer => "*"
    case Reference => "&"
    case Complex => " complex"
    case Imaginary => " imaginary"
    case Restrict => " restrict"
    case Volatile => " volatile"
    case Const => " const"
  }

  function QualifierOf(c: char): (r: Option<Qualifier>)
    ensures r.Some? ==> Code(r.value) == c
    ensures r.None? ==> forall q :: Code(q) != c
  {
    if c == 'P' then Some(Pointer)
    else if c == 'R' then Some(Reference)
    else if c == 'C' then Some(Complex)
    else if c == 'G' then Some(Imaginary)
    else if c == 'r' then Some(Restrict)
    else if c == 'V' then Some(Volatile)
    else if c == 'K' then Some(Const)
    else None
  }

  /** The builtin types with a code of one character. */
  function Builtin(c: char): (r: Option<string>)
    ensures r.Some? ==> QualifierOf(c).None? && c != 'D' && c != '\0' && r.value != []
  {
    match c
    case 'a' => Some("signed char")
    case 'b' => Some("bool")
    case 'c' => Some("char")
    case 'd' => Some("double")
    case 'e' => Some("long double")
    case 'f' => Some("float")
    case 'g' => Some("__float128")
    case 'h' => Some("unsigned char")
    case 'i' => Some("int")
    case 'j' => Some("unsigned int")
    case 'l' => Some("long")
    case 'm' => Some("unsigned long")
    case 'n' => Some("__int128")
    case 'o' => Some("unsigned __int128")
    case 's' => Some("short")
    case 't' => Some("unsigned short")
    case 'v' => Some("void")
    case 'w' => Some("wchar_t")
    case 'x' => Some("long long")
    case 'y' => Some("unsigned long long")
    case 'z' => Some("...")
    case _ => None
  }

  /** Those with a code of `D` and a character. */
  function Extended(c: char): (r: Option<string>)
    ensures r.Some? ==> r.value != []
  {
    match c
    case 'd' => Some("decimal64")
    case 'e' => Some("decimal128")
    case 'f' => Some("decimal32")
    case 'h' => Some("half")
    case 'i' => Some("char32_t")
    case 'n' => Some("decltype(nullptr)")
    case 's' => Some("char16_t")
    case _ => None
  }

  /** Fail is the return value 0; NotModelled marks the productions that are not part of this model. */
  datatype Outcome = Read | Fail | NotModelled

  /** What the string holds at `i`, its terminator included. */
  function At(s: string, i: nat): char {
    if i < |s| then s[i] else '\0'
  }

  // ----- The specification

  /** The qualifiers from `i` on. */
  function Run(s: string, i: nat): seq<Qualifier>
    decreases |s| - i
  {
    if i < |s| && QualifierOf(s[i]).Some? then [QualifierOf(s[i]).value] + Run(s, i + 1) else []
  }

  /** The builtin type at `i`, and the length of its code. */
  function BuiltinAt(s: string, i: nat): Option<(string, nat)> {
    if Builtin(At(s, i)).Some? then Some((Builtin(At(s, i)).value, 1))
    else if At(s, i) == 'D' && Extended(At(s, i + 1)).Some? then Some((Extended(At(s, i + 1)).value, 2))
    else None
  }

  /** The spellings from the innermost qualifier, which is the last one mangled, to the outermost. */
  function Spellings(qs: seq<Qualifier>): (r: seq<string>)
    ensures |r| == |qs|
  {
    if qs == [] then [] else Spellings(qs[1..]) + [Spelling(qs[0])]
  }

  /** The partial types, each with one qualifier more. */
  function Partials(b: string, spellings: seq<string>): (r: seq<string>)
    ensures |r| == |spellings|
  {
    if spellings == [] then []
    else Partials(b, spellings[..|spellings| - 1]) + [b + Flat(spellings)]
  }

  /** The substitution table after adding a candidate; one that an entry starts with is not added. */
  function AddedOne(table: seq<string>, s: string): seq<string> {
    if Known(table, s) then table else table + [s]
  }

  function Added(table: seq<string>, candidates: seq<string>): seq<string> {
    if candidates == [] then table
    else AddedOne(Added(table, candidates[..|candidates| - 1]), candidates[|candidates| - 1])
  }

  // ----- The demangler

  /** `cpp_demangle_data`, as far as the type path uses it. */
  class Data {
    const input: string
    const output: Growing<string>
    const subst: Growing<string>
    var cur: nat

    ghost predicate Valid()
      reads this, output, subst
    {
      && output.Valid() && subst.Valid() && output != subst && output.container != subst.container
      && cur <= |input|
    }

    ghost function Footprint(): set<object>
      reads this, output, subst
    {
      {this, output, subst, output.container, subst.container}
    }

    constructor (input: string)
      ensures Valid() && fresh(Footprint()) && this.input == input && cur == 0
      ensures output.Items() == [] && subst.Items() == []
    {
      this.input := input;
      output := new Growing();
      subst := new Growing();
      cur := 0;
    }

    /** `cpp_demangle_push_subst`, and `cpp_demangle_push_subst_v` of the flat string. */
    method PushSubst(s: string)
      requires Valid()
      modifies subst, subst.container
      ensures Valid() && subst.Items() == AddedOne(old(subst.Items()), s)
      ensures subst.container == old(subst.container) || fresh(subst.container)
    {
      var found := Find(subst, s);
      if !found {
        subst.Push(s);
      }
    }

    /** One case of the switch in `cpp_demangle_push_type_qualifier`. */
    method PushQualifier(q: Qualifier, substV: Growing<string>)
      requires Valid() && substV.Valid() && substV != output && substV != subst
      requires substV.container != output.container && substV.container != subst.container
      modifies output, output.container, subst, subst.container, substV, substV.container
      ensures Valid() && substV.Valid() && substV.container != output.container && substV.container != subst.container
      ensures output.Items() == old(output.Items()) + [Spelling(q)]
      ensures substV.Items() == old(substV.Items()) + [Spelling(q)]
      ensures subst.Items() == AddedOne(old(subst.Items()), Flat(substV.Items()))
      ensures output.container == old(output.container) || fresh(output.container)
      ensures subst.container == old(subst.container) || fresh(subst.container)
      ensures substV.container == old(substV.container) || fresh(substV.container)
    {
      output.Push(Spelling(q));
      substV.Push(Spelling(q));
      var s := Substr(substV, 0);
      assert substV.Items()[0..] == substV.Items();
      PushSubst(s);
    }

    /** `cpp_demangle_push_type_qualifier`, given the contents of the qualifier vector: from the last one
        pushed, the innermost, to the first. */
    method PushQualifiers(qs: seq<Qualifier>, typeStr: string)
      requires Valid()
      modifies output, output.container, subst, subst.container
      ensures Valid()
      ensures output.Items() == old(output.Items()) + Spellings(qs)
      ensures subst.Items() == Added(old(subst.Items()), Partials(typeStr, Spellings(qs)))
    {
      if |qs| == 0 {
        return;
      }
      var substV := new Growing<string>();
      substV.Push(typeStr);
      PushAll(qs, substV, typeStr, output.Items(), subst.Items());
      assert qs[0..] == qs;
    }

    /** Its loop. */
    method PushAll(qs: seq<Qualifier>, substV: Growing<string>, ghost b: string,
                   ghost before: seq<string>, ghost table: seq<string>)
      requires Progress(substV, qs, |qs|, b, before, table)
      modifies output, output.container, subst, subst.container, substV, substV.container
      ensures Progress(substV, qs, 0, b, before, table)
    {
      var idx: nat := |qs|;
      while idx > 0
        invariant idx <= |qs|
        invariant output.container == old(output.container) || fresh(output.container)
        invariant subst.container == old(subst.container) || fresh(subst.container)
        invariant substV.container == old(substV.container) || fresh(substV.container)
        invariant Progress(substV, qs, idx, b, before, table)
      {
        PushNext(qs[idx - 1], substV, qs, idx - 1, b, before, table);
        idx := idx - 1;
      }
    }

    /** The qualifiers from `idx` on are pushed. */
    ghost predicate Progress(substV: Growing<string>, qs: seq<Qualifier>, idx: nat, b: string,
                             before: seq<string>, table: seq<string>)
      reads this, output, output.container, subst, subst.container, substV, substV.container
    {
      && Valid() && substV.Valid() && substV != output && substV != subst && idx <= |qs|
      && substV.container != output.container && substV.container != subst.container
      && output.Items() == before + Spellings(qs[idx..])
      && substV.Items() == [b] + Spellings(qs[idx..])
      && subst.Items() == Added(table, Partials(b, Spellings(qs[idx..])))
    }

    /** One round of the loop. */
    method PushNext(q: Qualifier, substV: Growing<string>, ghost qs: seq<Qualifier>, ghost idx: nat, ghost b: string,
                    ghost before: seq<string>, ghost table: seq<string>)
      requires Progress(substV, qs, idx + 1, b, before, table) && qs[idx] == q
      modifies output, output.container, subst, subst.container, substV, substV.container
      ensures Progress(substV, qs, idx, b, before, table)
      ensures output.container == old(output.container) || fresh(output.container)
      ensures subst.container == old(subst.container) || fresh(subst.container)
      ensures substV.container == old(substV.container) || fresh(substV.container)
    {
      ghost var inner := Spellings(qs[idx + 1..]);
      NextOut(qs, idx, b, table);
      Appended(before, inner, Spelling(q));
      Appended([b], inner, Spelling(q));
      PushQualifier(q, substV);
    }

    static lemma Appended(a: seq<string>, b: seq<string>, last: string)
      ensures a + b + [last] == a + (b + [last])
    {
    }

    /** The step outward from `idx + 1` to `idx`. */
    static lemma NextOut(qs: seq<Qualifier>, idx: nat, b: string, table: seq<string>)
      requires idx < |qs|
      ensures Spellings(qs[idx..]) == Spellings(qs[idx + 1..]) + [Spelling(qs[idx])]
      ensures Added(table, Partials(b, Spellings(qs[idx..]))) ==
        AddedOne(Added(table, Partials(b, Spellings(qs[idx + 1..]))),
                 Flat([b] + Spellings(qs[idx + 1..]) + [Spelling(qs[idx])]))
    {
      assert qs[idx..][1..] == qs[idx + 1..];
      var inner := Spellings(qs[idx + 1..]);
      var all := inner + [Spelling(qs[idx])];
      assert all[..|all| - 1] == inner;
      FlatOfCons(b, all);
      assert [b] + inner + [Spelling(qs[idx])] == [b] + all;
      var ps := Partials(b, all);
      assert ps[..|ps| - 1] == Partials(b, inner);
    }

    static lemma {:induction false} FlatOfCons(b: string, parts: seq<string>)
      ensures Flat([b] + parts) == b + Flat(parts)
    {
      var all := [b] + parts;
      if parts == [] {
        assert all[..0] == [] && Flat(all) == Flat([]) + b;
      } else {
        var last := |parts| - 1;
        assert all[..|all| - 1] == [b] + parts[..last];
        FlatOfCons(b, parts[..last]);
        assert Flat(all) == Flat(all[..|all| - 1]) + parts[last];
      }
    }

    /** The cases of the switch that push a qualifier and go to `again`. */
    method ReadQualifiers(v: Growing<Qualifier>)
      requires cur <= |input| && v.Valid() && v.Items() == []
      modifies this`cur, v, v.container
      ensures v.Valid() && v.Items() == Run(input, old(cur)) && cur == old(cur) + v.size <= |input|
    {
      while true
        invariant v.Valid() && (v.container == old(v.container) || fresh(v.container))
        invariant old(cur) <= cur <= |input| && v.size == cur - old(cur)
        invariant v.Items() + Run(input, cur) == Run(input, old(cur))
        decreases |input| - cur
      {
        RunUnfolds(input, cur);
        var q := QualifierOf(At(input, cur));
        if q.None? {
          break;
        }
        OneMore(v.Items(), q.value, Run(input, cur + 1));
        v.Push(q.value);
        cur := cur + 1;
      }
    }

    static lemma RunUnfolds(s: string, i: nat)
      ensures var q := QualifierOf(At(s, i));
        if q.None? then Run(s, i) == [] else i < |s| && Run(s, i) == [q.value] + Run(s, i + 1)
    {
    }

    static lemma OneMore(read: seq<Qualifier>, q: Qualifier, rest: seq<Qualifier>)
      ensures read + ([q] + rest) == (read + [q]) + rest
    {
    }

    /** The cases of the switch that are not qualifiers. */
    method ReadSwitch() returns (r: Outcome)
      requires Valid()
      modifies this`cur, output, output.container
      ensures Valid() && (output.container == old(output.container) || fresh(output.container))
      ensures match BuiltinAt(input, old(cur))
        case Some(found) =>
          r == Read && output.Items() == old(output.Items()) + [found.0] && cur == old(cur) + found.1
        case None =>
          output.Items() == old(output.Items())
          && r == if At(input, old(cur)) == 'D' && At(input, old(cur) + 1) != 'v' then Fail else NotModelled
    {
      var b := Builtin(At(input, cur));
      if b.Some? {
        output.Push(b.value);
        cur := cur + 1;
        return Read;
      }
      if At(input, cur) == 'D' {
        cur := cur + 1;
        var e := Extended(At(input, cur));
        if e.Some? {
          output.Push(e.value);
          cur := cur + 1;
          return Read;
        }
        return if At(input, cur) == 'v' then NotModelled else Fail;
      }
      r := NotModelled;
    }

    /** `cpp_demangle_read_type` where nothing before it ended in a template's argument list. */
    method ReadType() returns (r: Outcome)
      requires Valid()
      modifies Footprint()
      ensures var qs := Run(input, old(cur));
        match BuiltinAt(input, old(cur) + |qs|)
        case Some((b, length)) =>
          && Valid() && r == Read && cur == old(cur) + |qs| + length
          && output.Items() == old(output.Items()) + [b] + Spellings(qs)
          && subst.Items() == Added(old(subst.Items()), Partials(b, Spellings(qs)))
        case None =>
          r == if At(input, old(cur) + |qs|) == 'D' && At(input, old(cur) + |qs| + 1) != 'v' then Fail else NotModelled
    {
      var pIdx := output.size;
      var v := new Growing<Qualifier>();
      ReadQualifiers(v);
      r := ReadUnqualified(pIdx, v.container[..v.size]);
    }

    /** The rest of it, with the qualifiers read. */
    method ReadUnqualified(pIdx: nat, qs: seq<Qualifier>) returns (r: Outcome)
      requires Valid() && output.size == pIdx
      modifies Footprint()
      ensures match BuiltinAt(input, old(cur))
        case Some((b, length)) =>
          && Valid() && r == Read && cur == old(cur) + length
          && output.Items() == old(output.Items()) + [b] + Spellings(qs)
          && subst.Items() == Added(old(subst.Items()), Partials(b, Spellings(qs)))
        case None => r == if At(input, old(cur)) == 'D' && At(input, old(cur) + 1) != 'v' then Fail else NotModelled
    {
      r := ReadSwitch();
      if r == Read {
        FinishType(pIdx, qs);
      }
    }

    /** What follows the label `rtn` for a builtin. */
    method FinishType(pIdx: nat, qs: seq<Qualifier>)
      requires Valid() && output.size == pIdx + 1
      modifies output, output.container, subst, subst.container
      ensures Valid()
      ensures output.Items() == old(output.Items()) + Spellings(qs)
      ensures subst.Items() == Added(old(subst.Items()), Partials(old(output.Items())[pIdx], Spellings(qs)))
    {
      var typeStr := Substr(output, pIdx);
      FlatOfOne(output.Items(), pIdx);
      PushQualifiers(qs, typeStr);
    }

    static lemma FlatOfOne(items: seq<string>, k: nat)
      requires |items| == k + 1
      ensures Flat(items[k..]) == items[k]
    {
      assert items[k..][..0] == [];
    }
  }

  const KEYED := "_GLOBAL__I_"

  /** `__cxa_demangle_gnu3`: names of global constructors, and the type path; a name that starts like an encoding
      is not modelled. */
  method Demangle(org: string) returns (r: Outcome, text: string)
    ensures if |org| > |KEYED| && org[..|KEYED|] == KEYED then
              r == Read && text == "global constructors keyed to " + org[|KEYED|..]
            else
              var qs := Run(org, 0);
              match BuiltinAt(org, |qs|)
              case Some((b, _)) => r == Read && text == Flat([b] + Spellings(qs))
              case None => r != Read
    ensures |org| >= 2 && org[..2] == "_Z" ==> r == NotModelled
  {
    if |org| > |KEYED| && org[..|KEYED|] == KEYED {
      return Read, "global constructors keyed to " + org[|KEYED|..];
    }
    if |org| >= 2 && org[0] == '_' && org[1] == 'Z' {
      return NotModelled, [];
    }
    r, text := DemangleType(org);
  }

  method DemangleType(org: string) returns (r: Outcome, text: string)
    ensures var qs := Run(org, 0);
      match BuiltinAt(org, |qs|)
      case Some((b, _)) => r == Read && text == Flat([b] + Spellings(qs))
      case None => r != Read
  {
    var data := new Data(org);
    r := data.ReadType();
    text := [];
    if r == Read {
      text := Substr(data.output, 0);
      assert data.output.Items()[0..] == [BuiltinAt(org, |Run(org, 0)|).value.0] + Spellings(Run(org, 0));
    }
  }

  // ----- What that means for mangled types

  datatype BuiltinCode = Short(c: char) | Long(c: char) {
    predicate Valid() {
      if Short? then Builtin(c).Some? else Extended(c).Some?
    }

    function Mangled(): string {
      if Short? then [c] else ['D', c]
    }

    function Name(): string
      requires Valid()
    {
      if Short? then Builtin(c).value else Extended(c).value
    }
  }

  function Codes(qs: seq<Qualifier>): (s: string)
    ensures |s| == |qs|
  {
    if qs == [] then [] else [Code(qs[0])] + Codes(qs[1..])
  }

  /** The mangled name of a builtin with qualifiers, outermost first: section 5.1.5 of the Itanium C++ ABI. */
  function Mangled(qs: seq<Qualifier>, b: BuiltinCode): string {
    Codes(qs) + b.Mangled()
  }

  lemma {:induction false} RunOfMangled(before: string, qs: seq<Qualifier>, b: BuiltinCode, rest: string)
    requires b.Valid()
    ensures var s := before + Mangled(qs, b) + rest;
      && Run(s, |before|) == qs
      && BuiltinAt(s, |before| + |qs|) == Some((b.Name(), |b.Mangled()|))
    decreases |qs|
  {
    var s := before + Mangled(qs, b) + rest;
    if qs == [] {
      assert s[|before|] == b.Mangled()[0];
    } else {
      assert s[|before|] == Code(qs[0]);
      assert s == (before + [Code(qs[0])]) + Mangled(qs[1..], b) + rest;
      RunOfMangled(before + [Code(qs[0])], qs[1..], b, rest);
    }
  }

  /** Nothing is dropped from a fresh substitution table: every partial type is longer than those before. */
  lemma {:induction false} PartialsAllAdded(b: string, spellings: seq<string>)
    requires forall i :: 0 <= i < |spellings| ==> spellings[i] != []
    ensures Added([], Partials(b, spellings)) == Partials(b, spellings)
    ensures forall i :: 0 <= i < |spellings| ==> |Partials(b, spellings)[i]| <= |b + Flat(spellings)|
  {
    if spellings != [] {
      var inner := spellings[..|spellings| - 1];
      PartialsAllAdded(b, inner);
      var ps := Partials(b, spellings);
      assert ps[..|ps| - 1] == Partials(b, inner);
      assert !Known(Partials(b, inner), b + Flat(spellings));
    }
  }

  lemma {:induction false} SpellingsNonEmpty(qs: seq<Qualifier>)
    ensures forall i :: 0 <= i < |qs| ==> Spellings(qs)[i] != []
  {
    if qs != [] {
      SpellingsNonEmpty(qs[1..]);
    }
  }

  /** What `ReadType` finds in a mangled type with anything behind it: it is consumed to its end, its name is
      the builtin followed by the qualifiers from the inside out, and a fresh substitution table receives the
      partial types in that order.  The name does not depend on what follows, which the type path ignores. */
  lemma MangledIsRead(qs: seq<Qualifier>, b: BuiltinCode, rest: string)
    requires b.Valid()
    ensures Run(Mangled(qs, b) + rest, 0) == qs
    ensures BuiltinAt(Mangled(qs, b) + rest, |qs|) == Some((b.Name(), |Mangled(qs, b)| - |qs|))
    ensures Flat([b.Name()] + Spellings(qs)) == b.Name() + Flat(Spellings(qs))
    ensures Added([], Partials(b.Name(), Spellings(qs))) == Partials(b.Name(), Spellings(qs))
  {
    assert "" + Mangled(qs, b) + rest == Mangled(qs, b) + rest;
    RunOfMangled("", qs, b, rest);
    SpellingsNonEmpty(qs);
    PartialsAllAdded(b.Name(), Spellings(qs));
    Data.FlatOfCons(b.Name(), Spellings(qs));
  }

  /** The vocabulary of section 5.1.5 of the Itanium C++ ABI: codes and names of builtin types. */
  const ABI_TYPES: seq<(string, string)> := [
    ("v", "void"), ("w", "wchar_t"), ("b", "bool"), ("c", "char"), ("a", "signed char"), ("h", "unsigned char"),
    ("s", "short"), ("t", "unsigned short"), ("i", "int"), ("j", "unsigned int"), ("l", "long"),
    ("m", "unsigned long"), ("x", "long long"), ("y", "unsigned long long"), ("n", "__int128"),
    ("o", "unsigned __int128"), ("f", "float"), ("d", "double"), ("e", "long double"), ("g", "__float128"),
    ("z", "..."), ("Dd", "decimal64"), ("De", "decimal128"), ("Df", "decimal32"), ("Dh", "half"),
    ("Di", "char32_t"), ("Ds", "char16_t"), ("Dn", "decltype(nullptr)")]

  /** Its codes of qualifiers, and how they are written behind a type. */
  const ABI_QUALIFIERS: seq<(string, string)> := [
    ("P", "*"), ("R", "&"), ("r", " restrict"), ("V", " volatile"), ("K", " const"), ("C", " complex"),
    ("G", " imaginary")]

  /** Every builtin type is read under its code and with its name. */
  lemma {:induction false} TypesAreNamed(i: nat)
    requires i < |ABI_TYPES|
    ensures var (code, name) := ABI_TYPES[i]; Run(code, 0) == [] && BuiltinAt(code, 0) == Some((name, |code|))
  {
    var (code, name) := ABI_TYPES[i];
    assert QualifierOf(code[0]).None?;
  }

  /** And so is every qualifier, by itself and in front of any type. */
  lemma {:induction false} QualifiersAreNamed(i: nat, q: Qualifier)
    requires i < |ABI_QUALIFIERS| && [Code(q)] == ABI_QUALIFIERS[i].0
    ensures QualifierOf(Code(q)) == Some(q) && Spelling(q) == ABI_QUALIFIERS[i].1
  {
  }

  lemma {:induction false} FlatOfTwo(x: string, y: string)
    ensures Flat([x]) == x && Flat([x, y]) == x + y
  {
    assert [x, y][..1] == [x] && [x][..0] == [] && [] + x == x;
  }

  lemma {:induction false} FlatOfThree(b: string, x: string, y: string)
    ensures Flat([b, x, y]) == b + x + y
  {
    assert [b, x, y][..2] == [b, x];
    FlatOfTwo(b, x);
  }

  lemma {:induction false} PartialsOfTwo(b: string, x: string, y: string)
    ensures Partials(b, [x, y]) == [b + x, b + x + y]
  {
    FlatOfTwo(x, y);
    assert [x, y][..1] == [x] && [x][..0] == [] && b + (x + y) == b + x + y;
    assert Partials(b, [x]) == [] + [b + x];
  }

  lemma SpellingsOfTwo(q: Qualifier, r: Qualifier)
    ensures Spellings([q, r]) == [Spelling(r), Spelling(q)]
  {
    assert [q, r][1..] == [r] && [r][1..] == [] && Spellings([r]) == [] + [Spelling(r)];
  }

  /** Of two qualifiers the second one, which is the inner, is written first: a pointer to a const type, mangled PK,
      is the type, then const, then the star. */
  lemma {:induction false} TwoQualifiers(b: string, q: Qualifier, r: Qualifier)
    ensures Flat([b] + Spellings([q, r])) == b + Spelling(r) + Spelling(q)
    ensures Partials(b, Spellings([q, r])) == [b + Spelling(r), b + Spelling(r) + Spelling(q)]
  {
    SpellingsOfTwo(q, r);
    assert [b] + [Spelling(r), Spelling(q)] == [b, Spelling(r), Spelling(q)];
    FlatOfThree(b, Spelling(r), Spelling(q));
    PartialsOfTwo(b, Spelling(r), Spelling(q));
  }

  lemma {:induction false} FlatSplits(a: seq<string>, last: string)
    ensures Flat(a + [last]) == Flat(a) + last
  {
    assert (a + [last])[..|a|] == a;
  }

  /** The last spelling of a text can be told from its end: no spelling ends another. */
  lemma SpellingsDiffer(p: Qualifier, q: Qualifier, x: string, y: string)
    requires x + Spelling(p) == y + Spelling(q)
    ensures p == q && x == y
  {
    var t := x + Spelling(p);
    assert t[|t| - 1] == Spelling(p)[|Spelling(p)| - 1] == Spelling(q)[|Spelling(q)| - 1];
    if |Spelling(p)| > 1 && |Spelling(q)| > 1 {
      assert t[|t| - 2] == Spelling(p)[|Spelling(p)| - 2] == Spelling(q)[|Spelling(q)| - 2];
    }
    assert t[..|x|] == x && t[..|y|] == y;
  }

  /** Different qualifiers on the same builtin have different names. */
  lemma {:induction false} NamesDiffer(b: string, qs: seq<Qualifier>, rs: seq<Qualifier>)
    requires b + Flat(Spellings(qs)) == b + Flat(Spellings(rs))
    ensures qs == rs
  {
    var x, y := Flat(Spellings(qs)), Flat(Spellings(rs));
    assert (b + x)[|b|..] == x && (b + y)[|b|..] == y;
    if qs != [] && rs != [] {
      FlatSplits(Spellings(qs[1..]), Spelling(qs[0]));
      FlatSplits(Spellings(rs[1..]), Spelling(rs[0]));
      SpellingsDiffer(qs[0], rs[0], Flat(Spellings(qs[1..])), Flat(Spellings(rs[1..])));
      NamesDiffer(b, qs[1..], rs[1..]);
    }
  }
}
