/** Which handler catches which exception: upcasts through class hierarchies, and the rules for pointer
    types. */
module TypeMatch {
  import opened Common

  /** `__class_type_info` and its two subclasses.  A class contains its bases, so every hierarchy is
      acyclic; two occurrences of one class are equal values. */
  datatype Class =
    | Plain(id: nat)
    | Single(id: nat, base: Class)            // one public non-virtual base at offset 0
    | Multiple(id: nat, bases: seq<Base>)

  /** `__base_class_type_info`.  For a virtual base the offset says where in the object's virtual table the
      real offset is stored. */
  datatype Base = Base(cls: Class, offset: int, isVirtual: bool, isPublic: bool)

  /** What the virtual table of the object at an address holds at an offset. */
  type Tables = (int, int) -> int

  /** `__do_upcast`, which takes and returns the object pointer it may adjust. */
  method DoUpcast(c: Class, target: Class, t: Tables, obj: int)
    returns (ok: bool, moved: int, ghost classes: seq<Class>, ghost at: seq<int>)
    ensures ok <==> FirstPath(c, target).Some?
    ensures if ok then Route(FirstPath(c, target).value, t, classes, at) && Joins(classes, at, c, obj, target, moved)
            else moved == obj
    decreases c
  {
    classes, at := [c], [obj];
    if c == target {
      return true, obj, classes, at;
    }
    match c {
      case Plain(_) =>
        return false, obj, classes, at;
      case Single(_, base) =>
        ok, moved, classes, at := DoUpcast(base, target, t, obj);
        if ok {
          OneStepBefore(c, 0, FirstPath(base, target).value, t, obj, classes, at, target, moved);
        }
        classes, at := [c] + classes, [obj] + at;
      case Multiple(_, bases) =>
        var i := 0;
        while i < |bases|
          invariant 0 <= i <= |bases|
          invariant FirstPath(c, target) == FirstPathFrom(c, target, i)
        {
          var cast := BaseAddress(bases[i], t, obj);
          if bases[i].cls == target {
            OneStepBefore(c, i, [], t, obj, [target], [cast], target, cast);
            return true, cast, [c] + [target], [obj] + [cast];
          }
          ok, moved, classes, at := DoUpcast(bases[i].cls, target, t, cast);
          if ok {
            OneStepBefore(c, i, FirstPath(bases[i].cls, target).value, t, obj, classes, at, target, moved);
            return true, moved, [c] + classes, [obj] + at;
          }
          i := i + 1;
        }
        return false, obj, classes, at;
    }
  }

  /** Where the subobject of a direct base starts. */
  method BaseAddress(b: Base, t: Tables, obj: int) returns (cast: int)
    ensures cast == obj + if b.isVirtual then t(obj, b.offset) else b.offset
  {
    var offset := b.offset;
    if b.isVirtual {
      offset := t(obj, offset);
    }
    cast := obj + offset;
  }

  /** `cast_to`; None is the null pointer. */
  method CastTo(c: Class, target: Class, t: Tables, obj: int)
    returns (r: Option<int>, ghost classes: seq<Class>, ghost at: seq<int>)
    ensures r.Some? <==> FirstPath(c, target).Some?
    ensures r.Some? ==>
      Route(FirstPath(c, target).value, t, classes, at) && Joins(classes, at, c, obj, target, r.value)
    decreases c
  {
    classes, at := [c], [obj];
    match c {
      case Plain(_) =>
        r := if c == target then Some(obj) else None;
      case Single(_, base) =>
        if c == target {
          return Some(obj), classes, at;
        }
        r, classes, at := CastTo(base, target, t, obj);
        if r.Some? {
          OneStepBefore(c, 0, FirstPath(base, target).value, t, obj, classes, at, target, r.value);
        }
        classes, at := [c] + classes, [obj] + at;
      case Multiple(_, _) =>
        var ok, moved;
        ok, moved, classes, at := DoUpcast(c, target, t, obj);
        r := if ok then Some(moved) else None;
    }
  }

  /** The classes and the addresses of the subobjects on the way: each lies at the offset of the base in the one
      before, or for a virtual base at the offset that the virtual table found there holds. */
  ghost predicate Route(path: seq<nat>, t: Tables, classes: seq<Class>, at: seq<int>) {
    && |classes| == |at| == |path| + 1
    && forall i {:trigger path[i]} | 0 <= i < |path| ::
         && path[i] < |Bases(classes[i])|
         && var b := Bases(classes[i])[path[i]];
            classes[i + 1] == b.cls && at[i + 1] == at[i] + if b.isVirtual then t(at[i], b.offset) else b.offset
  }

  /** The way leads from `c` at `obj` to `target` at `end`. */
  ghost predicate Joins(classes: seq<Class>, at: seq<int>, c: Class, obj: int, target: Class, end: int) {
    && |classes| == |at| > 0 && classes[0] == c && classes[|classes| - 1] == target
    && at[0] == obj && at[|at| - 1] == end
  }

  lemma OneStepBefore(c: Class, k: nat, path: seq<nat>, t: Tables, obj: int, classes: seq<Class>, at: seq<int>,
                      target: Class, end: int)
    requires k < |Bases(c)| && Route(path, t, classes, at)
    requires var b := Bases(c)[k];
      Joins(classes, at, b.cls, obj + if b.isVirtual then t(obj, b.offset) else b.offset, target, end)
    ensures Route([k] + path, t, [c] + classes, [obj] + at)
    ensures Joins([c] + classes, [obj] + at, c, obj, target, end)
  {
    var whole := [k] + path;
    forall i {:trigger whole[i]} | 0 < i < |whole|
      ensures whole[i] < |Bases(classes[i - 1])|
      ensures var b := Bases(classes[i - 1])[whole[i]];
        classes[i] == b.cls && at[i] == at[i - 1] + if b.isVirtual then t(at[i - 1], b.offset) else b.offset
    {
      assert whole[i] == path[i - 1];
    }
  }

  // ----- What the traversal finds, in terms of inheritance paths

  /** The direct bases, in declaration order. */
  function Bases(c: Class): seq<Base> {
    match c
    case Plain(_) => []
    case Single(_, b) => [Base(b, 0, false, true)]
    case Multiple(_, bs) => bs
  }

  /** A path names one direct base after another; it leads to `target`. */
  predicate LeadsTo(c: Class, path: seq<nat>, target: Class)
    decreases |path|
  {
    if path == [] then c == target
    else path[0] < |Bases(c)| && LeadsTo(Bases(c)[path[0]].cls, path[1..], target)
  }

  /** The sum of the offsets of the bases on the way. */
  function Offsets(path: seq<nat>, classes: seq<Class>): int
    requires |classes| == |path| + 1 && forall i | 0 <= i < |path| :: path[i] < |Bases(classes[i])|
  {
    if path == [] then 0 else Bases(classes[0])[path[0]].offset + Offsets(path[1..], classes[1..])
  }

  /** Where no base is virtual the result is that many bytes into the object. */
  lemma {:induction false} WithoutVirtualBases(path: seq<nat>, t: Tables, classes: seq<Class>, at: seq<int>)
    requires Route(path, t, classes, at)
    requires forall i | 0 <= i < |path| :: !Bases(classes[i])[path[i]].isVirtual
    ensures at[|path|] == at[0] + Offsets(path, classes)
    decreases |path|
  {
    if path != [] {
      assert path[0] < |Bases(classes[0])|;
      forall i {:trigger path[1..][i]} | 0 <= i < |path| - 1
        ensures path[1..][i] == path[i + 1] && classes[1..][i] == classes[i + 1] && at[1..][i] == at[i + 1]
      {
      }
      WithoutVirtualBases(path[1..], t, classes[1..], at[1..]);
    }
  }

  /** Declaration order on paths. */
  predicate Before(p: seq<nat>, q: seq<nat>)
    decreases |p|
  {
    p == [] || (q != [] && (p[0] < q[0] || (p[0] == q[0] && Before(p[1..], q[1..]))))
  }

  /** The specification of the traversal. */
  function FirstPath(c: Class, target: Class): Option<seq<nat>>
    decreases c, 1, 0
  {
    if c == target then Some([])
    else
      match c
      case Plain(_) => None
      case Single(_, b) =>
        (match FirstPath(b, target)
         case None => None
         case Some(p) => Some([0] + p))
      case Multiple(_, _) => FirstPathFrom(c, target, 0)
  }

  function FirstPathFrom(c: Class, target: Class, i: nat): Option<seq<nat>>
    requires c.Multiple? && i <= |c.bases|
    decreases c, 0, |c.bases| - i
  {
    if i == |c.bases| then None
    else
      match FirstPath(c.bases[i].cls, target)
      case None => FirstPathFrom(c, target, i + 1)
      case Some(p) => Some([i] + p)
  }

  lemma {:induction false} FirstPathIsLeast(c: Class, target: Class, q: seq<nat>)
    requires LeadsTo(c, q, target)
    ensures FirstPath(c, target).Some? && LeadsTo(c, FirstPath(c, target).value, target)
    ensures Before(FirstPath(c, target).value, q)
    decreases c, 1, 0
  {
    if c != target {
      match c
      case Single(_, b) => FirstPathIsLeast(b, target, q[1..]);
      case Multiple(_, _) => FirstPathFromIsLeast(c, target, 0, q);
    }
  }

  lemma {:induction false} FirstPathFromIsLeast(c: Class, target: Class, i: nat, q: seq<nat>)
    requires c.Multiple? && q != [] && i <= q[0] && LeadsTo(c, q, target)
    ensures FirstPathFrom(c, target, i).Some? && LeadsTo(c, FirstPathFrom(c, target, i).value, target)
    ensures Before(FirstPathFrom(c, target, i).value, q)
    decreases c, 0, |c.bases| - i
  {
    var p := FirstPath(c.bases[i].cls, target);
    if p.Some? {
      FirstPathLeads(c.bases[i].cls, target);
    }
    if i == q[0] {
      FirstPathIsLeast(c.bases[i].cls, target, q[1..]);
    } else if p.None? {
      FirstPathFromIsLeast(c, target, i + 1, q);
    }
  }

  lemma {:induction false} FirstPathLeads(c: Class, target: Class)
    requires FirstPath(c, target).Some?
    ensures LeadsTo(c, FirstPath(c, target).value, target)
    decreases c, 1, 0
  {
    if c != target {
      match c
      case Single(_, b) => FirstPathLeads(b, target);
      case Multiple(_, _) => FirstPathFromLeads(c, target, 0);
    }
  }

  lemma {:induction false} FirstPathFromLeads(c: Class, target: Class, i: nat)
    requires c.Multiple? && i <= |c.bases| && FirstPathFrom(c, target, i).Some?
    ensures LeadsTo(c, FirstPathFrom(c, target, i).value, target)
    decreases c, 0, |c.bases| - i
  {
    if FirstPath(c.bases[i].cls, target).Some? {
      FirstPathLeads(c.bases[i].cls, target);
    } else {
      FirstPathFromLeads(c, target, i + 1);
    }
  }

  ghost predicate Derives(c: Class, target: Class) {
    exists path :: LeadsTo(c, path, target)
  }

  /** An upcast succeeds exactly for the class itself and its direct and indirect bases, and it takes the
      first path in declaration order. */
  lemma UpcastFindsFirstBase(c: Class, target: Class)
    ensures FirstPath(c, target).Some? <==> Derives(c, target)
    ensures FirstPath(c, target).Some? ==>
      && LeadsTo(c, FirstPath(c, target).value, target)
      && forall q :: LeadsTo(c, q, target) ==> Before(FirstPath(c, target).value, q)
  {
    if FirstPath(c, target).Some? {
      FirstPathLeads(c, target);
    }
    forall q | LeadsTo(c, q, target)
      ensures FirstPath(c, target).Some? && Before(FirstPath(c, target).value, q)
    {
      FirstPathIsLeast(c, target, q);
    }
  }

  lemma {:induction false} PathsCompose(a: Class, b: Class, c: Class, p: seq<nat>, q: seq<nat>)
    requires LeadsTo(a, p, b) && LeadsTo(b, q, c)
    ensures LeadsTo(a, p + q, c)
    decreases |p|
  {
    if p == [] {
      assert p + q == q;
    } else {
      PathsCompose(Bases(a)[p[0]].cls, b, c, p[1..], q);
      assert (p + q)[1..] == p[1..] + q;
    }
  }

  /** Being a base is transitive, so is catching by a base. */
  lemma DerivesTransitive(a: Class, b: Class, c: Class)
    requires Derives(a, b) && Derives(b, c)
    ensures Derives(a, c)
  {
    var p :| LeadsTo(a, p, b);
    var q :| LeadsTo(b, q, c);
    PathsCompose(a, b, c, p, q);
  }

  // ----- Pointers

  datatype Flag = Const | Volatile | Restrict | Incomplete | IncompleteClass

  /** One level of a pointer type: the qualifiers of what it points to, and the class if it points to a member. */
  datatype Level = Level(flags: set<Flag>, member: Option<Class>)

  datatype Type =
    | Void
    | NullPtr                               // std::nullptr_t
    | Basic(id: nat)                        // any other type that is no class and no pointer
    | Object(cls: Class)
    | Pointer(level: Level, pointee: Type)

  /** What one level of the handler accepts: a pointer, not to a member, with no more qualifiers.  Whether the
      handler itself is for pointers to members is not asked. */
  predicate Fits(e: Level, h: Level) {
    e.member.None? && e.flags <= h.flags
  }

  /** `__do_catch` of the handler type `h`: whether it accepts the thrown type `e`.  The low bit of `outer`
      is cleared below a pointer to something that is not const. */
  function DoCatch(h: Type, e: Type, outer: nat): bool
    decreases h
  {
    if !h.Pointer? then
      h == e || (h.Object? && e.Object? && FirstPath(e.cls, h.cls).Some?)
    else
      h == e ||
      (&& e.Pointer?
       && outer % 2 == 1
       && Fits(e.level, h.level)
       && (h.pointee == Void ||
           DoCatch(h.pointee, e.pointee, if Const in h.level.flags then outer else outer - 1)))
  }

  /** A pointer chain, outermost level first. */
  function Chain(levels: seq<Level>, leaf: Type): (t: Type)
    ensures t.Pointer? <==> levels != [] || leaf.Pointer?
  {
    if levels == [] then leaf else Pointer(levels[0], Chain(levels[1..], leaf))
  }

  /** The qualification conversions of section 4.4 of ISO/IEC 14882:2011, from `es` to `hs`: the same kind of
      pointer on every level, every level at least as qualified, and const on all levels outside one that
      differs. */
  predicate Qualifies(hs: seq<Level>, es: seq<Level>) {
    && |hs| == |es|
    && (forall i :: 0 <= i < |hs| ==> es[i].member == hs[i].member && es[i].flags <= hs[i].flags)
    && (forall i, j :: 0 <= i < j < |hs| && es[j] != hs[j] ==> Const in hs[i].flags)
  }

  predicate NoMembers(levels: seq<Level>) {
    forall i :: 0 <= i < |levels| ==> levels[i].member.None?
  }

  /** What the code makes of them: from the last level that differs on outward. */
  predicate Accepts(hs: seq<Level>, es: seq<Level>) {
    && |hs| == |es|
    && (forall i, j :: 0 <= i <= j < |hs| && es[j] != hs[j] ==> Fits(es[i], hs[i]))
    && (forall i, j :: 0 <= i < j < |hs| && es[j] != hs[j] ==> Const in hs[i].flags)
  }

  /** Not void, which has a rule of its own as a handler. */
  predicate OrdinaryLeaf(t: Type) {
    !t.Pointer? && t != Void
  }

  lemma {:induction false} ChainsEqual(hs: seq<Level>, es: seq<Level>, leaf: Type)
    requires !leaf.Pointer?
    ensures Chain(hs, leaf) == Chain(es, leaf) <==> hs == es
  {
    if hs != [] && es != [] {
      ChainsEqual(hs[1..], es[1..], leaf);
      assert hs == [hs[0]] + hs[1..] && es == [es[0]] + es[1..];
    }
  }

  function Inner(h: Level, outer: nat): nat {
    if Const in h.flags then outer else if outer % 2 == 1 then outer - 1 else outer
  }

  /** Below a level that is not const only identical types are accepted. */
  lemma {:induction false} CatchBelow(hs: seq<Level>, es: seq<Level>, leaf: Type, outer: nat)
    requires OrdinaryLeaf(leaf)
    ensures DoCatch(Chain(hs, leaf), Chain(es, leaf), outer) <==>
              if outer % 2 == 1 then Accepts(hs, es) else hs == es
  {
    ChainsEqual(hs, es, leaf);
    if hs != [] && es != [] {
      CatchBelow(hs[1..], es[1..], leaf, Inner(hs[0], outer));
      AcceptsInside(hs, es);
    }
  }

  lemma AcceptsInside(hs: seq<Level>, es: seq<Level>)
    requires hs != [] && es != []
    ensures Accepts(hs, es) <==>
      || hs == es
      || (Fits(es[0], hs[0]) && if Const in hs[0].flags then Accepts(hs[1..], es[1..]) else hs[1..] == es[1..])
  {
    if Accepts(hs, es) && hs != es {
      AcceptedOutside(hs, es);
    }
    if Fits(es[0], hs[0]) && Const in hs[0].flags && Accepts(hs[1..], es[1..]) {
      assert forall i :: 0 < i < |hs| ==> hs[i] == hs[1..][i - 1] && es[i] == es[1..][i - 1];
    }
    if Fits(es[0], hs[0]) && hs[1..] == es[1..] {
      assert forall i :: 0 < i < |hs| ==> hs[i] == hs[1..][i - 1] == es[1..][i - 1] == es[i];
    }
  }

  lemma AcceptedOutside(hs: seq<Level>, es: seq<Level>)
    requires hs != [] && es != [] && Accepts(hs, es) && hs != es
    ensures Fits(es[0], hs[0]) && if Const in hs[0].flags then Accepts(hs[1..], es[1..]) else hs[1..] == es[1..]
  {
    var j :| 0 <= j < |hs| && es[j] != hs[j];
    assert Fits(es[0], hs[0]);
    if Const !in hs[0].flags {
      assert forall k :: 0 < k < |hs| ==> es[k] == hs[k];
    }
  }

  /** Among pointers that do not point to members these are the qualification conversions. */
  lemma AcceptsPlain(hs: seq<Level>, es: seq<Level>)
    requires NoMembers(hs) && NoMembers(es)
    ensures Accepts(hs, es) <==> Qualifies(hs, es)
  {
    if Accepts(hs, es) {
      forall i | 0 <= i < |hs| ensures es[i].member == hs[i].member && es[i].flags <= hs[i].flags {
        assert es[i] == hs[i] || Fits(es[i], hs[i]);
      }
    }
  }

  /** Handlers of pointers that do not point to members accept exactly the qualification conversions. */
  lemma CatchIsQualificationConversion(hs: seq<Level>, es: seq<Level>, leaf: Type)
    requires OrdinaryLeaf(leaf) && NoMembers(hs) && NoMembers(es)
    ensures DoCatch(Chain(hs, leaf), Chain(es, leaf), 1) <==> Qualifies(hs, es)
  {
    CatchBelow(hs, es, leaf, 1);
    AcceptsPlain(hs, es);
  }

  /** Matching is reflexive and transitive, whatever the pointers point to. */
  lemma CatchIsPreorder(fs: seq<Level>, gs: seq<Level>, hs: seq<Level>, leaf: Type)
    requires OrdinaryLeaf(leaf)
    ensures DoCatch(Chain(hs, leaf), Chain(hs, leaf), 1)
    ensures (DoCatch(Chain(hs, leaf), Chain(gs, leaf), 1) && DoCatch(Chain(gs, leaf), Chain(fs, leaf), 1)) ==>
      DoCatch(Chain(hs, leaf), Chain(fs, leaf), 1)
  {
    CatchBelow(hs, hs, leaf, 1);
    CatchBelow(hs, gs, leaf, 1);
    CatchBelow(gs, fs, leaf, 1);
    CatchBelow(hs, fs, leaf, 1);
    if Accepts(hs, gs) && Accepts(gs, fs) {
      AcceptsTransitive(fs, gs, hs);
    }
  }

  lemma AcceptsTransitive(fs: seq<Level>, gs: seq<Level>, hs: seq<Level>)
    requires Accepts(hs, gs) && Accepts(gs, fs)
    ensures Accepts(hs, fs)
  {
    forall i, j | 0 <= i <= j < |hs| && fs[j] != hs[j]
      ensures Fits(fs[i], hs[i]) && (i < j ==> Const in hs[i].flags)
    {
      assert gs[j] != hs[j] || fs[j] != gs[j];
      assert gs[i] == hs[i] || Fits(gs[i], hs[i]);
      assert fs[i] == gs[i] || Fits(fs[i], gs[i]);
    }
  }

  /** A handler for a pointer to a class accepts pointers to it and to the classes derived from it. */
  lemma CatchClassPointer(f: set<Flag>, b: Class, g: set<Flag>, d: Class)
    ensures DoCatch(Pointer(Level(f, None), Object(b)), Pointer(Level(g, None), Object(d)), 1) <==>
      g <= f && Derives(d, b)
  {
    UpcastFindsFirstBase(d, b);
    assert LeadsTo(b, [], b);
  }

  /** Every level that the handler names fits it, and all of these but the last are const. */
  predicate ConstButLast(hs: seq<Level>, es: seq<Level>) {
    && |hs| <= |es|
    && (forall i :: 0 <= i < |hs| ==> Fits(es[i], hs[i]))
    && (forall i :: 0 <= i < |hs| - 1 ==> Const in hs[i].flags)
  }

  /** The code takes the step to a base class at any depth, where the language knows it for one pointer
      level only: it asks for const on every level but the last, no more. */
  lemma {:induction false} CatchDerivedPointer(hs: seq<Level>, es: seq<Level>, b: Class, d: Class, outer: nat)
    requires b != d
    ensures DoCatch(Chain(hs, Object(b)), Chain(es, Object(d)), outer) <==>
              && |hs| == |es| && Derives(d, b)
              && (hs != [] ==> outer % 2 == 1)
              && ConstButLast(hs, es)
  {
    LeavesDiffer(hs, es, Object(b), Object(d));
    UpcastFindsFirstBase(d, b);
    if hs != [] && es != [] {
      CatchDerivedPointer(hs[1..], es[1..], b, d, Inner(hs[0], outer));
      ConstOutside(hs, es);
    }
  }

  lemma ConstOutside(hs: seq<Level>, es: seq<Level>)
    requires hs != [] && es != []
    ensures ConstButLast(hs, es) <==>
      Fits(es[0], hs[0]) && (|hs| > 1 ==> Const in hs[0].flags) && ConstButLast(hs[1..], es[1..])
  {
    assert forall i :: 0 < i < |hs| ==> hs[i] == hs[1..][i - 1];
    assert forall i :: 0 < i < |es| ==> es[i] == es[1..][i - 1];
  }

  /** A handler ending in void accepts every at least as deep chain over any type, provided the levels it names
      fit it and all of its levels but the last are const.  For one level that is the conversion
      to void pointer.  For more levels the language has no such conversion, the code has: it asks for void at
      any depth. */
  lemma {:induction false} CatchVoidPointer(hs: seq<Level>, es: seq<Level>, leaf: Type, outer: nat)
    requires OrdinaryLeaf(leaf) && hs != []
    ensures DoCatch(Chain(hs, Void), Chain(es, leaf), outer) <==> outer % 2 == 1 && ConstButLast(hs, es)
  {
    LeavesDiffer(hs, es, Void, leaf);
    if es != [] {
      ConstOutside(hs, es);
      if |hs| > 1 {
        CatchVoidPointer(hs[1..], es[1..], leaf, Inner(hs[0], outer));
      }
    }
  }

  /** The same when the thrown chain ends in void as well: then the qualification conversions are accepted too. */
  lemma {:induction false} CatchVoidFromVoid(hs: seq<Level>, es: seq<Level>, outer: nat)
    ensures DoCatch(Chain(hs, Void), Chain(es, Void), outer) <==>
              if outer % 2 == 1 then Accepts(hs, es) || (hs != [] && ConstButLast(hs, es)) else hs == es
  {
    ChainsEqual(hs, es, Void);
    if hs != [] && es != [] {
      ConstOutside(hs, es);
      AcceptsInside(hs, es);
      if |hs| > 1 {
        CatchVoidFromVoid(hs[1..], es[1..], Inner(hs[0], outer));
      }
    }
  }

  /** Everything else is never caught. */
  lemma {:induction false} NeverCaught(hs: seq<Level>, es: seq<Level>, a: Type, b: Type, outer: nat)
    requires OrdinaryLeaf(a) && !b.Pointer? && a != b && !(a.Object? && b.Object?)
    ensures !DoCatch(Chain(hs, a), Chain(es, b), outer)
  {
    LeavesDiffer(hs, es, a, b);
    if hs != [] && es != [] {
      NeverCaught(hs[1..], es[1..], a, b, Inner(hs[0], outer));
    }
  }

  lemma {:induction false} LeavesDiffer(hs: seq<Level>, es: seq<Level>, a: Type, b: Type)
    requires !a.Pointer? && !b.Pointer? && a != b
    ensures Chain(hs, a) != Chain(es, b)
  {
    if hs != [] && es != [] {
      LeavesDiffer(hs[1..], es[1..], a, b);
    }
  }

  // ----- The code and the language

  ghost predicate PublicPath(c: Class, path: seq<nat>)
    decreases |path|
  {
    path == [] || (path[0] < |Bases(c)| && Bases(c)[path[0]].isPublic && PublicPath(Bases(c)[path[0]].cls, path[1..]))
  }

  /** The subobject that a path from `c` leads to.  A virtual base is one subobject however it is reached, so a
      subobject is named by the last virtual base on the way, or the whole object, and the steps from there. */
  ghost function Subobject(root: Class, trail: seq<nat>, c: Class, path: seq<nat>): (Class, seq<nat>)
    decreases |path|
  {
    if path == [] || path[0] >= |Bases(c)| then (root, trail)
    else
      var b := Bases(c)[path[0]];
      if b.isVirtual then Subobject(b.cls, [], b.cls, path[1..])
      else Subobject(root, trail + [path[0]], b.cls, path[1..])
  }

  /** `b` is an unambiguous public base class of `d` (section 10.2 of ISO/IEC 14882:2011). */
  ghost predicate UnambiguousPublicBase(d: Class, b: Class) {
    && (exists p :: LeadsTo(d, p, b) && PublicPath(d, p))
    && (forall p, q | LeadsTo(d, p, b) && LeadsTo(d, q, b) :: Subobject(d, [], d, p) == Subobject(d, [], d, q))
  }

  /** A qualification conversion that section 15.3 allows for a handler: its own type may be any, but to convert it
      must be a pointer, not to a member. */
  predicate Converts(hs: seq<Level>, es: seq<Level>) {
    hs == es || (Qualifies(hs, es) && hs[0].member.None?)
  }

  /** One level of pointer on both sides, not to members. */
  predicate OneLevel(h: Level, e: Level) {
    h.member.None? && Fits(e, h)
  }

  /** Which handlers match (section 15.3 of ISO/IEC 14882:2011): the same type; an unambiguous public base class;
      for pointers also a qualification conversion and the pointer conversions to a base class and to void, which
      are of one level; and std::nullptr_t for all pointers and pointers to members.  All flags of a level count as
      qualifiers. */
  ghost predicate LanguageCatches(hs: seq<Level>, a: Type, es: seq<Level>, b: Type) {
    || (a == b && Converts(hs, es))
    || (&& a.Object? && b.Object? && UnambiguousPublicBase(b.cls, a.cls)
        && |hs| == |es| <= 1 && (hs != [] ==> OneLevel(hs[0], es[0])))
    || (a == Void && |hs| == 1 && es != [] && OneLevel(hs[0], es[0]))
    || (hs != [] && es == [] && b == NullPtr)
  }

  /** What the code accepts, over all handlers and all thrown types. */
  lemma CatchExactly(hs: seq<Level>, a: Type, es: seq<Level>, b: Type)
    requires !a.Pointer? && !b.Pointer?
    ensures DoCatch(Chain(hs, a), Chain(es, b), 1) <==>
      || (a == b && Accepts(hs, es))
      || (a.Object? && b.Object? && Derives(b.cls, a.cls) && |hs| == |es| && ConstButLast(hs, es))
      || (a == Void && hs != [] && ConstButLast(hs, es))
  {
    if a == Void {
      if b == Void {
        CatchVoidFromVoid(hs, es, 1);
      } else if hs != [] {
        CatchVoidPointer(hs, es, b, 1);
      }
    } else if a == b {
      CatchBelow(hs, es, a, 1);
    } else if a.Object? && b.Object? {
      CatchDerivedPointer(hs, es, a.cls, b.cls, 1);
    } else {
      NeverCaught(hs, es, a, b, 1);
    }
  }

  /** A handler for pointers or pointers to members, and `nullptr` thrown: the language matches it, the code does
      not, because the type of `nullptr` is not a pointer type. */
  predicate NullMissed(hs: seq<Level>, a: Type, es: seq<Level>, b: Type) {
    hs != [] && es == [] && b == NullPtr
  }

  /** A qualification conversion at or below a pointer to member: the language matches it, the code does not. */
  predicate MemberMissed(hs: seq<Level>, a: Type, es: seq<Level>, b: Type) {
    && a == b && hs != es && Converts(hs, es)
    && exists i, j :: 0 <= i <= j < |hs| && es[j] != hs[j] && es[i].member.Some?
  }

  /** A pointer where the handler has a pointer to member: the code takes the one for the other. */
  predicate MemberTaken(hs: seq<Level>, a: Type, es: seq<Level>, b: Type) {
    a == b && Accepts(hs, es) && exists i :: 0 <= i < |hs| && hs[i].member != es[i].member
  }

  /** Void below two or more const levels, or below a pointer to member, for a chain that does not convert. */
  predicate VoidTooDeep(hs: seq<Level>, a: Type, es: seq<Level>, b: Type) {
    && a == Void && hs != [] && ConstButLast(hs, es)
    && (|hs| >= 2 || hs[0].member.Some?) && !(b == Void && Converts(hs, es))
  }

  /** A proper base class below two or more pointer levels or a pointer to member, or one that is ambiguous or not
      public. */
  ghost predicate BaseTooFar(hs: seq<Level>, a: Type, es: seq<Level>, b: Type) {
    && a.Object? && b.Object? && a != b && Derives(b.cls, a.cls) && |hs| == |es| && ConstButLast(hs, es)
    && (|hs| >= 2 || (hs != [] && hs[0].member.Some?) || !UnambiguousPublicBase(b.cls, a.cls))
  }

  /** Converting is accepting on the levels that differ, where the kinds of pointers agree. */
  lemma ConvertsIsAccepts(hs: seq<Level>, es: seq<Level>)
    requires |hs| == |es|
    ensures Converts(hs, es) && !Accepts(hs, es) ==>
      hs != es && exists i, j :: 0 <= i <= j < |hs| && es[j] != hs[j] && es[i].member.Some?
    ensures Accepts(hs, es) && !Converts(hs, es) ==> exists i :: 0 <= i < |hs| && hs[i].member != es[i].member
  {
    if Accepts(hs, es) && hs != es && forall i :: 0 <= i < |hs| ==> hs[i].member == es[i].member {
      forall i | 0 <= i < |hs| ensures es[i].flags <= hs[i].flags {
        assert es[i] == hs[i] || Fits(es[i], hs[i]);
      }
      AcceptedOutside(hs, es);
    }
  }

  lemma MembersAreNotAccepted(hs: seq<Level>, es: seq<Level>)
    requires |hs| == |es| && exists i, j :: 0 <= i <= j < |hs| && es[j] != hs[j] && es[i].member.Some?
    ensures !Accepts(hs, es) && !ConstButLast(hs, es)
  {
    var i, j :| 0 <= i <= j < |hs| && es[j] != hs[j] && es[i].member.Some?;
    assert !Fits(es[i], hs[i]);
  }

  /** What the language matches and the code misses. */
  lemma LanguageIsCaught(hs: seq<Level>, a: Type, es: seq<Level>, b: Type)
    requires !a.Pointer? && !b.Pointer? && LanguageCatches(hs, a, es, b)
    ensures DoCatch(Chain(hs, a), Chain(es, b), 1) <==> !NullMissed(hs, a, es, b) && !MemberMissed(hs, a, es, b)
  {
    CatchExactly(hs, a, es, b);
    if MemberMissed(hs, a, es, b) {
      MembersAreNotAccepted(hs, es);
    } else if a == b && Converts(hs, es) {
      ConvertsIsAccepts(hs, es);
    }
  }

  /** What the code matches and the language does not. */
  lemma CaughtByTheLanguage(hs: seq<Level>, a: Type, es: seq<Level>, b: Type)
    requires !a.Pointer? && !b.Pointer? && DoCatch(Chain(hs, a), Chain(es, b), 1)
    ensures LanguageCatches(hs, a, es, b) <==>
      !MemberTaken(hs, a, es, b) && !VoidTooDeep(hs, a, es, b) && !BaseTooFar(hs, a, es, b)
  {
    CatchExactly(hs, a, es, b);
    if a == b && |hs| == |es| {
      ConvertsIsAccepts(hs, es);
    }
    if a == b && a.Object? && |hs| == |es| && ConstButLast(hs, es) {
      assert Accepts(hs, es);
    }
  }

  /** The code matches handlers as the language does exactly outside these five families. */
  lemma AgreesWithLanguage(hs: seq<Level>, a: Type, es: seq<Level>, b: Type)
    requires !a.Pointer? && !b.Pointer?
    ensures (DoCatch(Chain(hs, a), Chain(es, b), 1) <==> LanguageCatches(hs, a, es, b)) <==>
      && !NullMissed(hs, a, es, b) && !MemberMissed(hs, a, es, b)
      && !MemberTaken(hs, a, es, b) && !VoidTooDeep(hs, a, es, b) && !BaseTooFar(hs, a, es, b)
  {
    CatchExactly(hs, a, es, b);
    if DoCatch(Chain(hs, a), Chain(es, b), 1) {
      CaughtByTheLanguage(hs, a, es, b);
    }
    if LanguageCatches(hs, a, es, b) {
      LanguageIsCaught(hs, a, es, b);
    }
  }

  /** One of each.  Matched by the language only: `nullptr` for a handler of pointers to int, and a pointer to a
      member of type int for a handler of pointers to const pointers to const such members.  Matched by the code
      only: a pointer to int for a handler of pointers to members of type int; a pointer to a const pointer to int
      for a handler of pointers to const void pointers; and an object whose class has a base class twice. */
  lemma CaughtAgainstTheLanguage(c: Class)
    ensures NullMissed([Level({}, None)], Basic(0), [], NullPtr)
    ensures MemberMissed([Level({Const}, None), Level({Const}, Some(c))], Basic(0),
                         [Level({}, None), Level({}, Some(c))], Basic(0))
    ensures MemberTaken([Level({}, Some(c))], Basic(0), [Level({}, None)], Basic(0))
    ensures var hs := [Level({Const}, None), Level({}, None)];
      VoidTooDeep(hs, Void, hs, Basic(0))
    ensures
      var base := Plain(0);
      var twice := Multiple(3, [Base(Single(1, base), 0, false, true), Base(Single(2, base), 8, false, true)]);
      BaseTooFar([], Object(base), [], Object(twice))
  {
    var hs, es := [Level({Const}, None), Level({Const}, Some(c))], [Level({}, None), Level({}, Some(c))];
    assert es[1] != hs[1] && es[1].member.Some?;
    assert [Level({}, Some(c))][0].member != [Level({}, None)][0].member;
    BaseTwice();
  }

  lemma BaseTwice()
    ensures
      var base := Plain(0);
      var twice := Multiple(3, [Base(Single(1, base), 0, false, true), Base(Single(2, base), 8, false, true)]);
      BaseTooFar([], Object(base), [], Object(twice))
  {
    var base := Plain(0);
    var twice := Multiple(3, [Base(Single(1, base), 0, false, true), Base(Single(2, base), 8, false, true)]);
    assert LeadsTo(Single(1, base), [0], base) && LeadsTo(Single(2, base), [0], base);
    assert [0, 0][1..] == [0] && [1, 0][1..] == [0];
    assert LeadsTo(twice, [0, 0], base) && LeadsTo(twice, [1, 0], base);
    OfTwoSteps(twice, 0);
    OfTwoSteps(twice, 1);
  }

  lemma OfTwoSteps(c: Class, i: nat)
    requires c.Multiple? && i < |c.bases| && !c.bases[i].isVirtual && c.bases[i].cls.Single?
    ensures Subobject(c, [], c, [i, 0]) == (c, [i, 0])
  {
    var middle := c.bases[i].cls;
    assert [i, 0][1..] == [0] && [0][1..] == [] && [] + [i] == [i] && [i] + [0] == [i, 0];
    assert Subobject(c, [i], middle, [0]) == Subobject(c, [i, 0], middle.base, []);
  }
}
