/** The personality routine: matching an exception against the action chain of a frame, and the
    two-phase unwinding that calls it frame by frame. */
module Personality {
  import opened Common
  import opened Leb128
  import opened DwarfEh

  datatype HandlerType = HandlerNone | HandlerCleanup | HandlerCatch

  /** A frame's type table.  `catches(i)`: entry `i` is a catch-all or matches the exception in flight. */
  datatype TypeTable = TypeTable(mem: seq<Byte>, address: nat, catches: int -> bool) {
    /** Some type of the zero-terminated list of entries at `p` matches. */
    predicate ListMatches(p: nat)
      decreases |mem| - p
    {
      p < |mem| && mem[p] != 0 && (catches(mem[p]) || ListMatches(p + 1))
    }

    /** The exception specification of a negative filter lets the exception pass. */
    predicate Permits(filter: int)
      requires filter < 0
    {
      ListMatches(address - filter - 1)
    }

    /** The search stops at this filter: a matching catch, or a violated exception specification. */
    predicate Stops(filter: int) {
      (filter > 0 && catches(filter)) || (filter < 0 && !Permits(filter))
    }
  }

  /** The loop over an exception specification. */
  method MatchSpecification(t: TypeTable, filter: int) returns (matched: bool)
    requires filter < 0
    ensures matched == t.Permits(filter)
  {
    var p: nat := t.address - filter - 1;
    while p < |t.mem| && t.mem[p] != 0
      invariant t.Permits(filter) == t.ListMatches(p)
      decreases |t.mem| - p
    {
      if t.catches(t.mem[p]) {
        return true;
      }
      p := p + 1;
    }
    matched := false;
  }

  /** An action record: its filter and the address of the next one, 0 for none. */
  function ActionAt(mem: seq<Byte>, record: int): (r: Option<(int, int)>) {
    if record < 0 then None else
    var filter := SlebAt(mem, record);
    if filter.None? then None else
    var displacement := SlebAt(mem, filter.value.next);
    if displacement.None? then None else
    var step := displacement.value.value;
    Some((filter.value.value, if step == 0 then 0 else filter.value.next + step))
  }

  /** The chain that starts at `record` has exactly these filters, in order. */
  ghost predicate ChainAt(mem: seq<Byte>, record: int, filters: seq<int>)
    decreases |filters|
  {
    if record == 0 then filters == []
    else
      && filters != [] && ActionAt(mem, record).Some?
      && ActionAt(mem, record).value.0 == filters[0]
      && ChainAt(mem, ActionAt(mem, record).value.1, filters[1..])
  }

  lemma {:induction false} ChainIsUnique(mem: seq<Byte>, record: int, fs: seq<int>, gs: seq<int>)
    requires ChainAt(mem, record, fs) && ChainAt(mem, record, gs)
    ensures fs == gs
    decreases |fs|
  {
    if record != 0 {
      ChainIsUnique(mem, ActionAt(mem, record).value.1, fs[1..], gs[1..]);
    }
  }

  ghost predicate Terminates(mem: seq<Byte>, record: int) {
    exists fs :: ChainAt(mem, record, fs)
  }

  ghost function Filters(mem: seq<Byte>, record: int): (fs: seq<int>)
    requires Terminates(mem, record)
    ensures ChainAt(mem, record, fs)
  {
    var fs :| ChainAt(mem, record, fs);
    fs
  }

  // ----- Action chains as compilers emit them

  /** The numbers that signed LEB128 can write so that they are read back. */
  predicate Small(v: int) {
    -0x800_0000 <= v < 0x8000_0000
  }

  /** A record at `at`: a filter, and how far behind it the next record is, 0 if there is none. */
  lemma {:induction false} ActionIsRead(mem: seq<Byte>, at: nat, filter: int, displacement: int)
    requires Small(filter) && Small(displacement)
    requires Stored(mem, at, EncodeS(filter) + EncodeS(displacement))
    ensures var base := at + |EncodeS(filter)|;
      ActionAt(mem, at) == Some((filter, if displacement == 0 then 0 else base + displacement))
  {
    StoredParts(mem, at, EncodeS(filter), EncodeS(displacement));
    SlebRoundTrip(mem, at, filter);
    SlebRoundTrip(mem, at + |EncodeS(filter)|, displacement);
  }

  /** What the record at `i` has to say of the next one: how far it is from the displacement field, 0 if there is
      none. */
  function Displacement(at: seq<nat>, filters: seq<int>, i: nat): int
    requires i < |at| == |filters|
  {
    if i + 1 == |at| then 0 else at[i + 1] - (at[i] + |EncodeS(filters[i])|)
  }

  /** The record at `i` is in memory, and can be told from the last one unless it is. */
  predicate RecordStored(mem: seq<Byte>, at: seq<nat>, filters: seq<int>, i: nat)
    requires i < |at| == |filters|
  {
    var d := Displacement(at, filters, i);
    && at[i] != 0 && Small(filters[i]) && Small(d) && (i + 1 < |at| ==> d != 0)
    && Stored(mem, at[i], EncodeS(filters[i]) + EncodeS(d))
  }

  lemma {:induction false} RecordIsRead(mem: seq<Byte>, at: seq<nat>, filters: seq<int>, i: nat)
    requires i < |at| == |filters| && RecordStored(mem, at, filters, i)
    ensures ActionAt(mem, at[i]) == Some((filters[i], if i + 1 == |at| then 0 else at[i + 1]))
  {
    ActionIsRead(mem, at[i], filters[i], Displacement(at, filters, i));
  }

  lemma {:induction false} ChainFrom(mem: seq<Byte>, at: seq<nat>, filters: seq<int>, i: nat)
    requires i < |at| == |filters| && forall j | 0 <= j < |at| :: RecordStored(mem, at, filters, j)
    ensures ChainAt(mem, at[i], filters[i..])
    decreases |at| - i
  {
    RecordIsRead(mem, at, filters, i);
    assert filters[i..][1..] == filters[i + 1..];
    if i + 1 < |at| {
      ChainFrom(mem, at, filters, i + 1);
    }
    assert at[i] != 0 && filters[i..][0] == filters[i] by {
      assert RecordStored(mem, at, filters, i);
    }
  }

  /** Records that lie anywhere in memory and point to one another are read as the chain of their filters. */
  lemma {:induction false} ChainRoundTrip(mem: seq<Byte>, at: seq<nat>, filters: seq<int>)
    requires |at| == |filters| > 0 && forall i | 0 <= i < |at| :: RecordStored(mem, at, filters, i)
    ensures ChainAt(mem, at[0], filters)
  {
    ChainFrom(mem, at, filters, 0);
    assert filters[0..] == filters;
  }

  /** So these are the filters that the search goes through. */
  lemma {:induction false} FiltersAreWritten(mem: seq<Byte>, record: int, filters: seq<int>)
    requires ChainAt(mem, record, filters)
    ensures Terminates(mem, record) && Filters(mem, record) == filters
  {
    ChainIsUnique(mem, record, Filters(mem, record), filters);
  }

  /** The first filter at which the search stops, |fs| if it stops at none. */
  ghost function FirstStop(t: TypeTable, fs: seq<int>): (k: nat)
    ensures k <= |fs| && (k < |fs| ==> t.Stops(fs[k])) && forall i :: 0 <= i < k ==> !t.Stops(fs[i])
  {
    if fs == [] || t.Stops(fs[0]) then 0 else 1 + FirstStop(t, fs[1..])
  }

  /** No record at all is a cleanup; otherwise a stop is a catch, and failing that a zero filter is a
      cleanup. */
  ghost function Verdict(t: TypeTable, fs: seq<int>): HandlerType {
    if FirstStop(t, fs) < |fs| then HandlerCatch
    else if fs == [] || 0 in fs then HandlerCleanup
    else HandlerNone
  }

  /** The last filter that is not positive, 0 if there is none. */
  ghost function LastSpecial(fs: seq<int>): int {
    if fs == [] then 0
    else if fs[|fs| - 1] <= 0 then fs[|fs| - 1]
    else LastSpecial(fs[..|fs| - 1])
  }

  ghost function Selector(t: TypeTable, fs: seq<int>): int {
    if FirstStop(t, fs) < |fs| then fs[FirstStop(t, fs)] else LastSpecial(fs)
  }

  /** The list of the exception specification `number` lies in the type table behind its address, `number - 1`
      bytes on, and ends with a zero. */
  ghost predicate SpecificationStored(t: TypeTable, number: nat, types: seq<Byte>)
    requires number > 0
  {
    var start := t.address + (number - 1);
    && start + |types| < |t.mem| && 0 !in types
    && t.mem[start..start + |types|] == types && t.mem[start + |types|] == 0
  }

  lemma {:induction false} ListMatchesExactly(t: TypeTable, p: nat, types: seq<Byte>)
    requires p + |types| < |t.mem| && 0 !in types && t.mem[p..p + |types|] == types && t.mem[p + |types|] == 0
    ensures t.ListMatches(p) <==> exists b :: b in types && t.catches(b)
    decreases |types|
  {
    if types != [] {
      assert t.mem[p] == types[0];
      assert t.mem[p + 1..p + |types|] == types[1..];
      ListMatchesExactly(t, p + 1, types[1..]);
      assert types == [types[0]] + types[1..];
    }
  }

  /** The filter is a catch whose type matches, or stands for a specification none of whose types does. */
  ghost predicate Decides(t: TypeTable, filter: int, types: seq<Byte>) {
    (filter > 0 && t.catches(filter)) || (filter < 0 && forall b | b in types :: !t.catches(b))
  }

  lemma {:induction false} StopsExactly(t: TypeTable, filter: int, types: seq<Byte>)
    requires filter < 0 ==> SpecificationStored(t, -filter, types)
    ensures t.Stops(filter) <==> Decides(t, filter, types)
  {
    if filter < 0 {
      ListMatchesExactly(t, t.address + (-filter - 1), types);
    }
  }

  /** What the search makes of a chain and of the specifications in it, `types[i]` for the filter at `i`, as they
      are written: the first filter that decides is a catch and the selector; if none does, the exception is not
      caught, and there is a cleanup exactly if there is a zero. */
  lemma {:induction false} WrittenChainDecides(mem: seq<Byte>, t: TypeTable, at: seq<nat>, filters: seq<int>,
                                               types: seq<seq<Byte>>, k: nat)
    requires |at| == |filters| == |types| > 0 && forall i | 0 <= i < |at| :: RecordStored(mem, at, filters, i)
    requires forall i | 0 <= i < |types| && filters[i] < 0 :: SpecificationStored(t, -filters[i], types[i])
    requires k <= |filters| && (k < |filters| ==> Decides(t, filters[k], types[k]))
    requires forall i | 0 <= i < k :: !Decides(t, filters[i], types[i])
    ensures Terminates(mem, at[0])
    ensures Verdict(t, Filters(mem, at[0])) ==
      if k < |filters| then HandlerCatch else if 0 in filters then HandlerCleanup else HandlerNone
    ensures k < |filters| ==> Selector(t, Filters(mem, at[0])) == filters[k]
  {
    ChainRoundTrip(mem, at, filters);
    FiltersAreWritten(mem, at[0], filters);
    StopsWhereDecided(t, filters, types);
    FirstStopIs(t, filters, k);
  }

  lemma {:induction false} StopsWhereDecided(t: TypeTable, filters: seq<int>, types: seq<seq<Byte>>)
    requires |filters| == |types|
    requires forall i | 0 <= i < |types| && filters[i] < 0 :: SpecificationStored(t, -filters[i], types[i])
    ensures forall i | 0 <= i < |filters| :: t.Stops(filters[i]) <==> Decides(t, filters[i], types[i])
  {
    forall i | 0 <= i < |filters| ensures t.Stops(filters[i]) <==> Decides(t, filters[i], types[i]) {
      StopsExactly(t, filters[i], types[i]);
    }
  }

  lemma {:induction false} FirstStopIs(t: TypeTable, filters: seq<int>, k: nat)
    requires k <= |filters| && (k < |filters| ==> t.Stops(filters[k])) && forall i | 0 <= i < k :: !t.Stops(filters[i])
    ensures FirstStop(t, filters) == k
  {
  }

  lemma OneMoreFilter(fs: seq<int>, k: nat, filter: int)
    requires k < |fs| && fs[k..][0] == filter
    ensures filter == fs[k] && fs[k..][1..] == fs[k + 1..]
    ensures 0 in fs[..k + 1] <==> 0 in fs[..k] || filter == 0
    ensures LastSpecial(fs[..k + 1]) == if filter <= 0 then filter else LastSpecial(fs[..k])
  {
    assert fs[..k + 1] == fs[..k] + [filter];
    assert fs[..k + 1][..k] == fs[..k];
  }

  /** `check_action_record` for a C++ exception. */
  method CheckActionRecord(mem: seq<Byte>, t: TypeTable, record: int) returns (found: HandlerType, selector: int)
    requires Terminates(mem, record)
    ensures found == Verdict(t, Filters(mem, record))
    ensures selector == Selector(t, Filters(mem, record))
  {
    ghost var fs := Filters(mem, record);
    selector := 0;
    if record == 0 {
      return HandlerCleanup, selector;
    }
    found := HandlerNone;
    var r := record;
    ghost var k := 0;
    while r != 0
      invariant 0 <= k <= |fs| && ChainAt(mem, r, fs[k..])
      invariant forall i :: 0 <= i < k ==> !t.Stops(fs[i])
      invariant found == if 0 in fs[..k] then HandlerCleanup else HandlerNone
      invariant selector == LastSpecial(fs[..k])
      decreases |fs| - k
    {
      var f := ReadSleb128(mem, r);
      var d := ReadSleb128(mem, f.value.next);
      var filter := f.value.value;
      var next := if d.value.value != 0 then f.value.next + d.value.value else 0;
      OneMoreFilter(fs, k, filter);
      r := next;
      k := k + 1;
      if filter > 0 {
        if t.catches(filter) {
          return HandlerCatch, filter;
        }
      } else if filter < 0 {
        selector := filter;
        var matched := MatchSpecification(t, filter);
        if !matched {
          return HandlerCatch, selector;
        }
      } else {
        selector := filter;
        found := HandlerCleanup;
      }
    }
    assert fs[..k] == fs;
  }

  /** One stack frame: its data area, if it has one, and the return address within its region. */
  datatype Frame = Frame(lsda: Option<Lsda>, ip: int, types: TypeTable)

  datatype Phase = Search | Cleanup | Handler
  datatype Reason = ContinueUnwind | HandlerFound | InstallContext(landingPad: int, selector: int) | Terminate

  /** The tables of the frame can be read and its action chain ends. */
  ghost predicate Readable(mem: seq<Byte>, f: Frame) {
    f.lsda.Some? ==>
      match Scan(mem, f.lsda.value, f.ip, f.lsda.value.callSiteTable)
      case Found(_, record) => Terminates(mem, record)
      case NotFound => true
      case Fault => false
  }

  ghost function LookupOf(mem: seq<Byte>, f: Frame): Lookup
    requires f.lsda.Some?
  {
    Scan(mem, f.lsda.value, f.ip, f.lsda.value.callSiteTable)
  }

  ghost function VerdictOf(mem: seq<Byte>, f: Frame): HandlerType
    requires f.lsda.Some? && Readable(mem, f) && LookupOf(mem, f).Found?
  {
    Verdict(f.types, Filters(mem, LookupOf(mem, f).actionRecord))
  }

  ghost function SelectorOf(mem: seq<Byte>, f: Frame): int
    requires f.lsda.Some? && Readable(mem, f) && LookupOf(mem, f).Found?
  {
    Selector(f.types, Filters(mem, LookupOf(mem, f).actionRecord))
  }

  /** A frame at which phase 1 stops: it handles the exception, or the throw came from a place its call
      sites do not mention, which must terminate the program. */
  ghost predicate StopsSearch(mem: seq<Byte>, f: Frame)
    requires Readable(mem, f)
  {
    f.lsda.Some? && (LookupOf(mem, f).NotFound? || VerdictOf(mem, f) == HandlerCatch)
  }

  /** A frame with nothing but a cleanup for the exception. */
  ghost predicate OnlyCleansUp(mem: seq<Byte>, f: Frame)
    requires Readable(mem, f)
  {
    && f.lsda.Some? && LookupOf(mem, f).Found? && LookupOf(mem, f).landingPad != 0
    && VerdictOf(mem, f) == HandlerCleanup
  }

  /** The fields of `__cxa_exception` that carry the result of phase 1 to phase 2. */
  class Exception {
    var handlerSwitchValue: int
    var catchTemp: int

    constructor ()
      ensures handlerSwitchValue == 0 && catchTemp == 0
    {
      handlerSwitchValue, catchTemp := 0, 0;
    }
  }

  /** `__gxx_personality_v0` for a C++ exception. */
  method RunPersonality(mem: seq<Byte>, f: Frame, ex: Exception, phase: Phase) returns (r: Reason)
    requires Readable(mem, f)
    modifies ex
    ensures phase == Search ==>
      if StopsSearch(mem, f) then
        && r == HandlerFound
        && if LookupOf(mem, f).Found? then
             ex.catchTemp == LookupOf(mem, f).landingPad && ex.handlerSwitchValue == SelectorOf(mem, f)
           else unchanged(ex)
      else r == ContinueUnwind && unchanged(ex)
    ensures phase == Cleanup ==> unchanged(ex)
    ensures phase == Cleanup ==>
      r == if OnlyCleansUp(mem, f) then InstallContext(LookupOf(mem, f).landingPad, SelectorOf(mem, f))
           else ContinueUnwind
    ensures phase == Handler ==>
      if f.lsda.None? then r == ContinueUnwind && unchanged(ex)
      else if old(ex.catchTemp) == 0 then r == Terminate && unchanged(ex)
      else
        && r == InstallContext(old(ex.catchTemp), old(ex.handlerSwitchValue))
        && ex.catchTemp == 0 && ex.handlerSwitchValue == 0
  {
    if f.lsda.None? {
      return ContinueUnwind;
    }
    if phase == Search {
      var action := FindCallSite(mem, f.lsda.value, f.ip);
      if action.NotFound? {
        return HandlerFound;
      }
      var found, selector := CheckActionRecord(mem, f.types, action.actionRecord);
      if found == HandlerCatch {
        ex.handlerSwitchValue := selector;
        ex.catchTemp := action.landingPad;
        return HandlerFound;
      }
      return ContinueUnwind;
    }
    if phase == Cleanup {
      var action := FindCallSite(mem, f.lsda.value, f.ip);
      if action.NotFound? || action.landingPad == 0 {
        return ContinueUnwind;
      }
      var found, selector := CheckActionRecord(mem, f.types, action.actionRecord);
      if found != HandlerCleanup {
        return ContinueUnwind;
      }
      return InstallContext(action.landingPad, selector);
    }
    if ex.catchTemp == 0 {
      return Terminate;
    }
    var selector, landingPad := ex.handlerSwitchValue, ex.catchTemp;
    ex.catchTemp := 0;
    ex.handlerSwitchValue := 0;
    r := InstallContext(landingPad, selector);
  }

  /** Control was passed to a landing pad of a frame. */
  datatype Install = Install(frame: nat, landingPad: int, selector: int)

  datatype Outcome = EndOfStack | Terminated | Landed

  /** The nearest frame at which the search stops, the number of frames if there is none. */
  ghost function Target(mem: seq<Byte>, frames: seq<Frame>): (k: nat)
    requires forall f | f in frames :: Readable(mem, f)
    ensures k <= |frames| && (k < |frames| ==> StopsSearch(mem, frames[k]))
    ensures forall i :: 0 <= i < k ==> !StopsSearch(mem, frames[i])
  {
    if frames == [] || StopsSearch(mem, frames[0]) then 0 else 1 + Target(mem, frames[1..])
  }

  /** The cleanup of a frame that has nothing else for the exception. */
  ghost function CleanupOf(mem: seq<Byte>, frames: seq<Frame>, i: nat): Option<Install> {
    if i < |frames| && Readable(mem, frames[i]) && OnlyCleansUp(mem, frames[i]) then
      Some(Install(i, LookupOf(mem, frames[i]).landingPad, SelectorOf(mem, frames[i])))
    else None
  }

  /** What there is among the first `k` entries, in order. */
  ghost function Present(entry: nat -> Option<Install>, k: nat): seq<Install> {
    if k == 0 then []
    else Present(entry, k - 1) + if entry(k - 1).Some? then [entry(k - 1).value] else []
  }

  /** The cleanups of the first `k` frames, nearest first. */
  ghost function Cleanups(mem: seq<Byte>, frames: seq<Frame>, k: nat): seq<Install> {
    Present((i: nat) => CleanupOf(mem, frames, i), k)
  }

  /** The search found a catch with somewhere to land, rather than a reason to terminate. */
  ghost predicate Handles(mem: seq<Byte>, f: Frame)
    requires Readable(mem, f)
  {
    StopsSearch(mem, f) && LookupOf(mem, f).Found? && LookupOf(mem, f).landingPad != 0
  }

  /** `_Unwind_RaiseException`, the external driver: it searches all frames first, and only then enters
      them again one by one.  Cleanups return to it through `_Unwind_Resume`. */
  method RaiseException(mem: seq<Byte>, frames: seq<Frame>, ex: Exception) returns (o: Outcome, installs: seq<Install>)
    requires forall f | f in frames :: Readable(mem, f)
    requires ex.catchTemp == 0
    modifies ex
    ensures var k := Target(mem, frames);
      if k == |frames| then
        o == EndOfStack && installs == [] && unchanged(ex)
      else if Handles(mem, frames[k]) then
        && o == Landed && ex.catchTemp == 0
        && installs == Cleanups(mem, frames, k) +
             [Install(k, LookupOf(mem, frames[k]).landingPad, SelectorOf(mem, frames[k]))]
      else
        o == Terminated && installs == Cleanups(mem, frames, k)
  {
    var reason, i := SearchPhase(mem, frames, ex);
    if reason == ContinueUnwind {
      return EndOfStack, [];
    }
    o, installs := CleanupPhase(mem, frames, i, ex);
  }

  /** The first phase: asks the frames in turn until one has a handler. */
  method SearchPhase(mem: seq<Byte>, frames: seq<Frame>, ex: Exception) returns (reason: Reason, i: nat)
    requires forall f | f in frames :: Readable(mem, f)
    requires ex.catchTemp == 0
    modifies ex
    ensures i == Target(mem, frames)
    ensures if i == |frames| then reason == ContinueUnwind && unchanged(ex)
            else reason == HandlerFound && Cached(mem, frames[i], ex)
  {
    i := 0;
    reason := ContinueUnwind;
    while i < |frames| && reason == ContinueUnwind
      invariant 0 <= i <= |frames|
      invariant reason == ContinueUnwind ==> unchanged(ex) && i <= Target(mem, frames)
      invariant reason != ContinueUnwind ==>
        reason == HandlerFound && i < |frames| && i == Target(mem, frames) && Cached(mem, frames[i], ex)
      decreases |frames| - i, reason == ContinueUnwind
    {
      reason := RunPersonality(mem, frames[i], ex, Search);
      if reason == ContinueUnwind {
        i := i + 1;
      }
    }
  }

  /** What the search leaves in the exception when it stops at a frame. */
  ghost predicate Cached(mem: seq<Byte>, f: Frame, ex: Exception)
    requires Readable(mem, f) && StopsSearch(mem, f)
    reads ex
  {
    if LookupOf(mem, f).Found? then
      ex.catchTemp == LookupOf(mem, f).landingPad && ex.handlerSwitchValue == SelectorOf(mem, f)
    else ex.catchTemp == 0
  }

  /** The second phase: the frames below the target, then the target itself. */
  method CleanupPhase(mem: seq<Byte>, frames: seq<Frame>, target: nat, ex: Exception)
    returns (o: Outcome, installs: seq<Install>)
    requires forall f | f in frames :: Readable(mem, f)
    requires target < |frames| && StopsSearch(mem, frames[target]) && Cached(mem, frames[target], ex)
    modifies ex
    ensures if Handles(mem, frames[target]) then
        && o == Landed && ex.catchTemp == 0
        && installs == Cleanups(mem, frames, target) +
             [Install(target, LookupOf(mem, frames[target]).landingPad, SelectorOf(mem, frames[target]))]
      else
        o == Terminated && installs == Cleanups(mem, frames, target)
  {
    installs := RunCleanups(mem, frames, target, ex);
    var reason := RunPersonality(mem, frames[target], ex, Handler);
    if reason == Terminate {
      return Terminated, installs;
    }
    installs := installs + [Install(target, reason.landingPad, reason.selector)];
    o := Landed;
  }

  /** The frames below the target. */
  method RunCleanups(mem: seq<Byte>, frames: seq<Frame>, target: nat, ex: Exception) returns (installs: seq<Install>)
    requires (forall f | f in frames :: Readable(mem, f)) && target <= |frames|
    modifies ex
    ensures ex.catchTemp == old(ex.catchTemp) && ex.handlerSwitchValue == old(ex.handlerSwitchValue)
    ensures installs == Cleanups(mem, frames, target)
  {
    installs := [];
    for j := 0 to target
      invariant installs == Cleanups(mem, frames, j)
      invariant ex.catchTemp == old(ex.catchTemp) && ex.handlerSwitchValue == old(ex.handlerSwitchValue)
    {
      var entered := RunCleanup(mem, frames, j, ex);
      installs := installs + if entered.Some? then [entered.value] else [];
    }
  }

  method RunCleanup(mem: seq<Byte>, frames: seq<Frame>, j: nat, ex: Exception) returns (entered: Option<Install>)
    requires j < |frames| && Readable(mem, frames[j])
    modifies ex
    ensures ex.catchTemp == old(ex.catchTemp) && ex.handlerSwitchValue == old(ex.handlerSwitchValue)
    ensures entered == CleanupOf(mem, frames, j)
  {
    var reason := RunPersonality(mem, frames[j], ex, Cleanup);
    entered := if reason.InstallContext? then Some(Install(j, reason.landingPad, reason.selector)) else None;
  }

  ghost predicate NamesItsFrame(entry: nat -> Option<Install>) {
    forall i: nat :: entry(i).Some? ==> entry(i).value.frame == i
  }

  lemma {:induction false} PresentFrom(entry: nat -> Option<Install>, k: nat, i: nat)
    requires NamesItsFrame(entry) && i < |Present(entry, k)|
    ensures var c := Present(entry, k)[i]; c.frame < k && entry(c.frame) == Some(c)
  {
    if i < |Present(entry, k - 1)| {
      PresentFrom(entry, k - 1, i);
    }
  }

  lemma {:induction false} PresentInOrder(entry: nat -> Option<Install>, k: nat, i: nat, j: nat)
    requires NamesItsFrame(entry) && j < i < |Present(entry, k)|
    ensures Present(entry, k)[j].frame < Present(entry, k)[i].frame
  {
    if i < |Present(entry, k - 1)| {
      PresentInOrder(entry, k - 1, i, j);
    } else {
      PresentFrom(entry, k - 1, j);
    }
  }

  lemma {:induction false} IsPresent(entry: nat -> Option<Install>, k: nat, i: nat)
    requires i < k && entry(i).Some?
    ensures entry(i).value in Present(entry, k)
  {
    if i < k - 1 {
      IsPresent(entry, k - 1, i);
    }
  }

  /** No frame below the target is ever entered through a handler: whatever is installed there is the
      cleanup of a frame whose chain has no matching catch, nearest first. */
  lemma {:induction false} BelowTargetOnlyCleanups(mem: seq<Byte>, frames: seq<Frame>, k: nat, i: nat)
    requires (forall f | f in frames :: Readable(mem, f)) && k <= Target(mem, frames)
    requires i < |Cleanups(mem, frames, k)|
    ensures var c := Cleanups(mem, frames, k)[i];
            && c.frame < k && OnlyCleansUp(mem, frames[c.frame]) && !StopsSearch(mem, frames[c.frame])
            && forall j :: 0 <= j < i ==> Cleanups(mem, frames, k)[j].frame < c.frame
  {
    var entry := (i: nat) => CleanupOf(mem, frames, i);
    PresentFrom(entry, k, i);
    forall j | 0 <= j < i ensures Cleanups(mem, frames, k)[j].frame < Cleanups(mem, frames, k)[i].frame {
      PresentInOrder(entry, k, i, j);
    }
  }

  /** Every cleanup below the target is run. */
  lemma {:induction false} EveryCleanupRuns(mem: seq<Byte>, frames: seq<Frame>, k: nat, i: nat)
    requires (forall f | f in frames :: Readable(mem, f)) && i < k <= |frames| && OnlyCleansUp(mem, frames[i])
    ensures Install(i, LookupOf(mem, frames[i]).landingPad, SelectorOf(mem, frames[i])) in Cleanups(mem, frames, k)
  {
    IsPresent((i: nat) => CleanupOf(mem, frames, i), k, i);
  }

  ghost predicate ZeroFollows(fs: seq<int>, i: nat) {
    exists j :: i < j < |fs| && fs[j] == 0
  }

  lemma {:induction false} LastSpecialIsZero(fs: seq<int>)
    ensures LastSpecial(fs) == 0 <==> forall i :: 0 <= i < |fs| && fs[i] < 0 ==> ZeroFollows(fs, i)
  {
    if fs != [] {
      var n := |fs| - 1;
      LastSpecialIsZero(fs[..n]);
      if fs[n] == 0 {
        forall i | 0 <= i < |fs| && fs[i] < 0 ensures ZeroFollows(fs, i) {
          assert fs[n] == 0;
        }
      } else if fs[n] > 0 {
        forall i | 0 <= i < n ensures ZeroFollows(fs, i) <==> ZeroFollows(fs[..n], i) {
          if j :| i < j < |fs| && fs[j] == 0 {
            assert fs[..n][j] == 0;
          }
        }
      }
    }
  }

  /** A landing pad takes selector 0 to mean a cleanup.  That is what a cleanup gets exactly when a
      cleanup record follows every exception specification that let the exception pass. */
  lemma CleanupSelector(t: TypeTable, fs: seq<int>)
    requires Verdict(t, fs) == HandlerCleanup
    ensures Selector(t, fs) == 0 <==> forall i :: 0 <= i < |fs| && fs[i] < 0 ==> ZeroFollows(fs, i)
  {
    LastSpecialIsZero(fs);
  }

  /** Otherwise it is told the number of that specification, as if that had been violated. */
  lemma CleanupMistakenForViolation(t: TypeTable)
    requires t.Permits(-1)
    ensures Verdict(t, [0, -1]) == HandlerCleanup && Selector(t, [0, -1]) == -1
  {
  }
}
