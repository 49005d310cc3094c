/** The caught-exception stacks and reference counts of the C++ runtime, for any number of threads.
    Every thread-safe update of the original touches one shared counter, so a run of the whole
    program is a sequence of the calls below on any of its threads. */
module CaughtExceptions {
  import opened Common
  import opened HandlerNesting

  /** `__cxa_exception`, or `__cxa_dependent_exception` when `dependent` holds.  The ghost fields say
      who still needs the exception; Runtime.Valid ties them to the nesting of the threads. */
  class CxaException {
    const dependent: bool
    const primaryException: CxaException?
    var handlerCount: int
    var referenceCount: int
    var nextException: CxaException?
    ghost var thrown: bool
    ghost var owner: ThreadInfo?          // the thread that has a frame for it
    ghost var pointers: nat               // outstanding exception_ptr handles
    ghost var users: set<CxaException>    // dependent exceptions that have an owner
    ghost var freed: nat                  // how often its memory was released

    constructor (dependent: bool, primary: CxaException?)
      ensures this.dependent == dependent && primaryException == primary && nextException == null
      ensures handlerCount == 0 && referenceCount == 0
      ensures !thrown && owner == null && pointers == 0 && users == {} && freed == 0
    {
      this.dependent := dependent;
      primaryException := primary;
      nextException := null;
      handlerCount, referenceCount := 0, 0;
      thrown, owner, pointers, users, freed := false, null, 0, {}, 0;
    }

    /** Everything that still needs the exception. */
    ghost function Refs(): nat
      reads this
    {
      (if owner != null then 1 else 0) + pointers + |users|
    }
  }

  /** `__cxa_eh_globals` of one thread, with the nesting it stands for. */
  class ThreadInfo {
    var caughtExceptions: CxaException?
    var uncaughtExceptions: int
    ghost var frames: Nest<CxaException>

    constructor ()
      ensures caughtExceptions == null && uncaughtExceptions == 0 && frames == Empty
    {
      caughtExceptions, uncaughtExceptions, frames := null, 0, Empty;
    }
  }

  /** The stored handler count: negative exactly while a handled exception is being rethrown. */
  ghost function SignedCount(fs: Nest<CxaException>, e: CxaException): int {
    var n: int := Handlers(fs, e);
    if InFlight(fs, e) then -n else n
  }

  ghost function Pointer(o: Option<CxaException>): CxaException? {
    if o.Some? then o.value else null
  }

  class Runtime {
    ghost var threads: set<ThreadInfo>
    ghost var exceptions: set<CxaException>      // everything ever allocated

    ghost predicate ThreadOk(t: ThreadInfo)
      reads this, t, exceptions
    {
      && WellNested(t.frames)
      && t.uncaughtExceptions == Flights(t.frames)
      && t.caughtExceptions == Pointer(Head(t.frames))
      && Members(t.frames) <= exceptions
      && forall e | e in exceptions :: e.owner == t <==> e in Members(t.frames)
    }

    ghost predicate FramesOk(e: CxaException)
      reads this, threads, e
    {
      e.owner != null ==>
        && e.owner in threads
        && e.handlerCount == SignedCount(e.owner.frames, e)
        && (Handlers(e.owner.frames, e) > 0 ==> e.nextException == Pointer(Below(e.owner.frames, e)))
    }

    ghost predicate ExceptionOk(e: CxaException)
      reads this, exceptions, e
    {
      && (forall d | d in e.users :: d in exceptions && d.dependent && d.primaryException == e && d.owner != null)
      && (e.owner == null && e.freed == 0 ==> e.handlerCount == 0)
      && if !e.thrown then
           e.freed == 0 && e.Refs() == 0
         else if e.dependent then
           && e.pointers == 0 && e.users == {}
           && e.freed == (if e.owner == null then 1 else 0)
           && e.primaryException != null && e.primaryException in exceptions
           && !e.primaryException.dependent && e.primaryException.thrown
           && (e.owner != null ==> e in e.primaryException.users)
         else
           && e.referenceCount == e.Refs()
           && e.freed == (if e.Refs() == 0 then 1 else 0)
    }

    ghost predicate Valid()
      reads this, threads, exceptions
    {
      && (forall t | t in threads :: ThreadOk(t))
      && (forall e | e in exceptions :: FramesOk(e))
      && (forall e | e in exceptions :: ExceptionOk(e))
    }

    constructor ()
      ensures Valid() && threads == {} && exceptions == {}
    {
      threads, exceptions := {}, {};
    }

    method StartThread() returns (t: ThreadInfo)
      requires Valid()
      modifies this
      ensures Valid() && fresh(t) && threads == old(threads) + {t} && t.frames == Empty
      ensures exceptions == old(exceptions)
    {
      t := new ThreadInfo();
      threads := threads + {t};
      NewObjectsKeepValid();
    }

    /** `__cxa_allocate_exception` */
    method AllocateException() returns (ex: CxaException)
      requires Valid()
      modifies this
      ensures Valid() && fresh(ex) && exceptions == old(exceptions) + {ex} && threads == old(threads)
      ensures !ex.dependent && !ex.thrown
    {
      ex := new CxaException(false, null);
      exceptions := exceptions + {ex};
      NewObjectsKeepValid();
    }

    /** `__cxa_allocate_dependent_exception`, with the primary exception stored as its caller does. */
    method AllocateDependentException(primary: CxaException) returns (ex: CxaException)
      requires Valid()
      modifies this
      ensures Valid() && fresh(ex) && exceptions == old(exceptions) + {ex} && threads == old(threads)
      ensures ex.dependent && !ex.thrown && ex.primaryException == primary
    {
      ex := new CxaException(true, primary);
      exceptions := exceptions + {ex};
      NewObjectsKeepValid();
    }

    twostate lemma NewObjectsKeepValid()
      requires old(Valid()) && old(threads) <= threads && old(exceptions) <= exceptions
      requires forall t | t in old(threads) :: unchanged(t)
      requires forall e | e in old(exceptions) :: unchanged(e)
      requires forall t | t in threads && t !in old(threads) ::
        fresh(t) && t.frames == Empty && t.uncaughtExceptions == 0 && t.caughtExceptions == null
      requires forall e | e in exceptions && e !in old(exceptions) ::
        && fresh(e) && !e.thrown && e.freed == 0 && e.owner == null && e.pointers == 0 && e.users == {}
        && e.handlerCount == 0
      requires forall e | e in exceptions && e.owner != null :: !fresh(e.owner)
      ensures Valid()
    {
      forall t | t in threads ensures ThreadOk(t) {
        assert t in old(threads) ==> old(ThreadOk(t));
      }
      forall e | e in exceptions ensures FramesOk(e) && ExceptionOk(e) {
        assert e in old(exceptions) ==> old(FramesOk(e)) && old(ExceptionOk(e));
      }
    }

    /** Only thread `ti` and the exceptions of `changed` differ from before. */
    twostate predicate OnlyChanged(new ti: ThreadInfo, new changed: set<CxaException>)
      reads this, threads, exceptions
    {
      && threads == old(threads) && exceptions == old(exceptions) && ti in threads && changed <= exceptions
      && (forall t | t in threads && t != ti :: unchanged(t))
      && (forall e | e in exceptions && e !in changed :: unchanged(e))
    }

    /** A call on `ti` that changes the exceptions of `changed` only where `ti` owns them, or only in
        their counters, leaves every other thread as it was. */
    twostate lemma OtherThreadsKept(new ti: ThreadInfo, new changed: set<CxaException>)
      requires old(Valid()) && OnlyChanged(ti, changed)
      requires forall e | e in changed ::
        if old(e.owner) == null || old(e.owner) == ti then e.owner == null || e.owner == ti
        else e.owner == old(e.owner) && e.nextException == old(e.nextException) && e.handlerCount == old(e.handlerCount)
      ensures forall t | t in threads && t != ti :: ThreadOk(t)
      ensures forall e | e in exceptions && e.owner != ti :: FramesOk(e)
    {
      forall t | t in threads && t != ti ensures ThreadOk(t) {
        assert old(ThreadOk(t));
      }
      forall e | e in exceptions && e.owner != ti ensures FramesOk(e) {
        assert old(FramesOk(e));
      }
    }

    /** What the other exceptions need is not touched by a change to those of `changed`. */
    twostate lemma OtherExceptionsKept(new ti: ThreadInfo, new changed: set<CxaException>)
      requires old(Valid()) && OnlyChanged(ti, changed)
      requires forall d | d in changed ::
        && (old(d.thrown) ==> d.thrown)
        && (d.dependent && (d.owner == null) != (old(d.owner) == null) ==> d.primaryException in changed)
        && old(d.users) - changed <= d.users
      ensures forall e | e in exceptions && e !in changed :: ExceptionOk(e)
    {
      forall e | e in exceptions && e !in changed ensures ExceptionOk(e) {
        assert old(ExceptionOk(e));
      }
    }

    /** `ex` starts to propagate on `ti`. */
    twostate lemma FlightPushed(new ti: ThreadInfo, new ex: CxaException, new changed: set<CxaException>)
      requires old(Valid()) && OnlyChanged(ti, changed) && ex in changed
      requires forall e | e in changed && e != ex ::
        unchanged(e`owner) && unchanged(e`handlerCount) && unchanged(e`nextException)
      requires Fits(ex, old(ti.frames)) && ti.frames == Flight(ex, old(ti.frames))
      requires ex.owner == ti && unchanged(ex`nextException)
      requires ex.handlerCount == -old(ex.handlerCount) == SignedCount(ti.frames, ex)
      requires old(ex.owner) == ti || ex !in Members(old(ti.frames))
      requires ti.uncaughtExceptions == old(ti.uncaughtExceptions) + 1
      requires unchanged(ti`caughtExceptions)
      ensures ThreadOk(ti)
      ensures forall e | e in exceptions && e.owner == ti :: FramesOk(e)
    {
      MembersCounted(old(ti.frames), ex);
      assert old(ThreadOk(ti));
      forall e | e in exceptions && e.owner == ti ensures FramesOk(e) {
        FlightPushedOne(ti, ex, changed, e);
      }
    }

    twostate lemma FlightPushedOne(new ti: ThreadInfo, new ex: CxaException, new changed: set<CxaException>,
                                   new e: CxaException)
      requires old(Valid()) && OnlyChanged(ti, changed) && ex in changed && e in exceptions
      requires forall x | x in changed && x != ex ::
        unchanged(x`owner) && unchanged(x`handlerCount) && unchanged(x`nextException)
      requires ti.frames == Flight(ex, old(ti.frames))
      requires ex.owner == ti && unchanged(ex`nextException) && ex.handlerCount == SignedCount(ti.frames, ex)
      requires old(ex.owner) == ti || ex !in Members(old(ti.frames))
      requires e.owner == ti
      ensures FramesOk(e)
    {
      MembersCounted(old(ti.frames), ex);
      assert old(FramesOk(e));
    }

    /** `d` needs `p` as well, and everything else that needs `p` still does. */
    static twostate predicate OnlyUserAdded(p: CxaException, new d: CxaException)
      reads p
    {
      && p.users == old(p.users) + {d} && p.referenceCount == old(p.referenceCount) + 1
      && unchanged(p`thrown) && unchanged(p`owner) && unchanged(p`pointers) && unchanged(p`freed)
      && unchanged(p`handlerCount) && unchanged(p`nextException)
    }

    /** `ex` is thrown on `ti`; a dependent exception also becomes a user of its primary. */
    twostate predicate Thrown(new ti: ThreadInfo, ex: CxaException)
      reads this, threads, exceptions
    {
      && ex in exceptions && old(!ex.thrown) && ex.thrown && ex.owner == ti
      && unchanged(ex`handlerCount) && unchanged(ex`nextException) && unchanged(ex`freed)
      && unchanged(ex`pointers) && unchanged(ex`users)
      && if !ex.dependent then ex.referenceCount == 1 else
           var p := ex.primaryException;
           && p != null && p in exceptions && !p.dependent && p.thrown && p.pointers > 0
           && OnlyUserAdded(p, ex)
    }

    static ghost function WithPrimary(ex: CxaException): set<CxaException> {
      if ex.dependent && ex.primaryException != null then {ex, ex.primaryException} else {ex}
    }

    twostate lemma UserAdded(p: CxaException, new ex: CxaException)
      requires old(ExceptionOk(p)) && !p.dependent && p.thrown && old(p.thrown) && ex !in old(p.users)
      requires exceptions == old(exceptions) && ex in exceptions && old(p.freed) == 0
      requires ex.dependent && ex.primaryException == p && ex.owner != null
      requires forall e | e in exceptions && e != ex && e != p :: unchanged(e)
      requires p.users == old(p.users) + {ex} && p.referenceCount == old(p.referenceCount) + 1
      requires unchanged(p`owner) && unchanged(p`pointers) && unchanged(p`freed) && unchanged(p`handlerCount)
      ensures ExceptionOk(p)
    {
      assert forall d | d in old(p.users) :: d != p;
    }

    twostate lemma ThrownOk(new ti: ThreadInfo, ex: CxaException)
      requires exceptions == old(exceptions) && old(ExceptionOk(ex)) && Thrown(ti, ex)
      ensures ExceptionOk(ex)
    {
      assert ex.users == {};
    }

    twostate lemma ThrownCounted(new ti: ThreadInfo, ex: CxaException)
      requires old(Valid()) && OnlyChanged(ti, WithPrimary(ex)) && Thrown(ti, ex)
      ensures forall e | e in exceptions :: ExceptionOk(e)
    {
      ThrownOk(ti, ex);
      OtherExceptionsKept(ti, WithPrimary(ex));
      if ex.dependent {
        assert old(ExceptionOk(ex.primaryException) && ExceptionOk(ex));
        UserAdded(ex.primaryException, ex);
      }
    }

    twostate lemma ThrowKeepsValid(new ti: ThreadInfo, ex: CxaException)
      requires old(Valid()) && OnlyChanged(ti, WithPrimary(ex)) && Thrown(ti, ex)
      requires ti.frames == Flight(ex, old(ti.frames)) && unchanged(ti`caughtExceptions)
      requires ti.uncaughtExceptions == old(ti.uncaughtExceptions) + 1
      ensures Valid()
    {
      ThrownCounted(ti, ex);
      assert old(ExceptionOk(ex) && ThreadOk(ti));
      MembersCounted(old(ti.frames), ex);
      OtherThreadsKept(ti, WithPrimary(ex));
      FlightPushed(ti, ex, WithPrimary(ex));
    }

    /** `__cxa_throw` */
    method Throw(ti: ThreadInfo, ex: CxaException)
      requires Valid() && ti in threads && ex in exceptions && !ex.dependent && !ex.thrown
      modifies ti, ex
      ensures Valid() && Thrown(ti, ex)
      ensures Enabled(old(ti.frames), Event.Throw(ex))
      ensures ti.frames == Step(old(ti.frames), Event.Throw(ex))
    {
      assert ExceptionOk(ex) && ThreadOk(ti);
      ex.referenceCount := 1;
      ex.thrown, ex.owner := true, ti;
      ti.uncaughtExceptions := ti.uncaughtExceptions + 1;
      ti.frames := Flight(ex, ti.frames);
      ThrowKeepsValid(ti, ex);
    }

    twostate predicate NeedsUnchanged(ex: CxaException)
      reads ex
    {
      && unchanged(ex`owner) && unchanged(ex`thrown) && unchanged(ex`pointers) && unchanged(ex`users)
      && unchanged(ex`freed) && unchanged(ex`referenceCount)
    }

    twostate lemma NeedsKept(new ti: ThreadInfo, ex: CxaException)
      requires old(Valid()) && OnlyChanged(ti, {ex}) && NeedsUnchanged(ex) && ex.owner != null
      ensures forall e | e in exceptions :: ExceptionOk(e)
    {
      assert old(ExceptionOk(ex));
      assert ExceptionOk(ex);
      OtherExceptionsKept(ti, {ex});
    }

    /** `__cxa_begin_catch`, on the exception that propagates innermost. */
    method BeginCatch(ti: ThreadInfo, ex: CxaException)
      requires Valid() && ti in threads
      requires Enabled(ti.frames, Event.BeginCatch) && ti.frames.ex == ex
      modifies ti, ex
      ensures Valid() && NeedsUnchanged(ex)
      ensures ti.frames == Step(old(ti.frames), Event.BeginCatch)
      ensures ti.caughtExceptions == ex
    {
      assert ThreadOk(ti) && FramesOk(ex);
      ti.uncaughtExceptions := ti.uncaughtExceptions - 1;
      if ex.handlerCount == 0 {
        ex.nextException := ti.caughtExceptions;
        ti.caughtExceptions := ex;
      }
      if ex.handlerCount < 0 {
        ex.handlerCount := -ex.handlerCount + 1;
      } else {
        ex.handlerCount := ex.handlerCount + 1;
      }
      ti.frames := Handler(ex, ti.frames.outer);
      CatchKeepsValid(ti, ex);
    }

    twostate lemma CatchKeepsValid(new ti: ThreadInfo, ex: CxaException)
      requires old(Valid()) && OnlyChanged(ti, {ex})
      requires ti.frames.Handler? && ti.frames.ex == ex && old(ti.frames) == Flight(ex, ti.frames.outer)
      requires NeedsUnchanged(ex)
      requires ex.handlerCount == SignedCount(ti.frames, ex)
      requires ex.nextException == Pointer(Below(ti.frames, ex)) && ti.caughtExceptions == ex
      requires ti.uncaughtExceptions == old(ti.uncaughtExceptions) - 1
      ensures Valid()
    {
      assert old(ThreadOk(ti));
      OtherThreadsKept(ti, {ex});
      NeedsKept(ti, ex);
      CatchFrames(ti, ex);
    }

    twostate lemma CatchFrames(new ti: ThreadInfo, ex: CxaException)
      requires old(Valid()) && OnlyChanged(ti, {ex})
      requires ti.frames.Handler? && ti.frames.ex == ex && old(ti.frames) == Flight(ex, ti.frames.outer)
      requires unchanged(ex`owner) && ex.handlerCount == SignedCount(ti.frames, ex)
      requires ex.nextException == Pointer(Below(ti.frames, ex))
      ensures forall e | e in exceptions && e.owner == ti :: FramesOk(e)
    {
      forall e | e in exceptions && e.owner == ti ensures FramesOk(e) {
        assert old(FramesOk(e));
      }
    }

    /** `__cxa_rethrow`: terminates when nothing is being handled, and asserts that the innermost
        handled exception is not being rethrown already. */
    method Rethrow(ti: ThreadInfo) returns (outcome: RethrowOutcome)
      requires Valid() && ti in threads
      modifies ti, ti.caughtExceptions
      ensures Valid() && ti.caughtExceptions == old(ti.caughtExceptions)
      ensures ti.caughtExceptions != null ==> NeedsUnchanged(ti.caughtExceptions)
      ensures outcome == NothingCaught <==> Caught(old(ti.frames)) == []
      ensures outcome == Propagates <==> Enabled(old(ti.frames), Event.Rethrow)
      ensures ti.frames == if outcome == Propagates then Step(old(ti.frames), Event.Rethrow) else old(ti.frames)
    {
      var ex := ti.caughtExceptions;
      HeadOfCaught(ti.frames);
      assert ThreadOk(ti);
      if ex == null {
        return NothingCaught;
      }
      HeadIsMember(ti.frames);
      assert FramesOk(ex);
      if !(ex.handlerCount > 0) {
        return AlreadyRethrown;
      }
      ti.uncaughtExceptions := ti.uncaughtExceptions + 1;
      ex.handlerCount := -ex.handlerCount;
      ti.frames := Flight(ex, ti.frames);
      RethrowKeepsValid(ti, ex);
      outcome := Propagates;
    }

    twostate lemma RethrowKeepsValid(new ti: ThreadInfo, ex: CxaException)
      requires old(Valid()) && OnlyChanged(ti, {ex})
      requires Head(old(ti.frames)) == Some(ex) && !InFlight(old(ti.frames), ex)
      requires ti.frames == Flight(ex, old(ti.frames)) && unchanged(ti`caughtExceptions)
      requires NeedsUnchanged(ex)
      requires unchanged(ex`nextException) && ex.handlerCount == -old(ex.handlerCount)
      requires ti.uncaughtExceptions == old(ti.uncaughtExceptions) + 1
      ensures Valid()
    {
      HeadIsMember(old(ti.frames));
      assert old(ThreadOk(ti) && FramesOk(ex));
      OtherThreadsKept(ti, {ex});
      NeedsKept(ti, ex);
      FlightPushed(ti, ex, {ex});
    }

    /** `__cxa_end_catch` */
    method EndCatch(ti: ThreadInfo)
      requires Valid() && ti in threads && Enabled(ti.frames, Event.EndCatch)
      modifies ti, exceptions
      ensures Valid()
      ensures ti.frames == Step(old(ti.frames), Event.EndCatch)
      ensures OnlyChanged(ti, WithPrimary(Ending(old(ti.frames))))
      ensures var ex := Ending(old(ti.frames));
              && (ex.dependent ==> ex.primaryException != null)
              && HandlerEnded(ex, Handlers(ti.frames, ex), InFlight(ti.frames, ex))
    {
      ghost var ex := Ending(ti.frames);
      EndingFacts(ti, ex);
      EndInnermostHandler(ti, ex);
      EndKeepsValid(ti, ex);
    }

    lemma EndingFacts(ti: ThreadInfo, ex: CxaException)
      requires Valid() && ti in threads && Enabled(ti.frames, Event.EndCatch) && ex == Ending(ti.frames)
      ensures ti.caughtExceptions == ex && ex in exceptions && ex.owner == ti
      ensures ex.handlerCount == SignedCount(ti.frames, ex) && Handlers(ti.frames, ex) > 0
      ensures ex.nextException == Pointer(Below(ti.frames, ex))
      ensures Head(ti.frames) == Some(ex) && WellNested(ti.frames)
      ensures ex.thrown && ex.freed == 0
      ensures ex.dependent ==> var p := ex.primaryException;
        p != null && p in exceptions && !p.dependent && p.thrown && ex in p.users
    {
      assert ThreadOk(ti);
      EndingIsInnermost(ti.frames);
      HeadIsMember(ti.frames);
      assert FramesOk(ex) && ExceptionOk(ex);
    }

    /** The body of `__cxa_end_catch`, on the exception `ex` that its caller has identified. */
    method EndInnermostHandler(ti: ThreadInfo, ghost ex: CxaException)
      requires Enabled(ti.frames, Event.EndCatch) && WellNested(ti.frames)
      requires ex == Ending(ti.frames) && ti.caughtExceptions == ex && Head(ti.frames) == Some(ex)
      requires ex.handlerCount == SignedCount(ti.frames, ex) && Handlers(ti.frames, ex) > 0
      requires ex.nextException == Pointer(Below(ti.frames, ex))
      requires ex.dependent ==> ex.primaryException != null && !ex.primaryException.dependent
      modifies ti, WithPrimary(ex)
      ensures ti.frames == Step(old(ti.frames), Event.EndCatch)
      ensures ti.caughtExceptions == Pointer(Head(ti.frames))
      ensures ti.uncaughtExceptions == old(ti.uncaughtExceptions)
      ensures HandlerEnded(ex, Handlers(ti.frames, ex), InFlight(ti.frames, ex))
    {
      var e := ti.caughtExceptions;
      var deleteException := true;
      if e.handlerCount < 0 {
        e.handlerCount := e.handlerCount + 1;
        deleteException := false;
      } else {
        e.handlerCount := e.handlerCount - 1;
      }
      EndCatchEffect(ti.frames, e);
      ti.frames := Step(ti.frames, Event.EndCatch);
      if e.handlerCount == 0 {
        ti.caughtExceptions := e.nextException;
        if deleteException {
          ReleaseException(e);
          ForgetOwner(e);
        }
      }
    }

    /** The frames of the thread no longer mention `ex`. */
    ghost method ForgetOwner(ex: CxaException)
      requires ex.dependent ==> ex.primaryException != null && !ex.primaryException.dependent
      modifies ex`owner, WithPrimary(ex)`users
      ensures ex.owner == null
      ensures if ex.dependent then
                ex.primaryException.users == old(ex.primaryException.users) - {ex} && unchanged(ex`users)
              else unchanged(ex`users)
    {
      ex.owner := null;
      if ex.dependent {
        ex.primaryException.users := ex.primaryException.users - {ex};
      }
    }

    /** One handler of `ex` ended; `left` remain.  The exception is released exactly when none remain
        and it is not propagating. */
    static twostate predicate HandlerEnded(ex: CxaException, left: nat, inFlight: bool)
      requires ex.dependent ==> ex.primaryException != null
      reads ex, WithPrimary(ex)
    {
      && ex.handlerCount == (if inFlight then -(left as int) else left as int)
      && unchanged(ex`nextException) && unchanged(ex`thrown)
      && unchanged(ex`pointers) && unchanged(ex`users)
      && if left > 0 || inFlight then
           && unchanged(ex`owner) && unchanged(ex`referenceCount) && unchanged(ex`freed)
           && (ex.dependent ==> unchanged(ex.primaryException))
         else
           ex.owner == null && Released(ex)
    }

    /** One reference to `ex` is gone. */
    static twostate predicate Released(ex: CxaException)
      requires ex.dependent ==> ex.primaryException != null
      reads ex, WithPrimary(ex)
    {
      if ex.dependent then
        var p := ex.primaryException;
        && ex.freed == old(ex.freed) + 1
        && p.users == old(p.users) - {ex} && p.referenceCount == old(p.referenceCount) - 1
        && p.freed == old(p.freed) + (if p.referenceCount == 0 then 1 else 0)
        && unchanged(p`thrown) && unchanged(p`owner) && unchanged(p`pointers)
        && unchanged(p`handlerCount) && unchanged(p`nextException)
      else
        && ex.referenceCount == old(ex.referenceCount) - 1
        && ex.freed == old(ex.freed) + (if ex.referenceCount == 0 then 1 else 0)
    }

    /** The state after a handler of `ex` ended on `ti`. */
    twostate predicate AfterEnd(ti: ThreadInfo, ex: CxaException)
      reads this, threads, exceptions
    {
      && old(Valid()) && ti in old(threads) && ex in old(exceptions)
      && Enabled(old(ti.frames), Event.EndCatch) && ex == Ending(old(ti.frames))
      && (ex.dependent ==> ex.primaryException != null)
      && OnlyChanged(ti, WithPrimary(ex))
      && ti.frames == Step(old(ti.frames), Event.EndCatch)
      && ti.caughtExceptions == Pointer(Head(ti.frames)) && unchanged(ti`uncaughtExceptions)
      && HandlerEnded(ex, Handlers(ti.frames, ex), InFlight(ti.frames, ex))
    }

    twostate lemma EndKeepsValid(ti: ThreadInfo, new ex: CxaException)
      requires ex in old(exceptions) && AfterEnd(ti, ex)
      ensures Valid()
    {
      EndedFrames(ti, ex);
      EndedOthers(ti, ex);
      EndedCounted(ti, ex);
    }

    twostate lemma EndedOthers(ti: ThreadInfo, new ex: CxaException)
      requires ex in old(exceptions) && AfterEnd(ti, ex)
      ensures forall t | t in threads && t != ti :: ThreadOk(t)
      ensures forall e | e in exceptions && e.owner != ti :: FramesOk(e)
    {
      assert old(ThreadOk(ti) && FramesOk(ex));
      EndingIsInnermost(old(ti.frames));
      HeadIsMember(old(ti.frames));
      OtherThreadsKept(ti, WithPrimary(ex));
    }

    twostate lemma EndedFrames(ti: ThreadInfo, new ex: CxaException)
      requires ex in old(exceptions) && AfterEnd(ti, ex)
      ensures ThreadOk(ti)
      ensures forall e | e in exceptions && e.owner == ti :: FramesOk(e)
    {
      StepKeepsNesting(old(ti.frames), Event.EndCatch);
      assert old(ThreadOk(ti));
      EndCatchEffect(old(ti.frames), ex);
      forall e | e in exceptions
        ensures e.owner == ti <==> e in Members(ti.frames)
        ensures e.owner == ti ==> FramesOk(e)
      {
        EndedFrame(ti, ex, e);
      }
    }

    twostate lemma EndedFrame(ti: ThreadInfo, new ex: CxaException, new e: CxaException)
      requires ex in old(exceptions) && AfterEnd(ti, ex) && e in exceptions
      ensures e.owner == ti <==> e in Members(ti.frames)
      ensures e.owner == ti ==> FramesOk(e)
    {
      EndCatchEffect(old(ti.frames), e);
      MembersCounted(old(ti.frames), e);
      MembersCounted(ti.frames, e);
      assert old(ThreadOk(ti) && FramesOk(e));
    }

    twostate lemma EndedCounted(ti: ThreadInfo, new ex: CxaException)
      requires ex in old(exceptions) && AfterEnd(ti, ex)
      ensures forall e | e in exceptions :: ExceptionOk(e)
    {
      EndedOk(ti, ex);
      EndedRest(ti, ex);
      if ex.dependent {
        EndedPrimary(ti, ex);
      }
    }

    twostate lemma EndedOk(ti: ThreadInfo, new ex: CxaException)
      requires ex in old(exceptions) && AfterEnd(ti, ex)
      ensures ExceptionOk(ex)
    {
      assert old(ThreadOk(ti) && ExceptionOk(ex));
      EndingIsInnermost(old(ti.frames));
      HeadIsMember(old(ti.frames));
    }

    twostate lemma EndedRest(ti: ThreadInfo, new ex: CxaException)
      requires ex in old(exceptions) && AfterEnd(ti, ex)
      ensures forall e | e in exceptions && e !in WithPrimary(ex) :: ExceptionOk(e)
    {
      assert old(ExceptionOk(ex));
      OtherExceptionsKept(ti, WithPrimary(ex));
    }

    twostate lemma EndedPrimary(ti: ThreadInfo, new ex: CxaException)
      requires ex in old(exceptions) && AfterEnd(ti, ex) && ex.dependent
      ensures ExceptionOk(ex.primaryException)
    {
      assert old(ThreadOk(ti) && ExceptionOk(ex));
      EndingIsInnermost(old(ti.frames));
      HeadIsMember(old(ti.frames));
      assert old(ExceptionOk(ex.primaryException));
      UserRemoved(ex.primaryException, ex);
    }

    twostate lemma UserRemoved(p: CxaException, new ex: CxaException)
      requires old(ExceptionOk(p)) && !p.dependent && p.thrown && old(p.thrown)
      requires exceptions == old(exceptions) && ex in exceptions
      requires ex.dependent && ex.primaryException == p
      requires forall e | e in exceptions && e != ex && e != p :: unchanged(e)
      requires if ex.owner == null then
                 && ex in old(p.users) && p.users == old(p.users) - {ex}
                 && p.referenceCount == old(p.referenceCount) - 1
                 && p.freed == old(p.freed) + (if p.referenceCount == 0 then 1 else 0)
               else p.users == old(p.users) && p.referenceCount == old(p.referenceCount) && p.freed == old(p.freed)
      requires unchanged(p`owner) && unchanged(p`pointers) && unchanged(p`handlerCount)
      ensures ExceptionOk(p)
    {
      assert forall d | d in old(p.users) :: d != p;
    }

    method ReleaseException(ex: CxaException)
      requires ex.dependent ==> ex.primaryException != null && !ex.primaryException.dependent
      modifies WithPrimary(ex)`referenceCount, WithPrimary(ex)`freed
      ensures if ex.dependent then
                var p := ex.primaryException;
                && ex.freed == old(ex.freed) + 1 && ex.referenceCount == old(ex.referenceCount)
                && p.referenceCount == old(p.referenceCount) - 1
                && p.freed == old(p.freed) + (if p.referenceCount == 0 then 1 else 0)
              else
                && ex.referenceCount == old(ex.referenceCount) - 1
                && ex.freed == old(ex.freed) + (if ex.referenceCount == 0 then 1 else 0)
      decreases if ex.dependent then 1 else 0, 1
    {
      if ex.dependent {
        FreeDependentException(ex);
        return;
      }
      ex.referenceCount := ex.referenceCount - 1;
      if ex.referenceCount == 0 {
        FreeException(ex);
      }
    }

    /** `__cxa_free_dependent_exception` */
    method FreeDependentException(ex: CxaException)
      requires ex.dependent && ex.primaryException != null && !ex.primaryException.dependent
      modifies ex`freed, ex.primaryException`referenceCount, ex.primaryException`freed
      ensures ex.freed == old(ex.freed) + 1
      ensures ex.primaryException.referenceCount == old(ex.primaryException.referenceCount) - 1
      ensures ex.primaryException.freed == old(ex.primaryException.freed)
                                           + (if ex.primaryException.referenceCount == 0 then 1 else 0)
      decreases 1, 0
    {
      if ex.primaryException != null {
        ReleaseException(ex.primaryException);
      }
      ex.freed := ex.freed + 1;
    }

    /** `__cxa_free_exception`: runs the destructor and returns the memory. */
    method FreeException(ex: CxaException)
      modifies ex`freed
      ensures ex.freed == old(ex.freed) + 1
    {
      ex.freed := ex.freed + 1;
    }

    /** The exception object that exception_ptr handles share. */
    ghost function Primary(e: CxaException): CxaException {
      if e.dependent && e.primaryException != null then e.primaryException else e
    }

    /** `__cxa_current_primary_exception`: a new handle on what the innermost handler handles. */
    method CurrentPrimaryException(ti: ThreadInfo) returns (p: CxaException?)
      requires Valid() && ti in threads
      modifies exceptions
      ensures Valid()
      ensures p == null <==> Caught(ti.frames) == []
      ensures p != null ==> p == Primary(Caught(ti.frames)[0]) && p in exceptions && HandleAdded(p)
      ensures p == null ==> forall e | e in exceptions :: unchanged(e)
    {
      HeadOfCaught(ti.frames);
      HeadIsMember(ti.frames);
      assert ThreadOk(ti);
      var ex := ti.caughtExceptions;
      if ex == null {
        return null;
      }
      assert ExceptionOk(ex) && FramesOk(ex);
      p := if ex.dependent then ex.primaryException else ex;
      assert ExceptionOk(p);
      AddHandle(p);
    }

    /** Counts one more exception_ptr. */
    method AddHandle(p: CxaException)
      requires Valid() && p in exceptions && p.thrown && !p.dependent && p.freed == 0
      modifies p
      ensures Valid() && HandleAdded(p)
    {
      p.referenceCount := p.referenceCount + 1;
      p.pointers := p.pointers + 1;
      HandleKeepsValid(p);
    }

    /** One more exception_ptr to `p`, and nothing else. */
    twostate predicate HandleAdded(p: CxaException)
      reads exceptions, p, this
    {
      && exceptions == old(exceptions) && unchanged(p`freed)
      && p.pointers == old(p.pointers) + 1 && p.referenceCount == old(p.referenceCount) + 1
      && unchanged(p`owner) && unchanged(p`thrown) && unchanged(p`users) && unchanged(p`handlerCount)
      && unchanged(p`nextException) && forall e | e in exceptions && e != p :: unchanged(e)
    }

    /** One exception_ptr to `p` less; the exception is freed when nothing else needs it. */
    twostate predicate HandleDropped(p: CxaException)
      reads exceptions, p, this
    {
      && exceptions == old(exceptions)
      && p.pointers == old(p.pointers) - 1 && p.referenceCount == old(p.referenceCount) - 1
      && p.freed == old(p.freed) + (if p.referenceCount == 0 then 1 else 0)
      && unchanged(p`owner) && unchanged(p`thrown) && unchanged(p`users) && unchanged(p`handlerCount)
      && unchanged(p`nextException) && forall e | e in exceptions && e != p :: unchanged(e)
    }

    twostate lemma HandleKeepsValid(p: CxaException)
      requires old(Valid()) && threads == old(threads) && exceptions == old(exceptions)
      requires p in exceptions && p.thrown && !p.dependent && old(p.freed) == 0
      requires forall t | t in threads :: unchanged(t)
      requires HandleAdded(p) || HandleDropped(p)
      ensures Valid()
    {
      forall t | t in threads ensures ThreadOk(t) {
        assert old(ThreadOk(t));
      }
      forall e | e in exceptions ensures FramesOk(e) && ExceptionOk(e) {
        assert old(FramesOk(e) && ExceptionOk(e));
      }
    }

    /** `__cxa_increment_exception_refcount`: copies an exception_ptr. */
    method IncrementRefcount(p: CxaException?)
      requires Valid() && (p == null || (p in exceptions && p.pointers > 0))
      modifies p
      ensures Valid()
      ensures p != null ==> HandleAdded(p)
    {
      if p == null {
        return;
      }
      assert ExceptionOk(p);
      if p.dependent {
        return;
      }
      AddHandle(p);
    }

    /** `__cxa_decrement_exception_refcount`: destroys an exception_ptr. */
    method DecrementRefcount(p: CxaException?)
      requires Valid() && (p == null || (p in exceptions && p.pointers > 0))
      modifies p
      ensures Valid()
      ensures p != null ==> HandleDropped(p)
    {
      if p == null {
        return;
      }
      assert ExceptionOk(p);
      ReleaseException(p);
      p.pointers := p.pointers - 1;
      HandleKeepsValid(p);
    }

    /** `__cxa_rethrow_primary_exception`: throws a dependent exception that shares `p`. */
    method RethrowPrimary(ti: ThreadInfo, p: CxaException?) returns (ghost ex: CxaException?)
      requires Valid() && ti in threads && (p == null || (p in exceptions && p.pointers > 0))
      modifies this, ti, p
      ensures Valid() && threads == old(threads)
      ensures p == null ==> ex == null && exceptions == old(exceptions) && ti.frames == old(ti.frames)
      ensures p != null ==> fresh(ex) && exceptions == old(exceptions) + {ex}
      ensures p != null ==> ex.dependent && ex.primaryException == p
      ensures p != null ==> ti.frames == Flight(ex, old(ti.frames)) && OnlyUserAdded(p, ex) && ex.thrown
    {
      if p == null {
        return null;
      }
      var d := AllocateDependentException(p);
      ThrowAllocatedDependent(ti, d, p);
      ex := d;
    }

    method ThrowAllocatedDependent(ti: ThreadInfo, d: CxaException, p: CxaException)
      requires Valid() && ti in threads && d in exceptions && d.dependent && !d.thrown && d.primaryException == p
      requires p in exceptions && p.pointers > 0
      modifies ti, p, d
      ensures Valid() && ti.frames == Flight(d, old(ti.frames)) && OnlyUserAdded(p, d) && d.thrown
    {
      assert ExceptionOk(p) && ExceptionOk(d);
      ThrowDependent(ti, d, p);
      ThrowKeepsValid(ti, d);
    }

    /** Sharing the primary and starting to propagate, as in `__cxa_rethrow_primary_exception`. */
    method ThrowDependent(ti: ThreadInfo, d: CxaException, p: CxaException)
      requires d in exceptions && d.dependent && !d.thrown && d.primaryException == p
      requires p in exceptions && !p.dependent && p.thrown && p.pointers > 0
      modifies ti, p, d
      ensures ti.frames == Flight(d, old(ti.frames)) && ti.caughtExceptions == old(ti.caughtExceptions)
      ensures ti.uncaughtExceptions == old(ti.uncaughtExceptions) + 1
      ensures Thrown(ti, d)
    {
      p.referenceCount := p.referenceCount + 1;
      ti.uncaughtExceptions := ti.uncaughtExceptions + 1;
      d.thrown, d.owner, p.users, ti.frames := true, ti, p.users + {d}, Flight(d, ti.frames);
    }

    /** `try { throw x; } catch (...) {`, as far as the handler. */
    method ThrowAndCatch(ti: ThreadInfo) returns (ex: CxaException)
      requires Valid() && ti in threads
      modifies this, ti
      ensures Valid() && threads == old(threads) && fresh(ex) && exceptions == old(exceptions) + {ex}
      ensures ti.frames == Handler(ex, old(ti.frames)) && Handlers(old(ti.frames), ex) == 0
      ensures ex.thrown && !ex.dependent && ex.pointers == 0 && ex.users == {} && !InFlight(old(ti.frames), ex)
    {
      ex := AllocateException();
      assert ExceptionOk(ex);
      MembersCounted(ti.frames, ex);
      Throw(ti, ex);
      BeginCatch(ti, ex);
    }

    /** `p = current_exception(); }`: the end of a handler whose exception nothing else needs. */
    method KeepAndLeave(ti: ThreadInfo, ghost ex: CxaException) returns (p: CxaException?)
      requires Valid() && ti in threads && ex in exceptions && ti.frames.Handler? && ti.frames.ex == ex
      requires ex.thrown && !ex.dependent && ex.pointers == 0 && ex.users == {}
      requires Handlers(ti.frames.outer, ex) == 0 && !InFlight(ti.frames.outer, ex)
      modifies ti, exceptions
      ensures Valid() && threads == old(threads) && exceptions == old(exceptions)
      ensures p == ex && ti.frames == old(ti.frames.outer)
      ensures ex.thrown && ex.owner == null && ex.pointers == 1 && ex.users == {} && ex.freed == 0
    {
      HeadOfCaught(ti.frames);
      p := CurrentPrimaryException(ti);
      EndCatch(ti);
      assert ExceptionOk(ex);
    }

    /** `try { throw x; } catch (...) { p = current_exception(); }  p = nullptr;` inside any nesting of other
        handlers: the exception outlives its handler, and is freed with its last exception_ptr. */
    method CatchAndKeep(ti: ThreadInfo) returns (ex: CxaException)
      requires Valid() && ti in threads
      modifies this, ti, exceptions
      ensures Valid() && fresh(ex) && ex in exceptions && ti.frames == old(ti.frames)
      ensures ex.thrown && ex.freed == 1
    {
      ex := ThrowAndCatch(ti);
      var p := KeepAndLeave(ti, ex);
      DecrementRefcount(p);
      assert ExceptionOk(ex);
    }

    /** The runtime's list is exactly the handled exceptions: the thread points to the first, each to
        the next, the last to nothing. */
    lemma ListIsCaught(t: ThreadInfo, i: nat)
      requires Valid() && t in threads
      ensures t.caughtExceptions == if Caught(t.frames) == [] then null else Caught(t.frames)[0]
      ensures i < |Caught(t.frames)| ==>
        Caught(t.frames)[i].nextException == if i + 1 < |Caught(t.frames)| then Caught(t.frames)[i + 1] else null
    {
      assert ThreadOk(t);
      HeadOfCaught(t.frames);
      if i < |Caught(t.frames)| {
        CaughtFollowsBelow(t.frames, i);
        MembersCounted(t.frames, Caught(t.frames)[i]);
        assert FramesOk(Caught(t.frames)[i]);
      }
    }

    /** The counters of the runtime are exact: the handlers of an exception, negated exactly while a handled one
        propagates again; the propagations of a thread; everything that needs an exception. */
    lemma CountersAreExact(t: ThreadInfo, e: CxaException)
      requires Valid() && t in threads && e in exceptions && e in Members(t.frames)
      ensures var n: int := Handlers(t.frames, e); e.handlerCount == if InFlight(t.frames, e) then -n else n
      ensures e.handlerCount < 0 <==> InFlight(t.frames, e) && e in Caught(t.frames)
      ensures t.uncaughtExceptions == Flights(t.frames)
      ensures e.thrown && !e.dependent ==> e.referenceCount == 1 + e.pointers + |e.users|
    {
      assert ThreadOk(t) && FramesOk(e) && ExceptionOk(e);
      MembersCounted(t.frames, e);
    }

    /** An exception is never freed while a frame, an exception_ptr or a dependent exception needs it,
        and never freed twice; once nothing needs it, it has been freed. */
    lemma FreedExactlyWhenUnneeded(e: CxaException)
      requires Valid() && e in exceptions && e.thrown
      ensures e.freed <= 1
      ensures e.freed == 1 <==> e.owner == null && e.pointers == 0 && e.users == {}
      ensures e.owner != null <==> exists t :: t in threads && e in Members(t.frames)
    {
      assert ExceptionOk(e) && FramesOk(e);
      forall t | t in threads ensures e.owner == t <==> e in Members(t.frames) {
        assert ThreadOk(t);
      }
    }

    /** When every thread has left its handlers and no exception_ptr remains, nothing has leaked. */
    lemma QuiescentMeansAllFreed(e: CxaException)
      requires Valid() && (forall t | t in threads :: t.frames == Empty)
      requires forall x | x in exceptions :: x.pointers == 0
      requires e in exceptions && e.thrown
      ensures e.freed == 1
    {
      forall x | x in exceptions ensures x.owner == null {
        assert FramesOk(x);
        forall t | t in threads ensures x.owner != t {
          assert ThreadOk(t);
        }
      }
      assert ExceptionOk(e);
      FreedExactlyWhenUnneeded(e);
    }
  }

  datatype RethrowOutcome = NothingCaught | AlreadyRethrown | Propagates
}
