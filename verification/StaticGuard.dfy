/** Guards of function-local statics (Itanium C++ ABI, section 3.3.2): any number of threads run
    `__cxa_guard_acquire`, `__cxa_guard_release` and `__cxa_guard_abort` on one guard.  Every access to
    the guard words is one step; what a thread does between two accesses is local. */
module StaticGuard {

  /** Where the lock and the init bit live: in one word or in two. */
  datatype Layout = Layout(split: bool, locked: nat, initialised: nat)

  const INITIAL := 0

  /** The configurations the source compiles to. */
  const ARM := Layout(false, 0x8000_0000, 1)
  const LP64_LITTLE := Layout(false, 0x8000_0000_0000_0000, 1)
  const LP64_BIG := Layout(false, 1, 0x100_0000_0000_0000)
  const ILP32_LITTLE := Layout(true, 0x8000_0000, 1)
  const ILP32_BIG := Layout(true, 1, 0x100_0000)

  /** All the protocol needs of the constants. */
  predicate Sound(l: Layout) {
    l.locked != INITIAL && l.initialised != INITIAL && (!l.split ==> l.locked != l.initialised)
  }

  lemma ConfigurationsAreSound()
    ensures forall l :: l in {ARM, LP64_LITTLE, LP64_BIG, ILP32_LITTLE, ILP32_BIG} ==> Sound(l)
  {
  }

  type Thread = nat

  /** The next access of a thread.  Idle and Initialising threads are outside the library. */
  datatype Pc =
    | Idle
    | FastCheck      // acquire: read the init part
    | TryLock        // acquire: compare-and-swap on the lock part
    | CheckInit      // acquire, two words, lock obtained: read the init part
    | Undo           // acquire, two words: give the lock back
    | Waiting        // acquire, two words, lock taken: read the init part
    | Initialising   // acquire returned 1
    | ReleaseSwap    // release: compare-and-swap on the init part
    | Unlock         // release, two words: clear the lock part
    | AbortSwap      // abort: compare-and-swap on the lock part
    | Crashed        // an assertion failed

  /** `lock` is the only word of a single-word guard. */
  datatype State = State(init: nat, lock: nat, pcs: map<Thread, Pc>)

  /** What a thread outside the library chooses to do. */
  datatype Choice = Release | Abort

  /** What a step shows to the program. */
  datatype Label = Silent | Returns1 | Returns0 | Releases | Aborts | AssertFails

  function InitPart(l: Layout, s: State): nat {
    if l.split then s.init else s.lock
  }

  function Goto(s: State, t: Thread, pc: Pc): State {
    s.(pcs := s.pcs[t := pc])
  }

  /** The next step of thread `t`. */
  function Step(l: Layout, s: State, t: Thread, c: Choice): (State, Label)
    requires t in s.pcs
  {
    match s.pcs[t]
    case Idle => (Goto(s, t, FastCheck), Silent)
    case FastCheck =>
      if InitPart(l, s) == l.initialised then (Goto(s, t, Idle), Returns0) else (Goto(s, t, TryLock), Silent)
    case TryLock =>
      if s.lock == INITIAL then
        var s' := s.(lock := l.locked);
        if l.split then (Goto(s', t, CheckInit), Silent) else (Goto(s', t, Initialising), Returns1)
      else if !l.split && s.lock == l.initialised then (Goto(s, t, Idle), Returns0)
      else if s.lock != l.locked then (Goto(s, t, Crashed), AssertFails)
      else (Goto(s, t, if l.split then Waiting else TryLock), Silent)
    case CheckInit =>
      if s.init != l.initialised then (Goto(s, t, Initialising), Returns1) else (Goto(s, t, Undo), Silent)
    case Undo => (Goto(s.(lock := INITIAL), t, Idle), Returns0)
    case Waiting =>
      if s.init == l.initialised then (Goto(s, t, Idle), Returns0) else (Goto(s, t, TryLock), Silent)
    case Initialising => (Goto(s, t, if c == Release then ReleaseSwap else AbortSwap), Silent)
    case ReleaseSwap =>
      if InitPart(l, s) != (if l.split then INITIAL else l.locked) then (Goto(s, t, Crashed), AssertFails)
      else if l.split then (Goto(s.(init := l.initialised), t, Unlock), Releases)
      else (Goto(s.(lock := l.initialised), t, Idle), Releases)
    case Unlock => (Goto(s.(lock := INITIAL), t, Idle), Silent)
    case AbortSwap =>
      if s.lock != l.locked then (Goto(s, t, Crashed), AssertFails)
      else (Goto(s.(lock := INITIAL), t, Idle), Aborts)
    case Crashed => (s, Silent)
  }

  predicate Start(s: State) {
    s.init == INITIAL && s.lock == INITIAL && forall t | t in s.pcs :: s.pcs[t] == Idle
  }

  /** The thread holds the lock part. */
  predicate Holds(pc: Pc) {
    pc in {CheckInit, Undo, Initialising, ReleaseSwap, Unlock, AbortSwap}
  }

  /** The thread is between an acquire that returned 1 and the end of its release or abort. */
  predicate Owns(pc: Pc) {
    pc in {Initialising, ReleaseSwap, AbortSwap}
  }

  predicate Allowed(l: Layout, s: State, pc: Pc) {
    match pc
    case CheckInit => l.split
    case Undo => l.split && s.init == l.initialised
    case Unlock => l.split && s.init == l.initialised
    case Waiting => l.split
    case Crashed => false
    case _ => Owns(pc) ==> InitPart(l, s) != l.initialised
  }

  predicate Inv(l: Layout, s: State) {
    && (l.split ==> s.init in {INITIAL, l.initialised} && s.lock in {INITIAL, l.locked})
    && (!l.split ==> s.lock in {INITIAL, l.locked, l.initialised})
    && (forall t | t in s.pcs :: Allowed(l, s, s.pcs[t]))
    && (forall t | t in s.pcs :: Holds(s.pcs[t]) ==> s.lock == l.locked)
    && (forall t, u | t in s.pcs && u in s.pcs :: Holds(s.pcs[t]) && Holds(s.pcs[u]) ==> t == u)
  }

  lemma StartInv(l: Layout, s: State)
    requires Sound(l) && Start(s)
    ensures Inv(l, s)
  {
  }

  lemma {:induction false} StepKeepsInv(l: Layout, s: State, t: Thread, c: Choice)
    requires Sound(l) && Inv(l, s) && t in s.pcs
    ensures Inv(l, Step(l, s, t, c).0) && Step(l, s, t, c).0.pcs.Keys == s.pcs.Keys
    ensures Step(l, s, t, c).1 != AssertFails
  {
    var s' := Step(l, s, t, c).0;
    MoverKept(l, s, t, c);
    forall u | u in s'.pcs && u != t
      ensures Allowed(l, s', s'.pcs[u])
      ensures Holds(s'.pcs[u]) ==> s'.lock == l.locked && !Holds(s'.pcs[t])
    {
      OtherKept(l, s, t, c, u);
    }
  }

  lemma MoverKept(l: Layout, s: State, t: Thread, c: Choice)
    requires Sound(l) && Inv(l, s) && t in s.pcs
    ensures var (s', e) := Step(l, s, t, c);
            && e != AssertFails && Allowed(l, s', s'.pcs[t])
            && (Holds(s'.pcs[t]) ==> s'.lock == l.locked)
            && (l.split ==> s'.init in {INITIAL, l.initialised} && s'.lock in {INITIAL, l.locked})
            && (!l.split ==> s'.lock in {INITIAL, l.locked, l.initialised})
  {
    assert Allowed(l, s, s.pcs[t]) && (Holds(s.pcs[t]) ==> s.lock == l.locked);
  }

  lemma OtherKept(l: Layout, s: State, t: Thread, c: Choice, u: Thread)
    requires Sound(l) && Inv(l, s) && t in s.pcs && u in s.pcs && u != t
    ensures var s' := Step(l, s, t, c).0;
            && Allowed(l, s', s'.pcs[u])
            && (Holds(s'.pcs[u]) ==> s'.lock == l.locked && !Holds(s'.pcs[t]))
  {
    assert Allowed(l, s, s.pcs[t]) && Allowed(l, s, s.pcs[u]);
    assert !(Holds(s.pcs[t]) && Holds(s.pcs[u]));
  }

  /** What a thread is doing, as the program sees it. */
  datatype Stage = Outside | InAcquire | InInitialiser | InRelease(initSet: bool) | InAbort | Failed

  function StageOf(pc: Pc): Stage {
    match pc
    case Idle => Outside
    case Initialising => InInitialiser
    case ReleaseSwap => InRelease(false)
    case Unlock => InRelease(true)
    case AbortSwap => InAbort
    case Crashed => Failed
    case _ => InAcquire
  }

  /** Every call returns where it should: acquire with an answer, to the program or to the initialiser, which ends
      with the call it chooses; nothing is shown in between, and no step moves another thread. */
  lemma CallsReturn(l: Layout, s: State, t: Thread, c: Choice)
    requires Sound(l) && Inv(l, s) && t in s.pcs
    ensures var (s', e) := Step(l, s, t, c);
      && s'.pcs.Keys == s.pcs.Keys && (forall u | u in s.pcs && u != t :: s'.pcs[u] == s.pcs[u])
      && var next := StageOf(s'.pcs[t]);
         match StageOf(s.pcs[t])
         case Outside => e == Silent && next == InAcquire
         case InAcquire =>
           || (e == Silent && next == InAcquire) || (e == Returns0 && next == Outside)
           || (e == Returns1 && next == InInitialiser)
         case InInitialiser => e == Silent && next == if c == Release then InRelease(false) else InAbort
         case InRelease(initSet) =>
           if initSet then e == Silent && next == Outside
           else e == Releases && next == if l.split then InRelease(true) else Outside
         case InAbort => e == Aborts && next == Outside
         case Failed => false
  {
    assert Allowed(l, s, s.pcs[t]) && (Holds(s.pcs[t]) ==> s.lock == l.locked);
  }

  // ----- The specification: a guard with three states

  datatype Abstract = Uninitialised | InProgress(owner: Thread) | Done

  /** The program may see `e` of thread `t` when the guard is `a`. */
  predicate Permitted(a: Abstract, t: Thread, e: Label) {
    match e
    case Silent => true
    case Returns1 => a == Uninitialised
    case Returns0 => a == Done
    case Releases => a == InProgress(t)
    case Aborts => a == InProgress(t)
    case AssertFails => false
  }

  function After(a: Abstract, t: Thread, e: Label): Abstract {
    match e
    case Returns1 => InProgress(t)
    case Releases => Done
    case Aborts => Uninitialised
    case _ => a
  }

  ghost predicate HasOwner(s: State, o: Thread) {
    o in s.pcs && Owns(s.pcs[o])
  }

  /** The guard that a state of either layout stands for. */
  ghost function Abstraction(l: Layout, s: State): Abstract {
    if InitPart(l, s) == l.initialised then Done
    else if exists o :: HasOwner(s, o) then
      var o :| HasOwner(s, o);
      InProgress(o)
    else Uninitialised
  }

  lemma AbstractionOwned(l: Layout, s: State, o: Thread)
    requires Inv(l, s) && HasOwner(s, o)
    ensures Abstraction(l, s) == InProgress(o)
  {
  }

  lemma AbstractionUnowned(l: Layout, s: State)
    requires InitPart(l, s) != l.initialised && forall o | o in s.pcs :: !Owns(s.pcs[o])
    ensures Abstraction(l, s) == Uninitialised
  {
  }

  /** The byte at the lowest address of a word of `size` bytes. */
  function FirstByte(bigEndian: bool, size: nat, w: nat): nat {
    if !bigEndian then w % 256
    else if size == 4 then w / 0x100_0000 % 256
    else w / 0x100_0000_0000_0000 % 256
  }

  /** The five configurations, with their byte order and the size of the word that holds the init bit. */
  predicate Configured(l: Layout, bigEndian: bool, size: nat) {
    || (l == ARM && !bigEndian && size == 4)
    || (l == LP64_LITTLE && !bigEndian && size == 8)
    || (l == LP64_BIG && bigEndian && size == 8)
    || (l == ILP32_LITTLE && !bigEndian && size == 4)
    || (l == ILP32_BIG && bigEndian && size == 4)
  }

  /** What compiled code tests before it calls acquire (section 3.3.2 of the Itanium C++ ABI): the first byte of the
      guard is not zero exactly once the initialisation is complete, whoever holds the lock. */
  lemma FirstByteTellsDone(l: Layout, bigEndian: bool, size: nat, s: State)
    requires Configured(l, bigEndian, size) && Inv(l, s)
    ensures FirstByte(bigEndian, size, InitPart(l, s)) != 0 <==> Abstraction(l, s) == Done
  {
    if InitPart(l, s) != l.initialised {
      assert Abstraction(l, s) != Done;
    }
  }

  /** Every step of every thread, in both layouts, is a step of the specification. */
  lemma StepRefines(l: Layout, s: State, t: Thread, c: Choice)
    requires Sound(l) && Inv(l, s) && t in s.pcs
    ensures var (s', e) := Step(l, s, t, c);
            Permitted(Abstraction(l, s), t, e) && Abstraction(l, s') == After(Abstraction(l, s), t, e)
  {
    var (s', e) := Step(l, s, t, c);
    StepKeepsInv(l, s, t, c);
    if o :| HasOwner(s, o) {
      AbstractionOwned(l, s, o);
      if HasOwner(s', o) {
        AbstractionOwned(l, s', o);
      } else {
        assert o == t;
        OnlyOwnerLeaves(l, s, t, c);
      }
    } else {
      forall o | o in s.pcs ensures !Owns(s.pcs[o]) && (o != t ==> s'.pcs[o] == s.pcs[o]) {
        assert !HasOwner(s, o);
      }
      NobodyOwned(l, s, t, c);
    }
  }

  lemma NobodyOwned(l: Layout, s: State, t: Thread, c: Choice)
    requires Sound(l) && Inv(l, s) && t in s.pcs && (forall o | o in s.pcs :: !Owns(s.pcs[o]))
    requires Inv(l, Step(l, s, t, c).0)
    ensures var (s', e) := Step(l, s, t, c);
            Permitted(Abstraction(l, s), t, e) && Abstraction(l, s') == After(Abstraction(l, s), t, e)
  {
    var (s', e) := Step(l, s, t, c);
    if InitPart(l, s) != l.initialised {
      AbstractionUnowned(l, s);
    }
    if HasOwner(s', t) {
      AbstractionOwned(l, s', t);
    } else if InitPart(l, s') != l.initialised {
      forall o | o in s'.pcs ensures !Owns(s'.pcs[o]) {
        assert o != t ==> s'.pcs[o] == s.pcs[o];
      }
      AbstractionUnowned(l, s');
    }
  }

  lemma OnlyOwnerLeaves(l: Layout, s: State, t: Thread, c: Choice)
    requires Sound(l) && Inv(l, s) && HasOwner(s, t) && !HasOwner(Step(l, s, t, c).0, t)
    ensures Step(l, s, t, c).1 in {Releases, Aborts}
    ensures Abstraction(l, Step(l, s, t, c).0) == After(InProgress(t), t, Step(l, s, t, c).1)
  {
    var s' := Step(l, s, t, c).0;
    forall o | o in s'.pcs ensures !Owns(s'.pcs[o]) {
      assert o != t ==> s'.pcs[o] == s.pcs[o];
    }
  }

  // ----- Whole runs

  datatype Move = Move(thread: Thread, choice: Choice)
  datatype Event = Event(thread: Thread, what: Label)

  predicate Schedule(s: State, moves: seq<Move>) {
    forall m | m in moves :: m.thread in s.pcs
  }

  /** The final state and everything that was visible, for any interleaving. */
  function Run(l: Layout, s: State, moves: seq<Move>): (r: (State, seq<Event>))
    requires Schedule(s, moves)
    ensures |r.1| == |moves|
    decreases |moves|
  {
    if moves == [] then (s, [])
    else
      var (s', e) := Step(l, s, moves[0].thread, moves[0].choice);
      var (last, events) := Run(l, s', moves[1..]);
      (last, [Event(moves[0].thread, e)] + events)
  }

  predicate Accepted(a: Abstract, events: seq<Event>)
    decreases |events|
  {
    events == [] ||
    (&& Permitted(a, events[0].thread, events[0].what)
     && Accepted(After(a, events[0].thread, events[0].what), events[1..]))
  }

  /** Under every interleaving both layouts show only what the three-state guard allows, and no
      assertion fails. */
  lemma {:induction false} RunsRefine(l: Layout, s: State, moves: seq<Move>)
    requires Sound(l) && Inv(l, s) && Schedule(s, moves)
    ensures Inv(l, Run(l, s, moves).0)
    ensures Accepted(Abstraction(l, s), Run(l, s, moves).1)
    decreases |moves|
  {
    if moves != [] {
      var (s', e) := Step(l, s, moves[0].thread, moves[0].choice);
      StepKeepsInv(l, s, moves[0].thread, moves[0].choice);
      StepRefines(l, s, moves[0].thread, moves[0].choice);
      RunsRefine(l, s', moves[1..]);
      assert Run(l, s, moves).1[1..] == Run(l, s', moves[1..]).1;
    }
  }

  // ----- What acceptance means for the program

  /** Once initialisation is complete nobody is asked to initialise again. */
  lemma {:induction false} DoneIsFinal(events: seq<Event>, j: nat)
    requires Accepted(Done, events) && j < |events|
    ensures events[j].what in {Silent, Returns0}
    decreases |events|
  {
    if j > 0 {
      DoneIsFinal(events[1..], j - 1);
    }
  }

  /** While `t` initialises, the next visible end is its own release or abort. */
  lemma {:induction false} OwnerEndsFirst(t: Thread, events: seq<Event>, j: nat) returns (i: nat)
    requires Accepted(InProgress(t), events) && j < |events| && events[j].what in {Returns1, Returns0}
    ensures i < j && events[i] in {Event(t, Releases), Event(t, Aborts)}
    ensures events[j].what == Returns1 ==> exists k :: 0 <= k < j && events[k] == Event(t, Aborts)
    decreases |events|
  {
    if events[0].what == Releases {
      DoneIsFinal(events[1..], j - 1);
      i := 0;
    } else if events[0].what == Aborts {
      assert events[0] == Event(t, Aborts);
      i := 0;
    } else {
      var k := OwnerEndsFirst(t, events[1..], j - 1);
      assert events[1..][k] == events[k + 1];
      assert forall m :: 0 <= m < |events[1..]| ==> events[1..][m] == events[m + 1];
      i := k + 1;
    }
  }

  /** Mutual exclusion: between two threads being asked to initialise, the first one gave up. */
  lemma {:induction false} AtMostOneInitialises(a: Abstract, events: seq<Event>, i: nat, j: nat)
    requires Accepted(a, events) && i < j < |events|
    requires events[i].what == Returns1 && events[j].what == Returns1
    ensures exists k :: i < k < j && events[k] == Event(events[i].thread, Aborts)
    decreases i
  {
    if i > 0 {
      AtMostOneInitialises(After(a, events[0].thread, events[0].what), events[1..], i - 1, j - 1);
      assert forall m :: 0 <= m < |events[1..]| ==> events[1..][m] == events[m + 1];
    } else {
      var k := OwnerEndsFirst(events[0].thread, events[1..], j - 1);
      assert forall m :: 0 <= m < |events[1..]| ==> events[1..][m] == events[m + 1];
    }
  }

  /** Acquire returns 0 only after some release. */
  lemma {:induction false} ZeroMeansDone(a: Abstract, events: seq<Event>, j: nat)
    requires Accepted(a, events) && a != Done && j < |events| && events[j].what == Returns0
    ensures exists i :: 0 <= i < j && events[i].what == Releases
    decreases |events|
  {
    if events[0].what != Releases {
      ZeroMeansDone(After(a, events[0].thread, events[0].what), events[1..], j - 1);
      assert forall m :: 0 <= m < |events[1..]| ==> events[1..][m] == events[m + 1];
    }
  }

  /** The three claims for runs of the implementation from its start. */
  lemma GuardIsCorrect(l: Layout, s: State, moves: seq<Move>, i: nat, j: nat)
    requires Sound(l) && Start(s) && Schedule(s, moves) && i < j < |moves|
    ensures var es := Run(l, s, moves).1;
            && es[j].what != AssertFails
            && (es[i].what == Returns1 && es[j].what == Returns1 ==>
                  exists k :: i < k < j && es[k] == Event(es[i].thread, Aborts))
            && (es[j].what == Returns0 ==> exists k :: 0 <= k < j && es[k].what == Releases)
            && (es[i].what == Releases ==> es[j].what in {Silent, Returns0})
  {
    StartInv(l, s);
    RunsRefine(l, s, moves);
    AbstractionUnowned(l, s);
    var es := Run(l, s, moves).1;
    AllPermitted(Uninitialised, es, j);
    if es[i].what == Returns1 && es[j].what == Returns1 {
      AtMostOneInitialises(Uninitialised, es, i, j);
    }
    if es[j].what == Returns0 {
      ZeroMeansDone(Uninitialised, es, j);
    }
    if es[i].what == Releases {
      ReleaseIsFinal(Uninitialised, es, i, j);
    }
  }

  lemma {:induction false} AllPermitted(a: Abstract, events: seq<Event>, j: nat)
    requires Accepted(a, events) && j < |events|
    ensures events[j].what != AssertFails
    decreases |events|
  {
    if j > 0 {
      AllPermitted(After(a, events[0].thread, events[0].what), events[1..], j - 1);
    }
  }

  lemma {:induction false} ReleaseIsFinal(a: Abstract, events: seq<Event>, i: nat, j: nat)
    requires Accepted(a, events) && i < j < |events| && events[i].what == Releases
    ensures events[j].what in {Silent, Returns0}
    decreases |events|
  {
    if i > 0 {
      ReleaseIsFinal(After(a, events[0].thread, events[0].what), events[1..], i - 1, j - 1);
    } else {
      DoneIsFinal(events[1..], j - 1);
    }
  }

  // ----- Every acquire ends once nobody else holds the guard

  /** The lock part is locked only while some thread holds it. */
  ghost predicate LockIsHeld(l: Layout, s: State) {
    s.lock == l.locked ==> exists t :: t in s.pcs && Holds(s.pcs[t])
  }

  lemma StepKeepsLockHeld(l: Layout, s: State, t: Thread, c: Choice)
    requires Sound(l) && Inv(l, s) && LockIsHeld(l, s) && t in s.pcs
    ensures LockIsHeld(l, Step(l, s, t, c).0)
  {
    var s' := Step(l, s, t, c).0;
    assert Allowed(l, s, s.pcs[t]);
    if s'.lock == l.locked {
      if s.lock == l.locked {
        var h :| h in s.pcs && Holds(s.pcs[h]);
        assert h in s'.pcs && Holds(s'.pcs[h]);
      } else {
        assert t in s'.pcs && Holds(s'.pcs[t]);
      }
    }
  }

  lemma {:induction false} RunKeepsLockHeld(l: Layout, s: State, moves: seq<Move>)
    requires Sound(l) && Inv(l, s) && LockIsHeld(l, s) && Schedule(s, moves)
    ensures Inv(l, Run(l, s, moves).0) && LockIsHeld(l, Run(l, s, moves).0)
    decreases |moves|
  {
    if moves != [] {
      StepKeepsInv(l, s, moves[0].thread, moves[0].choice);
      StepKeepsLockHeld(l, s, moves[0].thread, moves[0].choice);
      RunKeepsLockHeld(l, Step(l, s, moves[0].thread, moves[0].choice).0, moves[1..]);
    }
  }

  /** A thread outside the library or inside an acquire, while no other thread holds the guard. */
  ghost predicate Unhindered(s: State, t: Thread) {
    && t in s.pcs && s.pcs[t] in {Idle, FastCheck, TryLock, CheckInit, Undo, Waiting}
    && forall u | u in s.pcs && u != t :: !Holds(s.pcs[u])
  }

  /** How many more steps of its own an unhindered thread needs to return from acquire. */
  function Remaining(l: Layout, s: State, pc: Pc): nat {
    var done := InitPart(l, s) == l.initialised;
    match pc
    case Idle => if done then 2 else if l.split then 4 else 3
    case FastCheck => if done then 1 else if l.split then 3 else 2
    case TryLock => if !l.split then 1 else if !done then 2 else if s.lock == INITIAL then 3 else 2
    case CheckInit => if done then 2 else 1
    case Waiting => if done then 1 else 3
    case _ => 1
  }

  function Alone(t: Thread, c: Choice, n: nat): seq<Move> {
    if n == 0 then [] else [Move(t, c)] + Alone(t, c, n - 1)
  }

  function Answer(l: Layout, s: State): Label {
    if InitPart(l, s) == l.initialised then Returns0 else Returns1
  }

  /** Each step is the last one, with the answer, or silent and one step less remains. */
  lemma AcquireStep(l: Layout, s: State, t: Thread, c: Choice)
    requires Sound(l) && Inv(l, s) && LockIsHeld(l, s) && Unhindered(s, t)
    ensures var (s', e) := Step(l, s, t, c);
      && s'.pcs.Keys == s.pcs.Keys && (forall u | u in s.pcs && u != t :: s'.pcs[u] == s.pcs[u])
      && if Remaining(l, s, s.pcs[t]) == 1 then e == Answer(l, s)
         else
           && e == Silent && s'.pcs[t] in {FastCheck, TryLock, CheckInit, Undo, Waiting}
           && Remaining(l, s', s'.pcs[t]) == Remaining(l, s, s.pcs[t]) - 1 && Answer(l, s') == Answer(l, s)
  {
    assert Allowed(l, s, s.pcs[t]);
  }

  /** After these steps the thread has returned: 0 if the guard is initialised, otherwise 1. */
  lemma {:induction false} AcquireEnds(l: Layout, s: State, t: Thread, c: Choice, n: nat)
    requires Sound(l) && Inv(l, s) && LockIsHeld(l, s) && Unhindered(s, t) && n == Remaining(l, s, s.pcs[t])
    ensures Answers(l, s, t, c, n, Answer(l, s))
    decreases n
  {
    var s' := Step(l, s, t, c).0;
    AcquireStep(l, s, t, c);
    if n > 1 {
      StepKeepsInv(l, s, t, c);
      StepKeepsLockHeld(l, s, t, c);
      AcquireEnds(l, s', t, c, n - 1);
      OneStepMore(l, s, t, c, n, Answer(l, s));
    } else {
      assert Alone(t, c, n) == [Move(t, c)];
    }
  }

  /** When `t` steps `n` times and nobody else does, it shows nothing but the answer, at last. */
  predicate Answers(l: Layout, s: State, t: Thread, c: Choice, n: nat, answer: Label) {
    && n > 0 && |Alone(t, c, n)| == n && Schedule(s, Alone(t, c, n))
    && var es := Run(l, s, Alone(t, c, n)).1;
       es[n - 1] == Event(t, answer) && forall i | 0 <= i < n - 1 :: es[i] == Event(t, Silent)
  }

  lemma OneStepMore(l: Layout, s: State, t: Thread, c: Choice, n: nat, answer: Label)
    requires n > 1 && t in s.pcs && Step(l, s, t, c).1 == Silent
    requires Step(l, s, t, c).0.pcs.Keys == s.pcs.Keys && Answers(l, Step(l, s, t, c).0, t, c, n - 1, answer)
    ensures Answers(l, s, t, c, n, answer)
  {
    assert Alone(t, c, n)[1..] == Alone(t, c, n - 1);
  }

  /** The guard is initialised exactly if some thread released it. */
  lemma {:induction false} InitialisedByRelease(l: Layout, s: State, moves: seq<Move>)
    requires Sound(l) && Inv(l, s) && Schedule(s, moves)
    ensures var (last, es) := Run(l, s, moves);
      InitPart(l, last) == l.initialised <==>
      InitPart(l, s) == l.initialised || exists e :: e in es && e.what == Releases
    decreases |moves|
  {
    if moves != [] {
      var (s', e) := Step(l, s, moves[0].thread, moves[0].choice);
      assert Allowed(l, s, s.pcs[moves[0].thread]);
      assert InitPart(l, s') == l.initialised <==> InitPart(l, s) == l.initialised || e == Releases;
      StepKeepsInv(l, s, moves[0].thread, moves[0].choice);
      InitialisedByRelease(l, s', moves[1..]);
      var es, rest := Run(l, s, moves).1, Run(l, s', moves[1..]).1;
      assert es == [Event(moves[0].thread, e)] + rest;
      if e == Releases {
        assert es[0] in es;
      }
      assert forall x :: x in rest ==> x in es;
    }
  }

  /** In every state that a program can reach: a thread that calls acquire, or is in it, and steps while no other
      holds the guard gets its answer, which is 1 unless some thread has completed the initialisation. */
  lemma FreeGuardIsObtained(l: Layout, s: State, moves: seq<Move>, t: Thread, c: Choice)
    requires Sound(l) && Start(s) && Schedule(s, moves) && Unhindered(Run(l, s, moves).0, t)
    ensures var (now, before) := Run(l, s, moves);
      var answer := if exists b :: b in before && b.what == Releases then Returns0 else Returns1;
      exists n | 0 < n <= 4 :: Answers(l, now, t, c, n, answer)
  {
    var now := Run(l, s, moves).0;
    StartInv(l, s);
    RunKeepsLockHeld(l, s, moves);
    InitialisedByRelease(l, s, moves);
    AcquireEnds(l, now, t, c, Remaining(l, now, now.pcs[t]));
  }

  /** In particular after an abort: then nobody holds the guard, and whoever asks next is told to initialise. */
  lemma AbortedGuardIsObtained(l: Layout, s: State, moves: seq<Move>, u: Thread, t: Thread, c: Choice)
    requires Sound(l) && Start(s) && Schedule(s, moves) && t in s.pcs
    requires u in Run(l, s, moves).0.pcs && Run(l, s, moves).0.pcs[u] == AbortSwap
    ensures var (aborted, e) := Step(l, Run(l, s, moves).0, u, c);
      && e == Aborts && t in aborted.pcs && !Holds(aborted.pcs[t])
      && exists n | 0 < n <= 4 :: Answers(l, aborted, t, c, n, Returns1)
  {
    var now := Run(l, s, moves).0;
    var aborted := Step(l, now, u, c).0;
    StartInv(l, s);
    RunKeepsLockHeld(l, s, moves);
    KeysKept(l, s, moves);
    StepKeepsInv(l, now, u, c);
    StepKeepsLockHeld(l, now, u, c);
    assert Allowed(l, now, now.pcs[u]) && Allowed(l, aborted, aborted.pcs[t]);
    assert forall v | v in aborted.pcs :: v != u ==> !Holds(now.pcs[v]);
    AcquireEnds(l, aborted, t, c, Remaining(l, aborted, aborted.pcs[t]));
  }

  lemma {:induction false} KeysKept(l: Layout, s: State, moves: seq<Move>)
    requires Sound(l) && Inv(l, s) && Schedule(s, moves)
    ensures Run(l, s, moves).0.pcs.Keys == s.pcs.Keys
    decreases |moves|
  {
    if moves != [] {
      StepKeepsInv(l, s, moves[0].thread, moves[0].choice);
      KeysKept(l, Step(l, s, moves[0].thread, moves[0].choice).0, moves[1..]);
    }
  }
}
