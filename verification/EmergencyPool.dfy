/** The emergency buffers of the exception allocator: sixteen buffers under a mutex and a condition
    variable, used by any number of threads.  Every step is one access to shared state; the scan of the
    flags happens under the lock and is one step. */
module EmergencyPool {
  import opened Common

  const BUFFERS := 16
  const BUFFER_SIZE := 1024
  const PER_THREAD := 4

  type Thread = nat
  type Buffer = b: nat | b < BUFFERS
  type Bytes = seq<nat>

  /** Who is responsible for a buffer.  `taker` is always the thread that allocated it; a buffer travels
      with its exception, so another thread `freer` may free it. */
  datatype Use = Free | Taken(taker: Thread) | Owned(taker: Thread) | Releasing(taker: Thread, freer: Thread)

  datatype Pc =
    | Outside
    | Entry(size: nat)        // emergency_malloc: check the size and the thread's counter
    | Locking                 // take the mutex
    | Trying                  // under the mutex: try the heap, then scan
    | HeapUnlock              // the heap had memory after all
    | Sleeping                // in pthread_cond_wait
    | Unlocking(b: Buffer)    // give the mutex back
    | Counting(b: Buffer)     // emergencyBuffersHeld++ and return
    | Zeroing(b: Buffer)      // emergency_malloc_free: memset
    | FreeLocking(b: Buffer)
    | Clearing(b: Buffer)     // under the mutex: clear the flag and signal
    | FreeUnlock

  datatype Task = Task(pc: Pc, held: nat)

  /** `use` is not part of the program's memory: it records responsibility. */
  datatype State = State(flags: seq<bool>, memory: seq<Bytes>, lock: Option<Thread>,
                         tasks: map<Thread, Task>, use: seq<Use>)

  function AllZero(): Bytes {
    seq(BUFFER_SIZE, i => 0)
  }

  /** The first buffer whose flag is clear, BUFFERS if there is none. */
  function FirstFree(flags: seq<bool>): (k: nat)
    ensures k <= |flags| && (k < |flags| ==> !flags[k]) && forall i :: 0 <= i < k ==> flags[i]
  {
    if flags == [] || !flags[0] then 0 else 1 + FirstFree(flags[1..])
  }

  /** The scan in `emergency_malloc`. */
  method ScanFlags(flags: seq<bool>) returns (buffer: int)
    ensures buffer == if FirstFree(flags) < |flags| then FirstFree(flags) else -1
  {
    buffer := -1;
    for i := 0 to |flags|
      invariant forall j :: 0 <= j < i ==> flags[j]
      invariant buffer == -1
    {
      if !flags[i] {
        return i;
      }
    }
  }

  /** The search in `emergency_malloc_free` for the buffer that starts at `address`. */
  method BufferOfAddress(base: int, address: int) returns (buffer: int)
    ensures 0 <= buffer < BUFFERS ==> address == base + BUFFER_SIZE * buffer
    ensures buffer == -1 || 0 <= buffer < BUFFERS
    ensures buffer == -1 <==> forall i: int :: 0 <= i < BUFFERS ==> address != base + BUFFER_SIZE * i
  {
    buffer := -1;
    for i := 0 to BUFFERS
      invariant forall j: int :: 0 <= j < i ==> address != base + BUFFER_SIZE * j
      invariant buffer == -1
    {
      if address == base + BUFFER_SIZE * i {
        return i;
      }
    }
  }

  predicate Shaped(s: State) {
    |s.flags| == BUFFERS && |s.memory| == BUFFERS && |s.use| == BUFFERS
  }

  /** The steps of a thread: what the program around the library does, then one for each access of
      `emergency_malloc` and of `emergency_malloc_free`. */
  datatype Action =
    | CallMalloc(size: nat) | CallFree(freed: Buffer) | Write(target: Buffer, contents: Bytes)
    | Refuse | Admit | Lock | TakeHeap | ReturnHeap | TakeBuffer | Sleep | Unlock | HandOut
    | Zero | LockToFree | ClearFlag | FinishFree

  predicate Enabled(s: State, t: Thread, a: Action)
    requires Shaped(s)
  {
    && t in s.tasks
    && var pc := s.tasks[t].pc;
    match a
    case CallMalloc(_) => pc.Outside?
    case CallFree(b) => pc.Outside? && s.use[b].Owned?
    case Write(b, _) => pc.Outside? && s.use[b].Owned?
    case Refuse => pc.Entry? && (pc.size > BUFFER_SIZE || s.tasks[t].held > PER_THREAD - 1)
    case Admit => pc.Entry? && pc.size <= BUFFER_SIZE && s.tasks[t].held <= PER_THREAD - 1
    case Lock => (pc.Locking? || pc.Sleeping?) && s.lock.None?
    case TakeHeap => pc.Trying?
    case ReturnHeap => pc.HeapUnlock?
    case TakeBuffer => pc.Trying? && FirstFree(s.flags) < BUFFERS
    case Sleep => pc.Trying? && FirstFree(s.flags) == BUFFERS
    case Unlock => pc.Unlocking?
    case HandOut => pc.Counting?
    case Zero => pc.Zeroing?
    case LockToFree => pc.FreeLocking? && s.lock.None?
    case ClearFlag => pc.Clearing?
    case FinishFree => pc.FreeUnlock?
  }

  function Goto(s: State, t: Thread, pc: Pc): map<Thread, Task>
    requires t in s.tasks
  {
    s.tasks[t := s.tasks[t].(pc := pc)]
  }

  function Apply(s: State, t: Thread, a: Action): State
    requires Shaped(s) && Enabled(s, t, a)
  {
    var pc := s.tasks[t].pc;
    match a
    case CallMalloc(size) => s.(tasks := Goto(s, t, Entry(size)))
    case CallFree(b) => s.(tasks := Goto(s, t, Zeroing(b)), use := s.use[b := Releasing(s.use[b].taker, t)])
    case Write(b, contents) => s.(memory := s.memory[b := contents])
    case Refuse => s.(tasks := Goto(s, t, Outside))
    case Admit => s.(tasks := Goto(s, t, Locking))
    case Lock => s.(tasks := Goto(s, t, Trying), lock := Some(t))
    case TakeHeap => s.(tasks := Goto(s, t, HeapUnlock))
    case ReturnHeap => s.(tasks := Goto(s, t, Outside), lock := None)
    case TakeBuffer =>
      var b: Buffer := FirstFree(s.flags);
      s.(tasks := Goto(s, t, Unlocking(b)), flags := s.flags[b := true], use := s.use[b := Taken(t)])
    case Sleep => s.(tasks := Goto(s, t, Sleeping), lock := None)
    case Unlock => s.(tasks := Goto(s, t, Counting(pc.b)), lock := None)
    case HandOut => s.(tasks := s.tasks[t := Task(Outside, s.tasks[t].held + 1)], use := s.use[pc.b := Owned(t)])
    case Zero => s.(tasks := Goto(s, t, FreeLocking(pc.b)), memory := s.memory[pc.b := AllZero()])
    case LockToFree => s.(tasks := Goto(s, t, Clearing(pc.b)), lock := Some(t))
    case ClearFlag => s.(tasks := Goto(s, t, FreeUnlock), flags := s.flags[pc.b := false], use := s.use[pc.b := Free])
    case FinishFree => s.(tasks := Goto(s, t, Outside), lock := None)
  }

  predicate Start(s: State) {
    && Shaped(s) && s.lock.None?
    && (forall b | 0 <= b < BUFFERS :: !s.flags[b] && s.memory[b] == AllZero() && s.use[b] == Free)
    && (forall t | t in s.tasks :: s.tasks[t] == Task(Outside, 0))
  }

  predicate HoldsLock(pc: Pc) {
    pc.Trying? || pc.HeapUnlock? || pc.Unlocking? || pc.Clearing? || pc.FreeUnlock?
  }

  /** Inside emergency_malloc, past the check of the counter. */
  predicate Admitted(pc: Pc) {
    pc.Locking? || pc.Trying? || pc.HeapUnlock? || pc.Sleeping? || pc.Unlocking? || pc.Counting?
  }

  /** A thread at `pc` is freeing `b`; past the memset the buffer is clean. */
  predicate Frees(s: State, b: Buffer, pc: Pc)
    requires Shaped(s)
  {
    pc == Zeroing(b) || ((pc == FreeLocking(b) || pc == Clearing(b)) && s.memory[b] == AllZero())
  }

  predicate BufferOk(s: State, b: Buffer)
    requires Shaped(s)
  {
    && s.flags[b] == !s.use[b].Free?
    && (s.use[b].Free? || s.use[b].Taken? ==> s.memory[b] == AllZero())
    && (s.use[b].Taken? ==> s.use[b].taker in s.tasks && s.tasks[s.use[b].taker].pc in {Unlocking(b), Counting(b)})
    && (s.use[b].Releasing? ==> s.use[b].freer in s.tasks && Frees(s, b, s.tasks[s.use[b].freer].pc))
  }

  predicate TaskOk(s: State, t: Thread)
    requires Shaped(s) && t in s.tasks
  {
    var task := s.tasks[t];
    && (HoldsLock(task.pc) <==> s.lock == Some(t))
    && task.held <= PER_THREAD
    && (Admitted(task.pc) ==> task.held <= PER_THREAD - 1)
    && (task.pc.Unlocking? || task.pc.Counting? ==> s.use[task.pc.b] == Taken(t))
    && (task.pc.Zeroing? || task.pc.FreeLocking? || task.pc.Clearing? ==>
          s.use[task.pc.b].Releasing? && s.use[task.pc.b].freer == t)
  }

  /** How many buffers `t` allocated and nobody has freed yet. */
  function Allocations(use: seq<Use>, t: Thread): nat {
    if use == [] then 0 else (if !use[0].Free? && use[0].taker == t then 1 else 0) + Allocations(use[1..], t)
  }

  predicate Inv(s: State) {
    && Shaped(s) && (s.lock.Some? ==> s.lock.value in s.tasks)
    && (forall b: Buffer :: BufferOk(s, b))
    && (forall t | t in s.tasks :: TaskOk(s, t))
    && (forall t | t in s.tasks :: Allocations(s.use, t) <= s.tasks[t].held + Pending(s.tasks[t].pc))
  }

  function Pending(pc: Pc): nat {
    if pc.Unlocking? || pc.Counting? then 1 else 0
  }

  lemma {:induction false} AllocationsUpdate(use: seq<Use>, b: nat, u: Use, t: Thread)
    requires b < |use|
    ensures Allocations(use[b := u], t) == Allocations(use, t)
                                           - (if !use[b].Free? && use[b].taker == t then 1 else 0)
                                           + (if !u.Free? && u.taker == t then 1 else 0)
  {
    if b > 0 {
      assert use[b := u][1..] == use[1..][b - 1 := u];
      AllocationsUpdate(use[1..], b - 1, u, t);
    } else {
      assert use[b := u][1..] == use[1..];
    }
  }

  lemma StartInv(s: State)
    requires Start(s)
    ensures Inv(s)
  {
    forall t ensures Allocations(s.use, t) == 0 {
      NoneAllocated(s.use, t);
    }
  }

  lemma {:induction false} NoneAllocated(use: seq<Use>, t: Thread)
    requires forall b | 0 <= b < |use| :: use[b] == Free
    ensures Allocations(use, t) == 0
  {
    if use != [] {
      NoneAllocated(use[1..], t);
    }
  }

  lemma StepKeepsBuffer(s: State, t: Thread, a: Action, b: Buffer)
    requires Inv(s) && Enabled(s, t, a)
    ensures BufferOk(Apply(s, t, a), b)
  {
    assert BufferOk(s, b) && TaskOk(s, t);
    if s.use[b].Taken? {
      assert TaskOk(s, s.use[b].taker);
    }
    if s.use[b].Releasing? {
      assert TaskOk(s, s.use[b].freer);
    }
  }

  /** The actions that belong to `emergency_malloc_free`. */
  predicate Freeing(a: Action) {
    a.CallFree? || a.Zero? || a.LockToFree? || a.ClearFlag? || a.FinishFree?
  }

  lemma FreeKeepsOwnTask(s: State, t: Thread, a: Action)
    requires Inv(s) && Enabled(s, t, a) && Freeing(a)
    ensures TaskOk(Apply(s, t, a), t)
  {
    assert TaskOk(s, t);
  }

  lemma MallocKeepsOwnTask(s: State, t: Thread, a: Action)
    requires Inv(s) && Enabled(s, t, a) && !Freeing(a)
    ensures TaskOk(Apply(s, t, a), t)
  {
    assert TaskOk(s, t);
  }

  lemma StepKeepsOtherTask(s: State, t: Thread, a: Action, u: Thread)
    requires Inv(s) && Enabled(s, t, a) && u in s.tasks && u != t
    ensures TaskOk(Apply(s, t, a), u)
  {
    assert TaskOk(s, t) && TaskOk(s, u);
    if a.TakeBuffer? {
      var b: Buffer := FirstFree(s.flags);
      assert BufferOk(s, b);
    }
  }

  lemma StepKeepsTask(s: State, t: Thread, a: Action, u: Thread)
    requires Inv(s) && Enabled(s, t, a) && u in s.tasks
    ensures TaskOk(Apply(s, t, a), u)
  {
    if u == t {
      if Freeing(a) {
        FreeKeepsOwnTask(s, t, a);
      } else {
        MallocKeepsOwnTask(s, t, a);
      }
    } else {
      StepKeepsOtherTask(s, t, a, u);
    }
  }

  lemma StepKeepsCount(s: State, t: Thread, a: Action, u: Thread)
    requires Inv(s) && Enabled(s, t, a) && u in s.tasks
    ensures var s' := Apply(s, t, a);
            Allocations(s'.use, u) <= s'.tasks[u].held + Pending(s'.tasks[u].pc)
  {
    var s', pc := Apply(s, t, a), s.tasks[t].pc;
    assert TaskOk(s, t);
    if s'.use != s.use {
      var b: Buffer := if a.CallFree? then a.freed else if a.TakeBuffer? then FirstFree(s.flags) else pc.b;
      AllocationsUpdate(s.use, b, s'.use[b], u);
      assert BufferOk(s, b);
    }
  }

  lemma StepKeepsInv(s: State, t: Thread, a: Action)
    requires Inv(s) && Enabled(s, t, a)
    ensures Inv(Apply(s, t, a))
  {
    var s' := Apply(s, t, a);
    forall b: Buffer ensures BufferOk(s', b) {
      StepKeepsBuffer(s, t, a, b);
    }
    forall u | u in s'.tasks ensures TaskOk(s', u) {
      StepKeepsTask(s, t, a, u);
    }
    forall u | u in s'.tasks ensures Allocations(s'.use, u) <= s'.tasks[u].held + Pending(s'.tasks[u].pc) {
      StepKeepsCount(s, t, a, u);
    }
  }

  // ----- Whole runs

  datatype Move = Move(thread: Thread, action: Action)

  predicate LegalRun(s: State, moves: seq<Move>)
    requires Shaped(s)
    decreases |moves|
  {
    moves == [] ||
    (Enabled(s, moves[0].thread, moves[0].action)
     && LegalRun(Apply(s, moves[0].thread, moves[0].action), moves[1..]))
  }

  function Run(s: State, moves: seq<Move>): (r: State)
    requires Shaped(s) && LegalRun(s, moves)
    ensures Shaped(r)
    decreases |moves|
  {
    if moves == [] then s else Run(Apply(s, moves[0].thread, moves[0].action), moves[1..])
  }

  /** Every interleaving keeps the invariant. */
  lemma {:induction false} RunKeepsInv(s: State, moves: seq<Move>)
    requires Inv(s) && LegalRun(s, moves)
    ensures Inv(Run(s, moves))
    decreases |moves|
  {
    if moves != [] {
      StepKeepsInv(s, moves[0].thread, moves[0].action);
      RunKeepsInv(Apply(s, moves[0].thread, moves[0].action), moves[1..]);
    }
  }

  /** The buffer a thread is busy with inside the library. */
  function Busy(pc: Pc): Option<Buffer> {
    match pc
    case Unlocking(b) => Some(b)
    case Counting(b) => Some(b)
    case Zeroing(b) => Some(b)
    case FreeLocking(b) => Some(b)
    case Clearing(b) => Some(b)
    case _ => None
  }

  /** What every reachable state guarantees: a buffer about to be handed out is clean and nobody else's,
      no two threads work on the same buffer, and nobody has more than four. */
  lemma PoolIsSafe(start: State, moves: seq<Move>, t: Thread, u: Thread)
    requires Start(start) && LegalRun(start, moves)
    requires t in Run(start, moves).tasks && u in Run(start, moves).tasks
    ensures var s := Run(start, moves);
            && Allocations(s.use, t) <= PER_THREAD
            && (s.tasks[t].pc.Counting? ==>
                  s.memory[s.tasks[t].pc.b] == AllZero() && s.use[s.tasks[t].pc.b] == Taken(t))
            && (t != u && Busy(s.tasks[t].pc).Some? ==> Busy(s.tasks[t].pc) != Busy(s.tasks[u].pc))
            && (HoldsLock(s.tasks[t].pc) && HoldsLock(s.tasks[u].pc) ==> t == u)
  {
    StartInv(start);
    RunKeepsInv(start, moves);
    var s := Run(start, moves);
    assert TaskOk(s, t) && TaskOk(s, u);
    if s.tasks[t].pc.Counting? {
      assert BufferOk(s, s.tasks[t].pc.b);
    }
  }

  /** The move hands `b` out. */
  predicate Hands(s: State, m: Move, b: Buffer)
    requires Shaped(s)
  {
    Enabled(s, m.thread, m.action) && m.action.HandOut? && s.tasks[m.thread].pc == Counting(b)
  }

  /** The move makes `b` available again. */
  predicate Clears(s: State, m: Move, b: Buffer)
    requires Shaped(s)
  {
    Enabled(s, m.thread, m.action) && m.action.ClearFlag? && s.tasks[m.thread].pc == Clearing(b)
  }

  predicate SomeMoveClears(s: State, moves: seq<Move>, b: Buffer)
    requires Shaped(s) && LegalRun(s, moves)
    decreases |moves|
  {
    moves != [] &&
    (Clears(s, moves[0], b) || SomeMoveClears(Apply(s, moves[0].thread, moves[0].action), moves[1..], b))
  }

  /** A buffer in the program's hands is not handed out again before it has been freed. */
  lemma {:induction false} HandedOutOnce(s: State, moves: seq<Move>, b: Buffer, m: Move)
    requires Inv(s) && LegalRun(s, moves) && (s.use[b].Owned? || s.use[b].Releasing?)
    requires Hands(Run(s, moves), m, b)
    ensures SomeMoveClears(s, moves, b)
    decreases |moves|
  {
    assert moves == [] ==> TaskOk(s, m.thread);
    if moves != [] && !Clears(s, moves[0], b) {
      StepKeepsInv(s, moves[0].thread, moves[0].action);
      StaysOut(s, moves[0], b);
      HandedOutOnce(Apply(s, moves[0].thread, moves[0].action), moves[1..], b, m);
    }
  }

  lemma StaysOut(s: State, m: Move, b: Buffer)
    requires Inv(s) && Enabled(s, m.thread, m.action) && !Clears(s, m, b)
    requires s.use[b].Owned? || s.use[b].Releasing?
    ensures var u := Apply(s, m.thread, m.action).use[b]; u.Owned? || u.Releasing?
  {
    assert TaskOk(s, m.thread) && BufferOk(s, b);
  }

  /** How many buffers `t` was ever handed. */
  function HandOuts(moves: seq<Move>, t: Thread): nat {
    if moves == [] then 0
    else (if moves[0] == Move(t, HandOut) then 1 else 0) + HandOuts(moves[1..], t)
  }

  lemma OneStepCounts(s: State, m: Move, t: Thread)
    requires Inv(s) && Enabled(s, m.thread, m.action) && t in s.tasks
    ensures t in Apply(s, m.thread, m.action).tasks
    ensures Apply(s, m.thread, m.action).tasks[t].held == s.tasks[t].held + if m == Move(t, HandOut) then 1 else 0
  {
  }

  /** The counter is never decremented: it counts every buffer the thread was ever handed, so a thread
      gets at most four in its whole life and from then on is refused, whatever it has freed. */
  lemma {:induction false} CounterCountsHandOuts(s: State, moves: seq<Move>, t: Thread)
    requires Inv(s) && LegalRun(s, moves) && t in s.tasks
    ensures t in Run(s, moves).tasks
    ensures Run(s, moves).tasks[t].held == s.tasks[t].held + HandOuts(moves, t) <= PER_THREAD
    decreases |moves|
  {
    if moves != [] {
      StepKeepsInv(s, moves[0].thread, moves[0].action);
      OneStepCounts(s, moves[0], t);
      CounterCountsHandOuts(Apply(s, moves[0].thread, moves[0].action), moves[1..], t);
    } else {
      assert TaskOk(s, t);
    }
  }

  /** Exactly when a request is refused. */
  lemma RefusedExactly(start: State, moves: seq<Move>, t: Thread)
    requires Start(start) && LegalRun(start, moves) && t in start.tasks
    requires t in Run(start, moves).tasks && Run(start, moves).tasks[t].pc.Entry?
    ensures Enabled(Run(start, moves), t, Refuse) <==>
              Run(start, moves).tasks[t].pc.size > BUFFER_SIZE || HandOuts(moves, t) == PER_THREAD
    ensures Enabled(Run(start, moves), t, Admit) <==> !Enabled(Run(start, moves), t, Refuse)
  {
    StartInv(start);
    CounterCountsHandOuts(start, moves, t);
  }

  // ----- What becomes of a request

  /** A request that passed the check ends in no other way than with heap memory or with a buffer. */
  lemma {:induction false} AdmittedIsServed(s: State, moves: seq<Move>, t: Thread)
    requires Shaped(s) && LegalRun(s, moves) && t in s.tasks && t in Run(s, moves).tasks
    requires Admitted(s.tasks[t].pc) && !Admitted(Run(s, moves).tasks[t].pc)
    ensures exists m | m in moves :: m == Move(t, ReturnHeap) || m == Move(t, HandOut)
    decreases |moves|
  {
    var s' := Apply(s, moves[0].thread, moves[0].action);
    if Admitted(s'.tasks[t].pc) {
      AdmittedIsServed(s', moves[1..], t);
      var m :| m in moves[1..] && (m == Move(t, ReturnHeap) || m == Move(t, HandOut));
      assert m in moves;
    } else {
      assert moves[0] in moves;
    }
  }

  /** Moves of `t` alone. */
  function Own(t: Thread, actions: seq<Action>): seq<Move> {
    if actions == [] then [] else [Move(t, actions[0])] + Own(t, actions[1..])
  }

  lemma {:induction false} TwoOwnMoves(s: State, t: Thread, a: Action, b: Action)
    requires Shaped(s) && Enabled(s, t, a) && Enabled(Apply(s, t, a), t, b)
    ensures LegalRun(s, Own(t, [a, b])) && Run(s, Own(t, [a, b])) == Apply(Apply(s, t, a), t, b)
  {
    var after := Apply(Apply(s, t, a), t, b);
    assert LegalRun(after, []) && Run(after, []) == after;
    assert [a, b][1..] == [b] && [b][1..] == [] && Own(t, [b]) == [Move(t, b)];
    assert Own(t, [a, b])[1..] == [Move(t, b)] && [Move(t, b)][1..] == [];
  }

  /** Whoever has the lock gives it back by itself, so nobody waits for it for ever. */
  lemma {:induction false} LockIsGivenBack(start: State, moves: seq<Move>)
    requires Start(start) && LegalRun(start, moves) && Run(start, moves).lock.Some?
    ensures var s := Run(start, moves);
      && s.lock.value in s.tasks
      && ((exists a :: Enabled(s, s.lock.value, a) && Apply(s, s.lock.value, a).lock.None?)
          || exists a, b :: Enabled(s, s.lock.value, a) && Enabled(Apply(s, s.lock.value, a), s.lock.value, b)
                            && Apply(Apply(s, s.lock.value, a), s.lock.value, b).lock.None?)
  {
    StartInv(start);
    RunKeepsInv(start, moves);
    var s := Run(start, moves);
    var u := s.lock.value;
    assert TaskOk(s, u);
    match s.tasks[u].pc
    case Trying =>
      if FirstFree(s.flags) == BUFFERS {
        assert Enabled(s, u, Sleep) && Apply(s, u, Sleep).lock.None?;
      } else {
        assert Enabled(s, u, TakeBuffer) && Enabled(Apply(s, u, TakeBuffer), u, Unlock);
      }
    case HeapUnlock => assert Enabled(s, u, ReturnHeap) && Apply(s, u, ReturnHeap).lock.None?;
    case Unlocking(_) => assert Enabled(s, u, Unlock) && Apply(s, u, Unlock).lock.None?;
    case Clearing(_) => assert Enabled(s, u, ClearFlag) && Enabled(Apply(s, u, ClearFlag), u, FinishFree);
    case FreeUnlock => assert Enabled(s, u, FinishFree) && Apply(s, u, FinishFree).lock.None?;
  }

  /** A thread that waits, for the lock or for a buffer, and then steps while the lock is free and some buffer is,
      is handed the first free buffer. */
  lemma {:induction false} FreeBufferIsObtained(start: State, moves: seq<Move>, t: Thread)
    requires Start(start) && LegalRun(start, moves)
    requires var s := Run(start, moves);
      && t in s.tasks && (s.tasks[t].pc.Locking? || s.tasks[t].pc.Sleeping?) && s.lock.None?
      && FirstFree(s.flags) < BUFFERS
    ensures var s := Run(start, moves);
      var b := FirstFree(s.flags);
      && s.use[b].Free? && s.memory[b] == AllZero()
      && LegalRun(s, Own(t, [Lock, TakeBuffer, Unlock, HandOut]))
      && Run(s, Own(t, [Lock, TakeBuffer, Unlock, HandOut])) ==
           s.(tasks := s.tasks[t := Task(Outside, s.tasks[t].held + 1)],
              flags := s.flags[b := true], use := s.use[b := Owned(t)])
  {
    StartInv(start);
    RunKeepsInv(start, moves);
    var s := Run(start, moves);
    var b: Buffer := FirstFree(s.flags);
    assert BufferOk(s, b);
    ObtainedAlone(s, t, b);
  }

  lemma {:induction false} ObtainedAlone(s: State, t: Thread, b: Buffer)
    requires Shaped(s) && t in s.tasks && (s.tasks[t].pc.Locking? || s.tasks[t].pc.Sleeping?) && s.lock.None?
    requires b == FirstFree(s.flags)
    ensures LegalRun(s, Own(t, [Lock, TakeBuffer, Unlock, HandOut]))
    ensures Run(s, Own(t, [Lock, TakeBuffer, Unlock, HandOut])) ==
           s.(tasks := s.tasks[t := Task(Outside, s.tasks[t].held + 1)],
              flags := s.flags[b := true], use := s.use[b := Owned(t)])
  {
    var s1 := Apply(s, t, Lock);
    var s2 := Apply(s1, t, TakeBuffer);
    TwoOwnMoves(s2, t, Unlock, HandOut);
    FourOwnMoves(s, t, Lock, TakeBuffer, Unlock, HandOut);
    var end := Apply(Apply(s2, t, Unlock), t, HandOut);
    assert end.tasks == s.tasks[t := Task(Outside, s.tasks[t].held + 1)];
    assert end.use == s.use[b := Owned(t)];
  }

  /** A thread goes to sleep only while no buffer is free. */
  lemma SleepsOnlyWithoutBuffers(s: State, t: Thread, b: Buffer)
    requires Inv(s) && Enabled(s, t, Sleep)
    ensures s.flags[b] && !s.use[b].Free?
  {
    assert BufferOk(s, b);
  }

  /** When the heap has memory after all, the thread returns with it and the pool is as before. */
  lemma {:induction false} HeapIsReturned(s: State, t: Thread)
    requires Inv(s) && t in s.tasks && s.tasks[t].pc.Trying?
    ensures LegalRun(s, Own(t, [TakeHeap, ReturnHeap]))
    ensures Run(s, Own(t, [TakeHeap, ReturnHeap])) ==
              s.(tasks := s.tasks[t := Task(Outside, s.tasks[t].held)], lock := None)
  {
    TwoOwnMoves(s, t, TakeHeap, ReturnHeap);
    var end := Apply(Apply(s, t, TakeHeap), t, ReturnHeap);
    assert end.tasks == s.tasks[t := Task(Outside, s.tasks[t].held)];
  }

  /** A thread that frees a buffer while the lock is free returns; the buffer is all zero and free, and nothing else
      changes. */
  lemma {:induction false} BufferIsFreed(s: State, t: Thread, b: Buffer)
    requires Inv(s) && t in s.tasks && s.tasks[t].pc == Zeroing(b) && s.lock.None?
    ensures LegalRun(s, Own(t, [Zero, LockToFree, ClearFlag, FinishFree]))
    ensures Run(s, Own(t, [Zero, LockToFree, ClearFlag, FinishFree])) ==
              s.(tasks := s.tasks[t := Task(Outside, s.tasks[t].held)], memory := s.memory[b := seq(1024, _ => 0)],
                 flags := s.flags[b := false], use := s.use[b := Free])
  {
    var s1 := Apply(s, t, Zero);
    var s2 := Apply(s1, t, LockToFree);
    TwoOwnMoves(s2, t, ClearFlag, FinishFree);
    FourOwnMoves(s, t, Zero, LockToFree, ClearFlag, FinishFree);
    var end := Apply(Apply(s2, t, ClearFlag), t, FinishFree);
    assert end.tasks == s.tasks[t := Task(Outside, s.tasks[t].held)];
    assert AllZero() == seq(1024, _ => 0);
  }

  lemma {:induction false} FourOwnMoves(s: State, t: Thread, a: Action, b: Action, c: Action, d: Action)
    requires Shaped(s) && Enabled(s, t, a) && Enabled(Apply(s, t, a), t, b)
    requires var s2 := Apply(Apply(s, t, a), t, b); LegalRun(s2, Own(t, [c, d]))
    ensures LegalRun(s, Own(t, [a, b, c, d]))
    ensures Run(s, Own(t, [a, b, c, d])) == Run(Apply(Apply(s, t, a), t, b), Own(t, [c, d]))
  {
    var all := [a, b, c, d];
    assert all[1..] == [b, c, d] && all[1..][1..] == [c, d];
    assert Own(t, all)[1..] == Own(t, all[1..]) && Own(t, all[1..])[1..] == Own(t, [c, d]);
  }

  // ----- A run in which a thread that holds nothing is refused

  lemma {:induction false} OneMoveMore(s: State, moves: seq<Move>, m: Move)
    requires Shaped(s) && LegalRun(s, moves) && Enabled(Run(s, moves), m.thread, m.action)
    ensures LegalRun(s, moves + [m]) && Run(s, moves + [m]) == Apply(Run(s, moves), m.thread, m.action)
    decreases |moves|
  {
    if moves == [] {
      var after := Apply(s, m.thread, m.action);
      assert LegalRun(after, []) && Run(after, []) == after;
      assert moves + [m] == [m] && [m][1..] == [];
    } else {
      OneMoveMore(Apply(s, moves[0].thread, moves[0].action), moves[1..], m);
      assert (moves + [m])[1..] == moves[1..] + [m];
    }
  }

  /** Some run from `start` ends in `s`. */
  ghost predicate Reachable(start: State, s: State)
    requires Shaped(start)
  {
    exists moves :: LegalRun(start, moves) && Run(start, moves) == s
  }

  lemma OneStepOn(start: State, s: State, t: Thread, a: Action)
    requires Shaped(start) && Shaped(s) && Reachable(start, s) && Enabled(s, t, a)
    ensures Reachable(start, Apply(s, t, a))
  {
    var moves :| LegalRun(start, moves) && Run(start, moves) == s;
    OneMoveMore(start, moves, Move(t, a));
  }

  /** `t` is outside the library, nobody has the lock, and `t` was handed `held` buffers. */
  predicate Quiet(s: State, t: Thread, held: nat) {
    Shaped(s) && s.lock.None? && t in s.tasks && s.tasks[t] == Task(Outside, held)
  }

  /** The state after `t` has gone on to `pc` and done the rest. */
  function At(s: State, t: Thread, pc: Pc, lock: Option<Thread>): State
    requires t in s.tasks
  {
    s.(tasks := Goto(s, t, pc), lock := lock)
  }

  lemma AllocatesUpToTheScan(start: State, s: State, t: Thread, held: nat)
    requires Shaped(start) && Reachable(start, s) && Quiet(s, t, held) && held < PER_THREAD
    ensures Reachable(start, At(s, t, Trying, Some(t)))
  {
    OneStepOn(start, s, t, CallMalloc(1));
    OneStepOn(start, At(s, t, Entry(1), None), t, Admit);
    OneStepOn(start, At(s, t, Locking, None), t, Lock);
  }

  /** `s` after `t` was handed its first buffer. */
  function FirstTaken(s: State, t: Thread, held: nat): State
    requires Shaped(s)
  {
    s.(tasks := s.tasks[t := Task(Outside, held + 1)], flags := s.flags[0 := true], use := s.use[0 := Owned(t)])
  }

  lemma TakesTheFirst(start: State, s: State, t: Thread, held: nat)
    requires Shaped(start) && Quiet(s, t, held) && !s.flags[0] && Reachable(start, At(s, t, Trying, Some(t)))
    ensures Reachable(start, FirstTaken(s, t, held))
  {
    var s1, s2 := s.(flags := s.flags[0 := true], use := s.use[0 := Taken(t)]), FirstTaken(s, t, held);
    OneStepOn(start, At(s, t, Trying, Some(t)), t, TakeBuffer);
    OneStepOn(start, At(s1, t, Unlocking(0), Some(t)), t, Unlock);
    OneStepOn(start, At(s1, t, Counting(0), None), t, HandOut);
    assert Apply(At(s1, t, Counting(0), None), t, HandOut) == s2;
  }

  /** `s` while `t` gives back the buffer it was handed. */
  function FirstReleasing(s: State, t: Thread, held: nat): State
    requires Shaped(s)
  {
    FirstTaken(s, t, held).(use := s.use[0 := Releasing(t, t)])
  }

  lemma ZeroesTheFirst(start: State, s: State, t: Thread, held: nat)
    requires Shaped(start) && Quiet(s, t, held) && s.memory[0] == AllZero()
    requires Reachable(start, FirstTaken(s, t, held))
    ensures Reachable(start, At(FirstReleasing(s, t, held), t, FreeLocking(0), None))
  {
    var s1, s2 := FirstTaken(s, t, held), FirstReleasing(s, t, held);
    assert s1.use[0 := Releasing(t, t)] == s2.use && s2.memory[0 := AllZero()] == s2.memory;
    OneStepOn(start, s1, t, CallFree(0));
    OneStepOn(start, At(s2, t, Zeroing(0), None), t, Zero);
  }

  lemma ClearsTheFirst(start: State, s: State, t: Thread, held: nat)
    requires Shaped(start) && Quiet(s, t, held) && !s.flags[0] && s.use[0] == Free
    requires Reachable(start, At(FirstReleasing(s, t, held), t, FreeLocking(0), None))
    ensures Reachable(start, s.(tasks := s.tasks[t := Task(Outside, held + 1)]))
  {
    var s2, s3 := FirstReleasing(s, t, held), s.(tasks := s.tasks[t := Task(Outside, held + 1)]);
    assert s3.flags == s2.flags[0 := false] && s3.use == s2.use[0 := Free];
    OneStepOn(start, At(s2, t, FreeLocking(0), None), t, LockToFree);
    OneStepOn(start, At(s2, t, Clearing(0), Some(t)), t, ClearFlag);
    OneStepOn(start, At(s3, t, FreeUnlock, Some(t)), t, FinishFree);
    assert Apply(At(s3, t, FreeUnlock, Some(t)), t, FinishFree) == s3;
  }

  lemma {:induction false} AfterCycles(start: State, t: Thread, held: nat)
    requires Start(start) && t in start.tasks && held <= PER_THREAD
    ensures Reachable(start, start.(tasks := start.tasks[t := Task(Outside, held)]))
  {
    if held == 0 {
      assert LegalRun(start, []) && Run(start, []) == start;
      assert start.(tasks := start.tasks[t := Task(Outside, 0)]) == start;
    } else {
      var s := start.(tasks := start.tasks[t := Task(Outside, held - 1)]);
      AfterCycles(start, t, held - 1);
      AllocatesUpToTheScan(start, s, t, held - 1);
      TakesTheFirst(start, s, t, held - 1);
      ZeroesTheFirst(start, s, t, held - 1);
      ClearsTheFirst(start, s, t, held - 1);
      assert s.tasks[t := Task(Outside, held)] == start.tasks[t := Task(Outside, held)];
    }
  }

  /** From every start there is a run, of this thread alone, after which all buffers are free and the thread asks
      for a single byte, and is refused. */
  lemma RefusedHoldingNothing(start: State, t: Thread)
    requires Start(start) && t in start.tasks
    ensures exists s :: Reachable(start, s) && t in s.tasks && s.tasks[t].pc == Entry(1)
                        && s.use == start.use && Allocations(s.use, t) == 0
                        && Enabled(s, t, Refuse) && !Enabled(s, t, Admit)
  {
    var s := start.(tasks := start.tasks[t := Task(Outside, PER_THREAD)]);
    AfterCycles(start, t, PER_THREAD);
    OneStepOn(start, s, t, CallMalloc(1));
    NoneAllocated(s.use, t);
    var r := Apply(s, t, CallMalloc(1));
    assert Enabled(r, t, Refuse) && !Enabled(r, t, Admit);
  }
}
