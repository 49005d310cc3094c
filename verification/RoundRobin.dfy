/** The task queue of the kernel: switching in turn, and forking. */
module RoundRobin {

  /** What a switch saves and loads. */
  datatype Context = Context(eip: int, esp: int, ebp: int)

  /** The saved contexts in queue order, the position of the task iterator, and the processor's registers.
      The running task's saved context is out of date. */
  datatype State = State(saved: seq<Context>, pos: nat, cpu: Context) {
    predicate Valid() {
      pos < |saved|
    }
  }

  /** Fork appends a task; Work is anything a task does to its own registers. */
  datatype Event = Switch | Fork | Work(cpu: Context)

  function Step(s: State, e: Event): (t: State)
    requires s.Valid()
    ensures t.Valid() && |t.saved| == |s.saved| + if e.Fork? then 1 else 0
  {
    match e
    case Switch =>
      if |s.saved| == 1 then s
      else
        var saved := s.saved[s.pos := s.cpu];
        var next := if s.pos + 1 == |saved| then 0 else s.pos + 1;
        State(saved, next, saved[next])
    case Fork => s.(saved := s.saved + [s.cpu])
    case Work(c) => s.(cpu := c)
  }

  class Scheduler {
    var tasks: seq<Context>
    var taskIterator: nat
    var cpu: Context

    ghost function View(): State
      reads this
    {
      State(tasks, taskIterator, cpu)
    }

    /** `task_switch` */
    method TaskSwitch()
      requires View().Valid()
      modifies this
      ensures View() == Step(old(View()), Switch)
    {
      if |tasks| == 1 {
        return;
      }
      tasks := tasks[taskIterator := cpu];
      taskIterator := taskIterator + 1;
      if taskIterator == |tasks| {
        taskIterator := 0;
      }
      cpu := tasks[taskIterator];
    }

    /** `fork`: the new task waits at the end of the queue with the registers of its parent. */
    method ForkTask()
      requires View().Valid()
      modifies this
      ensures View() == Step(old(View()), Fork)
    {
      tasks := tasks + [cpu];
    }
  }

  /** The states a run goes through, the first one included. */
  function Run(s: State, es: seq<Event>): (ss: seq<State>)
    requires s.Valid()
    ensures |ss| == |es| + 1 && forall t | t in ss :: t.Valid()
    decreases |es|
  {
    if es == [] then [s] else [s] + Run(Step(s, es[0]), es[1..])
  }

  /** While a task does not run nothing touches its context, and when it runs again it has it. */
  lemma {:induction false} ContextSurvives(s: State, es: seq<Event>, i: nat, k: nat)
    requires s.Valid() && i < |s.saved| && s.pos != i && k <= |es|
    requires forall j | 0 <= j < k :: Run(s, es)[j].pos != i
    ensures i < |Run(s, es)[k].saved|
    ensures Run(s, es)[k].saved[i] == s.saved[i]
    ensures Run(s, es)[k].pos == i ==> Run(s, es)[k].cpu == s.saved[i]
    decreases k
  {
    if k > 0 {
      var t := Step(s, es[0]);
      var rest := Run(t, es[1..]);
      if k > 1 {
        assert t.pos == rest[0].pos == Run(s, es)[1].pos;
        forall j | 0 <= j < k - 1 ensures rest[j].pos != i {
          assert Run(s, es)[j + 1] == rest[j];
        }
        ContextSurvives(t, es[1..], i, k - 1);
      } else {
        assert rest[0] == t;
      }
    }
  }

  lemma {:induction false} RunFrom(s: State, es: seq<Event>, j: nat)
    requires s.Valid() && j <= |es|
    ensures Run(s, es)[j..] == Run(Run(s, es)[j], es[j..])
    decreases j
  {
    if j == 0 {
      assert es[0..] == es && Run(s, es)[0..] == Run(s, es);
    } else {
      var t := Step(s, es[0]);
      RunFrom(t, es[1..], j - 1);
      assert es[1..][j - 1..] == es[j..];
      assert Run(s, es)[j..] == Run(t, es[1..])[j - 1..];
    }
  }

  /** Task `i` does not run from the state after `j` up to the one before `k`, in which it does. */
  ghost predicate NextRun(ss: seq<State>, i: nat, j: nat, k: nat) {
    && j < k < |ss| && ss[k].pos == i
    && forall m | j < m < k :: ss[m].pos != i
  }

  /** A task that leaves the processor by a switch comes back to the registers it left with, whatever the other
      tasks did in between. */
  lemma {:induction false} RegistersComeBack(s: State, es: seq<Event>, j: nat, k: nat)
    requires s.Valid() && j < |es| && es[j] == Switch && |Run(s, es)[j].saved| >= 2
    requires NextRun(Run(s, es), Run(s, es)[j].pos, j, k)
    ensures Run(s, es)[k].cpu == Run(s, es)[j].cpu
  {
    assert Run(s, es)[j] in Run(s, es);
    SavedComesBack(s, es, Run(s, es)[j].pos, j, k, Run(s, es)[j].cpu);
  }

  /** A task that is forked starts with the registers of its parent at the fork. */
  lemma {:induction false} ForkedStartsAsParent(s: State, es: seq<Event>, j: nat, k: nat)
    requires s.Valid() && j < |es| && es[j] == Fork
    requires NextRun(Run(s, es), |Run(s, es)[j].saved|, j, k)
    ensures Run(s, es)[k].cpu == Run(s, es)[j].cpu
  {
    assert Run(s, es)[j] in Run(s, es);
    SavedComesBack(s, es, |Run(s, es)[j].saved|, j, k, Run(s, es)[j].cpu);
  }

  lemma {:induction false} SavedComesBack(s: State, es: seq<Event>, i: nat, j: nat, k: nat, c: Context)
    requires s.Valid() && j < |es| && NextRun(Run(s, es), i, j, k)
    requires var t := Step(Run(s, es)[j], es[j]); i < |t.saved| && t.pos != i && t.saved[i] == c
    ensures Run(s, es)[k].cpu == c
  {
    var ss := Run(s, es);
    RunFrom(s, es, j);
    RunFrom(s, es, j + 1);
    assert es[j..][0] == es[j] && ss[j..][1] == ss[j + 1];
    var t, rest := ss[j + 1], Run(ss[j + 1], es[j + 1..]);
    assert t == Step(ss[j], es[j]);
    forall m | 0 <= m < k - j - 1 ensures rest[m].pos != i {
      assert rest[m] == ss[j + 1 + m];
    }
    assert rest[k - j - 1] == ss[k];
    ContextSurvives(t, es[j + 1..], i, k - j - 1);
  }

  /** How many switches until the task at `i` runs. */
  function Distance(s: State, i: nat): nat
    requires s.Valid() && i < |s.saved|
  {
    if i >= s.pos then i - s.pos else |s.saved| - s.pos + i
  }

  function Count(es: seq<Event>, e: Event): nat {
    if es == [] then 0 else (if es[0] == e then 1 else 0) + Count(es[1..], e)
  }

  /** No task starves: after as many switches as its distance, and one more for every fork on the way, it has
      run. */
  lemma {:induction false} TaskRuns(s: State, es: seq<Event>, i: nat)
    requires s.Valid() && i < |s.saved|
    requires Count(es, Switch) >= Distance(s, i) + Count(es, Fork)
    ensures exists k :: 0 <= k <= |es| && Run(s, es)[k].pos == i
    decreases |es|
  {
    if s.pos == i {
      assert Run(s, es)[0].pos == i;
    } else {
      var t := Step(s, es[0]);
      TaskRuns(t, es[1..], i);
      var k :| 0 <= k <= |es| - 1 && Run(t, es[1..])[k].pos == i;
      assert Run(s, es)[k + 1] == Run(t, es[1..])[k];
    }
  }

  function Switches(k: nat): seq<Event> {
    if k == 0 then [] else [Switch] + Switches(k - 1)
  }

  /** Without forks the tasks run strictly in turn: `n` switches are one round. */
  lemma {:induction false} OneRound(s: State, k: nat)
    requires s.Valid() && k <= |s.saved|
    ensures |Switches(k)| == k
    ensures Run(s, Switches(k))[k].pos == (if s.pos + k < |s.saved| then s.pos + k else s.pos + k - |s.saved|)
    decreases k
  {
    if k > 0 {
      OneRound(Step(s, Switch), k - 1);
      assert Switches(k)[1..] == Switches(k - 1);
    }
  }
}
