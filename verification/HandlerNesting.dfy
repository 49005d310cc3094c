/** The program's view of exception handling on one thread: the catch handlers that are running and
    the exceptions that are propagating, innermost first.  The runtime never sees this nesting; module
    CaughtExceptions proves that its counters and lists describe it. */
module HandlerNesting {
  import opened Common

  /** A catch handler that runs for `ex`, or a propagation of `ex` whose cleanups may be running. */
  datatype Nest<T> = Empty | Handler(ex: T, outer: Nest<T>) | Flight(ex: T, outer: Nest<T>)

  /** The exceptions that have a handler or are propagating. */
  ghost function Members<T>(n: Nest<T>): set<T> {
    match n
    case Empty => {}
    case Handler(e, o) => {e} + Members(o)
    case Flight(e, o) => {e} + Members(o)
  }

  /** How many running handlers belong to `e`. */
  ghost function Handlers<T>(n: Nest<T>, e: T): nat {
    match n
    case Empty => 0
    case Handler(x, o) => (if x == e then 1 else 0) + Handlers(o, e)
    case Flight(_, o) => Handlers(o, e)
  }

  ghost predicate InFlight<T>(n: Nest<T>, e: T) {
    match n
    case Empty => false
    case Handler(_, o) => InFlight(o, e)
    case Flight(x, o) => x == e || InFlight(o, e)
  }

  /** How many exceptions are propagating. */
  ghost function Flights<T>(n: Nest<T>): nat {
    match n
    case Empty => 0
    case Handler(_, o) => Flights(o)
    case Flight(_, o) => 1 + Flights(o)
  }

  /** The exceptions that are being handled: innermost first, each once. */
  ghost function Caught<T>(n: Nest<T>): seq<T> {
    match n
    case Empty => []
    case Flight(_, o) => Caught(o)
    case Handler(e, o) =>
      if Head(o) == Some(e) then Caught(o) else [e] + Caught(o)
  }

  /** The innermost handled exception. */
  ghost function Head<T>(n: Nest<T>): Option<T> {
    match n
    case Empty => None
    case Flight(_, o) => Head(o)
    case Handler(e, _) => Some(e)
  }

  /** The exception that becomes innermost once all handlers of `e` have ended. */
  ghost function Below<T>(n: Nest<T>, e: T): Option<T> {
    match n
    case Empty => None
    case Flight(_, o) => Below(o, e)
    case Handler(x, o) => if x == e && Handlers(o, e) == 0 then Head(o) else Below(o, e)
  }

  /** `e` can be pushed: it is not propagating further out, and if it is handled already, then as the
      innermost handled exception. */
  ghost predicate Fits<T>(e: T, n: Nest<T>) {
    && !InFlight(n, e)
    && (Handlers(n, e) > 0 ==> Head(n) == Some(e))
  }

  ghost predicate WellNested<T>(n: Nest<T>) {
    n.Empty? || (WellNested(n.outer) && Fits(n.ex, n.outer))
  }

  /** What a program may do next.  EndCatch leaves a handler normally, or runs as the cleanup of the
      handler that the innermost propagation is leaving. */
  datatype Event<T> = Throw(thrown: T) | BeginCatch | Rethrow | EndCatch

  ghost predicate Enabled<T>(n: Nest<T>, ev: Event<T>) {
    match ev
    case Throw(e) => e !in Members(n)
    case BeginCatch => n.Flight?
    case Rethrow => Head(n).Some? && !InFlight(n, Head(n).value)
    case EndCatch => n.Handler? || (n.Flight? && n.outer.Handler?)
  }

  ghost function Step<T>(n: Nest<T>, ev: Event<T>): Nest<T>
    requires Enabled(n, ev)
  {
    match ev
    case Throw(e) => Flight(e, n)
    case BeginCatch => Handler(n.ex, n.outer)
    case Rethrow => Flight(Head(n).value, n)
    case EndCatch => if n.Handler? then n.outer else Flight(n.ex, n.outer.outer)
  }

  ghost predicate LegalRun<T>(n: Nest<T>, evs: seq<Event<T>>)
    decreases |evs|
  {
    evs == [] || (Enabled(n, evs[0]) && LegalRun(Step(n, evs[0]), evs[1..]))
  }

  ghost function Run<T>(n: Nest<T>, evs: seq<Event<T>>): Nest<T>
    requires LegalRun(n, evs)
    decreases |evs|
  {
    if evs == [] then n else Run(Step(n, evs[0]), evs[1..])
  }

  lemma HeadIsMember<T>(n: Nest<T>)
    ensures Head(n).Some? ==> Head(n).value in Members(n) && Handlers(n, Head(n).value) > 0
  {
  }

  lemma HeadOfCaught<T>(n: Nest<T>)
    ensures Head(n) == if Caught(n) == [] then None else Some(Caught(n)[0])
  {
  }

  /** The counts say who is a member, and the list holds exactly the handled exceptions. */
  lemma MembersCounted<T>(n: Nest<T>, e: T)
    ensures e in Members(n) <==> Handlers(n, e) > 0 || InFlight(n, e)
    ensures e in Caught(n) <==> Handlers(n, e) > 0
  {
    if !n.Empty? {
      HeadOfCaught(n.outer);
      MembersCounted(n.outer, e);
    }
  }

  /** The list is what following Head and then Below visits. */
  lemma {:induction false} CaughtFollowsBelow<T>(n: Nest<T>, i: nat)
    requires WellNested(n) && i < |Caught(n)|
    ensures Head(n) == Some(Caught(n)[0])
    ensures Below(n, Caught(n)[i]) == if i + 1 < |Caught(n)| then Some(Caught(n)[i + 1]) else None
  {
    CaughtIsDistinct(n);
    HeadOfCaught(n);
    HeadOfCaught(n.outer);
    MembersCounted(n.outer, Caught(n)[i]);
    if Caught(n) == Caught(n.outer) {
      CaughtFollowsBelow(n.outer, i);
    } else if i > 0 {
      CaughtFollowsBelow(n.outer, i - 1);
    } else if |Caught(n.outer)| > 0 {
      CaughtFollowsBelow(n.outer, 0);
    }
  }

  /** Nesting is kept by every event. */
  lemma StepKeepsNesting<T>(n: Nest<T>, ev: Event<T>)
    requires WellNested(n) && Enabled(n, ev)
    ensures WellNested(Step(n, ev))
  {
    match ev
    case Throw(e) => MembersCounted(n, e);
    case BeginCatch =>
    case Rethrow =>
    case EndCatch =>
      if n.Flight? {
        MembersCounted(n.outer.outer, n.ex);
      }
  }

  /** Every legal run from well-nested frames keeps them well nested. */
  lemma {:induction false} RunKeepsNesting<T>(n: Nest<T>, evs: seq<Event<T>>)
    requires WellNested(n) && LegalRun(n, evs)
    ensures WellNested(Run(n, evs))
    decreases |evs|
  {
    if evs != [] {
      StepKeepsNesting(n, evs[0]);
      RunKeepsNesting(Step(n, evs[0]), evs[1..]);
    }
  }

  /** No exception is listed twice. */
  lemma {:induction false} CaughtIsDistinct<T>(n: Nest<T>)
    requires WellNested(n)
    ensures forall i, j :: 0 <= i < j < |Caught(n)| ==> Caught(n)[i] != Caught(n)[j]
  {
    if !n.Empty? {
      CaughtIsDistinct(n.outer);
      MembersCounted(n.outer, n.ex);
    }
  }

  /** The depth of the innermost handler of `e`. */
  ghost function Depth<T>(n: Nest<T>, e: T): nat
    requires Handlers(n, e) > 0
  {
    if n.Handler? && n.ex == e then 0 else 1 + Depth(n.outer, e)
  }

  /** The list is ordered by innermost handlers: together with CaughtIsDistinct and MembersCounted this
      fixes it completely. */
  lemma {:induction false} CaughtIsInnermostFirst<T>(n: Nest<T>, i: nat, j: nat)
    requires WellNested(n) && i < j < |Caught(n)|
    ensures Handlers(n, Caught(n)[i]) > 0 && Handlers(n, Caught(n)[j]) > 0
    ensures Depth(n, Caught(n)[i]) < Depth(n, Caught(n)[j])
  {
    CaughtIsDistinct(n);
    HeadOfCaught(n.outer);
    MembersCounted(n, Caught(n)[i]);
    MembersCounted(n, Caught(n)[j]);
    if !(n.Handler? && n.ex == Caught(n)[i]) {
      var d := |Caught(n)| - |Caught(n.outer)|;
      CaughtIsInnermostFirst(n.outer, i - d, j - d);
    }
  }

  /** The exception whose handler ends at the next EndCatch. */
  ghost function Ending<T>(n: Nest<T>): T
    requires Enabled(n, EndCatch)
  {
    if n.Handler? then n.ex else n.outer.ex
  }

  /** That is the innermost handled one; it is propagating only if it is rethrown out of this very
      handler. */
  lemma EndingIsInnermost<T>(n: Nest<T>)
    requires WellNested(n) && Enabled(n, EndCatch)
    ensures Head(n) == Some(Ending(n)) && Handlers(n, Ending(n)) > 0
    ensures InFlight(n, Ending(n)) <==> n.Flight? && n.ex == Ending(n)
  {
  }

  /** What EndCatch does to everything the runtime has to track. */
  lemma EndCatchEffect<T>(n: Nest<T>, x: T)
    requires WellNested(n) && Enabled(n, EndCatch)
    ensures var m := Step(n, EndCatch); var e := Ending(n);
            && Members(m) <= Members(n)
            && Flights(m) == Flights(n)
            && Handlers(m, x) == Handlers(n, x) - (if x == e then 1 else 0)
            && (InFlight(m, x) <==> InFlight(n, x))
            && Head(m) == (if Handlers(n, e) == 1 then Below(n, e) else Head(n))
            && (Handlers(m, x) > 0 ==> Below(m, x) == Below(n, x))
  {
  }
}
