/** The light lock of include/atomic.h: a counter and a semaphore, used by any number of threads. */
module Lock {
  import opened Sequences

  /** Where a thread is: outside, past the counter and waiting for the semaphore, inside, or past the counter
      on its way out and about to post. */
  datatype Pc = Idle | Waiting | Critical | Posting

  type Thread = nat

  datatype State = State(threads: map<Thread, Pc>, cnt: nat, sem: nat)

  const WRAP := 0x1_0000_0000

  datatype Step = Enter(t: Thread) | Acquire(t: Thread) | Leave(t: Thread) | Post(t: Thread)

  ghost predicate Init(s: State) {
    s.cnt == 0 && s.sem == 0 && |s.threads| < WRAP && forall t :: t in s.threads ==> s.threads[t] == Idle
  }

  predicate At(s: State, t: Thread, pc: Pc) {
    t in s.threads && s.threads[t] == pc
  }

  /** sem_wait blocks while the semaphore is 0; everything else can always go on. */
  predicate Enabled(s: State, step: Step) {
    match step
    case Enter(t) => At(s, t, Idle)
    case Acquire(t) => At(s, t, Waiting) && s.sem > 0
    case Leave(t) => At(s, t, Critical)
    case Post(t) => At(s, t, Posting)
  }

  /** One atomic step. The counter is an unsigned int. */
  function Next(s: State, step: Step): State
    requires Enabled(s, step)
  {
    match step
    case Enter(t) =>
      s.(cnt := (s.cnt + 1) % 0x1_0000_0000, threads := s.threads[t := if s.cnt > 0 then Waiting else Critical])
    case Acquire(t) => s.(sem := s.sem - 1, threads := s.threads[t := Critical])
    case Leave(t) =>
      var cnt := (s.cnt - 1) % 0x1_0000_0000;
      s.(cnt := cnt, threads := s.threads[t := if cnt > 0 then Posting else Idle])
    case Post(t) => s.(sem := s.sem + 1, threads := s.threads[t := Idle])
  }

  ghost function Those(s: State, pc: Pc): set<Thread> {
    set t | t in s.threads && s.threads[t] == pc
  }

  /** The counter counts the threads waiting or inside; while it is positive there is exactly one permission to
      be inside: held, about to be posted, or in the semaphore. */
  ghost predicate Inv(s: State) {
    && |s.threads| < WRAP
    && s.cnt == |Those(s, Waiting)| + |Those(s, Critical)|
    && |Those(s, Critical)| + |Those(s, Posting)| + s.sem == if s.cnt > 0 then 1 else 0
  }

  /** Moving one thread changes two counts by one. */
  lemma Moves(s: State, r: State, t: Thread, from: Pc, to: Pc)
    requires At(s, t, from) && from != to && r.threads == s.threads[t := to]
    ensures |Those(r, from)| == |Those(s, from)| - 1
    ensures |Those(r, to)| == |Those(s, to)| + 1
    ensures forall pc :: pc != from && pc != to ==> Those(r, pc) == Those(s, pc)
    ensures |r.threads| == |s.threads|
  {
    assert Those(s, from) == Those(r, from) + {t} && t !in Those(r, from);
    assert Those(r, to) == Those(s, to) + {t} && t !in Those(s, to);
    assert r.threads.Keys == s.threads.Keys;
    forall pc | pc != from && pc != to ensures Those(r, pc) == Those(s, pc) {
    }
  }

  lemma InvBounds(s: State)
    requires Inv(s)
    ensures s.cnt < WRAP
  {
    var both := Those(s, Waiting) + Those(s, Critical);
    assert Those(s, Waiting) !! Those(s, Critical);
    assert |both| == s.cnt;
    SubsetSize(both, s.threads.Keys);
    assert |s.threads.Keys| == |s.threads|;
  }

  /** A thread inside or waiting is counted. */
  lemma Counted(s: State, t: Thread, pc: Pc)
    requires At(s, t, pc)
    ensures |Those(s, pc)| > 0
  {
    assert t in Those(s, pc);
  }

  lemma InitInv(s: State)
    requires Init(s)
    ensures Inv(s)
  {
    assert Those(s, Waiting) == {} && Those(s, Critical) == {} && Those(s, Posting) == {};
  }

  lemma {:induction false} InvStep(s: State, step: Step)
    requires Inv(s) && Enabled(s, step)
    ensures Inv(Next(s, step))
  {
    hide Those;
    var r := Next(s, step);
    Counted(s, step.t, s.threads[step.t]);
    Moves(s, r, step.t, s.threads[step.t], r.threads[step.t]);
    InvBounds(s);
    if step.Enter? {
      EnterFits(s, step.t);
    }
  }

  /** The thread that enters was not counted, so the counter cannot wrap. */
  lemma EnterFits(s: State, t: Thread)
    requires Inv(s) && At(s, t, Idle)
    ensures s.cnt + 1 < WRAP
  {
    var both := Those(s, Waiting) + Those(s, Critical);
    assert Those(s, Waiting) !! Those(s, Critical) && t !in both;
    SubsetSize(both + {t}, s.threads.Keys);
    assert |s.threads.Keys| == |s.threads|;
  }

  ghost predicate Run(states: seq<State>, steps: seq<Step>) {
    && |states| == |steps| + 1
    && forall i :: 0 <= i < |steps| ==> Enabled(states[i], steps[i]) && states[i + 1] == Next(states[i], steps[i])
  }

  lemma {:induction false} RunInv(states: seq<State>, steps: seq<Step>, i: nat)
    requires Run(states, steps) && Init(states[0]) && i < |states|
    ensures Inv(states[i])
  {
    hide Inv, Next, Enabled, Init;
    if i == 0 {
      InitInv(states[0]);
    } else {
      RunInv(states, steps, i - 1);
      assert Enabled(states[i - 1], steps[i - 1]);
      InvStep(states[i - 1], steps[i - 1]);
    }
  }

  /** No two threads are ever inside together. */
  lemma MutualExclusion(states: seq<State>, steps: seq<Step>, i: nat, t: Thread, u: Thread)
    requires Run(states, steps) && Init(states[0]) && i < |states|
    requires At(states[i], t, Critical) && At(states[i], u, Critical)
    ensures t == u
  {
    RunInv(states, steps, i);
    if t != u {
      var two := {t, u};
      SubsetSize(two, Those(states[i], Critical));
    }
  }

  /** As long as anyone is waiting or inside, somebody other than a newcomer can take a step. */
  lemma SomeoneCanStep(states: seq<State>, steps: seq<Step>, i: nat)
    requires Run(states, steps) && Init(states[0]) && i < |states| && states[i].cnt > 0
    ensures exists step: Step :: !step.Enter? && Enabled(states[i], step)
  {
    RunInv(states, steps, i);
    Progress(states[i]);
  }

  lemma Progress(s: State)
    requires Inv(s) && s.cnt > 0
    ensures exists step: Step :: !step.Enter? && Enabled(s, step)
  {
    if Those(s, Critical) != {} {
      var t :| t in Those(s, Critical);
      assert Enabled(s, Leave(t));
    } else if Those(s, Posting) != {} {
      var t :| t in Those(s, Posting);
      assert Enabled(s, Post(t));
    } else {
      assert Those(s, Waiting) != {};
      var t :| t in Those(s, Waiting);
      assert Enabled(s, Acquire(t));
    }
  }

  /** Work left until everyone is out. */
  ghost function Work(s: State): nat {
    3 * |Those(s, Waiting)| + 2 * |Those(s, Critical)| + |Those(s, Posting)|
  }

  lemma StepDoesWork(s: State, step: Step)
    requires Inv(s) && Enabled(s, step) && !step.Enter?
    ensures Work(Next(s, step)) < Work(s)
  {
    hide Those;
    var r := Next(s, step);
    Moves(s, r, step.t, s.threads[step.t], r.threads[step.t]);
    InvBounds(s);
    Counted(s, step.t, s.threads[step.t]);
  }

  /** No wakeup is lost: once no newcomers arrive, no schedule can go on for more than Work steps, and wherever it
      cannot go on every thread has been let in and is out again. */
  lemma {:induction false} EveryoneGetsThrough(states: seq<State>, steps: seq<Step>)
    requires Run(states, steps) && Inv(states[0])
    requires forall i :: 0 <= i < |steps| ==> !steps[i].Enter?
    ensures |steps| + Work(states[|steps|]) <= Work(states[0])
    ensures (forall step: Step :: Enabled(states[|steps|], step) ==> step.Enter?)
        ==> forall t :: t in states[|steps|].threads ==> states[|steps|].threads[t] == Idle
  {
    InvAlong(states, steps);
    WorkAlong(states, steps);
    var last := states[|steps|];
    if forall step: Step :: Enabled(last, step) ==> step.Enter? {
      if last.cnt > 0 {
        Progress(last);
      }
      forall t | t in last.threads ensures last.threads[t] == Idle {
        if last.threads[t] != Idle {
          assert At(last, t, last.threads[t]);
          Counted(last, t, last.threads[t]);
        }
      }
    }
  }

  lemma {:induction false} InvAlong(states: seq<State>, steps: seq<Step>)
    requires Run(states, steps) && Inv(states[0])
    ensures Inv(states[|steps|])
    decreases |steps|
  {
    hide Inv, Next, Enabled;
    var n := |steps|;
    if n > 0 {
      assert Run(states[..n], steps[..n - 1]);
      InvAlong(states[..n], steps[..n - 1]);
      assert Enabled(states[n - 1], steps[n - 1]);
      InvStep(states[n - 1], steps[n - 1]);
    }
  }

  lemma {:induction false} WorkAlong(states: seq<State>, steps: seq<Step>)
    requires Run(states, steps) && Inv(states[0])
    requires forall i :: 0 <= i < |steps| ==> !steps[i].Enter?
    ensures |steps| + Work(states[|steps|]) <= Work(states[0])
    decreases |steps|
  {
    hide Inv, Next, Enabled, Work;
    var n := |steps|;
    if n > 0 {
      assert Run(states[..n], steps[..n - 1]);
      WorkAlong(states[..n], steps[..n - 1]);
      InvAlong(states[..n], steps[..n - 1]);
      assert Enabled(states[n - 1], steps[n - 1]);
      StepDoesWork(states[n - 1], steps[n - 1]);
    }
  }
}
