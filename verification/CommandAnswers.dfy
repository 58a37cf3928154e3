/** Which result a caller returns, in terms of the steps of the run alone: what the upload or the
    download of its own, latest call returned to the network thread. */
module CommandAnswers {
  import opened Commands
  import opened CommandRuns
  import opened Options

  // ---------- runs, step by step ----------

  lemma {:induction false} RunSnoc(s: State, steps: seq<Step>, step: Step)
    ensures Run(s, steps + [step]) == Do(Run(s, steps), step)
    decreases |steps|
  {
    if steps == [] {
      assert (steps + [step])[1..] == [];
    } else {
      assert (steps + [step])[1..] == steps[1..] + [step];
      RunSnoc(Do(s, steps[0]), steps[1..], step);
    }
  }

  /** The state before step i. */
  function Before(steps: seq<Step>, i: nat): State
    requires i <= |steps|
  {
    Run(START, steps[..i])
  }

  lemma BeforeNext(steps: seq<Step>, i: nat)
    requires i < |steps|
    ensures Before(steps, i + 1) == Do(Before(steps, i), steps[i])
  {
    assert steps[..i + 1] == steps[..i] + [steps[i]];
    RunSnoc(START, steps[..i], steps[i]);
  }

  lemma BeforePrefix(front: seq<Step>, step: Step, i: nat)
    requires i <= |front|
    ensures Before(front + [step], i) == Before(front, i)
  {
    assert (front + [step])[..i] == front[..i];
  }

  // ---------- what can be read off the steps ----------

  /** At step j, caller c starts its call with a command of this kind at address a: it is the call
      number t of all callers. */
  ghost predicate CalledAt(steps: seq<Step>, j: nat, c: Thread, a: Addr, k: Kind, t: nat) {
    && j < |steps| && steps[j] == Create(c, a, k)
    && var s := Before(steps, j);
       a !in s.heap && (c in s.callers ==> s.callers[c].Returned?) && |s.tickets| == t
  }

  /** At step i the network thread serves call number t, of kind k, with the result x: 1 for a
      request of the status, and for an upload or a download with a file what that returns. */
  ghost predicate ServedAt(steps: seq<Step>, i: nat, t: nat, k: Kind, x: int) {
    && i < |steps|
    && var s := Before(steps, i);
       && s.worker == Handling && s.cmd.Some? && s.cmd.value in s.heap
       && s.heap[s.cmd.value].ticket == t && s.heap[s.cmd.value].kind == k
       && ((k == ShowStatus && x == 1 && exists r :: steps[i] == Handle(r))
           || ((k == Upload(true) || k == Download(true)) && steps[i] == Handle(x)))
  }

  ghost predicate Called(steps: seq<Step>, c: Thread, a: Addr, k: Kind, t: nat) {
    exists j: nat :: CalledAt(steps, j, c, a, k, t)
  }

  ghost predicate Served(steps: seq<Step>, t: nat, x: int) {
    exists i: nat, k :: ServedAt(steps, i, t, k, x)
  }

  lemma CalledStays(front: seq<Step>, step: Step, c: Thread, a: Addr, k: Kind, t: nat)
    requires Called(front, c, a, k, t)
    ensures Called(front + [step], c, a, k, t)
  {
    var j: nat :| CalledAt(front, j, c, a, k, t);
    BeforePrefix(front, step, j);
    assert CalledAt(front + [step], j, c, a, k, t);
  }

  lemma ServedStays(front: seq<Step>, step: Step, t: nat, x: int)
    requires Served(front, t, x)
    ensures Served(front + [step], t, x)
  {
    var i: nat, k :| ServedAt(front, i, t, k, x);
    BeforePrefix(front, step, i);
    assert ServedAt(front + [step], i, t, k, x);
  }

  // ---------- the numbers of the calls ----------

  lemma {:induction false} TicketsGrow(s: State, steps: seq<Step>)
    ensures |Run(s, steps).tickets| >= |s.tickets|
    decreases |steps|
  {
    if steps != [] {
      StepTickets(s, steps[0]);
      TicketsGrow(Do(s, steps[0]), steps[1..]);
    }
  }

  lemma {:induction false} RunSplit(s: State, a: seq<Step>, b: seq<Step>)
    ensures Run(s, a + b) == Run(Run(s, a), b)
    decreases |a|
  {
    if a == [] {
      assert a + b == b;
    } else {
      assert (a + b)[1..] == a[1..] + b;
      RunSplit(Do(s, a[0]), a[1..], b);
    }
  }

  /** Later calls have higher numbers. */
  lemma LaterCall(steps: seq<Step>, j: nat, c: Thread, a: Addr, k: Kind, t: nat, j': nat)
    requires CalledAt(steps, j, c, a, k, t) && j < j' <= |steps|
    ensures t < |Before(steps, j').tickets|
  {
    BeforeNext(steps, j);
    assert steps[..j'] == steps[..j + 1] + steps[j + 1..j'];
    RunSplit(START, steps[..j + 1], steps[j + 1..j']);
    TicketsGrow(Before(steps, j + 1), steps[j + 1..j']);
  }

  lemma CalledOnce(steps: seq<Step>, j: nat, c: Thread, a: Addr, k: Kind, j': nat, c': Thread, a': Addr, k': Kind,
                   t: nat)
    requires CalledAt(steps, j, c, a, k, t) && CalledAt(steps, j', c', a', k', t)
    ensures j == j' && c == c' && a == a' && k == k'
  {
    if j < j' {
      LaterCall(steps, j, c, a, k, t, j');
    } else if j' < j {
      LaterCall(steps, j', c', a', k', t, j);
    }
  }

  /** The number of the caller's latest call. */
  function Latest(s: State, c: Thread): nat
    requires c in s.callers
  {
    match s.callers[c]
    case Returned(t, _) => t
    case p => if p.a in s.heap then s.heap[p.a].ticket else 0
  }

  // ---------- what one step changes ----------

  /** The step is a call that is made. */
  predicate Calls(s: State, step: Step) {
    step.Create? && step.a !in s.heap && (step.c in s.callers ==> s.callers[step.c].Returned?)
  }

  /** What a command never loses: who allocated it, when, and what for. */
  predicate SameCall(m: Command, n: Command) {
    m.caller == n.caller && m.kind == n.kind && m.ticket == n.ticket
  }

  /** No call is made, and no command loses what it keeps. */
  ghost predicate Minor(s: State, u: State) {
    && u.tickets == s.tickets && u.heap.Keys <= s.heap.Keys
    && forall a | a in u.heap :: SameCall(u.heap[a], s.heap[a])
  }

  lemma LookIsMinor(s: State)
    ensures Minor(s, DoLook(s)) && DoLook(s).callers == s.callers && DoLook(s).handled == s.handled
  {
  }

  lemma PopIsMinor(s: State)
    ensures Minor(s, DoPop(s)) && DoPop(s).callers == s.callers && DoPop(s).handled == s.handled
  {
  }

  lemma LockIsMinor(s: State)
    ensures Minor(s, DoLock(s)) && DoLock(s).callers == s.callers && DoLock(s).handled == s.handled
  {
  }

  lemma MarkIsMinor(s: State)
    ensures Minor(s, DoMark(s)) && DoMark(s).callers == s.callers && DoMark(s).handled == s.handled
  {
  }

  lemma UnlockIsMinor(s: State)
    ensures Minor(s, DoUnlock(s)) && DoUnlock(s).callers == s.callers && DoUnlock(s).handled == s.handled
  {
  }

  lemma HandleIsMinor(s: State, r: int)
    ensures Minor(s, DoHandle(s, r)) && DoHandle(s, r).callers == s.callers
  {
  }

  lemma PushIsMinor(s: State, c: Thread)
    ensures Minor(s, DoPush(s, c)) && DoPush(s, c).handled == s.handled
  {
  }

  lemma AcquireIsMinor(s: State, c: Thread)
    ensures Minor(s, DoAcquire(s, c)) && DoAcquire(s, c).handled == s.handled
  {
  }

  lemma TestIsMinor(s: State, c: Thread)
    ensures Minor(s, DoTest(s, c)) && DoTest(s, c).handled == s.handled
  {
  }

  lemma CopyIsMinor(s: State, c: Thread)
    ensures Minor(s, DoCopy(s, c)) && DoCopy(s, c).handled == s.handled
  {
  }

  lemma FreeIsMinor(s: State, c: Thread)
    ensures Minor(s, DoFree(s, c)) && DoFree(s, c).handled == s.handled
  {
  }

  lemma StepIsMinor(s: State, step: Step)
    requires !step.Create?
    ensures Minor(s, Do(s, step))
    ensures !step.Handle? ==> Do(s, step).handled == s.handled
    ensures step.Look? || step.Pop? || step.Handle? || step.LockIt? || step.Mark? || step.Unlock? ==>
              Do(s, step).callers == s.callers
  {
    match step
    case PushIt(c) => PushIsMinor(s, c);
    case Acquire(c) => AcquireIsMinor(s, c);
    case Test(c) => TestIsMinor(s, c);
    case Copy(c) => CopyIsMinor(s, c);
    case FreeIt(c) => FreeIsMinor(s, c);
    case Look => LookIsMinor(s);
    case Pop => PopIsMinor(s);
    case Handle(r) => HandleIsMinor(s, r);
    case LockIt => LockIsMinor(s);
    case Mark => MarkIsMinor(s);
    case Unlock => UnlockIsMinor(s);
  }

  lemma StepCells(s: State, step: Step, a: Addr)
    requires a in Do(s, step).heap
    ensures var m := Do(s, step).heap[a];
            if Calls(s, step) && step.a == a
            then m.caller == step.c && m.kind == step.kind && m.ticket == |s.tickets|
            else a in s.heap && SameCall(m, s.heap[a])
  {
    if !step.Create? {
      StepIsMinor(s, step);
    }
  }

  lemma StepServes(s: State, step: Step, t: nat)
    requires t in Do(s, step).handled
    ensures var x := Do(s, step).handled[t];
            || (t in s.handled && x == s.handled[t])
            || (&& s.worker == Handling && s.cmd.Some? && s.cmd.value in s.heap && s.heap[s.cmd.value].ticket == t
                && var k := s.heap[s.cmd.value].kind;
                   (k == ShowStatus && x == 1 && exists r :: step == Handle(r))
                   || ((k == Upload(true) || k == Download(true)) && step == Handle(x)))
  {
    if step.Handle? {
      assert step == Handle(step.r);
    } else {
      OthersServeNothing(s, step);
    }
  }

  lemma OthersServeNothing(s: State, step: Step)
    requires !step.Handle?
    ensures Do(s, step).handled == s.handled
  {
    if !step.Create? {
      StepIsMinor(s, step);
    }
  }

  lemma StepTickets(s: State, step: Step)
    ensures |Do(s, step).tickets| >= |s.tickets|
  {
    if !step.Create? {
      StepIsMinor(s, step);
    }
  }

  /** The caller is with the same command before and after, or has just freed it. */
  predicate SameCommand(s: State, p: Caller, q: Caller) {
    || p == q
    || (!p.Returned? && !q.Returned? && p.a == q.a)
    || (p.Finished? && q.Returned? && p.a in s.heap && q.ticket == s.heap[p.a].ticket)
  }

  lemma StepCaller(s: State, step: Step, c: Thread)
    requires c in Do(s, step).callers && !(Calls(s, step) && step.c == c)
    ensures c in s.callers && SameCommand(s, s.callers[c], Do(s, step).callers[c])
  {
    if step.Look? || step.Pop? || step.Handle? || step.LockIt? || step.Mark? || step.Unlock? {
      StepIsMinor(s, step);
    }
  }

  lemma StepLatest(s: State, step: Step, c: Thread)
    requires Inv(s) && c in Do(s, step).callers
    ensures if Calls(s, step) && step.c == c then Latest(Do(s, step), c) == |s.tickets|
            else c in s.callers && Latest(Do(s, step), c) == Latest(s, c)
  {
    if !(Calls(s, step) && step.c == c) {
      StepKeeps(s, step);
      StepCaller(s, step, c);
      KeepsLatest(s, Do(s, step), step, c);
    }
  }

  lemma KeepsLatest(s: State, u: State, step: Step, c: Thread)
    requires Inv(s) && Inv(u) && u == Do(s, step) && c in s.callers && c in u.callers
    requires SameCommand(s, s.callers[c], u.callers[c]) && !(Calls(s, step) && step.c == c)
    ensures Latest(u, c) == Latest(s, c)
  {
    assert CallerOk(s, c) && CallerOk(u, c);
    if !u.callers[c].Returned? {
      StepCells(s, step, u.callers[c].a);
    }
  }

  // ---------- what is known after a run ----------

  /** Every command was allocated by a call, and every result was computed at a step. */
  ghost predicate Explained(steps: seq<Step>) {
    var s := Run(START, steps);
    && (forall a | a in s.heap :: Called(steps, s.heap[a].caller, a, s.heap[a].kind, s.heap[a].ticket))
    && (forall t | t in s.handled :: Served(steps, t, s.handled[t]))
  }

  /** The caller's latest call is one that it made, and it made no later one. */
  ghost predicate LatestIsOwn(steps: seq<Step>, c: Thread)
    requires c in Run(START, steps).callers
  {
    var t := Latest(Run(START, steps), c);
    && (exists a, k :: Called(steps, c, a, k, t))
    && forall a, k, t': nat | Called(steps, c, a, k, t') :: t' <= t
  }

  lemma NewCall(front: seq<Step>, step: Step)
    requires Calls(Run(START, front), step)
    ensures Called(front + [step], step.c, step.a, step.kind, |Run(START, front).tickets|)
  {
    assert (front + [step])[..|front|] == front;
    assert CalledAt(front + [step], |front|, step.c, step.a, step.kind, |Run(START, front).tickets|);
  }

  lemma NewService(front: seq<Step>, step: Step, t: nat)
    requires var s := Run(START, front);
             && t in Do(s, step).handled && !(t in s.handled && Do(s, step).handled[t] == s.handled[t])
    ensures Served(front + [step], t, Do(Run(START, front), step).handled[t])
  {
    var s := Run(START, front);
    assert (front + [step])[..|front|] == front;
    StepServes(s, step, t);
    assert ServedAt(front + [step], |front|, t, s.heap[s.cmd.value].kind, Do(s, step).handled[t]);
  }

  lemma ExplainMore(front: seq<Step>, step: Step)
    requires Explained(front)
    ensures Explained(front + [step])
  {
    RunSnoc(START, front, step);
    var s, u := Run(START, front), Run(START, front + [step]);
    forall a | a in u.heap ensures Called(front + [step], u.heap[a].caller, a, u.heap[a].kind, u.heap[a].ticket) {
      StepCells(s, step, a);
      if Calls(s, step) && step.a == a {
        NewCall(front, step);
      } else {
        CalledStays(front, step, s.heap[a].caller, a, s.heap[a].kind, s.heap[a].ticket);
      }
    }
    forall t | t in u.handled ensures Served(front + [step], t, u.handled[t]) {
      if t in s.handled && u.handled[t] == s.handled[t] {
        ServedStays(front, step, t, s.handled[t]);
      } else {
        NewService(front, step, t);
      }
    }
  }

  lemma {:induction false} RunIsExplained(steps: seq<Step>)
    ensures Explained(steps)
    decreases |steps|
  {
    if steps != [] {
      var front, step := steps[..|steps| - 1], steps[|steps| - 1];
      assert steps == front + [step];
      RunIsExplained(front);
      ExplainMore(front, step);
    }
  }

  /** A call of the longer run is one of the shorter run, or the last step. */
  lemma CalledBefore(front: seq<Step>, step: Step, c: Thread, a: Addr, k: Kind, t: nat)
    requires Called(front + [step], c, a, k, t)
    ensures Called(front, c, a, k, t)
            || (Calls(Run(START, front), step) && step.c == c && t == |Run(START, front).tickets|)
  {
    var j: nat :| CalledAt(front + [step], j, c, a, k, t);
    BeforePrefix(front, step, j);
    if j < |front| {
      assert CalledAt(front, j, c, a, k, t);
    } else {
      assert front[..|front|] == front;
    }
  }

  lemma CallIsBelow(steps: seq<Step>, c: Thread, a: Addr, k: Kind, t: nat)
    requires Called(steps, c, a, k, t)
    ensures t < |Run(START, steps).tickets|
  {
    var j: nat :| CalledAt(steps, j, c, a, k, t);
    LaterCall(steps, j, c, a, k, t, |steps|);
    assert steps[..|steps|] == steps;
  }

  lemma LatestMore(front: seq<Step>, step: Step, c: Thread)
    requires c in Run(START, front + [step]).callers
    requires c in Run(START, front).callers ==> LatestIsOwn(front, c)
    ensures LatestIsOwn(front + [step], c)
  {
    RunSnoc(START, front, step);
    RunKeeps(START, front);
    var s, steps := Run(START, front), front + [step];
    StepLatest(s, step, c);
    if Calls(s, step) && step.c == c {
      NewCall(front, step);
    } else {
      var a, k :| Called(front, c, a, k, Latest(s, c));
      CalledStays(front, step, c, a, k, Latest(s, c));
    }
    forall a, k, t: nat | Called(steps, c, a, k, t) ensures t <= Latest(Run(START, steps), c) {
      NoLaterCall(front, step, c, a, k, t);
    }
  }

  lemma NoLaterCall(front: seq<Step>, step: Step, c: Thread, a: Addr, k: Kind, t: nat)
    requires Called(front + [step], c, a, k, t)
    ensures t <= |Run(START, front).tickets|
    ensures !(Calls(Run(START, front), step) && step.c == c) ==> Called(front, c, a, k, t)
  {
    CalledBefore(front, step, c, a, k, t);
    if Called(front, c, a, k, t) {
      CallIsBelow(front, c, a, k, t);
    }
  }

  lemma {:induction false} LatestCalls(steps: seq<Step>, c: Thread)
    requires c in Run(START, steps).callers
    ensures LatestIsOwn(steps, c)
    decreases |steps|
  {
    if steps != [] {
      var front, step := steps[..|steps| - 1], steps[|steps| - 1];
      assert steps == front + [step];
      if c in Run(START, front).callers {
        LatestCalls(front, c);
      }
      LatestMore(front, step, c);
    }
  }

  /** The command that is served at a step was allocated by the call of its number. */
  lemma ServedIsCalled(steps: seq<Step>, i: nat, t: nat, k: Kind, x: int) returns (j: nat, c: Thread, a: Addr)
    requires ServedAt(steps, i, t, k, x)
    ensures j < i && CalledAt(steps, j, c, a, k, t)
  {
    var s := Before(steps, i);
    RunIsExplained(steps[..i]);
    a := s.cmd.value;
    c := s.heap[a].caller;
    j :| CalledAt(steps[..i], j, c, a, k, t);
    assert steps[..i][..j] == steps[..j];
  }

  /** The caller's latest call was made at step j, and what was computed for it at step i is x. */
  ghost predicate Answered(steps: seq<Step>, c: Thread, j: nat, i: nat, x: int) {
    && j < i < |steps|
    && (exists a, k, t :: CalledAt(steps, j, c, a, k, t) && ServedAt(steps, i, t, k, x))
    && forall j': nat, a, k, t | CalledAt(steps, j', c, a, k, t) :: j' <= j
  }

  /** In every interleaving, a caller that has returned x made its latest call, of a kind that is
      served, at some step, and at a later step the network thread got x from the upload or the
      download of just that call, or x is 1 and the call asked for the status. */
  lemma ReturnsOwnAnswer(steps: seq<Step>, c: Thread) returns (j: nat, i: nat)
    requires c in Run(START, steps).callers && Run(START, steps).callers[c].Returned?
    ensures Answered(steps, c, j, i, Run(START, steps).callers[c].result)
  {
    var s := Run(START, steps);
    var t, x := s.callers[c].ticket, s.callers[c].result;
    RunKeeps(START, steps);
    assert CallerOk(s, c);
    RunIsExplained(steps);
    LatestCalls(steps, c);
    var k;
    i, k :| ServedAt(steps, i, t, k, x);
    var c', a';
    j, c', a' := ServedIsCalled(steps, i, t, k, x);
    OwnCall(steps, c, j, c', a', k, t);
    forall j': nat, b, l, u | CalledAt(steps, j', c, b, l, u) ensures j' <= j {
      assert Called(steps, c, b, l, u);
      if j < j' {
        LaterCall(steps, j, c, a', k, t, j');
      }
    }
  }

  /** The call number t was made by the caller whose latest call has that number. */
  lemma OwnCall(steps: seq<Step>, c: Thread, j: nat, c': Thread, a': Addr, k: Kind, t: nat)
    requires c in Run(START, steps).callers && LatestIsOwn(steps, c) && t == Latest(Run(START, steps), c)
    requires CalledAt(steps, j, c', a', k, t)
    ensures c' == c
  {
    var a, l :| Called(steps, c, a, l, t);
    var j': nat :| CalledAt(steps, j', c, a, l, t);
    CalledOnce(steps, j, c', a', k, j', c, a, l, t);
  }
}
