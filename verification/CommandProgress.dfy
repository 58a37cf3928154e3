/** Which callers can still return: exactly those that are not stuck. */
module CommandProgress {
  import opened CommandQueue
  import opened Commands
  import opened CommandRuns
  import opened Options

  /** The caller's command has entered the queue, and is one that the worker completes. */
  ghost predicate Hopeful(s: State, c: Thread, t: nat) {
    && c in s.callers && !s.callers[c].Created? && !s.callers[c].Returned?
    && var a := s.callers[c].a;
       a in s.heap && s.heap[a].ticket == t && t in s.rank && !NoFile(s.heap[a].kind)
  }

  /** The worker's steps until it can pop the next command. */
  function WorkerSteps(s: State): nat {
    match s.worker
    case Handling => 8
    case Locking => if s.cmd.Some? && s.cmd.value in s.heap && s.heap[s.cmd.value].lock != Free then 7 else 6
    case Marking => 5
    case Marked => 4
    case Looking => 3
    case Popping => 2
  }

  /** The step that brings the worker nearer to its next queue_pop. */
  function WorkerMove(s: State): Step {
    match s.worker
    case Handling => Handle(0)
    case Locking =>
      if s.cmd.Some? && s.cmd.value in s.heap && s.heap[s.cmd.value].lock != Free
      then Test(s.heap[s.cmd.value].caller) else LockIt
    case Marking => Mark
    case Marked => Unlock
    case Looking => Look
    case Popping => Pop
  }

  /** How far a caller is from its return. */
  ghost function Distance(s: State, c: Thread, t: nat): nat
    requires Hopeful(s, c, t)
  {
    var p := s.callers[c];
    var m := s.heap[p.a];
    if !m.done then
      10 + WorkerSteps(s)
      + 20 * (if Busy(s, p.a) || s.rank[t] < |s.popped| then 0 else s.rank[t] - |s.popped| + 1)
    else if p.Finished? then 1
    else if p.Released? then 2
    else if p.Holding? then 3
    else if m.lock == Free then 4
    else 5
  }

  /** A step that brings the caller nearer to its return. */
  ghost function StepFor(s: State, c: Thread, t: nat): Step
    requires Hopeful(s, c, t)
  {
    var p := s.callers[c];
    var m := s.heap[p.a];
    if m.done then
      match p
      case Finished(_, _) => FreeIt(c)
      case Released(_) => Copy(c)
      case Holding(_) => Test(c)
      case _ => if m.lock == Free then Acquire(c) else Unlock
    else
      WorkerMove(s)
  }

  /** A command that has not left the queue is in it. */
  lemma StillQueued(s: State, c: Thread, t: nat)
    requires Inv(s) && Hopeful(s, c, t)
    ensures var a := s.callers[c].a;
            !s.heap[a].done && !Busy(s, a) ==>
              && |s.popped| <= s.rank[t] < |s.pushed| && s.queue != []
              && s.queue[s.rank[t] - |s.popped|] == a
  {
    var a := s.callers[c].a;
    assert CallerOk(s, c) && CellOk(s, a) && TicketOk(s, t);
    if !s.heap[a].done && !Busy(s, a) {
      var i := s.rank[t] - |s.popped|;
      assert QueuedOk(s, i);
      assert CellOk(s, s.queue[i]);
    }
  }

  lemma ReturnStep(s: State, c: Thread, t: nat)
    requires Inv(s) && Hopeful(s, c, t) && s.heap[s.callers[c].a].done
    ensures var u := Do(s, StepFor(s, c, t));
            if s.callers[c].Finished? then u.callers[c] == Returned(t, s.callers[c].result)
            else Hopeful(u, c, t) && Distance(u, c, t) < Distance(s, c, t)
  {
    assert CallerOk(s, c) && CellOk(s, s.callers[c].a);
  }

  lemma WorkerStep(s: State, c: Thread, t: nat)
    requires Inv(s) && Hopeful(s, c, t) && !s.heap[s.callers[c].a].done
    ensures var u := Do(s, StepFor(s, c, t));
            Hopeful(u, c, t) && Distance(u, c, t) < Distance(s, c, t)
  {
    assert CallerOk(s, c) && CellOk(s, s.callers[c].a);
    StillQueued(s, c, t);
    if s.cmd.Some? && s.cmd.value in s.heap {
      assert CellOk(s, s.cmd.value);
    }
    if s.worker.Popping? {
      assert QueuedOk(s, 0) && EntryOk(s, |s.popped|);
    }
  }

  lemma {:induction false} CanReturn(s: State, c: Thread, t: nat)
    requires Inv(s) && Hopeful(s, c, t)
    ensures exists steps :: Returns(s, c, t, steps)
    decreases Distance(s, c, t)
  {
    var step := StepFor(s, c, t);
    var u := Do(s, step);
    StepKeeps(s, step);
    if s.heap[s.callers[c].a].done && s.callers[c].Finished? {
      ReturnStep(s, c, t);
      assert Run(u, []) == u;
      assert Returns(s, c, t, [step]);
    } else {
      if s.heap[s.callers[c].a].done { ReturnStep(s, c, t); } else { WorkerStep(s, c, t); }
      CanReturn(u, c, t);
      Prepend(s, c, t, step);
    }
  }

  /** The steps end with the caller's return from the call with that ticket. */
  ghost predicate Returns(s: State, c: Thread, t: nat, steps: seq<Step>) {
    var u := Run(s, steps);
    c in u.callers && u.callers[c].Returned? && u.callers[c].ticket == t
  }

  // ---------- callers that have not pushed yet ----------

  /** The caller has a command that the worker completes once it is queued. */
  ghost predicate Starting(s: State, c: Thread, t: nat) {
    && c in s.callers && s.callers[c].Created?
    && var a := s.callers[c].a;
       a in s.heap && s.heap[a].ticket == t && !NoFile(s.heap[a].kind)
  }

  lemma RoomStep(s: State, c: Thread, t: nat)
    requires Inv(s) && Starting(s, c, t) && s.queue != []
    ensures var u := Do(s, WorkerMove(s));
            && Starting(u, c, t)
            && (u.queue == s.queue ==> WorkerSteps(u) < WorkerSteps(s))
            && (u.queue != s.queue ==> |u.queue| < |s.queue|)
  {
    assert CallerOk(s, c) && CellOk(s, s.callers[c].a);
    if s.cmd.Some? && s.cmd.value in s.heap {
      assert CellOk(s, s.cmd.value);
    }
    if s.worker.Popping? {
      assert QueuedOk(s, 0) && EntryOk(s, |s.popped|);
    }
  }

  lemma Prepend(s: State, c: Thread, t: nat, step: Step)
    requires exists steps :: Returns(Do(s, step), c, t, steps)
    ensures exists steps :: Returns(s, c, t, steps)
  {
    var steps :| Returns(Do(s, step), c, t, steps);
    assert ([step] + steps)[1..] == steps;
    assert Returns(s, c, t, [step] + steps);
  }

  /** The queue can be given room, the command pushed, and its caller returns. */
  lemma {:induction false} CanStart(s: State, c: Thread, t: nat)
    requires Inv(s) && Starting(s, c, t)
    ensures exists steps :: Returns(s, c, t, steps)
    decreases if |s.queue| < MAX_COMMANDS_PENDING then 0 else 1 + WorkerSteps(s)
  {
    var step := if |s.queue| < MAX_COMMANDS_PENDING then PushIt(c) else WorkerMove(s);
    StepKeeps(s, step);
    if |s.queue| < MAX_COMMANDS_PENDING {
      CanReturn(Do(s, step), c, t);
    } else {
      RoomStep(s, c, t);
      CanStart(Do(s, step), c, t);
    }
    Prepend(s, c, t, step);
  }

  /** A caller in flight can return if and only if it is not stuck: its command shows the status
      or has a file, and the queue has not refused it. */
  lemma ReturnsIff(s: State, c: Thread)
    requires Inv(s) && c in s.callers && !s.callers[c].Returned?
    ensures s.callers[c].a in s.heap
    ensures (exists steps :: Returns(s, c, s.heap[s.callers[c].a].ticket, steps)) <==> !Stuck(s, c)
  {
    var a := s.callers[c].a;
    assert CallerOk(s, c) && CellOk(s, a);
    var t := s.heap[a].ticket;
    assert TicketOk(s, t);
    if Stuck(s, c) {
      forall steps ensures !Returns(s, c, t, steps) {
        StuckForever(s, c, steps);
      }
    } else if s.callers[c].Created? {
      CanStart(s, c, t);
    } else {
      CanReturn(s, c, t);
    }
  }
}
