/** What holds in every interleaving of the callers and the network thread. */
module CommandRuns {
  import opened CommandQueue
  import opened Commands
  import opened Options
  import opened Sets

  lemma StepKeeps(s: State, step: Step)
    requires Inv(s)
    ensures Inv(Do(s, step))
  {
    match step
    case Create(c, a, kind) => CreateKeeps(s, c, a, kind);
    case PushIt(c) => PushKeeps(s, c);
    case Acquire(c) => AcquireKeeps(s, c);
    case Test(c) => TestKeeps(s, c);
    case Copy(c) => CopyKeeps(s, c);
    case FreeIt(c) => FreeKeeps(s, c);
    case Look => LookKeeps(s);
    case Pop => PopKeeps(s);
    case Handle(r) => HandleKeeps(s, r);
    case LockIt => LockKeeps(s);
    case Mark => MarkKeeps(s);
    case Unlock => UnlockKeeps(s);
  }

  lemma {:induction false} RunKeeps(s: State, steps: seq<Step>)
    requires Inv(s)
    ensures Inv(Run(s, steps))
    decreases |steps|
  {
    if steps != [] {
      StepKeeps(s, steps[0]);
      RunKeeps(Do(s, steps[0]), steps[1..]);
    }
  }

  // ---------- safety ----------

  /** Commands leave the queue in the order in which they entered it, each of them once. */
  ghost predicate FirstInFirstOut(s: State) {
    && (forall i: nat, j: nat | i < j < |s.pushed| :: s.pushed[i] != s.pushed[j])
    && s.popped + Queued(s) == s.pushed
  }

  /** The tickets of the queued commands. */
  ghost function Queued(s: State): seq<int> {
    seq(|s.queue|, i requires 0 <= i < |s.queue| => if s.queue[i] in s.heap then s.heap[s.queue[i]].ticket else -1)
  }

  /** A command that is about to be freed is done and unlocked, and nobody else will use it. */
  ghost predicate FreeIsSafe(s: State, c: Thread)
    requires c in s.callers
  {
    s.callers[c].Finished? ==>
      var a := s.callers[c].a;
      && a in s.heap && s.heap[a].done && s.heap[a].lock == Free
      && a !in s.queue && !Busy(s, a)
      && forall d | d in s.callers && d != c :: Slot(s.callers[d]) != Some(a)
  }

  /** A caller gets the result that the worker computed for its command. */
  ghost predicate AnswerIsRight(s: State, c: Thread)
    requires c in s.callers
  {
    var p := s.callers[c];
    p.Returned? ==> p.ticket in s.popped && p.ticket in s.handled && p.result == s.handled[p.ticket]
  }

  ghost predicate Safe(s: State) {
    && !s.crashed
    && FirstInFirstOut(s)
    && (s.worker.Popping? ==> s.queue != [])
    && (forall c | c in s.callers :: FreeIsSafe(s, c) && AnswerIsRight(s, c))
  }

  lemma InvMeansSafe(s: State)
    requires Inv(s)
    ensures Safe(s)
  {
    assert FirstInFirstOut(s) by {
      forall i: nat | i < |s.queue| ensures Queued(s)[i] == s.pushed[|s.popped| + i] {
        assert QueuedOk(s, i);
      }
      forall i: nat | i < |s.popped| ensures s.popped[i] == s.pushed[i] {
        assert EntryOk(s, i);
      }
      forall i: nat, j: nat | i < j < |s.pushed| ensures s.pushed[i] != s.pushed[j] {
        assert EntryOk(s, i) && EntryOk(s, j);
      }
    }
    forall c | c in s.callers ensures FreeIsSafe(s, c) && AnswerIsRight(s, c) {
      assert CallerOk(s, c);
      match s.callers[c] {
        case Finished(_, _) => CallerIsSafe(s, c);
        case Returned(t, _) =>
          assert TicketOk(s, t);
          assert EntryOk(s, s.rank[t]);
        case _ =>
      }
    }
  }

  lemma CallerIsSafe(s: State, c: Thread)
    requires Inv(s) && c in s.callers && s.callers[c].Finished?
    ensures FreeIsSafe(s, c)
  {
    var a := s.callers[c].a;
    assert CallerOk(s, c);
    assert CellOk(s, a);
    forall i: nat | i < |s.queue| ensures s.queue[i] != a {
      assert QueuedOk(s, i);
    }
    forall d | d in s.callers && Slot(s.callers[d]) == Some(a) ensures d == c {
      assert CallerOk(s, d);
    }
  }

  /** Every interleaving of every number of callers with the worker is safe. */
  lemma EveryRunIsSafe(steps: seq<Step>)
    ensures Safe(Run(START, steps))
  {
    RunKeeps(START, steps);
    InvMeansSafe(Run(START, steps));
  }

  /** The result that the worker gives a command is never replaced, and a caller that has
      returned keeps what it returned until it calls again. */
  lemma AnswersStay(s: State, step: Step, t: nat)
    requires Inv(s) && t in s.handled
    ensures t in Do(s, step).handled && Do(s, step).handled[t] == s.handled[t]
  {
    if step.Handle? && s.worker.Handling? {
      assert CellOk(s, s.cmd.value);
    }
  }

  // ---------- when queue_push finds room ----------

  ghost function InFlight(s: State): set<Thread> {
    set c | c in s.callers && !s.callers[c].Returned?
  }

  /** The callers of the first n queued commands. */
  ghost function Owners(s: State, n: nat): set<Thread> {
    set i: nat | i < n :: OwnerAt(s, i)
  }

  function OwnerAt(s: State, i: nat): Thread {
    if i < |s.queue| && s.queue[i] in s.heap then s.heap[s.queue[i]].caller else 0
  }

  lemma OwnersDiffer(s: State, i: nat, j: nat)
    requires Inv(s) && i < j < |s.queue|
    ensures OwnerAt(s, i) != OwnerAt(s, j)
  {
    assert QueuedOk(s, i) && QueuedOk(s, j);
    assert CellOk(s, s.queue[i]) && CellOk(s, s.queue[j]);
    assert EntryOk(s, |s.popped| + i) && EntryOk(s, |s.popped| + j);
  }

  lemma OwnerExpects(s: State, i: nat)
    requires Inv(s) && i < |s.queue|
    ensures OwnerAt(s, i) in s.callers && Expecting(s.callers[OwnerAt(s, i)])
  {
    assert QueuedOk(s, i) && EntryOk(s, |s.popped| + i);
    assert CellOk(s, s.queue[i]);
  }

  lemma {:induction false} OwnersCount(s: State, n: nat)
    requires forall i: nat, j: nat | i < j < n :: OwnerAt(s, i) != OwnerAt(s, j)
    ensures |Owners(s, n)| == n
  {
    if n > 0 {
      OwnersCount(s, n - 1);
      assert Owners(s, n) == Owners(s, n - 1) + {OwnerAt(s, n - 1)};
    } else {
      assert Owners(s, n) == {};
    }
  }

  /** As long as no more callers are in flight than the queue has places, a push finds room. */
  lemma PushFindsRoom(s: State, c: Thread)
    requires Inv(s) && c in s.callers && s.callers[c].Created? && |InFlight(s)| <= MAX_COMMANDS_PENDING
    ensures |s.queue| < MAX_COMMANDS_PENDING
  {
    forall i: nat, j: nat | i < j < |s.queue| ensures OwnerAt(s, i) != OwnerAt(s, j) {
      OwnersDiffer(s, i, j);
    }
    OwnersCount(s, |s.queue|);
    var others := InFlight(s) - {c};
    forall i: nat | i < |s.queue| ensures OwnerAt(s, i) in others {
      OwnerExpects(s, i);
    }
    assert Owners(s, |s.queue|) <= others;
    SubsetSize(Owners(s, |s.queue|), others);
  }

  // ---------- the callers that never return ----------

  /** The caller's command has no file, or it waits for a command that the queue refused. */
  ghost predicate Stuck(s: State, c: Thread) {
    && c in s.callers && (s.callers[c].Created? || Expecting(s.callers[c]))
    && var a := s.callers[c].a;
       && a in s.heap
       && (NoFile(s.heap[a].kind) || (Expecting(s.callers[c]) && s.heap[a].ticket !in s.rank))
  }

  /** No step of any thread helps a stuck caller. */
  lemma StuckStays(s: State, c: Thread, step: Step)
    requires Inv(s) && Stuck(s, c)
    ensures Stuck(Do(s, step), c)
  {
    var a := s.callers[c].a;
    assert CallerOk(s, c);
    assert CellOk(s, a) && TicketOk(s, s.heap[a].ticket);
    if step.PushIt? && step.c in s.callers && s.callers[step.c].Created? {
      assert CallerOk(s, step.c);
      assert CellOk(s, s.callers[step.c].a);
    }
    if step.FreeIt? && step.c in s.callers && s.callers[step.c].Finished? {
      assert CallerOk(s, step.c);
    }
  }

  /** A caller whose push was refused, or whose command has no file, is stuck for ever. */
  lemma {:induction false} StuckForever(s: State, c: Thread, steps: seq<Step>)
    requires Inv(s) && Stuck(s, c)
    ensures Stuck(Run(s, steps), c)
    decreases |steps|
  {
    if steps != [] {
      StepKeeps(s, steps[0]);
      StuckStays(s, c, steps[0]);
      StuckForever(Do(s, steps[0]), c, steps[1..]);
    }
  }

  // ---------- runs that end in a stuck caller ----------

  /** An upload without a file, as soon as it is pushed. */
  lemma UploadWithoutFileIsStuck()
    ensures Stuck(Run(START, [Create(0, 0, Upload(false)), PushIt(0)]), 0)
  {
    var s1 := Do(START, Create(0, 0, Upload(false)));
    var steps := [Create(0, 0, Upload(false)), PushIt(0)];
    assert steps[1..] == [PushIt(0)] && steps[1..][1..] == [];
    assert Run(START, steps) == Do(s1, PushIt(0));
  }

  /** n callers ask for the status, each at its own address, before the worker does anything. */
  function Asking(from: nat, n: nat): seq<Step>
    decreases n
  {
    if n == 0 then [] else [Create(from, from, ShowStatus), PushIt(from)] + Asking(from + 1, n - 1)
  }

  ghost predicate Asked(s: State, n: nat) {
    && Inv(s) && |s.queue| == n
    && (forall c | c in s.callers :: c < n) && (forall a | a in s.heap :: a < n)
  }

  lemma AskOnce(s: State, n: nat) returns (u: State)
    requires Asked(s, n) && n < MAX_COMMANDS_PENDING
    ensures u == Do(Do(s, Create(n, n, ShowStatus)), PushIt(n)) && Asked(u, n + 1)
  {
    StepKeeps(s, Create(n, n, ShowStatus));
    var s1 := Do(s, Create(n, n, ShowStatus));
    StepKeeps(s1, PushIt(n));
    u := Do(s1, PushIt(n));
  }

  lemma {:induction false} AskingFills(s: State, from: nat, n: nat)
    requires Asked(s, from) && from + n <= MAX_COMMANDS_PENDING
    ensures Asked(Run(s, Asking(from, n)), from + n)
    decreases n
  {
    if n > 0 {
      var steps := Asking(from, n);
      var u := AskOnce(s, from);
      assert steps[0] == Create(from, from, ShowStatus) && steps[1..][0] == PushIt(from);
      assert steps[1..][1..] == Asking(from + 1, n - 1);
      assert Run(s, steps) == Run(u, Asking(from + 1, n - 1));
      AskingFills(u, from + 1, n - 1);
    }
  }

  /** After ten calls that the worker has not seen yet, the push of an eleventh is refused, and
      its caller is stuck although the worker would serve its command. */
  lemma EleventhCallIsStuck(n: nat)
    requires n == 10
    ensures var s := Run(START, Asking(0, n));
            Stuck(Do(Do(s, Create(n, n, ShowStatus)), PushIt(n)), n)
  {
    AskingFills(START, 0, n);
    RefusedIsStuck(Run(START, Asking(0, n)), n);
  }

  lemma RefusedIsStuck(s: State, c: Thread)
    requires Asked(s, c) && c == MAX_COMMANDS_PENDING
    ensures Stuck(Do(Do(s, Create(c, c, ShowStatus)), PushIt(c)), c)
  {
    StepKeeps(s, Create(c, c, ShowStatus));
    assert CellOk(Do(s, Create(c, c, ShowStatus)), c);
  }
}
