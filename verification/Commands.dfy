/** The hand-off of commands between the threads that call into the client (src/client.c) and
    the network thread that serves them (src/network.c), as interleaved steps. Each step is
    one access to what the threads share. */
module Commands {
  import opened CommandQueue
  import opened Options

  type Addr = nat
  type Thread = nat

  // enum CommandType with the file of an upload or a download; `file` says it is not NULL.
  datatype Kind = ShowStatus | Upload(file: bool) | Download(file: bool)

  datatype Lock = Free | ByCaller | ByWorker

  // struct Command. `caller` and `ticket` say who allocated it, and how many were allocated
  // before; no thread reads them.
  datatype Command = Command(caller: Thread, ticket: nat, kind: Kind, lock: Lock, done: bool, result: int)

  // Where a calling thread is in download_file, upload_file or show_network_status.
  datatype Caller =
    | Created(a: Addr)               // before queue_push
    | Pushed(a: Addr)                // before pthread_mutex_lock
    | Holding(a: Addr)               // holds the lock, before it tests `done`
    | Waiting(a: Addr)               // in pthread_cond_wait, without the lock
    | Released(a: Addr)              // has seen `done` and given the lock back
    | Finished(a: Addr, result: int) // has copied the result, before free
    | Returned(ticket: nat, result: int)

  // Where the network thread is in handle_pending.
  datatype Worker =
    | Looking  // before it reads `count`
    | Popping  // has seen count > 0, before queue_pop
    | Handling // before it reads the command
    | Locking  // has written the result, before pthread_mutex_lock
    | Marking  // holds the lock, before it sets `done`
    | Marked   // holds the lock, has set `done`

  // The memory that the threads share, where they are, and what has happened: which address
  // each ticket was for, the tickets in the order of queue_push (and the rank of each in that
  // order) and of queue_pop, and the result that the worker computed for a ticket. `crashed`
  // says that a thread has used memory that is not allocated, or freed a command whose lock is
  // held.
  datatype State = State(
    heap: map<Addr, Command>, queue: seq<Addr>, callers: map<Thread, Caller>, worker: Worker, cmd: Option<Addr>,
    tickets: seq<Addr>, pushed: seq<nat>, rank: map<nat, nat>, popped: seq<nat>, handled: map<nat, int>, crashed: bool)

  const START: State := State(map[], [], map[], Looking, None, [], [], map[], [], map[], false)

  datatype Step =
    | Create(c: Thread, a: Addr, kind: Kind)
    | PushIt(c: Thread)
    | Acquire(c: Thread)
    | Test(c: Thread)
    | Copy(c: Thread)
    | FreeIt(c: Thread)
    | Look
    | Pop
    | Handle(r: int)
    | LockIt
    | Mark
    | Unlock

  function Crash(s: State): State {
    s.(crashed := true)
  }

  /** The command that a caller has allocated. */
  function Slot(p: Caller): Option<Addr> {
    match p
    case Created(a) => Some(a)
    case Pushed(a) => Some(a)
    case Holding(a) => Some(a)
    case Waiting(a) => Some(a)
    case Released(a) => Some(a)
    case Finished(a, _) => Some(a)
    case Returned(_, _) => None
  }

  // ---------- the steps of a caller ----------

  /** malloc, command_init and the assignments to a command that nobody else knows: malloc gives
      any address that is not in use. */
  function DoCreate(s: State, c: Thread, a: Addr, kind: Kind): State {
    if a in s.heap || (c in s.callers && !s.callers[c].Returned?) then s
    else
      s.(heap := s.heap[a := Command(c, |s.tickets|, kind, Free, false, 0)],
         callers := s.callers[c := Created(a)],
         tickets := s.tickets + [a])
  }

  /** queue_push, whose answer the callers ignore. */
  function DoPush(s: State, c: Thread): State {
    if c !in s.callers || !s.callers[c].Created? then s
    else
      var a := s.callers[c].a;
      if a !in s.heap then Crash(s)
      else if |s.queue| == MAX_COMMANDS_PENDING then s.(callers := s.callers[c := Pushed(a)])
      else
        var t := s.heap[a].ticket;
        s.(queue := Push(s.queue, a),
           callers := s.callers[c := Pushed(a)],
           pushed := s.pushed + [t],
           rank := s.rank[t := |s.pushed|])
  }

  /** pthread_mutex_lock, and the end of pthread_cond_wait, which may come without a signal. */
  function DoAcquire(s: State, c: Thread): State {
    if c !in s.callers || !(s.callers[c].Pushed? || s.callers[c].Waiting?) then s
    else
      var a := s.callers[c].a;
      if a !in s.heap then Crash(s)
      else if s.heap[a].lock != Free then s
      else s.(heap := s.heap[a := s.heap[a].(lock := ByCaller)], callers := s.callers[c := Holding(a)])
  }

  /** The test of `done`, and then the start of pthread_cond_wait or pthread_mutex_unlock. */
  function DoTest(s: State, c: Thread): State {
    if c !in s.callers || !s.callers[c].Holding? then s
    else
      var a := s.callers[c].a;
      if a !in s.heap then Crash(s)
      else
        s.(heap := s.heap[a := s.heap[a].(lock := Free)],
           callers := s.callers[c := if s.heap[a].done then Released(a) else Waiting(a)])
  }

  function DoCopy(s: State, c: Thread): State {
    if c !in s.callers || !s.callers[c].Released? then s
    else
      var a := s.callers[c].a;
      if a !in s.heap then Crash(s) else s.(callers := s.callers[c := Finished(a, s.heap[a].result)])
  }

  /** command_destroy and free, and the return. */
  function DoFree(s: State, c: Thread): State {
    if c !in s.callers || !s.callers[c].Finished? then s
    else
      var a := s.callers[c].a;
      if a !in s.heap || s.heap[a].lock != Free then Crash(s)
      else
        s.(heap := s.heap - {a},
           callers := s.callers[c := Returned(s.heap[a].ticket, s.callers[c].result)])
  }

  // ---------- the steps of the worker ----------

  /** The condition of the loop, read without the lock of the queue. */
  function DoLook(s: State): State {
    if s.worker != Looking || s.queue == [] then s else s.(worker := Popping)
  }

  /** queue_pop, whose answer the worker ignores: when it fails, `cmd` stays as it was. */
  function DoPop(s: State): State {
    if s.worker != Popping then s
    else if s.queue == [] then s.(worker := Handling)
    else if s.queue[0] !in s.heap then Crash(s)
    else
      s.(worker := Handling, cmd := Some(s.queue[0]), queue := s.queue[1..],
         popped := s.popped + [s.heap[s.queue[0]].ticket])
  }

  predicate NoFile(k: Kind) {
    !k.ShowStatus? && !k.file
  }

  /** The switch; r is what handle_rpc_upload or handle_rpc_download returns. An upload or a
      download without a file is skipped. */
  function DoHandle(s: State, r: int): State {
    if s.worker != Handling then s
    else if s.cmd.None? || s.cmd.value !in s.heap then Crash(s)
    else
      var m := s.heap[s.cmd.value];
      if NoFile(m.kind) then s.(worker := Looking)
      else
        var result := if m.kind.ShowStatus? then 1 else r;
        s.(worker := Locking,
           heap := s.heap[s.cmd.value := m.(result := result)],
           handled := s.handled[m.ticket := result])
  }

  function DoLock(s: State): State {
    if s.worker != Locking then s
    else if s.cmd.None? || s.cmd.value !in s.heap then Crash(s)
    else if s.heap[s.cmd.value].lock != Free then s
    else s.(worker := Marking, heap := s.heap[s.cmd.value := s.heap[s.cmd.value].(lock := ByWorker)])
  }

  function DoMark(s: State): State {
    if s.worker != Marking then s
    else if s.cmd.None? || s.cmd.value !in s.heap then Crash(s)
    else s.(worker := Marked, heap := s.heap[s.cmd.value := s.heap[s.cmd.value].(done := true)])
  }

  function DoUnlock(s: State): State {
    if s.worker != Marked then s
    else if s.cmd.None? || s.cmd.value !in s.heap then Crash(s)
    else s.(worker := Looking, heap := s.heap[s.cmd.value := s.heap[s.cmd.value].(lock := Free)])
  }

  /** One step of any thread; a step that its thread cannot take changes nothing. */
  function Do(s: State, step: Step): State {
    match step
    case Create(c, a, kind) => DoCreate(s, c, a, kind)
    case PushIt(c) => DoPush(s, c)
    case Acquire(c) => DoAcquire(s, c)
    case Test(c) => DoTest(s, c)
    case Copy(c) => DoCopy(s, c)
    case FreeIt(c) => DoFree(s, c)
    case Look => DoLook(s)
    case Pop => DoPop(s)
    case Handle(r) => DoHandle(s, r)
    case LockIt => DoLock(s)
    case Mark => DoMark(s)
    case Unlock => DoUnlock(s)
  }

  /** An interleaving of the threads' steps. */
  function Run(s: State, steps: seq<Step>): State
    decreases |steps|
  {
    if steps == [] then s else Run(Do(s, steps[0]), steps[1..])
  }

  // ---------- the invariant ----------

  /** The worker has popped a command and will use it. */
  predicate Serving(s: State) {
    !s.worker.Looking? && !s.worker.Popping?
  }

  /** This is the command. */
  predicate Busy(s: State, a: Addr) {
    Serving(s) && s.cmd == Some(a)
  }

  /** The caller's command is still in the queue or with the worker, or was refused or skipped. */
  predicate Expecting(p: Caller) {
    p.Pushed? || p.Holding? || p.Waiting?
  }

  ghost predicate CallerOk(s: State, c: Thread)
    requires c in s.callers
  {
    var p := s.callers[c];
    && (p.Returned? ==> p.ticket in s.handled && s.handled[p.ticket] == p.result)
    && (!p.Returned? ==> p.a in s.heap && s.heap[p.a].caller == c)
    && (p.Finished? ==> s.heap[p.a].result == p.result)
  }

  ghost predicate CellOk(s: State, a: Addr)
    requires a in s.heap
  {
    var m := s.heap[a];
    && m.caller in s.callers
    && var p := s.callers[m.caller];
    && Slot(p) == Some(a)
    && m.ticket < |s.tickets| && s.tickets[m.ticket] == a
    && (m.lock == ByCaller <==> p.Holding?)
    && (m.lock == ByWorker <==> (s.worker.Marking? || s.worker.Marked?) && s.cmd == Some(a))
    && (p.Created? ==> m.ticket !in s.rank)
    && (p.Released? || p.Finished? ==> m.done && m.lock == Free)
    && (m.done ==> !p.Created? && (Busy(s, a) ==> s.worker.Marked?))
    && (Left(s, m.ticket) ==> m.done || Busy(s, a) || NoFile(m.kind))
    && (m.ticket in s.handled <==> m.done || (Busy(s, a) && !s.worker.Handling?))
    && (m.ticket in s.handled ==> s.handled[m.ticket] == m.result && !NoFile(m.kind))
  }

  ghost predicate QueuedOk(s: State, i: nat)
    requires i < |s.queue| && |s.pushed| == |s.popped| + |s.queue|
  {
    var a := s.queue[i];
    && a in s.heap && !s.heap[a].done && !Busy(s, a)
    && s.heap[a].ticket == s.pushed[|s.popped| + i]
  }

  /** The ticket has left the queue. */
  ghost predicate Left(s: State, t: nat) {
    t in s.rank && s.rank[t] < |s.popped|
  }

  ghost predicate WorkerOk(s: State) {
    && (s.worker.Popping? ==> s.queue != [])
    && (s.worker != Looking && s.worker != Popping ==>
          && s.cmd.Some? && s.cmd.value in s.heap
          && Left(s, s.heap[s.cmd.value].ticket)
          && (s.worker.Marked? ==> s.heap[s.cmd.value].done))
  }

  ghost predicate EntryOk(s: State, i: nat)
    requires i < |s.pushed|
  {
    && s.pushed[i] in s.rank && s.rank[s.pushed[i]] == i
    && (i < |s.popped| ==> s.popped[i] == s.pushed[i])
  }

  ghost predicate TicketOk(s: State, t: nat) {
    && (t in s.rank ==> t < |s.tickets| && s.rank[t] < |s.pushed| && s.pushed[s.rank[t]] == t)
    && (t in s.handled ==> Left(s, t))
  }

  ghost predicate HistoryOk(s: State) {
    && |s.queue| <= MAX_COMMANDS_PENDING
    && |s.pushed| == |s.popped| + |s.queue|
    && (forall i: nat {:trigger EntryOk(s, i)} | i < |s.pushed| :: EntryOk(s, i))
    && (forall t {:trigger TicketOk(s, t)} :: TicketOk(s, t))
  }

  ghost predicate Inv(s: State) {
    && !s.crashed
    && (forall c {:trigger CallerOk(s, c)} | c in s.callers :: CallerOk(s, c))
    && (forall a {:trigger CellOk(s, a)} | a in s.heap :: CellOk(s, a))
    && HistoryOk(s)
    && (forall i: nat {:trigger QueuedOk(s, i)} | i < |s.queue| :: QueuedOk(s, i))
    && WorkerOk(s)
  }

  // ---------- every step keeps it ----------

  /** Nobody's command is touched but those in `what`, whose callers are in `who`, and the queue
      and the history stay. */
  ghost predicate Local(s: State, u: State, who: set<Thread>, what: set<Addr>) {
    && !u.crashed && u.queue == s.queue && u.cmd == s.cmd && u.tickets == s.tickets
    && u.pushed == s.pushed && u.rank == s.rank && u.popped == s.popped && u.handled == s.handled
    && u.callers.Keys == s.callers.Keys && u.heap.Keys <= s.heap.Keys
    && (forall d | d in s.callers && d !in who :: u.callers[d] == s.callers[d])
    && (forall b | b in s.heap && b !in what :: b in u.heap && u.heap[b] == s.heap[b])
    && (forall d | d in s.callers && d in who && !s.callers[d].Returned? :: s.callers[d].a in what)
    && (forall b | b in s.heap && b in what ::
          && s.heap[b].caller in who
          && (if b !in u.heap then s.heap[b].done && !Busy(s, b)
              else u.heap[b].ticket == s.heap[b].ticket
                   && (u.heap[b].done ==> s.heap[b].done || Busy(s, b))))
    && (u.worker == s.worker || (!Serving(s) && !Serving(u)) || (Serving(s) && s.cmd.Some? && s.cmd.value in what))
  }

  lemma FrameCell(s: State, u: State, who: set<Thread>, what: set<Addr>, b: Addr)
    requires Inv(s) && Local(s, u, who, what) && b in s.heap && b !in what
    ensures CellOk(u, b)
  {
    assert CellOk(s, b);
  }

  lemma FrameQueued(s: State, u: State, who: set<Thread>, what: set<Addr>, i: nat)
    requires Inv(s) && Local(s, u, who, what) && i < |s.queue|
    ensures QueuedOk(u, i)
  {
    assert QueuedOk(s, i);
  }

  /** It is then enough to look at those. */
  lemma Frame(s: State, u: State, who: set<Thread>, what: set<Addr>)
    requires Inv(s) && Local(s, u, who, what)
    requires forall d | d in u.callers && d in who :: CallerOk(u, d)
    requires forall b | b in u.heap && b in what :: CellOk(u, b)
    requires WorkerOk(u)
    ensures Inv(u)
  {
    forall d | d in u.callers ensures CallerOk(u, d) {
      assert CallerOk(s, d);
    }
    forall b | b in u.heap ensures CellOk(u, b) {
      if b !in what {
        FrameCell(s, u, who, what, b);
      }
    }
    forall i: nat | i < |u.queue| ensures QueuedOk(u, i) {
      FrameQueued(s, u, who, what, i);
    }
    forall i: nat | i < |u.pushed| ensures EntryOk(u, i) {
      assert EntryOk(s, i);
    }
    forall t ensures TicketOk(u, t) {
      assert TicketOk(s, t);
    }
  }

  lemma CreateCell(s: State, c: Thread, a: Addr, kind: Kind, b: Addr)
    requires Inv(s) && a !in s.heap && (c in s.callers ==> s.callers[c].Returned?) && b in DoCreate(s, c, a, kind).heap
    ensures CellOk(DoCreate(s, c, a, kind), b)
  {
    assert TicketOk(s, |s.tickets|);
    assert b in s.heap ==> CellOk(s, b);
  }

  lemma CreateHistory(s: State, c: Thread, a: Addr, kind: Kind)
    requires Inv(s) && a !in s.heap && (c in s.callers ==> s.callers[c].Returned?)
    ensures HistoryOk(DoCreate(s, c, a, kind))
  {
    var u := DoCreate(s, c, a, kind);
    assert TicketOk(s, |s.tickets|);
    forall i: nat | i < |u.pushed| ensures EntryOk(u, i) {
      assert i < |s.pushed| ==> EntryOk(s, i);
    }
    forall t ensures TicketOk(u, t) {
      assert TicketOk(s, t);
    }
  }

  lemma CreateKeeps(s: State, c: Thread, a: Addr, kind: Kind)
    requires Inv(s)
    ensures Inv(DoCreate(s, c, a, kind))
  {
    if a in s.heap || (c in s.callers && !s.callers[c].Returned?) {
      return;
    }
    var u := DoCreate(s, c, a, kind);
    assert TicketOk(s, |s.tickets|);
    forall d | d in u.callers ensures CallerOk(u, d) {
      assert d in s.callers ==> CallerOk(s, d);
    }
    forall b | b in u.heap ensures CellOk(u, b) {
      CreateCell(s, c, a, kind, b);
    }
    forall i: nat | i < |u.queue| ensures QueuedOk(u, i) {
      assert i < |s.queue| ==> QueuedOk(s, i);
    }
    CreateHistory(s, c, a, kind);
  }

  lemma PushCell(s: State, c: Thread, b: Addr)
    requires Inv(s) && c in s.callers && s.callers[c].Created? && b in DoPush(s, c).heap
    ensures CellOk(DoPush(s, c), b)
  {
    assert CallerOk(s, c) && CellOk(s, s.callers[c].a);
    assert b in s.heap ==> CellOk(s, b);
  }

  lemma PushHistory(s: State, c: Thread)
    requires Inv(s) && c in s.callers && s.callers[c].Created?
    ensures HistoryOk(DoPush(s, c))
  {
    var u := DoPush(s, c);
    assert CallerOk(s, c) && CellOk(s, s.callers[c].a);
    forall i: nat | i < |u.pushed| ensures EntryOk(u, i) {
      assert i < |s.pushed| ==> EntryOk(s, i);
    }
    forall t ensures TicketOk(u, t) {
      assert TicketOk(s, t);
    }
  }

  lemma PushKeeps(s: State, c: Thread)
    requires Inv(s)
    ensures Inv(DoPush(s, c))
  {
    if c !in s.callers || !s.callers[c].Created? {
      return;
    }
    var u := DoPush(s, c);
    assert CallerOk(s, c) && CellOk(s, s.callers[c].a);
    forall d | d in u.callers ensures CallerOk(u, d) {
      assert d in s.callers ==> CallerOk(s, d);
    }
    forall b | b in u.heap ensures CellOk(u, b) {
      PushCell(s, c, b);
    }
    forall i: nat | i < |u.queue| ensures QueuedOk(u, i) {
      assert i < |s.queue| ==> QueuedOk(s, i);
    }
    PushHistory(s, c);
  }

  lemma AcquireKeeps(s: State, c: Thread)
    requires Inv(s)
    ensures Inv(DoAcquire(s, c))
  {
    if c !in s.callers || !(s.callers[c].Pushed? || s.callers[c].Waiting?) {
      return;
    }
    assert CallerOk(s, c) && CellOk(s, s.callers[c].a);
    Frame(s, DoAcquire(s, c), {c}, {s.callers[c].a});
  }

  lemma TestKeeps(s: State, c: Thread)
    requires Inv(s)
    ensures Inv(DoTest(s, c))
  {
    if c !in s.callers || !s.callers[c].Holding? {
      return;
    }
    assert CallerOk(s, c) && CellOk(s, s.callers[c].a);
    Frame(s, DoTest(s, c), {c}, {s.callers[c].a});
  }

  lemma CopyKeeps(s: State, c: Thread)
    requires Inv(s)
    ensures Inv(DoCopy(s, c))
  {
    if c !in s.callers || !s.callers[c].Released? {
      return;
    }
    assert CallerOk(s, c) && CellOk(s, s.callers[c].a);
    Frame(s, DoCopy(s, c), {c}, {s.callers[c].a});
  }

  lemma FreeKeeps(s: State, c: Thread)
    requires Inv(s)
    ensures Inv(DoFree(s, c))
  {
    if c !in s.callers || !s.callers[c].Finished? {
      return;
    }
    assert CallerOk(s, c) && CellOk(s, s.callers[c].a);
    Frame(s, DoFree(s, c), {c}, {s.callers[c].a});
  }

  lemma LookKeeps(s: State)
    requires Inv(s)
    ensures Inv(DoLook(s))
  {
    Frame(s, DoLook(s), {}, {});
  }

  lemma PopKeeps(s: State)
    requires Inv(s)
    ensures Inv(DoPop(s))
  {
    var u := DoPop(s);
    if s.worker == Popping {
      assert QueuedOk(s, 0) && CellOk(s, s.queue[0]) && EntryOk(s, |s.popped|);
    }
    forall d | d in u.callers ensures CallerOk(u, d) {
      assert d in s.callers ==> CallerOk(s, d);
    }
    forall b | b in u.heap ensures CellOk(u, b) {
      assert b in s.heap ==> CellOk(s, b) && TicketOk(s, s.heap[b].ticket);
    }
    forall i: nat | i < |u.queue| ensures QueuedOk(u, i) {
      assert if u.queue == s.queue then QueuedOk(s, i) else QueuedOk(s, i + 1) && EntryOk(s, |s.popped| + i + 1);
    }
    forall i: nat | i < |u.pushed| ensures EntryOk(u, i) {
      assert i < |s.pushed| ==> EntryOk(s, i);
    }
    forall t ensures TicketOk(u, t) {
      assert TicketOk(s, t);
    }
  }

  lemma HandleHistory(s: State, r: int)
    requires Inv(s) && s.worker == Handling
    ensures HistoryOk(DoHandle(s, r))
  {
    var u := DoHandle(s, r);
    if s.cmd.Some? && s.cmd.value in s.heap {
      assert CellOk(s, s.cmd.value);
    }
    forall i: nat | i < |u.pushed| ensures EntryOk(u, i) {
      assert i < |s.pushed| ==> EntryOk(s, i);
    }
    forall t ensures TicketOk(u, t) {
      assert TicketOk(s, t);
    }
  }

  lemma HandleKeeps(s: State, r: int)
    requires Inv(s)
    ensures Inv(DoHandle(s, r))
  {
    if s.worker != Handling {
      return;
    }
    var u := DoHandle(s, r);
    if s.cmd.Some? && s.cmd.value in s.heap {
      assert CellOk(s, s.cmd.value);
    }
    forall d | d in u.callers ensures CallerOk(u, d) {
      assert d in s.callers ==> CallerOk(s, d);
    }
    forall b | b in u.heap ensures CellOk(u, b) {
      assert b in s.heap ==> CellOk(s, b);
    }
    forall i: nat | i < |u.queue| ensures QueuedOk(u, i) {
      assert i < |s.queue| ==> QueuedOk(s, i);
    }
    HandleHistory(s, r);
  }

  lemma LockKeeps(s: State)
    requires Inv(s)
    ensures Inv(DoLock(s))
  {
    if s.worker != Locking {
      return;
    }
    var c := s.heap[s.cmd.value].caller;
    assert CellOk(s, s.cmd.value) && CallerOk(s, c);
    Frame(s, DoLock(s), {c}, {s.cmd.value});
  }

  lemma MarkKeeps(s: State)
    requires Inv(s)
    ensures Inv(DoMark(s))
  {
    if s.worker != Marking {
      return;
    }
    var c := s.heap[s.cmd.value].caller;
    assert CellOk(s, s.cmd.value) && CallerOk(s, c);
    Frame(s, DoMark(s), {c}, {s.cmd.value});
  }

  lemma UnlockKeeps(s: State)
    requires Inv(s)
    ensures Inv(DoUnlock(s))
  {
    if s.worker != Marked {
      return;
    }
    var c := s.heap[s.cmd.value].caller;
    assert CellOk(s, s.cmd.value) && CallerOk(s, c);
    Frame(s, DoUnlock(s), {c}, {s.cmd.value});
  }
}
