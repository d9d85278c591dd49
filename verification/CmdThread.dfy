/** The command queue of core/rtw_cmd.c and the completion contexts that live on their callers' stacks, as
  * interleaved atomic steps. One client is one call such as rtw_createbss_cmd; one command object belongs to it.
  * The command thread is in its service loop throughout, and LPS_LCLK is off. */
module CmdThread {
  import opened Seqs

  const MAX_CMDSZ: nat := 1024

  datatype Status = Submitted | DoneSuccess | DoneCmdError

  /** rtw_createbss_cmd and the rtw_enqueue_cmd it calls, up to its return. */
  datatype ClientPc =
    | Filter           // rtw_cmd_filter in rtw_enqueue_cmd
    | Insert           // _rtw_enqueue_cmd
    | Up               // _rtw_up_sema
    | Wait             // rtw_sctx_wait
    | Lock             // _enter_critical_mutex
    | Check            // sctx.status == RTW_SCTX_SUBMITTED
    | Unlock           // _exit_critical_mutex
    | Returned(ok: bool)

  datatype Client = Client(
    pc: ClientPc,
    size: nat,          // cmdobj->cmdsz
    waits: bool,        // RTW_CMDF_WAIT_ACK
    allowed: bool,      // passes the filter before the hardware is up
    hasCallback: bool,  // rtw_cmd_callback has an entry for its code
    ptr: bool,          // cmdobj->sctx != NULL
    freed: bool,        // cmdobj went to rtw_free_cmd_obj or its callback
    status: Status,     // sctx.status
    signalled: bool)    // sctx.done

  datatype ThreadPc =
    | Parked                            // _rtw_down_sema
    | Woken                             // rtw_is_list_empty
    | Next                              // _next: rtw_dequeue_cmd
    | Handling(c: nat)                  // filter and handler
    | Posting(c: nat, ok: bool)         // post_process: wants sctx_mutex
    | Testing(c: nat, ok: bool)         // if (pcmd->sctx)
    | Writing(c: nat, ok: bool)         // (*sctx)->status = status
    | Completing(c: nat)                // complete(&(*sctx)->done)
    | Clearing(c: nat)                  // *sctx = NULL
    | Unlocking(c: nat)
    | Finishing(c: nat)                 // callback or rtw_free_cmd_obj

  datatype Owner = Nobody | ByThread | ByClient(c: nat)

  /** How a handled command left the thread. */
  datatype Disposal = Freed(c: nat) | CalledBack(c: nat)

  datatype State = State(
    thread: ThreadPc,
    queue: seq<nat>,
    sema: nat,                      // cmd_queue_sema
    mutex: Owner,                   // sctx_mutex
    hwReady: bool,                  // rtw_is_hw_init_completed
    clients: map<nat, Client>,
    inserted: seq<nat>,             // history: order of insertion
    dequeued: seq<nat>,             // history: order of handling
    disposed: seq<Disposal>)        // history: order of disposal

  datatype Step =
    | HwChanges(ready: bool)
    | Call(c: nat, size: nat, waits: bool, allowed: bool, hasCallback: bool)
    | ClientMoves(c: nat, timedOut: bool)
    | ThreadMoves(handlerOk: bool)

  const INITIAL := State(Parked, [], 0, Nobody, false, map[], [], [], [])

  /** rtw_cmd_filter while cmdthd_running is set. */
  predicate Passes(s: State, cl: Client) {
    s.hwReady || cl.allowed
  }

  function With(s: State, c: nat, cl: Client): State {
    s.(clients := s.clients[c := cl])
  }

  predicate Enabled(s: State, step: Step) {
    match step
    case HwChanges(_) => true
    case Call(c, _, _, _, _) => c !in s.clients
    case ClientMoves(c, timedOut) =>
      c in s.clients && (
        match s.clients[c].pc
        case Wait => timedOut || s.clients[c].signalled
        case Lock => s.mutex == Nobody
        case Returned(_) => false
        case _ => true)
    case ThreadMoves(_) =>
      match s.thread
      case Parked => s.sema > 0
      case Posting(_, _) => s.mutex == Nobody
      case _ => true
  }

  function ClientStep(s: State, c: nat): State
    requires c in s.clients
  {
    var cl := s.clients[c];
    match cl.pc
    case Filter =>
      if Passes(s, cl) then With(s, c, cl.(pc := Insert))
      else With(s, c, cl.(freed := true, ptr := false, pc := Returned(false)))
    case Insert =>
      var s' := With(s, c, cl.(pc := Up));
      // an oversized command is not linked, yet the caller is told _SUCCESS
      if cl.size > MAX_CMDSZ then s' else s'.(queue := s.queue + [c], inserted := s.inserted + [c])
    case Up => With(s, c, cl.(pc := if cl.waits then Wait else Returned(true))).(sema := s.sema + 1)
    case Wait => With(s, c, cl.(pc := Lock))
    case Lock => With(s, c, cl.(pc := Check)).(mutex := ByClient(c))
    case Check => With(s, c, cl.(pc := Unlock, ptr := if cl.status == Submitted then false else cl.ptr))
    case Unlock => With(s, c, cl.(pc := Returned(true))).(mutex := Nobody)
    case Returned(_) => s
  }

  function ThreadStep(s: State, handlerOk: bool): State
    requires Known(s) && (s.thread.Parked? ==> s.sema > 0)
  {
    match s.thread
    case Parked => s.(thread := Woken, sema := s.sema - 1)
    case Woken => s.(thread := if s.queue == [] then Parked else Next)
    case Next =>
      if s.queue == [] then s.(thread := Parked)
      else s.(thread := Handling(s.queue[0]), queue := s.queue[1..], dequeued := s.dequeued + [s.queue[0]])
    case Handling(c) =>
      assert c in Current(s.thread);
      s.(thread := Posting(c, Passes(s, s.clients[c]) && handlerOk))
    case Posting(c, ok) => s.(thread := Testing(c, ok), mutex := ByThread)
    case Testing(c, ok) =>
      assert c in Current(s.thread);
      s.(thread := if s.clients[c].ptr then Writing(c, ok) else Unlocking(c))
    case Writing(c, ok) =>
      assert c in Current(s.thread);
      With(s, c, s.clients[c].(status := if ok then DoneSuccess else DoneCmdError)).(thread := Completing(c))
    case Completing(c) =>
      assert c in Current(s.thread);
      With(s, c, s.clients[c].(signalled := true)).(thread := Clearing(c))
    case Clearing(c) =>
      assert c in Current(s.thread);
      With(s, c, s.clients[c].(ptr := false)).(thread := Unlocking(c))
    case Unlocking(c) => s.(thread := Finishing(c), mutex := Nobody)
    case Finishing(c) =>
      assert c in Current(s.thread);
      var d := if s.clients[c].hasCallback then CalledBack(c) else Freed(c);
      With(s, c, s.clients[c].(freed := true)).(thread := Next, disposed := s.disposed + [d])
  }

  /** The command the thread has in hand. */
  function Current(t: ThreadPc): seq<nat> {
    if t.Parked? || t.Woken? || t.Next? then [] else [t.c]
  }

  /** The commands in flight belong to clients. */
  predicate Known(s: State) {
    (forall c <- Current(s.thread) :: c in s.clients) && (forall c <- s.queue :: c in s.clients)
  }

  function Apply(s: State, step: Step): State
    requires Enabled(s, step) && Known(s)
  {
    match step
    case HwChanges(ready) => s.(hwReady := ready)
    case Call(c, size, waits, allowed, hasCallback) =>
      With(s, c, Client(Filter, size, waits, allowed, hasCallback, waits, false, Submitted, false))
    case ClientMoves(c, _) => ClientStep(s, c)
    case ThreadMoves(handlerOk) => ThreadStep(s, handlerOk)
  }

  // ----- the invariant -----

  /** The caller's stack frame, and the context in it, still exist. */
  predicate Live(cl: Client) {
    cl.waits && !cl.pc.Returned?
  }

  predicate PastInsert(cl: Client) {
    cl.pc != Filter && cl.pc != Insert && cl.pc != Returned(false)
  }

  /** The thread is inside sctx_mutex. */
  predicate InMutex(t: ThreadPc) {
    t.Testing? || t.Writing? || t.Completing? || t.Clearing? || t.Unlocking?
  }

  /** The thread has looked at the context pointer of c. */
  predicate Looked(t: ThreadPc, c: nat) {
    t == Completing(c) || t == Clearing(c) || t == Unlocking(c) || t == Finishing(c)
  }

  /** The context of client c, seen with the thread's position and the owner of the mutex. */
  ghost predicate ContextOk(cl: Client, c: nat, t: ThreadPc, m: Owner) {
    // a pointer never outlives the frame it points into
    && (cl.ptr ==> Live(cl))
    // until the caller detaches, an unanswered context belongs to a command that is not yet answered, let alone freed
    && (Live(cl) && cl.status == Submitted && cl.pc != Unlock ==> cl.ptr && !cl.freed && !Looked(t, c))
    && (cl.status != Submitted ==> !cl.ptr || t == Completing(c) || t == Clearing(c))
    && (cl.pc == Unlock ==> !cl.ptr)
    && (cl.pc == Check || cl.pc == Unlock <==> m == ByClient(c))
    && (cl.pc == Wait || cl.pc == Lock || cl.pc == Check || cl.pc == Unlock ==> cl.waits)
    && (cl.signalled ==> cl.status != Submitted)
  }

  /** Where its command is: inserted or not, freed by the thread or not, passed to a callback or not. */
  ghost predicate PlaceOk(cl: Client, inserted: bool, freed: bool, calledBack: bool) {
    && (inserted <==> PastInsert(cl) && cl.size <= MAX_CMDSZ)
    && (cl.freed <==> cl.pc == Returned(false) || freed || calledBack)
    && (cl.hasCallback ==> !freed) && (!cl.hasCallback ==> !calledBack)
  }

  ghost predicate ClientInv(s: State, c: nat)
    requires c in s.clients
  {
    && ContextOk(s.clients[c], c, s.thread, s.mutex)
    && PlaceOk(s.clients[c], c in s.inserted, Freed(c) in s.disposed, CalledBack(c) in s.disposed)
  }

  function Ids(ds: seq<Disposal>): seq<nat> {
    if ds == [] then [] else Ids(ds[..|ds| - 1]) + [ds[|ds| - 1].c]
  }

  ghost predicate ThreadInv(s: State) {
    && (s.mutex == ByThread <==> InMutex(s.thread))
    && (s.mutex.ByClient? ==> s.mutex.c in s.clients)
    && (s.thread.Writing? || s.thread.Completing? || s.thread.Clearing? ==>
          s.thread.c in s.clients && s.clients[s.thread.c].ptr)
    && (s.thread.Completing? || s.thread.Clearing? ==> s.clients[s.thread.c].status != Submitted)
  }

  /** First in, first out: what was inserted is what was handled, then what is queued; what was handled is what was
    * disposed of, then what the thread has in hand. */
  ghost predicate QueueInv(s: State) {
    && s.inserted == s.dequeued + s.queue
    && s.dequeued == Ids(s.disposed) + Current(s.thread)
    && Distinct(s.inserted)
    && (forall c :: c in s.inserted ==> c in s.clients)
  }

  /** A parked thread with work to do is about to be woken. */
  ghost predicate WakeInv(s: State) {
    s.thread == Parked && s.queue != [] ==> s.sema > 0 || exists c :: c in s.clients && s.clients[c].pc == Up
  }

  ghost predicate Inv(s: State) {
    && Known(s) && ThreadInv(s) && QueueInv(s) && WakeInv(s)
    && (forall c :: c in s.clients ==> ClientInv(s, c))
  }

  // ----- every step keeps it -----

  lemma IdsConcat(ds: seq<Disposal>, d: Disposal)
    ensures Ids(ds + [d]) == Ids(ds) + [d.c]
  {
    assert (ds + [d])[..|ds|] == ds;
  }

  lemma {:induction false} DisposedIn(ds: seq<Disposal>, d: Disposal)
    requires d in ds
    ensures d.c in Ids(ds)
  {
    var n := |ds| - 1;
    if d != ds[n] {
      assert d in ds[..n];
      DisposedIn(ds[..n], d);
    }
  }

  /** What is in hand or queued is known, inserted, and not disposed of. */
  lemma InFlight(s: State, c: nat)
    requires QueueInv(s)
    ensures c in Current(s.thread) || c in s.queue ==>
              c in s.inserted && c in s.clients && Freed(c) !in s.disposed && CalledBack(c) !in s.disposed
    ensures Freed(c) in s.disposed || CalledBack(c) in s.disposed ==> c in s.inserted && c in s.clients
  {
    var ids := Ids(s.disposed);
    assert s.inserted == ids + Current(s.thread) + s.queue;
    if Freed(c) in s.disposed {
      DisposedIn(s.disposed, Freed(c));
      Apart(ids, Current(s.thread), s.queue, c);
    }
    if CalledBack(c) in s.disposed {
      DisposedIn(s.disposed, CalledBack(c));
      Apart(ids, Current(s.thread), s.queue, c);
    }
  }

  lemma Apart(a: seq<nat>, b: seq<nat>, d: seq<nat>, c: nat)
    requires Distinct(a + b + d) && c in a
    ensures c in a + b + d && c !in b && c !in d
  {
    var w, i := a + b + d, Index(a, c);
    assert w[i] == c;
    forall k | 0 <= k < |b| ensures b[k] != c {
      assert w[|a| + k] == b[k];
    }
    forall k | 0 <= k < |d| ensures d[k] != c {
      assert w[|a| + |b| + k] == d[k];
    }
  }

  ghost function Index(a: seq<nat>, c: nat): (i: nat)
    requires c in a
    ensures i < |a| && a[i] == c
  {
    var i :| 0 <= i < |a| && a[i] == c;
    i
  }

  lemma ClientKeepsThread(s: State, c: nat)
    requires ThreadInv(s) && c in s.clients && ClientInv(s, c) && Enabled(s, ClientMoves(c, true))
    requires s.clients[c].pc == Filter ==> c !in Current(s.thread)
    ensures ThreadInv(ClientStep(s, c))
  {
    hide PlaceOk;
    var s' := ClientStep(s, c);
    assert s'.thread == s.thread;
    if s.thread.Writing? || s.thread.Completing? || s.thread.Clearing? {
      assert s.thread.c in Current(s.thread);
      assert s.mutex == ByThread;
    }
  }

  lemma ClientKeepsKnown(s: State, c: nat)
    requires Known(s) && c in s.clients
    ensures Known(ClientStep(s, c))
  {
    var s' := ClientStep(s, c);
    assert s'.clients.Keys == s.clients.Keys && s'.thread == s.thread;
    assert s'.queue == s.queue || s'.queue == s.queue + [c];
  }

  lemma ClientKeepsQueue(s: State, c: nat)
    requires QueueInv(s) && WakeInv(s) && c in s.clients && ClientInv(s, c) && Enabled(s, ClientMoves(c, true))
    ensures QueueInv(ClientStep(s, c)) && WakeInv(ClientStep(s, c))
  {
    hide Ids;
    var cl, s' := s.clients[c], ClientStep(s, c);
    if cl.pc == Insert {
      assert s'.clients[c].pc == Up;
      if cl.size <= MAX_CMDSZ {
        Assoc(s.dequeued, s.queue, [c]);
      }
    }
    if s.thread == Parked && s.queue != [] && s.sema == 0 {
      var u :| u in s.clients && s.clients[u].pc == Up;
      assert u != c ==> s'.clients[u].pc == Up;
    }
  }

  /** What a client does to itself. */
  lemma ClientKeepsContext(s: State, c: nat)
    requires ThreadInv(s) && c in s.clients && ClientInv(s, c) && Enabled(s, ClientMoves(c, true))
    requires s.clients[c].pc == Filter ==> !Looked(s.thread, c)
    ensures var s' := ClientStep(s, c); ContextOk(s'.clients[c], c, s'.thread, s'.mutex)
  {
    hide PlaceOk;
    var cl := s.clients[c];
    match cl.pc
    case Filter => assert cl.status != Submitted ==> !cl.ptr;
    case Unlock => assert s.mutex == ByClient(c) && !InMutex(s.thread);
    case _ =>
  }

  lemma ClientKeepsPlace(s: State, c: nat)
    requires c in s.clients && ClientInv(s, c) && Enabled(s, ClientMoves(c, true))
    requires s.clients[c].pc == Filter || s.clients[c].pc == Insert ==>
               Freed(c) !in s.disposed && CalledBack(c) !in s.disposed
    ensures var s' := ClientStep(s, c);
            PlaceOk(s'.clients[c], c in s'.inserted, Freed(c) in s'.disposed, CalledBack(c) in s'.disposed)
  {
    hide ContextOk;
  }

  lemma ClientKeepsSelf(s: State, c: nat)
    requires ThreadInv(s) && QueueInv(s) && c in s.clients && ClientInv(s, c) && Enabled(s, ClientMoves(c, true))
    ensures ClientInv(ClientStep(s, c), c)
  {
    InFlight(s, c);
    Bystander(s, c);
    ClientKeepsContext(s, c);
    ClientKeepsPlace(s, c);
    hide ThreadInv, QueueInv, ContextOk, PlaceOk;
  }

  /** The thread has looked only at the command in hand. */
  lemma Bystander(s: State, c: nat)
    ensures Looked(s.thread, c) ==> c in Current(s.thread)
  {
  }

  /** What it does to the others: nothing, except that the mutex may change hands. */
  lemma ClientKeepsOther(s: State, c: nat, d: nat)
    requires c in s.clients && d in s.clients && c != d
    requires ClientInv(s, c) && ClientInv(s, d) && Enabled(s, ClientMoves(c, true))
    ensures ClientInv(ClientStep(s, c), d)
  {
    var s' := ClientStep(s, c);
    assert s'.clients[d] == s.clients[d] && s'.thread == s.thread && s'.disposed == s.disposed;
    assert d in s'.inserted <==> d in s.inserted;
  }

  lemma ThreadKeepsThread(s: State, ok: bool)
    requires Known(s) && ThreadInv(s) && Enabled(s, ThreadMoves(ok))
    requires forall c :: c in Current(s.thread) ==> ClientInv(s, c)
    ensures ThreadInv(ThreadStep(s, ok)) && Known(ThreadStep(s, ok))
  {
    ThreadKeepsKnown(s, ok);
    hide Ids, PlaceOk, Known;
    if Current(s.thread) != [] {
      assert s.thread.c in Current(s.thread);
    }
  }

  lemma ThreadKeepsKnown(s: State, ok: bool)
    requires Known(s) && Enabled(s, ThreadMoves(ok))
    ensures Known(ThreadStep(s, ok)) && ThreadStep(s, ok).clients.Keys == s.clients.Keys
  {
    if s.thread == Next && s.queue != [] {
      assert s.queue[0] in s.queue && forall c :: c in s.queue[1..] ==> c in s.queue;
    } else if Current(s.thread) != [] {
      assert s.thread.c in Current(s.thread);
    }
  }

  lemma ThreadKeepsQueue(s: State, ok: bool)
    requires Known(s) && QueueInv(s) && Enabled(s, ThreadMoves(ok))
    ensures QueueInv(ThreadStep(s, ok))
  {
    hide Distinct, Ids;
    var s' := ThreadStep(s, ok);
    assert s'.clients.Keys == s.clients.Keys && s'.inserted == s.inserted;
    if s.thread == Next && s.queue != [] {
      HeadTail(s.queue);
      Assoc(s.dequeued, [s.queue[0]], s.queue[1..]);
    } else if s.thread.Finishing? {
      var c := s.thread.c;
      IdsConcat(s.disposed, if s.clients[c].hasCallback then CalledBack(c) else Freed(c));
    } else {
      assert s'.queue == s.queue && s'.dequeued == s.dequeued && s'.disposed == s.disposed;
      assert Current(s'.thread) == Current(s.thread);
    }
  }

  /** It parks only on an empty queue. */
  lemma ThreadKeepsWake(s: State, ok: bool)
    requires Known(s) && WakeInv(s) && Enabled(s, ThreadMoves(ok))
    ensures WakeInv(ThreadStep(s, ok))
  {
  }

  /** What the thread does to the command in hand. */
  lemma ThreadKeepsCurrent(s: State, ok: bool)
    requires Known(s) && ThreadInv(s) && QueueInv(s) && Enabled(s, ThreadMoves(ok)) && Current(s.thread) != []
    requires s.thread.c in s.clients && ClientInv(s, s.thread.c)
    ensures ClientInv(ThreadStep(s, ok), s.thread.c)
  {
    InFlight(s, s.thread.c);
    assert s.thread.c in Current(s.thread);
    hide Distinct, Ids, Index;
  }

  lemma ThreadKeepsOther(s: State, ok: bool, d: nat)
    requires Known(s) && ThreadInv(s) && QueueInv(s) && Enabled(s, ThreadMoves(ok)) && d in s.clients && ClientInv(s, d)
    requires d !in Current(s.thread)
    ensures ClientInv(ThreadStep(s, ok), d)
  {
    ThreadLeavesAlone(s, ok, d);
    Bystander(s, d);
    Bystander(ThreadStep(s, ok), d);
    hide QueueInv, ThreadStep;
  }

  lemma ThreadLeavesAlone(s: State, ok: bool, d: nat)
    requires Known(s) && ThreadInv(s) && Enabled(s, ThreadMoves(ok)) && d in s.clients && d !in Current(s.thread)
    ensures var s' := ThreadStep(s, ok);
            && d in s'.clients && s'.clients[d] == s.clients[d] && s'.inserted == s.inserted
            && (s'.mutex == ByClient(d) <==> s.mutex == ByClient(d))
            && (Freed(d) in s'.disposed <==> Freed(d) in s.disposed)
            && (CalledBack(d) in s'.disposed <==> CalledBack(d) in s.disposed)
            && !Looked(s'.thread, d) && !Looked(s.thread, d)
  {
    assert Current(s.thread) != [] ==> s.thread.c in Current(s.thread);
  }

  lemma InitialInv()
    ensures Inv(INITIAL)
  {
  }

  lemma StepKeepsInv(s: State, step: Step)
    requires Inv(s) && Enabled(s, step)
    ensures Inv(Apply(s, step))
  {
    match step
    case HwChanges(ready) =>
      forall d | d in s.clients ensures ClientInv(Apply(s, step), d) {
        assert ClientInv(s, d);
      }
    case Call(c, size, waits, allowed, hasCallback) =>
      CallKeeps(s, c, Client(Filter, size, waits, allowed, hasCallback, waits, false, Submitted, false));
    case ClientMoves(c, _) => ClientKeeps(s, c);
    case ThreadMoves(ok) => ThreadKeeps(s, ok);
  }

  lemma ClientKeeps(s: State, c: nat)
    requires Inv(s) && c in s.clients && Enabled(s, ClientMoves(c, true))
    ensures Inv(ClientStep(s, c))
  {
    hide ThreadInv, QueueInv, WakeInv, Known, Enabled, Ids;
    assert ClientInv(s, c);
    InFlight(s, c);
    ClientKeepsThread(s, c);
    ClientKeepsKnown(s, c);
    ClientKeepsQueue(s, c);
    ClientKeepsSelf(s, c);
    forall d | d in s.clients && d != c ensures ClientInv(ClientStep(s, c), d) {
      ClientKeepsOther(s, c, d);
    }
  }

  lemma ThreadKeeps(s: State, ok: bool)
    requires Inv(s) && Enabled(s, ThreadMoves(ok))
    ensures Inv(ThreadStep(s, ok))
  {
    hide ThreadInv, QueueInv, WakeInv, Ids;
    assert Current(s.thread) != [] ==> s.thread.c in Current(s.thread);
    ThreadKeepsThread(s, ok);
    ThreadKeepsQueue(s, ok);
    ThreadKeepsWake(s, ok);
    forall d | d in s.clients ensures ClientInv(ThreadStep(s, ok), d) {
      if d in Current(s.thread) {
        ThreadKeepsCurrent(s, ok);
      } else {
        ThreadKeepsOther(s, ok, d);
      }
    }
    assert ThreadStep(s, ok).clients.Keys == s.clients.Keys;
  }

  lemma CallKeeps(s: State, c: nat, cl: Client)
    requires Inv(s) && c !in s.clients
    requires cl.pc == Filter && cl.ptr == cl.waits && !cl.freed && cl.status == Submitted && !cl.signalled
    ensures Inv(With(s, c, cl))
  {
    InFlight(s, c);
    var s' := With(s, c, cl);
    forall d | d in s'.clients ensures ClientInv(s', d) {
      if d != c {
        assert ClientInv(s, d);
      }
    }
    if s.thread == Parked && s.queue != [] && s.sema == 0 {
      var u :| u in s.clients && s.clients[u].pc == Up;
      assert s'.clients[u].pc == Up;
    }
  }

  // ----- every reachable state -----

  /** The states a schedule passes through: None where it asks for a step that cannot be taken. */
  ghost predicate Reaches(schedule: seq<Step>, s: State)
    decreases |schedule|
  {
    if schedule == [] then s == INITIAL
    else
      var n := |schedule| - 1;
      exists r :: Reaches(schedule[..n], r) && Known(r) && Enabled(r, schedule[n]) && s == Apply(r, schedule[n])
  }

  lemma {:induction false} ReachableInv(schedule: seq<Step>, s: State)
    requires Reaches(schedule, s)
    ensures Inv(s)
    decreases |schedule|
  {
    if schedule == [] {
      InitialInv();
    } else {
      var n := |schedule| - 1;
      var r :| Reaches(schedule[..n], r) && Known(r) && Enabled(r, schedule[n]) && s == Apply(r, schedule[n]);
      ReachableInv(schedule[..n], r);
      StepKeepsInv(r, schedule[n]);
    }
  }

  /** The context the thread is about to write or complete. */
  function ContextTouched(s: State): seq<nat> {
    if s.thread.Writing? || s.thread.Completing? then [s.thread.c] else []
  }

  /** Under no interleaving does the thread touch a context whose owner has returned, nor a caller a command that was
    * freed: neither when it detaches nor at any time before. */
  lemma NoUseAfterReturn(schedule: seq<Step>, s: State)
    requires Reaches(schedule, s)
    ensures forall c :: c in ContextTouched(s) ==> c in s.clients && Live(s.clients[c])
    ensures forall c :: c in Current(s.thread) ==> c in s.clients && !s.clients[c].freed
    ensures forall c :: c in s.clients && s.clients[c].pc == Check && s.clients[c].status == Submitted ==>
              !s.clients[c].freed
  {
    ReachableInv(schedule, s);
    forall c | c in Current(s.thread) ensures c in s.clients && !s.clients[c].freed {
      InFlight(s, c);
      assert ClientInv(s, c);
    }
    forall c | c in ContextTouched(s) ensures c in s.clients && Live(s.clients[c]) {
      assert ClientInv(s, c);
    }
    forall c | c in s.clients && s.clients[c].pc == Check && s.clients[c].status == Submitted
      ensures !s.clients[c].freed
    {
      assert ClientInv(s, c);
    }
  }

  /** A context that was answered was answered by the thread, after handling its command; a caller that returned from
    * its wait left no pointer behind. */
  lemma AnswersAreReal(schedule: seq<Step>, s: State, c: nat)
    requires Reaches(schedule, s) && c in s.clients
    ensures s.clients[c].status != Submitted ==> c in s.dequeued
    ensures s.clients[c].pc.Returned? ==> !s.clients[c].ptr
    ensures s.clients[c].signalled ==> s.clients[c].status != Submitted
  {
    ReachableInv(schedule, s);
    assert ClientInv(s, c);
    if s.clients[c].status != Submitted {
      AnsweredWasDequeued(schedule, s, c);
    }
  }

  lemma {:induction false} AnsweredWasDequeued(schedule: seq<Step>, s: State, c: nat)
    requires Reaches(schedule, s) && c in s.clients && s.clients[c].status != Submitted
    ensures c in s.dequeued
    decreases |schedule|
  {
    if schedule != [] {
      var n := |schedule| - 1;
      var r :| Reaches(schedule[..n], r) && Known(r) && Enabled(r, schedule[n]) && s == Apply(r, schedule[n]);
      ReachableInv(schedule[..n], r);
      if c in r.clients && r.clients[c].status != Submitted {
        AnsweredWasDequeued(schedule[..n], r, c);
      } else {
        OnlyTheThreadAnswers(r, schedule[n], c);
        assert c in Current(r.thread) && c in Ids(r.disposed) + Current(r.thread);
      }
      OnlyGrows(r, schedule[n]);
    }
  }

  lemma OnlyTheThreadAnswers(s: State, step: Step, c: nat)
    requires Known(s) && Enabled(s, step) && (c in s.clients ==> s.clients[c].status == Submitted)
    requires c in Apply(s, step).clients && Apply(s, step).clients[c].status != Submitted
    ensures c in Current(s.thread)
  {
  }

  lemma OnlyGrows(s: State, step: Step)
    requires Known(s) && Enabled(s, step)
    ensures s.dequeued <= Apply(s, step).dequeued
  {
  }

  /** Commands are handled in insertion order, and each handled one goes to exactly one of rtw_free_cmd_obj and its
    * callback, in that order too. */
  lemma FirstInFirstOut(schedule: seq<Step>, s: State)
    requires Reaches(schedule, s)
    ensures s.dequeued <= s.inserted && Ids(s.disposed) <= s.dequeued && |s.dequeued| <= |s.disposed| + 1
    ensures forall i, j :: 0 <= i < j < |s.disposed| ==> s.disposed[i].c != s.disposed[j].c
    ensures forall c :: c in s.clients ==>
              (Freed(c) in s.disposed ==> !s.clients[c].hasCallback)
                  && (CalledBack(c) in s.disposed ==> s.clients[c].hasCallback)
  {
    ReachableInv(schedule, s);
    IdsAt(s.disposed);
    var ids := Ids(s.disposed);
    assert forall i :: 0 <= i < |ids| ==> s.inserted[i] == ids[i];
    forall c | c in s.clients
      ensures (Freed(c) in s.disposed ==> !s.clients[c].hasCallback)
              && (CalledBack(c) in s.disposed ==> s.clients[c].hasCallback)
    {
      assert ClientInv(s, c);
    }
  }

  lemma {:induction false} IdsAt(ds: seq<Disposal>)
    ensures |Ids(ds)| == |ds| && forall i :: 0 <= i < |ds| ==> Ids(ds)[i] == ds[i].c
  {
    if ds != [] {
      IdsAt(ds[..|ds| - 1]);
    }
  }

  /** A command the caller was told is accepted is queued, in hand or disposed of, exactly when it fits MAX_CMDSZ: an
    * oversized one is reported as accepted but never handled, and never freed. */
  lemma AcceptedIsHandledIffItFits(schedule: seq<Step>, s: State, c: nat)
    requires Reaches(schedule, s) && c in s.clients && PastInsert(s.clients[c])
    ensures c in s.queue || c in s.dequeued <==> s.clients[c].size <= MAX_CMDSZ
    ensures s.clients[c].size > MAX_CMDSZ ==> !s.clients[c].freed && s.clients[c].status == Submitted
  {
    ReachableInv(schedule, s);
    assert ClientInv(s, c);
    InFlight(s, c);
    if s.clients[c].status != Submitted {
      AnsweredWasDequeued(schedule, s, c);
      assert c in s.dequeued + s.queue;
    }
  }

  /** No lost wakeup: when the thread is parked on a zero semaphore and no caller is between insert and up, there is
    * nothing to do. */
  lemma NoLostWakeup(schedule: seq<Step>, s: State)
    requires Reaches(schedule, s)
    requires s.thread == Parked && s.sema == 0 && forall c :: c in s.clients ==> s.clients[c].pc != Up
    ensures s.queue == []
  {
    ReachableInv(schedule, s);
  }

  /** Nothing is ever stuck: while a command is queued or in hand, the thread, a caller about to raise the semaphore, or
    * the caller that holds the mutex can move. */
  lemma NeverStuck(schedule: seq<Step>, s: State)
    requires Reaches(schedule, s) && (s.queue != [] || Current(s.thread) != [])
    ensures Enabled(s, ThreadMoves(true)) ||
            exists c :: c in s.clients && Enabled(s, ClientMoves(c, false))
                && (s.clients[c].pc == Up || s.mutex == ByClient(c))
  {
    ReachableInv(schedule, s);
    if !Enabled(s, ThreadMoves(true)) {
      if s.thread == Parked {
        var c :| c in s.clients && s.clients[c].pc == Up;
        assert Enabled(s, ClientMoves(c, false));
      } else {
        assert s.mutex.ByClient?;
        assert ClientInv(s, s.mutex.c) && Enabled(s, ClientMoves(s.mutex.c, false));
      }
    }
  }

  /** Three steps of one caller lose a command: filtered, not inserted for its size, and reported as accepted. */
  lemma OversizedIsLost(size: nat)
    requires size > MAX_CMDSZ
    ensures var schedule := [Call(0, size, false, true, false), ClientMoves(0, false), ClientMoves(0, false),
                             ClientMoves(0, false)];
            exists s :: Reaches(schedule, s) && 0 in s.clients && s.clients[0].pc == Returned(true)
                        && s.queue == [] && s.dequeued == [] && !s.clients[0].freed
  {
    var steps := [Call(0, size, false, true, false), ClientMoves(0, false), ClientMoves(0, false),
                  ClientMoves(0, false)];
    var s1 := Apply(INITIAL, steps[0]);
    var s2 := Apply(s1, steps[1]);
    var s3 := Apply(s2, steps[2]);
    var s4 := Apply(s3, steps[3]);
    assert steps[..4] == steps && steps[..0] == [];
    assert steps[..1][..0] == [] && steps[..2][..1] == steps[..1] && steps[..3][..2] == steps[..2];
    assert Reaches(steps[..0], INITIAL);
    assert Reaches(steps[..1], s1);
    assert Reaches(steps[..2], s2);
    assert Reaches(steps[..3], s3);
    assert Reaches(steps, s4);
  }

  // ----- how long a command waits for the thread -----

  /** Thread steps to the next disposal, from where the thread is, when there is a command for it. */
  function Rank(t: ThreadPc): nat {
    match t
    case Parked => 11
    case Woken => 10
    case Next => 9
    case Handling(_) => 8
    case Posting(_, _) => 7
    case Testing(_, _) => 6
    case Writing(_, _) => 5
    case Completing(_) => 4
    case Clearing(_) => 3
    case Unlocking(_) => 2
    case Finishing(_) => 1
  }

  /** Thread steps until n commands are disposed of, at most. */
  function StepsUntil(s: State, n: nat): nat {
    if |s.disposed| >= n then 0 else Rank(s.thread) + 9 * (n - |s.disposed| - 1)
  }

  function ThreadSteps(schedule: seq<Step>): nat {
    if schedule == [] then 0
    else ThreadSteps(schedule[..|schedule| - 1]) + if schedule[|schedule| - 1].ThreadMoves? then 1 else 0
  }

  /** While a command is waiting, every step of the thread brings its disposal nearer, and no other step puts it off. */
  lemma StepCounts(s: State, step: Step, n: nat)
    requires Inv(s) && Enabled(s, step) && n <= |s.inserted|
    ensures var s' := Apply(s, step);
            && n <= |s'.inserted| && s.inserted <= s'.inserted
            && StepsUntil(s', n) + (if step.ThreadMoves? && |s.disposed| < n then 1 else 0) <= StepsUntil(s, n)
  {
    hide Inv, Known, ThreadStep, ClientStep;
    match step
    case ThreadMoves(ok) => ThreadStepCounts(s, ok, n);
    case ClientMoves(c, timedOut) => ClientStepCounts(s, c, timedOut);
    case _ =>
  }

  lemma ClientStepCounts(s: State, c: nat, timedOut: bool)
    requires c in s.clients
    ensures var s' := ClientStep(s, c);
            s.inserted <= s'.inserted && s'.thread == s.thread && s'.disposed == s.disposed
  {
  }

  lemma ThreadStepCounts(s: State, ok: bool, n: nat)
    requires Inv(s) && Enabled(s, ThreadMoves(ok)) && n <= |s.inserted|
    ensures var s' := ThreadStep(s, ok);
            s'.inserted == s.inserted && StepsUntil(s', n) + (if |s.disposed| < n then 1 else 0) <= StepsUntil(s, n)
  {
    hide ThreadInv, WakeInv, ClientInv, Distinct, Ids;
    IdsAt(s.disposed);
    assert |s.inserted| == |s.disposed| + |Current(s.thread)| + |s.queue|;
  }

  /** Whatever else is scheduled in between, the n-th inserted command is disposed of by the time the thread has made
    * StepsUntil(s, n) steps: at most eleven, and nine more for each command before it still to be
    * disposed of. */
  lemma {:induction false} DisposedInTime(before: seq<Step>, s: State, more: seq<Step>, t: State, n: nat)
    requires Reaches(before, s) && Reaches(before + more, t) && 0 < n <= |s.inserted|
    ensures s.inserted <= t.inserted && StepsUntil(s, n) <= 11 + 9 * (n - 1)
    ensures StepsUntil(t, n) + (if |t.disposed| < n then ThreadSteps(more) else 0) <= StepsUntil(s, n)
    ensures ThreadSteps(more) >= StepsUntil(s, n) ==> |t.disposed| >= n && t.disposed[n - 1].c == s.inserted[n - 1]
    decreases |more|
  {
    hide Inv, Apply, Known, Enabled, Rank;
    RankBound(s.thread);
    RankBound(t.thread);
    if more == [] {
      assert before + more == before;
      SameRun(before, s, t);
    } else {
      var n' := |before + more| - 1;
      assert (before + more)[..n'] == before + more[..|more| - 1] && (before + more)[n'] == more[|more| - 1];
      var r :| Reaches((before + more)[..n'], r) && Known(r) && Enabled(r, more[|more| - 1])
          && t == Apply(r, more[|more| - 1]);
      DisposedInTime(before, s, more[..|more| - 1], r, n);
      ReachableInv(before + more[..|more| - 1], r);
      StepCounts(r, more[|more| - 1], n);
    }
    if |t.disposed| >= n {
      FirstInFirstOut(before + more, t);
      IdsAt(t.disposed);
      assert Ids(t.disposed)[n - 1] == t.inserted[n - 1];
    }
  }

  lemma RankBound(t: ThreadPc)
    ensures 1 <= Rank(t) <= 11
  {
  }

  /** A schedule leads to one state. */
  lemma {:induction false} SameRun(schedule: seq<Step>, s: State, t: State)
    requires Reaches(schedule, s) && Reaches(schedule, t)
    ensures s == t
    decreases |schedule|
  {
    hide Apply, Known, Enabled;
    if schedule != [] {
      var n := |schedule| - 1;
      var r :| Reaches(schedule[..n], r) && Known(r) && Enabled(r, schedule[n]) && s == Apply(r, schedule[n]);
      var q :| Reaches(schedule[..n], q) && Known(q) && Enabled(q, schedule[n]) && t == Apply(q, schedule[n]);
      SameRun(schedule[..n], r, q);
    }
  }
}
