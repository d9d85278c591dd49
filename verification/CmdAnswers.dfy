/** What the callers of CmdThread are told, over every schedule: answers, refusals, timeouts, and the semaphore's
  * count. */
module CmdAnswers {
  import opened Seqs
  import opened CmdThread

  // ----- what the answers say -----

  /** Step n of the schedule is taken in state r. */
  ghost predicate TakenIn(schedule: seq<Step>, n: nat, r: State) {
    n < |schedule| && Reaches(schedule[..n], r)
  }

  /** The thread carried c's command out: step n ended its handling, with this result. */
  ghost predicate HandledAt(schedule: seq<Step>, n: nat, r: State, c: nat) {
    TakenIn(schedule, n, r) && schedule[n].ThreadMoves? && r.thread == Handling(c)
  }

  ghost predicate Handled(schedule: seq<Step>, c: nat) {
    exists n: nat, r :: HandledAt(schedule, n, r, c)
  }

  /** It did so while the command passed the filter, and the handler reported success. */
  ghost predicate Succeeded(schedule: seq<Step>, c: nat) {
    exists n: nat, r ::
      && HandledAt(schedule, n, r, c) && schedule[n].handlerOk
      && c in r.clients && (r.hwReady || r.clients[c].allowed)
  }

  /** What the state says of c agrees with whether it was handled, and succeeded. */
  ghost predicate Agrees(s: State, c: nat, handled: bool, succeeded: bool) {
    && (handled ==> c in s.dequeued && s.thread != Handling(c))
    && (s.thread.Posting? || s.thread.Testing? || s.thread.Writing? ==>
          s.thread.c == c ==> handled && (s.thread.ok <==> succeeded))
    && (c in s.clients && s.clients[c].status != Submitted ==>
          && handled && (s.clients[c].status == DoneSuccess <==> succeeded)
          && (s.clients[c].signalled || s.thread == Completing(c)))
  }

  /** The state before the last step. */
  lemma LastStep(schedule: seq<Step>, s: State) returns (r: State)
    requires Reaches(schedule, s) && schedule != []
    ensures var n := |schedule| - 1;
            && schedule[..n] + [schedule[n]] == schedule
            && Reaches(schedule[..n], r) && Inv(r) && Enabled(r, schedule[n]) && Known(r) && s == Apply(r, schedule[n])
  {
    hide Inv, Apply, Enabled;
    var n := |schedule| - 1;
    r :| Reaches(schedule[..n], r) && Known(r) && Enabled(r, schedule[n]) && s == Apply(r, schedule[n]);
    ReachableInv(schedule[..n], r);
  }

  lemma NothingYet(schedule: seq<Step>, s: State, c: nat)
    requires Reaches(schedule, s) && schedule == []
    ensures Agrees(s, c, Handled(schedule, c), Succeeded(schedule, c))
    ensures Fared(s, c, Filtered(schedule, c, false), Filtered(schedule, c, true), TimedOut(schedule, c))
  {
    assert !exists n: nat, r :: n < 0 && TakenIn(schedule, n, r);
  }

  /** One more step adds at most the handling it ends. */
  lemma HistoryGrows(schedule: seq<Step>, step: Step, r: State, c: nat)
    requires Reaches(schedule, r)
    ensures var now := step.ThreadMoves? && r.thread == Handling(c);
            && (Handled(schedule + [step], c) <==> Handled(schedule, c) || now)
            && (Succeeded(schedule + [step], c) <==>
                Succeeded(schedule, c)
                || (now && step.handlerOk && c in r.clients && (r.hwReady || r.clients[c].allowed)))
  {
    hide Reaches;
    var all, k := schedule + [step], |schedule|;
    assert all[..k] == schedule && all[k] == step;
    assert TakenIn(all, k, r);
    forall n: nat, q | n < k ensures TakenIn(all, n, q) <==> TakenIn(schedule, n, q) {
      assert all[..n] == schedule[..n];
    }
    assert forall n: nat, q :: n < k ==> (HandledAt(all, n, q, c) <==> HandledAt(schedule, n, q, c));
    if q :| TakenIn(all, k, q) && q != r {
      SameRun(schedule, q, r);
    }
    if step.ThreadMoves? && r.thread == Handling(c) {
      assert HandledAt(all, k, r, c);
    }
  }

  lemma {:induction false} ReachableAgrees(schedule: seq<Step>, s: State, c: nat)
    requires Reaches(schedule, s)
    ensures Agrees(s, c, Handled(schedule, c), Succeeded(schedule, c))
    decreases |schedule|
  {
    hide *;
    if schedule == [] {
      NothingYet(schedule, s, c);
    } else {
      var n := |schedule| - 1;
      var before, step := schedule[..n], schedule[n];
      var r := LastStep(schedule, s);
      ReachableAgrees(before, r, c);
      HistoryGrows(before, step, r, c);
      SucceededIsHandled(before, c);
      StepKeepsAgrees(r, step, c, Handled(before, c), Succeeded(before, c));
    }
  }

  lemma StepKeepsAgrees(r: State, step: Step, c: nat, handled: bool, succeeded: bool)
    requires Agrees(r, c, handled, succeeded) && (succeeded ==> handled) && Inv(r) && Enabled(r, step)
    ensures var now := step.ThreadMoves? && r.thread == Handling(c);
            Agrees(Apply(r, step), c, handled || now,
                   succeeded || (now && step.handlerOk && c in r.clients && (r.hwReady || r.clients[c].allowed)))
  {
    assert Known(r);
    hide Inv, ThreadStep, ClientStep, Agrees, Enabled;
    match step
    case ThreadMoves(ok) => ThreadKeepsAgrees(r, ok, c, handled, succeeded);
    case ClientMoves(d, timedOut) => ClientKeepsAgrees(r, d, timedOut, c, handled, succeeded);
    case Call(d, size, waits, allowed, hasCallback) =>
      CallKeepsAgrees(r, d, Client(Filter, size, waits, allowed, hasCallback, waits, false, Submitted, false), c,
                      handled, succeeded);
    case HwChanges(ready) => HwKeepsAgrees(r, ready, c, handled, succeeded);
  }

  lemma SucceededIsHandled(schedule: seq<Step>, c: nat)
    ensures Succeeded(schedule, c) ==> Handled(schedule, c)
  {
  }

  lemma ClientKeepsAgrees(r: State, d: nat, timedOut: bool, c: nat, handled: bool, succeeded: bool)
    requires Agrees(r, c, handled, succeeded) && Enabled(r, ClientMoves(d, timedOut))
    ensures Agrees(ClientStep(r, d), c, handled, succeeded)
  {
  }

  lemma CallKeepsAgrees(r: State, d: nat, cl: Client, c: nat, handled: bool, succeeded: bool)
    requires Agrees(r, c, handled, succeeded) && cl.status == Submitted
    ensures Agrees(With(r, d, cl), c, handled, succeeded)
  {
  }

  lemma HwKeepsAgrees(r: State, ready: bool, c: nat, handled: bool, succeeded: bool)
    requires Agrees(r, c, handled, succeeded)
    ensures Agrees(r.(hwReady := ready), c, handled, succeeded)
  {
  }

  lemma ThreadKeepsAgrees(r: State, ok: bool, c: nat, handled: bool, succeeded: bool)
    requires Agrees(r, c, handled, succeeded) && (succeeded ==> handled) && Inv(r) && Enabled(r, ThreadMoves(ok))
    ensures var now := r.thread == Handling(c);
            Agrees(ThreadStep(r, ok), c, handled || now,
                   succeeded || (now && ok && c in r.clients && (r.hwReady || r.clients[c].allowed)))
  {
    assert Known(r) && ThreadInv(r) && QueueInv(r);
    hide Inv, QueueInv, ThreadInv;
    if r.thread == Next && r.queue != [] {
      NotYetHandled(r);
      NextKeepsAgrees(r, ok, c, handled, succeeded);
    } else if r.thread.Handling? {
      assert r.thread.c in Current(r.thread);
      InHandUnanswered(r, r.thread.c);
      HandlingKeepsAgrees(r, ok, c, handled, succeeded);
    } else {
      OtherKeepsAgrees(r, ok, c, handled, succeeded);
    }
  }

  lemma NextKeepsAgrees(r: State, ok: bool, c: nat, handled: bool, succeeded: bool)
    requires Agrees(r, c, handled, succeeded) && Known(r)
    requires r.thread == Next && r.queue != [] && r.queue[0] !in r.dequeued
    ensures Agrees(ThreadStep(r, ok), c, handled, succeeded)
  {
  }

  lemma HandlingKeepsAgrees(r: State, ok: bool, c: nat, handled: bool, succeeded: bool)
    requires Agrees(r, c, handled, succeeded) && (succeeded ==> handled) && Known(r)
    requires r.thread.Handling? && r.thread.c in r.clients && r.thread.c in r.dequeued
    ensures var now := r.thread == Handling(c);
            Agrees(ThreadStep(r, ok), c, handled || now,
                   succeeded || (now && ok && c in r.clients && (r.hwReady || r.clients[c].allowed)))
  {
  }

  lemma OtherKeepsAgrees(r: State, ok: bool, c: nat, handled: bool, succeeded: bool)
    requires Agrees(r, c, handled, succeeded) && Known(r) && Enabled(r, ThreadMoves(ok))
    requires !r.thread.Handling? && (r.thread == Next ==> r.queue == [])
    ensures Agrees(ThreadStep(r, ok), c, handled, succeeded)
  {
    assert Current(r.thread) != [] ==> r.thread.c in Current(r.thread);
  }

  /** While its command is being handled, a context is unanswered, and the command is out of the queue. */
  lemma InHandUnanswered(s: State, c: nat)
    requires Known(s) && QueueInv(s) && s.thread == Handling(c)
    ensures c in s.clients && c in s.dequeued
  {
    assert c in Current(s.thread);
    assert c in Ids(s.disposed) + Current(s.thread);
  }

  /** What is still queued has not been taken from the queue. */
  lemma NotYetHandled(s: State)
    requires QueueInv(s) && s.queue != []
    ensures s.queue[0] !in s.dequeued
  {
    var c := s.queue[0];
    assert s.inserted[|s.dequeued|] == c;
    forall i | 0 <= i < |s.dequeued| ensures s.dequeued[i] != c {
      assert s.inserted[i] == s.dequeued[i];
    }
  }

  /** Under every schedule: an answer is success if and only if the thread carried the command out, with the hardware
    * up or the command allowed without it, and its handler reported success; and an answer is also signalled. */
  lemma AnswersAreTrue(schedule: seq<Step>, s: State, c: nat)
    requires Reaches(schedule, s) && c in s.clients && s.clients[c].status != Submitted
    ensures s.clients[c].status == DoneSuccess <==> Succeeded(schedule, c)
    ensures s.clients[c].status == DoneCmdError <==> Handled(schedule, c) && !Succeeded(schedule, c)
    ensures s.clients[c].signalled || s.thread == Completing(c)
  {
    ReachableAgrees(schedule, s, c);
  }

  /** Step n takes c through rtw_cmd_filter. */
  ghost predicate FilteredAt(schedule: seq<Step>, n: nat, r: State, c: nat) {
    && TakenIn(schedule, n, r) && schedule[n].ClientMoves? && schedule[n].c == c
    && c in r.clients && r.clients[c].pc == Filter
  }

  ghost predicate Filtered(schedule: seq<Step>, c: nat, passed: bool) {
    exists n: nat, r :: FilteredAt(schedule, n, r, c) && passed == (r.hwReady || r.clients[c].allowed)
  }

  /** Step n ends c's wait by its timeout. */
  ghost predicate TimedOutAt(schedule: seq<Step>, n: nat, r: State, c: nat) {
    TakenIn(schedule, n, r) && schedule[n] == ClientMoves(c, true) && c in r.clients && r.clients[c].pc == Wait
  }

  ghost predicate TimedOut(schedule: seq<Step>, c: nat) {
    exists n: nat, r :: TimedOutAt(schedule, n, r, c)
  }

  lemma CallerHistoryGrows(schedule: seq<Step>, step: Step, r: State, c: nat)
    requires Reaches(schedule, r)
    ensures var moves := step.ClientMoves? && step.c == c && c in r.clients;
            && (forall passed :: Filtered(schedule + [step], c, passed) <==>
                  Filtered(schedule, c, passed)
                  || (moves && r.clients[c].pc == Filter && passed == (r.hwReady || r.clients[c].allowed)))
            && (TimedOut(schedule + [step], c) <==>
                  TimedOut(schedule, c) || (moves && step.timedOut && r.clients[c].pc == Wait))
  {
    hide Reaches;
    var all, k := schedule + [step], |schedule|;
    assert all[..k] == schedule && all[k] == step;
    assert TakenIn(all, k, r);
    forall n: nat, q | n < k ensures TakenIn(all, n, q) <==> TakenIn(schedule, n, q) {
      assert all[..n] == schedule[..n];
    }
    assert forall n: nat, q :: n < k ==> (FilteredAt(all, n, q, c) <==> FilteredAt(schedule, n, q, c));
    assert forall n: nat, q :: n < k ==> (TimedOutAt(all, n, q, c) <==> TimedOutAt(schedule, n, q, c));
    if q :| TakenIn(all, k, q) && q != r {
      SameRun(schedule, q, r);
    }
    assert FilteredAt(all, k, r, c) <==>
             step.ClientMoves? && step.c == c && c in r.clients && r.clients[c].pc == Filter;
    assert TimedOutAt(all, k, r, c) <==> step == ClientMoves(c, true) && c in r.clients && r.clients[c].pc == Wait;
  }

  /** Where c is agrees with whether it was refused, let pass, or timed out. */
  ghost predicate Fared(s: State, c: nat, refused: bool, passed: bool, timedOut: bool) {
    if c in s.clients then
      && (s.clients[c].pc == Returned(false) <==> refused)
      && (s.clients[c].pc != Filter && s.clients[c].pc != Returned(false) <==> passed)
      && (s.clients[c].waits && PastWait(s.clients[c].pc) ==> s.clients[c].status != Submitted || timedOut)
      && (!s.clients[c].waits ==> s.clients[c].status == Submitted)
    else !refused && !passed
  }

  /** Under every schedule: a caller is told that its command was refused if and only if the filter refused it, and
    * has it inserted, and returns success, only if the filter let it pass. One that waits goes on only with an
    * answer, or after its timeout; one that does not wait is never given one. */
  lemma {:induction false} CallersFare(schedule: seq<Step>, s: State, c: nat)
    requires Reaches(schedule, s)
    ensures Fared(s, c, Filtered(schedule, c, false), Filtered(schedule, c, true), TimedOut(schedule, c))
    decreases |schedule|
  {
    hide *;
    if schedule == [] {
      NothingYet(schedule, s, c);
    } else {
      var n := |schedule| - 1;
      var before, step := schedule[..n], schedule[n];
      var r := LastStep(schedule, s);
      CallersFare(before, r, c);
      CallerHistoryGrows(before, step, r, c);
      StepKeepsFared(r, step, c, Filtered(before, c, false), Filtered(before, c, true), TimedOut(before, c));
    }
  }

  lemma StepKeepsFared(r: State, step: Step, c: nat, refused: bool, passed: bool, timedOut: bool)
    requires Inv(r) && Enabled(r, step) && Fared(r, c, refused, passed, timedOut)
    ensures var moves := step.ClientMoves? && step.c == c && c in r.clients;
            var filters := moves && r.clients[c].pc == Filter;
            var allowed := c in r.clients && (r.hwReady || r.clients[c].allowed);
            Fared(Apply(r, step), c, refused || (filters && !allowed), passed || (filters && allowed),
                  timedOut || (moves && step.timedOut && r.clients[c].pc == Wait))
  {
    assert Known(r);
    hide Inv, Apply, Enabled;
    StepFares(r, step, c);
  }

  predicate PastWait(pc: ClientPc) {
    pc == Lock || pc == Check || pc == Unlock || pc == Returned(true)
  }

  /** What one step may do to a caller: its own steps move it, and others at most answer it if it waits. */
  ghost predicate Fares(r: State, s: State, c: nat, moves: bool, timedOut: bool)
    requires c in r.clients
  {
    && c in s.clients && s.clients[c].waits == r.clients[c].waits
    && (r.clients[c].status != Submitted ==> s.clients[c].status != Submitted)
    && (!r.clients[c].waits ==> s.clients[c].status == r.clients[c].status)
    && (!moves ==> s.clients[c].pc == r.clients[c].pc)
    && (moves && r.clients[c].pc == Filter ==>
          s.clients[c].pc == if r.hwReady || r.clients[c].allowed then Insert else Returned(false))
    && (moves && r.clients[c].pc != Filter ==> s.clients[c].pc != Filter && s.clients[c].pc != Returned(false))
    && (moves && PastWait(s.clients[c].pc) && !PastWait(r.clients[c].pc) && r.clients[c].waits ==>
          r.clients[c].pc == Wait && (r.clients[c].status != Submitted || timedOut))
  }

  lemma StepFares(r: State, step: Step, c: nat)
    requires Inv(r) && Enabled(r, step)
    ensures var s := Apply(r, step);
            && (c in r.clients ==>
                  Fares(r, s, c, step.ClientMoves? && step.c == c, step.ClientMoves? && step.timedOut))
            && (c in s.clients && c !in r.clients ==> s.clients[c].pc == Filter && s.clients[c].status == Submitted)
  {
    assert Known(r) && ThreadInv(r) && (c in r.clients ==> ClientInv(r, c));
    assert c in r.clients && r.clients[c].signalled ==> r.clients[c].status != Submitted;
    hide Inv, QueueInv, WakeInv, ThreadInv, PlaceOk, Fares, ThreadStep, ClientStep;
    match step
    case ThreadMoves(ok) => ThreadFares(r, ok, c);
    case ClientMoves(d, timedOut) =>
      if d == c {
        OwnFares(r, c, timedOut);
      } else {
        OtherFares(r, d, c, timedOut);
      }
    case Call(d, size, waits, allowed, hasCallback) =>
      CallFares(r, d, Client(Filter, size, waits, allowed, hasCallback, waits, false, Submitted, false), c);
    case HwChanges(ready) => HwFares(r, ready, c);
  }

  lemma OwnFares(r: State, c: nat, timedOut: bool)
    requires c in r.clients && Enabled(r, ClientMoves(c, timedOut))
    requires r.clients[c].signalled ==> r.clients[c].status != Submitted
    ensures Fares(r, ClientStep(r, c), c, true, timedOut) && ClientStep(r, c).clients.Keys == r.clients.Keys
  {
    hide ClientStep, Fares;
    if r.clients[c].pc == Filter {
      FilterFares(r, c, timedOut);
    } else if r.clients[c].pc == Wait {
      WaitFares(r, c, timedOut);
    } else {
      RestFares(r, c, timedOut);
    }
  }

  lemma FilterFares(r: State, c: nat, timedOut: bool)
    requires c in r.clients && r.clients[c].pc == Filter
    ensures Fares(r, ClientStep(r, c), c, true, timedOut) && ClientStep(r, c).clients.Keys == r.clients.Keys
  {
  }

  lemma WaitFares(r: State, c: nat, timedOut: bool)
    requires c in r.clients && r.clients[c].pc == Wait && (timedOut || r.clients[c].status != Submitted)
    ensures Fares(r, ClientStep(r, c), c, true, timedOut) && ClientStep(r, c).clients.Keys == r.clients.Keys
  {
  }

  lemma RestFares(r: State, c: nat, timedOut: bool)
    requires c in r.clients && r.clients[c].pc != Filter && r.clients[c].pc != Wait && !r.clients[c].pc.Returned?
    ensures Fares(r, ClientStep(r, c), c, true, timedOut) && ClientStep(r, c).clients.Keys == r.clients.Keys
  {
  }

  lemma OtherFares(r: State, d: nat, c: nat, timedOut: bool)
    requires d in r.clients && d != c
    ensures c in r.clients ==> Fares(r, ClientStep(r, d), c, false, timedOut)
    ensures ClientStep(r, d).clients.Keys == r.clients.Keys
  {
  }

  lemma CallFares(r: State, d: nat, cl: Client, c: nat)
    requires d !in r.clients
    ensures c in r.clients ==> Fares(r, With(r, d, cl), c, false, false)
    ensures With(r, d, cl).clients.Keys == r.clients.Keys + {d} && With(r, d, cl).clients[d] == cl
  {
  }

  lemma HwFares(r: State, ready: bool, c: nat)
    ensures c in r.clients ==> Fares(r, r.(hwReady := ready), c, false, false)
  {
  }

  lemma ThreadFares(r: State, ok: bool, c: nat)
    requires Known(r) && ThreadInv(r) && Enabled(r, ThreadMoves(ok)) && (c in r.clients ==> ClientInv(r, c))
    ensures c in r.clients ==> Fares(r, ThreadStep(r, ok), c, false, false)
    ensures ThreadStep(r, ok).clients.Keys == r.clients.Keys
  {
    hide PlaceOk;
    assert Current(r.thread) != [] ==> r.thread.c in Current(r.thread);
  }

  /** Times the semaphore was raised, and lowered. */
  ghost function Ups(schedule: seq<Step>): nat {
    if schedule == [] then 0
    else
      var n := |schedule| - 1;
      Ups(schedule[..n]) + if schedule[n].ClientMoves? && exists r :: RaisesIn(schedule, n, r) then 1 else 0
  }

  ghost predicate RaisesIn(schedule: seq<Step>, n: nat, r: State) {
    && TakenIn(schedule, n, r) && schedule[n].ClientMoves?
    && schedule[n].c in r.clients && r.clients[schedule[n].c].pc == Up
  }

  ghost function Wakeups(schedule: seq<Step>): nat {
    if schedule == [] then 0
    else
      var n := |schedule| - 1;
      Wakeups(schedule[..n]) + if schedule[n].ThreadMoves? && exists r :: WakesIn(schedule, n, r) then 1 else 0
  }

  ghost predicate WakesIn(schedule: seq<Step>, n: nat, r: State) {
    TakenIn(schedule, n, r) && r.thread == Parked
  }

  lemma SemaphoreMoves(r: State, step: Step)
    requires Known(r) && Enabled(r, step)
    ensures var raised := step.ClientMoves? && r.clients[step.c].pc == Up;
            var woken := step.ThreadMoves? && r.thread == Parked;
            Apply(r, step).sema + (if woken then 1 else 0) == r.sema + if raised then 1 else 0
    ensures step.ClientMoves? ==> step.c in r.clients
  {
  }

  /** The semaphore holds what was raised and not yet taken: one for each caller past its insertion, one per wakeup. */
  lemma {:induction false} SemaphoreBalances(schedule: seq<Step>, s: State)
    requires Reaches(schedule, s)
    ensures s.sema + Wakeups(schedule) == Ups(schedule)
    decreases |schedule|
  {
    if schedule != [] {
      var n := |schedule| - 1;
      var before, step := schedule[..n], schedule[n];
      var r :| Reaches(before, r) && Known(r) && Enabled(r, step) && s == Apply(r, step);
      SemaphoreBalances(before, r);
      hide Reaches, Apply, Known, Enabled;
      assert TakenIn(schedule, n, r);
      forall q | TakenIn(schedule, n, q) ensures q == r {
        SameRun(before, q, r);
      }
      assert step.ClientMoves? ==> ((exists q :: RaisesIn(schedule, n, q)) <==> RaisesIn(schedule, n, r));
      assert step.ThreadMoves? ==> ((exists q :: WakesIn(schedule, n, q)) <==> WakesIn(schedule, n, r));
      SemaphoreMoves(r, step);
    }
  }
}
