/**
 The parallel check queue (checkqueue.h): one master and any number of workers share a queue of
 checks under one mutex.  The protocol is a state machine whose steps are the critical sections
 of `Loop`, `Add` and `Complete` and the checks that run outside the mutex.
 */
module CheckQueue {
  import Arith

  type Check = int
  type Error = int
  datatype Option<+T> = None | Some(value: T)
  datatype Failure = Failure(check: Check, error: Error)

  /**
   Where a thread is.  `Enter`: about to lock the mutex at the top of the loop.  `Critical`: holding it,
   the clean-up done.  `Waiting`: blocked on its condition variable.  `Working`: running checks.
   `Outside`: the master when not in `Complete`.
   */
  datatype Pc = Outside | Enter | Critical | Waiting(notified: bool) | Working | Exited

  /** The local variables of `Loop`; `ran` counts the checks of `batch` that passed. */
  datatype Thread = Thread(pc: Pc, nNow: nat, local: Option<Error>, batch: seq<Check>, ran: nat, doWork: bool) {
    /** The thread holds a batch that `nTodo` still counts. */
    predicate InFlight() { pc.Working? || (pc.Enter? && nNow > 0) }
  }

  /** What a finished session amounted to: the checks added, those that passed, the failures seen, the answer. */
  datatype Verdict = Verdict(session: multiset<Check>, passed: multiset<Check>, failed: set<Failure>,
                             answer: Option<Error>)

  /** Shared state, threads (the master first), and the history of the current session. */
  datatype State = State(
    queue: seq<Check>, nIdle: int, nTotal: int, result: Option<Error>, nTodo: int, stop: bool,
    batchSize: nat, holder: Option<nat>, toNotify: nat, threads: seq<Thread>,
    session: multiset<Check>, done: multiset<Check>, passed: multiset<Check>, failed: set<Failure>, log: seq<Verdict>)

  datatype Step =
    | Lock(i: nat)                            // lock the mutex and clean up after the last batch
    | Resume(i: nat)                          // leave cond.wait, notified or spuriously
    | Decide(i: nat)                          // wait, return, exit or take a batch, and unlock
    | Run(i: nat, outcome: Option<Error>)     // one check, outside the mutex
    | Push(checks: seq<Check>)                // the locked part of Add
    | Notify(w: nat)                          // the notification that ends Add
    | Complete                                // the master joins
    | Stop                                    // the destructor

  // ---------- The steps ----------

  function SetThread(s: State, i: nat, t: Thread): State
    requires i < |s.threads|
  {
    s.(threads := s.threads[i := t])
  }

  function Wake(t: Thread): Thread {
    if t.pc.Waiting? then t.(pc := Waiting(true)) else t
  }

  /** The clean-up of a thread's last batch, or its first entry, without the notification of the master. */
  function Cleaned(s: State, i: nat): State
    requires i < |s.threads|
  {
    var t := s.threads[i];
    if t.nNow > 0 then
      var swap := t.local.Some? && s.result.None?;
      s.(result := if swap then t.local else s.result, nTodo := s.nTodo - t.nNow,
         done := s.done + multiset(t.batch), holder := Some(i),
         threads := s.threads[i := t.(pc := Critical, local := if swap then s.result else t.local)])
    else
      SetThread(s.(nTotal := s.nTotal + 1, holder := Some(i)), i, t.(pc := Critical))
  }

  /** ... and with it: the worker that finishes the last check informs the master. */
  function Cleanup(s: State, i: nat): State
    requires i < |s.threads|
  {
    var s1 := Cleaned(s, i);
    if s.threads[i].nNow > 0 && s1.nTodo == 0 && i != 0 then SetThread(s1, 0, Wake(s1.threads[0])) else s1
  }

  function Max(a: int, b: int): int { if a < b then b else a }
  function Min(a: int, b: int): int { if a < b then a else b }

  function BatchOf(s: State): int
    requires s.nTotal + s.nIdle + 1 > 0
  {
    Max(1, Min(s.batchSize, |s.queue| / (s.nTotal + s.nIdle + 1)))
  }

  /** A batch is never empty and never larger than the queue. */
  lemma BatchFits(s: State)
    requires s.nTotal >= 0 && s.nIdle >= 0 && s.queue != []
    ensures 1 <= BatchOf(s) <= |s.queue|
  {
    Arith.DivShrinks(|s.queue|, s.nTotal + s.nIdle + 1);
  }

  /** Move the last `n` checks of the queue to thread `i`, which works on them only if no error is known yet. */
  function Taken(s: State, i: nat, n: nat): State
    requires i < |s.threads| && n <= |s.queue|
  {
    var doWork := s.result.None?;
    SetThread(s.(holder := None, queue := s.queue[..|s.queue| - n]), i,
              s.threads[i].(nNow := n, batch := s.queue[|s.queue| - n..], ran := 0, doWork := doWork,
                            pc := if doWork then Working else Enter))
  }

  function DecideNext(s: State, i: nat): State
    requires i < |s.threads| && s.nTotal >= 0 && s.nIdle >= 0
  {
    var t, u := s.threads[i], s.(holder := None);
    if s.queue == [] && !s.stop then
      if i == 0 && s.nTodo == 0 then
        SetThread(u.(nTotal := s.nTotal - 1, result := None, session := multiset{}, done := multiset{},
                     passed := multiset{}, failed := {},
                     log := s.log + [Verdict(s.session, s.passed, s.failed, s.result)]), i, t.(pc := Outside))
      else
        SetThread(u.(nIdle := s.nIdle + 1), i, t.(pc := Waiting(false)))
    else if s.stop then
      SetThread(u, i, t.(pc := Exited))
    else
      BatchFits(s);
      Taken(s, i, BatchOf(s))
  }

  /** A check that passes moves the thread on; a failure, or the end of the batch, sends it back to the mutex. */
  function RunNext(s: State, i: nat, outcome: Option<Error>): State
    requires i < |s.threads| && s.threads[i].ran < |s.threads[i].batch|
  {
    var t := s.threads[i];
    var c := t.batch[t.ran];
    if outcome.None? then
      SetThread(s.(passed := s.passed + multiset{c}), i,
                t.(local := None, ran := t.ran + 1, pc := if t.ran + 1 == |t.batch| then Enter else Working))
    else
      SetThread(s.(failed := s.failed + {Failure(c, outcome.value)}), i, t.(local := outcome, pc := Enter))
  }

  function WakeAll(ts: seq<Thread>): (r: seq<Thread>)
    ensures |r| == |ts|
    ensures forall i :: 0 <= i < |ts| ==> r[i] == if i == 0 then ts[0] else Wake(ts[i])
  {
    seq(|ts|, i requires 0 <= i < |ts| => if i == 0 then ts[0] else Wake(ts[i]))
  }

  predicate Enabled(s: State, step: Step) {
    && s.threads != []
    && match step
       case Lock(i) => i < |s.threads| && s.threads[i].pc.Enter? && s.holder.None?
       case Resume(i) => i < |s.threads| && s.threads[i].pc.Waiting? && s.holder.None?
       case Decide(i) => i < |s.threads| && s.holder == Some(i) && s.nTotal >= 0 && s.nIdle >= 0
       case Run(i, _) => i < |s.threads| && s.threads[i].pc.Working? && s.threads[i].ran < |s.threads[i].batch|
       case Push(_) => s.threads[0].pc.Outside? && s.holder.None? && s.toNotify == 0 && !s.stop
       case Notify(w) => s.threads[0].pc.Outside? && s.toNotify > 0 && w < |s.threads| && (w > 0 || |s.threads| == 1)
       case Complete => s.threads[0].pc.Outside? && s.toNotify == 0 && !s.stop
       case Stop => s.threads[0].pc.Outside? && s.holder.None? && s.toNotify == 0
  }

  function Next(s: State, step: Step): State
    requires Enabled(s, step)
  {
    match step
    case Lock(i) => Cleanup(s, i)
    case Resume(i) => SetThread(s.(nIdle := s.nIdle - 1, holder := Some(i)), i, s.threads[i].(pc := Critical))
    case Decide(i) => DecideNext(s, i)
    case Run(i, outcome) => RunNext(s, i, outcome)
    case Push(checks) =>
      s.(queue := s.queue + checks, nTodo := s.nTodo + |checks|, toNotify := |checks|,
         session := s.session + multiset(checks))
    case Notify(w) =>
      if s.toNotify == 1 then SetThread(s.(toNotify := 0), w, Wake(s.threads[w]))
      else s.(toNotify := 0, threads := WakeAll(s.threads))
    case Complete => SetThread(s, 0, Thread(Enter, 0, None, [], 0, false))
    case Stop => s.(stop := true, threads := WakeAll(s.threads))
  }

  /** A fresh queue: the master outside, every worker about to lock the mutex for the first time. */
  predicate Init(s: State) {
    && s.queue == [] && s.nIdle == 0 && s.nTotal == 0 && s.result.None? && s.nTodo == 0 && !s.stop
    && s.holder.None? && s.toNotify == 0 && s.threads != []
    && (forall i :: 0 <= i < |s.threads| ==>
        s.threads[i] == Thread(if i == 0 then Outside else Enter, 0, None, [], 0, false))
    && s.session == multiset{} && s.done == multiset{} && s.passed == multiset{} && s.failed == {} && s.log == []
  }

  // ---------- Sums over the threads ----------

  ghost function Pool(ts: seq<Thread>, f: Thread -> multiset<Check>): multiset<Check> {
    if ts == [] then multiset{} else f(ts[0]) + Pool(ts[1..], f)
  }

  ghost function Total(ts: seq<Thread>, f: Thread -> nat): nat {
    if ts == [] then 0 else f(ts[0]) + Total(ts[1..], f)
  }

  lemma {:induction false} PoolUpdate(ts: seq<Thread>, i: nat, t: Thread, f: Thread -> multiset<Check>)
    requires i < |ts|
    ensures f(ts[i]) <= Pool(ts, f)
    ensures Pool(ts[i := t], f) == Pool(ts, f) - f(ts[i]) + f(t)
  {
    if i > 0 {
      PoolUpdate(ts[1..], i - 1, t, f);
      assert ts[i := t][1..] == ts[1..][i - 1 := t];
    } else {
      assert ts[i := t][1..] == ts[1..];
    }
  }

  lemma {:induction false} TotalUpdate(ts: seq<Thread>, i: nat, t: Thread, f: Thread -> nat)
    requires i < |ts|
    ensures f(ts[i]) <= Total(ts, f)
    ensures Total(ts[i := t], f) == Total(ts, f) - f(ts[i]) + f(t)
  {
    if i > 0 {
      TotalUpdate(ts[1..], i - 1, t, f);
      assert ts[i := t][1..] == ts[1..][i - 1 := t];
    } else {
      assert ts[i := t][1..] == ts[1..];
    }
  }

  lemma {:induction false} PoolSame(ts: seq<Thread>, us: seq<Thread>, f: Thread -> multiset<Check>)
    requires |ts| == |us| && forall i :: 0 <= i < |ts| ==> f(ts[i]) == f(us[i])
    ensures Pool(ts, f) == Pool(us, f)
  {
    if ts != [] { PoolSame(ts[1..], us[1..], f); }
  }

  lemma {:induction false} TotalSame(ts: seq<Thread>, us: seq<Thread>, f: Thread -> nat)
    requires |ts| == |us| && forall i :: 0 <= i < |ts| ==> f(ts[i]) == f(us[i])
    ensures Total(ts, f) == Total(us, f)
  {
    if ts != [] { TotalSame(ts[1..], us[1..], f); }
  }

  // ---------- The invariant ----------

  function FlightOf(t: Thread): multiset<Check> {
    if t.InFlight() then multiset(t.batch) else multiset{}
  }

  function RanOf(t: Thread): multiset<Check> {
    if t.InFlight() && t.ran <= |t.batch| then multiset(t.batch[..t.ran]) else multiset{}
  }

  function IdleOf(t: Thread): nat { if t.pc.Waiting? then 1 else 0 }

  function EnteredOf(t: Thread): nat { if t.pc.Outside? || (t.pc.Enter? && t.nNow == 0) then 0 else 1 }

  ghost predicate Seen(failed: set<Failure>, e: Error) {
    exists f :: f in failed && f.error == e
  }

  ghost predicate ThreadOk(t: Thread, result: Option<Error>, failed: set<Failure>) {
    && (t.InFlight() ==> t.nNow == |t.batch| > 0 && t.ran <= |t.batch| && (t.doWork || result.Some?))
    && (t.pc.Working? ==> t.doWork && t.ran < |t.batch|)
    // a batch that was worked on ended with a failure of its own or with every check passed
    && (t.pc.Enter? && t.nNow > 0 && t.doWork ==>
          if t.local.Some? then Seen(failed, t.local.value) else t.ran == |t.batch|)
  }

  ghost predicate Structure(s: State) {
    && s.threads != []
    && (forall i :: 0 <= i < |s.threads| ==> ThreadOk(s.threads[i], s.result, s.failed))
    && (forall i :: 0 <= i < |s.threads| ==> (s.threads[i].pc.Critical? <==> s.holder == Some(i)))
    && (forall i :: 0 < i < |s.threads| ==> !s.threads[i].pc.Outside?)
    && (s.holder.Some? ==> s.holder.value < |s.threads|)
    && (s.stop ==> s.threads[0].pc.Outside?) && !s.threads[0].pc.Exited?
  }

  ghost predicate Counts(s: State) {
    s.nIdle == Total(s.threads, IdleOf) && s.nTotal == Total(s.threads, EnteredOf)
  }

  /** No check is lost or duplicated, and `nTodo` counts the queued and the in-flight ones. */
  ghost predicate Accounts(s: State) {
    && s.session == multiset(s.queue) + Pool(s.threads, FlightOf) + s.done
    && s.nTodo == |s.queue| + |Pool(s.threads, FlightOf)|
  }

  ghost predicate Outcomes(s: State) {
    && (s.result.None? ==> s.passed == s.done + Pool(s.threads, RanOf))
    && (s.result.Some? ==> Seen(s.failed, s.result.value))
    && (forall f :: f in s.failed ==> f.check in s.session)
  }

  /** A blocked master still has something to wait for. */
  ghost predicate MasterWaits(s: State) {
    s.threads != [] && s.threads[0].pc == Waiting(false) ==> s.queue == [] && s.nTodo > 0
  }

  /**
   `Complete` answers "no error" only if every check of the session ran and passed, else with an error one of them
   returned.
   */
  ghost predicate Truthful(v: Verdict) {
    match v.answer
    case None => v.passed == v.session
    case Some(e) => exists f :: f in v.failed && f.error == e && f.check in v.session
  }

  ghost predicate Inv(s: State) {
    Structure(s) && Counts(s) && Accounts(s) && Outcomes(s) && MasterWaits(s) && forall v :: v in s.log ==> Truthful(v)
  }

  // ---------- Every step keeps the invariant ----------

  lemma Sums(ts: seq<Thread>, i: nat, t: Thread)
    requires i < |ts|
    ensures FlightOf(ts[i]) <= Pool(ts, FlightOf) && RanOf(ts[i]) <= Pool(ts, RanOf)
    ensures Pool(ts[i := t], FlightOf) == Pool(ts, FlightOf) - FlightOf(ts[i]) + FlightOf(t)
    ensures Pool(ts[i := t], RanOf) == Pool(ts, RanOf) - RanOf(ts[i]) + RanOf(t)
    ensures Total(ts, IdleOf) >= IdleOf(ts[i]) && Total(ts, EnteredOf) >= EnteredOf(ts[i])
    ensures Total(ts[i := t], IdleOf) == Total(ts, IdleOf) - IdleOf(ts[i]) + IdleOf(t)
    ensures Total(ts[i := t], EnteredOf) == Total(ts, EnteredOf) - EnteredOf(ts[i]) + EnteredOf(t)
  {
    PoolUpdate(ts, i, t, FlightOf);
    PoolUpdate(ts, i, t, RanOf);
    TotalUpdate(ts, i, t, IdleOf);
    TotalUpdate(ts, i, t, EnteredOf);
  }

  /** A thread that changes neither its batch nor its progress leaves the accounts alone. */
  lemma SumsSame(ts: seq<Thread>, i: nat, t: Thread)
    requires i < |ts| && FlightOf(t) == FlightOf(ts[i]) && RanOf(t) == RanOf(ts[i])
    ensures Pool(ts[i := t], FlightOf) == Pool(ts, FlightOf) && Pool(ts[i := t], RanOf) == Pool(ts, RanOf)
    ensures Total(ts[i := t], IdleOf) == Total(ts, IdleOf) - IdleOf(ts[i]) + IdleOf(t)
    ensures Total(ts[i := t], EnteredOf) == Total(ts, EnteredOf) - EnteredOf(ts[i]) + EnteredOf(t)
  {
    Sums(ts, i, t);
  }

  lemma SeenGrows(failed: set<Failure>, f: Failure)
    ensures Seen(failed + {f}, f.error)
    ensures forall e :: Seen(failed, e) ==> Seen(failed + {f}, e)
  {
    assert f in failed + {f};
    forall e | Seen(failed, e) ensures Seen(failed + {f}, e) {
      var g :| g in failed && g.error == e;
      assert g in failed + {f};
    }
  }

  /** The invariant but for what a blocked master is owed. */
  ghost predicate Inv0(s: State) {
    Structure(s) && Counts(s) && Accounts(s) && Outcomes(s) && forall v :: v in s.log ==> Truthful(v)
  }

  /** Waking one thread keeps the invariant. */
  lemma WakeKeeps(s: State, i: nat)
    requires Inv0(s) && i < |s.threads|
    ensures Inv0(SetThread(s, i, Wake(s.threads[i])))
  {
    hide Pool, Total, Seen, Truthful;
    SumsSame(s.threads, i, Wake(s.threads[i]));
    hide FlightOf, RanOf;
  }

  lemma ResumeKeeps(s: State, i: nat)
    requires Inv(s) && Enabled(s, Resume(i))
    ensures Inv(Next(s, Resume(i)))
  {
    hide Pool, Total, Seen, Truthful;
    SumsSame(s.threads, i, s.threads[i].(pc := Critical));
  }

  lemma PassOf(t: Thread, t': Thread)
    requires t.InFlight() && t'.InFlight() && t.batch == t'.batch && t.ran < |t.batch| && t'.ran == t.ran + 1
    ensures FlightOf(t') == FlightOf(t) && RanOf(t') == RanOf(t) + multiset{t.batch[t.ran]}
  {
    assert t.batch[..t.ran + 1] == t.batch[..t.ran] + [t.batch[t.ran]];
  }

  lemma PassKeeps(s: State, i: nat)
    requires Inv(s) && Enabled(s, Run(i, None))
    ensures Inv(Next(s, Run(i, None)))
  {
    hide Pool, Total, Seen, Truthful;
    var s' := Next(s, Run(i, None));
    PassOf(s.threads[i], s'.threads[i]);
    Sums(s.threads, i, s'.threads[i]);
    hide FlightOf, RanOf;
    assert Structure(s') by { hide Counts, Accounts, Outcomes, MasterWaits; }
    assert Counts(s') && MasterWaits(s') by { hide Accounts, Outcomes; }
    assert Accounts(s') by { hide Counts, Outcomes; }
    assert Outcomes(s') by { hide Counts, Accounts; }
  }

  lemma FailKeeps(s: State, i: nat, e: Error)
    requires Inv(s) && Enabled(s, Run(i, Some(e)))
    ensures Inv(Next(s, Run(i, Some(e))))
  {
    hide Pool, Total, Truthful;
    var s', t := Next(s, Run(i, Some(e))), s.threads[i];
    SumsSame(s.threads, i, s'.threads[i]);
    assert t.batch[t.ran] in s.session by {
      Sums(s.threads, i, t);
      assert t.batch[t.ran] in FlightOf(t);
    }
    SeenGrows(s.failed, Failure(t.batch[t.ran], e));
    hide Seen, FlightOf, RanOf;
    assert Structure(s') by { hide Counts, Accounts, Outcomes, MasterWaits; }
    assert Counts(s') && MasterWaits(s') by { hide Accounts, Outcomes; }
    assert Accounts(s') by { hide Counts, Outcomes; }
    assert Outcomes(s') by { hide Counts, Accounts; }
  }

  lemma PushKeeps(s: State, checks: seq<Check>)
    requires Inv(s) && Enabled(s, Push(checks))
    ensures Inv(Next(s, Push(checks)))
  {
    hide Pool, Total, Seen, Truthful;
  }

  /** A batch whose result arrives while no error is known was worked on, so its error, if any, is its own. */
  lemma CleanedKeeps(s: State, i: nat)
    requires Inv(s) && Enabled(s, Lock(i)) && s.threads[i].nNow > 0
    ensures Inv0(Cleaned(s, i))
  {
    hide Pool, Total, Seen, Truthful;
    var s', t := Cleaned(s, i), s.threads[i];
    Sums(s.threads, i, s'.threads[i]);
    assert FlightOf(s'.threads[i]) == multiset{} && RanOf(s'.threads[i]) == multiset{};
    assert FlightOf(t) == multiset(t.batch);
    assert s'.result.None? ==> RanOf(t) == multiset(t.batch) by {
      assert t.ran == |t.batch| ==> t.batch[..t.ran] == t.batch;
    }
    hide FlightOf, RanOf;
    assert Structure(s') by { hide Counts, Accounts, Outcomes, MasterWaits; }
    assert Counts(s') by { hide Accounts, Outcomes; }
    assert Accounts(s') by { hide Counts, Outcomes; }
    assert Outcomes(s') by { hide Counts, Accounts; }
  }

  lemma LockKeeps(s: State, i: nat)
    requires Inv(s) && Enabled(s, Lock(i))
    ensures Inv(Next(s, Lock(i)))
  {
    hide Pool, Total, Seen, Truthful;
    if s.threads[i].nNow > 0 {
      LockCleanKeeps(s, i);
    } else {
      SumsSame(s.threads, i, s.threads[i].(pc := Critical));
    }
  }

  lemma LockCleanKeeps(s: State, i: nat)
    requires Inv(s) && Enabled(s, Lock(i)) && s.threads[i].nNow > 0
    ensures Inv(Next(s, Lock(i)))
  {
    hide Pool, Total, Seen, Truthful, Structure, Counts, Outcomes;
    CleanedKeeps(s, i);
    WakeKeeps(Cleaned(s, i), 0);
  }

  lemma WaitKeeps(s: State, i: nat)
    requires Inv(s) && Enabled(s, Decide(i)) && s.queue == [] && !s.stop && !(i == 0 && s.nTodo == 0)
    ensures Inv(Next(s, Decide(i)))
  {
    hide Pool, Total, Seen, Truthful;
    SumsSame(s.threads, i, s.threads[i].(pc := Waiting(false)));
    hide FlightOf, RanOf;
  }

  lemma ExitKeeps(s: State, i: nat)
    requires Inv(s) && Enabled(s, Decide(i)) && s.stop
    ensures Inv(Next(s, Decide(i)))
  {
    hide Pool, Total, Seen, Truthful;
    SumsSame(s.threads, i, s.threads[i].(pc := Exited));
    hide FlightOf, RanOf;
  }

  /** Moving a batch from the queue to a thread loses no check. */
  lemma MoveBatch(queue: seq<Check>, rest: seq<Check>, batch: seq<Check>, flight: multiset<Check>,
                  done: multiset<Check>)
    requires queue == rest + batch
    ensures multiset(queue) + flight + done == multiset(rest) + (flight + multiset(batch)) + done
    ensures |queue| + |flight| == |rest| + |flight + multiset(batch)|
  {}

  lemma TakeOf(t: Thread, t': Thread)
    requires t.pc.Critical? && t'.InFlight() && t'.ran == 0
    ensures FlightOf(t) == multiset{} && RanOf(t) == multiset{}
    ensures FlightOf(t') == multiset(t'.batch) && RanOf(t') == multiset{}
  {
    assert t'.batch[..0] == [];
  }

  lemma TakeKeeps(s: State, i: nat, n: nat)
    requires Inv(s) && i < |s.threads| && s.holder == Some(i) && !s.stop && 1 <= n <= |s.queue|
    ensures Inv(Taken(s, i, n))
  {
    hide Pool, Total, Seen, Truthful;
    var s' := Taken(s, i, n);
    assert s.threads[i].pc.Critical?;
    TakeOf(s.threads[i], s'.threads[i]);
    Sums(s.threads, i, s'.threads[i]);
    hide FlightOf, RanOf;
    assert s.queue == s'.queue + s'.threads[i].batch;
    MoveBatch(s.queue, s'.queue, s'.threads[i].batch, Pool(s.threads, FlightOf), s.done);
    assert Structure(s') by { hide Counts, Accounts, Outcomes, MasterWaits; }
    assert Counts(s') && MasterWaits(s') by { hide Accounts, Outcomes; }
    hide Structure, Counts, MasterWaits;
    assert Accounts(s') by { hide Outcomes; }
    assert Outcomes(s') by { hide Accounts; }
  }

  /** When nothing is left to do, nothing is in flight. */
  lemma {:induction false} NothingInFlight(ts: seq<Thread>, result: Option<Error>, failed: set<Failure>)
    requires forall i :: 0 <= i < |ts| ==> ThreadOk(ts[i], result, failed)
    requires Pool(ts, FlightOf) == multiset{}
    ensures Pool(ts, RanOf) == multiset{}
    ensures forall i :: 0 <= i < |ts| ==> !ts[i].InFlight()
  {
    hide Seen;
    if ts != [] {
      assert FlightOf(ts[0]) <= multiset{};
      assert !ts[0].InFlight();
      NothingInFlight(ts[1..], result, failed);
      forall i | 0 <= i < |ts| ensures !ts[i].InFlight() { if i > 0 { assert ts[i] == ts[1..][i - 1]; } }
    }
  }

  /** The master returns: the verdict it hands out is truthful, and the next session starts clean. */
  lemma ReturnKeeps(s: State)
    requires Inv(s) && Enabled(s, Decide(0)) && s.queue == [] && !s.stop && s.nTodo == 0
    ensures Inv(Next(s, Decide(0)))
  {
    hide Pool, Total;
    var s' := Next(s, Decide(0));
    assert Pool(s.threads, FlightOf) == multiset{};
    NothingInFlight(s.threads, s.result, s.failed);
    SumsSame(s.threads, 0, s'.threads[0]);
    hide FlightOf, RanOf;
    assert Truthful(Verdict(s.session, s.passed, s.failed, s.result)) by { hide Structure, Counts; }
    assert Structure(s') by { hide Counts, Accounts, Outcomes, MasterWaits, Truthful; }
    hide Structure, Truthful;
  }

  lemma WakeAllSums(ts: seq<Thread>)
    ensures Pool(WakeAll(ts), FlightOf) == Pool(ts, FlightOf) && Pool(WakeAll(ts), RanOf) == Pool(ts, RanOf)
    ensures Total(WakeAll(ts), IdleOf) == Total(ts, IdleOf) && Total(WakeAll(ts), EnteredOf) == Total(ts, EnteredOf)
  {
    hide Pool, Total;
    var us := WakeAll(ts);
    PoolSame(ts, us, FlightOf);
    PoolSame(ts, us, RanOf);
    TotalSame(ts, us, IdleOf);
    TotalSame(ts, us, EnteredOf);
  }

  lemma WakeAllKeeps(s: State)
    requires Inv(s)
    ensures Inv(s.(threads := WakeAll(s.threads)))
  {
    hide Pool, Total, Seen, Truthful, FlightOf, RanOf;
    var s' := s.(threads := WakeAll(s.threads));
    WakeAllSums(s.threads);
    assert Structure(s') by { hide Counts, Accounts, Outcomes, MasterWaits; }
    assert MasterWaits(s');
    hide Structure, MasterWaits, WakeAll;
  }

  lemma NotifyKeeps(s: State, w: nat)
    requires Inv(s) && Enabled(s, Notify(w))
    ensures Inv(Next(s, Notify(w)))
  {
    if s.toNotify == 1 {
      WakeKeeps(s, w);
      hide Pool, Total, Seen, Truthful;
    } else {
      WakeAllKeeps(s);
      hide Pool, Total, Seen, Truthful, WakeAll;
    }
  }

  lemma StopKeeps(s: State)
    requires Inv(s) && Enabled(s, Stop)
    ensures Inv(Next(s, Stop))
  {
    WakeAllKeeps(s);
    hide Pool, Total, Seen, Truthful, WakeAll;
  }

  lemma CompleteKeeps(s: State)
    requires Inv(s) && Enabled(s, Complete)
    ensures Inv(Next(s, Complete))
  {
    hide Pool, Total, Seen, Truthful;
    SumsSame(s.threads, 0, Thread(Enter, 0, None, [], 0, false));
    hide FlightOf, RanOf;
  }

  lemma DecideKeeps(s: State, i: nat)
    requires Inv(s) && Enabled(s, Decide(i))
    ensures Inv(Next(s, Decide(i)))
  {
    hide Inv, BatchOf, Taken;
    if s.stop {
      ExitKeeps(s, i);
    } else if s.queue != [] {
      BatchFits(s);
      TakeKeeps(s, i, BatchOf(s));
    } else if i == 0 && s.nTodo == 0 {
      ReturnKeeps(s);
    } else {
      WaitKeeps(s, i);
    }
  }

  lemma StepKeeps(s: State, step: Step)
    requires Inv(s) && Enabled(s, step)
    ensures Inv(Next(s, step))
  {
    hide Inv, Next;
    match step
    case Lock(i) => LockKeeps(s, i);
    case Resume(i) => ResumeKeeps(s, i);
    case Decide(i) => DecideKeeps(s, i);
    case Run(i, outcome) => if outcome.None? { PassKeeps(s, i); } else { FailKeeps(s, i, outcome.value); }
    case Push(checks) => PushKeeps(s, checks);
    case Notify(w) => NotifyKeeps(s, w);
    case Complete => CompleteKeeps(s);
    case Stop => StopKeeps(s);
  }

  lemma {:induction false} ZeroPool(ts: seq<Thread>)
    requires forall i :: 0 <= i < |ts| ==> ts[i].nNow == 0 && (ts[i].pc.Outside? || ts[i].pc.Enter?)
    ensures Pool(ts, FlightOf) == multiset{} && Pool(ts, RanOf) == multiset{}
    ensures Total(ts, IdleOf) == 0 && Total(ts, EnteredOf) == 0
  {
    if ts != [] { ZeroPool(ts[1..]); }
  }

  lemma InitInv(s: State)
    requires Init(s)
    ensures Inv(s)
  {
    ZeroPool(s.threads);
    hide Pool, Total;
  }

  // ---------- Theorems over every run ----------

  /** `s` is reached from `s0` by the steps `run`, in any interleaving. */
  ghost predicate Reaches(s0: State, run: seq<Step>, s: State)
    decreases |run|
  {
    if run == [] then s0 == s
    else Enabled(s0, run[0]) && Reaches(Next(s0, run[0]), run[1..], s)
  }

  lemma {:induction false} ReachesInv(s0: State, run: seq<Step>, s: State)
    requires Inv(s0) && Reaches(s0, run, s)
    ensures Inv(s)
    decreases |run|
  {
    hide Inv, Next, Enabled;
    if run != [] {
      StepKeeps(s0, run[0]);
      ReachesInv(Next(s0, run[0]), run[1..], s);
    }
  }

  /** In every interleaving, every answer `Complete` ever returned was truthful about its own session. */
  lemma AnswersAreTruthful(s0: State, run: seq<Step>, s: State, v: Verdict)
    requires Init(s0) && Reaches(s0, run, s) && v in s.log
    ensures Truthful(v)
  {
    InitInv(s0);
    ReachesInv(s0, run, s);
  }

  // ---------- No deadlock, and Complete returns ----------

  /** A step a thread can take without a spurious wake-up. */
  predicate Productive(s: State, step: Step) {
    Enabled(s, step) && (step.Lock? || step.Decide? || step.Run? || (step.Resume? && s.threads[step.i].pc.notified))
  }

  lemma {:induction false} SomeInFlight(ts: seq<Thread>) returns (i: nat)
    requires Pool(ts, FlightOf) != multiset{}
    ensures i < |ts| && ts[i].InFlight()
  {
    if ts[0].InFlight() {
      i := 0;
    } else {
      i := SomeInFlight(ts[1..]);
      i := i + 1;
    }
  }

  /** With or without workers, the notification that ends `Add` can be given, and `Complete` can then be called. */
  lemma AddEnds(s: State) returns (w: nat)
    requires Inv(s) && s.threads[0].pc.Outside? && s.toNotify > 0
    ensures Enabled(s, Notify(w)) && Next(s, Notify(w)).threads[0] == s.threads[0]
    ensures !s.stop ==> Enabled(Next(s, Notify(w)), Complete)
  {
    w := if |s.threads| == 1 then 0 else 1;
  }

  /** While the master is in `Complete`, some thread can always move. */
  lemma NoDeadlock(s: State) returns (step: Step)
    requires Inv(s) && !s.threads[0].pc.Outside?
    ensures Productive(s, step)
  {
    hide Pool, Total, Seen, Truthful;
    if s.holder.Some? {
      step := Decide(s.holder.value);
    } else {
      var i: nat := 0;
      if s.threads[0].pc == Waiting(false) {
        assert |Pool(s.threads, FlightOf)| > 0;
        i := SomeInFlight(s.threads);
      }
      hide Outcomes, Accounts;
      step := if s.threads[i].pc.Enter? then Lock(i) else if s.threads[i].pc.Working? then Run(i, None) else Resume(i);
    }
  }

  function WeightOf(t: Thread): nat {
    match t.pc
    case Enter => 4
    case Working => 4 + if t.ran <= |t.batch| then |t.batch| - t.ran else 0
    case Critical => 1
    case Waiting(notified) => if notified then 2 else 0
    case _ => 0
  }

  /** How many productive steps are left at most. */
  ghost function Work(s: State): nat {
    5 * |s.queue| + Total(s.threads, WeightOf)
  }

  lemma LockProgress(s: State, i: nat)
    requires Enabled(s, Lock(i))
    ensures Work(Next(s, Lock(i))) < Work(s)
  {
    hide Total;
    var s1 := Cleaned(s, i);
    assert s1.queue == s.queue && s1.threads == s.threads[i := s1.threads[i]] && s1.threads[i].pc.Critical?;
    hide Cleaned;
    TotalUpdate(s.threads, i, s1.threads[i], WeightOf);
    TotalUpdate(s1.threads, 0, Wake(s1.threads[0]), WeightOf);
  }

  lemma DecideProgress(s: State, i: nat)
    requires Enabled(s, Decide(i)) && s.threads[i].pc.Critical?
    ensures Work(Next(s, Decide(i))) < Work(s)
  {
    hide Total;
    if s.queue != [] { BatchFits(s); }
    hide BatchOf;
    TotalUpdate(s.threads, i, Next(s, Decide(i)).threads[i], WeightOf);
  }

  lemma RunProgress(s: State, i: nat, outcome: Option<Error>)
    requires Enabled(s, Run(i, outcome))
    ensures Work(Next(s, Run(i, outcome))) < Work(s)
  {
    hide Total;
    TotalUpdate(s.threads, i, Next(s, Run(i, outcome)).threads[i], WeightOf);
  }

  lemma ResumeProgress(s: State, i: nat)
    requires Enabled(s, Resume(i)) && s.threads[i].pc.notified
    ensures Work(Next(s, Resume(i))) < Work(s)
  {
    hide Total;
    TotalUpdate(s.threads, i, Next(s, Resume(i)).threads[i], WeightOf);
  }

  lemma HolderIsCritical(s: State, i: nat)
    requires Inv(s) && Enabled(s, Decide(i))
    ensures s.threads[i].pc.Critical?
  {
    hide Pool, Total, Seen, Truthful, Accounts, Outcomes;
  }

  /** Every productive step uses up work. */
  lemma Progress(s: State, step: Step)
    requires Inv(s) && Productive(s, step)
    ensures Work(Next(s, step)) < Work(s)
  {
    hide Inv, Next, Work;
    match step
    case Lock(i) => LockProgress(s, i);
    case Decide(i) => HolderIsCritical(s, i); DecideProgress(s, i);
    case Run(i, outcome) => RunProgress(s, i, outcome);
    case Resume(i) => ResumeProgress(s, i);
  }

  ghost predicate ProductiveRun(s: State, run: seq<Step>, s': State)
    decreases |run|
  {
    if run == [] then s == s'
    else Productive(s, run[0]) && ProductiveRun(Next(s, run[0]), run[1..], s')
  }

  /**
   Whatever the schedule, a run without spurious wake-ups ends within `Work(s)` steps, and where it ends
   the master is no longer in `Complete`.
   */
  lemma {:induction false} CompleteReturns(s: State, run: seq<Step>, s': State)
    requires Inv(s) && ProductiveRun(s, run, s')
    ensures |run| <= Work(s)
    ensures (forall step :: !Productive(s', step)) ==> s'.threads != [] && s'.threads[0].pc.Outside?
    decreases |run|
  {
    if run == [] {
      if !s'.threads[0].pc.Outside? { var step := NoDeadlock(s'); }
    } else {
      hide Inv, Next, Enabled, Productive, Work;
      ProductiveEnabled(s, run[0]);
      Progress(s, run[0]);
      StepKeeps(s, run[0]);
      CompleteReturns(Next(s, run[0]), run[1..], s');
    }
  }

  lemma ProductiveEnabled(s: State, step: Step)
    requires Productive(s, step)
    ensures Enabled(s, step)
  {}
}
