/** The cancellation protocol of src/core/common/gfal_cancel.c as a system of
    interleaved steps.

    Every thread may open nested scopes (gfal2_start_scope_cancel and
    gfal2_end_scope_cancel), call gfal2_cancel, and register or remove hooks.
    One action is one access to shared memory, so the flag test and the
    increment of a scope entry are two steps, as are the test, the lock, the
    count, the raise and the final clear of a cancel call.

    Scopes carry a serial number. The fields counted, live and called of a
    thread are history: they record what a cancel call observed and change
    no step. */
module Cancellation {
  import opened Wrappers

  datatype Pc =
    | Ready                          // outside the protocol
    | Admitted                       // saw the flag down, not yet counted
    | Cancelling                     // in gfal2_cancel, saw the flag down
    | Locked                         // holds mux_cancel
    | Counted(n: int)                // has read running_ops
    | Raised(n: int, next: nat)      // flag is up, hooks below next were invoked
    | Waiting(n: int)                // unlocked, polling running_ops
    | Drained(n: int)                // saw zero, flag not yet cleared

  datatype Thread = Thread(pc: Pc, open: seq<nat>, counted: multiset<nat>, live: multiset<nat>, called: seq<nat>)

  datatype State = State(
    threads: seq<Thread>,
    runningOps: int,
    flag: bool,
    lock: Option<nat>,
    hooks: seq<nat>,
    nextScope: nat,
    ended: set<nat>)

  datatype Action =
    | TestFlag(t: nat)
    | Enter(t: nat)
    | Leave(t: nat)
    | TestCancel(t: nat)
    | Acquire(t: nat)
    | Count(t: nat)
    | Raise(t: nat)
    | InvokeHook(t: nat)
    | Release(t: nat)
    | Poll(t: nat)
    | Clear(t: nat)
    | AddHook(t: nat, hook: nat)
    | RemoveHook(t: nat, hook: nat)

  function Init(n: nat): State {
    State(seq(n, _ => Thread(Ready, [], multiset{}, multiset{}, [])), 0, false, None, [], 0, {})
  }

  function Put(s: State, t: nat, th: Thread): State
    requires t < |s.threads|
  {
    s.(threads := s.threads[t := th])
  }

  function Without(hooks: seq<nat>, hook: nat): seq<nat> {
    if hooks == [] then [] else (if hooks[0] == hook then [] else [hooks[0]]) + Without(hooks[1..], hook)
  }

  /** One step of one thread; None when the action is not enabled. */
  function Step(s: State, a: Action): Option<State> {
    if a.t >= |s.threads| then None else
    var t := a.t;
    var th := s.threads[t];
    match a
    case TestFlag(_) =>
      if !th.pc.Ready? then None
      else if s.flag then Some(s)                                  // ECANCELED
      else Some(Put(s, t, th.(pc := Admitted)))
    case Enter(_) =>
      if !th.pc.Admitted? then None
      else Some(Put(s, t, th.(pc := Ready, open := th.open + [s.nextScope]))
                .(runningOps := s.runningOps + 1, nextScope := s.nextScope + 1))
    case Leave(_) =>
      if !th.pc.Ready? || th.open == [] then None
      else
        var last := |th.open| - 1;
        Some(Put(s, t, th.(open := th.open[..last]))
             .(runningOps := s.runningOps - 1, ended := s.ended + {th.open[last]}))
    case TestCancel(_) =>
      if !th.pc.Ready? then None
      else if s.flag then Some(s)                                  // returns 0
      else Some(Put(s, t, th.(pc := Cancelling)))
    case Acquire(_) =>
      if !th.pc.Cancelling? || s.lock.Some? then None
      else Some(Put(s, t, th.(pc := Locked)).(lock := Some(t)))
    case Count(_) =>
      if !th.pc.Locked? then None
      else Some(Put(s, t, th.(pc := Counted(s.runningOps), counted := Open(s.threads))))
    case Raise(_) =>
      if !th.pc.Counted? then None
      else Some(Put(s, t, th.(pc := Raised(th.pc.n, 0), live := Open(s.threads), called := [])).(flag := true))
    case InvokeHook(_) =>
      if !th.pc.Raised? || th.pc.next >= |s.hooks| then None
      else Some(Put(s, t, th.(pc := Raised(th.pc.n, th.pc.next + 1), called := th.called + [s.hooks[th.pc.next]])))
    case Release(_) =>
      if !th.pc.Raised? || th.pc.next < |s.hooks| then None
      else Some(Put(s, t, th.(pc := Waiting(th.pc.n))).(lock := None))
    case Poll(_) =>
      if !th.pc.Waiting? then None
      else if s.runningOps > 0 then Some(s)
      else Some(Put(s, t, th.(pc := Drained(th.pc.n))))
    case Clear(_) =>
      if !th.pc.Drained? then None
      else Some(Put(s, t, th.(pc := Ready)).(flag := false))       // returns n
    case AddHook(_, hook) =>
      if !th.pc.Ready? || s.lock.Some? then None
      else Some(s.(hooks := s.hooks + [hook]))
    case RemoveHook(_, hook) =>
      if !th.pc.Ready? || s.lock.Some? then None
      else Some(s.(hooks := Without(s.hooks, hook)))
  }

  /** The state after a whole interleaving; None when some step is not enabled. */
  function Exec(s: State, run: seq<Action>): Option<State>
    decreases |run|
  {
    if run == [] then Some(s)
    else match Step(s, run[0])
      case None => None
      case Some(s') => Exec(s', run[1..])
  }

  /** The scopes that are open, over all threads. */
  function Open(ts: seq<Thread>): multiset<nat> {
    if ts == [] then multiset{} else multiset(ts[0].open) + Open(ts[1..])
  }

  function Admissions(ts: seq<Thread>): nat {
    if ts == [] then 0 else (if ts[0].pc.Admitted? then 1 else 0) + Admissions(ts[1..])
  }

  lemma {:induction false} OpenPut(ts: seq<Thread>, t: nat, th: Thread)
    requires t < |ts|
    ensures Open(ts[t := th]) + multiset(ts[t].open) == Open(ts) + multiset(th.open)
  {
    if t == 0 {
      assert ts[t := th][1..] == ts[1..];
    } else {
      OpenPut(ts[1..], t - 1, th);
      var head, old', new' := multiset(ts[0].open), Open(ts[1..]), Open(ts[1..][t - 1 := th]);
      assert ts[t := th][1..] == ts[1..][t - 1 := th];
      assert head + new' + multiset(ts[t].open) == head + (new' + multiset(ts[t].open));
      assert head + old' + multiset(th.open) == head + (old' + multiset(th.open));
    }
  }

  lemma {:induction false} OpenHas(ts: seq<Thread>, t: nat)
    requires t < |ts|
    ensures multiset(ts[t].open) <= Open(ts)
  {
    if t > 0 {
      OpenHas(ts[1..], t - 1);
    }
  }

  lemma {:induction false} AdmissionsPut(ts: seq<Thread>, t: nat, th: Thread)
    requires t < |ts|
    ensures Admissions(ts[t := th]) ==
            Admissions(ts) - (if ts[t].pc.Admitted? then 1 else 0) + (if th.pc.Admitted? then 1 else 0)
  {
    if t == 0 {
      assert ts[t := th][1..] == ts[1..];
    } else {
      AdmissionsPut(ts[1..], t - 1, th);
      assert ts[t := th][1..] == ts[1..][t - 1 := th];
    }
  }

  predicate HoldsLock(pc: Pc) { pc.Locked? || pc.Counted? || pc.Raised? }

  /** Each serial number below nextScope is open exactly once or has ended, never both. */
  ghost predicate Ledger(open: multiset<nat>, next: nat, ended: set<nat>) {
    forall x: nat ::
      && open[x] == (if x < next && x !in ended then 1 else 0)
      && (x in ended ==> x < next)
  }

  ghost predicate Accounted(s: State) { Ledger(Open(s.threads), s.nextScope, s.ended) }

  /** What a cancel call knows at its program point. */
  ghost predicate Honest(s: State, th: Thread) {
    match th.pc
    case Counted(n) => Snapshot(s, n, th.counted)
    case Raised(n, k) =>
      && Snapshot(s, n, th.counted) && Issued(s, th.live)
      && k <= |s.hooks| && th.called == s.hooks[..k]
    case Waiting(n) => Snapshot(s, n, th.counted) && Issued(s, th.live)
    case Drained(n) =>
      && Snapshot(s, n, th.counted) && th.open == []
      && (forall x | x in th.counted :: x in s.ended)
      && (forall x | x in th.live :: x in s.ended)
    case _ => true
  }

  ghost predicate Issued(s: State, m: multiset<nat>) {
    forall x | x in m :: x < s.nextScope && m[x] == 1
  }

  ghost predicate Snapshot(s: State, n: int, m: multiset<nat>) { n == |m| && Issued(s, m) }

  /** The lock is held by the one thread between its lock and unlock, or by nobody. */
  ghost predicate LockHeld(s: State) {
    && (forall t: nat | t < |s.threads| :: HoldsLock(s.threads[t].pc) <==> s.lock == Some(t))
    && (s.lock.Some? ==> s.lock.value < |s.threads|)
  }

  ghost predicate Inv(s: State) {
    && s.runningOps == |Open(s.threads)|
    && Accounted(s)
    && LockHeld(s)
    && (forall t: nat | t < |s.threads| :: Honest(s, s.threads[t]))
  }

  lemma {:induction false} OpenOfIdle(n: nat)
    ensures Open(Init(n).threads) == multiset{}
  {
    if n > 0 {
      OpenOfIdle(n - 1);
      assert Init(n).threads[1..] == Init(n - 1).threads;
    }
  }

  lemma InitHolds(n: nat)
    ensures Inv(Init(n))
  {
    OpenOfIdle(n);
  }

  lemma Cancel(a: multiset<nat>, b: multiset<nat>, c: multiset<nat>)
    requires a + c == b + c
    ensures a == b
  {
    forall x: nat ensures a[x] == b[x] {
      assert (a + c)[x] == (b + c)[x];
    }
  }

  lemma TakeOut(a: multiset<nat>, b: multiset<nat>, c: multiset<nat>, x: nat)
    requires a + (c + multiset{x}) == b + c
    ensures x in b && a == b - multiset{x}
  {
    assert a + (c + multiset{x}) == (a + multiset{x}) + c;
    Cancel(a + multiset{x}, b, c);
  }

  lemma MultisetTail(open: seq<nat>, x: nat)
    ensures multiset(open + [x]) == multiset(open) + multiset{x}
  {}

  lemma EnterOpens(s: State, t: nat)
    requires Step(s, Enter(t)).Some?
    ensures var s' := Step(s, Enter(t)).value;
      && Open(s'.threads) == Open(s.threads) + multiset{s.nextScope}
      && s'.nextScope == s.nextScope + 1 && s'.ended == s.ended && s'.runningOps == s.runningOps + 1
  {
    var th := s.threads[t];
    var th' := th.(pc := Ready, open := th.open + [s.nextScope]);
    OpenPut(s.threads, t, th');
    MultisetTail(th.open, s.nextScope);
    Cancel(Open(Step(s, Enter(t)).value.threads), Open(s.threads) + multiset{s.nextScope}, multiset(th.open));
  }

  lemma LeaveCloses(s: State, t: nat)
    requires Step(s, Leave(t)).Some?
    ensures s.threads[t].open != []
    ensures var s' := Step(s, Leave(t)).value;
      && var x := s.threads[t].open[|s.threads[t].open| - 1];
      && x in Open(s.threads) && Open(s'.threads) == Open(s.threads) - multiset{x}
      && s'.nextScope == s.nextScope && s'.ended == s.ended + {x} && s'.runningOps == s.runningOps - 1
  {
    var th := s.threads[t];
    var last := |th.open| - 1;
    var x := th.open[last];
    OpenPut(s.threads, t, th.(open := th.open[..last]));
    MultisetTail(th.open[..last], x);
    assert th.open == th.open[..last] + [x];
    TakeOut(Open(Step(s, Leave(t)).value.threads), Open(s.threads), multiset(th.open[..last]), x);
  }

  /** A step changes only its own thread, and only Enter and Leave touch scopes. */
  lemma StepIsLocal(s: State, a: Action)
    requires Step(s, a).Some?
    ensures var s' := Step(s, a).value;
      && a.t < |s.threads| == |s'.threads|
      && s'.threads == s.threads[a.t := s'.threads[a.t]]
      && (!a.Enter? && !a.Leave? ==>
            && s'.threads[a.t].open == s.threads[a.t].open
            && s'.nextScope == s.nextScope && s'.ended == s.ended && s'.runningOps == s.runningOps)
  {}

  lemma OthersKeepScopes(s: State, a: Action)
    requires Step(s, a).Some? && !a.Enter? && !a.Leave?
    ensures Open(Step(s, a).value.threads) == Open(s.threads)
  {
    StepIsLocal(s, a);
    OpenPut(s.threads, a.t, Step(s, a).value.threads[a.t]);
    Cancel(Open(Step(s, a).value.threads), Open(s.threads), multiset(s.threads[a.t].open));
  }

  lemma LedgerOpen(open: multiset<nat>, next: nat, ended: set<nat>)
    requires Ledger(open, next, ended)
    ensures Ledger(open + multiset{next}, next + 1, ended)
  {}

  lemma LedgerEnd(open: multiset<nat>, next: nat, ended: set<nat>, x: nat)
    requires Ledger(open, next, ended) && x in open
    ensures Ledger(open - multiset{x}, next, ended + {x})
  {
    assert open[x] == 1;
  }

  lemma StepKeepsAccount(s: State, a: Action)
    requires s.runningOps == |Open(s.threads)| && Accounted(s) && Step(s, a).Some?
    ensures var s' := Step(s, a).value; s'.runningOps == |Open(s'.threads)| && Accounted(s')
  {
    var open, s' := Open(s.threads), Step(s, a).value;
    if a.Enter? {
      EnterOpens(s, a.t);
      LedgerOpen(open, s.nextScope, s.ended);
    } else if a.Leave? {
      LeaveCloses(s, a.t);
      LedgerEnd(open, s.nextScope, s.ended, s.threads[a.t].open[|s.threads[a.t].open| - 1]);
    } else {
      StepIsLocal(s, a);
      OthersKeepScopes(s, a);
    }
  }

  /** Removing a hook takes it out and leaves the others, in order. */
  lemma {:induction false} HookRemoved(a: seq<nat>, hook: nat, b: seq<nat>)
    requires hook !in a && hook !in b
    ensures Without(a + [hook] + b, hook) == a + b
  {
    if a == [] {
      assert (a + [hook] + b)[1..] == b;
      NothingToRemove(b, hook);
    } else {
      HookRemoved(a[1..], hook, b);
      assert (a + [hook] + b)[1..] == a[1..] + [hook] + b;
      assert a + b == [a[0]] + (a[1..] + b);
    }
  }

  lemma {:induction false} NothingToRemove(b: seq<nat>, hook: nat)
    requires hook !in b
    ensures Without(b, hook) == b
  {
    if b != [] {
      NothingToRemove(b[1..], hook);
    }
  }

  lemma OwnLockStep(s: State, a: Action)
    requires Step(s, a).Some? && (HoldsLock(s.threads[a.t].pc) <==> s.lock == Some(a.t))
    ensures var s' := Step(s, a).value; (HoldsLock(s'.threads[a.t].pc) <==> s'.lock == Some(a.t)) && Handed(s, s', a.t)
  {}

  /** The lock stays where it is, or t takes or gives it. */
  predicate Handed(s: State, s': State, t: nat) {
    s'.lock == s.lock || (s.lock.None? && s'.lock == Some(t)) || (s.lock == Some(t) && s'.lock.None?)
  }

  lemma LockFollows(s: State, s': State, t: nat)
    requires LockHeld(s) && Handed(s, s', t)
    requires t < |s.threads| == |s'.threads| && s'.threads == s.threads[t := s'.threads[t]]
    requires HoldsLock(s'.threads[t].pc) <==> s'.lock == Some(t)
    ensures LockHeld(s')
  {}

  lemma StepKeepsLock(s: State, a: Action)
    requires LockHeld(s) && Step(s, a).Some?
    ensures LockHeld(Step(s, a).value)
  {
    StepIsLocal(s, a);
    OwnLockStep(s, a);
    LockFollows(s, Step(s, a).value, a.t);
  }

  lemma OpenAreIssued(s: State)
    requires Accounted(s)
    ensures Issued(s, Open(s.threads))
  {
    forall x | x in Open(s.threads) ensures x < s.nextScope && Open(s.threads)[x] == 1 {
      assert Open(s.threads)[x] > 0;
    }
  }

  lemma AllEnded(s: State, m: multiset<nat>)
    requires Accounted(s) && |Open(s.threads)| == 0 && Issued(s, m)
    ensures forall x | x in m :: x in s.ended
  {
    assert Open(s.threads) == multiset{};
    forall x | x in m ensures x in s.ended {
      assert Open(s.threads)[x] == 0;
    }
  }

  lemma NoneOpen(ts: seq<Thread>, t: nat)
    requires t < |ts| && |Open(ts)| == 0
    ensures ts[t].open == []
  {
    OpenHas(ts, t);
    assert Open(ts) == multiset{};
    assert |multiset(ts[t].open)| == |ts[t].open|;
  }

  /** What one cancel call knows survives the steps of all other threads. */
  lemma OthersKeepHonest(s: State, a: Action, t: nat)
    requires Inv(s) && Step(s, a).Some? && t < |s.threads| && t != a.t
    ensures var s' := Step(s, a).value; Honest(s', s'.threads[t])
  {
    var s' := Step(s, a).value;
    assert s'.threads[t] == s.threads[t];
    assert Honest(s, s.threads[t]);
    assert s.nextScope <= s'.nextScope && s.ended <= s'.ended;
    if s.threads[t].pc.Raised? {
      assert HoldsLock(s.threads[t].pc);
      assert s'.hooks == s.hooks;
    }
  }

  lemma CountIsHonest(s: State, t: nat)
    requires Inv(s) && Step(s, Count(t)).Some?
    ensures var s' := Step(s, Count(t)).value; Honest(s', s'.threads[t])
  {
    OpenAreIssued(s);
  }

  lemma RaiseIsHonest(s: State, t: nat)
    requires Inv(s) && Step(s, Raise(t)).Some?
    ensures var s' := Step(s, Raise(t)).value; Honest(s', s'.threads[t])
  {
    OpenAreIssued(s);
    assert Honest(s, s.threads[t]);
  }

  lemma PollIsHonest(s: State, t: nat)
    requires Inv(s) && Step(s, Poll(t)).Some?
    ensures var s' := Step(s, Poll(t)).value; Honest(s', s'.threads[t])
  {
    var th := s.threads[t];
    assert Honest(s, th);
    if s.runningOps <= 0 {
      AllEnded(s, th.counted);
      AllEnded(s, th.live);
      NoneOpen(s.threads, t);
    }
  }

  lemma OwnStepKeepsHonest(s: State, a: Action)
    requires Inv(s) && Step(s, a).Some?
    ensures var s' := Step(s, a).value; Honest(s', s'.threads[a.t])
  {
    if a.Count? {
      CountIsHonest(s, a.t);
    } else if a.Raise? {
      RaiseIsHonest(s, a.t);
    } else if a.Poll? {
      PollIsHonest(s, a.t);
    } else {
      assert Honest(s, s.threads[a.t]);
    }
  }

  lemma StepKeepsInv(s: State, a: Action)
    requires Inv(s) && Step(s, a).Some?
    ensures Inv(Step(s, a).value)
  {
    StepKeepsAccount(s, a);
    StepKeepsLock(s, a);
    var s' := Step(s, a).value;
    forall t: nat | t < |s'.threads| ensures Honest(s', s'.threads[t]) {
      if t == a.t {
        OwnStepKeepsHonest(s, a);
      } else {
        OthersKeepHonest(s, a, t);
      }
    }
  }

  lemma {:induction false} ExecKeepsInv(s: State, run: seq<Action>)
    requires Inv(s) && Exec(s, run).Some?
    ensures Inv(Exec(s, run).value)
    decreases |run|
  {
    if run != [] {
      StepKeepsInv(s, run[0]);
      ExecKeepsInv(Step(s, run[0]).value, run[1..]);
    }
  }

  /** In every interleaving of any number of threads, running_ops is the number of
      open scopes. */
  lemma RunningOpsCountsOpenScopes(n: nat, run: seq<Action>)
    requires Exec(Init(n), run).Some?
    ensures var s := Exec(Init(n), run).value; s.runningOps == |Open(s.threads)| && s.runningOps >= 0
    ensures forall x: nat :: Open(Exec(Init(n), run).value.threads)[x] <= 1
  {
    InitHolds(n);
    ExecKeepsInv(Init(n), run);
    var s := Exec(Init(n), run).value;
    forall x: nat ensures Open(s.threads)[x] <= 1 {
      assert Accounted(s);
    }
  }

  lemma EndedIsClosed(s: State, m: multiset<nat>)
    requires Accounted(s) && forall x | x in m :: x in s.ended
    ensures forall x | x in m :: x !in Open(s.threads)
  {
    forall x | x in m ensures x !in Open(s.threads) {
      assert Open(s.threads)[x] == 0;
    }
  }

  lemma NoCountNoScope(s: State, t: nat)
    requires Inv(s) && Step(s, Poll(t)).Some? && Step(s, Poll(t)).value.threads[t].pc.Drained?
    ensures Open(s.threads) == multiset{}
  {
    assert s.runningOps <= 0;
  }

  /** When a cancel call leaves its wait no scope is open. */
  lemma LeavingTheWaitMeansNoScope(n: nat, run: seq<Action>, t: nat)
    requires Exec(Init(n), run).Some? && Step(Exec(Init(n), run).value, Poll(t)).Some?
    ensures Step(Exec(Init(n), run).value, Poll(t)).value.threads[t].pc.Drained? ==>
              Open(Exec(Init(n), run).value.threads) == multiset{}
  {
    InitHolds(n);
    ExecKeepsInv(Init(n), run);
    var s := Exec(Init(n), run).value;
    if Step(s, Poll(t)).value.threads[t].pc.Drained? {
      NoCountNoScope(s, t);
    }
  }

  /** The scopes in the return value are as many as it says, all distinct, and like all scopes that
      were open when the flag went up they have ended. */
  ghost predicate AllHaveEnded(s: State, th: Thread)
    requires th.pc.Drained?
  {
    && th.pc.n == |th.counted|
    && (forall x | x in th.counted :: th.counted[x] == 1 && x in s.ended && x !in Open(s.threads))
    && (forall x | x in th.live :: x in s.ended && x !in Open(s.threads))
  }

  lemma DrainedHasEnded(s: State, t: nat)
    requires Inv(s) && t < |s.threads| && s.threads[t].pc.Drained?
    ensures AllHaveEnded(s, s.threads[t])
  {
    assert Honest(s, s.threads[t]);
    EndedIsClosed(s, s.threads[t].counted);
    EndedIsClosed(s, s.threads[t].live);
  }

  /** When a cancel call returns, the scopes it counted and those it saw open have ended. */
  lemma CancelDrains(n: nat, run: seq<Action>, t: nat)
    requires Exec(Init(n), run).Some? && Step(Exec(Init(n), run).value, Clear(t)).Some?
    ensures var s := Exec(Init(n), run).value; AllHaveEnded(s, s.threads[t])
  {
    InitHolds(n);
    ExecKeepsInv(Init(n), run);
    DrainedHasEnded(Exec(Init(n), run).value, t);
  }

  /** When a cancel call gives up mux_cancel it has invoked each registered hook once, in
      order. */
  lemma CancelInvokesEveryHook(n: nat, run: seq<Action>, t: nat)
    requires Exec(Init(n), run).Some? && Step(Exec(Init(n), run).value, Release(t)).Some?
    ensures var s := Exec(Init(n), run).value; s.threads[t].called == s.hooks
  {
    InitHolds(n);
    ExecKeepsInv(Init(n), run);
    var s := Exec(Init(n), run).value;
    assert Honest(s, s.threads[t]);
  }

  /** No step adds or removes a hook while a cancel call is between its lock and its unlock. */
  lemma HooksFrozenUnderLock(n: nat, run: seq<Action>, t: nat, a: Action)
    requires Exec(Init(n), run).Some? && t < |Exec(Init(n), run).value.threads|
    requires HoldsLock(Exec(Init(n), run).value.threads[t].pc) && Step(Exec(Init(n), run).value, a).Some?
    ensures Step(Exec(Init(n), run).value, a).value.hooks == Exec(Init(n), run).value.hooks
  {
    InitHolds(n);
    ExecKeepsInv(Init(n), run);
  }

  // ---- Draining -------------------------------------------------------------

  /** Threads between test and increment weigh two, open scopes one. */
  function Weight(s: State): int { 2 * Admissions(s.threads) + s.runningOps }

  function Moves(run: seq<Action>): nat {
    if run == [] then 0 else (if run[0].Enter? || run[0].Leave? then 1 else 0) + Moves(run[1..])
  }

  /** Each enter or leave takes one from the weight; only a flag test that sees the flag down
      adds to it, and nothing else changes it. */
  lemma WeightStep(s: State, a: Action)
    requires Step(s, a).Some?
    ensures Weight(Step(s, a).value) ==
            Weight(s) - (if a.Enter? || a.Leave? then 1 else 0) + (if a.TestFlag? && !s.flag then 2 else 0)
    ensures s.flag && !a.Clear? ==> Step(s, a).value.flag
  {
    var s' := Step(s, a).value;
    assert s'.threads == s.threads[a.t := s'.threads[a.t]];
    AdmissionsPut(s.threads, a.t, s'.threads[a.t]);
  }

  /** While the flag stays up, with any number of cancellers: in every run the weight drops by
      exactly one on each enter or leave and never changes otherwise; hence at most Weight(s)
      such steps happen, and after that many the next poll of every waiting canceller ends its
      wait. */
  lemma {:induction false} WaitDrains(s: State, run: seq<Action>)
    requires Inv(s) && s.flag && Exec(s, run).Some? && forall a | a in run :: !a.Clear?
    ensures var s' := Exec(s, run).value;
      && s'.flag
      && Weight(s) == Weight(s') + Moves(run)
      && Moves(run) <= Weight(s)
      && (Moves(run) == Weight(s) ==>
            forall t: nat | t < |s'.threads| && s'.threads[t].pc.Waiting? ::
              Step(s', Poll(t)).Some? && Step(s', Poll(t)).value.threads[t].pc.Drained?)
    decreases |run|
  {
    if run != [] {
      WeightStep(s, run[0]);
      StepKeepsInv(s, run[0]);
      WaitDrains(Step(s, run[0]).value, run[1..]);
    }
  }

  /** t is the only thread inside gfal2_cancel and the flag is up. */
  ghost predicate SoleCanceller(s: State, t: nat) {
    && t < |s.threads| && s.flag
    && (s.threads[t].pc.Raised? || s.threads[t].pc.Waiting? || s.threads[t].pc.Drained?)
    && (forall u: nat | u < |s.threads| && u != t :: s.threads[u].pc.Ready? || s.threads[u].pc.Admitted?)
  }

  lemma SoleCancellerStep(s: State, t: nat, a: Action)
    requires SoleCanceller(s, t) && Step(s, a).Some? && a != Clear(t)
    ensures SoleCanceller(Step(s, a).value, t) && !a.Clear?
  {}

  /** A sole canceller keeps the flag up until its own clear: up to there no other thread clears
      it, none becomes a canceller, and its wait drains. */
  lemma {:induction false} SoleCancellerDrains(s: State, t: nat, run: seq<Action>)
    requires Inv(s) && SoleCanceller(s, t) && Exec(s, run).Some? && Clear(t) !in run
    ensures SoleCanceller(Exec(s, run).value, t) && Weight(s) == Weight(Exec(s, run).value) + Moves(run)
    ensures forall a | a in run :: !a.Clear?
    decreases |run|
  {
    if run != [] {
      SoleCancellerStep(s, t, run[0]);
      WeightStep(s, run[0]);
      StepKeepsInv(s, run[0]);
      SoleCancellerDrains(Step(s, run[0]).value, t, run[1..]);
    }
  }

  lemma {:induction false} SomeThreadHasScope(ts: seq<Thread>) returns (u: nat)
    requires Open(ts) != multiset{}
    ensures u < |ts| && ts[u].open != []
  {
    if ts[0].open != [] {
      u := 0;
    } else {
      var v := SomeThreadHasScope(ts[1..]);
      u := v + 1;
    }
  }

  /** While a sole canceller outside any scope waits, some thread can enter or leave: together with
      SoleCancellerDrains, every schedule that lets those threads run ends the wait. */
  lemma WaitIsNeverStuck(s: State, t: nat)
    requires Inv(s) && SoleCanceller(s, t) && s.threads[t].open == [] && s.runningOps > 0
    ensures exists u: nat :: u != t && (Step(s, Leave(u)).Some? || Step(s, Enter(u)).Some?)
  {
    var u := SomeThreadHasScope(s.threads);
    assert u != t && (s.threads[u].pc.Ready? || s.threads[u].pc.Admitted?);
    assert Step(s, Leave(u)).Some? || Step(s, Enter(u)).Some?;
  }

  lemma OpenScopeIsCounted(s: State, t: nat)
    requires Inv(s) && t < |s.threads| && s.threads[t].open != []
    ensures s.runningOps > 0
  {
    OpenHas(s.threads, t);
    assert s.threads[t].open[0] in multiset(s.threads[t].open);
  }

  // ---- When a wait can end, and when the flag protects it --------------------

  predicate Inside(pc: Pc) { !pc.Ready? && !pc.Admitted? }

  /** Inside gfal2_cancel, not past its wait, with a scope of its own still open. */
  predicate Entangled(th: Thread) { Inside(th.pc) && !th.pc.Drained? && th.open != [] }

  ghost predicate Deadlocked(s: State) { exists w: nat :: w < |s.threads| && Entangled(s.threads[w]) }

  /** Waiting cancellers have not moved, and nobody new is past a wait. */
  ghost predicate Stalled(s: State, s': State) {
    |s'.threads| == |s.threads| &&
    forall t: nat | t < |s.threads| ::
      && (s.threads[t].pc.Waiting? ==> s'.threads[t] == s.threads[t])
      && (s'.threads[t].pc.Drained? ==> s.threads[t].pc.Drained?)
  }

  ghost predicate NoneDrained(s: State) { forall t: nat | t < |s.threads| :: !s.threads[t].pc.Drained? }

  lemma StalledTransitive(s: State, s': State, s'': State)
    requires Stalled(s, s') && Stalled(s', s'')
    ensures Stalled(s, s'') && (NoneDrained(s) ==> NoneDrained(s'))
  {}

  /** While scopes are open a waiting canceller does not move, and nobody gets past a wait. */
  lemma BusyStep(s: State, a: Action)
    requires s.runningOps > 0 && Step(s, a).Some?
    ensures var th, th' := s.threads[a.t], Step(s, a).value.threads[a.t];
      && (th.pc.Waiting? ==> th' == th) && (th'.pc.Drained? ==> th.pc.Drained?)
      && (Inside(th.pc) && !th.pc.Drained? ==> Inside(th'.pc) && !th'.pc.Drained?)
    ensures s.flag && !s.threads[a.t].pc.Drained? ==> Step(s, a).value.flag
  {}

  lemma EntangledStep(s: State, w: nat, a: Action)
    requires Inv(s) && w < |s.threads| && Entangled(s.threads[w]) && Step(s, a).Some?
    ensures var s' := Step(s, a).value;
      Stalled(s, s') && Entangled(s'.threads[w]) && (s.flag && NoneDrained(s) ==> s'.flag)
  {
    OpenScopeIsCounted(s, w);
    StepIsLocal(s, a);
    BusyStep(s, a);
    assert a.t == w ==> !a.Enter? && !a.Leave?;
    LocalStall(s, Step(s, a).value, a.t);
  }

  lemma LocalStall(s: State, s': State, u: nat)
    requires u < |s.threads| == |s'.threads| && s'.threads == s.threads[u := s'.threads[u]]
    requires s.threads[u].pc.Waiting? ==> s'.threads[u] == s.threads[u]
    requires s'.threads[u].pc.Drained? ==> s.threads[u].pc.Drained?
    ensures Stalled(s, s')
  {}

  /** While some thread is entangled every waiting canceller waits, and if none had drained before,
      nobody clears the flag. */
  lemma {:induction false} DeadlockLasts(s: State, w: nat, run: seq<Action>)
    requires Inv(s) && w < |s.threads| && Entangled(s.threads[w]) && Exec(s, run).Some?
    ensures var s' := Exec(s, run).value;
      Stalled(s, s') && Entangled(s'.threads[w]) && (s.flag && NoneDrained(s) ==> s'.flag)
    decreases |run|
  {
    if run != [] {
      var s1 := Step(s, run[0]).value;
      EntangledStep(s, w, run[0]);
      StepKeepsInv(s, run[0]);
      DeadlockLasts(s1, w, run[1..]);
      StalledTransitive(s, s1, Exec(s1, run[1..]).value);
    }
  }

  /** A thread that calls gfal2_cancel inside one of its own scopes waits forever. */
  lemma CancelInsideOwnScopeNeverReturns(s: State, t: nat, run: seq<Action>)
    requires Inv(s) && t < |s.threads| && s.threads[t].pc.Waiting? && s.threads[t].open != []
    requires Exec(s, run).Some?
    ensures var s' := Exec(s, run).value; t < |s'.threads| && s'.threads[t] == s.threads[t]
  {
    DeadlockLasts(s, t, run);
  }

  /** How far a cancel call is from its return. */
  function Stage(pc: Pc): nat {
    match pc
    case Cancelling => 6
    case Locked => 5
    case Counted(_) => 4
    case Raised(_, _) => 3
    case Waiting(_) => 2
    case Drained(_) => 1
    case _ => 0
  }

  /** What the next step of the call still has before it within its stage. */
  function Left(s: State, pc: Pc): int {
    if pc.Raised? then |s.hooks| - pc.next else if pc.Waiting? then Weight(s) else 0
  }

  /** The cancel call of u can go on: it has the lock, can take it, or no longer needs it. */
  ghost predicate CanProceed(s: State, u: nat) {
    u < |s.threads| && Inside(s.threads[u].pc) && (s.threads[u].pc.Cancelling? ==> s.lock.None?)
  }

  /** The next step towards the return of u: its own, or an enter or leave of a thread outside. */
  lemma Approach(s: State, u: nat) returns (a: Action)
    requires Inv(s) && CanProceed(s, u) && !Deadlocked(s) && !s.threads[u].pc.Drained?
    ensures Step(s, a).Some? && !a.Clear? && (a.t == u || a.Enter? || a.Leave?)
    ensures a.t < |s.threads| && (a.t != u ==> !Inside(s.threads[a.t].pc))
    ensures var s' := Step(s, a).value; CanProceed(s', u)
    ensures var s' := Step(s, a).value;
      var pc, pc' := s.threads[u].pc, s'.threads[u].pc;
      Stage(pc') < Stage(pc) || (Stage(pc') == Stage(pc) && 0 <= Left(s', pc') < Left(s, pc))
  {
    var pc := s.threads[u].pc;
    assert Honest(s, s.threads[u]);
    match pc
    case Cancelling => a := Acquire(u);
    case Locked => a := Count(u);
    case Counted(_) => a := Raise(u);
    case Raised(_, next) => a := if next < |s.hooks| then InvokeHook(u) else Release(u);
    case Waiting(_) =>
      if s.runningOps > 0 {
        a := EnterOrLeave(s);
      } else {
        a := Poll(u);
      }
  }

  /** While scopes are open and nobody is entangled, a thread outside gfal2_cancel can enter or
      leave. */
  lemma EnterOrLeave(s: State) returns (a: Action)
    requires Inv(s) && !Deadlocked(s) && s.runningOps > 0
    ensures Step(s, a).Some? && (a.Enter? || a.Leave?) && a.t < |s.threads| && !Inside(s.threads[a.t].pc)
    ensures 0 <= Weight(Step(s, a).value) < Weight(s)
  {
    var v := SomeThreadHasScope(s.threads);
    assert Honest(s, s.threads[v]);
    assert !Entangled(s.threads[v]);
    a := if s.threads[v].pc.Ready? then Leave(v) else Enter(v);
    WeightStep(s, a);
    StepKeepsInv(s, a);
  }

  /** Neither the steps of an unentangled cancel call nor those of threads outside entangle any
      thread. */
  lemma StaysFree(s: State, u: nat, a: Action)
    requires !Deadlocked(s) && u < |s.threads| && Inside(s.threads[u].pc) && !s.threads[u].pc.Drained?
    requires Step(s, a).Some? && (a.t == u || ((a.Enter? || a.Leave?) && !Inside(s.threads[a.t].pc)))
    ensures !Deadlocked(Step(s, a).value)
  {
    var s' := Step(s, a).value;
    StepIsLocal(s, a);
    assert !Entangled(s.threads[u]);
    forall w: nat | w < |s'.threads| ensures !Entangled(s'.threads[w]) {
      assert !Entangled(s.threads[w]);
    }
  }

  predicate HasReturned(s: State, t: nat) { t < |s.threads| && s.threads[t].pc.Ready? }

  /** From every state without an entangled thread, a run of u's own steps and of threads outside
      gfal2_cancel leads to the return of u. */
  lemma {:induction false} ReturnRun(s: State, u: nat) returns (run: seq<Action>)
    requires Inv(s) && CanProceed(s, u) && !Deadlocked(s)
    ensures Exec(s, run).Some? && forall a | a in run :: a.Clear? ==> a.t == u
    ensures HasReturned(Exec(s, run).value, u) && !Exec(s, run).value.flag
    decreases Stage(s.threads[u].pc), Left(s, s.threads[u].pc)
  {
    if s.threads[u].pc.Drained? {
      run := [Clear(u)];
      assert run[1..] == [];
    } else {
      var a := Approach(s, u);
      StepKeepsInv(s, a);
      StaysFree(s, u, a);
      var rest := ReturnRun(Step(s, a).value, u);
      run := [a] + rest;
      assert run[1..] == rest;
    }
  }

  /** A waiting cancel call can return, by some continuation, exactly when no thread inside
      gfal2_cancel holds a scope of its own. */
  lemma WaitCanEndExactly(s: State, t: nat)
    requires Inv(s) && t < |s.threads| && s.threads[t].pc.Waiting?
    ensures (exists run :: Exec(s, run).Some? && HasReturned(Exec(s, run).value, t)) <==> !Deadlocked(s)
  {
    if Deadlocked(s) {
      var w: nat :| w < |s.threads| && Entangled(s.threads[w]);
      forall run | Exec(s, run).Some?
        ensures t < |Exec(s, run).value.threads| && Exec(s, run).value.threads[t] == s.threads[t]
      {
        DeadlockLasts(s, w, run);
      }
    } else {
      var run := ReturnRun(s, t);
      assert Exec(s, run).Some?;
    }
  }

  /** No other thread can take the flag down: t is the only canceller, or an entangled thread keeps
      all of them waiting and none is past its wait. */
  ghost predicate Protected(s: State, t: nat) {
    SoleCanceller(s, t) || (Deadlocked(s) && NoneDrained(s))
  }

  /** Some thread other than t can take the flag down. */
  lemma UnprotectedRun(s: State, t: nat) returns (run: seq<Action>)
    requires Inv(s) && s.flag && t < |s.threads| && s.threads[t].pc.Waiting? && !Protected(s, t)
    ensures Exec(s, run).Some? && Clear(t) !in run && !Exec(s, run).value.flag
  {
    if u: nat :| u < |s.threads| && s.threads[u].pc.Drained? {
      run := [Clear(u)];
      assert run[1..] == [];
    } else {
      var u: nat :| u < |s.threads| && u != t && Inside(s.threads[u].pc);
      if s.lock.Some? {
        assert HoldsLock(s.threads[s.lock.value].pc);
        u := s.lock.value;
      }
      run := ReturnRun(s, u);
    }
  }

  /** The flag protects a wait, so that no continuation without the call's own clear takes it down,
      exactly under that condition. */
  lemma FlagProtectedExactly(s: State, t: nat)
    requires Inv(s) && s.flag && t < |s.threads| && s.threads[t].pc.Waiting?
    ensures (forall run | Exec(s, run).Some? && Clear(t) !in run :: Exec(s, run).value.flag) <==> Protected(s, t)
  {
    if Protected(s, t) {
      forall run | Exec(s, run).Some? && Clear(t) !in run ensures Exec(s, run).value.flag {
        if SoleCanceller(s, t) {
          SoleCancellerDrains(s, t, run);
        } else {
          var w: nat :| w < |s.threads| && Entangled(s.threads[w]);
          DeadlockLasts(s, w, run);
        }
      }
    } else {
      var run := UnprotectedRun(s, t);
      assert Exec(s, run).Some?;
    }
  }

  lemma {:induction false} ExecSnoc(z: State, run: seq<Action>, a: Action)
    requires Exec(z, run).Some?
    ensures Exec(z, run + [a]) == Step(Exec(z, run).value, a)
    decreases |run|
  {
    if run == [] {
      assert run + [a] == [a];
    } else {
      ExecSnoc(Step(z, run[0]).value, run[1..], a);
      assert (run + [a])[1..] == run[1..] + [a];
    }
  }

  /** Threads at the given program points, with no scope and no hook. */
  function Scene(pcs: seq<Pc>, flag: bool, lock: Option<nat>): State {
    var threads := seq(|pcs|, i requires 0 <= i < |pcs| => Thread(pcs[i], [], multiset{}, multiset{}, []));
    State(threads, 0, flag, lock, [], 0, {})
  }

  lemma {:induction false} SceneClosed(pcs: seq<Pc>, flag: bool, lock: Option<nat>)
    ensures Open(Scene(pcs, flag, lock).threads) == multiset{}
    decreases |pcs|
  {
    if pcs != [] {
      SceneClosed(pcs[1..], flag, lock);
      assert Scene(pcs, flag, lock).threads[1..] == Scene(pcs[1..], flag, lock).threads;
    }
  }

  /** Extends a run that ends in a scene by one step to another scene. */
  lemma SceneStep(z: State, run: seq<Action>, pcs: seq<Pc>, flag: bool, lock: Option<nat>,
                  a: Action, pc': Pc, flag': bool, lock': Option<nat>)
    requires Exec(z, run) == Some(Scene(pcs, flag, lock)) && a.t < |pcs|
    requires Step(Scene(pcs, flag, lock), a).Some?
    requires var s' := Step(Scene(pcs, flag, lock), a).value;
      && s'.flag == flag' && s'.lock == lock' && s'.hooks == [] && s'.ended == {} && s'.nextScope == 0
      && s'.runningOps == 0 && s'.threads[a.t] == Thread(pc', [], multiset{}, multiset{}, [])
    ensures Exec(z, run + [a]) == Some(Scene(pcs[a.t := pc'], flag', lock'))
  {
    ExecSnoc(z, run, a);
    StepIsLocal(Scene(pcs, flag, lock), a);
    assert Step(Scene(pcs, flag, lock), a).value.threads == Scene(pcs[a.t := pc'], flag', lock').threads;
  }

  /** A cancel call, past its test, runs up to its wait. */
  lemma SceneCancels(z: State, run: seq<Action>, pcs: seq<Pc>, flag: bool, t: nat)
    requires t < |pcs| && pcs[t] == Cancelling && Exec(z, run) == Some(Scene(pcs, flag, None))
    ensures Exec(z, run + [Acquire(t)] + [Count(t)] + [Raise(t)] + [Release(t)]) ==
            Some(Scene(pcs[t := Waiting(0)], true, None))
  {
    SceneStep(z, run, pcs, flag, None, Acquire(t), Locked, flag, Some(t));
    var p1, r1 := pcs[t := Locked], run + [Acquire(t)];
    SceneClosed(p1, flag, Some(t));
    SceneStep(z, r1, p1, flag, Some(t), Count(t), Counted(0), flag, Some(t));
    var p2, r2 := p1[t := Counted(0)], r1 + [Count(t)];
    SceneClosed(p2, flag, Some(t));
    SceneStep(z, r2, p2, flag, Some(t), Raise(t), Raised(0, 0), true, Some(t));
    var p3, r3 := p2[t := Raised(0, 0)], r2 + [Raise(t)];
    SceneStep(z, r3, p3, true, Some(t), Release(t), Waiting(0), true, None);
    assert p3[t := Waiting(0)] == pcs[t := Waiting(0)];
  }

  lemma BothPassTheTest() returns (run: seq<Action>)
    ensures Exec(Init(3), run) == Some(Scene([Drained(0), Cancelling, Ready], true, None))
  {
    var z := Init(3);
    var p0 := [Ready, Ready, Ready];
    assert z.threads == Scene(p0, false, None).threads;
    SceneStep(z, [], p0, false, None, TestCancel(0), Cancelling, false, None);
    var p1, r1 := p0[0 := Cancelling], [] + [TestCancel(0)];
    SceneStep(z, r1, p1, false, None, TestCancel(1), Cancelling, false, None);
    var p2, r2 := p1[1 := Cancelling], r1 + [TestCancel(1)];
    SceneCancels(z, r2, p2, false, 0);
    var p3, r3 := p2[0 := Waiting(0)], r2 + [Acquire(0)] + [Count(0)] + [Raise(0)] + [Release(0)];
    SceneStep(z, r3, p3, true, None, Poll(0), Drained(0), true, None);
    assert p3[0 := Drained(0)] == [Drained(0), Cancelling, Ready];
    run := r3 + [Poll(0)];
  }

  /** With two cancellers the flag does not protect the second one's wait: both pass the
      unlocked test, the first clears the flag while the second still waits, and a third
      thread is admitted. FlagProtectedExactly says when this cannot happen. */
  lemma SecondCancellerUnprotected()
    ensures exists run ::
      && Exec(Init(3), run) == Some(Scene([Ready, Waiting(0), Admitted], false, None))
  {
    var z := Init(3);
    var r4 := BothPassTheTest();
    var p4 := [Drained(0), Cancelling, Ready];
    SceneCancels(z, r4, p4, true, 1);
    var p5, r5 := p4[1 := Waiting(0)], r4 + [Acquire(1)] + [Count(1)] + [Raise(1)] + [Release(1)];
    SceneStep(z, r5, p5, true, None, Clear(0), Ready, false, None);
    var p6, r6 := p5[0 := Ready], r5 + [Clear(0)];
    SceneStep(z, r6, p6, false, None, TestFlag(2), Admitted, false, None);
    assert p6[2 := Admitted] == [Ready, Waiting(0), Admitted];
  }
}
