/** Reference counting of a GPContext shared by threads: increments, and decrements that tell the count left,
    are single atomic steps; freeing the context is a later step of the thread that saw zero. */
module ContextLifetime {

  /** References a thread holds, and whether its last decrement returned zero. */
  datatype Thread = Thread(held: nat, sawZero: bool)

  datatype State = State(refCount: int, frees: nat, threads: seq<Thread>)

  datatype Action =
    | Ref(t: nat)
    | Hand(t: nat, to: nat)
    | Decrement(t: nat)
    | Free(t: nat)

  /** gp_context_new, called by thread `t`. */
  function New(n: nat, t: nat): State
    requires t < n
  {
    State(1, 0, seq(n, i => if i == t then Thread(1, false) else Thread(0, false)))
  }

  /** A thread uses the context only while it holds a reference; unref goes on to free only after it saw zero. */
  predicate Enabled(s: State, a: Action) {
    match a
    case Ref(t) => t < |s.threads| && s.threads[t].held > 0 && !s.threads[t].sawZero
    case Hand(t, to) => t < |s.threads| && to < |s.threads| && t != to && s.threads[t].held > 0 && !s.threads[t].sawZero
    case Decrement(t) => t < |s.threads| && s.threads[t].held > 0 && !s.threads[t].sawZero
    case Free(t) => t < |s.threads| && s.threads[t].sawZero
  }

  function Next(s: State, a: Action): State
    requires Enabled(s, a)
  {
    match a
    case Ref(t) =>
      s.(refCount := s.refCount + 1, threads := s.threads[t := s.threads[t].(held := s.threads[t].held + 1)])
    case Hand(t, to) =>
      var threads := s.threads[t := s.threads[t].(held := s.threads[t].held - 1)];
      s.(threads := threads[to := threads[to].(held := threads[to].held + 1)])
    case Decrement(t) =>
      var remaining := s.refCount - 1;
      s.(refCount := remaining, threads := s.threads[t := Thread(s.threads[t].held - 1, remaining == 0)])
    case Free(t) =>
      s.(frees := s.frees + 1, threads := s.threads[t := s.threads[t].(sawZero := false)])
  }

  function Held(threads: seq<Thread>): nat {
    if threads == [] then 0 else Held(threads[..|threads| - 1]) + threads[|threads| - 1].held
  }

  function SawZero(threads: seq<Thread>): nat {
    if threads == [] then 0 else SawZero(threads[..|threads| - 1]) + if threads[|threads| - 1].sawZero then 1 else 0
  }

  /** The count is the number of references held; once it is zero, the context was freed or exactly one thread is about to. */
  predicate Consistent(s: State) {
    && s.refCount == Held(s.threads)
    && s.frees + SawZero(s.threads) == if s.refCount == 0 then 1 else 0
  }

  lemma {:induction false} HeldUpdate(threads: seq<Thread>, t: nat, th: Thread)
    requires t < |threads|
    ensures Held(threads[t := th]) == Held(threads) - threads[t].held + th.held
    ensures SawZero(threads[t := th]) ==
            SawZero(threads) - (if threads[t].sawZero then 1 else 0) + if th.sawZero then 1 else 0
  {
    var n := |threads| - 1;
    var r := threads[t := th];
    if t == n {
      assert r[..n] == threads[..n];
    } else {
      HeldUpdate(threads[..n], t, th);
      assert r[..n] == threads[..n][t := th];
    }
  }

  lemma {:induction false} HeldAtLeast(threads: seq<Thread>, t: nat)
    requires t < |threads|
    ensures Held(threads) >= threads[t].held && (threads[t].sawZero ==> SawZero(threads) >= 1)
  {
    var n := |threads| - 1;
    if t < n {
      HeldAtLeast(threads[..n], t);
    }
  }

  lemma StepKeepsConsistent(s: State, a: Action)
    requires Consistent(s) && Enabled(s, a)
    ensures Consistent(Next(s, a))
  {
    hide Held, SawZero;
    HeldAtLeast(s.threads, a.t);
    match a
    case Ref(t) => HeldUpdate(s.threads, t, s.threads[t].(held := s.threads[t].held + 1));
    case Hand(t, to) =>
      var threads := s.threads[t := s.threads[t].(held := s.threads[t].held - 1)];
      HeldUpdate(s.threads, t, threads[t]);
      HeldUpdate(threads, to, threads[to].(held := threads[to].held + 1));
    case Decrement(t) => HeldUpdate(s.threads, t, Thread(s.threads[t].held - 1, s.refCount == 1));
    case Free(t) => HeldUpdate(s.threads, t, s.threads[t].(sawZero := false));
  }

  // ---- whole runs ----

  ghost predicate IsRun(s: State, actions: seq<Action>)
    decreases actions
  {
    actions == [] || (Enabled(s, actions[0]) && IsRun(Next(s, actions[0]), actions[1..]))
  }

  ghost function After(s: State, actions: seq<Action>): State
    requires IsRun(s, actions)
    decreases actions
  {
    if actions == [] then s else After(Next(s, actions[0]), actions[1..])
  }

  lemma {:induction false} RunKeepsConsistent(s: State, actions: seq<Action>)
    requires Consistent(s) && IsRun(s, actions)
    ensures Consistent(After(s, actions))
    decreases actions
  {
    hide Consistent, Enabled, Next;
    if actions != [] {
      StepKeepsConsistent(s, actions[0]);
      RunKeepsConsistent(Next(s, actions[0]), actions[1..]);
    }
  }

  lemma {:induction false} NewIsConsistent(n: nat, t: nat)
    requires t < n
    ensures Consistent(New(n, t))
  {
    var all := New(n, t).threads;
    var none := seq(n, i => Thread(0, false));
    NoneHeld(none);
    HeldUpdate(none, t, Thread(1, false));
    assert all == none[t := Thread(1, false)];
  }

  lemma {:induction false} NoneHeld(threads: seq<Thread>)
    requires forall i :: 0 <= i < |threads| ==> threads[i] == Thread(0, false)
    ensures Held(threads) == 0 && SawZero(threads) == 0
  {
    if threads != [] {
      NoneHeld(threads[..|threads| - 1]);
    }
  }

  /** Whatever the interleaving: the context is freed at most once, never while some thread holds a reference, and
      when every reference is dropped and no thread is still inside unref, it has been freed. */
  lemma FreedExactlyOnce(n: nat, t: nat, actions: seq<Action>)
    requires t < n && IsRun(New(n, t), actions)
    ensures var s := After(New(n, t), actions);
      && s.frees <= 1
      && (s.frees == 1 ==> forall i :: 0 <= i < |s.threads| ==> s.threads[i].held == 0 && !s.threads[i].sawZero)
      && ((forall i :: 0 <= i < |s.threads| ==> s.threads[i] == Thread(0, false)) ==> s.frees == 1)
  {
    hide IsRun, After, New;
    NewIsConsistent(n, t);
    RunKeepsConsistent(New(n, t), actions);
    var s := After(New(n, t), actions);
    forall i | 0 <= i < |s.threads| && s.frees == 1
      ensures s.threads[i].held == 0 && !s.threads[i].sawZero
    {
      HeldAtLeast(s.threads, i);
    }
    if forall i :: 0 <= i < |s.threads| ==> s.threads[i] == Thread(0, false) {
      NoneHeld(s.threads);
    }
  }

  /** A step that uses the context finds it alive: it is never freed before or while the step runs. */
  lemma UseFindsItAlive(n: nat, t: nat, actions: seq<Action>, a: Action)
    requires t < n && IsRun(New(n, t), actions) && Enabled(After(New(n, t), actions), a)
    ensures After(New(n, t), actions).frees == 0
    ensures !a.Free? ==> After(New(n, t), actions).refCount > 0
  {
    hide IsRun, After, New;
    NewIsConsistent(n, t);
    RunKeepsConsistent(New(n, t), actions);
    HeldAtLeast(After(New(n, t), actions).threads, a.t);
  }
}
