/** The busy mark, the deferred exit and the deferred release of a Camera. Callbacks that a driver runs inside an
    operation may call back into the library. */
module CameraLifetime {

  /** How far gp_camera_init comes before it calls the driver. */
  datatype Lookup = PortNotSet | NoLibrary | LibraryOpened

  /** What code that runs inside an operation may do. A nested gp_camera_init is an InitCall, followed by what its
      driver calls and, if the driver fails, by InitFails. */
  datatype Call =
    | NestedOperation
    | InitCall(found: Lookup)
    | InitFails
    | ExitCall
    | RefCall
    | UnrefCall
    | FuncsCall(start: bool, stop: bool)
    | StartCall(id: int)
    | StopCall(which: nat)

  /** What such calls change: the counts are of driver libraries opened, closed, and lost because another one
      took the place of the open one. */
  datatype State = State(refCount: nat, exitRequested: bool, loaded: bool, canStart: bool, canStop: bool,
                         timeouts: seq<nat>, stopped: seq<nat>, started: multiset<nat>,
                         loads: nat, closes: nat, lost: nat)
  {
    /** Every library opened is open, closed or lost. */
    predicate LibrariesAccounted() {
      loads == closes + lost + if loaded then 1 else 0
    }

    /** Every timeout started is pending or stopped. */
    predicate TimeoutsAccounted() {
      started == multiset(timeouts) + multiset(stopped)
    }

    predicate Consistent() {
      LibrariesAccounted() && TimeoutsAccounted()
    }
  }

  /** A call from inside an operation. */
  function Step(s: State, c: Call): State {
    match c
    case NestedOperation => s
    case InitCall(found) =>
      if found == PortNotSet then s.(exitRequested := false)
      else s.(exitRequested := false, loaded := found.LibraryOpened?,
         loads := s.loads + (if found.LibraryOpened? then 1 else 0), lost := s.lost + (if s.loaded then 1 else 0))
    case InitFails => s.(loaded := false, closes := s.closes + if s.loaded then 1 else 0)
    case ExitCall => s.(exitRequested := true)
    case RefCall => s.(refCount := s.refCount + 1)
    case UnrefCall => if s.refCount == 0 then s else s.(refCount := s.refCount - 1)
    case FuncsCall(start, stop) => s.(canStart := start, canStop := stop)
    case StartCall(id) =>
      if !s.canStart || id < 0 then s
      else s.(timeouts := s.timeouts + [id], started := s.started + multiset{id})
    case StopCall(id) =>
      if !s.canStop || id !in s.timeouts then s
      else s.(timeouts := Without(s.timeouts, id), stopped := s.stopped + [id])
  }

  function After(s: State, calls: seq<Call>): State {
    if calls == [] then s else Step(After(s, calls[..|calls| - 1]), calls[|calls| - 1])
  }

  /** The end of an operation exits the driver on request, and with the last reference. */
  predicate Exits(s: State) {
    s.exitRequested || (s.refCount == 0 && s.loaded)
  }

  /** Every pending timeout is stopped once, then the driver is closed, if one is loaded. */
  function Closed(s: State): State {
    s.(loaded := false, closes := s.closes + (if s.loaded then 1 else 0), timeouts := [], stopped := s.stopped + s.timeouts)
  }

  function Ended(s: State): State {
    if Exits(s) then Closed(s) else s
  }

  function Without(t: seq<nat>, id: nat): seq<nat> {
    if t == [] then [] else if t[0] == id then t[1..] else [t[0]] + Without(t[1..], id)
  }

  // ---- the loop of gp_camera_exit ----

  /** One round of the loop that stops pending timeouts. */
  function Round(t: seq<nat>, canStop: bool): seq<nat> {
    if t == [] || !canStop then t else Without(t, t[0])
  }

  function AfterRounds(t: seq<nat>, canStop: bool, n: nat): seq<nat> {
    if n == 0 then t else Round(AfterRounds(t, canStop, n - 1), canStop)
  }

  /** The loop comes to an end. */
  ghost predicate Ends(t: seq<nat>, canStop: bool) {
    exists n: nat :: AfterRounds(t, canStop, n) == []
  }

  lemma {:induction false} RoundsDrop(t: seq<nat>, canStop: bool, n: nat)
    requires n <= |t|
    ensures AfterRounds(t, canStop, n) == if canStop then t[n..] else t
  {
    if n > 0 {
      RoundsDrop(t, canStop, n - 1);
    }
  }

  lemma FirstGone(t: seq<nat>)
    requires t != []
    ensures Without(t, t[0]) == t[1..]
  {
  }

  lemma {:induction false} RoundsStand(t: seq<nat>, n: nat)
    ensures AfterRounds(t, false, n) == t
  {
    if n > 0 {
      RoundsStand(t, n - 1);
    }
  }

  /** gp_camera_exit ends exactly if no timeout is pending or the frontend has set a function that stops them. */
  lemma EndsIff(t: seq<nat>, canStop: bool)
    ensures Ends(t, canStop) <==> canStop || t == []
    ensures Ends(t, canStop) <==> AfterRounds(t, canStop, |t|) == []
  {
    RoundsDrop(t, canStop, |t|);
    forall n: nat | !canStop ensures AfterRounds(t, canStop, n) == t {
      RoundsStand(t, n);
    }
  }

  /** One pending timeout and no stop function: whatever the number of rounds, it is still pending. */
  lemma OnePendingForever(n: nat)
    ensures AfterRounds([7], false, n) == [7] && !Ends([7], false)
  {
    RoundsStand([7], n);
    EndsIff([7], false);
  }

  lemma {:induction false} WithoutAt(t: seq<nat>, id: nat, i: nat)
    requires i < |t| && t[i] == id && id !in t[..i]
    ensures Without(t, id) == t[..i] + t[i + 1..]
  {
    if i > 0 {
      assert t[..i][0] == t[0];
      assert t[..i][1..] == t[1..][..i - 1];
      WithoutAt(t[1..], id, i - 1);
    }
  }

  lemma {:induction false} WithoutMultiset(t: seq<nat>, id: nat)
    requires id in t
    ensures multiset(t) == multiset(Without(t, id)) + multiset{id}
  {
    assert t == [t[0]] + t[1..];
    if t[0] != id {
      WithoutMultiset(t[1..], id);
    }
  }

  // ---- what calls inside an operation can bring about ----

  lemma NestedIsRefused(s: State)
    ensures Step(s, NestedOperation) == s
  {
  }

  lemma ClosedKeeps(s: State)
    requires s.Consistent()
    ensures Closed(s).Consistent()
  {
  }

  lemma StepKeeps(s: State, c: Call)
    requires s.Consistent()
    ensures Step(s, c).Consistent()
  {
    hide State.LibrariesAccounted, State.TimeoutsAccounted, Step;
    StepKeepsLibraries(s, c);
    StepKeepsTimeouts(s, c);
  }

  lemma StepKeepsLibraries(s: State, c: Call)
    requires s.LibrariesAccounted()
    ensures Step(s, c).LibrariesAccounted()
  {
  }

  lemma StepKeepsTimeouts(s: State, c: Call)
    requires s.TimeoutsAccounted()
    ensures Step(s, c).TimeoutsAccounted()
  {
    hide Without;
    match c
    case StartCall(id) =>
      if id >= 0 {
        OneMorePending(s.timeouts, id);
      }
    case StopCall(which) =>
      if which in s.timeouts {
        OneMoreStopped(s.timeouts, s.stopped, which);
      }
    case _ =>
  }

  lemma OneMorePending(t: seq<nat>, id: nat)
    ensures multiset(t + [id]) == multiset(t) + multiset{id}
  {
  }

  lemma OneMoreStopped(t: seq<nat>, stopped: seq<nat>, id: nat)
    requires id in t
    ensures multiset(Without(t, id)) + multiset(stopped + [id]) == multiset(t) + multiset(stopped)
  {
    WithoutMultiset(t, id);
    OneMorePending(stopped, id);
  }

  /** No sequence of calls, and no end of an operation, loses a library or a timeout unaccounted for. */
  lemma {:induction false} AfterKeeps(s: State, calls: seq<Call>)
    requires s.Consistent()
    ensures After(s, calls).Consistent() && Ended(After(s, calls)).Consistent()
  {
    hide State.Consistent, Closed, Step;
    if calls != [] {
      AfterKeeps(s, calls[..|calls| - 1]);
      StepKeeps(After(s, calls[..|calls| - 1]), calls[|calls| - 1]);
    }
    ClosedKeeps(After(s, calls));
  }

  /** An exit request with no gp_camera_init behind it. */
  ghost predicate ExitSurvives(calls: seq<Call>) {
    exists i :: 0 <= i < |calls| && calls[i] == ExitCall && forall j :: i < j < |calls| ==> !calls[j].InitCall?
  }

  ghost predicate HasInit(calls: seq<Call>) {
    exists i :: 0 <= i < |calls| && calls[i].InitCall?
  }

  /** gp_camera_init withdraws an exit request: one is pending at the end exactly if it comes last. */
  lemma {:induction false} RequestedIff(s: State, calls: seq<Call>)
    ensures After(s, calls).exitRequested <==> ExitSurvives(calls) || (s.exitRequested && !HasInit(calls))
  {
    if calls != [] {
      var n := |calls| - 1;
      var before, last := calls[..n], calls[n];
      RequestedIff(s, before);
      assert HasInit(calls) <==> HasInit(before) || last.InitCall? by {
        assert forall i :: 0 <= i < n ==> calls[i] == before[i];
      }
      SurvivesOneMore(calls);
    }
  }

  lemma SurvivesOneMore(calls: seq<Call>)
    requires calls != []
    ensures var n := |calls| - 1;
      ExitSurvives(calls) <==> calls[n] == ExitCall || (ExitSurvives(calls[..n]) && !calls[n].InitCall?)
  {
    var n := |calls| - 1;
    var before := calls[..n];
    if ExitSurvives(before) && !calls[n].InitCall? {
      var i :| 0 <= i < n && before[i] == ExitCall && forall j :: i < j < n ==> !before[j].InitCall?;
      assert calls[i] == ExitCall && forall j :: i < j < |calls| ==> j == n || calls[j] == before[j];
    }
    if ExitSurvives(calls) && calls[n] != ExitCall {
      var i :| 0 <= i < |calls| && calls[i] == ExitCall && forall j :: i < j < |calls| ==> !calls[j].InitCall?;
      assert before[i] == ExitCall && forall j :: i < j < n ==> before[j] == calls[j];
    }
  }

  /** When the end of an operation exits the driver, for every sequence of nested calls. */
  lemma ExitsIff(s: State, calls: seq<Call>)
    requires !s.exitRequested
    ensures var e := After(s, calls); Exits(e) <==> ExitSurvives(calls) || (e.refCount == 0 && e.loaded)
  {
    RequestedIff(s, calls);
  }

  /** Exit and then initialise again from inside an operation: the exit is lost, and so is a library. */
  lemma InitWithdrawsExit(s: State)
    requires s.loaded && s.refCount > 0
    ensures var calls := [ExitCall, InitCall(LibraryOpened)];
      !Exits(After(s, calls)) && Exits(After(s, [ExitCall])) && After(s, calls).lost == s.lost + 1
  {
    var calls := [ExitCall, InitCall(LibraryOpened)];
    assert calls[..1] == [ExitCall] && [ExitCall][..0] == [];
    assert After(s, [ExitCall]) == Step(After(s, []), ExitCall);
  }

  lemma {:induction false} AfterBoth(s: State, a: seq<Call>, b: seq<Call>)
    ensures After(s, a + b) == After(After(s, a), b)
  {
    if b == [] {
      assert a + b == a;
    } else {
      var n := |b| - 1;
      AfterBoth(s, a, b[..n]);
      assert (a + b)[..|a + b| - 1] == a + b[..n];
    }
  }

  lemma AfterOne(s: State, c: Call)
    ensures After(s, [c]) == Step(s, c)
  {
    assert [c][..0] == [];
  }

  /** Everything called in an operation, its own initialisation included. */
  function AllCalls(loaded: bool, found: Lookup, initCalls: seq<Call>, initOk: bool, calls: seq<Call>): seq<Call> {
    if loaded then calls
    else if !found.LibraryOpened? then [InitCall(found)]
    else if !initOk then [InitCall(found)] + initCalls + [InitFails]
    else [InitCall(found)] + initCalls + calls
  }

  // ---- the camera ----

  datatype Outcome = Busy | InitFailed | Done | Hangs

  /** Stuck: no operation is going on, but the camera is still marked as busy. */
  datatype Phase = Idle | InOperation | Stuck

  class Camera {
    var used: nat
    var exitRequested: bool
    var refCount: nat
    /** The driver library is loaded. */
    var loaded: bool
    var timeouts: seq<nat>
    /** The frontend has set functions that start and stop timeouts. */
    var canStart: bool
    var canStop: bool
    ghost var phase: Phase
    ghost var freed: bool
    ghost var frees: nat
    ghost var loads: nat
    ghost var closes: nat
    ghost var lost: nat
    ghost var started: multiset<nat>
    ghost var stopped: seq<nat>

    constructor ()
      ensures Valid() && phase == Idle && !freed
      ensures Current() == State(1, false, false, false, false, [], [], multiset{}, 0, 0, 0)
    {
      used, exitRequested, refCount, loaded, timeouts, canStart, canStop := 0, false, 1, false, [], false, false;
      phase, freed, frees, loads, closes, lost, started, stopped := Idle, false, 0, 0, 0, 0, multiset{}, [];
    }

    ghost function Current(): State
      reads this
    {
      State(refCount, exitRequested, loaded, canStart, canStop, timeouts, stopped, started, loads, closes, lost)
    }

    ghost predicate Valid()
      reads this
    {
      && (phase == Idle ==> used == 0) && (phase == InOperation ==> used == 1) && (phase == Stuck ==> 0 < used < 256)
      && (freed <==> refCount == 0 && used == 0)
      && frees == (if freed then 1 else 0)
      && (freed ==> !loaded)
      && (phase == Idle && loaded ==> !exitRequested)
    }

    /** CHECK_INIT: a call from inside an operation finds the camera busy and changes nothing. */
    method Begin() returns (busy: bool)
      requires Valid() && !freed
      modifies this`used, this`phase
      ensures Valid()
      ensures busy <==> old(used) > 0
      ensures busy ==> unchanged(this)
      ensures !busy ==> used == 1 && phase == InOperation
    {
      if used != 0 {
        return true;
      }
      busy := false;
      used, phase := used + 1, InOperation;
    }

    /** gp_camera_init up to the call of the driver, if the port is found: it does not ask whether the camera is
        busy or initialised already. */
    method Look(found: Lookup)
      requires Valid() && !freed
      modifies this`exitRequested, this`loaded, this`loads, this`lost
      ensures Valid() && Current() == Step(old(Current()), InitCall(found))
    {
      exitRequested := false;
      if found != PortNotSet {
        Replace(found == LibraryOpened);
      }
    }

    /** The library handle is overwritten. */
    method Replace(works: bool)
      modifies this`loaded, this`loads, this`lost
      ensures loaded == works && loads == old(loads) + (if works then 1 else 0)
      ensures lost == old(lost) + if old(loaded) then 1 else 0
    {
      lost := lost + if loaded then 1 else 0;
      loaded := works;
      loads := loads + if loaded then 1 else 0;
    }

    /** The driver's own initialisation fails. */
    method CloseDriver()
      requires Valid() && !freed
      modifies this`loaded, this`closes
      ensures Valid() && Current() == Step(old(Current()), InitFails)
    {
      closes := closes + if loaded then 1 else 0;
      loaded := false;
    }

    /** gp_camera_init where the port is not found: the macro that returns the error takes a busy mark away. */
    method LookInVain() returns (returned: bool)
      requires Valid() && !freed
      modifies this
      ensures returned && old(used) != 1 ==> Valid() && phase == Stuck && used == (if old(used) == 0 then 255 else old(used) - 1)
      ensures old(used) != 1 ==> returned && Current() == old(Current()).(exitRequested := false) && unchanged(this`freed)
      ensures old(used) == 1 ==>
        (returned <==> (Exits(old(Current()).(exitRequested := false)) ==> Ends(old(timeouts), old(canStop))))
      ensures old(used) == 1 && returned ==>
        Valid() && phase == Idle && used == 0 && Current() == Ended(old(Current()).(exitRequested := false))
    {
      hide Ends;
      exitRequested := false;
      returned := Unused();
    }

    /** The CAMERA_UNUSED macro. */
    method Unused() returns (returned: bool)
      requires Valid() && !freed
      modifies this
      ensures old(used) == 1 ==> (returned <==> (Exits(old(Current())) ==> Ends(old(timeouts), old(canStop))))
      ensures old(used) == 1 && returned ==>
        Valid() && used == 0 && phase == Idle && Current() == Ended(old(Current()))
      ensures old(used) != 1 ==>
        returned && Valid() && phase == Stuck && used == (if old(used) == 0 then 255 else old(used) - 1)
        && unchanged(this`freed) && Current() == old(Current())
    {
      hide Ends;
      used := (used + 255) % 256;
      phase := if used == 0 then Idle else Stuck;
      returned := true;
      if used == 0 {
        if exitRequested {
          returned := DoExit();
          if !returned {
            return;
          }
        }
        if refCount == 0 {
          returned := Free();
        }
      }
    }

    /** gp_camera_exit: deferred while the camera is in use. */
    method Exit() returns (returned: bool)
      requires Valid() && !freed
      modifies this
      ensures Valid() && unchanged(this`used, this`phase, this`freed)
      ensures used > 0 ==> returned && Current() == Step(old(Current()), ExitCall)
      ensures used == 0 ==> (returned <==> Ends(old(timeouts), old(canStop)))
      ensures used == 0 && returned ==> Current() == Closed(old(Current()))
    {
      hide Ends;
      if used != 0 {
        exitRequested := true;
        returned := true;
      } else {
        returned := DoExit();
      }
    }

    /** The exit itself. The loop that stops the pending timeouts is followed for as many rounds as there are timeouts; if it does not end within these, it never does. */
    method DoExit() returns (returned: bool)
      modifies this`loaded, this`timeouts, this`closes, this`stopped
      ensures returned <==> Ends(old(timeouts), old(canStop))
      ensures returned ==> Current() == Closed(old(Current()))
      ensures !returned ==> unchanged(this)
    {
      hide Ends, AfterRounds;
      var most := |timeouts|;
      EndsIff(timeouts, canStop);
      RoundsDrop(timeouts, canStop, most);
      StopRounds(most);
      returned := |timeouts| == 0;
      if returned {
        closes := closes + if loaded then 1 else 0;
        loaded := false;
      }
    }

    /** Some rounds of the loop: after each of them one timeout less is pending, or all of them still are. */
    method StopRounds(most: nat)
      requires most <= |timeouts|
      modifies this`timeouts, this`stopped
      ensures timeouts == AfterRounds(old(timeouts), canStop, most)
      ensures stopped == if canStop then old(stopped) + old(timeouts)[..most] else old(stopped)
    {
      hide Step, AfterRounds, Without;
      assert AfterRounds(timeouts, canStop, 0) == timeouts by { RoundsDrop(timeouts, canStop, 0); }
      var rounds := 0;
      while rounds < most && |timeouts| > 0
        invariant 0 <= rounds <= most && timeouts == AfterRounds(old(timeouts), canStop, rounds)
        invariant timeouts == if canStop then old(timeouts)[rounds..] else old(timeouts)
        invariant stopped == if canStop then old(stopped) + old(timeouts)[..rounds] else old(stopped)
      {
        RoundsDrop(old(timeouts), canStop, rounds + 1);
        FirstGone(timeouts);
        assert canStop ==> old(timeouts)[..rounds + 1] == old(timeouts)[..rounds] + [timeouts[0]];
        StopTimeout(timeouts[0]);
        rounds := rounds + 1;
      }
    }

    method Ref()
      requires Valid() && !freed
      modifies this`refCount
      ensures Valid() && Current() == Step(old(Current()), RefCall)
    {
      refCount := refCount + 1;
    }

    /** gp_camera_unref: the last reference frees the camera, but not in the middle of an operation. */
    method Unref() returns (ok: bool, returned: bool)
      requires Valid() && !freed
      modifies this
      ensures ok <==> old(refCount) > 0
      ensures !ok ==> unchanged(this)
      ensures returned ==> Valid() && unchanged(this`used, this`phase)
      ensures old(used) > 0 ==> returned && !freed && Current() == Step(old(Current()), UnrefCall)
      ensures old(used) == 0 && ok ==> (returned <==> (old(refCount) == 1 && old(loaded) ==> Ends(old(timeouts), old(canStop))))
      ensures old(used) == 0 && ok && returned ==>
        (freed <==> refCount == 0)
        && Current() == var s := Step(old(Current()), UnrefCall); if s.refCount == 0 && s.loaded then Closed(s) else s
    {
      hide Ends;
      returned := true;
      if refCount == 0 {
        return false, true;
      }
      ok := true;
      refCount := refCount - 1;
      if refCount == 0 && used == 0 {
        returned := Free();
      }
    }

    /** gp_camera_free: a loaded driver exits first; otherwise pending timeouts stay pending. */
    method Free() returns (returned: bool)
      modifies this`loaded, this`timeouts, this`closes, this`stopped, this`freed, this`frees
      ensures returned <==> (old(loaded) ==> Ends(old(timeouts), old(canStop)))
      ensures !returned ==> unchanged(this)
      ensures returned ==>
        freed && frees == old(frees) + 1 && Current() == if old(loaded) then Closed(old(Current())) else old(Current())
    {
      if loaded {
        returned := DoExit();
        if !returned {
          return;
        }
      }
      returned := true;
      freed, frees := true, frees + 1;
    }

    /** gp_camera_set_timeout_funcs: either function may be missing. */
    method SetTimeoutFuncs(start: bool, stop: bool)
      requires Valid()
      modifies this`canStart, this`canStop
      ensures Valid() && Current() == Step(old(Current()), FuncsCall(start, stop))
    {
      ghost var s := Current();
      canStart, canStop := start, stop;
      assert Current() == s.(canStart := start, canStop := stop);
    }

    /** gp_camera_start_timeout, with what the frontend's function returns: an id, or a negative error code. */
    method StartTimeout(id: int)
      requires Valid()
      modifies this`timeouts, this`started
      ensures Valid() && Current() == Step(old(Current()), StartCall(id))
    {
      if canStart && id >= 0 {
        timeouts, started := timeouts + [id], started + multiset{id};
      }
    }

    /** gp_camera_stop_timeout: the first timeout with this id; without a stop function nothing happens. */
    method StopTimeout(id: nat)
      modifies this`timeouts, this`stopped
      ensures Current() == Step(old(Current()), StopCall(id))
      ensures canStop && id in old(timeouts) ==> timeouts == Without(old(timeouts), id) && stopped == old(stopped) + [id]
      ensures !canStop ==> unchanged(this)
    {
      if !canStop {
        return;
      }
      var i := 0;
      while i < |timeouts|
        invariant 0 <= i <= |timeouts| && id !in timeouts[..i]
      {
        if timeouts[i] == id {
          break;
        }
        i := i + 1;
      }
      if i == |timeouts| {
        return;
      }
      WithoutAt(timeouts, id, i);
      timeouts := timeouts[..i] + timeouts[i + 1..];
      stopped := stopped + [id];
    }

    /** Calls from inside an operation are refused, counted or put off, whatever their sequence: nothing is freed,
        and the camera stays busy. */
    method RunCalls(calls: seq<Call>)
      requires Valid() && phase == InOperation
      modifies this
      ensures Valid() && phase == InOperation && unchanged(this`freed, this`frees)
      ensures Current() == After(old(Current()), calls)
    {
      var i := 0;
      while i < |calls|
        invariant 0 <= i <= |calls| && Valid() && phase == InOperation && unchanged(this`freed, this`frees)
        invariant Current() == After(old(Current()), calls[..i])
      {
        assert calls[..i + 1][..i] == calls[..i];
        RunCall(calls[i]);
        i := i + 1;
      }
      assert calls[..i] == calls;
    }

    method RunCall(call: Call)
      requires Valid() && phase == InOperation
      modifies this
      ensures Valid() && phase == InOperation && unchanged(this`freed, this`frees)
      ensures Current() == Step(old(Current()), call)
    {
      hide Ends, Step;
      ghost var s := Current();
      match call {
        case NestedOperation =>
          NestedIsRefused(s);
          var _ := Begin();
        case InitCall(found) => Look(found);
        case InitFails => CloseDriver();
        case ExitCall => var _ := Exit();
        case RefCall => Ref();
        case UnrefCall => var _, _ := Unref();
        case FuncsCall(start, stop) => SetTimeoutFuncs(start, stop);
        case StartCall(id) => StartTimeout(id);
        case StopCall(id) => StopTimeout(id);
      }
    }

    /** A whole operation with everything called from inside it. */
    method Operation(portFound: bool, found: Lookup, initCalls: seq<Call>, initOk: bool, calls: seq<Call>)
      returns (outcome: Outcome)
      requires Valid() && !freed
      modifies this
      ensures outcome == Busy <==> old(used) > 0
      ensures outcome == Busy ==> unchanged(this)
      ensures old(used) == 0 && !old(loaded) && !portFound ==>
        outcome == InitFailed && Valid() && phase == Stuck && used == 255 && !freed
        && Current() == old(Current()).(exitRequested := false)
      ensures old(used) == 0 && (old(loaded) || portFound) ==>
        var e := After(old(Current()), AllCalls(old(loaded), found, initCalls, initOk, calls));
        && (outcome == Hangs <==> Exits(e) && !Ends(e.timeouts, e.canStop))
        && (outcome == InitFailed ==> !old(loaded) && !(found.LibraryOpened? && initOk))
        && (outcome == Done ==> old(loaded) || (found.LibraryOpened? && initOk))
        && (outcome != Hangs ==> Valid() && phase == Idle && Current() == Ended(e))
    {
      var busy := Begin();
      if busy {
        return Busy;
      }
      hide Ends, After, Step, Closed;
      if !loaded && !portFound {
        var _ := LookInVain();
        var _ := Unused();
        return InitFailed;
      }
      var ok := Work(found, initCalls, initOk, calls);
      var returned := Unused();
      outcome := if !returned then Hangs else if ok then Done else InitFailed;
    }

    /** What happens between taking and dropping the busy mark. */
    method Work(found: Lookup, initCalls: seq<Call>, initOk: bool, calls: seq<Call>) returns (ok: bool)
      requires Valid() && phase == InOperation
      modifies this
      ensures Valid() && phase == InOperation && unchanged(this`freed, this`frees)
      ensures ok <==> old(loaded) || (found.LibraryOpened? && initOk)
      ensures Current() == After(old(Current()), AllCalls(old(loaded), found, initCalls, initOk, calls))
    {
      hide After, Step;
      ghost var s := Current();
      if loaded {
        ok := true;
        RunCalls(calls);
      } else {
        ok := Initialise(found, initCalls, initOk);
        if ok {
          AfterBoth(s, [InitCall(found)] + initCalls, calls);
          RunCalls(calls);
        }
      }
    }

    /** gp_camera_init inside CHECK_INIT. */
    method Initialise(found: Lookup, initCalls: seq<Call>, initOk: bool) returns (ok: bool)
      requires Valid() && phase == InOperation
      modifies this
      ensures Valid() && phase == InOperation && unchanged(this`freed, this`frees)
      ensures ok <==> found.LibraryOpened? && initOk
      ensures Current() == After(old(Current()),
        if ok then [InitCall(found)] + initCalls else AllCalls(false, found, initCalls, initOk, []))
    {
      ghost var s := Current();
      Look(found);
      AfterOne(s, InitCall(found));
      ok := found == LibraryOpened && initOk;
      if found == LibraryOpened {
        RunCalls(initCalls);
        AfterBoth(s, [InitCall(found)], initCalls);
        if !initOk {
          AfterOne(Current(), InitFails);
          CloseDriver();
          AfterBoth(s, [InitCall(found)] + initCalls, [InitFails]);
        }
      }
    }
  }

  // ---- three runs ----

  lemma AfterTwo(s: State, c: Call, d: Call)
    ensures After(s, [c] + [d]) == Step(Step(s, c), d)
  {
    AfterBoth(s, [c], [d]);
    AfterOne(s, c);
    AfterOne(Step(s, c), d);
  }

  const NEW := State(1, false, false, true, true, [], [], multiset{}, 0, 0, 0)

  /** A frontend that can start timeouts but not stop them: after an operation whose driver has started one,
      gp_camera_exit does not return. */
  method ExitNeverReturns() returns (outcome: Outcome, returned: bool)
    ensures outcome == Done && !returned
  {
    var camera := new Camera();
    camera.SetTimeoutFuncs(true, false);
    ghost var s := NEW.(canStop := false);
    assert camera.Current() == s;
    assert AllCalls(false, LibraryOpened, [StartCall(7)], true, []) == [InitCall(LibraryOpened)] + [StartCall(7)];
    AfterTwo(s, InitCall(LibraryOpened), StartCall(7));
    outcome := camera.Operation(true, LibraryOpened, [StartCall(7)], true, []);
    assert camera.timeouts == [7] && !camera.canStop;
    OnePendingForever(0);
    returned := camera.Exit();
  }

  /** A driver starts a timeout and then fails: the last reference frees the camera, and the timeout, which would
      have been stopped otherwise, stays pending. */
  method TimeoutOutlivesCamera() returns (outcome: Outcome, ok: bool, returned: bool, pending: seq<nat>)
    ensures outcome == InitFailed && ok && returned && pending == [7]
  {
    var camera := new Camera();
    camera.SetTimeoutFuncs(true, true);
    assert camera.Current() == NEW;
    var all := AllCalls(false, LibraryOpened, [StartCall(7)], false, []);
    assert all == [InitCall(LibraryOpened)] + [StartCall(7)] + [InitFails];
    AfterTwo(NEW, InitCall(LibraryOpened), StartCall(7));
    AfterBoth(NEW, [InitCall(LibraryOpened)] + [StartCall(7)], [InitFails]);
    AfterOne(After(NEW, [InitCall(LibraryOpened)] + [StartCall(7)]), InitFails);
    outcome := camera.Operation(true, LibraryOpened, [StartCall(7)], false, []);
    ok, returned := camera.Unref();
    assert camera.freed;
    pending := camera.timeouts;
  }

  /** gp_camera_init on an unplugged camera: it is busy from then on, and not even the last reference frees it. */
  method BusyForEver(calls: seq<Call>) returns (outcome: Outcome, marks: nat, refs: nat)
    ensures outcome == Busy && marks == 255 && refs == 0
  {
    var camera := new Camera();
    var _ := camera.LookInVain();
    assert camera.used == 255 && camera.Current().refCount == 1;
    outcome := camera.Operation(true, LibraryOpened, [], true, calls);
    assert camera.used == 255 && camera.Current().refCount == 1;
    var _ := camera.Exit();
    assert camera.used == 255 && camera.Current().refCount == 1;
    var _, _ := camera.Unref();
    assert camera.Current().refCount == 0 && !camera.freed;
    marks, refs := camera.used, camera.refCount;
  }
}
