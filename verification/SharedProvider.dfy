/** The lazily created provider of platform/random.cc: double-checked locking around a global pointer,
    as a transition system over any number of concurrent constructor calls. A call is one execution of
    `RandomGenerator::RandomGenerator()`, possibly followed by uses of the object. Each transition is one
    step of one call between two accesses to shared state; reads of the pointer are atomic. */
module SharedProvider {
  import opened Wrappers

  type CallId = nat
  type ProviderId = nat

  /** Where a call is. */
  datatype Place =
    | Entry                          // before the first `if (!shared_provider)`
    | WantLock                       // read null; about to take `shared_provider_lock`
    | Recheck                        // lock held; before the second `if`
    | Creating                       // lock held; read null; inside `make_unique`
    | Storing(created: ProviderId)   // lock held; before the assignment to `shared_provider`
    | Leaving                        // lock held; before the guard's destructor
    | Unwinding                      // lock held; construction threw; before the guard's destructor
    | Returned                       // the constructor returned
    | Threw                          // the constructor threw
    | Entering(used: ProviderId)     // in `getBytes`: read the pointer; about to take that provider's own mutex
    | Reading(used: ProviderId)      // in `getBytes`, holding that mutex
  {
    predicate HoldsLock() { Recheck? || Creating? || Storing? || Leaving? || Unwinding? }
  }

  /** `provider`, `lock` and `device` are the shared memory. `created` counts the providers ever
      constructed (their identities are 0, 1, ...) and `stores` lists every assignment to the pointer. */
  datatype State = State(
    places: map<CallId, Place>,
    provider: Option<ProviderId>,
    lock: Option<CallId>,
    device: map<ProviderId, CallId>,
    created: nat,
    stores: seq<ProviderId>)
  {
    function Place(t: CallId): Place {
      if t in places then places[t] else Entry
    }
  }

  datatype Step =
    | FirstCheck | Acquire | SecondCheck | Construct | ConstructThrows | Store | Release | ReleaseUnwinding
    | ReadPointer | LockDevice | UnlockDevice
  {
    predicate InConstructor() { !ReadPointer? && !LockDevice? && !UnlockDevice? }
  }

  function Init(): State {
    State(map[], None, None, map[], 0, [])
  }

  predicate Enabled(s: State, t: CallId, step: Step) {
    var p := s.Place(t);
    match step
    case FirstCheck => p.Entry?
    case Acquire => p.WantLock? && s.lock.None?
    case SecondCheck => p.Recheck?
    case Construct => p.Creating?
    case ConstructThrows => p.Creating?
    case Store => p.Storing?
    case Release => p.Leaving?
    case ReleaseUnwinding => p.Unwinding?
    case ReadPointer => p.Returned?
    case LockDevice => p.Entering? && p.used !in s.device
    case UnlockDevice => p.Reading?
  }

  /** The effect of a step. `getBytes` dereferences the pointer: `NullDereference` is the crash that follows
      when it is null. */
  datatype Outcome = Next(state: State) | NullDereference

  function Effect(s: State, t: CallId, step: Step): Outcome
    requires Enabled(s, t, step)
  {
    var p := s.Place(t);
    match step
    case FirstCheck =>
      Next(s.(places := s.places[t := if s.provider.None? then WantLock else Returned]))
    case Acquire =>
      Next(s.(places := s.places[t := Recheck], lock := Some(t)))
    case SecondCheck =>
      Next(s.(places := s.places[t := if s.provider.None? then Creating else Leaving]))
    case Construct =>
      Next(s.(places := s.places[t := Storing(s.created)], created := s.created + 1))
    case ConstructThrows =>
      Next(s.(places := s.places[t := Unwinding]))
    case Store =>
      Next(s.(places := s.places[t := Leaving], provider := Some(p.created), stores := s.stores + [p.created]))
    case Release =>
      Next(s.(places := s.places[t := Returned], lock := None))
    case ReleaseUnwinding =>
      Next(s.(places := s.places[t := Threw], lock := None))
    case ReadPointer =>
      if s.provider.None? then NullDereference
      else Next(s.(places := s.places[t := Entering(s.provider.value)]))
    case LockDevice =>
      Next(s.(places := s.places[t := Reading(p.used)], device := s.device[p.used := t]))
    case UnlockDevice =>
      Next(s.(places := s.places[t := Returned], device := s.device - {p.used}))
  }

  ghost predicate Transition(s: State, s': State) {
    exists t: CallId, step: Step :: Enabled(s, t, step) && Effect(s, t, step) == Next(s')
  }

  /** A run: states from the initial one, consecutive ones related by a step of some call. */
  ghost predicate IsRun(run: seq<State>) {
    && run != []
    && run[0] == Init()
    && forall i :: 0 <= i < |run| - 1 ==> Transition(run[i], run[i + 1])
  }

  // ----- the invariant

  /** The mutex is held by exactly the call inside the locked region. */
  ghost predicate LockOwned(s: State) {
    forall t: CallId :: s.Place(t).HoldsLock() <==> s.lock == Some(t)
  }

  /** A provider exists only between its construction and its one assignment, and afterwards for good. */
  ghost predicate OneProvider(s: State) {
    && (s.provider.None? ==> s.stores == [])
    && (s.provider.Some? ==> s.provider == Some(0) && s.stores == [0] && s.created == 1)
    && (forall t: CallId :: s.Place(t).Creating? || s.Place(t).Unwinding? ==> s.provider.None? && s.created == 0)
    && (forall t: CallId :: s.Place(t).Storing? ==> s.provider.None? && s.created == 1 && s.Place(t).created == 0)
    && (s.provider.None? && s.created > 0 ==> exists t: CallId :: s.Place(t).Storing?)
  }

  /** A call that got past the constructor sees a provider. */
  ghost predicate ReturnedSeesProvider(s: State) {
    && (forall t: CallId :: s.Place(t).Returned? || s.Place(t).Leaving? ==> s.provider.Some?)
    && (forall t: CallId :: s.Place(t).Entering? || s.Place(t).Reading? ==> s.provider == Some(s.Place(t).used))
  }

  /** The provider's mutex is held by exactly the call reading from the device. */
  ghost predicate DeviceOwned(s: State) {
    forall t: CallId, p: ProviderId :: s.Place(t) == Reading(p) <==> p in s.device && s.device[p] == t
  }

  ghost predicate Inv(s: State) {
    LockOwned(s) && OneProvider(s) && ReturnedSeesProvider(s) && DeviceOwned(s)
  }

  lemma EffectPlaces(s: State, t: CallId, step: Step)
    requires Enabled(s, t, step) && Effect(s, t, step).Next?
    ensures var s' := Effect(s, t, step).state;
            forall u: CallId :: u != t ==> s'.Place(u) == s.Place(u)
  {
  }

  lemma LockPreserved(s: State, t: CallId, step: Step)
    requires Inv(s) && Enabled(s, t, step) && Effect(s, t, step).Next?
    ensures LockOwned(Effect(s, t, step).state)
  {
    EffectPlaces(s, t, step);
  }

  lemma ProviderPreserved(s: State, t: CallId, step: Step)
    requires Inv(s) && Enabled(s, t, step) && Effect(s, t, step).Next?
    ensures OneProvider(Effect(s, t, step).state)
  {
    EffectPlaces(s, t, step);
    var s' := Effect(s, t, step).state;
    assert s'.Place(t) == s'.places[t];
    // only the owner of the lock can be creating, storing or unwinding
    assert forall u: CallId :: s.Place(u).Creating? || s.Place(u).Storing? || s.Place(u).Unwinding? ==> s.lock == Some(u);
    if s'.provider.None? && s'.created > 0 {
      if step.Construct? {
        assert s'.Place(t).Storing?;
      } else {
        var u: CallId :| s.Place(u).Storing?;
        assert s.lock == Some(u) && u != t;
        assert s'.Place(u).Storing?;
      }
    }
  }

  lemma ReturnedPreserved(s: State, t: CallId, step: Step)
    requires Inv(s) && Enabled(s, t, step) && Effect(s, t, step).Next?
    ensures ReturnedSeesProvider(Effect(s, t, step).state)
  {
    EffectPlaces(s, t, step);
  }

  lemma DevicePreserved(s: State, t: CallId, step: Step)
    requires Inv(s) && Enabled(s, t, step) && Effect(s, t, step).Next?
    ensures DeviceOwned(Effect(s, t, step).state)
  {
    EffectPlaces(s, t, step);
  }

  /** Every step of every call keeps the invariant, and no step dereferences a null pointer. */
  lemma StepPreserves(s: State, t: CallId, step: Step)
    requires Inv(s) && Enabled(s, t, step)
    ensures Effect(s, t, step).Next? && Inv(Effect(s, t, step).state)
  {
    LockPreserved(s, t, step);
    ProviderPreserved(s, t, step);
    ReturnedPreserved(s, t, step);
    DevicePreserved(s, t, step);
  }

  lemma {:induction false} RunInvariant(run: seq<State>, i: nat)
    requires IsRun(run) && i < |run|
    ensures Inv(run[i])
  {
    if i > 0 {
      RunInvariant(run, i - 1);
      var s := run[i - 1];
      assert Transition(s, run[i - 1 + 1]);
      var t: CallId, step: Step :| Enabled(s, t, step) && Effect(s, t, step) == Next(run[i]);
      StepPreserves(s, t, step);
    }
  }

  // ----- the theorems

  /** In every reachable state of every interleaving, throwing constructions included: at most one provider
      was ever constructed and stored, at most one call is in the locked region, and at most one reads the device. */
  lemma AtMostOneProvider(run: seq<State>, i: nat)
    requires IsRun(run) && i < |run|
    ensures run[i].created <= 1 && |run[i].stores| <= 1
    ensures forall t: CallId, u: CallId :: run[i].Place(t).HoldsLock() && run[i].Place(u).HoldsLock() ==> t == u
    ensures forall t: CallId, u: CallId :: run[i].Place(t).Reading? && run[i].Place(u).Reading? ==> t == u
  {
    RunInvariant(run, i);
    var s := run[i];
    if s.provider.None? && s.created > 0 {
      var t: CallId :| s.Place(t).Storing?;
    }
    forall t: CallId, u: CallId | s.Place(t).Reading? && s.Place(u).Reading?
      ensures t == u
    {
      var p := s.provider.value;
      assert s.Place(t) == Reading(p) && s.Place(u) == Reading(p);
    }
  }

  /** Once stored, the provider is never replaced or lost. */
  lemma {:induction false} NeverReplaced(run: seq<State>, i: nat, j: nat)
    requires IsRun(run) && i <= j < |run| && run[i].provider.Some?
    ensures run[j].provider == run[i].provider && run[j].stores == run[i].stores
  {
    hide Inv, Enabled, Effect;
    if i < j {
      NeverReplaced(run, i, j - 1);
      RunInvariant(run, j - 1);
      assert Transition(run[j - 1], run[j - 1 + 1]);
      var t: CallId, step: Step :| Enabled(run[j - 1], t, step) && Effect(run[j - 1], t, step) == Next(run[j]);
      StoredStays(run[j - 1], t, step);
    }
  }

  lemma StoredStays(s: State, t: CallId, step: Step)
    requires Inv(s) && Enabled(s, t, step) && Effect(s, t, step).Next? && s.provider.Some?
    ensures Effect(s, t, step).state.provider == s.provider && Effect(s, t, step).state.stores == s.stores
  {
  }

  /** A call whose constructor returned finds a provider in `getBytes`, then and ever after:
      the pointer is not null, and all calls use the same provider. */
  lemma GetBytesIsSafe(run: seq<State>, i: nat, t: CallId)
    requires IsRun(run) && i < |run|
    requires run[i].Place(t).Returned? || run[i].Place(t).Entering? || run[i].Place(t).Reading?
    ensures forall j :: i <= j < |run| ==> run[j].provider == Some(0)
    ensures run[i].Place(t).Returned? ==> Effect(run[i], t, ReadPointer).Next?
    ensures forall u: CallId :: run[i].Place(u).Entering? || run[i].Place(u).Reading? ==> run[i].Place(u).used == 0
  {
    RunInvariant(run, i);
    forall j | i <= j < |run|
      ensures run[j].provider == Some(0)
    {
      NeverReplaced(run, i, j);
    }
  }

  /** Which step a call takes next, other than waiting for a mutex; a call inside `make_unique` may also throw. */
  function NextStep(p: Place): Step
    requires !p.Threw?
  {
    match p
    case Entry => FirstCheck
    case WantLock => Acquire
    case Recheck => SecondCheck
    case Creating => Construct
    case Storing(_) => Store
    case Leaving => Release
    case Unwinding => ReleaseUnwinding
    case Returned => ReadPointer
    case Entering(_) => LockDevice
    case Reading(_) => UnlockDevice
  }

  /** No deadlock: a call that has not thrown can move itself, or waits for the owner of the lock it wants,
      or for the reader of the device, and that one can move. In particular the lock is released
      after a construction that threw. */
  lemma NoDeadlock(run: seq<State>, i: nat, t: CallId)
    requires IsRun(run) && i < |run| && !run[i].Place(t).Threw?
    ensures var s := run[i];
            || Enabled(s, t, NextStep(s.Place(t)))
            || (s.Place(t).WantLock? && s.lock.Some?
                && s.Place(s.lock.value).HoldsLock() && Enabled(s, s.lock.value, NextStep(s.Place(s.lock.value))))
            || (s.Place(t).Entering? && s.Place(t).used in s.device
                && Enabled(s, s.device[s.Place(t).used], UnlockDevice))
  {
    RunInvariant(run, i);
    var s := run[i];
    if s.Place(t).WantLock? && s.lock.Some? {
      assert s.Place(s.lock.value).HoldsLock();
    } else if s.Place(t).Entering? && s.Place(t).used in s.device {
      var u := s.device[s.Place(t).used];
      assert s.Place(u) == Reading(s.Place(t).used);
    }
  }

  // ----- a construction that throws

  /** A run continued by one step. */
  lemma Take(run: seq<State>, t: CallId, step: Step) returns (longer: seq<State>, s: State)
    requires IsRun(run) && Enabled(run[|run| - 1], t, step) && Effect(run[|run| - 1], t, step).Next?
    ensures IsRun(longer) && run <= longer && |longer| == |run| + 1 && longer[|run|] == s
    ensures Effect(run[|run| - 1], t, step) == Next(s)
    ensures forall u: CallId :: u != t ==> s.Place(u) == run[|run| - 1].Place(u)
  {
    EffectPlaces(run[|run| - 1], t, step);
    s := Effect(run[|run| - 1], t, step).state;
    longer := run + [s];
    forall i | 0 <= i < |longer| - 1
      ensures Transition(longer[i], longer[i + 1])
    {
      if i < |run| - 1 {
        assert Transition(run[i], run[i + 1]);
      }
    }
  }

  /** After a construction that threw, nothing is left behind: the lock is released with the pointer still null, and from
      there the run can go on so that any given call that has not begun creates and stores the provider and returns. */
  lemma RetryAfterThrow(run: seq<State>, t: CallId, u: CallId) returns (longer: seq<State>)
    requires IsRun(run) && run[|run| - 1].Place(t).Unwinding? && run[|run| - 1].Place(u).Entry?
    ensures IsRun(longer) && |longer| > |run| + 1 && run <= longer
    ensures var s := longer[|run|];
            s == Effect(run[|run| - 1], t, ReleaseUnwinding).state && s.lock.None? && s.provider.None? && s.Place(t).Threw?
    ensures var s := longer[|longer| - 1];
            s.provider == Some(0) && s.lock.None? && s.Place(u).Returned? && s.Place(t).Threw?
  {
    RunInvariant(run, |run| - 1);
    var r1, s1 := Take(run, t, ReleaseUnwinding);
    longer := Alone(r1, u);
    assert longer[|run|] == r1[|run|] == s1;
  }

  /** A call that begins while nothing is stored and nobody holds the lock creates the provider if left alone. */
  lemma Alone(run: seq<State>, u: CallId) returns (longer: seq<State>)
    requires IsRun(run)
    requires var s := run[|run| - 1]; s.Place(u).Entry? && s.provider.None? && s.lock.None? && s.created == 0
    ensures IsRun(longer) && |longer| > |run| && run <= longer
    ensures var s := longer[|longer| - 1];
            && s.provider == Some(0) && s.lock.None? && s.Place(u).Returned?
            && forall t: CallId :: t != u ==> s.Place(t) == run[|run| - 1].Place(t)
  {
    var r1, s1 := Take(run, u, FirstCheck);
    var r2, s2 := Take(r1, u, Acquire);
    var r3, s3 := Take(r2, u, SecondCheck);
    longer := AloneInside(r3, u);
  }

  lemma AloneInside(run: seq<State>, u: CallId) returns (longer: seq<State>)
    requires IsRun(run)
    requires var s := run[|run| - 1]; s.Place(u).Creating? && s.created == 0
    ensures IsRun(longer) && |longer| > |run| && run <= longer
    ensures var s := longer[|longer| - 1];
            && s.provider == Some(0) && s.lock.None? && s.Place(u).Returned?
            && forall t: CallId :: t != u ==> s.Place(t) == run[|run| - 1].Place(t)
  {
    var r1, s1 := Take(run, u, Construct);
    var r2, s2 := Take(r1, u, Store);
    var r3, s3 := Take(r2, u, Release);
    longer := r3;
  }

  // ----- calls finish

  /** One step of a run with the call that took it. */
  datatype Move = Move(call: CallId, step: Step)

  /** A run together with its moves. */
  ghost predicate IsTrace(moves: seq<Move>, run: seq<State>) {
    && |run| == |moves| + 1
    && run[0] == Init()
    && forall i :: 0 <= i < |moves| ==> Moves(run[i], moves[i], run[i + 1])
  }

  ghost predicate Moves(s: State, m: Move, s': State) {
    Enabled(s, m.call, m.step) && Effect(s, m.call, m.step) == Next(s')
  }

  /** Every run has moves, and moves make a run. */
  lemma {:induction false} MovesOfRun(run: seq<State>) returns (moves: seq<Move>)
    requires IsRun(run)
    ensures IsTrace(moves, run)
    decreases |run|
  {
    hide Enabled, Effect;
    if |run| == 1 {
      moves := [];
    } else {
      var shorter := run[..|run| - 1];
      assert IsRun(shorter) by {
        forall i | 0 <= i < |shorter| - 1
          ensures Transition(shorter[i], shorter[i + 1])
        {
          assert Transition(run[i], run[i + 1]);
        }
      }
      moves := MovesOfRun(shorter);
      var s, s' := run[|run| - 2], run[|run| - 1];
      assert Transition(s, run[|run| - 2 + 1]);
      var t: CallId, step: Step :| Enabled(s, t, step) && Effect(s, t, step) == Next(s');
      assert Moves(s, Move(t, step), s');
      moves := moves + [Move(t, step)];
    }
  }

  lemma TraceIsRun(moves: seq<Move>, run: seq<State>)
    requires IsTrace(moves, run)
    ensures IsRun(run)
  {
    forall i | 0 <= i < |run| - 1
      ensures Transition(run[i], run[i + 1])
    {
      assert Moves(run[i], moves[i], run[i + 1]);
    }
  }

  /** How many of the first n moves are steps of call t inside its constructor. */
  function OwnSteps(moves: seq<Move>, t: CallId, n: nat): nat
    requires n <= |moves|
  {
    if n == 0 then 0
    else OwnSteps(moves, t, n - 1) + if moves[n - 1].call == t && moves[n - 1].step.InConstructor() then 1 else 0
  }

  /** Steps a call still has to take inside the constructor, at most. */
  function Remaining(p: Place): nat {
    match p
    case Entry => 6
    case WantLock => 5
    case Recheck => 4
    case Creating => 3
    case Storing(_) => 2
    case Leaving => 1
    case Unwinding => 1
    case _ => 0
  }

  /** Between any two moments of any run, however the other calls interleave, the steps a call takes inside its constructor
      are paid for by the steps it had left. */
  lemma {:induction false} OwnStepsBounded(moves: seq<Move>, run: seq<State>, t: CallId, i: nat, n: nat)
    requires IsTrace(moves, run) && i <= n <= |moves|
    ensures OwnSteps(moves, t, n) - OwnSteps(moves, t, i) + Remaining(run[n].Place(t)) <= Remaining(run[i].Place(t))
    decreases n - i
  {
    hide Moves, Remaining;
    if i < n {
      OwnStepsBounded(moves, run, t, i, n - 1);
      assert Moves(run[n - 1], moves[n - 1], run[n - 1 + 1]);
      MoveIsPaidFor(run[n - 1], moves[n - 1], run[n], t);
    }
  }

  lemma MoveIsPaidFor(s: State, m: Move, s': State, t: CallId)
    requires Moves(s, m, s')
    ensures (if m.call == t && m.step.InConstructor() then 1 else 0) + Remaining(s'.Place(t)) <= Remaining(s.Place(t))
  {
    if m.call != t {
      EffectPlaces(s, m.call, m.step);
      hide Enabled, Effect, Remaining;
      assert s'.Place(t) == s.Place(t);
    } else {
      assert s'.Place(t) == s'.places[t];
    }
  }

  /** In every run a constructor call takes at most six steps; after six it has returned or, if the construction of the
      provider threw inside it, thrown. */
  lemma CallsFinish(moves: seq<Move>, run: seq<State>, t: CallId, n: nat)
    requires IsTrace(moves, run) && n <= |moves|
    ensures OwnSteps(moves, t, n) + Remaining(run[n].Place(t)) <= 6
    ensures OwnSteps(moves, t, n) == 6 ==> run[n].Place(t).Returned? || run[n].Place(t).Threw?
                                           || run[n].Place(t).Entering? || run[n].Place(t).Reading?
    ensures run[n].Place(t).Threw? ==> exists i :: 0 <= i < n && moves[i] == Move(t, ConstructThrows)
  {
    OwnStepsBounded(moves, run, t, 0, n);
    ThrowsIff(moves, run, t, n);
  }

  /** The lock is kept until its owner releases it, and in every run its owner has released it after four more
      steps of its own. */
  lemma LockIsReleased(moves: seq<Move>, run: seq<State>, t: CallId, i: nat, n: nat)
    requires IsTrace(moves, run) && i <= n <= |moves| && run[i].lock == Some(t)
    ensures i < |moves| && moves[i].call != t ==> run[i + 1].lock == Some(t) && run[i + 1].Place(t) == run[i].Place(t)
    ensures OwnSteps(moves, t, n) - OwnSteps(moves, t, i) >= 4 ==> run[n].lock != Some(t)
  {
    TraceIsRun(moves, run);
    RunInvariant(run, i);
    RunInvariant(run, n);
    OwnStepsBounded(moves, run, t, i, n);
    assert run[i].Place(t).HoldsLock();
    assert run[n].lock == Some(t) <==> run[n].Place(t).HoldsLock();
    if i < |moves| && moves[i].call != t {
      assert Moves(run[i], moves[i], run[i + 1]);
      LockKept(run[i], moves[i].call, moves[i].step, t);
    }
  }

  lemma LockKept(s: State, u: CallId, step: Step, t: CallId)
    requires Inv(s) && Enabled(s, u, step) && Effect(s, u, step).Next? && u != t && s.lock == Some(t)
    ensures Effect(s, u, step).state.lock == Some(t) && Effect(s, u, step).state.Place(t) == s.Place(t)
  {
    EffectPlaces(s, u, step);
    assert !s.Place(u).HoldsLock();
  }

  // ----- where a call is, from what was done

  /** The last move of a call before moment n, or -1. */
  function LastMove(moves: seq<Move>, t: CallId, n: nat): (i: int)
    requires n <= |moves|
    ensures -1 <= i < n
    ensures i >= 0 ==> moves[i].call == t
    ensures forall k :: i < k < n ==> moves[k].call != t
  {
    if n == 0 then -1 else if moves[n - 1].call == t then n - 1 else LastMove(moves, t, n - 1)
  }

  /** At every moment of every run, the last move of a call, and for the two checks whether the pointer was set when it was
      made, say where the call is. */
  lemma {:induction false} LastMoveDecides(moves: seq<Move>, run: seq<State>, t: CallId, n: nat)
    requires IsTrace(moves, run) && n <= |moves|
    ensures var i, p := LastMove(moves, t, n), run[n].Place(t);
            if i < 0 then p.Entry?
            else
              match moves[i].step {
                case FirstCheck => if run[i].provider.Some? then p.Returned? else p.WantLock?
                case Acquire => p.Recheck?
                case SecondCheck => if run[i].provider.Some? then p.Leaving? else p.Creating?
                case Construct => p.Storing?
                case ConstructThrows => p.Unwinding?
                case Store => p.Leaving?
                case Release => p.Returned?
                case ReleaseUnwinding => p.Threw?
                case ReadPointer => p.Entering?
                case LockDevice => p.Reading?
                case UnlockDevice => p.Returned?
              }
    decreases n
  {
    if n > 0 {
      assert Moves(run[n - 1], moves[n - 1], run[n - 1 + 1]);
      if moves[n - 1].call == t {
        assert run[n].Place(t) == run[n].places[t];
      } else {
        LastMoveDecides(moves, run, t, n - 1);
        EffectPlaces(run[n - 1], moves[n - 1].call, moves[n - 1].step);
      }
    }
  }

  /** A constructor throws exactly when the construction of the provider threw inside it. */
  lemma {:induction false} ThrowsIff(moves: seq<Move>, run: seq<State>, t: CallId, n: nat)
    requires IsTrace(moves, run) && n <= |moves|
    ensures run[n].Place(t).Threw? || run[n].Place(t).Unwinding? <==>
            exists i :: 0 <= i < n && moves[i] == Move(t, ConstructThrows)
    decreases n
  {
    if n > 0 {
      ThrowsIff(moves, run, t, n - 1);
      assert Moves(run[n - 1], moves[n - 1], run[n - 1 + 1]);
      ThrowStep(run[n - 1], moves[n - 1], run[n], t);
      if run[n].Place(t).Threw? || run[n].Place(t).Unwinding? {
        if moves[n - 1] != Move(t, ConstructThrows) {
          var i :| 0 <= i < n - 1 && moves[i] == Move(t, ConstructThrows);
        }
      }
    }
  }

  lemma ThrowStep(s: State, m: Move, s': State, t: CallId)
    requires Moves(s, m, s')
    ensures s'.Place(t).Threw? || s'.Place(t).Unwinding? <==>
            s.Place(t).Threw? || s.Place(t).Unwinding? || m == Move(t, ConstructThrows)
  {
    if m.call != t {
      EffectPlaces(s, m.call, m.step);
    } else {
      assert s'.Place(t) == s'.places[t];
    }
  }

  /** The pointer is set exactly when a call has stored a provider, and one exists exactly when a construction succeeded. */
  lemma {:induction false} StoredIff(moves: seq<Move>, run: seq<State>, n: nat)
    requires IsTrace(moves, run) && n <= |moves|
    ensures run[n].provider.Some? <==> exists i :: 0 <= i < n && moves[i].step.Store?
    ensures run[n].created > 0 <==> exists i :: 0 <= i < n && moves[i].step.Construct?
    decreases n
  {
    if n > 0 {
      StoredIff(moves, run, n - 1);
      var s, m := run[n - 1], moves[n - 1];
      assert Moves(s, m, run[n - 1 + 1]);
      assert run[n].provider.Some? <==> s.provider.Some? || m.step.Store?;
      assert run[n].created > 0 <==> s.created > 0 || m.step.Construct?;
    }
  }

  ghost predicate Idle(moves: seq<Move>, t: CallId, i: nat, n: nat)
    requires i <= n <= |moves|
  {
    forall k :: i <= k < n ==> moves[k].call != t
  }

  lemma IdleStep(moves: seq<Move>, t: CallId, i: nat, n: nat)
    requires i < n <= |moves|
    ensures Idle(moves, t, i, n) <==> Idle(moves, t, i, n - 1) && moves[n - 1].call != t
  {
  }

  predicate PastConstructor(p: Place) {
    p.Returned? || p.Entering? || p.Reading?
  }

  lemma {:induction false} FastPlace(moves: seq<Move>, run: seq<State>, t: CallId, i: nat, n: nat)
    requires IsTrace(moves, run) && i <= n <= |moves| && run[i].provider.Some? && run[i].Place(t).Entry?
    ensures run[n].provider.Some?
    ensures if Idle(moves, t, i, n) then run[n].Place(t).Entry? else PastConstructor(run[n].Place(t))
    decreases n - i
  {
    hide Moves, Idle;
    if i < n {
      FastPlace(moves, run, t, i, n - 1);
      IdleStep(moves, t, i, n);
      assert Moves(run[n - 1], moves[n - 1], run[n - 1 + 1]);
      FastStep(run[n - 1], moves[n - 1], run[n], t);
    } else {
      NothingDone(moves, t, i);
    }
  }

  lemma NothingDone(moves: seq<Move>, t: CallId, i: nat)
    requires i <= |moves|
    ensures Idle(moves, t, i, i)
  {
  }

  /** The fast path: a call that begins when the provider is stored has returned after its first step, and never holds the
      lock. */
  lemma FastPath(moves: seq<Move>, run: seq<State>, t: CallId, i: nat, n: nat)
    requires IsTrace(moves, run) && i <= n <= |moves| && run[i].provider.Some? && run[i].Place(t).Entry?
    ensures run[n].lock != Some(t)
    ensures if Idle(moves, t, i, n) then run[n].Place(t).Entry?
            else run[n].Place(t).Returned? || run[n].Place(t).Entering? || run[n].Place(t).Reading?
    ensures i < n && Idle(moves, t, i, n - 1) && moves[n - 1].call == t ==>
              moves[n - 1].step == FirstCheck && run[n].Place(t).Returned?
  {
    hide Moves, Inv, Idle, IsRun;
    TraceIsRun(moves, run);
    LockAt(run, t, n);
    FastPlace(moves, run, t, i, n);
    if i < n {
      FastPlace(moves, run, t, i, n - 1);
      assert Moves(run[n - 1], moves[n - 1], run[n - 1 + 1]);
      FastStep(run[n - 1], moves[n - 1], run[n], t);
    }
  }

  lemma LockAt(run: seq<State>, t: CallId, n: nat)
    requires IsRun(run) && n < |run|
    ensures run[n].Place(t).HoldsLock() <==> run[n].lock == Some(t)
  {
    RunInvariant(run, n);
  }

  lemma FastStep(s: State, m: Move, s': State, t: CallId)
    requires Moves(s, m, s') && s.provider.Some?
    ensures s'.provider.Some?
    ensures m.call != t ==> s'.Place(t) == s.Place(t)
    ensures m.call == t && s.Place(t).Entry? ==> m.step == FirstCheck && s'.Place(t).Returned?
    ensures m.call == t && (s.Place(t).Returned? || s.Place(t).Entering? || s.Place(t).Reading?) ==>
              s'.Place(t).Returned? || s'.Place(t).Entering? || s'.Place(t).Reading?
  {
    if m.call != t {
      EffectPlaces(s, m.call, m.step);
    } else {
      assert s'.Place(t) == s'.places[t];
    }
  }

  /** Inside `make_unique` a call may go either way. */
  lemma ConstructionMayThrow(moves: seq<Move>, run: seq<State>, t: CallId, n: nat)
    requires IsTrace(moves, run) && n <= |moves|
    ensures run[n].Place(t).Creating? <==> Enabled(run[n], t, Construct)
    ensures run[n].Place(t).Creating? <==> Enabled(run[n], t, ConstructThrows)
    ensures n > 0 && moves[n - 1] == Move(t, SecondCheck) && run[n - 1].provider.None? ==>
              Enabled(run[n], t, Construct) && Enabled(run[n], t, ConstructThrows)
  {
    LastMoveDecides(moves, run, t, n);
  }

  /** From the start, before any provider exists, a single call left alone creates it. */
  lemma FirstCallCreates(u: CallId) returns (run: seq<State>)
    ensures IsRun(run) && run[0].provider.None? && run[0].lock.None? && run[0].created == 0
    ensures var s := run[|run| - 1]; s.provider == Some(0) && s.lock.None? && s.Place(u).Returned?
  {
    run := Alone([Init()], u);
  }
}
