/** GetOrLoad of the persistent cache: look, lock the key, look again, fetch, store, unlock. */
module GetOrLoad {
  import opened MutexMap

  /** Before the first look; it missed; waiting for the lock; before the second look; fetching; storing; leaving. */
  datatype Stage = Probing | Missed | Locking | Checking | Fetching | Storing | Leaving | Left

  datatype Load = Load(key: Key, stage: Stage)

  /** The locks and their callers, those callers that are calls of GetOrLoad, and what is in the cache. */
  datatype LoadState = LoadState(locks: State, loads: map<CallID, Load>, cached: set<Key>)

  datatype LoadStep =
    | Begin(id: CallID, key: Key)
    | HitEarly(id: CallID)
    | MissEarly(id: CallID)
    | Lock(id: CallID)
    | Locked(id: CallID)
    | HitLate(id: CallID)
    | Fetch(id: CallID)
    | FetchFailed(id: CallID)
    | Fetched(id: CallID)
    | Stored(id: CallID, ok: bool)
    | Leave(id: CallID)
    | Unlocked(id: CallID)
    | Lost(key: Key)    // evicted, or found to be corrupted
    | Other(step: Step) // by another user of the locks

  ghost predicate At(ls: LoadState, id: CallID, stage: Stage) {
    id in ls.loads && ls.loads[id].stage == stage
  }

  /** The calls after call id has moved to a stage. */
  ghost function Moved(ls: LoadState, id: CallID, to: Stage): map<CallID, Load>
    requires id in ls.loads
  {
    ls.loads[id := Load(ls.loads[id].key, to)]
  }

  ghost predicate NextLoad(ls: LoadState, ls': LoadState, step: LoadStep) {
    match step
    case Begin(id, key) =>
      id !in ls.loads && id !in ls.locks.calls && ls' == ls.(loads := ls.loads[id := Load(key, Probing)])
    case HitEarly(id) => At(ls, id, Probing) && ls.loads[id].key in ls.cached && ls' == ls.(loads := ls.loads - {id})
    case MissEarly(id) =>
      At(ls, id, Probing) && ls.loads[id].key !in ls.cached && ls' == ls.(loads := Moved(ls, id, Missed))
    case Lock(id) =>
      && At(ls, id, Missed) && Next(ls.locks, ls'.locks, StartLock(id, ls.loads[id].key, Exclusive))
      && ls' == LoadState(ls'.locks, Moved(ls, id, Locking), ls.cached)
    case Locked(id) =>
      && At(ls, id, Locking) && Next(ls.locks, ls'.locks, Acquire(id))
      && ls' == LoadState(ls'.locks, Moved(ls, id, Checking), ls.cached)
    case HitLate(id) =>
      At(ls, id, Checking) && ls.loads[id].key in ls.cached && ls' == ls.(loads := Moved(ls, id, Leaving))
    case Fetch(id) =>
      At(ls, id, Checking) && ls.loads[id].key !in ls.cached && ls' == ls.(loads := Moved(ls, id, Fetching))
    case FetchFailed(id) => At(ls, id, Fetching) && ls' == ls.(loads := Moved(ls, id, Leaving))
    case Fetched(id) => At(ls, id, Fetching) && ls' == ls.(loads := Moved(ls, id, Storing))
    case Stored(id, ok) =>
      && At(ls, id, Storing)
      && ls' == LoadState(ls.locks, Moved(ls, id, Leaving), ls.cached + if ok then {ls.loads[id].key} else {})
    case Leave(id) =>
      && At(ls, id, Leaving) && Next(ls.locks, ls'.locks, Release(id))
      && ls' == LoadState(ls'.locks, Moved(ls, id, Left), ls.cached)
    case Unlocked(id) =>
      && At(ls, id, Left) && Next(ls.locks, ls'.locks, Unlock(id))
      && ls' == LoadState(ls'.locks, ls.loads - {id}, ls.cached)
    case Lost(key) => ls' == ls.(cached := ls.cached - {key})
    case Other(step) =>
      step.id !in ls.loads && Next(ls.locks, ls'.locks, step) && ls' == LoadState(ls'.locks, ls.loads, ls.cached)
  }

  /** The lock as a call at some stage has it. */
  ghost predicate LockFits(locks: State, id: CallID, load: Load) {
    match load.stage
    case Probing => id !in locks.calls
    case Missed => id !in locks.calls
    case Locking =>
      && id in locks.calls && locks.calls[id].key == load.key
      && locks.calls[id].mode == Exclusive && locks.calls[id].phase == Waiting
    case Left => id in locks.calls && locks.calls[id].phase == Unlocking
    case _ => id in locks.calls && HoldsExclusively(locks.calls[id], load.key)
  }

  ghost predicate LoadInv(ls: LoadState) {
    Inv(ls.locks) && forall id :: id in ls.loads ==> LockFits(ls.locks, id, ls.loads[id])
  }

  /** Steps on the locks leave all other callers where they are. */
  lemma OthersStayPut(locks: State, locks': State, step: Step, id: CallID)
    requires Next(locks, locks', step) && step.id != id
    ensures id in locks'.calls <==> id in locks.calls
    ensures id in locks.calls ==> locks'.calls[id] == locks.calls[id]
  {
  }

  /** The step of one call on its own lock. */
  lemma OwnStepFits(locks: State, locks': State, step: Step, id: CallID, load: Load, stage: Stage)
    requires Inv(locks) && Next(locks, locks', step) && step.id == id && LockFits(locks, id, load)
    requires
      || (load.stage == Missed && stage == Locking && step == StartLock(id, load.key, Exclusive))
      || (load.stage == Locking && stage == Checking && step == Acquire(id))
      || (load.stage == Leaving && stage == Left && step == Release(id))
    ensures LockFits(locks', id, Load(load.key, stage))
  {
  }

  function LockStep(ls: LoadState, step: LoadStep): Step
    requires step.Lock? || step.Locked? || step.Leave? || step.Unlocked? || step.Other?
    requires step.Lock? ==> step.id in ls.loads
  {
    match step
    case Lock(id) => StartLock(id, ls.loads[id].key, Exclusive)
    case Locked(id) => Acquire(id)
    case Leave(id) => Release(id)
    case Unlocked(id) => Unlock(id)
    case Other(other) => other
  }

  lemma LoadStepKeepsInv(ls: LoadState, ls': LoadState, step: LoadStep)
    requires LoadInv(ls) && NextLoad(ls, ls', step)
    ensures LoadInv(ls')
  {
    if step.Lock? || step.Locked? || step.Leave? || step.Unlocked? || step.Other? {
      var own := LockStep(ls, step);
      StepKeepsInv(ls.locks, ls'.locks, own);
      forall id | id in ls'.loads
        ensures LockFits(ls'.locks, id, ls'.loads[id])
      {
        if id != own.id {
          OthersStayPut(ls.locks, ls'.locks, own, id);
        } else {
          OwnStepFits(ls.locks, ls'.locks, own, id, ls.loads[id], ls'.loads[id].stage);
        }
      }
    }
  }

  ghost predicate IsLoadRun(states: seq<LoadState>, steps: seq<LoadStep>) {
    && |states| == |steps| + 1
    && states[0].locks == State(map[], 0, map[]) && states[0].loads == map[]
    && forall i :: 0 <= i < |steps| ==> NextLoad(states[i], states[i + 1], steps[i])
  }

  lemma {:induction false} LoadRunsKeepInv(states: seq<LoadState>, steps: seq<LoadStep>, i: nat)
    requires IsLoadRun(states, steps) && i < |states|
    ensures LoadInv(states[i])
  {
    if i > 0 {
      LoadRunsKeepInv(states, steps, i - 1);
      LoadStepKeepsInv(states[i - 1], states[i], steps[i - 1]);
    } else {
      EmptyIsInv();
    }
  }

  /** In every run, at most one call of GetOrLoad at a time looks again, fetches or stores for a key. */
  lemma AtMostOneFetch(states: seq<LoadState>, steps: seq<LoadStep>, i: nat, a: CallID, b: CallID)
    requires IsLoadRun(states, steps) && i < |states| && a in states[i].loads && b in states[i].loads
    requires states[i].loads[a].key == states[i].loads[b].key
    requires states[i].loads[a].stage in {Checking, Fetching, Storing}
    requires states[i].loads[b].stage in {Checking, Fetching, Storing}
    ensures a == b
  {
    LoadRunsKeepInv(states, steps, i);
    var locks := states[i].locks;
    assert LockFits(locks, a, states[i].loads[a]) && LockFits(locks, b, states[i].loads[b]);
    if a != b {
      HoldersShare(locks, a, b);
    }
  }

  // ---------- one fetch is enough ----------

  /** The step makes another fetch of the key necessary: it is lost, or could not be fetched or stored. */
  ghost predicate Undoes(ls: LoadState, step: LoadStep, key: Key) {
    || step == Lost(key)
    || ((step.FetchFailed? || step.Stored?) && step.id in ls.loads && ls.loads[step.id].key == key &&
        (step.Stored? ==> !step.ok))
  }

  /** Call a is still fetching or storing the key, or the key is cached. */
  ghost predicate UnderWay(ls: LoadState, a: CallID, key: Key) {
    || key in ls.cached
    || (a in ls.loads && ls.loads[a].key == key && ls.loads[a].stage in {Fetching, Storing})
  }

  lemma UnderWayGoesOn(ls: LoadState, ls': LoadState, step: LoadStep, a: CallID, key: Key)
    requires NextLoad(ls, ls', step) && UnderWay(ls, a, key) && !Undoes(ls, step, key)
    ensures UnderWay(ls', a, key)
  {
  }

  lemma {:induction false} UnderWaySince(states: seq<LoadState>, steps: seq<LoadStep>, i: nat, j: nat, key: Key)
    requires IsLoadRun(states, steps) && i < j < |states| && steps[i].Fetch?
    requires steps[i].id in states[i].loads && states[i].loads[steps[i].id].key == key
    requires forall m :: i < m < j ==> !Undoes(states[m], steps[m], key)
    ensures UnderWay(states[j], steps[i].id, key)
  {
    if j == i + 1 {
      assert NextLoad(states[i], states[j], steps[i]);
    } else {
      UnderWaySince(states, steps, i, j - 1, key);
      UnderWayGoesOn(states[j - 1], states[j], steps[j - 1], steps[i].id, key);
    }
  }

  /**
    However many calls ask for a key at the same time, it is fetched again only
    if in between it was lost, or could not be fetched or stored.
   */
  lemma OneFetchIsEnough(states: seq<LoadState>, steps: seq<LoadStep>, i: nat, j: nat)
    requires IsLoadRun(states, steps) && i < j < |steps| && steps[i].Fetch? && steps[j].Fetch?
    requires steps[i].id in states[i].loads && steps[j].id in states[j].loads
    requires states[i].loads[steps[i].id].key == states[j].loads[steps[j].id].key
    ensures exists m :: i < m < j && Undoes(states[m], steps[m], states[i].loads[steps[i].id].key)
  {
    var key, a, b := states[i].loads[steps[i].id].key, steps[i].id, steps[j].id;
    if forall m :: i < m < j ==> !Undoes(states[m], steps[m], key) {
      UnderWaySince(states, steps, i, j, key);
      assert NextLoad(states[j], states[j + 1], steps[j]);
      AtMostOneFetch(states, steps, j, a, b);
      assert false;
    }
  }

  /** In every run a call returns without a fetch only if it has found its key in the cache, at either look. */
  lemma LooksDecide(states: seq<LoadState>, steps: seq<LoadStep>, i: nat)
    requires IsLoadRun(states, steps) && i < |steps|
    ensures steps[i].HitEarly? || steps[i].HitLate? ==>
              steps[i].id in states[i].loads && states[i].loads[steps[i].id].key in states[i].cached
    ensures steps[i].MissEarly? || steps[i].Fetch? ==>
              steps[i].id in states[i].loads && states[i].loads[steps[i].id].key !in states[i].cached
  {
    assert NextLoad(states[i], states[i + 1], steps[i]);
  }

  // ---------- every call can go on ----------

  /** The step that takes call id on, unless it has to wait for the lock. */
  lemma CanGoOn(ls: LoadState, id: CallID) returns (ls': LoadState, step: LoadStep)
    requires LoadInv(ls) && id in ls.loads
    requires ls.loads[id].stage == Locking ==> Available(ls.locks, ls.locks.calls[id].mut, Exclusive)
    ensures NextLoad(ls, ls', step)
    ensures var load := ls.loads[id];
            match load.stage
            case Probing => step == if load.key in ls.cached then HitEarly(id) else MissEarly(id)
            case Missed => step == Lock(id)
            case Locking => step == Locked(id)
            case Checking => step == if load.key in ls.cached then HitLate(id) else Fetch(id)
            case Fetching => step == Fetched(id)
            case Storing => step == Stored(id, true)
            case Leaving => step == Leave(id)
            case Left => step == Unlocked(id)
  {
    var load, locks := ls.loads[id], ls.locks;
    assert LockFits(locks, id, load);
    match load.stage
    case Probing =>
      if load.key in ls.cached {
        step, ls' := HitEarly(id), ls.(loads := ls.loads - {id});
      } else {
        step, ls' := MissEarly(id), ls.(loads := Moved(ls, id, Missed));
      }
    case Missed =>
      var locks' := CanLock(locks, id, load.key, Exclusive);
      step, ls' := Lock(id), LoadState(locks', Moved(ls, id, Locking), ls.cached);
    case Locking =>
      var locks', own := CanFinish(locks, id);
      step, ls' := Locked(id), LoadState(locks', Moved(ls, id, Checking), ls.cached);
    case Checking =>
      if load.key in ls.cached {
        step, ls' := HitLate(id), ls.(loads := Moved(ls, id, Leaving));
      } else {
        step, ls' := Fetch(id), ls.(loads := Moved(ls, id, Fetching));
      }
    case Fetching => step, ls' := Fetched(id), ls.(loads := Moved(ls, id, Storing));
    case Storing =>
      step, ls' := Stored(id, true), LoadState(locks, Moved(ls, id, Leaving), ls.cached + {load.key});
    case Leaving =>
      var locks', own := CanFinish(locks, id);
      step, ls' := Leave(id), LoadState(locks', Moved(ls, id, Left), ls.cached);
    case Left =>
      var locks', own := CanFinish(locks, id);
      step, ls' := Unlocked(id), LoadState(locks', ls.loads - {id}, ls.cached);
  }
}
