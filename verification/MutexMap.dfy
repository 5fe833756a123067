/**
  Per-key read/write mutexes that are allocated on demand and dropped when the
  last user releases its reference, under any interleaving of callers.
 */
module MutexMap {
  type Key = string
  type MutexID = nat
  type CallID = nat

  /** mutexMapEntry */
  datatype Entry = Entry(mut: MutexID, refCount: int)

  type Entries = map<Key, Entry>

  // ---------- the two critical sections of mutexMap ----------

  function AddRef(entries: Entries, key: Key, newMutex: MutexID): (Entries, MutexID) {
    var ent := if key in entries then entries[key] else Entry(newMutex, 0);
    (entries[key := Entry(ent.mut, ent.refCount + 1)], ent.mut)
  }

  function ReleaseRef(entries: Entries, key: Key): (Entries, MutexID)
    requires key in entries
  {
    var ent := Entry(entries[key].mut, entries[key].refCount - 1);
    (if ent.refCount == 0 then entries - {key} else entries[key := ent], ent.mut)
  }

  class MutexMap {
    var entries: Entries
    var nextMutex: MutexID // identities of mutexes allocated later

    constructor ()
      ensures entries == map[]
    {
      entries, nextMutex := map[], 0;
    }

    method GetMutexAndAddRef(key: Key) returns (mut: MutexID)
      modifies this
      ensures (entries, mut) == AddRef(old(entries), key, old(nextMutex))
      ensures nextMutex >= old(nextMutex) && (key !in old(entries) ==> nextMutex == old(nextMutex) + 1)
    {
      if key !in entries {
        entries := entries[key := Entry(nextMutex, 0)];
        nextMutex := nextMutex + 1;
      }
      var ent := entries[key];
      entries := entries[key := ent.(refCount := ent.refCount + 1)];
      assert entries == AddRef(old(entries), key, old(nextMutex)).0;
      return ent.mut;
    }

    method GetMutexAndReleaseRef(key: Key) returns (mut: MutexID)
      requires key in entries
      modifies this
      ensures (entries, mut) == ReleaseRef(old(entries), key)
      ensures nextMutex == old(nextMutex)
    {
      var ent := entries[key].(refCount := entries[key].refCount - 1);
      entries := entries[key := ent];
      if ent.refCount == 0 {
        entries := entries - {key};
      }
      assert entries == ReleaseRef(old(entries), key).0;
      return ent.mut;
    }
  }

  // ---------- callers ----------

  datatype Mode = Exclusive | Shared

  /**
    Where a caller is: it has its reference and waits for the mutex; it holds
    the mutex; its try-lock failed and the reference is still to be released;
    it has released the reference and is about to unlock.
   */
  datatype Phase = Waiting | Holding | TryFailed | Unlocking

  datatype Call = Call(key: Key, mode: Mode, phase: Phase, mut: MutexID)

  /** All calls in progress, and the state of each mutex is given by the calls that hold it. */
  datatype State = State(entries: Entries, nextMutex: MutexID, calls: map<CallID, Call>)

  datatype Step =
    | StartLock(id: CallID, key: Key, mode: Mode)
    | Acquire(id: CallID)
    | FailTry(id: CallID)
    | AbandonTry(id: CallID)
    | Release(id: CallID)
    | Unlock(id: CallID)

  /** The call holds its mutex, or still has to unlock it. */
  predicate Locks(c: Call) {
    c.phase == Holding || c.phase == Unlocking
  }

  /** The call is between add-ref and release-ref. */
  predicate Counted(c: Call) {
    c.phase != Unlocking
  }

  /** A sync.RWMutex can be taken in the given mode: by a writer if nobody has it, by a reader if no writer has it. */
  ghost predicate Available(st: State, mut: MutexID, mode: Mode) {
    forall id :: id in st.calls && st.calls[id].mut == mut && Locks(st.calls[id]) ==>
      mode == Shared && st.calls[id].mode == Shared
  }

  ghost predicate Next(st: State, st': State, step: Step) {
    match step
    case StartLock(id, key, mode) =>
      && id !in st.calls
      && var (entries, mut) := AddRef(st.entries, key, st.nextMutex);
         && st'.entries == entries
         && st'.nextMutex == (if key in st.entries then st.nextMutex else st.nextMutex + 1)
         && st'.calls == st.calls[id := Call(key, mode, Waiting, mut)]
    case Acquire(id) =>
      && id in st.calls && st.calls[id].phase == Waiting && Available(st, st.calls[id].mut, st.calls[id].mode)
      && st' == st.(calls := st.calls[id := st.calls[id].(phase := Holding)])
    case FailTry(id) =>
      && id in st.calls && st.calls[id].phase == Waiting
      && st' == st.(calls := st.calls[id := st.calls[id].(phase := TryFailed)])
    case AbandonTry(id) =>
      && id in st.calls && st.calls[id].phase == TryFailed && st.calls[id].key in st.entries
      && st' == State(ReleaseRef(st.entries, st.calls[id].key).0, st.nextMutex, st.calls - {id})
    case Release(id) =>
      && id in st.calls && st.calls[id].phase == Holding && st.calls[id].key in st.entries
      && var (entries, mut) := ReleaseRef(st.entries, st.calls[id].key);
         st' == State(entries, st.nextMutex, st.calls[id := st.calls[id].(phase := Unlocking, mut := mut)])
    case Unlock(id) =>
      && id in st.calls && st.calls[id].phase == Unlocking
      && st' == st.(calls := st.calls - {id})
  }

  // ---------- invariant ----------

  /** The calls that hold a reference for the key. */
  ghost function Users(calls: map<CallID, Call>, key: Key): set<CallID> {
    set id | id in calls && calls[id].key == key && Counted(calls[id])
  }

  /** An entry exists exactly while calls hold references for its key, and counts them. */
  ghost predicate Counts(entries: Entries, calls: map<CallID, Call>, key: Key) {
    if key in entries then entries[key].refCount == |Users(calls, key)| > 0 else Users(calls, key) == {}
  }

  ghost predicate CountsMatch(st: State) {
    forall key :: Counts(st.entries, st.calls, key)
  }

  /** All calls with a reference for a key share the mutex of its entry; entries have mutexes of their own. */
  ghost predicate MutexesShared(st: State) {
    && (forall id :: id in st.calls ==> st.calls[id].mut < st.nextMutex)
    && (forall id :: id in st.calls && Counted(st.calls[id]) ==>
          st.calls[id].key in st.entries && st.entries[st.calls[id].key].mut == st.calls[id].mut)
    && (forall key :: key in st.entries ==> st.entries[key].mut < st.nextMutex)
  }

  predicate BothLock(c: Call, d: Call) {
    c.mut == d.mut && Locks(c) && Locks(d)
  }

  /** No mutex is held by a writer together with anybody else. */
  ghost predicate MutexesSound(st: State) {
    forall i, j :: i in st.calls && j in st.calls && i != j && BothLock(st.calls[i], st.calls[j]) ==>
      st.calls[i].mode == Shared && st.calls[j].mode == Shared
  }

  ghost predicate Inv(st: State) {
    CountsMatch(st) && MutexesShared(st) && MutexesSound(st)
  }

  lemma UsersGain(calls: map<CallID, Call>, id: CallID, c: Call, key: Key)
    requires id !in calls || !Counted(calls[id])
    ensures Users(calls[id := c], key) ==
            if c.key == key && Counted(c) then Users(calls, key) + {id} else Users(calls, key)
  {
  }

  lemma UsersKeep(calls: map<CallID, Call>, id: CallID, c: Call, key: Key)
    requires id in calls && c.key == calls[id].key && Counted(c) == Counted(calls[id])
    ensures Users(calls[id := c], key) == Users(calls, key)
  {
  }

  lemma UsersLose(calls: map<CallID, Call>, id: CallID, calls': map<CallID, Call>, key: Key)
    requires calls' == calls - {id} || (id in calls && calls' == calls[id := calls[id].(phase := Unlocking)])
    ensures Users(calls', key) == Users(calls, key) - {id}
  {
  }

  /**
    A call that has its reference finds the entry, with the mutex it took the
    reference on; so releasing never panics.
   */
  lemma ReferenceIsThere(st: State, id: CallID)
    requires Inv(st) && id in st.calls && Counted(st.calls[id])
    ensures st.calls[id].key in st.entries && st.entries[st.calls[id].key].refCount > 0
    ensures ReleaseRef(st.entries, st.calls[id].key).1 == st.calls[id].mut
  {
    assert Counts(st.entries, st.calls, st.calls[id].key);
    assert id in Users(st.calls, st.calls[id].key);
  }

  lemma StartKeepsCounts(st: State, st': State, id: CallID, key: Key, mode: Mode, k: Key)
    requires Counts(st.entries, st.calls, k) && Next(st, st', StartLock(id, key, mode))
    ensures Counts(st'.entries, st'.calls, k)
  {
    UsersGain(st.calls, id, st'.calls[id], k);
    if k == key {
      assert Users(st'.calls, k) == Users(st.calls, k) + {id};
    }
  }

  lemma StartKeepsMutexes(st: State, st': State, id: CallID, key: Key, mode: Mode)
    requires Inv(st) && Next(st, st', StartLock(id, key, mode))
    ensures MutexesShared(st') && MutexesSound(st')
  {
    assert Counts(st.entries, st.calls, key);
    forall j | j in st'.calls && Counted(st'.calls[j])
      ensures st'.calls[j].key in st'.entries && st'.entries[st'.calls[j].key].mut == st'.calls[j].mut
    {
      if j != id && key !in st.entries {
        assert j !in Users(st.calls, key);
      }
    }
  }

  lemma PhaseChangeKeepsCounts(st: State, st': State, id: CallID, c: Call, k: Key)
    requires Counts(st.entries, st.calls, k) && id in st.calls && c.key == st.calls[id].key
    requires Counted(c) == Counted(st.calls[id])
    requires st' == st.(calls := st.calls[id := c])
    ensures Counts(st'.entries, st'.calls, k)
  {
    UsersKeep(st.calls, id, c, k);
  }

  lemma PhaseChangeKeepsMutexes(st: State, st': State, id: CallID, phase: Phase)
    requires MutexesShared(st) && MutexesSound(st) && id in st.calls && st.calls[id].phase == Waiting
    requires phase == TryFailed || (phase == Holding && Available(st, st.calls[id].mut, st.calls[id].mode))
    requires st' == st.(calls := st.calls[id := st.calls[id].(phase := phase)])
    ensures MutexesShared(st') && MutexesSound(st')
  {
  }

  lemma PhaseChangeKeepsInv(st: State, st': State, id: CallID, phase: Phase)
    requires Inv(st) && id in st.calls && st.calls[id].phase == Waiting
    requires phase == TryFailed || (phase == Holding && Available(st, st.calls[id].mut, st.calls[id].mode))
    requires st' == st.(calls := st.calls[id := st.calls[id].(phase := phase)])
    ensures Inv(st')
  {
    forall k
      ensures Counts(st'.entries, st'.calls, k)
    {
      PhaseChangeKeepsCounts(st, st', id, st.calls[id].(phase := phase), k);
    }
    PhaseChangeKeepsMutexes(st, st', id, phase);
  }

  /** `calls'` is `calls` after call id gave up its reference. */
  ghost predicate GaveUp(calls: map<CallID, Call>, id: CallID, calls': map<CallID, Call>) {
    && id in calls && Counted(calls[id])
    && (calls' == calls - {id} || calls' == calls[id := calls[id].(phase := Unlocking)])
  }

  lemma ReleaseKeepsCounts(st: State, id: CallID, calls': map<CallID, Call>, k: Key)
    requires GaveUp(st.calls, id, calls') && st.calls[id].key in st.entries
    requires Counts(st.entries, st.calls, k) && Counts(st.entries, st.calls, st.calls[id].key)
    ensures Counts(ReleaseRef(st.entries, st.calls[id].key).0, calls', k)
  {
    UsersLose(st.calls, id, calls', k);
    ReleaseKeepsCount(st.entries, st.calls[id].key, k, Users(st.calls, k), id, Users(calls', k));
  }

  lemma ReleaseKeepsCount(entries: Entries, key: Key, k: Key, users: set<CallID>, id: CallID, users': set<CallID>)
    requires key in entries && (if k in entries then entries[k].refCount == |users| > 0 else users == {})
    requires (id in users <==> k == key) && users' == users - {id}
    ensures var entries' := ReleaseRef(entries, key).0;
            if k in entries' then entries'[k].refCount == |users'| > 0 else users' == {}
  {
    if k == key {
      assert |users'| == |users| - 1;
    } else {
      assert users' == users;
    }
  }

  lemma ReleaseKeepsMutexes(st: State, id: CallID, calls': map<CallID, Call>, st': State)
    requires Inv(st) && GaveUp(st.calls, id, calls') && st.calls[id].key in st.entries
    requires st.calls[id].phase == TryFailed ==> calls' == st.calls - {id}
    requires st.calls[id].phase != Waiting
    requires st' == State(ReleaseRef(st.entries, st.calls[id].key).0, st.nextMutex, calls')
    ensures MutexesShared(st') && MutexesSound(st')
  {
    var key := st.calls[id].key;
    forall j | j in calls' && Counted(calls'[j])
      ensures calls'[j].key in st'.entries && st'.entries[calls'[j].key].mut == calls'[j].mut
    {
      if calls'[j].key == key {
        assert Counts(st.entries, st.calls, key);
        SubsetIsSmaller({id, j}, Users(st.calls, key));
      }
    }
  }

  lemma ReleaseKeepsInv(st: State, id: CallID, calls': map<CallID, Call>, st': State)
    requires Inv(st) && GaveUp(st.calls, id, calls') && st.calls[id].key in st.entries
    requires st.calls[id].phase == TryFailed ==> calls' == st.calls - {id}
    requires st.calls[id].phase != Waiting
    requires st' == State(ReleaseRef(st.entries, st.calls[id].key).0, st.nextMutex, calls')
    ensures Inv(st')
  {
    forall k
      ensures Counts(st'.entries, st'.calls, k)
    {
      assert Counts(st.entries, st.calls, k) && Counts(st.entries, st.calls, st.calls[id].key);
      ReleaseKeepsCounts(st, id, calls', k);
    }
    ReleaseKeepsMutexes(st, id, calls', st');
  }

  lemma SubsetIsSmaller(a: set<CallID>, b: set<CallID>)
    requires a <= b
    ensures |a| <= |b|
  {
    assert b == a + (b - a);
  }

  lemma UnlockKeepsInv(st: State, st': State, id: CallID)
    requires Inv(st) && Next(st, st', Unlock(id))
    ensures Inv(st')
  {
    forall k
      ensures Counts(st'.entries, st'.calls, k)
    {
      assert Counts(st.entries, st.calls, k);
      UsersLose(st.calls, id, st'.calls, k);
      assert Users(st.calls, k) - {id} == Users(st.calls, k);
    }
  }

  lemma StartKeepsInv(st: State, st': State, id: CallID, key: Key, mode: Mode)
    requires Inv(st) && Next(st, st', StartLock(id, key, mode))
    ensures Inv(st')
  {
    forall k
      ensures Counts(st'.entries, st'.calls, k)
    {
      StartKeepsCounts(st, st', id, key, mode, k);
    }
    StartKeepsMutexes(st, st', id, key, mode);
  }

  /** Every step of every caller keeps the reference counts exact and the mutexes shared. */
  lemma StepKeepsInv(st: State, st': State, step: Step)
    requires Inv(st) && Next(st, st', step)
    ensures Inv(st')
  {
    match step
    case StartLock(id, key, mode) => StartKeepsInv(st, st', id, key, mode);
    case Acquire(id) => PhaseChangeKeepsInv(st, st', id, Holding);
    case FailTry(id) => PhaseChangeKeepsInv(st, st', id, TryFailed);
    case AbandonTry(id) => ReleaseKeepsInv(st, id, st.calls - {id}, st');
    case Release(id) =>
      ReferenceIsThere(st, id);
      ReleaseKeepsInv(st, id, st.calls[id := st.calls[id].(phase := Unlocking)], st');
    case Unlock(id) => UnlockKeepsInv(st, st', id);
  }

  ghost predicate IsRun(states: seq<State>, steps: seq<Step>) {
    && |states| == |steps| + 1
    && states[0] == State(map[], 0, map[])
    && forall i :: 0 <= i < |steps| ==> Next(states[i], states[i + 1], steps[i])
  }

  lemma {:induction false} RunsKeepInv(states: seq<State>, steps: seq<Step>, i: nat)
    requires IsRun(states, steps) && i < |states|
    ensures Inv(states[i])
  {
    if i > 0 {
      RunsKeepInv(states, steps, i - 1);
      StepKeepsInv(states[i - 1], states[i], steps[i - 1]);
    } else {
      EmptyIsInv();
    }
  }

  lemma EmptyIsInv()
    ensures Inv(State(map[], 0, map[]))
  {
    assert forall k :: Users(map[], k) == {};
  }

  /** Two holders of a key are both readers. */
  lemma HoldersShare(st: State, a: CallID, b: CallID)
    requires Inv(st) && a in st.calls && b in st.calls && a != b && st.calls[a].key == st.calls[b].key
    requires st.calls[a].phase == Holding && st.calls[b].phase == Holding
    ensures st.calls[a].mode == Shared && st.calls[b].mode == Shared
  {
  }

  /** In every run, a call that holds a key exclusively is the only one that holds the key. */
  lemma ExclusiveHolderIsAlone(states: seq<State>, steps: seq<Step>, i: nat, a: CallID, b: CallID)
    requires IsRun(states, steps) && i < |states|
    requires a in states[i].calls && b in states[i].calls && a != b && states[i].calls[a].key == states[i].calls[b].key
    requires states[i].calls[a].phase == Holding && states[i].calls[b].phase == Holding
    ensures states[i].calls[a].mode == Shared && states[i].calls[b].mode == Shared
  {
    RunsKeepInv(states, steps, i);
  }

  /** In every run, an entry exists exactly while calls hold references for its key, and counts them. */
  lemma EntriesCountUsers(states: seq<State>, steps: seq<Step>, i: nat, key: Key)
    requires IsRun(states, steps) && i < |states|
    ensures var st := states[i];
            && Counts(st.entries, st.calls, key)
            && forall id :: id in Users(st.calls, key) ==> st.calls[id].mut == st.entries[key].mut
  {
    RunsKeepInv(states, steps, i);
    assert Counts(states[i].entries, states[i].calls, key);
  }

  /** In every run, no mutex is locked by a writer and somebody else, also not while an unlock is still to come. */
  lemma MutexesExclude(states: seq<State>, steps: seq<Step>, i: nat, a: CallID, b: CallID)
    requires IsRun(states, steps) && i < |states|
    requires a in states[i].calls && b in states[i].calls && a != b && states[i].calls[a].mut == states[i].calls[b].mut
    requires states[i].calls[a].phase in {Holding, Unlocking} && states[i].calls[b].phase in {Holding, Unlocking}
    ensures states[i].calls[a].mode == Shared && states[i].calls[b].mode == Shared
  {
    RunsKeepInv(states, steps, i);
    assert BothLock(states[i].calls[a], states[i].calls[b]);
  }

  /** Nothing is left when no call is in progress. */
  lemma NoEntryLeaks(states: seq<State>, steps: seq<Step>, i: nat)
    requires IsRun(states, steps) && i < |states| && states[i].calls == map[]
    ensures states[i].entries == map[]
  {
    RunsKeepInv(states, steps, i);
    forall key
      ensures key !in states[i].entries
    {
      assert Counts(states[i].entries, states[i].calls, key) && Users(states[i].calls, key) == {};
    }
    assert states[i].entries.Keys == {};
  }

  /** A new call can always add its reference. */
  lemma CanLock(st: State, id: CallID, key: Key, mode: Mode) returns (st': State)
    requires id !in st.calls
    ensures Next(st, st', StartLock(id, key, mode))
  {
    var (entries, mut) := AddRef(st.entries, key, st.nextMutex);
    st' := State(entries, if key in st.entries then st.nextMutex else st.nextMutex + 1,
                 st.calls[id := Call(key, mode, Waiting, mut)]);
  }

  /** A call can take its next step: at once, or when its mutex is available. */
  lemma CanFinish(st: State, id: CallID) returns (st': State, step: Step)
    requires Inv(st) && id in st.calls
    requires st.calls[id].phase == Waiting ==> Available(st, st.calls[id].mut, st.calls[id].mode)
    ensures Next(st, st', step)
    ensures match st.calls[id].phase
            case Waiting => step == Acquire(id)
            case Holding => step == Release(id)
            case TryFailed => step == AbandonTry(id)
            case Unlocking => step == Unlock(id)
  {
    var c := st.calls[id];
    match c.phase
    case Waiting => step, st' := Acquire(id), st.(calls := st.calls[id := c.(phase := Holding)]);
    case Holding =>
      ReferenceIsThere(st, id);
      var (entries, mut) := ReleaseRef(st.entries, c.key);
      step, st' := Release(id), State(entries, st.nextMutex, st.calls[id := c.(phase := Unlocking, mut := mut)]);
    case TryFailed =>
      ReferenceIsThere(st, id);
      step, st' := AbandonTry(id), State(ReleaseRef(st.entries, c.key).0, st.nextMutex, st.calls - {id});
    case Unlocking => step, st' := Unlock(id), st.(calls := st.calls - {id});
  }

  /** In every run, as long as calls are in progress, one of them can take its next step. */
  lemma NoDeadlock(states: seq<State>, steps: seq<Step>, i: nat) returns (st': State, step: Step)
    requires IsRun(states, steps) && i < |states| && states[i].calls != map[]
    ensures Next(states[i], st', step) && step.id in states[i].calls && !step.FailTry?
  {
    var st := states[i];
    RunsKeepInv(states, steps, i);
    var id :| id in st.calls;
    if k :| k in st.calls && st.calls[k].phase != Waiting {
      id := k;
    }
    st', step := CanFinish(st, id);
  }

  /** A try-lock never waits. */
  lemma TryNeverWaits(st: State, id: CallID) returns (st': State)
    requires id in st.calls && st.calls[id].phase == Waiting
    ensures Next(st, st', FailTry(id))
  {
    st' := st.(calls := st.calls[id := st.calls[id].(phase := TryFailed)]);
  }

  predicate HoldsExclusively(c: Call, key: Key) {
    c.key == key && c.phase == Holding && c.mode == Exclusive
  }

  /** Calls 0 and 1 have locked the same key exclusively, and call 0 has still to unlock. */
  ghost predicate Overlap(st: State) {
    && 0 in st.calls && 1 in st.calls
    && st.calls[0] == Call(st.calls[1].key, Exclusive, Unlocking, st.calls[0].mut)
    && HoldsExclusively(st.calls[1], st.calls[1].key) && st.calls[0].mut != st.calls[1].mut
  }

  /**
    The window is real: a call that has released its reference but not yet
    unlocked can coexist with another exclusive holder of the key, on a new mutex.
   */
  lemma UnlockMayComeLate(k: Key) returns (states: seq<State>, steps: seq<Step>)
    ensures IsRun(states, steps) && Overlap(states[|states| - 1]) && states[|states| - 1].calls[1].key == k
  {
    var c0, c1 := Call(k, Exclusive, Waiting, 0), Call(k, Exclusive, Waiting, 1);
    var h0, h1, u0 := c0.(phase := Holding), c1.(phase := Holding), c0.(phase := Unlocking);
    var s0 := State(map[], 0, map[]);
    var s1 := State(map[k := Entry(0, 1)], 1, map[0 := c0]);
    var s2 := State(s1.entries, 1, map[0 := h0]);
    var s3 := State(map[], 1, map[0 := u0]);
    var s4 := State(map[k := Entry(1, 1)], 2, map[0 := u0, 1 := c1]);
    var s5 := State(s4.entries, 2, map[0 := u0, 1 := h1]);
    assert s2.entries - {k} == map[];
    assert Next(s0, s1, StartLock(0, k, Exclusive));
    assert Next(s1, s2, Acquire(0));
    assert Next(s2, s3, Release(0));
    assert Next(s3, s4, StartLock(1, k, Exclusive));
    assert Next(s4, s5, Acquire(1));
    states := [s0, s1, s2, s3, s4, s5];
    steps := [StartLock(0, k, Exclusive), Acquire(0), Release(0), StartLock(1, k, Exclusive), Acquire(1)];
  }
}
